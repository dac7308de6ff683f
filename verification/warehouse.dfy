/**
 * The database the pipeline populates, updated in place: one sequence per table, the value of
 * each SERIAL sequence, the rows of the stage tables and which tables exist. Its methods are
 * the steps of populate_db.py; each is proved against the function of the previous state that
 * says what the step leaves behind.
 */
module Warehouse {
  import opened Wrappers
  import opened Upsert
  import opened Schema
  import opened Stages
  import opened Staging
  import opened Dimensions
  import opened Entities
  import opened Facts
  import opened Pipeline

  class Database {
    var present: set<string>
    var stages: map<string, seq<Row>>
    var regions: seq<RegionRow>
    var nextRegionId: nat
    var countries: seq<CountryRow>
    var nextCountryId: nat
    var categories: seq<CategoryRow>
    var nextCategoryId: nat
    var customers: seq<CustomerRow>
    var nextCustomerId: nat
    var products: seq<ProductRow>
    var nextProductId: nat
    var orders: seq<OrderRow>
    var nextOrderId: nat
    var productFk: bool

    /** The dimension tables and their sequences as a value. */
    function Dims(): DimensionTables
      reads this
    {
      DimensionTables(regions, nextRegionId, countries, nextCountryId, categories, nextCategoryId)
    }

    /** The entity tables and their sequences as a value. */
    function Ents(): EntityTables
      reads this
    {
      EntityTables(customers, nextCustomerId, products, nextProductId)
    }

    /** The contents of the database as a value. */
    function State(): Store
      reads this
    {
      Store(present, stages, Dims(), Ents(), orders, nextOrderId, productFk)
    }

    predicate Valid()
      reads this
    {
      StoreValid(State())
    }

    /** A database without any of the pipeline's tables. */
    constructor()
      ensures Valid() && State() == EmptyStore
    {
      present, stages := {}, map[];
      regions, nextRegionId, countries, nextCountryId, categories, nextCategoryId := [], 1, [], 1, [], 1;
      customers, nextCustomerId, products, nextProductId := [], 1, [], 1;
      orders, nextOrderId, productFk := [], 1, true;
    }

    /** Overwrites the dimension tables and their sequences. */
    method SetDims(d: DimensionTables)
      modifies this
      ensures Dims() == d
      ensures present == old(present) && stages == old(stages) && Ents() == old(Ents())
      ensures orders == old(orders) && nextOrderId == old(nextOrderId) && productFk == old(productFk)
    {
      regions, nextRegionId := d.regions, d.nextRegionId;
      countries, nextCountryId := d.countries, d.nextCountryId;
      categories, nextCategoryId := d.categories, d.nextCategoryId;
    }

    /** Overwrites the entity tables and their sequences. */
    method SetEnts(e: EntityTables)
      modifies this
      ensures Ents() == e
      ensures present == old(present) && stages == old(stages) && Dims() == old(Dims())
      ensures orders == old(orders) && nextOrderId == old(nextOrderId) && productFk == old(productFk)
    {
      customers, nextCustomerId := e.customers, e.nextCustomerId;
      products, nextProductId := e.products, e.nextProductId;
    }

    // ------------------------------------------------------------ drop_existing_tables

    /** Overwrites every field with the contents of `s`. */
    method Assign(s: Store)
      modifies this
      ensures State() == s
    {
      SetDims(s.dims);
      SetEnts(s.ents);
      present, stages := s.present, s.stages;
      orders, nextOrderId, productFk := s.orders, s.nextOrderId, s.productFk;
    }

    /** One committed `DROP TABLE IF EXISTS t CASCADE`. */
    method DropOne(t: string)
      modifies this
      ensures State() == DropTable(old(State()), t)
    {
      Assign(DropTable(State(), t));
    }

    /** drop_existing_tables: the twelve drops in listed order, `outcomes[i]` being the server's
        answer to the i-th; a busy lock skips the drop, any other error ends the loop. */
    method DropExistingTables(outcomes: seq<DropOutcome>) returns (r: Outcome<DbError>)
      requires Valid() && |outcomes| == |DropTablesSql|
      modifies this
      ensures Valid()
      ensures (State(), r) == DropAll(old(State()), DropTablesSql, outcomes)
    {
      DropAllSpec(State(), DropTablesSql, outcomes);
      var i := 0;
      while i < |DropTablesSql|
        invariant 0 <= i <= |DropTablesSql|
        invariant DropAll(old(State()), DropTablesSql, outcomes) == DropAll(State(), DropTablesSql[i..], outcomes[i..])
        decreases |DropTablesSql| - i
      {
        assert DropTablesSql[i..][1..] == DropTablesSql[i + 1..] && outcomes[i..][1..] == outcomes[i + 1..];
        match outcomes[i] {
          case Dropped =>
            DropOne(DropTablesSql[i]);
          case LockBusy =>
          case Failed(e) =>
            return Fail(e);
        }
        i := i + 1;
      }
      return Pass;
    }

    // ------------------------------------------------------------ create_tables

    /** create_tables: every missing table is created empty. */
    method CreateTables()
      requires Valid()
      modifies this
      ensures Valid() && State() == CreateAll(old(State()))
    {
      CreateAllSpec(State());
      Assign(CreateAll(State()));
    }

    /** `DELETE FROM t`, committed. */
    method Clear(t: string)
      requires t in stages
      modifies this`stages
      ensures stages == old(stages)[t := []]
    {
      stages := stages[t := []];
    }

    /** One `execute_batch` of the buffered rows into t, committed. */
    method Flush(t: string, buffer: seq<Row>)
      requires t in stages
      modifies this`stages
      ensures stages == old(stages)[t := old(stages)[t] + buffer]
    {
      stages := stages[t := stages[t] + buffer];
    }

    // ------------------------------------------------------------ load_tsv_to_stage

    /** load_tsv_to_stage: after the checks of the file, the stage table is emptied and the
        projected rows are inserted in batches of `batchSize`. `flushed` lists the size of each
        batch and `totals` the row count reported after each. */
    method LoadTsvToStage(fs: FileSystem, path: string, stageTable: string, expected: seq<string>, batchSize: int)
      returns (r: Outcome<LoadError>, flushed: seq<nat>, totals: seq<nat>)
      requires Valid()
      modifies this`stages
      ensures Valid()
      ensures var res := StageLoad(fs, path, stageTable, expected, old(stages));
        if res.Failure? then r == Fail(res.error) && stages == old(stages) && flushed == []
        else r == Pass && stages == res.value && flushed == BatchSizes(|fs[path].rows|, batchSize)
      ensures totals == RunningTotals(flushed)
    {
      flushed, totals := [], [];
      StageLoadCases(fs, path, stageTable, expected, stages);
      var check := CheckFile(fs, path, expected);
      if check.Failure? {
        return Fail(check.error), flushed, totals;
      }
      if stageTable !in stages {
        return Fail(StageMissing(stageTable)), flushed, totals;
      }
      flushed, totals := Reload(stageTable, check.value, expected, batchSize);
      return Pass, flushed, totals;
    }

    /** The stage table is emptied (`DELETE`, committed) and refilled with the rows of `f`. */
    method Reload(t: string, f: TsvFile, expected: seq<string>, batchSize: int)
      returns (flushed: seq<nat>, totals: seq<nat>)
      requires Valid() && t in stages
      modifies this`stages
      ensures Valid() && stages == old(stages)[t := StageRows(f, expected)]
      ensures flushed == BatchSizes(|f.rows|, batchSize) && totals == RunningTotals(flushed)
    {
      Clear(t);
      flushed, totals := InsertBatches(t, f, expected, batchSize);
      ghost var s0 := old(State());
      StagesValid(s0, stages);
      assert State() == s0.(stages := stages);
    }

    /** The rest of load_tsv_to_stage after the DELETE: the rows are read in batches, and
        what is left in the buffer at the end is flushed as the final batch. */
    method InsertBatches(t: string, f: TsvFile, expected: seq<string>, batchSize: int)
      returns (flushed: seq<nat>, totals: seq<nat>)
      requires t in stages && stages[t] == []
      modifies this`stages
      ensures stages == old(stages)[t := StageRows(f, expected)]
      ensures flushed == BatchSizes(|f.rows|, batchSize) && totals == RunningTotals(flushed)
    {
      ghost var staged := StageRows(f, expected);
      var buffer, total;
      buffer, total, flushed, totals := ReadRows(t, f, expected, batchSize);
      if buffer != [] {
        BatchedLast(|f.rows|, batchSize, total, flushed, totals, |buffer|);
        assert staged[..total] + staged[total..] == staged;
        Flush(t, buffer);
        assert stages == old(stages)[t := staged];
        total := total + |buffer|;
        flushed, totals := flushed + [|buffer|], totals + [total];
      } else {
        BatchedDone(|f.rows|, batchSize, flushed, totals);
        assert staged[..total] == staged;
      }
    }

    /** The loop of load_tsv_to_stage over the data rows of `f`: each projected row joins the
        buffer, and a buffer of `batchSize` rows is flushed. */
    method ReadRows(t: string, f: TsvFile, expected: seq<string>, batchSize: int)
      returns (buffer: seq<Row>, total: nat, flushed: seq<nat>, totals: seq<nat>)
      requires t in stages && stages[t] == []
      modifies this`stages
      ensures total <= |f.rows|
      ensures stages == old(stages)[t := StageRows(f, expected)[..total]]
      ensures buffer == StageRows(f, expected)[total..]
      ensures batchSize >= 1 ==> |buffer| < batchSize
      ensures Batched(|f.rows|, batchSize, total, flushed, totals)
    {
      var rows := f.rows;
      ghost var staged := StageRows(f, expected);
      flushed, totals := [], [];
      buffer, total := [], 0;
      var i := 0;
      while i < |rows|
        invariant 0 <= total <= i <= |rows|
        invariant stages == old(stages)[t := staged[..total]]
        invariant buffer == staged[total..i]
        invariant batchSize >= 1 ==> |buffer| < batchSize
        invariant Batched(|rows|, batchSize, total, flushed, totals)
      {
        assert staged[i] == Project(rows[i], expected);
        Extend(staged, total, i);
        buffer := buffer + [Project(rows[i], expected)];
        if |buffer| == batchSize {
          BatchedFlush(|rows|, batchSize, total, flushed, totals);
          assert staged[..total] + buffer == staged[..i + 1];
          Flush(t, buffer);
          assert stages == old(stages)[t := staged[..i + 1]];
          total := total + |buffer|;
          flushed, totals := flushed + [|buffer|], totals + [total];
          buffer := [];
        }
        i := i + 1;
      }
    }

    // ------------------------------------------------------------ load_all_staging

    /** load_all_staging: every configured file that exists is loaded into its stage table. */
    method LoadAllStaging(fs: FileSystem) returns (r: Outcome<LoadError>)
      requires Valid()
      modifies this`stages
      ensures Valid() && State() == old(State()).(stages := stages)
      ensures forall i :: 0 <= i < |Files| ==> Files[i].name in ExpectedColumns
      ensures (stages, r) == StageAll(Files, fs, old(stages))
    {
      ConfiguredLoad(fs, stages);
      var i := 0;
      while i < |Files|
        invariant 0 <= i <= |Files|
        invariant Valid()
        invariant StageAll(Files, fs, old(stages)) == StageAll(Files[i..], fs, stages)
      {
        var f := Files[i];
        assert Files[i..][1..] == Files[i + 1..];
        if f.filename in fs {
          var res, _, _ := LoadTsvToStage(fs, f.filename, StageTableOf(f), ExpectedColumns[f.name], BatchSizeOf(f));
          if res.Fail? {
            return res;
          }
        }
        i := i + 1;
      }
      return Pass;
    }

    // ------------------------------------------------------------ build_dimensions

    /** build_dimensions: the new regions, countries and categories are appended with fresh ids
        from their sequences, all three or, when a table is missing, none. */
    method BuildDimensions(o: DimensionOrders) returns (r: Outcome<DbError>)
      requires Valid() && DimensionOrdersFit(Staged(State()), State().dims, o)
      modifies this
      ensures Valid()
      ensures var res := DimensionsStep(old(State()), o);
        if res.Failure? then r == Fail(res.error) && State() == old(State()) else r == Pass && State() == res.value
    {
      DimensionsStepSpec(State(), o);
      var res := DimensionsStep(State(), o);
      if res.Failure? {
        return Fail(res.error);
      }
      // The three INSERTs append the new regions, countries and categories to their tables.
      SetDims(res.value.dims);
      return Pass;
    }

    // ------------------------------------------------------------ load_entities

    /** load_entities: the new customers and products are appended with fresh ids, both or,
        when a statement raises, neither. */
    method LoadEntities(customerOrder: seq<(nat, nat)>, productCands: seq<ProductCandidate>) returns (r: Outcome<DbError>)
      requires Valid()
      requires Enumerates(customerOrder, CustomerJoin(Staged(State()), countries))
      requires SelectsProducts(Staged(State()), productCands)
      modifies this
      ensures Valid()
      ensures JoinsStage(Staged(old(State())), customerOrder)
      ensures var res := EntitiesStep(old(State()), customerOrder, productCands);
        if res.Failure? then r == Fail(res.error) && State() == old(State()) else r == Pass && State() == res.value
    {
      EntitiesStepSpec(State(), customerOrder, productCands);
      var res := EntitiesStep(State(), customerOrder, productCands);
      if res.Failure? {
        return Fail(res.error);
      }
      // The two INSERTs append the new customers and products to their tables.
      SetEnts(res.value.ents);
      return Pass;
    }

    // ------------------------------------------------------------ build_facts

    /** build_facts: one new fact per joined row, dated `today`, the k-th with the quantity drawn
        from `draws[k]`. */
    method BuildFacts(order: seq<(nat, nat, nat)>, today: Date, draws: seq<Draw>) returns (r: Outcome<DbError>)
      requires Valid()
      requires Enumerates(order, FactJoin(Staged(State()), customers, products)) && |draws| == |order|
      modifies this
      ensures Valid()
      ensures var res := FactsStep(old(State()), order, today, draws);
        if res.Failure? then r == Fail(res.error) && State() == old(State()) else r == Pass && State() == res.value
    {
      FactsStepSpec(State(), order, today, draws);
      var res := FactsStep(State(), order, today, draws);
      if res.Failure? {
        return Fail(res.error);
      }
      orders, nextOrderId := orders + NewFacts(order, nextOrderId, today, draws), nextOrderId + |order|;
      return Pass;
    }
  }

  /** Reading one more row: the buffer grows by it, and a flush of the buffer extends the
      stage table to the rows read so far. */
  lemma Extend<T>(xs: seq<T>, total: nat, i: nat)
    requires total <= i < |xs|
    ensures xs[total..i + 1] == xs[total..i] + [xs[i]]
    ensures xs[..total] + xs[total..i + 1] == xs[..i + 1]
  {
  }
}
