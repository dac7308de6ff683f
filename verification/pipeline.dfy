/**
 * The whole warehouse as one value: which tables exist, the rows of the stage tables, the rows
 * of the six warehouse tables with the values their sequences stand at, and whether Product
 * still carries its foreign key to ProductCategory. Each step of the pipeline is a function
 * from one such value to the next; the class in warehouse.dfy performs them in place.
 */
module Pipeline {
  import opened Wrappers
  import opened Upsert
  import opened Schema
  import opened Stages
  import opened Dimensions
  import opened Entities
  import opened Facts

  datatype Store = Store(
    present: set<string>,
    stages: map<string, seq<Row>>,
    dims: DimensionTables,
    ents: EntityTables,
    orders: seq<OrderRow>, nextOrderId: nat,
    productFk: bool)

  const AllTables: set<string> := WarehouseTables + StageTables

  /** A newly created dimension or entity table: no rows, its sequence at 1. */
  const NoDimensions: DimensionTables := DimensionTables([], 1, [], 1, [], 1)
  const NoEntities: EntityTables := EntityTables([], 1, [], 1)

  /** A database in which none of the pipeline's tables exists. */
  const EmptyStore: Store := Store({}, map[], NoDimensions, NoEntities, [], 1, true)

  /** The rows of stage_customer (none when the table does not exist). */
  function Staged(s: Store): seq<Row> {
    if StageCustomerTable in s.stages then s.stages[StageCustomerTable] else []
  }

  /** A table that does not exist holds no rows and its sequence stands at 1, the state in
      which CREATE TABLE makes it. */
  predicate Vacant(s: Store) {
    && (RegionTable !in s.present ==> s.dims.regions == [] && s.dims.nextRegionId == 1)
    && (CountryTable !in s.present ==> s.dims.countries == [] && s.dims.nextCountryId == 1)
    && (CategoryTable !in s.present ==> s.dims.categories == [] && s.dims.nextCategoryId == 1)
    && (CustomerTable !in s.present ==> s.ents.customers == [] && s.ents.nextCustomerId == 1)
    && (ProductTable !in s.present ==> s.ents.products == [] && s.ents.nextProductId == 1)
    && (OrderDetailTable !in s.present ==> s.orders == [] && s.nextOrderId == 1)
  }

  /** What the schema guarantees at all times: only the pipeline's tables exist, a stage table
      has rows exactly when it exists, absent tables are vacant, the unique names stay unique,
      every id was drawn from its sequence, and an enforced Product foreign key has its
      ProductCategory table. */
  predicate StoreValid(s: Store) {
    && s.present <= AllTables
    && s.stages.Keys == s.present * StageTables
    && Vacant(s)
    && DimensionsKeyed(s.dims)
    && EntitiesKeyed(s.ents)
    && Serial(Ids(s.orders, OrderId), s.nextOrderId) && s.nextOrderId >= 1
    && (s.productFk && ProductTable in s.present ==> CategoryTable in s.present)
  }

  /** Every foreign key of the schema holds. */
  predicate Consistent(s: Store) {
    && CountriesReferenceRegions(s.dims.countries, s.dims.regions)
    && CustomersReferenceCountries(s.ents.customers, s.dims.countries)
    && ProductsReferenceCategories(s.ents.products, s.dims.categories)
    && OrdersReferenceCustomersAndProducts(s.orders, s.ents.customers, s.ents.products)
  }

  /** Rewriting the rows of existing stage tables keeps the schema guarantees. */
  lemma StagesValid(s: Store, m: map<string, seq<Row>>)
    requires StoreValid(s) && m.Keys == s.stages.Keys
    ensures StoreValid(s.(stages := m))
  {
  }

  // ---------------------------------------------------------------- drop_existing_tables

  /** The server's answer to one DROP statement: committed, `LockNotAvailable` (rolled back and
      skipped), or any other error (rolled back and re-raised). */
  datatype DropOutcome = Dropped | LockBusy | Failed(error: DbError)

  /** `DROP TABLE IF EXISTS t CASCADE` once committed: an absent table is left alone; a present
      one disappears with its rows and its sequence, and CASCADE removes the foreign keys that
      point at it, of which only Product's to ProductCategory is ever checked. */
  function DropTable(s: Store, t: string): Store {
    if t !in s.present then s
    else
      var d := s.dims;
      var e := s.ents;
      Store(
        s.present - {t},
        s.stages - {t},
        DimensionTables(
          if t == RegionTable then [] else d.regions, if t == RegionTable then 1 else d.nextRegionId,
          if t == CountryTable then [] else d.countries, if t == CountryTable then 1 else d.nextCountryId,
          if t == CategoryTable then [] else d.categories, if t == CategoryTable then 1 else d.nextCategoryId),
        EntityTables(
          if t == CustomerTable then [] else e.customers, if t == CustomerTable then 1 else e.nextCustomerId,
          if t == ProductTable then [] else e.products, if t == ProductTable then 1 else e.nextProductId),
        if t == OrderDetailTable then [] else s.orders, if t == OrderDetailTable then 1 else s.nextOrderId,
        if t == CategoryTable then false else s.productFk)
  }

  /** drop_existing_tables over `tables`: a dropped table is committed, a lock-busy drop is
      rolled back and skipped, and any other error is rolled back and ends the loop. */
  function DropAll(s: Store, tables: seq<string>, outcomes: seq<DropOutcome>): (Store, Outcome<DbError>)
    requires |outcomes| == |tables|
    decreases |tables|
  {
    if tables == [] then (s, Pass)
    else
      match outcomes[0]
      case Dropped => DropAll(DropTable(s, tables[0]), tables[1..], outcomes[1..])
      case LockBusy => DropAll(s, tables[1..], outcomes[1..])
      case Failed(e) => (s, Fail(e))
  }

  /** How many drops run before the first that fails with an error other than a busy lock. */
  function Attempted(outcomes: seq<DropOutcome>): (n: nat)
    ensures n <= |outcomes|
    ensures forall i :: 0 <= i < n ==> !outcomes[i].Failed?
    ensures n < |outcomes| ==> outcomes[n].Failed?
  {
    if outcomes == [] || outcomes[0].Failed? then 0 else 1 + Attempted(outcomes[1..])
  }

  /** The tables that a committed drop among the first n statements names. */
  function DroppedAmong(tables: seq<string>, outcomes: seq<DropOutcome>, n: nat): set<string>
    requires n <= |tables| == |outcomes|
  {
    set i | 0 <= i < n && outcomes[i].Dropped? :: tables[i]
  }

  lemma DropTableValid(s: Store, t: string)
    requires StoreValid(s)
    ensures StoreValid(DropTable(s, t))
    ensures DropTable(s, t).present == s.present - {t}
  {
    if t in s.present {
      var s' := DropTable(s, t);
      assert s'.stages.Keys == s'.present * StageTables;
      assert Vacant(s');
      assert DimensionsKeyed(s'.dims) by {
        assert Keyed(s'.dims.regions, RegionName, RegionId, s'.dims.nextRegionId);
        assert Keyed(s'.dims.countries, CountryName, CountryId, s'.dims.nextCountryId);
        assert Keyed(s'.dims.categories, CategoryName, CategoryId, s'.dims.nextCategoryId);
      }
      assert EntitiesKeyed(s'.ents);
      assert Serial(Ids(s'.orders, OrderId), s'.nextOrderId);
    }
  }

  /** The drops run in listed order up to the first real error: afterwards exactly the tables
      of the committed drops before it are gone, the loop fails exactly when such an error
      occurs, with that statement's error, and the schema guarantees still hold. */
  predicate DropsSettle(s: Store, tables: seq<string>, outcomes: seq<DropOutcome>)
    requires |outcomes| == |tables|
  {
    var (s', r) := DropAll(s, tables, outcomes);
    var n := Attempted(outcomes);
    && StoreValid(s')
    && s'.present == s.present - DroppedAmong(tables, outcomes, n)
    && (r.Fail? <==> n < |outcomes|)
    && (r.Fail? ==> r.error == outcomes[n].error)
  }

  lemma {:induction false} DropAllSpec(s: Store, tables: seq<string>, outcomes: seq<DropOutcome>)
    requires |outcomes| == |tables| && StoreValid(s)
    ensures DropsSettle(s, tables, outcomes)
    decreases |tables|
  {
    if tables != [] {
      match outcomes[0]
      case Failed(e) =>
        assert DroppedAmong(tables, outcomes, 0) == {};
      case Dropped =>
        DropTableValid(s, tables[0]);
        DropAllSpec(DropTable(s, tables[0]), tables[1..], outcomes[1..]);
        DropsSettleDropped(s, tables, outcomes);
      case LockBusy =>
        DropAllSpec(s, tables[1..], outcomes[1..]);
        DropsSettleBusy(s, tables, outcomes);
    }
  }

  /** A committed first drop followed by drops that settle. */
  lemma DropsSettleDropped(s: Store, tables: seq<string>, outcomes: seq<DropOutcome>)
    requires |outcomes| == |tables| && tables != [] && outcomes[0].Dropped? && StoreValid(s)
    requires DropsSettle(DropTable(s, tables[0]), tables[1..], outcomes[1..])
    ensures DropsSettle(s, tables, outcomes)
  {
    DropTableValid(s, tables[0]);
    DroppedShift(tables, outcomes, Attempted(outcomes));
  }

  /** A skipped first drop followed by drops that settle. */
  lemma DropsSettleBusy(s: Store, tables: seq<string>, outcomes: seq<DropOutcome>)
    requires |outcomes| == |tables| && tables != [] && outcomes[0].LockBusy?
    requires DropsSettle(s, tables[1..], outcomes[1..])
    ensures DropsSettle(s, tables, outcomes)
  {
    DroppedShift(tables, outcomes, Attempted(outcomes));
  }

  /** The committed drops among the first n statements: the first statement's table, if that
      drop committed, and those of the rest among the following n - 1. */
  lemma DroppedShift(tables: seq<string>, outcomes: seq<DropOutcome>, n: nat)
    requires 1 <= n <= |tables| == |outcomes|
    ensures DroppedAmong(tables, outcomes, n) ==
      (if outcomes[0].Dropped? then {tables[0]} else {}) + DroppedAmong(tables[1..], outcomes[1..], n - 1)
  {
    var a := DroppedAmong(tables, outcomes, n);
    var b := (if outcomes[0].Dropped? then {tables[0]} else {}) + DroppedAmong(tables[1..], outcomes[1..], n - 1);
    forall x | x in a ensures x in b {
      var i :| 0 <= i < n && outcomes[i].Dropped? && tables[i] == x;
      if i > 0 {
        assert outcomes[1..][i - 1] == outcomes[i] && tables[1..][i - 1] == tables[i];
      }
    }
    forall x | x in b ensures x in a {
      if !(outcomes[0].Dropped? && x == tables[0]) {
        var i :| 0 <= i < n - 1 && outcomes[1..][i].Dropped? && tables[1..][i] == x;
        assert outcomes[i + 1].Dropped? && tables[i + 1] == x;
      }
    }
  }

  /** Every table that still exists in s' holds the same rows and sequence value as in s. */
  predicate KeepsSurvivors(s: Store, s': Store) {
    && (forall t :: t in s'.stages ==> t in s.stages && s'.stages[t] == s.stages[t])
    && (RegionTable in s'.present ==> s'.dims.regions == s.dims.regions && s'.dims.nextRegionId == s.dims.nextRegionId)
    && (CountryTable in s'.present ==> s'.dims.countries == s.dims.countries && s'.dims.nextCountryId == s.dims.nextCountryId)
    && (CategoryTable in s'.present ==> s'.dims.categories == s.dims.categories && s'.dims.nextCategoryId == s.dims.nextCategoryId)
    && (CustomerTable in s'.present ==> s'.ents.customers == s.ents.customers && s'.ents.nextCustomerId == s.ents.nextCustomerId)
    && (ProductTable in s'.present ==> s'.ents.products == s.ents.products && s'.ents.nextProductId == s.ents.nextProductId)
    && (OrderDetailTable in s'.present ==> s'.orders == s.orders && s'.nextOrderId == s.nextOrderId)
  }

  /** A table that survives the drops (absent from the committed ones, or listed after the
      failing one) keeps its rows. */
  lemma {:induction false} DropAllKeeps(s: Store, tables: seq<string>, outcomes: seq<DropOutcome>)
    requires |outcomes| == |tables| && StoreValid(s)
    ensures KeepsSurvivors(s, DropAll(s, tables, outcomes).0)
    decreases |tables|
  {
    if tables != [] && outcomes[0].Dropped? {
      var s1 := DropTable(s, tables[0]);
      DropTableValid(s, tables[0]);
      DropAllSpec(s1, tables[1..], outcomes[1..]);
      DropAllKeeps(s1, tables[1..], outcomes[1..]);
      DropTableKeeps(s, tables[0]);
      KeepsCompose(s, s1, DropAll(s1, tables[1..], outcomes[1..]).0);
    } else if tables != [] && outcomes[0].LockBusy? {
      DropAllKeeps(s, tables[1..], outcomes[1..]);
    }
  }

  /** One drop keeps every other table. */
  lemma DropTableKeeps(s: Store, t: string)
    ensures KeepsSurvivors(s, DropTable(s, t))
  {
  }

  lemma KeepsCompose(s: Store, s1: Store, s2: Store)
    requires KeepsSurvivors(s, s1) && KeepsSurvivors(s1, s2) && s2.present <= s1.present
    ensures KeepsSurvivors(s, s2)
  {
  }

  /** The twelve statements name every table of the pipeline. */
  lemma DropTablesCover()
    ensures forall t :: t in AllTables <==> t in DropTablesSql
  {
  }

  /** When all twelve drops commit, no table of the pipeline is left. */
  lemma DropAllClears(s: Store, outcomes: seq<DropOutcome>)
    requires StoreValid(s) && |outcomes| == |DropTablesSql|
    requires forall i :: 0 <= i < |outcomes| ==> outcomes[i] == Dropped
    ensures DropAll(s, DropTablesSql, outcomes).1 == Pass
    ensures DropAll(s, DropTablesSql, outcomes).0.present == {}
  {
    DropAllSpec(s, DropTablesSql, outcomes);
    AllAttempted(outcomes);
    AllDropped(s.present, outcomes);
  }

  lemma AllAttempted(outcomes: seq<DropOutcome>)
    requires forall i :: 0 <= i < |outcomes| ==> outcomes[i] == Dropped
    ensures Attempted(outcomes) == |outcomes|
  {
  }

  lemma AllDropped(present: set<string>, outcomes: seq<DropOutcome>)
    requires present <= AllTables && |outcomes| == |DropTablesSql|
    requires forall i :: 0 <= i < |outcomes| ==> outcomes[i] == Dropped
    ensures present <= DroppedAmong(DropTablesSql, outcomes, |outcomes|)
  {
    DropTablesCover();
    DroppedEvery(DropTablesSql, outcomes);
  }

  /** When every drop commits, every listed table is among the dropped ones. */
  lemma DroppedEvery(tables: seq<string>, outcomes: seq<DropOutcome>)
    requires |outcomes| == |tables|
    requires forall i :: 0 <= i < |outcomes| ==> outcomes[i] == Dropped
    ensures forall t :: t in tables ==> t in DroppedAmong(tables, outcomes, |outcomes|)
  {
    forall t | t in tables ensures t in DroppedAmong(tables, outcomes, |outcomes|) {
      var i :| 0 <= i < |tables| && tables[i] == t;
      assert outcomes[i].Dropped?;
    }
  }

  // ---------------------------------------------------------------- create_tables

  /** CREATE_TABLE_SQL: `CREATE TABLE IF NOT EXISTS` for every table, so an existing table
      keeps its rows (and the foreign keys it still has) and a missing one is created empty;
      a newly created Product references ProductCategory again. */
  function CreateAll(s: Store): Store {
    s.(present := AllTables,
       stages := map t | t in StageTables :: if t in s.stages then s.stages[t] else [],
       productFk := ProductTable !in s.present || s.productFk)
  }

  /** Afterwards every table exists, the existing ones unchanged and the new ones empty with
      their sequences at 1; running it again changes nothing. */
  lemma CreateAllSpec(s: Store)
    requires StoreValid(s)
    ensures var s' := CreateAll(s);
      && StoreValid(s')
      && s'.present == AllTables
      && (forall t :: t in StageTables ==> s'.stages[t] == if t in s.present then s.stages[t] else [])
      && s'.dims == s.dims && s'.ents == s.ents && s'.orders == s.orders && s'.nextOrderId == s.nextOrderId
      && CreateAll(s') == s'
  {
    var s' := CreateAll(s);
    assert CreateAll(s').stages == s'.stages;
  }

  /** Dropping every table and creating them again leaves an empty warehouse whose foreign keys
      all hold and are all enforced. */
  lemma ResetEmpties(s: Store, outcomes: seq<DropOutcome>)
    requires StoreValid(s) && |outcomes| == |DropTablesSql|
    requires forall i :: 0 <= i < |outcomes| ==> outcomes[i] == Dropped
    ensures var s' := CreateAll(DropAll(s, DropTablesSql, outcomes).0);
      && s'.present == AllTables
      && (forall t :: t in StageTables ==> s'.stages[t] == [])
      && s'.dims == NoDimensions && s'.ents == NoEntities && s'.orders == [] && s'.nextOrderId == 1
      && s'.productFk && Consistent(s')
  {
    DropAllClears(s, outcomes);
    DropAllSpec(s, DropTablesSql, outcomes);
  }

  // ---------------------------------------------------------------- build_dimensions

  /** build_dimensions as one transaction. Each INSERT names its target table before the tables
      of its SELECT, so a missing table raises in the order Region, stage_customer, Country,
      ProductCategory, and then nothing changes. */
  function DimensionsStep(s: Store, o: DimensionOrders): Result<Store, DbError> {
    if RegionTable !in s.present then Failure(UndefinedTable(RegionTable))
    else if StageCustomerTable !in s.present then Failure(UndefinedTable(StageCustomerTable))
    else if CountryTable !in s.present then Failure(UndefinedTable(CountryTable))
    else if CategoryTable !in s.present then Failure(UndefinedTable(CategoryTable))
    else Success(s.(dims := BuildDimensions(Staged(s), s.dims, o)))
  }

  /** An id of a table is still an id once rows are appended. */
  lemma IdsGrow<R>(t: seq<R>, u: seq<R>, id: R -> nat, x: nat)
    requires x in Ids(t, id)
    ensures x in Ids(t + u, id)
  {
    var i :| 0 <= i < |t| && Ids(t, id)[i] == x;
    assert Ids(t + u, id)[i] == x;
  }

  /** build_dimensions fails exactly when one of its four tables is missing; otherwise it keeps
      the schema guarantees and every foreign key, and leaves all but the dimension tables
      alone. */
  lemma DimensionsStepSpec(s: Store, o: DimensionOrders)
    requires StoreValid(s) && DimensionOrdersFit(Staged(s), s.dims, o)
    ensures var r := DimensionsStep(s, o);
      && (r.Failure? <==> !({RegionTable, StageCustomerTable, CountryTable, CategoryTable} <= s.present))
      && (r.Success? ==>
            && StoreValid(r.value)
            && r.value == s.(dims := BuildDimensions(Staged(s), s.dims, o))
            && (Consistent(s) ==> Consistent(r.value)))
  {
    if DimensionsStep(s, o).Success? {
      DimensionsKeepValid(s, o);
      if Consistent(s) {
        DimensionsKeepConsistent(s, o);
      }
    }
  }

  lemma DimensionsKeepValid(s: Store, o: DimensionOrders)
    requires StoreValid(s) && DimensionOrdersFit(Staged(s), s.dims, o)
    requires RegionTable in s.present && CountryTable in s.present && CategoryTable in s.present
    ensures StoreValid(s.(dims := BuildDimensions(Staged(s), s.dims, o)))
  {
    var s' := s.(dims := BuildDimensions(Staged(s), s.dims, o));
    BuildDimensionsSpec(Staged(s), s.dims, o);
    assert s'.present == s.present && s'.stages == s.stages && s'.ents == s.ents;
    assert Vacant(s');
  }

  lemma DimensionsKeepConsistent(s: Store, o: DimensionOrders)
    requires StoreValid(s) && DimensionOrdersFit(Staged(s), s.dims, o) && Consistent(s)
    ensures Consistent(s.(dims := BuildDimensions(Staged(s), s.dims, o)))
  {
    var d' := BuildDimensions(Staged(s), s.dims, o);
    BuildDimensionsSpec(Staged(s), s.dims, o);
    BuildDimensionsReferences(Staged(s), s.dims, o);
    forall i | 0 <= i < |s.ents.customers| ensures s.ents.customers[i].countryId in Ids(d'.countries, CountryId) {
      IdsGrow(s.dims.countries, d'.countries[|s.dims.countries|..], CountryId, s.ents.customers[i].countryId);
      assert s.dims.countries + d'.countries[|s.dims.countries|..] == d'.countries;
    }
    forall i | 0 <= i < |s.ents.products| ensures s.ents.products[i].categoryId in Ids(d'.categories, CategoryId) {
      IdsGrow(s.dims.categories, d'.categories[|s.dims.categories|..], CategoryId, s.ents.products[i].categoryId);
      assert s.dims.categories + d'.categories[|s.dims.categories|..] == d'.categories;
    }
  }

  // ---------------------------------------------------------------- load_entities

  /** load_entities as one transaction. The Customer insert names Customer, stage_customer and
      Country and runs to completion (or raises its NOT NULL violation) before the Product
      insert names Product; the first error aborts both. */
  function EntitiesStep(s: Store, customerOrder: seq<(nat, nat)>, productCands: seq<ProductCandidate>): Result<Store, DbError>
    requires JoinsStage(Staged(s), customerOrder)
  {
    if CustomerTable !in s.present then Failure(UndefinedTable(CustomerTable))
    else if StageCustomerTable !in s.present then Failure(UndefinedTable(StageCustomerTable))
    else if CountryTable !in s.present then Failure(UndefinedTable(CountryTable))
    else if NewCustomers(Staged(s), customerOrder, s.ents.nextCustomerId).Failure? then
      Failure(NewCustomers(Staged(s), customerOrder, s.ents.nextCustomerId).error)
    else if ProductTable !in s.present then Failure(UndefinedTable(ProductTable))
    else
      var r := LoadEntities(Staged(s), s.dims.countries, s.dims.categories, s.productFk, s.ents, customerOrder, productCands);
      if r.Failure? then Failure(r.error) else Success(s.(ents := r.value))
  }

  /** On success load_entities keeps the schema guarantees, leaves all but Customer and Product
      alone, and keeps every foreign key as long as Product's is enforced or category 1 exists. */
  lemma EntitiesStepSpec(s: Store, customerOrder: seq<(nat, nat)>, productCands: seq<ProductCandidate>)
    requires StoreValid(s)
    requires Enumerates(customerOrder, CustomerJoin(Staged(s), s.dims.countries))
    requires SelectsProducts(Staged(s), productCands)
    ensures JoinsStage(Staged(s), customerOrder)
    ensures var r := EntitiesStep(s, customerOrder, productCands);
      && (r.Failure? && r.error.UndefinedTable? <==>
            (|| !({CustomerTable, StageCustomerTable, CountryTable} <= s.present)
             || (NewCustomers(Staged(s), customerOrder, s.ents.nextCustomerId).Success? && ProductTable !in s.present)))
      && (r.Success? ==>
            && StoreValid(r.value)
            && r.value.present == s.present && r.value.stages == s.stages && r.value.dims == s.dims
            && r.value.orders == s.orders && r.value.nextOrderId == s.nextOrderId
            && (Consistent(s) && (s.productFk || PlaceholderCategoryId in Ids(s.dims.categories, CategoryId)) ==>
                  Consistent(r.value)))
  {
    var stage := Staged(s);
    JoinOrderInStage(stage, s.dims.countries, customerOrder);
    var r := EntitiesStep(s, customerOrder, productCands);
    var nc := NewCustomers(stage, customerOrder, s.ents.nextCustomerId);
    if nc.Failure? {
      CustomerFailure(stage, customerOrder, s.ents.nextCustomerId);
    }
    if r.Success? {
      LoadEntitiesSpec(stage, s.dims.countries, s.dims.categories, s.productFk, s.ents, customerOrder, productCands);
      if Consistent(s) && (s.productFk || PlaceholderCategoryId in Ids(s.dims.categories, CategoryId)) {
        LoadEntitiesReferences(stage, s.dims.countries, s.dims.categories, s.productFk, s.ents, customerOrder, productCands);
        EntitiesOrders(s, r.value);
      }
    }
  }

  /** The Customer insert only ever raises its NOT NULL violation. */
  lemma CustomerFailure(stage: seq<Row>, order: seq<(nat, nat)>, next: nat)
    requires JoinsStage(stage, order)
    ensures NewCustomers(stage, order, next).Failure? ==> NewCustomers(stage, order, next).error == NotNullViolation(CustomerTable)
  {
  }

  /** Appending customers and products keeps the facts' references. */
  lemma EntitiesOrders(s: Store, s': Store)
    requires OrdersReferenceCustomersAndProducts(s.orders, s.ents.customers, s.ents.products)
    requires s'.orders == s.orders
    requires s.ents.customers <= s'.ents.customers && s.ents.products <= s'.ents.products
    ensures OrdersReferenceCustomersAndProducts(s'.orders, s'.ents.customers, s'.ents.products)
  {
    forall i | 0 <= i < |s.orders|
      ensures s.orders[i].customerId in Ids(s'.ents.customers, CustomerId) && s.orders[i].productId in Ids(s'.ents.products, ProductId)
    {
      IdsGrow(s.ents.customers, s'.ents.customers[|s.ents.customers|..], CustomerId, s.orders[i].customerId);
      assert s.ents.customers + s'.ents.customers[|s.ents.customers|..] == s'.ents.customers;
      IdsGrow(s.ents.products, s'.ents.products[|s.ents.products|..], ProductId, s.orders[i].productId);
      assert s.ents.products + s'.ents.products[|s.ents.products|..] == s'.ents.products;
    }
  }

  // ---------------------------------------------------------------- build_facts

  /** build_facts as one transaction: OrderDetail, then stage_customer, Customer and Product in
      the order the FROM clause names them. */
  function FactsStep(s: Store, order: seq<(nat, nat, nat)>, today: Date, draws: seq<Draw>): Result<Store, DbError>
    requires |draws| == |order|
  {
    if OrderDetailTable !in s.present then Failure(UndefinedTable(OrderDetailTable))
    else if StageCustomerTable !in s.present then Failure(UndefinedTable(StageCustomerTable))
    else if CustomerTable !in s.present then Failure(UndefinedTable(CustomerTable))
    else if ProductTable !in s.present then Failure(UndefinedTable(ProductTable))
    else Success(s.(orders := s.orders + NewFacts(order, s.nextOrderId, today, draws),
                    nextOrderId := s.nextOrderId + |order|))
  }

  /** build_facts fails exactly when one of its four tables is missing; otherwise it keeps the
      schema guarantees and every foreign key, and adds one fact per joined row. */
  lemma FactsStepSpec(s: Store, order: seq<(nat, nat, nat)>, today: Date, draws: seq<Draw>)
    requires StoreValid(s)
    requires Enumerates(order, FactJoin(Staged(s), s.ents.customers, s.ents.products)) && |draws| == |order|
    ensures var r := FactsStep(s, order, today, draws);
      && (r.Failure? <==> !({OrderDetailTable, StageCustomerTable, CustomerTable, ProductTable} <= s.present))
      && (r.Success? ==>
            && StoreValid(r.value)
            && |r.value.orders| == |s.orders| + |FactJoin(Staged(s), s.ents.customers, s.ents.products)|
            && r.value.present == s.present && r.value.dims == s.dims && r.value.ents == s.ents
            && (Consistent(s) ==> Consistent(r.value)))
  {
    FactInsert(Staged(s), s.ents.customers, s.ents.products, s.orders, s.nextOrderId, order, today, draws);
  }
}
