/**
 * load_entities: the Customer insert and the Product insert as pure functions of the staged
 * rows and the warehouse tables. The two statements run in one transaction, so either both
 * take effect or, when one of them raises, neither does.
 */
module Entities {
  import opened Wrappers
  import opened PgFunc
  import opened Upsert
  import opened Schema
  import opened Stages

  // ---------------------------------------------------------------- Customer

  /** `SPLIT_PART(Name, ' ', 1)`: NULL for a NULL name. */
  function FirstNameOf(r: Row): Option<string> {
    match Field(r, NameCol)
    case None => None
    case Some(n) => Some(SplitPart(n, ' ', 1))
  }

  /** `COALESCE(NULLIF(SPLIT_PART(Name, ' ', 2), ''), 'Unknown')` */
  function LastNameOf(r: Row): string {
    var second := match Field(r, NameCol) case None => None case Some(n) => Some(SplitPart(n, ' ', 2));
    Coalesce(NullIf(second, ""), UnknownLastName)
  }

  const UnknownLastName: string := "Unknown"

  /** `FROM stage_customer s JOIN Country c ON s.Country = c.Country`: the pairs
      (staged row index, CountryID) the Customer insert selects. */
  function CustomerJoin(stage: seq<Row>, countries: seq<CountryRow>): set<(nat, nat)> {
    set i, j | 0 <= i < |stage| && 0 <= j < |countries| && Field(stage[i], CountryCol) == Some(countries[j].name)
      :: (i, countries[j].id)
  }

  /** The country of staged row `r` exists. */
  predicate CountryResolves(r: Row, countries: seq<CountryRow>) {
    exists j :: 0 <= j < |countries| && Field(r, CountryCol) == Some(countries[j].name)
  }

  /** The row satisfies the NOT NULL constraints of Customer (LastName never is NULL). */
  predicate CustomerInsertable(r: Row) {
    FirstNameOf(r).Some? && Field(r, AddressCol).Some? && Field(r, CityCol).Some?
  }

  /** The join pairs refer to staged rows. */
  predicate JoinsStage(stage: seq<Row>, order: seq<(nat, nat)>) {
    forall k :: 0 <= k < |order| ==> order[k].0 < |stage|
  }

  function MkCustomer(r: Row, countryId: nat, id: nat): CustomerRow
    requires CustomerInsertable(r)
  {
    CustomerRow(id, FirstNameOf(r).value, LastNameOf(r), Field(r, AddressCol).value, Field(r, CityCol).value, countryId)
  }

  /** The Customer rows the insert adds for the join pairs in `order`, or the NOT NULL violation
      that aborts it. Customer has no unique key besides its id, so ON CONFLICT never fires. */
  function NewCustomers(stage: seq<Row>, order: seq<(nat, nat)>, next: nat): Result<seq<CustomerRow>, DbError>
    requires JoinsStage(stage, order)
  {
    if forall k :: 0 <= k < |order| ==> CustomerInsertable(stage[order[k].0]) then
      Success(seq(|order|, k requires 0 <= k < |order| => MkCustomer(stage[order[k].0], order[k].1, next + k)))
    else
      Failure(NotNullViolation(CustomerTable))
  }

  lemma JoinOrderInStage(stage: seq<Row>, countries: seq<CountryRow>, order: seq<(nat, nat)>)
    requires Enumerates(order, CustomerJoin(stage, countries))
    ensures JoinsStage(stage, order)
  {
    forall k | 0 <= k < |order| ensures order[k].0 < |stage| {
      assert order[k] in CustomerJoin(stage, countries);
    }
  }

  /** With unique country names a staged row joins at most one country, so it appears in at
      most one join pair. */
  lemma JoinRowOnce(stage: seq<Row>, countries: seq<CountryRow>, p: (nat, nat), q: (nat, nat))
    requires UniqueNames(countries, CountryName)
    requires p in CustomerJoin(stage, countries) && q in CustomerJoin(stage, countries) && p.0 == q.0
    ensures p == q
  {
    var i, j :| 0 <= i < |stage| && 0 <= j < |countries| && Field(stage[i], CountryCol) == Some(countries[j].name) && p == (i, countries[j].id);
    var i', j' :| 0 <= i' < |stage| && 0 <= j' < |countries| && Field(stage[i'], CountryCol) == Some(countries[j'].name) && q == (i', countries[j'].id);
    if j < j' {
      assert CountryName(countries[j]) != CountryName(countries[j']);
    } else if j' < j {
      assert CountryName(countries[j']) != CountryName(countries[j]);
    }
  }

  /** The Customer insert fails exactly when a staged row whose country exists has a NULL name,
      address or city. */
  lemma CustomerInsertFails(stage: seq<Row>, countries: seq<CountryRow>, order: seq<(nat, nat)>, next: nat)
    requires Enumerates(order, CustomerJoin(stage, countries))
    ensures JoinsStage(stage, order)
    ensures NewCustomers(stage, order, next).Failure? <==>
      exists i :: 0 <= i < |stage| && CountryResolves(stage[i], countries) && !CustomerInsertable(stage[i])
  {
    JoinOrderInStage(stage, countries, order);
    if NewCustomers(stage, order, next).Failure? {
      var k :| 0 <= k < |order| && !CustomerInsertable(stage[order[k].0]);
      assert order[k] in CustomerJoin(stage, countries);
      var i, j :| 0 <= i < |stage| && 0 <= j < |countries| && Field(stage[i], CountryCol) == Some(countries[j].name) && order[k] == (i, countries[j].id);
      assert CountryResolves(stage[i], countries);
    }
    if exists i :: 0 <= i < |stage| && CountryResolves(stage[i], countries) && !CustomerInsertable(stage[i]) {
      var i :| 0 <= i < |stage| && CountryResolves(stage[i], countries) && !CustomerInsertable(stage[i]);
      var j :| 0 <= j < |countries| && Field(stage[i], CountryCol) == Some(countries[j].name);
      assert (i, countries[j].id) in CustomerJoin(stage, countries);
      var k :| 0 <= k < |order| && order[k] == (i, countries[j].id);
    }
  }

  /** On success the insert adds one customer per staged row whose country exists, and no more:
      its first name is the text before the first space, its last name the second
      space-separated field or 'Unknown', its address, city and country those of the row. */
  lemma CustomerInsert(stage: seq<Row>, countries: seq<CountryRow>, order: seq<(nat, nat)>, next: nat)
    requires Enumerates(order, CustomerJoin(stage, countries))
    requires UniqueNames(countries, CountryName)
    ensures JoinsStage(stage, order)
    ensures NewCustomers(stage, order, next).Success? ==>
      var nc := NewCustomers(stage, order, next).value;
      && |nc| == |order|
      && (forall i :: 0 <= i < |stage| && CountryResolves(stage[i], countries) ==>
            exists k :: 0 <= k < |order| && order[k].0 == i)
      && (forall k, k' :: 0 <= k < k' < |order| ==> order[k].0 != order[k'].0)
      && (forall k :: 0 <= k < |nc| ==>
            var r := stage[order[k].0];
            && nc[k].id == next + k
            && Some(nc[k].firstName) == FirstNameOf(r) && nc[k].lastName == LastNameOf(r)
            && Some(nc[k].address) == Field(r, AddressCol) && Some(nc[k].city) == Field(r, CityCol)
            && (exists j :: 0 <= j < |countries| && Field(r, CountryCol) == Some(countries[j].name) && nc[k].countryId == countries[j].id))
  {
    JoinOrderInStage(stage, countries, order);
    forall i | 0 <= i < |stage| && CountryResolves(stage[i], countries) ensures exists k :: 0 <= k < |order| && order[k].0 == i {
      var j :| 0 <= j < |countries| && Field(stage[i], CountryCol) == Some(countries[j].name);
      assert (i, countries[j].id) in CustomerJoin(stage, countries);
      var k :| 0 <= k < |order| && order[k] == (i, countries[j].id);
    }
    forall k, k' | 0 <= k < k' < |order| ensures order[k].0 != order[k'].0 {
      if order[k].0 == order[k'].0 {
        assert order[k] in CustomerJoin(stage, countries) && order[k'] in CustomerJoin(stage, countries);
        JoinRowOnce(stage, countries, order[k], order[k']);
      }
    }
    if NewCustomers(stage, order, next).Success? {
      var nc := NewCustomers(stage, order, next).value;
      forall k | 0 <= k < |nc| ensures exists j :: 0 <= j < |countries| && Field(stage[order[k].0], CountryCol) == Some(countries[j].name) && nc[k].countryId == countries[j].id {
        assert order[k] in CustomerJoin(stage, countries);
      }
    }
  }

  /** Customer has no unique key, so a second run with the same staged rows and countries
      appends every customer again, with new ids: whatever order the engine joins in, each
      customer of the second run is a customer of the first with only its id changed. */
  lemma CustomersRerun(stage: seq<Row>, countries: seq<CountryRow>, o1: seq<(nat, nat)>, o2: seq<(nat, nat)>, n1: nat, n2: nat)
    requires Enumerates(o1, CustomerJoin(stage, countries)) && Enumerates(o2, CustomerJoin(stage, countries))
    requires JoinsStage(stage, o1) && JoinsStage(stage, o2)
    requires NewCustomers(stage, o1, n1).Success?
    ensures NewCustomers(stage, o2, n2).Success?
    ensures |NewCustomers(stage, o2, n2).value| == |NewCustomers(stage, o1, n1).value| == |CustomerJoin(stage, countries)|
    ensures o1 == o2 ==> forall k :: 0 <= k < |o1| ==>
      NewCustomers(stage, o2, n2).value[k] == NewCustomers(stage, o1, n1).value[k].(id := n2 + k)
    ensures RerunMatches(stage, o1, o2, n1, n2)
  {
    forall k | 0 <= k < |o2| ensures CustomerInsertable(stage[o2[k].0]) {
      assert o2[k] in o1;
      var k1 :| 0 <= k1 < |o1| && o1[k1] == o2[k];
    }
    RerunAnyOrder(stage, countries, o1, o2, n1, n2);
    EnumerationLength(o1, CustomerJoin(stage, countries));
    EnumerationLength(o2, CustomerJoin(stage, countries));
  }

  /** Each customer of the run over `o2` is the customer of the run over `o1` for the same join
      pair, with only its id changed; with both listings duplicate-free and equally long, this
      matches the two runs' customers one to one. */
  ghost predicate RerunMatches(stage: seq<Row>, o1: seq<(nat, nat)>, o2: seq<(nat, nat)>, n1: nat, n2: nat)
    requires JoinsStage(stage, o1) && JoinsStage(stage, o2)
    requires NewCustomers(stage, o1, n1).Success? && NewCustomers(stage, o2, n2).Success?
  {
    forall k2 :: 0 <= k2 < |o2| ==> MatchedAt(stage, o1, o2, n1, n2, k2)
  }

  /** Customer k2 of the run over `o2` is, up to its id, the customer of the run over `o1` for
      the same join pair. */
  ghost predicate MatchedAt(stage: seq<Row>, o1: seq<(nat, nat)>, o2: seq<(nat, nat)>, n1: nat, n2: nat, k2: nat)
    requires JoinsStage(stage, o1) && JoinsStage(stage, o2)
    requires NewCustomers(stage, o1, n1).Success? && NewCustomers(stage, o2, n2).Success?
    requires k2 < |o2|
  {
    exists k1 :: 0 <= k1 < |o1| && o1[k1] == o2[k2]
      && NewCustomers(stage, o2, n2).value[k2] == NewCustomers(stage, o1, n1).value[k1].(id := n2 + k2)
  }

  lemma RerunAnyOrder(stage: seq<Row>, countries: seq<CountryRow>, o1: seq<(nat, nat)>, o2: seq<(nat, nat)>, n1: nat, n2: nat)
    requires Enumerates(o1, CustomerJoin(stage, countries)) && Enumerates(o2, CustomerJoin(stage, countries))
    requires JoinsStage(stage, o1) && JoinsStage(stage, o2)
    requires NewCustomers(stage, o1, n1).Success? && NewCustomers(stage, o2, n2).Success?
    ensures RerunMatches(stage, o1, o2, n1, n2)
  {
    forall k2 | 0 <= k2 < |o2| ensures MatchedAt(stage, o1, o2, n1, n2, k2) {
      assert o2[k2] in o1;
      var k1 :| 0 <= k1 < |o1| && o1[k1] == o2[k2];
      RerunRow(stage, o1, o2, n1, n2, k1, k2);
    }
  }

  /** The same join pair yields the same customer in both runs, up to its id. */
  lemma RerunRow(stage: seq<Row>, o1: seq<(nat, nat)>, o2: seq<(nat, nat)>, n1: nat, n2: nat, k1: nat, k2: nat)
    requires JoinsStage(stage, o1) && JoinsStage(stage, o2)
    requires NewCustomers(stage, o1, n1).Success? && NewCustomers(stage, o2, n2).Success?
    requires k1 < |o1| && k2 < |o2| && o1[k1] == o2[k2]
    ensures NewCustomers(stage, o2, n2).value[k2] == NewCustomers(stage, o1, n1).value[k1].(id := n2 + k2)
  {
  }

  // ---------------------------------------------------------------- Product

  /** `UNNEST(STRING_TO_ARRAY(ProductName, ';'))`: the product names of one staged row. */
  function ProductList(r: Row): seq<string> {
    Unnest(StringToArray(Field(r, ProductNameCol), ';'))
  }

  /** Every product name some staged row lists (empty names between two `;` included). */
  function ProductElements(stage: seq<Row>): set<string> {
    set i, k | 0 <= i < |stage| && 0 <= k < |ProductList(stage[i])| :: ProductList(stage[i])[k]
  }

  /** `ROUND((random() * 100 + 1)::numeric, 2)`: rounding half away from zero to cents. */
  function UnitPrice(u: Draw): (p: Price)
    ensures 1.0 <= p <= 101.0
  {
    ((u * 100.0 + 1.0) * 100.0 + 0.5).Floor as real / 100.0
  }

  /** Every new product is linked to the category with id 1. */
  const PlaceholderCategoryId: nat := 1

  /** A selected product: its name and the random() value its price is computed from. */
  type ProductCandidate = (string, Draw)

  function ProductKey(c: ProductCandidate): string { c.0 }

  function MkProduct(id: nat, c: ProductCandidate): ProductRow {
    ProductRow(id, c.0, UnitPrice(c.1), PlaceholderCategoryId)
  }

  /** The rows `INSERT INTO Product ... ON CONFLICT (ProductName) DO NOTHING` adds. DISTINCT
      applies to (name, price), so a name may be selected several times with different prices;
      `cands` is the selection in engine order. */
  function NewProducts(products: seq<ProductRow>, next: nat, cands: seq<ProductCandidate>): seq<ProductRow> {
    NewRows(products, ProductName, cands, ProductKey, MkProduct, next)
  }

  /** The selection names exactly the staged product elements. */
  predicate SelectsProducts(stage: seq<Row>, cands: seq<ProductCandidate>) {
    Keys(cands, ProductKey) == ProductElements(stage)
  }

  /** After the Product insert the names are the old ones plus every staged element; no name is
      duplicated, and the new products are in category 1 with a price in [1, 101]. */
  lemma ProductInsert(stage: seq<Row>, products: seq<ProductRow>, next: nat, cands: seq<ProductCandidate>)
    requires SelectsProducts(stage, cands)
    requires Keyed(products, ProductName, ProductId, next)
    ensures var t := products + NewProducts(products, next, cands);
      && Names(t, ProductName) == Names(products, ProductName) + ProductElements(stage)
      && Keyed(t, ProductName, ProductId, next + |cands|)
      && (forall i :: |products| <= i < |t| ==>
            t[i].categoryId == PlaceholderCategoryId && 1.0 <= t[i].unitPrice <= 101.0)
  {
    NewRowsSpec(products, ProductName, ProductId, cands, ProductKey, MkProduct, next);
    var ins := Inserted(Names(products, ProductName), cands, ProductKey, next);
    var t := products + NewProducts(products, next, cands);
    forall i | |products| <= i < |t| ensures t[i].categoryId == PlaceholderCategoryId && 1.0 <= t[i].unitPrice <= 101.0 {
      assert t[i] == MkProduct(ins[i - |products|].0, ins[i - |products|].1);
    }
  }

  /** Each new product takes the price of the first candidate that carries its name. */
  lemma ProductPrice(products: seq<ProductRow>, next: nat, cands: seq<ProductCandidate>, m: nat)
    requires m < |NewProducts(products, next, cands)|
    ensures exists k ::
      && 0 <= k < |cands| && cands[k].0 == NewProducts(products, next, cands)[m].name
      && NewProducts(products, next, cands)[m].unitPrice == UnitPrice(cands[k].1)
      && cands[k].0 !in Keys(cands[..k], ProductKey)
  {
    var ins := Inserted(Names(products, ProductName), cands, ProductKey, next);
    var np := NewProducts(products, next, cands);
    assert np[m] == MkProduct(ins[m].0, ins[m].1);
    var k := ins[m].0 - next;
    assert 0 <= k < |cands| && ins[m].1 == cands[k];
    assert HasId(ins, next + k);
    InsertedExactly(Names(products, ProductName), cands, ProductKey, next, k);
    assert ProductKey(cands[k]) == cands[k].0;
  }

  /** `'Laptop;;Mouse'` lists three products, the middle one with the empty name, and `''`
      lists none. */
  lemma ProductListExamples()
    ensures ProductList([None, None, None, None, None, Some("Laptop;;Mouse")]) == ["Laptop", "", "Mouse"]
    ensures ProductList([None, None, None, None, None, Some("")]) == []
    ensures ProductList([None, None, None, None, None, None]) == []
  {
    var r: Row := [None, None, None, None, None, Some("Laptop;;Mouse")];
    assert Field(r, ProductNameCol) == Some("Laptop;;Mouse");
    SplitExample();
  }

  /** The fields of `'Laptop;;Mouse'` split at `;`. */
  lemma SplitExample()
    ensures Split("Laptop;;Mouse", ';') == ["Laptop", "", "Mouse"]
  {
    var parts := ["Laptop", "", "Mouse"];
    assert parts[1..] == ["", "Mouse"] && parts[1..][1..] == ["Mouse"];
    assert Join(["Mouse"], ';') == "Mouse";
    assert Join(["", "Mouse"], ';') == "" + [';'] + "Mouse" == ";Mouse";
    assert Join(parts, ';') == "Laptop" + [';'] + ";Mouse" == "Laptop;;Mouse";
    assert forall i :: 0 <= i < |parts| ==> ';' !in parts[i];
    SplitJoin(parts, ';');
  }

  // ---------------------------------------------------------------- load_entities

  /** Customer and Product with the values their sequences stand at. */
  datatype EntityTables = EntityTables(
    customers: seq<CustomerRow>, nextCustomerId: nat,
    products: seq<ProductRow>, nextProductId: nat)

  /** Both statements of load_entities: the NOT NULL violation of the Customer insert, or the
      foreign-key violation of a Product insert when category 1 does not exist and Product
      still carries its foreign key (`fkEnforced`), aborts the transaction and leaves both
      tables as they were. */
  function LoadEntities(stage: seq<Row>, countries: seq<CountryRow>, categories: seq<CategoryRow>, fkEnforced: bool,
                        e: EntityTables, customerOrder: seq<(nat, nat)>, productCands: seq<ProductCandidate>): Result<EntityTables, DbError>
    requires JoinsStage(stage, customerOrder)
  {
    match NewCustomers(stage, customerOrder, e.nextCustomerId)
    case Failure(err) => Failure(err)
    case Success(nc) =>
      var np := NewProducts(e.products, e.nextProductId, productCands);
      if fkEnforced && np != [] && PlaceholderCategoryId !in Ids(categories, CategoryId) then
        Failure(ForeignKeyViolation(ProductTable))
      else
        Success(EntityTables(e.customers + nc, e.nextCustomerId + |customerOrder|,
                             e.products + np, e.nextProductId + |productCands|))
  }

  /** Customer ids are serial, product names unique and product ids serial. */
  predicate EntitiesKeyed(e: EntityTables) {
    && Serial(Ids(e.customers, CustomerId), e.nextCustomerId) && e.nextCustomerId >= 1
    && Keyed(e.products, ProductName, ProductId, e.nextProductId)
  }

  /** The Product insert fails exactly when the Customer insert succeeds, it would add a
      product, category 1 is missing and Product's foreign key is enforced. */
  lemma LoadEntitiesFails(stage: seq<Row>, countries: seq<CountryRow>, categories: seq<CategoryRow>, fkEnforced: bool,
                          e: EntityTables, customerOrder: seq<(nat, nat)>, productCands: seq<ProductCandidate>)
    requires Enumerates(customerOrder, CustomerJoin(stage, countries))
    requires SelectsProducts(stage, productCands)
    ensures JoinsStage(stage, customerOrder)
    ensures var r := LoadEntities(stage, countries, categories, fkEnforced, e, customerOrder, productCands);
      r.Failure? && r.error == ForeignKeyViolation(ProductTable) <==>
        && NewCustomers(stage, customerOrder, e.nextCustomerId).Success?
        && !(ProductElements(stage) <= Names(e.products, ProductName))
        && fkEnforced && PlaceholderCategoryId !in Ids(categories, CategoryId)
  {
    JoinOrderInStage(stage, countries, customerOrder);
    NewProductsEmpty(stage, e.products, e.nextProductId, productCands);
  }

  /** On success load_entities keeps the keys and the product names grow by exactly the staged
      elements. */
  lemma LoadEntitiesSpec(stage: seq<Row>, countries: seq<CountryRow>, categories: seq<CategoryRow>, fkEnforced: bool,
                         e: EntityTables, customerOrder: seq<(nat, nat)>, productCands: seq<ProductCandidate>)
    requires Enumerates(customerOrder, CustomerJoin(stage, countries))
    requires SelectsProducts(stage, productCands)
    requires EntitiesKeyed(e)
    ensures JoinsStage(stage, customerOrder)
    ensures var r := LoadEntities(stage, countries, categories, fkEnforced, e, customerOrder, productCands);
      r.Success? ==>
        && EntitiesKeyed(r.value)
        && Names(r.value.products, ProductName) == Names(e.products, ProductName) + ProductElements(stage)
  {
    JoinOrderInStage(stage, countries, customerOrder);
    var nc := NewCustomers(stage, customerOrder, e.nextCustomerId);
    ProductInsert(stage, e.products, e.nextProductId, productCands);
    if nc.Success? {
      CustomerIds(stage, customerOrder, e.nextCustomerId, nc.value);
      SerialAppend(e.customers, nc.value, CustomerId, e.nextCustomerId);
    }
  }

  /** load_entities keeps Customer's foreign key to Country, and Product's to ProductCategory
      when that key is enforced or category 1 exists. */
  lemma LoadEntitiesReferences(stage: seq<Row>, countries: seq<CountryRow>, categories: seq<CategoryRow>, fkEnforced: bool,
                               e: EntityTables, customerOrder: seq<(nat, nat)>, productCands: seq<ProductCandidate>)
    requires Enumerates(customerOrder, CustomerJoin(stage, countries))
    requires UniqueNames(countries, CountryName)
    requires CustomersReferenceCountries(e.customers, countries)
    requires ProductsReferenceCategories(e.products, categories)
    requires fkEnforced || PlaceholderCategoryId in Ids(categories, CategoryId)
    ensures JoinsStage(stage, customerOrder)
    ensures var r := LoadEntities(stage, countries, categories, fkEnforced, e, customerOrder, productCands);
      r.Success? ==>
        && CustomersReferenceCountries(r.value.customers, countries)
        && ProductsReferenceCategories(r.value.products, categories)
  {
    JoinOrderInStage(stage, countries, customerOrder);
    var nc := NewCustomers(stage, customerOrder, e.nextCustomerId);
    var np := NewProducts(e.products, e.nextProductId, productCands);
    if nc.Success? {
      CustomerCountries(stage, countries, e, customerOrder, nc.value);
      var r := LoadEntities(stage, countries, categories, fkEnforced, e, customerOrder, productCands);
      if r.Success? {
        NewProductsCategory(e.products, e.nextProductId, productCands);
        var t := e.products + np;
        forall i | 0 <= i < |t| ensures t[i].categoryId in Ids(categories, CategoryId) {
          if i >= |e.products| {
            assert t[i].categoryId == PlaceholderCategoryId;
          }
        }
      }
    }
  }

  /** Every new product is in category 1. */
  lemma NewProductsCategory(products: seq<ProductRow>, next: nat, cands: seq<ProductCandidate>)
    ensures forall m :: 0 <= m < |NewProducts(products, next, cands)| ==> NewProducts(products, next, cands)[m].categoryId == PlaceholderCategoryId
  {
    var ins := Inserted(Names(products, ProductName), cands, ProductKey, next);
    forall m | 0 <= m < |NewProducts(products, next, cands)| ensures NewProducts(products, next, cands)[m].categoryId == PlaceholderCategoryId {
      assert NewProducts(products, next, cands)[m] == MkProduct(ins[m].0, ins[m].1);
    }
  }

  /** The Product insert adds nothing exactly when every staged element is already a product. */
  lemma NewProductsEmpty(stage: seq<Row>, products: seq<ProductRow>, next: nat, cands: seq<ProductCandidate>)
    requires SelectsProducts(stage, cands)
    ensures NewProducts(products, next, cands) == [] <==> ProductElements(stage) <= Names(products, ProductName)
  {
    var ins := Inserted(Names(products, ProductName), cands, ProductKey, next);
    RowKeysEmpty(ins, ProductKey);
    assert NewProducts(products, next, cands) == Build(ins, MkProduct);
    assert |Build(ins, MkProduct)| == |ins|;
    assert RowKeys(ins, ProductKey) == ProductElements(stage) - Names(products, ProductName);
    if NewProducts(products, next, cands) == [] {
      forall x | x in ProductElements(stage) ensures x in Names(products, ProductName) {
        assert x !in RowKeys(ins, ProductKey);
      }
    }
  }

  /** The new customers carry the ids next, next + 1, ... */
  lemma CustomerIds(stage: seq<Row>, order: seq<(nat, nat)>, next: nat, nc: seq<CustomerRow>)
    requires JoinsStage(stage, order)
    requires NewCustomers(stage, order, next) == Success(nc)
    ensures |nc| == |order| && forall k :: 0 <= k < |nc| ==> nc[k].id == next + k
  {
  }

  /** The new customers reference countries of the join, so Customer's foreign key keeps
      holding. */
  lemma CustomerCountries(stage: seq<Row>, countries: seq<CountryRow>, e: EntityTables, order: seq<(nat, nat)>, nc: seq<CustomerRow>)
    requires Enumerates(order, CustomerJoin(stage, countries)) && JoinsStage(stage, order)
    requires CustomersReferenceCountries(e.customers, countries)
    requires NewCustomers(stage, order, e.nextCustomerId) == Success(nc)
    ensures CustomersReferenceCountries(e.customers + nc, countries)
  {
    var t := e.customers + nc;
    forall i | 0 <= i < |t| ensures t[i].countryId in Ids(countries, CountryId) {
      if i >= |e.customers| {
        var k := i - |e.customers|;
        assert t[i] == nc[k] && nc[k].countryId == order[k].1;
        assert order[k] in CustomerJoin(stage, countries);
        JoinCountry(stage, countries, order[k]);
      }
    }
  }

  /** A joined pair names an existing country. */
  lemma JoinCountry(stage: seq<Row>, countries: seq<CountryRow>, p: (nat, nat))
    requires p in CustomerJoin(stage, countries)
    ensures p.1 in Ids(countries, CountryId)
  {
    var i, j :| 0 <= i < |stage| && 0 <= j < |countries| && Field(stage[i], CountryCol) == Some(countries[j].name)
      && p == (i, countries[j].id);
    assert Ids(countries, CountryId)[j] == p.1;
  }
}
