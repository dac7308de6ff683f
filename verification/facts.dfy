/**
 * build_facts: the OrderDetail insert as a pure function of the staged rows, the Customer and
 * Product tables, CURRENT_DATE and the random() values drawn for the quantities.
 */
module Facts {
  import opened Wrappers
  import opened PgFunc
  import opened Upsert
  import opened Schema
  import opened Stages
  import opened Entities

  /** `FROM stage_customer s JOIN Customer c ON SPLIT_PART(s.Name, ' ', 1) = c.FirstName
      JOIN Product p ON p.ProductName = ANY(STRING_TO_ARRAY(s.ProductName, ';'))`:
      one (staged row index, CustomerID, ProductID) triple per joined row. */
  function FactJoin(stage: seq<Row>, customers: seq<CustomerRow>, products: seq<ProductRow>): set<(nat, nat, nat)> {
    set i, c, p | 0 <= i < |stage| && 0 <= c < |customers| && 0 <= p < |products|
      && FirstNameOf(stage[i]) == Some(customers[c].firstName) && products[p].name in ProductList(stage[i])
      :: (i, customers[c].id, products[p].id)
  }

  /** `FLOOR(random() * 10 + 1)` */
  function Quantity(u: Draw): (q: int)
    ensures 1 <= q <= 10
  {
    (u * 10.0 + 1.0).Floor
  }

  /** The OrderDetail rows the insert adds for the joined rows in `order`, dated `today`, the
      k-th with the quantity drawn from `draws[k]`. OrderDetail has no unique key besides its
      id, so ON CONFLICT never fires. */
  function NewFacts(order: seq<(nat, nat, nat)>, next: nat, today: Date, draws: seq<Draw>): seq<OrderRow>
    requires |draws| == |order|
  {
    seq(|order|, k requires 0 <= k < |order| => OrderRow(next + k, order[k].1, order[k].2, today, Quantity(draws[k])))
  }

  /** A joined triple names an existing customer and product whose name the row lists, and a
      customer whose first name is the row's first name token. */
  lemma FactJoinSource(stage: seq<Row>, customers: seq<CustomerRow>, products: seq<ProductRow>, f: (nat, nat, nat))
    requires f in FactJoin(stage, customers, products)
    ensures f.0 < |stage| && f.1 in Ids(customers, CustomerId) && f.2 in Ids(products, ProductId)
    ensures exists c :: 0 <= c < |customers| && customers[c].id == f.1 && FirstNameOf(stage[f.0]) == Some(customers[c].firstName)
    ensures exists p :: 0 <= p < |products| && products[p].id == f.2 && products[p].name in ProductList(stage[f.0])
  {
    var i, c, p :| 0 <= i < |stage| && 0 <= c < |customers| && 0 <= p < |products|
      && FirstNameOf(stage[i]) == Some(customers[c].firstName) && products[p].name in ProductList(stage[i])
      && f == (i, customers[c].id, products[p].id);
    assert customers[c].id == f.1 && products[p].id == f.2;
    assert Ids(customers, CustomerId)[c] == CustomerId(customers[c]);
    assert Ids(products, ProductId)[p] == ProductId(products[p]);
  }

  /** Every joined row becomes exactly one fact: it references an existing customer and product,
      carries today's date and a quantity in 1..10, and the ids stay serial. */
  lemma FactInsert(stage: seq<Row>, customers: seq<CustomerRow>, products: seq<ProductRow>, orders: seq<OrderRow>,
                   next: nat, order: seq<(nat, nat, nat)>, today: Date, draws: seq<Draw>)
    requires Enumerates(order, FactJoin(stage, customers, products)) && |draws| == |order|
    requires Serial(Ids(orders, OrderId), next) && next >= 1
    ensures var t := orders + NewFacts(order, next, today, draws);
      && |t| == |orders| + |FactJoin(stage, customers, products)|
      && Serial(Ids(t, OrderId), next + |order|)
      && (OrdersReferenceCustomersAndProducts(orders, customers, products) ==>
            OrdersReferenceCustomersAndProducts(t, customers, products))
      && (forall i :: |orders| <= i < |t| ==> t[i].orderDate == today && 1 <= t[i].quantity <= 10)
  {
    var nf := NewFacts(order, next, today, draws);
    var t := orders + nf;
    EnumerationLength(order, FactJoin(stage, customers, products));
    SerialAppend(orders, nf, OrderId, next);
    forall i | |orders| <= i < |t| ensures t[i].customerId in Ids(customers, CustomerId) && t[i].productId in Ids(products, ProductId) {
      var k := i - |orders|;
      assert order[k] in FactJoin(stage, customers, products);
      FactJoinSource(stage, customers, products, order[k]);
    }
  }

  /** Each fact comes from one joined row, and each joined row gives one fact. */
  lemma FactsMatchJoin(stage: seq<Row>, customers: seq<CustomerRow>, products: seq<ProductRow>,
                       next: nat, order: seq<(nat, nat, nat)>, today: Date, draws: seq<Draw>, f: (nat, nat, nat))
    requires Enumerates(order, FactJoin(stage, customers, products)) && |draws| == |order|
    ensures f in FactJoin(stage, customers, products) <==>
      exists k :: 0 <= k < |order| && order[k] == f
        && NewFacts(order, next, today, draws)[k].customerId == f.1
        && NewFacts(order, next, today, draws)[k].productId == f.2
  {
    if f in FactJoin(stage, customers, products) {
      var k :| 0 <= k < |order| && order[k] == f;
    }
  }

  /** The (CustomerID, ProductID) pairs of a list of facts. */
  function FactPairs(facts: seq<OrderRow>): set<(nat, nat)> {
    set k | 0 <= k < |facts| :: (facts[k].customerId, facts[k].productId)
  }

  /** The facts of one run pair exactly the customers and products the join pairs. */
  lemma NewFactPairs(stage: seq<Row>, customers: seq<CustomerRow>, products: seq<ProductRow>,
                     next: nat, order: seq<(nat, nat, nat)>, today: Date, draws: seq<Draw>)
    requires Enumerates(order, FactJoin(stage, customers, products)) && |draws| == |order|
    ensures FactPairs(NewFacts(order, next, today, draws)) == set f | f in FactJoin(stage, customers, products) :: (f.1, f.2)
  {
    var nf := NewFacts(order, next, today, draws);
    forall q | q in (set f | f in FactJoin(stage, customers, products) :: (f.1, f.2)) ensures q in FactPairs(nf) {
      var f :| f in FactJoin(stage, customers, products) && q == (f.1, f.2);
      var k :| 0 <= k < |order| && order[k] == f;
      assert (nf[k].customerId, nf[k].productId) == q;
    }
    forall q | q in FactPairs(nf) ensures q in (set f | f in FactJoin(stage, customers, products) :: (f.1, f.2)) {
      var k :| 0 <= k < |nf| && q == (nf[k].customerId, nf[k].productId);
      assert order[k] in FactJoin(stage, customers, products);
    }
  }

  /** OrderDetail has no unique key, so a second run with the same staged rows, customers and
      products appends a duplicate of every fact: as many rows, pairing the same customers and
      products again. */
  lemma FactsRerun(stage: seq<Row>, customers: seq<CustomerRow>, products: seq<ProductRow>,
                   n1: nat, o1: seq<(nat, nat, nat)>, d1: seq<Draw>, n2: nat, o2: seq<(nat, nat, nat)>, d2: seq<Draw>, today: Date)
    requires Enumerates(o1, FactJoin(stage, customers, products)) && |d1| == |o1|
    requires Enumerates(o2, FactJoin(stage, customers, products)) && |d2| == |o2|
    ensures |NewFacts(o2, n2, today, d2)| == |NewFacts(o1, n1, today, d1)|
    ensures FactPairs(NewFacts(o2, n2, today, d2)) == FactPairs(NewFacts(o1, n1, today, d1))
  {
    EnumerationLength(o1, FactJoin(stage, customers, products));
    EnumerationLength(o2, FactJoin(stage, customers, products));
    NewFactPairs(stage, customers, products, n1, o1, today, d1);
    NewFactPairs(stage, customers, products, n2, o2, today, d2);
  }
}
