/**
 * `INSERT INTO t ... SELECT ... ON CONFLICT (key) DO NOTHING` into a table whose id is SERIAL.
 *
 * The candidates are the rows of the SELECT in the order the engine produces them. Every
 * candidate draws the next sequence value, because PostgreSQL evaluates the SERIAL default
 * before it detects the conflict; a candidate whose key is already in the table, or was
 * inserted by an earlier candidate of the same statement, is then dropped.
 */
module Upsert {

  /** The keys of a list of candidates. */
  function Keys<T>(cands: seq<T>, key: T -> string): set<string> {
    set i | 0 <= i < |cands| :: key(cands[i])
  }

  /** The keys of a list of inserted (id, candidate) pairs. */
  function RowKeys<T>(rows: seq<(nat, T)>, key: T -> string): set<string> {
    set i | 0 <= i < |rows| :: key(rows[i].1)
  }

  lemma KeysCons<T>(cands: seq<T>, key: T -> string)
    requires cands != []
    ensures Keys(cands, key) == {key(cands[0])} + Keys(cands[1..], key)
  {
    forall x | x in Keys(cands, key) ensures x in {key(cands[0])} + Keys(cands[1..], key) {
      var i :| 0 <= i < |cands| && key(cands[i]) == x;
      if i > 0 { assert key(cands[1..][i - 1]) == x; }
    }
  }

  lemma RowKeysCons<T>(row: (nat, T), rest: seq<(nat, T)>, key: T -> string)
    ensures RowKeys([row] + rest, key) == {key(row.1)} + RowKeys(rest, key)
  {
    var r := [row] + rest;
    forall x | x in RowKeys(r, key) ensures x in {key(row.1)} + RowKeys(rest, key) {
      var i :| 0 <= i < |r| && key(r[i].1) == x;
      if i > 0 { assert key(rest[i - 1].1) == x; }
    }
    assert key(r[0].1) == key(row.1);
    forall x | x in RowKeys(rest, key) ensures x in RowKeys(r, key) {
      var i :| 0 <= i < |rest| && key(rest[i].1) == x;
      assert r[i + 1] == rest[i];
    }
  }

  lemma RowKeysEmpty<T>(rows: seq<(nat, T)>, key: T -> string)
    ensures RowKeys(rows, key) == {} <==> rows == []
  {
    if rows != [] {
      assert key(rows[0].1) in RowKeys(rows, key);
    }
  }

  /** The rows the statement inserts, each paired with the sequence value it was given, when the
      table already holds the keys `taken` and the sequence stands at `next`. */
  function Inserted<T>(taken: set<string>, cands: seq<T>, key: T -> string, next: nat): (r: seq<(nat, T)>)
    ensures forall i :: 0 <= i < |r| ==> next <= r[i].0 < next + |cands| && r[i].1 == cands[r[i].0 - next]
    ensures forall i, j :: 0 <= i < j < |r| ==> r[i].0 < r[j].0
    ensures forall i, j :: 0 <= i < j < |r| ==> key(r[i].1) != key(r[j].1)
    ensures RowKeys(r, key) == Keys(cands, key) - taken
    decreases |cands|
  {
    if cands == [] then []
    else
      var k := key(cands[0]);
      KeysCons(cands, key);
      if k in taken then Inserted(taken, cands[1..], key, next + 1)
      else
        var rest := Inserted(taken + {k}, cands[1..], key, next + 1);
        RowKeysCons((next, cands[0]), rest, key);
        assert forall i :: 0 <= i < |rest| ==> key(rest[i].1) != k by {
          forall i | 0 <= i < |rest| ensures key(rest[i].1) != k {
            assert key(rest[i].1) in RowKeys(rest, key);
          }
        }
        [(next, cands[0])] + rest
  }

  /** Some inserted row carries the sequence value `id`. */
  predicate HasId<T>(rows: seq<(nat, T)>, id: nat) {
    exists i :: 0 <= i < |rows| && rows[i].0 == id
  }

  lemma HasIdCons<T>(row: (nat, T), rest: seq<(nat, T)>, id: nat)
    ensures HasId([row] + rest, id) <==> row.0 == id || HasId(rest, id)
  {
    var r := [row] + rest;
    if HasId(rest, id) {
      var i :| 0 <= i < |rest| && rest[i].0 == id;
      assert r[i + 1].0 == id;
    }
    if HasId(r, id) && row.0 != id {
      var i :| 0 <= i < |r| && r[i].0 == id;
      assert rest[i - 1].0 == id;
    }
    assert r[0] == row;
  }

  /** One step of the statement: the first candidate is inserted unless its key is taken, and
      either way its key is taken for the candidates after it. */
  lemma InsertedCons<T>(taken: set<string>, cands: seq<T>, key: T -> string, next: nat)
    requires cands != []
    ensures var rest := Inserted(taken + {key(cands[0])}, cands[1..], key, next + 1);
      Inserted(taken, cands, key, next) == if key(cands[0]) in taken then rest else [(next, cands[0])] + rest
  {
    if key(cands[0]) in taken {
      assert taken + {key(cands[0])} == taken;
    }
  }

  /** Exactly the candidates whose key is neither in the table nor carried by an earlier
      candidate are inserted: the first candidate with a new key wins. */
  lemma {:induction false} InsertedExactly<T>(taken: set<string>, cands: seq<T>, key: T -> string, next: nat, k: nat)
    requires k < |cands|
    ensures HasId(Inserted(taken, cands, key, next), next + k)
            <==> (key(cands[k]) !in taken && key(cands[k]) !in Keys(cands[..k], key))
    decreases k
  {
    if k == 0 {
      InsertedFirst(taken, cands, key, next);
      assert Keys(cands[..0], key) == {};
    } else {
      var taken' := taken + {key(cands[0])};
      InsertedLater(taken, cands, key, next, k);
      InsertedExactly(taken', cands[1..], key, next + 1, k - 1);
      assert cands[1..][k - 1] == cands[k];
      KeysCons(cands[..k], key);
      assert cands[..k][1..] == cands[1..][..k - 1];
    }
  }

  /** The first candidate is inserted exactly when its key is not in the table. */
  lemma InsertedFirst<T>(taken: set<string>, cands: seq<T>, key: T -> string, next: nat)
    requires cands != []
    ensures HasId(Inserted(taken, cands, key, next), next) <==> key(cands[0]) !in taken
  {
    var rest := Inserted(taken + {key(cands[0])}, cands[1..], key, next + 1);
    InsertedCons(taken, cands, key, next);
    HasIdCons((next, cands[0]), rest, next);
    assert !HasId(rest, next);
  }

  /** A later candidate is inserted exactly when the statement over the remaining candidates,
      with the first key taken, inserts it. */
  lemma InsertedLater<T>(taken: set<string>, cands: seq<T>, key: T -> string, next: nat, k: nat)
    requires 0 < k < |cands|
    ensures HasId(Inserted(taken, cands, key, next), next + k)
            <==> HasId(Inserted(taken + {key(cands[0])}, cands[1..], key, next + 1), next + k)
  {
    var rest := Inserted(taken + {key(cands[0])}, cands[1..], key, next + 1);
    InsertedCons(taken, cands, key, next);
    HasIdCons((next, cands[0]), rest, next + k);
  }

  /** A statement whose candidate keys are all taken inserts nothing. */
  lemma InsertedNothingNew<T>(taken: set<string>, cands: seq<T>, key: T -> string, next: nat)
    requires Keys(cands, key) <= taken
    ensures Inserted(taken, cands, key, next) == []
  {
    RowKeysEmpty(Inserted(taken, cands, key, next), key);
  }

  // Tables as sequences of rows, seen through a name and an id accessor.

  /** The natural keys of a table. */
  function Names<R>(t: seq<R>, name: R -> string): set<string> {
    set i | 0 <= i < |t| :: name(t[i])
  }

  /** No natural key occurs twice: what a UNIQUE constraint guarantees. */
  predicate UniqueNames<R>(t: seq<R>, name: R -> string) {
    forall i, j :: 0 <= i < j < |t| ==> name(t[i]) != name(t[j])
  }

  /** The SERIAL ids of a table, in row order. */
  function Ids<R>(t: seq<R>, id: R -> nat): seq<nat> {
    seq(|t|, i requires 0 <= i < |t| => id(t[i]))
  }

  /** The ids of a table drawn from a sequence that now stands at `next` (it starts at 1):
      increasing in insertion order, hence distinct, and all below `next`. */
  predicate Serial(ids: seq<nat>, next: nat) {
    && (forall i, j :: 0 <= i < j < |ids| ==> ids[i] < ids[j])
    && (forall i :: 0 <= i < |ids| ==> 1 <= ids[i] < next)
  }

  /** A table with a unique natural key and a SERIAL id drawn from a sequence standing at `next`. */
  predicate Keyed<R>(t: seq<R>, name: R -> string, id: R -> nat, next: nat) {
    UniqueNames(t, name) && Serial(Ids(t, id), next) && next >= 1
  }

  /** The rows built from inserted (id, candidate) pairs. */
  function Build<T, R>(ins: seq<(nat, T)>, mk: (nat, T) -> R): seq<R> {
    seq(|ins|, i requires 0 <= i < |ins| => mk(ins[i].0, ins[i].1))
  }

  /** The rows an `INSERT ... ON CONFLICT (name) DO NOTHING` adds to table `t`. */
  function NewRows<T, R>(t: seq<R>, name: R -> string, cands: seq<T>, key: T -> string, mk: (nat, T) -> R, next: nat): seq<R> {
    Build(Inserted(Names(t, name), cands, key, next), mk)
  }

  /** After the insert the table's keys are the old ones plus every candidate key; keys stay
      unique and ids serial, the sequence having advanced once per candidate. */
  lemma NewRowsSpec<T, R>(t: seq<R>, name: R -> string, id: R -> nat, cands: seq<T>, key: T -> string, mk: (nat, T) -> R, next: nat)
    requires forall n, c :: name(mk(n, c)) == key(c) && id(mk(n, c)) == n
    requires Keyed(t, name, id, next)
    ensures var u := t + NewRows(t, name, cands, key, mk, next);
      && Names(u, name) == Names(t, name) + Keys(cands, key)
      && Keyed(u, name, id, next + |cands|)
  {
    var ins := Inserted(Names(t, name), cands, key, next);
    var nr := Build(ins, mk);
    NewNames(ins, name, key, mk);
    AppendNames(t, nr, name);
    NewUnique(ins, name, key, mk);
    UniqueAppend(t, nr, name);
    AppendIds(t, ins, id, mk);
    SerialInserted(Ids(t, id), ins, next, |cands|);
  }

  /** The sequence values of the inserted rows, drawn from next .. next + n - 1 in increasing
      order, keep a list of ids serial. */
  lemma SerialInserted<T>(ids: seq<nat>, ins: seq<(nat, T)>, next: nat, n: nat)
    requires Serial(ids, next) && next >= 1
    requires forall i :: 0 <= i < |ins| ==> next <= ins[i].0 < next + n
    requires forall i, j :: 0 <= i < j < |ins| ==> ins[i].0 < ins[j].0
    ensures Serial(ids + seq(|ins|, i requires 0 <= i < |ins| => ins[i].0), next + n)
  {
    var v := seq(|ins|, i requires 0 <= i < |ins| => ins[i].0);
    var u := ids + v;
    forall i | 0 <= i < |u| ensures u[i] == if i < |ids| then ids[i] else ins[i - |ids|].0 {
    }
  }

  /** The rows built from the inserted pairs have distinct names. */
  lemma NewUnique<T, R>(ins: seq<(nat, T)>, name: R -> string, key: T -> string, mk: (nat, T) -> R)
    requires forall n, c :: name(mk(n, c)) == key(c)
    requires forall i, j :: 0 <= i < j < |ins| ==> key(ins[i].1) != key(ins[j].1)
    ensures UniqueNames(Build(ins, mk), name)
  {
    var nr := Build(ins, mk);
    forall i, j | 0 <= i < j < |nr| ensures name(nr[i]) != name(nr[j]) {
      assert name(nr[i]) == key(ins[i].1) && name(nr[j]) == key(ins[j].1);
    }
  }

  /** Two tables with unique names and no name in common append to one with unique names. */
  lemma UniqueAppend<R>(t: seq<R>, nr: seq<R>, name: R -> string)
    requires UniqueNames(t, name) && UniqueNames(nr, name)
    requires Names(t, name) !! Names(nr, name)
    ensures UniqueNames(t + nr, name)
  {
    var u := t + nr;
    forall i, j | 0 <= i < |t| <= j < |u| ensures name(u[i]) != name(u[j]) {
      assert name(u[i]) in Names(t, name) by { assert u[i] == t[i]; }
      assert name(u[j]) in Names(nr, name) by { assert u[j] == nr[j - |t|]; }
    }
    forall i, j | 0 <= i < j < |u| ensures name(u[i]) != name(u[j]) {
      if i >= |t| {
        assert u[i] == nr[i - |t|] && u[j] == nr[j - |t|];
      } else if j < |t| {
        assert u[i] == t[i] && u[j] == t[j];
      }
    }
  }

  lemma NewNames<T, R>(ins: seq<(nat, T)>, name: R -> string, key: T -> string, mk: (nat, T) -> R)
    requires forall n, c :: name(mk(n, c)) == key(c)
    ensures Names(Build(ins, mk), name) == RowKeys(ins, key)
  {
    var nr := Build(ins, mk);
    forall x | x in RowKeys(ins, key) ensures x in Names(nr, name) {
      var i :| 0 <= i < |ins| && key(ins[i].1) == x;
      assert name(nr[i]) == x;
    }
  }

  lemma AppendNames<R>(t: seq<R>, nr: seq<R>, name: R -> string)
    ensures Names(t + nr, name) == Names(t, name) + Names(nr, name)
  {
    var u := t + nr;
    forall x | x in Names(u, name) ensures x in Names(t, name) + Names(nr, name) {
      var i :| 0 <= i < |u| && name(u[i]) == x;
      if i >= |t| { assert name(nr[i - |t|]) == x; }
    }
    forall x | x in Names(nr, name) ensures x in Names(u, name) {
      var i :| 0 <= i < |nr| && name(nr[i]) == x;
      assert name(u[|t| + i]) == x;
    }
    forall x | x in Names(t, name) ensures x in Names(u, name) {
      var i :| 0 <= i < |t| && name(t[i]) == x;
      assert name(u[i]) == x;
    }
  }

  lemma AppendIds<T, R>(t: seq<R>, ins: seq<(nat, T)>, id: R -> nat, mk: (nat, T) -> R)
    requires forall n, c :: id(mk(n, c)) == n
    ensures Ids(t + Build(ins, mk), id) == Ids(t, id) + seq(|ins|, i requires 0 <= i < |ins| => ins[i].0)
  {
    var u := t + Build(ins, mk);
    var rhs := Ids(t, id) + seq(|ins|, i requires 0 <= i < |ins| => ins[i].0);
    forall k | 0 <= k < |u| ensures Ids(u, id)[k] == rhs[k] {
      if k >= |t| {
        assert u[k] == mk(ins[k - |t|].0, ins[k - |t|].1);
      }
    }
  }

  /** Appending rows numbered next, next + 1, ... keeps the ids of a table serial. */
  lemma SerialAppend<R>(t: seq<R>, nr: seq<R>, id: R -> nat, next: nat)
    requires Serial(Ids(t, id), next) && next >= 1
    requires forall k :: 0 <= k < |nr| ==> id(nr[k]) == next + k
    ensures Serial(Ids(t + nr, id), next + |nr|)
  {
    var u := t + nr;
    forall i | 0 <= i < |u| ensures Ids(u, id)[i] == (if i < |t| then Ids(t, id)[i] else next + (i - |t|)) {
      if i >= |t| { assert u[i] == nr[i - |t|]; }
    }
  }
}
