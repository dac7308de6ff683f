/**
 * What load_tsv_to_stage and load_all_staging compute: the checks made before anything is
 * changed, the projection of each source row onto the expected columns, and the sizes of the
 * batches the loader flushes. The file system is a map from path to the already parsed file.
 */
module Staging {
  import opened Wrappers
  import opened PyStr
  import opened Schema

  /** A parsed source file: its header (`None` for an empty file) and its data rows, each
      mapping a header name to its value (`None` where the line had fewer fields). */
  datatype TsvFile = TsvFile(header: Option<seq<string>>, rows: seq<map<string, Option<string>>>)

  type FileSystem = map<string, TsvFile>

  datatype LoadError =
    | MissingFile(path: string)
    | NoHeader(path: string)
    | MissingColumns(path: string, columns: seq<string>)
    | StageMissing(table: string)

  /** `[row.get(c, None) for c in expected_columns]` */
  function Project(row: map<string, Option<string>>, cols: seq<string>): (r: Row)
    ensures |r| == |cols|
  {
    if cols == [] then []
    else [if cols[0] in row then row[cols[0]] else None] + Project(row, cols[1..])
  }

  /** The projection reads only the expected columns: extra columns are ignored. */
  lemma {:induction false} ProjectIgnoresExtra(row: map<string, Option<string>>, row': map<string, Option<string>>, cols: seq<string>)
    requires forall c :: c in cols ==> (c in row <==> c in row') && (c in row ==> row[c] == row'[c])
    ensures Project(row, cols) == Project(row', cols)
  {
    if cols != [] {
      ProjectIgnoresExtra(row, row', cols[1..]);
    }
  }

  /** Position k of the projection holds the value of column cols[k], or NULL when the row
      has no such column. */
  lemma {:induction false} ProjectAt(row: map<string, Option<string>>, cols: seq<string>, k: nat)
    requires k < |cols|
    ensures Project(row, cols)[k] == if cols[k] in row then row[cols[k]] else None
  {
    if k > 0 {
      ProjectAt(row, cols[1..], k - 1);
    }
  }

  /** The staged rows of a file, in file order. */
  function StageRows(f: TsvFile, cols: seq<string>): (r: seq<Row>)
    ensures |r| == |f.rows|
  {
    seq(|f.rows|, i requires 0 <= i < |f.rows| => Project(f.rows[i], cols))
  }

  /** The expected columns the header lacks, in listed order. */
  function Absent(expected: seq<string>, header: seq<string>): (r: seq<string>)
    ensures Elements(r) == set c | c in expected && c !in header
  {
    if expected == [] then []
    else
      var rest := Absent(expected[1..], header);
      assert Elements(expected) == {expected[0]} + Elements(expected[1..]);
      if expected[0] in header then rest else
        assert Elements([expected[0]] + rest) == {expected[0]} + Elements(rest);
        [expected[0]] + rest
  }

  /** `sorted(set(expected_columns) - set(csv_reader.fieldnames))` */
  function MissingColumnsOf(expected: seq<string>, header: seq<string>): (r: seq<string>)
    ensures StrictlySorted(r)
    ensures forall c :: c in r <==> c in expected && c !in header
  {
    var m := SortedDistinct(Absent(expected, header));
    assert forall c :: c in m <==> c in Elements(m);
    m
  }

  /** The checks load_tsv_to_stage makes before it touches the stage table, in order: the file
      exists, it has a header, and the header names every expected column. */
  function CheckFile(fs: FileSystem, path: string, expected: seq<string>): Result<TsvFile, LoadError> {
    if path !in fs then Failure(MissingFile(path))
    else
      var f := fs[path];
      match f.header
      case None => Failure(NoHeader(path))
      case Some(h) =>
        var missing := MissingColumnsOf(expected, h);
        if missing != [] then Failure(MissingColumns(path, missing)) else Success(f)
  }

  /** The file is rejected exactly when it is absent, has no header, or lacks an expected
      column; the columns reported are exactly the missing ones, sorted. */
  lemma CheckFileSpec(fs: FileSystem, path: string, expected: seq<string>)
    ensures CheckFile(fs, path, expected) == Failure(MissingFile(path)) <==> path !in fs
    ensures path in fs && fs[path].header.Some? ==>
      (CheckFile(fs, path, expected).Success? <==> forall c :: c in expected ==> c in fs[path].header.value)
    ensures CheckFile(fs, path, expected).Success? ==> CheckFile(fs, path, expected).value == fs[path]
    ensures CheckFile(fs, path, expected).Failure? && CheckFile(fs, path, expected).error.MissingColumns? ==>
      var m := CheckFile(fs, path, expected).error.columns;
      m != [] && StrictlySorted(m) && forall c :: c in m <==> c in expected && c !in fs[path].header.value
  {
    if path in fs && fs[path].header.Some? {
      var m := MissingColumnsOf(expected, fs[path].header.value);
      if m != [] {
        assert m[0] in m;
      }
    }
  }

  /** What load_tsv_to_stage leaves in the stage tables: on success the stage table holds the
      file's rows projected onto the expected columns, in file order, and nothing else; when it
      raises, no stage table has changed. */
  function StageLoad(fs: FileSystem, path: string, stageTable: string, expected: seq<string>,
                     stages: map<string, seq<Row>>): Result<map<string, seq<Row>>, LoadError> {
    match CheckFile(fs, path, expected)
    case Failure(e) => Failure(e)
    case Success(f) =>
      if stageTable !in stages then Failure(StageMissing(stageTable))
      else Success(stages[stageTable := StageRows(f, expected)])
  }

  /** StageLoad by the outcome of the checks: a rejected file is reported as it is, a missing
      stage table next, and otherwise the stage table is replaced. */
  lemma StageLoadCases(fs: FileSystem, path: string, stageTable: string, expected: seq<string>,
                       stages: map<string, seq<Row>>)
    ensures var c := CheckFile(fs, path, expected);
      && (c.Failure? ==> StageLoad(fs, path, stageTable, expected, stages) == Failure(c.error))
      && (c.Success? ==> path in fs && c.value == fs[path])
      && (c.Success? && stageTable !in stages ==>
            StageLoad(fs, path, stageTable, expected, stages) == Failure(StageMissing(stageTable)))
      && (c.Success? && stageTable in stages ==>
            StageLoad(fs, path, stageTable, expected, stages) == Success(stages[stageTable := StageRows(c.value, expected)]))
  {
    CheckFileSpec(fs, path, expected);
  }

  // ---------------------------------------------------------------- batching

  function Sum(xs: seq<nat>): nat {
    if xs == [] then 0 else xs[0] + Sum(xs[1..])
  }

  /** The sizes of the batches the loader flushes for `n` data rows: a batch whenever the buffer
      reaches `b` rows, then the remainder if any. A `b` below 1 is never reached by the buffer,
      so then all rows go in one final batch. */
  function BatchSizes(n: nat, b: int): seq<nat>
    decreases n
  {
    if n == 0 then []
    else if b < 1 || n < b then [n]
    else [b] + BatchSizes(n - b, b)
  }

  /** The batches add up to the number of data rows. */
  lemma {:induction false} BatchSizesSum(n: nat, b: int)
    ensures Sum(BatchSizes(n, b)) == n
    decreases n
  {
    if n > 0 && b >= 1 && n >= b {
      BatchSizesSum(n - b, b);
    }
  }

  /** Every batch but the last has exactly `b` rows and the last has 1..b rows; there is a batch
      exactly when there is a row. */
  lemma {:induction false} BatchSizesShape(n: nat, b: int)
    requires b >= 1
    ensures var bs := BatchSizes(n, b);
      && (bs == [] <==> n == 0)
      && (forall k :: 0 <= k < |bs| - 1 ==> bs[k] == b)
      && (bs != [] ==> 1 <= bs[|bs| - 1] <= b)
    decreases n
  {
    if n >= b {
      BatchSizesShape(n - b, b);
    }
  }

  /** Writing the number of rows as q * b + r with 0 <= r < b: q full batches, then one batch
      of the r remaining rows when r > 0. */
  lemma {:induction false} BatchSizesDivMod(n: nat, b: int, q: nat, r: nat)
    requires b >= 1 && r < b && n == q * b + r
    ensures BatchSizes(n, b) == seq(q, _ => b as nat) + (if r == 0 then [] else [r])
    decreases q
  {
    if q > 0 {
      assert n - b == (q - 1) * b + r;
      BatchSizesDivMod(n - b, b, q - 1, r);
      assert seq(q, _ => b as nat) == [b as nat] + seq(q - 1, _ => b as nat);
    } else {
      assert seq(0, _ => b as nat) == [];
    }
  }

  /** The running totals printed after each flush. */
  function RunningTotals(bs: seq<nat>): (r: seq<nat>)
    ensures |r| == |bs|
  {
    seq(|bs|, k requires 0 <= k < |bs| => Sum(bs[..k + 1]))
  }

  lemma {:induction false} SumAppend(xs: seq<nat>, x: nat)
    ensures Sum(xs + [x]) == Sum(xs) + x
  {
    if xs != [] {
      assert (xs + [x])[1..] == xs[1..] + [x];
      SumAppend(xs[1..], x);
    } else {
      assert [] + [x] == [x];
    }
  }

  /** A flush extends the running totals by the new total. */
  lemma RunningTotalsAppend(bs: seq<nat>, x: nat)
    ensures RunningTotals(bs + [x]) == RunningTotals(bs) + [Sum(bs) + x]
  {
    var l := bs + [x];
    forall k | 0 <= k < |bs| ensures RunningTotals(l)[k] == RunningTotals(bs)[k] {
      assert l[..k + 1] == bs[..k + 1];
    }
    assert l[..|bs| + 1] == l;
    SumAppend(bs, x);
  }

  /** The running totals of a batch list that starts with `x`. */
  lemma RunningTotalsCons(x: nat, rest: seq<nat>, k: nat)
    requires k <= |rest|
    ensures RunningTotals([x] + rest)[k] == x + if k == 0 then 0 else RunningTotals(rest)[k - 1]
  {
    var l := [x] + rest;
    assert l[..k + 1][0] == x && l[..k + 1][1..] == rest[..k];
    assert RunningTotals(l)[k] == Sum(l[..k + 1]) == x + Sum(rest[..k]);
    if k == 0 {
      assert rest[..0] == [];
    } else {
      assert RunningTotals(rest)[k - 1] == Sum(rest[..k]);
    }
  }

  /** The running total after the k-th flush is the number of rows read so far: k + 1 full
      batches, or all n rows after the last flush. */
  lemma {:induction false} BatchTotals(n: nat, b: int, k: nat)
    requires b >= 1 && k < |BatchSizes(n, b)|
    ensures RunningTotals(BatchSizes(n, b))[k] == if k == |BatchSizes(n, b)| - 1 then n else (k + 1) * b
    decreases n
  {
    var bs := BatchSizes(n, b);
    if n >= b {
      var rest := BatchSizes(n - b, b);
      assert bs == [b as nat] + rest;
      RunningTotalsCons(b, rest, k);
      if k == 0 {
        BatchSizesShape(n - b, b);
      } else {
        BatchTotals(n - b, b, k - 1);
        assert (k + 1) * b == b + k * b;
      }
    } else {
      assert bs == [n] + [];
      RunningTotalsCons(n, [], 0);
    }
  }

  /** The loader's bookkeeping after `total` of the `n` rows have been flushed: the flushed
      batches add up to `total`, are the first of the batches for `n` rows, and `totals` holds
      the running total after each. */
  ghost predicate Batched(n: nat, b: int, total: nat, flushed: seq<nat>, totals: seq<nat>) {
    && total <= n && total == Sum(flushed)
    && flushed + BatchSizes(n - total, b) == BatchSizes(n, b)
    && totals == RunningTotals(flushed)
  }

  /** Flushing a full buffer of `b` rows. */
  lemma BatchedFlush(n: nat, b: int, total: nat, flushed: seq<nat>, totals: seq<nat>)
    requires Batched(n, b, total, flushed, totals) && b >= 1 && n - total >= b
    ensures Batched(n, b, total + b, flushed + [b as nat], totals + [total + b])
  {
    assert BatchSizes(n - total, b) == [b as nat] + BatchSizes(n - total - b, b);
    assert flushed + BatchSizes(n - total, b) == (flushed + [b as nat]) + BatchSizes(n - (total + b), b);
    RunningTotalsAppend(flushed, b);
    SumAppend(flushed, b);
  }

  /** Flushing the `r` rows left when the loop ends. */
  lemma BatchedLast(n: nat, b: int, total: nat, flushed: seq<nat>, totals: seq<nat>, r: nat)
    requires Batched(n, b, total, flushed, totals) && r == n - total > 0 && (b < 1 || r < b)
    ensures flushed + [r] == BatchSizes(n, b) && totals + [n] == RunningTotals(flushed + [r])
  {
    assert BatchSizes(n - total, b) == [r];
    RunningTotalsAppend(flushed, r);
  }

  /** With every row flushed, the batches are all of them. */
  lemma BatchedDone(n: nat, b: int, flushed: seq<nat>, totals: seq<nat>)
    requires Batched(n, b, n, flushed, totals)
    ensures flushed == BatchSizes(n, b)
  {
    assert flushed + [] == flushed;
  }

  // ---------------------------------------------------------------- load_all_staging

  /** load_all_staging over the configured files: an absent file is skipped, a present one is
      loaded, and the first load that raises stops the loop with the loads before it kept. */
  function StageAll(files: seq<FileConfig>, fs: FileSystem, stages: map<string, seq<Row>>): (map<string, seq<Row>>, Outcome<LoadError>)
    requires forall i :: 0 <= i < |files| ==> files[i].name in ExpectedColumns
  {
    if files == [] then (stages, Pass)
    else
      var f := files[0];
      if f.filename !in fs then StageAll(files[1..], fs, stages)
      else
        match StageLoad(fs, f.filename, StageTableOf(f), ExpectedColumns[f.name], stages)
        case Failure(e) => (stages, Fail(e))
        case Success(s) => StageAll(files[1..], fs, s)
  }

  /** With none of the configured files present, load_all_staging changes nothing and succeeds. */
  lemma {:induction false} StageAllSkipsAbsent(files: seq<FileConfig>, fs: FileSystem, stages: map<string, seq<Row>>)
    requires forall i :: 0 <= i < |files| ==> files[i].name in ExpectedColumns
    requires forall i :: 0 <= i < |files| ==> files[i].filename !in fs
    ensures StageAll(files, fs, stages) == (stages, Pass)
  {
    if files != [] {
      StageAllSkipsAbsent(files[1..], fs, stages);
    }
  }

  /** For the configured FILES: data.csv goes to stage_customer with the six expected columns. */
  lemma ConfiguredLoad(fs: FileSystem, stages: map<string, seq<Row>>)
    ensures forall i :: 0 <= i < |Files| ==> Files[i].name in ExpectedColumns
    ensures "data.csv" !in fs ==> StageAll(Files, fs, stages) == (stages, Pass)
    ensures "data.csv" in fs ==>
      var r := StageLoad(fs, "data.csv", StageCustomerTable, StageCustomerColumns, stages);
      StageAll(Files, fs, stages) == if r.Failure? then (stages, Fail(r.error)) else (r.value, Pass)
  {
    assert Files[1..] == [];
  }
}
