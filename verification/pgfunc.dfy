/**
 * The PostgreSQL built-ins that the warehouse SQL applies to staged text:
 * SPLIT_PART, STRING_TO_ARRAY (with UNNEST and ANY), LEFT, NULLIF and COALESCE.
 * SQL NULL is `None`.
 */
module PgFunc {
  import opened Wrappers

  /** The inverse of `Split`: the fields joined with the delimiter between them. */
  function Join(parts: seq<string>, d: char): string {
    if |parts| == 0 then ""
    else if |parts| == 1 then parts[0]
    else parts[0] + [d] + Join(parts[1..], d)
  }

  /** The fields of `s` between occurrences of the single-character delimiter `d`,
      empty fields included (the splitting both SPLIT_PART and STRING_TO_ARRAY perform). */
  function Split(s: string, d: char): (r: seq<string>)
    ensures |r| >= 1
    ensures forall i :: 0 <= i < |r| ==> d !in r[i]
    ensures Join(r, d) == s
  {
    if |s| == 0 then [""]
    else
      var rest := Split(s[1..], d);
      if s[0] == d then [""] + rest
      else
        assert |rest| == 1 ==> [s[0]] + rest[0] == s;
        [[s[0]] + rest[0]] + rest[1..]
  }

  lemma {:induction false} SplitFreePrefix(p: string, t: string, d: char)
    requires d !in p
    ensures Split(p + t, d) == [p + Split(t, d)[0]] + Split(t, d)[1..]
  {
    if p != [] {
      assert p[0] in p;
      assert (p + t)[0] == p[0] != d;
      assert (p + t)[1..] == p[1..] + t;
      SplitFreePrefix(p[1..], t, d);
      var r := Split(p[1..] + t, d);
      assert Split(p + t, d) == [[p[0]] + r[0]] + r[1..];
      assert [p[0]] + (p[1..] + Split(t, d)[0]) == p + Split(t, d)[0];
    } else {
      assert p + t == t;
      var r := Split(t, d);
      assert r == [r[0]] + r[1..];
      assert p + r[0] == r[0];
    }
  }

  /** Splitting undoes joining: a list of delimiter-free fields survives a round trip. */
  lemma {:induction false} SplitJoin(parts: seq<string>, d: char)
    requires |parts| >= 1
    requires forall i :: 0 <= i < |parts| ==> d !in parts[i]
    ensures Split(Join(parts, d), d) == parts
  {
    if |parts| == 1 {
      SplitFree(parts[0], d);
    } else {
      SplitJoin(parts[1..], d);
      SplitJoinStep(parts[0], parts[1..], d);
      assert parts == [parts[0]] + parts[1..];
    }
  }

  /** One more delimiter-free field in front of a list that survives the round trip. */
  lemma SplitJoinStep(p: string, tail: seq<string>, d: char)
    requires d !in p && |tail| >= 1 && Split(Join(tail, d), d) == tail
    ensures Split(Join([p] + tail, d), d) == [p] + tail
  {
    var rest := Join(tail, d);
    assert ([p] + tail)[1..] == tail;
    assert Join([p] + tail, d) == p + ([d] + rest);
    SplitAfterDelimiter(rest, d);
    SplitFreePrefix(p, [d] + rest, d);
    assert p + "" == p;
  }

  /** A delimiter-free string is a single field. */
  lemma SplitFree(p: string, d: char)
    requires d !in p
    ensures Split(p, d) == [p]
  {
    SplitFreePrefix(p, "", d);
    assert p + "" == p;
    assert Split("", d) == [""];
  }

  /** A leading delimiter closes an empty first field. */
  lemma SplitAfterDelimiter(rest: string, d: char)
    ensures Split([d] + rest, d) == [""] + Split(rest, d)
  {
    assert ([d] + rest)[1..] == rest;
  }

  /** SPLIT_PART(s, d, n) for n >= 1: the n-th field, or '' past the last one. */
  function SplitPart(s: string, d: char, n: nat): string
    requires n >= 1
  {
    var fields := Split(s, d);
    if n <= |fields| then fields[n - 1] else ""
  }

  /** SPLIT_PART(s, d, 1) is the text before the first delimiter, or all of `s` when there is none. */
  lemma SplitPartFirst(s: string, d: char)
    ensures d !in SplitPart(s, d, 1)
    ensures |SplitPart(s, d, 1)| <= |s| && SplitPart(s, d, 1) == s[..|SplitPart(s, d, 1)|]
    ensures |SplitPart(s, d, 1)| == |s| || s[|SplitPart(s, d, 1)|] == d
  {
    var fields := Split(s, d);
    if |fields| > 1 {
      assert s == fields[0] + [d] + Join(fields[1..], d);
    }
  }

  /** STRING_TO_ARRAY(s, d): NULL for NULL, the empty array for '', otherwise every field,
      empty ones included. */
  function StringToArray(s: Option<string>, d: char): (r: Option<seq<string>>)
    ensures s.None? <==> r.None?
    ensures s == Some("") ==> r == Some([])
    ensures s.Some? && s.value != "" ==>
      r.Some? && Join(r.value, d) == s.value && forall i :: 0 <= i < |r.value| ==> d !in r.value[i]
  {
    match s
    case None => None
    case Some(t) => if t == "" then Some([]) else Some(Split(t, d))
  }

  /** The rows UNNEST yields for an array (none for NULL); `x = ANY(a)` holds exactly when
      `x` is one of them. */
  function Unnest(a: Option<seq<string>>): seq<string> {
    match a
    case None => []
    case Some(xs) => xs
  }

  /** LEFT(s, n): the first n characters, or the whole string when it is shorter. */
  function Left(s: string, n: nat): string {
    if |s| <= n then s else s[..n]
  }

  /** NULLIF(v, x): NULL when v equals x, otherwise v. */
  function NullIf(v: Option<string>, x: string): Option<string> {
    if v == Some(x) then None else v
  }

  /** COALESCE(v, fallback) with a non-NULL fallback. */
  function Coalesce(v: Option<string>, fallback: string): string {
    match v
    case None => fallback
    case Some(y) => y
  }
}
