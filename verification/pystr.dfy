/**
 * The parts of Python's `str` and `re` semantics that the model needs:
 * whitespace (`str.isspace`, `\s`), `strip`, `rstrip(chars)`, word characters (`\w`),
 * ASCII case folding for `re.IGNORECASE`, and `sorted` on strings.
 */
module PyStr {

  /** `c.isspace()`: Python's whitespace characters, which `str.strip()` removes and `\s` matches. */
  predicate IsSpace(c: char) {
    || c == ' '
    || ('\t' <= c <= '\r')
    || ('\U{1C}' <= c <= '\U{1F}')
    || c == '\U{85}' || c == '\U{A0}' || c == '\U{1680}'
    || ('\U{2000}' <= c <= '\U{200A}')
    || c == '\U{2028}' || c == '\U{2029}' || c == '\U{202F}' || c == '\U{205F}' || c == '\U{3000}'
  }

  predicate AllSpace(s: string) {
    forall i :: 0 <= i < |s| ==> IsSpace(s[i])
  }

  /** `s.lstrip()`: drops the leading whitespace and nothing else. */
  function TrimStart(s: string): (r: string)
    ensures |r| <= |s| && r == s[|s| - |r|..]
    ensures AllSpace(s[..|s| - |r|])
    ensures r == [] || !IsSpace(r[0])
  {
    if |s| > 0 && IsSpace(s[0]) then
      var r := TrimStart(s[1..]);
      var p := s[..|s| - |r|];
      assert s[1..][|s| - 1 - |r|..] == s[|s| - |r|..];
      assert forall i :: 0 < i < |p| ==> p[i] == s[1..][..|s| - 1 - |r|][i - 1];
      r
    else
      assert s[..0] == [];
      s
  }

  /** `s.rstrip()`: drops the trailing whitespace and nothing else. */
  function TrimEnd(s: string): (r: string)
    ensures |r| <= |s| && r == s[..|r|]
    ensures AllSpace(s[|r|..])
    ensures r == [] || !IsSpace(r[|r| - 1])
  {
    if |s| > 0 && IsSpace(s[|s| - 1]) then
      var r := TrimEnd(s[..|s| - 1]);
      var q := s[|r|..];
      assert s[..|s| - 1][..|r|] == s[..|r|];
      assert forall i :: 0 <= i < |q| - 1 ==> q[i] == s[..|s| - 1][|r|..][i];
      r
    else
      assert s[|s|..] == [];
      s
  }

  /** Number of leading whitespace characters that `strip` removes. */
  function LeadingSpace(s: string): nat {
    |s| - |TrimStart(s)|
  }

  /** `s.strip()`: the slice of `s` left after removing whitespace at both ends. */
  function Strip(s: string): (r: string)
    ensures r == [] || (!IsSpace(r[0]) && !IsSpace(r[|r| - 1]))
    ensures LeadingSpace(s) + |r| <= |s|
    ensures r == s[LeadingSpace(s)..LeadingSpace(s) + |r|]
    ensures AllSpace(s[..LeadingSpace(s)]) && AllSpace(s[LeadingSpace(s) + |r|..])
  {
    TrimEnd(TrimStart(s))
  }

  /** `s.rstrip(c)` for a single character `c`: drops every trailing `c`. */
  function RStrip(s: string, c: char): (r: string)
    ensures |r| <= |s| && r == s[..|r|]
    ensures forall k :: |r| <= k < |s| ==> s[k] == c
    ensures r == [] || r[|r| - 1] != c
  {
    if |s| > 0 && s[|s| - 1] == c then RStrip(s[..|s| - 1], c) else s
  }

  /** `\w` restricted to ASCII: letters, digits and underscore. */
  predicate IsWordChar(c: char) {
    ('a' <= c <= 'z') || ('A' <= c <= 'Z') || ('0' <= c <= '9') || c == '_'
  }

  /** Lower-casing of ASCII letters, the folding `re.IGNORECASE` applies to them. */
  function ToLowerAscii(c: char): char {
    if 'A' <= c <= 'Z' then (c as int + 32) as char else c
  }

  /** Equality of two strings up to ASCII letter case. */
  predicate EqualsIgnoreCase(a: string, b: string) {
    |a| == |b| && forall i :: 0 <= i < |a| ==> ToLowerAscii(a[i]) == ToLowerAscii(b[i])
  }

  lemma {:induction false} StripIdempotent(s: string)
    ensures Strip(Strip(s)) == Strip(s)
  {
    var r := Strip(s);
    if r != [] {
      assert TrimStart(r) == r;
      assert TrimEnd(r) == r;
    }
  }

  /** Character by character: `strip` keeps the slice that starts after the leading whitespace,
      and only whitespace lies outside it. */
  lemma StripParts(s: string)
    ensures forall m :: 0 <= m < LeadingSpace(s) ==> IsSpace(s[m])
    ensures forall m :: LeadingSpace(s) + |Strip(s)| <= m < |s| ==> IsSpace(s[m])
    ensures forall m :: 0 <= m < |Strip(s)| ==> Strip(s)[m] == s[LeadingSpace(s) + m]
  {
    var l := LeadingSpace(s);
    var r := Strip(s);
    forall m | 0 <= m < l ensures IsSpace(s[m]) {
      assert s[..l][m] == s[m];
    }
    forall m | l + |r| <= m < |s| ensures IsSpace(s[m]) {
      assert s[l + |r|..][m - l - |r|] == s[m];
    }
  }

  /** A character that is not whitespace survives `strip`. */
  lemma NonSpaceInsideStrip(s: string, i: nat)
    requires i < |s| && !IsSpace(s[i])
    ensures LeadingSpace(s) <= i < LeadingSpace(s) + |Strip(s)|
  {
    StripParts(s);
  }

  /** A string with no whitespace at either end is left alone by `strip`. */
  lemma StripNoPadding(s: string)
    requires s == [] || (!IsSpace(s[0]) && !IsSpace(s[|s| - 1]))
    ensures Strip(s) == s
  {
    TrimStartNoSpace(s);
    TrimEndNoSpace(s);
  }

  lemma {:induction false} TrimStartNoSpace(s: string)
    requires s == [] || !IsSpace(s[0])
    ensures TrimStart(s) == s
  {
  }

  lemma {:induction false} TrimEndNoSpace(s: string)
    requires s == [] || !IsSpace(s[|s| - 1])
    ensures TrimEnd(s) == s
  {
  }

  lemma {:induction false} TrimStartSpacePrefix(a: string, y: string)
    requires AllSpace(a)
    ensures TrimStart(a + y) == TrimStart(y)
  {
    if a != [] {
      assert (a + y)[1..] == a[1..] + y;
      TrimStartSpacePrefix(a[1..], y);
    } else {
      assert a + y == y;
    }
  }

  lemma {:induction false} TrimEndSpaceSuffix(y: string, b: string)
    requires AllSpace(b)
    ensures TrimEnd(y + b) == TrimEnd(y)
  {
    if b != [] {
      assert (y + b)[..|y + b| - 1] == y + b[..|b| - 1];
      TrimEndSpaceSuffix(y, b[..|b| - 1]);
    } else {
      assert y + b == y;
    }
  }

  lemma {:induction false} TrimStartAppend(x: string, b: string)
    requires !AllSpace(x)
    ensures TrimStart(x + b) == TrimStart(x) + b
  {
    if IsSpace(x[0]) {
      assert (x + b)[1..] == x[1..] + b;
      TrimStartAppend(x[1..], b);
    }
  }

  /** Whitespace around a string does not change what `strip` returns. */
  lemma StripSpacePadded(a: string, x: string, b: string)
    requires AllSpace(a) && AllSpace(b)
    ensures Strip(a + x + b) == Strip(x)
  {
    assert a + x + b == a + (x + b);
    TrimStartSpacePrefix(a, x + b);
    if AllSpace(x) {
      TrimStartSpacePrefix(x, b);
      TrimStartSpacePrefix(b, []);
      assert b + [] == b;
      assert x + [] == x;
      TrimStartSpacePrefix(x, []);
    } else {
      TrimStartAppend(x, b);
      TrimEndSpaceSuffix(TrimStart(x), b);
    }
  }

  /** The set of strings in a sequence. */
  function Elements(s: seq<string>): set<string> {
    set x | x in s
  }

  lemma ElementsEmpty(s: seq<string>)
    ensures Elements(s) == {} <==> s == []
  {
    if s != [] {
      assert s[0] in Elements(s);
    }
  }

  /** Python's `a < b` on `str`: lexicographic order of code points. */
  predicate LexLess(a: string, b: string) {
    if |a| == 0 then |b| > 0
    else if |b| == 0 then false
    else if a[0] != b[0] then a[0] < b[0]
    else LexLess(a[1..], b[1..])
  }

  lemma {:induction false} LexLessIrreflexive(a: string)
    ensures !LexLess(a, a)
  {
    if |a| > 0 {
      LexLessIrreflexive(a[1..]);
    }
  }

  lemma {:induction false} LexLessAsymmetric(a: string, b: string)
    ensures !(LexLess(a, b) && LexLess(b, a))
  {
    if |a| > 0 && |b| > 0 && a[0] == b[0] {
      LexLessAsymmetric(a[1..], b[1..]);
    }
  }

  lemma {:induction false} LexLessTotal(a: string, b: string)
    requires a != b
    ensures LexLess(a, b) || LexLess(b, a)
  {
    if |a| > 0 && |b| > 0 && a[0] == b[0] {
      assert a == [a[0]] + a[1..] && b == [b[0]] + b[1..];
      LexLessTotal(a[1..], b[1..]);
    }
  }

  lemma {:induction false} LexLessTransitive(a: string, b: string, c: string)
    requires LexLess(a, b) && LexLess(b, c)
    ensures LexLess(a, c)
  {
    if |a| > 0 && |b| > 0 && |c| > 0 && a[0] == b[0] && b[0] == c[0] {
      LexLessTransitive(a[1..], b[1..], c[1..]);
    }
  }

  predicate StrictlySorted(s: seq<string>) {
    forall i, j :: 0 <= i < j < |s| ==> LexLess(s[i], s[j])
  }

  /** Inserts `x` into a strictly sorted list, keeping it strictly sorted and free of duplicates. */
  function InsertSorted(x: string, s: seq<string>): (r: seq<string>)
    requires StrictlySorted(s)
    ensures StrictlySorted(r)
    ensures Elements(r) == Elements(s) + {x}
  {
    if s == [] then [x]
    else if x == s[0] then assert s[0] in Elements(s); s
    else if LexLess(x, s[0]) then
      assert Elements([x] + s) == {x} + Elements(s);
      assert forall k :: 0 <= k < |s| ==> LexLess(x, s[k]) by {
        forall k | 0 < k < |s| ensures LexLess(x, s[k]) {
          LexLessTransitive(x, s[0], s[k]);
        }
      }
      [x] + s
    else
      LexLessTotal(x, s[0]);
      var t := InsertSorted(x, s[1..]);
      assert Elements(s) == {s[0]} + Elements(s[1..]);
      assert forall k :: 0 <= k < |t| ==> LexLess(s[0], t[k]) by {
        forall k | 0 <= k < |t| ensures LexLess(s[0], t[k]) {
          assert t[k] in Elements(t);
        }
      }
      assert Elements([s[0]] + t) == {s[0]} + Elements(t);
      [s[0]] + t
  }

  /** `sorted(set(s))`: the distinct strings of `s` in ascending order. */
  function SortedDistinct(s: seq<string>): (r: seq<string>)
    ensures StrictlySorted(r)
    ensures Elements(r) == Elements(s)
  {
    if s == [] then []
    else
      assert Elements(s) == Elements(s[..|s| - 1]) + {s[|s| - 1]};
      InsertSorted(s[|s| - 1], SortedDistinct(s[..|s| - 1]))
  }

  /** There is only one strictly sorted list of a given set of strings, so `SortedDistinct`
      is exactly Python's `sorted(set(s))`. */
  lemma {:induction false} StrictlySortedUnique(a: seq<string>, b: seq<string>)
    requires StrictlySorted(a) && StrictlySorted(b)
    requires Elements(a) == Elements(b)
    ensures a == b
  {
    ElementsEmpty(a);
    ElementsEmpty(b);
    if a != [] && b != [] {
      assert a[0] in Elements(b);
      assert b[0] in Elements(a);
      var j :| 0 <= j < |b| && b[j] == a[0];
      var i :| 0 <= i < |a| && a[i] == b[0];
      if j > 0 {
        if i == 0 { LexLessIrreflexive(a[0]); } else { LexLessAsymmetric(a[0], a[i]); }
      }
      assert a[0] == b[0];
      forall x | x in Elements(a[1..]) ensures x in Elements(b[1..]) {
        var k :| 1 <= k < |a| && a[k] == x;
        assert x in Elements(b);
        if x == b[0] { LexLessIrreflexive(a[0]); }
      }
      forall x | x in Elements(b[1..]) ensures x in Elements(a[1..]) {
        var k :| 1 <= k < |b| && b[k] == x;
        assert x in Elements(a);
        if x == a[0] { LexLessIrreflexive(b[0]); }
      }
      StrictlySortedUnique(a[1..], b[1..]);
      assert a == [a[0]] + a[1..] && b == [b[0]] + b[1..];
    }
  }
}
