/**
 * The two string helpers of the query page: `_ensure_limit`, which appends a LIMIT clause to a
 * query that has none, and `extract_sql_from_response`, which removes Markdown code fences
 * around a generated query.
 */
module QueryText {
  import opened Wrappers
  import opened PyStr

  const QueryDefaultLimit: int := 500

  // ---------------------------------------------------------------- _ensure_limit

  /** `\blimit\b` under IGNORECASE matches at position i. */
  predicate LimitWordAt(s: string, i: nat) {
    && i + 5 <= |s|
    && ToLowerAscii(s[i]) == 'l' && ToLowerAscii(s[i + 1]) == 'i' && ToLowerAscii(s[i + 2]) == 'm'
    && ToLowerAscii(s[i + 3]) == 'i' && ToLowerAscii(s[i + 4]) == 't'
    && (i == 0 || !IsWordChar(s[i - 1]))
    && (i + 5 == |s| || !IsWordChar(s[i + 5]))
  }

  /** `re.compile(r"\blimit\b", re.IGNORECASE).search(s)` finds a match. */
  predicate HasLimitWord(s: string) {
    exists i: nat :: i + 5 <= |s| && LimitWordAt(s, i)
  }

  function DigitChar(d: nat): char
    requires d < 10
  {
    "0123456789"[d]
  }

  function NatToString(n: nat): string
    decreases n
  {
    if n < 10 then [DigitChar(n)] else NatToString(n / 10) + [DigitChar(n % 10)]
  }

  /** `str(n)` for an int. */
  function IntToString(n: int): string {
    if n < 0 then "-" + NatToString(-n) else NatToString(n)
  }

  /** `_ensure_limit(sql, default_limit)` */
  function EnsureLimit(sql: string, defaultLimit: int): string {
    if HasLimitWord(sql) then Strip(sql)
    else RStrip(Strip(sql), ';') + "\nLIMIT " + IntToString(defaultLimit) + ";"
  }

  /** A whole-word `limit` lying inside a slice is a whole word of the slice. */
  lemma LimitWordInSlice(s: string, l: nat, n: nat, i: nat)
    requires l + n <= |s| && LimitWordAt(s, i) && l <= i && i + 5 <= l + n
    ensures LimitWordAt(s[l..l + n], i - l)
  {
    var r := s[l..l + n];
    var j := i - l;
    assert r[j] == s[i] && r[j + 1] == s[i + 1] && r[j + 2] == s[i + 2] && r[j + 3] == s[i + 3] && r[j + 4] == s[i + 4];
    assert j == 0 || r[j - 1] == s[i - 1];
    assert j + 5 == |r| || r[j + 5] == s[i + 5];
  }

  /** The letters of `limit` are not whitespace. */
  lemma LimitLettersNotSpace(s: string, i: nat)
    requires LimitWordAt(s, i)
    ensures !IsSpace(s[i]) && !IsSpace(s[i + 4])
  {
  }

  /** Stripping whitespace keeps a whole-word `limit`. */
  lemma StripKeepsLimitWord(sql: string)
    requires HasLimitWord(sql)
    ensures HasLimitWord(Strip(sql))
  {
    var i: nat :| i + 5 <= |sql| && LimitWordAt(sql, i);
    LimitLettersNotSpace(sql, i);
    var l, n := StripPadded(sql);
    assert l <= i && i + 4 < l + n;
    LimitWordInSlice(sql, l, n, i);
    assert LimitWordAt(Strip(sql), i - l);
  }

  /** The clause `_ensure_limit` appends is itself a whole-word LIMIT. */
  lemma AppendedLimitWord(p: string, digits: string)
    ensures HasLimitWord(p + "\nLIMIT " + digits + ";")
  {
    var r := p + "\nLIMIT " + digits + ";";
    var i: nat := |p| + 1;
    assert r[i] == 'L' && r[i + 1] == 'I' && r[i + 2] == 'M' && r[i + 3] == 'I' && r[i + 4] == 'T';
    assert r[i - 1] == '\n' && r[i + 5] == ' ';
    assert LimitWordAt(r, i);
  }

  /** A query with a whole-word `limit` anywhere, in any letter case, only loses its
      surrounding whitespace. */
  lemma EnsureLimitKeeps(sql: string, defaultLimit: int)
    requires HasLimitWord(sql)
    ensures EnsureLimit(sql, defaultLimit) == Strip(sql)
    ensures Strip(EnsureLimit(sql, defaultLimit)) == EnsureLimit(sql, defaultLimit)
  {
    StripIdempotent(sql);
  }

  /** Otherwise the result is the stripped query without its trailing semicolons, a newline,
      `LIMIT 500` and one semicolon; the part before the newline does not end in `;`. */
  lemma EnsureLimitAppends(sql: string)
    requires !HasLimitWord(sql)
    ensures var p := RStrip(Strip(sql), ';');
      && EnsureLimit(sql, QueryDefaultLimit) == p + "\nLIMIT 500;"
      && (p == [] || p[|p| - 1] != ';')
      && p == Strip(sql)[..|p|]
      && (forall k :: |p| <= k < |Strip(sql)| ==> Strip(sql)[k] == ';')
  {
    EnsureLimitClause(sql, QueryDefaultLimit);
    DefaultLimitText();
    assert "\nLIMIT " + "500" + ";" == "\nLIMIT 500;";
  }

  /** The appended clause, for any default. */
  lemma EnsureLimitClause(sql: string, d: int)
    requires !HasLimitWord(sql)
    ensures EnsureLimit(sql, d) == RStrip(Strip(sql), ';') + ("\nLIMIT " + IntToString(d) + ";")
  {
  }

  lemma DefaultLimitText()
    ensures IntToString(QueryDefaultLimit) == "500"
  {
    assert NatToString(5) == "5";
    assert NatToString(50) == "50";
  }

  /** The result always carries a whole-word LIMIT. */
  lemma EnsureLimitLimits(sql: string, defaultLimit: int)
    ensures HasLimitWord(EnsureLimit(sql, defaultLimit))
  {
    if HasLimitWord(sql) {
      StripKeepsLimitWord(sql);
    } else {
      AppendedLimitWord(RStrip(Strip(sql), ';'), IntToString(defaultLimit));
    }
  }

  /** Applying `_ensure_limit` to its own output never appends a second LIMIT: it only strips,
      and when the query was more than semicolons and whitespace it changes nothing. */
  lemma EnsureLimitIdempotent(sql: string, d: int, d': int)
    ensures EnsureLimit(EnsureLimit(sql, d), d') == Strip(EnsureLimit(sql, d))
    ensures RStrip(Strip(sql), ';') != [] ==> EnsureLimit(EnsureLimit(sql, d), d') == EnsureLimit(sql, d)
  {
    var r := EnsureLimit(sql, d);
    EnsureLimitLimits(sql, d);
    if HasLimitWord(sql) {
      StripIdempotent(sql);
    } else {
      var p := RStrip(Strip(sql), ';');
      if p != [] {
        assert r[0] == p[0] == Strip(sql)[0];
        assert r[|r| - 1] == ';';
        StripNoPadding(r);
      }
    }
  }

  /** `unlimited` and `limit_rows` contain `limit` but not as a whole word. */
  lemma LimitNeedsWordBoundaries()
    ensures !HasLimitWord("unlimited")
    ensures !HasLimitWord("limit_rows")
    ensures HasLimitWord("select * from t Limit 10")
  {
    var s := "unlimited";
    forall i: nat | i + 5 <= |s| ensures !LimitWordAt(s, i) {
      if i == 2 {
        assert IsWordChar(s[1]);
      }
    }
    var t := "limit_rows";
    forall i: nat | i + 5 <= |t| ensures !LimitWordAt(t, i) {
      if i == 0 {
        assert t[5] == '_';
      }
    }
    var u := "select * from t Limit 10";
    assert LimitWordAt(u, 16);
  }

  // ---------------------------------------------------------------- extract_sql_from_response

  /** Three backticks start at k. */
  predicate FenceAt(s: string, k: nat) {
    k + 3 <= |s| && s[k] == '`' && s[k + 1] == '`' && s[k + 2] == '`'
  }

  /** `s` holds no three backticks in a row. */
  ghost predicate NoFence(s: string) {
    forall k: nat :: !FenceAt(s, k)
  }

  /** The end of the run of whitespace that starts at i (`\s*`, greedy). */
  function SpaceRun(s: string, i: nat): (e: nat)
    requires i <= |s|
    ensures i <= e <= |s| && (e == |s| || !IsSpace(s[e]))
    ensures forall m :: i <= m < e ==> IsSpace(s[m])
    decreases |s| - i
  {
    if i < |s| && IsSpace(s[i]) then SpaceRun(s, i + 1) else i
  }

  /** `^```sql` under MULTILINE and IGNORECASE: at the start of a line. */
  predicate OpenFenceAt(s: string, i: nat) {
    && i + 6 <= |s|
    && (i == 0 || s[i - 1] == '\n')
    && FenceAt(s, i)
    && ToLowerAscii(s[i + 3]) == 's' && ToLowerAscii(s[i + 4]) == 'q' && ToLowerAscii(s[i + 5]) == 'l'
  }

  /** `\s*```$` under MULTILINE: a fence at the end of a line, the whitespace before it included. */
  predicate CloseFenceAt(s: string, i: nat)
    requires i <= |s|
  {
    var e := SpaceRun(s, i);
    FenceAt(s, e) && (e + 3 == |s| || s[e + 3] == '\n')
  }

  /** Where a match of `^```sql\s*|\s*```$` starting at i ends; the first alternative is tried first. */
  function MatchEnd(s: string, i: nat): (e: Option<nat>)
    requires i <= |s|
    ensures e.Some? ==> i < e.value <= |s|
  {
    if OpenFenceAt(s, i) then Some(SpaceRun(s, i + 6))
    else if CloseFenceAt(s, i) then Some(SpaceRun(s, i) + 3)
    else None
  }

  /** `re.sub(pattern, "", s)` scanning from i: each match is removed and the scan resumes
      where it ended; any other character is kept. */
  function Substitute(s: string, i: nat): string
    requires i <= |s|
    decreases |s| - i
  {
    if i == |s| then []
    else
      match MatchEnd(s, i)
      case Some(e) => Substitute(s, e)
      case None => [s[i]] + Substitute(s, i + 1)
  }

  /** `extract_sql_from_response(text)` */
  function ExtractSql(text: string): string {
    Strip(Substitute(text, 0))
  }

  lemma SubstituteKeeps(s: string, i: nat)
    requires i < |s| && MatchEnd(s, i).None?
    ensures Substitute(s, i) == [s[i]] + Substitute(s, i + 1)
  {
  }

  lemma {:induction false} SubstituteCopies(s: string, i: nat, j: nat)
    requires i <= j <= |s|
    requires forall k :: i <= k < j ==> MatchEnd(s, k).None?
    ensures Substitute(s, i) == s[i..j] + Substitute(s, j)
    decreases j - i
  {
    if i < j {
      SubstituteCopies(s, i + 1, j);
      SubstituteKeeps(s, i);
      ConsSlice(s, i, j, Substitute(s, j));
    }
  }

  lemma ConsSlice(s: string, i: nat, j: nat, rest: string)
    requires i < j <= |s|
    ensures [s[i]] + (s[i + 1..j] + rest) == s[i..j] + rest
  {
    assert s[i..j] == [s[i]] + s[i + 1..j];
  }

  lemma NoFenceNoMatch(s: string, k: nat)
    requires k <= |s| && !FenceAt(s, k) && !FenceAt(s, SpaceRun(s, k))
    ensures MatchEnd(s, k).None?
  {
  }

  /** Without a fence the scan finds no match and keeps every character. */
  lemma SubstituteNoFence(text: string)
    requires NoFence(text)
    ensures Substitute(text, 0) == text
  {
    forall k | 0 <= k < |text| ensures MatchEnd(text, k).None? {
      var e := SpaceRun(text, k);
      assert !FenceAt(text, k) && !FenceAt(text, e);
      NoFenceNoMatch(text, k);
    }
    SubstituteCopies(text, 0, |text|);
    assert text[0..|text|] == text;
  }

  /** A response without a code fence comes back with only its surrounding whitespace removed. */
  lemma ExtractWithoutFence(text: string)
    requires NoFence(text)
    ensures ExtractSql(text) == Strip(text)
  {
    SubstituteNoFence(text);
  }

  lemma SpaceRunTo(s: string, i: nat, j: nat)
    requires i <= j <= |s| && (forall m :: i <= m < j ==> IsSpace(s[m])) && (j == |s| || !IsSpace(s[j]))
    ensures SpaceRun(s, i) == j
    decreases j - i
  {
    if i < j {
      SpaceRunTo(s, i + 1, j);
    }
  }

  /** A fenced response: ```` ``` ````, a tag equal to `sql` up to letter case, a newline, a
      body free of fences, a newline and ```` ``` ````. */
  ghost predicate FencedLayout(text: string, tag: string, body: string) {
    && EqualsIgnoreCase(tag, "sql")
    && NoFence(body)
    && text == "```" + tag + "\n" + body + "\n```"
  }

  /** The same layout, character by character. */
  ghost predicate Framed(text: string, body: string) {
    && |text| == |body| + 11
    && OpenFenceAt(text, 0)
    && text[6] == '\n' && text[7 + |body|] == '\n'
    && FenceAt(text, |text| - 3)
    && (forall m :: 0 <= m < |body| ==> text[7 + m] == body[m])
    && NoFence(body)
  }

  /** `body` is whitespace before `l` and from `l + n` on, and body[l..l + n], when not empty,
      neither starts nor ends with whitespace. */
  ghost predicate Padded(body: string, l: nat, n: nat) {
    && l + n <= |body|
    && (forall m :: 0 <= m < l ==> IsSpace(body[m]))
    && (forall m :: l + n <= m < |body| ==> IsSpace(body[m]))
    && (n > 0 ==> !IsSpace(body[l]) && !IsSpace(body[l + n - 1]))
  }

  lemma LayoutFramed(text: string, tag: string, body: string)
    requires FencedLayout(text, tag, body)
    ensures Framed(text, body)
  {
    assert |text| == |body| + 11;
    assert text[0] == '`' && text[1] == '`' && text[2] == '`';
    assert text[3] == tag[0] && text[4] == tag[1] && text[5] == tag[2];
    assert ToLowerAscii(tag[0]) == 's' && ToLowerAscii(tag[1]) == 'q' && ToLowerAscii(tag[2]) == 'l';
    assert text[6] == '\n' && text[7 + |body|] == '\n';
    assert text[|text| - 3] == '`' && text[|text| - 2] == '`' && text[|text| - 1] == '`';
    forall m | 0 <= m < |body| ensures text[7 + m] == body[m] {
    }
  }

  /** `strip` gives the padding of any string. */
  lemma StripPadded(body: string) returns (l: nat, n: nat)
    ensures Padded(body, l, n) && l + n <= |body| && Strip(body) == body[l..l + n]
  {
    l, n := LeadingSpace(body), |Strip(body)|;
    StripParts(body);
    StripEnds(body, l, n);
  }

  /** The first and last character `strip` keeps are not whitespace. */
  lemma StripEnds(body: string, l: nat, n: nat)
    requires l == LeadingSpace(body) && n == |Strip(body)|
    ensures l + n <= |body| && Strip(body) == body[l..l + n]
    ensures n > 0 ==> !IsSpace(body[l]) && !IsSpace(body[l + n - 1])
  {
    var c := Strip(body);
    if n > 0 {
      assert body[l] == c[0] && body[l + n - 1] == c[n - 1];
    }
  }

  /** No fence starts inside the body of a framed response: a window reaching past the body
      meets the newline before the closing fence. */
  lemma NoFenceInBody(text: string, body: string, k: nat)
    requires Framed(text, body)
    requires 7 <= k < 7 + |body|
    ensures !FenceAt(text, k)
  {
    assert !FenceAt(body, k - 7);
    if k + 2 < 7 + |body| {
      assert text[k] == body[k - 7] && text[k + 1] == body[k - 6] && text[k + 2] == body[k - 5];
    }
  }

  /** Inside the body, up to its last non-blank character, no match starts. */
  lemma NoMatchInBody(text: string, body: string, k: nat, last: nat)
    requires Framed(text, body)
    requires 7 <= k <= last < 7 + |body| && !IsSpace(text[last])
    ensures MatchEnd(text, k).None?
  {
    NoFenceInBody(text, body, k);
    var e := SpaceRun(text, k);
    assert e <= last;
    NoFenceInBody(text, body, e);
    NoFenceNoMatch(text, k);
  }

  /** Around body[l..l + n] a framed response holds only whitespace: the newline after the tag
      and the leading padding before it, the trailing padding and the newline before the
      closing fence after it. */
  lemma FrameSpaces(text: string, body: string, l: nat, n: nat)
    requires Framed(text, body) && Padded(body, l, n)
    ensures forall m :: 6 <= m < 7 + l ==> IsSpace(text[m])
    ensures forall m :: 7 + l + n <= m < |text| - 3 ==> IsSpace(text[m])
  {
    forall m | 6 <= m < 7 + l ensures IsSpace(text[m]) {
      if m > 6 {
        assert text[m] == body[m - 7];
      }
    }
    forall m | 7 + l + n <= m < |text| - 3 ensures IsSpace(text[m]) {
      if m < 7 + |body| {
        assert text[m] == body[m - 7];
      }
    }
  }

  /** The opening fence is matched together with all the whitespace after it. */
  lemma OpenMatch(text: string, body: string, l: nat, n: nat)
    requires Framed(text, body) && Padded(body, l, n)
    ensures MatchEnd(text, 0) == Some(if n == 0 then |text| - 3 else 7 + l)
  {
    FrameSpaces(text, body, l, n);
    if n == 0 {
      SpaceRunTo(text, 6, |text| - 3);
    } else {
      assert text[7 + l] == body[l];
      SpaceRunTo(text, 6, 7 + l);
    }
  }

  /** From the end of body[l..l + n] the closing match removes the rest of the response. */
  lemma CloseMatch(text: string, body: string, l: nat, n: nat, k: nat)
    requires Framed(text, body) && Padded(body, l, n)
    requires k == if n == 0 then |text| - 3 else 7 + l + n
    ensures Substitute(text, k) == []
  {
    FrameSpaces(text, body, l, n);
    SpaceRunTo(text, k, |text| - 3);
    FenceClosesAt(text, k);
  }

  /** From a position followed only by whitespace and a final fence, the scan removes the rest. */
  lemma FenceClosesAt(text: string, k: nat)
    requires k <= |text| - 3 && FenceAt(text, |text| - 3) && (k < |text| - 3 ==> IsSpace(text[k]))
    requires SpaceRun(text, k) == |text| - 3
    ensures Substitute(text, k) == []
  {
    assert !OpenFenceAt(text, k);
    assert CloseFenceAt(text, k);
    assert MatchEnd(text, k) == Some(|text|);
  }

  /** A scan whose first match runs to e0 and which then keeps text[e0..end] and removes the
      rest yields text[e0..end]. */
  lemma ScanBetween(text: string, e0: nat, end: nat)
    requires 0 < e0 <= end <= |text| && MatchEnd(text, 0) == Some(e0)
    requires forall k :: e0 <= k < end ==> MatchEnd(text, k).None?
    requires Substitute(text, end) == []
    ensures Substitute(text, 0) == text[e0..end]
  {
    SubstituteCopies(text, e0, end);
  }

  /** The scan of a framed response keeps exactly body[l..l + n]. */
  lemma SubstituteFramed(text: string, body: string, l: nat, n: nat)
    requires Framed(text, body) && Padded(body, l, n)
    ensures Substitute(text, 0) == body[l..l + n]
  {
    OpenMatch(text, body, l, n);
    if n == 0 {
      CloseMatch(text, body, l, n, |text| - 3);
      assert body[l..l] == [];
    } else {
      BodyNoMatch(text, body, l, n);
      CloseMatch(text, body, l, n, 7 + l + n);
      ScanBetween(text, 7 + l, 7 + l + n);
      FrameSlice(text, body, l, n);
    }
  }

  /** No match starts inside body[l..l + n], whose last character is not whitespace. */
  lemma BodyNoMatch(text: string, body: string, l: nat, n: nat)
    requires Framed(text, body) && Padded(body, l, n) && n > 0
    ensures forall k :: 7 + l <= k < 7 + l + n ==> MatchEnd(text, k).None?
  {
    var last := 7 + l + n - 1;
    assert text[last] == body[l + n - 1];
    forall k | 7 + l <= k < 7 + l + n ensures MatchEnd(text, k).None? {
      NoMatchInBody(text, body, k, last);
    }
  }

  /** The body sits at offset 7 of a framed response. */
  lemma FrameSlice(text: string, body: string, l: nat, n: nat)
    requires Framed(text, body) && l + n <= |body|
    ensures text[7 + l..7 + l + n] == body[l..l + n]
  {
    var framed, kept := text[7 + l..7 + l + n], body[l..l + n];
    forall m | 0 <= m < n ensures framed[m] == kept[m] {
      assert text[7 + (l + m)] == body[l + m];
    }
  }

  /** A response fenced as ```` ```sql ````, newline, body, newline, ```` ``` ```` (tag in any
      letter case, body free of fences) yields the body with its surrounding whitespace removed. */
  lemma ExtractFenced(text: string, tag: string, body: string)
    requires FencedLayout(text, tag, body)
    ensures ExtractSql(text) == Strip(body)
  {
    LayoutFramed(text, tag, body);
    ExtractFramed(text, body);
  }

  /** The same for a response given character by character. */
  lemma ExtractFramed(text: string, body: string)
    requires Framed(text, body)
    ensures ExtractSql(text) == Strip(body)
  {
    var l, n := StripPadded(body);
    SubstituteFramed(text, body, l, n);
    assert Substitute(text, 0) == Strip(body);
    StripNoPadding(Strip(body));
  }
}
