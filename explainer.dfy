/**
 * `extract_json` from explainer.py: it cleans up the text a language model
 * returned before it is handed to a JSON parser, in three stages:
 *
 *   1. `re.search(r"\{.*\}", raw, re.DOTALL)` — keep only the span from the
 *      first `{` to the last `}` (Narrow);
 *   2. `re.sub(r",\s*([}\]])", r"\1", raw)` — drop every comma (and the
 *      whitespace after it) that directly precedes `}` or `]`
 *      (RemoveTrailingCommas);
 *   3. `raw.strip()` — trim surrounding whitespace (Strip).
 *
 * The two regular expressions are written out as scanning functions; the
 * lemmas tie each scan to what the regular expression means.
 */
module Explainer {
  import opened Wrappers

  /** Python's whitespace: the characters for which `str.isspace()` holds,
    * which is also the class that `\s` matches in a `str` pattern. */
  predicate IsWs(c: char) {
    c == ' ' || ('\t' <= c <= '\r') || ('\U{1C}' <= c <= '\U{1F}')
    || c == '\U{85}' || c == '\U{A0}' || c == '\U{1680}'
    || ('\U{2000}' <= c <= '\U{200A}') || c == '\U{2028}' || c == '\U{2029}'
    || c == '\U{202F}' || c == '\U{205F}' || c == '\U{3000}'
  }

  // ---------------------------------------------------------------------
  // Stage 1: re.search(r"\{.*\}", raw, re.DOTALL)
  // ---------------------------------------------------------------------

  /** s[i..j+1] is a match of `\{.*\}`: under DOTALL, `.*` crosses anything,
    * so any `{` with a later `}` delimits one. */
  ghost predicate IsBraceSpan(s: string, i: int, j: int) {
    0 <= i < j < |s| && s[i] == '{' && s[j] == '}'
  }

  ghost predicate HasBraceSpan(s: string) {
    exists i, j :: IsBraceSpan(s, i, j)
  }

  /** The greedy `.*` followed by `\}`: `.*` first runs to the end of the
    * text, then gives characters back until a `}` follows it, so the match
    * ends at the LAST `}` in [lo, hi). */
  function LastClose(s: string, lo: nat, hi: nat): (r: Option<nat>)
    requires lo <= hi <= |s|
    ensures r.Some? ==> lo <= r.value < hi && s[r.value] == '}'
    ensures r.Some? ==> forall j :: r.value < j < hi ==> s[j] != '}'
    ensures r.None? ==> forall j :: lo <= j < hi ==> s[j] != '}'
    decreases hi - lo
  {
    if hi == lo then None
    else if s[hi - 1] == '}' then Some(hi - 1)
    else LastClose(s, lo, hi - 1)
  }

  /** `re.search`: try each start position from `from` on, and return the
    * first at which the pattern matches, as (index of `{`, index of `}`). */
  function Search(s: string, from: nat): (r: Option<(nat, nat)>)
    requires from <= |s|
    ensures r.Some? ==> from <= r.value.0 && IsBraceSpan(s, r.value.0, r.value.1)
    // leftmost: no match starts earlier
    ensures r.Some? ==> forall i, j :: from <= i < r.value.0 ==> !IsBraceSpan(s, i, j)
    // longest: no longer match from the same start
    ensures r.Some? ==> forall j :: r.value.1 < j ==> !IsBraceSpan(s, r.value.0, j)
    ensures r.None? ==> forall i, j :: from <= i ==> !IsBraceSpan(s, i, j)
    decreases |s| - from
  {
    if from == |s| then None
    else if s[from] == '{' then
      match LastClose(s, from + 1, |s|)
      case Some(j) => Some((from, j))
      case None => Search(s, from + 1)
    else Search(s, from + 1)
  }

  /** Stage 1: `raw` becomes the matched text if there is a match. */
  function Narrow(raw: string): (r: string)
    ensures HasBraceSpan(raw) ==> 2 <= |r| && r[0] == '{' && r[|r| - 1] == '}'
    ensures !HasBraceSpan(raw) ==> r == raw
  {
    match Search(raw, 0)
    case Some((i, j)) => raw[i..j + 1]
    case None => raw
  }

  /** With a `{` that has a `}` after it, stage 1 yields exactly the text from
    * the first `{` through the last `}`. */
  lemma NarrowToOuterBraces(raw: string, i: nat, j: nat)
    requires i < j < |raw| && raw[i] == '{' && raw[j] == '}'
    requires forall k :: 0 <= k < i ==> raw[k] != '{'
    requires forall k :: j < k < |raw| ==> raw[k] != '}'
    ensures Narrow(raw) == raw[i..j + 1]
  {
    assert IsBraceSpan(raw, i, j);
  }

  // ---------------------------------------------------------------------
  // Stage 2: re.sub(r",\s*([}\]])", r"\1", raw)
  // ---------------------------------------------------------------------

  predicate IsCloser(c: char) {
    c == '}' || c == ']'
  }

  predicate IsCommaOrWs(c: char) {
    c == ',' || IsWs(c)
  }

  /** s[k..m+1] is a match of `,\s*([}\]])`: a comma, whitespace only, then
    * the closing bracket s[m] that the replacement `\1` keeps. */
  ghost predicate IsTrailingComma(s: string, k: int, m: int) {
    0 <= k < m < |s| && s[k] == ',' && IsCloser(s[m])
    && forall w :: k < w < m ==> IsWs(s[w])
  }

  ghost predicate HasTrailingComma(s: string) {
    exists k, m :: IsTrailingComma(s, k, m)
  }

  /** The first index at or after i that does not hold whitespace (`\s*`). */
  function SkipWs(s: string, i: nat): (k: nat)
    requires i <= |s|
    ensures i <= k <= |s|
    ensures forall m :: i <= m < k ==> IsWs(s[m])
    ensures k < |s| ==> !IsWs(s[k])
    decreases |s| - i
  {
    if i < |s| && IsWs(s[i]) then SkipWs(s, i + 1) else i
  }

  /** The match attempt at position k: the index of the bracket it ends on.
    * `\s*` is greedy, and giving whitespace back cannot help, since the
    * character then tried against `[}\]]` is whitespace. */
  function MatchAt(s: string, k: nat): (r: Option<nat>)
    requires k < |s|
    ensures r.Some? ==> IsTrailingComma(s, k, r.value)
    ensures r.None? ==> forall m :: !IsTrailingComma(s, k, m)
  {
    if s[k] != ',' then None
    else
      var m := SkipWs(s, k + 1);
      if m < |s| && IsCloser(s[m]) then Some(m) else None
  }

  /** `re.sub` from position p on: where a match starts, emit the bracket
    * alone and go on after the match; elsewhere copy one character. */
  function RemoveFrom(s: string, p: nat): (r: string)
    requires p <= |s|
    ensures |r| <= |s| - p
    decreases |s| - p
  {
    if p == |s| then []
    else match MatchAt(s, p)
      case Some(m) => [s[m]] + RemoveFrom(s, m + 1)
      case None => [s[p]] + RemoveFrom(s, p + 1)
  }

  /** Stage 2. */
  function RemoveTrailingCommas(s: string): string {
    RemoveFrom(s, 0)
  }

  /** The leftmost match at or after p, as (index of its comma, index of
    * its bracket): the `search` that `re.sub` repeats. */
  function NextMatch(s: string, p: nat): (r: Option<(nat, nat)>)
    requires p <= |s|
    ensures r.Some? ==> p <= r.value.0 && IsTrailingComma(s, r.value.0, r.value.1)
    ensures r.Some? ==> forall k, m :: p <= k < r.value.0 ==> !IsTrailingComma(s, k, m)
    ensures r.None? ==> forall k, m :: p <= k ==> !IsTrailingComma(s, k, m)
    decreases |s| - p
  {
    if p == |s| then None
    else match MatchAt(s, p)
      case Some(m) => Some((p, m))
      case None => NextMatch(s, p + 1)
  }

  /** `re.sub` as a search loop: find the next match, copy the text before
    * it, emit the replacement (the bracket), resume after the match. */
  function SubFrom(s: string, p: nat): string
    requires p <= |s|
    decreases |s| - p
  {
    match NextMatch(s, p)
    case Some((k, m)) => s[p..k] + [s[m]] + SubFrom(s, m + 1)
    case None => s[p..]
  }

  /** The character-by-character scan is that search loop: every
    * non-overlapping match, taken left to right, is replaced by its bracket
    * and all other text is copied. */
  lemma {:induction false} RemoveFromIsSub(s: string, p: nat)
    requires p <= |s|
    ensures RemoveFrom(s, p) == SubFrom(s, p)
    decreases |s| - p
  {
    if p == |s| {
      assert SubFrom(s, p) == s[p..] == [];
    } else if MatchAt(s, p).Some? {
      var m := MatchAt(s, p).value;
      RemoveFromIsSub(s, m + 1);
      SubAtMatch(s, p, m);
    } else {
      RemoveFromIsSub(s, p + 1);
      SubAtNoMatch(s, p);
    }
  }

  lemma SubAtMatch(s: string, p: nat, m: nat)
    requires p < |s| && MatchAt(s, p) == Some(m)
    ensures SubFrom(s, p) == [s[m]] + SubFrom(s, m + 1)
  {
    NextMatchHere(s, p, m);
    assert SubFrom(s, p) == s[p..p] + [s[m]] + SubFrom(s, m + 1);
  }

  lemma NextMatchHere(s: string, p: nat, m: nat)
    requires p < |s| && MatchAt(s, p) == Some(m)
    ensures NextMatch(s, p) == Some((p, m))
  {
  }

  lemma SubAtNoMatch(s: string, p: nat)
    requires p < |s| && MatchAt(s, p).None?
    ensures SubFrom(s, p) == [s[p]] + SubFrom(s, p + 1)
  {
    assert NextMatch(s, p) == NextMatch(s, p + 1);
    if NextMatch(s, p + 1).Some? {
      var k := NextMatch(s, p + 1).value.0;
      CopyOneMore(s, p, k);
    } else {
      CopyOneMore(s, p, |s|);
    }
  }

  lemma CopyOneMore(s: string, p: nat, k: nat)
    requires p < k <= |s|
    ensures s[p..k] == [s[p]] + s[p + 1..k]
  {
  }

  /** r is s with some commas and whitespace deleted and every other
    * character kept, in its original order. */
  ghost predicate DeletesOnly(r: string, s: string)
    decreases |s|
  {
    if s == [] then r == []
    else
      (IsCommaOrWs(s[0]) && DeletesOnly(r, s[1..]))
      || (r != [] && r[0] == s[0] && DeletesOnly(r[1..], s[1..]))
  }

  lemma DeletesOnlyKeep(r: string, s: string, c: char)
    requires DeletesOnly(r, s)
    ensures DeletesOnly([c] + r, [c] + s)
  {
    assert ([c] + r)[1..] == r;
    assert ([c] + s)[1..] == s;
  }

  lemma {:induction false} DeletesOnlySkip(r: string, d: string, s: string)
    requires DeletesOnly(r, s)
    requires forall k :: 0 <= k < |d| ==> IsCommaOrWs(d[k])
    ensures DeletesOnly(r, d + s)
    decreases |d|
  {
    if d == [] {
      assert d + s == s;
    } else {
      DeletesOnlySkip(r, d[1..], s);
      assert (d + s)[0] == d[0] && IsCommaOrWs(d[0]);
      assert (d + s)[1..] == d[1..] + s;
    }
  }

  /** Stage 2 deletes only commas and whitespace: every other character,
    * each `}` and `]` among them, stays, in its original order. */
  lemma {:induction false} RemoveFromDeletesOnly(s: string, p: nat)
    requires p <= |s|
    ensures DeletesOnly(RemoveFrom(s, p), s[p..])
    decreases |s| - p
  {
    if p == |s| {
      assert s[p..] == [];
    } else if MatchAt(s, p).Some? {
      var m := MatchAt(s, p).value;
      RemoveFromDeletesOnly(s, m + 1);
      StepAtMatch(s, p, m);
    } else {
      RemoveFromDeletesOnly(s, p + 1);
      StepAtCopy(s, p);
    }
  }

  lemma StepAtMatch(s: string, p: nat, m: nat)
    requires p < |s| && MatchAt(s, p) == Some(m)
    requires DeletesOnly(RemoveFrom(s, m + 1), s[m + 1..])
    ensures DeletesOnly(RemoveFrom(s, p), s[p..])
  {
    assert RemoveFrom(s, p) == [s[m]] + RemoveFrom(s, m + 1);
    MatchDeletesOnly(s, p, m, RemoveFrom(s, m + 1));
  }

  lemma StepAtCopy(s: string, p: nat)
    requires p < |s| && MatchAt(s, p).None?
    requires DeletesOnly(RemoveFrom(s, p + 1), s[p + 1..])
    ensures DeletesOnly(RemoveFrom(s, p), s[p..])
  {
    assert RemoveFrom(s, p) == [s[p]] + RemoveFrom(s, p + 1);
    CopyDeletesOnly(s, p, RemoveFrom(s, p + 1));
  }

  /** The step of RemoveFromDeletesOnly where no match starts at p. */
  lemma CopyDeletesOnly(s: string, p: nat, rest: string)
    requires p < |s| && DeletesOnly(rest, s[p + 1..])
    ensures DeletesOnly([s[p]] + rest, s[p..])
  {
    DeletesOnlyKeep(rest, s[p + 1..], s[p]);
    assert [s[p]] + s[p + 1..] == s[p..];
  }

  /** The step of RemoveFromDeletesOnly for a match from p to m, whose
    * remainder `rest` is already known to delete only. */
  lemma MatchDeletesOnly(s: string, p: nat, m: nat, rest: string)
    requires IsTrailingComma(s, p, m)
    requires DeletesOnly(rest, s[m + 1..])
    ensures DeletesOnly([s[m]] + rest, s[p..])
  {
    MatchGapDeletable(s, p, m);
    DeleteThenKeep(rest, s[m + 1..], s[p..m], s[m]);
    assert s[p..] == s[p..m] + ([s[m]] + s[m + 1..]);
  }

  /** What a match deletes: its comma and the whitespace after it. */
  lemma MatchGapDeletable(s: string, p: nat, m: nat)
    requires IsTrailingComma(s, p, m)
    ensures forall k :: 0 <= k < |s[p..m]| ==> IsCommaOrWs(s[p..m][k])
  {
    forall k | 0 <= k < m - p ensures IsCommaOrWs(s[p..m][k]) {
      assert s[p..m][k] == s[p + k];
    }
  }

  lemma DeleteThenKeep(r: string, t: string, d: string, c: char)
    requires DeletesOnly(r, t)
    requires forall k :: 0 <= k < |d| ==> IsCommaOrWs(d[k])
    ensures DeletesOnly([c] + r, d + ([c] + t))
  {
    DeletesOnlyKeep(r, t, c);
    DeletesOnlySkip([c] + r, d, [c] + t);
  }

  lemma RemoveTrailingCommasDeletesOnly(s: string)
    ensures DeletesOnly(RemoveTrailingCommas(s), s)
  {
    RemoveFromDeletesOnly(s, 0);
    assert s[0..] == s;
  }

  /** The characters that are neither commas nor whitespace, in order. */
  function Significant(s: string): (r: string)
    ensures |r| <= |s|
  {
    if s == [] then []
    else if IsCommaOrWs(s[0]) then Significant(s[1..])
    else [s[0]] + Significant(s[1..])
  }

  lemma {:induction false} DeletesOnlyKeepsSignificant(r: string, s: string)
    requires DeletesOnly(r, s)
    ensures Significant(r) == Significant(s)
    decreases |s|
  {
    if s != [] {
      if IsCommaOrWs(s[0]) && DeletesOnly(r, s[1..]) {
        DeletesOnlyKeepsSignificant(r, s[1..]);
      } else {
        DeletesOnlyKeepsSignificant(r[1..], s[1..]);
      }
    }
  }

  lemma DeletesOnlyFirst(r: string, s: string)
    requires DeletesOnly(r, s) && s != [] && !IsCommaOrWs(s[0])
    ensures r != [] && r[0] == s[0]
  {
  }

  lemma {:induction false} DeletesOnlyLast(r: string, s: string)
    requires DeletesOnly(r, s) && s != [] && !IsCommaOrWs(s[|s| - 1])
    ensures r != [] && r[|r| - 1] == s[|s| - 1]
    decreases |s|
  {
    if |s| == 1 {
      assert r != [] && r[0] == s[0] && DeletesOnly(r[1..], s[1..]);
      assert r[1..] == [];
    } else if IsCommaOrWs(s[0]) && DeletesOnly(r, s[1..]) {
      DeletesOnlyLast(r, s[1..]);
    } else {
      DeletesOnlyLast(r[1..], s[1..]);
    }
  }

  lemma {:induction false} NoMatchUnchanged(s: string, p: nat)
    requires p <= |s|
    requires forall k, m :: p <= k ==> !IsTrailingComma(s, k, m)
    ensures RemoveFrom(s, p) == s[p..]
    decreases |s| - p
  {
    if p < |s| {
      NoMatchUnchanged(s, p + 1);
      assert [s[p]] + s[p + 1..] == s[p..];
    }
  }

  lemma {:induction false} MatchShortens(s: string, p: nat, k: nat, m: nat)
    requires p <= k && IsTrailingComma(s, k, m)
    ensures |RemoveFrom(s, p)| < |s| - p
    decreases |s| - p
  {
    match MatchAt(s, p)
    case Some(m') =>
      // a comma cannot lie inside an earlier match, so k is p or after m'
      if k != p {
        assert !IsWs(s[k]) && !IsCloser(s[k]);
        assert m' < k;
      }
    case None =>
      if k == p {
        assert false;
      }
      MatchShortens(s, p + 1, k, m);
  }

  /** Stage 2 leaves its input unchanged exactly when the input holds no
    * match of the pattern. */
  lemma RemoveTrailingCommasUnchangedIff(s: string)
    ensures RemoveTrailingCommas(s) == s <==> !HasTrailingComma(s)
  {
    if HasTrailingComma(s) {
      var k, m :| IsTrailingComma(s, k, m);
      MatchShortens(s, 0, k, m);
    } else {
      NoMatchUnchanged(s, 0);
    }
  }

  /** One pass does not remove every trailing comma: the match of `,}` in
    * `,,}` consumes the second comma, and the first stays. */
  lemma RemoveTrailingCommasNotIdempotent()
    ensures RemoveTrailingCommas(",,}") == ",}"
    ensures RemoveTrailingCommas(",}") == "}"
    ensures HasTrailingComma(",}")
  {
  }

  // ---------------------------------------------------------------------
  // Stage 3: str.strip()
  // ---------------------------------------------------------------------

  /** The last index j in [lo, hi] such that s[j..hi] is all whitespace. */
  function TrimEnd(s: string, lo: nat, hi: nat): (j: nat)
    requires lo <= hi <= |s|
    ensures lo <= j <= hi
    ensures forall m :: j <= m < hi ==> IsWs(s[m])
    ensures lo < j ==> !IsWs(s[j - 1])
    decreases hi
  {
    if lo < hi && IsWs(s[hi - 1]) then TrimEnd(s, lo, hi - 1) else hi
  }

  /** Stage 3: s[i..j] where s[..i] and s[j..] are all whitespace and, unless
    * nothing is left, s[i] and s[j-1] are not. */
  function Strip(s: string): (r: string)
    ensures r == [] || (!IsWs(r[0]) && !IsWs(r[|r| - 1]))
  {
    var i := SkipWs(s, 0);
    s[i..TrimEnd(s, i, |s|)]
  }

  /** Strip removes only whitespace, only at the two ends, and all of it. */
  lemma StripTrimsWhitespaceOnly(s: string)
    ensures exists i, j ::
      && 0 <= i <= j <= |s| && Strip(s) == s[i..j]
      && (forall k :: 0 <= k < i ==> IsWs(s[k]))
      && (forall k :: j <= k < |s| ==> IsWs(s[k]))
  {
    var i := SkipWs(s, 0);
    var j := TrimEnd(s, i, |s|);
    assert Strip(s) == s[i..j];
  }

  lemma StripWithoutEdgeWs(s: string)
    requires s == [] || (!IsWs(s[0]) && !IsWs(s[|s| - 1]))
    ensures Strip(s) == s
  {
  }

  // ---------------------------------------------------------------------
  // extract_json
  // ---------------------------------------------------------------------

  function ExtractJson(raw: string): (r: string)
    ensures r == [] || (!IsWs(r[0]) && !IsWs(r[|r| - 1]))
  {
    Strip(RemoveTrailingCommas(Narrow(raw)))
  }

  /** When the input has a `{` with a `}` after it, the result starts with
    * `{` and ends with `}`; stripping then has nothing left to remove. */
  lemma ExtractJsonKeepsBraces(raw: string)
    requires HasBraceSpan(raw)
    ensures var r := ExtractJson(raw);
      2 <= |r| && r[0] == '{' && r[|r| - 1] == '}'
      && r == RemoveTrailingCommas(Narrow(raw))
  {
    var t := Narrow(raw);
    var u := RemoveTrailingCommas(t);
    RemoveTrailingCommasDeletesOnly(t);
    DeletesOnlyFirst(u, t);
    DeletesOnlyLast(u, t);
    StripWithoutEdgeWs(u);
  }

  /** Without such a span the text goes to stage 2 as it is. */
  lemma ExtractJsonWithoutBraces(raw: string)
    requires !HasBraceSpan(raw)
    ensures ExtractJson(raw) == Strip(RemoveTrailingCommas(raw))
  {
  }
}
