/**
 * The two regular expressions the scraper applies to every tweet, written as
 * explicit scanners:
 *
 *   address  /(0x[a-zA-Z0-9])\w+/
 *   ENS name /([a-zA-Z0-9]\w+.(eth))/i
 *
 * `String.prototype.match` without the `g` flag returns the match that starts
 * at the leftmost position where the pattern can match. For both patterns
 * the match found at that position is the longest one: `\w+` is greedy and
 * the only thing after it (nothing, or `.eth`) is tried from the longest run
 * downwards. Each pattern is therefore given twice: a predicate saying which
 * spans `[start, end)` it can match (`IsAddressSpan`, `IsEnsSpan`), and a
 * scanner whose contract says it returns the leftmost start and, there, the
 * longest end.
 *
 * The ENS pattern's `.` is not escaped. The end of this module exhibits what
 * that does to an ordinary sentence and gives the pattern with `\.` for
 * comparison; the scraper itself uses the pattern as written.
 */
module Patterns {

  import opened Wrappers
  import opened Text

  /** The half-open range `[start, end)` of a match. */
  datatype Span = Span(start: nat, end: nat)

  /** The end of the run of `\w` characters that begins at `j`. */
  function WordRunEnd(s: string, j: nat): (e: nat)
    requires j <= |s|
    ensures j <= e <= |s|
    ensures forall k :: j <= k < e ==> IsWordChar(s[k])
    ensures e == |s| || !IsWordChar(s[e])
    decreases |s| - j
  {
    if j == |s| || !IsWordChar(s[j]) then j else WordRunEnd(s, j + 1)
  }

  // ---------------------------------------------------------------------
  // Address pattern
  // ---------------------------------------------------------------------

  /** `[i, e)` matches `(0x[a-zA-Z0-9])\w+`. */
  predicate IsAddressSpan(s: string, i: int, e: int) {
    && 0 <= i && i + 4 <= e <= |s|
    && s[i] == '0' && s[i + 1] == 'x' && IsAlnum(s[i + 2])
    && (forall j :: i + 3 <= j < e ==> IsWordChar(s[j]))
  }

  /** `m` is the match the regular expression reports: leftmost start, longest end there. */
  ghost predicate IsFirstAddressMatch(s: string, m: Span) {
    && IsAddressSpan(s, m.start, m.end)
    && (forall i, e :: 0 <= i < m.start ==> !IsAddressSpan(s, i, e))
    && (forall e :: IsAddressSpan(s, m.start, e) ==> e <= m.end)
  }

  /** The longest address match starting exactly at `i`, if any. */
  function AddressEndAt(s: string, i: nat): (r: Option<nat>)
    requires i <= |s|
    ensures r.Some? ==> IsAddressSpan(s, i, r.value)
    ensures r.Some? ==> forall e :: IsAddressSpan(s, i, e) ==> e <= r.value
    ensures r.None? ==> forall e :: !IsAddressSpan(s, i, e)
  {
    if i + 4 <= |s| && s[i] == '0' && s[i + 1] == 'x' && IsAlnum(s[i + 2]) && IsWordChar(s[i + 3])
    then Some(WordRunEnd(s, i + 3))
    else None
  }

  /** Scans start positions `i, i + 1, ...` for the first address match. */
  function FindAddressFrom(s: string, i: nat): (r: Option<Span>)
    requires i <= |s|
    ensures r.Some? ==> i <= r.value.start && IsAddressSpan(s, r.value.start, r.value.end)
    ensures r.Some? ==> forall e :: IsAddressSpan(s, r.value.start, e) ==> e <= r.value.end
    ensures r.Some? ==> forall i', e :: i <= i' < r.value.start ==> !IsAddressSpan(s, i', e)
    ensures r.None? ==> forall i', e :: i <= i' ==> !IsAddressSpan(s, i', e)
    decreases |s| - i
  {
    match AddressEndAt(s, i)
    case Some(e) => Some(Span(i, e))
    case None => if i == |s| then None else FindAddressFrom(s, i + 1)
  }

  /** `s.match(addressRegex)`: the reported span, or `None` when nothing matches. */
  function FindAddress(s: string): (r: Option<Span>)
    ensures r.Some? <==> exists i, e :: IsAddressSpan(s, i, e)
    ensures r.Some? ==> IsFirstAddressMatch(s, r.value)
  {
    FindAddressFrom(s, 0)
  }

  /** The matched text, `match[0]`. */
  function AddressMatch(s: string): (r: Option<string>)
    ensures r.Some? <==> exists i, e :: IsAddressSpan(s, i, e)
    ensures r.Some? ==> |r.value| >= 4 && StartsWith(r.value, "0x")
    ensures r.Some? ==> forall k :: 2 <= k < |r.value| ==> IsWordChar(r.value[k])
    ensures r.Some? ==>
      && FindAddress(s).Some? && IsFirstAddressMatch(s, FindAddress(s).value)
      && r.value == s[FindAddress(s).value.start..FindAddress(s).value.end]
  {
    match FindAddress(s)
    case Some(m) =>
      AddressSpanText(s, m.start, m.end);
      Some(s[m.start..m.end])
    case None => None
  }

  /** The text of an address span is `0x` followed by word characters. */
  lemma AddressSpanText(s: string, i: int, e: int)
    requires IsAddressSpan(s, i, e)
    ensures var t := s[i..e];
      |t| >= 4 && StartsWith(t, "0x") && forall k :: 2 <= k < |t| ==> IsWordChar(t[k])
  {
    var t := s[i..e];
    assert t[..2] == "0x" by {
      assert t[0] == s[i] && t[1] == s[i + 1];
    }
    forall k | 2 <= k < |t|
      ensures IsWordChar(t[k])
    {
      assert t[k] == s[i + k];
      if k == 2 {
        assert IsAlnum(s[i + 2]);
      }
    }
  }

  // ---------------------------------------------------------------------
  // ENS pattern
  // ---------------------------------------------------------------------

  /** A regular-expression `.`: anything but a line terminator, one code unit wide. */
  predicate IsDotChar(c: char) {
    !IsLineTerminator(c) && IsSingleCodeUnit(c)
  }

  /** `eth` under the `i` flag starts at `k`. */
  predicate IsEthAt(s: string, k: int) {
    0 <= k && k + 3 <= |s|
    && LowerChar(s[k]) == 'e' && LowerChar(s[k + 1]) == 't' && LowerChar(s[k + 2]) == 'h'
  }

  /** `.eth` (with the `.` a wildcard) starts at `k`. */
  predicate IsDotEthAt(s: string, k: int) {
    0 <= k && k + 4 <= |s| && IsDotChar(s[k]) && IsEthAt(s, k + 1)
  }

  /** `[i, e)` matches `[a-zA-Z0-9]\w+.(eth)` under the `i` flag. */
  predicate IsEnsSpan(s: string, i: int, e: int) {
    && 0 <= i && i + 6 <= e <= |s|
    && IsAlnum(s[i])
    && (forall j :: i + 1 <= j < e - 4 ==> IsWordChar(s[j]))
    && IsDotEthAt(s, e - 4)
  }

  /** `m` is the match the regular expression reports: leftmost start, longest end there. */
  ghost predicate IsFirstEnsMatch(s: string, m: Span) {
    && IsEnsSpan(s, m.start, m.end)
    && (forall i, e :: 0 <= i < m.start ==> !IsEnsSpan(s, i, e))
    && (forall e :: IsEnsSpan(s, m.start, e) ==> e <= m.end)
  }

  /** The greatest `k'` in `[lo, k]` where `.eth` starts: backtracking from the longest `\w+`. */
  function LastDotEth(s: string, lo: nat, k: int): (r: Option<nat>)
    requires k + 4 <= |s|
    ensures r.Some? ==> lo <= r.value <= k && IsDotEthAt(s, r.value)
    ensures r.Some? ==> forall k' :: r.value < k' <= k ==> !IsDotEthAt(s, k')
    ensures r.None? ==> forall k' :: lo <= k' <= k ==> !IsDotEthAt(s, k')
    decreases k + 1 - lo
  {
    if k < lo then None
    else if IsDotEthAt(s, k) then Some(k)
    else LastDotEth(s, lo, k - 1)
  }

  /** The longest ENS match starting exactly at `i`, if any. */
  function EnsEndAt(s: string, i: nat): (r: Option<nat>)
    requires i <= |s|
    ensures r.Some? ==> IsEnsSpan(s, i, r.value)
    ensures r.Some? ==> forall e :: IsEnsSpan(s, i, e) ==> e <= r.value
    ensures r.None? ==> forall e :: !IsEnsSpan(s, i, e)
  {
    if i + 6 <= |s| && IsAlnum(s[i]) then
      var run := WordRunEnd(s, i + 1);
      var hi := Min(run, |s| - 4);
      match LastDotEth(s, i + 2, hi)
      case Some(k) => Some(k + 4)
      case None => None
    else None
  }

  /** Scans start positions `i, i + 1, ...` for the first ENS match. */
  function FindEnsFrom(s: string, i: nat): (r: Option<Span>)
    requires i <= |s|
    ensures r.Some? ==> i <= r.value.start && IsEnsSpan(s, r.value.start, r.value.end)
    ensures r.Some? ==> forall e :: IsEnsSpan(s, r.value.start, e) ==> e <= r.value.end
    ensures r.Some? ==> forall i', e :: i <= i' < r.value.start ==> !IsEnsSpan(s, i', e)
    ensures r.None? ==> forall i', e :: i <= i' ==> !IsEnsSpan(s, i', e)
    decreases |s| - i
  {
    match EnsEndAt(s, i)
    case Some(e) => Some(Span(i, e))
    case None => if i == |s| then None else FindEnsFrom(s, i + 1)
  }

  /** `s.match(ENSRegex)`: the reported span, or `None` when nothing matches. */
  function FindEns(s: string): (r: Option<Span>)
    ensures r.Some? <==> exists i, e :: IsEnsSpan(s, i, e)
    ensures r.Some? ==> IsFirstEnsMatch(s, r.value)
  {
    FindEnsFrom(s, 0)
  }

  /** The matched text, `match[0]`, with its original case. */
  function EnsMatch(s: string): (r: Option<string>)
    ensures r.Some? <==> exists i, e :: IsEnsSpan(s, i, e)
    ensures r.Some? ==> |r.value| >= 6 && IsAlnum(r.value[0])
    ensures r.Some? ==> IsDotEthAt(r.value, |r.value| - 4)
    ensures r.Some? ==>
      && FindEns(s).Some? && IsFirstEnsMatch(s, FindEns(s).value)
      && r.value == s[FindEns(s).value.start..FindEns(s).value.end]
  {
    match FindEns(s)
    case Some(m) =>
      EnsSpanText(s, m.start, m.end);
      Some(s[m.start..m.end])
    case None => None
  }

  /** The text of an ENS span starts with an alphanumeric and ends in `.eth`. */
  lemma EnsSpanText(s: string, i: int, e: int)
    requires IsEnsSpan(s, i, e)
    ensures var t := s[i..e];
      |t| >= 6 && IsAlnum(t[0]) && IsDotEthAt(t, |t| - 4)
  {
    var t := s[i..e];
    assert t[0] == s[i];
    assert t[|t| - 4] == s[e - 4] && t[|t| - 3] == s[e - 3];
    assert t[|t| - 2] == s[e - 2] && t[|t| - 1] == s[e - 1];
  }

  /**
   * The `.` before `eth` is not escaped, so it matches any character: in an
   * ordinary word with `eth` after at least two more characters, the pattern
   * matches a fragment of that word, and this leftmost match hides a real
   * name later in the text.
   */
  lemma EnsDotMatchesAnyChar()
    ensures EnsMatch("together with vitalik.eth") == Some("togeth")
  {
    var s := "together with vitalik.eth";
    TogetherSpan(s);
    TogetherNoLaterEth(s);
    FirstWordFragment(s, 0, 2, 8);
  }

  /** `togeth` is an ENS span of the text, ending the word `together` at the space. */
  lemma TogetherSpan(s: string)
    requires s == "together with vitalik.eth"
    ensures IsEnsSpan(s, 0, 6) && !IsWordChar(s[8]) && s[..6] == "togeth"
  {
    assert s[1] == 'o' && s[2] == 'g' && s[3] == 'e' && s[4] == 't' && s[5] == 'h' && s[8] == ' ';
  }

  /** No other `.eth` (with a wildcard dot) starts inside the word `together`. */
  lemma TogetherNoLaterEth(s: string)
    requires s == "together with vitalik.eth"
    ensures forall k :: 2 < k <= 8 ==> !IsDotEthAt(s, k)
  {
    assert s[4] == 't' && s[5] == 'h' && s[6] == 'e' && s[7] == 'r' && s[8] == ' ';
    assert s[9] == 'w' && s[10] == 'i' && s[11] == 't';
  }

  /**
   * When `[i, k + 4)` is an ENS span whose wildcard sits at `k`, no later
   * position up to the end `run` of the word holds another `.eth`, that match
   * is the one reported.
   */
  lemma FirstWordFragment(s: string, i: nat, k: nat, run: nat)
    requires IsEnsSpan(s, i, k + 4) && k < run < |s| && !IsWordChar(s[run])
    requires forall k' :: k < k' <= run ==> !IsDotEthAt(s, k')
    requires forall i', e :: 0 <= i' < i ==> !IsEnsSpan(s, i', e)
    ensures EnsMatch(s) == Some(s[i..k + 4])
  {
    var m := FindEns(s).value;
    assert m.start == i;
  }

  // ---------------------------------------------------------------------
  // ENS pattern with the dot escaped
  // ---------------------------------------------------------------------

  /** `[i, e)` matches `[a-zA-Z0-9]\w+\.(eth)` under the `i` flag: a literal dot before `eth`. */
  predicate IsEscapedEnsSpan(s: string, i: int, e: int) {
    && 0 <= i && i + 6 <= e <= |s|
    && IsAlnum(s[i])
    && (forall j :: i + 1 <= j < e - 4 ==> IsWordChar(s[j]))
    && s[e - 4] == '.' && IsEthAt(s, e - 3)
  }

  /**
   * The escaped match starting exactly at `i`. A dot is no word character,
   * so `\w+` must run to the end of the word and the match, if any, is unique.
   */
  function EscapedEnsEndAt(s: string, i: nat): (r: Option<nat>)
    requires i <= |s|
    ensures r.Some? ==> IsEscapedEnsSpan(s, i, r.value)
    ensures forall e :: IsEscapedEnsSpan(s, i, e) ==> r == Some(e)
  {
    if i + 1 <= |s| && IsAlnum(s[i]) then
      var run := WordRunEnd(s, i + 1);
      if run >= i + 2 && run + 4 <= |s| && s[run] == '.' && IsEthAt(s, run + 1) then Some(run + 4)
      else None
    else None
  }

  /** Scans start positions `i, i + 1, ...` for the first escaped ENS match. */
  function FindEscapedEnsFrom(s: string, i: nat): (r: Option<Span>)
    requires i <= |s|
    ensures r.Some? ==> i <= r.value.start && IsEscapedEnsSpan(s, r.value.start, r.value.end)
    ensures r.Some? ==> forall i', e :: i <= i' < r.value.start ==> !IsEscapedEnsSpan(s, i', e)
    ensures r.None? ==> forall i', e :: i <= i' ==> !IsEscapedEnsSpan(s, i', e)
    decreases |s| - i
  {
    match EscapedEnsEndAt(s, i)
    case Some(e) => Some(Span(i, e))
    case None => if i == |s| then None else FindEscapedEnsFrom(s, i + 1)
  }

  /** `s.match(/([a-zA-Z0-9]\w+\.(eth))/i)`: the leftmost span, or `None` when nothing matches. */
  function FindEscapedEns(s: string): (r: Option<Span>)
    ensures r.Some? <==> exists i, e :: IsEscapedEnsSpan(s, i, e)
    ensures r.Some? ==> IsEscapedEnsSpan(s, r.value.start, r.value.end)
    ensures r.Some? ==> forall i, e :: 0 <= i < r.value.start ==> !IsEscapedEnsSpan(s, i, e)
  {
    FindEscapedEnsFrom(s, 0)
  }

  /**
   * The matched text of the escaped pattern: it exists exactly when some span
   * matches, and it always ends in a literal dot followed by `eth` in any
   * case, right after a whole word.
   */
  function EscapedEnsMatch(s: string): (r: Option<string>)
    ensures r.Some? <==> exists i, e :: IsEscapedEnsSpan(s, i, e)
    ensures r.Some? ==>
      && FindEscapedEns(s).Some?
      && r.value == s[FindEscapedEns(s).value.start..FindEscapedEns(s).value.end]
    ensures r.Some? ==>
      && |r.value| >= 6 && IsAlnum(r.value[0])
      && r.value[|r.value| - 4] == '.' && IsEthAt(r.value, |r.value| - 3)
  {
    match FindEscapedEns(s)
    case Some(m) =>
      EscapedSpanText(s, m.start, m.end);
      Some(s[m.start..m.end])
    case None => None
  }

  /** The text of an escaped span starts with an alphanumeric and ends in a literal `.eth`. */
  lemma EscapedSpanText(s: string, i: int, e: int)
    requires IsEscapedEnsSpan(s, i, e)
    ensures var t := s[i..e];
      |t| >= 6 && IsAlnum(t[0]) && t[|t| - 4] == '.' && IsEthAt(t, |t| - 3)
  {
    var t := s[i..e];
    assert t[0] == s[i];
    assert t[|t| - 4] == s[e - 4] && t[|t| - 3] == s[e - 3];
    assert t[|t| - 2] == s[e - 2] && t[|t| - 1] == s[e - 1];
  }

  /**
   * A span preceded by a non-word character, with no dot anywhere before it,
   * is the escaped match: an earlier start would need a dot before `eth`
   * within a word that ends before that character.
   */
  lemma EscapedLeftmost(s: string, i: nat, e: nat)
    requires IsEscapedEnsSpan(s, i, e) && i >= 1 && !IsWordChar(s[i - 1])
    requires forall k :: 0 <= k < i ==> s[k] != '.'
    ensures EscapedEnsMatch(s) == Some(s[i..e])
  {
    var m := FindEscapedEns(s).value;
    assert m.start == i;
    assert EscapedEnsEndAt(s, i) == Some(m.end);
  }

  /** With the dot escaped, the word `together` no longer matches and the real name is found. */
  lemma EscapedEnsFindsName()
    ensures EscapedEnsMatch("together with vitalik.eth") == Some("vitalik.eth")
  {
    var s := "together with vitalik.eth";
    VitalikSpan(s);
    NoDotBeforeVitalik(s);
    EscapedLeftmost(s, 14, 25);
  }

  /** `vitalik.eth` is an escaped ENS span of the text, right after a space. */
  lemma VitalikSpan(s: string)
    requires s == "together with vitalik.eth"
    ensures IsEscapedEnsSpan(s, 14, 25) && !IsWordChar(s[13]) && s[14..25] == "vitalik.eth"
  {
    assert s[13] == ' ' && s[14] == 'v' && s[21] == '.' && s[22] == 'e' && s[23] == 't' && s[24] == 'h';
    assert s[15] == 'i' && s[16] == 't' && s[17] == 'a' && s[18] == 'l' && s[19] == 'i' && s[20] == 'k';
  }

  /** The text has no dot before `vitalik`. */
  lemma NoDotBeforeVitalik(s: string)
    requires s == "together with vitalik.eth"
    ensures forall k :: 0 <= k < 14 ==> s[k] != '.'
  {
    assert s[..14] == "together with ";
    assert '.' !in s[..14];
    forall k | 0 <= k < 14
      ensures s[k] != '.'
    {
      assert s[k] == s[..14][k];
    }
  }
}
