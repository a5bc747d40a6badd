/**
 * The score extractor (`extract_score` in app.py): the search for one or two
 * ASCII digits followed by "/10", as a backtracking regular-expression engine
 * runs it — the leftmost starting position wins, and at that position two
 * digits are tried before one.
 */
module ScoreExtractor {

  import opened Wrappers

  predicate IsDigit(c: char)
  {
    '0' <= c <= '9'
  }

  function DigitValue(c: char): (v: nat)
    requires IsDigit(c)
    ensures v <= 9
  {
    (c as int) - ('0' as int)
  }

  /** Declaratively: `k` digits at `i`, followed by the literal "/10". */
  predicate IsMatch(text: string, i: nat, k: nat)
  {
    && (k == 1 || k == 2)
    && i + k + 3 <= |text|
    && (forall d :: i <= d < i + k ==> IsDigit(text[d]))
    && text[i + k..i + k + 3] == "/10"
  }

  /** The chosen match: no match starts in `[from, i)`, and at `i` two digits are preferred over one. */
  ghost predicate IsLeftmostMatch(text: string, from: nat, i: nat, k: nat)
  {
    && from <= i
    && IsMatch(text, i, k)
    && (forall j, k' :: from <= j < i ==> !IsMatch(text, j, k'))
    && (k == 1 ==> !IsMatch(text, i, 2))
  }

  /** The integer value of the captured digits, as `int` gives it (leading zero allowed). */
  function GroupValue(text: string, i: nat, k: nat): (v: int)
    requires IsMatch(text, i, k)
    ensures 0 <= v <= 99
    ensures k == 1 ==> v <= 9
  {
    if k == 1 then DigitValue(text[i])
    else 10 * DigitValue(text[i]) + DigitValue(text[i + 1])
  }

  /** The literal "/10" begins at position `p`. */
  predicate SlashTenAt(text: string, p: nat)
  {
    p + 3 <= |text| && text[p] == '/' && text[p + 1] == '1' && text[p + 2] == '0'
  }

  /** The character-by-character test for "/10" is the literal's slice comparison. */
  lemma SlashTenAtIsLiteral(text: string, p: nat)
    ensures SlashTenAt(text, p) <==> p + 3 <= |text| && text[p..p + 3] == "/10"
  {
    if p + 3 <= |text| && text[p..p + 3] == "/10" {
      assert text[p] == text[p..p + 3][0];
      assert text[p + 1] == text[p..p + 3][1];
      assert text[p + 2] == text[p..p + 3][2];
    }
  }

  /**
   * One attempt of the engine at position `i`: a digit, then greedily a second
   * digit and the literal; on failure, backtrack to the single digit and the literal.
   * The result is the number of digits captured.
   */
  function MatchAt(text: string, i: nat): (r: Option<nat>)
    ensures r.Some? ==> IsMatch(text, i, r.value) && (r.value == 1 ==> !IsMatch(text, i, 2))
    ensures r.None? ==> !IsMatch(text, i, 1) && !IsMatch(text, i, 2)
  {
    SlashTenAtIsLiteral(text, i + 1);
    SlashTenAtIsLiteral(text, i + 2);
    if i < |text| && IsDigit(text[i]) then
      if i + 1 < |text| && IsDigit(text[i + 1]) && SlashTenAt(text, i + 2) then Some(2)
      else if SlashTenAt(text, i + 1) then Some(1)
      else None
    else None
  }

  /** The engine's scan: try every starting position from `from` onwards, leftmost first. */
  function Search(text: string, from: nat): (r: Option<(nat, nat)>)
    requires from <= |text|
    ensures r.None? <==> forall j, k :: from <= j ==> !IsMatch(text, j, k)
    ensures r.Some? ==> IsLeftmostMatch(text, from, r.value.0, r.value.1)
    decreases |text| - from
  {
    if from == |text| then None
    else match MatchAt(text, from)
      case Some(k) => Some((from, k))
      case None =>
        assert forall k :: !IsMatch(text, from, k);
        Search(text, from + 1)
  }

  /**
   * The score in a text: `None` exactly when no one- or two-digit number is
   * followed by "/10"; otherwise the value of the leftmost such match, which
   * lies in 0..99 and is not capped at 10.
   */
  function ExtractScore(text: string): (r: Option<int>)
    ensures r.None? <==> forall i, k :: !IsMatch(text, i, k)
    ensures r.Some? ==> 0 <= r.value <= 99
    ensures r.Some? ==> exists i, k :: IsLeftmostMatch(text, 0, i, k) && r.value == GroupValue(text, i, k)
  {
    match Search(text, 0)
    case None => None
    case Some((i, k)) => Some(GroupValue(text, i, k))
  }

  /** There is only one leftmost match. */
  lemma LeftmostMatchIsUnique(text: string, from: nat, i: nat, k: nat, i': nat, k': nat)
    requires IsLeftmostMatch(text, from, i, k)
    requires IsLeftmostMatch(text, from, i', k')
    ensures i == i' && k == k'
  {
  }

  /** Conversely, whatever the leftmost match is, its value is the score. */
  lemma ExtractScoreIsLeftmostMatch(text: string, i: nat, k: nat)
    requires IsLeftmostMatch(text, 0, i, k)
    ensures ExtractScore(text) == Some(GroupValue(text, i, k))
  {
    var r := Search(text, 0);
    assert r.Some?;
    LeftmostMatchIsUnique(text, 0, i, k, r.value.0, r.value.1);
  }

  /** A single number out of ten is found. */
  lemma ExtractScoreSimple()
    ensures ExtractScore("blah blah 7/10 more text") == Some(7)
  {
    var t := "blah blah 7/10 more text";
    forall j, k | 0 <= j < 10 ensures !IsMatch(t, j, k) {
      assert !IsDigit(t[j]);
    }
    assert t[11..14] == "/10";
    assert !IsMatch(t, 10, 2) by { assert !IsDigit(t[11]); }
    ExtractScoreIsLeftmostMatch(t, 10, 1);
  }

  /** Only the first of several scores is taken. */
  lemma ExtractScoreFirstOnly()
    ensures ExtractScore("3/10 and later 9/10") == Some(3)
  {
    var t := "3/10 and later 9/10";
    assert t[1..4] == "/10";
    assert !IsMatch(t, 0, 2) by { assert !IsDigit(t[1]); }
    ExtractScoreIsLeftmostMatch(t, 0, 1);
  }

  /** Three digits before "/10": the match starts one digit later and takes two. */
  lemma ExtractScoreThreeDigits()
    ensures ExtractScore("123/10") == Some(23)
  {
    var t := "123/10";
    assert !IsMatch(t, 0, 1) && !IsMatch(t, 0, 2) by {
      assert t[1] != '/' && t[2] != '/';
    }
    assert t[3..6] == "/10";
    ExtractScoreIsLeftmostMatch(t, 1, 2);
  }

  /** The score is not capped at 10. */
  lemma ExtractScoreAboveTen()
    ensures ExtractScore("42/10") == Some(42)
  {
    var t := "42/10";
    assert t[2..5] == "/10";
    ExtractScoreIsLeftmostMatch(t, 0, 2);
  }

  /** A text without digits has no score. */
  lemma ExtractScoreNone(t: string)
    requires forall i :: 0 <= i < |t| ==> !IsDigit(t[i])
    ensures ExtractScore(t) == None
  {
  }

  /** For instance, "no numbers here" has no score. */
  lemma ExtractScoreNoNumbers()
    ensures ExtractScore("no numbers here") == None
  {
    var t := "no numbers here";
    assert forall i :: 0 <= i < |t| ==> !IsDigit(t[i]);
    ExtractScoreNone(t);
  }
}
