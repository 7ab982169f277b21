/** The `indices` group of the parameter-name pattern, `\d+(,\s*\d+)*`: the
    greedy scanner that the pattern amounts to, and the declarative reading of
    the same language through the pieces between the commas. VbExtract proves
    the two agree. */
module IndexGroup {
  import opened PyText

  /** A character that can occur between the brackets. */
  predicate IsIndexChar(c: char) {
    IsDigit(c) || c == ',' || IsSpace(c)
  }

  /** Matches `\d+(,\s*\d+)*` against the whole of `t`. Both repetitions are
      greedy and no backtracking can help: a shorter digit run would be
      followed by a digit, which is neither `,` nor the end, and a shorter
      whitespace run would be followed by whitespace, which is not a digit. */
  function IsIndexList(t: string): bool
    decreases |t|
  {
    var d := Span(t, IsDigit);
    if d == 0 then false
    else if d == |t| then true
    else if t[d] != ',' then false
    else IsIndexList(AfterComma(t))
  }

  /** What follows the first digit run, the character after it and the
      whitespace after that. */
  function AfterComma(t: string): (v: string)
    requires Span(t, IsDigit) < |t|
    ensures |v| < |t|
  {
    var u := t[Span(t, IsDigit) + 1..];
    u[Span(u, IsSpace)..]
  }

  /** The comma-separated pieces of an index list: a digit run, then digit runs
      each preceded by optional whitespace. */
  predicate PiecesOk(ps: seq<string>) {
    |ps| > 0 && IsDigitRun(ps[0]) && forall i | 1 <= i < |ps| :: IsSpacedDigits(ps[i])
  }

  /** `\d+(,\s*\d+)*` read declaratively, through the pieces between commas. */
  predicate IndexListSyntax(t: string) {
    PiecesOk(SplitOn(t, ','))
  }

  /** An index list starts with a digit and holds only digits, commas and
      whitespace; in particular no bracket. */
  lemma IndexListChars(t: string)
    requires IsIndexList(t)
    ensures |t| > 0 && IsDigit(t[0])
    ensures forall i | 0 <= i < |t| :: IsIndexChar(t[i])
  {
    IndexListAll(t);
  }

  /** Every character of `s` can occur between the brackets. */
  predicate AllIndexChars(s: string) {
    forall i | 0 <= i < |s| :: IsIndexChar(s[i])
  }

  /** The part of IndexListChars that needs induction. */
  lemma {:induction false} IndexListAll(t: string)
    requires IsIndexList(t)
    ensures AllIndexChars(t)
    decreases |t|
  {
    if Span(t, IsDigit) < |t| {
      IndexListAll(AfterComma(t));
      CommaChars(t);
    } else {
      assert forall i | 0 <= i < |t| :: IsDigit(t[i]);
    }
  }

  /** IndexListAll after the first comma: the digits before it, the comma,
      the whitespace after it and the rest are all index characters. */
  lemma CommaChars(t: string)
    requires Span(t, IsDigit) < |t| && t[Span(t, IsDigit)] == ','
    requires AllIndexChars(AfterComma(t))
    ensures AllIndexChars(t)
  {
    var d := Span(t, IsDigit);
    var u := t[d + 1..];
    var w := Span(u, IsSpace);
    assert u[w..] == AfterComma(t);
    DigitsCommaChars(t, d);
    SpacesChars(u, w);
    JoinChars(u, w);
    assert t[d + 1..] == u;
    JoinChars(t, d + 1);
  }

  /** A string is made of index characters when both parts of it are. */
  lemma JoinChars(s: string, k: nat)
    requires k <= |s| && AllIndexChars(s[..k]) && AllIndexChars(s[k..])
    ensures AllIndexChars(s)
  {
    forall i | 0 <= i < |s| ensures IsIndexChar(s[i]) {
      if i < k {
        assert s[..k][i] == s[i];
      } else {
        assert s[k..][i - k] == s[i];
      }
    }
  }

  /** Digits followed by a comma are index characters. */
  lemma DigitsCommaChars(t: string, d: nat)
    requires d < |t| && t[d] == ','
    requires forall j | 0 <= j < d :: IsDigit(t[j])
    ensures AllIndexChars(t[..d + 1])
  {
  }

  /** Whitespace is made of index characters. */
  lemma SpacesChars(u: string, w: nat)
    requires w <= |u|
    requires forall j | 0 <= j < w :: IsSpace(u[j])
    ensures AllIndexChars(u[..w])
  {
  }
}
