/** The pieces of Python's text handling that the parameter-name parser relies
    on: the `\d` and `\s` character classes of the `re` module (restricted to
    ASCII), `str.split` and `str.join` with a one-character separator, and
    `int()` applied to `\s` whitespace followed by a run of decimal digits,
    which it reads or rejects depending on the whitespace. */
module PyText {

  datatype Option<T> = None | Some(value: T)

  /** `\d`, ASCII only. */
  predicate IsDigit(c: char) {
    '0' <= c <= '9'
  }

  /** `\s`, ASCII only: the characters below 128 that Python's `str.isspace`
      accepts (tab, line feed, vertical tab, form feed, carriage return, the
      four information separators 0x1C-0x1F, and the space). */
  predicate IsSpace(c: char) {
    9 <= c as int <= 13 || 28 <= c as int <= 32
  }

  /** The whitespace `int()` skips in front of the digits of an ASCII string:
      tab, line feed, vertical tab, form feed, carriage return and the space.
      Unlike `\s` it leaves out the information separators 0x1C-0x1F. */
  predicate IsIntSpace(c: char) {
    9 <= c as int <= 13 || c == ' '
  }

  predicate AllDigits(s: string) {
    forall i | 0 <= i < |s| :: IsDigit(s[i])
  }

  predicate AllSpaces(s: string) {
    forall i | 0 <= i < |s| :: IsSpace(s[i])
  }

  predicate AllIntSpaces(s: string) {
    forall i | 0 <= i < |s| :: IsIntSpace(s[i])
  }

  /** `\d+`: a non-empty run of digits. */
  predicate IsDigitRun(s: string) {
    |s| > 0 && AllDigits(s)
  }

  /** Length of the longest prefix of `s` whose characters all satisfy `p`:
      what a greedy `[...]*` consumes. */
  function Span(s: string, p: char -> bool): (n: nat)
    ensures n <= |s|
    ensures forall i | 0 <= i < n :: p(s[i])
    ensures n == |s| || !p(s[n])
    decreases |s|
  {
    if s != [] && p(s[0]) then 1 + Span(s[1..], p) else 0
  }

  /** The greedy prefix is determined by where `p` first fails. */
  lemma SpanAt(s: string, p: char -> bool, k: nat)
    requires k <= |s|
    requires forall i | 0 <= i < k :: p(s[i])
    requires k == |s| || !p(s[k])
    ensures Span(s, p) == k
  {
  }

  /** A stricter test gives a shorter greedy prefix. */
  lemma SpanLeast(s: string, p: char -> bool, q: char -> bool)
    requires forall c :: p(c) ==> q(c)
    ensures Span(s, p) <= Span(s, q)
  {
  }

  /** A prefix made only of characters satisfying `p` is consumed whole, and
      the greedy prefix then continues as it would on the rest. */
  lemma SpanShift(a: string, b: string, p: char -> bool)
    requires forall i | 0 <= i < |a| :: p(a[i])
    ensures Span(a + b, p) == |a| + Span(b, p)
  {
    var m := Span(b, p);
    assert forall i | 0 <= i < |a| + m :: (a + b)[i] == if i < |a| then a[i] else b[i - |a|];
    assert |a| + m < |a + b| ==> (a + b)[|a| + m] == b[m];
    SpanAt(a + b, p, |a| + m);
  }

  /** The greedy prefix stops where `p` first fails. */
  lemma SpanConcat(a: string, b: string, p: char -> bool)
    requires forall i | 0 <= i < |a| :: p(a[i])
    requires b == [] || !p(b[0])
    ensures Span(a + b, p) == |a|
  {
    SpanShift(a, b, p);
  }

  /** `\s*\d+`: optional whitespace, then a non-empty run of digits. */
  predicate IsSpacedDigits(x: string) {
    IsDigitRun(x[Span(x, IsSpace)..])
  }

  /** Numeric value of a digit character. */
  function DigitValue(c: char): (v: nat)
    requires IsDigit(c)
    ensures v < 10
  {
    c as int - '0' as int
  }

  /** Decimal value of a string of digits, leading zeros allowed; the empty
      string has value 0. */
  function DigitsValue(d: string): nat
    requires AllDigits(d)
    decreases |d|
  {
    if d == [] then 0 else 10 * DigitsValue(d[..|d| - 1]) + DigitValue(d[|d| - 1])
  }

  /** The digit character of value `v`. */
  function DigitChar(v: nat): (c: char)
    requires v < 10
    ensures IsDigit(c) && DigitValue(c) == v
  {
    ('0' as int + v) as char
  }

  /** `str(n)`: the canonical decimal rendering of a natural number, with no
      leading zero except for 0 itself; reading it back gives `n`. */
  function Decimal(n: nat): (r: string)
    ensures IsDigitRun(r)
    ensures |r| > 1 ==> r[0] != '0'
    ensures DigitsValue(r) == n
    decreases n
  {
    if n < 10 then [DigitChar(n)]
    else
      var high := Decimal(n / 10);
      assert (high + [DigitChar(n % 10)])[..|high|] == high;
      high + [DigitChar(n % 10)]
  }

  /** A string of zeros reads as 0. */
  lemma {:induction false} ZerosValue(z: string)
    requires forall i | 0 <= i < |z| :: z[i] == '0'
    ensures AllDigits(z) && DigitsValue(z) == 0
    decreases |z|
  {
    if z != [] {
      ZerosValue(z[..|z| - 1]);
    }
  }

  /** Leading zeros do not change the value that `int()` reads. */
  lemma {:induction false} LeadingZeros(z: string, d: string)
    requires forall i | 0 <= i < |z| :: z[i] == '0'
    requires AllDigits(d)
    ensures AllDigits(z + d) && DigitsValue(z + d) == DigitsValue(d)
    decreases |d|
  {
    ZerosValue(z);
    if d == [] {
      assert z + d == z;
    } else {
      var zd := z + d;
      assert zd[..|zd| - 1] == z + d[..|d| - 1];
      LeadingZeros(z, d[..|d| - 1]);
    }
  }

  /** `int(x)` for `x` of the form `\s*\d+`, the only strings the parser
      hands to it. For ASCII text `int()` skips leading tab, line feed,
      vertical tab, form feed, carriage return and space, then reads the
      digits in base ten, leading zeros allowed; any other character in front
      of the digits, such as 0x1C, makes it raise `ValueError` (`None`). */
  function IntOf(x: string): (r: Option<nat>)
    requires IsSpacedDigits(x)
    ensures r.Some? ==> AllIntSpaces(x[..Span(x, IsSpace)])
  {
    var k := Span(x, IsSpace);
    if AllIntSpaces(x[..k]) then Some(DigitsValue(x[k..])) else None
  }

  /** Whitespace in front of a digit run makes a `\s*\d+` string; `int()`
      ignores it when it is whitespace `int()` skips, and rejects the string
      otherwise. */
  lemma IntOfPadded(w: string, d: string)
    requires AllSpaces(w) && IsDigitRun(d)
    ensures IsSpacedDigits(w + d)
    ensures AllIntSpaces(w) ==> IntOf(w + d) == Some(DigitsValue(d))
    ensures !AllIntSpaces(w) ==> IntOf(w + d) == None
  {
    SpanConcat(w, d, IsSpace);
    assert (w + d)[|w|..] == d;
    assert (w + d)[..|w|] == w;
  }

  /** Whitespace in front of a string that does not itself start with
      whitespace makes it `\s*\d+` exactly when the string is a digit run. */
  lemma PaddedIff(w: string, q: string)
    requires AllSpaces(w)
    requires q == [] || !IsSpace(q[0])
    ensures IsSpacedDigits(w + q) <==> IsDigitRun(q)
  {
    SpanConcat(w, q, IsSpace);
    assert (w + q)[|w|..] == q;
  }

  /** Number of occurrences of `c` in `s`. */
  function Count(s: string, c: char): (n: nat)
    ensures n <= |s|
    ensures n == 0 <==> c !in s
    decreases |s|
  {
    if s == [] then 0
    else
      assert s == [s[0]] + s[1..];
      (if s[0] == c then 1 else 0) + Count(s[1..], c)
  }

  lemma {:induction false} CountConcat(a: string, b: string, c: char)
    ensures Count(a + b, c) == Count(a, c) + Count(b, c)
    decreases |a|
  {
    if a == [] {
      assert a + b == b;
    } else {
      assert (a + b)[1..] == a[1..] + b;
      CountConcat(a[1..], b, c);
    }
  }

  /** `sep.join(ps)`. */
  function JoinWith(ps: seq<string>, sep: char): string
    decreases |ps|
  {
    if |ps| == 0 then ""
    else if |ps| == 1 then ps[0]
    else ps[0] + [sep] + JoinWith(ps[1..], sep)
  }

  function NotSep(sep: char): char -> bool {
    c => c != sep
  }

  /** `s.split(sep)`: the pieces of `s` between separators, in order.
      SplitOnSpec states what they are. */
  function SplitOn(s: string, sep: char): (r: seq<string>)
    ensures |r| > 0
    decreases |s|
  {
    var k := Span(s, NotSep(sep));
    if k == |s| then [s] else [s[..k]] + SplitOn(s[k + 1..], sep)
  }

  /** There is one more piece than there are separators, no piece holds the
      separator, and joining the pieces with the separator gives `s` back. */
  lemma {:induction false} SplitOnSpec(s: string, sep: char)
    ensures |SplitOn(s, sep)| == Count(s, sep) + 1
    ensures forall i | 0 <= i < |SplitOn(s, sep)| :: sep !in SplitOn(s, sep)[i]
    ensures JoinWith(SplitOn(s, sep), sep) == s
    decreases |s|
  {
    var k := Span(s, NotSep(sep));
    if k == |s| {
      assert s[..k] == s;
    } else {
      var rest := SplitOn(s[k + 1..], sep);
      SplitOnSpec(s[k + 1..], sep);
      assert s == s[..k] + [sep] + s[k + 1..];
      assert sep !in s[..k];
      assert Count([sep], sep) == 1;
      CountConcat(s[..k] + [sep], s[k + 1..], sep);
      CountConcat(s[..k], [sep], sep);
      assert SplitOn(s, sep) == [s[..k]] + rest;
      assert (([s[..k]] + rest)[1..]) == rest;
    }
  }

  /** The first piece is everything before the first separator. */
  lemma SplitOnFirst(s: string, sep: char)
    ensures SplitOn(s, sep)[0] == s[..Span(s, NotSep(sep))]
  {
  }

  /** A separator-free prefix stays in the first piece. */
  lemma SplitOnPrefix(a: string, b: string, sep: char)
    requires sep !in a
    ensures SplitOn(a + b, sep) == [a + SplitOn(b, sep)[0]] + SplitOn(b, sep)[1..]
  {
    var ab := a + b;
    var kb := Span(b, NotSep(sep));
    assert forall i | 0 <= i < |a| :: NotSep(sep)(a[i]);
    SpanShift(a, b, NotSep(sep));
    if kb == |b| {
      assert SplitOn(ab, sep) == [ab];
    } else {
      var sb := SplitOn(b, sep);
      var rb := SplitOn(b[kb + 1..], sep);
      assert sb == [b[..kb]] + rb;
      assert ab[..|a| + kb] == a + b[..kb];
      assert ab[|a| + kb + 1..] == b[kb + 1..];
      assert SplitOn(ab, sep) == [a + b[..kb]] + rb;
      assert sb[0] == b[..kb] && sb[1..] == rb;
    }
  }

  /** The first separator, at `k`, ends the first piece. */
  lemma SplitOnAt(s: string, k: nat, sep: char)
    requires k < |s| && s[k] == sep
    requires forall i | 0 <= i < k :: s[i] != sep
    ensures SplitOn(s, sep) == [s[..k]] + SplitOn(s[k + 1..], sep)
  {
    SpanAt(s, NotSep(sep), k);
  }

  /** A separator-free prefix of length `w` stays in the first piece. */
  lemma SplitOnSkip(s: string, w: nat, sep: char)
    requires w <= |s|
    requires forall i | 0 <= i < w :: s[i] != sep
    ensures SplitOn(s, sep) == [s[..w] + SplitOn(s[w..], sep)[0]] + SplitOn(s[w..], sep)[1..]
  {
    assert s == s[..w] + s[w..];
    SplitOnPrefix(s[..w], s[w..], sep);
  }

  /** A separator ends the first piece. */
  lemma SplitOnSep(a: string, b: string, sep: char)
    requires sep !in a
    ensures SplitOn(a + [sep] + b, sep) == [a] + SplitOn(b, sep)
  {
    var s := a + [sep] + b;
    SpanConcat(a, [sep] + b, NotSep(sep));
    assert s == a + ([sep] + b);
    assert s[..|a|] == a && s[|a| + 1..] == b;
  }

  /** Without a separator there is a single piece. */
  lemma SplitOnNone(a: string, sep: char)
    requires sep !in a
    ensures SplitOn(a, sep) == [a]
  {
    SpanConcat(a, [], NotSep(sep));
    assert a + [] == a;
  }

  /** Splitting inverts joining when no piece holds the separator. */
  lemma {:induction false} SplitJoin(ps: seq<string>, sep: char)
    requires |ps| > 0
    requires forall i | 0 <= i < |ps| :: sep !in ps[i]
    ensures SplitOn(JoinWith(ps, sep), sep) == ps
    decreases |ps|
  {
    if |ps| == 1 {
      SplitOnNone(ps[0], sep);
    } else {
      SplitJoin(ps[1..], sep);
      SplitOnSep(ps[0], JoinWith(ps[1..], sep), sep);
      assert [ps[0]] + ps[1..] == ps;
    }
  }
}
