/** The Stan parameter-name parser of vb_extract.py: a flattened name such as
    `beta[4,3,2]` is split into its base name and the tuple of indices written
    in its brackets, `("beta", (4, 3, 2))`; a bare name `alpha` gives
    `("alpha", ())`; anything else raises `ValueError`.

    The parser anchors the pattern
        (?P<name>[a-zA-Z0-9_]+)(\[(?P<indices>(\d+)(,\s*\d+)*)\])?$
    at the start of the input, splits the `indices` group at the commas and
    converts each piece with `int()`. The pattern is modelled by a scanner
    (MatchParamName, IsIndexList) that is shown to agree with a declarative
    reading of the grammar (Matches, IndexListSyntax, Render).

    The pattern's `\s` admits the separators 0x1C-0x1F after a comma, which
    `int()` does not skip: such a name matches, and the `ValueError` then
    comes from `int()` (InvalidLiteral) rather than from the parser's own
    check (InvalidParamName). */
module VbExtract {
  import opened PyText
  import opened IndexGroup

  /** The `ValueError`s the parser raises: its own, carrying the name the
      pattern does not match, and the one `int()` raises on a piece it cannot
      read, carrying that piece. */
  datatype ValueError =
    | InvalidParamName(paramName: string)
    | InvalidLiteral(literal: string)

  datatype Result<T> = Ok(value: T) | Err(error: ValueError)

  /** A parsed parameter name: the base name and the bracket indices, in the
      order written (empty for a scalar). */
  datatype ParamName = ParamName(name: string, indices: seq<nat>)

  /** The two named groups of a successful match; `indices` is absent when the
      optional bracket group did not take part. */
  datatype Groups = Groups(name: string, indices: Option<string>)

  /** `[a-zA-Z0-9_]` */
  predicate IsNameChar(c: char) {
    'a' <= c <= 'z' || 'A' <= c <= 'Z' || '0' <= c <= '9' || c == '_'
  }

  /** `[a-zA-Z0-9_]+` */
  predicate IsName(s: string) {
    |s| > 0 && forall i | 0 <= i < |s| :: IsNameChar(s[i])
  }

  // ---------------------------------------------------------------------
  // The `indices` group: \d+(,\s*\d+)*
  // ---------------------------------------------------------------------

  /** The scanner recognises exactly the declarative index-list language. */
  lemma {:induction false} IndexListScan(t: string)
    ensures IsIndexList(t) <==> IndexListSyntax(t)
    decreases |t|
  {
    var d := Span(t, IsDigit);
    if d == |t| {
      ScanAllDigits(t);
    } else if d == 0 || t[d] != ',' {
      ScanStops(t);
    } else {
      var u := t[d + 1..];
      var v := u[Span(u, IsSpace)..];
      IndexListScan(v);
      ScanComma(t);
    }
  }

  /** IndexListScan for a run of digits: a single piece. */
  lemma ScanAllDigits(t: string)
    requires Span(t, IsDigit) == |t|
    ensures IsIndexList(t) <==> IndexListSyntax(t)
  {
    assert ',' !in t by {
      forall i | 0 <= i < |t| ensures t[i] != ',' {
        assert IsDigit(t[i]);
      }
    }
    SplitOnNone(t, ',');
  }

  /** IndexListScan where the leading digit run is empty or followed by
      something other than a comma: the first piece is not a digit run. */
  lemma ScanStops(t: string)
    requires Span(t, IsDigit) < |t|
    requires Span(t, IsDigit) == 0 || t[Span(t, IsDigit)] != ','
    ensures !IsIndexList(t) && !IndexListSyntax(t)
  {
    var d := Span(t, IsDigit);
    var k := Span(t, NotSep(','));
    SpanLeast(t, IsDigit, NotSep(','));
    SplitOnFirst(t, ',');
    var p0 := SplitOn(t, ',')[0];
    if k == d {
      assert p0 == [];
    } else {
      assert p0[d] == t[d];
    }
  }

  /** IndexListScan after a comma: both readings continue with what follows
      the comma and its whitespace. */
  lemma ScanComma(t: string)
    requires Span(t, IsDigit) < |t| && Span(t, IsDigit) > 0 && t[Span(t, IsDigit)] == ','
    requires var u := t[Span(t, IsDigit) + 1..];
      var v := u[Span(u, IsSpace)..];
      IsIndexList(v) <==> IndexListSyntax(v)
    ensures IsIndexList(t) <==> IndexListSyntax(t)
  {
    var d := Span(t, IsDigit);
    var u := t[d + 1..];
    var w := Span(u, IsSpace);
    var v := u[w..];
    assert IsIndexList(t) == IsIndexList(v);
    SplitOnAt(t, d, ',');
    SplitOnSkip(u, w, ',');
    var sv := SplitOn(v, ',');
    assert SplitOn(t, ',') == [t[..d]] + ([u[..w] + sv[0]] + sv[1..]);
    SplitOnFirst(v, ',');
    assert sv[0] == [] || sv[0][0] == v[0];
    assert v == [] || v[0] == u[w];
    PiecesAfterComma(t[..d], u[..w], sv);
  }

  /** A digit run, a comma and whitespace in front of the pieces `sv` give a
      valid list of pieces exactly when `sv` is one, provided the whitespace
      cannot be extended into `sv`. */
  lemma PiecesAfterComma(head: string, pad: string, sv: seq<string>)
    requires IsDigitRun(head) && AllSpaces(pad) && |sv| > 0
    requires sv[0] == [] || !IsSpace(sv[0][0])
    ensures PiecesOk([head] + ([pad + sv[0]] + sv[1..])) <==> PiecesOk(sv)
  {
    var ps := [head] + ([pad + sv[0]] + sv[1..]);
    PaddedIff(pad, sv[0]);
    assert |ps| == |sv| + 1 && ps[0] == head && ps[1] == pad + sv[0];
    assert forall i | 2 <= i < |ps| :: ps[i] == sv[i - 1];
    if PiecesOk(sv) {
      forall i | 1 <= i < |ps| ensures IsSpacedDigits(ps[i]) {
        if i > 1 {
          assert ps[i] == sv[i - 1];
        }
      }
    }
    if PiecesOk(ps) {
      forall i | 1 <= i < |sv| ensures IsSpacedDigits(sv[i]) {
        assert sv[i] == ps[i + 1];
      }
    }
  }

  // ---------------------------------------------------------------------
  // The anchored match of the whole pattern
  // ---------------------------------------------------------------------

  /** What a successful match establishes about the input and its groups:
      the name group is a name and, with the bracket group absent, the whole
      input; with it present, the input is the name, `[`, an index list
      and `]`, with nothing after the `]`. */
  predicate Matches(s: string, g: Groups) {
    IsName(g.name) &&
    match g.indices
    case None => s == g.name
    case Some(t) => IsIndexList(t) && s == g.name + "[" + t + "]"
  }

  /** `re.match` of the parameter-name pattern, ending in `$`. The name group
      is greedy; since `[` is not a name character, any shorter name would be
      followed by a name character, which neither `[` nor the end of the input
      can match, so the longest name prefix is the only candidate. */
  function MatchParamName(s: string): (r: Option<Groups>)
    ensures r.Some? ==> Matches(s, r.value)
  {
    var k := Span(s, IsNameChar);
    if k == 0 then None
    else if k == |s| then Some(Groups(s, None))
    else if s[k] == '[' && s[|s| - 1] == ']' && IsIndexList(s[k + 1..|s| - 1]) then
      assert s == s[..k] + "[" + s[k + 1..|s| - 1] + "]";
      Some(Groups(s[..k], Some(s[k + 1..|s| - 1])))
    else None
  }

  /** Every way of matching the pattern is found: MatchParamName returns the
      groups of any match, so it fails only on inputs outside the pattern. */
  lemma MatchComplete(s: string, g: Groups)
    requires Matches(s, g)
    ensures MatchParamName(s) == Some(g)
  {
    var n := g.name;
    match g.indices
    case None =>
      SpanConcat(n, [], IsNameChar);
      assert n + [] == n;
    case Some(t) =>
      assert s == n + ("[" + t + "]");
      SpanConcat(n, "[" + t + "]", IsNameChar);
      assert s[..|n|] == n;
      assert s[|n| + 1..|s| - 1] == t;
  }

  // ---------------------------------------------------------------------
  // The parser
  // ---------------------------------------------------------------------

  /** `tuple(int(x) for x in pieces)`: the pieces are read in order and the
      first one `int()` rejects raises its `ValueError`. */
  function IntsOf(pieces: seq<string>): (r: Result<seq<nat>>)
    requires forall i | 0 <= i < |pieces| :: IsSpacedDigits(pieces[i])
    ensures r.Ok? ==> |r.value| == |pieces|
    ensures r.Err? ==> r.error.InvalidLiteral? && r.error.literal in pieces
    decreases |pieces|
  {
    if pieces == [] then Ok([])
    else match IntOf(pieces[0])
      case None => Err(InvalidLiteral(pieces[0]))
      case Some(v) =>
        match IntsOf(pieces[1..])
        case Err(e) => Err(e)
        case Ok(vs) => Ok([v] + vs)
  }

  /** The tuple is built exactly when `int()` reads every piece, and then it
      holds what `int()` makes of each piece, in order. */
  lemma {:induction false} IntsOfSpec(pieces: seq<string>)
    requires forall i | 0 <= i < |pieces| :: IsSpacedDigits(pieces[i])
    ensures IntsOf(pieces).Ok? <==> forall i | 0 <= i < |pieces| :: IntOf(pieces[i]).Some?
    ensures IntsOf(pieces).Ok? ==> forall i | 0 <= i < |pieces| :: IntsOf(pieces).value[i] == IntOf(pieces[i]).value
    decreases |pieces|
  {
    if pieces != [] {
      var rest := pieces[1..];
      IntsOfSpec(rest);
      assert forall i | 1 <= i < |pieces| :: pieces[i] == rest[i - 1];
    }
  }

  /** The error is that of the first piece `int()` cannot read. */
  lemma {:induction false} IntsOfFirstFailure(pieces: seq<string>, j: nat)
    requires forall i | 0 <= i < |pieces| :: IsSpacedDigits(pieces[i])
    requires j < |pieces| && IntOf(pieces[j]).None?
    requires forall i | 0 <= i < j :: IntOf(pieces[i]).Some?
    ensures IntsOf(pieces) == Err(InvalidLiteral(pieces[j]))
    decreases j
  {
    if j > 0 {
      var rest := pieces[1..];
      assert forall i | 0 <= i < j - 1 :: rest[i] == pieces[i + 1];
      IntsOfFirstFailure(rest, j - 1);
    }
  }

  /** The indices of a match: the indices group split at its commas and each
      piece read with `int()`, one index per comma plus one; none when the
      bracket group is absent. */
  function GroupIndices(indices: Option<string>): (r: Result<seq<nat>>)
    requires indices.Some? ==> IsIndexList(indices.value)
    ensures indices.None? ==> r == Ok([])
    ensures indices.Some? && r.Ok? ==> |r.value| == Count(indices.value, ',') + 1
    ensures r.Err? ==> r.error.InvalidLiteral?
  {
    match indices
    case None => Ok([])
    case Some(t) =>
      IndexListScan(t);
      SplitOnSpec(t, ',');
      var ps := SplitOn(t, ',');
      PiecesSpaced(ps);
      IntsOf(ps)
  }

  /** parse_bracketed_param_name: match the pattern or raise `ValueError`;
      on a match, return the name group and the indices of the match, or the
      `ValueError` of `int()`. */
  function Parse(s: string): (r: Result<ParamName>)
    ensures r == Err(InvalidParamName(s)) <==> MatchParamName(s).None?
    ensures r.Err? ==> r.error == InvalidParamName(s) || r.error.InvalidLiteral?
    ensures r.Ok? ==> IsName(r.value.name) && r.value.name <= s
  {
    match MatchParamName(s)
    case None => Err(InvalidParamName(s))
    case Some(g) =>
      match GroupIndices(g.indices)
      case Err(e) => Err(e)
      case Ok(ix) => Ok(ParamName(g.name, ix))
  }

  /** The bridge from MatchComplete to the parser: on any match of the
      pattern, the parser returns the name group with the integers of the
      pieces of the indices group, or the error `int()` raises on them. */
  lemma ParseMatched(s: string, g: Groups)
    requires Matches(s, g)
    ensures GroupIndices(g.indices).Ok? ==> Parse(s) == Ok(ParamName(g.name, GroupIndices(g.indices).value))
    ensures GroupIndices(g.indices).Err? ==> Parse(s) == Err(GroupIndices(g.indices).error)
  {
    MatchComplete(s, g);
  }

  // ---------------------------------------------------------------------
  // The concrete syntax the parser accepts
  // ---------------------------------------------------------------------

  /** One index as written: the whitespace after its comma (none for the first
      index) and its digits, leading zeros allowed. */
  datatype IndexText = IndexText(pad: string, digits: string)

  /** Written indices the pattern admits: `\s` whitespace after each comma,
      none before the first index, and a digit run for each. */
  predicate WellFormed(items: seq<IndexText>) {
    && (|items| > 0 ==> items[0].pad == [])
    && forall i | 0 <= i < |items| :: AllSpaces(items[i].pad) && IsDigitRun(items[i].digits)
  }

  /** Whitespace after the commas that `int()` skips as well. */
  predicate IntPadded(items: seq<IndexText>) {
    forall i | 0 <= i < |items| :: AllIntSpaces(items[i].pad)
  }

  /** The text between the commas. */
  function Pieces(items: seq<IndexText>): seq<string> {
    seq(|items|, i requires 0 <= i < |items| => items[i].pad + items[i].digits)
  }

  /** The parameter name as written: the base name alone, or followed by the
      comma-separated indices in brackets. */
  function Render(name: string, items: seq<IndexText>): string {
    if items == [] then name else name + "[" + JoinWith(Pieces(items), ',') + "]"
  }

  /** The integers the written indices denote. */
  function Values(items: seq<IndexText>): seq<nat>
    requires WellFormed(items)
  {
    seq(|items|, i requires 0 <= i < |items| && WellFormed(items) => DigitsValue(items[i].digits))
  }

  /** The canonical spelling of a parsed name: no whitespace and no leading
      zeros. */
  function Format(p: ParamName): string {
    Render(p.name, Canonical(p.indices))
  }

  /** The indices written in canonical form, each denoting its own value. */
  function Canonical(indices: seq<nat>): (items: seq<IndexText>)
    ensures WellFormed(items) && IntPadded(items) && Values(items) == indices
  {
    var items := seq(|indices|, i requires 0 <= i < |indices| => IndexText([], Decimal(indices[i])));
    assert WellFormed(items);
    assert forall i | 0 <= i < |indices| :: Values(items)[i] == indices[i];
    items
  }

  /** The pieces of written indices are exactly what `split(",")` returns on
      their rendering, and they form an index list. */
  lemma RenderedIndexList(items: seq<IndexText>)
    requires WellFormed(items) && items != []
    ensures SplitOn(JoinWith(Pieces(items), ','), ',') == Pieces(items)
    ensures IsIndexList(JoinWith(Pieces(items), ','))
  {
    var ps := Pieces(items);
    forall i | 0 <= i < |ps| ensures ',' !in ps[i] {
      var p := ps[i];
      assert p == items[i].pad + items[i].digits;
      forall j | 0 <= j < |p| ensures p[j] != ',' {
        if j < |items[i].pad| {
          assert IsSpace(p[j]);
        } else {
          assert IsDigit(items[i].digits[j - |items[i].pad|]);
        }
      }
    }
    SplitJoin(ps, ',');
    forall i | 1 <= i < |ps| ensures IsSpacedDigits(ps[i]) {
      IntOfPadded(items[i].pad, items[i].digits);
    }
    assert ps[0] == items[0].digits by {
      assert [] + items[0].digits == items[0].digits;
    }
    IndexListScan(JoinWith(ps, ','));
  }

  /** The indices of a rendering are the values of the written indices. */
  lemma RenderedIndices(items: seq<IndexText>)
    requires WellFormed(items) && IntPadded(items) && items != []
    requires IsIndexList(JoinWith(Pieces(items), ','))
    requires SplitOn(JoinWith(Pieces(items), ','), ',') == Pieces(items)
    ensures GroupIndices(Some(JoinWith(Pieces(items), ','))) == Ok(Values(items))
  {
    var ps := Pieces(items);
    forall i | 0 <= i < |ps| ensures IsSpacedDigits(ps[i]) && IntOf(ps[i]) == Some(Values(items)[i]) {
      IntOfPadded(items[i].pad, items[i].digits);
    }
    IntsOfSpec(ps);
    assert IntsOf(ps).value == Values(items);
  }

  /** The indices of a rendering whose whitespace `int()` does not all skip:
      the error of the first piece with such whitespace. */
  lemma RenderedBadPadding(items: seq<IndexText>, j: nat)
    requires WellFormed(items) && j < |items|
    requires !AllIntSpaces(items[j].pad) && forall i | 0 <= i < j :: AllIntSpaces(items[i].pad)
    requires IsIndexList(JoinWith(Pieces(items), ','))
    requires SplitOn(JoinWith(Pieces(items), ','), ',') == Pieces(items)
    ensures GroupIndices(Some(JoinWith(Pieces(items), ','))) == Err(InvalidLiteral(items[j].pad + items[j].digits))
  {
    var ps := Pieces(items);
    forall i | 0 <= i < |ps| ensures IsSpacedDigits(ps[i]) && (i <= j ==> (IntOf(ps[i]).Some? <==> i < j)) {
      IntOfPadded(items[i].pad, items[i].digits);
    }
    IntsOfFirstFailure(ps, j);
  }

  /** Round trip: a well-formed rendering parses to its base name and the
      values of its indices, in order, whatever whitespace follows the commas
      and however many leading zeros the indices carry. */
  lemma ParseRender(name: string, items: seq<IndexText>)
    requires IsName(name) && WellFormed(items) && IntPadded(items)
    ensures Parse(Render(name, items)) == Ok(ParamName(name, Values(items)))
  {
    if items == [] {
      assert Values(items) == [];
      ParseMatched(name, Groups(name, None));
    } else {
      var t := JoinWith(Pieces(items), ',');
      RenderedIndexList(items);
      RenderedIndices(items);
      ParseMatched(Render(name, items), Groups(name, Some(t)));
    }
  }

  /** A rendering the pattern admits but whose whitespace after some comma
      holds a character `int()` does not skip (0x1C-0x1F) matches the
      pattern and then raises the `ValueError` of `int()` on the first such
      piece. */
  lemma ParseRejectsIntPadding(name: string, items: seq<IndexText>, j: nat)
    requires IsName(name) && WellFormed(items) && j < |items|
    requires !AllIntSpaces(items[j].pad) && forall i | 0 <= i < j :: AllIntSpaces(items[i].pad)
    ensures MatchParamName(Render(name, items)).Some?
    ensures Parse(Render(name, items)) == Err(InvalidLiteral(items[j].pad + items[j].digits))
  {
    var t := JoinWith(Pieces(items), ',');
    RenderedIndexList(items);
    RenderedBadPadding(items, j);
    ParseMatched(Render(name, items), Groups(name, Some(t)));
  }

  /** A rendering the pattern admits is parsed exactly when `int()` skips all
      of its whitespace. */
  lemma ParseRenderOk(name: string, items: seq<IndexText>)
    requires IsName(name) && WellFormed(items)
    ensures Parse(Render(name, items)).Ok? <==> IntPadded(items)
  {
    if IntPadded(items) {
      ParseRender(name, items);
    } else {
      var j :| 0 <= j < |items| && !AllIntSpaces(items[j].pad);
      FirstBadPad(items, j);
      var k :| 0 <= k < |items| && !AllIntSpaces(items[k].pad) && forall i | 0 <= i < k :: AllIntSpaces(items[i].pad);
      ParseRejectsIntPadding(name, items, k);
    }
  }

  /** If some whitespace is not all `int()` whitespace, there is a first such. */
  lemma {:induction false} FirstBadPad(items: seq<IndexText>, j: nat)
    requires j < |items| && !AllIntSpaces(items[j].pad)
    ensures exists k | 0 <= k < |items| :: !AllIntSpaces(items[k].pad) && forall i | 0 <= i < k :: AllIntSpaces(items[i].pad)
    decreases j
  {
    if !forall i | 0 <= i < j :: AllIntSpaces(items[i].pad) {
      var i :| 0 <= i < j && !AllIntSpaces(items[i].pad);
      FirstBadPad(items, i);
    }
  }

  /** The written form of one piece: its leading whitespace and its digits. */
  function ReadItem(p: string): (item: IndexText)
    requires IsSpacedDigits(p)
    ensures item.pad + item.digits == p
    ensures AllSpaces(item.pad) && IsDigitRun(item.digits)
    ensures IntOf(p).Some? <==> AllIntSpaces(item.pad)
    ensures IntOf(p).Some? ==> IntOf(p).value == DigitsValue(item.digits)
  {
    var k := Span(p, IsSpace);
    assert p[..k] + p[k..] == p;
    IndexText(p[..k], p[k..])
  }

  /** Every piece of a well-formed list is whitespace then digits, and the
      first has no whitespace. */
  lemma PiecesSpaced(ps: seq<string>)
    requires PiecesOk(ps)
    ensures forall i | 0 <= i < |ps| :: IsSpacedDigits(ps[i])
    ensures Span(ps[0], IsSpace) == 0
  {
    assert !IsSpace(ps[0][0]);
    SpanConcat([], ps[0], IsSpace);
    assert [] + ps[0] == ps[0];
  }

  /** The written form of a list of pieces. */
  function ReadItems(ps: seq<string>): (items: seq<IndexText>)
    requires PiecesOk(ps)
    ensures WellFormed(items) && Pieces(items) == ps
  {
    PiecesSpaced(ps);
    var items := seq(|ps|, i requires 0 <= i < |ps| && IsSpacedDigits(ps[i]) => ReadItem(ps[i]));
    assert items[0].pad == [];
    assert forall i | 0 <= i < |ps| :: Pieces(items)[i] == ps[i];
    items
  }

  /** The written form of the pieces denotes what `int()` makes of them. */
  lemma ReadItemsValues(ps: seq<string>)
    requires PiecesOk(ps) && forall i | 0 <= i < |ps| :: IsSpacedDigits(ps[i])
    ensures IntsOf(ps).Ok? <==> IntPadded(ReadItems(ps))
    ensures IntsOf(ps).Ok? ==> IntsOf(ps).value == Values(ReadItems(ps))
  {
    var items := ReadItems(ps);
    IntsOfSpec(ps);
    forall i | 0 <= i < |ps|
      ensures IntOf(ps[i]).Some? <==> AllIntSpaces(items[i].pad)
      ensures IntOf(ps[i]).Some? ==> IntOf(ps[i]).value == Values(items)[i]
    {
      assert items[i] == ReadItem(ps[i]);
    }
  }

  /** Soundness: whatever the parser accepts is the rendering of well-formed
      written indices after its base name, and the result holds their
      values. With ParseRender this makes the accepted inputs exactly the
      renderings. */
  lemma ParseSound(s: string)
    requires Parse(s).Ok?
    ensures var p := Parse(s).value;
      exists items :: WellFormed(items) && IntPadded(items) && Render(p.name, items) == s && Values(items) == p.indices
  {
    var p := Parse(s).value;
    var g := MatchParamName(s).value;
    if g.indices.None? {
      assert WellFormed([]) && IntPadded([]) && Render(p.name, []) == s && Values([]) == p.indices;
    } else {
      MatchedSound(s, g);
    }
  }

  /** ParseSound for a match with indices. */
  lemma MatchedSound(s: string, g: Groups)
    requires Matches(s, g) && g.indices.Some? && GroupIndices(g.indices).Ok?
    ensures exists items :: WellFormed(items) && IntPadded(items) && Render(g.name, items) == s && Values(items) == GroupIndices(g.indices).value
  {
    var t := g.indices.value;
    var ps := SplitOn(t, ',');
    IndexListScan(t);
    SplitOnSpec(t, ',');
    PiecesSpaced(ps);
    var items := ReadItems(ps);
    ReadItemsValues(ps);
    assert JoinWith(Pieces(items), ',') == t;
    assert Render(g.name, items) == s;
    assert Values(items) == GroupIndices(g.indices).value;
  }

  /** Round trip through the canonical spelling. */
  lemma FormatRoundTrip(p: ParamName)
    requires IsName(p.name)
    ensures Parse(Format(p)) == Ok(p)
  {
    ParseRender(p.name, Canonical(p.indices));
  }

  /** A bare name is its own base name and has no indices. */
  lemma ParseBareName(s: string)
    requires IsName(s)
    ensures Parse(s) == Ok(ParamName(s, []))
  {
    ParseRender(s, []);
  }

  /** Whitespace after the commas that `int()` skips does not change the
      result. */
  lemma ParseIgnoresPadding(name: string, a: seq<IndexText>, b: seq<IndexText>)
    requires IsName(name) && WellFormed(a) && WellFormed(b) && IntPadded(a) && IntPadded(b)
    requires |a| == |b| && forall i | 0 <= i < |a| :: a[i].digits == b[i].digits
    ensures Parse(Render(name, a)) == Parse(Render(name, b))
  {
    SameDigitsSameValues(a, b);
    ParseRender(name, a);
    ParseRender(name, b);
  }

  /** Written indices with the same digits denote the same values. */
  lemma SameDigitsSameValues(a: seq<IndexText>, b: seq<IndexText>)
    requires WellFormed(a) && WellFormed(b)
    requires |a| == |b| && forall i | 0 <= i < |a| :: a[i].digits == b[i].digits
    ensures Values(a) == Values(b)
  {
    assert forall i | 0 <= i < |a| :: Values(a)[i] == Values(b)[i];
  }

  // ---------------------------------------------------------------------
  // What an accepted name looks like, and what is rejected
  // ---------------------------------------------------------------------

  /** An accepted name starts with a name character, holds only name
      characters before its first `[`, only name characters, index characters
      and brackets overall, a digit right after any `[` and nothing after a
      `]`. */
  lemma ParseAcceptedShape(s: string)
    requires Parse(s).Ok?
    ensures forall i | 0 <= i < |s| && '[' !in s[..i + 1] :: IsNameChar(s[i])
    ensures |s| > 0 && IsNameChar(s[0])
    ensures forall i | 0 <= i < |s| :: IsNameChar(s[i]) || IsIndexChar(s[i]) || s[i] == '[' || s[i] == ']'
    ensures forall i | 0 <= i < |s| && s[i] == '[' :: i + 1 < |s| && IsDigit(s[i + 1])
    ensures forall i | 0 <= i < |s| && s[i] == ']' :: i == |s| - 1
  {
    MatchedShape(s, MatchParamName(s).value);
  }

  /** ParseAcceptedShape, read off the groups of the match. */
  lemma MatchedShape(s: string, g: Groups)
    requires Matches(s, g)
    ensures forall i | 0 <= i < |s| && '[' !in s[..i + 1] :: IsNameChar(s[i])
    ensures |s| > 0 && IsNameChar(s[0])
    ensures forall i | 0 <= i < |s| :: IsNameChar(s[i]) || IsIndexChar(s[i]) || s[i] == '[' || s[i] == ']'
    ensures forall i | 0 <= i < |s| && s[i] == '[' :: i + 1 < |s| && IsDigit(s[i + 1])
    ensures forall i | 0 <= i < |s| && s[i] == ']' :: i == |s| - 1
  {
    var k := |g.name|;
    if g.indices.Some? {
      var t := g.indices.value;
      IndexListChars(t);
      assert s[..k] == g.name && s[k] == '[' && s[|s| - 1] == ']';
      assert forall i | k < i < |s| - 1 :: s[i] == t[i - k - 1];
      forall i | 0 <= i < |s|
        ensures IsNameChar(s[i]) || IsIndexChar(s[i]) || s[i] == '[' || s[i] == ']'
        ensures s[i] == '[' ==> i == k
        ensures s[i] == ']' ==> i == |s| - 1
        ensures '[' !in s[..i + 1] ==> IsNameChar(s[i])
      {
        if i < k {
          assert s[i] == g.name[i];
        } else {
          assert s[..i + 1][k] == '[';
        }
      }
    }
  }

  /** Every `,` of an accepted name lies between its brackets and separates
      two indices, so there is one more index than there are commas; a name
      without brackets has neither commas nor indices. */
  lemma ParseIndexCount(s: string)
    requires Parse(s).Ok?
    ensures '[' in s ==> |Parse(s).value.indices| == Count(s, ',') + 1
    ensures '[' !in s ==> Parse(s).value.indices == [] && ',' !in s
  {
    var g := MatchParamName(s).value;
    MatchedCommas(s, g);
    if g.indices.Some? {
      SplitOnSpec(g.indices.value, ',');
    }
  }

  /** The commas of a matched name are those of its indices group; the
      bracket is there exactly when the group is. */
  lemma MatchedCommas(s: string, g: Groups)
    requires Matches(s, g)
    ensures g.indices.None? ==> '[' !in s && ',' !in s
    ensures g.indices.Some? ==> '[' in s && Count(s, ',') == Count(g.indices.value, ',')
  {
    var n := g.name;
    assert ',' !in n && '[' !in n by {
      forall i | 0 <= i < |n| ensures n[i] != ',' && n[i] != '[' {
        assert IsNameChar(n[i]);
      }
    }
    if g.indices.Some? {
      var t := g.indices.value;
      assert s[|n|] == '[';
      CountConcat(n + "[" + t, "]", ',');
      CountConcat(n + "[", t, ',');
      CountConcat(n, "[", ',');
    }
  }

  /** The empty string and a string not starting with a name character
      (`$a`, `*`, `[1]`) are rejected. */
  lemma ParseRejectsBadStart(s: string)
    requires s == [] || !IsNameChar(s[0])
    ensures Parse(s) == Err(InvalidParamName(s))
  {
    if MatchParamName(s).Some? {
      MatchedShape(s, MatchParamName(s).value);
    }
  }

  /** A character other than a name character before the first `[` (`a b`,
      `a.b`) is rejected. */
  lemma ParseRejectsBeforeBracket(s: string, i: nat)
    requires i < |s| && !IsNameChar(s[i]) && '[' !in s[..i + 1]
    ensures Parse(s) == Err(InvalidParamName(s))
  {
    if MatchParamName(s).Some? {
      MatchedShape(s, MatchParamName(s).value);
    }
  }

  /** A character outside names, digits, whitespace, commas and brackets
      (`a-b`) is rejected wherever it stands. */
  lemma ParseRejectsForeignChar(s: string, i: nat)
    requires i < |s| && !IsNameChar(s[i]) && !IsIndexChar(s[i]) && s[i] != '[' && s[i] != ']'
    ensures Parse(s) == Err(InvalidParamName(s))
  {
    if MatchParamName(s).Some? {
      MatchedShape(s, MatchParamName(s).value);
    }
  }

  /** Empty brackets (`ae[]`) are rejected. */
  lemma ParseRejectsEmptyBrackets(s: string, i: nat)
    requires i + 1 < |s| && s[i] == '[' && s[i + 1] == ']'
    ensures Parse(s) == Err(InvalidParamName(s))
  {
    if MatchParamName(s).Some? {
      MatchedShape(s, MatchParamName(s).value);
    }
  }

  /** Text after a `]` is rejected. */
  lemma ParseRejectsTextAfterBracket(s: string, i: nat)
    requires i + 1 < |s| && s[i] == ']'
    ensures Parse(s) == Err(InvalidParamName(s))
  {
    if MatchParamName(s).Some? {
      MatchedShape(s, MatchParamName(s).value);
    }
  }

  /** The bare names of the test suite. */
  lemma ParseAcceptsBareExamples()
    ensures Parse("alpha") == Ok(ParamName("alpha", []))
    ensures Parse("alpha_prime") == Ok(ParamName("alpha_prime", []))
  {
    ParseBareName("alpha");
    ParseBareName("alpha_prime");
  }

  /** Any name followed by `[2]`, as `beta` is in the test suite. */
  lemma ParseOneIndex(name: string)
    requires IsName(name)
    ensures Parse(name + "[2]") == Ok(ParamName(name, [2]))
  {
    var one := [IndexText("", "2")];
    assert "" + "2" == "2";
    assert Pieces(one) == ["2"];
    assert Values(one) == [2];
    assert Render(name, one) == name + "[2]";
    ParseRender(name, one);
  }

  /** Any name followed by `[4,3,2]`, as `beta` and `beta_prime` are in the
      test suite. */
  lemma ParseThreeIndices(name: string)
    requires IsName(name)
    ensures Parse(name + "[4,3,2]") == Ok(ParamName(name, [4, 3, 2]))
  {
    var three := [IndexText("", "4"), IndexText("", "3"), IndexText("", "2")];
    assert "" + "4" == "4" && "" + "3" == "3" && "" + "2" == "2";
    assert Pieces(three) == ["4", "3", "2"];
    assert JoinWith(["3", "2"], ',') == "3,2";
    assert Values(three) == [4, 3, 2];
    assert JoinWith(Pieces(three), ',') == "4,3,2";
    assert Render(name, three) == name + "[4,3,2]";
    ParseRender(name, three);
  }

  /** `a[1, 2]` and `a[1,2]` both give the indices 1 and 2. */
  lemma ParsePairs(spaced: string, tight: string)
    requires spaced == "a[1, 2]" && tight == "a[1,2]"
    ensures Parse(spaced) == Parse(tight) == Ok(ParamName("a", [1, 2]))
  {
    assert spaced == "a" + "[1," + " " + "2]";
    assert tight == "a" + "[1," + "" + "2]";
    ParseTwoIndices("a", " ", spaced);
    ParseTwoIndices("a", "", tight);
  }

  /** Any name followed by `[1,2]` with any whitespace `int()` skips after the
      comma. */
  lemma ParseTwoIndices(name: string, pad: string, s: string)
    requires IsName(name) && AllIntSpaces(pad) && s == name + "[1," + pad + "2]"
    ensures Parse(s) == Ok(ParamName(name, [1, 2]))
  {
    var two := [IndexText("", "1"), IndexText(pad, "2")];
    assert "" + "1" == "1";
    assert Pieces(two) == ["1", pad + "2"];
    assert Values(two) == [1, 2];
    assert JoinWith(Pieces(two), ',') == "1," + pad + "2";
    assert Render(name, two) == name + "[1," + pad + "2]";
    ParseRender(name, two);
  }

  /** `a[1,` followed by the file separator 0x1C and `2]` matches the pattern,
      whose `\s` admits 0x1C, but `int()` rejects the piece after the comma. */
  lemma ParseRejectsSeparatorExample(sep: string, s: string)
    requires sep == [0x1C as char] && s == "a[1," + sep + "2]"
    ensures MatchParamName(s).Some?
    ensures Parse(s) == Err(InvalidLiteral(sep + "2"))
  {
    var two := [IndexText("", "1"), IndexText(sep, "2")];
    assert "" + "1" == "1";
    assert IsSpace(sep[0]) && !IsIntSpace(sep[0]);
    assert Pieces(two) == ["1", sep + "2"];
    assert JoinWith(Pieces(two), ',') == "1," + sep + "2";
    assert Render("a", two) == s;
    ParseRejectsIntPadding("a", two, 1);
  }

  /** Leading zeros are accepted and ignored. */
  lemma ParseLeadingZerosExample()
    ensures Parse("a[007]") == Ok(ParamName("a", [7]))
  {
    var padded := [IndexText("", "007")];
    assert "" + "007" == "007";
    assert Pieces(padded) == ["007"];
    LeadingZeros("00", "7");
    assert "00" + "7" == "007";
    assert WellFormed(padded) && Values(padded) == [7];
    assert JoinWith(Pieces(padded), ',') == "007";
    assert Render("a", padded) == "a[007]";
    ParseRender("a", padded);
  }

  /** The rejected names of the test suite. */
  lemma ParseRejectsExamples()
    ensures Parse("a-b").Err? && Parse("$a").Err? && Parse("*").Err?
    ensures Parse("").Err? && Parse("ae[]").Err?
  {
    ParseRejectsForeignChar("a-b", 1);
    ParseRejectsBadStart("$a");
    ParseRejectsBadStart("*");
    ParseRejectsBadStart("");
    ParseRejectsEmptyBrackets("ae[]", 2);
  }
}
