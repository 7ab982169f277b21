# Stan parameter-name parser

This project models `parse_bracketed_param_name` from `vb_extract.py`. The
function splits a flattened Stan parameter name into its base name and the
integer indices written in its brackets:

- `beta[4,3,2]` gives `("beta", (4, 3, 2))`;
- a bare name such as `alpha` gives `("alpha", ())`;
- anything else raises `ValueError`.

A `ValueError` can come from two places:

- the parser's own check, when the pattern does not match the input;
- `int()`, when the pattern matches but a piece after a comma cannot be read.

The second case arises because the pattern's `\s` admits the separator
characters 0x1C-0x1F, which `int()` does not skip. `a[1,` followed by
0x1C and `2]` matches, but `int()` then rejects the piece after the comma.
The model keeps the two errors apart: `InvalidParamName` carries the input,
and `InvalidLiteral` carries the piece `int()` rejected.

The Python code works in four steps:

1. It anchors the pattern `(?P<name>[a-zA-Z0-9_]+)(\[(?P<indices>(\d+)(,\s*\d+)*)\])?$`
   at the start of the input.
2. It takes the `name` group.
3. It splits the `indices` group at its commas.
4. It converts every piece with `int()`.

The model is pure, like the source: datatypes, functions and lemmas.

- `py_text.dfy` (module `PyText`) holds the parts of Python the parser relies on:
  - the ASCII classes behind `\d` and `\s`;
  - greedy repetition (`Span`);
  - `str.split` on one character (`SplitOn`), with its inverse `JoinWith`;
  - `int()` on the strings the pattern lets through (`IntOf`), with the whitespace it skips (`IsIntSpace`);
  - the canonical decimal spelling `str(n)` (`Decimal`).
- `index_group.dfy` (module `IndexGroup`) models the `indices` group `\d+(,\s*\d+)*` in two ways:
  - as the greedy scanner the pattern amounts to (`IsIndexList`);
  - declaratively, through the pieces between the commas (`IndexListSyntax`).
- `vb_extract.dfy` (module `VbExtract`) holds three things:
  - the anchored match (`MatchParamName`), with its declarative reading (`Matches`);
  - the parser itself (`Parse`);
  - the properties of the parser. The written form of a name is `Render(name, items)`. Each `IndexText` item is the whitespace and the digits of one index.

The main results:

- The scanner recognises exactly the declarative language (`IndexListScan`).
- The match finds exactly the declared groups (`MatchParamName`, `MatchComplete`).
- Parsing a rendered name gives back its name and the values of its digits, when `int()` skips all of its whitespace (`ParseRender`).
- Otherwise the parser raises the `int()` error for the first offending piece (`ParseRejectsIntPadding`). Together these decide exactly which renderings parse (`ParseRenderOk`).
- Every accepted input is such a rendering (`ParseSound`).
- The rendering with the canonical spelling of the indices is a right inverse of the parser (`FormatRoundTrip`).
- The remaining lemmas cover:
  - index counts;
  - whitespace and leading zeros;
  - the shape of accepted input;
  - the rejected input;
  - the cases of the test suite.

## Model

| member | source | states |
|---|---|---|
| PyText.IsDigit | vb_extract.py:31 | `\d` on ASCII input is exactly `0`-`9`; the digit runs of the pattern are read by `Span` with this class |
| PyText.IsSpace | vb_extract.py:31 | `\s` on ASCII input is exactly the characters 9-13 and 28-32; `PaddedIff` shows that the pieces after a comma are such whitespace followed by digits |
| PyText.IsIntSpace | vb_extract.py:38 | the whitespace `int()` skips before the digits of ASCII text is exactly 9-13 and the space; `IntOfPadded` shows that any other `\s` character makes `int()` fail |
| PyText.Span | vb_extract.py:31 | a greedy repetition takes the longest prefix whose characters all belong to the class: every character before the stop is in the class and the character at the stop is not |
| PyText.SpanLeast | vb_extract.py:31 | the greedy run of a narrower class is never longer than that of a wider one, so the digit run stops at or before the first comma |
| PyText.PaddedIff | vb_extract.py:31 | whitespace followed by text that does not start with whitespace matches `\s*\d+` exactly when that text is a digit run |
| PyText.IntOf | vb_extract.py:38 | `int()` of a `\s*\d+` piece succeeds only when the piece's leading whitespace is all whitespace `int()` skips |
| PyText.IntOfPadded | vb_extract.py:38 | `int()` of whitespace followed by digits is the value of the digits when `int()` skips all of that whitespace, and fails otherwise |
| PyText.LeadingZeros | vb_extract.py:38 | leading zeros do not change the value `int()` gives a digit string |
| PyText.Decimal | vb_extract.py:38 | the decimal spelling of a natural number is a non-empty digit run with no leading zero whose value is that number |
| PyText.Count | vb_extract.py:36-37 | the number of occurrences of a character is zero exactly when the character does not occur |
| PyText.SplitOn | vb_extract.py:37 | `split(",")` always returns at least one piece; `SplitOnSpec` and `SplitJoin` state what the pieces are |
| PyText.SplitOnSpec | vb_extract.py:36-37 | `split(",")` gives one more piece than there are commas; no piece holds a comma; joining the pieces with commas restores the input |
| PyText.SplitJoin | vb_extract.py:36-37 | splitting the comma-joined form of comma-free pieces gives back exactly those pieces |
| IndexGroup.IsIndexList | vb_extract.py:31 | the greedy scanner for `\d+(,\s*\d+)*`; `IndexListScan` proves it accepts exactly the text whose comma-separated pieces are a digit run followed by whitespace-then-digit runs |
| IndexGroup.IndexListChars | vb_extract.py:31 | text matched by the `indices` group starts with a digit and holds only digits, commas and whitespace |
| VbExtract.IsName | vb_extract.py:31 | `[a-zA-Z0-9_]+`: a non-empty string of ASCII letters, digits and underscores; `MatchComplete` and `ParseAcceptedShape` use it as the name group |
| VbExtract.IndexListScan | vb_extract.py:31 | the greedy scanner accepts exactly the text whose comma-separated pieces are a digit run followed by whitespace-then-digit runs, so backtracking cannot change the outcome |
| VbExtract.Matches | vb_extract.py:30-32 | the input is the name group alone, or the name group, `[`, the indices group and `]`; `MatchParamName` and `MatchComplete` prove the match finds exactly these groups |
| VbExtract.MatchParamName | vb_extract.py:30-33 | a match found is a valid name, either alone or followed by an index list in brackets, and it covers the whole input |
| VbExtract.MatchComplete | vb_extract.py:30-33 | whenever the input is a name alone, or a name followed by an index list in brackets, the match succeeds with exactly those groups |
| VbExtract.IntsOf | vb_extract.py:38 | the tuple has one integer per piece; a failure is the `int()` error of one of the pieces |
| VbExtract.IntsOfSpec | vb_extract.py:38 | the tuple is built exactly when `int()` reads every piece, and then it holds each piece's integer in order |
| VbExtract.IntsOfFirstFailure | vb_extract.py:38 | the error raised is the one for the first piece `int()` cannot read |
| VbExtract.GroupIndices | vb_extract.py:35-38 | no indices group gives no indices; an indices group that `int()` reads gives one index per comma-separated piece; any failure is an `int()` error |
| VbExtract.Parse | vb_extract.py:30-38 | the parser's own `ValueError` carrying the input is raised exactly when the pattern does not match; any other failure is an `int()` error; a success returns a non-empty name of name characters that is a prefix of the input |
| VbExtract.ParseMatched | vb_extract.py:35-38 | on any match the result is the name group with the integers of the pieces of the indices group, or else the `int()` error on those pieces |
| VbExtract.ParseRender | vb_extract.py:30-38 | a valid name followed by a well-formed bracketed index list, whose whitespace after each comma `int()` skips, parses to that name and the values of the written digits |
| VbExtract.ParseRejectsIntPadding | vb_extract.py:31-38 | a valid name followed by a bracketed index list whose whitespace after some comma holds 0x1C-0x1F matches the pattern, yet raises the `int()` error of the first such piece |
| VbExtract.ParseRenderOk | vb_extract.py:30-38 | a rendering the pattern admits is parsed exactly when `int()` skips all of its whitespace |
| VbExtract.ParseSound | vb_extract.py:30-38 | every accepted input is a rendering of its parsed name with well-formed written indices, whose whitespace `int()` skips, and whose values are the parsed indices |
| VbExtract.Canonical | vb_extract.py:21-28 | indices written with no whitespace and no leading zeros are well-formed and denote the given values |
| VbExtract.FormatRoundTrip | vb_extract.py:21-28 | writing a name and its indices in canonical form (`name[i,j,...]`, or `name` alone) and parsing it gives back the same name and indices |
| VbExtract.ParseBareName | vb_extract.py:26-28 | a bare valid name parses to itself with no indices |
| VbExtract.ParseIgnoresPadding | vb_extract.py:31-38 | whitespace after the commas that `int()` skips does not change the result |
| VbExtract.ParseIndexCount | vb_extract.py:36-37 | an accepted name with brackets has one index per comma plus one; one without brackets has no indices and no comma |
| VbExtract.ParseAcceptedShape | vb_extract.py:30-34 | an accepted input starts with a name character and has only name characters before its first `[`. It has only name, index and bracket characters. Each `[` is followed by a digit. A `]` can only be the last character |
| VbExtract.ParseRejectsBadStart | vb_extract.py:32-34 | an empty input, or one that does not start with a name character, raises `ValueError` |
| VbExtract.ParseRejectsBeforeBracket | vb_extract.py:32-34 | a character before the first `[` that is not a name character raises `ValueError` |
| VbExtract.ParseRejectsForeignChar | vb_extract.py:32-34 | a character that is neither a name, index nor bracket character raises `ValueError` |
| VbExtract.ParseRejectsEmptyBrackets | vb_extract.py:32-34 | `[]` anywhere raises `ValueError` |
| VbExtract.ParseRejectsTextAfterBracket | vb_extract.py:32-34 | any text after a `]` raises `ValueError` |
| VbExtract.ParseAcceptsBareExamples | tests/test_vb_extract.py:11-12 | `alpha` and `alpha_prime` parse to themselves with no indices |
| VbExtract.ParseOneIndex | tests/test_vb_extract.py:13 | any valid name followed by `[2]`, such as `beta`, parses to that name with the single index 2 |
| VbExtract.ParseThreeIndices | tests/test_vb_extract.py:14-15 | any valid name followed by `[4,3,2]`, such as `beta` and `beta_prime`, parses to that name with the indices 4, 3, 2 |
| VbExtract.ParseTwoIndices | vb_extract.py:31 | any valid name followed by `[1,`, any whitespace `int()` skips, and `2]` parses to that name with the indices 1, 2 |
| VbExtract.ParsePairs | vb_extract.py:31 | `a[1, 2]` and `a[1,2]` both parse to `a` with the indices 1, 2 |
| VbExtract.ParseRejectsSeparatorExample | vb_extract.py:31-38 | `a[1,` followed by 0x1C and `2]` matches the pattern, but raises the `int()` error for the piece 0x1C `2` |
| VbExtract.ParseLeadingZerosExample | vb_extract.py:38 | `a[007]` parses to `a` with the index 7 |
| VbExtract.ParseRejectsExamples | tests/test_vb_extract.py:21-25 | `a-b`, `$a`, `*`, the empty string and `ae[]` all raise `ValueError` |

## Left out

- `extract_vb_samples` and the NumPy import of `vb_extract.py` are not part of this model.
- The test harness is not part of this model. Its cases are stated as lemmas, for example `ParseAcceptsBareExamples` and `ParseRejectsExamples`.
- Python's `$` also matches just before a final newline, so `alpha\n` is accepted there and yields `alpha`. The model's match must reach the end of the input, so it rejects such inputs.
- `\d`, `\s` and `int()` are modelled on ASCII only.
  - `\d` is `0`-`9`.
  - `\s` is the characters 9-13 and 28-32, the ASCII characters `str.isspace` accepts.
  - `int()` skips the characters 9-13 and 32 in front of ASCII digits.
  - Python also accepts Unicode digits and spaces there.
- `int()` is modelled only on the strings the pattern can pass to it: `\s` whitespace followed by ASCII digits. Signs, underscores and trailing whitespace never reach it.
- IntOf: does not model the limit on the number of digits `int()` converts (4300 by default, `sys.int_info.default_max_str_digits`); Python raises `ValueError` above it, while the model reads digit runs of any length.
- ParseRender: holds for digit runs of any length; Python raises `ValueError` for a piece with more digits than the `int()` limit.
- FormatRoundTrip: holds for indices of any size; Python's `int()` rejects the spelling of an index with more digits than its limit.
- The error message text is not modelled. The errors are `InvalidParamName` carrying the rejected input and `InvalidLiteral` carrying the piece `int()` rejected.
- The regular-expression engine is modelled by a greedy scanner. Its agreement with the declarative grammar is proved (`IndexListScan`, `MatchComplete`). Its agreement with Python's `re` module is argued in the comments, not proved.
- The returned tuple of `int` is a sequence of natural numbers, because the pattern admits no sign.
- Determinism of the parser is not stated as a lemma. `Parse` is a function, so equal inputs give equal results by construction.
