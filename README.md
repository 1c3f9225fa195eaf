# semantic_versioning in Dafny

A model of the core of the Python package `semantic_versioning`: a version
scheme in the style of PEP 440, with a version grammar, a version record
that is parsed, validated, compared and printed, and specifiers (comma
separated lists of `operator version` expressions) that a version complies
with or not.

The model follows the code as written, including where the code departs
from its own tests:
- `parse` ignores its separator argument.
- A zero minor, patch, pre-, post- or dev-release number counts as missing
  in the sort key.
- `~=` is plain equality.
- `to_string` drops zero numbers and the release labels, and fails when
  `versions` is None.
- The release ladder is dev < post < pre < final.

Modules, one per source file plus two supporting ones:

- `Wrappers` (wrappers.dfy): `Option`, `Result`, the exceptions of the
  package as failure values, and the left-to-right list comprehension
  `MapResult`.
- `Strings` (strings.dfy): the Python built-ins the core uses on strings:
  `str(n)`, `int(s)`, `str.split` on one character, `str.replace` of one
  character.
- `Flags` (flags.dfy): the `Operator` enum and its eight tokens.
- `Utils` (utils.dfy): `pre_release_type_to_int`, `pad`,
  `simple_eval`.
- `Patterns` (patterns.dfy): the regular expressions of patterns.py.
  - They are modelled as a deterministic scanner `FullMatch`, which returns
    the syntax tree of a full match.
  - `Render` is the reference grammar: the text of a tree.
  - It is proved that the two agree on every string.
  - The file also holds the expression grammar: an operator token, then a
    version.
- `SemanticVersions` (semantic_version.dfy): the `SemanticVersion` record,
  with:
  - `parse`: an imperative method whose loop over `groupdict()` fills a
    dictionary. It is proved against `ParseVersion`.
  - `validate`.
  - `to_string`: a method with its two accumulating loops, proved against
    `Rendering`.
  - `__eq__`, and `__lt__` through `__compare_tuple`.
  - the `<=`, `>`, `>=` that `functools.total_ordering` derives.
- `VersionOrder` (ordering.dfy): properties of `__lt__`:
  - the comparison does not depend on the pad length;
  - it is a strict weak order;
  - the release ladder, and zero counting as missing;
  - the comparisons of the tests;
  - a corrected order and the proof that it fixes the zero case.
- `Stringify` (rendering.dfy):
  - what `to_string` returns as written, on the tests' inputs;
  - `Canonical`, the rendering the tests expect, with its round trip
    through `ParseVersion`;
  - the parses and renderings of the tests.
- `Specifiers` (specifier.dfy): `Expression.parse`, `Expression.complies`,
  `Specifier.parse`, `Specifier.complies` and the tests' examples.

Effects:
- Exceptions are `Failure` values of `Result`.
- `print(ct)` in `__compare_tuple` is console output and is left out.
- Nothing else in the core performs I/O.

## Model

| member | source | states |
|---|---|---|
| Flags.Value | semantic_versioning/flags.py:4-12 | each operator's token is one to three characters long |
| Flags.FromValue | semantic_versioning/flags.py:4-12 | `Operator(token)`: a member whose value is the token, or UnknownOperator when no member has that value |
| Flags.FromValueOfValue | semantic_versioning/flags.py:4-12 | `Operator(op.value) == op` for every member: token and member round-trip |
| Flags.ValuesDistinct | semantic_versioning/flags.py:5-12 | two members have the same token exactly when they are the same member (so `==` and `===` differ) |
| Flags.EightOperators | semantic_versioning/flags.py:5-12 | the list of members has eight entries, every member is in it, and no member twice |
| Flags.TokenChars | semantic_versioning/flags.py:5-12 | every token is made of the characters `=!<>~` |
| Utils.PreReleaseTypeToInt | semantic_versioning/utils.py:20-27 | None maps to None; a label maps to a rank in 1..3, never 0, so `or math.inf` never misfires |
| Utils.RankIncreasing | semantic_versioning/utils.py:22-27 | the rank is strictly increasing along a < b < rc and injective |
| Utils.Pad | semantic_versioning/utils.py:43-45 | the result has length max(\|v\|, n), keeps `v` (None read as []) as a prefix, and holds the pad item everywhere after it |
| Utils.PadShort | semantic_versioning/utils.py:43-45 | when the length is at most \|v\|, `pad` returns `v` unchanged |
| Utils.PadIdempotent | semantic_versioning/utils.py:43-45 | padding a padded list to the same length changes nothing |
| Utils.PadStep | semantic_versioning/utils.py:43-45 | one more unit of length appends one more pad item |
| Utils.SimpleEval | semantic_versioning/utils.py:61-69 | `==`, `!=`, `<`, `<=`, `>`, `>=` apply the matching comparison to (left, right); any other operator calls None and fails with TypeError |
| Patterns.ScanPosNum | semantic_versioning/patterns.py:3 | POS_NUM at the start of the text: the whole digit run, or a lone leading 0 (so "01" scans as "0" followed by "1"); the number is "0" or has no leading zero, number and rest give back the text, and it succeeds exactly when the text starts with a digit |
| Patterns.ScanDotted | semantic_versioning/patterns.py:4 | the `(\.POS_NUM)*` groups: every piece is a POS_NUM and the pieces with the rest give back the input |
| Patterns.ScanPreRelease | semantic_versioning/patterns.py:5 | the glued `(a\|b\|rc)POS_NUM` pre-release: a found label is one of a, b, rc with a POS_NUM after it |
| Patterns.ScanTagged | semantic_versioning/patterns.py:5 | `(\.\|-\|_)post POS_NUM` and the same for dev: one separator out of `.-_`, then the tag, then a POS_NUM |
| Patterns.FullMatch | semantic_versioning/patterns.py:4-6 | `re.fullmatch(FULL_VERSION_PATTERN, s)`: every tree returned is well formed and renders to exactly `s` |
| Patterns.FullMatchRender | semantic_versioning/patterns.py:4-6 | every well-formed tree's text is matched, back to that same tree (no backtracking is ever needed) |
| Patterns.FullMatchLanguage | semantic_versioning/patterns.py:4-6 | a string matches exactly when it is the text of some well-formed tree |
| Patterns.FullMatchStartsWithDigit | semantic_versioning/patterns.py:3-6 | every matching string starts with a digit |
| Patterns.GroupDict | semantic_versioning/patterns.py:4-5 | `match.groupdict()` lists the eight named groups in pattern order; `major` holds the major text, `minor` and `patch` the first and second dotted numbers and are None exactly when absent, `versions` the text of every further `.N` (empty when there is none), and the release groups their label and numbers, None exactly when that part is absent |
| Patterns.GroupDictCoreText | semantic_versioning/patterns.py:4 | `major`, `.minor` and `.patch` when present, and `versions` together give back the core text of the match |
| Patterns.OperatorPattern | semantic_versioning/patterns.py:8 | the list comprehension itself, unfolded position by position (alternative i is the value of the i-th operator in enum order); what it means is stated by OperatorPatternCoversOperators |
| Patterns.OperatorPatternCoversOperators | semantic_versioning/patterns.py:8 | every operator's token is an alternative, and every alternative is a valid `Operator(...)` token |
| Patterns.FirstAlternative | semantic_versioning/patterns.py:8-9 | a found split is an alternative followed by a full version; none found means no alternative is followed by a full version |
| Patterns.MatchExpression | semantic_versioning/patterns.py:9 | `re.fullmatch(EXPRESSION_PATTERN, s)`: a match is a valid `Operator(...)` token followed by a full version, and the two give back `s`; no match means no operator's token is followed by a full version |
| Patterns.TokenSplitUnique | semantic_versioning/patterns.py:8-9 | two operator tokens that are both followed by a digit in the same string are the same operator |
| Patterns.MatchExpressionExact | semantic_versioning/patterns.py:9 | when `token ++ version` with a full version, EXPRESSION_PATTERN matches with that token and that version text |
| Patterns.MatchExpressionNone | semantic_versioning/patterns.py:9 | when no token is followed by a full version, EXPRESSION_PATTERN does not match |
| Patterns.Rejects | semantic_versioning/patterns.py:4-6 | when the scan of every part leaves text over, the full match fails |
| Patterns.AcceptsZero | tests/test_semantic_version.py:75 | "0" is valid |
| Patterns.AcceptsMinor | tests/test_semantic_version.py:76 | "0.5" is valid |
| Patterns.AcceptsBeta | tests/test_semantic_version.py:77 | "0.5b4" is valid |
| Patterns.AcceptsTail | tests/test_semantic_version.py:78 | "3.4.1.4.6" is valid |
| Patterns.AcceptsAllParts | tests/test_semantic_version.py:79 | "3.4.1.4.6rc4.post134444-dev0" is valid |
| Patterns.AcceptsAlphaDev | tests/test_semantic_version.py:80 | "3.4.1.4.6a4.dev0" is valid |
| Patterns.AcceptsPost | tests/test_semantic_version.py:81 | "3.4.post0" is valid |
| Patterns.RejectsLeadingZero | tests/test_semantic_version.py:85 | "1.01.0" is not valid: POS_NUM refuses a leading zero |
| Patterns.RejectsPreAfterDev | tests/test_semantic_version.py:87 | "1.0.9.dev1a4" is not valid: no pre-release after the dev-release |
| Patterns.RejectsPostAfterDev | tests/test_semantic_version.py:89 | "1.0.9.dev1.post4" is not valid: no post-release after the dev-release |
| Patterns.RejectsUnknownLabel | tests/test_semantic_version.py:91 | "1.0.9c4" is not valid: c is not a pre-release label |
| Patterns.RejectsSeparatedLabel | tests/test_semantic_version.py:93 | "1.0.9.a4" is not valid: the pre-release label takes no separator |
| SemanticVersions.Validate | semantic_versioning/semantic_version.py:65-67 | `validate` holds exactly when the text is the rendering of some well-formed version tree, that is, exactly the language of FULL_VERSION_PATTERN |
| SemanticVersions.ParseVersion | semantic_versioning/semantic_version.py:45-50 | parse succeeds exactly when `validate` holds, and otherwise fails with InvalidVersion of the input |
| SemanticVersions.FromText | semantic_versioning/semantic_version.py:52-63 | the fields of a match never include `versions == []`: groups that did not take part stay None |
| SemanticVersions.LabelOf | semantic_versioning/semantic_version.py:22 | the captured pre_release_type text names its label, and every label of the grammar is one |
| SemanticVersions.IntList | semantic_versioning/semantic_version.py:60 | `[int(w) for w in ...]`: one number per piece, each the decimal value of its piece |
| SemanticVersions.Parse | semantic_versioning/semantic_version.py:28-63 | the `parse` method, loop included, returns `ParseVersion(version)` whatever the separator: the discarded `replace` has no effect |
| SemanticVersions.StoreGroups | semantic_versioning/semantic_version.py:52-61 | the loop over `groupdict()` leaves the dictionary that storing every truthy group in order gives |
| SemanticVersions.GroupsConvertible | semantic_versioning/semantic_version.py:53-60 | every truthy group of a match converts: `int(v)` on the numeric groups and the digit pieces of `versions` |
| SemanticVersions.StoreMatch | semantic_versioning/semantic_version.py:52-61 | the loop over the groups of a match builds the dictionary of that match's present fields |
| SemanticVersions.Construct | semantic_versioning/semantic_version.py:63 | `cls(**version_dict)`: `major` is the stored number; every other field is the stored number or list when its key is present and None when the key is absent |
| SemanticVersions.ConstructMatch | semantic_versioning/semantic_version.py:63 | `cls(**version_dict)` on that dictionary is the record the match describes |
| SemanticVersions.GroupsConstruct | semantic_versioning/semantic_version.py:52-63 | the dictionary the loop builds has `major`, and the record built from it is the one the match describes |
| SemanticVersions.SplitDotted | semantic_versioning/semantic_version.py:60 | splitting the `versions` group on "." gives an empty piece, then the numbers |
| SemanticVersions.NonEmptyDotted | semantic_versioning/semantic_version.py:60 | the `if w` filter drops exactly the empty leading piece |
| SemanticVersions.Rendering | semantic_versioning/semantic_version.py:78-86 | `to_string` fails with TypeError exactly when `versions` is None; otherwise, with ".", the text starts with `str(major)`, and with a separator that holds no ".", every "." has been replaced |
| SemanticVersions.AppendDotted | semantic_versioning/semantic_version.py:79-80 | the first loop appends "." and the number for each truthy entry, in order |
| SemanticVersions.AppendDigits | semantic_versioning/semantic_version.py:81-82 | the second loop appends the bare digits of each truthy release number, in order |
| SemanticVersions.ToString | semantic_versioning/semantic_version.py:69-86 | the `to_string` method, loops included, returns what `Rendering` describes |
| SemanticVersions.Eq | semantic_versioning/semantic_version.py:119-129 | `__eq__` holds exactly when the records are equal: no wildcard, so it is reflexive and symmetric and any changed field breaks it |
| SemanticVersions.OrInf | semantic_versioning/semantic_version.py:149-150 | `x or math.inf` is infinity exactly when x is None or 0, and the number x otherwise |
| SemanticVersions.CompareTuple | semantic_versioning/semantic_version.py:145-158 | the key has three core entries, max(length, \|versions\|) padded entries and four release entries |
| SemanticVersions.Lt | semantic_versioning/semantic_version.py:131-143 | `__lt__` never holds between equal versions; a smaller major makes it hold and a larger major makes it fail, whatever follows |
| SemanticVersions.Le | semantic_versioning/semantic_version.py:15 | the derived `<=` holds exactly when `<` holds or the records are equal; a larger major rules it out |
| SemanticVersions.Gt | semantic_versioning/semantic_version.py:15 | the derived `>` never holds between equal versions; a larger major makes it hold and a smaller major makes it fail |
| SemanticVersions.Ge | semantic_versioning/semantic_version.py:15 | the derived `>=` holds exactly when `>` holds or the records are equal |
| SemanticVersions.Ne | semantic_versioning/semantic_version.py:119-129 | `!=`, the negation of `__eq__`, holds exactly when the records differ |
| VersionOrder.ElemOrder | semantic_versioning/semantic_version.py:147-158 | `<` on key entries (-1, numbers, infinity) is a strict total order |
| SemanticVersions.LexIrreflexive | semantic_versioning/semantic_version.py:141 | tuple `<` is irreflexive |
| VersionOrder.LexTransitive | semantic_versioning/semantic_version.py:141 | tuple `<` is transitive |
| VersionOrder.LexTrichotomy | semantic_versioning/semantic_version.py:141 | of two tuples, exactly one of equal, smaller, greater holds |
| VersionOrder.LexCommonPrefix | semantic_versioning/semantic_version.py:141 | a common prefix does not change the tuple comparison |
| VersionOrder.PadIndependent | semantic_versioning/semantic_version.py:140-151 | comparing and equating the two keys give the same answer for every pad length at least both `versions` lengths |
| VersionOrder.LtAtLength | semantic_versioning/semantic_version.py:140-143 | `__lt__` is the key comparison at any such pad length |
| VersionOrder.LtIrreflexive | semantic_versioning/semantic_version.py:131-143 | no version is `<` itself |
| VersionOrder.LtAsymmetric | semantic_versioning/semantic_version.py:131-143 | `a < b` excludes `b < a` |
| VersionOrder.LtTransitive | semantic_versioning/semantic_version.py:131-143 | `<` is transitive |
| VersionOrder.TiedKeys | semantic_versioning/semantic_version.py:140-158 | neither is `<` the other exactly when the padded keys are equal |
| VersionOrder.TiedTransitive | semantic_versioning/semantic_version.py:140-158 | being tied is transitive, so `<` is a strict weak order |
| VersionOrder.ReleaseDecides | semantic_versioning/semantic_version.py:152-157 | with the same numeric core, the release part of the key alone decides |
| VersionOrder.PostOrDevBelowPlain | semantic_versioning/semantic_version.py:152-155 | same core: a post- or dev-release sorts below a version without either |
| VersionOrder.DevBelowPost | semantic_versioning/semantic_version.py:154-156 | same core: a dev-release sorts below a post-release without a dev number |
| VersionOrder.PreBelowFinal | semantic_versioning/semantic_version.py:152-153 | same core, neither post nor dev: a pre-release sorts below the final release |
| VersionOrder.PreLabelOrder | semantic_versioning/semantic_version.py:152-153 | same core, neither post nor dev, two different labels: `<` follows a < b < rc, both ways |
| VersionOrder.PreNumberOrder | semantic_versioning/semantic_version.py:155 | same core and label, truthy numbers: `<` exactly when the pre-release number is smaller |
| VersionOrder.DevNumberOrder | semantic_versioning/semantic_version.py:157 | same core, truthy dev numbers: `<` exactly when the dev number is smaller |
| VersionOrder.MajorDecides | semantic_versioning/semantic_version.py:148 | a smaller major is smaller, whatever follows |
| VersionOrder.MinorDecides | semantic_versioning/semantic_version.py:149 | same major: a truthy minor sorts below a missing or zero minor, and below a larger one |
| VersionOrder.PatchDecides | semantic_versioning/semantic_version.py:150 | same major and minor: the same for patch |
| VersionOrder.TailDecides | semantic_versioning/semantic_version.py:151 | same core: the first differing `versions` entry decides, and an entry beats the infinity padding after a shorter list |
| VersionOrder.ZeroCountsAsMissing | semantic_versioning/semantic_version.py:149-157 | two versions that differ only in a zero against a missing minor, patch, pre-, post- or dev-release number are tied |
| VersionOrder.ZeroMinorBothGreater | semantic_versioning/semantic_version.py:15 | (1, 0) and (1) are unequal and tied, so the derived `>` holds both ways and `<=` neither way |
| VersionOrder.EqualVersionsCompare | semantic_versioning/semantic_version.py:15 | equal versions are tied, `<=` and `>=` each other, and neither `<` nor `>` |
| VersionOrder.GtConverse | semantic_versioning/semantic_version.py:15 | the derived `a > b` is `b < a`, or a tie between unequal versions |
| VersionOrder.GeIsGtOrEq | semantic_versioning/semantic_version.py:15 | the derived `>=` is `>` or `==` |
| VersionOrder.LeTransitive | semantic_versioning/semantic_version.py:15 | the derived `<=` is transitive |
| VersionOrder.CoreExamples | tests/test_semantic_version.py:98-104 | the tests' comparisons of numeric cores hold |
| VersionOrder.TailExamples | tests/test_semantic_version.py:105-106 | the tests' comparisons of `versions` lists hold |
| VersionOrder.ReleaseExamples | tests/test_semantic_version.py:109-133 | the tests' comparisons of pre-, post- and dev-releases hold |
| VersionOrder.NoneInf | semantic_versioning/semantic_version.py:149-150 | the intended `x if x is not None else math.inf`: infinity exactly for None, and the number otherwise, zero included |
| VersionOrder.IntendedLt | semantic_versioning/semantic_version.py:149-150 | the corrected `__lt__` never holds between equal versions, and the major decides when the majors differ |
| VersionOrder.IntendedAgrees | semantic_versioning/semantic_version.py:149-150 | the corrected order equals `__lt__` whenever no minor or patch is 0 |
| VersionOrder.IntendedIrreflexive | semantic_versioning/semantic_version.py:149-150 | the corrected order is irreflexive |
| VersionOrder.IntendedAsymmetric | semantic_versioning/semantic_version.py:149-150 | the corrected order is asymmetric |
| VersionOrder.IntendedTransitive | semantic_versioning/semantic_version.py:149-150 | the corrected order is transitive |
| VersionOrder.IntendedPatchOrder | semantic_versioning/semantic_version.py:150 | corrected order, same major and minor, two different patches: smaller exactly when the patch is smaller, 0 included |
| VersionOrder.IntendedMinorOrder | semantic_versioning/semantic_version.py:149 | corrected order, same major, two different minors: smaller exactly when the minor is smaller, 0 included |
| VersionOrder.ZeroPatchAboveOne | semantic_versioning/semantic_version.py:150 | as written 1.2.0 sorts above 1.2.1 (`<` one way, `>` the other); in the corrected order 1.2.0 is below 1.2.1 |
| Stringify.RenderingNoRelease | semantic_versioning/semantic_version.py:78-86 | `Rendering` unfolded for a version without release parts, used by the examples: `to_string` is the major and the truthy dotted numbers, with "." replaced by the separator |
| Stringify.DotTextContent | semantic_versioning/semantic_version.py:79-80 | the first loop writes digits and "." alone, one "." per truthy entry |
| Stringify.DigitTextDigits | semantic_versioning/semantic_version.py:81-82 | the second loop writes bare digits |
| Stringify.RenderingDotContent | semantic_versioning/semantic_version.py:78-83 | a successful `to_string(".")` holds digits and "." alone, so no label, "post" or "dev" survives, and one "." per truthy minor, patch and `versions` entry, so zero and missing numbers are dropped |
| Stringify.RenderingDot | semantic_versioning/semantic_version.py:78-83 | `Rendering` unfolded for separator ".", used by the examples: `to_string` is the major, the truthy dotted numbers, then the bare truthy release digits |
| Stringify.ToStringWithoutList | semantic_versioning/semantic_version.py:79 | `SemanticVersion(1).to_string()` raises TypeError, where the test expects "1" |
| Stringify.ToStringDropsZero | semantic_versioning/semantic_version.py:79-80 | `SemanticVersion(1, 12, 0, [4])` renders as "1.12.4" and "1-12-4", where the tests expect "1.12.0.4" and "1-12-0-4" |
| Stringify.ToStringDropsLabel | semantic_versioning/semantic_version.py:81-82 | 1a3 (with `versions=[]`) renders as "13", with no label |
| Stringify.ToStringOfThirteen | semantic_versioning/semantic_version.py:78-82 | `SemanticVersion(13, versions=[])` renders as "13" too, so the rendering loses information |
| Stringify.ParsedShortVersionsFail | semantic_versioning/semantic_version.py:52-63 | every parse with at most minor and patch has `versions` None, so printing it raises TypeError: no parse/print round trip |
| Stringify.ParsedAreShaped | semantic_versioning/semantic_version.py:52-63 | a parsed record has minor before patch before `versions`, `versions` never [], and label and number together |
| Stringify.TextOf | tests/test_semantic_version.py:137-155 | the tree of the expected rendering is well formed |
| Stringify.Canonical | tests/test_semantic_version.py:137-155 | the expected rendering with "." starts with the major's digits; with a separator that holds no ".", no "." is left in it |
| Stringify.CanonicalIsRender | tests/test_semantic_version.py:137-155 | the expected rendering with "." is the grammar's text of that tree |
| Stringify.FromTextOf | semantic_versioning/semantic_version.py:52-63 | parsing that tree's fields gives back every record of the parsed shape |
| Stringify.CanonicalRoundTrip | tests/test_semantic_version.py:137-155 | the expected rendering parses back to the same record, for every record `parse` can return |
| Stringify.ParseCanonicalParse | semantic_versioning/semantic_version.py:28-63 | parse, then the expected rendering, then parse gives the first parse again |
| Stringify.CanonicalMajor | tests/test_semantic_version.py:138 | the expected rendering of (1) is "1" |
| Stringify.CanonicalMinor | tests/test_semantic_version.py:139 | the expected rendering of (1, 12) is "1.12" |
| Stringify.CanonicalPatch | tests/test_semantic_version.py:140 | the expected rendering of (1, 12, 0) is "1.12.0" |
| Stringify.CanonicalList | tests/test_semantic_version.py:141 | the expected rendering of (1, 12, 0, [4]) is "1.12.0.4" |
| Stringify.CanonicalSeparator | tests/test_semantic_version.py:148 | with separator "-" it is "1-12-0-4" |
| Stringify.CanonicalPreRelease | tests/test_semantic_version.py:152 | the expected rendering of 1 with pre-release a3 is "1a3" |
| Stringify.CanonicalZeroPreRelease | tests/test_semantic_version.py:153 | the expected rendering of 1.12 with pre-release b0 is "1.12b0" |
| Stringify.CanonicalPostRelease | tests/test_semantic_version.py:154 | the expected rendering of 1.12.0 with post-release 4 is "1.12.0.post4" |
| Stringify.CanonicalDevRelease | tests/test_semantic_version.py:155 | the expected rendering of 1.12.0.4.5 with dev-release 1 is "1.12.0.4.5.dev1" |
| Stringify.ParseSimpleExamples | tests/test_semantic_version.py:48-52 | "1", "1.0", "1.12.0", "3.4.1.4", "3.4.1.4.6" parse to (1), (1, 0), (1, 12, 0), (3, 4, 1, [4]), (3, 4, 1, [4, 6]) |
| Stringify.ParseReleaseExamples | tests/test_semantic_version.py:56-62 | "1.post12" parses to post-release 12, "1.3a3" to (1, 3) with pre-release a3 |
| Stringify.ParseDashDev | tests/test_semantic_version.py:55 | "1-dev1" parses to (1) with dev-release 1 |
| Stringify.ParseUnderscoreDev | tests/test_semantic_version.py:63-70 | "1.3.5a3_dev1" parses to (1, 3, 5) with pre-release a3 and dev-release 1 |
| Specifiers.ParseExpression | semantic_versioning/specifier.py:32-37 | a parsed expression's token prefixes the text and its version is the parse of the rest; a failure is NoExpressionMatch of the text |
| Specifiers.ParseExpressionExact | semantic_versioning/specifier.py:32-35 | a token followed by a valid version parses to that operator and the parse of that version |
| Specifiers.ParseExpressionFails | semantic_versioning/specifier.py:36-37 | when no token is followed by a valid version, parsing fails with NoExpressionMatch |
| Specifiers.Complies | semantic_versioning/specifier.py:50-56 | `complies` fails exactly for `===`, with NotImplemented |
| Specifiers.CompliesRelations | semantic_versioning/specifier.py:55-56 | `==`, `!=`, `<`, `<=`, `>`, `>=` comply as the matching relation, `<=`, `>`, `>=` in their total_ordering form |
| Specifiers.CompatibleIsEquality | semantic_versioning/specifier.py:51-52 | `~=` complies exactly when the version equals the bound |
| Specifiers.ParseSpecifier | semantic_versioning/specifier.py:77-78 | parsing succeeds exactly when every comma-separated piece parses, and then with one expression per piece (never none), the i-th being the parse of the i-th piece |
| Specifiers.ParseSpecifierFirstFailure | semantic_versioning/specifier.py:78 | a failing parse raises NoExpressionMatch of the first piece that does not parse |
| Specifiers.EmptySpecifierFails | semantic_versioning/specifier.py:77-78 | "" is not a specifier: its one piece matches no expression |
| Specifiers.SpecifierComplies | semantic_versioning/specifier.py:80-91 | `Specifier.complies` is True exactly when every expression of the specifier complies |
| Specifiers.AllComply | semantic_versioning/specifier.py:91 | `all(...)` is True exactly when every expression complies, so no expression at all complies |
| Specifiers.ShortCircuit | semantic_versioning/specifier.py:91 | the first False ends the evaluation, whatever follows, even a `===` |
| Specifiers.Conjunction | semantic_versioning/specifier.py:77-91 | "e1,e2" parses to the two expressions and complies exactly when both do |
| Specifiers.SingleExpression | semantic_versioning/specifier.py:77-78 | text without a comma is the specifier of its one expression |
| Specifiers.ParseOneTwoOne | tests/test_specifier.py:6 | "1.2.1" parses to (1, 2, 1) |
| Specifiers.BoundOneTwoOne | tests/test_specifier.py:6-13 | a token followed by "1.2.1" is the specifier of that one expression |
| Specifiers.CandidatesAgainstBound | tests/test_specifier.py:6-13 | 1.2.1 is below both 1.2.3 and 1.2.0 (the zero patch counts as missing), and equals neither |
| Specifiers.GreaterExamples | tests/test_specifier.py:6-7 | ">1.2.1" admits 1.2.3, and as written also admits 1.2.0 |
| Specifiers.LessExamples | tests/test_specifier.py:9-10 | "<1.2.1" refuses 1.2.3, and as written also refuses 1.2.0 |
| Specifiers.EqualExamples | tests/test_specifier.py:12-13 | "==1.2.1" admits 1.2.1 and refuses 1.2.3 |
| Wrappers.MapResult | semantic_versioning/specifier.py:78 | a successful comprehension has one value per input, each the success of its call |
| Wrappers.MapResultSucceeds | semantic_versioning/specifier.py:78 | the comprehension succeeds exactly when every call does |
| Wrappers.MapResultFirstFailure | semantic_versioning/specifier.py:78 | a failing comprehension raises what its first failing call raises |
| Strings.NatToString | semantic_versioning/semantic_version.py:78 | `str(n)` is a non-empty digit string that starts with 0 only when it is "0" |
| Strings.DecimalValue | semantic_versioning/semantic_version.py:58 | `int(s)` of a digit string is 0 exactly when every digit is 0 |
| Strings.Split | semantic_versioning/specifier.py:77 | `str.split` gives at least one piece, and no piece holds the separator |
| Strings.Replace | semantic_versioning/semantic_version.py:84-85 | `replace(".", separator)` with a separator that holds no "." leaves no "." |
| Strings.SplitJoin | semantic_versioning/specifier.py:77 | `str.split` on a join of separator-free pieces gives back those pieces |
| Strings.JoinSplit | semantic_versioning/specifier.py:77 | joining the pieces of `str.split` gives back the text |
| Strings.NatToStringOfDecimalValue | semantic_versioning/semantic_version.py:58 | `str(int(s))` is `s` for a digit string without a leading zero |
| Strings.DecimalValueOfNatToString | semantic_versioning/semantic_version.py:78 | `int(str(n))` is `n` |

## Left out

- The `semversion/` package is not part of this model. It is a broken, superseded copy of the core: its imports do not resolve and its `Specifier.parse` returns None.
- `print(ct)` in `__compare_tuple` is console output, and is left out.
- `__hash__` is Python's string hash of `to_string()`, and is left out.
- `__str__` is `to_string()` with the default separator. It has no member of its own.
- The regular expression engine is not modelled. This grammar needs no backtracking, and its matches are described by the scanner `Patterns.FullMatch`.
- Python's `\d` also matches non-ASCII Unicode digits. The model admits only the ASCII digits 0-9, so it does not capture `int()` of such digits.
- The exceptions are failure values, not exception classes. `parse` raises an AssertionError holding a message tuple; the model keeps only the offending input, not the message text.
- The `isinstance` check in `__eq__` is about dynamic typing. Both operands are always versions in the model.
- `math.inf` is the key entry `Inf`, and -1 is `Neg`. No floating-point arithmetic takes place.
- Version fields are natural numbers. The dataclass accepts negative or non-integer values, but `parse` never produces them.
- `validate` is defined twice in the source, with the same behaviour. It is modelled once, as `SemanticVersions.Validate`.
- SemanticVersions.StoreGroups: the dictionary the loop fills is a local `map` value, not a Python dict shared by reference.
- SemanticVersions.ToString: string `+=` on a local value, with no sharing.
- Stringify.Canonical: it renders a pre-release number only together with its label, because `parse` never produces one without the other.
- VersionOrder.IntendedHead: the corrected order replaces `or math.inf` only for minor and patch. The zero pre-, post- and dev-release numbers keep the as-written treatment.
- The `Specifiers` module compares with the as-written `__lt__`, not the corrected order.
- The equality tests at tests/test_semantic_version.py:7-43 follow from `SemanticVersions.Eq`'s contract, and have no example lemma of their own.

## Findings

| source | as written | input that shows it | evidently intended | confidence | as-written member | corrected member |
|---|---|---|---|---|---|---|
| semantic_versioning/semantic_version.py:78-86 | `to_string` filters out falsy numbers, appends bare release digits and concatenates `self.versions`, which fails when it is None | `SemanticVersion(1).to_string()` raises TypeError; `SemanticVersion(1, 12, 0, [4])` gives "1.12.4" (tests/test_semantic_version.py:138, 141 expect "1" and "1.12.0.4") | every present number including 0, the labelled pre-release, ".postN" and ".devN", as tests/test_semantic_version.py:137-155 expect; then parse(print(v)) == v | not executed | Stringify.ToStringWithoutList, Stringify.ToStringDropsZero, Stringify.ToStringDropsLabel | Stringify.CanonicalRoundTrip |
| semantic_versioning/semantic_version.py:149-150 | `v.minor or math.inf` and `v.patch or math.inf` map a zero minor or patch to infinity, like a missing one | `Specifier.parse(">1.2.1").complies(SemanticVersion(1, 2, 0))` is True and `Specifier.parse("<1.2.1").complies(SemanticVersion(1, 2, 0))` is False, against tests/test_specifier.py:7 and 9 | `math.inf` only for None (`x if x is not None else math.inf`), so that 1.2.0 < 1.2.1 | not executed | Specifiers.GreaterExamples, Specifiers.LessExamples, VersionOrder.ZeroPatchAboveOne | VersionOrder.IntendedPatchOrder, VersionOrder.IntendedTransitive |
