/** The version grammar of patterns.py as a hand-written recogniser.

    The regular expressions compose POS_NUM into a numeric core followed by a
    release suffix, FULL_VERSION_PATTERN, and prefix it with one operator
    token, EXPRESSION_PATTERN. Both are used with `re.fullmatch`. The grammar
    needs no backtracking: a digit run is always taken whole, because nothing
    that may follow a number starts with a digit, and every optional part is
    recognised by its first characters. `FullMatch` scans a string once and
    returns the syntax tree of the match; `Render` is the grammar read the
    other way, as the text each tree stands for. `FullMatch`'s own contract
    (every tree it returns is well formed and renders to the input) and the
    lemma `FullMatchRender` (every well-formed tree's text is matched back
    to that tree) show that the two agree on every string. */
module Patterns {
  import opened Wrappers
  import opened Strings
  import Flags

  /** POS_NUM = (0|[1-9]\d*): zero, or digits without a leading zero. */
  predicate IsPosNum(d: string) {
    |d| > 0 && AllDigits(d) && (d[0] == '0' ==> |d| == 1)
  }

  predicate StartsWithDigit(s: string) {
    |s| > 0 && IsDigit(s[0])
  }

  /** The separators of (\.|-|_) before `post` and `dev`. */
  const Separators: string := ".-_"

  /** The pre-release labels of (a|b|rc). */
  predicate IsLabel(kind: string) {
    kind == "a" || kind == "b" || kind == "rc"
  }

  // ---------------------------------------------------------------------
  // Scanning

  /** The length of the run of digits `s` starts with. */
  function DigitRunLength(s: string): (n: nat)
    ensures n <= |s|
    ensures forall i :: 0 <= i < n ==> IsDigit(s[i])
    ensures n == |s| || !IsDigit(s[n])
    decreases |s|
  {
    if s != [] && IsDigit(s[0]) then 1 + DigitRunLength(s[1..]) else 0
  }

  /** POS_NUM at the start of `s`: the number's text and what follows it.
      It fails exactly when `s` does not start with a digit. */
  function ScanPosNum(s: string): (r: Option<(string, string)>)
    ensures r.Some? ==> IsPosNum(r.value.0) && r.value.0 + r.value.1 == s
    ensures r.Some? <==> StartsWithDigit(s)
    ensures r.Some? && r.value.0 != "0" ==> !StartsWithDigit(r.value.1)
  {
    if s == [] then None
    else if s[0] == '0' then
      assert s == "0" + s[1..];
      Some(("0", s[1..]))
    else if '1' <= s[0] <= '9' then
      var n := DigitRunLength(s);
      assert s == s[..n] + s[n..];
      Some((s[..n], s[n..]))
    else None
  }

  /** The text of zero or more `.N` groups. */
  function Dotted(numbers: seq<string>): string
    decreases |numbers|
  {
    if numbers == [] then "" else "." + numbers[0] + Dotted(numbers[1..])
  }

  /** (\.POS_NUM)* at the start of `s`, taken greedily. */
  function ScanDotted(s: string): (r: (seq<string>, string))
    ensures forall i :: 0 <= i < |r.0| ==> IsPosNum(r.0[i])
    ensures Dotted(r.0) + r.1 == s
    decreases |s|
  {
    if |s| > 0 && s[0] == '.' && StartsWithDigit(s[1..]) then
      var number := ScanPosNum(s[1..]).value;
      var more := ScanDotted(number.1);
      DottedCons(number.0, more.0, more.1);
      assert s == ['.'] + s[1..];
      ([number.0] + more.0, more.1)
    else ([], s)
  }

  lemma DottedCons(d: string, ds: seq<string>, rest: string)
    ensures Dotted([d] + ds) + rest == ['.'] + (d + (Dotted(ds) + rest))
  {
    assert ([d] + ds)[1..] == ds;
  }

  /** The pre-release label `s` starts with, or "" for none. */
  function LabelAt(s: string): (kind: string)
    ensures kind == "" || (IsLabel(kind) && kind <= s)
  {
    if |s| > 0 && (s[0] == 'a' || s[0] == 'b') then [s[0]]
    else if |s| > 1 && s[..2] == "rc" then "rc"
    else ""
  }

  /** The text of an optional (a|b|rc)POS_NUM. */
  function PreText(pre: Option<(string, string)>): string {
    if pre.None? then "" else pre.value.0 + pre.value.1
  }

  /** ((?P<pre_release_type>a|b|rc)(?P<pre_release>POS_NUM))? at the start of `s`. */
  function ScanPreRelease(s: string): (r: (Option<(string, string)>, string))
    ensures r.0.Some? ==> IsLabel(r.0.value.0) && IsPosNum(r.0.value.1)
    ensures PreText(r.0) + r.1 == s
  {
    var kind := LabelAt(s);
    if kind != "" && ScanPosNum(s[|kind|..]).Some? then
      var (d, rest) := ScanPosNum(s[|kind|..]).value;
      assert s == kind + s[|kind|..];
      (Some((kind, d)), rest)
    else (None, s)
  }

  /** The text of an optional (\.|-|_)<tag>POS_NUM. */
  function TagText(part: Option<(char, string)>, tag: string): string {
    if part.None? then "" else [part.value.0] + tag + part.value.1
  }

  /** ((\.|-|_)<tag>(?P<..>POS_NUM))? at the start of `s`, for the tags `post` and `dev`. */
  function ScanTagged(s: string, tag: string): (r: (Option<(char, string)>, string))
    ensures r.0.Some? ==> r.0.value.0 in Separators && IsPosNum(r.0.value.1)
    ensures TagText(r.0, tag) + r.1 == s
  {
    if |s| > |tag| && s[0] in Separators && s[1..|tag| + 1] == tag
       && ScanPosNum(s[|tag| + 1..]).Some?
    then
      var (d, rest) := ScanPosNum(s[|tag| + 1..]).value;
      assert s == [s[0]] + s[1..|tag| + 1] + s[|tag| + 1..];
      (Some((s[0], d)), rest)
    else (None, s)
  }

  // ---------------------------------------------------------------------
  // The syntax tree of a full version and the text it stands for

  /** A match of FULL_VERSION_PATTERN: the major number, every further `.N`
      of the numeric core in order, the optional pre-release (kind, number),
      and the optional post- and dev-release (separator, number). */
  datatype VersionText = VersionText(
    major: string,
    dotted: seq<string>,
    pre: Option<(string, string)>,
    post: Option<(char, string)>,
    dev: Option<(char, string)>)

  predicate WellFormed(t: VersionText) {
    && IsPosNum(t.major)
    && (forall i :: 0 <= i < |t.dotted| ==> IsPosNum(t.dotted[i]))
    && (t.pre.Some? ==> IsLabel(t.pre.value.0) && IsPosNum(t.pre.value.1))
    && (t.post.Some? ==> t.post.value.0 in Separators && IsPosNum(t.post.value.1))
    && (t.dev.Some? ==> t.dev.value.0 in Separators && IsPosNum(t.dev.value.1))
  }

  /** RELEASE_PATTERN's text: pre-release, then post-release, then dev-release. */
  function ReleaseText(t: VersionText): string {
    PreText(t.pre) + (TagText(t.post, "post") + TagText(t.dev, "dev"))
  }

  /** FULL_VERSION_PATTERN's text: VERSION_PATTERN, then RELEASE_PATTERN. */
  function Render(t: VersionText): string {
    t.major + (Dotted(t.dotted) + ReleaseText(t))
  }

  /** `re.fullmatch(FULL_VERSION_PATTERN, s)`: the tree of the match, if the
      whole string matches. Whatever it returns is well formed and renders
      back to `s`. */
  function FullMatch(s: string): (r: Option<VersionText>)
    ensures r.Some? ==> WellFormed(r.value) && Render(r.value) == s
  {
    match ScanPosNum(s)
    case None => None
    case Some((major, r1)) =>
      var (dotted, r2) := ScanDotted(r1);
      var (pre, r3) := ScanPreRelease(r2);
      var (post, r4) := ScanTagged(r3, "post");
      var (dev, r5) := ScanTagged(r4, "dev");
      if r5 == [] then
        assert TagText(dev, "dev") + r5 == TagText(dev, "dev");
        Some(VersionText(major, dotted, pre, post, dev))
      else None
  }

  // ---------------------------------------------------------------------
  // Completeness: the scanner finds every tree in its rendering

  lemma PosNumOf(d: string, rest: string)
    requires IsPosNum(d) && !StartsWithDigit(rest)
    ensures ScanPosNum(d + rest) == Some((d, rest))
  {
    var s := d + rest;
    assert s[..|d|] == d && s[|d|..] == rest;
    if d[0] != '0' {
      var n := DigitRunLength(s);
    }
  }

  lemma {:induction false} DottedOf(ds: seq<string>, rest: string)
    requires forall i :: 0 <= i < |ds| ==> IsPosNum(ds[i])
    requires !StartsWithDigit(rest)
    requires !(|rest| > 0 && rest[0] == '.' && StartsWithDigit(rest[1..]))
    ensures ScanDotted(Dotted(ds) + rest) == (ds, rest)
    decreases |ds|
  {
    if ds != [] {
      var tail := Dotted(ds[1..]) + rest;
      DottedOf(ds[1..], rest);
      assert !StartsWithDigit(tail) by {
        if ds[1..] != [] {
          DottedCons(ds[1..][0], ds[1..][1..], rest);
          assert [ds[1..][0]] + ds[1..][1..] == ds[1..];
        }
      }
      PosNumOf(ds[0], tail);
      var s := Dotted(ds) + rest;
      DottedCons(ds[0], ds[1..], rest);
      assert [ds[0]] + ds[1..] == ds;
      assert s[1..] == ds[0] + tail;
    } else {
      assert Dotted(ds) + rest == rest;
    }
  }

  lemma LabelAtOf(kind: string, rest: string)
    requires IsLabel(kind)
    ensures LabelAt(kind + rest) == kind
  {
    var s := kind + rest;
    if kind == "rc" {
      assert s[0] == 'r' && s[..2] == kind;
    } else {
      assert s[0] == kind[0] && kind == [kind[0]];
    }
  }

  lemma PreReleaseOf(pre: Option<(string, string)>, rest: string)
    requires pre.Some? ==> IsLabel(pre.value.0) && IsPosNum(pre.value.1)
    requires rest == [] || rest[0] in Separators
    ensures ScanPreRelease(PreText(pre) + rest) == (pre, rest)
  {
    var s := PreText(pre) + rest;
    if pre.Some? {
      var kind, d := pre.value.0, pre.value.1;
      assert s == kind + (d + rest);
      LabelAtOf(kind, d + rest);
      assert s[|kind|..] == d + rest;
      PosNumOf(d, rest);
    } else {
      assert s == rest;
      assert LabelAt(s) == "";
    }
  }

  lemma TaggedStep(sep: char, tag: string, d: string, rest: string)
    requires sep in Separators && IsPosNum(d) && !StartsWithDigit(rest)
    ensures ScanTagged([sep] + tag + d + rest, tag) == (Some((sep, d)), rest)
  {
    var s := [sep] + tag + d + rest;
    assert s[1..|tag| + 1] == tag;
    assert s[|tag| + 1..] == d + rest;
    PosNumOf(d, rest);
  }

  lemma TaggedOf(part: Option<(char, string)>, tag: string, rest: string)
    requires |tag| > 0
    requires part.Some? ==> part.value.0 in Separators && IsPosNum(part.value.1)
    requires rest == [] || rest[0] in Separators
    requires part.None? && rest != [] ==> |rest| > 1 && rest[1] != tag[0]
    ensures ScanTagged(TagText(part, tag) + rest, tag) == (part, rest)
  {
    var s := TagText(part, tag) + rest;
    if part.Some? {
      TaggedStep(part.value.0, tag, part.value.1, rest);
      assert s == [part.value.0] + tag + part.value.1 + rest;
    } else {
      assert s == rest;
      if |s| > |tag| {
        assert s[1..|tag| + 1][0] == rest[1];
      }
    }
  }

  /** What follows the numeric core starts with neither a digit nor `.digit`. */
  lemma ReleaseTextStart(t: VersionText)
    requires WellFormed(t)
    ensures !StartsWithDigit(ReleaseText(t))
    ensures !(|ReleaseText(t)| > 0 && ReleaseText(t)[0] == '.' && StartsWithDigit(ReleaseText(t)[1..]))
  {
    var s := ReleaseText(t);
    if t.pre.Some? {
      assert s[0] == t.pre.value.0[0];
    } else if t.post.Some? {
      assert s == [t.post.value.0] + "post" + t.post.value.1 + TagText(t.dev, "dev");
      assert s[1] == 'p';
    } else if t.dev.Some? {
      assert s == [t.dev.value.0] + "dev" + t.dev.value.1;
      assert s[1] == 'd';
    } else {
      assert s == [];
    }
  }

  /** Every well-formed tree is found again in its own rendering. */
  lemma FullMatchRender(t: VersionText)
    requires WellFormed(t)
    ensures FullMatch(Render(t)) == Some(t)
  {
    var devText := TagText(t.dev, "dev");
    var tagged := TagText(t.post, "post") + devText;
    MajorStep(t);
    DottedStep(t);
    PreStep(t);
    PostStep(t);
    DevStep(t);
    FullMatchSteps(Render(t), t, Dotted(t.dotted) + ReleaseText(t), ReleaseText(t), tagged, devText);
  }

  lemma MajorStep(t: VersionText)
    requires WellFormed(t)
    ensures ScanPosNum(Render(t)) == Some((t.major, Dotted(t.dotted) + ReleaseText(t)))
  {
    var release := ReleaseText(t);
    var core := Dotted(t.dotted) + release;
    ReleaseTextStart(t);
    assert !StartsWithDigit(core) by {
      if t.dotted != [] {
        DottedCons(t.dotted[0], t.dotted[1..], release);
        assert [t.dotted[0]] + t.dotted[1..] == t.dotted;
      } else {
        assert core == release;
      }
    }
    PosNumOf(t.major, core);
  }

  lemma DottedStep(t: VersionText)
    requires WellFormed(t)
    ensures ScanDotted(Dotted(t.dotted) + ReleaseText(t)) == (t.dotted, ReleaseText(t))
  {
    ReleaseTextStart(t);
    DottedOf(t.dotted, ReleaseText(t));
  }

  lemma PreStep(t: VersionText)
    requires WellFormed(t)
    ensures ScanPreRelease(ReleaseText(t)) == (t.pre, TagText(t.post, "post") + TagText(t.dev, "dev"))
  {
    var tagged := TagText(t.post, "post") + TagText(t.dev, "dev");
    assert tagged == [] || tagged[0] in Separators;
    PreReleaseOf(t.pre, tagged);
  }

  lemma PostStep(t: VersionText)
    requires WellFormed(t)
    ensures ScanTagged(TagText(t.post, "post") + TagText(t.dev, "dev"), "post") == (t.post, TagText(t.dev, "dev"))
  {
    var devText := TagText(t.dev, "dev");
    assert t.post.None? && devText != [] ==> devText[1] == 'd';
    TaggedOf(t.post, "post", devText);
  }

  lemma DevStep(t: VersionText)
    requires WellFormed(t)
    ensures ScanTagged(TagText(t.dev, "dev"), "dev") == (t.dev, [])
  {
    assert TagText(t.dev, "dev") + [] == TagText(t.dev, "dev");
    TaggedOf(t.dev, "dev", []);
  }

  /** FullMatch, one stage at a time. */
  lemma FullMatchSteps(s: string, t: VersionText, r1: string, r2: string, r3: string, r4: string)
    requires ScanPosNum(s) == Some((t.major, r1))
    requires ScanDotted(r1) == (t.dotted, r2)
    requires ScanPreRelease(r2) == (t.pre, r3)
    requires ScanTagged(r3, "post") == (t.post, r4)
    requires ScanTagged(r4, "dev") == (t.dev, [])
    ensures FullMatch(s) == Some(t)
  {
  }

  /** FULL_VERSION_PATTERN matches exactly the renderings of well-formed trees. */
  lemma FullMatchLanguage(s: string)
    ensures FullMatch(s).Some? <==> exists t :: WellFormed(t) && Render(t) == s
  {
    if t :| WellFormed(t) && Render(t) == s {
      FullMatchRender(t);
    }
  }

  /** A full version always starts with a digit. */
  lemma FullMatchStartsWithDigit(s: string)
    requires FullMatch(s).Some?
    ensures StartsWithDigit(s)
  {
  }

  // ---------------------------------------------------------------------
  // Named groups

  /** The named groups of FULL_VERSION_PATTERN, in the order they occur. */
  datatype GroupName =
    | Major | Minor | Patch | Versions
    | PreReleaseType | PreRelease | PostRelease | DevRelease

  /** The order in which the named groups occur in FULL_VERSION_PATTERN. */
  const GroupOrder: seq<GroupName> :=
    [Major, Minor, Patch, Versions, PreReleaseType, PreRelease, PostRelease, DevRelease]

  /** `match.groupdict()`: each named group with the text it captured, or
      None for a group that did not take part in the match. Greedy matching
      gives the first `.N` of the core to `minor`, the second to `patch` and
      all further ones to `versions`, which captures their text (possibly
      empty). */
  function GroupDict(t: VersionText): (items: seq<(GroupName, Option<string>)>)
    ensures |items| == 8
    ensures forall i :: 0 <= i < 8 ==> items[i].0 == GroupOrder[i]
    ensures items[0].1 == Some(t.major)
    ensures items[1].1.Some? <==> |t.dotted| > 0
    ensures items[2].1.Some? <==> |t.dotted| > 1
    ensures |t.dotted| > 0 ==> items[1].1 == Some(t.dotted[0])
    ensures |t.dotted| > 1 ==> items[2].1 == Some(t.dotted[1])
    ensures |t.dotted| > 2 ==> items[3].1 == Some(Dotted(t.dotted[2..]))
    ensures |t.dotted| <= 2 ==> items[3].1 == Some("")
    ensures items[4].1.Some? <==> t.pre.Some?
    ensures items[5].1.Some? <==> t.pre.Some?
    ensures t.pre.Some? ==> items[4].1 == Some(t.pre.value.0) && items[5].1 == Some(t.pre.value.1)
    ensures items[6].1.Some? <==> t.post.Some?
    ensures t.post.Some? ==> items[6].1 == Some(t.post.value.1)
    ensures items[7].1.Some? <==> t.dev.Some?
    ensures t.dev.Some? ==> items[7].1 == Some(t.dev.value.1)
  {
    [ (Major, Some(t.major)),
      (Minor, if |t.dotted| > 0 then Some(t.dotted[0]) else None),
      (Patch, if |t.dotted| > 1 then Some(t.dotted[1]) else None),
      (Versions, Some(Dotted(if |t.dotted| > 2 then t.dotted[2..] else []))),
      (PreReleaseType, if t.pre.Some? then Some(t.pre.value.0) else None),
      (PreRelease, if t.pre.Some? then Some(t.pre.value.1) else None),
      (PostRelease, if t.post.Some? then Some(t.post.value.1) else None),
      (DevRelease, if t.dev.Some? then Some(t.dev.value.1) else None) ]
  }

  /** The core groups together give back the core's text: `major`, then
      `.minor` and `.patch` when they took part, then `versions`. */
  lemma GroupDictCoreText(t: VersionText)
    ensures var g := GroupDict(t);
      g[0].1.value + (if g[1].1.Some? then "." + g[1].1.value else "")
        + (if g[2].1.Some? then "." + g[2].1.value else "") + g[3].1.value
      == t.major + Dotted(t.dotted)
  {
    var d := t.dotted;
    if |d| > 0 {
      assert Dotted(d) == "." + d[0] + Dotted(d[1..]);
      if |d| > 1 {
        assert Dotted(d[1..]) == "." + d[1] + Dotted(d[2..]);
      } else {
        assert d[1..] == [];
      }
    }
  }

  // ---------------------------------------------------------------------
  // EXPRESSION_PATTERN

  /** OPERATOR_PATTERN: the alternatives "|".join(...) lists, one per member
      of `Operator` in declaration order. */
  function OperatorPattern(): (tokens: seq<string>)
    ensures |tokens| == |Flags.AllOperators|
    ensures forall i :: 0 <= i < |tokens| ==> tokens[i] == Flags.Value(Flags.AllOperators[i])
  {
    seq(|Flags.AllOperators|, i requires 0 <= i < |Flags.AllOperators| => Flags.Value(Flags.AllOperators[i]))
  }

  /** The alternatives are exactly the eight token values. */
  lemma OperatorPatternCoversOperators()
    ensures forall op: Flags.Operator :: Flags.Value(op) in OperatorPattern()
    ensures forall i :: 0 <= i < |OperatorPattern()| ==> Flags.FromValue(OperatorPattern()[i]).Success?
  {
    Flags.EightOperators();
    forall op: Flags.Operator ensures Flags.Value(op) in OperatorPattern() {
      assert op in Flags.AllOperators;
      var i :| 0 <= i < |Flags.AllOperators| && Flags.AllOperators[i] == op;
      assert OperatorPattern()[i] == Flags.Value(op);
    }
    forall i | 0 <= i < |OperatorPattern()| ensures Flags.FromValue(OperatorPattern()[i]).Success? {
      Flags.FromValueOfValue(Flags.AllOperators[i]);
    }
  }

  /** The first alternative, in order, after which the rest of `s` is a full
      version: how a backtracking engine resolves the alternation. */
  function FirstAlternative(tokens: seq<string>, s: string): (r: Option<(string, string)>)
    ensures r.Some? ==> r.value.0 in tokens && r.value.0 + r.value.1 == s && FullMatch(r.value.1).Some?
    ensures r.None? ==> forall i :: 0 <= i < |tokens| ==> !(tokens[i] <= s && FullMatch(s[|tokens[i]|..]).Some?)
    decreases |tokens|
  {
    if tokens == [] then None
    else if tokens[0] <= s && FullMatch(s[|tokens[0]|..]).Some? then
      assert s == tokens[0] + s[|tokens[0]|..];
      Some((tokens[0], s[|tokens[0]|..]))
    else
      var r := FirstAlternative(tokens[1..], s);
      assert forall i :: 1 <= i < |tokens| ==> tokens[i] == tokens[1..][i - 1];
      r
  }

  /** `re.fullmatch(EXPRESSION_PATTERN, s)`: the `operator` and `version` groups. */
  function MatchExpression(s: string): (r: Option<(string, string)>)
    ensures r.Some? ==> Flags.FromValue(r.value.0).Success? && r.value.0 + r.value.1 == s && FullMatch(r.value.1).Some?
    ensures r.None? ==> forall op: Flags.Operator :: !(Flags.Value(op) <= s && FullMatch(s[|Flags.Value(op)|..]).Some?)
  {
    OperatorPatternCoversOperators();
    FirstAlternative(OperatorPattern(), s)
  }

  /** Two token splits of one string that are both followed by a digit are
      the same split, since tokens hold no digit. */
  lemma TokenSplitUnique(op1: Flags.Operator, op2: Flags.Operator, s: string)
    requires Flags.Value(op1) <= s && StartsWithDigit(s[|Flags.Value(op1)|..])
    requires Flags.Value(op2) <= s && StartsWithDigit(s[|Flags.Value(op2)|..])
    ensures op1 == op2
  {
    var t1, t2 := Flags.Value(op1), Flags.Value(op2);
    Flags.TokenChars(op1);
    Flags.TokenChars(op2);
    if |t1| == |t2| {
      assert t1 == s[..|t1|] == t2;
      Flags.ValuesDistinct(op1, op2);
    }
  }

  /** EXPRESSION_PATTERN matches `s` exactly when `s` is some operator's
      token followed by a full version, and then the groups are that token
      and that version text, whatever the order of the alternatives. */
  lemma MatchExpressionExact(s: string, op: Flags.Operator)
    requires Flags.Value(op) <= s && FullMatch(s[|Flags.Value(op)|..]).Some?
    ensures MatchExpression(s) == Some((Flags.Value(op), s[|Flags.Value(op)|..]))
  {
    OperatorPatternCoversOperators();
    var r := MatchExpression(s);
    var i :| 0 <= i < |OperatorPattern()| && OperatorPattern()[i] == Flags.Value(op);
    assert r.Some?;
    var j :| 0 <= j < |OperatorPattern()| && OperatorPattern()[j] == r.value.0;
    var op' := Flags.AllOperators[j];
    assert r.value.0 <= s && r.value.1 == s[|r.value.0|..];
    FullMatchStartsWithDigit(r.value.1);
    FullMatchStartsWithDigit(s[|Flags.Value(op)|..]);
    TokenSplitUnique(op, op', s);
  }

  /** Without such a split the expression does not match. */
  lemma MatchExpressionNone(s: string)
    requires forall op: Flags.Operator :: !(Flags.Value(op) <= s && FullMatch(s[|Flags.Value(op)|..]).Some?)
    ensures MatchExpression(s).None?
  {
  }

  // ---------------------------------------------------------------------
  // The strings of the test suite

  /** A well-formed tree shows that its rendering is accepted. */
  lemma Accepts(t: VersionText, s: string)
    requires WellFormed(t) && Render(t) == s
    ensures FullMatch(s).Some?
  {
    FullMatchRender(t);
  }

  /** A string whose stages leave text over is rejected. */
  lemma Rejects(s: string, major: string, r1: string, dotted: seq<string>, r2: string,
                pre: Option<(string, string)>, r3: string, post: Option<(char, string)>, r4: string,
                dev: Option<(char, string)>, r5: string)
    requires ScanPosNum(s) == Some((major, r1))
    requires ScanDotted(r1) == (dotted, r2)
    requires ScanPreRelease(r2) == (pre, r3)
    requires ScanTagged(r3, "post") == (post, r4)
    requires ScanTagged(r4, "dev") == (dev, r5)
    requires r5 != []
    ensures FullMatch(s).None?
  {
  }

  /** The versions the test suite validates are accepted: "0". */
  lemma AcceptsZero()
    ensures FullMatch("0").Some?
  {
    Accepts(VersionText("0", [], None, None, None), "0");
  }

  /** "0.5" is accepted. */
  lemma AcceptsMinor()
    ensures FullMatch("0.5").Some?
  {
    Accepts(VersionText("0", ["5"], None, None, None), "0.5");
  }

  /** "0.5b4" is accepted. */
  lemma AcceptsBeta()
    ensures FullMatch("0.5b4").Some?
  {
    Accepts(VersionText("0", ["5"], Some(("b", "4")), None, None), "0.5b4");
  }

  /** "3.4.1.4.6" is accepted. */
  lemma AcceptsTail(s: string)
    requires s == "3.4.1.4.6"
    ensures FullMatch(s).Some?
  {
    var t := VersionText("3", ["4", "1", "4", "6"], None, None, None);
    DottedTail();
    assert ReleaseText(t) == [];
    assert Render(t) == "3" + (".4.1.4.6" + []);
    Accepts(t, s);
  }

  /** The dotted numbers of the tests' long versions. */
  lemma DottedTail()
    ensures Dotted(["4", "1", "4", "6"]) == ".4.1.4.6"
  {
    assert ["4", "1", "4", "6"][1..] == ["1", "4", "6"];
    assert ["1", "4", "6"][1..] == ["4", "6"];
    assert ["4", "6"][1..] == ["6"];
    assert ["6"][1..] == [];
  }

  /** "3.4.1.4.6rc4.post134444-dev0" is accepted. */
  lemma AcceptsAllParts(s: string)
    requires s == "3.4.1.4.6rc4.post134444-dev0"
    ensures FullMatch(s).Some?
  {
    var t := VersionText("3", ["4", "1", "4", "6"], Some(("rc", "4")), Some(('.', "134444")), Some(('-', "0")));
    AllPartsText(t, s);
    Accepts(t, s);
  }

  lemma AllPartsText(t: VersionText, s: string)
    requires t == VersionText("3", ["4", "1", "4", "6"], Some(("rc", "4")), Some(('.', "134444")), Some(('-', "0")))
    requires s == "3.4.1.4.6rc4.post134444-dev0"
    ensures WellFormed(t) && Render(t) == s
  {
    LongTailWellFormed(t);
    RenderPieces(t, ".4.1.4.6", "rc4", ".post134444", "-dev0");
    AllPartsString(s);
  }

  lemma AllPartsString(s: string)
    requires s == "3.4.1.4.6rc4.post134444-dev0"
    ensures s == "3" + ".4.1.4.6" + "rc4" + ".post134444" + "-dev0"
  {
  }

  /** "3.4.1.4.6a4.dev0" is accepted. */
  lemma AcceptsAlphaDev(s: string)
    requires s == "3.4.1.4.6a4.dev0"
    ensures FullMatch(s).Some?
  {
    var t := VersionText("3", ["4", "1", "4", "6"], Some(("a", "4")), None, Some(('.', "0")));
    AlphaDevText(t, s);
    Accepts(t, s);
  }

  lemma AlphaDevText(t: VersionText, s: string)
    requires t == VersionText("3", ["4", "1", "4", "6"], Some(("a", "4")), None, Some(('.', "0")))
    requires s == "3.4.1.4.6a4.dev0"
    ensures WellFormed(t) && Render(t) == s
  {
    LongTailWellFormed(t);
    RenderPieces(t, ".4.1.4.6", "a4", [], ".dev0");
    assert s == "3" + ".4.1.4.6" + "a4" + [] + ".dev0";
  }

  /** The trees of the tests' long versions are well formed. */
  lemma LongTailWellFormed(t: VersionText)
    requires t.major == "3" && t.dotted == ["4", "1", "4", "6"]
    requires t.pre == Some(("rc", "4")) || t.pre == Some(("a", "4"))
    requires t.post == None || t.post == Some(('.', "134444"))
    requires t.dev == Some(('-', "0")) || t.dev == Some(('.', "0"))
    ensures WellFormed(t)
  {
    assert IsPosNum("134444");
  }

  /** A tree's text from the texts of its parts. */
  lemma RenderPieces(t: VersionText, dotted: string, pre: string, post: string, dev: string)
    requires t.major == "3" && t.dotted == ["4", "1", "4", "6"] && dotted == ".4.1.4.6"
    requires PreText(t.pre) == pre && TagText(t.post, "post") == post && TagText(t.dev, "dev") == dev
    ensures Render(t) == t.major + dotted + pre + post + dev
  {
    DottedTail();
  }

  /** "3.4.post0" is accepted. */
  lemma AcceptsPost()
    ensures FullMatch("3.4.post0").Some?
  {
    Accepts(VersionText("3", ["4"], None, Some(('.', "0")), None), "3.4.post0");
  }

  /** A leading zero is rejected: "1.01.0". */
  lemma RejectsLeadingZero(s: string)
    requires s == "1.01.0"
    ensures FullMatch(s).None?
  {
    assert s == "1" + ".01.0";
    PosNumOf("1", ".01.0");
    LeadingZeroDotted(".01.0");
    DigitStartsNoRelease("1.0");
    Rejects(s, "1", ".01.0", ["0"], "1.0", None, "1.0", None, "1.0", None, "1.0");
  }

  /** In ".01.0" the dotted numbers stop after ".0". */
  lemma LeadingZeroDotted(d: string)
    requires d == ".01.0"
    ensures ScanDotted(d) == (["0"], "1.0")
  {
    var rest := d[1..];
    assert d[0] == '.' && rest == "01.0" && rest[0] == '0';
    assert rest[1..] == "1.0";
    assert ScanPosNum(rest) == Some(("0", "1.0"));
    var tail := "1.0";
    assert tail[0] != '.';
    assert ScanDotted(tail) == ([], tail);
    assert ["0"] + [] == ["0"];
  }

  /** Text that starts with a digit starts no release part. */
  lemma DigitStartsNoRelease(r: string)
    requires r == "1.0"
    ensures ScanPreRelease(r) == (None, r)
    ensures ScanTagged(r, "post") == (None, r)
    ensures ScanTagged(r, "dev") == (None, r)
  {
    assert LabelAt(r) == "";
    assert r[0] !in Separators;
  }

  /** A pre-release after the dev-release is rejected: "1.0.9.dev1a4". */
  lemma RejectsPreAfterDev(s: string)
    requires s == "1.0.9.dev1a4"
    ensures FullMatch(s).None?
  {
    RejectsAfterDev(s, ".dev1a4", "a4");
  }

  /** A post-release after the dev-release is rejected: "1.0.9.dev1.post4". */
  lemma RejectsPostAfterDev(s: string)
    requires s == "1.0.9.dev1.post4"
    ensures FullMatch(s).None?
  {
    RejectsAfterDev(s, ".dev1.post4", ".post4");
  }

  /** An unknown pre-release label is rejected: "1.0.9c4". */
  lemma RejectsUnknownLabel(s: string)
    requires s == "1.0.9c4"
    ensures FullMatch(s).None?
  {
    RejectsAfterCore(s, "c4");
  }

  /** A separator before the pre-release label is rejected: "1.0.9.a4". */
  lemma RejectsSeparatedLabel(s: string)
    requires s == "1.0.9.a4"
    ensures FullMatch(s).None?
  {
    RejectsAfterCore(s, ".a4");
  }

  /** "1.0.9" and a dev-release, followed by text that is left over. */
  lemma RejectsAfterDev(s: string, suffix: string, left: string)
    requires s == "1.0.9" + suffix
    requires suffix == ".dev1" + left && left != [] && !StartsWithDigit(left)
    ensures FullMatch(s).None?
  {
    assert suffix[0] == '.' && suffix[1] == 'd';
    CoreIs109(suffix);
    DevThenLeft(suffix, left);
    Rejects(s, "1", ".0.9" + suffix, ["0", "9"], suffix, None, suffix, None, suffix, Some(('.', "1")), left);
  }

  /** ".dev1" and what follows it: no pre- or post-release, a dev-release. */
  lemma DevThenLeft(suffix: string, left: string)
    requires suffix == ".dev1" + left && !StartsWithDigit(left)
    ensures ScanPreRelease(suffix) == (None, suffix)
    ensures ScanTagged(suffix, "post") == (None, suffix)
    ensures ScanTagged(suffix, "dev") == (Some(('.', "1")), left)
  {
    assert LabelAt(suffix) == "";
    assert suffix[1..5][0] == 'd';
    TaggedStep('.', "dev", "1", left);
    assert ['.'] + "dev" + "1" + left == suffix;
  }

  /** "1.0.9" followed by text that starts no release part. */
  lemma RejectsAfterCore(s: string, suffix: string)
    requires s == "1.0.9" + suffix
    requires suffix == "c4" || suffix == ".a4"
    ensures FullMatch(s).None?
  {
    assert |suffix| > 1 && !IsDigit(suffix[0]) && !(suffix[0] == '.' && IsDigit(suffix[1]));
    CoreIs109(suffix);
    NoReleasePart(suffix);
    Rejects(s, "1", ".0.9" + suffix, ["0", "9"], suffix, None, suffix, None, suffix, None, suffix);
  }

  /** "c4" and ".a4" start no pre-, post- or dev-release. */
  lemma NoReleasePart(suffix: string)
    requires suffix == "c4" || suffix == ".a4"
    ensures ScanPreRelease(suffix) == (None, suffix)
    ensures ScanTagged(suffix, "post") == (None, suffix)
    ensures ScanTagged(suffix, "dev") == (None, suffix)
  {
    assert LabelAt(suffix) == "";
    assert suffix[1] != 'p' && suffix[1] != 'd';
  }

  /** The numeric core "1.0.9" in front of text that starts with neither a digit nor `.digit`. */
  lemma CoreIs109(rest: string)
    requires |rest| > 1 && !IsDigit(rest[0]) && !(rest[0] == '.' && IsDigit(rest[1]))
    ensures ScanPosNum("1.0.9" + rest) == Some(("1", ".0.9" + rest))
    ensures ScanDotted(".0.9" + rest) == (["0", "9"], rest)
  {
    assert "1.0.9" + rest == "1" + (".0.9" + rest);
    PosNumOf("1", ".0.9" + rest);
    assert Dotted(["0", "9"]) == ".0.9";
    DottedOf(["0", "9"], rest);
  }
}
