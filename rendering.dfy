/** What `to_string` does with a version, as written, and the rendering
    the package's tests expect of it, with the parse round trip that
    rendering completes. */
module Stringify {
  import opened Wrappers
  import opened Strings
  import opened Utils
  import Patterns
  import opened SemanticVersions

  // -----------------------------------------------------------------------
  // to_string as written

  /** The decimal texts the examples use. */
  lemma SmallNumbers()
    ensures NatToString(0) == "0" && NatToString(1) == "1" && NatToString(3) == "3"
    ensures NatToString(4) == "4" && NatToString(5) == "5"
    ensures NatToString(12) == "12" && NatToString(13) == "13"
  {
    assert NatToString(12) == NatToString(1) + [DigitChar(2)];
    assert NatToString(13) == NatToString(1) + [DigitChar(3)];
  }

  lemma DotText1(a: Option<nat>)
    ensures DotText([a]) == DotPiece(a)
  {
    assert [a][..0] == [];
    assert DotText([a]) == DotText([]) + DotPiece(a);
    assert [] + DotPiece(a) == DotPiece(a);
  }

  lemma DotText2(a: Option<nat>, b: Option<nat>)
    ensures DotText([a, b]) == DotPiece(a) + DotPiece(b)
  {
    assert [a, b][..1] == [a];
    DotText1(a);
  }

  lemma DotText3(a: Option<nat>, b: Option<nat>, c: Option<nat>)
    ensures DotText([a, b, c]) == DotPiece(a) + DotPiece(b) + DotPiece(c)
  {
    assert [a, b, c][..2] == [a, b];
    DotText2(a, b);
  }

  lemma DigitText3(a: Option<nat>, b: Option<nat>, c: Option<nat>)
    ensures DigitText([a, b, c]) == DigitPiece(a) + DigitPiece(b) + DigitPiece(c)
  {
    assert [a, b, c][..2] == [a, b];
    assert [a, b][..1] == [a];
    assert [a][..0] == [];
    assert DigitText([a]) == DigitText([]) + DigitPiece(a);
    assert [] + DigitPiece(a) == DigitPiece(a);
  }

  /** `to_string` of a version with a `versions` list but no release parts. */
  lemma RenderingNoRelease(v: SemanticVersion, separator: string)
    requires v.versions.Some?
    requires v.preRelease.None? && v.postRelease.None? && v.devRelease.None?
    ensures var text := NatToString(v.major) + DotText(NumberList(v));
      Rendering(v, separator) == Success(if separator != "." then Replace(text, '.', separator) else text)
  {
    DigitText3(None, None, None);
    assert DigitText(ReleaseList(v)) == [];
    var text := NatToString(v.major) + DotText(NumberList(v));
    assert text + [] == text;
  }

  /** `to_string(".")` raises a TypeError for `SemanticVersion(1)`, which
      the tests render as "1". */
  lemma ToStringWithoutList()
    ensures Rendering(SemanticVersion(1), ".") == Failure(TypeError)
  {
  }

  /** `to_string` drops the zero patch of `SemanticVersion(1, 12, 0, [4])`,
      which the tests render as "1.12.0.4" and "1-12-0-4". */
  lemma ToStringDropsZero()
    ensures Rendering(SemanticVersion(1, Some(12), Some(0), Some([4])), ".") == Success("1.12.4")
    ensures Rendering(SemanticVersion(1, Some(12), Some(0), Some([4])), "-") == Success("1-12-4")
  {
    var v := SemanticVersion(1, Some(12), Some(0), Some([4]));
    var text := "1.12.4";
    DropsZeroText(v, text);
    RenderingNoRelease(v, ".");
    RenderingNoRelease(v, "-");
    ReplaceExample(text);
  }

  /** The text `to_string` builds for `SemanticVersion(1, 12, 0, [4])`. */
  lemma DropsZeroText(v: SemanticVersion, text: string)
    requires v == SemanticVersion(1, Some(12), Some(0), Some([4])) && text == "1.12.4"
    ensures NatToString(v.major) + DotText(NumberList(v)) == text
  {
    assert NumberList(v) == [Some(12), Some(0), Some(4)];
    DotText3(Some(12), Some(0), Some(4));
    SmallNumbers();
    assert DotText(NumberList(v)) == ".12" + "" + ".4";
  }

  lemma ReplaceExample(text: string)
    requires text == "1.12.4"
    ensures Replace(text, '.', "-") == "1-12-4"
  {
    assert text == "1" + "." + "12" + "." + "4";
    DashThree("1", "12", "4", "-");
    assert "1" + "-" + "12" + "-" + "4" == "1-12-4";
  }

  /** Replacing the dots between three dot-free pieces. */
  lemma DashThree(a: string, b: string, c: string, r: string)
    requires '.' !in a && '.' !in b && '.' !in c
    ensures Replace(a + "." + b + "." + c, '.', r) == a + r + b + r + c
  {
    var t := b + "." + c;
    assert a + "." + b + "." + c == a + "." + t;
    ReplaceAtDot(a, t, r);
    ReplaceAtDot(b, c, r);
    ReplaceAbsent(c, '.', r);
    assert a + r + (b + r + c) == a + r + b + r + c;
  }

  /** Replacing the dots between four dot-free pieces. */
  lemma DashFour(a: string, b: string, c: string, d: string, r: string)
    requires '.' !in a && '.' !in b && '.' !in c && '.' !in d
    ensures Replace(a + "." + b + "." + c + "." + d, '.', r) == a + r + b + r + c + r + d
  {
    var t := b + "." + c + "." + d;
    assert a + "." + b + "." + c + "." + d == a + "." + t;
    ReplaceAtDot(a, t, r);
    DashThree(b, c, d, r);
    assert a + r + (b + r + c + r + d) == a + r + b + r + c + r + d;
  }

  /** `to_string(".")` of a version with a `versions` list. */
  lemma RenderingDot(v: SemanticVersion)
    requires v.versions.Some?
    ensures Rendering(v, ".") == Success(NatToString(v.major) + DotText(NumberList(v)) + DigitText(ReleaseList(v)))
  {
  }

  /** Text made of digits and "." alone. */
  predicate DigitsAndDots(s: string) {
    forall i :: 0 <= i < |s| ==> IsDigit(s[i]) || s[i] == '.'
  }

  /** The number of "." in a text. */
  function DotCount(s: string): nat
    decreases |s|
  {
    if s == [] then 0 else DotCount(s[..|s| - 1]) + (if s[|s| - 1] == '.' then 1 else 0)
  }

  /** The number of entries `filter(None, ...)` keeps. */
  function TruthyCount(xs: seq<Option<nat>>): nat
    decreases |xs|
  {
    if xs == [] then 0 else TruthyCount(xs[..|xs| - 1]) + (if IsTruthy(xs[|xs| - 1]) then 1 else 0)
  }

  lemma {:induction false} DotCountAppend(a: string, b: string)
    ensures DotCount(a + b) == DotCount(a) + DotCount(b)
    decreases |b|
  {
    if b != [] {
      assert (a + b)[..|a + b| - 1] == a + b[..|b| - 1];
      assert (a + b)[|a + b| - 1] == b[|b| - 1];
      DotCountAppend(a, b[..|b| - 1]);
    } else {
      assert a + b == a;
    }
  }

  lemma {:induction false} DotCountDigits(s: string)
    requires AllDigits(s)
    ensures DotCount(s) == 0
    decreases |s|
  {
    if s != [] {
      var init := s[..|s| - 1];
      assert forall i :: 0 <= i < |init| ==> init[i] == s[i];
      DotCountDigits(init);
    }
  }

  lemma DigitsAndDotsAppend(a: string, b: string)
    requires DigitsAndDots(a) && DigitsAndDots(b)
    ensures DigitsAndDots(a + b)
  {
    forall i | 0 <= i < |a + b| ensures IsDigit((a + b)[i]) || (a + b)[i] == '.' {
      if i >= |a| {
        assert (a + b)[i] == b[i - |a|];
      }
    }
  }

  /** The first loop's text: digits and ".", one "." per kept entry. */
  lemma {:induction false} DotTextContent(xs: seq<Option<nat>>)
    ensures DigitsAndDots(DotText(xs))
    ensures DotCount(DotText(xs)) == TruthyCount(xs)
    decreases |xs|
  {
    if xs != [] {
      var init, last := xs[..|xs| - 1], xs[|xs| - 1];
      DotTextContent(init);
      if IsTruthy(last) {
        var digits := NatToString(last.value);
        DotCountDigits(digits);
        DotCountAppend(".", digits);
        assert DotCount(".") == 1 by {
          assert "."[..0] == "";
        }
        DigitsAndDotsAppend(".", digits);
        DotCountAppend(DotText(init), "." + digits);
        DigitsAndDotsAppend(DotText(init), "." + digits);
      } else {
        assert DotPiece(last) == "";
        assert DotText(xs) == DotText(init) + "" == DotText(init);
        assert TruthyCount(xs) == TruthyCount(init);
      }
    }
  }

  /** The second loop's text: bare digits. */
  lemma {:induction false} DigitTextDigits(xs: seq<Option<nat>>)
    ensures AllDigits(DigitText(xs))
    decreases |xs|
  {
    if xs != [] {
      var init, last := xs[..|xs| - 1], xs[|xs| - 1];
      DigitTextDigits(init);
      var a, b := DigitText(init), DigitPiece(last);
      forall i | 0 <= i < |a + b| ensures IsDigit((a + b)[i]) {
        if i >= |a| {
          assert (a + b)[i] == b[i - |a|];
        }
      }
    }
  }

  /** `to_string(".")`, when it succeeds, writes digits and "." alone, so no
      pre-release label and no "post" or "dev" survives; and it writes one
      "." per truthy minor, patch and `versions` entry, so zero and missing
      numbers are dropped and the release numbers follow with no ".". */
  lemma RenderingDotContent(v: SemanticVersion)
    ensures var r := Rendering(v, ".");
      r.Success? ==> DigitsAndDots(r.value) && DotCount(r.value) == TruthyCount(NumberList(v))
  {
    if v.versions.Some? {
      var major, dots, digits := NatToString(v.major), DotText(NumberList(v)), DigitText(ReleaseList(v));
      DotTextContent(NumberList(v));
      DigitTextDigits(ReleaseList(v));
      DotCountDigits(major);
      DotCountDigits(digits);
      assert DigitsAndDots(major) && DigitsAndDots(digits);
      DigitsAndDotsAppend(major, dots);
      DigitsAndDotsAppend(major + dots, digits);
      DotCountAppend(major, dots);
      DotCountAppend(major + dots, digits);
      RenderingDot(v);
    }
  }

  /** `to_string` writes the alpha pre-release 1a3 as "13"... */
  lemma ToStringDropsLabel()
    ensures Rendering(SemanticVersion(1, versions := Some([]), preReleaseType := Some(Alpha), preRelease := Some(3)), ".")
      == Success("13")
  {
    SmallNumbers();
    var v := SemanticVersion(1, versions := Some([]), preReleaseType := Some(Alpha), preRelease := Some(3));
    RenderingDot(v);
    assert NumberList(v) == [None, None];
    DotText2(None, None);
    DigitText3(Some(3), None, None);
    assert DotText(NumberList(v)) == [];
    assert DigitText(ReleaseList(v)) == "3";
    assert NatToString(1) + [] + "3" == "13";
  }

  /** ... which is also the text of version 13. */
  lemma ToStringOfThirteen()
    ensures Rendering(SemanticVersion(13, versions := Some([])), ".") == Success("13")
  {
    SmallNumbers();
    var w := SemanticVersion(13, versions := Some([]));
    RenderingDot(w);
    assert NumberList(w) == [None, None];
    DotText2(None, None);
    DigitText3(None, None, None);
    assert DotText(NumberList(w)) == [];
    assert DigitText(ReleaseList(w)) == [];
    assert NatToString(13) + [] + [] == "13";
  }

  /** No version `parse` returns with at most three core numbers can be
      rendered: `to_string` fails on it. */
  lemma ParsedShortVersionsFail(s: string)
    requires Patterns.FullMatch(s).Some? && |Patterns.FullMatch(s).value.dotted| <= 2
    ensures ParseVersion(s).Success?
    ensures Rendering(ParseVersion(s).value, ".") == Failure(TypeError)
  {
  }

  // -----------------------------------------------------------------------
  // the rendering the tests expect

  /** The values `parse` can return: minor before patch before `versions`,
      `versions` never empty, and the pre-release label and number together. */
  predicate ParseShaped(v: SemanticVersion) {
    && (v.minor.None? ==> v.patch.None?)
    && (v.patch.None? ==> v.versions.None?)
    && v.versions != Some([])
    && (v.preReleaseType.Some? <==> v.preRelease.Some?)
  }

  /** Every value `parse` returns has that shape. */
  lemma ParsedAreShaped(s: string)
    requires ParseVersion(s).Success?
    ensures ParseShaped(ParseVersion(s).value)
  {
  }

  /** The core numbers after major, in order: minor, patch, then `versions`. */
  function CoreNumbers(v: SemanticVersion): seq<nat> {
    (if v.minor.Some? then [v.minor.value] else [])
      + (if v.patch.Some? then [v.patch.value] else [])
      + OrEmpty(v.versions)
  }

  /** `str(n)` for every number of a list. */
  function Strs(ns: seq<nat>): (r: seq<string>)
    ensures |r| == |ns|
    ensures forall i :: 0 <= i < |ns| ==> r[i] == NatToString(ns[i])
  {
    seq(|ns|, i requires 0 <= i < |ns| => NatToString(ns[i]))
  }

  /** The glued pre-release label and number. */
  function PreReleaseText(v: SemanticVersion): string {
    if v.preReleaseType.Some? && v.preRelease.Some?
    then LabelText(v.preReleaseType.value) + NatToString(v.preRelease.value)
    else ""
  }

  /** ".post" or ".dev" and the number, when present. */
  function TagPart(x: Option<nat>, tag: string): string {
    if x.Some? then "." + tag + NatToString(x.value) else ""
  }

  /** The text the tests expect of `to_string(separator)`: major, "." and
      each present core number (zero included), the labelled pre-release,
      ".postN", ".devN", and "." replaced by a different separator. */
  function Canonical(v: SemanticVersion, separator: string): (r: string)
    ensures separator == "." ==> NatToString(v.major) <= r
    ensures '.' !in separator ==> '.' !in r
  {
    var text := NatToString(v.major)
      + (Patterns.Dotted(Strs(CoreNumbers(v)))
      + (PreReleaseText(v) + (TagPart(v.postRelease, "post") + TagPart(v.devRelease, "dev"))));
    if separator != "." then Replace(text, '.', separator) else text
  }

  /** The text tree of the canonical rendering. */
  function TextOf(v: SemanticVersion): (t: Patterns.VersionText)
    ensures Patterns.WellFormed(t)
  {
    var ns := Strs(CoreNumbers(v));
    assert forall i :: 0 <= i < |ns| ==> Patterns.IsPosNum(ns[i]);
    Patterns.VersionText(
      NatToString(v.major),
      ns,
      if v.preReleaseType.Some? && v.preRelease.Some?
        then Some((LabelText(v.preReleaseType.value), NatToString(v.preRelease.value))) else None,
      if v.postRelease.Some? then Some(('.', NatToString(v.postRelease.value))) else None,
      if v.devRelease.Some? then Some(('.', NatToString(v.devRelease.value))) else None)
  }

  lemma CanonicalIsRender(v: SemanticVersion)
    ensures Canonical(v, ".") == Patterns.Render(TextOf(v))
  {
    var t := TextOf(v);
    assert Patterns.PreText(t.pre) == PreReleaseText(v);
    assert Patterns.TagText(t.post, "post") == TagPart(v.postRelease, "post");
    assert Patterns.TagText(t.dev, "dev") == TagPart(v.devRelease, "dev");
  }

  /** Reading the numbers back gives the list. */
  lemma IntListStrs(ns: seq<nat>)
    ensures forall i :: 0 <= i < |Strs(ns)| ==> AllDigits(Strs(ns)[i])
    ensures IntList(Strs(ns)) == ns
  {
    forall i | 0 <= i < |ns| ensures DecimalValue(Strs(ns)[i]) == ns[i] {
      DecimalValueOfNatToString(ns[i]);
    }
  }

  /** The tree's numbers read back as the numeric core. */
  lemma TextOfCore(v: SemanticVersion)
    requires ParseShaped(v)
    ensures var u := FromText(TextOf(v));
      u.major == v.major && u.minor == v.minor && u.patch == v.patch && u.versions == v.versions
  {
    var t := TextOf(v);
    var ns := CoreNumbers(v);
    assert t.dotted == Strs(ns);
    DecimalValueOfNatToString(v.major);
    if v.minor.Some? {
      assert ns[0] == v.minor.value;
      DecimalValueOfNatToString(v.minor.value);
    }
    if v.patch.Some? {
      assert ns[1] == v.patch.value;
      DecimalValueOfNatToString(v.patch.value);
    }
    if v.versions.Some? {
      var vs := v.versions.value;
      assert ns == [v.minor.value, v.patch.value] + vs;
      assert t.dotted[2..] == Strs(vs);
      IntListStrs(vs);
    }
  }

  /** The tree's release parts read back as the release fields. */
  lemma TextOfRelease(v: SemanticVersion)
    requires ParseShaped(v)
    ensures var u := FromText(TextOf(v));
      && u.preReleaseType == v.preReleaseType && u.preRelease == v.preRelease
      && u.postRelease == v.postRelease && u.devRelease == v.devRelease
  {
    if v.preRelease.Some? { DecimalValueOfNatToString(v.preRelease.value); }
    if v.postRelease.Some? { DecimalValueOfNatToString(v.postRelease.value); }
    if v.devRelease.Some? { DecimalValueOfNatToString(v.devRelease.value); }
    if v.preReleaseType.Some? {
      assert LabelOf(LabelText(v.preReleaseType.value)) == v.preReleaseType;
    }
  }

  lemma FromTextOf(v: SemanticVersion)
    requires ParseShaped(v)
    ensures FromText(TextOf(v)) == v
  {
    TextOfCore(v);
    TextOfRelease(v);
  }

  /** Parsing the canonical rendering of a value `parse` can return gives
      that value back. */
  lemma CanonicalRoundTrip(v: SemanticVersion)
    requires ParseShaped(v)
    ensures ParseVersion(Canonical(v, ".")) == Success(v)
  {
    CanonicalIsRender(v);
    Patterns.FullMatchRender(TextOf(v));
    FromTextOf(v);
  }

  /** So rendering what `parse` returns and parsing it again is the identity. */
  lemma ParseCanonicalParse(s: string)
    requires ParseVersion(s).Success?
    ensures ParseVersion(Canonical(ParseVersion(s).value, ".")) == ParseVersion(s)
  {
    ParsedAreShaped(s);
    CanonicalRoundTrip(ParseVersion(s).value);
  }

  /** `Canonical(v, ".")` piece by piece. */
  lemma CanonicalDot(v: SemanticVersion)
    ensures Canonical(v, ".") == NatToString(v.major) + Patterns.Dotted(Strs(CoreNumbers(v)))
      + PreReleaseText(v) + TagPart(v.postRelease, "post") + TagPart(v.devRelease, "dev")
  {
    var a, b, c := NatToString(v.major), Patterns.Dotted(Strs(CoreNumbers(v))), PreReleaseText(v);
    var d, e := TagPart(v.postRelease, "post"), TagPart(v.devRelease, "dev");
    assert Canonical(v, ".") == a + (b + (c + (d + e)));
    Associate(a, b, c, d, e);
  }

  lemma Associate(a: string, b: string, c: string, d: string, e: string)
    ensures a + (b + (c + (d + e))) == a + b + c + d + e
  {
  }

  lemma Dotted1(a: string)
    ensures Patterns.Dotted([a]) == "." + a
  {
    assert [a][1..] == [];
  }

  lemma Dotted2(a: string, b: string)
    ensures Patterns.Dotted([a, b]) == "." + a + "." + b
  {
    assert [a, b][1..] == [b];
    Dotted1(b);
  }

  lemma Dotted3(a: string, b: string, c: string)
    ensures Patterns.Dotted([a, b, c]) == "." + a + "." + b + "." + c
  {
    assert [a, b, c][1..] == [b, c];
    Dotted2(b, c);
  }

  /** The tests' "1": `SemanticVersion(1)`. */
  lemma CanonicalMajor()
    ensures Canonical(SemanticVersion(1), ".") == "1"
  {
    var v := SemanticVersion(1);
    CanonicalDot(v);
    SmallNumbers();
    assert CoreNumbers(v) == [];
    assert Strs(CoreNumbers(v)) == [];
    assert NatToString(1) + [] + [] + [] + [] == "1";
  }

  /** The tests' "1.12": `SemanticVersion(1, 12)`. */
  lemma CanonicalMinor()
    ensures Canonical(SemanticVersion(1, Some(12)), ".") == "1.12"
  {
    var v := SemanticVersion(1, Some(12));
    CanonicalDot(v);
    SmallNumbers();
    assert CoreNumbers(v) == [12];
    assert Strs(CoreNumbers(v)) == ["12"];
    Dotted1("12");
    assert "1" + ("." + "12") + [] + [] + [] == "1.12";
  }

  /** The tests' "1.12.0": `SemanticVersion(1, 12, 0)`. */
  lemma CanonicalPatch()
    ensures Canonical(SemanticVersion(1, Some(12), Some(0)), ".") == "1.12.0"
  {
    var v := SemanticVersion(1, Some(12), Some(0));
    CanonicalDot(v);
    SmallNumbers();
    assert CoreNumbers(v) == [12, 0];
    assert Strs(CoreNumbers(v)) == ["12", "0"];
    Dotted2("12", "0");
    assert "1" + ("." + "12" + "." + "0") + [] + [] + [] == "1.12.0";
  }

  /** The tests' "1.12.0.4": `SemanticVersion(1, 12, 0, [4])`. */
  lemma CanonicalList()
    ensures Canonical(SemanticVersion(1, Some(12), Some(0), Some([4])), ".") == "1.12.0.4"
  {
    var v := SemanticVersion(1, Some(12), Some(0), Some([4]));
    CanonicalDot(v);
    SmallNumbers();
    assert CoreNumbers(v) == [12, 0, 4];
    assert Strs(CoreNumbers(v)) == ["12", "0", "4"];
    Dotted3("12", "0", "4");
    assert "1" + ("." + "12" + "." + "0" + "." + "4") + [] + [] + [] == "1.12.0.4";
  }

  /** The tests' "1-12-0-4": the same version with the separator "-". */
  lemma CanonicalSeparator()
    ensures Canonical(SemanticVersion(1, Some(12), Some(0), Some([4])), "-") == "1-12-0-4"
  {
    var v := SemanticVersion(1, Some(12), Some(0), Some([4]));
    CanonicalList();
    assert Canonical(v, "-") == Replace(Canonical(v, "."), '.', "-");
    DashExample("1.12.0.4");
  }

  /** Replacing at a dot that follows a dot-free piece. */
  lemma ReplaceAtDot(a: string, b: string, replacement: string)
    requires '.' !in a
    ensures Replace(a + "." + b, '.', replacement) == a + replacement + Replace(b, '.', replacement)
  {
    ReplaceAppend(a + ".", b, '.', replacement);
    ReplaceAppend(a, ".", '.', replacement);
    ReplaceAbsent(a, '.', replacement);
    assert Replace(".", '.', replacement) == replacement + Replace([], '.', replacement);
  }

  lemma DashExample(text: string)
    requires text == "1.12.0.4"
    ensures Replace(text, '.', "-") == "1-12-0-4"
  {
    assert text == "1" + "." + "12" + "." + "0" + "." + "4";
    DashFour("1", "12", "0", "4", "-");
    assert "1" + "-" + "12" + "-" + "0" + "-" + "4" == "1-12-0-4";
  }

  /** The tests' "1a3": `SemanticVersion(1, pre_release_type="a", pre_release=3)`. */
  lemma CanonicalPreRelease()
    ensures Canonical(SemanticVersion(1, preReleaseType := Some(Alpha), preRelease := Some(3)), ".") == "1a3"
  {
    var v := SemanticVersion(1, preReleaseType := Some(Alpha), preRelease := Some(3));
    CanonicalDot(v);
    SmallNumbers();
    assert CoreNumbers(v) == [];
    assert Strs(CoreNumbers(v)) == [];
    assert PreReleaseText(v) == "a3";
    assert "1" + [] + "a3" + [] + [] == "1a3";
  }

  /** The tests' "1.12b0": `SemanticVersion(1, 12, pre_release_type="b", pre_release=0)`. */
  lemma CanonicalZeroPreRelease(v: SemanticVersion)
    requires v == SemanticVersion(1, Some(12), preReleaseType := Some(Beta), preRelease := Some(0))
    ensures Canonical(v, ".") == "1.12b0"
  {
    CanonicalDot(v);
    assert CoreNumbers(v) == [12];
    Twelve();
    assert PreReleaseText(v) == "b0" by {
      assert NatToString(0) == "0";
    }
    assert NatToString(1) == "1";
    assert "1" + ".12" + "b0" + [] + [] == "1.12b0";
  }

  lemma Twelve()
    ensures Patterns.Dotted(Strs([12])) == ".12"
  {
    SmallNumbers();
    assert Strs([12]) == ["12"];
    Dotted1("12");
  }

  /** The tests' "1.12.0.post4": `SemanticVersion(1, 12, 0, post_release=4)`. */
  lemma CanonicalPostRelease(v: SemanticVersion)
    requires v == SemanticVersion(1, Some(12), Some(0), postRelease := Some(4))
    ensures Canonical(v, ".") == "1.12.0.post4"
  {
    CanonicalDot(v);
    assert CoreNumbers(v) == [12, 0];
    TwelveZero();
    assert TagPart(v.postRelease, "post") == ".post4" by {
      assert NatToString(4) == "4";
    }
    assert NatToString(1) == "1";
    assert "1" + ".12.0" + [] + ".post4" + [] == "1.12.0.post4";
  }

  lemma TwelveZero()
    ensures Patterns.Dotted(Strs([12, 0])) == ".12.0"
  {
    SmallNumbers();
    assert Strs([12, 0]) == ["12", "0"];
    Dotted2("12", "0");
  }

  lemma TwelveZeroFourFive()
    ensures Patterns.Dotted(Strs([12, 0, 4, 5])) == ".12.0.4.5"
  {
    SmallNumbers();
    var parts := Strs([12, 0, 4, 5]);
    assert parts == ["12", "0", "4", "5"];
    assert parts[1..] == ["0", "4", "5"];
    Dotted3("0", "4", "5");
  }

  /** The tests' "1.12.0.4.5.dev1": `SemanticVersion(1, 12, 0, [4, 5], dev_release=1)`. */
  lemma CanonicalDevRelease(v: SemanticVersion)
    requires v == SemanticVersion(1, Some(12), Some(0), Some([4, 5]), devRelease := Some(1))
    ensures Canonical(v, ".") == "1.12.0.4.5.dev1"
  {
    CanonicalDot(v);
    assert CoreNumbers(v) == [12, 0, 4, 5];
    TwelveZeroFourFive();
    assert TagPart(v.devRelease, "dev") == ".dev1" by {
      assert NatToString(1) == "1";
    }
    assert PreReleaseText(v) == [] && TagPart(v.postRelease, "post") == [];
    assert NatToString(1) == "1";
    assert "1" + ".12.0.4.5" + [] + [] + ".dev1" == "1.12.0.4.5.dev1";
  }

  /** The tests' "1.0": `SemanticVersion(1, 0)`. */
  lemma CanonicalZeroMinor(v: SemanticVersion)
    requires v == SemanticVersion(1, Some(0))
    ensures Canonical(v, ".") == "1.0"
  {
    CanonicalDot(v);
    SmallNumbers();
    assert CoreNumbers(v) == [0];
    assert Strs(CoreNumbers(v)) == ["0"];
    Dotted1("0");
    assert "1" + ("." + "0") + [] + [] + [] == "1.0";
  }

  /** The tests' "3.4.1.4": `SemanticVersion(3, 4, 1, [4])`. */
  lemma CanonicalFourParts(v: SemanticVersion)
    requires v == SemanticVersion(3, Some(4), Some(1), Some([4]))
    ensures Canonical(v, ".") == "3.4.1.4"
  {
    CanonicalDot(v);
    SmallNumbers();
    assert CoreNumbers(v) == [4, 1, 4];
    assert Strs(CoreNumbers(v)) == ["4", "1", "4"];
    Dotted3("4", "1", "4");
    assert "3" + ("." + "4" + "." + "1" + "." + "4") + [] + [] + [] == "3.4.1.4";
  }

  /** The tests' "3.4.1.4.6": `SemanticVersion(3, 4, 1, [4, 6])`. */
  lemma CanonicalFiveParts(v: SemanticVersion)
    requires v == SemanticVersion(3, Some(4), Some(1), Some([4, 6]))
    ensures Canonical(v, ".") == "3.4.1.4.6"
  {
    CanonicalDot(v);
    SmallNumbers();
    assert NatToString(6) == "6";
    assert CoreNumbers(v) == [4, 1, 4, 6];
    assert Strs(CoreNumbers(v)) == ["4", "1", "4", "6"];
    Patterns.DottedTail();
    assert "3" + ".4.1.4.6" + [] + [] + [] == "3.4.1.4.6";
  }

  /** The tests' "1.post12": `SemanticVersion(1, post_release=12)`. */
  lemma CanonicalPostOnly(v: SemanticVersion)
    requires v == SemanticVersion(1, postRelease := Some(12))
    ensures Canonical(v, ".") == "1.post12"
  {
    CanonicalDot(v);
    SmallNumbers();
    assert CoreNumbers(v) == [];
    assert Strs(CoreNumbers(v)) == [];
    assert TagPart(v.postRelease, "post") == ".post12";
    assert "1" + [] + [] + ".post12" + [] == "1.post12";
  }

  /** The tests' "1.3a3": `SemanticVersion(1, 3, pre_release_type="a", pre_release=3)`. */
  lemma CanonicalMinorAlpha(v: SemanticVersion)
    requires v == SemanticVersion(1, Some(3), preReleaseType := Some(Alpha), preRelease := Some(3))
    ensures Canonical(v, ".") == "1.3a3"
  {
    CanonicalDot(v);
    SmallNumbers();
    assert CoreNumbers(v) == [3];
    assert Strs(CoreNumbers(v)) == ["3"];
    Dotted1("3");
    assert PreReleaseText(v) == "a3";
    assert "1" + ("." + "3") + "a3" + [] + [] == "1.3a3";
  }

  /** The tests' parses of numeric versions, read off the canonical
      rendering and its round trip. */
  lemma ParseSimpleExamples()
    ensures ParseVersion("1") == Success(SemanticVersion(1))
    ensures ParseVersion("1.0") == Success(SemanticVersion(1, Some(0)))
    ensures ParseVersion("1.12.0") == Success(SemanticVersion(1, Some(12), Some(0)))
    ensures ParseVersion("3.4.1.4") == Success(SemanticVersion(3, Some(4), Some(1), Some([4])))
    ensures ParseVersion("3.4.1.4.6") == Success(SemanticVersion(3, Some(4), Some(1), Some([4, 6])))
  {
    CanonicalMajor();
    CanonicalRoundTrip(SemanticVersion(1));
    CanonicalZeroMinor(SemanticVersion(1, Some(0)));
    CanonicalRoundTrip(SemanticVersion(1, Some(0)));
    CanonicalPatch();
    CanonicalRoundTrip(SemanticVersion(1, Some(12), Some(0)));
    CanonicalFourParts(SemanticVersion(3, Some(4), Some(1), Some([4])));
    CanonicalRoundTrip(SemanticVersion(3, Some(4), Some(1), Some([4])));
    CanonicalFiveParts(SemanticVersion(3, Some(4), Some(1), Some([4, 6])));
    CanonicalRoundTrip(SemanticVersion(3, Some(4), Some(1), Some([4, 6])));
  }

  /** The tests' parses of "1.post12" and "1.3a3". */
  lemma ParseReleaseExamples()
    ensures ParseVersion("1.post12") == Success(SemanticVersion(1, postRelease := Some(12)))
    ensures ParseVersion("1.3a3")
      == Success(SemanticVersion(1, Some(3), preReleaseType := Some(Alpha), preRelease := Some(3)))
  {
    CanonicalPostOnly(SemanticVersion(1, postRelease := Some(12)));
    CanonicalRoundTrip(SemanticVersion(1, postRelease := Some(12)));
    CanonicalMinorAlpha(SemanticVersion(1, Some(3), preReleaseType := Some(Alpha), preRelease := Some(3)));
    CanonicalRoundTrip(SemanticVersion(1, Some(3), preReleaseType := Some(Alpha), preRelease := Some(3)));
  }

  /** The tests' "1-dev1": the dev-release after a dash. */
  lemma ParseDashDev(s: string)
    requires s == "1-dev1"
    ensures ParseVersion(s) == Success(SemanticVersion(1, devRelease := Some(1)))
  {
    var t := Patterns.VersionText("1", [], None, None, Some(('-', "1")));
    assert Patterns.WellFormed(t);
    assert Patterns.Render(t) == s by {
      assert Patterns.TagText(t.dev, "dev") == "-dev1";
      assert "1" + ([] + ([] + ([] + "-dev1"))) == "1-dev1";
    }
    Patterns.FullMatchRender(t);
    assert DecimalValue("1") == 1;
  }

  /** The tests' "1.3.5a3_dev1": a pre-release, then a dev-release after
      an underscore. */
  lemma ParseUnderscoreDev(s: string)
    requires s == "1.3.5a3_dev1"
    ensures ParseVersion(s)
      == Success(SemanticVersion(1, Some(3), Some(5), preReleaseType := Some(Alpha), preRelease := Some(3),
                                 devRelease := Some(1)))
  {
    var t := Patterns.VersionText("1", ["3", "5"], Some(("a", "3")), None, Some(('_', "1")));
    UnderscoreDevText(t, s);
    Patterns.FullMatchRender(t);
    UnderscoreDevFields(t);
  }

  lemma UnderscoreDevText(t: Patterns.VersionText, s: string)
    requires t == Patterns.VersionText("1", ["3", "5"], Some(("a", "3")), None, Some(('_', "1")))
    requires s == "1.3.5a3_dev1"
    ensures Patterns.WellFormed(t) && Patterns.Render(t) == s
  {
    Dotted2("3", "5");
    assert Patterns.PreText(t.pre) == "a3";
    assert Patterns.TagText(t.post, "post") == [];
    assert Patterns.TagText(t.dev, "dev") == "_dev1";
    assert "1" + ("." + "3" + "." + "5" + ("a3" + ([] + "_dev1"))) == "1.3.5a3_dev1";
  }

  lemma UnderscoreDevFields(t: Patterns.VersionText)
    requires t == Patterns.VersionText("1", ["3", "5"], Some(("a", "3")), None, Some(('_', "1")))
    ensures Patterns.WellFormed(t)
    ensures FromText(t)
      == SemanticVersion(1, Some(3), Some(5), preReleaseType := Some(Alpha), preRelease := Some(3),
                         devRelease := Some(1))
  {
    assert DecimalValue("1") == 1 && DecimalValue("3") == 3 && DecimalValue("5") == 5;
  }
}
