/** semantic_version.py: the SemanticVersion record, its parser and
    validator, its string rendering, field-wise equality, and the ordering
    `__lt__` defines through a sort key, with `<=`, `>` and `>=` derived by
    `functools.total_ordering`. */
module SemanticVersions {
  import opened Wrappers
  import opened Strings
  import opened Utils
  import Patterns

  /** The dataclass: `major` is required, every other field defaults to None. */
  datatype SemanticVersion = SemanticVersion(
    major: nat,
    minor: Option<nat> := None,
    patch: Option<nat> := None,
    versions: Option<seq<nat>> := None,
    preReleaseType: Option<PreReleaseType> := None,
    preRelease: Option<nat> := None,
    postRelease: Option<nat> := None,
    devRelease: Option<nat> := None)

  // -----------------------------------------------------------------------
  // parse and validate

  /** `validate`, in both of its definitions: whether the whole string
      matches FULL_VERSION_PATTERN. */
  predicate Validate(version: string)
    ensures Validate(version) <==> exists t :: Patterns.WellFormed(t) && Patterns.Render(t) == version
  {
    Patterns.FullMatchLanguage(version);
    Patterns.FullMatch(version).Some?
  }

  /** The label a captured pre_release_type group names. */
  function LabelOf(text: string): (r: Option<PreReleaseType>)
    ensures r.Some? ==> LabelText(r.value) == text
    ensures Patterns.IsLabel(text) ==> r.Some?
  {
    if text == "a" then Some(Alpha)
    else if text == "b" then Some(Beta)
    else if text == "rc" then Some(ReleaseCandidate)
    else None
  }

  /** `int(w)` for every piece of a list of digit strings. */
  function IntList(parts: seq<string>): (ns: seq<nat>)
    requires forall i :: 0 <= i < |parts| ==> AllDigits(parts[i])
    ensures |ns| == |parts|
    ensures forall i :: 0 <= i < |parts| ==> ns[i] == DecimalValue(parts[i])
    decreases |parts|
  {
    if parts == [] then [] else [DecimalValue(parts[0])] + IntList(parts[1..])
  }

  /** The field values a successful match describes: the first number is
      `major`, the next two are `minor` and `patch`, any further ones form
      `versions`, and the release parts fill their own fields; a group that
      did not take part leaves its field None, so `versions` is never []. */
  function FromText(t: Patterns.VersionText): (v: SemanticVersion)
    requires Patterns.WellFormed(t)
    ensures v.versions != Some([])
  {
    SemanticVersion(
      DecimalValue(t.major),
      if |t.dotted| > 0 then Some(DecimalValue(t.dotted[0])) else None,
      if |t.dotted| > 1 then Some(DecimalValue(t.dotted[1])) else None,
      if |t.dotted| > 2 then Some(IntList(t.dotted[2..])) else None,
      if t.pre.Some? then LabelOf(t.pre.value.0) else None,
      if t.pre.Some? then Some(DecimalValue(t.pre.value.1)) else None,
      if t.post.Some? then Some(DecimalValue(t.post.value.1)) else None,
      if t.dev.Some? then Some(DecimalValue(t.dev.value.1)) else None)
  }

  /** What `SemanticVersion.parse` returns, for use by pure callers. */
  function ParseVersion(version: string): (r: Result<SemanticVersion>)
    ensures r.Success? <==> Validate(version)
    ensures r.Failure? ==> r.error == InvalidVersion(version)
  {
    match Patterns.FullMatch(version)
    case None => Failure(InvalidVersion(version))
    case Some(t) => Success(FromText(t))
  }

  /** INT_TYPES: the groups converted with `int`. */
  predicate IsIntType(k: Patterns.GroupName) {
    !k.Versions? && !k.PreReleaseType?
  }

  /** A value stored in `version_dict`. */
  datatype Field = IntField(n: nat) | ListField(ns: seq<nat>) | TextField(text: string)

  /** `if w`: the non-empty pieces. */
  function NonEmpty(parts: seq<string>): (r: seq<string>)
    ensures forall i :: 0 <= i < |r| ==> r[i] != [] && r[i] in parts
    decreases |parts|
  {
    if parts == [] then []
    else (if parts[0] == [] then [] else [parts[0]]) + NonEmpty(parts[1..])
  }

  /** `[int(w) for w in v.split(".") if w]`: the numbers of the `versions` text. */
  function VersionsList(text: string): seq<nat>
    requires DigitPieces(text)
  {
    var pieces := NonEmpty(Split(text, '.'));
    IntList(pieces)
  }

  /** Whether every piece of the `versions` text is a digit string. */
  predicate DigitPieces(text: string) {
    forall i :: 0 <= i < |Split(text, '.')| ==> AllDigits(Split(text, '.')[i])
  }

  /** The conversions `parse` applies need digit strings in the number groups. */
  predicate Convertible(item: (Patterns.GroupName, Option<string>)) {
    item.1.Some? ==>
      && (IsIntType(item.0) ==> AllDigits(item.1.value))
      && (item.0.Versions? ==> DigitPieces(item.1.value))
  }

  /** One pass of the loop over `match.groupdict().items()`: skip a falsy
      value, convert an INT_TYPES value with `int`, split `versions` on "."
      and convert its non-empty pieces, keep any other value as text. */
  function Store(d: map<Patterns.GroupName, Field>, item: (Patterns.GroupName, Option<string>)): map<Patterns.GroupName, Field>
    requires Convertible(item)
  {
    var (k, v) := item;
    if v.None? || v.value == [] then d
    else if IsIntType(k) then d[k := IntField(DecimalValue(v.value))]
    else if k.Versions? then d[k := ListField(VersionsList(v.value))]
    else d[k := TextField(v.value)]
  }

  /** The dictionary the loop leaves after the remaining `items`, starting from `d`. */
  function StoreAll(d: map<Patterns.GroupName, Field>, items: seq<(Patterns.GroupName, Option<string>)>): map<Patterns.GroupName, Field>
    requires forall i :: 0 <= i < |items| ==> Convertible(items[i])
    decreases |items|
  {
    if items == [] then d else StoreAll(Store(d, items[0]), items[1..])
  }

  /** The number a dictionary entry holds, if any. */
  function IntAt(d: map<Patterns.GroupName, Field>, k: Patterns.GroupName): Option<nat> {
    if k in d && d[k].IntField? then Some(d[k].n) else None
  }

  /** `cls(**version_dict)`: absent keys take their default None; `major`
      has no default and must be present. */
  function Construct(d: map<Patterns.GroupName, Field>): (v: SemanticVersion)
    requires Patterns.Major in d && d[Patterns.Major].IntField?
    ensures v.major == d[Patterns.Major].n
    ensures Patterns.Minor !in d ==> v.minor.None?
    ensures Patterns.Patch !in d ==> v.patch.None?
    ensures Patterns.Versions !in d ==> v.versions.None?
    ensures Patterns.PreReleaseType !in d ==> v.preReleaseType.None?
    ensures Patterns.PreRelease !in d ==> v.preRelease.None?
    ensures Patterns.PostRelease !in d ==> v.postRelease.None?
    ensures Patterns.DevRelease !in d ==> v.devRelease.None?
    ensures Patterns.Minor in d && d[Patterns.Minor].IntField? ==> v.minor == Some(d[Patterns.Minor].n)
    ensures Patterns.Patch in d && d[Patterns.Patch].IntField? ==> v.patch == Some(d[Patterns.Patch].n)
    ensures Patterns.Versions in d && d[Patterns.Versions].ListField? ==> v.versions == Some(d[Patterns.Versions].ns)
    ensures Patterns.PreRelease in d && d[Patterns.PreRelease].IntField? ==> v.preRelease == Some(d[Patterns.PreRelease].n)
    ensures Patterns.PostRelease in d && d[Patterns.PostRelease].IntField? ==> v.postRelease == Some(d[Patterns.PostRelease].n)
    ensures Patterns.DevRelease in d && d[Patterns.DevRelease].IntField? ==> v.devRelease == Some(d[Patterns.DevRelease].n)
  {
    SemanticVersion(
      d[Patterns.Major].n,
      IntAt(d, Patterns.Minor),
      IntAt(d, Patterns.Patch),
      if Patterns.Versions in d && d[Patterns.Versions].ListField? then Some(d[Patterns.Versions].ns) else None,
      if Patterns.PreReleaseType in d && d[Patterns.PreReleaseType].TextField?
        then LabelOf(d[Patterns.PreReleaseType].text) else None,
      IntAt(d, Patterns.PreRelease),
      IntAt(d, Patterns.PostRelease),
      IntAt(d, Patterns.DevRelease))
  }

  /** `SemanticVersion.parse(version, separator)`. The separator branch
      computes `version.replace(separator, ".")` and discards the result, so
      the separator has no effect. On a match the loop fills `version_dict`
      from the named groups and the record is built from it. */
  method Parse(version: string, separator: string) returns (r: Result<SemanticVersion>)
    ensures r == ParseVersion(version)
  {
    var m := Patterns.FullMatch(version);
    if m.None? {
      return Failure(InvalidVersion(version));
    }
    var t := m.value;
    var items := Patterns.GroupDict(t);
    GroupsConvertible(t);
    var d := StoreGroups(items);
    GroupsConstruct(t);
    r := Success(Construct(d));
  }

  /** The loop over `match.groupdict().items()` filling `version_dict`. */
  method StoreGroups(items: seq<(Patterns.GroupName, Option<string>)>) returns (d: map<Patterns.GroupName, Field>)
    requires forall i :: 0 <= i < |items| ==> Convertible(items[i])
    ensures d == StoreAll(map[], items)
  {
    d := map[];
    var i := 0;
    while i < |items|
      invariant 0 <= i <= |items|
      invariant StoreAll(d, items[i..]) == StoreAll(map[], items)
    {
      var (k, v) := items[i];
      assert items[i..][1..] == items[i + 1..];
      if v.None? || v.value == [] {
        // `if not v: continue`
      } else if IsIntType(k) {
        d := d[k := IntField(DecimalValue(v.value))];
      } else if k.Versions? {
        d := d[k := ListField(VersionsList(v.value))];
      } else {
        d := d[k := TextField(v.value)];
      }
      i := i + 1;
    }
    assert items[|items|..] == [];
  }

  /** The groups of a match hold digit strings where `parse` converts them. */
  lemma GroupsConvertible(t: Patterns.VersionText)
    requires Patterns.WellFormed(t)
    ensures forall i :: 0 <= i < |Patterns.GroupDict(t)| ==> Convertible(Patterns.GroupDict(t)[i])
  {
    var items := Patterns.GroupDict(t);
    var tail := if |t.dotted| > 2 then t.dotted[2..] else [];
    assert forall i :: 0 <= i < |tail| ==> Patterns.IsPosNum(tail[i]);
    DottedPieces(tail);
    assert Convertible(items[0]);
    assert Convertible(items[1]) by { if |t.dotted| > 0 { assert Patterns.IsPosNum(t.dotted[0]); } }
    assert Convertible(items[2]) by { if |t.dotted| > 1 { assert Patterns.IsPosNum(t.dotted[1]); } }
    assert Convertible(items[3]);
    assert Convertible(items[4]);
    assert Convertible(items[5]);
    assert Convertible(items[6]);
    assert Convertible(items[7]);
  }

  /** A digit string holds no ".". */
  lemma NoDot(s: string)
    requires AllDigits(s)
    ensures '.' !in s
  {
    forall i | 0 <= i < |s| ensures s[i] != '.' {
      assert IsDigit(s[i]);
    }
  }

  /** Splitting the text of `.N` groups on "." gives an empty piece, then the numbers. */
  lemma SplitDotted(ds: seq<string>)
    requires forall i :: 0 <= i < |ds| ==> Patterns.IsPosNum(ds[i])
    ensures Split(Patterns.Dotted(ds), '.') == [[]] + ds
  {
    if ds == [] {
      assert Split([], '.') == [[]];
    } else {
      JoinDotted(ds);
      var parts := [[]] + ds;
      forall i | 0 <= i < |parts| ensures '.' !in parts[i] {
        if i > 0 {
          assert parts[i] == ds[i - 1];
          NoDot(ds[i - 1]);
        }
      }
      SplitJoin(parts, '.');
    }
  }

  /** Every piece of the text of `.N` groups is a digit string (the first is empty). */
  lemma DottedPieces(ds: seq<string>)
    requires forall i :: 0 <= i < |ds| ==> Patterns.IsPosNum(ds[i])
    ensures DigitPieces(Patterns.Dotted(ds))
  {
    SplitDotted(ds);
    var parts := [[]] + ds;
    forall i | 0 <= i < |parts| ensures AllDigits(parts[i]) {
      if i > 0 {
        assert parts[i] == ds[i - 1];
      }
    }
  }

  /** The non-empty pieces of that split are the numbers. */
  lemma NonEmptyDotted(ds: seq<string>)
    requires forall i :: 0 <= i < |ds| ==> Patterns.IsPosNum(ds[i])
    ensures NonEmpty([[]] + ds) == ds
  {
    assert ([[]] + ds)[1..] == ds;
    NonEmptyAll(ds);
  }

  lemma {:induction false} JoinDotted(ds: seq<string>)
    ensures ds != [] ==> Patterns.Dotted(ds) == Join([[]] + ds, '.')
    decreases |ds|
  {
    if |ds| > 1 {
      JoinDotted(ds[1..]);
      assert ([[]] + ds)[1..] == ds;
      assert ([[]] + ds[1..])[1..] == ds[1..];
    } else if |ds| == 1 {
      assert ([[]] + ds)[1..] == ds;
    }
  }

  lemma {:induction false} NonEmptyAll(ds: seq<string>)
    requires forall i :: 0 <= i < |ds| ==> ds[i] != []
    ensures NonEmpty(ds) == ds
    decreases |ds|
  {
    if ds != [] {
      NonEmptyAll(ds[1..]);
      assert [ds[0]] + ds[1..] == ds;
    }
  }

  /** The loop over eight items is eight successive stores. */
  lemma StoreEight(items: seq<(Patterns.GroupName, Option<string>)>)
    requires |items| == 8
    requires forall i :: 0 <= i < |items| ==> Convertible(items[i])
    ensures StoreAll(map[], items)
      == Store(Store(Store(Store(Store(Store(Store(Store(map[],
           items[0]), items[1]), items[2]), items[3]), items[4]), items[5]), items[6]), items[7])
  {
    var d0: map<Patterns.GroupName, Field> := map[];
    var d1 := Store(d0, items[0]);
    var d2 := Store(d1, items[1]);
    var d3 := Store(d2, items[2]);
    var d4 := Store(d3, items[3]);
    var d5 := Store(d4, items[4]);
    var d6 := Store(d5, items[5]);
    var d7 := Store(d6, items[6]);
    var d8 := Store(d7, items[7]);
    assert StoreAll(d8, items[8..]) == d8;
    assert StoreAll(d7, items[7..]) == d8 by { assert items[7..][1..] == items[8..]; }
    assert StoreAll(d6, items[6..]) == d8 by { assert items[6..][1..] == items[7..]; }
    assert StoreAll(d5, items[5..]) == d8 by { assert items[5..][1..] == items[6..]; }
    assert StoreAll(d4, items[4..]) == d8 by { assert items[4..][1..] == items[5..]; }
    assert StoreAll(d3, items[3..]) == d8 by { assert items[3..][1..] == items[4..]; }
    assert StoreAll(d2, items[2..]) == d8 by { assert items[2..][1..] == items[3..]; }
    assert StoreAll(d1, items[1..]) == d8 by { assert items[1..][1..] == items[2..]; }
  }

  /** The dictionary the loop leaves for a match, written out group by group. */
  ghost function MatchDict(t: Patterns.VersionText): map<Patterns.GroupName, Field>
    requires Patterns.WellFormed(t)
  {
    WithRelease(CoreDict(t), t)
  }

  /** The entries of the numeric core groups. */
  ghost function CoreDict(t: Patterns.VersionText): map<Patterns.GroupName, Field>
    requires Patterns.WellFormed(t)
  {
    var d1 := map[Patterns.Major := IntField(DecimalValue(t.major))];
    var d2 := if |t.dotted| > 0 then d1[Patterns.Minor := IntField(DecimalValue(t.dotted[0]))] else d1;
    var d3 := if |t.dotted| > 1 then d2[Patterns.Patch := IntField(DecimalValue(t.dotted[1]))] else d2;
    if |t.dotted| > 2 then d3[Patterns.Versions := ListField(IntList(t.dotted[2..]))] else d3
  }

  /** `d` with the entries of the release groups added. */
  ghost function WithRelease(d: map<Patterns.GroupName, Field>, t: Patterns.VersionText): map<Patterns.GroupName, Field>
    requires Patterns.WellFormed(t)
  {
    var d5 := if t.pre.Some? then d[Patterns.PreReleaseType := TextField(t.pre.value.0)] else d;
    var d6 := if t.pre.Some? then d5[Patterns.PreRelease := IntField(DecimalValue(t.pre.value.1))] else d5;
    var d7 := if t.post.Some? then d6[Patterns.PostRelease := IntField(DecimalValue(t.post.value.1))] else d6;
    if t.dev.Some? then d7[Patterns.DevRelease := IntField(DecimalValue(t.dev.value.1))] else d7
  }

  /** Adding the release entries leaves the core entries alone. */
  lemma WithReleaseKeepsCore(d: map<Patterns.GroupName, Field>, t: Patterns.VersionText, k: Patterns.GroupName)
    requires Patterns.WellFormed(t)
    requires k.Major? || k.Minor? || k.Patch? || k.Versions?
    ensures (k in WithRelease(d, t)) == (k in d)
    ensures k in d ==> WithRelease(d, t)[k] == d[k]
  {
  }

  /** The numbers of the text of `.N` groups are those groups' values. */
  lemma VersionsListDotted(tail: seq<string>)
    requires forall i :: 0 <= i < |tail| ==> Patterns.IsPosNum(tail[i])
    ensures forall i :: 0 <= i < |tail| ==> AllDigits(tail[i])
    ensures DigitPieces(Patterns.Dotted(tail))
    ensures VersionsList(Patterns.Dotted(tail)) == IntList(tail)
  {
    DottedPieces(tail);
    SplitDotted(tail);
    NonEmptyDotted(tail);
  }

  lemma StoreTail(d: map<Patterns.GroupName, Field>, tail: seq<string>)
    requires forall i :: 0 <= i < |tail| ==> Patterns.IsPosNum(tail[i])
    ensures forall i :: 0 <= i < |tail| ==> AllDigits(tail[i])
    ensures Convertible((Patterns.Versions, Some(Patterns.Dotted(tail))))
    ensures Store(d, (Patterns.Versions, Some(Patterns.Dotted(tail))))
      == if tail != [] then d[Patterns.Versions := ListField(IntList(tail))] else d
  {
    VersionsListDotted(tail);
    var text := Patterns.Dotted(tail);
    if tail != [] {
      assert text[0] == '.';
      StoreListText(d, text);
    } else {
      assert text == [];
    }
  }

  /** Storing a non-empty `versions` text stores its number list. */
  lemma StoreListText(d: map<Patterns.GroupName, Field>, text: string)
    requires text != [] && DigitPieces(text)
    ensures Store(d, (Patterns.Versions, Some(text))) == d[Patterns.Versions := ListField(VersionsList(text))]
  {
  }

  lemma StoreVersions(d: map<Patterns.GroupName, Field>, t: Patterns.VersionText)
    requires Patterns.WellFormed(t)
    requires Convertible(Patterns.GroupDict(t)[3])
    ensures Store(d, Patterns.GroupDict(t)[3])
      == if |t.dotted| > 2 then d[Patterns.Versions := ListField(IntList(t.dotted[2..]))] else d
  {
    var tail := if |t.dotted| > 2 then t.dotted[2..] else [];
    assert forall i :: 0 <= i < |tail| ==> Patterns.IsPosNum(tail[i]);
    assert Patterns.GroupDict(t)[3] == (Patterns.Versions, Some(Patterns.Dotted(tail)));
    StoreTail(d, tail);
  }

  lemma StoreMatch(t: Patterns.VersionText)
    requires Patterns.WellFormed(t)
    ensures forall i :: 0 <= i < |Patterns.GroupDict(t)| ==> Convertible(Patterns.GroupDict(t)[i])
    ensures StoreAll(map[], Patterns.GroupDict(t)) == MatchDict(t)
  {
    GroupsConvertible(t);
    var items := Patterns.GroupDict(t);
    StoreEight(items);
    StoreCoreGroups(t);
    StoreReleaseGroups(CoreDict(t), t);
  }

  /** The passes over the four core groups build `CoreDict`. */
  lemma StoreCoreGroups(t: Patterns.VersionText)
    requires Patterns.WellFormed(t)
    requires forall i :: 0 <= i < |Patterns.GroupDict(t)| ==> Convertible(Patterns.GroupDict(t)[i])
    ensures var items := Patterns.GroupDict(t);
      Store(Store(Store(Store(map[], items[0]), items[1]), items[2]), items[3]) == CoreDict(t)
  {
    var items := Patterns.GroupDict(t);
    var d1 := map[Patterns.Major := IntField(DecimalValue(t.major))];
    assert Store(map[], items[0]) == d1;
    var d2 := if |t.dotted| > 0 then d1[Patterns.Minor := IntField(DecimalValue(t.dotted[0]))] else d1;
    assert Store(d1, items[1]) == d2;
    var d3 := if |t.dotted| > 1 then d2[Patterns.Patch := IntField(DecimalValue(t.dotted[1]))] else d2;
    assert Store(d2, items[2]) == d3;
    StoreVersions(d3, t);
  }

  /** The passes over the four release groups add `WithRelease`'s entries. */
  lemma StoreReleaseGroups(d: map<Patterns.GroupName, Field>, t: Patterns.VersionText)
    requires Patterns.WellFormed(t)
    requires forall i :: 0 <= i < |Patterns.GroupDict(t)| ==> Convertible(Patterns.GroupDict(t)[i])
    ensures var items := Patterns.GroupDict(t);
      Store(Store(Store(Store(d, items[4]), items[5]), items[6]), items[7]) == WithRelease(d, t)
  {
    var items := Patterns.GroupDict(t);
    var d5 := if t.pre.Some? then d[Patterns.PreReleaseType := TextField(t.pre.value.0)] else d;
    assert Store(d, items[4]) == d5;
    var d6 := if t.pre.Some? then d5[Patterns.PreRelease := IntField(DecimalValue(t.pre.value.1))] else d5;
    assert Store(d5, items[5]) == d6;
    var d7 := if t.post.Some? then d6[Patterns.PostRelease := IntField(DecimalValue(t.post.value.1))] else d6;
    assert Store(d6, items[6]) == d7;
  }

  lemma ConstructMatch(t: Patterns.VersionText)
    requires Patterns.WellFormed(t)
    ensures var d := MatchDict(t);
      Patterns.Major in d && d[Patterns.Major].IntField? && Construct(d) == FromText(t)
  {
    ConstructCore(t);
    ConstructRelease(t);
  }

  lemma ConstructCore(t: Patterns.VersionText)
    requires Patterns.WellFormed(t)
    ensures var d := MatchDict(t);
      && Patterns.Major in d && d[Patterns.Major].IntField?
      && var v, w := Construct(d), FromText(t);
      && v.major == w.major && v.minor == w.minor && v.patch == w.patch && v.versions == w.versions
  {
    var c := CoreDict(t);
    WithReleaseKeepsCore(c, t, Patterns.Major);
    WithReleaseKeepsCore(c, t, Patterns.Minor);
    WithReleaseKeepsCore(c, t, Patterns.Patch);
    WithReleaseKeepsCore(c, t, Patterns.Versions);
  }

  lemma ConstructRelease(t: Patterns.VersionText)
    requires Patterns.WellFormed(t)
    ensures var d := MatchDict(t);
      && Patterns.Major in d && d[Patterns.Major].IntField?
      && var v, w := Construct(d), FromText(t);
      && v.preReleaseType == w.preReleaseType && v.preRelease == w.preRelease
      && v.postRelease == w.postRelease && v.devRelease == w.devRelease
  {
    ReleaseEntries(CoreDict(t), t);
  }

  /** The release entries added to a dictionary of core entries. */
  lemma ReleaseEntries(d: map<Patterns.GroupName, Field>, t: Patterns.VersionText)
    requires Patterns.WellFormed(t)
    requires forall k :: k in d ==> k.Major? || k.Minor? || k.Patch? || k.Versions?
    ensures var e := WithRelease(d, t);
      && (Patterns.PreReleaseType in e <==> t.pre.Some?)
      && (t.pre.Some? ==> e[Patterns.PreReleaseType] == TextField(t.pre.value.0))
      && IntAt(e, Patterns.PreRelease) == (if t.pre.Some? then Some(DecimalValue(t.pre.value.1)) else None)
      && IntAt(e, Patterns.PostRelease) == (if t.post.Some? then Some(DecimalValue(t.post.value.1)) else None)
      && IntAt(e, Patterns.DevRelease) == (if t.dev.Some? then Some(DecimalValue(t.dev.value.1)) else None)
  {
  }

  /** Building the record from the dictionary the loop fills gives the
      field values the match describes. */
  lemma GroupsConstruct(t: Patterns.VersionText)
    requires Patterns.WellFormed(t)
    ensures forall i :: 0 <= i < |Patterns.GroupDict(t)| ==> Convertible(Patterns.GroupDict(t)[i])
    ensures var d := StoreAll(map[], Patterns.GroupDict(t));
      Patterns.Major in d && d[Patterns.Major].IntField? && Construct(d) == FromText(t)
  {
    StoreMatch(t);
    ConstructMatch(t);
  }

  // -----------------------------------------------------------------------
  // to_string

  /** Python truthiness of an optional number: present and non-zero. */
  predicate IsTruthy(x: Option<nat>) {
    x.Some? && x.value != 0
  }

  /** The list `[self.minor, self.patch] + self.versions`. */
  function NumberList(v: SemanticVersion): seq<Option<nat>>
    requires v.versions.Some?
  {
    [v.minor, v.patch] + seq(|v.versions.value|, i requires 0 <= i < |v.versions.value| => Some(v.versions.value[i]))
  }

  /** The list `[self.pre_release, self.post_release, self.dev_release]`. */
  function ReleaseList(v: SemanticVersion): seq<Option<nat>> {
    [v.preRelease, v.postRelease, v.devRelease]
  }

  /** The text `f".{v}"` appends for one entry of `filter(None, ...)`:
      nothing for None or 0. */
  function DotPiece(x: Option<nat>): string {
    if IsTruthy(x) then "." + NatToString(x.value) else ""
  }

  /** The text `str(r)` appends for one entry of `filter(None, ...)`. */
  function DigitPiece(x: Option<nat>): string {
    if IsTruthy(x) then NatToString(x.value) else ""
  }

  /** The pieces of the first loop of `to_string`, in order. */
  function DotText(xs: seq<Option<nat>>): string
    decreases |xs|
  {
    if xs == [] then "" else DotText(xs[..|xs| - 1]) + DotPiece(xs[|xs| - 1])
  }

  /** The pieces of the second loop of `to_string`, in order. */
  function DigitText(xs: seq<Option<nat>>): string
    decreases |xs|
  {
    if xs == [] then "" else DigitText(xs[..|xs| - 1]) + DigitPiece(xs[|xs| - 1])
  }

  /** What `to_string(separator)` returns: the major number, "." and each
      non-zero minor, patch and `versions` entry, then the digits of each
      non-zero pre-, post- and dev-release number with no label, and every
      "." replaced by the separator when that is not ".". Concatenating
      `self.versions` fails with a TypeError when it is None. */
  function Rendering(v: SemanticVersion, separator: string): (r: Result<string>)
    ensures r.Failure? <==> v.versions.None?
    ensures r.Failure? ==> r.error == TypeError
    ensures r.Success? && separator == "." ==> NatToString(v.major) <= r.value
    ensures r.Success? && '.' !in separator ==> '.' !in r.value
  {
    if v.versions.None? then Failure(TypeError)
    else
      var text := NatToString(v.major) + DotText(NumberList(v)) + DigitText(ReleaseList(v));
      Success(if separator != "." then Replace(text, '.', separator) else text)
  }

  lemma DotTextStep(head: string, xs: seq<Option<nat>>, i: nat)
    requires i < |xs|
    ensures head + DotText(xs[..i + 1]) == head + DotText(xs[..i]) + DotPiece(xs[i])
  {
    assert xs[..i + 1][..i] == xs[..i];
  }

  lemma DigitTextStep(head: string, xs: seq<Option<nat>>, i: nat)
    requires i < |xs|
    ensures head + DigitText(xs[..i + 1]) == head + DigitText(xs[..i]) + DigitPiece(xs[i])
  {
    assert xs[..i + 1][..i] == xs[..i];
  }

  /** The first loop of `to_string`: `version += f".{v}"` for each truthy entry. */
  method AppendDotted(head: string, numbers: seq<Option<nat>>) returns (version: string)
    ensures version == head + DotText(numbers)
  {
    version := head;
    var i := 0;
    while i < |numbers|
      invariant 0 <= i <= |numbers|
      invariant version == head + DotText(numbers[..i])
    {
      DotTextStep(head, numbers, i);
      if IsTruthy(numbers[i]) {
        version := version + ("." + NatToString(numbers[i].value));
      }
      i := i + 1;
    }
    assert numbers[..|numbers|] == numbers;
  }

  /** The second loop of `to_string`: `version += str(r)` for each truthy entry. */
  method AppendDigits(head: string, releases: seq<Option<nat>>) returns (version: string)
    ensures version == head + DigitText(releases)
  {
    version := head;
    var j := 0;
    while j < |releases|
      invariant 0 <= j <= |releases|
      invariant version == head + DigitText(releases[..j])
    {
      DigitTextStep(head, releases, j);
      if IsTruthy(releases[j]) {
        version := version + NatToString(releases[j].value);
      }
      j := j + 1;
    }
    assert releases[..|releases|] == releases;
  }

  /** `to_string(separator)`. */
  method ToString(v: SemanticVersion, separator: string) returns (r: Result<string>)
    ensures r == Rendering(v, separator)
  {
    if v.versions.None? {
      return Failure(TypeError);
    }
    var version := AppendDotted(NatToString(v.major), NumberList(v));
    version := AppendDigits(version, ReleaseList(v));
    if separator != "." {
      version := Replace(version, '.', separator);
    }
    return Success(version);
  }

  // -----------------------------------------------------------------------
  // __eq__, __lt__ and the orderings total_ordering derives

  /** `__eq__`: field by field, which is equality of the records. */
  function Eq(a: SemanticVersion, b: SemanticVersion): (r: bool)
    ensures r <==> a == b
  {
    && a.major == b.major
    && a.minor == b.minor
    && a.patch == b.patch
    && a.versions == b.versions
    && a.preReleaseType == b.preReleaseType
    && a.preRelease == b.preRelease
    && a.postRelease == b.postRelease
    && a.devRelease == b.devRelease
  }

  /** An entry of the sort key: -1, a number, or `math.inf`. */
  datatype KeyElem = Neg | Fin(n: nat) | Inf

  /** `<` on key entries: -1 below every number, every number below infinity. */
  predicate ElemLess(a: KeyElem, b: KeyElem) {
    match (a, b)
    case (Neg, Neg) => false
    case (Neg, _) => true
    case (Fin(m), Fin(n)) => m < n
    case (Fin(_), Inf) => true
    case _ => false
  }

  /** `<` on tuples: the first position where they differ decides; a proper
      prefix is smaller. */
  predicate LexLess(x: seq<KeyElem>, y: seq<KeyElem>)
    decreases |x|
  {
    if x == [] then y != []
    else if y == [] then false
    else if x[0] == y[0] then LexLess(x[1..], y[1..])
    else ElemLess(x[0], y[0])
  }

  /** No key is below itself. */
  lemma {:induction false} LexIrreflexive(x: seq<KeyElem>)
    ensures !LexLess(x, x)
    decreases |x|
  {
    if x != [] {
      LexIrreflexive(x[1..]);
    }
  }

  /** `x or math.inf` for an optional number. */
  function OrInf(x: Option<nat>): (e: KeyElem)
    ensures e.Inf? <==> !IsTruthy(x)
    ensures IsTruthy(x) ==> e == Fin(x.value)
  {
    if IsTruthy(x) then Fin(x.value) else Inf
  }

  /** The `versions` entries as key entries (they are not mapped to infinity). */
  function KeyVersions(vs: Option<seq<nat>>): (r: Option<seq<KeyElem>>)
    ensures |OrEmpty(r)| == |OrEmpty(vs)|
  {
    match vs
    case None => None
    case Some(ns) => Some(seq(|ns|, i requires 0 <= i < |ns| => Fin(ns[i])))
  }

  /** The release part of the key: a post- or dev-release sets the
      pre-release entries to -1, and a dev-release sets the post-release
      entry to -1; missing or zero entries are infinity. */
  function ReleaseKey(v: SemanticVersion): seq<KeyElem> {
    var plain := !IsTruthy(v.postRelease) && !IsTruthy(v.devRelease);
    [ if plain then OrInf(PreReleaseTypeToInt(v.preReleaseType)) else Neg,
      if plain then OrInf(v.preRelease) else Neg,
      if !IsTruthy(v.devRelease) then OrInf(v.postRelease) else Neg,
      OrInf(v.devRelease) ]
  }

  /** `__compare_tuple(v, v_length)`: major, minor, patch, the `versions`
      entries padded with infinity to `length`, then the release part. */
  function CompareTuple(v: SemanticVersion, length: int): (key: seq<KeyElem>)
    ensures |key| == 3 + (if length > |OrEmpty(v.versions)| then length else |OrEmpty(v.versions)|) + 4
  {
    [Fin(v.major), OrInf(v.minor), OrInf(v.patch)]
      + Pad(KeyVersions(v.versions), length, Inf)
      + ReleaseKey(v)
  }

  /** The length both keys are padded to. */
  function KeyLength(a: SemanticVersion, b: SemanticVersion): nat {
    var m, n := |OrEmpty(a.versions)|, |OrEmpty(b.versions)|;
    if m > n then m else n
  }

  /** `__lt__`: the keys of both versions, padded to the longer `versions`
      list, compared as tuples. */
  predicate Lt(a: SemanticVersion, b: SemanticVersion)
    ensures Lt(a, b) ==> a != b
    ensures a.major < b.major ==> Lt(a, b)
    ensures b.major < a.major ==> !Lt(a, b)
  {
    var n := KeyLength(a, b);
    LexIrreflexive(CompareTuple(a, n));
    LexLess(CompareTuple(a, n), CompareTuple(b, n))
  }

  /** `__le__` from total_ordering: `a < b or a == b`. */
  predicate Le(a: SemanticVersion, b: SemanticVersion)
    ensures Le(a, b) <==> Lt(a, b) || a == b
    ensures b.major < a.major ==> !Le(a, b)
  {
    Lt(a, b) || Eq(a, b)
  }

  /** `__gt__` from total_ordering: `not a < b and a != b`. */
  predicate Gt(a: SemanticVersion, b: SemanticVersion)
    ensures Gt(a, b) ==> a != b
    ensures b.major < a.major ==> Gt(a, b)
    ensures a.major < b.major ==> !Gt(a, b)
  {
    !Lt(a, b) && !Eq(a, b)
  }

  /** `__ge__` from total_ordering: `not a < b`. */
  predicate Ge(a: SemanticVersion, b: SemanticVersion)
    ensures Ge(a, b) <==> Gt(a, b) || a == b
  {
    !Lt(a, b)
  }

  /** `__ne__`: the negation of `__eq__`. */
  predicate Ne(a: SemanticVersion, b: SemanticVersion)
    ensures Ne(a, b) <==> a != b
  {
    !Eq(a, b)
  }
}
