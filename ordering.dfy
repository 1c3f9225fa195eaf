/** Properties of the ordering semantic_version.py defines: tuple
    comparison on sort keys, independence from the pad length, the strict
    weak order `__lt__` induces, the release ladder, and the consequences of
    treating zero as missing. */
module VersionOrder {
  import opened Wrappers
  import opened Utils
  import opened SemanticVersions

  // -----------------------------------------------------------------------
  // entries and tuples

  lemma ElemOrder(a: KeyElem, b: KeyElem, c: KeyElem)
    ensures !ElemLess(a, a)
    ensures ElemLess(a, b) ==> !ElemLess(b, a)
    ensures ElemLess(a, b) && ElemLess(b, c) ==> ElemLess(a, c)
    ensures a == b || ElemLess(a, b) || ElemLess(b, a)
  {
  }

  /** Tuple comparison is transitive. */
  lemma {:induction false} LexTransitive(x: seq<KeyElem>, y: seq<KeyElem>, z: seq<KeyElem>)
    requires LexLess(x, y) && LexLess(y, z)
    ensures LexLess(x, z)
    decreases |x|
  {
    if x != [] {
      ElemOrder(x[0], y[0], z[0]);
      if x[0] == y[0] && y[0] == z[0] {
        LexTransitive(x[1..], y[1..], z[1..]);
      }
    }
  }

  /** Of two keys, either they are equal or one is below the other, never both. */
  lemma {:induction false} LexTrichotomy(x: seq<KeyElem>, y: seq<KeyElem>)
    ensures x == y || LexLess(x, y) || LexLess(y, x)
    ensures !(LexLess(x, y) && LexLess(y, x))
    ensures x == y ==> !LexLess(x, y)
    decreases |x|
  {
    if x == y {
      LexIrreflexive(x);
    } else if x != [] && y != [] {
      ElemOrder(x[0], y[0], y[0]);
      if x[0] == y[0] {
        LexTrichotomy(x[1..], y[1..]);
        assert x == [x[0]] + x[1..] && y == [y[0]] + y[1..];
      }
    }
  }

  /** A common prefix does not affect the comparison. */
  lemma {:induction false} LexCommonPrefix(p: seq<KeyElem>, x: seq<KeyElem>, y: seq<KeyElem>)
    ensures LexLess(p + x, p + y) == LexLess(x, y)
    decreases |p|
  {
    if p == [] {
      assert p + x == x && p + y == y;
    } else {
      assert (p + x)[0] == p[0] == (p + y)[0];
      assert (p + x)[1..] == p[1..] + x;
      assert (p + y)[1..] == p[1..] + y;
      LexCommonPrefix(p[1..], x, y);
    }
  }

  /** Inserting the same entry at the same position of two keys does not
      change their order. */
  lemma {:induction false} LexInsert(p: seq<KeyElem>, q: seq<KeyElem>, e: KeyElem, x: seq<KeyElem>, y: seq<KeyElem>)
    requires |p| == |q|
    ensures LexLess(p + [e] + x, q + [e] + y) == LexLess(p + x, q + y)
    ensures (p + [e] + x == q + [e] + y) == (p + x == q + y)
    decreases |p|
  {
    if p == [] {
      assert (p + [e] + x)[1..] == x && (q + [e] + y)[1..] == y;
      assert p + x == x && q + y == y;
    } else {
      assert (p + [e] + x)[1..] == p[1..] + [e] + x;
      assert (q + [e] + y)[1..] == q[1..] + [e] + y;
      assert (p + x)[1..] == p[1..] + x;
      assert (q + y)[1..] == q[1..] + y;
      LexInsert(p[1..], q[1..], e, x, y);
      if p + x == q + y {
        assert p == (p + x)[..|p|] == (q + y)[..|q|] == q;
      }
      if p[0] == q[0] && p[1..] + x == q[1..] + y {
        assert p + x == [p[0]] + (p[1..] + x);
        assert q + y == [q[0]] + (q[1..] + y);
      }
      if p[0] == q[0] && p[1..] + [e] + x == q[1..] + [e] + y {
        assert p + [e] + x == [p[0]] + (p[1..] + [e] + x);
        assert q + [e] + y == [q[0]] + (q[1..] + [e] + y);
      }
    }
  }

  // -----------------------------------------------------------------------
  // the pad length

  /** A key with the given three leading entries: the padded list, then
      the release part. */
  function Assemble(head: seq<KeyElem>, v: SemanticVersion, n: nat): seq<KeyElem> {
    head + Pad(KeyVersions(v.versions), n, Inf) + ReleaseKey(v)
  }

  /** Padding one further position inserts `math.inf` after the padded list. */
  lemma KeyStep(head: seq<KeyElem>, v: SemanticVersion, n: nat)
    requires |head| == 3 && n >= |OrEmpty(v.versions)|
    ensures Assemble(head, v, n + 1) == Assemble(head, v, n)[..3 + n] + [Inf] + Assemble(head, v, n)[3 + n..]
  {
    var padded := Pad(KeyVersions(v.versions), n, Inf);
    PadStep(KeyVersions(v.versions), n, Inf);
    var key := Assemble(head, v, n);
    assert key == (head + padded) + ReleaseKey(v);
    assert |head + padded| == 3 + n;
    assert key[..3 + n] == head + padded;
    assert key[3 + n..] == ReleaseKey(v);
  }

  /** Comparing two keys padded to any common length at least both list
      lengths gives the same answer, whatever their leading entries. */
  lemma {:induction false} AssembleIndependent(ha: seq<KeyElem>, hb: seq<KeyElem>, a: SemanticVersion, b: SemanticVersion, n: nat, m: nat)
    requires |ha| == 3 && |hb| == 3
    requires KeyLength(a, b) <= n <= m
    ensures LexLess(Assemble(ha, a, n), Assemble(hb, b, n)) == LexLess(Assemble(ha, a, m), Assemble(hb, b, m))
    ensures (Assemble(ha, a, n) == Assemble(hb, b, n)) == (Assemble(ha, a, m) == Assemble(hb, b, m))
    decreases m - n
  {
    if n < m {
      AssembleIndependent(ha, hb, a, b, n + 1, m);
      KeyStep(ha, a, n);
      KeyStep(hb, b, n);
      var ka, kb := Assemble(ha, a, n), Assemble(hb, b, n);
      LexInsert(ka[..3 + n], kb[..3 + n], Inf, ka[3 + n..], kb[3 + n..]);
      assert ka[..3 + n] + ka[3 + n..] == ka;
      assert kb[..3 + n] + kb[3 + n..] == kb;
    }
  }

  /** The leading entries of `__compare_tuple`. */
  function Head(v: SemanticVersion): seq<KeyElem> {
    [Fin(v.major), OrInf(v.minor), OrInf(v.patch)]
  }

  /** Comparing two sort keys padded to any common length at least both list
      lengths gives the same answer. */
  lemma PadIndependent(a: SemanticVersion, b: SemanticVersion, n: nat, m: nat)
    requires KeyLength(a, b) <= n <= m
    ensures LexLess(CompareTuple(a, n), CompareTuple(b, n)) == LexLess(CompareTuple(a, m), CompareTuple(b, m))
    ensures (CompareTuple(a, n) == CompareTuple(b, n)) == (CompareTuple(a, m) == CompareTuple(b, m))
  {
    AssembleIndependent(Head(a), Head(b), a, b, n, m);
    assert CompareTuple(a, n) == Assemble(Head(a), a, n) && CompareTuple(a, m) == Assemble(Head(a), a, m);
    assert CompareTuple(b, n) == Assemble(Head(b), b, n) && CompareTuple(b, m) == Assemble(Head(b), b, m);
  }

  /** `__lt__` decided at any sufficient pad length. */
  lemma LtAtLength(a: SemanticVersion, b: SemanticVersion, n: nat)
    requires n >= KeyLength(a, b)
    ensures Lt(a, b) == LexLess(CompareTuple(a, n), CompareTuple(b, n))
  {
    PadIndependent(a, b, KeyLength(a, b), n);
  }

  // -----------------------------------------------------------------------
  // __lt__ is a strict weak order

  /** Neither of two versions is below the other. */
  predicate Tied(a: SemanticVersion, b: SemanticVersion) {
    !Lt(a, b) && !Lt(b, a)
  }

  lemma LtIrreflexive(a: SemanticVersion)
    ensures !Lt(a, a)
  {
    LexIrreflexive(CompareTuple(a, KeyLength(a, a)));
  }

  lemma LtAsymmetric(a: SemanticVersion, b: SemanticVersion)
    requires Lt(a, b)
    ensures !Lt(b, a)
  {
    assert KeyLength(a, b) == KeyLength(b, a);
    LexTrichotomy(CompareTuple(a, KeyLength(a, b)), CompareTuple(b, KeyLength(a, b)));
  }

  lemma LtTransitive(a: SemanticVersion, b: SemanticVersion, c: SemanticVersion)
    requires Lt(a, b) && Lt(b, c)
    ensures Lt(a, c)
  {
    var n := KeyLength(a, b);
    if KeyLength(b, c) > n { n := KeyLength(b, c); }
    if KeyLength(a, c) > n { n := KeyLength(a, c); }
    LtAtLength(a, b, n);
    LtAtLength(b, c, n);
    LtAtLength(a, c, n);
    LexTransitive(CompareTuple(a, n), CompareTuple(b, n), CompareTuple(c, n));
  }

  /** Two versions are tied exactly when their keys coincide. */
  lemma TiedKeys(a: SemanticVersion, b: SemanticVersion, n: nat)
    requires n >= KeyLength(a, b)
    ensures Tied(a, b) <==> CompareTuple(a, n) == CompareTuple(b, n)
  {
    assert KeyLength(a, b) == KeyLength(b, a);
    PadIndependent(a, b, KeyLength(a, b), n);
    LtAtLength(a, b, n);
    LtAtLength(b, a, n);
    LexTrichotomy(CompareTuple(a, n), CompareTuple(b, n));
  }

  /** Being tied is transitive, so `__lt__` is a strict weak order. */
  lemma TiedTransitive(a: SemanticVersion, b: SemanticVersion, c: SemanticVersion)
    requires Tied(a, b) && Tied(b, c)
    ensures Tied(a, c)
  {
    var n := KeyLength(a, b);
    if KeyLength(b, c) > n { n := KeyLength(b, c); }
    if KeyLength(a, c) > n { n := KeyLength(a, c); }
    TiedKeys(a, b, n);
    TiedKeys(b, c, n);
    TiedKeys(a, c, n);
  }

  /** The first position where two keys differ decides. */
  lemma {:induction false} LexAt(x: seq<KeyElem>, y: seq<KeyElem>, i: nat)
    requires i < |x| && i < |y|
    requires forall j :: 0 <= j < i ==> x[j] == y[j]
    requires ElemLess(x[i], y[i])
    ensures LexLess(x, y)
    decreases i
  {
    if i > 0 {
      LexAt(x[1..], y[1..], i - 1);
    }
  }

  /** Two versions with the same numeric core: major, minor, patch, versions. */
  predicate SameCore(v: SemanticVersion, w: SemanticVersion) {
    v.major == w.major && v.minor == w.minor && v.patch == w.patch && v.versions == w.versions
  }

  /** For the same numeric core only the release part of the key matters. */
  lemma ReleaseDecides(v: SemanticVersion, w: SemanticVersion)
    requires SameCore(v, w)
    ensures Lt(v, w) == LexLess(ReleaseKey(v), ReleaseKey(w))
  {
    var n := KeyLength(v, w);
    var p := [Fin(v.major), OrInf(v.minor), OrInf(v.patch)] + Pad(KeyVersions(v.versions), n, Inf);
    assert CompareTuple(v, n) == p + ReleaseKey(v);
    assert CompareTuple(w, n) == p + ReleaseKey(w);
    LexCommonPrefix(p, ReleaseKey(v), ReleaseKey(w));
  }

  /** Whether a version has no post- and no dev-release (zero counts as none). */
  predicate Plain(v: SemanticVersion) {
    !IsTruthy(v.postRelease) && !IsTruthy(v.devRelease)
  }

  // -----------------------------------------------------------------------
  // the release ladder for one numeric core: dev < post < pre < plain

  /** A post- or dev-release sorts below every version without either,
      pre-release or final. */
  lemma PostOrDevBelowPlain(v: SemanticVersion, w: SemanticVersion)
    requires SameCore(v, w)
    requires !Plain(v) && Plain(w)
    ensures Lt(v, w)
  {
    ReleaseDecides(v, w);
    LexAt(ReleaseKey(v), ReleaseKey(w), 0);
  }

  /** A dev-release sorts below a post-release without a dev-release. */
  lemma DevBelowPost(v: SemanticVersion, w: SemanticVersion)
    requires SameCore(v, w)
    requires IsTruthy(v.devRelease)
    requires IsTruthy(w.postRelease) && !IsTruthy(w.devRelease)
    ensures Lt(v, w)
  {
    ReleaseDecides(v, w);
    LexAt(ReleaseKey(v), ReleaseKey(w), 2);
  }

  /** A pre-release sorts below the final release. */
  lemma PreBelowFinal(v: SemanticVersion, w: SemanticVersion)
    requires SameCore(v, w) && Plain(v) && Plain(w)
    requires v.preReleaseType.Some? && w.preReleaseType.None?
    ensures Lt(v, w)
  {
    ReleaseDecides(v, w);
    LexAt(ReleaseKey(v), ReleaseKey(w), 0);
  }

  /** Pre-releases of different labels order as a < b < rc. */
  lemma PreLabelOrder(v: SemanticVersion, w: SemanticVersion)
    requires SameCore(v, w) && Plain(v) && Plain(w)
    requires v.preReleaseType.Some? && w.preReleaseType.Some? && v.preReleaseType != w.preReleaseType
    ensures Lt(v, w) <==> LabelIndex(v.preReleaseType.value) < LabelIndex(w.preReleaseType.value)
  {
    ReleaseDecides(v, w);
    RankIncreasing(v.preReleaseType.value, w.preReleaseType.value);
    RankIncreasing(w.preReleaseType.value, v.preReleaseType.value);
    var x, y := ReleaseKey(v), ReleaseKey(w);
    if LabelIndex(v.preReleaseType.value) < LabelIndex(w.preReleaseType.value) {
      LexAt(x, y, 0);
    } else {
      LexAt(y, x, 0);
      ReleaseDecides(w, v);
      LtAsymmetric(w, v);
    }
  }

  /** Pre-releases of one label order by their non-zero numbers. */
  lemma PreNumberOrder(v: SemanticVersion, w: SemanticVersion)
    requires SameCore(v, w) && Plain(v) && Plain(w)
    requires v.preReleaseType == w.preReleaseType
    requires IsTruthy(v.preRelease) && IsTruthy(w.preRelease)
    ensures Lt(v, w) <==> v.preRelease.value < w.preRelease.value
  {
    ReleaseDecides(v, w);
    var x, y := ReleaseKey(v), ReleaseKey(w);
    if v.preRelease.value < w.preRelease.value {
      LexAt(x, y, 1);
    } else if v.preRelease == w.preRelease {
      assert x == y;
      LexIrreflexive(x);
    } else {
      LexAt(y, x, 1);
      LexTrichotomy(x, y);
    }
  }

  /** Dev-releases of one numeric core order by their numbers. */
  lemma DevNumberOrder(v: SemanticVersion, w: SemanticVersion)
    requires SameCore(v, w)
    requires IsTruthy(v.devRelease) && IsTruthy(w.devRelease)
    ensures Lt(v, w) <==> v.devRelease.value < w.devRelease.value
  {
    ReleaseDecides(v, w);
    var x, y := ReleaseKey(v), ReleaseKey(w);
    if v.devRelease.value < w.devRelease.value {
      LexAt(x, y, 3);
    } else if v.devRelease == w.devRelease {
      assert x == y;
      LexIrreflexive(x);
    } else {
      LexAt(y, x, 3);
      LexTrichotomy(x, y);
    }
  }

  // -----------------------------------------------------------------------
  // the numeric core

  /** A smaller major number sorts lower, whatever follows. */
  lemma MajorDecides(v: SemanticVersion, w: SemanticVersion)
    requires v.major < w.major
    ensures Lt(v, w)
  {
    var n := KeyLength(v, w);
    LexAt(CompareTuple(v, n), CompareTuple(w, n), 0);
  }

  /** For one major number, a smaller non-zero minor sorts lower, and a
      missing (or zero) minor sorts above every non-zero one. */
  lemma MinorDecides(v: SemanticVersion, w: SemanticVersion)
    requires v.major == w.major && IsTruthy(v.minor)
    requires IsTruthy(w.minor) ==> v.minor.value < w.minor.value
    ensures Lt(v, w)
  {
    var n := KeyLength(v, w);
    LexAt(CompareTuple(v, n), CompareTuple(w, n), 1);
  }

  /** For one major and minor, the same holds of the patch number. */
  lemma PatchDecides(v: SemanticVersion, w: SemanticVersion)
    requires v.major == w.major && v.minor == w.minor && IsTruthy(v.patch)
    requires IsTruthy(w.patch) ==> v.patch.value < w.patch.value
    ensures Lt(v, w)
  {
    var n := KeyLength(v, w);
    LexAt(CompareTuple(v, n), CompareTuple(w, n), 2);
  }

  /** For one major, minor and patch, the `versions` lists compare entry by
      entry, and a list that ends where the other goes on sorts above it. */
  lemma TailDecides(v: SemanticVersion, w: SemanticVersion, i: nat)
    requires v.major == w.major && v.minor == w.minor && v.patch == w.patch
    requires i < |OrEmpty(v.versions)| && i <= |OrEmpty(w.versions)|
    requires OrEmpty(v.versions)[..i] == OrEmpty(w.versions)[..i]
    requires i < |OrEmpty(w.versions)| ==> OrEmpty(v.versions)[i] < OrEmpty(w.versions)[i]
    ensures Lt(v, w)
  {
    var n := KeyLength(v, w);
    var vs, ws := OrEmpty(v.versions), OrEmpty(w.versions);
    var x, y := CompareTuple(v, n), CompareTuple(w, n);
    var pv, pw := Pad(KeyVersions(v.versions), n, Inf), Pad(KeyVersions(w.versions), n, Inf);
    assert x == [Fin(v.major), OrInf(v.minor), OrInf(v.patch)] + pv + ReleaseKey(v);
    assert y == [Fin(w.major), OrInf(w.minor), OrInf(w.patch)] + pw + ReleaseKey(w);
    forall j | 0 <= j < 3 + i ensures x[j] == y[j] {
      if j >= 3 {
        var k := j - 3;
        assert vs[k] == vs[..i][k] == ws[..i][k] == ws[k];
        assert pv[k] == OrEmpty(KeyVersions(v.versions))[k] == Fin(vs[k]);
        assert pw[k] == OrEmpty(KeyVersions(w.versions))[k] == Fin(ws[k]);
        assert x[j] == pv[k] && y[j] == pw[k];
      }
    }
    assert x[3 + i] == pv[i] == Fin(vs[i]);
    assert y[3 + i] == pw[i];
    if i < |ws| {
      assert pw[i] == Fin(ws[i]);
    }
    LexAt(x, y, 3 + i);
  }

  // -----------------------------------------------------------------------
  // zero counts as missing

  /** Two optional numbers that `x or math.inf` cannot tell apart. */
  predicate SameTruth(x: Option<nat>, y: Option<nat>) {
    x == y || (!IsTruthy(x) && !IsTruthy(y))
  }

  /** Versions that differ only by a zero standing where the other has
      nothing (in minor, patch, pre-, post- or dev-release number, or an
      empty `versions` list against None) are tied. */
  lemma ZeroCountsAsMissing(v: SemanticVersion, w: SemanticVersion)
    requires v.major == w.major && OrEmpty(v.versions) == OrEmpty(w.versions)
    requires v.preReleaseType == w.preReleaseType
    requires SameTruth(v.minor, w.minor) && SameTruth(v.patch, w.patch)
    requires SameTruth(v.preRelease, w.preRelease)
    requires SameTruth(v.postRelease, w.postRelease) && SameTruth(v.devRelease, w.devRelease)
    ensures Tied(v, w)
  {
    var n := KeyLength(v, w);
    assert Pad(KeyVersions(v.versions), n, Inf) == Pad(KeyVersions(w.versions), n, Inf);
    assert ReleaseKey(v) == ReleaseKey(w);
    assert CompareTuple(v, n) == CompareTuple(w, n);
    TiedKeys(v, w, n);
  }

  /** `SemanticVersion(1, 0)` and `SemanticVersion(1)` are unequal, neither
      is below the other, and each is `>` the other. */
  lemma ZeroMinorBothGreater()
    ensures var a, b := SemanticVersion(1, Some(0)), SemanticVersion(1);
      && !Eq(a, b) && Tied(a, b)
      && Gt(a, b) && Gt(b, a) && !Le(a, b) && !Le(b, a)
  {
    ZeroCountsAsMissing(SemanticVersion(1, Some(0)), SemanticVersion(1));
  }

  // -----------------------------------------------------------------------
  // the relations total_ordering derives

  /** Equal versions are tied, hence `<=` and `>=` but not `<` or `>`. */
  lemma EqualVersionsCompare(a: SemanticVersion, b: SemanticVersion)
    requires Eq(a, b)
    ensures Tied(a, b) && Le(a, b) && Ge(a, b) && !Gt(a, b) && !Lt(a, b)
  {
    LtIrreflexive(a);
  }

  /** `>` is the converse of `<` only up to ties: it also holds between
      unequal tied versions. */
  lemma GtConverse(a: SemanticVersion, b: SemanticVersion)
    ensures Gt(a, b) <==> Lt(b, a) || (Tied(a, b) && a != b)
  {
    if Lt(b, a) {
      LtAsymmetric(b, a);
      LtIrreflexive(a);
    }
  }

  /** `>=` is `>` or `==`. */
  lemma GeIsGtOrEq(a: SemanticVersion, b: SemanticVersion)
    ensures Ge(a, b) <==> Gt(a, b) || Eq(a, b)
  {
    if Eq(a, b) {
      LtIrreflexive(a);
    }
  }

  /** `<=` is transitive, like `<`. */
  lemma LeTransitive(a: SemanticVersion, b: SemanticVersion, c: SemanticVersion)
    requires Le(a, b) && Le(b, c)
    ensures Le(a, c)
  {
    if Lt(a, b) && Lt(b, c) {
      LtTransitive(a, b, c);
    }
  }

  // -----------------------------------------------------------------------
  // the comparisons the tests assert

  lemma CoreExamples()
    ensures Lt(SemanticVersion(1), SemanticVersion(2))
    ensures Lt(SemanticVersion(1, Some(1)), SemanticVersion(2))
    ensures Lt(SemanticVersion(1, Some(1), Some(3)), SemanticVersion(2))
    ensures Lt(SemanticVersion(1, Some(1)), SemanticVersion(1, Some(2)))
    ensures Lt(SemanticVersion(1, Some(1), Some(1)), SemanticVersion(1, Some(2)))
    ensures Lt(SemanticVersion(1, Some(1), Some(1)), SemanticVersion(1, Some(1), Some(2)))
    ensures Lt(SemanticVersion(1, Some(1), Some(1), Some([1])), SemanticVersion(1, Some(1), Some(2)))
  {
    MajorDecides(SemanticVersion(1), SemanticVersion(2));
    MajorDecides(SemanticVersion(1, Some(1)), SemanticVersion(2));
    MajorDecides(SemanticVersion(1, Some(1), Some(3)), SemanticVersion(2));
    MinorDecides(SemanticVersion(1, Some(1)), SemanticVersion(1, Some(2)));
    MinorDecides(SemanticVersion(1, Some(1), Some(1)), SemanticVersion(1, Some(2)));
    PatchDecides(SemanticVersion(1, Some(1), Some(1)), SemanticVersion(1, Some(1), Some(2)));
    PatchDecides(SemanticVersion(1, Some(1), Some(1), Some([1])), SemanticVersion(1, Some(1), Some(2)));
  }

  lemma TailExamples()
    ensures Lt(SemanticVersion(1, Some(1), Some(1), Some([1, 1])), SemanticVersion(1, Some(1), Some(1), Some([2])))
    ensures Lt(SemanticVersion(1, Some(1), Some(1), Some([1, 1])), SemanticVersion(1, Some(1), Some(1), Some([1, 2])))
  {
    TailDecides(SemanticVersion(1, Some(1), Some(1), Some([1, 1])), SemanticVersion(1, Some(1), Some(1), Some([2])), 0);
    var v, w := SemanticVersion(1, Some(1), Some(1), Some([1, 1])), SemanticVersion(1, Some(1), Some(1), Some([1, 2]));
    assert OrEmpty(v.versions)[..1] == [1] == OrEmpty(w.versions)[..1];
    TailDecides(v, w, 1);
  }

  lemma ReleaseExamples()
    ensures Lt(SemanticVersion(1, preReleaseType := Some(Alpha), preRelease := Some(1)), SemanticVersion(1))
    ensures Lt(SemanticVersion(1, preReleaseType := Some(Alpha), preRelease := Some(1)),
               SemanticVersion(1, preReleaseType := Some(Beta), preRelease := Some(1)))
    ensures Lt(SemanticVersion(1, preReleaseType := Some(Alpha), preRelease := Some(1)),
               SemanticVersion(1, preReleaseType := Some(Alpha), preRelease := Some(2)))
    ensures Lt(SemanticVersion(1, postRelease := Some(1)),
               SemanticVersion(1, preReleaseType := Some(Alpha), preRelease := Some(1)))
    ensures Lt(SemanticVersion(1, devRelease := Some(1)), SemanticVersion(1, postRelease := Some(1)))
    ensures Lt(SemanticVersion(1, Some(0), Some(0), devRelease := Some(1)),
               SemanticVersion(1, Some(0), Some(0), devRelease := Some(2)))
    ensures Lt(SemanticVersion(1, Some(0), Some(0), Some([1, 1]), devRelease := Some(1)),
               SemanticVersion(1, Some(0), Some(0), Some([1, 1]), devRelease := Some(2)))
  {
    var a1 := SemanticVersion(1, preReleaseType := Some(Alpha), preRelease := Some(1));
    PreBelowFinal(a1, SemanticVersion(1));
    PreLabelOrder(a1, SemanticVersion(1, preReleaseType := Some(Beta), preRelease := Some(1)));
    PreNumberOrder(a1, SemanticVersion(1, preReleaseType := Some(Alpha), preRelease := Some(2)));
    PostOrDevBelowPlain(SemanticVersion(1, postRelease := Some(1)), a1);
    DevBelowPost(SemanticVersion(1, devRelease := Some(1)), SemanticVersion(1, postRelease := Some(1)));
    DevNumberOrder(SemanticVersion(1, Some(0), Some(0), devRelease := Some(1)),
                   SemanticVersion(1, Some(0), Some(0), devRelease := Some(2)));
    DevNumberOrder(SemanticVersion(1, Some(0), Some(0), Some([1, 1]), devRelease := Some(1)),
                   SemanticVersion(1, Some(0), Some(0), Some([1, 1]), devRelease := Some(2)));
  }

  // -----------------------------------------------------------------------
  // the numeric core as evidently intended: only a missing minor or patch
  // sorts above every number, and 0 is an ordinary number

  /** `x if x is not None else math.inf`. */
  function NoneInf(x: Option<nat>): (e: KeyElem)
    ensures e.Inf? <==> x.None?
    ensures x.Some? ==> e == Fin(x.value)
  {
    match x
    case None => Inf
    case Some(n) => Fin(n)
  }

  function IntendedHead(v: SemanticVersion): seq<KeyElem> {
    [Fin(v.major), NoneInf(v.minor), NoneInf(v.patch)]
  }

  /** `__lt__` over the corrected key. */
  predicate IntendedLt(a: SemanticVersion, b: SemanticVersion)
    ensures IntendedLt(a, b) ==> a != b
    ensures a.major < b.major ==> IntendedLt(a, b)
    ensures b.major < a.major ==> !IntendedLt(a, b)
  {
    var n := KeyLength(a, b);
    LexIrreflexive(Assemble(IntendedHead(a), a, n));
    LexLess(Assemble(IntendedHead(a), a, n), Assemble(IntendedHead(b), b, n))
  }

  /** Without a zero minor or patch the corrected order is the written one. */
  lemma IntendedAgrees(a: SemanticVersion, b: SemanticVersion)
    requires a.minor != Some(0) && a.patch != Some(0)
    requires b.minor != Some(0) && b.patch != Some(0)
    ensures IntendedLt(a, b) == Lt(a, b)
  {
    assert IntendedHead(a) == Head(a) && IntendedHead(b) == Head(b);
    var n := KeyLength(a, b);
    assert CompareTuple(a, n) == Assemble(Head(a), a, n);
    assert CompareTuple(b, n) == Assemble(Head(b), b, n);
  }

  lemma IntendedIrreflexive(a: SemanticVersion)
    ensures !IntendedLt(a, a)
  {
    LexIrreflexive(Assemble(IntendedHead(a), a, KeyLength(a, a)));
  }

  lemma IntendedAsymmetric(a: SemanticVersion, b: SemanticVersion)
    requires IntendedLt(a, b)
    ensures !IntendedLt(b, a)
  {
    var n := KeyLength(a, b);
    assert KeyLength(b, a) == n;
    LexTrichotomy(Assemble(IntendedHead(a), a, n), Assemble(IntendedHead(b), b, n));
  }

  lemma IntendedTransitive(a: SemanticVersion, b: SemanticVersion, c: SemanticVersion)
    requires IntendedLt(a, b) && IntendedLt(b, c)
    ensures IntendedLt(a, c)
  {
    var n := KeyLength(a, b);
    if KeyLength(b, c) > n { n := KeyLength(b, c); }
    if KeyLength(a, c) > n { n := KeyLength(a, c); }
    var ha, hb, hc := IntendedHead(a), IntendedHead(b), IntendedHead(c);
    AssembleIndependent(ha, hb, a, b, KeyLength(a, b), n);
    AssembleIndependent(hb, hc, b, c, KeyLength(b, c), n);
    AssembleIndependent(ha, hc, a, c, KeyLength(a, c), n);
    LexTransitive(Assemble(ha, a, n), Assemble(hb, b, n), Assemble(hc, c, n));
  }

  /** For one major and minor, explicit patches order by number, zero included. */
  lemma IntendedPatchOrder(v: SemanticVersion, w: SemanticVersion)
    requires v.major == w.major && v.minor == w.minor
    requires v.patch.Some? && w.patch.Some? && v.patch != w.patch
    ensures IntendedLt(v, w) <==> v.patch.value < w.patch.value
  {
    var n := KeyLength(v, w);
    assert KeyLength(w, v) == n;
    var x, y := Assemble(IntendedHead(v), v, n), Assemble(IntendedHead(w), w, n);
    if v.patch.value < w.patch.value {
      LexAt(x, y, 2);
    } else {
      LexAt(y, x, 2);
      LexTrichotomy(x, y);
    }
  }

  /** For one major, explicit minors order by number, zero included. */
  lemma IntendedMinorOrder(v: SemanticVersion, w: SemanticVersion)
    requires v.major == w.major
    requires v.minor.Some? && w.minor.Some? && v.minor != w.minor
    ensures IntendedLt(v, w) <==> v.minor.value < w.minor.value
  {
    var n := KeyLength(v, w);
    assert KeyLength(w, v) == n;
    var x, y := Assemble(IntendedHead(v), v, n), Assemble(IntendedHead(w), w, n);
    if v.minor.value < w.minor.value {
      LexAt(x, y, 1);
    } else {
      LexAt(y, x, 1);
      LexTrichotomy(x, y);
    }
  }

  /** `SemanticVersion(1, 2, 0)` sorts above `SemanticVersion(1, 2, 1)` as
      written, and below it once zero is a number. */
  lemma ZeroPatchAboveOne()
    ensures var a, b := SemanticVersion(1, Some(2), Some(0)), SemanticVersion(1, Some(2), Some(1));
      && Lt(b, a) && !Lt(a, b) && Gt(a, b)
      && IntendedLt(a, b) && !IntendedLt(b, a)
  {
    var a, b := SemanticVersion(1, Some(2), Some(0)), SemanticVersion(1, Some(2), Some(1));
    PatchDecides(b, a);
    LtAsymmetric(b, a);
    IntendedPatchOrder(a, b);
    IntendedPatchOrder(b, a);
  }
}
