/** utils.py: the pre-release rank map, list padding and the dispatch of the
    six plain comparison operators. */
module Utils {
  import opened Wrappers
  import Flags

  /** The pre-release labels Literal["a", "b", "rc"]. */
  datatype PreReleaseType = Alpha | Beta | ReleaseCandidate

  /** The label's text, as it appears in version strings. */
  function LabelText(t: PreReleaseType): string {
    match t
    case Alpha => "a"
    case Beta => "b"
    case ReleaseCandidate => "rc"
  }

  /** `pre_release_type_to_int`: a missing label stays missing; `a`, `b` and
      `rc` rank 1, 2 and 3, so no present label has the falsy rank 0. */
  function PreReleaseTypeToInt(t: Option<PreReleaseType>): (r: Option<nat>)
    ensures r.None? <==> t.None?
    ensures r.Some? ==> 1 <= r.value <= 3
  {
    match t
    case None => None
    case Some(Alpha) => Some(1)
    case Some(Beta) => Some(2)
    case Some(ReleaseCandidate) => Some(3)
  }

  /** The declaration order a < b < rc. */
  function LabelIndex(t: PreReleaseType): nat {
    match t
    case Alpha => 0
    case Beta => 1
    case ReleaseCandidate => 2
  }

  /** The rank map is strictly increasing along a < b < rc, hence injective. */
  lemma RankIncreasing(x: PreReleaseType, y: PreReleaseType)
    ensures PreReleaseTypeToInt(Some(x)).value < PreReleaseTypeToInt(Some(y)).value <==> LabelIndex(x) < LabelIndex(y)
    ensures PreReleaseTypeToInt(Some(x)) == PreReleaseTypeToInt(Some(y)) <==> x == y
  {
  }

  /** `versions or []`. */
  function OrEmpty<T>(versions: Option<seq<T>>): seq<T> {
    if versions.Some? then versions.value else []
  }

  /** `pad(versions, length, pad_item)`: the list (None read as []) followed
      by as many copies of `pad_item` as bring it to `length`; a list that is
      already as long is returned unchanged. */
  function Pad<T>(versions: Option<seq<T>>, length: int, padItem: T): (r: seq<T>)
    ensures |r| == if length > |OrEmpty(versions)| then length else |OrEmpty(versions)|
    ensures OrEmpty(versions) <= r
    ensures forall i :: |OrEmpty(versions)| <= i < |r| ==> r[i] == padItem
  {
    var vs := OrEmpty(versions);
    vs + seq(if length > |vs| then length - |vs| else 0, _ => padItem)
  }

  /** Padding to a length the list already has changes nothing. */
  lemma PadShort<T>(versions: Option<seq<T>>, length: int, padItem: T)
    requires length <= |OrEmpty(versions)|
    ensures Pad(versions, length, padItem) == OrEmpty(versions)
  {
    var r := Pad(versions, length, padItem);
    assert r[..|OrEmpty(versions)|] == OrEmpty(versions);
  }

  /** Padding is idempotent for a fixed length. */
  lemma PadIdempotent<T>(versions: Option<seq<T>>, length: int, padItem: T)
    ensures Pad(Some(Pad(versions, length, padItem)), length, padItem) == Pad(versions, length, padItem)
  {
    PadShort(Some(Pad(versions, length, padItem)), length, padItem);
  }

  /** One more position of padding is one more pad item at the end. */
  lemma PadStep<T>(versions: Option<seq<T>>, length: int, padItem: T)
    requires length >= |OrEmpty(versions)|
    ensures Pad(versions, length + 1, padItem) == Pad(versions, length, padItem) + [padItem]
  {
    var a, b := Pad(versions, length + 1, padItem), Pad(versions, length, padItem) + [padItem];
    assert |a| == |b|;
    forall i | 0 <= i < |a| ensures a[i] == b[i] {
      if i < |OrEmpty(versions)| {
        assert a[i] == OrEmpty(versions)[i] == b[i];
      }
    }
  }

  /** The six comparison methods of a type, as Python's `operator.eq`, ...,
      `operator.ge` reach them: `__eq__`, `__ne__`, `__lt__`, `__le__`,
      `__gt__`, `__ge__`. */
  datatype Comparisons<-T> = Comparisons(
    eq: (T, T) -> bool, ne: (T, T) -> bool,
    lt: (T, T) -> bool, le: (T, T) -> bool,
    gt: (T, T) -> bool, ge: (T, T) -> bool)

  /** `simple_eval(operator, left, right)`: look the operator up in the table
      of six and apply it to (left, right). `~=` and `===` are not in the
      table, so `.get` gives None and calling it raises TypeError. */
  function SimpleEval<T>(op: Flags.Operator, cmp: Comparisons<T>, left: T, right: T): (r: Result<bool>)
    ensures r.Failure? <==> op.Compatible? || op.ArbitraryEqual?
    ensures r.Failure? ==> r.error == TypeError
    ensures op.Equal? ==> r == Success(cmp.eq(left, right))
    ensures op.NotEqual? ==> r == Success(cmp.ne(left, right))
    ensures op.Less? ==> r == Success(cmp.lt(left, right))
    ensures op.LessEqual? ==> r == Success(cmp.le(left, right))
    ensures op.Greater? ==> r == Success(cmp.gt(left, right))
    ensures op.GreaterEqual? ==> r == Success(cmp.ge(left, right))
  {
    match op
    case Equal => Success(cmp.eq(left, right))
    case NotEqual => Success(cmp.ne(left, right))
    case Less => Success(cmp.lt(left, right))
    case LessEqual => Success(cmp.le(left, right))
    case Greater => Success(cmp.gt(left, right))
    case GreaterEqual => Success(cmp.ge(left, right))
    case Compatible => Failure(TypeError)
    case ArbitraryEqual => Failure(TypeError)
  }
}
