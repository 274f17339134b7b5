/** The container and coordinate helpers of holopy.core.tools.utilities. */
module Utilities {
  import opened PyValues

  // ---------------------------------------------------------------------
  // Scalar-versus-sequence coercions
  // ---------------------------------------------------------------------

  /** `_ensure_array`: a scalar becomes a one-element array, anything else is
      handed to `np.array`, which turns None into a zero-dimensional array. */
  function EnsureArray<T>(x: ScalarOrSeq<T>): (r: NdArray<T>)
    ensures r.ZeroDimNone? <==> x.Nothing?
    ensures x.Scalar? ==> r.items == [x.value]
    ensures x.Sequence? ==> r.items == x.items
  {
    match x
    case Nothing => ZeroDimNone
    case Scalar(v) => Vector([v])
    case Sequence(vs) => Vector(vs)
  }

  /** `ensure_listlike`: None is the empty list, a sequence is returned
      unchanged, anything else is wrapped in a one-element list. */
  function EnsureListlike<T>(x: ScalarOrSeq<T>): (r: seq<T>)
    ensures x.Sequence? ==> r == x.items
    ensures x.Nothing? ==> r == []
    ensures x.Scalar? ==> r == [x.value]
  {
    match x
    case Nothing => []
    case Scalar(v) => [v]
    case Sequence(vs) => vs
  }

  /** The entries of a one-dimensional array, each seen as a scalar. */
  function Scalars<T>(vs: seq<T>): seq<ScalarOrSeq<T>>
  {
    seq(|vs|, i requires 0 <= i < |vs| => Scalar(vs[i]))
  }

  /** `_ensure_pair`: None stays None; an argument that has an entry at index 1
      is returned as an array; anything else (a scalar, or a sequence shorter
      than two, on which `x[1]` raises) becomes the array `[x, x]`. */
  function EnsurePair<T>(x: ScalarOrSeq<T>): (r: Option<seq<ScalarOrSeq<T>>>)
    ensures r.None? <==> x.Nothing?
    ensures r.Some? ==> |r.value| >= 2
    ensures x.Sequence? && |x.items| >= 2 ==> r == Some(Scalars(x.items))
    ensures r.Some? && !(x.Sequence? && |x.items| >= 2) ==> r.value == [x, x]
  {
    match x
    case Nothing => None
    case Scalar(_) => Some([x, x])
    case Sequence(vs) => if |vs| >= 2 then Some(Scalars(vs)) else Some([x, x])
  }

  /** Apart from None, `_ensure_array` and `ensure_listlike` agree; on None the
      array cannot be iterated while the list is empty. */
  lemma EnsureArrayMatchesListlike<T>(x: ScalarOrSeq<T>)
    ensures !x.Nothing? ==> EnsureArray(x) == Vector(EnsureListlike(x))
    ensures x.Nothing? ==> EnsureArray(x) == ZeroDimNone && EnsureListlike(x) == []
  {
  }

  /** Coercing an already coerced list again changes nothing. */
  lemma EnsureListlikeIdempotent<T>(x: ScalarOrSeq<T>)
    ensures EnsureListlike(Sequence(EnsureListlike(x))) == EnsureListlike(x)
  {
  }

  /** `_ensure_pair` is the identity on its own results: a result always has
      an entry at index 1, so passing it in again returns its entries as is. */
  lemma EnsurePairIdempotent<T>(x: ScalarOrSeq<T>)
    requires !x.Nothing?
    ensures EnsurePair(Sequence(EnsurePair(x).value)) == Some(Scalars(EnsurePair(x).value))
  {
  }

  // ---------------------------------------------------------------------
  // ensure_3d
  // ---------------------------------------------------------------------

  /** The message of the exception ensure_3d raises; its placeholder is never
      filled in. */
  const CoordinateMessage := "{0} cannot be interpreted as a coordinate"

  /** `ensure_3d`: a 2-element coordinate gets z = 0 appended, a 3-element one
      is kept, any other length is rejected. */
  function Ensure3d(x: seq<real>): (r: Result<seq<real>, Error>)
    ensures r.Success? <==> |x| == 2 || |x| == 3
    ensures r.Failure? ==> r.error == NotACoordinate(CoordinateMessage)
    ensures r.Success? ==> |r.value| == 3 && r.value[..|x|] == x
    ensures r.Success? && |x| == 2 ==> r.value[2] == 0.0
  {
    if |x| != 2 && |x| != 3 then Failure(NotACoordinate(CoordinateMessage))
    else if |x| == 2 then Success(x + [0.0])
    else Success(x)
  }

  /** Normalising a coordinate that is already three-dimensional changes
      nothing, so ensure_3d is idempotent. */
  lemma Ensure3dIdempotent(x: seq<real>)
    requires Ensure3d(x).Success?
    ensures Ensure3d(Ensure3d(x).value) == Ensure3d(x)
  {
  }

  // ---------------------------------------------------------------------
  // dict_without
  // ---------------------------------------------------------------------

  /** The dictionary `d` with every key listed in `keys` removed. */
  function Without<K, V>(d: map<K, V>, keys: seq<K>): map<K, V>
  {
    map k | k in d && k !in keys :: d[k]
  }

  /** `dict_without`: copies `d`, then deletes each listed key, ignoring the
      KeyError of a key that is absent. A single scalar key is one key; None
      makes the iteration over `np.array(None)` raise. `d` itself is a value
      and so is never changed. */
  method DictWithout<K, V>(d: map<K, V>, keys: ScalarOrSeq<K>) returns (r: Result<map<K, V>, Error>)
    ensures r.Failure? <==> keys.Nothing?
    ensures r.Failure? ==> r.error == ZeroDimIteration
    ensures r.Success? ==> r.value == Without(d, EnsureArray(keys).items)
    ensures r.Success? ==> forall k :: k in r.value <==> k in d && k !in EnsureArray(keys).items
    ensures r.Success? ==> forall k :: k in r.value ==> r.value[k] == d[k]
  {
    var arr := EnsureArray(keys);
    if arr.ZeroDimNone? {
      return Failure(ZeroDimIteration);
    }
    var ks := arr.items;
    var m := d;
    var i := 0;
    while i < |ks|
      invariant 0 <= i <= |ks|
      invariant m == Without(d, ks[..i])
    {
      WithoutStep(d, ks[..i], ks[i]);
      if ks[i] in m {
        m := m - {ks[i]};
      }
      i := i + 1;
    }
    r := Success(m);
  }

  /** Removing one more key is deleting it from the previous result, or
      nothing when it is already gone. */
  lemma WithoutStep<K, V>(d: map<K, V>, keys: seq<K>, k: K)
    ensures Without(d, keys + [k]) == Without(d, keys) - {k}
    ensures k !in Without(d, keys) ==> Without(d, keys + [k]) == Without(d, keys)
  {
  }

  /** A listed key that `d` does not hold is silently ignored. */
  lemma WithoutIgnoresAbsent<K, V>(d: map<K, V>, keys: seq<K>, k: K)
    requires k !in d
    ensures Without(d, keys + [k]) == Without(d, keys)
  {
  }

  /** Removing the same keys twice is removing them once. */
  lemma WithoutIdempotent<K, V>(d: map<K, V>, keys: seq<K>)
    ensures Without(Without(d, keys), keys) == Without(d, keys)
  {
  }

  /** Only which keys are listed matters, not their order or repetitions. */
  lemma WithoutDependsOnKeySet<K, V>(d: map<K, V>, keys1: seq<K>, keys2: seq<K>)
    requires forall k :: k in keys1 <==> k in keys2
    ensures Without(d, keys1) == Without(d, keys2)
  {
  }

  // ---------------------------------------------------------------------
  // updated
  // ---------------------------------------------------------------------

  /** The keys to which `u` gives a value other than None. */
  function Supplied<K, V>(u: map<K, Option<V>>): set<K>
  {
    set k | k in u && u[k].Some?
  }

  /** `d` with every non-None value of `u` written over it. */
  function Overlay<K, V>(d: map<K, Option<V>>, u: map<K, Option<V>>): map<K, Option<V>>
  {
    map k | k in d.Keys + Supplied(u) :: if k in Supplied(u) then u[k] else d[k]
  }

  /** `updated`: copies `d`, then writes every non-None value of `update`,
      then every non-None value of the keyword arguments `kwargs`. None values
      are never written, whatever `filterNone` says. */
  method Updated<K, V>(d: map<K, Option<V>>, update: map<K, Option<V>>, filterNone: bool,
                       kwargs: map<K, Option<V>>)
    returns (r: map<K, Option<V>>)
    ensures r == Overlay(Overlay(d, update), kwargs)
    ensures r.Keys == d.Keys + Supplied(update) + Supplied(kwargs)
    ensures forall k :: k in Supplied(kwargs) ==> r[k] == kwargs[k]
    ensures forall k :: k in Supplied(update) && k !in Supplied(kwargs) ==> r[k] == update[k]
    ensures forall k :: k in d && k !in Supplied(update) && k !in Supplied(kwargs) ==> r[k] == d[k]
  {
    r := d;
    var pending := update.Keys;
    while pending != {}
      invariant pending <= update.Keys
      invariant r == Overlay(d, update - pending)
      decreases pending
    {
      var k :| k in pending;
      OverlayStep(d, update, pending, k);
      if update[k] != None {
        r := r[k := update[k]];
      }
      pending := pending - {k};
    }
    assert update - {} == update;
    var base := r;
    pending := kwargs.Keys;
    while pending != {}
      invariant pending <= kwargs.Keys
      invariant r == Overlay(base, kwargs - pending)
      decreases pending
    {
      var k :| k in pending;
      OverlayStep(base, kwargs, pending, k);
      if kwargs[k] != None {
        r := r[k := kwargs[k]];
      }
      pending := pending - {k};
    }
    assert kwargs - {} == kwargs;
  }

  /** One more entry of `u` written over `d`: the key gets its value when that
      is not None, and nothing else changes. */
  lemma OverlayStep<K, V>(d: map<K, Option<V>>, u: map<K, Option<V>>, pending: set<K>, k: K)
    requires k in pending && pending <= u.Keys
    ensures u[k].Some? ==> Overlay(d, u - (pending - {k})) == Overlay(d, u - pending)[k := u[k]]
    ensures u[k].None? ==> Overlay(d, u - (pending - {k})) == Overlay(d, u - pending)
  {
  }

  /** Writing the same overlay twice is writing it once. */
  lemma OverlayIdempotent<K, V>(d: map<K, Option<V>>, u: map<K, Option<V>>)
    ensures Overlay(Overlay(d, u), u) == Overlay(d, u)
  {
  }

  /** An overlay that supplies only None values leaves `d` as it is. */
  lemma OverlayOfNones<K, V>(d: map<K, Option<V>>, u: map<K, Option<V>>)
    requires forall k :: k in u ==> u[k] == None
    ensures Overlay(d, u) == d
  {
  }

  // ---------------------------------------------------------------------
  // The index selection of squeeze
  // ---------------------------------------------------------------------

  /** `keep` in `squeeze`: the indices of the dimensions of `shape` that are
      not 1, in the order `enumerate` visits them. */
  function Keep(shape: seq<nat>): (r: seq<nat>)
    ensures forall j :: 0 <= j < |r| ==> r[j] < |shape| && shape[r[j]] != 1
    ensures forall j, l :: 0 <= j < l < |r| ==> r[j] < r[l]
    ensures forall n :: 0 <= n < |shape| && shape[n] != 1 ==> n in r
  {
    if shape == [] then []
    else
      var n := |shape| - 1;
      Keep(shape[..n]) + if shape[n] != 1 then [n] else []
  }

  /** The shape `np.squeeze` leaves: the dimensions that are not 1. */
  function SqueezedShape(shape: seq<nat>): (r: seq<nat>)
    ensures |r| == |Keep(shape)|
    ensures forall j :: 0 <= j < |r| ==> r[j] == shape[Keep(shape)[j]] && r[j] != 1
  {
    var keep := Keep(shape);
    seq(|keep|, j requires 0 <= j < |keep| => shape[keep[j]])
  }

  /** `np.take(spacing, keep)`: the entries of `spacing` at the indices in
      `keep`, or an IndexError if one of the indices is past its end. */
  function Take(spacing: seq<real>, keep: seq<nat>): (r: Result<seq<real>, Error>)
    ensures r.Success? <==> forall j :: 0 <= j < |keep| ==> keep[j] < |spacing|
    ensures r.Success? ==>
      |r.value| == |keep| && forall j :: 0 <= j < |keep| ==> r.value[j] == spacing[keep[j]]
    ensures r.Failure? ==> r.error == TakeOutOfBounds
  {
    if forall j :: 0 <= j < |keep| ==> keep[j] < |spacing| then
      Success(seq(|keep|, j requires 0 <= j < |keep| => spacing[keep[j]]))
    else
      Failure(TakeOutOfBounds)
  }

  /** The spacing `squeeze` gives the squeezed array: none when the array has
      no spacing, otherwise the entries at the kept dimensions. It fails
      exactly when some dimension that is not 1 has no spacing entry. */
  function SqueezeSpacing(shape: seq<nat>, spacing: Option<seq<real>>): (r: Result<Option<seq<real>>, Error>)
    ensures spacing.None? ==> r == Success(None)
    ensures spacing.Some? ==>
      (r.Success? <==> forall n :: 0 <= n < |shape| && shape[n] != 1 ==> n < |spacing.value|)
    ensures spacing.Some? && r.Success? ==>
      r.value.Some? && |r.value.value| == |SqueezedShape(shape)| &&
      forall j :: 0 <= j < |Keep(shape)| ==> r.value.value[j] == spacing.value[Keep(shape)[j]]
    ensures r.Failure? ==> r.error == TakeOutOfBounds
  {
    match spacing
    case None => Success(None)
    case Some(s) =>
      match Take(s, Keep(shape))
      case Success(t) => Success(Some(t))
      case Failure(e) => Failure(e)
  }

  /** With no dimension equal to 1 nothing is dropped. */
  lemma {:induction false} KeepAll(shape: seq<nat>)
    requires forall n :: 0 <= n < |shape| ==> shape[n] != 1
    ensures |Keep(shape)| == |shape|
    ensures forall j :: 0 <= j < |shape| ==> Keep(shape)[j] == j
  {
    if shape != [] {
      var n := |shape| - 1;
      KeepAll(shape[..n]);
    }
  }

  /** Squeezing an already squeezed array keeps its shape and its spacing. */
  lemma SqueezeIdempotent(shape: seq<nat>, spacing: Option<seq<real>>)
    requires SqueezeSpacing(shape, spacing).Success?
    ensures SqueezedShape(SqueezedShape(shape)) == SqueezedShape(shape)
    ensures SqueezeSpacing(SqueezedShape(shape), SqueezeSpacing(shape, spacing).value)
         == SqueezeSpacing(shape, spacing)
  {
    var sq := SqueezedShape(shape);
    KeepAll(sq);
    assert SqueezedShape(sq) == sq;
    if spacing.Some? {
      var t := SqueezeSpacing(shape, spacing).value.value;
      assert Take(t, Keep(sq)).value == t;
    }
  }
}
