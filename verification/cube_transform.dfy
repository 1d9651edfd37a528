/**
  The nested sampler's prior transform: every slot of the unit cube that
  belongs to the parameter vector is mapped affinely onto the bounds of the
  parameter stored there, masses first and then age, feh, distance, AV,
  system by system.  Slots past the parameter vector are left alone.
 */
module CubeTransform {
  import opened LogValues
  import opened Layout
  import opened Bounds
  import opened Posterior

  /** (hi - lo) * u + lo, the map `mnest_prior` applies to each slot, in its order of operations. */
  function Scale(iv: Interval, u: real): real
  {
    (iv.hi - iv.lo) * u + iv.lo
  }

  /** A point of the unit interval lands inside ordered bounds. */
  lemma {:induction false} ScaleInBounds(iv: Interval, u: real)
    requires 0.0 <= u <= 1.0 && iv.lo <= iv.hi
    ensures iv.lo <= Scale(iv, u) <= iv.hi
  {
    var w := iv.hi - iv.lo;
    NonNegProduct(w, u);
    NonNegProduct(w, 1.0 - u);
    assert w * (1.0 - u) == w - w * u;
  }

  lemma {:induction false} NonNegProduct(x: real, y: real)
    requires x >= 0.0 && y >= 0.0
    ensures x * y >= 0.0
  {
  }

  /** On non-degenerate bounds the map is undone by (x - lo) / (hi - lo), both ways round. */
  lemma {:induction false} ScaleInverse(iv: Interval, u: real, x: real)
    requires iv.lo < iv.hi
    ensures (Scale(iv, u) - iv.lo) / (iv.hi - iv.lo) == u
    ensures Scale(iv, (x - iv.lo) / (iv.hi - iv.lo)) == x
  {
    var w := iv.hi - iv.lo;
    assert (w * u) / w == u;
    assert w * ((x - iv.lo) / w) == x - iv.lo;
  }

  /** The cube after the transform, slot by slot, read off the layout. */
  function Transformed(counts: seq<nat>, b: ResolvedBounds, cube: seq<real>): (out: seq<real>)
    ensures |out| == |cube|
  {
    seq(|cube|, k requires 0 <= k < |cube| =>
      if k < NParams(counts) then Scale(b.Of(SlotParam(counts, k)), cube[k]) else cube[k])
  }

  /**
    `mnest_prior(cube, ndim, nparams)`: rewrites the cube in place, system
    by system; the returned sequence is the cube afterwards.
   */
  method MnestPrior(counts: seq<nat>, b: ResolvedBounds, cube: seq<real>) returns (out: seq<real>)
    requires |cube| >= NParams(counts)
    ensures out == Transformed(counts, b, cube)
    ensures forall k :: NParams(counts) <= k < |cube| ==> out[k] == cube[k]
  {
    out := cube;
    var i := 0;
    var s := 0;
    while s < |counts|
      invariant s <= |counts| && i == Offset(counts, s) && i <= NParams(counts)
      invariant |out| == |cube|
      invariant forall k :: 0 <= k < i ==> out[k] == Transformed(counts, b, cube)[k]
      invariant forall k :: i <= k < |cube| ==> out[k] == cube[k]
    {
      OffsetStep(counts, s);
      SegmentInside(counts, s);
      out := TransformSystem(counts, b, cube, out, s, i);
      i := i + 4 + counts[s];
      s := s + 1;
    }
    OffsetEnd(counts);
  }

  /** One pass of the outer loop: the masses of system s, then its four shared parameters. */
  method TransformSystem(counts: seq<nat>, b: ResolvedBounds, cube: seq<real>, prev: seq<real>, s: nat, i: nat)
    returns (out: seq<real>)
    requires |cube| >= NParams(counts) && |prev| == |cube|
    requires s < |counts| && i == Offset(counts, s) && i + counts[s] + 4 <= |cube|
    requires forall k :: 0 <= k < i ==> prev[k] == Transformed(counts, b, cube)[k]
    requires forall k :: i <= k < |cube| ==> prev[k] == cube[k]
    ensures |out| == |cube|
    ensures forall k :: 0 <= k < i + counts[s] + 4 ==> out[k] == Transformed(counts, b, cube)[k]
    ensures forall k :: i + counts[s] + 4 <= k < |cube| ==> out[k] == cube[k]
  {
    out := TransformMasses(counts, b, cube, prev, s, i);
    out := TransformShared(counts, b, cube, out, s, i);
  }

  /** The mass loop of one system: each of its counts[s] mass slots is mapped onto the mass bounds. */
  method TransformMasses(counts: seq<nat>, b: ResolvedBounds, cube: seq<real>, prev: seq<real>, s: nat, i: nat)
    returns (out: seq<real>)
    requires |cube| >= NParams(counts) && |prev| == |cube|
    requires s < |counts| && i == Offset(counts, s) && i + counts[s] + 4 <= |cube|
    requires forall k :: 0 <= k < i ==> prev[k] == Transformed(counts, b, cube)[k]
    requires forall k :: i <= k < |cube| ==> prev[k] == cube[k]
    ensures |out| == |cube|
    ensures forall k :: 0 <= k < i + counts[s] ==> out[k] == Transformed(counts, b, cube)[k]
    ensures forall k :: i + counts[s] <= k < |cube| ==> out[k] == cube[k]
  {
    out := prev;
    var n := counts[s];
    SegmentInside(counts, s);
    var mass := b.Of(Mass);
    var j := 0;
    while j < n
      invariant j <= n
      invariant |out| == |cube|
      invariant forall k :: 0 <= k < i + j ==> out[k] == Transformed(counts, b, cube)[k]
      invariant forall k :: i + j <= k < |cube| ==> out[k] == cube[k]
    {
      SlotParamInSegment(counts, s, j);
      out := out[i + j := (mass.hi - mass.lo) * out[i + j] + mass.lo];
      j := j + 1;
    }
  }

  /** The loop over age, feh, distance and AV of one system, each mapped onto its own bounds. */
  method TransformShared(counts: seq<nat>, b: ResolvedBounds, cube: seq<real>, prev: seq<real>, s: nat, i: nat)
    returns (out: seq<real>)
    requires |cube| >= NParams(counts) && |prev| == |cube|
    requires s < |counts| && i == Offset(counts, s) && i + counts[s] + 4 <= |cube|
    requires forall k :: 0 <= k < i + counts[s] ==> prev[k] == Transformed(counts, b, cube)[k]
    requires forall k :: i + counts[s] <= k < |cube| ==> prev[k] == cube[k]
    ensures |out| == |cube|
    ensures forall k :: 0 <= k < i + counts[s] + 4 ==> out[k] == Transformed(counts, b, cube)[k]
    ensures forall k :: i + counts[s] + 4 <= k < |cube| ==> out[k] == cube[k]
  {
    out := prev;
    var n := counts[s];
    SegmentInside(counts, s);
    var j := 0;
    while j < 4
      invariant j <= 4
      invariant |out| == |cube|
      invariant forall k :: 0 <= k < i + n + j ==> out[k] == Transformed(counts, b, cube)[k]
      invariant forall k :: i + n + j <= k < |cube| ==> out[k] == cube[k]
    {
      SlotParamInSegment(counts, s, n + j);
      var iv := b.Of(SharedParam(j));
      out := out[i + n + j := (iv.hi - iv.lo) * out[i + n + j] + iv.lo];
      j := j + 1;
    }
  }

  predicate UnitCube(cube: seq<real>, m: nat)
  {
    forall k :: 0 <= k < m && k < |cube| ==> 0.0 <= cube[k] <= 1.0
  }

  predicate Ordered(b: ResolvedBounds)
  {
    forall prm: Param :: b.Of(prm).lo <= b.Of(prm).hi
  }

  /** Slot k of a transformed unit-cube point lies within its parameter's bounds. */
  lemma {:induction false} SlotInBounds(counts: seq<nat>, b: ResolvedBounds, cube: seq<real>, k: nat)
    requires |cube| >= NParams(counts) && UnitCube(cube, NParams(counts)) && Ordered(b)
    requires k < NParams(counts)
    ensures b.Of(SlotParam(counts, k)).Contains(Transformed(counts, b, cube)[k])
  {
    var iv := b.Of(SlotParam(counts, k));
    assert Transformed(counts, b, cube)[k] == Scale(iv, cube[k]);
    ScaleInBounds(iv, cube[k]);
  }

  /** A vector whose every slot is within its parameter's bounds decodes to systems in bounds. */
  lemma {:induction false} SlotsGiveSystemBounds(counts: seq<nat>, b: ResolvedBounds, out: seq<real>, s: nat)
    requires |out| >= NParams(counts) && s < |counts|
    requires forall k :: 0 <= k < NParams(counts) ==> b.Of(SlotParam(counts, k)).Contains(out[k])
    ensures SystemInBounds(Decode(counts, out)[s], b)
  {
    forall k | 0 <= k < 4
      ensures b.Of(SharedParam(k)).Contains(Shared(Decode(counts, out)[s], k))
    {
      SharedSlot(counts, out, s, k);
    }
  }

  /**
    A point of the unit cube becomes a vector whose every slot lies within
    the bounds of the parameter stored there; in particular every system
    passes the range checks of the log-prior.
   */
  lemma {:induction false} TransformedInBounds(counts: seq<nat>, b: ResolvedBounds, cube: seq<real>)
    requires |cube| >= NParams(counts) && UnitCube(cube, NParams(counts)) && Ordered(b)
    ensures forall k :: 0 <= k < NParams(counts) ==>
              b.Of(SlotParam(counts, k)).Contains(Transformed(counts, b, cube)[k])
    ensures InBounds(Decode(counts, Transformed(counts, b, cube)), b)
  {
    forall k | 0 <= k < NParams(counts)
      ensures b.Of(SlotParam(counts, k)).Contains(Transformed(counts, b, cube)[k])
    {
      SlotInBounds(counts, b, cube, k);
    }
    var out := Transformed(counts, b, cube);
    var sps := Decode(counts, out);
    forall s | 0 <= s < |sps|
      ensures SystemInBounds(sps[s], b)
    {
      SlotsGiveSystemBounds(counts, b, out, s);
    }
  }

  /**
    The nested sampler's log-likelihood of a transformed unit-cube point:
    when the mass bounds are positive, it never raises and is negative
    infinity exactly when some prior density or the likelihood is; the
    bounds checks never reject such a point.
   */
  lemma {:induction false} NestedLogLikeOnCube(counts: seq<nat>, b: ResolvedBounds, cube: seq<real>, dens: Density,
                            ln: real -> real, like: seq<real> -> LogValue)
    requires ValidCounts(counts) && |cube| >= NParams(counts) && UnitCube(cube, NParams(counts))
    requires Ordered(b) && b.Of(Mass).lo > 0.0
    ensures var out := Transformed(counts, b, cube);
            var sps := Decode(counts, out);
            AllUsable(sps) &&
            MnestLogLike(counts, out, b, dens, ln, like) ==
            if AllPositive(AllTerms(sps), b, dens) && like(out).Fin?
            then Value(Fin(SumLog(AllTerms(sps), b, dens, ln) + like(out).v))
            else Value(NegInf)
  {
    var out := Transformed(counts, b, cube);
    var sps := Decode(counts, out);
    TransformedInBounds(counts, b, cube);
    forall s | 0 <= s < |sps|
      ensures PrimaryUsable(sps[s])
    {
      PrimarySlot(counts, out, s);
      SlotInBounds(counts, b, cube, Offset(counts, s));
    }
    LnPriorExact(counts, out, b, dens, ln);
  }
}
