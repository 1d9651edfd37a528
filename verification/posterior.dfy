/**
  The log-prior and log-posterior of a StarModel.  The prior densities, the
  natural logarithm and the likelihood of the observation tree are not part
  of the model: they are function-valued parameters.  The evaluation walks
  the systems in order and returns negative infinity as soon as a check
  fails, at the same points as `lnprior`.
 */
module Posterior {
  import opened LogValues
  import opened Layout
  import opened Bounds

  /** `prior(prop, value, bounds=...)`: a non-negative density. */
  type Density = (Param, real, Interval) -> real

  /** Exceptions the evaluation can raise on a malformed vector. */
  datatype EvalError =
    | ShortVector(system: nat)       // the four shared values of this system cannot be unpacked
    | ZeroPrimaryMass(system: nat)   // a mass ratio divides by a primary mass of zero
    | EmptySystem(system: nat)       // a system without member stars has no primary mass to read

  datatype PriorResult = Value(lp: LogValue) | Raised(err: EvalError)

  /** The state between two checks: stopped with -inf, going on with a sum, or raised. */
  datatype Step = Stop | Go(acc: LogValue) | Fault(err: EvalError)

  /** log(prior(prm, x, bounds=b(prm))). */
  function LogDensity(b: ResolvedBounds, dens: Density, ln: real -> real, prm: Param, x: real): LogValue
  {
    Log(ln, dens(prm, x, b.Of(prm)))
  }

  /**
    The age, feh, distance and AV checks of one system, from the k-th on:
    an out-of-range value or a sum that is no longer finite stops at once.
   */
  function SharedStep(sp: SystemParams, k: nat, b: ResolvedBounds, dens: Density, ln: real -> real,
                      acc: LogValue): (r: Step)
    requires k <= 4
    ensures !r.Fault?
    decreases 4 - k
  {
    if k == 4 then Go(acc)
    else
      var prm := SharedParam(k);
      var x := Shared(sp, k);
      if x < b.Of(prm).lo || x > b.Of(prm).hi then Stop
      else
        var a := Add(acc, LogDensity(b, dens, ln, prm, x));
        if !a.Fin? then Stop else SharedStep(sp, k + 1, b, dens, ln, a)
  }

  /**
    The mass-ratio terms of one system from member j + 1 on: each secondary
    contributes the q prior of masses[j + 1] / masses[0] with the q bounds,
    whatever the other secondaries are.
   */
  function RatioStep(masses: seq<real>, s: nat, j: nat, b: ResolvedBounds, dens: Density,
                     ln: real -> real, acc: LogValue): (r: Step)
    requires 1 <= |masses| && j < |masses|
    ensures r.Fault? ==> r.err == ZeroPrimaryMass(s) && |masses| >= 2 && masses[0] == 0.0
    ensures j < |masses| - 1 && masses[0] == 0.0 ==> r == Fault(ZeroPrimaryMass(s))
    decreases |masses| - j
  {
    if j == |masses| - 1 then Go(acc)
    else if masses[0] == 0.0 then Fault(ZeroPrimaryMass(s))
    else
      var a := Add(acc, LogDensity(b, dens, ln, Q, masses[j + 1] / masses[0]));
      if !a.Fin? then Stop else RatioStep(masses, s, j + 1, b, dens, ln, a)
  }

  /**
    One system: its four shared checks, then the mass prior of the primary
    (which, unlike every other term, does not stop the walk when it is
    zero; a system without members has no primary and raises here), then
    the mass ratios.
   */
  function SystemStep(sp: SystemParams, s: nat, b: ResolvedBounds, dens: Density, ln: real -> real,
                      acc: LogValue): (r: Step)
    ensures r.Fault? ==>
              (r.err == ZeroPrimaryMass(s) && |sp.masses| >= 2 && sp.masses[0] == 0.0) ||
              (r.err == EmptySystem(s) && |sp.masses| == 0)
  {
    match SharedStep(sp, 0, b, dens, ln, acc)
    case Go(a) =>
      if |sp.masses| == 0 then Fault(EmptySystem(s))
      else
        var m := Add(a, LogDensity(b, dens, ln, Mass, sp.masses[0]));
        RatioStep(sp.masses, s, 0, b, dens, ln, m)
    case _ => Stop
  }

  /**
    What one system does once its shared checks are known: a stop there
    stops the system; otherwise a system without members raises, a zero
    primary under a mass ratio raises, and a single star goes on with its
    mass term added, finite or not.
   */
  lemma {:induction false} SystemStepOutcome(sp: SystemParams, s: nat, b: ResolvedBounds, dens: Density,
                                            ln: real -> real, acc: LogValue)
    ensures !SharedStep(sp, 0, b, dens, ln, acc).Go? ==> SystemStep(sp, s, b, dens, ln, acc) == Stop
    ensures SharedStep(sp, 0, b, dens, ln, acc).Go? && |sp.masses| == 0 ==>
              SystemStep(sp, s, b, dens, ln, acc) == Fault(EmptySystem(s))
    ensures SharedStep(sp, 0, b, dens, ln, acc).Go? && |sp.masses| >= 2 && sp.masses[0] == 0.0 ==>
              SystemStep(sp, s, b, dens, ln, acc) == Fault(ZeroPrimaryMass(s))
    ensures SharedStep(sp, 0, b, dens, ln, acc).Go? && |sp.masses| == 1 ==>
              SystemStep(sp, s, b, dens, ln, acc) ==
              Go(Add(SharedStep(sp, 0, b, dens, ln, acc).acc, LogDensity(b, dens, ln, Mass, sp.masses[0])))
  {
  }

  /** `lnprior` from system s on, whose segment starts at slot i, with the sum so far. */
  function LnPriorFrom(counts: seq<nat>, p: seq<real>, s: nat, i: nat, b: ResolvedBounds, dens: Density,
                       ln: real -> real, acc: LogValue): (r: PriorResult)
    requires s <= |counts| && i == Offset(counts, s)
    ensures s < |counts| && |p| < i + counts[s] + 4 ==> r == Raised(ShortVector(s))
    ensures r.Raised? && r.err.ShortVector? ==>
              s <= r.err.system < |counts| &&
              |p| < Offset(counts, r.err.system) + counts[r.err.system] + 4
    ensures r.Raised? && r.err.ZeroPrimaryMass? ==>
              s <= r.err.system < |counts| && counts[r.err.system] >= 2 &&
              Offset(counts, r.err.system) < |p| && p[Offset(counts, r.err.system)] == 0.0
    ensures r.Raised? && r.err.EmptySystem? ==>
              s <= r.err.system < |counts| && counts[r.err.system] == 0 &&
              Offset(counts, r.err.system) + 4 <= |p|
    decreases |counts| - s
  {
    if s == |counts| then Value(acc)
    else
      var n := counts[s];
      if |p| < i + n + 4 then Raised(ShortVector(s))
      else
        OffsetStep(counts, s);
        match SystemStep(SystemAt(p, i, n), s, b, dens, ln, acc)
        case Go(a) => LnPriorFrom(counts, p, s + 1, i + n + 4, b, dens, ln, a)
        case Stop => Value(NegInf)
        case Fault(e) => Raised(e)
  }

  /** `lnprior(p)`: the log-prior of a parameter vector. */
  function LnPrior(counts: seq<nat>, p: seq<real>, b: ResolvedBounds, dens: Density, ln: real -> real): PriorResult
  {
    assert counts[..0] == [];
    LnPriorFrom(counts, p, 0, 0, b, dens, ln, Fin(0.0))
  }

  /** `lnpost(p)`: a non-finite prior is returned as is; otherwise the likelihood is added. */
  function LnPost(counts: seq<nat>, p: seq<real>, b: ResolvedBounds, dens: Density, ln: real -> real,
                  like: seq<real> -> LogValue): (r: PriorResult)
    ensures !(LnPrior(counts, p, b, dens, ln).Value? && LnPrior(counts, p, b, dens, ln).lp.Fin?) ==>
              r == LnPrior(counts, p, b, dens, ln)
    ensures r.Value? && r.lp.Fin? <==>
              LnPrior(counts, p, b, dens, ln).Value? && LnPrior(counts, p, b, dens, ln).lp.Fin? && like(p).Fin?
    ensures r.Value? && r.lp.Fin? ==> r.lp.v == LnPrior(counts, p, b, dens, ln).lp.v + like(p).v
    ensures LnPrior(counts, p, b, dens, ln).Value? && LnPrior(counts, p, b, dens, ln).lp.Fin? ==>
              r == Value(Add(LnPrior(counts, p, b, dens, ln).lp, like(p)))
  {
    match LnPrior(counts, p, b, dens, ln)
    case Value(Fin(a)) => Value(Add(Fin(a), like(p)))
    case other => other
  }

  /** `mnest_loglike(cube)`: the nested sampler's likelihood is the log-posterior of the cube. */
  function MnestLogLike(counts: seq<nat>, cube: seq<real>, b: ResolvedBounds, dens: Density, ln: real -> real,
                        like: seq<real> -> LogValue): PriorResult
  {
    LnPost(counts, cube, b, dens, ln, like)
  }

  // ---------------------------------------------------------------------
  // A reference description of the log-prior: the list of every density
  // it evaluates when nothing stops it.
  // ---------------------------------------------------------------------

  datatype Term = Term(prm: Param, x: real)

  /** Mass ratios can be formed: a single star, or a non-zero primary. */
  predicate PrimaryUsable(sp: SystemParams)
  {
    |sp.masses| == 1 || (|sp.masses| >= 2 && sp.masses[0] != 0.0)
  }

  function SharedTerms(sp: SystemParams): seq<Term>
  {
    [Term(Age, sp.age), Term(Feh, sp.feh), Term(Distance, sp.distance), Term(AV, sp.av)]
  }

  /** One q term per secondary: masses[j + 1] / masses[0]. */
  function RatioTerms(masses: seq<real>): (ts: seq<Term>)
    requires |masses| >= 1
    requires |masses| == 1 || masses[0] != 0.0
    ensures |ts| == |masses| - 1
  {
    seq(|masses| - 1, j requires 0 <= j < |masses| - 1 => Term(Q, masses[j + 1] / masses[0]))
  }

  /** Every density a system contributes: four shared, the primary's mass, the ratios. */
  function SystemTerms(sp: SystemParams): seq<Term>
    requires PrimaryUsable(sp)
  {
    SharedTerms(sp) + [Term(Mass, sp.masses[0])] + RatioTerms(sp.masses)
  }

  predicate AllUsable(sps: seq<SystemParams>)
  {
    forall s :: 0 <= s < |sps| ==> PrimaryUsable(sps[s])
  }

  function AllTerms(sps: seq<SystemParams>): seq<Term>
    requires AllUsable(sps)
  {
    if |sps| == 0 then [] else SystemTerms(sps[0]) + AllTerms(sps[1..])
  }

  /** Every system's age, feh, distance and AV lie within their bounds. */
  predicate InBounds(sps: seq<SystemParams>, b: ResolvedBounds)
  {
    forall s :: 0 <= s < |sps| ==> SystemInBounds(sps[s], b)
  }

  predicate SystemInBounds(sp: SystemParams, b: ResolvedBounds)
  {
    forall k :: 0 <= k < 4 ==> b.Of(SharedParam(k)).Contains(Shared(sp, k))
  }

  /** The density of the term is positive, so its log is finite. */
  predicate Positive(t: Term, b: ResolvedBounds, dens: Density)
  {
    dens(t.prm, t.x, b.Of(t.prm)) > 0.0
  }

  predicate AllPositive(ts: seq<Term>, b: ResolvedBounds, dens: Density)
  {
    |ts| == 0 || (Positive(ts[0], b, dens) && AllPositive(ts[1..], b, dens))
  }

  /** Sum of the logs of the densities of the terms. */
  function SumLog(ts: seq<Term>, b: ResolvedBounds, dens: Density, ln: real -> real): real
  {
    if |ts| == 0 then 0.0 else ln(dens(ts[0].prm, ts[0].x, b.Of(ts[0].prm))) + SumLog(ts[1..], b, dens, ln)
  }

  lemma {:induction false} SumLogAppend(a: seq<Term>, c: seq<Term>, b: ResolvedBounds, dens: Density, ln: real -> real)
    ensures SumLog(a + c, b, dens, ln) == SumLog(a, b, dens, ln) + SumLog(c, b, dens, ln)
    decreases |a|
  {
    if |a| == 0 {
      assert a + c == c;
    } else {
      assert (a + c)[1..] == a[1..] + c;
      SumLogAppend(a[1..], c, b, dens, ln);
    }
  }

  lemma {:induction false} AllPositiveAppend(a: seq<Term>, c: seq<Term>, b: ResolvedBounds, dens: Density)
    ensures AllPositive(a + c, b, dens) <==> AllPositive(a, b, dens) && AllPositive(c, b, dens)
    decreases |a|
  {
    if |a| == 0 {
      assert a + c == c;
    } else {
      assert (a + c)[0] == a[0];
      assert (a + c)[1..] == a[1..] + c;
      AllPositiveAppend(a[1..], c, b, dens);
    }
  }

  /** The shared checks from k on: the sum of their logs, or a stop. */
  lemma {:induction false} SharedStepSpec(sp: SystemParams, k: nat, b: ResolvedBounds, dens: Density,
                                         ln: real -> real, acc: LogValue)
    requires k <= 4
    ensures k < 4 && !acc.Fin? ==> SharedStep(sp, k, b, dens, ln, acc) == Stop
    ensures acc.Fin? ==>
              SharedStep(sp, k, b, dens, ln, acc) ==
              if (forall k' :: k <= k' < 4 ==> b.Of(SharedParam(k')).Contains(Shared(sp, k'))) &&
                 AllPositive(SharedTerms(sp)[k..], b, dens)
              then Go(Fin(acc.v + SumLog(SharedTerms(sp)[k..], b, dens, ln)))
              else Stop
    decreases 4 - k
  {
    var ts := SharedTerms(sp);
    if k < 4 {
      assert ts[k] == Term(SharedParam(k), Shared(sp, k));
      assert ts[k..][1..] == ts[k + 1..];
      var prm := SharedParam(k);
      var x := Shared(sp, k);
      if !(x < b.Of(prm).lo || x > b.Of(prm).hi) {
        var a := Add(acc, LogDensity(b, dens, ln, prm, x));
        SharedStepSpec(sp, k + 1, b, dens, ln, a);
        if acc.Fin? && a.Fin? {
          assert a.v == acc.v + ln(dens(prm, x, b.Of(prm)));
        }
      }
    } else {
      assert ts[k..] == [];
    }
  }

  /** All four shared checks of a system: the sum of their logs, or a stop. */
  lemma {:induction false} SharedStepAll(sp: SystemParams, b: ResolvedBounds, dens: Density, ln: real -> real,
                                        acc: LogValue)
    ensures !acc.Fin? ==> SharedStep(sp, 0, b, dens, ln, acc) == Stop
    ensures acc.Fin? ==>
              SharedStep(sp, 0, b, dens, ln, acc) ==
              if SystemInBounds(sp, b) && AllPositive(SharedTerms(sp), b, dens)
              then Go(Fin(acc.v + SumLog(SharedTerms(sp), b, dens, ln)))
              else Stop
  {
    var sh := SharedTerms(sp);
    assert sh[0..] == sh;
    SharedStepSpec(sp, 0, b, dens, ln, acc);
  }

  /** The ratio terms from member j + 1 on: the sum of their logs, or a stop. */
  lemma {:induction false} RatioStepSpec(masses: seq<real>, s: nat, j: nat, b: ResolvedBounds, dens: Density,
                                        ln: real -> real, acc: LogValue)
    requires 1 <= |masses| && j < |masses|
    requires |masses| == 1 || masses[0] != 0.0
    ensures !acc.Fin? ==> RatioStep(masses, s, j, b, dens, ln, acc) == if j == |masses| - 1 then Go(acc) else Stop
    ensures acc.Fin? ==>
              RatioStep(masses, s, j, b, dens, ln, acc) ==
              if AllPositive(RatioTerms(masses)[j..], b, dens)
              then Go(Fin(acc.v + SumLog(RatioTerms(masses)[j..], b, dens, ln)))
              else Stop
    decreases |masses| - j
  {
    var ts := RatioTerms(masses);
    if j == |masses| - 1 {
      assert ts[j..] == [];
    } else {
      var q := masses[j + 1] / masses[0];
      assert ts[j] == Term(Q, q);
      assert ts[j..][1..] == ts[j + 1..];
      var a := Add(acc, LogDensity(b, dens, ln, Q, q));
      RatioStepSpec(masses, s, j + 1, b, dens, ln, a);
    }
  }

  /**
    One system either adds the logs of all its densities to a finite sum,
    or leaves negative infinity behind (a stop, or a zero primary-mass
    density of a single star, which does not stop the walk).
   */
  lemma {:induction false} SystemStepSpec(sp: SystemParams, s: nat, b: ResolvedBounds, dens: Density, ln: real -> real, acc: LogValue)
    requires |sp.masses| >= 1 && PrimaryUsable(sp)
    ensures acc.Fin? && SystemOk(sp, b, dens) ==>
              SystemStep(sp, s, b, dens, ln, acc) == Go(Fin(acc.v + SumLog(SystemTerms(sp), b, dens, ln)))
    ensures !(acc.Fin? && SystemOk(sp, b, dens)) ==>
              (SystemStep(sp, s, b, dens, ln, acc).Stop? || SystemStep(sp, s, b, dens, ln, acc) == Go(NegInf))
    ensures !SystemStep(sp, s, b, dens, ln, acc).Fault?
  {
    SharedStepAll(sp, b, dens, ln, acc);
    SystemTermsParts(sp, b, dens, ln);
    match SharedStep(sp, 0, b, dens, ln, acc)
    case Go(a) => MassThenRatios(sp, s, b, dens, ln, a);
    case _ =>
  }

  /**
    The one way a system goes on with negative infinity: from a finite sum,
    a single star in bounds with positive shared densities whose mass
    density is not positive.  The mass prior has no stop of its own, so the
    walk reaches the next system (or the end) before -inf is returned.
   */
  lemma {:induction false} SystemStepNegInf(sp: SystemParams, s: nat, b: ResolvedBounds, dens: Density,
                                           ln: real -> real, acc: LogValue)
    ensures SystemStep(sp, s, b, dens, ln, acc) == Go(NegInf) <==>
              acc.Fin? && SystemInBounds(sp, b) && AllPositive(SharedTerms(sp), b, dens) &&
              |sp.masses| == 1 && dens(Mass, sp.masses[0], b.Of(Mass)) <= 0.0
  {
    SharedStepAll(sp, b, dens, ln, acc);
    SystemStepOutcome(sp, s, b, dens, ln, acc);
    match SharedStep(sp, 0, b, dens, ln, acc)
    case Go(a) =>
      if |sp.masses| >= 2 && sp.masses[0] != 0.0 {
        RatioStepSpec(sp.masses, s, 0, b, dens, ln, Add(a, LogDensity(b, dens, ln, Mass, sp.masses[0])));
      }
    case _ =>
  }

  /** After the shared checks: the primary's mass density, then every mass ratio's. */
  lemma {:induction false} MassThenRatios(sp: SystemParams, s: nat, b: ResolvedBounds, dens: Density, ln: real -> real,
                                         a: LogValue)
    requires PrimaryUsable(sp)
    ensures a.Fin? && dens(Mass, sp.masses[0], b.Of(Mass)) > 0.0 && AllPositive(RatioTerms(sp.masses), b, dens) ==>
              RatioStep(sp.masses, s, 0, b, dens, ln, Add(a, LogDensity(b, dens, ln, Mass, sp.masses[0]))) ==
              Go(Fin(a.v + ln(dens(Mass, sp.masses[0], b.Of(Mass))) + SumLog(RatioTerms(sp.masses), b, dens, ln)))
    ensures !(a.Fin? && dens(Mass, sp.masses[0], b.Of(Mass)) > 0.0 && AllPositive(RatioTerms(sp.masses), b, dens)) ==>
              var r := RatioStep(sp.masses, s, 0, b, dens, ln, Add(a, LogDensity(b, dens, ln, Mass, sp.masses[0])));
              r.Stop? || r == Go(NegInf)
    ensures !RatioStep(sp.masses, s, 0, b, dens, ln, Add(a, LogDensity(b, dens, ln, Mass, sp.masses[0]))).Fault?
  {
    var rt := RatioTerms(sp.masses);
    assert rt[0..] == rt;
    RatioStepSpec(sp.masses, s, 0, b, dens, ln, Add(a, LogDensity(b, dens, ln, Mass, sp.masses[0])));
  }

  /** A system's terms are its shared ones, its primary's mass, then its mass ratios. */
  lemma {:induction false} SystemTermsParts(sp: SystemParams, b: ResolvedBounds, dens: Density, ln: real -> real)
    requires PrimaryUsable(sp)
    ensures AllPositive(SystemTerms(sp), b, dens) <==>
              AllPositive(SharedTerms(sp), b, dens) && dens(Mass, sp.masses[0], b.Of(Mass)) > 0.0 &&
              AllPositive(RatioTerms(sp.masses), b, dens)
    ensures SumLog(SystemTerms(sp), b, dens, ln) ==
              SumLog(SharedTerms(sp), b, dens, ln) + ln(dens(Mass, sp.masses[0], b.Of(Mass))) +
              SumLog(RatioTerms(sp.masses), b, dens, ln)
  {
    var sh := SharedTerms(sp);
    var mt := [Term(Mass, sp.masses[0])];
    var rt := RatioTerms(sp.masses);
    AllPositiveAppend(sh + mt, rt, b, dens);
    AllPositiveAppend(sh, mt, b, dens);
    SumLogAppend(sh + mt, rt, b, dens, ln);
    SumLogAppend(sh, mt, b, dens, ln);
    assert SumLog(mt, b, dens, ln) == ln(dens(Mass, sp.masses[0], b.Of(Mass))) + SumLog([], b, dens, ln);
  }

  lemma {:induction false} InBoundsCons(sps: seq<SystemParams>, b: ResolvedBounds)
    requires |sps| > 0
    ensures InBounds(sps, b) <==> SystemInBounds(sps[0], b) && InBounds(sps[1..], b)
  {
    if SystemInBounds(sps[0], b) && InBounds(sps[1..], b) {
      forall t | 0 <= t < |sps| ensures SystemInBounds(sps[t], b) {
        if t > 0 {
          assert sps[t] == sps[1..][t - 1];
        }
      }
    }
    if InBounds(sps, b) {
      forall t | 0 <= t < |sps[1..]| ensures SystemInBounds(sps[1..][t], b) {
        assert sps[1..][t] == sps[t + 1];
      }
    }
  }

  /** One turn of the walk over the systems. */
  lemma {:induction false} LnPriorFromUnfold(counts: seq<nat>, p: seq<real>, s: nat, b: ResolvedBounds, dens: Density,
                          ln: real -> real, acc: LogValue)
    requires s < |counts| && Offset(counts, s) + counts[s] + 4 <= |p|
    ensures Offset(counts, s + 1) == Offset(counts, s) + counts[s] + 4
    ensures LnPriorFrom(counts, p, s, Offset(counts, s), b, dens, ln, acc) ==
            match SystemStep(SystemAt(p, Offset(counts, s), counts[s]), s, b, dens, ln, acc)
            case Go(a) => LnPriorFrom(counts, p, s + 1, Offset(counts, s + 1), b, dens, ln, a)
            case Stop => Value(NegInf)
            case Fault(e) => Raised(e)
  {
    OffsetStep(counts, s);
  }

  predicate AllNonEmpty(sps: seq<SystemParams>)
  {
    forall t :: 0 <= t < |sps| ==> |sps[t].masses| >= 1
  }

  /** The same walk over already decoded systems (numbered from s on). */
  function Walk(sps: seq<SystemParams>, s: nat, b: ResolvedBounds, dens: Density, ln: real -> real,
                acc: LogValue): PriorResult
    requires AllNonEmpty(sps)
    decreases |sps|
  {
    if |sps| == 0 then Value(acc)
    else
      match SystemStep(sps[0], s, b, dens, ln, acc)
      case Go(a) => Walk(sps[1..], s + 1, b, dens, ln, a)
      case Stop => Value(NegInf)
      case Fault(e) => Raised(e)
  }

  /** On a vector long enough for every segment, the log-prior walks the decoded systems. */
  lemma {:induction false} LnPriorFromWalk(counts: seq<nat>, p: seq<real>, s: nat, b: ResolvedBounds, dens: Density,
                                          ln: real -> real, acc: LogValue)
    requires ValidCounts(counts) && s <= |counts| && |p| >= NParams(counts)
    ensures AllNonEmpty(Decode(counts, p)[s..])
    ensures LnPriorFrom(counts, p, s, Offset(counts, s), b, dens, ln, acc) ==
            Walk(Decode(counts, p)[s..], s, b, dens, ln, acc)
    decreases |counts| - s
  {
    var all := Decode(counts, p);
    var sps := all[s..];
    assert AllNonEmpty(sps) by {
      forall t | 0 <= t < |sps| ensures |sps[t].masses| >= 1 {
        assert sps[t] == all[s + t];
      }
    }
    if s < |counts| {
      SegmentInside(counts, s);
      LnPriorFromUnfold(counts, p, s, b, dens, ln, acc);
      DecodeAt(counts, p, s);
      assert sps[0] == SystemAt(p, Offset(counts, s), counts[s]);
      assert sps[1..] == all[s + 1..];
      match SystemStep(sps[0], s, b, dens, ln, acc)
      case Go(a) =>
        LnPriorFromWalk(counts, p, s + 1, b, dens, ln, a);
      case Stop =>
      case Fault(e) =>
    }
  }

  /** One system passes its range checks and every density it evaluates is positive. */
  predicate SystemOk(sp: SystemParams, b: ResolvedBounds, dens: Density)
    requires PrimaryUsable(sp)
  {
    SystemInBounds(sp, b) && AllPositive(SystemTerms(sp), b, dens)
  }

  /** Every system passes, one after the other. */
  predicate SystemsOk(sps: seq<SystemParams>, b: ResolvedBounds, dens: Density)
    requires AllUsable(sps)
  {
    |sps| == 0 || (SystemOk(sps[0], b, dens) && SystemsOk(sps[1..], b, dens))
  }

  /** The sum of the logs of the densities, system by system. */
  function SystemsSum(sps: seq<SystemParams>, b: ResolvedBounds, dens: Density, ln: real -> real): real
    requires AllUsable(sps)
  {
    if |sps| == 0 then 0.0 else SumLog(SystemTerms(sps[0]), b, dens, ln) + SystemsSum(sps[1..], b, dens, ln)
  }

  /** System by system is the same as over the whole list of terms. */
  lemma {:induction false} SystemsOkSum(sps: seq<SystemParams>, b: ResolvedBounds, dens: Density, ln: real -> real)
    requires AllNonEmpty(sps) && AllUsable(sps)
    ensures SystemsOk(sps, b, dens) <==> InBounds(sps, b) && AllPositive(AllTerms(sps), b, dens)
    ensures SystemsSum(sps, b, dens, ln) == SumLog(AllTerms(sps), b, dens, ln)
    decreases |sps|
  {
    if |sps| == 0 {
      assert AllTerms(sps) == [] && InBounds(sps, b);
    } else {
      WalkConsSplit(sps, b, dens, ln);
      SystemsOkSum(sps[1..], b, dens, ln);
    }
  }

  /**
    From a sum so far: finite exactly when every system passes its checks,
    and then the sum of the logs of their densities.
   */
  lemma {:induction false} WalkSpec(sps: seq<SystemParams>, s: nat, b: ResolvedBounds, dens: Density,
                                   ln: real -> real, acc: LogValue)
    requires AllNonEmpty(sps) && AllUsable(sps)
    ensures Walk(sps, s, b, dens, ln, acc) ==
            if acc.Fin? && SystemsOk(sps, b, dens)
            then Value(Fin(acc.v + SystemsSum(sps, b, dens, ln)))
            else Value(NegInf)
    decreases |sps|
  {
    if |sps| > 0 {
      TailUsable(sps);
      SystemStepSpec(sps[0], s, b, dens, ln, acc);
      var step := SystemStep(sps[0], s, b, dens, ln, acc);
      WalkUnfold(sps, s, b, dens, ln, acc);
      if step.Go? {
        WalkSpec(sps[1..], s + 1, b, dens, ln, step.acc);
      }
    }
  }

  /** Unless the first system raises, the walk goes on to the rest or ends at negative infinity. */
  lemma {:induction false} WalkUnfold(sps: seq<SystemParams>, s: nat, b: ResolvedBounds, dens: Density,
                                     ln: real -> real, acc: LogValue)
    requires |sps| > 0 && AllNonEmpty(sps)
    requires !SystemStep(sps[0], s, b, dens, ln, acc).Fault?
    ensures AllNonEmpty(sps[1..])
    ensures SystemStep(sps[0], s, b, dens, ln, acc).Stop? ==> Walk(sps, s, b, dens, ln, acc) == Value(NegInf)
    ensures SystemStep(sps[0], s, b, dens, ln, acc).Go? ==>
              Walk(sps, s, b, dens, ln, acc) ==
              Walk(sps[1..], s + 1, b, dens, ln, SystemStep(sps[0], s, b, dens, ln, acc).acc)
  {
    forall t | 0 <= t < |sps[1..]| ensures |sps[1..][t].masses| >= 1 {
      assert sps[1..][t] == sps[t + 1];
    }
  }

  lemma {:induction false} TailUsable(sps: seq<SystemParams>)
    requires |sps| > 0 && AllNonEmpty(sps) && AllUsable(sps)
    ensures AllNonEmpty(sps[1..]) && AllUsable(sps[1..])
  {
    var rest := sps[1..];
    forall t | 0 <= t < |rest| ensures |rest[t].masses| >= 1 && PrimaryUsable(rest[t]) {
      assert rest[t] == sps[t + 1];
    }
  }

  /** The checks and the sum over all systems split into the first system's and the rest's. */
  lemma {:induction false} WalkConsSplit(sps: seq<SystemParams>, b: ResolvedBounds, dens: Density, ln: real -> real)
    requires |sps| > 0 && AllNonEmpty(sps) && AllUsable(sps)
    ensures AllNonEmpty(sps[1..]) && AllUsable(sps[1..])
    ensures InBounds(sps, b) <==> SystemInBounds(sps[0], b) && InBounds(sps[1..], b)
    ensures AllPositive(AllTerms(sps), b, dens) <==>
            AllPositive(SystemTerms(sps[0]), b, dens) && AllPositive(AllTerms(sps[1..]), b, dens)
    ensures SumLog(AllTerms(sps), b, dens, ln) ==
            SumLog(SystemTerms(sps[0]), b, dens, ln) + SumLog(AllTerms(sps[1..]), b, dens, ln)
  {
    var rest := sps[1..];
    TailUsable(sps);
    InBoundsCons(sps, b);
    AllPositiveAppend(SystemTerms(sps[0]), AllTerms(rest), b, dens);
    SumLogAppend(SystemTerms(sps[0]), AllTerms(rest), b, dens, ln);
  }

  /**
    The log-prior is finite exactly when every system's age, feh, distance
    and AV are within bounds and every density evaluated (the four shared
    ones, the primary's mass, one q per secondary) is positive; it is then
    the sum of their logs, and negative infinity otherwise.
   */
  lemma {:induction false} LnPriorExact(counts: seq<nat>, p: seq<real>, b: ResolvedBounds, dens: Density, ln: real -> real)
    requires ValidCounts(counts) && |p| >= NParams(counts)
    requires AllUsable(Decode(counts, p))
    ensures var sps := Decode(counts, p);
            LnPrior(counts, p, b, dens, ln) ==
            if InBounds(sps, b) && AllPositive(AllTerms(sps), b, dens)
            then Value(Fin(SumLog(AllTerms(sps), b, dens, ln)))
            else Value(NegInf)
  {
    assert counts[..0] == [];
    var sps := Decode(counts, p);
    assert sps[0..] == sps;
    LnPriorFromWalk(counts, p, 0, b, dens, ln, Fin(0.0));
    WalkSpec(sps, 0, b, dens, ln, Fin(0.0));
    SystemsOkSum(sps, b, dens, ln);
  }

  /**
    The likelihood is never consulted when the prior is not finite: any two
    likelihoods give the same log-posterior, the prior itself.
   */
  lemma {:induction false} LnPostSkipsLikelihood(counts: seq<nat>, p: seq<real>, b: ResolvedBounds, dens: Density, ln: real -> real,
                              like1: seq<real> -> LogValue, like2: seq<real> -> LogValue)
    requires !(LnPrior(counts, p, b, dens, ln).Value? && LnPrior(counts, p, b, dens, ln).lp.Fin?)
    ensures LnPost(counts, p, b, dens, ln, like1) == LnPost(counts, p, b, dens, ln, like2)
    ensures LnPost(counts, p, b, dens, ln, like1) == LnPrior(counts, p, b, dens, ln)
  {
  }

  // ---------------------------------------------------------------------
  // Short-circuit: nothing after the first failing check is looked at.
  // ---------------------------------------------------------------------

  /** A failing shared check at position k stops the shared checks that start at or before k. */
  lemma {:induction false} SharedStopsBy(sp: SystemParams, k0: nat, k: nat, b: ResolvedBounds, dens: Density,
                                        ln: real -> real, acc: LogValue)
    requires k0 <= k < 4
    requires !b.Of(SharedParam(k)).Contains(Shared(sp, k)) ||
             dens(SharedParam(k), Shared(sp, k), b.Of(SharedParam(k))) <= 0.0
    ensures SharedStep(sp, k0, b, dens, ln, acc) == Stop
    decreases k - k0
  {
    var prm := SharedParam(k0);
    var x := Shared(sp, k0);
    if k0 < k && !(x < b.Of(prm).lo || x > b.Of(prm).hi) {
      var a := Add(acc, LogDensity(b, dens, ln, prm, x));
      if a.Fin? {
        SharedStopsBy(sp, k0 + 1, k, b, dens, ln, a);
      }
    }
  }

  /**
    Running the first m systems alone: a raise is the same raise; a value is
    where the full walk stands when it reaches system m, unless the full walk
    has already stopped with negative infinity.
   */
  lemma {:induction false} PrefixRun(counts: seq<nat>, p: seq<real>, m: nat, t: nat, b: ResolvedBounds,
                                    dens: Density, ln: real -> real, acc: LogValue)
    requires t <= m <= |counts|
    ensures Offset(counts[..m], t) == Offset(counts, t)
    ensures var pre := LnPriorFrom(counts[..m], p, t, Offset(counts[..m], t), b, dens, ln, acc);
            var full := LnPriorFrom(counts, p, t, Offset(counts, t), b, dens, ln, acc);
            && (pre.Raised? ==> full == pre)
            && (pre.Value? ==> (pre.lp == NegInf && full == Value(NegInf)) ||
                               full == LnPriorFrom(counts, p, m, Offset(counts, m), b, dens, ln, pre.lp))
    decreases m - t
  {
    var c := counts[..m];
    OffsetPrefix(counts, m, t);
    if t < m {
      assert c[t] == counts[t];
      OffsetStep(counts, t);
      OffsetStep(c, t);
      OffsetPrefix(counts, m, t + 1);
      var n := counts[t];
      var i := Offset(counts, t);
      if i + n + 4 <= |p| {
        LnPriorFromUnfold(counts, p, t, b, dens, ln, acc);
        LnPriorFromUnfold(c, p, t, b, dens, ln, acc);
        match SystemStep(SystemAt(p, i, n), t, b, dens, ln, acc)
        case Go(a) =>
          PrefixRun(counts, p, m, t + 1, b, dens, ln, a);
        case Stop =>
        case Fault(e) =>
      }
    } else {
      assert c == counts[..t];
    }
  }

  /**
    A model with a system of no member stars never has a finite log-prior:
    the walk stops at -inf before that system or at one of its shared
    checks, or raises when it reaches the system's primary mass.
   */
  lemma {:induction false} EmptySystemNeverFinite(counts: seq<nat>, p: seq<real>, b: ResolvedBounds, dens: Density,
                                                 ln: real -> real, t: nat)
    requires t < |counts| && counts[t] == 0
    ensures !(LnPrior(counts, p, b, dens, ln).Value? && LnPrior(counts, p, b, dens, ln).lp.Fin?)
    ensures LnPrior(counts, p, b, dens, ln).Raised? && LnPrior(counts, p, b, dens, ln).err.EmptySystem? ==>
              counts[LnPrior(counts, p, b, dens, ln).err.system] == 0
  {
    assert counts[..0] == [];
    EmptyFromNeverFinite(counts, p, 0, b, dens, ln, Fin(0.0), t);
  }

  lemma {:induction false} EmptyFromNeverFinite(counts: seq<nat>, p: seq<real>, s: nat, b: ResolvedBounds,
                                               dens: Density, ln: real -> real, acc: LogValue, t: nat)
    requires s <= t < |counts| && counts[t] == 0
    ensures !(LnPriorFrom(counts, p, s, Offset(counts, s), b, dens, ln, acc).Value? &&
              LnPriorFrom(counts, p, s, Offset(counts, s), b, dens, ln, acc).lp.Fin?)
    decreases |counts| - s
  {
    var i := Offset(counts, s);
    var n := counts[s];
    if |p| >= i + n + 4 {
      LnPriorFromUnfold(counts, p, s, b, dens, ln, acc);
      var step := SystemStep(SystemAt(p, i, n), s, b, dens, ln, acc);
      if s == t {
        assert !step.Go?;
      } else if step.Go? {
        EmptyFromNeverFinite(counts, p, s + 1, b, dens, ln, step.acc, t);
      }
    }
  }

  /** Slots past the last segment are never read. */
  lemma {:induction false} VectorTruncate(counts: seq<nat>, p: seq<real>, m: nat, t: nat, b: ResolvedBounds,
                                         dens: Density, ln: real -> real, acc: LogValue)
    requires t <= |counts| && NParams(counts) <= m <= |p|
    ensures LnPriorFrom(counts, p[..m], t, Offset(counts, t), b, dens, ln, acc) ==
            LnPriorFrom(counts, p, t, Offset(counts, t), b, dens, ln, acc)
    decreases |counts| - t
  {
    if t < |counts| {
      SegmentInside(counts, t);
      OffsetStep(counts, t);
      var n := counts[t];
      var i := Offset(counts, t);
      LnPriorFromUnfold(counts, p, t, b, dens, ln, acc);
      LnPriorFromUnfold(counts, p[..m], t, b, dens, ln, acc);
      assert p[..m][i..i + n] == p[i..i + n];
      assert SystemAt(p[..m], i, n) == SystemAt(p, i, n);
      match SystemStep(SystemAt(p, i, n), t, b, dens, ln, acc)
      case Go(a) =>
        VectorTruncate(counts, p, m, t + 1, b, dens, ln, a);
      case Stop =>
      case Fault(e) =>
    }
  }

  /**
    When the systems before s were evaluated without raising and the k-th
    of system s's age, feh, distance, AV is out of range (inclusive bounds)
    or has a zero density, the log-prior is negative infinity, and it is so
    already for the vector cut after system s: no later count or slot is
    looked at.
   */
  lemma {:induction false} StopsAtSystem(counts: seq<nat>, p: seq<real>, b: ResolvedBounds, dens: Density,
                                        ln: real -> real, s: nat, k: nat)
    requires s < |counts| && k < 4
    requires Offset(counts, s) + counts[s] + 4 <= |p|
    requires LnPrior(counts[..s], p, b, dens, ln).Value?
    requires var prm := SharedParam(k);
             var x := p[Offset(counts, s) + counts[s] + k];
             x < b.Of(prm).lo || x > b.Of(prm).hi || dens(prm, x, b.Of(prm)) <= 0.0
    ensures LnPrior(counts, p, b, dens, ln) == Value(NegInf)
    ensures LnPrior(counts[..s + 1], p[..Offset(counts, s) + counts[s] + 4], b, dens, ln) == Value(NegInf)
  {
    var n := counts[s];
    var i := Offset(counts, s);
    var sp := SystemAt(p, i, n);
    SharedOfSystemAt(p, i, n, k);
    SharedStopsBy(sp, 0, k, b, dens, ln, LnPrior(counts[..s], p, b, dens, ln).lp);
    StopsAfterPrefix(counts, p, b, dens, ln, s);
    StopsCut(counts, p, b, dens, ln, s);
  }

  /**
    When the systems before s are evaluated without raising and system s
    passes its shared checks, reading its primary mass raises: for a system
    without member stars, and for a zero primary mass under a mass ratio.
   */
  lemma {:induction false} RaisesAtSystem(counts: seq<nat>, p: seq<real>, b: ResolvedBounds, dens: Density,
                                         ln: real -> real, s: nat)
    requires s < |counts|
    requires Offset(counts, s) + counts[s] + 4 <= |p|
    requires LnPrior(counts[..s], p, b, dens, ln).Value?
    requires SharedStep(SystemAt(p, Offset(counts, s), counts[s]), 0, b, dens, ln,
                        LnPrior(counts[..s], p, b, dens, ln).lp).Go?
    ensures counts[s] == 0 ==> LnPrior(counts, p, b, dens, ln) == Raised(EmptySystem(s))
    ensures counts[s] >= 2 && p[Offset(counts, s)] == 0.0 ==>
              LnPrior(counts, p, b, dens, ln) == Raised(ZeroPrimaryMass(s))
  {
    assert counts[..0] == [] && counts[..s][..0] == [];
    PrefixRun(counts, p, s, 0, b, dens, ln, Fin(0.0));
    var pre := LnPrior(counts[..s], p, b, dens, ln);
    var sp := SystemAt(p, Offset(counts, s), counts[s]);
    SharedStepAll(sp, b, dens, ln, pre.lp);
    SystemStepOutcome(sp, s, b, dens, ln, pre.lp);
    LnPriorFromUnfold(counts, p, s, b, dens, ln, pre.lp);
  }

  /** The vector cut after system s stops at system s whenever the whole vector does. */
  lemma {:induction false} StopsCut(counts: seq<nat>, p: seq<real>, b: ResolvedBounds, dens: Density,
                                   ln: real -> real, s: nat)
    requires s < |counts|
    requires Offset(counts, s) + counts[s] + 4 <= |p|
    requires LnPrior(counts[..s], p, b, dens, ln).Value?
    requires SharedStep(SystemAt(p, Offset(counts, s), counts[s]), 0, b, dens, ln,
                        LnPrior(counts[..s], p, b, dens, ln).lp) == Stop
    ensures LnPrior(counts[..s + 1], p[..Offset(counts, s) + counts[s] + 4], b, dens, ln) == Value(NegInf)
  {
    var n := counts[s];
    var i := Offset(counts, s);
    var e := i + n + 4;
    var c := counts[..s + 1];
    var q := p[..e];
    assert c[..s] == counts[..s];
    assert c[s] == n;
    OffsetPrefix(counts, s + 1, s);
    SystemAtPrefix(p, e, i, n);
    CutPrefixSame(counts, p, b, dens, ln, s);
    StopsAfterPrefix(c, q, b, dens, ln, s);
  }

  /**
    When the systems before s are evaluated without raising, the log-prior
    is negative infinity as soon as system s stops the walk.
   */
  lemma {:induction false} StopsAfterPrefix(counts: seq<nat>, p: seq<real>, b: ResolvedBounds, dens: Density,
                                           ln: real -> real, s: nat)
    requires s < |counts|
    requires Offset(counts, s) + counts[s] + 4 <= |p|
    requires LnPrior(counts[..s], p, b, dens, ln).Value?
    requires SharedStep(SystemAt(p, Offset(counts, s), counts[s]), 0, b, dens, ln,
                        LnPrior(counts[..s], p, b, dens, ln).lp) == Stop
    ensures LnPrior(counts, p, b, dens, ln) == Value(NegInf)
  {
    assert counts[..0] == [] && counts[..s][..0] == [];
    PrefixRun(counts, p, s, 0, b, dens, ln, Fin(0.0));
    var pre := LnPrior(counts[..s], p, b, dens, ln);
    LnPriorFromUnfold(counts, p, s, b, dens, ln, pre.lp);
  }

  /** Cutting the vector after segment s does not change the log-prior of the systems before s. */
  lemma {:induction false} CutPrefixSame(counts: seq<nat>, p: seq<real>, b: ResolvedBounds, dens: Density,
                                        ln: real -> real, s: nat)
    requires s < |counts|
    requires Offset(counts, s) + counts[s] + 4 <= |p|
    ensures LnPrior(counts[..s], p[..Offset(counts, s) + counts[s] + 4], b, dens, ln) ==
            LnPrior(counts[..s], p, b, dens, ln)
  {
    var e := Offset(counts, s) + counts[s] + 4;
    assert counts[..s][..0] == [];
    OffsetEnd(counts[..s]);
    OffsetPrefix(counts, s, s);
    VectorTruncate(counts[..s], p, e, 0, b, dens, ln, Fin(0.0));
  }

  lemma SystemAtPrefix(p: seq<real>, e: nat, i: nat, n: nat)
    requires i + n + 4 <= e <= |p|
    ensures SystemAt(p[..e], i, n) == SystemAt(p, i, n)
  {
    assert p[..e][i..i + n] == p[i..i + n];
  }
}
