/**
  The log-prior imposes no order among the secondaries of a system: each
  secondary contributes the q density of its own ratio to the primary,
  with the same q bounds, so exchanging two secondaries leaves the
  log-prior unchanged.
 */
module Secondaries {
  import opened Layout
  import opened Bounds
  import opened Posterior
  import opened LogValues

  /** The sequence with the entries at x and y exchanged. */
  function Swap<T>(s: seq<T>, x: nat, y: nat): (r: seq<T>)
    requires x < |s| && y < |s|
    ensures |r| == |s| && r[x] == s[y] && r[y] == s[x]
    ensures forall k :: 0 <= k < |s| && k != x && k != y ==> r[k] == s[k]
  {
    s[x := s[y]][y := s[x]]
  }

  lemma {:induction false} SwapSplit<T>(s: seq<T>, a: nat, c: nat)
    requires a < c < |s|
    ensures s == s[..a] + [s[a]] + s[a + 1..c] + [s[c]] + s[c + 1..]
    ensures Swap(s, a, c) == s[..a] + [s[c]] + s[a + 1..c] + [s[a]] + s[c + 1..]
  {
    var r := s[..a] + [s[c]] + s[a + 1..c] + [s[a]] + s[c + 1..];
    assert |r| == |s|;
    forall k | 0 <= k < |s|
      ensures Swap(s, a, c)[k] == r[k]
    {
      if k < a {
      } else if k == a {
      } else if k < c {
        assert r[k] == s[a + 1..c][k - a - 1];
      } else if k == c {
      } else {
        assert r[k] == s[c + 1..][k - c - 1];
      }
    }
  }

  lemma {:induction false} SumLogFive(a: seq<Term>, x: Term, m: seq<Term>, y: Term, c: seq<Term>, b: ResolvedBounds, dens: Density,
                   ln: real -> real)
    ensures SumLog(a + [x] + m + [y] + c, b, dens, ln) ==
            SumLog(a, b, dens, ln) + SumLog([x], b, dens, ln) + SumLog(m, b, dens, ln) +
            SumLog([y], b, dens, ln) + SumLog(c, b, dens, ln)
    ensures AllPositive(a + [x] + m + [y] + c, b, dens) <==>
            AllPositive(a, b, dens) && AllPositive([x], b, dens) && AllPositive(m, b, dens) &&
            AllPositive([y], b, dens) && AllPositive(c, b, dens)
  {
    SumLogAppend(a + [x] + m + [y], c, b, dens, ln);
    SumLogAppend(a + [x] + m, [y], b, dens, ln);
    SumLogAppend(a + [x], m, b, dens, ln);
    SumLogAppend(a, [x], b, dens, ln);
    AllPositiveAppend(a + [x] + m + [y], c, b, dens);
    AllPositiveAppend(a + [x] + m, [y], b, dens);
    AllPositiveAppend(a + [x], m, b, dens);
    AllPositiveAppend(a, [x], b, dens);
  }

  /** Exchanging two terms changes neither whether all densities are positive nor the sum of their logs. */
  lemma {:induction false} SwapTerms(ts: seq<Term>, x: nat, y: nat, b: ResolvedBounds, dens: Density, ln: real -> real)
    requires x < |ts| && y < |ts|
    ensures AllPositive(Swap(ts, x, y), b, dens) <==> AllPositive(ts, b, dens)
    ensures SumLog(Swap(ts, x, y), b, dens, ln) == SumLog(ts, b, dens, ln)
  {
    if x == y {
      assert Swap(ts, x, y) == ts;
    } else {
      var a, c := if x < y then x else y, if x < y then y else x;
      assert Swap(ts, x, y) == Swap(ts, a, c);
      SwapSplit(ts, a, c);
      SumLogFive(ts[..a], ts[a], ts[a + 1..c], ts[c], ts[c + 1..], b, dens, ln);
      SumLogFive(ts[..a], ts[c], ts[a + 1..c], ts[a], ts[c + 1..], b, dens, ln);
    }
  }

  /** The system with secondaries j1 and j2 exchanged. */
  function SwapMembers(sp: SystemParams, j1: nat, j2: nat): SystemParams
    requires j1 < |sp.masses| && j2 < |sp.masses|
  {
    sp.(masses := Swap(sp.masses, j1, j2))
  }

  /** Exchanging two secondaries exchanges their q terms and leaves every other term in place. */
  lemma {:induction false} RatioTermsSwap(masses: seq<real>, j1: nat, j2: nat)
    requires 1 <= j1 < |masses| && 1 <= j2 < |masses| && masses[0] != 0.0
    ensures RatioTerms(Swap(masses, j1, j2)) == Swap(RatioTerms(masses), j1 - 1, j2 - 1)
  {
    var m := Swap(masses, j1, j2);
    assert m[0] == masses[0];
    var l, r := RatioTerms(m), Swap(RatioTerms(masses), j1 - 1, j2 - 1);
    forall k | 0 <= k < |l|
      ensures l[k] == r[k]
    {
      assert l[k] == Term(Q, m[k + 1] / m[0]);
    }
  }

  lemma {:induction false} SystemTermsSwap(sp: SystemParams, j1: nat, j2: nat, b: ResolvedBounds, dens: Density, ln: real -> real)
    requires 1 <= j1 < |sp.masses| && 1 <= j2 < |sp.masses| && PrimaryUsable(sp)
    ensures PrimaryUsable(SwapMembers(sp, j1, j2))
    ensures AllPositive(SystemTerms(SwapMembers(sp, j1, j2)), b, dens) <==> AllPositive(SystemTerms(sp), b, dens)
    ensures SumLog(SystemTerms(SwapMembers(sp, j1, j2)), b, dens, ln) == SumLog(SystemTerms(sp), b, dens, ln)
  {
    var sq := SwapMembers(sp, j1, j2);
    assert sq.masses[0] == sp.masses[0];
    var head := SharedTerms(sp) + [Term(Mass, sp.masses[0])];
    assert SharedTerms(sq) == SharedTerms(sp);
    RatioTermsSwap(sp.masses, j1, j2);
    SwapAfterHead(head, RatioTerms(sp.masses), j1 - 1, j2 - 1, b, dens, ln);
  }

  /** Exchanging two terms after a fixed head changes neither positivity nor the sum of the whole. */
  lemma {:induction false} SwapAfterHead(head: seq<Term>, rs: seq<Term>, x: nat, y: nat, b: ResolvedBounds,
                                         dens: Density, ln: real -> real)
    requires x < |rs| && y < |rs|
    ensures AllPositive(head + Swap(rs, x, y), b, dens) <==> AllPositive(head + rs, b, dens)
    ensures SumLog(head + Swap(rs, x, y), b, dens, ln) == SumLog(head + rs, b, dens, ln)
  {
    SwapTerms(rs, x, y, b, dens, ln);
    SumLogAppend(head, rs, b, dens, ln);
    SumLogAppend(head, Swap(rs, x, y), b, dens, ln);
    AllPositiveAppend(head, rs, b, dens);
    AllPositiveAppend(head, Swap(rs, x, y), b, dens);
  }

  /** Replacing one system by one whose terms agree in positivity and sum changes neither for the whole. */
  lemma {:induction false} AllTermsReplace(sps: seq<SystemParams>, s: nat, sp: SystemParams, b: ResolvedBounds,
                                           dens: Density, ln: real -> real)
    requires AllUsable(sps) && s < |sps| && PrimaryUsable(sp)
    requires AllPositive(SystemTerms(sp), b, dens) <==> AllPositive(SystemTerms(sps[s]), b, dens)
    requires SumLog(SystemTerms(sp), b, dens, ln) == SumLog(SystemTerms(sps[s]), b, dens, ln)
    ensures AllUsable(sps[s := sp])
    ensures AllPositive(AllTerms(sps[s := sp]), b, dens) <==> AllPositive(AllTerms(sps), b, dens)
    ensures SumLog(AllTerms(sps[s := sp]), b, dens, ln) == SumLog(AllTerms(sps), b, dens, ln)
    decreases s
  {
    var rs := sps[s := sp];
    assert AllUsable(rs);
    assert AllUsable(sps[1..]);
    SumLogAppend(SystemTerms(sps[0]), AllTerms(sps[1..]), b, dens, ln);
    AllPositiveAppend(SystemTerms(sps[0]), AllTerms(sps[1..]), b, dens);
    if s == 0 {
      assert rs[1..] == sps[1..];
      SumLogAppend(SystemTerms(sp), AllTerms(sps[1..]), b, dens, ln);
      AllPositiveAppend(SystemTerms(sp), AllTerms(sps[1..]), b, dens);
    } else {
      assert rs[1..] == sps[1..][s - 1 := sp];
      assert rs[0] == sps[0];
      AllTermsReplace(sps[1..], s - 1, sp, b, dens, ln);
      SumLogAppend(SystemTerms(sps[0]), AllTerms(rs[1..]), b, dens, ln);
      AllPositiveAppend(SystemTerms(sps[0]), AllTerms(rs[1..]), b, dens);
    }
  }

  /** Segments of different systems do not overlap. */
  lemma {:induction false} SegmentsApart(counts: seq<nat>, s: nat, t: nat)
    requires s < |counts| && t < |counts| && s != t
    ensures Offset(counts, t) + counts[t] + 4 <= Offset(counts, s) ||
            Offset(counts, s) + counts[s] + 4 <= Offset(counts, t)
  {
    if t < s {
      OffsetStep(counts, t);
      OffsetMonotone(counts, t + 1, s);
    } else {
      OffsetStep(counts, s);
      OffsetMonotone(counts, s + 1, t);
    }
  }

  /** Exchanging two mass slots of system s changes that system's masses only. */
  lemma {:induction false} DecodeSwap(counts: seq<nat>, p: seq<real>, s: nat, j1: nat, j2: nat)
    requires |p| >= NParams(counts) && s < |counts| && j1 < counts[s] && j2 < counts[s]
    requires Offset(counts, s) + j1 < |p| && Offset(counts, s) + j2 < |p|
    ensures Decode(counts, Swap(p, Offset(counts, s) + j1, Offset(counts, s) + j2)) ==
            Decode(counts, p)[s := SwapMembers(Decode(counts, p)[s], j1, j2)]
  {
    SegmentInside(counts, s);
    var sps := Decode(counts, p);
    var want := sps[s := SwapMembers(sps[s], j1, j2)];
    var got := Decode(counts, Swap(p, Offset(counts, s) + j1, Offset(counts, s) + j2));
    forall t | 0 <= t < |counts|
      ensures got[t] == want[t]
    {
      if t == s {
        DecodeSwapSame(counts, p, s, j1, j2);
      } else {
        DecodeSwapOther(counts, p, s, j1, j2, t);
      }
    }
  }

  /** The system whose slots were exchanged gets its members exchanged. */
  lemma {:induction false} DecodeSwapSame(counts: seq<nat>, p: seq<real>, s: nat, j1: nat, j2: nat)
    requires |p| >= NParams(counts) && s < |counts| && j1 < counts[s] && j2 < counts[s]
    requires Offset(counts, s) + counts[s] + 4 <= |p|
    ensures Decode(counts, Swap(p, Offset(counts, s) + j1, Offset(counts, s) + j2))[s] ==
            SwapMembers(Decode(counts, p)[s], j1, j2)
  {
    var o := Offset(counts, s);
    DecodeAt(counts, p, s);
    DecodeAt(counts, Swap(p, o + j1, o + j2), s);
    SystemAtSwapInside(p, o, counts[s], j1, j2);
  }

  /** Every other system is read from slots the exchange does not touch. */
  lemma {:induction false} DecodeSwapOther(counts: seq<nat>, p: seq<real>, s: nat, j1: nat, j2: nat, t: nat)
    requires |p| >= NParams(counts) && s < |counts| && j1 < counts[s] && j2 < counts[s]
    requires t < |counts| && t != s
    requires Offset(counts, s) + counts[s] + 4 <= |p|
    ensures Decode(counts, Swap(p, Offset(counts, s) + j1, Offset(counts, s) + j2))[t] == Decode(counts, p)[t]
  {
    var o := Offset(counts, s);
    DecodeAt(counts, p, t);
    DecodeAt(counts, Swap(p, o + j1, o + j2), t);
    SlotsOutside(counts, s, t, j1, j2);
    SystemAtSwapOutside(p, Offset(counts, t), counts[t], o + j1, o + j2);
  }

  /** Mass slots of system s lie outside the segment of any other system t. */
  lemma {:induction false} SlotsOutside(counts: seq<nat>, s: nat, t: nat, j1: nat, j2: nat)
    requires s < |counts| && t < |counts| && s != t && j1 < counts[s] && j2 < counts[s]
    ensures Offset(counts, s) + j1 < Offset(counts, t) || Offset(counts, t) + counts[t] + 4 <= Offset(counts, s) + j1
    ensures Offset(counts, s) + j2 < Offset(counts, t) || Offset(counts, t) + counts[t] + 4 <= Offset(counts, s) + j2
  {
    SegmentsApart(counts, s, t);
  }

  lemma {:induction false} SystemAtSwapInside(p: seq<real>, i: nat, n: nat, j1: nat, j2: nat)
    requires i + n + 4 <= |p| && j1 < n && j2 < n
    ensures SystemAt(Swap(p, i + j1, i + j2), i, n) == SwapMembers(SystemAt(p, i, n), j1, j2)
  {
    var q := Swap(p, i + j1, i + j2);
    assert q[i..i + n] == Swap(p[i..i + n], j1, j2);
  }

  lemma {:induction false} SystemAtSwapOutside(p: seq<real>, i: nat, n: nat, x: nat, y: nat)
    requires i + n + 4 <= |p| && x < |p| && y < |p|
    requires x < i || i + n + 4 <= x
    requires y < i || i + n + 4 <= y
    ensures SystemAt(Swap(p, x, y), i, n) == SystemAt(p, i, n)
  {
    var q := Swap(p, x, y);
    assert q[i..i + n] == p[i..i + n];
  }

  /**
    Exchanging two secondaries of a system in the parameter vector leaves
    the log-prior unchanged: no order among secondaries is imposed.  This
    holds for every outcome, a raised error included, and whatever the
    rest of the vector holds.
   */
  lemma {:induction false} SecondariesUnordered(counts: seq<nat>, p: seq<real>, b: ResolvedBounds, dens: Density,
                                                ln: real -> real, s: nat, j1: nat, j2: nat)
    requires s < |counts| && 1 <= j1 < counts[s] && 1 <= j2 < counts[s]
    requires Offset(counts, s) + j1 < |p| && Offset(counts, s) + j2 < |p|
    ensures LnPrior(counts, Swap(p, Offset(counts, s) + j1, Offset(counts, s) + j2), b, dens, ln) ==
            LnPrior(counts, p, b, dens, ln)
  {
    assert counts[..0] == [];
    SwapFromSame(counts, p, 0, s, j1, j2, b, dens, ln, Fin(0.0));
  }

  /** From any system on, the walk over the exchanged vector is the walk over the original. */
  lemma {:induction false} SwapFromSame(counts: seq<nat>, p: seq<real>, s: nat, t: nat, j1: nat, j2: nat,
                                        b: ResolvedBounds, dens: Density, ln: real -> real, acc: LogValue)
    requires s <= |counts| && t < |counts| && 1 <= j1 < counts[t] && 1 <= j2 < counts[t]
    requires Offset(counts, t) + j1 < |p| && Offset(counts, t) + j2 < |p|
    ensures LnPriorFrom(counts, Swap(p, Offset(counts, t) + j1, Offset(counts, t) + j2), s, Offset(counts, s),
                        b, dens, ln, acc) ==
            LnPriorFrom(counts, p, s, Offset(counts, s), b, dens, ln, acc)
    decreases |counts| - s, 1
  {
    if s < |counts| {
      var o := Offset(counts, t);
      if Offset(counts, s) + counts[s] + 4 <= |p| {
        SwapTurnSame(counts, p, s, t, j1, j2, b, dens, ln, acc);
      } else {
        ShortSamePrior(counts, p, Swap(p, o + j1, o + j2), s, b, dens, ln, acc);
      }
    }
  }

  /** One turn of that walk, on a vector long enough for system s. */
  lemma {:induction false} SwapTurnSame(counts: seq<nat>, p: seq<real>, s: nat, t: nat, j1: nat, j2: nat,
                                        b: ResolvedBounds, dens: Density, ln: real -> real, acc: LogValue)
    requires s < |counts| && t < |counts| && 1 <= j1 < counts[t] && 1 <= j2 < counts[t]
    requires Offset(counts, t) + j1 < |p| && Offset(counts, t) + j2 < |p|
    requires Offset(counts, s) + counts[s] + 4 <= |p|
    ensures LnPriorFrom(counts, Swap(p, Offset(counts, t) + j1, Offset(counts, t) + j2), s, Offset(counts, s),
                        b, dens, ln, acc) ==
            LnPriorFrom(counts, p, s, Offset(counts, s), b, dens, ln, acc)
    decreases |counts| - s, 0
  {
    SwapStepSame(counts, p, s, t, j1, j2, b, dens, ln, acc);
    var step := SystemStep(SystemAt(p, Offset(counts, s), counts[s]), s, b, dens, ln, acc);
    if step.Go? {
      SwapFromSame(counts, p, s + 1, t, j1, j2, b, dens, ln, step.acc);
    }
    SameStepSamePrior(counts, p, Swap(p, Offset(counts, t) + j1, Offset(counts, t) + j2), s, b, dens, ln, acc);
  }

  /** Two vectors of the same length too short for system s raise the same error. */
  lemma ShortSamePrior(counts: seq<nat>, p: seq<real>, q: seq<real>, s: nat, b: ResolvedBounds,
                                          dens: Density, ln: real -> real, acc: LogValue)
    requires s < |counts| && |q| == |p| && |p| < Offset(counts, s) + counts[s] + 4
    ensures LnPriorFrom(counts, q, s, Offset(counts, s), b, dens, ln, acc) == Raised(ShortVector(s))
    ensures LnPriorFrom(counts, p, s, Offset(counts, s), b, dens, ln, acc) == Raised(ShortVector(s))
  {
  }

  /** Every system, the one whose secondaries are exchanged included, takes the same step. */
  lemma {:induction false} SwapStepSame(counts: seq<nat>, p: seq<real>, s: nat, t: nat, j1: nat, j2: nat,
                                        b: ResolvedBounds, dens: Density, ln: real -> real, acc: LogValue)
    requires s < |counts| && t < |counts| && 1 <= j1 < counts[t] && 1 <= j2 < counts[t]
    requires Offset(counts, t) + j1 < |p| && Offset(counts, t) + j2 < |p|
    requires Offset(counts, s) + counts[s] + 4 <= |p|
    ensures SystemStep(SystemAt(Swap(p, Offset(counts, t) + j1, Offset(counts, t) + j2), Offset(counts, s), counts[s]),
                       s, b, dens, ln, acc) ==
            SystemStep(SystemAt(p, Offset(counts, s), counts[s]), s, b, dens, ln, acc)
  {
    if s == t {
      SwapStepTarget(counts, p, t, j1, j2, b, dens, ln, acc);
    } else {
      SwapStepOther(counts, p, s, t, j1, j2, b, dens, ln, acc);
    }
  }

  /** The system whose secondaries are exchanged takes the same step. */
  lemma {:induction false} SwapStepTarget(counts: seq<nat>, p: seq<real>, t: nat, j1: nat, j2: nat,
                                          b: ResolvedBounds, dens: Density, ln: real -> real, acc: LogValue)
    requires t < |counts| && 1 <= j1 < counts[t] && 1 <= j2 < counts[t]
    requires Offset(counts, t) + counts[t] + 4 <= |p|
    ensures SystemStep(SystemAt(Swap(p, Offset(counts, t) + j1, Offset(counts, t) + j2), Offset(counts, t), counts[t]),
                       t, b, dens, ln, acc) ==
            SystemStep(SystemAt(p, Offset(counts, t), counts[t]), t, b, dens, ln, acc)
  {
    SwapStepInside(p, Offset(counts, t), counts[t], t, j1, j2, b, dens, ln, acc);
  }

  /** A system other than the one whose secondaries are exchanged takes the same step. */
  lemma {:induction false} SwapStepOther(counts: seq<nat>, p: seq<real>, s: nat, t: nat, j1: nat, j2: nat,
                                         b: ResolvedBounds, dens: Density, ln: real -> real, acc: LogValue)
    requires s < |counts| && t < |counts| && s != t && j1 < counts[t] && j2 < counts[t]
    requires Offset(counts, t) + j1 < |p| && Offset(counts, t) + j2 < |p|
    requires Offset(counts, s) + counts[s] + 4 <= |p|
    ensures SystemStep(SystemAt(Swap(p, Offset(counts, t) + j1, Offset(counts, t) + j2), Offset(counts, s), counts[s]),
                       s, b, dens, ln, acc) ==
            SystemStep(SystemAt(p, Offset(counts, s), counts[s]), s, b, dens, ln, acc)
  {
    SlotsOutside(counts, t, s, j1, j2);
    SwapStepOutside(p, Offset(counts, s), counts[s], s, Offset(counts, t) + j1, Offset(counts, t) + j2, b, dens, ln, acc);
  }


  /**
    One turn of the walk over two vectors of the same length: when system s
    reads the same step from both, and the rest of the walk after a passing
    step agrees, the log-priors agree.
   */
  lemma {:induction false} SameStepSamePrior(counts: seq<nat>, p: seq<real>, q: seq<real>, s: nat, b: ResolvedBounds,
                                             dens: Density, ln: real -> real, acc: LogValue)
    requires s < |counts| && |q| == |p| && Offset(counts, s) + counts[s] + 4 <= |p|
    requires SystemStep(SystemAt(q, Offset(counts, s), counts[s]), s, b, dens, ln, acc) ==
             SystemStep(SystemAt(p, Offset(counts, s), counts[s]), s, b, dens, ln, acc)
    requires SystemStep(SystemAt(p, Offset(counts, s), counts[s]), s, b, dens, ln, acc).Go? ==>
             LnPriorFrom(counts, q, s + 1, Offset(counts, s + 1), b, dens, ln,
                         SystemStep(SystemAt(p, Offset(counts, s), counts[s]), s, b, dens, ln, acc).acc) ==
             LnPriorFrom(counts, p, s + 1, Offset(counts, s + 1), b, dens, ln,
                         SystemStep(SystemAt(p, Offset(counts, s), counts[s]), s, b, dens, ln, acc).acc)
    ensures LnPriorFrom(counts, q, s, Offset(counts, s), b, dens, ln, acc) ==
            LnPriorFrom(counts, p, s, Offset(counts, s), b, dens, ln, acc)
  {
    LnPriorFromUnfold(counts, p, s, b, dens, ln, acc);
    LnPriorFromUnfold(counts, q, s, b, dens, ln, acc);
  }

  /** The system whose segment holds both exchanged slots takes the same step. */
  lemma {:induction false} SwapStepInside(p: seq<real>, i: nat, n: nat, s: nat, j1: nat, j2: nat,
                                          b: ResolvedBounds, dens: Density, ln: real -> real, acc: LogValue)
    requires i + n + 4 <= |p| && 1 <= j1 < n && 1 <= j2 < n
    ensures SystemStep(SystemAt(Swap(p, i + j1, i + j2), i, n), s, b, dens, ln, acc) ==
            SystemStep(SystemAt(p, i, n), s, b, dens, ln, acc)
  {
    SystemAtSwapInside(p, i, n, j1, j2);
    SystemStepSwap(SystemAt(p, i, n), s, j1, j2, b, dens, ln, acc);
  }

  /** A system whose segment holds neither exchanged slot takes the same step. */
  lemma {:induction false} SwapStepOutside(p: seq<real>, i: nat, n: nat, s: nat, x: nat, y: nat,
                                           b: ResolvedBounds, dens: Density, ln: real -> real, acc: LogValue)
    requires i + n + 4 <= |p| && x < |p| && y < |p|
    requires x < i || i + n + 4 <= x
    requires y < i || i + n + 4 <= y
    ensures SystemStep(SystemAt(Swap(p, x, y), i, n), s, b, dens, ln, acc) ==
            SystemStep(SystemAt(p, i, n), s, b, dens, ln, acc)
  {
    SystemAtSwapOutside(p, i, n, x, y);
  }

  /** A system with two secondaries exchanged takes exactly the same step, a raise included. */
  lemma {:induction false} SystemStepSwap(sp: SystemParams, s: nat, j1: nat, j2: nat, b: ResolvedBounds,
                                          dens: Density, ln: real -> real, acc: LogValue)
    requires 1 <= j1 < |sp.masses| && 1 <= j2 < |sp.masses|
    ensures SystemStep(SwapMembers(sp, j1, j2), s, b, dens, ln, acc) == SystemStep(sp, s, b, dens, ln, acc)
  {
    SharedStepMasses(sp, Swap(sp.masses, j1, j2), 0, b, dens, ln, acc);
    match SharedStep(sp, 0, b, dens, ln, acc)
    case Go(a) =>
      RatioStepSwap(sp.masses, s, j1, j2, b, dens, ln, Add(a, LogDensity(b, dens, ln, Mass, sp.masses[0])));
    case _ =>
  }

  /** The shared checks read only age, feh, distance and AV. */
  lemma {:induction false} SharedStepMasses(sp: SystemParams, ms: seq<real>, k: nat, b: ResolvedBounds,
                                            dens: Density, ln: real -> real, acc: LogValue)
    requires k <= 4
    ensures SharedStep(sp.(masses := ms), k, b, dens, ln, acc) == SharedStep(sp, k, b, dens, ln, acc)
    decreases 4 - k
  {
    if k < 4 {
      SharedStepMasses(sp, ms, k + 1, b, dens, ln, Add(acc, LogDensity(b, dens, ln, SharedParam(k), Shared(sp, k))));
    }
  }

  /**
    The mass-ratio terms with two secondaries exchanged end the same way:
    the same raise for a zero primary, the same stop, or the same sum.
   */
  lemma {:induction false} RatioStepSwap(masses: seq<real>, s: nat, j1: nat, j2: nat, b: ResolvedBounds,
                                         dens: Density, ln: real -> real, acc: LogValue)
    requires 1 <= j1 < |masses| && 1 <= j2 < |masses|
    ensures RatioStep(Swap(masses, j1, j2), s, 0, b, dens, ln, acc) == RatioStep(masses, s, 0, b, dens, ln, acc)
  {
    var ms := Swap(masses, j1, j2);
    assert ms[0] == masses[0];
    if masses[0] != 0.0 && acc.Fin? {
      RatioStepSpec(masses, s, 0, b, dens, ln, acc);
      RatioStepSpec(ms, s, 0, b, dens, ln, acc);
      RatioTermsSwap(masses, j1, j2);
      var rt := RatioTerms(masses);
      assert rt[0..] == rt && RatioTerms(ms)[0..] == RatioTerms(ms);
      SwapTerms(rt, j1 - 1, j2 - 1, b, dens, ln);
    }
  }

  /** Exchanging two secondaries of one system keeps every check and the sum of logs. */
  lemma {:induction false} SwapKeepsTerms(sps: seq<SystemParams>, s: nat, j1: nat, j2: nat, b: ResolvedBounds,
                                          dens: Density, ln: real -> real)
    requires AllUsable(sps) && s < |sps| && 1 <= j1 < |sps[s].masses| && 1 <= j2 < |sps[s].masses|
    ensures AllUsable(sps[s := SwapMembers(sps[s], j1, j2)])
    ensures InBounds(sps[s := SwapMembers(sps[s], j1, j2)], b) <==> InBounds(sps, b)
    ensures AllPositive(AllTerms(sps[s := SwapMembers(sps[s], j1, j2)]), b, dens) <==>
            AllPositive(AllTerms(sps), b, dens)
    ensures SumLog(AllTerms(sps[s := SwapMembers(sps[s], j1, j2)]), b, dens, ln) == SumLog(AllTerms(sps), b, dens, ln)
  {
    var sp := SwapMembers(sps[s], j1, j2);
    SystemTermsSwap(sps[s], j1, j2, b, dens, ln);
    AllTermsReplace(sps, s, sp, b, dens, ln);
    var rs := sps[s := sp];
    assert InBounds(rs, b) <==> InBounds(sps, b) by {
      assert forall t :: 0 <= t < |sps| ==> (SystemInBounds(rs[t], b) <==> SystemInBounds(sps[t], b));
    }
  }
}
