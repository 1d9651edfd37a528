/**
  The flat parameter vector of a StarModel.  The vector is split into one
  segment per system, in system order; a system with n member stars owns
  the segment [mass_0, ..., mass_{n-1}, age, feh, distance, AV] of length
  n + 4.  The per-system member counts are a sequence of naturals.
 */
module Layout {

  /** The parameters that carry bounds and a prior density. */
  datatype Param = Mass | Feh | Age | Q | Distance | AV

  /** The four parameters a system shares among its members, in vector order. */
  function SharedParam(k: nat): Param
    requires k < 4
  {
    if k == 0 then Age else if k == 1 then Feh else if k == 2 then Distance else AV
  }

  /** Every system has at least one member star. */
  predicate ValidCounts(counts: seq<nat>)
  {
    forall s :: 0 <= s < |counts| ==> counts[s] >= 1
  }

  /** Length of the vector for the given systems: each contributes n + 4. */
  function NParams(counts: seq<nat>): nat
  {
    if |counts| == 0 then 0 else counts[0] + 4 + NParams(counts[1..])
  }

  /** Number of member stars over all systems. */
  function TotalStars(counts: seq<nat>): nat
  {
    if |counts| == 0 then 0 else counts[0] + TotalStars(counts[1..])
  }

  /** First slot of system s: the lengths of the earlier segments added up. */
  function Offset(counts: seq<nat>, s: nat): nat
    requires s <= |counts|
  {
    NParams(counts[..s])
  }

  lemma {:induction false} NParamsAppend(a: seq<nat>, b: seq<nat>)
    ensures NParams(a + b) == NParams(a) + NParams(b)
    decreases |a|
  {
    if |a| == 0 {
      assert a + b == b;
    } else {
      assert (a + b)[1..] == a[1..] + b;
      NParamsAppend(a[1..], b);
    }
  }

  /** The segment of system s starts right after the segment of system s - 1. */
  lemma {:induction false} OffsetStep(counts: seq<nat>, s: nat)
    requires s < |counts|
    ensures Offset(counts, s + 1) == Offset(counts, s) + counts[s] + 4
  {
    assert counts[..s + 1] == counts[..s] + [counts[s]];
    NParamsAppend(counts[..s], [counts[s]]);
    assert [counts[s]][1..] == [];
  }

  /** The segments tile the whole vector: the last one ends at NParams. */
  lemma {:induction false} OffsetEnd(counts: seq<nat>)
    ensures Offset(counts, |counts|) == NParams(counts)
  {
    assert counts[..|counts|] == counts;
  }

  /** Offsets within a prefix of the systems are the offsets of the whole. */
  lemma {:induction false} OffsetPrefix(counts: seq<nat>, m: nat, s: nat)
    requires s <= m <= |counts|
    ensures Offset(counts[..m], s) == Offset(counts, s)
  {
    assert counts[..m][..s] == counts[..s];
  }

  /** Every segment fits inside the vector. */
  lemma {:induction false} SegmentInside(counts: seq<nat>, s: nat)
    requires s < |counts|
    ensures Offset(counts, s) + counts[s] + 4 <= NParams(counts)
  {
    OffsetStep(counts, s);
    assert counts == counts[..s + 1] + counts[s + 1..];
    NParamsAppend(counts[..s + 1], counts[s + 1..]);
  }

  /** Offsets grow with the system index. */
  lemma {:induction false} OffsetMonotone(counts: seq<nat>, s: nat, t: nat)
    requires s <= t <= |counts|
    ensures Offset(counts, s) <= Offset(counts, t)
    decreases t - s
  {
    if s < t {
      OffsetStep(counts, t - 1);
      OffsetMonotone(counts, s, t - 1);
    }
  }

  /** Offsets of the systems after the first, relative to the second segment. */
  lemma {:induction false} OffsetTail(counts: seq<nat>, s: nat)
    requires 0 < |counts| && s < |counts|
    ensures Offset(counts, s + 1) == counts[0] + 4 + Offset(counts[1..], s)
  {
    assert counts[..s + 1][1..] == counts[1..][..s];
  }

  /** The number of parameters is the number of stars plus four per system. */
  lemma {:induction false} NParamsClosedForm(counts: seq<nat>)
    ensures NParams(counts) == TotalStars(counts) + 4 * |counts|
    decreases |counts|
  {
    if |counts| > 0 {
      NParamsClosedForm(counts[1..]);
    }
  }

  /**
    `n_params`: walks the systems in order adding 4 + n for each.
   */
  method CountParams(counts: seq<nat>) returns (tot: nat)
    ensures tot == TotalStars(counts) + 4 * |counts|
    ensures tot == NParams(counts)
  {
    tot := 0;
    var s := 0;
    while s < |counts|
      invariant s <= |counts|
      invariant tot == Offset(counts, s)
    {
      OffsetStep(counts, s);
      tot := tot + 4 + counts[s];
      s := s + 1;
    }
    OffsetEnd(counts);
    NParamsClosedForm(counts);
  }

  // ---------------------------------------------------------------------
  // Decoding a vector into per-system parameters, and encoding it back.
  // ---------------------------------------------------------------------

  datatype SystemParams = SystemParams(masses: seq<real>, age: real, feh: real, distance: real, av: real)

  /** The parameters of the system whose segment starts at slot i. */
  function SystemAt(p: seq<real>, i: nat, n: nat): (sp: SystemParams)
    requires i + n + 4 <= |p|
    ensures |sp.masses| == n
  {
    SystemParams(p[i..i + n], p[i + n], p[i + n + 1], p[i + n + 2], p[i + n + 3])
  }

  /** The value of shared parameter k (age, feh, distance, AV) of a system. */
  function Shared(sp: SystemParams, k: nat): real
    requires k < 4
  {
    if k == 0 then sp.age else if k == 1 then sp.feh else if k == 2 then sp.distance else sp.av
  }

  function Segment(sp: SystemParams): seq<real>
  {
    sp.masses + [sp.age, sp.feh, sp.distance, sp.av]
  }

  function CountsOf(sps: seq<SystemParams>): (counts: seq<nat>)
    ensures |counts| == |sps|
    ensures forall s {:trigger counts[s]} :: 0 <= s < |sps| ==> counts[s] == |sps[s].masses|
  {
    seq(|sps|, s requires 0 <= s < |sps| => |sps[s].masses|)
  }

  /** The vector holding the given systems' parameters, segment after segment. */
  function Encode(sps: seq<SystemParams>): (p: seq<real>)
    ensures |p| == NParams(CountsOf(sps))
  {
    if |sps| == 0 then []
    else
      assert CountsOf(sps)[1..] == CountsOf(sps[1..]);
      Segment(sps[0]) + Encode(sps[1..])
  }

  /**
    Splits a vector into per-system parameters: system s is read from the
    segment starting at Offset(s).  Slots past NParams(counts) are ignored.
   */
  function Decode(counts: seq<nat>, p: seq<real>): (sps: seq<SystemParams>)
    requires |p| >= NParams(counts)
    ensures |sps| == |counts|
    ensures forall s {:trigger sps[s]} :: 0 <= s < |counts| ==> |sps[s].masses| == counts[s]
  {
    seq(|counts|, s requires 0 <= s < |counts| =>
      SegmentInside(counts, s);
      SystemAt(p, Offset(counts, s), counts[s]))
  }

  /** System s is read at the absolute offset of its segment. */
  lemma {:induction false} DecodeAt(counts: seq<nat>, p: seq<real>, s: nat)
    requires |p| >= NParams(counts) && s < |counts|
    ensures Offset(counts, s) + counts[s] + 4 <= |p|
    ensures Decode(counts, p)[s] == SystemAt(p, Offset(counts, s), counts[s])
  {
    SegmentInside(counts, s);
  }

  /** Decoding consumes the first segment and decodes the rest of the vector after it. */
  lemma {:induction false} DecodeCons(counts: seq<nat>, p: seq<real>)
    requires |counts| > 0 && |p| >= NParams(counts)
    ensures counts[0] + 4 <= |p| && |p[counts[0] + 4..]| >= NParams(counts[1..])
    ensures Decode(counts, p) == [SystemAt(p, 0, counts[0])] + Decode(counts[1..], p[counts[0] + 4..])
  {
    var want := [SystemAt(p, 0, counts[0])] + Decode(counts[1..], p[counts[0] + 4..]);
    forall t | 0 <= t < |counts|
      ensures Decode(counts, p)[t] == want[t]
    {
      if t == 0 {
        DecodeFirst(counts, p);
      } else {
        DecodeLater(counts, p, t - 1);
      }
    }
  }

  lemma {:induction false} DecodeFirst(counts: seq<nat>, p: seq<real>)
    requires |counts| > 0 && |p| >= NParams(counts)
    ensures counts[0] + 4 <= |p|
    ensures Decode(counts, p)[0] == SystemAt(p, 0, counts[0])
  {
    DecodeAt(counts, p, 0);
    assert counts[..0] == [];
  }

  lemma {:induction false} DecodeLater(counts: seq<nat>, p: seq<real>, t: nat)
    requires |counts| > 0 && |p| >= NParams(counts) && t + 1 < |counts|
    ensures counts[0] + 4 <= |p| && |p[counts[0] + 4..]| >= NParams(counts[1..])
    ensures Decode(counts, p)[t + 1] == Decode(counts[1..], p[counts[0] + 4..])[t]
  {
    var d := counts[0] + 4;
    var q := p[d..];
    var m := counts[t + 1];
    var o := Offset(counts[1..], t);
    DecodeAt(counts, p, t + 1);
    DecodeAt(counts[1..], q, t);
    OffsetTail(counts, t);
    assert counts[1..][t] == m;
    SystemAtShift(p, d, o, m);
  }

  /** Reading a segment from a suffix of the vector is reading it further along the vector. */
  lemma {:induction false} SystemAtShift(p: seq<real>, d: nat, o: nat, m: nat)
    requires d + o + m + 4 <= |p|
    ensures SystemAt(p[d..], o, m) == SystemAt(p, d + o, m)
  {
    assert p[d..][o..o + m] == p[d + o..d + o + m];
  }

  lemma {:induction false} SegmentAt(sp: SystemParams)
    ensures SystemAt(Segment(sp), 0, |sp.masses|) == sp
  {
    var seg := Segment(sp);
    assert seg[..|sp.masses|] == sp.masses;
  }

  /** Decoding an encoded vector recovers every system's parameters. */
  lemma {:induction false} DecodeEncode(sps: seq<SystemParams>)
    ensures Decode(CountsOf(sps), Encode(sps)) == sps
    decreases |sps|
  {
    if |sps| > 0 {
      var counts := CountsOf(sps);
      var p := Encode(sps);
      EncodeHead(sps);
      DecodeCons(counts, p);
      DecodeEncode(sps[1..]);
      assert sps == [sps[0]] + sps[1..];
    }
  }

  /** The first segment of an encoded vector holds the first system; the rest encodes the others. */
  lemma {:induction false} EncodeHead(sps: seq<SystemParams>)
    requires |sps| > 0
    ensures CountsOf(sps)[0] == |sps[0].masses| && CountsOf(sps)[1..] == CountsOf(sps[1..])
    ensures |Encode(sps)| >= |sps[0].masses| + 4
    ensures SystemAt(Encode(sps), 0, |sps[0].masses|) == sps[0]
    ensures Encode(sps)[|sps[0].masses| + 4..] == Encode(sps[1..])
  {
    var n := |sps[0].masses|;
    var p := Encode(sps);
    assert CountsOf(sps)[1..] == CountsOf(sps[1..]);
    assert p == Segment(sps[0]) + Encode(sps[1..]);
    assert p[..n + 4] == Segment(sps[0]);
    SegmentAt(sps[0]);
    assert SystemAt(p, 0, n) == SystemAt(Segment(sps[0]), 0, n);
  }

  /** Decoding yields one system per count, each with that many masses. */
  lemma {:induction false} CountsOfDecode(counts: seq<nat>, p: seq<real>)
    requires |p| >= NParams(counts)
    ensures CountsOf(Decode(counts, p)) == counts
  {
  }

  /** Encoding the decoded systems gives back the used part of the vector. */
  lemma {:induction false} EncodeDecode(counts: seq<nat>, p: seq<real>)
    requires |p| >= NParams(counts)
    ensures Encode(Decode(counts, p)) == p[..NParams(counts)]
    decreases |counts|
  {
    if |counts| > 0 {
      var n := counts[0];
      var sps := Decode(counts, p);
      var q := p[n + 4..];
      var rest := Decode(counts[1..], q);
      EncodeDecode(counts[1..], q);
      DecodeCons(counts, p);
      assert sps[1..] == rest;
      SegmentOfSystemAt(p, 0, n);
      var m := NParams(counts[1..]);
      assert Encode(sps) == p[..n + 4] + q[..m];
      assert NParams(counts) == n + 4 + m;
      assert q[..m] == p[n + 4..n + 4 + m];
      calc {
        p[..n + 4] + q[..m];
        p[..n + 4] + p[n + 4..n + 4 + m];
        p[..n + 4 + m];
      }
    } else {
      assert Decode(counts, p) == [];
    }
  }

  lemma {:induction false} SegmentOfSystemAt(p: seq<real>, i: nat, n: nat)
    requires i + n + 4 <= |p|
    ensures Segment(SystemAt(p, i, n)) == p[i..i + n + 4]
  {
    assert p[i..i + n + 4] == p[i..i + n] + [p[i + n], p[i + n + 1], p[i + n + 2], p[i + n + 3]];
  }

  // ---------------------------------------------------------------------
  // What each slot of the vector holds.
  // ---------------------------------------------------------------------

  /** The parameter stored at slot k, read off the segment that contains k. */
  function SlotParam(counts: seq<nat>, k: nat): Param
    requires k < NParams(counts)
    decreases |counts|
  {
    if k < counts[0] then Mass
    else if k < counts[0] + 4 then SharedParam(k - counts[0])
    else SlotParam(counts[1..], k - counts[0] - 4)
  }

  /**
    Within system s, slots Offset(s) .. Offset(s) + n - 1 hold masses and
    slot Offset(s) + n + k holds the k-th of age, feh, distance, AV.
   */
  lemma {:induction false} SlotParamInSegment(counts: seq<nat>, s: nat, j: nat)
    requires s < |counts| && j < counts[s] + 4
    ensures Offset(counts, s) + j < NParams(counts)
    ensures SlotParam(counts, Offset(counts, s) + j) ==
            if j < counts[s] then Mass else SharedParam(j - counts[s])
    decreases s
  {
    SegmentInside(counts, s);
    if s == 0 {
      assert counts[..0] == [];
    } else {
      OffsetTail(counts, s - 1);
      SlotParamInSegment(counts[1..], s - 1, j);
    }
  }

  /** Shared parameter k of decoded system s is read from the slot that holds SharedParam(k). */
  lemma {:induction false} SharedSlot(counts: seq<nat>, p: seq<real>, s: nat, k: nat)
    requires |p| >= NParams(counts) && s < |counts| && k < 4
    ensures Offset(counts, s) + counts[s] + k < NParams(counts)
    ensures SlotParam(counts, Offset(counts, s) + counts[s] + k) == SharedParam(k)
    ensures Shared(Decode(counts, p)[s], k) == p[Offset(counts, s) + counts[s] + k]
  {
    SlotParamInSegment(counts, s, counts[s] + k);
    DecodeAt(counts, p, s);
    SharedOfSystemAt(p, Offset(counts, s), counts[s], k);
  }

  lemma {:induction false} SharedOfSystemAt(p: seq<real>, i: nat, n: nat, k: nat)
    requires i + n + 4 <= |p| && k < 4
    ensures Shared(SystemAt(p, i, n), k) == p[i + n + k]
  {
    var sp := SystemAt(p, i, n);
    if k == 0 {
      assert Shared(sp, 0) == sp.age;
    } else if k == 1 {
      assert Shared(sp, 1) == sp.feh;
    } else if k == 2 {
      assert Shared(sp, 2) == sp.distance;
    } else {
      assert Shared(sp, 3) == sp.av;
    }
  }

  /** The primary mass of decoded system s is read from the first slot of its segment. */
  lemma {:induction false} PrimarySlot(counts: seq<nat>, p: seq<real>, s: nat)
    requires |p| >= NParams(counts) && s < |counts| && counts[s] >= 1
    ensures Offset(counts, s) < NParams(counts)
    ensures SlotParam(counts, Offset(counts, s)) == Mass
    ensures Decode(counts, p)[s].masses[0] == p[Offset(counts, s)]
  {
    SlotParamInSegment(counts, s, 0);
    DecodeAt(counts, p, s);
  }
}
