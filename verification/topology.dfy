/**
  The topologies a StarModelGroup tries.  For N observed stars the group
  enumerates every way to give each star a multiplicity (how many bound
  members it stands for) and every way to assign the stars to systems
  (tuple entry k is the system of star k), and pairs them up.  Enumeration
  follows a Cartesian product in lexicographic order, first position
  slowest, and keeps the tuples that pass a filter.
 */
module Topology {
  import opened Optional

  type Tuple = seq<int>

  /** lo, lo + 1, ..., hi - 1. */
  function Range(lo: int, hi: int): (r: seq<int>)
    ensures |r| == if hi > lo then hi - lo else 0
    ensures forall i :: 0 <= i < |r| ==> r[i] == lo + i
    decreases hi - lo
  {
    if hi <= lo then [] else [lo] + Range(lo + 1, hi)
  }

  predicate StrictlyIncreasing(a: seq<int>)
  {
    forall i, j :: 0 <= i < j < |a| ==> a[i] < a[j]
  }

  lemma {:induction false} RangeIncreasing(lo: int, hi: int)
    ensures StrictlyIncreasing(Range(lo, hi))
  {
  }

  // ---------------------------------------------------------------------
  // Cartesian power in lexicographic order.
  // ---------------------------------------------------------------------

  function PrefixAll(x: int, ts: seq<Tuple>): (r: seq<Tuple>)
    ensures |r| == |ts|
    ensures forall i :: 0 <= i < |ts| ==> r[i] == [x] + ts[i]
  {
    seq(|ts|, i requires 0 <= i < |ts| => [x] + ts[i])
  }

  /** One block per letter of the alphabet, in alphabet order, each block the tails prefixed by that letter. */
  function Blocks(a: seq<int>, ts: seq<Tuple>): seq<Tuple>
  {
    if |a| == 0 then [] else PrefixAll(a[0], ts) + Blocks(a[1..], ts)
  }

  /** The k-fold product of the alphabet, in the order the product iterator yields it. */
  function Tuples(a: seq<int>, k: nat): seq<Tuple>
  {
    if k == 0 then [[]] else Blocks(a, Tuples(a, k - 1))
  }

  /** Entries drawn from the alphabet. */
  predicate Over(t: Tuple, a: seq<int>)
  {
    forall i :: 0 <= i < |t| ==> t[i] in a
  }

  lemma {:induction false} BlocksMember(a: seq<int>, ts: seq<Tuple>, t: Tuple)
    ensures t in Blocks(a, ts) <==> |t| > 0 && t[0] in a && t[1..] in ts
    decreases |a|
  {
    if |a| > 0 {
      BlocksMember(a[1..], ts, t);
      var pre := PrefixAll(a[0], ts);
      assert Blocks(a, ts) == pre + Blocks(a[1..], ts);
      if t in pre {
        var i :| 0 <= i < |ts| && pre[i] == t;
        assert t[1..] == ts[i];
      }
      if |t| > 0 && t[0] == a[0] && t[1..] in ts {
        var i :| 0 <= i < |ts| && ts[i] == t[1..];
        assert pre[i] == t;
      }
      if |t| > 0 {
        assert t[0] in a <==> t[0] == a[0] || t[0] in a[1..] by {
          assert a == [a[0]] + a[1..];
        }
      }
    }
  }

  /** A tuple is produced exactly when it has length k and every entry is a letter. */
  lemma {:induction false} TuplesMember(a: seq<int>, k: nat, t: Tuple)
    ensures t in Tuples(a, k) <==> |t| == k && Over(t, a)
    decreases k
  {
    if k == 0 {
      assert t in [[]] <==> t == [];
    } else {
      BlocksMember(a, Tuples(a, k - 1), t);
      if |t| > 0 {
        TuplesMember(a, k - 1, t[1..]);
        assert Over(t, a) <==> t[0] in a && Over(t[1..], a) by {
          if t[0] in a && Over(t[1..], a) {
            forall i | 0 <= i < |t| ensures t[i] in a {
              if i > 0 { assert t[i] == t[1..][i - 1]; }
            }
          }
        }
      }
    }
  }

  function Pow(b: nat, e: nat): nat
  {
    if e == 0 then 1 else b * Pow(b, e - 1)
  }

  lemma {:induction false} BlocksLength(a: seq<int>, ts: seq<Tuple>)
    ensures |Blocks(a, ts)| == |a| * |ts|
    decreases |a|
  {
    if |a| > 0 {
      BlocksLength(a[1..], ts);
      assert |a| * |ts| == |ts| + (|a| - 1) * |ts|;
    }
  }

  /** The product of k copies of an alphabet of m letters has m^k tuples. */
  lemma {:induction false} TuplesLength(a: seq<int>, k: nat)
    ensures |Tuples(a, k)| == Pow(|a|, k)
    decreases k
  {
    if k > 0 {
      TuplesLength(a, k - 1);
      BlocksLength(a, Tuples(a, k - 1));
    }
  }

  // ---------------------------------------------------------------------
  // Lexicographic order.
  // ---------------------------------------------------------------------

  predicate LexLess(x: Tuple, y: Tuple)
    decreases |x|
  {
    |x| > 0 && |y| > 0 && (x[0] < y[0] || (x[0] == y[0] && LexLess(x[1..], y[1..])))
  }

  lemma {:induction false} LexAsymmetric(x: Tuple, y: Tuple)
    ensures !(LexLess(x, y) && LexLess(y, x))
    decreases |x|
  {
    if |x| > 0 && |y| > 0 && x[0] == y[0] {
      LexAsymmetric(x[1..], y[1..]);
    }
  }

  lemma {:induction false} LexIrreflexive(x: Tuple)
    ensures !LexLess(x, x)
  {
    LexAsymmetric(x, x);
  }

  /** Each tuple comes strictly before every later one, so none is repeated. */
  predicate Sorted(ts: seq<Tuple>)
  {
    forall i, j :: 0 <= i < j < |ts| ==> LexLess(ts[i], ts[j])
  }

  lemma {:induction false} SortedDistinct(ts: seq<Tuple>, i: nat, j: nat)
    requires Sorted(ts) && i < j < |ts|
    ensures ts[i] != ts[j]
  {
    LexIrreflexive(ts[i]);
  }

  lemma {:induction false} SortedConcat(xs: seq<Tuple>, ys: seq<Tuple>)
    requires Sorted(xs) && Sorted(ys)
    requires forall x, y :: x in xs && y in ys ==> LexLess(x, y)
    ensures Sorted(xs + ys)
  {
    var zs := xs + ys;
    forall i, j | 0 <= i < j < |zs|
      ensures LexLess(zs[i], zs[j])
    {
      if j < |xs| {
        assert zs[i] == xs[i] && zs[j] == xs[j];
      } else if i >= |xs| {
        assert zs[i] == ys[i - |xs|] && zs[j] == ys[j - |xs|];
      } else {
        assert zs[i] in xs && zs[j] in ys;
      }
    }
  }

  lemma {:induction false} PrefixAllSorted(x: int, ts: seq<Tuple>)
    requires Sorted(ts)
    ensures Sorted(PrefixAll(x, ts))
  {
    var r := PrefixAll(x, ts);
    forall i, j | 0 <= i < j < |r|
      ensures LexLess(r[i], r[j])
    {
      assert r[i][1..] == ts[i] && r[j][1..] == ts[j];
    }
  }

  lemma {:induction false} BlocksSorted(a: seq<int>, ts: seq<Tuple>)
    requires StrictlyIncreasing(a) && Sorted(ts)
    ensures Sorted(Blocks(a, ts))
    decreases |a|
  {
    if |a| > 0 {
      BlocksSorted(a[1..], ts);
      PrefixAllSorted(a[0], ts);
      var pre := PrefixAll(a[0], ts);
      var rest := Blocks(a[1..], ts);
      forall x, y | x in pre && y in rest
        ensures LexLess(x, y)
      {
        BlocksMember(a[1..], ts, y);
        var j :| 0 <= j < |a[1..]| && a[1..][j] == y[0];
        assert a[0] < a[j + 1];
      }
      SortedConcat(pre, rest);
    }
  }

  /** Over an increasing alphabet the product comes out in strict lexicographic order. */
  lemma {:induction false} TuplesSorted(a: seq<int>, k: nat)
    requires StrictlyIncreasing(a)
    ensures Sorted(Tuples(a, k))
    decreases k
  {
    if k > 0 {
      TuplesSorted(a, k - 1);
      BlocksSorted(a, Tuples(a, k - 1));
    }
  }

  lemma {:induction false} LexTransitive(x: Tuple, y: Tuple, z: Tuple)
    requires LexLess(x, y) && LexLess(y, z)
    ensures LexLess(x, z)
    decreases |x|
  {
    if x[0] == y[0] && y[0] == z[0] {
      LexTransitive(x[1..], y[1..], z[1..]);
    }
  }

  /** A list each of whose tuples precedes the next is sorted. */
  lemma {:induction false} ChainSorted(ts: seq<Tuple>)
    requires forall i :: 0 < i < |ts| ==> LexLess(ts[i - 1], ts[i])
    ensures Sorted(ts)
    decreases |ts|
  {
    if |ts| > 1 {
      ChainSorted(ts[1..]);
      forall j | 1 <= j < |ts|
        ensures LexLess(ts[0], ts[j])
      {
        var k := 1;
        while k < j
          invariant 1 <= k <= j && LexLess(ts[0], ts[k])
        {
          LexTransitive(ts[0], ts[k], ts[k + 1]);
          k := k + 1;
        }
      }
      forall i, j | 0 <= i < j < |ts|
        ensures LexLess(ts[i], ts[j])
      {
        if i > 0 { assert ts[i] == ts[1..][i - 1] && ts[j] == ts[1..][j - 1]; }
      }
    }
  }

  lemma {:induction false} FirstIsMember(ts: seq<Tuple>)
    ensures |ts| > 0 ==> ts[0] in ts
  {
  }

  /** Two sorted lists with the same members are the same list. */
  lemma {:induction false} SortedUnique(xs: seq<Tuple>, ys: seq<Tuple>)
    requires Sorted(xs) && Sorted(ys)
    requires forall t :: t in xs <==> t in ys
    ensures xs == ys
    decreases |xs|
  {
    if |xs| == 0 {
      if |ys| > 0 {
        FirstIsMember(ys);
        assert false;
      }
    } else {
      assert xs[0] in ys;
      assert |ys| > 0;
      if xs[0] != ys[0] {
        var i :| 0 <= i < |ys| && ys[i] == xs[0];
        assert ys[0] in ys;
        var j :| 0 <= j < |xs| && xs[j] == ys[0];
        assert LexLess(ys[0], xs[0]);
        assert LexLess(xs[0], ys[0]);
        LexAsymmetric(xs[0], ys[0]);
      }
      forall t
        ensures t in xs[1..] <==> t in ys[1..]
      {
        if t in xs[1..] {
          var i :| 1 <= i < |xs| && xs[i] == t;
          SortedDistinct(xs, 0, i);
          assert t in ys;
        }
        if t in ys[1..] {
          var i :| 1 <= i < |ys| && ys[i] == t;
          SortedDistinct(ys, 0, i);
          assert t in xs;
        }
      }
      SortedUnique(xs[1..], ys[1..]);
    }
  }

  // ---------------------------------------------------------------------
  // Keeping the tuples that pass a test, in order.
  // ---------------------------------------------------------------------

  function Filter(keep: Tuple -> bool, ts: seq<Tuple>): (r: seq<Tuple>)
    ensures |r| <= |ts|
    ensures forall t :: t in r <==> t in ts && keep(t)
  {
    if |ts| == 0 then []
    else
      var rest := Filter(keep, ts[1..]);
      assert forall t :: t in ts <==> t == ts[0] || t in ts[1..] by {
        assert ts == [ts[0]] + ts[1..];
      }
      if keep(ts[0]) then [ts[0]] + rest else rest
  }

  /** Filtering a sorted list leaves it sorted. */
  lemma {:induction false} FilterSorted(keep: Tuple -> bool, ts: seq<Tuple>)
    requires Sorted(ts)
    ensures Sorted(Filter(keep, ts))
    decreases |ts|
  {
    if |ts| > 0 {
      FilterSorted(keep, ts[1..]);
      var rest := Filter(keep, ts[1..]);
      if keep(ts[0]) {
        forall x, y | x in [ts[0]] && y in rest
          ensures LexLess(x, y)
        {
          var j :| 1 <= j < |ts| && ts[j] == y;
        }
        SortedConcat([ts[0]], rest);
      }
    }
  }

  /** A test every tuple passes keeps the whole list. */
  lemma {:induction false} FilterAll(keep: Tuple -> bool, ts: seq<Tuple>)
    requires forall t :: t in ts ==> keep(t)
    ensures Filter(keep, ts) == ts
    decreases |ts|
  {
    if |ts| > 0 {
      FilterAll(keep, ts[1..]);
      assert ts == [ts[0]] + ts[1..];
    }
  }

  // ---------------------------------------------------------------------
  // Multiplicity options.
  // ---------------------------------------------------------------------

  /** How many entries exceed 1: the stars that stand for more than one member. */
  function CountMultiples(t: Tuple): nat
  {
    if |t| == 0 then 0 else (if t[0] > 1 then 1 else 0) + CountMultiples(t[1..])
  }

  lemma {:induction false} CountMultiplesBound(t: Tuple)
    ensures CountMultiples(t) <= |t|
    decreases |t|
  {
    if |t| > 0 { CountMultiplesBound(t[1..]); }
  }

  /**
    `N_options(N_stars, max_multiples, max_stars)`: every multiplicity tuple
    over 1 .. max_stars of length N_stars with at most max_multiples entries
    above 1, in product order.
   */
  function NOptions(nStars: nat, maxMultiples: int, maxStars: int): seq<Tuple>
  {
    Filter(t => CountMultiples(t) <= maxMultiples, Tuples(Range(1, maxStars + 1), nStars))
  }

  /** Exactly the tuples of the right length, entries in 1 .. maxStars, with few enough multiples. */
  lemma {:induction false} NOptionsMember(nStars: nat, maxMultiples: int, maxStars: int, t: Tuple)
    ensures t in NOptions(nStars, maxMultiples, maxStars) <==>
            |t| == nStars && (forall i :: 0 <= i < |t| ==> 1 <= t[i] <= maxStars) &&
            CountMultiples(t) <= maxMultiples
  {
    var a := Range(1, maxStars + 1);
    TuplesMember(a, nStars, t);
    assert Over(t, a) <==> forall i :: 0 <= i < |t| ==> 1 <= t[i] <= maxStars by {
      if forall i :: 0 <= i < |t| ==> 1 <= t[i] <= maxStars {
        forall i | 0 <= i < |t| ensures t[i] in a {
          assert a[t[i] - 1] == t[i];
        }
      }
    }
  }

  /** The options come out in strict lexicographic order, without repeats. */
  lemma {:induction false} NOptionsSorted(nStars: nat, maxMultiples: int, maxStars: int)
    ensures Sorted(NOptions(nStars, maxMultiples, maxStars))
  {
    var a := Range(1, maxStars + 1);
    RangeIncreasing(1, maxStars + 1);
    TuplesSorted(a, nStars);
    FilterSorted(t => CountMultiples(t) <= maxMultiples, Tuples(a, nStars));
  }

  /** When every star may be a multiple, all max_stars^N_stars tuples are options. */
  lemma {:induction false} NOptionsUnrestricted(nStars: nat, maxMultiples: int, maxStars: nat)
    requires maxMultiples >= nStars
    ensures NOptions(nStars, maxMultiples, maxStars) == Tuples(Range(1, maxStars + 1), nStars)
    ensures |NOptions(nStars, maxMultiples, maxStars)| == Pow(maxStars, nStars)
  {
    var a := Range(1, maxStars + 1);
    forall t | t in Tuples(a, nStars)
      ensures CountMultiples(t) <= maxMultiples
    {
      TuplesMember(a, nStars, t);
      CountMultiplesBound(t);
    }
    FilterAll(t => CountMultiples(t) <= maxMultiples, Tuples(a, nStars));
    TuplesLength(a, nStars);
  }

  /** Two stars, at most one multiple, at most two members each: (1,1), (1,2), (2,1). */
  lemma {:induction false} NOptionsTwoStars()
    ensures NOptions(2, 1, 2) == [[1, 1], [1, 2], [2, 1]]
  {
    var want: seq<Tuple> := [[1, 1], [1, 2], [2, 1]];
    var got := NOptions(2, 1, 2);
    forall t
      ensures t in got <==> t in want
    {
      NOptionsMember(2, 1, 2, t);
      FewMultiplesTwo(t);
    }
    NOptionsSorted(2, 1, 2);
    TwoStarsSorted();
    SortedUnique(got, want);
  }

  /** The pairs over 1 .. 2 with at most one entry above 1, listed by hand. */
  lemma {:induction false} FewMultiplesTwo(t: Tuple)
    ensures (|t| == 2 && (forall i :: 0 <= i < |t| ==> 1 <= t[i] <= 2) && CountMultiples(t) <= 1) <==>
            t in [[1, 1], [1, 2], [2, 1]]
  {
    if |t| == 2 {
      assert t == [t[0], t[1]];
      assert t[1..][1..] == [];
      assert CountMultiples(t[1..]) == (if t[1] > 1 then 1 else 0) + CountMultiples(t[1..][1..]);
      assert CountMultiples(t) == (if t[0] > 1 then 1 else 0) + (if t[1] > 1 then 1 else 0);
    }
  }

  lemma {:induction false} TwoStarsSorted()
    ensures Sorted([[1, 1], [1, 2], [2, 1]])
  {
    var want: seq<Tuple> := [[1, 1], [1, 2], [2, 1]];
    assert LexLess(want[0], want[1]) by { assert want[0][1..] == [1] && want[1][1..] == [2]; }
    assert LexLess(want[0], want[2]) && LexLess(want[1], want[2]);
  }

  // ---------------------------------------------------------------------
  // System-assignment options.
  // ---------------------------------------------------------------------

  /**
    The assignment rule: star 0 opens system 0 and each later star joins a
    system already opened or opens the next one, so an entry never exceeds
    its predecessor by more than one.
   */
  predicate Canonical(t: Tuple)
  {
    |t| > 0 && t[0] == 0 && forall i :: 0 < i < |t| ==> Rise(t, i) <= 1
  }

  /** How far entry i climbs above entry i - 1. */
  function Rise(t: Tuple, i: nat): int
    requires 0 < i < |t|
  {
    t[i] - t[i - 1]
  }

  /**
    `index_options(N_stars)`: the canonical tuples over 0 .. N_stars - 1 of
    length N_stars, in product order.  One star gives the single option
    (0); no stars fails, since the rule reads the first entry of the empty
    tuple.
   */
  function IndexOptions(nStars: nat): Option<seq<Tuple>>
  {
    if nStars == 0 then None
    else if nStars == 1 then Some([[0]])
    else Some(Filter(Canonical, Tuples(Range(0, nStars), nStars)))
  }

  /** Exactly the canonical tuples of length N_stars with entries in 0 .. N_stars - 1. */
  lemma {:induction false} IndexOptionsMember(nStars: nat, t: Tuple)
    requires nStars > 0
    ensures t in IndexOptions(nStars).value <==>
            |t| == nStars && (forall i :: 0 <= i < |t| ==> 0 <= t[i] < nStars) && Canonical(t)
  {
    if nStars == 1 {
      if |t| == 1 && Canonical(t) {
        assert t == [0];
      }
    } else {
      var a := Range(0, nStars);
      TuplesMember(a, nStars, t);
      assert Over(t, a) <==> forall i :: 0 <= i < |t| ==> 0 <= t[i] < nStars by {
        if forall i :: 0 <= i < |t| ==> 0 <= t[i] < nStars {
          forall i | 0 <= i < |t| ensures t[i] in a {
            assert a[t[i]] == t[i];
          }
        }
      }
    }
  }

  /** Under the rule, entry k is at most k: star k can open at most the (k+1)-th system. */
  lemma {:induction false} CanonicalBound(t: Tuple, k: nat)
    requires Canonical(t) && k < |t|
    ensures t[k] <= k
    decreases k
  {
    if k > 0 {
      CanonicalBound(t, k - 1);
      assert Rise(t, k) <= 1;
    }
  }

  /** The options come out in strict lexicographic order, without repeats. */
  lemma {:induction false} IndexOptionsSorted(nStars: nat)
    requires nStars > 0
    ensures Sorted(IndexOptions(nStars).value)
  {
    if nStars > 1 {
      var a := Range(0, nStars);
      RangeIncreasing(0, nStars);
      TuplesSorted(a, nStars);
      FilterSorted(Canonical, Tuples(a, nStars));
    }
  }

  /** For four stars (0,1,2,0) is an option and (0,1,0,2) is not. */
  lemma {:induction false} IndexOptionsFourStars()
    ensures [0, 1, 2, 0] in IndexOptions(4).value
    ensures [0, 1, 0, 2] !in IndexOptions(4).value
  {
    var nStars := 4;
    var keep: Tuple := [0, 1, 2, 0];
    var drop: Tuple := [0, 1, 0, 2];
    assert Canonical(keep) by {
      forall i | 0 < i < |keep| ensures Rise(keep, i) <= 1 {
        assert i == 1 || i == 2 || i == 3;
      }
    }
    forall i | 0 <= i < |keep| ensures 0 <= keep[i] < nStars {
      assert i == 0 || i == 1 || i == 2 || i == 3;
    }
    assert !Canonical(drop) by {
      assert Rise(drop, 3) == 2;
    }
    IndexOptionsMember(nStars, keep);
    IndexOptionsMember(nStars, drop);
  }

  /** The canonical tuples of length three over 0 .. 2, listed by hand. */
  lemma {:induction false} CanonicalThree(t: Tuple)
    ensures (|t| == 3 && (forall i :: 0 <= i < |t| ==> 0 <= t[i] < 3) && Canonical(t)) <==>
            t in [[0, 0, 0], [0, 0, 1], [0, 1, 0], [0, 1, 1], [0, 1, 2]]
  {
    if |t| == 3 && Canonical(t) {
      assert t == [t[0], t[1], t[2]];
      assert Rise(t, 1) <= 1 && Rise(t, 2) <= 1;
    }
  }

  /** Three stars give five assignments. */
  lemma {:induction false} IndexOptionsThreeStars()
    ensures IndexOptions(3) == Some([[0, 0, 0], [0, 0, 1], [0, 1, 0], [0, 1, 1], [0, 1, 2]])
  {
    var want: seq<Tuple> := [[0, 0, 0], [0, 0, 1], [0, 1, 0], [0, 1, 1], [0, 1, 2]];
    var got := IndexOptions(3).value;
    forall t
      ensures t in got <==> t in want
    {
      IndexOptionsMember(3, t);
      CanonicalThree(t);
    }
    IndexOptionsSorted(3);
    ThreeStarsSorted();
    SortedUnique(got, want);
  }

  lemma {:induction false} ThreeStarsSorted()
    ensures Sorted([[0, 0, 0], [0, 0, 1], [0, 1, 0], [0, 1, 1], [0, 1, 2]])
  {
    var want: seq<Tuple> := [[0, 0, 0], [0, 0, 1], [0, 1, 0], [0, 1, 1], [0, 1, 2]];
    assert LexLess(want[0], want[1]) by {
      assert want[0][1..][1..] == [0] && want[1][1..][1..] == [1];
    }
    assert LexLess(want[1], want[2]) by {
      assert want[1][1..] == [0, 1] && want[2][1..] == [1, 0];
    }
    assert LexLess(want[2], want[3]) by {
      assert want[2][1..][1..] == [0] && want[3][1..][1..] == [1];
    }
    assert LexLess(want[3], want[4]) by {
      assert want[3][1..][1..] == [1] && want[4][1..][1..] == [2];
    }
    ChainSorted(want);
  }

  // ---------------------------------------------------------------------
  // Model options: every multiplicity option with every assignment.
  // ---------------------------------------------------------------------

  /** All pairs, multiplicity-major: the assignments vary fastest. */
  function Pairs(ns: seq<Tuple>, ids: seq<Tuple>): seq<(Tuple, Tuple)>
  {
    if |ns| == 0 then []
    else seq(|ids|, j requires 0 <= j < |ids| => (ns[0], ids[j])) + Pairs(ns[1..], ids)
  }

  lemma {:induction false} PairsAt(ns: seq<Tuple>, ids: seq<Tuple>, a: nat, b: nat)
    requires a < |ns| && b < |ids|
    ensures |Pairs(ns, ids)| == |ns| * |ids|
    ensures a * |ids| + b < |Pairs(ns, ids)| && Pairs(ns, ids)[a * |ids| + b] == (ns[a], ids[b])
    decreases a
  {
    PairsLength(ns, ids);
    if a > 0 {
      PairsAt(ns[1..], ids, a - 1, b);
      assert a * |ids| + b == |ids| + ((a - 1) * |ids| + b);
    }
  }

  lemma {:induction false} PairsLength(ns: seq<Tuple>, ids: seq<Tuple>)
    ensures |Pairs(ns, ids)| == |ns| * |ids|
    decreases |ns|
  {
    if |ns| > 0 {
      PairsLength(ns[1..], ids);
      assert |ns| * |ids| == |ids| + (|ns| - 1) * |ids|;
    }
  }

  lemma {:induction false} PairsMember(ns: seq<Tuple>, ids: seq<Tuple>, n: Tuple, i: Tuple)
    ensures (n, i) in Pairs(ns, ids) <==> n in ns && i in ids
    decreases |ns|
  {
    if |ns| > 0 {
      PairsMember(ns[1..], ids, n, i);
      var row := seq(|ids|, j requires 0 <= j < |ids| => (ns[0], ids[j]));
      assert Pairs(ns, ids) == row + Pairs(ns[1..], ids);
      if i in ids && n == ns[0] {
        var j :| 0 <= j < |ids| && ids[j] == i;
        assert row[j] == (n, i);
      }
      assert n in ns <==> n == ns[0] || n in ns[1..] by {
        assert ns == [ns[0]] + ns[1..];
      }
    }
  }

  /**
    `model_options`: each multiplicity option with each assignment option.
    The assignments are asked for once per multiplicity option, so with no
    multiplicity option nothing fails; otherwise a failure to enumerate the
    assignments is the failure of the whole.
   */
  function ModelOptions(nStars: nat, maxMultiples: int, maxStars: int): Option<seq<(Tuple, Tuple)>>
  {
    var ns := NOptions(nStars, maxMultiples, maxStars);
    if |ns| == 0 then Some([])
    else match IndexOptions(nStars)
      case None => None
      case Some(ids) => Some(Pairs(ns, ids))
  }

  /** The pair enumeration fails only for zero stars with a non-negative multiples allowance. */
  lemma {:induction false} ModelOptionsFails(nStars: nat, maxMultiples: int, maxStars: int)
    ensures ModelOptions(nStars, maxMultiples, maxStars).None? <==> nStars == 0 && maxMultiples >= 0
  {
    if nStars == 0 {
      NOptionsMember(0, maxMultiples, maxStars, []);
    }
  }

  /** When it succeeds, the group has one model per (multiplicity, assignment) pair and nothing else. */
  lemma {:induction false} ModelOptionsMember(nStars: nat, maxMultiples: int, maxStars: int, n: Tuple, i: Tuple)
    requires nStars > 0
    ensures ModelOptions(nStars, maxMultiples, maxStars).Some?
    ensures (n, i) in ModelOptions(nStars, maxMultiples, maxStars).value <==>
            n in NOptions(nStars, maxMultiples, maxStars) && i in IndexOptions(nStars).value
  {
    PairsMember(NOptions(nStars, maxMultiples, maxStars), IndexOptions(nStars).value, n, i);
  }

  /** One model per multiplicity option and assignment option. */
  lemma {:induction false} ModelOptionsLength(nStars: nat, maxMultiples: int, maxStars: int)
    requires nStars > 0
    ensures ModelOptions(nStars, maxMultiples, maxStars).Some?
    ensures |ModelOptions(nStars, maxMultiples, maxStars).value| ==
            |NOptions(nStars, maxMultiples, maxStars)| * |IndexOptions(nStars).value|
  {
    ModelOptionsPairs(nStars, maxMultiples, maxStars);
    PairsLength(NOptions(nStars, maxMultiples, maxStars), IndexOptions(nStars).value);
  }

  /** The pairs are listed multiplicity-major: the assignment varies fastest (for any nStars > 0). */
  lemma {:induction false} ModelOptionsOrder(nStars: nat, maxMultiples: int, maxStars: int, a: nat, b: nat)
    requires IndexOptions(nStars).Some?
    requires a < |NOptions(nStars, maxMultiples, maxStars)| && b < |IndexOptions(nStars).value|
    ensures ModelOptions(nStars, maxMultiples, maxStars).Some?
    ensures a * |IndexOptions(nStars).value| + b < |ModelOptions(nStars, maxMultiples, maxStars).value|
    ensures ModelOptions(nStars, maxMultiples, maxStars).value[a * |IndexOptions(nStars).value| + b] ==
            (NOptions(nStars, maxMultiples, maxStars)[a], IndexOptions(nStars).value[b])
  {
    var ns := NOptions(nStars, maxMultiples, maxStars);
    var ids := IndexOptions(nStars).value;
    ModelOptionsPairs(nStars, maxMultiples, maxStars);
    PairsAt(ns, ids, a, b);
  }

  lemma {:induction false} ModelOptionsPairs(nStars: nat, maxMultiples: int, maxStars: int)
    requires nStars > 0
    ensures ModelOptions(nStars, maxMultiples, maxStars) ==
            Some(Pairs(NOptions(nStars, maxMultiples, maxStars), IndexOptions(nStars).value))
  {
  }
}
