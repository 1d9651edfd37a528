/**
  The bounds table of a StarModel: parameter name -> (min, max).  Names are
  strings because `set_bounds` accepts any keyword.  Entries for mass, feh
  and age start unresolved and are filled in from the model grid's valid
  range the first time they are asked for; q, distance and AV start with
  fixed defaults.
 */
module Bounds {
  import opened Optional
  import opened Layout

  datatype Interval = Interval(lo: real, hi: real) {
    /** The range checks of the log-prior are inclusive at both ends. */
    predicate Contains(x: real)
    {
      lo <= x <= hi
    }
  }

  /** The valid domain of the isochrone grid. */
  datatype Grid = Grid(minMass: real, maxMass: real, minFeh: real, maxFeh: real, minAge: real, maxAge: real)

  /** A stored (min, max) pair, or an entry still waiting for the grid. */
  datatype Entry = Unresolved | Stored(iv: Interval)

  type Table = map<string, Entry>

  function Name(prm: Param): string
  {
    match prm
    case Mass => "mass"
    case Feh => "feh"
    case Age => "age"
    case Q => "q"
    case Distance => "distance"
    case AV => "AV"
  }

  /** The grid's range for the three parameters the grid knows about. */
  function GridRange(g: Grid, name: string): Option<Interval>
  {
    if name == "mass" then Some(Interval(g.minMass, g.maxMass))
    else if name == "feh" then Some(Interval(g.minFeh, g.maxFeh))
    else if name == "age" then Some(Interval(g.minAge, g.maxAge))
    else None
  }

  /** A missing key fails on the table access itself; an unresolved entry the grid does not know is an unknown property. */
  datatype BoundsError = UnknownKey(name: string) | UnknownProperty(name: string)

  /** The pair found and the table after the lookup (which may have memoized it). */
  datatype Lookup = Found(iv: Interval, table: Table) | Failed(err: BoundsError)

  /** Two lookups give the same answer, whatever they did to the table. */
  predicate SameAnswer(a: Lookup, b: Lookup)
  {
    if a.Found? then b.Found? && a.iv == b.iv else b == a
  }

  /** `bounds(prop)`: a stored pair is returned as is; mass/feh/age are resolved from the grid and memoized. */
  function LookupBounds(t: Table, g: Grid, name: string): (r: Lookup)
    ensures name !in t <==> r == Failed(UnknownKey(name))
    ensures name in t && t[name].Stored? ==> r == Found(t[name].iv, t)
    ensures name in t && t[name].Unresolved? ==>
              (r.Found? <==> GridRange(g, name).Some?) &&
              (r.Found? ==> r.iv == GridRange(g, name).value)
    ensures r.Found? ==> r.table == t[name := Stored(r.iv)]
  {
    if name !in t then Failed(UnknownKey(name))
    else match t[name]
      case Stored(iv) => Found(iv, t)
      case Unresolved =>
        match GridRange(g, name)
        case Some(iv) => Found(iv, t[name := Stored(iv)])
        case None => Failed(UnknownProperty(name))
  }

  /**
    Memoization is invisible: asking again for the same name returns the
    same pair and leaves the table alone, and every other name gets the
    answer it would have got before.
   */
  lemma {:induction false} LookupMemoized(t: Table, g: Grid, name: string)
    requires LookupBounds(t, g, name).Found?
    ensures var r := LookupBounds(t, g, name);
            LookupBounds(r.table, g, name) == Found(r.iv, r.table)
    ensures var r := LookupBounds(t, g, name);
            forall other :: SameAnswer(LookupBounds(r.table, g, other), LookupBounds(t, g, other))
  {
    var r := LookupBounds(t, g, name);
    forall other
      ensures SameAnswer(LookupBounds(r.table, g, other), LookupBounds(t, g, other))
    {
      if other == name {
        assert LookupBounds(r.table, g, other) == Found(r.iv, r.table);
      } else {
        assert other in r.table <==> other in t;
        if other in t {
          assert r.table[other] == t[other];
        }
      }
    }
  }

  // ---------------------------------------------------------------------
  // set_bounds
  // ---------------------------------------------------------------------

  /** Keyword arguments: a name may appear only once. */
  predicate DistinctNames(updates: seq<(string, seq<real>)>)
  {
    forall i, j :: 0 <= i < j < |updates| ==> updates[i].0 != updates[j].0
  }

  function NamesOf(updates: seq<(string, seq<real>)>): set<string>
  {
    set i | 0 <= i < |updates| :: updates[i].0
  }

  /** `Rejected(at)`: the value of the at-th keyword was not a (min, max) pair. */
  datatype SetStatus = Done | Rejected(at: nat)

  datatype SetResult = SetResult(table: Table, status: SetStatus)

  function Applied(r: SetResult, updates: seq<(string, seq<real>)>): nat
  {
    if r.status.Rejected? && r.status.at <= |updates| then r.status.at else |updates|
  }

  function AsInterval(v: seq<real>): Interval
    requires |v| == 2
  {
    Interval(v[0], v[1])
  }

  /**
    `set_bounds(**kwargs)`: stores each value in the iteration order of the
    keyword arguments (a dictionary's order, given here as a list); the first
    value whose length is not 2 raises.  Which entries it changes is stated
    by SetBoundsEffect.
   */
  function SetBounds(t: Table, updates: seq<(string, seq<real>)>): (r: SetResult)
    ensures r.status.Done? <==> forall i :: 0 <= i < |updates| ==> |updates[i].1| == 2
    ensures r.status.Rejected? ==>
              && r.status.at < |updates|
              && |updates[r.status.at].1| != 2
              && forall i :: 0 <= i < r.status.at ==> |updates[i].1| == 2
    decreases |updates|
  {
    if |updates| == 0 then SetResult(t, Done)
    else if |updates[0].1| != 2 then SetResult(t, Rejected(0))
    else
      var r1 := SetBounds(t[updates[0].0 := Stored(AsInterval(updates[0].1))], updates[1..]);
      assert forall i :: 1 <= i < |updates| ==> updates[i] == updates[1..][i - 1];
      SetResult(r1.table, if r1.status.Rejected? then Rejected(r1.status.at + 1) else Done)
  }

  /**
    The keywords before the rejected one (all of them when none is rejected)
    are stored as given; every other entry of the table is left as it was,
    so a rejected call still keeps the earlier keywords.
   */
  lemma {:induction false} SetBoundsEffect(t: Table, updates: seq<(string, seq<real>)>)
    requires DistinctNames(updates)
    ensures forall i :: 0 <= i < Applied(SetBounds(t, updates), updates) ==>
              updates[i].0 in SetBounds(t, updates).table && |updates[i].1| == 2 &&
              SetBounds(t, updates).table[updates[i].0] == Stored(AsInterval(updates[i].1))
    ensures forall k :: k !in NamesOf(updates[..Applied(SetBounds(t, updates), updates)]) ==>
              (k in SetBounds(t, updates).table <==> k in t) &&
              (k in t ==> SetBounds(t, updates).table[k] == t[k])
    decreases |updates|
  {
    var r := SetBounds(t, updates);
    if |updates| == 0 {
      assert updates[..0] == [];
    } else if |updates[0].1| != 2 {
      assert updates[..0] == [];
    } else {
      var name := updates[0].0;
      var t1 := t[name := Stored(AsInterval(updates[0].1))];
      var rest := updates[1..];
      DistinctTail(updates);
      var r1 := SetBounds(t1, rest);
      SetBoundsEffect(t1, rest);
      assert r.table == r1.table;
      var a1 := Applied(r1, rest);
      assert Applied(r, updates) == a1 + 1;
      NamesOfCons(updates, a1);
      forall i | 0 <= i < a1 + 1
        ensures updates[i].0 in r.table && |updates[i].1| == 2
        ensures r.table[updates[i].0] == Stored(AsInterval(updates[i].1))
      {
        if i > 0 {
          assert updates[i] == rest[i - 1];
        }
      }
    }
  }

  /** Without the first keyword the names stay distinct, and none of them is the first name. */
  lemma {:induction false} DistinctTail(updates: seq<(string, seq<real>)>)
    requires |updates| > 0 && DistinctNames(updates)
    ensures DistinctNames(updates[1..])
    ensures forall a :: 0 <= a < |updates| ==> updates[0].0 !in NamesOf(updates[1..][..a])
  {
    var rest := updates[1..];
    forall i, j | 0 <= i < j < |rest| ensures rest[i].0 != rest[j].0 {
      assert rest[i] == updates[i + 1] && rest[j] == updates[j + 1];
    }
    forall a | 0 <= a < |updates| ensures updates[0].0 !in NamesOf(rest[..a]) {
      forall i | 0 <= i < |rest[..a]| ensures rest[..a][i].0 != updates[0].0 {
        assert rest[..a][i] == updates[i + 1];
      }
    }
  }

  /** The names of the first a + 1 keywords: the first name and the next a. */
  lemma {:induction false} NamesOfCons(updates: seq<(string, seq<real>)>, a: nat)
    requires a < |updates|
    ensures NamesOf(updates[..a + 1]) == {updates[0].0} + NamesOf(updates[1..][..a])
  {
    var u := updates[..a + 1];
    var v := updates[1..][..a];
    forall x | x in NamesOf(u) ensures x in {updates[0].0} + NamesOf(v) {
      var i :| 0 <= i < |u| && u[i].0 == x;
      if i > 0 {
        assert v[i - 1] == u[i];
      }
    }
    forall x | x in NamesOf(v) ensures x in NamesOf(u) {
      var i :| 0 <= i < a && v[i].0 == x;
      assert u[i + 1] == v[i];
    }
    assert u[0].0 == updates[0].0;
  }

  /** The table a StarModel starts with; `maxAV` overrides the AV bounds. */
  function InitialBounds(maxAV: Option<real>): (t: Table)
    ensures t.Keys == {"mass", "feh", "age", "q", "distance", "AV"}
    ensures t["mass"] == Unresolved && t["feh"] == Unresolved && t["age"] == Unresolved
    ensures t["q"] == Stored(Interval(0.1, 1.0))
    ensures t["distance"] == Stored(Interval(0.0, 3000.0))
    ensures t["AV"] == Stored(Interval(0.0, if maxAV.Some? then maxAV.value else 1.0))
  {
    var base := map["mass" := Unresolved, "feh" := Unresolved, "age" := Unresolved,
                    "q" := Stored(Interval(0.1, 1.0)),
                    "distance" := Stored(Interval(0.0, 3000.0)),
                    "AV" := Stored(Interval(0.0, 1.0))];
    match maxAV
    case None => base
    case Some(m) =>
      SetOne(base, "AV", 0.0, m);
      SetBounds(base, [("AV", [0.0, m])]).table
  }

  /** A single keyword is stored as given. */
  lemma {:induction false} SetOne(t: Table, name: string, lo: real, hi: real)
    ensures SetBounds(t, [(name, [lo, hi])]) == SetResult(t[name := Stored(Interval(lo, hi))], Done)
  {
    var updates := [(name, [lo, hi])];
    assert updates[1..] == [];
  }

  // ---------------------------------------------------------------------
  // The bounds every evaluation sees.
  // ---------------------------------------------------------------------

  /** One interval per parameter of the log-prior. */
  datatype ResolvedBounds = ResolvedBounds(mass: Interval, feh: Interval, age: Interval,
                                           q: Interval, distance: Interval, av: Interval) {
    function Of(prm: Param): Interval
    {
      match prm
      case Mass => mass
      case Feh => feh
      case Age => age
      case Q => q
      case Distance => distance
      case AV => av
    }
  }

  /**
    What `bounds` answers for each of the six parameters, or None when one
    of them would raise.  The log-prior and the unit-cube transform are
    stated over this snapshot.
   */
  function Snapshot(t: Table, g: Grid): (r: Option<ResolvedBounds>)
    ensures r.Some? <==> forall prm: Param :: LookupBounds(t, g, Name(prm)).Found?
    ensures r.Some? ==> forall prm: Param :: LookupBounds(t, g, Name(prm)).iv == r.value.Of(prm)
  {
    var m := LookupBounds(t, g, "mass");
    var f := LookupBounds(t, g, "feh");
    var a := LookupBounds(t, g, "age");
    var q := LookupBounds(t, g, "q");
    var d := LookupBounds(t, g, "distance");
    var e := LookupBounds(t, g, "AV");
    if m.Found? && f.Found? && a.Found? && q.Found? && d.Found? && e.Found? then
      Some(ResolvedBounds(m.iv, f.iv, a.iv, q.iv, d.iv, e.iv))
    else
      assert Name(Mass) == "mass" && Name(Feh) == "feh" && Name(Age) == "age" &&
             Name(Q) == "q" && Name(Distance) == "distance" && Name(AV) == "AV";
      None
  }

  /** The lazy memoization inside an evaluation never changes what later lookups see. */
  lemma {:induction false} SnapshotStable(t: Table, g: Grid, name: string)
    requires LookupBounds(t, g, name).Found?
    ensures Snapshot(LookupBounds(t, g, name).table, g) == Snapshot(t, g)
  {
    LookupMemoized(t, g, name);
    var t' := LookupBounds(t, g, name).table;
    assert SameAnswer(LookupBounds(t', g, "mass"), LookupBounds(t, g, "mass"));
    assert SameAnswer(LookupBounds(t', g, "feh"), LookupBounds(t, g, "feh"));
    assert SameAnswer(LookupBounds(t', g, "age"), LookupBounds(t, g, "age"));
    assert SameAnswer(LookupBounds(t', g, "q"), LookupBounds(t, g, "q"));
    assert SameAnswer(LookupBounds(t', g, "distance"), LookupBounds(t, g, "distance"));
    assert SameAnswer(LookupBounds(t', g, "AV"), LookupBounds(t, g, "AV"));
  }

  /**
    `set_bounds` never takes a parameter's bounds away: if every parameter
    resolved before the call, every one resolves after it, a keyword that
    was applied answers with the pair it gave, and every other parameter
    answers as before.
   */
  lemma {:induction false} SetBoundsKeepsSnapshot(t: Table, g: Grid, updates: seq<(string, seq<real>)>)
    requires Snapshot(t, g).Some? && DistinctNames(updates)
    ensures Snapshot(SetBounds(t, updates).table, g).Some?
    ensures forall prm: Param, i ::
              0 <= i < Applied(SetBounds(t, updates), updates) && updates[i].0 == Name(prm) ==>
              Snapshot(SetBounds(t, updates).table, g).value.Of(prm) == AsInterval(updates[i].1)
    ensures forall prm: Param :: Name(prm) !in NamesOf(updates[..Applied(SetBounds(t, updates), updates)]) ==>
              Snapshot(SetBounds(t, updates).table, g).value.Of(prm) == Snapshot(t, g).value.Of(prm)
  {
    var r := SetBounds(t, updates);
    var applied := updates[..Applied(r, updates)];
    SetBoundsEffect(t, updates);
    forall prm: Param
      ensures LookupBounds(r.table, g, Name(prm)).Found?
      ensures Name(prm) !in NamesOf(applied) ==>
                LookupBounds(r.table, g, Name(prm)).iv == Snapshot(t, g).value.Of(prm)
    {
      var name := Name(prm);
      if name in NamesOf(applied) {
        var i :| 0 <= i < |applied| && applied[i].0 == name;
        assert updates[i] == applied[i];
        assert r.table[name] == Stored(AsInterval(updates[i].1));
      } else {
        assert LookupBounds(t, g, name).Found?;
        assert r.table[name] == t[name];
      }
    }
  }

  /** A fresh model resolves mass/feh/age to the grid's range and keeps the fixed defaults. */
  lemma {:induction false} InitialSnapshot(maxAV: Option<real>, g: Grid)
    ensures Snapshot(InitialBounds(maxAV), g) ==
            Some(ResolvedBounds(Interval(g.minMass, g.maxMass), Interval(g.minFeh, g.maxFeh),
                                Interval(g.minAge, g.maxAge), Interval(0.1, 1.0),
                                Interval(0.0, 3000.0),
                                Interval(0.0, if maxAV.Some? then maxAV.value else 1.0)))
  {
  }
}
