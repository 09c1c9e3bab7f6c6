/** The greedy matcher: loads are taken in table order; for each load that
    has no truck, every truck is scanned afresh, the free truck with the
    strictly smallest score is kept (so ties go to the earliest truck), and
    the truck and the load are linked to each other. */
module Matcher {
  import opened Entities
  import opened Scoring

  /** No truck of the fleet is free. */
  ghost predicate NoFree(ts: seq<Truck>)
  {
    forall i :: 0 <= i < |ts| ==> !Free(ts[i])
  }

  /** Among the first n trucks, truck k is free, no free truck scores lower,
      and every free truck before it scores strictly higher. */
  ghost predicate IsBestAmong(atlas: Atlas, ts: seq<Truck>, x: Load, k: nat, n: nat)
    requires x.origin < |atlas.cities| && n <= |ts|
  {
    && k < n && Free(ts[k])
    && (forall i :: 0 <= i < n && Free(ts[i]) ==> Score(atlas, ts[k], x) <= Score(atlas, ts[i], x))
    && (forall i :: 0 <= i < k && Free(ts[i]) ==> Score(atlas, ts[k], x) < Score(atlas, ts[i], x))
  }

  /** The truck the matcher keeps for load x after scanning the first n
      trucks: a free truck replaces the current one only on a strictly
      smaller score. */
  function BestAmong(atlas: Atlas, ts: seq<Truck>, x: Load, n: nat): (r: Option<nat>)
    requires x.origin < |atlas.cities| && n <= |ts|
    ensures r.None? <==> forall i :: 0 <= i < n ==> !Free(ts[i])
    ensures r.Some? ==> IsBestAmong(atlas, ts, x, r.value, n)
  {
    if n == 0 then None
    else
      var b := BestAmong(atlas, ts, x, n - 1);
      if Free(ts[n - 1]) && (b.None? || Score(atlas, ts[n - 1], x) < Score(atlas, ts[b.value], x))
      then Some(n - 1)
      else b
  }

  /** The minimum and the earliest-on-ties conditions pick at most one truck. */
  lemma BestIsUnique(atlas: Atlas, ts: seq<Truck>, x: Load, k1: nat, k2: nat)
    requires x.origin < |atlas.cities|
    requires IsBestAmong(atlas, ts, x, k1, |ts|) && IsBestAmong(atlas, ts, x, k2, |ts|)
    ensures k1 == k2
  {
  }

  /** The inner scan of the matcher over the fleet for one load. No truck
      chosen yet plays the part of an infinite best score. */
  method FindBestTruck(atlas: Atlas, ts: seq<Truck>, x: Load) returns (best: Option<nat>)
    requires x.origin < |atlas.cities|
    ensures best == BestAmong(atlas, ts, x, |ts|)
    ensures best.None? <==> NoFree(ts)
    ensures best.Some? ==> IsBestAmong(atlas, ts, x, best.value, |ts|)
  {
    best := None;
    var bestScore := 0.0;
    var i := 0;
    while i < |ts|
      invariant i <= |ts|
      invariant best == BestAmong(atlas, ts, x, i)
      invariant best.Some? ==> bestScore == Score(atlas, ts[best.value], x)
    {
      if Free(ts[i]) {
        var s := Score(atlas, ts[i], x);
        if best.None? || s < bestScore {
          bestScore := s;
          best := Some(i);
        }
      }
      i := i + 1;
    }
  }

  /** Truck k linked to load j, both ways, with status Assigned. */
  function Link(ts: seq<Truck>, ls: seq<Load>, k: nat, j: nat): (r: (seq<Truck>, seq<Load>))
    requires k < |ts| && j < |ls|
    ensures |r.0| == |ts| && |r.1| == |ls|
  {
    (ts[k := ts[k].(assignedLoad := Some(ls[j].id), status := Assigned)],
     ls[j := ls[j].(assignedTruck := Some(ts[k].id))])
  }

  /** One turn of the outer loop, for row j of the load table. */
  function Claim(atlas: Atlas, ts: seq<Truck>, ls: seq<Load>, j: nat): (r: (seq<Truck>, seq<Load>))
    requires j < |ls| && LoadsInAtlas(atlas, ls)
    ensures |r.0| == |ts| && |r.1| == |ls|
    ensures LoadsInAtlas(atlas, r.1)
  {
    if !Pending(ls[j]) then (ts, ls)
    else match BestAmong(atlas, ts, ls[j], |ts|)
      case None => (ts, ls)
      case Some(k) => Link(ts, ls, k, j)
  }

  /** The same truck apart from its link and status. */
  predicate SameTruckBody(a: Truck, b: Truck)
  {
    a.id == b.id && a.startCity == b.startCity && a.capacity == b.capacity && a.lat == b.lat && a.lng == b.lng
  }

  /** The same load apart from its link. */
  predicate SameLoadBody(a: Load, b: Load)
  {
    a.id == b.id && a.origin == b.origin && a.dest == b.dest && a.weight == b.weight
  }

  /** (ts', ls') differs from (ts, ls) only by links added to trucks that were
      free and to loads that were pending. */
  ghost predicate OnlyNewLinks(ts: seq<Truck>, ls: seq<Load>, ts': seq<Truck>, ls': seq<Load>)
  {
    && |ts'| == |ts| && |ls'| == |ls|
    && (forall i :: 0 <= i < |ts| ==> SameTruckBody(ts[i], ts'[i]))
    && (forall i :: 0 <= i < |ts| && (!Free(ts[i]) || Free(ts'[i])) ==> ts'[i] == ts[i])
    && (forall j :: 0 <= j < |ls| ==> SameLoadBody(ls[j], ls'[j]))
    && (forall j :: 0 <= j < |ls| && (!Pending(ls[j]) || Pending(ls'[j])) ==> ls'[j] == ls[j])
  }

  /** The matcher pass over rows j.. of the load table. */
  function AssignFrom(atlas: Atlas, ts: seq<Truck>, ls: seq<Load>, j: nat): (r: (seq<Truck>, seq<Load>))
    requires j <= |ls| && LoadsInAtlas(atlas, ls)
    ensures |r.0| == |ts| && |r.1| == |ls|
    decreases |ls| - j
  {
    if j == |ls| then (ts, ls)
    else
      var (ts1, ls1) := Claim(atlas, ts, ls, j);
      AssignFrom(atlas, ts1, ls1, j + 1)
  }

  /** The matcher pass over the whole load table, in table order: each load
      without a truck is linked to the best free truck of the moment, if
      there is one. */
  method AssignPass(atlas: Atlas, trucks: seq<Truck>, loads: seq<Load>) returns (ts: seq<Truck>, ls: seq<Load>)
    requires LoadsInAtlas(atlas, loads)
    ensures (ts, ls) == AssignFrom(atlas, trucks, loads, 0)
  {
    ts, ls := trucks, loads;
    var j := 0;
    while j < |ls|
      invariant j <= |ls| == |loads|
      invariant LoadsInAtlas(atlas, ls)
      invariant AssignFrom(atlas, ts, ls, j) == AssignFrom(atlas, trucks, loads, 0)
    {
      if Pending(ls[j]) {
        var best := FindBestTruck(atlas, ts, ls[j]);
        if best.Some? {
          var k := best.value;
          ghost var ts0, ls0 := ts, ls;
          ts := ts[k := ts[k].(assignedLoad := Some(ls[j].id), status := Assigned)];
          ls := ls[j := ls[j].(assignedTruck := Some(ts[k].id))];
          assert (ts, ls) == Claim(atlas, ts0, ls0, j);
        }
      }
      j := j + 1;
    }
  }

  // ---------------------------------------------------------------------
  // One turn
  // ---------------------------------------------------------------------

  /** A turn only adds links, and to row j of the load table at most. */
  lemma ClaimOnlyAddsLinks(atlas: Atlas, ts: seq<Truck>, ls: seq<Load>, j: nat)
    requires j < |ls| && LoadsInAtlas(atlas, ls)
    ensures var (ts', ls') := Claim(atlas, ts, ls, j);
      && OnlyNewLinks(ts, ls, ts', ls')
      && (forall j' :: 0 <= j' < |ls| && j' != j ==> ls'[j'] == ls[j'])
  {
  }

  /** A turn either leaves everything alone or links the best free truck to
      the load: it links a truck exactly when the load is pending and some
      truck is free, the truck it links is the best one, and it links one
      truck at most. */
  lemma ClaimPicksBest(atlas: Atlas, ts: seq<Truck>, ls: seq<Load>, j: nat)
    requires j < |ls| && LoadsInAtlas(atlas, ls)
    ensures var (ts', ls') := Claim(atlas, ts, ls, j);
      && OnlyNewLinks(ts, ls, ts', ls')
      && (forall j' :: 0 <= j' < |ls| && j' != j ==> ls'[j'] == ls[j'])
      && (Pending(ls'[j]) <==> Pending(ls[j]) && NoFree(ts))
      && (forall k :: 0 <= k < |ts| && ts'[k] != ts[k] ==>
            && Pending(ls[j])
            && IsBestAmong(atlas, ts, ls[j], k, |ts|)
            && ts'[k].assignedLoad == Some(ls[j].id) && ts'[k].status == Assigned
            && ls'[j].assignedTruck == Some(ts[k].id))
      && (forall k1, k2 :: 0 <= k1 < |ts| && 0 <= k2 < |ts| && ts'[k1] != ts[k1] && ts'[k2] != ts[k2] ==> k1 == k2)
  {
    if Pending(ls[j]) {
      var b := BestAmong(atlas, ts, ls[j], |ts|);
      if b.Some? {
        var k := b.value;
        var (ts', ls') := Link(ts, ls, k, j);
        assert forall i :: 0 <= i < |ts| && i != k ==> ts'[i] == ts[i];
        assert ts'[k] != ts[k] by { assert ts'[k].assignedLoad != ts[k].assignedLoad; }
      }
    }
  }

  /** A turn keeps the two tables well linked. */
  lemma ClaimKeepsWellLinked(atlas: Atlas, ts: seq<Truck>, ls: seq<Load>, j: nat, ts': seq<Truck>, ls': seq<Load>)
    requires j < |ls| && LoadsInAtlas(atlas, ls) && WellLinked(ts, ls)
    requires (ts', ls') == Claim(atlas, ts, ls, j)
    ensures WellLinked(ts', ls')
  {
    if Pending(ls[j]) {
      var b := BestAmong(atlas, ts, ls[j], |ts|);
      if b.Some? {
        LinkKeepsWellLinked(ts, ls, b.value, j);
      }
    }
  }

  /** Linking a free truck to a pending load keeps the tables well linked. */
  lemma LinkKeepsWellLinked(ts: seq<Truck>, ls: seq<Load>, k: nat, j: nat)
    requires WellLinked(ts, ls)
    requires k < |ts| && j < |ls| && Free(ts[k]) && Pending(ls[j])
    ensures var (ts', ls') := Link(ts, ls, k, j); WellLinked(ts', ls')
  {
    var (ts', ls') := Link(ts, ls, k, j);
    forall i, j' | 0 <= i < |ts| && 0 <= j' < |ls| ensures Paired(ts'[i], ls'[j']) {
      assert Paired(ts[i], ls[j']) && Paired(ts[k], ls[j']) && Paired(ts[i], ls[j]);
      if i == k && j' != j {
        assert ls[j].id != ls[j'].id;
      } else if i != k && j' == j {
        assert ts[i].id != ts[k].id;
      }
    }
    forall i | 0 <= i < |ts| && !Free(ts'[i]) ensures HasLoad(ls', ts'[i].assignedLoad.value) {
      if i == k {
        assert ls'[j].id == ts'[k].assignedLoad.value;
      } else {
        var j' :| 0 <= j' < |ls| && ls[j'].id == ts[i].assignedLoad.value;
        assert ls'[j'].id == ls[j'].id;
      }
    }
    forall j' | 0 <= j' < |ls| && !Pending(ls'[j']) ensures HasTruck(ts', ls'[j'].assignedTruck.value) {
      if j' == j {
        assert ts'[k].id == ls'[j].assignedTruck.value;
      } else {
        var i :| 0 <= i < |ts| && ts[i].id == ls[j'].assignedTruck.value;
        assert ts'[i].id == ts[i].id;
      }
    }
    assert DistinctTruckIds(ts') by {
      forall a, c | 0 <= a < c < |ts'| ensures ts'[a].id != ts'[c].id {
        assert ts'[a].id == ts[a].id && ts'[c].id == ts[c].id;
      }
    }
    assert DistinctLoadIds(ls') by {
      forall a, c | 0 <= a < c < |ls'| ensures ls'[a].id != ls'[c].id {
        assert ls'[a].id == ls[a].id && ls'[c].id == ls[c].id;
      }
    }
  }

  // ---------------------------------------------------------------------
  // The whole pass
  // ---------------------------------------------------------------------

  lemma OnlyNewLinksTransitive(ts: seq<Truck>, ls: seq<Load>, ts1: seq<Truck>, ls1: seq<Load>,
                               ts2: seq<Truck>, ls2: seq<Load>)
    requires OnlyNewLinks(ts, ls, ts1, ls1) && OnlyNewLinks(ts1, ls1, ts2, ls2)
    ensures OnlyNewLinks(ts, ls, ts2, ls2)
  {
    forall i | 0 <= i < |ts| && (!Free(ts[i]) || Free(ts2[i])) ensures ts2[i] == ts[i] {
      if !Free(ts[i]) {
        assert ts1[i] == ts[i];
      } else {
        assert ts2[i] == ts1[i];
      }
    }
    forall j | 0 <= j < |ls| && (!Pending(ls[j]) || Pending(ls2[j])) ensures ls2[j] == ls[j] {
      if !Pending(ls[j]) {
        assert ls1[j] == ls[j];
      } else {
        assert ls2[j] == ls1[j];
      }
    }
  }

  /** The pass only adds links: it touches no truck that already had a load
      and no load that already had a truck, changes no id, position, capacity,
      city or weight, and leaves the rows before j alone. */
  lemma {:induction false} AssignOnlyAddsLinks(atlas: Atlas, ts: seq<Truck>, ls: seq<Load>, j: nat,
                                               ts': seq<Truck>, ls': seq<Load>)
    requires j <= |ls| && LoadsInAtlas(atlas, ls)
    requires (ts', ls') == AssignFrom(atlas, ts, ls, j)
    ensures OnlyNewLinks(ts, ls, ts', ls')
    ensures forall j' :: 0 <= j' < j ==> ls'[j'] == ls[j']
    decreases |ls| - j
  {
    if j < |ls| {
      var (ts1, ls1) := Claim(atlas, ts, ls, j);
      ClaimOnlyAddsLinks(atlas, ts, ls, j);
      AssignOnlyAddsLinks(atlas, ts1, ls1, j + 1, ts', ls');
      OnlyNewLinksTransitive(ts, ls, ts1, ls1, ts', ls');
    }
  }

  /** The pass keeps the two tables well linked. */
  lemma {:induction false} AssignKeepsWellLinked(atlas: Atlas, ts: seq<Truck>, ls: seq<Load>, j: nat,
                                                 ts': seq<Truck>, ls': seq<Load>)
    requires j <= |ls| && LoadsInAtlas(atlas, ls) && WellLinked(ts, ls)
    requires (ts', ls') == AssignFrom(atlas, ts, ls, j)
    ensures WellLinked(ts', ls')
    decreases |ls| - j
  {
    if j < |ls| {
      var (ts1, ls1) := Claim(atlas, ts, ls, j);
      ClaimKeepsWellLinked(atlas, ts, ls, j, ts1, ls1);
      AssignKeepsWellLinked(atlas, ts1, ls1, j + 1, ts', ls');
    }
  }

  /** With no free truck, or no pending load among rows j.., the pass changes
      nothing. */
  lemma {:induction false} AssignSaturated(atlas: Atlas, ts: seq<Truck>, ls: seq<Load>, j: nat)
    requires j <= |ls| && LoadsInAtlas(atlas, ls)
    requires NoFree(ts) || forall j' :: j <= j' < |ls| ==> !Pending(ls[j'])
    ensures AssignFrom(atlas, ts, ls, j) == (ts, ls)
    decreases |ls| - j
  {
    if j < |ls| {
      ClaimPicksBest(atlas, ts, ls, j);
      assert Claim(atlas, ts, ls, j) == (ts, ls);
      AssignSaturated(atlas, ts, ls, j + 1);
    }
  }

  /** After the pass, a load among rows j.. is still pending only if no truck
      is free: the greedy pass leaves no free truck and pending load apart. */
  lemma {:induction false} AssignLeavesNoFreePair(atlas: Atlas, ts: seq<Truck>, ls: seq<Load>, j: nat)
    requires j <= |ls| && LoadsInAtlas(atlas, ls)
    ensures var (ts', ls') := AssignFrom(atlas, ts, ls, j);
      forall j' :: j <= j' < |ls| && Pending(ls'[j']) ==> NoFree(ts')
    decreases |ls| - j
  {
    if j < |ls| {
      var (ts1, ls1) := Claim(atlas, ts, ls, j);
      ClaimPicksBest(atlas, ts, ls, j);
      AssignLeavesNoFreePair(atlas, ts1, ls1, j + 1);
      var (ts', ls') := AssignFrom(atlas, ts1, ls1, j + 1);
      AssignOnlyAddsLinks(atlas, ts1, ls1, j + 1, ts', ls');
      if Pending(ls'[j]) {
        assert ls'[j] == ls1[j];
        assert NoFree(ts1);
        forall i | 0 <= i < |ts'| ensures !Free(ts'[i]) {
          assert ts'[i] == ts1[i];
        }
      }
    }
  }

  /** The worked case of a load of 25 tons, a 20-ton truck 100 miles from its
      origin and a 30-ton truck 200 miles from it: the 30-ton truck is chosen
      (score 200 against 100 + 1000). */
  lemma PenaltyDominanceExample(atlas: Atlas, small: Truck, big: Truck, x: Load)
    requires x.origin < |atlas.cities| && x.weight == 25
    requires Free(small) && small.capacity == 20 && DistanceToOrigin(atlas, small, x) == 100.0
    requires Free(big) && big.capacity == 30 && DistanceToOrigin(atlas, big, x) == 200.0
    ensures BestAmong(atlas, [small, big], x, 2) == Some(1)
  {
    var ts := [small, big];
    assert BestAmong(atlas, ts, x, 1) == Some(0);
  }
}
