/** The tick: every truck that has a load moves half of its remaining
    coordinate offset toward the load's destination; a truck that is then
    within the arrival threshold becomes Idle, loses its load, and the load is
    removed from the table. Trucks are handled in fleet order. */
module Movement {
  import opened Entities
  import opened LoadBook

  /** Distance in miles below which a truck counts as arrived. */
  const ArrivalThreshold: real := 0.1

  /** One coordinate after a tick: half-way from `from` to `to`. */
  function Halfway(from: real, to: real): real
  {
    from + (to - from) * 0.5
  }

  /** Arrival is tested on the position after the move. */
  predicate ArrivesAfterMove(atlas: Atlas, t: Truck, x: Load)
    requires x.dest < |atlas.cities|
  {
    var d := atlas.cities[x.dest];
    atlas.dist(Halfway(t.lat, d.lat), Halfway(t.lng, d.lng), d.lat, d.lng) < ArrivalThreshold
  }

  /** Truck `t` after one tick toward the destination of its load `x`. */
  function Advance(atlas: Atlas, t: Truck, x: Load): (r: Truck)
    requires x.dest < |atlas.cities|
    ensures r.id == t.id && r.capacity == t.capacity && r.startCity == t.startCity
  {
    var d := atlas.cities[x.dest];
    var moved := t.(lat := Halfway(t.lat, d.lat), lng := Halfway(t.lng, d.lng));
    if ArrivesAfterMove(atlas, t, x) then moved.(status := Idle, assignedLoad := None) else moved
  }

  /** The id of the load truck `t` delivers in this tick, if any. */
  function DeliveredBy(atlas: Atlas, t: Truck, ls: seq<Load>): (r: set<string>)
    requires LoadsInAtlas(atlas, ls)
    ensures forall id :: id in r ==> t.assignedLoad == Some(id)
  {
    if Free(t) then {}
    else match LoadById(ls, t.assignedLoad.value)
      case None => {}
      case Some(x) => if ArrivesAfterMove(atlas, t, x) then {x.id} else {}
  }

  /** The ids delivered by trucks i.. of the fleet, each against table `ls`. */
  function DeliveredFrom(atlas: Atlas, ts: seq<Truck>, ls: seq<Load>, i: nat): set<string>
    requires LoadsInAtlas(atlas, ls)
    decreases |ts| - i
  {
    if i >= |ts| then {} else DeliveredBy(atlas, ts[i], ls) + DeliveredFrom(atlas, ts, ls, i + 1)
  }

  /** Removing rows keeps every remaining row within the atlas. */
  lemma WithoutIdsInAtlas(atlas: Atlas, ls: seq<Load>, ids: set<string>)
    requires LoadsInAtlas(atlas, ls)
    ensures LoadsInAtlas(atlas, WithoutIds(ls, ids))
  {
    var r := WithoutIds(ls, ids);
    forall j | 0 <= j < |r| ensures r[j].origin < |atlas.cities| && r[j].dest < |atlas.cities| {
      assert r[j] in ls;
    }
  }

  /** One turn of the tick loop, for one truck. A truck whose load id is not
      in the table is left as it is; the invariant rules that state out. */
  function MoveTruck(atlas: Atlas, t: Truck, ls: seq<Load>): (r: (Truck, seq<Load>))
    requires LoadsInAtlas(atlas, ls)
    ensures r.0.id == t.id && r.0.capacity == t.capacity && r.0.startCity == t.startCity
    ensures Free(t) ==> r.0 == t && r.1 == ls
    ensures LoadsInAtlas(atlas, r.1)
  {
    if Free(t) then (t, ls)
    else match LoadById(ls, t.assignedLoad.value)
      case None => (t, ls)
      case Some(x) =>
        if ArrivesAfterMove(atlas, t, x) then
          WithoutIdsInAtlas(atlas, ls, {x.id});
          (Advance(atlas, t, x), WithoutIds(ls, {x.id}))
        else (Advance(atlas, t, x), ls)
  }

  /** The tick over trucks i.. of the fleet, in fleet order. */
  function MoveFrom(atlas: Atlas, ts: seq<Truck>, ls: seq<Load>, i: nat): (r: (seq<Truck>, seq<Load>))
    requires i <= |ts| && LoadsInAtlas(atlas, ls)
    ensures |r.0| == |ts|
    decreases |ts| - i
  {
    if i == |ts| then (ts, ls)
    else
      var (t1, ls1) := MoveTruck(atlas, ts[i], ls);
      MoveFrom(atlas, ts[i := t1], ls1, i + 1)
  }

  // ---------------------------------------------------------------------
  // One truck
  // ---------------------------------------------------------------------

  /** The move halves the offset to the destination in latitude and in
      longitude separately, and clears the truck exactly on arrival. */
  lemma AdvanceHalvesOffset(atlas: Atlas, t: Truck, x: Load)
    requires x.dest < |atlas.cities|
    ensures var d, r := atlas.cities[x.dest], Advance(atlas, t, x);
      && d.lat - r.lat == (d.lat - t.lat) / 2.0
      && d.lng - r.lng == (d.lng - t.lng) / 2.0
      && (ArrivesAfterMove(atlas, t, x) ==> r.status == Idle && Free(r))
      && (!ArrivesAfterMove(atlas, t, x) ==> r.status == t.status && r.assignedLoad == t.assignedLoad)
  {
  }

  /** A truck's turn removes exactly the loads it delivers. */
  lemma MoveTruckRemovesDelivered(atlas: Atlas, t: Truck, ls: seq<Load>)
    requires LoadsInAtlas(atlas, ls)
    ensures MoveTruck(atlas, t, ls).1 == WithoutIds(ls, DeliveredBy(atlas, t, ls))
  {
    if DeliveredBy(atlas, t, ls) == {} {
      WithoutAbsentIds(ls, {});
    }
  }

  /** A truck's turn keeps the tables well linked. */
  lemma MoveTruckKeepsWellLinked(atlas: Atlas, ts: seq<Truck>, ls: seq<Load>, i: nat)
    requires i < |ts| && LoadsInAtlas(atlas, ls) && WellLinked(ts, ls)
    ensures var (t1, ls1) := MoveTruck(atlas, ts[i], ls); WellLinked(ts[i := t1], ls1)
  {
    var (t1, ls1) := MoveTruck(atlas, ts[i], ls);
    if Free(ts[i]) || LoadById(ls, ts[i].assignedLoad.value).None? {
      assert ts[i := t1] == ts;
    } else {
      var x := LoadById(ls, ts[i].assignedLoad.value).value;
      if ArrivesAfterMove(atlas, ts[i], x) {
        DeliveryKeepsWellLinked(ts, ls, i, t1);
      } else {
        MoveKeepsWellLinked(ts, ls, i, t1);
      }
    }
  }

  /** One turn of the tick loop, seen from the loop: the assigned load of a
      loaded truck is found, the turn keeps the tables well linked and within
      the atlas, and the rest of the tick continues from the new tables. */
  lemma TickStep(atlas: Atlas, ts: seq<Truck>, ls: seq<Load>, i: nat)
    requires i < |ts| && LoadsInAtlas(atlas, ls) && WellLinked(ts, ls)
    ensures !Free(ts[i]) ==> LoadById(ls, ts[i].assignedLoad.value).Some?
    ensures var (t1, ls1) := MoveTruck(atlas, ts[i], ls);
      && WellLinked(ts[i := t1], ls1)
      && MoveFrom(atlas, ts[i := t1], ls1, i + 1) == MoveFrom(atlas, ts, ls, i)
  {
    MoveTruckKeepsWellLinked(atlas, ts, ls, i);
    if !Free(ts[i]) {
      assert HasLoad(ls, ts[i].assignedLoad.value);
    }
  }

  /** Changing a truck's position only keeps the tables well linked. */
  lemma MoveKeepsWellLinked(ts: seq<Truck>, ls: seq<Load>, i: nat, t1: Truck)
    requires i < |ts| && WellLinked(ts, ls)
    requires t1.id == ts[i].id && t1.status == ts[i].status && t1.assignedLoad == ts[i].assignedLoad
    ensures WellLinked(ts[i := t1], ls)
  {
    var ts1 := ts[i := t1];
    assert DistinctTruckIds(ts1) by {
      forall a, c | 0 <= a < c < |ts1| ensures ts1[a].id != ts1[c].id {
        assert ts1[a].id == ts[a].id && ts1[c].id == ts[c].id;
      }
    }
    forall k, j | 0 <= k < |ts1| && 0 <= j < |ls| ensures Paired(ts1[k], ls[j]) {
      assert Paired(ts[k], ls[j]);
    }
    forall k | 0 <= k < |ts1| && !Free(ts1[k]) ensures HasLoad(ls, ts1[k].assignedLoad.value) {
      assert ts1[k].assignedLoad == ts[k].assignedLoad;
    }
    forall j | 0 <= j < |ls| && !Pending(ls[j]) ensures HasTruck(ts1, ls[j].assignedTruck.value) {
      var k :| 0 <= k < |ts| && ts[k].id == ls[j].assignedTruck.value;
      assert ts1[k].id == ts[k].id;
    }
  }

  /** Clearing truck i and removing its load keeps every truck and load
      paired. */
  lemma DeliveryKeepsPaired(ts: seq<Truck>, ls: seq<Load>, i: nat, t1: Truck)
    requires i < |ts| && !Free(ts[i]) && t1.id == ts[i].id && Free(t1)
    requires forall k, j :: 0 <= k < |ts| && 0 <= j < |ls| ==> Paired(ts[k], ls[j])
    ensures var ts1, ls1 := ts[i := t1], WithoutIds(ls, {ts[i].assignedLoad.value});
      forall k, j :: 0 <= k < |ts1| && 0 <= j < |ls1| ==> Paired(ts1[k], ls1[j])
  {
    var ts1, ls1 := ts[i := t1], WithoutIds(ls, {ts[i].assignedLoad.value});
    forall k, j | 0 <= k < |ts1| && 0 <= j < |ls1| ensures Paired(ts1[k], ls1[j]) {
      assert ls1[j] in ls;
      var j0 :| 0 <= j0 < |ls| && ls[j0] == ls1[j];
      assert Paired(ts[k], ls[j0]) && Paired(ts[i], ls[j0]);
    }
  }

  /** After clearing truck i and removing its load, every other loaded truck
      still finds its load. */
  lemma DeliveryKeepsTruckLinks(ts: seq<Truck>, ls: seq<Load>, i: nat, t1: Truck)
    requires i < |ts| && !Free(ts[i]) && Free(t1) && CarriedOnce(ts)
    requires forall k :: 0 <= k < |ts| && !Free(ts[k]) ==> HasLoad(ls, ts[k].assignedLoad.value)
    ensures var ts1, ls1 := ts[i := t1], WithoutIds(ls, {ts[i].assignedLoad.value});
      forall k :: 0 <= k < |ts1| && !Free(ts1[k]) ==> HasLoad(ls1, ts1[k].assignedLoad.value)
  {
    var ts1, ls1 := ts[i := t1], WithoutIds(ls, {ts[i].assignedLoad.value});
    forall k | 0 <= k < |ts1| && !Free(ts1[k]) ensures HasLoad(ls1, ts1[k].assignedLoad.value) {
      assert k != i && ts1[k] == ts[k];
      var j0 :| 0 <= j0 < |ls| && ls[j0].id == ts[k].assignedLoad.value;
      assert ts[k].assignedLoad != ts[i].assignedLoad;
      assert ls[j0] in ls1;
    }
  }

  /** After clearing truck i and removing its load, every load that is still
      linked finds its truck. */
  lemma DeliveryKeepsLoadLinks(ts: seq<Truck>, ls: seq<Load>, i: nat, t1: Truck)
    requires i < |ts| && !Free(ts[i]) && t1.id == ts[i].id
    requires forall j :: 0 <= j < |ls| && !Pending(ls[j]) ==> HasTruck(ts, ls[j].assignedTruck.value)
    ensures var ts1, ls1 := ts[i := t1], WithoutIds(ls, {ts[i].assignedLoad.value});
      forall j :: 0 <= j < |ls1| && !Pending(ls1[j]) ==> HasTruck(ts1, ls1[j].assignedTruck.value)
  {
    var ts1, ls1 := ts[i := t1], WithoutIds(ls, {ts[i].assignedLoad.value});
    forall j | 0 <= j < |ls1| && !Pending(ls1[j]) ensures HasTruck(ts1, ls1[j].assignedTruck.value) {
      assert ls1[j] in ls;
      var j0 :| 0 <= j0 < |ls| && ls[j0] == ls1[j];
      var k :| 0 <= k < |ts| && ts[k].id == ls[j0].assignedTruck.value;
      assert ts1[k].id == ts[k].id;
    }
  }

  /** Clearing a truck and removing its load keeps the tables well linked. */
  lemma DeliveryKeepsWellLinked(ts: seq<Truck>, ls: seq<Load>, i: nat, t1: Truck)
    requires i < |ts| && WellLinked(ts, ls) && !Free(ts[i])
    requires t1.id == ts[i].id && t1.status == Idle && Free(t1)
    ensures WellLinked(ts[i := t1], WithoutIds(ls, {ts[i].assignedLoad.value}))
  {
    var ts1 := ts[i := t1];
    WithoutIdsKeepsDistinct(ls, {ts[i].assignedLoad.value});
    assert DistinctTruckIds(ts1) by {
      forall a, c | 0 <= a < c < |ts1| ensures ts1[a].id != ts1[c].id {
        assert ts1[a].id == ts[a].id && ts1[c].id == ts[c].id;
      }
    }
    DeliveryKeepsPaired(ts, ls, i, t1);
    WellLinkedCarriedOnce(ts, ls);
    DeliveryKeepsTruckLinks(ts, ls, i, t1);
    DeliveryKeepsLoadLinks(ts, ls, i, t1);
  }

  /** A truck's turn keeps or drops its load, so loads stay carried once. */
  lemma MoveTruckKeepsCarriedOnce(atlas: Atlas, ts: seq<Truck>, ls: seq<Load>, i: nat)
    requires i < |ts| && LoadsInAtlas(atlas, ls) && CarriedOnce(ts)
    ensures CarriedOnce(ts[i := MoveTruck(atlas, ts[i], ls).0])
  {
    var t1 := MoveTruck(atlas, ts[i], ls).0;
    assert Free(t1) || t1.assignedLoad == ts[i].assignedLoad;
  }

  /** Another truck's turn does not change what truck k does: it can only
      remove a load that is not truck k's. */
  lemma OtherTurnIrrelevant(atlas: Atlas, ts: seq<Truck>, ls: seq<Load>, i: nat, k: nat)
    requires LoadsInAtlas(atlas, ls) && CarriedOnce(ts)
    requires i < |ts| && k < |ts| && i != k
    ensures var ls1 := WithoutIds(ls, DeliveredBy(atlas, ts[i], ls));
      && LoadsInAtlas(atlas, ls1)
      && MoveTruck(atlas, ts[k], ls1).0 == MoveTruck(atlas, ts[k], ls).0
      && DeliveredBy(atlas, ts[k], ls1) == DeliveredBy(atlas, ts[k], ls)
  {
    var gone := DeliveredBy(atlas, ts[i], ls);
    WithoutIdsInAtlas(atlas, ls, gone);
    if !Free(ts[k]) {
      var id := ts[k].assignedLoad.value;
      assert id !in gone;
      LoadByIdAfterRemoval(ls, gone, id);
    }
  }

  /** DeliveredFrom only depends on what each truck delivers. */
  lemma {:induction false} DeliveredFromAgrees(atlas: Atlas, ts: seq<Truck>, ls: seq<Load>,
                                               ts1: seq<Truck>, ls1: seq<Load>, m: nat)
    requires LoadsInAtlas(atlas, ls) && LoadsInAtlas(atlas, ls1) && |ts1| == |ts|
    requires forall k :: m <= k < |ts| ==>
      ts1[k] == ts[k] && DeliveredBy(atlas, ts[k], ls1) == DeliveredBy(atlas, ts[k], ls)
    ensures DeliveredFrom(atlas, ts1, ls1, m) == DeliveredFrom(atlas, ts, ls, m)
    decreases |ts| - m
  {
    if m < |ts| {
      DeliveredFromAgrees(atlas, ts, ls, ts1, ls1, m + 1);
    }
  }

  // ---------------------------------------------------------------------
  // The whole tick
  // ---------------------------------------------------------------------

  /** After truck i's turn, the later trucks move and deliver as they would
      have against the table as it was before that turn. */
  lemma LaterTurnsAgree(atlas: Atlas, ts: seq<Truck>, ls: seq<Load>, i: nat)
    requires i < |ts| && LoadsInAtlas(atlas, ls) && CarriedOnce(ts)
    ensures var (t1, ls1) := MoveTruck(atlas, ts[i], ls);
      && (forall k :: i < k < |ts| ==> MoveTruck(atlas, ts[k], ls1).0 == MoveTruck(atlas, ts[k], ls).0)
      && DeliveredFrom(atlas, ts[i := t1], ls1, i + 1) == DeliveredFrom(atlas, ts, ls, i + 1)
  {
    var (t1, ls1) := MoveTruck(atlas, ts[i], ls);
    MoveTruckRemovesDelivered(atlas, ts[i], ls);
    forall k | i < k < |ts|
      ensures MoveTruck(atlas, ts[k], ls1).0 == MoveTruck(atlas, ts[k], ls).0
      ensures DeliveredBy(atlas, ts[k], ls1) == DeliveredBy(atlas, ts[k], ls)
    {
      OtherTurnIrrelevant(atlas, ts, ls, i, k);
    }
    DeliveredFromAgrees(atlas, ts, ls, ts[i := t1], ls1, i + 1);
  }

  /** Removing truck i's delivery and then the later trucks' deliveries
      removes the deliveries of trucks i.. at once. */
  lemma TickTableStep(atlas: Atlas, ts: seq<Truck>, ls: seq<Load>, i: nat)
    requires i < |ts| && LoadsInAtlas(atlas, ls) && CarriedOnce(ts)
    ensures var (t1, ls1) := MoveTruck(atlas, ts[i], ls);
      WithoutIds(ls1, DeliveredFrom(atlas, ts[i := t1], ls1, i + 1)) == WithoutIds(ls, DeliveredFrom(atlas, ts, ls, i))
  {
    LaterTurnsAgree(atlas, ts, ls, i);
    MoveTruckRemovesDelivered(atlas, ts[i], ls);
    WithoutIdsTwice(ls, DeliveredBy(atlas, ts[i], ls), DeliveredFrom(atlas, ts, ls, i + 1));
  }

  /** The tick, run truck by truck on a table that shrinks as loads are
      delivered, has the same outcome as moving every truck against the table
      as it was when the tick began and then removing all delivered loads at
      once. */
  lemma {:induction false} TickIsPerTruck(atlas: Atlas, ts: seq<Truck>, ls: seq<Load>, i: nat,
                                          ts': seq<Truck>, ls': seq<Load>)
    requires i <= |ts| && LoadsInAtlas(atlas, ls) && CarriedOnce(ts)
    requires (ts', ls') == MoveFrom(atlas, ts, ls, i)
    ensures forall k :: 0 <= k < i ==> ts'[k] == ts[k]
    ensures forall k :: i <= k < |ts| ==> ts'[k] == MoveTruck(atlas, ts[k], ls).0
    ensures ls' == WithoutIds(ls, DeliveredFrom(atlas, ts, ls, i))
    decreases |ts| - i
  {
    if i == |ts| {
      WithoutAbsentIds(ls, {});
    } else {
      var (t1, ls1) := MoveTruck(atlas, ts[i], ls);
      var ts1 := ts[i := t1];
      assert (forall k :: 0 <= k < i + 1 ==> ts'[k] == ts1[k])
        && (forall k :: i + 1 <= k < |ts| ==> ts'[k] == MoveTruck(atlas, ts1[k], ls1).0)
        && ls' == WithoutIds(ls1, DeliveredFrom(atlas, ts1, ls1, i + 1)) by {
        MoveTruckKeepsCarriedOnce(atlas, ts, ls, i);
        TickIsPerTruck(atlas, ts1, ls1, i + 1, ts', ls');
      }
      assert forall k :: i < k < |ts| ==> MoveTruck(atlas, ts[k], ls1).0 == MoveTruck(atlas, ts[k], ls).0 by {
        LaterTurnsAgree(atlas, ts, ls, i);
      }
      assert WithoutIds(ls1, DeliveredFrom(atlas, ts1, ls1, i + 1)) == WithoutIds(ls, DeliveredFrom(atlas, ts, ls, i)) by {
        TickTableStep(atlas, ts, ls, i);
      }
    }
  }

  /** The tick keeps the tables well linked. */
  lemma {:induction false} TickKeepsWellLinked(atlas: Atlas, ts: seq<Truck>, ls: seq<Load>, i: nat,
                                               ts': seq<Truck>, ls': seq<Load>)
    requires i <= |ts| && LoadsInAtlas(atlas, ls) && WellLinked(ts, ls)
    requires (ts', ls') == MoveFrom(atlas, ts, ls, i)
    ensures WellLinked(ts', ls')
    decreases |ts| - i
  {
    if i < |ts| {
      var (t1, ls1) := MoveTruck(atlas, ts[i], ls);
      MoveTruckKeepsWellLinked(atlas, ts, ls, i);
      TickKeepsWellLinked(atlas, ts[i := t1], ls1, i + 1, ts', ls');
    }
  }

  /** One pass over the fleet in table order: each truck with a load moves
      half-way to the load's destination, and on arrival it is cleared and its
      load is removed from the table the later trucks see. */
  method Tick(atlas: Atlas, trucks: seq<Truck>, loads: seq<Load>) returns (ts: seq<Truck>, ls: seq<Load>)
    requires LoadsInAtlas(atlas, loads) && WellLinked(trucks, loads)
    ensures (ts, ls) == MoveFrom(atlas, trucks, loads, 0)
  {
    ts, ls := trucks, loads;
    var i := 0;
    while i < |ts|
      invariant i <= |ts| == |trucks|
      invariant LoadsInAtlas(atlas, ls) && WellLinked(ts, ls)
      invariant MoveFrom(atlas, ts, ls, i) == MoveFrom(atlas, trucks, loads, 0)
    {
      var t := ts[i];
      ghost var ts0, ls0 := ts, ls;
      TickStep(atlas, ts0, ls0, i);
      if t.assignedLoad.Some? {
        var x := LoadById(ls, t.assignedLoad.value).value;
        var d := atlas.cities[x.dest];
        var moved := t.(lat := Halfway(t.lat, d.lat), lng := Halfway(t.lng, d.lng));
        ts := ts[i := moved];
        if atlas.dist(moved.lat, moved.lng, d.lat, d.lng) < ArrivalThreshold {
          ts := ts[i := moved.(status := Idle, assignedLoad := None)];
          ls := WithoutIds(ls, {x.id});
        }
        assert ts == ts0[i := Advance(atlas, t, x)];
      } else {
        assert ts0[i := t] == ts0;
      }
      assert (ts, ls) == (ts0[i := MoveTruck(atlas, t, ls0).0], MoveTruck(atlas, t, ls0).1);
      i := i + 1;
    }
  }

  /** Every id in DeliveredFrom is delivered by one of trucks i.. . */
  lemma {:induction false} DeliveredFromMembers(atlas: Atlas, ts: seq<Truck>, ls: seq<Load>, i: nat, id: string)
    requires LoadsInAtlas(atlas, ls)
    ensures id in DeliveredFrom(atlas, ts, ls, i) <==>
      exists m :: i <= m < |ts| && id in DeliveredBy(atlas, ts[m], ls)
    decreases |ts| - i
  {
    if i < |ts| {
      DeliveredFromMembers(atlas, ts, ls, i + 1, id);
    }
  }

  /** Only the truck that carries a load can deliver it. */
  lemma OnlyCarrierDelivers(atlas: Atlas, ts: seq<Truck>, ls: seq<Load>, k: nat, id: string)
    requires LoadsInAtlas(atlas, ls) && CarriedOnce(ts)
    requires k < |ts| && ts[k].assignedLoad == Some(id)
    ensures forall m :: 0 <= m < |ts| && id in DeliveredBy(atlas, ts[m], ls) ==> m == k
  {
    forall m | 0 <= m < |ts| && id in DeliveredBy(atlas, ts[m], ls) ensures m == k {
      assert ts[m].assignedLoad == ts[k].assignedLoad;
    }
  }

  /** What the tick does to a truck k that carries load row j: it halves the
      truck's offset to that load's destination, and the truck becomes Idle
      without a load exactly when it is within the threshold afterwards, in
      which case that load is gone from the table; otherwise the row is still
      there. */
  lemma LoadedTruckOutcome(atlas: Atlas, ts: seq<Truck>, ls: seq<Load>, k: nat, j: nat, t': Truck, ls': seq<Load>)
    requires LoadsInAtlas(atlas, ls) && WellLinked(ts, ls)
    requires k < |ts| && j < |ls| && ts[k].assignedLoad == Some(ls[j].id)
    requires t' == MoveTruck(atlas, ts[k], ls).0
    requires ls' == WithoutIds(ls, DeliveredFrom(atlas, ts, ls, 0))
    ensures var d := atlas.cities[ls[j].dest];
      && d.lat - t'.lat == (d.lat - ts[k].lat) / 2.0
      && d.lng - t'.lng == (d.lng - ts[k].lng) / 2.0
      && (Free(t') <==> ArrivesAfterMove(atlas, ts[k], ls[j]))
      && (Free(t') ==> t'.status == Idle && !HasLoad(ls', ls[j].id))
      && (!Free(t') ==> t'.assignedLoad == ts[k].assignedLoad && ls[j] in ls')
  {
    LoadByIdFindsRow(ls, j);
    AdvanceHalvesOffset(atlas, ts[k], ls[j]);
    assert t' == Advance(atlas, ts[k], ls[j]);
    DeliveredFromMembers(atlas, ts, ls, 0, ls[j].id);
    if ArrivesAfterMove(atlas, ts[k], ls[j]) {
      assert ls[j].id in DeliveredBy(atlas, ts[k], ls);
    } else {
      WellLinkedCarriedOnce(ts, ls);
      OnlyCarrierDelivers(atlas, ts, ls, k, ls[j].id);
    }
  }

  /** What a tick does, truck by truck: a truck without a load is untouched;
      a truck carrying load row j halves its offset to that load's
      destination; it becomes Idle without a load exactly when it is within
      the threshold afterwards, and then that load is gone from the table,
      otherwise the row is still there unchanged. No other row changes, rows
      keep their order, and the tables stay well linked. */
  lemma TickOutcome(atlas: Atlas, ts: seq<Truck>, ls: seq<Load>)
    requires LoadsInAtlas(atlas, ls) && WellLinked(ts, ls)
    ensures var (ts', ls') := MoveFrom(atlas, ts, ls, 0);
      && WellLinked(ts', ls')
      && ls' == WithoutIds(ls, DeliveredFrom(atlas, ts, ls, 0))
      && (forall k :: 0 <= k < |ts| ==> SameIdentity(ts[k], ts'[k]))
      && (forall k :: 0 <= k < |ts| && Free(ts[k]) ==> ts'[k] == ts[k])
      && (forall k, j :: 0 <= k < |ts| && 0 <= j < |ls| && ts[k].assignedLoad == Some(ls[j].id) ==>
            var d := atlas.cities[ls[j].dest];
            && d.lat - ts'[k].lat == (d.lat - ts[k].lat) / 2.0
            && d.lng - ts'[k].lng == (d.lng - ts[k].lng) / 2.0
            && (Free(ts'[k]) <==> ArrivesAfterMove(atlas, ts[k], ls[j]))
            && (Free(ts'[k]) ==> ts'[k].status == Idle && !HasLoad(ls', ls[j].id))
            && (!Free(ts'[k]) ==> ts'[k].assignedLoad == ts[k].assignedLoad && ls[j] in ls'))
  {
    var (ts', ls') := MoveFrom(atlas, ts, ls, 0);
    WellLinkedCarriedOnce(ts, ls);
    TickIsPerTruck(atlas, ts, ls, 0, ts', ls');
    TickKeepsWellLinked(atlas, ts, ls, 0, ts', ls');
    forall k, j | 0 <= k < |ts| && 0 <= j < |ls| && ts[k].assignedLoad == Some(ls[j].id)
      ensures var d := atlas.cities[ls[j].dest];
            && d.lat - ts'[k].lat == (d.lat - ts[k].lat) / 2.0
            && d.lng - ts'[k].lng == (d.lng - ts[k].lng) / 2.0
            && (Free(ts'[k]) <==> ArrivesAfterMove(atlas, ts[k], ls[j]))
            && (Free(ts'[k]) ==> ts'[k].status == Idle && !HasLoad(ls', ls[j].id))
            && (!Free(ts'[k]) ==> ts'[k].assignedLoad == ts[k].assignedLoad && ls[j] in ls')
    {
      LoadedTruckOutcome(atlas, ts, ls, k, j, ts'[k], ls');
    }
  }

  /** The same truck apart from position, status and link. */
  predicate SameIdentity(a: Truck, b: Truck)
  {
    a.id == b.id && a.capacity == b.capacity && a.startCity == b.startCity
  }
}
