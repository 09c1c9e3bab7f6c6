/** The simulation object: the fleet table, the load table and the load
    counter, and the operations a driver calls on them (construction, load
    creation, the matcher pass and the tick). The random draws of the source
    are parameters here. */
module Simulation {
  import opened Entities
  import opened LoadBook
  import opened Matcher
  import opened Movement

  /** Capacities are drawn from 10 up to, but excluding, 30. */
  const MinCapacity: int := 10
  const MaxCapacity: int := 29

  /** Weights are drawn from 5 to 25, both included. */
  const MinWeight: int := 5
  const MaxWeight: int := 25

  /** Truck i of the fleet is named "T(i+1)", has a drawn capacity and a
      starting city of the atlas. */
  ghost predicate FleetShape(atlas: Atlas, ts: seq<Truck>)
  {
    forall i :: 0 <= i < |ts| ==>
      && ts[i].id == TruckId(i + 1)
      && MinCapacity <= ts[i].capacity <= MaxCapacity
      && ts[i].startCity < |atlas.cities|
  }

  /** Every load goes between two different cities and has a drawn weight. */
  ghost predicate LoadShape(ls: seq<Load>)
  {
    forall j :: 0 <= j < |ls| ==> ls[j].origin != ls[j].dest && MinWeight <= ls[j].weight <= MaxWeight
  }

  /** The matcher pass keeps the shape of both tables, the issued ids and the
      link invariant. */
  lemma AssignPassKeepsShape(atlas: Atlas, ts: seq<Truck>, ls: seq<Load>, counter: nat)
    requires FleetShape(atlas, ts) && LoadsInAtlas(atlas, ls) && LoadShape(ls)
    requires IssuedBelow(ls, counter) && WellLinked(ts, ls)
    ensures var (ts', ls') := AssignFrom(atlas, ts, ls, 0);
      && FleetShape(atlas, ts') && LoadsInAtlas(atlas, ls') && LoadShape(ls')
      && IssuedBelow(ls', counter) && WellLinked(ts', ls')
      && OnlyNewLinks(ts, ls, ts', ls')
  {
    var (ts', ls') := AssignFrom(atlas, ts, ls, 0);
    AssignOnlyAddsLinks(atlas, ts, ls, 0, ts', ls');
    AssignKeepsWellLinked(atlas, ts, ls, 0, ts', ls');
    forall j, n: nat | 0 <= j < |ls'| && ls'[j].id == LoadId(n) ensures n < counter {
      assert SameLoadBody(ls[j], ls'[j]);
    }
    forall j | 0 <= j < |ls'| ensures ls'[j].origin < |atlas.cities| && ls'[j].dest < |atlas.cities| {
      assert SameLoadBody(ls[j], ls'[j]);
    }
    forall j | 0 <= j < |ls'| ensures ls'[j].origin != ls'[j].dest && MinWeight <= ls'[j].weight <= MaxWeight {
      assert SameLoadBody(ls[j], ls'[j]);
    }
    forall i | 0 <= i < |ts'| ensures ts'[i].id == TruckId(i + 1) && MinCapacity <= ts'[i].capacity <= MaxCapacity
      && ts'[i].startCity < |atlas.cities| {
      assert SameTruckBody(ts[i], ts'[i]);
    }
  }

  /** The tick keeps the shape of both tables, the issued ids and the link
      invariant. */
  lemma TickKeepsShape(atlas: Atlas, ts: seq<Truck>, ls: seq<Load>, counter: nat)
    requires FleetShape(atlas, ts) && LoadsInAtlas(atlas, ls) && LoadShape(ls)
    requires IssuedBelow(ls, counter) && WellLinked(ts, ls)
    ensures var (ts', ls') := MoveFrom(atlas, ts, ls, 0);
      && FleetShape(atlas, ts') && LoadsInAtlas(atlas, ls') && LoadShape(ls')
      && IssuedBelow(ls', counter) && WellLinked(ts', ls')
      && (forall k :: 0 <= k < |ts| ==> ts'[k] == MoveTruck(atlas, ts[k], ls).0)
      && ls' == WithoutIds(ls, DeliveredFrom(atlas, ts, ls, 0))
  {
    var (ts', ls') := MoveFrom(atlas, ts, ls, 0);
    WellLinkedCarriedOnce(ts, ls);
    TickIsPerTruck(atlas, ts, ls, 0, ts', ls');
    TickKeepsWellLinked(atlas, ts, ls, 0, ts', ls');
    WithoutIdsInAtlas(atlas, ls, DeliveredFrom(atlas, ts, ls, 0));
    forall j | 0 <= j < |ls'| ensures ls'[j] in ls { }
    forall i | 0 <= i < |ts'| ensures ts'[i].id == TruckId(i + 1) && MinCapacity <= ts'[i].capacity <= MaxCapacity
      && ts'[i].startCity < |atlas.cities| {
      assert ts'[i] == MoveTruck(atlas, ts[i], ls).0;
    }
  }

  class FreightSim {
    const atlas: Atlas
    const numTrucks: nat
    var trucks: seq<Truck>
    var loads: seq<Load>
    var loadCounter: nat

    ghost predicate Valid()
      reads this
    {
      && |trucks| == numTrucks
      && FleetShape(atlas, trucks)
      && LoadsInAtlas(atlas, loads)
      && LoadShape(loads)
      && 1 <= loadCounter
      && IssuedBelow(loads, loadCounter)
      && WellLinked(trucks, loads)
    }

    /** Builds the fleet from the drawn starting cities and capacities; all
        trucks are Idle without a load, the load table is empty and the
        counter is 1. */
    constructor (atlas: Atlas, numTrucks: nat, starts: seq<nat>, capacities: seq<int>)
      requires |starts| == numTrucks && |capacities| == numTrucks
      requires forall i :: 0 <= i < numTrucks ==> starts[i] < |atlas.cities|
      requires forall i :: 0 <= i < numTrucks ==> MinCapacity <= capacities[i] <= MaxCapacity
      ensures Valid()
      ensures this.atlas == atlas && this.numTrucks == numTrucks
      ensures trucks == InitialFleet(atlas, starts, capacities)
      ensures forall i :: 0 <= i < numTrucks ==>
        trucks[i].id == TruckId(i + 1) && trucks[i].status == Idle && Free(trucks[i])
      ensures loads == [] && loadCounter == 1
    {
      this.atlas := atlas;
      this.numTrucks := numTrucks;
      trucks := InitialFleet(atlas, starts, capacities);
      loads := [];
      loadCounter := 1;
      InitialFleetWellLinked(atlas, starts, capacities);
    }

    /** Appends one pending load "L<counter>" with the drawn cities and weight
        and advances the counter; every other row is kept, in order. */
    method CreateRandomLoad(origin: nat, dest: nat, weight: int)
      requires Valid()
      requires origin < |atlas.cities| && dest < |atlas.cities| && origin != dest
      requires MinWeight <= weight <= MaxWeight
      modifies this
      ensures Valid()
      ensures loads == old(loads) + [Load(LoadId(old(loadCounter)), origin, dest, weight, None)]
      ensures loadCounter == old(loadCounter) + 1
      ensures trucks == old(trucks)
    {
      var x := Load(LoadId(loadCounter), origin, dest, weight, None);
      AppendFreshLoad(trucks, loads, loadCounter, x);
      loadCounter := loadCounter + 1;
      loads := loads + [x];
    }

    /** The matcher pass: each pending load, in table order, is linked to the
        best free truck of the moment, if there is one. */
    method AssignLoads()
      requires Valid()
      modifies this
      ensures Valid()
      ensures (trucks, loads) == AssignFrom(atlas, old(trucks), old(loads), 0)
      ensures OnlyNewLinks(old(trucks), old(loads), trucks, loads)
      ensures forall j :: 0 <= j < |loads| && Pending(loads[j]) ==> NoFree(trucks)
      ensures NoFree(old(trucks)) || (forall j :: 0 <= j < |old(loads)| ==> !Pending(old(loads)[j])) ==>
        trucks == old(trucks) && loads == old(loads)
      ensures loadCounter == old(loadCounter)
    {
      AssignPassKeepsShape(atlas, trucks, loads, loadCounter);
      AssignLeavesNoFreePair(atlas, trucks, loads, 0);
      if NoFree(trucks) || (forall j :: 0 <= j < |loads| ==> !Pending(loads[j])) {
        AssignSaturated(atlas, trucks, loads, 0);
      }
      trucks, loads := AssignPass(atlas, trucks, loads);
    }

    /** The tick: every truck with a load moves half-way to its destination,
        in fleet order; on arrival it is cleared and its load removed. */
    method UpdateTrucks()
      requires Valid()
      modifies this
      ensures Valid()
      ensures (trucks, loads) == MoveFrom(atlas, old(trucks), old(loads), 0)
      ensures forall k :: 0 <= k < |trucks| ==> trucks[k] == MoveTruck(atlas, old(trucks)[k], old(loads)).0
      ensures loads == WithoutIds(old(loads), DeliveredFrom(atlas, old(trucks), old(loads), 0))
      ensures loadCounter == old(loadCounter)
    {
      TickKeepsShape(atlas, trucks, loads, loadCounter);
      trucks, loads := Tick(atlas, trucks, loads);
    }
  }
}
