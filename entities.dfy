/** Records of the dispatch simulation (trucks, loads, cities), their
    identifiers, and the invariant that keeps the truck table and the load
    table pointing at each other consistently. */
module Entities {

  datatype Option<T> = None | Some(value: T)

  datatype Status = Idle | Assigned

  /** A row of the city reference table, reduced to the coordinates the core uses. */
  datatype City = City(lat: real, lng: real)

  /** Great-circle distance in miles between (lat1, lng1) and (lat2, lng2). */
  type DistanceFn = (real, real, real, real) -> real

  /** The read-only geography the core consumes: the filtered city table and
      the distance metric. */
  datatype Atlas = Atlas(cities: seq<City>, dist: DistanceFn)

  /** A row of the fleet table. `startCity` is the index of the city the truck
      was placed in; it is not updated when the truck moves. */
  datatype Truck = Truck(
    id: string,
    startCity: nat,
    capacity: int,
    lat: real,
    lng: real,
    status: Status,
    assignedLoad: Option<string>)

  /** A row of the load table; `origin` and `dest` index the city table. */
  datatype Load = Load(
    id: string,
    origin: nat,
    dest: nat,
    weight: int,
    assignedTruck: Option<string>)

  // ---------------------------------------------------------------------
  // Identifiers "T1", "T2", ... and "L1", "L2", ...
  // ---------------------------------------------------------------------

  function DigitChar(d: nat): (c: char)
    requires d < 10
    ensures '0' <= c <= '9'
    ensures c as int - '0' as int == d
  {
    ('0' as int + d) as char
  }

  /** The decimal spelling of `n`, without leading zeros. */
  function Decimal(n: nat): (s: string)
    ensures 1 <= |s|
    ensures forall i :: 0 <= i < |s| ==> '0' <= s[i] <= '9'
  {
    if n < 10 then [DigitChar(n)] else Decimal(n / 10) + [DigitChar(n % 10)]
  }

  /** Different numbers have different decimal spellings. */
  lemma {:induction false} DecimalInjective(a: nat, b: nat)
    requires Decimal(a) == Decimal(b)
    ensures a == b
  {
    var s := Decimal(a);
    if 10 <= a && 10 <= b {
      assert DigitChar(a % 10) == s[|s| - 1] == DigitChar(b % 10);
      assert Decimal(a / 10) == s[..|s| - 1] == Decimal(b / 10);
      DecimalInjective(a / 10, b / 10);
    }
  }

  function TruckId(n: nat): string { "T" + Decimal(n) }

  function LoadId(n: nat): string { "L" + Decimal(n) }

  lemma TruckIdInjective(a: nat, b: nat)
    ensures TruckId(a) == TruckId(b) ==> a == b
  {
    if TruckId(a) == TruckId(b) {
      assert Decimal(a) == TruckId(a)[1..] == TruckId(b)[1..] == Decimal(b);
      DecimalInjective(a, b);
    }
  }

  lemma LoadIdInjective(a: nat, b: nat)
    ensures LoadId(a) == LoadId(b) ==> a == b
  {
    if LoadId(a) == LoadId(b) {
      assert Decimal(a) == LoadId(a)[1..] == LoadId(b)[1..] == Decimal(b);
      DecimalInjective(a, b);
    }
  }

  // ---------------------------------------------------------------------
  // The link invariant
  // ---------------------------------------------------------------------

  /** The matcher's busy test: a truck is free when it has no assigned load. */
  predicate Free(t: Truck) { t.assignedLoad.None? }

  /** A load waits for a truck when it has no assigned truck. */
  predicate Pending(x: Load) { x.assignedTruck.None? }

  /** The truck points at the load exactly when the load points at the truck. */
  predicate Paired(t: Truck, x: Load)
  {
    t.assignedLoad == Some(x.id) <==> x.assignedTruck == Some(t.id)
  }

  ghost predicate DistinctTruckIds(ts: seq<Truck>)
  {
    forall i, j :: 0 <= i < j < |ts| ==> ts[i].id != ts[j].id
  }

  ghost predicate DistinctLoadIds(ls: seq<Load>)
  {
    forall i, j :: 0 <= i < j < |ls| ==> ls[i].id != ls[j].id
  }

  ghost predicate HasLoad(ls: seq<Load>, id: string)
  {
    exists j :: 0 <= j < |ls| && ls[j].id == id
  }

  ghost predicate HasTruck(ts: seq<Truck>, id: string)
  {
    exists i :: 0 <= i < |ts| && ts[i].id == id
  }

  /** Status agrees with the link: Idle exactly when no load is assigned. */
  ghost predicate StatusMatchesLink(ts: seq<Truck>)
  {
    forall i :: 0 <= i < |ts| ==> (ts[i].status == Idle <==> Free(ts[i]))
  }

  /** Both tables have unique ids, status agrees with the link, every link is
      mirrored by the other side, and no link dangles. */
  ghost predicate WellLinked(ts: seq<Truck>, ls: seq<Load>)
  {
    && DistinctTruckIds(ts)
    && DistinctLoadIds(ls)
    && StatusMatchesLink(ts)
    && (forall i, j :: 0 <= i < |ts| && 0 <= j < |ls| ==> Paired(ts[i], ls[j]))
    && (forall i :: 0 <= i < |ts| && !Free(ts[i]) ==> HasLoad(ls, ts[i].assignedLoad.value))
    && (forall j :: 0 <= j < |ls| && !Pending(ls[j]) ==> HasTruck(ts, ls[j].assignedTruck.value))
  }

  /** No two trucks of the fleet carry the same load. */
  ghost predicate CarriedOnce(ts: seq<Truck>)
  {
    forall i, k :: 0 <= i < |ts| && 0 <= k < |ts| && i != k && !Free(ts[i]) ==> ts[k].assignedLoad != ts[i].assignedLoad
  }

  /** Under the invariant, no two trucks carry the same load: the load's
      back-link names one truck, and truck ids are unique. */
  lemma WellLinkedCarriedOnce(ts: seq<Truck>, ls: seq<Load>)
    requires WellLinked(ts, ls)
    ensures CarriedOnce(ts)
  {
    forall i, k | 0 <= i < |ts| && 0 <= k < |ts| && i != k && !Free(ts[i])
      ensures ts[k].assignedLoad != ts[i].assignedLoad
    {
      var j :| 0 <= j < |ls| && ls[j].id == ts[i].assignedLoad.value;
      assert Paired(ts[i], ls[j]) && Paired(ts[k], ls[j]);
    }
  }

  /** Every load of the table refers to cities of the atlas. */
  ghost predicate LoadsInAtlas(atlas: Atlas, ls: seq<Load>)
  {
    forall j :: 0 <= j < |ls| ==> ls[j].origin < |atlas.cities| && ls[j].dest < |atlas.cities|
  }

  // ---------------------------------------------------------------------
  // Fleet construction
  // ---------------------------------------------------------------------

  /** The initial fleet: truck i is named "T(i+1)", stands at the city drawn
      for it, has the capacity drawn for it, and is Idle without a load. */
  function InitialFleet(atlas: Atlas, starts: seq<nat>, capacities: seq<int>): (ts: seq<Truck>)
    requires |starts| == |capacities|
    requires forall i :: 0 <= i < |starts| ==> starts[i] < |atlas.cities|
    ensures |ts| == |starts|
  {
    seq(|starts|, i requires 0 <= i < |starts| =>
      Truck(TruckId(i + 1), starts[i], capacities[i],
            atlas.cities[starts[i]].lat, atlas.cities[starts[i]].lng, Idle, None))
  }

  /** The initial fleet is well linked against the empty load table; each
      truck i is named "T(i+1)", free, and placed at the city drawn for it. */
  lemma InitialFleetWellLinked(atlas: Atlas, starts: seq<nat>, capacities: seq<int>)
    requires |starts| == |capacities|
    requires forall i :: 0 <= i < |starts| ==> starts[i] < |atlas.cities|
    ensures var ts := InitialFleet(atlas, starts, capacities);
      && WellLinked(ts, [])
      && (forall i :: 0 <= i < |ts| ==>
            && ts[i].id == TruckId(i + 1) && Free(ts[i]) && ts[i].status == Idle
            && ts[i].capacity == capacities[i]
            && ts[i].lat == atlas.cities[starts[i]].lat
            && ts[i].lng == atlas.cities[starts[i]].lng)
  {
    var ts := InitialFleet(atlas, starts, capacities);
    forall i, j | 0 <= i < j < |ts| ensures ts[i].id != ts[j].id {
      TruckIdInjective(i + 1, j + 1);
    }
  }

  // ---------------------------------------------------------------------
  // Load creation
  // ---------------------------------------------------------------------

  /** Every load id "L<n>" handed out so far used a number below `counter`. */
  ghost predicate IssuedBelow(ls: seq<Load>, counter: nat)
  {
    forall j, n: nat :: 0 <= j < |ls| && ls[j].id == LoadId(n) ==> n < counter
  }

  /** Appending a pending load named "L<counter>" keeps the tables well linked
      and the issued ids below the next counter value. */
  lemma AppendFreshLoad(ts: seq<Truck>, ls: seq<Load>, counter: nat, x: Load)
    requires WellLinked(ts, ls) && IssuedBelow(ls, counter)
    requires x.id == LoadId(counter) && Pending(x)
    ensures WellLinked(ts, ls + [x]) && IssuedBelow(ls + [x], counter + 1)
  {
    var ls' := ls + [x];
    forall i, j | 0 <= i < j < |ls'| ensures ls'[i].id != ls'[j].id {
      if j == |ls| {
        assert ls'[i] == ls[i];
      }
    }
    forall j, n: nat | 0 <= j < |ls'| && ls'[j].id == LoadId(n) ensures n < counter + 1 {
      if j == |ls| { LoadIdInjective(n, counter); } else { assert ls[j] == ls'[j]; }
    }
    forall i, j | 0 <= i < |ts| && 0 <= j < |ls'| ensures Paired(ts[i], ls'[j]) {
      if j < |ls| {
        assert ls'[j] == ls[j];
      }
    }
    forall i | 0 <= i < |ts| && !Free(ts[i]) ensures HasLoad(ls', ts[i].assignedLoad.value) {
      var j :| 0 <= j < |ls| && ls[j].id == ts[i].assignedLoad.value;
      assert ls'[j] == ls[j];
    }
    forall j | 0 <= j < |ls'| && !Pending(ls'[j]) ensures HasTruck(ts, ls'[j].assignedTruck.value) {
      assert ls'[j] == ls[j];
    }
  }
}
