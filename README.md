# FreightSim dispatch core in Dafny

FreightSim simulates freight dispatch. A fleet of trucks, each with a capacity
in tons, starts at cities drawn from a city table. Shipments ("loads") are
created with an origin city, a different destination city and a weight. A
greedy matcher hands each waiting load to the free truck with the lowest
score: its distance to the load's origin, plus a penalty of 1000 when the
truck is too small. Each tick then moves every loaded truck half of the way
to its load's destination. A truck that ends up within 0.1 miles of the
destination is cleared, and its load is removed from the table.

The model is split into modules:

- `Entities` (entities.dfy): the truck and load rows and the "T<n>"/"L<n>"
  identifiers. It also holds the link invariant `WellLinked`: ids are
  unique, a truck is Idle exactly when it has no load, every truck→load
  link is mirrored by load→truck, and no link dangles. Its consequence
  `CarriedOnce` (no two trucks carry the same load) is what the tick's
  per-truck reasoning uses.
- `LoadBook` (loadbook.dfy): lookup of a load by id (first matching row) and
  removal of loads by id, keeping row order.
- `Scoring` (scoring.dfy): the capacity-penalised score.
- `Matcher` (matcher.dfy): the assignment pass.
  - `BestAmong` is the best-truck specification, with strict `<`, so the
    earliest truck wins ties. `FindBestTruck` is the inner loop, proved
    against `BestAmong`.
  - `AssignFrom` specifies the whole pass, one load row at a time.
    `AssignPass` is the outer loop, proved against `AssignFrom`.
- `Movement` (movement.dfy): the tick.
  - `MoveTruck` is one truck's turn; `MoveFrom` specifies the sequential
    loop over the fleet, and `Tick` is that loop, proved against `MoveFrom`.
  - `TickIsPerTruck` proves that the sequential tick equals every truck
    moving against the table as it was at the start of the tick, followed
    by one removal of all delivered loads.
- `Simulation` (simulation.dfy): the `FreightSim` class.
  - Its fields are the truck table, the load table and the load counter.
  - Its methods are the constructor, `CreateRandomLoad`, `AssignLoads` and
    `UpdateTrucks`.
  - `Valid()` collects what every operation preserves: the tables are well
    linked; capacities are within the drawn range; weights are within the
    drawn range; origin and destination differ; every load city is in the
    atlas; every issued load number is below the counter.

The city table and the distance metric are bundled as an `Atlas` value: a
sequence of (lat, lng) pairs and an arbitrary function `dist`. The haversine
formula is not modelled; every property here holds for any metric. Random
draws (starting cities, capacities, load origin, destination and weight)
are parameters of the operations. Their preconditions are exactly the ranges
the draws guarantee.

Capacities follow the code, not the comment beside it. `np.random.randint(10, 30)`
excludes its upper bound, so capacities range over 10..29 (`MinCapacity`,
`MaxCapacity`), although the comment at freight_project/freight_trading.py:19
says 10–30 tons. Weights use `random.randint(5, 25)`, which includes both
bounds, so weights range over 5..25.

## Model

| member | source | states |
|---|---|---|
| Entities.Decimal | freight_project/freight_trading.py:17 | the decimal spelling used in the ids is non-empty and all digits |
| Entities.DecimalInjective | freight_project/freight_trading.py:17 | two numbers with the same decimal spelling are equal |
| Entities.TruckId | freight_project/freight_trading.py:17 | truck n is named "T" followed by the decimal digits of n |
| Entities.LoadId | freight_project/freight_trading.py:73 | load n is named "L" followed by the decimal digits of n |
| Entities.TruckIdInjective | freight_project/freight_trading.py:17 | truck names "T<n>" are distinct for distinct n |
| Entities.LoadIdInjective | freight_project/freight_trading.py:73 | load names "L<n>" are distinct for distinct n |
| Entities.InitialFleet | freight_project/freight_trading.py:16-26 | one truck per draw: truck i is "T(i+1)" with the drawn starting city and capacity, that city's coordinates, status Idle and no load; the fleet has as many trucks as draws (the rest is stated by `InitialFleetWellLinked`) |
| Entities.InitialFleetWellLinked | freight_project/freight_trading.py:16-26 | the initial fleet is well linked against an empty load table; truck i is named "T(i+1)", is Idle and free, has the drawn capacity and stands at the drawn city |
| Entities.WellLinkedCarriedOnce | freight_project/freight_trading.py:104-106 | under the link invariant no two trucks carry the same load, since a load's back-link names one truck and truck ids are unique |
| Entities.AppendFreshLoad | freight_project/freight_trading.py:72-80 | appending a pending load named after the counter keeps the tables well linked, and every issued number stays below the incremented counter, so the new id is fresh |
| LoadBook.LoadById | freight_project/freight_trading.py:115 | a found load is a row of the table with the requested id; nothing is found exactly when no row has that id |
| LoadBook.LoadByIdFindsRow | freight_project/freight_trading.py:115 | with unique ids, looking up the id of row j yields row j |
| LoadBook.LoadByIdAfterRemoval | freight_project/freight_trading.py:115 | removing other ids does not change what a lookup finds |
| LoadBook.WithoutIds | freight_project/freight_trading.py:134 | the filter keeps only rows of the table whose id is not removed, keeps every such row, and never grows the table |
| LoadBook.WithoutIdsKeepsDistinct | freight_project/freight_trading.py:134 | removing rows from a table with unique ids leaves the ids unique |
| LoadBook.WithoutIdsConcat | freight_project/freight_trading.py:134 | removing ids from two tables laid end to end is removing them from each, in order |
| LoadBook.WithoutAbsentIds | freight_project/freight_trading.py:134 | removing ids no row has leaves the table unchanged |
| LoadBook.WithoutIdsTwice | freight_project/freight_trading.py:134 | two removals in a row equal one removal of both id sets |
| LoadBook.WithoutOneRow | freight_project/freight_trading.py:134 | when no other row shares row k's id, removing that id removes exactly row k and keeps the other rows in order |
| Scoring.DistanceToOrigin | freight_project/freight_trading.py:52-55 | the metric's distance from the truck's current coordinates to the load's origin city |
| Scoring.Fits | freight_project/freight_trading.py:58 | the truck's capacity is at least the load's weight |
| Scoring.Score | freight_project/freight_trading.py:49-60 | the distance to the origin, plus 1000 exactly when the capacity is below the weight (proved both ways by `ScoreIsDistancePlusPenalty`) |
| Scoring.ScoreIsDistancePlusPenalty | freight_project/freight_trading.py:49-60 | the score equals the distance to the origin exactly when the capacity covers the weight, and equals the distance plus 1000 exactly when it does not |
| Scoring.FittingTruckScoresLower | freight_project/freight_trading.py:58-60 | a fitting truck beats a non-fitting one whenever its distance is below the other's distance plus the penalty |
| Scoring.ScoreIgnoresLink | freight_project/freight_trading.py:50-60 | the score depends only on the truck's position and capacity, not on its status or link |
| Matcher.BestAmong | freight_project/freight_trading.py:93-101 | no candidate exactly when none of the first n trucks is free; otherwise the candidate is free, scores no worse than every free truck, and strictly better than every earlier free truck |
| Matcher.BestIsUnique | freight_project/freight_trading.py:99-101 | the minimum-score truck with earliest-wins ties is unique |
| Matcher.FindBestTruck | freight_project/freight_trading.py:93-101 | the loop over the fleet returns the best free truck (minimum score, earliest on ties), and returns none exactly when no truck is free |
| Matcher.Link | freight_project/freight_trading.py:104-106 | truck k gets load j's id and status Assigned, load j gets truck k's id, and both tables keep their length |
| Matcher.Claim | freight_project/freight_trading.py:92-106 | one outer turn for load row j: a pending load is linked to the best free truck if there is one, otherwise nothing changes; the table sizes stay and every load stays within the atlas |
| Matcher.ClaimOnlyAddsLinks | freight_project/freight_trading.py:92-106 | one load's turn only links a free truck to that pending load, and changes no other load row |
| Matcher.ClaimPicksBest | freight_project/freight_trading.py:92-106 | one load's turn changes at most one truck and no other load row; a truck is linked exactly when the load is pending and some truck is free; the linked truck is the best one and gets the load id and status Assigned, and the load gets the truck id |
| Matcher.LinkKeepsWellLinked | freight_project/freight_trading.py:104-106 | linking a free truck to a pending load, both ways, keeps the tables well linked |
| Matcher.ClaimKeepsWellLinked | freight_project/freight_trading.py:92-106 | one load's turn keeps the tables well linked |
| Matcher.OnlyNewLinksTransitive | freight_project/freight_trading.py:91-106 | "only links free trucks to pending loads" composes across turns |
| Matcher.AssignOnlyAddsLinks | freight_project/freight_trading.py:91-106 | the pass changes only free trucks and pending loads, changes nothing but their links and status, and leaves earlier rows alone |
| Matcher.AssignKeepsWellLinked | freight_project/freight_trading.py:91-106 | the pass keeps the tables well linked |
| Matcher.AssignFrom | freight_project/freight_trading.py:91-106 | the greedy pass over load rows j.. in table order, each turn against the tables left by the turns before it; both tables keep their length |
| Matcher.AssignPass | freight_project/freight_trading.py:91-106 | the loop over the load table computes exactly the greedy pass `AssignFrom` |
| Matcher.AssignSaturated | freight_project/freight_trading.py:91-106 | with no free truck, or no pending load, the pass changes nothing |
| Matcher.AssignLeavesNoFreePair | freight_project/freight_trading.py:91-106 | after the pass, a load is still pending only if no truck is free |
| Matcher.PenaltyDominanceExample | freight_project/freight_trading.py:58-101 | for a 25-ton load, a capacity-30 truck at distance 200 is chosen over a capacity-20 truck at distance 100 |
| Movement.Halfway | freight_project/freight_trading.py:121-122 | one coordinate moved half of its offset toward the destination's coordinate |
| Movement.ArrivesAfterMove | freight_project/freight_trading.py:129 | the arrival test: the moved position is strictly closer than 0.1 to the destination city |
| Movement.Advance | freight_project/freight_trading.py:119-131 | a moved truck keeps its id, capacity and starting city |
| Movement.DeliveredBy | freight_project/freight_trading.py:129-134 | a truck delivers at most its own assigned load |
| Movement.DeliveredFrom | freight_project/freight_trading.py:112-134 | the ids delivered by trucks i.. of the fleet, each judged against the same table (its members are characterised by `DeliveredFromMembers`) |
| Movement.WithoutIdsInAtlas | freight_project/freight_trading.py:134 | removing loads keeps every remaining load's cities in the atlas |
| Movement.MoveTruck | freight_project/freight_trading.py:113-134 | a truck's turn keeps its identity, leaves a truck without a load and the table untouched, and keeps the table within the atlas |
| Movement.MoveFrom | freight_project/freight_trading.py:113 | the tick keeps the fleet size |
| Movement.AdvanceHalvesOffset | freight_project/freight_trading.py:119-131 | the move halves the offset to the destination in latitude and in longitude; the truck becomes Idle without a load exactly when the moved position is within 0.1 of the destination |
| Movement.MoveTruckRemovesDelivered | freight_project/freight_trading.py:128-134 | a truck's turn removes exactly the load it delivers |
| Movement.MoveKeepsWellLinked | freight_project/freight_trading.py:125-126 | changing only a truck's position keeps the tables well linked |
| Movement.DeliveryKeepsPaired | freight_project/freight_trading.py:129-134 | clearing a truck and removing its load keeps every remaining truck and load mirrored |
| Movement.DeliveryKeepsTruckLinks | freight_project/freight_trading.py:129-134 | clearing a truck and removing its load leaves every other loaded truck's load in the table |
| Movement.DeliveryKeepsLoadLinks | freight_project/freight_trading.py:129-134 | clearing a truck and removing its load leaves every linked load's truck in the fleet |
| Movement.DeliveryKeepsWellLinked | freight_project/freight_trading.py:129-134 | clearing a truck and removing its load keeps the tables well linked |
| Movement.MoveTruckKeepsCarriedOnce | freight_project/freight_trading.py:113-134 | a truck's turn keeps or drops its load, so no load becomes carried twice |
| Movement.MoveTruckKeepsWellLinked | freight_project/freight_trading.py:113-134 | one truck's turn keeps the tables well linked |
| Movement.TickStep | freight_project/freight_trading.py:113-134 | a loaded truck finds its load in the table, and after its turn the tables are well linked and the rest of the tick continues from them |
| Movement.OtherTurnIrrelevant | freight_project/freight_trading.py:113-115 | a delivery by one truck does not change how any other truck moves or what it delivers |
| Movement.DeliveredFromAgrees | freight_project/freight_trading.py:113-134 | trucks that have not had their turn deliver the same loads against tables that agree on their loads |
| Movement.LaterTurnsAgree | freight_project/freight_trading.py:113-134 | after one truck's turn, every later truck moves and delivers as it would have against the table before that turn |
| Movement.TickTableStep | freight_project/freight_trading.py:134 | removing one truck's delivery and then the later trucks' deliveries is one removal of all of them |
| Movement.TickIsPerTruck | freight_project/freight_trading.py:112-134 | the sequential tick equals every truck moving against the table from the start of the tick, followed by one removal of all delivered loads |
| Movement.TickKeepsWellLinked | freight_project/freight_trading.py:112-134 | the tick keeps the tables well linked |
| Movement.Tick | freight_project/freight_trading.py:113-134 | the loop over the fleet computes exactly the sequential tick `MoveFrom` |
| Movement.DeliveredFromMembers | freight_project/freight_trading.py:112-134 | a load counts as delivered in the tick exactly when some truck delivers it |
| Movement.OnlyCarrierDelivers | freight_project/freight_trading.py:113-134 | a load can be delivered only by the truck that carries it |
| Movement.LoadedTruckOutcome | freight_project/freight_trading.py:114-134 | a truck carrying load row j halves its offset to that load's destination; it is cleared exactly on arrival after the move, and then that load is gone; otherwise it keeps its link and the row stays |
| Movement.TickOutcome | freight_project/freight_trading.py:112-134 | idle trucks are untouched; a loaded truck halves its offset to its load's destination; it is cleared exactly on arrival, after the move, and then exactly its load is gone; otherwise its link and load row stay; remaining rows keep their order; the tables stay well linked |
| Simulation.AssignPassKeepsShape | freight_project/freight_trading.py:90-106 | the assignment pass keeps names, capacity and weight ranges, cities and issued ids, keeps the link invariant, and only links free trucks to pending loads |
| Simulation.TickKeepsShape | freight_project/freight_trading.py:112-134 | the tick keeps names, ranges, cities, issued ids and the link invariant, and removes exactly the delivered loads |
| Simulation.FreightSim.constructor | freight_project/freight_trading.py:7-33 | the fleet is T1..Tn, all Idle and free, at their drawn cities with their drawn capacities; the load table is empty and the counter is 1 |
| Simulation.FreightSim.CreateRandomLoad | freight_project/freight_trading.py:63-80 | exactly one pending load "L<counter>" with the drawn cities and weight is appended, earlier rows are kept in order, the counter rises by one, and trucks are unchanged |
| Simulation.FreightSim.AssignLoads | freight_project/freight_trading.py:90-106 | the tables become the specified greedy pass; only free trucks and pending loads are touched; afterwards no pending load coexists with a free truck; with no free truck or no pending load nothing changes |
| Simulation.FreightSim.UpdateTrucks | freight_project/freight_trading.py:112-134 | the tables become the sequential tick; each truck is its own turn against the original tables; the load table loses exactly the delivered loads; the counter is unchanged |

## Left out

- The haversine formula (freight_project/freight_trading.py:37-46) is trigonometry on floats. Distance is an arbitrary function in the `Atlas`, so its symmetry, non-negativity and the figure of roughly ten ticks to arrive are not stated.
- Floating point: coordinates and scores are exact reals. Rounding in the halving step and in the distance is not modelled.
- The random draws (freight_project/freight_trading.py:18-19, :65-69) are parameters, constrained to the ranges they produce. A table with fewer than two cities, which makes the destination draw fail, is excluded by the precondition `origin != dest`.
- Reading the CSV and the population filter (freight_project/freight_trading.py:9-12) are not modelled. The city table is given as a read-only sequence of coordinates.
- The city name, state and zip columns of the fleet table (freight_project/freight_trading.py:27-29) are used only for messages and are dropped. The starting city index is kept as `startCity`.
- Console messages and the demo run (freight_project/freight_trading.py:85-87, :108-109, :132, :137-149) are not modelled.
- freight_project/main.py (an interactive driver) and freight_project/script.js (a browser UI with its own, different matcher) are not part of this model.
- The initial best score of infinity (freight_project/freight_trading.py:93) is modelled as "no candidate yet" (`None`). Any real score beats it, which is the same comparison.
- Movement.MoveTruck: a truck whose load id is missing from the table would raise an indexing error in the source (freight_project/freight_trading.py:115). The model leaves such a truck unchanged instead. `WellLinked`, which every operation preserves, rules this state out.
- Simulation.FreightSim.UpdateTrucks: the loop over the fleet runs in `Movement.Tick` on sequence values, and the method stores the result in its fields. Mid-loop states of the fields are therefore not modelled separately.
- Simulation.FreightSim.AssignLoads: the loop over the load table runs in `Matcher.AssignPass` on sequence values, and the method stores the result in its fields. Mid-loop states of the fields are therefore not modelled separately.
- pandas row labels are not modelled. Rows are addressed by position in sequences. After a delivery the source's load labels are not renumbered, but every access in the core goes by label or id, so positions give the same behaviour.
