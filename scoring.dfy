/** The capacity-penalised cost of sending a truck to pick up a load. */
module Scoring {
  import opened Entities

  /** Added to the distance when the truck is too small for the load. */
  const CapacityPenalty: real := 1000.0

  /** Distance from the truck's current position to the load's origin city. */
  function DistanceToOrigin(atlas: Atlas, t: Truck, x: Load): real
    requires x.origin < |atlas.cities|
  {
    var o := atlas.cities[x.origin];
    atlas.dist(t.lat, t.lng, o.lat, o.lng)
  }

  /** The truck can carry the load's weight. */
  predicate Fits(t: Truck, x: Load) { t.capacity >= x.weight }

  /** Cost of truck `t` for load `x`; lower is better. */
  function Score(atlas: Atlas, t: Truck, x: Load): real
    requires x.origin < |atlas.cities|
  {
    DistanceToOrigin(atlas, t, x) + (if Fits(t, x) then 0.0 else CapacityPenalty)
  }

  /** The score is the distance to the origin, plus the penalty exactly when
      the truck's capacity is below the load's weight. */
  lemma ScoreIsDistancePlusPenalty(atlas: Atlas, t: Truck, x: Load)
    requires x.origin < |atlas.cities|
    ensures Score(atlas, t, x) == DistanceToOrigin(atlas, t, x) <==> t.capacity >= x.weight
    ensures Score(atlas, t, x) == DistanceToOrigin(atlas, t, x) + CapacityPenalty <==> t.capacity < x.weight
  {
  }

  /** A truck that fits beats one that does not whenever its distance is less
      than the other's distance plus the penalty. */
  lemma FittingTruckScoresLower(atlas: Atlas, a: Truck, b: Truck, x: Load)
    requires x.origin < |atlas.cities|
    requires Fits(a, x) && !Fits(b, x)
    requires DistanceToOrigin(atlas, a, x) < DistanceToOrigin(atlas, b, x) + CapacityPenalty
    ensures Score(atlas, a, x) < Score(atlas, b, x)
  {
  }

  /** The score reads only the truck's position and capacity: the link and
      status columns do not change it. */
  lemma ScoreIgnoresLink(atlas: Atlas, a: Truck, b: Truck, x: Load)
    requires x.origin < |atlas.cities|
    requires a.lat == b.lat && a.lng == b.lng && a.capacity == b.capacity
    ensures Score(atlas, a, x) == Score(atlas, b, x)
  {
  }
}
