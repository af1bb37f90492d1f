/**
 * The world map (game_map.py): the wall predicate of the map image and named
 * rectangular locations that may hold sub-locations.
 */
module WorldMap {

  import opened Wrappers

  /**
   * The map as the rest of the engine queries it. `is_wall` samples a pixel
   * of the map image and `_find_location_by_name` is not part of this model,
   * so both are plain functions supplied by the caller.
   */
  datatype GameMap = GameMap(isWall: (int, int) -> bool, findLocationByName: string -> Option<Location>)

  /** The outcome of `add_sub_location`: success, or the `ValueError` it raises. */
  datatype AddOutcome = Added | ValueError(message: string)

  /** An axis-aligned rectangle of the map, corners included. */
  class Location {
    const name: string
    const topLeft: (int, int)
    const bottomRight: (int, int)
    var subLocations: seq<Location>

    constructor (name: string, topLeft: (int, int), bottomRight: (int, int))
      ensures this.name == name && this.topLeft == topLeft && this.bottomRight == bottomRight
      ensures subLocations == []
      ensures Valid()
    {
      this.name := name;
      this.topLeft := topLeft;
      this.bottomRight := bottomRight;
      subLocations := [];
    }

    /**
     * `contains_point`: both corners are part of the rectangle, so a point on
     * any of the four edges is contained and a point one step outside is not.
     */
    predicate ContainsPoint(x: int, y: int)
    {
      topLeft.0 <= x <= bottomRight.0 && topLeft.1 <= y <= bottomRight.1
    }

    /** Both corners of `sub` lie in this rectangle: the test `add_sub_location` makes. */
    predicate HoldsCorners(sub: Location)
    {
      ContainsPoint(sub.topLeft.0, sub.topLeft.1) && ContainsPoint(sub.bottomRight.0, sub.bottomRight.1)
    }

    /** Every sub-location recorded so far passed the corner test. */
    ghost predicate Valid()
      reads this
    {
      forall s :: s in subLocations ==> HoldsCorners(s)
    }

    /** The text of the `ValueError` raised for a sub-location that does not fit. */
    function NotContainedMessage(sub: Location): (msg: string)
      ensures |msg| == |sub.name| + |name| + 45
      ensures msg[..13] == "Sub-location "
      ensures msg[13..13 + |sub.name|] == sub.name
    {
      "Sub-location " + sub.name + " is not fully contained within " + name + "."
    }

    /**
     * `add_sub_location`: rejects `sub` with a `ValueError` unless both of its
     * corners lie in this rectangle, leaving the list as it was; otherwise
     * appends `sub` at the end.
     */
    method AddSubLocation(sub: Location) returns (outcome: AddOutcome)
      requires Valid()
      modifies this
      ensures Valid()
      ensures outcome == Added <==> HoldsCorners(sub)
      ensures outcome == Added ==> subLocations == old(subLocations) + [sub]
      ensures outcome != Added ==> outcome == ValueError(NotContainedMessage(sub)) && subLocations == old(subLocations)
    {
      if !ContainsPoint(sub.topLeft.0, sub.topLeft.1) || !ContainsPoint(sub.bottomRight.0, sub.bottomRight.1) {
        return ValueError(NotContainedMessage(sub));
      }
      subLocations := subLocations + [sub];
      return Added;
    }
  }

  /**
   * Containment is inclusive on all four edges: with ordered corners, all
   * four corners are contained, and a point one step past any edge is not.
   */
  lemma EdgesAreInside(r: Location, x: int, y: int)
    requires r.topLeft.0 <= r.bottomRight.0 && r.topLeft.1 <= r.bottomRight.1
    ensures r.ContainsPoint(r.topLeft.0, r.topLeft.1) && r.ContainsPoint(r.bottomRight.0, r.bottomRight.1)
    ensures r.ContainsPoint(r.topLeft.0, r.bottomRight.1) && r.ContainsPoint(r.bottomRight.0, r.topLeft.1)
    ensures !r.ContainsPoint(r.topLeft.0 - 1, y) && !r.ContainsPoint(r.bottomRight.0 + 1, y)
    ensures !r.ContainsPoint(x, r.topLeft.1 - 1) && !r.ContainsPoint(x, r.bottomRight.1 + 1)
  {
  }

  /**
   * The promise of the error text: a sub-location whose two corners pass the
   * test, and whose corners are ordered, is fully contained in its parent.
   * Conversely a non-empty rectangle all of whose points lie in the parent
   * passes the test.
   */
  lemma CornersMeanFullyContained(parent: Location, sub: Location)
    requires sub.topLeft.0 <= sub.bottomRight.0 && sub.topLeft.1 <= sub.bottomRight.1
    ensures parent.HoldsCorners(sub) <==>
      forall x, y :: sub.ContainsPoint(x, y) ==> parent.ContainsPoint(x, y)
  {
    if forall x, y :: sub.ContainsPoint(x, y) ==> parent.ContainsPoint(x, y) {
      assert sub.ContainsPoint(sub.topLeft.0, sub.topLeft.1);
      assert sub.ContainsPoint(sub.bottomRight.0, sub.bottomRight.1);
    }
  }

  /** Recorded sub-locations with ordered corners are fully inside their parent. */
  lemma SubLocationsInside(parent: Location, s: Location, x: int, y: int)
    requires parent.Valid()
    requires s in parent.subLocations
    requires s.topLeft.0 <= s.bottomRight.0 && s.topLeft.1 <= s.bottomRight.1
    requires s.ContainsPoint(x, y)
    ensures parent.ContainsPoint(x, y)
  {
    CornersMeanFullyContained(parent, s);
  }
}
