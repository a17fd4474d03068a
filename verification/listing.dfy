/** The filter-and-merge step of listing the fish available now: pick the
    hemisphere's seasons, keep the fish that match in catalog order, and set
    each kept fish's caught flag from the user's caught map. */
module Listing {
  import opened Models
  import opened Availability

  /** "north" picks the northern calendar; every other string, the southern one. */
  function SeasonsFor(fish: Fish, hemisphere: string): seq<SeasonalAvailability>
  {
    if hemisphere == "north" then fish.northAvailability else fish.southAvailability
  }

  /** The map's value for an id, or false (Go's zero value) when it is absent. */
  function CaughtOf(caughtMap: map<string, bool>, fishId: string): bool
  {
    if fishId in caughtMap then caughtMap[fishId] else false
  }

  /** Whether the fish is catchable now in the chosen hemisphere. */
  predicate Matches(fish: Fish, month: int, hour: Minute, hemisphere: string)
  {
    Available(SeasonsFor(fish, hemisphere), month, hour)
  }

  /** The catalog entry with only its caught flag replaced. */
  function Annotate(fish: Fish, caughtMap: map<string, bool>): Fish
  {
    fish.(caught := CaughtOf(caughtMap, fish.fishId))
  }

  /** The listing, built as the loop builds it: one entry at a time from the front. */
  function Resolve(catalog: seq<Fish>, caughtMap: map<string, bool>, month: int, hour: Minute, hemisphere: string): seq<Fish>
  {
    if catalog == [] then []
    else
      var fish := catalog[|catalog| - 1];
      Resolve(catalog[..|catalog| - 1], caughtMap, month, hour, hemisphere)
        + (if Matches(fish, month, hour, hemisphere) then [Annotate(fish, caughtMap)] else [])
  }

  /** Positions of the catalog entries that match, in increasing order. */
  function MatchingPositions(catalog: seq<Fish>, month: int, hour: Minute, hemisphere: string): seq<nat>
  {
    if catalog == [] then []
    else
      var last := |catalog| - 1;
      MatchingPositions(catalog[..last], month, hour, hemisphere)
        + (if Matches(catalog[last], month, hour, hemisphere) then [last] else [])
  }

  /** Filters the catalog and merges the caught flags; `month` has been
      checked to be 1 to 12 by the caller. */
  method ListAvailableFish(allFish: seq<Fish>, userCaughtMap: map<string, bool>, month: int, hour: Minute, hemisphere: string)
    returns (availableFish: seq<Fish>)
    requires 1 <= month <= 12
    ensures availableFish == Resolve(allFish, userCaughtMap, month, hour, hemisphere)
    ensures |availableFish| <= |allFish|
  {
    availableFish := [];
    for i := 0 to |allFish|
      invariant availableFish == Resolve(allFish[..i], userCaughtMap, month, hour, hemisphere)
      invariant |availableFish| <= i
    {
      var fish := allFish[i];
      var seasons: seq<SeasonalAvailability>;
      if hemisphere == "north" {
        seasons := fish.northAvailability;
      } else {
        seasons := fish.southAvailability;
      }
      var available := IsFishAvailable(seasons, month, hour);
      assert allFish[..i + 1][..i] == allFish[..i];
      if available {
        fish := fish.(caught := CaughtOf(userCaughtMap, fish.fishId));
        availableFish := availableFish + [fish];
      }
    }
    assert allFish[..|allFish|] == allFish;
  }

  /** The listing is an order-preserving filter: its k-th entry is the
      catalog entry at the k-th matching position, with only the caught flag
      replaced, and the positions are exactly the matching ones, increasing. */
  lemma {:induction false} ResolveIsOrderedFilter(catalog: seq<Fish>, caughtMap: map<string, bool>, month: int, hour: Minute, hemisphere: string)
    ensures var out := Resolve(catalog, caughtMap, month, hour, hemisphere);
            var pos := MatchingPositions(catalog, month, hour, hemisphere);
            && |out| == |pos|
            && (forall k :: 0 <= k < |pos| ==> pos[k] < |catalog| && out[k] == Annotate(catalog[pos[k]], caughtMap))
            && (forall k, l :: 0 <= k < l < |pos| ==> pos[k] < pos[l])
            && (forall i :: 0 <= i < |catalog| ==> (i in pos <==> Matches(catalog[i], month, hour, hemisphere)))
  {
    if catalog != [] {
      var last := |catalog| - 1;
      var init := catalog[..last];
      ResolveIsOrderedFilter(init, caughtMap, month, hour, hemisphere);
      var pos0 := MatchingPositions(init, month, hour, hemisphere);
      var pos := MatchingPositions(catalog, month, hour, hemisphere);
      var out := Resolve(catalog, caughtMap, month, hour, hemisphere);
      forall k | 0 <= k < |pos0| ensures pos[k] == pos0[k] && pos0[k] < last && init[pos0[k]] == catalog[pos0[k]] {
      }
      forall i | 0 <= i < |catalog| ensures i in pos <==> Matches(catalog[i], month, hour, hemisphere) {
        if i < last {
          assert init[i] == catalog[i];
          assert i in pos <==> i in pos0;
        }
      }
    }
  }

  /** Every entry of the listing is some matching catalog entry with its
      caught flag set from the map: the stored value when the entry's id is a
      key, false when it is absent. */
  lemma ResolveSound(catalog: seq<Fish>, caughtMap: map<string, bool>, month: int, hour: Minute, hemisphere: string, k: nat)
    requires k < |Resolve(catalog, caughtMap, month, hour, hemisphere)|
    ensures exists i ::
              && 0 <= i < |catalog|
              && Matches(catalog[i], month, hour, hemisphere)
              && Resolve(catalog, caughtMap, month, hour, hemisphere)[k]
                 == catalog[i].(caught := CaughtOf(caughtMap, catalog[i].fishId))
    ensures var entry := Resolve(catalog, caughtMap, month, hour, hemisphere)[k];
            entry.caught == (entry.fishId in caughtMap && caughtMap[entry.fishId])
  {
    ResolveIsOrderedFilter(catalog, caughtMap, month, hour, hemisphere);
    var pos := MatchingPositions(catalog, month, hour, hemisphere);
    assert pos[k] in pos;
  }

  /** Every matching catalog entry appears in the listing, flag set. */
  lemma ResolveComplete(catalog: seq<Fish>, caughtMap: map<string, bool>, month: int, hour: Minute, hemisphere: string, i: nat)
    requires i < |catalog| && Matches(catalog[i], month, hour, hemisphere)
    ensures Annotate(catalog[i], caughtMap) in Resolve(catalog, caughtMap, month, hour, hemisphere)
  {
    ResolveIsOrderedFilter(catalog, caughtMap, month, hour, hemisphere);
    var pos := MatchingPositions(catalog, month, hour, hemisphere);
    var k :| 0 <= k < |pos| && pos[k] == i;
    assert Resolve(catalog, caughtMap, month, hour, hemisphere)[k] == Annotate(catalog[i], caughtMap);
  }

  /** Any hemisphere string other than "north" lists the southern calendar;
      there is no error for an unknown one. */
  lemma {:induction false} UnknownHemisphereIsSouth(catalog: seq<Fish>, caughtMap: map<string, bool>, month: int, hour: Minute, hemisphere: string)
    requires hemisphere != "north"
    ensures Resolve(catalog, caughtMap, month, hour, hemisphere) == Resolve(catalog, caughtMap, month, hour, "south")
  {
    if catalog != [] {
      UnknownHemisphereIsSouth(catalog[..|catalog| - 1], caughtMap, month, hour, hemisphere);
    }
  }

  /** A fish with a season holding the month and the "00:00"-"23:59" window
      is listed at every minute strictly between those two; the bounds
      themselves are excluded by the strict comparison. */
  lemma AllDayWindowListed(catalog: seq<Fish>, caughtMap: map<string, bool>, month: int, hour: Minute, hemisphere: string, i: nat, k: nat)
    requires i < |catalog| && k < |SeasonsFor(catalog[i], hemisphere)|
    requires month in SeasonsFor(catalog[i], hemisphere)[k].months
    requires TimeRange(0, 1439) in SeasonsFor(catalog[i], hemisphere)[k].timeRanges
    requires 0 < hour < 1439
    ensures Annotate(catalog[i], caughtMap) in Resolve(catalog, caughtMap, month, hour, hemisphere)
  {
    var season := SeasonsFor(catalog[i], hemisphere)[k];
    var j :| 0 <= j < |season.timeRanges| && season.timeRanges[j] == TimeRange(0, 1439);
    AvailableWitness(SeasonsFor(catalog[i], hemisphere), month, hour, k, j);
    ResolveComplete(catalog, caughtMap, month, hour, hemisphere, i);
  }
}
