/** Entries of the seed catalog used as concrete witnesses of the rules. */
module Examples {
  import opened Models
  import opened Availability
  import opened Listing
  import opened CaughtMap

  const Bitterling: Fish := Fish(
    "1-bitterling", "Bitterling", "/static/images/fish/icons/bitterling.png", 900,
    "Tiny", "/static/images/fish/icons/shadow-tiny.png", "River",
    [SeasonalAvailability([1, 2, 3, 11, 12], [TimeRange(Clock(0, 0), Clock(23, 59))])],
    [SeasonalAvailability([5, 6, 7, 8, 9], [TimeRange(Clock(0, 0), Clock(23, 59))])],
    false)

  const PiranhaNorth: seq<SeasonalAvailability> :=
    [SeasonalAvailability([6, 7, 8, 9], [TimeRange(Clock(9, 0), Clock(16, 0)), TimeRange(Clock(21, 0), Clock(4, 0))])]

  const CherrySalmonNorth: seq<SeasonalAvailability> := [
    SeasonalAvailability([3, 4, 5, 6], [TimeRange(Clock(16, 0), Clock(9, 0))]),
    SeasonalAvailability([9, 10, 11], [TimeRange(Clock(0, 0), Clock(23, 59))])
  ]

  /** The Snapping Turtle's "21:00"-"04:00" window: late evening, midnight and
      early morning match; both bounds and the minute before the start do not. */
  lemma SnappingTurtleWindow()
    ensures IsTimeInRange(Clock(23, 59), Clock(21, 0), Clock(4, 0))
    ensures IsTimeInRange(Clock(0, 0), Clock(21, 0), Clock(4, 0))
    ensures IsTimeInRange(Clock(3, 59), Clock(21, 0), Clock(4, 0))
    ensures !IsTimeInRange(Clock(21, 0), Clock(21, 0), Clock(4, 0))
    ensures !IsTimeInRange(Clock(4, 0), Clock(21, 0), Clock(4, 0))
    ensures !IsTimeInRange(Clock(20, 59), Clock(21, 0), Clock(4, 0))
  {
    OvernightWindow(Clock(0, 0), Clock(21, 0), Clock(4, 0));
  }

  /** A one-fish catalog lists that fish, flag set, exactly when it matches. */
  lemma ResolveSingle(fish: Fish, caughtMap: map<string, bool>, month: int, hour: Minute, hemisphere: string)
    ensures Resolve([fish], caughtMap, month, hour, hemisphere)
         == if Matches(fish, month, hour, hemisphere) then [Annotate(fish, caughtMap)] else []
  {
    assert [fish][..0] == [];
  }

  /** The Bitterling in the north: listed in February at 10:00, not in June;
      in the south: listed in June. An absent id lists it as not caught, a
      stored true as caught. */
  lemma BitterlingScenario()
    ensures Resolve([Bitterling], map[], 2, Clock(10, 0), "north") == [Bitterling]
    ensures Resolve([Bitterling], map[], 6, Clock(10, 0), "north") == []
    ensures Resolve([Bitterling], map["1-bitterling" := true], 6, Clock(10, 0), "south")
         == [Bitterling.(caught := true)]
  {
    assert Matches(Bitterling, 2, Clock(10, 0), "north") by {
      AvailableWitness(Bitterling.northAvailability, 2, Clock(10, 0), 0, 0);
    }
    ResolveSingle(Bitterling, map[], 2, Clock(10, 0), "north");
    assert !Matches(Bitterling, 6, Clock(10, 0), "north") by {
      assert 6 !in Bitterling.northAvailability[0].months;
      assert !SeasonMatches(Bitterling.northAvailability[0], 6, Clock(10, 0));
    }
    ResolveSingle(Bitterling, map[], 6, Clock(10, 0), "north");
    assert Matches(Bitterling, 6, Clock(10, 0), "south") by {
      AvailableWitness(Bitterling.southAvailability, 6, Clock(10, 0), 0, 0);
    }
    ResolveSingle(Bitterling, map["1-bitterling" := true], 6, Clock(10, 0), "south");
  }

  /** The "all day" window misses its own bounds: the Bitterling is not
      listed in January at 00:00 or at 23:59. */
  lemma BitterlingMissesMidnight()
    ensures Resolve([Bitterling], map[], 1, Clock(0, 0), "north") == []
    ensures Resolve([Bitterling], map[], 1, Clock(23, 59), "north") == []
  {
    var w := Bitterling.northAvailability[0];
    assert !SeasonMatches(w, 1, Clock(0, 0));
    assert !SeasonMatches(w, 1, Clock(23, 59));
    ResolveSingle(Bitterling, map[], 1, Clock(0, 0), "north");
    ResolveSingle(Bitterling, map[], 1, Clock(23, 59), "north");
  }

  /** The Piranha's two windows: it is available in July by day and by
      night, but not between them at 18:00. */
  lemma PiranhaTwoWindows()
    ensures Available(PiranhaNorth, 7, Clock(12, 0))
    ensures Available(PiranhaNorth, 7, Clock(1, 0))
    ensures !Available(PiranhaNorth, 7, Clock(18, 0))
  {
    AvailableWitness(PiranhaNorth, 7, Clock(12, 0), 0, 0);
    AvailableWitness(PiranhaNorth, 7, Clock(1, 0), 0, 1);
    var s := PiranhaNorth[0];
    assert forall j :: 0 <= j < |s.timeRanges| ==> !IsTimeInRange(Clock(18, 0), s.timeRanges[j].start, s.timeRanges[j].end);
    assert !SeasonMatches(s, 7, Clock(18, 0));
  }

  /** The Cherry Salmon's two seasons: evenings in spring, all day in
      autumn, and nothing in August. */
  lemma CherrySalmonTwoSeasons()
    ensures Available(CherrySalmonNorth, 4, Clock(20, 0))
    ensures !Available(CherrySalmonNorth, 4, Clock(12, 0))
    ensures Available(CherrySalmonNorth, 10, Clock(12, 0))
    ensures !Available(CherrySalmonNorth, 8, Clock(20, 0))
  {
    AvailableWitness(CherrySalmonNorth, 4, Clock(20, 0), 0, 0);
    AvailableWitness(CherrySalmonNorth, 10, Clock(12, 0), 1, 0);
    assert !SeasonMatches(CherrySalmonNorth[0], 4, Clock(12, 0));
    assert 4 !in CherrySalmonNorth[1].months;
    assert !SeasonMatches(CherrySalmonNorth[1], 4, Clock(12, 0));
    assert 8 !in CherrySalmonNorth[0].months && 8 !in CherrySalmonNorth[1].months;
    assert !SeasonMatches(CherrySalmonNorth[0], 8, Clock(20, 0));
    assert !SeasonMatches(CherrySalmonNorth[1], 8, Clock(20, 0));
  }

  /** The usual key "FISH#<id>" names the fish. */
  lemma FishKeyKept()
    ensures FishIdOf("FISH#1-bitterling") == Some("1-bitterling")
  {
    assert "FISH#1-bitterling" == "FISH" + [Separator] + "1-bitterling";
    FishIdOfAnyPrefix("FISH", "1-bitterling");
  }

  /** The prefix is not checked: "X#<id>" names the fish too. */
  lemma OtherPrefixKept()
    ensures FishIdOf("X#40-piranha") == Some("40-piranha")
  {
    assert "X#40-piranha" == "X" + [Separator] + "40-piranha";
    FishIdOfAnyPrefix("X", "40-piranha");
  }

  /** Keys with two '#' or none are skipped. */
  lemma MalformedKeysSkipped()
    ensures FishIdOf("FISH#A#B") == None
    ensures FishIdOf("FISH") == None
  {
    assert multiset("FISH#A#B")[Separator] == 2;
    FishIdOfKeptIffOneSeparator("FISH#A#B");
    assert multiset("FISH")[Separator] == 0;
    FishIdOfKeptIffOneSeparator("FISH");
  }

  /** Five records naming ids a, b, a, none, none: the later record for `a`
      overwrites the earlier one and the unkeyed records are skipped. */
  lemma LaterRecordOverwrites(r0: UserFishRecord, r1: UserFishRecord, r2: UserFishRecord, r3: UserFishRecord, r4: UserFishRecord, a: string, b: string)
    requires a != b
    requires FishIdOf(r0.sk) == Some(a) && FishIdOf(r1.sk) == Some(b) && FishIdOf(r2.sk) == Some(a)
    requires FishIdOf(r3.sk) == None && FishIdOf(r4.sk) == None
    ensures CaughtMapOf([r0, r1, r2, r3, r4]) == map[a := r2.caught, b := r1.caught]
  {
    var rs := [r0, r1, r2, r3, r4];
    assert rs[..1] == [r0] && [r0][..0] == [];
    assert CaughtMapOf(rs[..1]) == map[a := r0.caught];
    assert rs[..2] == [r0, r1] && [r0, r1][..1] == [r0];
    assert CaughtMapOf(rs[..2]) == map[a := r0.caught, b := r1.caught];
    assert rs[..3][..2] == rs[..2];
    assert CaughtMapOf(rs[..3]) == map[a := r2.caught, b := r1.caught];
    assert rs[..4][..3] == rs[..3];
    assert rs[..4] == rs[..|rs| - 1];
  }

  /** Sort keys from the UserFish table: a later record for the same fish
      overwrites an earlier one, any prefix is accepted, and keys without
      exactly one '#' are skipped. */
  lemma CaughtMapScenario()
    ensures CaughtMapOf([
              UserFishRecord("FISH#1-bitterling", true),
              UserFishRecord("X#40-piranha", true),
              UserFishRecord("FISH#1-bitterling", false),
              UserFishRecord("FISH#A#B", true),
              UserFishRecord("FISH", true)])
         == map["1-bitterling" := false, "40-piranha" := true]
  {
    FishKeyKept();
    OtherPrefixKept();
    MalformedKeysSkipped();
    LaterRecordOverwrites(
      UserFishRecord("FISH#1-bitterling", true),
      UserFishRecord("X#40-piranha", true),
      UserFishRecord("FISH#1-bitterling", false),
      UserFishRecord("FISH#A#B", true),
      UserFishRecord("FISH", true),
      "1-bitterling", "40-piranha");
  }
}
