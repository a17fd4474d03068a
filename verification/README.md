# Fish availability engine (acnh-finder) in Dafny

This project models the engine that lists the fish a player can catch right now. It lives in `server/internal/dynamodb/dynamodb.go` of acnh-finder. The inputs are a month, a time of day and a hemisphere. The engine:

- tests whether the month is in a season's month list (`containsInt`);
- tests the time against each daily window of that season (`isTimeInRange`), including windows that wrap past midnight;
- scans a fish's seasons and stops at the first match (`isFishAvailable`);
- builds the user's caught map from the `(SK, Caught)` records (the in-memory half of `getUserCaughtFishMap`);
- filters the catalog in order and sets each kept fish's `Caught` flag (the filter loop of `ListAvailableFish`).

Modules:

- `Models` (`models.dfy`): the catalog types. Times of day are `Minute` values from 0 to 1439. A well-formed `"HH:MM"` string is the count `60*HH + MM`, and Go's `Before`/`After` on parsed times compare such counts. `Fish` has a `caught` field: the Go code assigns `fish.Caught` at dynamodb.go:175, but the `Fish` struct in models.go does not declare one.
- `Availability` (`availability.dfy`): `ContainsInt` and `IsFishAvailable` are loop methods: `ContainsInt` is proved against `val in slice`, `IsFishAvailable` against the predicate `Available` (built on `SeasonMatches`). `IsTimeInRange` is the pure comparison. `IsTimeInRangeIsOpenArc` proves it equal to an independent reading: "strictly inside the arc walked forward around the clock from start to end".
- `CaughtMap` (`caughtmap.dfy`): `SplitOn` models Go's `strings.Split` on one character. `FishIdOf` keeps a key only when it has exactly two parts. `GetUserCaughtFishMap` is the record loop, proved against `CaughtMapOf`, with lemmas for which keys end up in the map and for last-record-wins.
- `Listing` (`listing.dfy`): `ListAvailableFish` is the filter/merge loop, proved against `Resolve`. `ResolveIsOrderedFilter` proves `Resolve` is an order-preserving filter: each entry is a matching catalog entry with only `caught` replaced, and every matching entry appears.
- `Examples` (`seed_examples.dfy`): entries from the seed catalog (`server/cmd/web/seed/main.go`) used as concrete witnesses.

At its edges the code behaves as follows, and so does the model:

- A same-day window excludes both bounds: `09:00–16:00` does not match 09:00 or 16:00, and `00:00–23:59` misses 00:00 and 23:59 (`SameDayWindow`, `BitterlingMissesMidnight`).
- A window with `start == end` takes the wraparound branch and matches every minute except `start` (`DegenerateWindow`).
- An unknown hemisphere string is not rejected: `"north"` selects the northern calendar and every other string selects the southern one (`UnknownHemisphereIsSouth`).
- The engine does no month range check; the HTTP handler does it (handlers.go:138-142), so `ListAvailableFish` takes `1 <= month <= 12` as a precondition.

## Model

| member | source | states |
|---|---|---|
| `Availability.ContainsInt` | server/internal/dynamodb/dynamodb.go:75-82 | the result is true exactly when the value occurs in the list; an empty list gives false |
| `Availability.IsTimeInRangeIsOpenArc` | server/internal/dynamodb/dynamodb.go:84-95 | the window test holds exactly when walking forward from start reaches the time after more than 0 and fewer than the arc's length minutes (start == end is a full turn): both bounds excluded, wraparound included |
| `Availability.SameDayWindow` | server/internal/dynamodb/dynamodb.go:90-92 | for start < end, the time matches iff start < t < end; neither bound matches |
| `Availability.OvernightWindow` | server/internal/dynamodb/dynamodb.go:93-94 | for start > end, the time matches iff t > start or t < end; midnight matches when end > 0; neither bound matches |
| `Availability.DegenerateWindow` | server/internal/dynamodb/dynamodb.go:90-94 | a window with start == end matches every minute except start |
| `Availability.IsFishAvailable` | server/internal/dynamodb/dynamodb.go:97-108 | true exactly when some season lists the month and has a window that holds the time; false for no seasons or for seasons with no windows |
| `Availability.AvailableWitness` | server/internal/dynamodb/dynamodb.go:98-103 | one season that lists the month plus one of its windows that holds the time make the fish available, whatever the other seasons say |
| `CaughtMap.SplitOnCount` | server/internal/dynamodb/dynamodb.go:133 | splitting on '#' gives one more part than there are '#' characters |
| `CaughtMap.SplitOnJoin` | server/internal/dynamodb/dynamodb.go:133 | no part holds '#', and joining the parts with '#' gives the key back |
| `CaughtMap.SplitOnWithoutSeparator` | server/internal/dynamodb/dynamodb.go:133 | a key without '#' is a single part |
| `CaughtMap.SplitOnPrefix` | server/internal/dynamodb/dynamodb.go:133 | a '#'-free head followed by '#' splits off as the first part |
| `CaughtMap.FishIdOfKeptIffOneSeparator` | server/internal/dynamodb/dynamodb.go:133-134 | a record is kept exactly when its SK holds a single '#' |
| `CaughtMap.FishIdOfShape` | server/internal/dynamodb/dynamodb.go:133-135 | a kept SK is `<prefix>#<id>`, the id is the text after the '#', and neither side holds '#' |
| `CaughtMap.FishIdOfAnyPrefix` | server/internal/dynamodb/dynamodb.go:132-135 | any '#'-free prefix is accepted: `<prefix>#<id>` yields `id` (the "FISH" prefix is not checked) |
| `CaughtMap.GetUserCaughtFishMap` | server/internal/dynamodb/dynamodb.go:122-138 | the loop builds the record-by-record map (later records overwrite); every key comes from some record's SK |
| `CaughtMap.CaughtMapKeys` | server/internal/dynamodb/dynamodb.go:122-138 | an id is a key of the map exactly when some record's SK names it; records with other shapes are skipped |
| `CaughtMap.CaughtMapLastWins` | server/internal/dynamodb/dynamodb.go:134-137 | the value stored under an id is the Caught flag of the last record that names that id |
| `Listing.ListAvailableFish` | server/internal/dynamodb/dynamodb.go:164-180 | the loop returns the catalog filtered by the chosen hemisphere's availability, each kept fish's caught flag set from the map; never longer than the catalog |
| `Listing.ResolveIsOrderedFilter` | server/internal/dynamodb/dynamodb.go:164-178 | the output's k-th entry is the catalog entry at the k-th matching position with only `caught` replaced; positions increase; a position is listed iff that fish matches |
| `Listing.ResolveSound` | server/internal/dynamodb/dynamodb.go:173-176 | every listed fish is a matching catalog entry that differs only in `caught`; its `caught` is true exactly when its id is a key of the caught map whose value is true, so an absent id gives false |
| `Listing.ResolveComplete` | server/internal/dynamodb/dynamodb.go:165-177 | every matching catalog entry is listed with its caught flag set |
| `Listing.UnknownHemisphereIsSouth` | server/internal/dynamodb/dynamodb.go:166-171 | any hemisphere string other than "north" gives the same listing as "south"; there is no error |
| `Listing.AllDayWindowListed` | server/internal/dynamodb/dynamodb.go:84-108 | a fish with a season listing the month and the 00:00–23:59 window is listed at every minute strictly between the two bounds |
| `Examples.SnappingTurtleWindow` | server/cmd/web/seed/main.go:333-340 | 21:00–04:00 matches 23:59, 00:00 and 03:59 but not 21:00, 04:00 or 20:59 |
| `Examples.ResolveSingle` | server/internal/dynamodb/dynamodb.go:165-177 | a one-fish catalog lists that fish, with its flag set, exactly when it matches |
| `Examples.BitterlingScenario` | server/cmd/web/seed/main.go:25-49 | Bitterling is listed north in February and south in June (with a stored caught flag), and not north in June |
| `Examples.BitterlingMissesMidnight` | server/cmd/web/seed/main.go:33-40 | Bitterling's 00:00–23:59 window does not list it at 00:00 or at 23:59 in January |
| `Examples.PiranhaTwoWindows` | server/cmd/web/seed/main.go:1032-1040 | with two windows in one season, Piranha is available in July at 12:00 and 01:00 but not at 18:00 |
| `Examples.CherrySalmonTwoSeasons` | server/cmd/web/seed/main.go:683-696 | across two seasons, Cherry Salmon is available in April evenings and all day in October, but not at April noon nor in August |
| `Examples.FishKeyKept` | server/internal/dynamodb/dynamodb.go:132-136 | the key "FISH#1-bitterling" names "1-bitterling" |
| `Examples.OtherPrefixKept` | server/internal/dynamodb/dynamodb.go:133-136 | the key "X#40-piranha" names "40-piranha": the prefix is not checked |
| `Examples.MalformedKeysSkipped` | server/internal/dynamodb/dynamodb.go:133-134 | the keys "FISH#A#B" and "FISH" name no fish |
| `Examples.LaterRecordOverwrites` | server/internal/dynamodb/dynamodb.go:134-137 | for records naming a, b, a and two unkeyed records, the map holds the later flag for a and b's flag |
| `Examples.CaughtMapScenario` | server/internal/dynamodb/dynamodb.go:122-138 | five concrete records give exactly {"1-bitterling": false, "40-piranha": true} |

## Left out

- DynamoDB access (`Scan`, `Query`, `GetItem`, `UpdateItem`, and `PutItem` in the seed program) is network I/O through the AWS SDK. The model takes the scanned catalog and the queried records as input sequences. It also leaves out the error returns of these calls (dynamodb.go:118-120, 148-150, 159-161).
- `GetUserProfile` and `UpdateUserHemisphere` (dynamodb.go:29-73) are single storage calls with no logic of their own.
- Attribute marshalling (`UnmarshalMap`, `UnmarshalListOfMaps`, `MarshalMap`) is reflection-driven library code. Its failure returns at dynamodb.go:128-130 and dynamodb.go:153-155 are not modelled.
- Time parsing with `time.Parse` (dynamodb.go:85-88) is left out. Its errors are discarded, and an unparseable string becomes Go's zero time. Times enter the model as well-formed `Minute` values. This hides one behaviour: the handler passes the raw `time` query string on unchecked (handlers.go:136, 144), and a missing or malformed time becomes the zero time, which is after every parsed time. With such a time the code lists every fish whose month matches a season that has an overnight or `start == end` window, and no fish through a same-day window alone. A malformed window bound in the catalog also becomes the zero time, with a different effect: a malformed start makes the window match exactly the times before its end, a malformed end makes it match exactly the times after its start, and a window with both bounds malformed matches every well-formed time.
- The HTTP handlers, sessions, Cognito, templates, configuration and the Lambda are left out. Only the month guard of handlers.go:138-142 is carried over, as the precondition of `ListAvailableFish`.
- The seed program's insert loop is left out. Its data appear only as the witnesses in `Examples`.
- `Listing.ListAvailableFish` returns an empty sequence where Go returns a nil slice when nothing matches. Dafny has no such distinction.
