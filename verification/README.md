# Crop-circle tracker: sighting reconciliation, update window, request validation

This project models the pure-logic core of the crop-circle tracker server.
Players report which location a world's crop circle is at. The circle visits
18 locations in a fixed cycle, fifteen minutes each, so one rotation lasts
16200 seconds. The server:

- turns each sighting into a *section* of that rotation ring. A section is a
  half-open arc of 1800 seconds around the moment the circle should next
  reach location 0 (`Sections`, `Sightings`);
- folds a world's sightings newest first with `Section.combine` (an
  intersection of arcs). At the first inconsistent sighting, it and every
  older sighting become *old* (`Sightings.SeparateSightings`);
- projects the accepted sightings onto a probability distribution over the
  locations (`Likelihoods.GetLikelihoods`);
- tells whether the current time lies within thirty minutes of the weekly game
  update, Wednesdays at 11:30 (`GameUpdates`);
- validates the body of a posted sighting (`Validators.ValidatePost`).

Modules:

- `Ring`: ring constants, the location table and floor-mod arithmetic.
- `Sections`: `Section`, `combine`, and the intersection it is meant to compute.
- `Sightings`: sections of sightings, the newest-first sort and the
  reconciliation fold.
- `Likelihoods`: `get_likelihoods`.
- `GameUpdates`: `last_update_dt` and `in_update_period`.
- `Validators`: `validate_post`.
- `Wrappers`: `Option` and `Result`, standing in for `None` and for raised
  exceptions.

The modelling choices:

- Times are integer seconds. The current time is a parameter `now`.
- For the weekly update, `t = 0` is a Monday 00:00 in naive local wall-clock
  time, so `t / 86400 % 7` is Python's `weekday()`.
- Python's `%` with a positive divisor is Dafny's `%`.
- `int(x / 900)`, which truncates toward zero, is written out as `TruncDiv`.
- Probabilities are reals.

## Model

| member | source | states |
|---|---|---|
| Ring.LocationTable | server/constants.py:6-25 | the location table's keys are exactly the location numbers 0..17 |
| Ring.RotationLength | server/likelihoods.py:34 | the table has 18 entries, and the ring length 16200 is their number times fifteen minutes |
| Ring.Wrap | server/likelihoods.py:37-38 | floor-mod by the ring length lands on the ring and is congruent to its input, negative inputs included |
| Sections.MakeSection | server/likelihoods.py:36-38 | the constructor normalises both endpoints onto the ring, congruent to the given ones |
| Sections.Combine | server/likelihoods.py:40-63 | combine raises exactly when, measured forward from self's start, both of other's endpoints lie at or past self's end |
| Sections.CombineIsIntersection | server/likelihoods.py:40-63 | for sections shorter than half the ring, a successful combine contains a point iff both sections contain it |
| Sections.CombineInsideSelf | server/likelihoods.py:52-58 | for short sections, a successful combine lies inside self (0 <= start <= end <= self's span in self's frame) and is no longer than self |
| Sections.CombineSelf | server/likelihoods.py:40-63 | combining a non-empty section with itself gives back the same start and end |
| Sections.CombineFailsOnlyWhenEnclosed | server/likelihoods.py:52-60 | when combine raises on two overlapping short sections, other contains all of self and wraps past self's start in self's frame |
| Sections.CombineIntended | server/likelihoods.py:41-43 | the corrected combine never returns an empty section |
| Sections.IntendedIsIntersection | server/likelihoods.py:41-43 | for short sections the corrected combine succeeds whenever the sections share a point, and then returns exactly their common part |
| Sections.CombineRejectsEnclosingSection | server/likelihoods.py:52-60 | combine raises on [800,1800) with [400,2200), although both contain 1000; the corrected combine returns [800,1800) |
| Sections.CombineAcceptsTouchingSections | server/likelihoods.py:55-58 | combine returns the empty section [900,900) for [900,2700) with [15300,900), which share no point; the corrected combine raises |
| Sightings.SecondsUntilLocationZero | server/likelihoods.py:102 | the wait is under one rotation and brings the sighting's location slot round to location 0 |
| Sightings.SightingSection | server/likelihoods.py:102-106 | a sighting's section spans 1800 seconds, is centred on the predicted arrival at location 0, and is shorter than half the ring |
| Sightings.InsertNewestFirst | server/likelihoods.py:99 | inserting into a newest-first list keeps it newest first and adds exactly the one sighting |
| Sightings.SortNewestFirst | server/likelihoods.py:99 | the sort is newest first and a permutation of its input |
| Sightings.Separate | server/likelihoods.py:99-116 | the loop splits its input into new followed by old, nothing lost, and the first sighting is always new |
| Sightings.AccumulateAppend | server/likelihoods.py:107-114 | folding a concatenation folds the first part, then the rest from where it stopped |
| Sightings.SeparateKeepsLongestConsistentRun | server/likelihoods.py:99-116 | the new sightings fold without an inconsistency, and if there are old ones, folding one more sighting fails |
| Sightings.LongerRunsAreInconsistent | server/likelihoods.py:110-116 | once a sighting fails to combine, folding any longer prefix fails too, so no later sighting is combined |
| Sightings.AccumulateStaysShort | server/likelihoods.py:102-111 | every running section of the fold is shorter than half the ring, so combine's standing assumption always holds |
| Sightings.SeparateSightings | server/likelihoods.py:90-117 | new then old is the input sorted newest first as a permutation; empty input gives two empty lists; otherwise the most recent sighting is new |
| Sightings.SeparateSightingsIntended | server/likelihoods.py:90-117 | the same split with the corrected combine is also a newest-first permutation and keeps the most recent sighting |
| Sightings.OldestTrueSightingDiscarded | server/likelihoods.py:99-116 | three true sightings (loc 0 at 17900, loc 17 at 16200, loc 16 at 15700): the server makes the oldest old, the corrected combine keeps all three |
| Likelihoods.TruncDiv | server/likelihoods.py:128 | `int(a / b)` brackets `a` between consecutive multiples of `b`, from below for a >= 0 and from above for a < 0 |
| Likelihoods.MomentOf | server/likelihoods.py:126-128 | seconds since the moment are in [0, 900), its location is in [0, 18), and for non-negative elapsed time elapsed = periods * 900 + seconds with location = (sighting location + periods) mod 18 |
| Likelihoods.Moments | server/likelihoods.py:125-131 | one moment per sighting, in order |
| Likelihoods.FirstLowest | server/likelihoods.py:135 | the head after the stable sort by seconds: a minimum, and the first one |
| Likelihoods.Highest | server/likelihoods.py:148 | the last after the sort: the largest seconds value, attained by some moment |
| Likelihoods.DistinctLocations | server/likelihoods.py:141-142 | more than one distinct location iff the moments do not all name the same location |
| Likelihoods.UnknownWindow | server/likelihoods.py:149 | the unknown window is in (0, 900] and at least the lowest seconds value |
| Likelihoods.GetLikelihoods | server/likelihoods.py:120-157 | every key is a location, every probability is in [0, 1], and they sum to 1 |
| Likelihoods.Project | server/likelihoods.py:141-155 | the same bounds for the projection of any valid, non-empty list of moments |
| Likelihoods.HighestIsValid | server/likelihoods.py:148 | the largest seconds value is itself under fifteen minutes |
| Likelihoods.DisagreementPicksMostRecent | server/likelihoods.py:142-145 | when the sightings disagree, the result is probability 1.0 at the location of a moment with the fewest seconds |
| Likelihoods.AgreementSplitsOverUnknownWindow | server/likelihoods.py:146-155 | when the sightings agree, the result is the split between that location and the next, driven by the lowest and highest seconds |
| Likelihoods.LoneSighting | server/likelihoods.py:126-155 | a lone sighting gives its moment's location and the next, with P(next) * 900 = seconds since the moment |
| Likelihoods.Certain | server/likelihoods.py:143-145 | one key, with probability 1.0, summing to 1 |
| Likelihoods.Split | server/likelihoods.py:147-155 | keys are the location and its successor mod 18; P(next) * window = lowest seconds; P(here) = 1 - P(next); both in [0, 1], summing to 1 |
| Likelihoods.Fraction | server/likelihoods.py:152-154 | the quotient of a part by a positive whole is in [0, 1] and times the whole gives the part back |
| Likelihoods.SumOne | server/likelihoods.py:143-145 | a one-location distribution's total is its single probability |
| Likelihoods.SumTwo | server/likelihoods.py:150-155 | a two-location distribution's total is the sum of its two probabilities |
| GameUpdates.UpdateInstantPhase | server/game_updates.py:9-10 | an instant is a Wednesday at 11:30 iff it lies 2 days and 11:30 into its week |
| GameUpdates.UpdateInstantWeekly | server/game_updates.py:9-10 | shifting by whole weeks keeps an update instant an update instant, and a non-update instant not one |
| GameUpdates.WeekdayBack | server/game_updates.py:33 | stepping back d days steps the weekday back by d modulo 7 |
| GameUpdates.DaysSinceUpdate | server/game_updates.py:21-31 | days_since_update is in [0, 7] and lands on a Wednesday; it is 0 only at or after 11:30 and 7 only before 11:30 |
| GameUpdates.LastUpdate | server/game_updates.py:15-33 | the last update is a Wednesday at 11:30, at or before now, and less than one week before it |
| GameUpdates.LastUpdateUnique | server/game_updates.py:15-33 | any update instant in the week ending at now is the last update |
| GameUpdates.SecondsSinceLastUpdate | server/game_updates.py:42 | in [0, one week), and now minus it is an update instant |
| GameUpdates.SecondsUntilNextUpdate | server/game_updates.py:43 | in (0, one week], now plus it is an update instant, and it adds up with the time since the last update to exactly one week |
| GameUpdates.InUpdatePeriod | server/game_updates.py:36-50 | in_update_period holds iff now is within 1800 seconds, before or after, of some Wednesday-11:30 instant |
| GameUpdates.GraceChecksNearUpdate | server/game_updates.py:44-50 | the check "at most 1800 s since the last update" or "at most 1800 s until the next" holds iff some Wednesday-11:30 instant is within 1800 seconds either side of now |
| Validators.ValidatePost | server/validators.py:8-20 | on success the keys are exactly world and location, both integers, returned unchanged, with 300 <= world < 600 and location in 0..17 |
| Validators.FirstFailingCheckDecides | server/validators.py:8-20 | accepted iff no check rejects the request, returning world and location; otherwise the error is a failing check and no failing check precedes it in the order keys, world type, location type, world, location |
| Validators.AcceptsWellFormed | server/validators.py:8-20 | a request with exactly an in-range integer world and location is accepted and returns them |
| Validators.MessageIdentifiesCheck | server/validators.py:9-19 | the five error messages are pairwise distinct, so the message tells which check failed |

## Left out

- The asynchronous `recalculate` and `get_sightings` in server/likelihoods.py are left out: database reads, deletes and JSON. So are server/database.py, server/endpoints.py, main.py and the scheduler.
- `recalculate` and `purge_sightings` in server/game_updates.py are left out: they only write the cache and the database.
- server/authentication.py and server/log_config.py are left out: a string compare and configuration data.
- Clock reads and timestamp parsing (`datetime.now()`, `fromisoformat`, `timestamp()`) are left out. Times are integer-second parameters.
- The Europe/London timezone, DST and sub-second precision are left out. Fractional seconds and the float `total_seconds()` are not modelled.
- Float rounding of the probabilities is left out; they are reals.
- The server-lag constants in server/constants.py:36-37 are left out, because no modelled code uses them.
- `Sighting.__repr__` and the location names' strings are not used beyond the table's keys.
- `server.locations`, which server/likelihoods.py imports, is not part of this model. The table in server/constants.py:6-25 stands in for it.
- Likelihoods.GetLikelihoods: requires a non-empty list. On an empty list the server raises `IndexError`, and `recalculate` only ever passes it a non-empty list.
- Likelihoods.MomentOf: the period decomposition is stated only for a non-negative elapsed time. For a sighting dated after `now`, only the bounds are stated, though `TruncDiv` models the truncation exactly.
- Sightings.SortNewestFirst: the stability of Python's sort (equal times keep their input order) is not stated, only order and permutation.
- Sections.CombineIsIntersection: like the other combine lemmas, it assumes both sections are shorter than half the ring, as the `Section` docstring does. Sightings.AccumulateStaysShort shows the fold keeps to that.
- Validators.ValidatePost: any non-integer JSON value is one `OtherValue`. Python's bool-is-int quirk and non-object request bodies are not modelled.

## Findings

| source | as written | input that shows it | evidently intended | confidence | as-written member | corrected member |
|---|---|---|---|---|---|---|
| server/likelihoods.py:52-60 | in self's frame, combine raises when other starts at or past self's end and also ends at or past it, including when other wraps round past 0 and encloses self | `Section(800, 1800).combine(Section(400, 2200))` raises, though both contain 1000. The true sightings (location 0 at 17900, 17 at 16200, 16 at 15700) make the oldest one old | return the overlap, here `[800, 1800)`, and raise only when the sections share no point, as the docstring says | not executed; high | Sections.CombineRejectsEnclosingSection, Sightings.OldestTrueSightingDiscarded (on Sections.Combine) | Sections.IntendedIsIntersection (on Sections.CombineIntended, used by Sightings.SeparateSightingsIntended) |
| server/likelihoods.py:55-58 | case B accepts other ending exactly at self's start, and returns the empty section `[a, a)` | `Section(900, 2700).combine(Section(15300, 900))` returns `Section(900, 900)` | raise `InconsistentSections`, since half-open sections that only touch share no point | not executed; high | Sections.CombineAcceptsTouchingSections (on Sections.Combine) | Sections.IntendedIsIntersection and Sections.CombineIntended, which never returns an empty section |

Also in case B, the inner test `other_start < other_end` (server/likelihoods.py:57) is always false. Case A failing gives `other_start >= end > other_end`, so the start is always 0.
