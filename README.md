# hetzner-snap-and-rotate, the rotation core in Dafny

hetzner-snap-and-rotate snapshots Hetzner Cloud servers and rotates their
snapshots. Each configured server keeps, for every rotation period
(quarter-hourly, hourly, daily, weekly, monthly, yearly), the newest snapshot
of each of the last `count` periods. Every other snapshot of the server is
deleted. The enumeration also has a quarter-yearly period, but the
configuration has no `quarter_yearly` count (`config.py:37-43`), so that count
reads as 0 (`__main__.py:47`) and no snapshot is ever kept for it
(`Rotation.NoQuarterYearlySlots`). This project models the decision logic behind that, and
proves what it decides:

- `Periods` (`periods.py`): the seven `previous_*` functions on calendar
  instants (proleptic Gregorian, microsecond resolution), the `Period`
  enumeration, and `previous_periods` as a sequence of bucket starts.
- `Snapshots` (`snapshots.py`): a snapshot record whose identity is its id, and
  `most_recent`, the newest snapshot created in a half-open interval.
- `Rotation` (`__main__.py`, lines 43-58): the loops that compute `to_delete`
  and `to_rename`. These are the method `Rotate` and its inner loop
  `RotatePeriod`. `Rotate` is proved equal to the specification function
  `Decisions`; `RotatePeriod` is proved equal to one period's step of it,
  `RecordPicks` over that period's bucket picks. The lemmas below say what
  `Decisions` means.
- `Config` (`config.py`): `Server.apply_default` as a method that fills in the
  unset settings, `Config.__post_init__` as the loop over the configured
  servers, and `of_server`. Settings are a map from attribute to value, and an
  attribute that is absent from the map is `None`.
- `Servers` (`servers.py`, lines 130-148): `load_configured_servers` after the
  servers and images are loaded. These are classes with mutable fields, the
  backward pop loop and the image grouping loop.
- `Api` (`api.py`, lines 25-35): `sanitize_timestamps`. The regular expression
  is modelled as a scanner that follows how the regex engine matches and
  backtracks. Every match is padded to six fractional digits.
- `Wrappers`: the `Option` type, which stands for Python's `None`.

The clock, the network and the Hetzner API are not modelled. The current
instant `now`, the list of servers and the image list are parameters.

## Model

| member | source | states |
|---|---|---|
| Periods.PreviousQuarterHour | src/hetzner_snap_and_rotate/periods.py:9-11 | the result starts a quarter-hour (minute 0, 15, 30 or 45, second and microsecond 0) and lies at least one second before `t` |
| Periods.PreviousHour | src/hetzner_snap_and_rotate/periods.py:14-16 | the result starts an hour and lies at least one second before `t` |
| Periods.PreviousDayStart | src/hetzner_snap_and_rotate/periods.py:19-21 | the result is a midnight at least one second before `t` |
| Periods.PreviousWeek | src/hetzner_snap_and_rotate/periods.py:24-27 | the result is a Monday midnight at least one second before `t` |
| Periods.PreviousMonth | src/hetzner_snap_and_rotate/periods.py:30-32 | the result is the first of a month at midnight, at least one second before `t` |
| Periods.PreviousQuarterYear | src/hetzner_snap_and_rotate/periods.py:35-37 | the result is January, April, July or October 1 at midnight, at least one second before `t` |
| Periods.PreviousYear | src/hetzner_snap_and_rotate/periods.py:40-42 | the result is January 1 at midnight, at least one second before `t` |
| Periods.QuarterHourStart | src/hetzner_snap_and_rotate/periods.py:11 | `(minute // 15) * 15` is the multiple of 15 at or below the minute, less than 15 below it |
| Periods.QuarterStart | src/hetzner_snap_and_rotate/periods.py:37 | `((month - 1) // 3) * 3 + 1` is the first month of the quarter holding the month: 1, 4, 7 or 10, at most 2 months earlier |
| Periods.WeekStart | src/hetzner_snap_and_rotate/periods.py:26-27 | going back `weekday()` days and truncating to midnight gives a Monday no later than `t - 1s` |
| Periods.Index | src/hetzner_snap_and_rotate/periods.py:44-50 | each member sits at its own position in the declaration order QUARTER_HOURLY … YEARLY |
| Periods.PreviousPeriod | src/hetzner_snap_and_rotate/periods.py:44-50 | a member's `previous_period` always returns an instant at least one second before its argument, so strictly earlier |
| Periods.PreviousPeriodIsBoundary | src/hetzner_snap_and_rotate/periods.py:9-50 | every member's `previous_period` returns the start of a period of that kind |
| Periods.PreviousPeriodIsLatestBoundary | src/hetzner_snap_and_rotate/periods.py:9-42 | no period start of that kind lies between the result and `t - 1s`: the result is the latest start at least a second before `t` |
| Periods.PreviousPeriodOfBoundary | src/hetzner_snap_and_rotate/periods.py:10-16 | an argument that is itself a period start maps to the preceding start, not to itself, and no earlier start is skipped |
| Periods.PreviousPeriods | src/hetzner_snap_and_rotate/periods.py:57-60 | exactly max(count, 0) starts are yielded; a count of 0 or less yields none |
| Periods.PreviousPeriodsChain | src/hetzner_snap_and_rotate/periods.py:57-60 | the first yielded start is `previous_period(start)`, and each later one is `previous_period` of the one before |
| Periods.PreviousPeriodsDecrease | src/hetzner_snap_and_rotate/periods.py:58-60 | the yielded starts lie before `start` and strictly decrease |
| Periods.PreviousPeriodsAreBoundaries | src/hetzner_snap_and_rotate/periods.py:57-60 | every yielded value is a period start of the member's kind |
| Periods.QuarterHoursBeforeMidnight | tests/test_periods.py:11-15 | three quarter-hours back from 2024-03-01 00:20 are 00:15, 00:00 and 2024-02-29 23:45 |
| Periods.HourOnBoundary | tests/test_periods.py:16-21 | hourly from 01:00 gives 00:00, not 01:00; a count of 0 gives nothing |
| Periods.DaysBackAcrossLeapDay | tests/test_periods.py:22-26 | days back from 2024-03-01 02:20 pass through the leap day 2024-02-29 |
| Periods.WeeksBackFromFriday | tests/test_periods.py:27-30 | weeks back from Friday 2024-03-01 give Mondays 2024-02-26 and 2024-02-19 |
| Periods.MonthsBackAcrossNewYear | tests/test_periods.py:31-35 | months back from 2024-01-31 give 2024-01-01, 2023-12-01 and 2023-11-01 |
| Periods.QuartersBackAcrossNewYear | tests/test_periods.py:36-38 | quarters back from 2024-01-31 give 2024-01-01, then 2023-10-01 |
| Periods.YearsBackFromLeapDay | tests/test_periods.py:43-45 | years back from 2024-02-29 give 2024-01-01, then 2023-01-01 |
| Snapshots.NewestSpec | src/hetzner_snap_and_rotate/snapshots.py:117-123 | the filter and the reverse sort find nothing exactly when no snapshot lies in (lo, hi]; otherwise the result is a listed snapshot in (lo, hi] that nothing in (lo, hi] is newer than |
| Snapshots.MostRecentSpec | src/hetzner_snap_and_rotate/snapshots.py:113-123 | `most_recent` returns `None` exactly when no snapshot lies between the endpoints (lower bound exclusive, upper inclusive, in either order); otherwise one that lies between them, from the list, with none between them newer |
| Snapshots.MostRecent | src/hetzner_snap_and_rotate/snapshots.py:113-123 | `most_recent`: the endpoints are ordered, then the head of the stable reverse sort of the filtered list; `MostRecentSpec`, `MostRecentSymmetric` and `MostRecentPrefersEarliest` state that it is `None` exactly for an empty interval, otherwise the first newest snapshot between the endpoints, whichever order they come in |
| Snapshots.MostRecentSymmetric | src/hetzner_snap_and_rotate/snapshots.py:114-115 | swapping `start` and `end` gives the same result |
| Snapshots.MostRecentPrefersEarliest | src/hetzner_snap_and_rotate/snapshots.py:117-123 | of several newest snapshots, the stable reverse sort returns the one earliest in list order |
| Snapshots.NewestPrefersEarliest | src/hetzner_snap_and_rotate/snapshots.py:117-120 | the same for the ordered interval (lo, hi] |
| Snapshots.MatchingMembers | src/hetzner_snap_and_rotate/snapshots.py:118 | the filtered list holds exactly the listed snapshots in (lo, hi] |
| Snapshots.FirstNewestIsFirstMaximum | src/hetzner_snap_and_rotate/snapshots.py:120 | the head of the stable reverse sort is a member that no member is newer than, and no member as new as it comes earlier in the list |
| Rotation.Rotate | src/hetzner_snap_and_rotate/__main__.py:43-58 | `to_rename` is the decision table `Decisions` of the snapshots, counts and `now`; `to_delete` is every other snapshot id; the two are disjoint and together hold every snapshot of the server |
| Rotation.RotatePeriod | src/hetzner_snap_and_rotate/__main__.py:49-58 | one period records the pick of each bucket in order, `p_end` advancing to each start even when the bucket is empty; `to_delete` stays the complement of the keys of `to_rename` |
| Rotation.ScheduleEntry | src/hetzner_snap_and_rotate/__main__.py:47-51 | row `q` holds `previous_periods(now, count)` of the `q`-th member, an absent count read as 0 |
| Rotation.RenameIsLastPick | src/hetzner_snap_and_rotate/__main__.py:46-56 | a snapshot is in `to_rename` exactly when some bucket of some period picks it; its entry comes from the last period in enum order that picks it, and from the last bucket of that period |
| Rotation.PositionsInRange | src/hetzner_snap_and_rotate/__main__.py:47-56 | every recorded `(p, p_num)` has 1 ≤ p_num ≤ count(p) |
| Rotation.BucketBounds | src/hetzner_snap_and_rotate/__main__.py:48-58 | bucket k is (s_k, s_{k-1}] with s_0 = now: its start is strictly before its end, and its end is no later than `now` |
| Rotation.BucketsDisjoint | src/hetzner_snap_and_rotate/__main__.py:49-58 | no snapshot lies in two buckets of one period |
| Rotation.PickInBucket | src/hetzner_snap_and_rotate/__main__.py:53 | a bucket picks nothing exactly when it holds no snapshot; otherwise it picks a snapshot in it that none in it is newer than |
| Rotation.PicksAreDistinct | src/hetzner_snap_and_rotate/__main__.py:49-58 | two buckets of one period never pick the same snapshot, nor, with unique ids, the same id |
| Rotation.DecidedIsPick | src/hetzner_snap_and_rotate/__main__.py:53-56 | the entry of a kept id names a bucket whose pick has that id |
| Rotation.KeptIsNewestOfBucket | src/hetzner_snap_and_rotate/__main__.py:48-56 | every kept snapshot is a snapshot of the server, lies in the bucket of its recorded position, and nothing in that bucket is newer |
| Rotation.DecideWithinIds | src/hetzner_snap_and_rotate/__main__.py:43-56 | only snapshots of the server are recorded |
| Rotation.NothingKeptWithoutCounts | src/hetzner_snap_and_rotate/__main__.py:47-51 | with every count 0 or absent, `to_rename` is empty, so every snapshot is deleted |
| Rotation.FutureSnapshotDeleted | src/hetzner_snap_and_rotate/__main__.py:48-55 | a snapshot created after `now` is never kept |
| Rotation.NoQuarterYearlySlots | src/hetzner_snap_and_rotate/__main__.py:47 | with counts read from a configuration, no snapshot is ever kept for the quarter-yearly period |
| Config.Server.ApplyDefault | src/hetzner_snap_and_rotate/config.py:50-56 | each unset attribute takes the default's value and each set one is kept; the name is unchanged; `ValueError` is raised exactly when, after merging, `create_snapshot` is truthy and `snapshot_name` is `None` or empty, with the message naming the server |
| Config.Config.PostInit | src/hetzner_snap_and_rotate/config.py:68-71 | in dictionary order each server is named after its key and then merged; the loop stops at the first refused server with its error; the servers before it are merged and accepted, and the ones after it are untouched |
| Config.Config.OfServer | src/hetzner_snap_and_rotate/config.py:193-197 | the server stored under the name when there is one, else `None` |
| Config.MergedIsPointwise | src/hetzner_snap_and_rotate/config.py:51-53 | settings that agree attribute by attribute with "own value if set, else the default's" are the merge |
| Config.MergeKeepsSet | src/hetzner_snap_and_rotate/config.py:51-53 | an attribute that was not `None` is left as it was |
| Config.MergeFillsUnset | src/hetzner_snap_and_rotate/config.py:52-53 | an attribute that was `None` reads as the default's value afterwards, `None` included |
| Config.MergeWithoutDefaults | src/hetzner_snap_and_rotate/config.py:53 | without a `defaults` section nothing changes |
| Config.MergeIdempotent | src/hetzner_snap_and_rotate/config.py:51-53 | merging twice with the same defaults is merging once |
| Config.MergeIsOverlay | tests/test_config.py:81-90 | the merged server is the defaults overlaid with the server's explicitly set fields |
| Config.RefusedIff | src/hetzner_snap_and_rotate/config.py:55 | refusal depends only on the merged `create_snapshot` and `snapshot_name`, each the server's own value when set and the default's otherwise |
| Config.CountAttrByName | src/hetzner_snap_and_rotate/config.py:29-43 | the count a period reads is the attribute named after its `config_name`; `quarter_yearly` names no attribute |
| Config.NoQuarterYearlyCount | src/hetzner_snap_and_rotate/config.py:37-43 | no configuration supplies a quarter-yearly count |
| Config.PeriodCountAttr | src/hetzner_snap_and_rotate/config.py:38-43 | every other period count is the integer stored under its attribute, and absent when that attribute is `None` |
| Servers.LoadConfiguredServers | src/hetzner_snap_and_rotate/servers.py:130-148 | the list keeps exactly the servers whose name is configured, in their original order; each kept server has its `of_server` entry and the images created from it; a dropped server is left as it was |
| Servers.KeepConfigured | src/hetzner_snap_and_rotate/servers.py:131-142 | the backward pop loop keeps exactly the configured servers in order, without going out of bounds; each kept server gets its configuration and an empty snapshot list; `servers_by_id` indexes the kept servers |
| Servers.AttachImages | src/hetzner_snap_and_rotate/servers.py:144-146 | every kept server's list is the images created from it, in image order, when it is the server `servers_by_id` holds for its id |
| Servers.KeptMembers | src/hetzner_snap_and_rotate/servers.py:133-142 | a server stays exactly when it was listed and its name is configured |
| Servers.IndexByIdValues | src/hetzner_snap_and_rotate/servers.py:131-140 | `servers_by_id` holds exactly the ids of the kept servers, each mapped to a kept server with that id |
| Servers.IndexByIdFirst | src/hetzner_snap_and_rotate/servers.py:133-140 | because the loop runs backwards, `servers_by_id` holds, for each id, the first server in list order with it |
| Servers.ImagesFromMembers | src/hetzner_snap_and_rotate/servers.py:145-146 | an image joins server `id`'s list exactly when it was created from that server |
| Servers.UnattachedImage | src/hetzner_snap_and_rotate/servers.py:144-146 | an image whose `created_from` id belongs to no kept server is attached nowhere |
| Servers.AttachedWithUniqueIds | src/hetzner_snap_and_rotate/servers.py:144-146 | when server ids are unique, every kept server gets exactly the images created from it |
| Api.Match | src/hetzner_snap_and_rotate/api.py:27 | a match has at most five fractional digits and is followed by at least one more character |
| Api.MatchIff | src/hetzner_snap_and_rotate/api.py:25-27 | the pattern matches with k fractional digits exactly when the text starts with the quoted date and time, k ≤ 5 digits follow, the next character is not a digit, and `Z"` or `±hh:mm"` comes next |
| Api.BacktrackInsideRun | src/hetzner_snap_and_rotate/api.py:27 | giving back digits of a digit run never makes the look-ahead hold |
| Api.SixDigitsNoMatch | src/hetzner_snap_and_rotate/api.py:25-27 | a timestamp that already has six fractional digits is not matched |
| Api.Tokens | src/hetzner_snap_and_rotate/api.py:27-35 | the left-to-right scan of `timestamp_pattern.sub`: leftmost match consumed, scan resumed after it, any other character copied; `TokensRoundTrip` and `StampsArePadded` state that the pieces concatenate back to the text and that every match has at most five fractional digits |
| Api.Sanitize | src/hetzner_snap_and_rotate/api.py:31-35 | `sanitize_timestamps`; `SanitizeRendersTokens`, `SanitizeAddsZeros`, `NoMatchInOutput`, `UnchangedWithoutMatch` and `SanitizeIdempotent` state that it appends `6 - k` zeros to each match and copies everything else, leaves no short timestamp behind, returns match-free text unchanged and is idempotent |
| Api.TokensRoundTrip | src/hetzner_snap_and_rotate/api.py:35 | the scan splits the text into matches and copied characters, whose sources in order are the text |
| Api.StampsArePadded | src/hetzner_snap_and_rotate/api.py:32-33 | every match has at most five fractional digits, and `add_zeroes` turns it into a 27-character timestamp with exactly six |
| Api.SanitizeRendersTokens | src/hetzner_snap_and_rotate/api.py:32-35 | the output is each piece of the scan in order, with zeros appended to the matches only |
| Api.JoinRender | src/hetzner_snap_and_rotate/api.py:33 | appending the zeros adds exactly the total padding in length, and only `'0'` characters |
| Api.SanitizeAddsZeros | src/hetzner_snap_and_rotate/api.py:33-35 | the output is the input plus the sum of (6 − k) over the matches in length, and the added characters are all `'0'` |
| Api.NoMatchInOutput | src/hetzner_snap_and_rotate/api.py:27-33 | the output contains no timestamp with fewer than six fractional digits anywhere |
| Api.UnchangedWithoutMatch | src/hetzner_snap_and_rotate/api.py:27-35 | a text with no match anywhere, including one whose timestamps already have six digits, comes back unchanged |
| Api.SanitizeIdempotent | src/hetzner_snap_and_rotate/api.py:27-35 | sanitizing twice is sanitizing once |
| Api.ExamplePadded | src/hetzner_snap_and_rotate/api.py:30-35 | `"2024-03-01T12:30:00.5Z"` becomes `"2024-03-01T12:30:00.500000Z"` |

## Left out

- HTTP, paging, polling and timeouts (`api.py` from line 38 on, and the remote calls in `servers.py` and `snapshots.py`) are network I/O. The loaded servers and images are parameters.
- Creating, renaming and deleting snapshots, the rename and delete loops of `__main__.py` (lines 61-77) and their exception handling are remote calls. The model stops at the two collections those loops consume.
- The power sequence of `Server.power` is not part of this model. It is I/O driven.
- `Config.read_config`, argument parsing, environment variables, stdin, the module-level `config` instance, and JSON (de)serialisation are input parsing. The model starts from the parsed configuration. Setting values are assumed to have their declared types.
- Logging is output only.
- Clocks and time zones: `now` is one instant passed in. The source reads the clock again for each period when no snapshot was just created (`__main__.py:48`). With a single `now` the model treats the seven periods as if that read had not moved. Time zones and daylight saving time are not modelled. Instants are naive calendar values.
- Sliding periods are not modelled. `previous_periods` takes two arguments (`periods.py:57`). The three-argument call at `__main__.py:51` would raise `TypeError`. The model follows the two-argument definition.
- Periods.PreviousPeriod: years are unbounded. The `OverflowError` that Python raises below year 1 is not modelled.
- Api.Match: `\d` is restricted to ASCII digits. Python's `str` patterns also match other Unicode decimal digits.
- An image's `created_from` is the id of the server it was taken of, not the server object. Only its id is read (`servers.py:145`).
- Equality and hashing of snapshots by `id` alone (`snapshots.py:15-21`) has no separate member. Every set and dictionary of snapshots in the model is keyed by the snapshot id, which is that identity.
- The message of the `ValueError` in `config.py:56` reads "No snapshot name specified", while `tests/test_config.py:70` expects "No snapshot name pattern specified". The model follows the code.
- `Config.Defaults` has no `quarter_yearly` attribute (`config.py:37-43`), and `getattr(..., 0) or 0` at `__main__.py:47` then reads 0. The model keeps this behaviour as written (see `Rotation.NoQuarterYearlySlots`).
