# ec2-purge-snapshots: retention classifier

This project models the decision core of `ec2-purge-snapshots.rb`, a
script that prunes the EBS snapshots of one or more volumes under a tiered
policy. It keeps every snapshot whose age in whole hours is at most
`--hours`. Beyond that it keeps one snapshot per day for `--days`, one per
week for `--weeks`, and one per month after that. The newest snapshot of a
volume is never deleted.

The model covers the parts of the script that make decisions:

- the two derived thresholds, `START_WEEKS_AFTER` and `START_MONTHS_AFTER`;
- the `completed` filter on the listing;
- the choice of volumes, where the single argument `all` stands for every volume id seen, deduplicated;
- each volume's snapshots, sorted by start time;
- the per-volume loop carrying `prev_start_date`, `delete_count` and `keep_count`;
- the `volume_counts` table;
- the sequence of `delete_snapshot` calls the run issues.

Modules:

- `Calendar`: integer calendar arithmetic. It replaces the three `strftime` renderings the rules use (`%Y-%m-%d`, `%w`, `%Y-%m`). Instants are epoch seconds and the local zone is a fixed offset from UTC. Dates follow the era-based proleptic Gregorian conversion. The module proves the round trip between days and dates, and that a calendar month is an unbroken run of days.
- `Rules`: the policy and the clock, the thresholds, age in whole hours, the tier of an age, and the bucket key (`start_date_str`).
- `Grouping`: snapshots, the `completed` filter, the per-volume selection and sort, `uniq` and the volume selection.
- `Retention`:
  - `Walk` is the specification of the per-volume loop, written as a function over the sorted snapshots.
  - `PurgeVolume` is the loop itself, written as a method.
  - The module also holds the properties of the verdicts and the tallies.
- `Purge`: the run over all volumes. `PurgeVolumes` is the loop over the volumes. `PurgeSnapshots` is the whole run, including the "No snapshots found" exit.

The outcome of a `delete_snapshot` call is a parameter: a set `failing` of ids whose call raises `AWS::Error`. In noop mode no call is made, and the deletion is still counted in `delete_count`, as the script does.

Points about the script worth knowing:

- The script has no cutoff date. A snapshot whose key was already kept is deleted however old it is, unless it is the newest.
- The script has no tag grouping. Groups are volumes only.
- `--months` is parsed and required, but no decision reads it (`Retention.MonthsNeverMatter`).
- Negative thresholds are not rejected.
- The day and the week tiers both render keys as `%Y-%m-%d`, so they share one key space. A week key can therefore equal a later day key (`Rules.WeekThenDayContiguous`).
- The "newest" snapshot the guard protects is `vol_snaps.last`, the last one after sorting. `Grouping.VolumeSnapshotsSpec` proves it has the maximum start time. Any snapshot sharing its id is protected too.

## Model

| member | source | states |
|---|---|---|
| Rules.StartWeeksAfter | ec2-purge-snapshots.rb:101 | the weekly tier starts at or after the hourly window when days >= 0, strictly after when days > 0 |
| Rules.StartMonthsAfter | ec2-purge-snapshots.rb:102 | the monthly tier starts no earlier than the weekly tier when weeks >= 0, and after the hourly window when days and weeks are non-negative |
| Rules.AgeHours | ec2-purge-snapshots.rb:139 | the age is the elapsed seconds over 3600 truncated toward zero: age*3600 <= elapsed < (age+1)*3600 for the past, and the mirror bounds for a start time in the future |
| Rules.AgeAntitone | ec2-purge-snapshots.rb:139 | a later start time never has a larger age |
| Rules.TierOf | ec2-purge-snapshots.rb:141-159 | each tier holds exactly on its age range (both directions): hourly iff age <= hours; daily iff hours < age <= START_WEEKS_AFTER; weekly and monthly likewise |
| Rules.TierMonotone | ec2-purge-snapshots.rb:141-159 | an older snapshot never falls in a finer tier |
| Rules.DayKey | ec2-purge-snapshots.rb:144-146 | the day key is a date, that date is canonical, and it is the local day of the start time |
| Rules.WeekKey | ec2-purge-snapshots.rb:150-153 | the start time moved back by its `%w` weekday in whole days renders as the Sunday starting its local week, as a canonical date |
| Rules.MonthKeyOf | ec2-purge-snapshots.rb:156-158 | the month key holds the local year and month of the start time |
| Rules.BucketKey | ec2-purge-snapshots.rb:143-158 | month keys come from the monthly tier and only from it; the other keys are canonical dates: the local day (daily) or its week's Sunday (weekly) |
| Rules.BucketOf | ec2-purge-snapshots.rb:141 | a snapshot has no bucket exactly when its age is within the hourly threshold |
| Rules.MonthKeysContiguous | ec2-purge-snapshots.rb:156-158 | a snapshot started between two snapshots with one month key has that key |
| Rules.DayKeysContiguous | ec2-purge-snapshots.rb:144-146 | a snapshot started between two snapshots with one day key has that key |
| Rules.WeekKeysContiguous | ec2-purge-snapshots.rb:150-153 | a snapshot started between two snapshots with one week key has that key |
| Rules.WeekThenDayContiguous | ec2-purge-snapshots.rb:143-153 | when a week key equals a later day key, every snapshot started between them has that same key, in whichever of the two tiers it falls |
| Rules.BucketsContiguous | ec2-purge-snapshots.rb:141-158 | across all tiers, a snapshot started between two snapshots of one bucket is in that bucket |
| Calendar.LocalDay | ec2-purge-snapshots.rb:145 | the local day is the whole number of days containing the instant shifted by the zone offset |
| Calendar.Weekday | ec2-purge-snapshots.rb:151 | `%w` is in 0..6, and 1970-01-01 is a Thursday (4) |
| Calendar.WeekStart | ec2-purge-snapshots.rb:151-152 | the week start is a Sunday no later than the day and less than seven days before it |
| Calendar.CivilFromDays | ec2-purge-snapshots.rb:145-157 | the date `%Y-%m-%d` and `%Y-%m` render for an epoch day: month in 1..12, day in 1..31; its partners are the round trip `Calendar.DaysFromCivilInverse`, `Calendar.CivilFromDaysInjective` and the anchor lemmas |
| Calendar.DaysFromCivilInverse | ec2-purge-snapshots.rb:145 | round trip: converting an epoch day to a date and back gives the same day |
| Calendar.CivilFromDaysInjective | ec2-purge-snapshots.rb:145 | two days render as the same date iff they are the same day |
| Calendar.MonthIsInterval | ec2-purge-snapshots.rb:157 | a day between two days of one year and month is in that year and month |
| Calendar.EpochAnchor | ec2-purge-snapshots.rb:145 | day 0 renders as 1970-01-01 |
| Calendar.LeapDayAnchor | ec2-purge-snapshots.rb:145 | day 11016 renders as 2000-02-29: a year divisible by 400 has a leap day |
| Calendar.LastDayOfFebruary1900 | ec2-purge-snapshots.rb:145 | day -25509 renders as 1900-02-28 |
| Calendar.FirstDayOfMarch1900 | ec2-purge-snapshots.rb:145 | day -25508 renders as 1900-03-01, so 1900 (divisible by 100, not by 400) has no leap day |
| Calendar.SundayAnchor | ec2-purge-snapshots.rb:151 | `%w` of 2010-09-05 is 0: it was a Sunday |
| Grouping.Completed | ec2-purge-snapshots.rb:115 | a snapshot is kept iff it is listed and its status is "completed"; the result is no longer than the listing |
| Grouping.CompletedCounts | ec2-purge-snapshots.rb:115 | each completed snapshot is kept as often as it is listed, and nothing else is kept |
| Grouping.CompletedCons | ec2-purge-snapshots.rb:115 | a listing's first item is kept in front exactly when it is completed, followed by the completed items of the rest |
| Grouping.CompletedKeepsOrder | ec2-purge-snapshots.rb:115 | `find_all` keeps the listing's order: the completed items of a concatenation are those of the first part followed by those of the second |
| Grouping.OfVolume | ec2-purge-snapshots.rb:130 | `find_all` on the volume id, in listing order; its counts are stated by `Grouping.OfVolumeCounts` |
| Grouping.OfVolumeCounts | ec2-purge-snapshots.rb:130 | selecting on the volume id keeps every snapshot of that volume as often as listed, and nothing else |
| Grouping.InsertByStart | ec2-purge-snapshots.rb:130 | inserting into a sorted sequence keeps it sorted and adds exactly that snapshot |
| Grouping.SortByStart | ec2-purge-snapshots.rb:130 | the result is sorted by start time and is a permutation of the input |
| Grouping.VolumeSnapshots | ec2-purge-snapshots.rb:130 | `vol_snaps`: the volume's snapshots sorted by start time; its properties are stated by `Grouping.VolumeSnapshotsSpec` |
| Grouping.GroupOfVolume | ec2-purge-snapshots.rb:130-132 | any start-time ordering of the volume's selection holds each snapshot of that volume as often as listed; its members are exactly those snapshots; its last element is a newest one |
| Grouping.VolumeSnapshotsSpec | ec2-purge-snapshots.rb:130-132 | `vol_snaps` is sorted oldest first and is a permutation of the volume's listed snapshots; membership iff; its last element has the largest start time |
| Grouping.Distinct | ec2-purge-snapshots.rb:121 | `uniq` has no duplicates, has the same members as its input, and keeps the order of first occurrence |
| Grouping.VolumeIds | ec2-purge-snapshots.rb:121 | `collect` yields each snapshot's volume id, position by position |
| Grouping.SelectVolumes | ec2-purge-snapshots.rb:120-124 | an argument other than exactly `["all"]` is used as given; `["all"]` gives each volume id present in the listing exactly once, in the order of first appearance |
| Retention.Decide | ec2-purge-snapshots.rb:141-190 | the verdict on one snapshot from its age, its bucket, `prev_start_date` and the newest id; its meaning is stated per snapshot by `Retention.ClassificationStep` |
| Retention.NextPrevStart | ec2-purge-snapshots.rb:161-163 | only a representative moves `prev_start_date`, to its key |
| Retention.Walk | ec2-purge-snapshots.rb:133-197 | the loop over a volume's snapshots oldest first, starting with `prev_start_date` nil; one verdict per snapshot |
| Retention.NewestId | ec2-purge-snapshots.rb:132 | the id of `vol_snaps.last` |
| Retention.Verdicts | ec2-purge-snapshots.rb:132-197 | the verdicts on a volume, one per snapshot, with the newest id taken from its last snapshot |
| Retention.WalkPrefixVerdicts | ec2-purge-snapshots.rb:137 | walking a prefix of the snapshots gives the prefix of the verdicts |
| Retention.WalkPrefix | ec2-purge-snapshots.rb:137-197 | each verdict is decided from the `prev_start_date` left by the snapshots before it, which it then updates |
| Retention.ClassificationStep | ec2-purge-snapshots.rb:137-197 | per snapshot, each as iff: kept within the hourly window iff age <= hours; kept as representative iff it has a bucket different from `prev_start_date`, which then becomes that bucket; kept as newest iff its bucket equals `prev_start_date` and its id is the newest's; deleted under its own id otherwise |
| Retention.NewestNeverDeleted | ec2-purge-snapshots.rb:132-175 | the last snapshot, and any snapshot sharing its id, is never deleted, for every policy and clock |
| Retention.DeletesSpareNewest | ec2-purge-snapshots.rb:169-182 | a deletion names its own snapshot, and that snapshot's id is not the newest's |
| Retention.LatestRepresentative | ec2-purge-snapshots.rb:161-163 | the index found is a representative, and no representative comes after it |
| Retention.PrevStartTracksRepresentatives | ec2-purge-snapshots.rb:133-163 | `prev_start_date` before snapshot i is the key of the latest representative before i, or nil |
| Retention.PrevStartIsLatestRepresentative | ec2-purge-snapshots.rb:133-163 | `prev_start_date` is nil iff no representative was kept yet; otherwise it is the key of a representative with none after it |
| Retention.EveryBucketRepresented | ec2-purge-snapshots.rb:161-167 | every snapshot past the hourly window has an equal-or-older snapshot kept as the representative of its bucket |
| Retention.OneRepresentativePerBucket | ec2-purge-snapshots.rb:161-167 | on a sorted volume no two representatives share a key, for every policy and clock |
| Retention.WalkIgnoresMonths | ec2-purge-snapshots.rb:101-102 | changing `months` leaves the whole loop state unchanged |
| Retention.MonthsNeverMatter | ec2-purge-snapshots.rb:101-102 | the verdicts do not depend on `--months` |
| Retention.KeptCount | ec2-purge-snapshots.rb:135-195 | `keep_count` is at most the number of snapshots; it equals that number iff nothing is deleted; it is at least 1 when the last snapshot is kept |
| Retention.DeletedCount | ec2-purge-snapshots.rb:134-186 | `delete_count` is at most the number of snapshots |
| Retention.FailedCount | ec2-purge-snapshots.rb:181-184 | no deletion fails in noop mode or when no deleted id raises |
| Retention.DeleteCalls | ec2-purge-snapshots.rb:182 | no call in noop mode; every call names a snapshot deleted by the loop |
| Retention.DeleteCallsComplete | ec2-purge-snapshots.rb:176-188 | outside noop mode every `Delete` verdict's id is called; the number of calls is `delete_count` plus the calls that raised; the calls for a prefix of the verdicts are a prefix of the calls |
| Retention.TallyAddsUp | ec2-purge-snapshots.rb:166-195 | kept + deleted + failed deletions = number of snapshots; in noop mode kept + deleted = number of snapshots |
| Retention.PurgeVolume | ec2-purge-snapshots.rb:132-197 | the loop's `keep_count`, `delete_count` and delete calls are those of the verdicts of `Walk` |
| Purge.VolumeTallyBounds | ec2-purge-snapshots.rb:198 | a volume's entry counts each snapshot at most once, all of them when no call raises (always in noop mode), and keeps at least one snapshot of a non-empty volume |
| Purge.DeleteCallsOfVolume | ec2-purge-snapshots.rb:130-182 | a volume's delete calls name only listed snapshots of that volume, never its newest |
| Purge.VolumeTally | ec2-purge-snapshots.rb:198 | `[delete_count, keep_count]` of one volume's pass; its bounds are stated by `Purge.VolumeTallyBounds` |
| Purge.VolumeCounts | ec2-purge-snapshots.rb:126-198 | `volume_counts` after the passes over a list of volumes, the last pass over a volume deciding its entry; stated by `Purge.VolumeCountsKeys` and `Purge.VolumeCountsValues` |
| Purge.AllDeleteCalls | ec2-purge-snapshots.rb:128-182 | the delete calls of the passes over a list of volumes, in order; stated by `Purge.AllDeleteCallsSpec` and `Purge.AllDeleteCallsComplete` |
| Purge.PassesStep | ec2-purge-snapshots.rb:128-199 | one more volume adds its entry to `volume_counts` and appends its delete calls |
| Purge.VolumeCountsKeys | ec2-purge-snapshots.rb:126-198 | `volume_counts` has an entry exactly for the processed volumes |
| Purge.VolumeCountsValues | ec2-purge-snapshots.rb:198 | each entry holds the tallies of its volume's pass over its sorted snapshots |
| Purge.AllDeleteCallsSpec | ec2-purge-snapshots.rb:177-182 | no call in noop mode; otherwise calls only for listed snapshots of processed volumes |
| Purge.AllDeleteCallsPrefix | ec2-purge-snapshots.rb:128-182 | the calls of the first volumes processed are a prefix of the run's calls |
| Purge.AllDeleteCallsCover | ec2-purge-snapshots.rb:128-182 | every call of a processed volume's pass is among the run's calls |
| Purge.AllDeleteCallsComplete | ec2-purge-snapshots.rb:128-188 | outside noop mode the run calls `delete_snapshot` for every deletion any processed volume's pass decides |
| Purge.NewestSnapshotsSurvive | ec2-purge-snapshots.rb:128-182 | when snapshot ids are unique across volumes, no call of the whole run names the newest snapshot of any volume, whichever volumes are processed and however often |
| Purge.EverySnapshotConsidered | ec2-purge-snapshots.rb:120-130 | with `all`, every completed snapshot's volume is processed, the snapshot is in that volume's group, and it is in no other group |
| Purge.PurgeVolumes | ec2-purge-snapshots.rb:126-199 | the map and the calls of the loop over the volumes are `VolumeCounts` and `AllDeleteCalls` |
| Purge.PurgeSnapshots | ec2-purge-snapshots.rb:112-213 | fails ("No snapshots found") iff no completed snapshot is listed; otherwise it has one entry per selected volume holding that volume's tally, and the delete calls of all passes in order |

## Left out

- Command-line parsing, `--help`, and the exit on a missing option (lines 1-99): I/O. The policy arrives already parsed.
- Reading the credentials from files or the environment, and the exit when they are missing (lines 104-108, 216-221): I/O.
- The EC2 client (`describe_snapshots`, `delete_snapshot`): a foreign call. The listing is a parameter, and the outcome of a delete is the `failing` set.
- `sleep` after each deletion (line 187): timing only, with no effect on the result.
- Every `puts`, including the messages with their day counts and the summary printing (lines 131, 164-166, 171-173, 178-180, 184, 192-194, 200-210): output only. The summary reads `volume_counts`, which is modelled.
- `NOW`, the zone and `Time.parse`: the clock is a parameter, and local time is a fixed UTC offset. Daylight-saving changes, leap seconds and Ruby's parsing of the `startTime` string are not modelled.
- Rules.AgeHours: the float division and `to_i` are written as an exact integer division truncated toward zero. This agrees with the script except where floating-point rounding differs, which is not modelled.
- Grouping.SortByStart: start times are integers compared numerically. The script sorts the ISO-8601 strings, which gives the same order for one format. Ties follow one admissible order, while Ruby's `sort_by` is not stable.
- Purge.NewestSnapshotsSurvive: requires snapshot ids to be unique across volumes. With a shared id, a call issued for another volume could name the same id.
- The outcome of a delete call is fixed per id for the whole run (the `failing` set). A volume named twice on the command line is processed twice and its delete calls are issued again. In the script the second call for an id the first pass deleted raises (the snapshot is gone), is rescued and is not counted, so the second entry in `volume_counts` can have a smaller `delete_count`. The model gives both passes the same outcomes, so it writes the same entry twice. A per-call outcome is not modelled.
- Rules.WeekKey: one zone offset renders every key. In the script, `%w` and the day and month keys are rendered in the zone of the parsed `startTime`, and the week key is rendered from `Time.at`, which uses the host's local zone. When the two zones differ (a UTC `startTime` on a host that is not on UTC), the week key can be a Saturday, and the week buckets are no longer unbroken runs. The model assumes the host zone is the zone of `startTime`.
- Retention.OneRepresentativePerBucket: proved under that same single-zone assumption. With the two zones differing, the script can keep two representatives of one week key.
- Rejection of negative thresholds: the script does not reject them, and the model accepts any integers.
