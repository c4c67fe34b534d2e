# Log sequences and sysctl consistency, in Dafny

A Dafny model of two parts of hotsos.

**Log sequence analytics** (`common/analytics.py`). `LogSequenceCollection` pairs the k-th start hit of
a key with its k-th end hit. A key is `"<file basename>_<event id>"`. The n-th end seen for a key
creates the sequence `"<n>_<key>"`; a later start for the key is paired only when a sequence with its
ordinal exists. `LogSequenceBase.get_sequences` runs all end hits and then all start hits through the
collection, and derives each duration. `LogSequenceStats` reports:

- the top `max` complete sequences by a field, re-keyed by event id and ordered by start;
- min, max, mean and spread of the durations.

**The sysctl check** (`plugins/system/pyparts/checks.py`).

- `_sysctl_conf` reads one configuration file.
- `_get_sysctl_d` merges the files of `etc/sysctl.d`, `usr/lib/sysctl.d` and `run/sysctl.d`. For each
  key, the file with the greatest name wins.
- `_get_charm_sysctl_d` does the same over the five charm-written files of `etc/sysctl.d`.
- `sysctl_checks` compares the merged values with the live `sysctl -a` output. It reports the keys
  that differ, and raises an issue when the general table disagrees.

| file | module | models |
|---|---|---|
| `wrappers.dfy` | `Wrappers` | `Option`, `Result` |
| `text.dfy` | `Text` | `strip`, `split()`/`' '.join`, `partition`, `rpartition`, `str(n)`, string `<=` |
| `ordered_dict.dfy` | `OrderedDict` | Python dicts with insertion order, `dict(items)` |
| `sorting.dfy` | `Sorting` | `sorted(..., key=, reverse=)` |
| `statistics.dfy` | `Statistics` | `min`, `max`, `statistics.mean`, population variance |
| `log_sequence_collection.dfy` | `LogSequenceCollection` | the class of the same name |
| `log_sequence_base.dfy` | `LogSequenceBase` | `get_sequences` |
| `log_sequence_stats.dfy` | `LogSequenceStats` | `get_top_sequences`, `get_top_n_sorted`, `get_stats` |
| `sysctl_conf.dfy` | `SysctlConf` | `_sysctl_conf` |
| `sysctl_d.dfy` | `SysctlD` | `_get_sysctl_d`, `_get_charm_sysctl_d` |
| `sysctl_checks.dfy` | `SysctlChecks` | `sysctl_checks` |

How the model represents the program:

- Timestamps are integers in microseconds. Durations are `real` seconds.
- A Python dict is an `OrderedDict.Dict`: a key sequence plus a map. Assigning an existing key keeps
  its place, as in Python.
- A directory is an `Option` of its entries. `None` means the directory is missing. An entry's
  content is `None` when the entry is not a regular file.
- The program's exceptions become `Failure` values of a `Result`.

## Model

| member | source | states |
|---|---|---|
| `LogSequenceCollection.Empty` | common/analytics.py:17-22 | A new collection has no sequences and every key has zero ends and zero starts. |
| `LogSequenceCollection.UniqueIdRoundTrip` | common/analytics.py:50 | The id `"<n>_<key>"` parses back to `(n, key)`. |
| `LogSequenceCollection.UniqueIdInjective` | common/analytics.py:50 | Different `(n, key)` pairs give different ids, so two ends never share a sequence. |
| `LogSequenceCollection.AddSequenceEnd` | common/analytics.py:43-56 | The n-th end of a key (from 0) creates `"<n>_<key>"` with the end time and no start. The duration is stored exactly when it is truthy (`None` and `0.0` are dropped). Only that key's end count moves, and no other sequence changes. |
| `LogSequenceCollection.AddSequenceEndValid` | common/analytics.py:43-56 | An end keeps the collection invariant. Its id is new and goes last in table order. |
| `LogSequenceCollection.AddSequenceStart` | common/analytics.py:58-79 | A key without ends gives `None` and changes nothing. Otherwise the start takes the previous start ordinal plus one, and succeeds exactly when that sequence exists. On failure nothing changes, not even the counter. On success only that sequence's `start` is set, and only this key's start counter moves. |
| `LogSequenceCollection.AddSequenceStartOutcome` | common/analytics.py:58-79 | A start succeeds iff its key has fewer paired starts than ends. Once starts catch up with ends, every further start fails and leaves the collection unchanged. |
| `LogSequenceCollection.AddSequenceStartValid` | common/analytics.py:58-79 | A start keeps the invariant, so paired starts never outnumber ends for any key. |
| `LogSequenceCollection.UpdateSequence` | common/analytics.py:40-41 | Sets the duration of one existing sequence. Counters and table order are untouched. |
| `LogSequenceCollection.GetSequence` | common/analytics.py:81-82 | Returns the stored sequence, or `None` (the `KeyError`) for an unknown id. |
| `LogSequenceCollection.CompleteSequences` | common/analytics.py:31-38 | Holds exactly the sequences that have a start, unchanged. |
| `LogSequenceCollection.CompleteSequencesInOrder` | common/analytics.py:31-38 | `complete_sequences` lists its ids in table order: the i-th sits at an increasing table position. |
| `LogSequenceCollection.AnyStartedIffComplete` | common/analytics.py:24-38 | The early-exit scan finds a started sequence iff `complete_sequences` is non-empty. |
| `LogSequenceCollection.HasCompleteSequences` | common/analytics.py:24-29 | True iff `complete_sequences` is non-empty. |
| `LogSequenceBase.Paired` | common/analytics.py:153-169 | A paired sequence keeps its end and gets the start. A duration already carried by the end hit is kept. Otherwise the duration is `end - start` in seconds, and none when that is negative. |
| `LogSequenceBase.RecordStartPairs` | common/analytics.py:144-169 | A start hit whose ordinal has a sequence updates exactly that sequence and that key's start counter. |
| `LogSequenceBase.GetSequencesValid` | common/analytics.py:125-172 | Any run over end and start hits leaves a collection that keeps the invariant. |
| `LogSequenceBase.GetSequencesPairsByOrdinal` | common/analytics.py:125-172 | After a run, each key has one sequence per end hit, and the k-th holds the k-th end hit of the key. It is paired with the k-th start hit of the key exactly when one exists. Starts beyond the key's ends are dropped. |
| `LogSequenceStats.FilterTruthy` | common/analytics.py:186-189 | Keeps exactly the items whose field is truthy. |
| `LogSequenceStats.FilterTruthyPositions` | common/analytics.py:186-189 | The kept items are the input's items at increasing positions, and every truthy item's position is among them. So the filter keeps input order and each item once. |
| `LogSequenceStats.ValidEntries` | common/analytics.py:186-189 | `valid_sequences` holds exactly the complete sequences whose field is truthy. |
| `LogSequenceStats.ValidEntriesInTableOrder` | common/analytics.py:186-189 | `valid_sequences` follows table order, so no id appears twice. |
| `LogSequenceStats.Take` | common/analytics.py:198-202 | The loop takes the first `max` items, and none when `max <= 0`. |
| `LogSequenceStats.SelectTopIsExtreme` | common/analytics.py:186-202 | The selection has `min(max, valid)` entries, all valid. No valid sequence left out ranks ahead of one taken, in the sorting field and direction. |
| `LogSequenceStats.Summary` | common/analytics.py:208-211 | A reported entry keeps `start` and `end`, and `duration` exactly when it is truthy. |
| `LogSequenceStats.TopKeyIsLastSegment` | common/analytics.py:206-207 | The report key is the text after the last `_`; the second `partition` never cuts anything. |
| `LogSequenceStats.TopKeyOfUniqueId` | common/analytics.py:206-207 | For `"<n>_<source>_<event_id>"` the key is the last `_`-segment of the event id. |
| `LogSequenceStats.ReportOfSelection` | common/analytics.py:204-211 | Ordering the selection by start and re-keying reports a key for every selected item, and each reported value is the summary of a selected item. |
| `LogSequenceStats.GetTopSequencesReports` | common/analytics.py:181-213 | The report has at most `max` entries and no more than were selected. Each entry is the summary of a selected sequence with that key, and every selected sequence's key is present. |
| `LogSequenceStats.GetTopSequencesLastWins` | common/analytics.py:204-213 | When two selected ids share a report key, the one later in start order overwrites the earlier. |
| `LogSequenceStats.GetTopSequencesKeyOrder` | common/analytics.py:204-213 | The report lists its keys in start order, descending when `reverse`. Each key sits at the place of the first selected sequence with that key, and no selected sequence with the key ranks ahead of that one. |
| `LogSequenceStats.GetTopSequencesByStart` | common/analytics.py:204-213 | When no two selected sequences share a report key, the reported sequences themselves are in start order, descending when `reverse`. |
| `LogSequenceStats.GetTopNSortedReportsDurations` | common/analytics.py:215-217 | `get_top_n_sorted` reports only sequences with a start and a non-zero duration, at most `max` of them. |
| `LogSequenceStats.CompleteValues` | common/analytics.py:222 | `complete_sequences.values()`: one value per complete id, in the dictionary's order. |
| `LogSequenceStats.Samples` | common/analytics.py:222 | The samples are the durations that are not `None`, so zeros count. |
| `LogSequenceStats.SamplesPositions` | common/analytics.py:222 | The samples are exactly the present durations, in order: one per sequence that has a duration, at increasing positions. |
| `LogSequenceStats.ZeroDurationIsASample` | common/analytics.py:222 | A zero duration is a sample; a missing one is not. |
| `LogSequenceStats.StatsOf` | common/analytics.py:223-227 | `samples` is the sample count. `min` and `max` are samples bounding all the others. `avg` is the arithmetic mean (sum over count), with `min <= avg <= max`. `variance` is the population variance: the sum of squared deviations from `avg` over the count, never negative. |
| `LogSequenceStats.StatsOfExample` | common/analytics.py:223-227 | For samples 1, 2 and 3 the statistics are minimum 1, maximum 3, mean 2, population variance 2/3 and 3 samples. |
| `Statistics.Mean` | common/analytics.py:226 | The mean times the sample count is the sum of the samples. |
| `Statistics.Variance` | common/analytics.py:225 | The population variance times the sample count is the sum of squared deviations from the mean. |
| `LogSequenceStats.GetStats` | common/analytics.py:219-228 | Succeeds iff the field is `duration` and some complete sequence has a duration. An empty sample is the `ValueError` of `min([])`. A timestamp field with complete sequences is the `TypeError` of rounding a datetime. |
| `LogSequenceStats.GetStatsCountsDurations` | common/analytics.py:219-228 | `samples` is the number of complete sequences that have a duration. The samples are their durations, one per sequence. |
| `Statistics.MeanBetweenExtremes` | common/analytics.py:223-226 | The mean of a non-empty sample lies between its minimum and maximum. |
| `Statistics.VarianceNonNegative` | common/analytics.py:225 | The population variance is non-negative. |
| `Sorting.Sort` | common/analytics.py:191-193 | The result is ordered by the key in the requested direction and is a permutation of the input. |
| `Sorting.PrefixOfSortedIsExtreme` | common/analytics.py:191-202 | The first `m` of a sorted permutation come from the input, and nothing left out ranks ahead of them. |
| `Text.Collapse` | plugins/system/pyparts/checks.py:126-127 | `' '.join(v.split())` is whitespace-normalised and has the same words as `v`. |
| `Text.CollapseIdempotent` | plugins/system/pyparts/checks.py:126-127 | Collapsing twice is collapsing once. |
| `SysctlConf.ParseLine` | plugins/system/pyparts/checks.py:36-55 | A line gives a setting iff it has no `#` in column 0, has an `=`, and its stripped key has no `*` and no leading `-`. The key is the stripped text before the first `=`, and the value the stripped text after it. Both are stripped, and the key holds no `=`. |
| `SysctlConf.ParseLinePadded` | plugins/system/pyparts/checks.py:36-45 | Any whitespace around the key and the value is stripped away, including the newline that `readlines` keeps. ` key = value \n` sets `key` to `value`. |
| `Text.StripPadding` | plugins/system/pyparts/checks.py:44-45 | `strip` removes exactly the whitespace padding around a stripped text. |
| `SysctlConf.ParseLineRoundTrip` | plugins/system/pyparts/checks.py:40-45 | `key=value`, written without padding, reads back as `(key, value)`. |
| `SysctlConf.PaddedKeyParses` | plugins/system/pyparts/checks.py:37-45 | Leading blanks before a key are stripped, whatever the key starts with. |
| `SysctlConf.IndentedHashIsAKey` | plugins/system/pyparts/checks.py:37-38 | `#a=b` is a comment, but ` #a=b` sets the key `#a`. |
| `SysctlConf.AssignAllLastWins` | plugins/system/pyparts/checks.py:55 | The last assignment to a key decides its value. |
| `SysctlConf.ParseConf` | plugins/system/pyparts/checks.py:35-57 | The keys of a file are exactly those some line sets. |
| `SysctlConf.ParseConfLastWins` | plugins/system/pyparts/checks.py:36-55 | The last line that sets a key decides its value. |
| `SysctlConf.ParseConfValuesFromLines` | plugins/system/pyparts/checks.py:36-55 | Every value in the result comes from a line that sets that key. |
| `SysctlConf.SysctlConfOf` | plugins/system/pyparts/checks.py:30-33 | A path that is not a regular file has no settings. |
| `SysctlD.Offer` | plugins/system/pyparts/checks.py:107-113 | One loop step. When the key is already held by a file whose name is not smaller than the candidate's (`priorities[key] >= conf`), the table is unchanged. Otherwise the key is set to the candidate's file and value, keeping its position or being appended last. No other key changes, and validity is kept. |
| `SysctlD.MergeFiles` | plugins/system/pyparts/checks.py:105-113 | The merged keys are those of the starting table plus those some file sets. |
| `SysctlD.MergeFilesWinner` | plugins/system/pyparts/checks.py:105-113 | A key's value and `conf` come from the file with the greatest name that sets it, when that name exceeds the starting entry's. Among files of that name, the earliest wins. |
| `SysctlD.MergeFilesKeeps` | plugins/system/pyparts/checks.py:107-110 | A starting entry whose name no file setting the key exceeds stays as it was. |
| `SysctlD.MergeFilesCases` | plugins/system/pyparts/checks.py:105-113 | Each merged value either stayed from the starting table, which no file beat, or comes from a winning file. |
| `SysctlD.MergeFilesOrderFree` | plugins/system/pyparts/checks.py:105-113 | For files with distinct names, the merged values do not depend on the listing order. |
| `SysctlD.SysctlDTableIsOneMerge` | plugins/system/pyparts/checks.py:97-113 | Merging the three locations one after another is one merge of all their files in search order. |
| `SysctlD.GetSysctlDKeys` | plugins/system/pyparts/checks.py:86-115 | The keys of `_get_sysctl_d` are exactly those some file of some present location sets. |
| `SysctlD.GetSysctlDWinner` | plugins/system/pyparts/checks.py:97-115 | A key's value comes from the greatest file name that sets it. On a tie of names, the file in the earlier location wins (`etc`, then `usr/lib`, then `run`). |
| `SysctlD.GetSysctlDOrderFree` | plugins/system/pyparts/checks.py:99-115 | The result does not depend on the order `os.listdir` lists each directory in. |
| `SysctlD.GetCharmSysctlD` | plugins/system/pyparts/checks.py:59-84 | `None` exactly when `etc/sysctl.d` is missing. |
| `SysctlD.CharmGreatestNameWins` | plugins/system/pyparts/checks.py:74-82 | Among the charm files setting a key, the greatest name gives its value and `conf`. |
| `SysctlD.SwiftBeatsQuantum` | plugins/system/pyparts/checks.py:63-82 | Whatever key `50-swift-storage-charm.conf` sets is taken from it, even though `50-quantum-gateway.conf` is read later. |
| `SysctlChecks.ActualValue` | plugins/system/pyparts/checks.py:124-127 | A live value is whitespace-normalised and has the words of the text after the first `=`. |
| `SysctlChecks.ParseActuals` | plugins/system/pyparts/checks.py:121-127 | The live keys are exactly the stripped texts before `=` of the lines, and every live value is whitespace-normalised. |
| `SysctlChecks.ParseActualsLastWins` | plugins/system/pyparts/checks.py:123-127 | The last line for a key gives its live value. |
| `SysctlChecks.Mismatches` | plugins/system/pyparts/checks.py:129-136 | A configured key is reported iff it is live and its live value differs. The entry holds both values. |
| `SysctlChecks.CharmMismatches` | plugins/system/pyparts/checks.py:138-145 | Without a crash iff every charm key is live. The report then holds exactly the charm keys whose live value differs, with their `conf`. |
| `SysctlChecks.CharmMismatchesFirstMissing` | plugins/system/pyparts/checks.py:140-142 | The `KeyError` is for the first charm key, in table order, that is not live. |
| `SysctlChecks.Check` | plugins/system/pyparts/checks.py:117-154 | Crashes with a missing directory exactly when `etc/sysctl.d` is missing. When it completes, the issue is raised iff `sysctl-mismatch` is written. |
| `SysctlChecks.CheckReportsMismatches` | plugins/system/pyparts/checks.py:129-150 | `sysctl-mismatch` is written, and the issue raised, exactly when some configured key is live with another value. The entry lists exactly those keys. |
| `SysctlChecks.CheckCharmOutcome` | plugins/system/pyparts/checks.py:138-154 | With `etc/sysctl.d` present, the check completes iff every charm key is live. `juju-charm-sysctl-mismatch`, written without an issue, lists exactly the differing charm keys. |
| `SysctlChecks.CheckCrashes` | plugins/system/pyparts/checks.py:139-142 | A missing `etc/sysctl.d`, or a charm key that is not live, ends the check without a report. |
| `SysctlChecks.ReadableCharmMismatches` | plugins/system/pyparts/checks.py:132-145 | With unreadable charm keys passed over, a charm key is reported iff it is live and differs. |
| `SysctlChecks.ReadableCharmMismatchesAgree` | plugins/system/pyparts/checks.py:138-145 | When every charm key is live, passing over unreadable keys changes nothing. |
| `SysctlChecks.CheckReadable` | plugins/system/pyparts/checks.py:117-154 | The corrected check always completes. The issue is raised iff `sysctl-mismatch` is written, and a missing `etc/sysctl.d` gives no charm report. |
| `SysctlChecks.CheckReadableCharmReport` | plugins/system/pyparts/checks.py:138-154 | The corrected charm report lists exactly the live charm keys whose value differs. |
| `SysctlChecks.CheckReadableAgrees` | plugins/system/pyparts/checks.py:117-154 | Wherever the check as written completes, the corrected check gives the same report. |

## Left out

- Search plumbing. `find_by_tag`, the `SearchResultIndices` columns, `os.path.basename` and
  `datetime.strptime` are outside the model: hits arrive already reduced to a basename, an event id,
  an integer timestamp and an optional duration.
- A sequence whose record is empty (`if not sequence: continue`) cannot happen: every stored record
  holds `end`.
- LogSequenceStats.StatsOf: reports the population variance instead of `statistics.pstdev`, its
  square root, and does not round to two places. Real square roots and decimal rounding are left out.
- LogSequenceStats.SelectTopIsExtreme: does not say which of several sequences with equal sort keys
  is taken, because the stable order among equal keys is left out.
- Sort fields: `sort_by_key` and `get_stats` take any string. The model has only `start`, `end` and
  `duration`. For any other key, `get_top_sequences` keeps no sequence and returns `{}`, and
  `get_stats` fails with the `ValueError` of `min([])`. Those cases are not modelled.
- LogSequenceStats.GetTopSequencesByStart: holds only when no two selected sequences share a report
  key. When keys collide, a key keeps the place of its first sequence in start order but takes the
  value of its last one, so the values need not be in start order. `GetTopSequencesKeyOrder` states
  the order that holds in every case.
- LogSequenceStats.GetTopSequencesLastWins: states only what happens to a report key shared by several
  selected ids, as the last of them wins. It does not say which ids collide.
- The `"start" not in v` test at line 195 never skips anything, because every complete sequence has
  a start. The model does not carry it.
- `os.path.isfile`, `os.path.isdir`, `os.listdir`, `open` and `constants.DATA_ROOT` are left out. A
  directory is given as its list of entries, and a file as its lines or `None`.
- `CLIHelper().sysctl_all()` is left out: its output lines are a parameter.
- `add_issue` and `self._output` are left out. The check returns a `Report` holding the output
  entries and the raised issues.
- Python's `str.isspace` on characters outside the table in `Text.IsSpace`, Unicode case rules and
  byte decoding are left out.
- Configured values are compared as written: `_sysctl_conf` strips them but does not collapse inner
  whitespace, while live values are collapsed. The model keeps this behaviour.

## Findings

| source | as written | input that shows it | evidently intended | confidence | as-written member | corrected member |
|---|---|---|---|---|---|---|
| plugins/system/pyparts/checks.py:139-140 | `_get_charm_sysctl_d()` returns `None` when `etc/sysctl.d` is missing, and `charm_sysctld.items()` then raises `AttributeError`. The `sysctl-mismatch` output and the issue already computed from `usr/lib/sysctl.d` and `run/sysctl.d` are lost. | a data root with `usr/lib/sysctl.d` but no `etc/sysctl.d`: `Locations(None, …)` | no charm files means no charm mismatches | medium (not executed) | `SysctlChecks.CheckCrashes` | `SysctlChecks.CheckReadable` |
| plugins/system/pyparts/checks.py:142-144 | The charm loop reads `actuals[key]` without a default. A charm key that `sysctl -a` does not list (unreadable, for example inside an unprivileged container) raises `KeyError` and ends the check. | `etc/sysctl.d/50-nova-compute.conf` sets a key that is missing from the `sysctl -a` lines | pass over unreadable keys, as the first loop does (lines 132-134) | medium (not executed) | `SysctlChecks.CheckCrashes` | `SysctlChecks.ReadableCharmMismatches` |
