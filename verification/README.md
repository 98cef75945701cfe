# halflife in Dafny

A model of the analysis core of `halflife`, a command-line tool that
estimates the "half-life" of the code in a git repository. The tool replays
the history of the main branch oldest commit first and tracks every
non-blank line under the key `path:line`:

- the first commit's tree records every line as created;
- each later commit's `Add` chunks create records for new keys, or refresh
  `LastSeen` for known keys;
- its `Delete` chunks stamp existing records with a deletion time.

The later commits' patches are requested as `commit.Patch(parent)`, which in
go-git diffs from the commit to its parent. So the `Add` chunks the replay
sees hold the lines the commit removed, and its `Delete` chunks hold the
lines the commit added. The model replays the chunks it is given, in that
same orientation.

From the final records it computes:

- a sample of positive lifetimes: the age at `now` for surviving lines,
  creation to deletion for deleted ones;
- counts of total, surviving and deleted lines;
- the oldest and newest surviving lines;
- a 100-point survival curve;
- a half-life: the first sampled age where the curve is at or below one
  half, falling back to the middle lifetime;
- a median.

In validation mode it also returns a timeline of create and delete events
and a few sample lines.

Modules, one per part of the program:

- `Wrappers`: `Option` and `Result`.
- `GoStrings`: the Go library string functions the tool calls:
  - `strings.Split` on newlines;
  - `strings.TrimSpace` with `unicode.IsSpace`;
  - `HasPrefix`, `HasSuffix` and `TrimPrefix`;
  - `filepath.Base`, with `/` as the separator.
- `Patterns`: `matchesPattern`, the file filter.
- `Lifecycle`:
  - the `CodeLine` record and the timeline events;
  - line keys;
  - `countDeletedLines`;
  - the three per-line steps (snapshot, add, delete) with the invariants
    they keep.
- `History`:
  - commits, patches and chunks as values;
  - the in-place reversal of the commit log;
  - the replay of the whole history and what it preserves.
- `Sorting`: `sort.Float64s` as a sorted permutation, and the uniqueness of
  the sorted order.
- `Survival`: the survival curve, the half-life and the median of a sorted
  sample.
- `Statistics`:
  - the walk over the record map;
  - the statistics, with their two failure paths;
  - independence from the walk's order.
- `Analysis`: `analyzeRepository` end to end, including the validation-mode
  samples.

Modelling choices:

- **Time:** times are integer nanoseconds. Durations in days are exact
  `real` values (`Days`).
- **Clock:** the current time `now` is a parameter.
- **Repository access:** go-git is replaced by plain values. The log is a
  sequence of `Commit`s, newest first. Each commit carries its tree, used
  for the first commit only, and its patch against the previous commit.
  Either may be `None`, meaning it could not be read.
- **Map iteration order:** Go randomises the order of `range` over a map.
  The statistics therefore take the visiting order as a parameter
  (`IsEnumeration`). The top-level method picks one without constraint, and
  `StatsIndependentOfOrder` shows which results cannot depend on it.
- **Glob:** `filepath.Match` is a function parameter `glob`.
- **The panic:** the nil-pointer dereference of `oldestLine.Content` is
  modelled as the error `NilOldestLine`.

Behaviour of the code at some edges, as the model reproduces it:

- **Re-added lines:** a line deleted and later added again is not reopened.
  Its key already exists, so only `LastSeen` changes and the line still
  counts as deleted (`ReAddKeepsDeletion`).
- **Median:** the median is the element at index n/2 of the sorted sample.
  For an even count that is the upper middle element, not the average of
  the two middle ones.
- **Create events:** create events carry `DeletedSoFar = 0`, the Go zero
  value. Only delete events count deleted lines.
- **Median range:** nothing makes the median lie between the newest and the
  oldest surviving age. The sample also contains deleted lines' lifetimes,
  which can be shorter or longer than any surviving age
  (`MedianBeyondOldest`).

## Model

| member | source | states |
|---|---|---|
| GoStrings.SplitLines | main.go:123 | splitting on "\n" gives one piece more than there are newlines, and no piece contains a newline |
| GoStrings.JoinSplit | main.go:123 | nothing is lost by splitting: joining the pieces with "\n" gives back the text |
| GoStrings.SplitJoin | main.go:123 | newline-free pieces joined with "\n" split back into exactly those pieces |
| GoStrings.TrimSpace | main.go:124 | the result is the part of the input between a white-space-only prefix and a white-space-only suffix, and it neither starts nor ends with a white-space character |
| GoStrings.TrimSpaceEmptyIffBlank | main.go:124 | the blank-line test `TrimSpace(line) == ""` holds exactly when every character of the line is white space |
| GoStrings.TrimPrefix | main.go:363 | with the prefix present, prefix plus result is the input; otherwise the input is returned unchanged |
| GoStrings.HasSuffixIffEndsWith | main.go:364 | a suffix test holds exactly when the text is something followed by the suffix |
| GoStrings.Base | main.go:366 | the base name is never empty and is "." for the empty path; it is "/" exactly when the path is non-empty and all separators; otherwise it is a separator-free piece of the path that starts at the path's start or after a separator and is followed only by separators |
| GoStrings.BaseOfPlainName | main.go:366 | a name without a separator is its own base name |
| GoStrings.BaseOfPath | main.go:366 | the base name of `dir/name` is `name` for a non-empty, separator-free name, whatever the directories |
| Patterns.MatchesPattern | main.go:358-371 | "*" accepts every file; a pattern starting "*." is a suffix test on the whole path with what follows the "*"; any other pattern accepts exactly when the glob reports a match on the base name, so a malformed glob rejects |
| Patterns.ExtensionPatternIffEndsWith | main.go:362-365 | "*.ext" accepts exactly the paths of the form p + ".ext", whatever the glob |
| Patterns.ExtensionPatternIgnoresDirectories | main.go:362-365 | for an extension without '/', putting a directory in front of any file name does not change the verdict of the pattern "*.ext"; with a '/' in the extension it can ("*.a/b" accepts "x.a/b" but rejects "b") |
| Patterns.ExtensionRestIsLiteral | main.go:362-365 | the text after "*." is matched literally: "*.g*" rejects "main.go" |
| Lifecycle.KeyRoundTrip | main.go:127 | for a path without ':', the key `LineKey(path, line)` splits back into its path and line |
| Lifecycle.LineKeyInjective | main.go:184 | for paths without ':', two lines share a key exactly when they are the same line of the same file |
| Lifecycle.LineKeyCollision | main.go:212 | with a ':' in the path, two different (path, line) pairs can map to the same key |
| Lifecycle.DeletedCount | main.go:348-356 | the number of deleted records is at most the number of records, and adding the surviving ones gives the number of records |
| Lifecycle.CountDeletedLines | main.go:348-356 | the loop over the map, in any order, counts exactly the records that carry a deletion time |
| Lifecycle.SnapshotLine | main.go:123-144 | a blank line changes nothing; any other line stores a fresh record (content, file, both times, hash from the commit, no deletion) under its key, even over an existing one; other keys are untouched; in validation mode a create event with the new record count is logged |
| Lifecycle.AddLine | main.go:179-205 | a blank line changes nothing; a new key gets a fresh record and a create event with the new record count; a known key, deleted or not, only has `lastSeen` set to the commit time; other keys are untouched |
| Lifecycle.DeleteLine | main.go:207-227 | the key set never changes; a blank line or an unknown key changes nothing; a known key gets `deletedAt` set to the commit time, replacing any earlier one, with every other field kept; in validation mode a delete event carries the record count and the number of deleted records, and outside it the timeline is unchanged |
| Lifecycle.ReAddKeepsDeletion | main.go:184-205 | a line deleted in one commit and added back in a later one keeps its first deletion time and its creation time and still counts as deleted |
| Lifecycle.SnapshotLinePreserves | main.go:123-144 | a snapshot line only adds keys and timeline events, keeps the timeline counts consistent, logs at least one creation per new record, and keeps record times ordered |
| Lifecycle.AddLinePreserves | main.go:179-205 | an added line only adds keys and events, keeps every record's content, file, creation time and hash, keeps a deleted line deleted, and logs exactly one creation per new record |
| Lifecycle.DeleteLinePreserves | main.go:207-227 | a deleted line adds no key, keeps every record's identity, logs no creation, and keeps the timeline counts consistent |
| Lifecycle.ApplyLinesPreserves | main.go:123-228 | the lines of a snapshot file (lines 123-126) or of an `Add` or `Delete` chunk (lines 180-183 and 208-211) replayed in order keep all of the above, step after step |
| History.ReverseCommits | main.go:98-102 | after the swap loop, position k holds the log's element n-1-k; length and the multiset of commits are unchanged |
| History.ReversedMultiset | main.go:99-102 | reading a sequence back to front is a permutation of it |
| History.SnapshotFilesPreserves | main.go:113-146 | the files of the first commit's tree only add keys and timeline events, every event a creation, with at least one creation per new record, and keep record times ordered |
| History.FirstCommitCreatedAt | main.go:105-146 | after the first commit every record is a live line created at that commit's time |
| History.SnapshotFilesCreatedAt | main.go:113-144 | the files of a tree only record live lines created at the commit's time |
| History.PatchPath | main.go:162-171 | a file patch has a path unless both its sides are missing; it is the `to` path when there is one and the `from` path otherwise. In the program's commit-to-parent patches, `to` is the parent's side, so a renamed file is filed under its old name |
| History.ApplyChunk | main.go:177-229 | a chunk that is neither `Add` nor `Delete` changes nothing |
| History.ApplyFilePatch | main.go:161-177 | a patch with neither side, or whose path the filter rejects, changes nothing; otherwise its chunks are applied under its path |
| History.LaterCommit | main.go:154-158 | a later commit whose patch cannot be read changes nothing |
| History.ApplyChunksPreserves | main.go:176-229 | the chunks of a file patch keep every record and its identity |
| History.ApplyFilePatchesPreserves | main.go:160-231 | the file patches of a commit keep every record and its identity |
| History.ReplayLaterPreserves | main.go:153-232 | replaying later commits keeps every record, logs one creation per new record, and on a chronological history keeps every record's times at or before the last commit |
| History.ReplayLaterSplit | main.go:105 | replaying a history equals replaying a prefix and then the rest, so `Replay` of a whole history is the first commit followed by the later ones in order |
| History.KeysOnlyGrow | main.go:105-232 | no record is ever removed: the keys and record identities after any prefix of the history survive to the end, and the prefix's timeline is a prefix of the final one |
| History.ReplayWellFormed | main.go:105-232 | after any replay the timeline counts are consistent, the timeline is empty outside validation mode, it has at least one creation per record, and on a chronological history every record is created no later than it is seen or deleted |
| Sorting.SortReals | main.go:270 | the result is in ascending order and is a permutation of the sample |
| Sorting.SortedUnique | main.go:270 | two ascending permutations of one sample are equal, so the sorted sample does not depend on the order it was collected in |
| Survival.SurvivalCurve | main.go:273-285 | the curve has 100 entries, each a fraction between 0 and 1 |
| Survival.FirstAtOrBelowHalf | main.go:288-295 | the index found is the first whose rate is at most one half; when none is found every rate is above one half |
| Survival.SurvivalCurveShape | main.go:273-285 | for a sorted sample of positive lifetimes the curve starts at 1, never rises, and stays strictly positive because every sampled age is below `maxAge` |
| Survival.HalfLifeProperties | main.go:287-300 | `HalfLife`: the half-life is positive and at most `maxAge`; when the curve reaches one half it is the first sampled age where it does (never age 0); otherwise it is the median |
| Survival.MedianIsUpperMiddle | main.go:305 | `MedianAge`: the median is an element of the sample with at least n - n/2 elements at or above it and at most (n-1)/2 above it, the upper middle for an even count |
| Survival.HalfLifeFallsBackWhenMajorityAtMax | main.go:297-300 | when more than half of the sample share the longest lifetime, the curve never reaches one half and the half-life is the median |
| Statistics.Days | main.go:246 | a duration in days is positive exactly when the duration is |
| Statistics.TallyCounts | main.go:242-264 | the walk, one `TallyLine` step per record, counts every record once and the surviving ones once more |
| Statistics.TallySample | main.go:245-262 | the walk's lifetime sample is the positive lifetimes of the records, in visiting order |
| Statistics.PositiveLifetimesCount | main.go:248-261 | the sample has one entry per record with a positive lifetime |
| Statistics.PositiveLifetimesMembers | main.go:248-261 | a value is in the sample exactly when it is positive and is the lifetime of a visited record |
| Statistics.TallyExtremes | main.go:247-257 | oldest and newest lines exist exactly when some surviving line has a positive age; they are such lines, and their ages bound every such age from above and below |
| Statistics.ComputeStats | main.go:235-315 | "no valid lifetimes" exactly when no record has a positive lifetime; the nil-pointer crash exactly when some record does but no surviving line has a positive age; otherwise the totals, surviving and deleted counts are those of the records and add up |
| Statistics.StatsProperties | main.go:270-315 | on success the curve starts at 1, never rises and stays in (0, 1]; the half-life is positive and at most some record's lifetime; the median is a record's lifetime; the oldest and newest lines are surviving records whose ages bound all positive surviving ages |
| Statistics.SampleBounds | main.go:242-268 | the sample has as many entries as records with a positive lifetime, never more than the records, all positive |
| Statistics.PositiveLifetimesPermute | main.go:242 | visiting the records in another order permutes the sample |
| Statistics.StatsIndependentOfOrder | main.go:242-315 | two walks in different orders give the same outcome and the same numbers; only which of several equally old or new lines is named can differ |
| Statistics.AllDeletedCrashes | main.go:307 | a map whose only line was deleted after a positive lifetime reaches the nil-pointer crash |
| Statistics.MedianBeyondOldest | main.go:242-308 | one line kept for a day beside one deleted after ten days gives a median age of ten days but an oldest surviving line of one day |
| Statistics.UniformAges | main.go:242-305 | records that are all alive and all of one positive age give a successful result with no deleted lines, and a half-life equal to the median age, which is that age |
| Analysis.SampleIndicesSpread | main.go:334-338 | with more than five surviving lines the five indices (i*n)/5 are in range and strictly increasing |
| Analysis.SurvivorsInOrderMembers | main.go:328-333 | the surviving slice holds exactly the records without a deletion time |
| Analysis.Samples | main.go:322-339 | the samples hold "oldest" and "newest" and, with more than five survivors, exactly the five keys "sample_0" to "sample_4", where "sample_i" is the survivor at position (i*n)/5; every sample other than the two extremes is a survivor |
| Analysis.SampleLines | main.go:322-339 | the "oldest" and "newest" samples carry the contents the statistics report; every sample is a record, and every other sample a surviving one |
| Analysis.EnumerateKeys | main.go:242 | the order produced visits every key of the map exactly once |
| Analysis.ReportOn | main.go:235-346 | the statistics fail in the two cases above and otherwise describe the records; validation mode adds the replay's timeline and samples drawn from the records |
| Analysis.AnalyzeRepository | main.go:60-346 | the result for a log is that of the records left by replaying it oldest first (`Replay`); an empty log gives "no valid lifetimes"; on success the first and last commit times are those of the oldest and newest commits |
| Analysis.EmptyHistory | main.go:266-268 | a history without commits leaves no records |
| Analysis.SingleCommitHistory | main.go:105-305 | a one-commit history that records some lines gives a successful result with no deleted lines, and a half-life equal to the median age, the time since that commit |

## Left out

- Repository access is not modelled: opening the repository, resolving
  `main` or `master`, reading the log, and reading trees, file contents and
  patches. Commits are given as values instead. An unreadable tree, file or
  patch is `None`. The errors these calls return before any commit is read
  are not modelled.
- An error raised part-way through the first commit's file walk is not
  modelled. Go logs it and keeps the lines recorded so far. In the model a
  file is either read whole or skipped.
- `time.Now()` is the parameter `now`. `time.Sub` saturation and `float64`
  rounding are not modelled: durations are exact.
- `filepath.Match` is the parameter `glob`. Its pattern language is not
  modelled.
- `filepath.Base` is modelled for `/` separators only, without a volume
  name.
- Invalid UTF-8 in file contents is not modelled. Strings are sequences of
  characters.
- The report and output code is not modelled: the report generators, the
  survival-curve formatter, JSON output, flag parsing, `main` and
  `log.Printf`.
- History.LaterCommit: the chunks of each patch are taken as given. The
  program as written receives them diffed from each commit to its parent
  (`commit.Patch(parent)`), so its `Add` chunks carry the lines the commit
  removed and its `Delete` chunks the lines it added. The model follows
  that code as written; it does not compute diffs, and go-git's diff is
  not part of this model.
- Analysis.SampleLines: it does not say which surviving lines are sampled,
  only that each is a surviving record. The surviving slice follows Go's map
  iteration order, which the model leaves open. `Samples` states which
  position of that slice each sample takes.
- Statistics.StatsIndependentOfOrder: it states nothing about
  `oldestLine` and `newestLine`. When several surviving lines share the
  oldest or newest age, the line reported depends on map iteration order.
