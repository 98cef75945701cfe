/** The whole analysis (`analyzeRepository`, main.go): reverse the log,
    replay it, compute the statistics and, in validation mode, pick sample
    lines and hand back the timeline. The repository is the commit log
    (newest first, as `repo.Log` yields it), the clock is the parameter
    `now`, and the two walks over the record map happen in orders chosen
    here without constraint, as Go's map iteration does. */
module Analysis {
  import opened Wrappers
  import opened Lifecycle
  import opened History
  import opened Statistics

  /** The result: the bare statistics, or in validation mode the statistics
      together with sample lines and the lifecycle timeline. */
  datatype Report =
    | StatsOnly(stats: Stats)
    | Validation(stats: Stats, samples: map<string, CodeLine>, timeline: seq<TimelineEvent>)
  {
    function Numbers(): Stats {
      match this
      case StatsOnly(s) => s
      case Validation(s, _, _) => s
    }
  }

  // ---------------------------------------------------------------------------
  // Sample lines
  // ---------------------------------------------------------------------------

  /** How many evenly spread surviving lines are sampled. */
  const SampleCount: nat := 5

  /** The position of sample `i` among `n` surviving lines: `(i * n) / 5`. */
  function SampleIndex(i: nat, n: nat): nat {
    (i * n) / SampleCount
  }

  /** `fmt.Sprintf("sample_%d", i)` for a one-digit `i`. */
  function SampleName(i: nat): string
    requires i < 10
  {
    "sample_" + [('0' as int + i) as char]
  }

  /** With more than five surviving lines the five sample positions are in
      range and strictly increasing, so five different lines are picked. */
  lemma SampleIndicesSpread(n: nat)
    requires n > SampleCount
    ensures forall i :: 0 <= i < SampleCount ==> SampleIndex(i, n) < n
    ensures forall i, j :: 0 <= i < j < SampleCount ==> SampleIndex(i, n) < SampleIndex(j, n)
  {
    assert SampleIndex(0, n) == 0;
    assert SampleIndex(1, n) == n / 5;
    assert SampleIndex(2, n) == (2 * n) / 5;
    assert SampleIndex(3, n) == (3 * n) / 5;
    assert SampleIndex(4, n) == (4 * n) / 5;
  }

  lemma SampleIndexInRange(i: nat, n: nat)
    requires i < SampleCount && n > 0
    ensures SampleIndex(i, n) < n
  {
    assert i * n < SampleCount * n;
  }

  lemma SampleNamesDistinct(i: nat, j: nat)
    requires i < 10 && j < 10 && i != j
    ensures SampleName(i) != SampleName(j)
  {
    assert SampleName(i)[7] != SampleName(j)[7];
  }

  /** The surviving records, in the order `order` visits them. */
  function SurvivorsInOrder(m: map<string, CodeLine>, order: seq<string>): (r: seq<CodeLine>)
    requires forall k :: k in order ==> k in m
    ensures forall j :: 0 <= j < |r| ==> r[j].deletedAt.None?
    decreases |order|
  {
    if |order| == 0 then []
    else
      var line := m[order[|order| - 1]];
      SurvivorsInOrder(m, order[..|order| - 1]) + (if line.deletedAt.None? then [line] else [])
  }

  /** Every surviving record of the map shows up, and nothing else. */
  lemma {:induction false} SurvivorsInOrderMembers(m: map<string, CodeLine>, order: seq<string>, line: CodeLine)
    requires forall k :: k in order ==> k in m
    ensures line in SurvivorsInOrder(m, order) <==>
      line.deletedAt.None? && exists k :: k in order && m[k] == line
    decreases |order|
  {
    if |order| > 0 {
      var n := |order|;
      assert order == order[..n - 1] + [order[n - 1]];
      SurvivorsInOrderMembers(m, order[..n - 1], line);
    }
  }

  /** The names `sample_i` for `i` from `from` up to 4. */
  function SampleNames(from: nat): set<string>
    requires from <= SampleCount
  {
    set i | from <= i < SampleCount :: SampleName(i)
  }

  lemma SampleNamesSplit(from: nat)
    requires from < SampleCount
    ensures SampleNames(from) == SampleNames(from + 1) + {SampleName(from)}
    ensures SampleName(from) !in SampleNames(from + 1)
  {
    forall i | from < i < SampleCount ensures SampleName(i) != SampleName(from) {
      SampleNamesDistinct(i, from);
    }
  }

  /** No sample name is "oldest" or "newest": each starts with 's'. */
  lemma SampleNamesAvoidExtremes(from: nat)
    requires from <= SampleCount
    ensures "oldest" !in SampleNames(from) && "newest" !in SampleNames(from)
  {
    forall i | from <= i < SampleCount ensures SampleName(i) != "oldest" && SampleName(i) != "newest" {
      assert SampleName(i)[0] == 's';
    }
  }

  /** The entries `sample_i` for `i` from `from` up to 4. */
  function SampleEntries(survivors: seq<CodeLine>, from: nat): (r: map<string, CodeLine>)
    requires |survivors| > SampleCount && from <= SampleCount
    ensures r.Keys == SampleNames(from)
    ensures SampledFrom(r, survivors, from)
    ensures forall k :: k in r ==> r[k] in survivors
    decreases SampleCount - from
  {
    if from == SampleCount then map[]
    else
      var rest := SampleEntries(survivors, from + 1);
      SampleIndexInRange(from, |survivors|);
      var line := survivors[SampleIndex(from, |survivors|)];
      SampleNamesSplit(from);
      rest[SampleName(from) := line]
  }

  /** `r` holds, under `sample_i` for each `i` from `from` up to 4, the
      surviving line at the `i`-th sample position. */
  predicate SampledFrom(r: map<string, CodeLine>, survivors: seq<CodeLine>, from: nat) {
    forall i :: from <= i < SampleCount ==>
      && SampleIndex(i, |survivors|) < |survivors|
      && SampleName(i) in r && r[SampleName(i)] == survivors[SampleIndex(i, |survivors|)]
  }

  /** Entries a larger map keeps unchanged stay sampled in it. */
  lemma SampledInLarger(entries: map<string, CodeLine>, r: map<string, CodeLine>, survivors: seq<CodeLine>)
    requires SampledFrom(entries, survivors, 0)
    requires forall k :: k in entries ==> k in r && r[k] == entries[k]
    ensures SampledFrom(r, survivors, 0)
  {
  }

  /** The entries plus the oldest and newest lines under their own names. */
  function WithExtremes(entries: map<string, CodeLine>, oldest: CodeLine, newest: CodeLine): (r: map<string, CodeLine>)
    requires "oldest" !in entries && "newest" !in entries
    ensures r.Keys == entries.Keys + {"oldest", "newest"}
    ensures r["oldest"] == oldest && r["newest"] == newest
    ensures forall k :: k in entries ==> r[k] == entries[k]
  {
    entries["oldest" := oldest]["newest" := newest]
  }

  /** `samples`: the oldest and newest lines, plus five evenly spread
      surviving lines when there are more than five. */
  function Samples(oldest: CodeLine, newest: CodeLine, survivors: seq<CodeLine>): (r: map<string, CodeLine>)
    ensures "oldest" in r && r["oldest"] == oldest
    ensures "newest" in r && r["newest"] == newest
    ensures |survivors| > SampleCount ==> r.Keys == SampleNames(0) + {"oldest", "newest"}
    ensures |survivors| <= SampleCount ==> r.Keys == {"oldest", "newest"}
    ensures forall k :: k in r && k != "oldest" && k != "newest" ==> r[k] in survivors
    ensures |survivors| > SampleCount ==> SampledFrom(r, survivors, 0)
  {
    if |survivors| > SampleCount then SpreadSamples(oldest, newest, survivors)
    else WithExtremes(map[], oldest, newest)
  }

  /** The samples when there are more than five surviving lines. */
  function SpreadSamples(oldest: CodeLine, newest: CodeLine, survivors: seq<CodeLine>): (r: map<string, CodeLine>)
    requires |survivors| > SampleCount
    ensures "oldest" in r && r["oldest"] == oldest
    ensures "newest" in r && r["newest"] == newest
    ensures r.Keys == SampleNames(0) + {"oldest", "newest"}
    ensures forall k :: k in r && k != "oldest" && k != "newest" ==> r[k] in survivors
    ensures SampledFrom(r, survivors, 0)
  {
    SampleNamesAvoidExtremes(0);
    var entries := SampleEntries(survivors, 0);
    var r := WithExtremes(entries, oldest, newest);
    SampledInLarger(entries, r, survivors);
    r
  }

  // ---------------------------------------------------------------------------
  // The analysis
  // ---------------------------------------------------------------------------

  /** The records after replaying the log oldest first. */
  function FinalState(cfg: Config, log: seq<Commit>): Tracker {
    Replay(cfg, Reversed(log))
  }

  /** A history without commits leaves no records, so the analysis ends
      with "no valid lifetimes found" before it looks at any commit. */
  lemma EmptyHistory()
    ensures forall cfg: Config :: FinalState(cfg, []).lines == map[]
  {
    assert Reversed<Commit>([]) == [];
  }

  /** A history of one commit that records some lines: the statistics
      succeed, no line is deleted, and the half-life is the median age,
      the time since that commit. */
  lemma SingleCommitHistory(cfg: Config, c: Commit, order: seq<string>, now: Time)
    requires FinalState(cfg, [c]).lines != map[]
    requires IsEnumeration(order, FinalState(cfg, [c]).lines)
    requires now > c.when
    ensures var r := ComputeStats(FinalState(cfg, [c]).lines, order, now, c.when, c.when);
      && r.Success?
      && r.value.deletedLines == 0
      && r.value.halfLife == r.value.medianAge == Days(now - c.when)
  {
    assert Reversed([c]) == [c];
    assert FinalState(cfg, [c]) == FirstCommit(cfg, c);
    FirstCommitCreatedAt(cfg, c);
    UniformAges(FinalState(cfg, [c]).lines, order, now, c.when, c.when, c.when);
  }

  /** Some order visiting each key of `m` once (a `range` over the map). */
  method EnumerateKeys(m: map<string, CodeLine>) returns (order: seq<string>)
    ensures IsEnumeration(order, m)
  {
    order := [];
    var rest := m.Keys;
    while rest != {}
      invariant rest !! (set k | k in order)
      invariant forall k :: k in order ==> k in m
      invariant forall k :: k in m ==> k in order || k in rest
      invariant rest <= m.Keys
      invariant Distinct(order)
      decreases |rest|
    {
      var k :| k in rest;
      assert k !in order by {
        assert k !in (set k | k in order);
      }
      order := order + [k];
      rest := rest - {k};
    }
  }

  /** The validation-mode samples: the oldest and newest lines the
      statistics name, and five surviving lines taken from a second walk
      over the map, each of them a record of the map. */
  method SampleLines(m: map<string, CodeLine>, order: seq<string>, now: Time, first: Time, last: Time)
    returns (samples: map<string, CodeLine>)
    requires IsEnumeration(order, m)
    requires ComputeStats(m, order, now, first, last).Success?
    ensures "oldest" in samples && samples["oldest"].content == ComputeStats(m, order, now, first, last).value.oldestLine
    ensures "newest" in samples && samples["newest"].content == ComputeStats(m, order, now, first, last).value.newestLine
    ensures forall k :: k in samples ==> exists key :: key in m && m[key] == samples[k]
    ensures forall k :: k in samples && k != "oldest" && k != "newest" ==> samples[k].deletedAt.None?
  {
    var t := TallyKeys(m, order, now);
    TallyExtremes(m, order, now);
    var order2 := EnumerateKeys(m);
    var survivors := SurvivorsInOrder(m, order2);
    samples := Samples(t.oldest.value, t.newest.value, survivors);
    forall k | k in samples
      ensures exists key :: key in m && m[key] == samples[k]
      ensures k != "oldest" && k != "newest" ==> samples[k].deletedAt.None?
    {
      if k != "oldest" && k != "newest" {
        SurvivorsInOrderMembers(m, order2, samples[k]);
      }
    }
  }

  /** What a successful report says about the final records `st`: the
      report kind follows the mode; the counts are those of the records;
      the numbers are the statistics of one walk over them; in validation
      mode the timeline is the replay's and every sample is a record, the
      oldest and newest ones being the lines the statistics name. */
  ghost predicate Describes(st: Tracker, now: Time, first: Time, last: Time, validate: bool, rep: Report) {
    var s := rep.Numbers();
    && (rep.Validation? <==> validate)
    && s.totalLines == |st.lines|
    && s.survivingLines == |SurvivingKeys(st.lines)|
    && s.deletedLines == |DeletedKeys(st.lines)|
    && s.firstCommit == first
    && s.lastCommit == last
    && (exists order :: IsEnumeration(order, st.lines) && ComputeStats(st.lines, order, now, first, last) == Success(s))
    && (rep.Validation? ==>
          && rep.timeline == st.timeline
          && "oldest" in rep.samples && rep.samples["oldest"].content == s.oldestLine
          && "newest" in rep.samples && rep.samples["newest"].content == s.newestLine
          && (forall k :: k in rep.samples ==> exists key :: key in st.lines && st.lines[key] == rep.samples[k]))
  }

  /** The statistics and report for the replayed records `st`. */
  method ReportOn(st: Tracker, now: Time, first: Time, last: Time, validate: bool) returns (r: Result<Report, StatsError>)
    ensures r == Failure(NoValidLifetimes) <==> forall k :: k in st.lines ==> Lifetime(st.lines[k], now) <= 0.0
    ensures r == Failure(NilOldestLine) <==>
      && (exists k :: k in st.lines && Lifetime(st.lines[k], now) > 0.0)
      && (forall k :: k in st.lines ==> !Aged(st.lines[k], now))
    ensures r.Success? ==> Describes(st, now, first, last, validate, r.value)
  {
    var order := EnumerateKeys(st.lines);
    var stats := ComputeStats(st.lines, order, now, first, last);
    if stats.Failure? {
      return Failure(stats.error);
    }
    if !validate {
      r := Success(StatsOnly(stats.value));
    } else {
      var samples := SampleLines(st.lines, order, now, first, last);
      r := Success(Validation(stats.value, samples, st.timeline));
    }
    assert IsEnumeration(order, st.lines) && ComputeStats(st.lines, order, now, first, last) == Success(r.value.Numbers());
  }

  /** `analyzeRepository` on the commit log `log` (newest first): the
      statistics of the records the replay leaves, with the oldest commit's
      time as the first and the newest's as the last. */
  method AnalyzeRepository(log: seq<Commit>, cfg: Config, now: Time) returns (r: Result<Report, StatsError>)
    ensures var lines := FinalState(cfg, log).lines;
      && (r == Failure(NoValidLifetimes) <==> forall k :: k in lines ==> Lifetime(lines[k], now) <= 0.0)
      && (r == Failure(NilOldestLine) <==>
            && (exists k :: k in lines && Lifetime(lines[k], now) > 0.0)
            && (forall k :: k in lines ==> !Aged(lines[k], now)))
    ensures |log| == 0 ==> r == Failure(NoValidLifetimes)
    ensures r.Success? ==>
      |log| > 0 && Describes(FinalState(cfg, log), now, log[|log| - 1].when, log[0].when, cfg.validate, r.value)
  {
    var commits := ReverseCommits(log);
    assert commits == Reversed(log);
    var st := Replay(cfg, commits);
    if |commits| == 0 {
      assert st.lines == map[] by { EmptyHistory(); }
      return Failure(NoValidLifetimes);
    }
    r := ReportOn(st, now, commits[0].when, commits[|commits| - 1].when, cfg.validate);
  }
}
