/** The statistics pass over the final records (`analyzeRepository`,
    main.go): one walk over the map collects lifetimes, counts and the
    oldest and newest surviving lines; the sorted lifetimes then give the
    survival curve, the half-life and the median. The current time is a
    parameter, and so is the order of the walk, which Go leaves to its
    randomised map iteration. */
module Statistics {
  import opened Wrappers
  import opened Lifecycle
  import opened Sorting
  import opened Survival

  const NanosPerDay: int := 86_400_000_000_000

  /** A duration in days: `d.Hours() / 24`. */
  function Days(d: int): (r: real)
    ensures r > 0.0 <==> d > 0
  {
    (d as real) / (NanosPerDay as real)
  }

  /** The lifetime a record contributes: its age at `now` while it survives,
      creation to deletion once deleted. */
  function Lifetime(line: CodeLine, now: Time): real {
    match line.deletedAt
    case None => Days(now - line.createdAt)
    case Some(d) => Days(d - line.createdAt)
  }

  /** A surviving record with a positive age: the candidates for the oldest
      and newest line. */
  predicate Aged(line: CodeLine, now: Time) {
    line.deletedAt.None? && Lifetime(line, now) > 0.0
  }

  predicate Distinct(order: seq<string>) {
    forall i, j :: 0 <= i < j < |order| ==> order[i] != order[j]
  }

  ghost predicate SameKeys(a: seq<string>, b: seq<string>) {
    forall k :: k in a <==> k in b
  }

  /** `order` visits every key of `m` exactly once, as `range` over a map does. */
  predicate IsEnumeration(order: seq<string>, m: map<string, CodeLine>) {
    Distinct(order) && (forall k :: k in order ==> k in m) && (forall k :: k in m ==> k in order)
  }

  // ---------------------------------------------------------------------------
  // The walk over the records
  // ---------------------------------------------------------------------------

  /** The variables the walk updates. */
  datatype Tally = Tally(
    lifetimes: seq<real>,
    total: nat,
    surviving: nat,
    oldest: Option<CodeLine>,
    oldestAge: real,
    newest: Option<CodeLine>,
    newestAge: real)

  const Start := Tally([], 0, 0, None, 0.0, None, 0.0)

  /** A surviving line of positive `age` competes for oldest (strictly older
      than the current one) and newest (strictly younger). */
  function Extremes(t: Tally, line: CodeLine, age: real): Tally {
    var t1 := if t.oldest.None? || age > t.oldestAge then t.(oldest := Some(line), oldestAge := age) else t;
    if t1.newest.None? || age < t1.newestAge then t1.(newest := Some(line), newestAge := age) else t1
  }

  /** One iteration of the walk. */
  function TallyLine(t: Tally, line: CodeLine, now: Time): Tally {
    match line.deletedAt
    case None =>
      var age := Days(now - line.createdAt);
      var t1 := if age > 0.0 then Extremes(t.(lifetimes := t.lifetimes + [age]), line, age) else t;
      t1.(surviving := t1.surviving + 1, total := t1.total + 1)
    case Some(deletedAt) =>
      var lifetime := Days(deletedAt - line.createdAt);
      var t1 := if lifetime > 0.0 then t.(lifetimes := t.lifetimes + [lifetime]) else t;
      t1.(total := t1.total + 1)
  }

  /** The walk over the records in the order `order`. */
  function TallyKeys(m: map<string, CodeLine>, order: seq<string>, now: Time): Tally
    requires forall k :: k in order ==> k in m
    decreases |order|
  {
    if |order| == 0 then Start
    else TallyLine(TallyKeys(m, order[..|order| - 1], now), m[order[|order| - 1]], now)
  }

  /** The positive lifetimes of the records visited, in visiting order (a
      key without a record contributes nothing). */
  function PositiveLifetimes(m: map<string, CodeLine>, order: seq<string>, now: Time): (r: seq<real>)
    ensures forall j :: 0 <= j < |r| ==> r[j] > 0.0
    decreases |order|
  {
    if |order| == 0 then []
    else
      var key := order[|order| - 1];
      PositiveLifetimes(m, order[..|order| - 1], now)
        + (if key in m && Lifetime(m[key], now) > 0.0 then [Lifetime(m[key], now)] else [])
  }

  lemma {:induction false} PositiveLifetimesConcat(m: map<string, CodeLine>, a: seq<string>, b: seq<string>, now: Time)
    ensures PositiveLifetimes(m, a + b, now) == PositiveLifetimes(m, a, now) + PositiveLifetimes(m, b, now)
    decreases |b|
  {
    if |b| > 0 {
      var ab := a + b;
      assert ab[..|ab| - 1] == a + b[..|b| - 1];
      assert ab[|ab| - 1] == b[|b| - 1];
      PositiveLifetimesConcat(m, a, b[..|b| - 1], now);
    } else {
      assert a + b == a;
    }
  }

  lemma TallyLineCounts(t: Tally, line: CodeLine, now: Time)
    ensures TallyLine(t, line, now).total == t.total + 1
    ensures TallyLine(t, line, now).surviving == t.surviving + (if line.deletedAt.None? then 1 else 0)
  {
  }

  /** The walk's counters: every record is counted once, the surviving ones
      once more. */
  lemma {:induction false} TallyCounts(m: map<string, CodeLine>, order: seq<string>, now: Time)
    requires forall k :: k in order ==> k in m
    requires Distinct(order)
    ensures var t := TallyKeys(m, order, now);
      && t.total == |order|
      && t.surviving == |set k | k in order && m[k].deletedAt.None?|
    decreases |order|
  {
    if |order| > 0 {
      var n := |order|;
      var prefix := order[..n - 1];
      var last := order[n - 1];
      assert order == prefix + [last];
      TallyCounts(m, prefix, now);
      TallyLineCounts(TallyKeys(m, prefix, now), m[last], now);
      SurvivorsSnoc(m, order);
    }
  }

  /** Visiting one more, new, key adds one survivor if its record survives. */
  lemma SurvivorsSnoc(m: map<string, CodeLine>, order: seq<string>)
    requires forall k :: k in order ==> k in m
    requires |order| > 0 && Distinct(order)
    ensures |set k | k in order && m[k].deletedAt.None?|
      == |set k | k in order[..|order| - 1] && m[k].deletedAt.None?| + (if m[order[|order| - 1]].deletedAt.None? then 1 else 0)
  {
    var n := |order|;
    var prefix := order[..n - 1];
    var last := order[n - 1];
    assert order == prefix + [last];
    assert last !in prefix;
    var alive := set k | k in prefix && m[k].deletedAt.None?;
    var alive' := set k | k in order && m[k].deletedAt.None?;
    var extra: set<string> := if m[last].deletedAt.None? then {last} else {};
    assert alive' == alive + extra;
    assert alive !! extra;
  }

  /** The walk's lifetime sample holds the positive lifetimes, in visiting
      order. */
  lemma {:induction false} TallySample(m: map<string, CodeLine>, order: seq<string>, now: Time)
    requires forall k :: k in order ==> k in m
    ensures TallyKeys(m, order, now).lifetimes == PositiveLifetimes(m, order, now)
    decreases |order|
  {
    if |order| > 0 {
      TallySample(m, order[..|order| - 1], now);
    }
  }

  /** One positive lifetime per record that has one. */
  lemma {:induction false} PositiveLifetimesCount(m: map<string, CodeLine>, order: seq<string>, now: Time)
    requires forall k :: k in order ==> k in m
    requires Distinct(order)
    ensures |PositiveLifetimes(m, order, now)| == |set k | k in order && Lifetime(m[k], now) > 0.0|
    decreases |order|
  {
    if |order| > 0 {
      var n := |order|;
      var prefix := order[..n - 1];
      var last := order[n - 1];
      assert order == prefix + [last];
      PositiveLifetimesCount(m, prefix, now);
      assert last !in prefix;
      var pos := set k | k in prefix && Lifetime(m[k], now) > 0.0;
      var pos' := set k | k in order && Lifetime(m[k], now) > 0.0;
      if Lifetime(m[last], now) > 0.0 { assert pos' == pos + {last}; } else { assert pos' == pos; }
    }
  }

  /** One iteration's effect on the oldest line: a surviving line with a
      positive age replaces it when there is none yet or when it is
      strictly older; any other line leaves it alone. */
  lemma TallyLineOldest(t: Tally, line: CodeLine, now: Time)
    ensures var r := TallyLine(t, line, now);
      if Aged(line, now) && (t.oldest.None? || Lifetime(line, now) > t.oldestAge)
      then r.oldest == Some(line) && r.oldestAge == Lifetime(line, now)
      else r.oldest == t.oldest && r.oldestAge == t.oldestAge
  {
  }

  /** One iteration's effect on the newest line, the mirror image. */
  lemma TallyLineNewest(t: Tally, line: CodeLine, now: Time)
    ensures var r := TallyLine(t, line, now);
      if Aged(line, now) && (t.newest.None? || Lifetime(line, now) < t.newestAge)
      then r.newest == Some(line) && r.newestAge == Lifetime(line, now)
      else r.newest == t.newest && r.newestAge == t.newestAge
  {
  }

  /** The walk's oldest line: present exactly when some surviving record has
      a positive age, and then such a record whose age is the largest. */
  lemma {:induction false} TallyOldest(m: map<string, CodeLine>, order: seq<string>, now: Time)
    requires forall k :: k in order ==> k in m
    ensures var t := TallyKeys(m, order, now);
      && (t.oldest.Some? <==> exists k :: k in order && Aged(m[k], now))
      && (t.oldest.Some? ==>
            && (exists k :: k in order && m[k] == t.oldest.value)
            && Aged(t.oldest.value, now) && Lifetime(t.oldest.value, now) == t.oldestAge
            && (forall k :: k in order && Aged(m[k], now) ==> Lifetime(m[k], now) <= t.oldestAge))
    decreases |order|
  {
    if |order| > 0 {
      var n := |order|;
      var prefix := order[..n - 1];
      assert order == prefix + [order[n - 1]];
      TallyOldest(m, prefix, now);
      TallyLineOldest(TallyKeys(m, prefix, now), m[order[n - 1]], now);
    }
  }

  /** The walk's newest line: present exactly when some surviving record has
      a positive age, and then such a record whose age is the smallest. */
  lemma {:induction false} TallyNewest(m: map<string, CodeLine>, order: seq<string>, now: Time)
    requires forall k :: k in order ==> k in m
    ensures var t := TallyKeys(m, order, now);
      && (t.newest.Some? <==> exists k :: k in order && Aged(m[k], now))
      && (t.newest.Some? ==>
            && (exists k :: k in order && m[k] == t.newest.value)
            && Aged(t.newest.value, now) && Lifetime(t.newest.value, now) == t.newestAge
            && (forall k :: k in order && Aged(m[k], now) ==> Lifetime(m[k], now) >= t.newestAge))
    decreases |order|
  {
    if |order| > 0 {
      var n := |order|;
      var prefix := order[..n - 1];
      assert order == prefix + [order[n - 1]];
      TallyNewest(m, prefix, now);
      TallyLineNewest(TallyKeys(m, prefix, now), m[order[n - 1]], now);
    }
  }

  /** Both together: the oldest and newest lines are present or absent
      together, and bound every positive surviving age from both sides. */
  lemma TallyExtremes(m: map<string, CodeLine>, order: seq<string>, now: Time)
    requires forall k :: k in order ==> k in m
    ensures var t := TallyKeys(m, order, now);
      && (t.oldest.Some? <==> exists k :: k in order && Aged(m[k], now))
      && t.newest.Some? == t.oldest.Some?
      && (t.oldest.Some? ==>
            && (exists k :: k in order && m[k] == t.oldest.value)
            && Aged(t.oldest.value, now) && Lifetime(t.oldest.value, now) == t.oldestAge
            && (forall k :: k in order && Aged(m[k], now) ==> Lifetime(m[k], now) <= t.oldestAge))
      && (t.newest.Some? ==>
            && (exists k :: k in order && m[k] == t.newest.value)
            && Aged(t.newest.value, now) && Lifetime(t.newest.value, now) == t.newestAge
            && (forall k :: k in order && Aged(m[k], now) ==> Lifetime(m[k], now) >= t.newestAge))
  {
    TallyOldest(m, order, now);
    TallyNewest(m, order, now);
  }

  // ---------------------------------------------------------------------------
  // The statistics
  // ---------------------------------------------------------------------------

  /** The report's numbers (`Stats`). */
  datatype Stats = Stats(
    halfLife: real,
    totalLines: nat,
    medianAge: real,
    survivalRate: seq<real>,
    oldestLine: string,
    oldestLineAge: real,
    newestLine: string,
    newestLineAge: real,
    deletedLines: int,
    survivingLines: nat,
    firstCommit: Time,
    lastCommit: Time)

  /** The returned error "no valid lifetimes found", and the nil-pointer
      panic on `oldestLine.Content` when no surviving line has a positive
      age. */
  datatype StatsError = NoValidLifetimes | NilOldestLine

  /** The sorted sample the statistics are computed from. */
  function SortedSample(m: map<string, CodeLine>, order: seq<string>, now: Time): seq<real>
    requires forall k :: k in order ==> k in m
  {
    SortReals(TallyKeys(m, order, now).lifetimes)
  }

  /** The statistics of the records `m`, walked in the order `order`. */
  function ComputeStats(m: map<string, CodeLine>, order: seq<string>, now: Time, first: Time, last: Time)
    : (r: Result<Stats, StatsError>)
    requires IsEnumeration(order, m)
    ensures r == Failure(NoValidLifetimes) <==> forall k :: k in m ==> Lifetime(m[k], now) <= 0.0
    ensures r == Failure(NilOldestLine) <==>
      && (exists k :: k in m && Lifetime(m[k], now) > 0.0)
      && (forall k :: k in m ==> !Aged(m[k], now))
    ensures r.Success? ==>
      && r.value.totalLines == |m|
      && r.value.survivingLines == |SurvivingKeys(m)|
      && r.value.deletedLines == |DeletedKeys(m)|
      && r.value.survivingLines + r.value.deletedLines == r.value.totalLines
      && r.value.firstCommit == first && r.value.lastCommit == last
  {
    var t := TallyKeys(m, order, now);
    TallyCounts(m, order, now);
    TallyFailures(m, order, now);
    assert (set k | k in order && m[k].deletedAt.None?) == SurvivingKeys(m);
    if |t.lifetimes| == 0 then Failure(NoValidLifetimes)
    else
      var sorted := SortedSample(m, order, now);
      var maxAge := sorted[|sorted| - 1];
      var rates := SurvivalCurve(sorted, maxAge);
      var halfLife := HalfLife(sorted, maxAge, rates);
      if t.oldest.None? || t.newest.None? then Failure(NilOldestLine)
      else
        DistinctLength(order, m);
        assert DeletedCount(m) == |DeletedKeys(m)|;
        Success(Stats(
          halfLife, t.total, MedianAge(sorted), rates,
          t.oldest.value.content, t.oldestAge, t.newest.value.content, t.newestAge,
          t.total - t.surviving, t.surviving, first, last))
  }

  /** The walk finds no positive lifetime exactly when no record has one,
      and no aged survivor exactly when no record is one. */
  lemma TallyFailures(m: map<string, CodeLine>, order: seq<string>, now: Time)
    requires IsEnumeration(order, m)
    ensures var t := TallyKeys(m, order, now);
      && (|t.lifetimes| == 0 <==> forall k :: k in m ==> Lifetime(m[k], now) <= 0.0)
      && (t.oldest.None? <==> forall k :: k in m ==> !Aged(m[k], now))
      && (t.oldest.None? <==> t.newest.None?)
  {
    var t := TallyKeys(m, order, now);
    TallySample(m, order, now);
    PositiveLifetimesCount(m, order, now);
    TallyExtremes(m, order, now);
    ghost var positive := set k | k in order && Lifetime(m[k], now) > 0.0;
    if positive != {} {
      var k :| k in positive;
    } else {
      forall k | k in m ensures Lifetime(m[k], now) <= 0.0 {
        assert k in order && k !in positive;
      }
    }
    if t.oldest.None? {
      forall k | k in m ensures !Aged(m[k], now) {
        assert k in order;
      }
    }
  }

  lemma {:induction false} DistinctLength(order: seq<string>, m: map<string, CodeLine>)
    requires IsEnumeration(order, m)
    ensures |order| == |m|
  {
    DistinctCard(order);
    assert (set k | k in order) == m.Keys;
  }

  lemma {:induction false} DistinctCard(order: seq<string>)
    requires Distinct(order)
    ensures |set k | k in order| == |order|
    decreases |order|
  {
    if |order| > 0 {
      var n := |order|;
      var prefix := order[..n - 1];
      DistinctCard(prefix);
      assert (set k | k in order) == (set k | k in prefix) + {order[n - 1]};
      assert order[n - 1] !in prefix;
    }
  }

  /** The sample holds exactly the positive lifetimes of the records visited. */
  lemma {:induction false} PositiveLifetimesMembers(m: map<string, CodeLine>, order: seq<string>, now: Time, x: real)
    requires forall k :: k in order ==> k in m
    ensures x in PositiveLifetimes(m, order, now) <==>
      x > 0.0 && exists k :: k in order && Lifetime(m[k], now) == x
    decreases |order|
  {
    if |order| > 0 {
      var n := |order|;
      var prefix := order[..n - 1];
      assert order == prefix + [order[n - 1]];
      PositiveLifetimesMembers(m, prefix, now, x);
    }
  }

  /** Taking the last key of `a` out of `a` and the same key out of `b`
      leaves two duplicate-free sequences with the same keys. */
  lemma RemoveMatching(a: seq<string>, b: seq<string>) returns (i: nat)
    requires |a| > 0 && Distinct(a) && Distinct(b)
    requires SameKeys(a, b)
    ensures i < |b| && b[i] == a[|a| - 1]
    ensures Distinct(b[..i] + b[i + 1..])
    ensures SameKeys(a[..|a| - 1], b[..i] + b[i + 1..])
  {
    var n := |a|;
    assert a[n - 1] in b;
    i :| 0 <= i < |b| && b[i] == a[n - 1];
    DistinctWithout(b, i);
    SameKeysWithout(a, b, i);
  }

  /** Dropping one element keeps a sequence free of repeats. */
  lemma DistinctWithout(b: seq<string>, i: nat)
    requires Distinct(b) && i < |b|
    ensures Distinct(b[..i] + b[i + 1..])
  {
    var b' := b[..i] + b[i + 1..];
    forall p, q | 0 <= p < q < |b'| ensures b'[p] != b'[q] {
      var p' := if p < i then p else p + 1;
      var q' := if q < i then q else q + 1;
      assert b'[p] == b[p'] && b'[q] == b[q'];
    }
  }

  /** Dropping the last key of `a` and the same key from `b` keeps the two
      key sets equal. */
  lemma SameKeysWithout(a: seq<string>, b: seq<string>, i: nat)
    requires |a| > 0 && Distinct(a) && Distinct(b) && SameKeys(a, b)
    requires i < |b| && b[i] == a[|a| - 1]
    ensures SameKeys(a[..|a| - 1], b[..i] + b[i + 1..])
  {
    var n := |a|;
    var a' := a[..n - 1];
    var b' := b[..i] + b[i + 1..];
    forall k ensures k in a' <==> k in b' {
      if k in a' {
        var j :| 0 <= j < n - 1 && a'[j] == k;
        assert a[j] == k;
        assert k in b;
        var j' :| 0 <= j' < |b| && b[j'] == k;
        assert j' != i;
        if j' < i { assert b'[j'] == k; } else { assert b'[j' - 1] == k; }
      }
      if k in b' {
        var j :| 0 <= j < |b'| && b'[j] == k;
        var j' := if j < i then j else j + 1;
        assert b[j'] == k;
        assert k in a;
        var h :| 0 <= h < n && a[h] == k;
        assert h != n - 1;
        assert a'[h] == k;
      }
    }
  }

  lemma MultisetInsert(rest: seq<real>, mid: seq<real>, left: seq<real>, right: seq<real>)
    requires multiset(rest) == multiset(left + right)
    ensures multiset(rest + mid) == multiset(left + (mid + right))
  {
  }

  lemma HeadIsMember(b: seq<string>)
    ensures |b| > 0 ==> b[0] in b
  {
  }

  lemma PositiveLifetimesSnoc(m: map<string, CodeLine>, a: seq<string>, now: Time)
    requires |a| > 0
    ensures PositiveLifetimes(m, a, now) == PositiveLifetimes(m, a[..|a| - 1], now) + PositiveLifetimes(m, [a[|a| - 1]], now)
  {
    assert [a[|a| - 1]][..0] == [];
  }

  lemma PositiveLifetimesAround(m: map<string, CodeLine>, b: seq<string>, i: nat, now: Time)
    requires i < |b|
    ensures PositiveLifetimes(m, b, now)
      == PositiveLifetimes(m, b[..i], now) + (PositiveLifetimes(m, [b[i]], now) + PositiveLifetimes(m, b[i + 1..], now))
  {
    var left, x, right := b[..i], b[i], b[i + 1..];
    assert b == left + ([x] + right);
    PositiveLifetimesConcat(m, left, [x] + right, now);
    PositiveLifetimesConcat(m, [x], right, now);
  }

  /** The induction step: the last key of `a` sits at index `i` of `b`. */
  lemma PermuteStep(m: map<string, CodeLine>, a: seq<string>, b: seq<string>, i: nat, now: Time)
    requires |a| > 0 && i < |b| && b[i] == a[|a| - 1]
    requires multiset(PositiveLifetimes(m, a[..|a| - 1], now)) == multiset(PositiveLifetimes(m, b[..i] + b[i + 1..], now))
    ensures multiset(PositiveLifetimes(m, a, now)) == multiset(PositiveLifetimes(m, b, now))
  {
    PositiveLifetimesSnoc(m, a, now);
    PositiveLifetimesAround(m, b, i, now);
    PositiveLifetimesConcat(m, b[..i], b[i + 1..], now);
    MultisetInsert(PositiveLifetimes(m, a[..|a| - 1], now), PositiveLifetimes(m, [b[i]], now),
                   PositiveLifetimes(m, b[..i], now), PositiveLifetimes(m, b[i + 1..], now));
  }

  /** Visiting the same records in another order permutes the sample. */
  lemma {:induction false} PositiveLifetimesPermute(m: map<string, CodeLine>, a: seq<string>, b: seq<string>, now: Time)
    requires Distinct(a) && Distinct(b)
    requires SameKeys(a, b)
    ensures multiset(PositiveLifetimes(m, a, now)) == multiset(PositiveLifetimes(m, b, now))
    decreases |a|
  {
    if |a| == 0 {
      HeadIsMember(b);
    } else {
      var i := RemoveMatching(a, b);
      PositiveLifetimesPermute(m, a[..|a| - 1], b[..i] + b[i + 1..], now);
      PermuteStep(m, a, b, i, now);
    }
  }

  /** What a successful result promises beyond the counts: the survival curve
      starts at 1, never rises and stays positive; the half-life is
      positive and at most the longest lifetime; the median is the lifetime
      of some record; the oldest and newest lines are surviving records
      whose ages bound every other positive surviving age. */
  lemma StatsProperties(m: map<string, CodeLine>, order: seq<string>, now: Time, first: Time, last: Time)
    requires IsEnumeration(order, m)
    requires ComputeStats(m, order, now, first, last).Success?
    ensures var s := ComputeStats(m, order, now, first, last).value;
      && |s.survivalRate| == TimePoints
      && s.survivalRate[0] == 1.0
      && (forall i, j :: 0 <= i < j < TimePoints ==> s.survivalRate[j] <= s.survivalRate[i])
      && (forall i :: 0 <= i < TimePoints ==> 0.0 < s.survivalRate[i] <= 1.0)
      && 0.0 < s.halfLife
      && (exists k :: k in m && Lifetime(m[k], now) >= s.halfLife)
      && (exists k :: k in m && Lifetime(m[k], now) == s.medianAge > 0.0)
      && (exists k :: k in m && Aged(m[k], now) && m[k].content == s.oldestLine && Lifetime(m[k], now) == s.oldestLineAge)
      && (exists k :: k in m && Aged(m[k], now) && m[k].content == s.newestLine && Lifetime(m[k], now) == s.newestLineAge)
      && (forall k :: k in m && Aged(m[k], now) ==> s.newestLineAge <= Lifetime(m[k], now) <= s.oldestLineAge)
  {
    var t := TallyKeys(m, order, now);
    TallySample(m, order, now);
    TallyExtremes(m, order, now);
    var sorted := SortedSample(m, order, now);
    var n := |sorted|;
    assert n > 0;
    assert sorted[0] in multiset(t.lifetimes);
    assert ValidSample(sorted);
    SurvivalCurveShape(sorted);
    HalfLifeProperties(sorted);
    var maxAge := sorted[n - 1];
    assert maxAge in multiset(t.lifetimes);
    PositiveLifetimesMembers(m, order, now, maxAge);
    var median := MedianAge(sorted);
    assert median in multiset(t.lifetimes);
    PositiveLifetimesMembers(m, order, now, median);
  }

  /** Two walks over the same records find the same sorted sample. */
  lemma SameSample(m: map<string, CodeLine>, o1: seq<string>, o2: seq<string>, now: Time)
    requires IsEnumeration(o1, m) && IsEnumeration(o2, m)
    ensures SortedSample(m, o1, now) == SortedSample(m, o2, now)
  {
    TallySample(m, o1, now);
    TallySample(m, o2, now);
    PositiveLifetimesPermute(m, o1, o2, now);
    SortedUnique(SortedSample(m, o1, now), SortedSample(m, o2, now));
  }

  /** Two walks over the same records find the same oldest age. */
  lemma SameOldestAge(m: map<string, CodeLine>, o1: seq<string>, o2: seq<string>, now: Time)
    requires IsEnumeration(o1, m) && IsEnumeration(o2, m)
    ensures var t1 := TallyKeys(m, o1, now); var t2 := TallyKeys(m, o2, now);
      t1.oldest.Some? == t2.oldest.Some? && (t1.oldest.Some? ==> t1.oldestAge == t2.oldestAge)
  {
    var t1 := TallyKeys(m, o1, now);
    var t2 := TallyKeys(m, o2, now);
    TallyOldest(m, o1, now);
    TallyOldest(m, o2, now);
    if t1.oldest.Some? {
      var k1 :| k1 in o1 && m[k1] == t1.oldest.value;
      assert k1 in o2;
      var k2 :| k2 in o2 && m[k2] == t2.oldest.value;
      assert k2 in o1;
    }
  }

  /** Two walks over the same records find the same newest age. */
  lemma SameNewestAge(m: map<string, CodeLine>, o1: seq<string>, o2: seq<string>, now: Time)
    requires IsEnumeration(o1, m) && IsEnumeration(o2, m)
    ensures var t1 := TallyKeys(m, o1, now); var t2 := TallyKeys(m, o2, now);
      t1.newest.Some? == t2.newest.Some? && (t1.newest.Some? ==> t1.newestAge == t2.newestAge)
  {
    var t1 := TallyKeys(m, o1, now);
    var t2 := TallyKeys(m, o2, now);
    TallyNewest(m, o1, now);
    TallyNewest(m, o2, now);
    if t1.newest.Some? {
      var k1 :| k1 in o1 && m[k1] == t1.newest.value;
      assert k1 in o2;
      var k2 :| k2 in o2 && m[k2] == t2.newest.value;
      assert k2 in o1;
    }
  }

  /** Apart from which of several equally old (or equally new) lines is
      named, the statistics do not depend on the order the records are
      visited in. */
  lemma StatsIndependentOfOrder(m: map<string, CodeLine>, o1: seq<string>, o2: seq<string>, now: Time, first: Time, last: Time)
    requires IsEnumeration(o1, m) && IsEnumeration(o2, m)
    ensures var r1 := ComputeStats(m, o1, now, first, last);
      var r2 := ComputeStats(m, o2, now, first, last);
      && r1.Success? == r2.Success?
      && (r1.Failure? ==> r1 == r2)
      && (r1.Success? ==> r1.value.(oldestLine := "", newestLine := "") == r2.value.(oldestLine := "", newestLine := ""))
  {
    SameSample(m, o1, o2, now);
    SameOldestAge(m, o1, o2, now);
    SameNewestAge(m, o1, o2, now);
    TallyExtremes(m, o1, now);
    TallyExtremes(m, o2, now);
    TallySample(m, o1, now);
    TallySample(m, o2, now);
  }

  /** The lifetime sample: one positive entry per record with a positive
      lifetime, so never more entries than records. */
  lemma SampleBounds(m: map<string, CodeLine>, order: seq<string>, now: Time)
    requires IsEnumeration(order, m)
    ensures |SortedSample(m, order, now)| == |set k | k in m && Lifetime(m[k], now) > 0.0|
    ensures |SortedSample(m, order, now)| <= |m|
    ensures forall j :: 0 <= j < |SortedSample(m, order, now)| ==> SortedSample(m, order, now)[j] > 0.0
  {
    var sorted := SortedSample(m, order, now);
    var t := TallyKeys(m, order, now);
    TallySample(m, order, now);
    PositiveLifetimesCount(m, order, now);
    PermutationPositive(sorted, t.lifetimes);
    var positive := set k | k in m && Lifetime(m[k], now) > 0.0;
    assert (set k | k in order && Lifetime(m[k], now) > 0.0) == positive;
    SubsetCard(positive, m.Keys);
  }

  /** A permutation of a positive sample is positive and as long. */
  lemma PermutationPositive(a: seq<real>, b: seq<real>)
    requires multiset(a) == multiset(b)
    requires forall j :: 0 <= j < |b| ==> b[j] > 0.0
    ensures |a| == |b|
    ensures forall j :: 0 <= j < |a| ==> a[j] > 0.0
  {
    assert |a| == |multiset(a)| == |multiset(b)| == |b|;
    forall j | 0 <= j < |a| ensures a[j] > 0.0 {
      assert a[j] in multiset(b);
    }
  }

  /** The crash is reachable: when every line has been deleted, the sample
      is non-empty but no surviving line exists to be named oldest. */
  lemma AllDeletedCrashes(now: Time)
    ensures var line := CodeLine("x", "a.go", 0, Some(NanosPerDay), "h", 0);
      ComputeStats(map["a.go:x" := line], ["a.go:x"], now, 0, NanosPerDay) == Failure(NilOldestLine)
  {
    var line := CodeLine("x", "a.go", 0, Some(NanosPerDay), "h", 0);
    var m := map["a.go:x" := line];
    assert Lifetime(line, now) > 0.0;
    assert !Aged(line, now);
    assert forall k :: k in m ==> k == "a.go:x";
  }

  /** The example of `MedianBeyondOldest`, at ten days: a line kept since
      day nine and a line deleted on day ten after ten days. */
  const TenDays: Time := 10 * NanosPerDay
  const KeptLine := CodeLine("k", "a.go", 9 * NanosPerDay, None, "h", 9 * NanosPerDay)
  const GoneLine := CodeLine("g", "a.go", 0, Some(10 * NanosPerDay), "h", 0)
  const TwoRecords := map["a.go:k" := KeptLine, "a.go:g" := GoneLine]
  const TwoRecordsOrder := ["a.go:g", "a.go:k"]

  /** The median age is taken over deleted lines too, so it can exceed the
      age of the oldest surviving line: one line kept for a day beside one
      deleted after ten days gives a median of ten days and an oldest line
      of one day. */
  lemma MedianBeyondOldest()
    ensures IsEnumeration(TwoRecordsOrder, TwoRecords)
    ensures var r := ComputeStats(TwoRecords, TwoRecordsOrder, TenDays, 0, TenDays);
      && r.Success?
      && r.value.medianAge == 10.0
      && r.value.oldestLineAge == 1.0
  {
    TwoRecordTally();
    SortTwo(1.0, 10.0);
    StatsFromSample(TwoRecords, TwoRecordsOrder, TenDays, 0, TenDays);
  }

  /** The walk over the example: both lifetimes are sampled and the kept
      line is both the oldest and the newest. */
  lemma TwoRecordTally()
    ensures IsEnumeration(TwoRecordsOrder, TwoRecords)
    ensures Aged(TwoRecords["a.go:k"], TenDays)
    ensures var t := TallyKeys(TwoRecords, TwoRecordsOrder, TenDays);
      && t.lifetimes == [10.0, 1.0]
      && t.oldest == Some(KeptLine) && t.oldestAge == 1.0
      && t.newest == Some(KeptLine)
  {
    var m := TwoRecords;
    var order := TwoRecordsOrder;
    var first := order[..1];
    assert first == ["a.go:g"] && first[..0] == [];
    assert m[first[0]] == GoneLine && m[order[1]] == KeptLine;
    assert Days(10 * NanosPerDay - 0) == 10.0 && Days(TenDays - 9 * NanosPerDay) == 1.0;
    var t0 := TallyKeys(m, first, TenDays);
    assert t0 == TallyLine(TallyKeys(m, first[..0], TenDays), GoneLine, TenDays);
    assert t0.lifetimes == [10.0] && t0.oldest == None && t0.newest == None;
    assert TallyKeys(m, order, TenDays) == TallyLine(t0, KeptLine, TenDays);
  }

  /** Two lifetimes out of order are swapped. */
  lemma SortTwo(a: real, b: real)
    requires a < b
    ensures SortReals([b, a]) == [a, b]
  {
    assert [b, a][1..] == [a];
    assert SortReals([a]) == [a];
  }

  /** Records that are all alive and all of one positive age: the
      statistics succeed, nothing is deleted, and the half-life falls back
      to the median age, which is that age. */
  lemma UniformAges(m: map<string, CodeLine>, order: seq<string>, now: Time, when: Time, first: Time, last: Time)
    requires IsEnumeration(order, m)
    requires m != map[] && AllCreatedAt(m, when) && now > when
    ensures var r := ComputeStats(m, order, now, first, last);
      && r.Success?
      && r.value.deletedLines == 0
      && r.value.halfLife == r.value.medianAge == Days(now - when)
  {
    var k0 :| k0 in m;
    assert Aged(m[k0], now);
    assert DeletedKeys(m) == {};
    UniformSample(m, order, now, when);
    var sorted := SortedSample(m, order, now);
    var maxAge := sorted[|sorted| - 1];
    CountAtLeastFrom(sorted, 0, maxAge);
    HalfLifeFallsBackWhenMajorityAtMax(sorted);
    StatsFromSample(m, order, now, first, last);
  }

  /** All alive and all of one positive age: the sorted sample holds that
      age once per record. */
  lemma UniformSample(m: map<string, CodeLine>, order: seq<string>, now: Time, when: Time)
    requires IsEnumeration(order, m)
    requires m != map[] && AllCreatedAt(m, when) && now > when
    ensures var sorted := SortedSample(m, order, now);
      && ValidSample(sorted)
      && forall j :: 0 <= j < |sorted| ==> sorted[j] == Days(now - when)
  {
    var age := Days(now - when);
    forall k | k in m ensures Lifetime(m[k], now) == age {
    }
    SampleOfOneAge(m, order, now, age);
  }

  /** Records that all have the positive lifetime `age` give a sample of
      `age` only. */
  lemma SampleOfOneAge(m: map<string, CodeLine>, order: seq<string>, now: Time, age: real)
    requires IsEnumeration(order, m)
    requires m != map[] && age > 0.0
    requires forall k :: k in m ==> Lifetime(m[k], now) == age
    ensures var sorted := SortedSample(m, order, now);
      && ValidSample(sorted)
      && forall j :: 0 <= j < |sorted| ==> sorted[j] == age
  {
    var k0 :| k0 in m;
    PositiveLifetimesUniform(m, order, now, age);
    var t := TallyKeys(m, order, now);
    TallySample(m, order, now);
    SampleBounds(m, order, now);
    var sorted := SortedSample(m, order, now);
    assert k0 in (set k | k in m && Lifetime(m[k], now) > 0.0);
    forall j | 0 <= j < |sorted| ensures sorted[j] == age {
      assert sorted[j] in multiset(t.lifetimes);
    }
  }

  /** When every visited record has the lifetime `age`, so has every
      sampled one. */
  lemma {:induction false} PositiveLifetimesUniform(m: map<string, CodeLine>, order: seq<string>, now: Time, age: real)
    requires forall k :: k in order ==> k in m && Lifetime(m[k], now) == age
    ensures forall j :: 0 <= j < |PositiveLifetimes(m, order, now)| ==> PositiveLifetimes(m, order, now)[j] == age
    decreases |order|
  {
    if |order| > 0 {
      PositiveLifetimesUniform(m, order[..|order| - 1], now, age);
    }
  }

  /** A successful result's half-life and median age are those of the
      sorted sample. */
  lemma StatsFromSample(m: map<string, CodeLine>, order: seq<string>, now: Time, first: Time, last: Time)
    requires IsEnumeration(order, m)
    requires ComputeStats(m, order, now, first, last).Success?
    ensures var sorted := SortedSample(m, order, now);
      var s := ComputeStats(m, order, now, first, last).value;
      && |sorted| > 0
      && s.halfLife == HalfLife(sorted, sorted[|sorted| - 1], SurvivalCurve(sorted, sorted[|sorted| - 1]))
      && s.medianAge == MedianAge(sorted)
      && s.oldestLineAge == TallyKeys(m, order, now).oldestAge
  {
  }
}
