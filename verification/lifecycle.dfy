/** Per-line lifecycle records and the three ways a single line reaches them:
    the first commit's snapshot, an added line and a deleted line
    (`analyzeRepository` and `countDeletedLines`, main.go). */
module Lifecycle {
  import opened Wrappers
  import opened GoStrings

  /** A commit's author time, in nanoseconds since the epoch. */
  type Time = int

  /** One tracked line identity (`CodeLine`). */
  datatype CodeLine = CodeLine(
    content: string,
    file: string,
    createdAt: Time,
    deletedAt: Option<Time>,
    commitHash: string,
    lastSeen: Time)

  /** The timeline's `Action`: "create" or "delete". */
  datatype Action = Creation | Deletion

  /** One entry of the validation-mode timeline (`TimelineEvent`). */
  datatype TimelineEvent = TimelineEvent(
    time: Time,
    commitHash: string,
    action: Action,
    file: string,
    line: string,
    linesSoFar: nat,
    deletedSoFar: nat)

  /** Everything the replay accumulates: the map `codeLines` and the
      `timeline`, which only grows when validation mode is on. */
  datatype Tracker = Tracker(lines: map<string, CodeLine>, timeline: seq<TimelineEvent>)

  /** The commit being replayed: its hash and author time. */
  datatype Stamp = Stamp(hash: string, when: Time)

  /** How a line reaches the tracker: from the first commit's tree, or from an
      `Add` or a `Delete` chunk of a later commit's patch. */
  datatype LineOp = Snapshot | Added | Deleted

  const Empty := Tracker(map[], [])

  // ---------------------------------------------------------------------------
  // Line identity
  // ---------------------------------------------------------------------------

  /** The identity of a line: `path + ":" + line`. */
  function LineKey(path: string, line: string): string {
    path + ":" + line
  }

  /** The path part of a key: everything before its first ':'. */
  function KeyPath(key: string): (p: string)
    ensures |p| <= |key| && p == key[..|p|]
    ensures ':' !in p
    ensures |p| < |key| ==> key[|p|] == ':'
    decreases |key|
  {
    if |key| == 0 || key[0] == ':' then "" else [key[0]] + KeyPath(key[1..])
  }

  /** The line part of a key: everything after its first ':'. */
  function KeyLine(key: string): string {
    var p := KeyPath(key);
    if |p| < |key| then key[|p| + 1..] else ""
  }

  /** For a path without ':', the key can be split back into its path and
      line. */
  lemma {:induction false} KeyRoundTrip(path: string, line: string)
    requires ':' !in path
    ensures KeyPath(LineKey(path, line)) == path
    ensures KeyLine(LineKey(path, line)) == line
    decreases |path|
  {
    var key := LineKey(path, line);
    if |path| > 0 {
      assert key[1..] == LineKey(path[1..], line);
      assert ':' !in path[1..] by {
        forall i | 0 <= i < |path[1..]| ensures path[1..][i] != ':' { assert path[1..][i] == path[i + 1]; }
      }
      KeyRoundTrip(path[1..], line);
    }
  }

  /** Two lines of paths without ':' share a key only when they are the same
      line of the same file. */
  lemma LineKeyInjective(p1: string, l1: string, p2: string, l2: string)
    requires ':' !in p1 && ':' !in p2
    ensures LineKey(p1, l1) == LineKey(p2, l2) <==> p1 == p2 && l1 == l2
  {
    KeyRoundTrip(p1, l1);
    KeyRoundTrip(p2, l2);
  }

  /** With a ':' in the path, different lines can share a key: line "c" of
      file "a:b" and line "b:c" of file "a" collapse onto one record. */
  lemma LineKeyCollision()
    ensures ("a:b", "c") != ("a", "b:c")
    ensures LineKey("a:b", "c") == LineKey("a", "b:c")
  {
  }

  // ---------------------------------------------------------------------------
  // Deleted lines
  // ---------------------------------------------------------------------------

  function DeletedKeys(m: map<string, CodeLine>): set<string> {
    set k | k in m && m[k].deletedAt.Some?
  }

  function SurvivingKeys(m: map<string, CodeLine>): set<string> {
    set k | k in m && m[k].deletedAt.None?
  }

  lemma SubsetCard<T>(a: set<T>, b: set<T>)
    requires a <= b
    ensures |a| <= |b|
  {
    assert b == a + (b - a);
  }

  /** The number of records whose line has been deleted; never more than the
      number of records. */
  function DeletedCount(m: map<string, CodeLine>): (r: nat)
    ensures r <= |m|
    ensures r + |SurvivingKeys(m)| == |m|
  {
    var d := DeletedKeys(m);
    var s := SurvivingKeys(m);
    assert m.Keys == d + s;
    assert d !! s;
    |d|
  }

  /** The deleted records among the keys `seen`. */
  function DeletedAmong(m: map<string, CodeLine>, seen: set<string>): set<string> {
    set k | k in seen && k in m && m[k].deletedAt.Some?
  }

  lemma DeletedAmongAdd(m: map<string, CodeLine>, seen: set<string>, k: string)
    requires k in m && k !in seen
    ensures |DeletedAmong(m, seen + {k})| == |DeletedAmong(m, seen)| + (if m[k].deletedAt.Some? then 1 else 0)
  {
    if m[k].deletedAt.Some? {
      assert DeletedAmong(m, seen + {k}) == DeletedAmong(m, seen) + {k};
    } else {
      assert DeletedAmong(m, seen + {k}) == DeletedAmong(m, seen);
    }
  }

  /** `countDeletedLines`: walks the records in an arbitrary order (Go's map
      iteration) and counts those with a deletion time. */
  method CountDeletedLines(m: map<string, CodeLine>) returns (count: nat)
    ensures count == |DeletedKeys(m)|
    ensures count <= |m|
  {
    count := 0;
    var rest := m.Keys;
    ghost var seen: set<string> := {};
    while rest != {}
      invariant rest + seen == m.Keys && rest !! seen
      invariant count == |DeletedAmong(m, seen)|
      decreases |rest|
    {
      var k :| k in rest;
      DeletedAmongAdd(m, seen, k);
      if m[k].deletedAt.Some? {
        count := count + 1;
      }
      rest := rest - {k};
      seen := seen + {k};
    }
    assert DeletedAmong(m, seen) == DeletedKeys(m);
    SubsetCard(DeletedKeys(m), m.Keys);
  }

  // ---------------------------------------------------------------------------
  // One line
  // ---------------------------------------------------------------------------

  /** The record a line gets when its key is first seen. */
  function NewLine(c: Stamp, path: string, line: string): CodeLine {
    CodeLine(line, path, c.when, None, c.hash, c.when)
  }

  function CreateEvent(c: Stamp, path: string, line: string, linesSoFar: nat): TimelineEvent {
    TimelineEvent(c.when, c.hash, Creation, path, line, linesSoFar, 0)
  }

  function DeleteEvent(c: Stamp, path: string, line: string, linesSoFar: nat, deletedSoFar: nat): TimelineEvent {
    TimelineEvent(c.when, c.hash, Deletion, path, line, linesSoFar, deletedSoFar)
  }

  function Log(timeline: seq<TimelineEvent>, validate: bool, e: TimelineEvent): seq<TimelineEvent> {
    if validate then timeline + [e] else timeline
  }

  /** Stores a fresh record under the line's key and logs its creation. */
  function Created(st: Tracker, validate: bool, c: Stamp, path: string, line: string): (r: Tracker)
    ensures r.lines.Keys == st.lines.Keys + {LineKey(path, line)}
    ensures r.lines[LineKey(path, line)] == NewLine(c, path, line)
    ensures forall k :: k in st.lines && k != LineKey(path, line) ==> r.lines[k] == st.lines[k]
    ensures r.timeline == Log(st.timeline, validate, CreateEvent(c, path, line, |r.lines|))
  {
    var lines := st.lines[LineKey(path, line) := NewLine(c, path, line)];
    Tracker(lines, Log(st.timeline, validate, CreateEvent(c, path, line, |lines|)))
  }

  /** Refreshes `lastSeen` of the record under `key`. */
  function Touched(st: Tracker, key: string, when: Time): (r: Tracker)
    requires key in st.lines
    ensures r.lines.Keys == st.lines.Keys
    ensures r.lines[key] == st.lines[key].(lastSeen := when)
    ensures forall k :: k in st.lines && k != key ==> r.lines[k] == st.lines[k]
    ensures r.timeline == st.timeline
  {
    Tracker(st.lines[key := st.lines[key].(lastSeen := when)], st.timeline)
  }

  /** A line of the first commit's tree: recorded as created, whether or not
      its key is already present (duplicates collapse into one record). */
  function SnapshotLine(st: Tracker, validate: bool, c: Stamp, path: string, line: string): (r: Tracker)
    ensures IsBlank(line) ==> r == st
    ensures !IsBlank(line) ==> r.lines.Keys == st.lines.Keys + {LineKey(path, line)}
    ensures !IsBlank(line) ==>
      var rec := r.lines[LineKey(path, line)];
      rec.content == line && rec.file == path && rec.createdAt == c.when && rec.lastSeen == c.when
      && rec.deletedAt == None && rec.commitHash == c.hash
    ensures forall k :: k in st.lines && k != LineKey(path, line) ==> r.lines[k] == st.lines[k]
    ensures !IsBlank(line) && validate ==>
      r.timeline == st.timeline + [TimelineEvent(c.when, c.hash, Creation, path, line, |r.lines|, 0)]
    ensures IsBlank(line) || !validate ==> r.timeline == st.timeline
  {
    TrimSpaceEmptyIffBlank(line);
    if TrimSpace(line) == "" then st
    else Created(st, validate, c, path, line)
  }

  /** A line of an `Add` chunk: a new key gets a fresh record, an existing
      key (even one whose line was deleted) only has `lastSeen` refreshed. */
  function AddLine(st: Tracker, validate: bool, c: Stamp, path: string, line: string): (r: Tracker)
    ensures IsBlank(line) ==> r == st
    ensures !IsBlank(line) ==> r.lines.Keys == st.lines.Keys + {LineKey(path, line)}
    ensures !IsBlank(line) && LineKey(path, line) !in st.lines ==>
      var rec := r.lines[LineKey(path, line)];
      rec.content == line && rec.file == path && rec.createdAt == c.when && rec.lastSeen == c.when
      && rec.deletedAt == None && rec.commitHash == c.hash
    ensures !IsBlank(line) && LineKey(path, line) in st.lines ==>
      var old_ := st.lines[LineKey(path, line)];
      var rec := r.lines[LineKey(path, line)];
      rec.lastSeen == c.when && rec.content == old_.content && rec.file == old_.file
      && rec.createdAt == old_.createdAt && rec.deletedAt == old_.deletedAt && rec.commitHash == old_.commitHash
    ensures forall k :: k in st.lines && k != LineKey(path, line) ==> r.lines[k] == st.lines[k]
    ensures !IsBlank(line) && LineKey(path, line) !in st.lines && validate ==>
      r.timeline == st.timeline + [TimelineEvent(c.when, c.hash, Creation, path, line, |r.lines|, 0)]
    ensures IsBlank(line) || LineKey(path, line) in st.lines || !validate ==> r.timeline == st.timeline
  {
    TrimSpaceEmptyIffBlank(line);
    if TrimSpace(line) == "" then st
    else
      var key := LineKey(path, line);
      if key !in st.lines then Created(st, validate, c, path, line)
      else Touched(st, key, c.when)
  }

  /** A line of a `Delete` chunk: an existing key gets `deletedAt` set to the
      commit time (overwriting an earlier deletion); an unknown key is
      ignored. The set of keys never changes. */
  function DeleteLine(st: Tracker, validate: bool, c: Stamp, path: string, line: string): (r: Tracker)
    ensures r.lines.Keys == st.lines.Keys
    ensures IsBlank(line) || LineKey(path, line) !in st.lines ==> r == st
    ensures !IsBlank(line) && LineKey(path, line) in st.lines ==>
      var old_ := st.lines[LineKey(path, line)];
      var rec := r.lines[LineKey(path, line)];
      rec.deletedAt == Some(c.when) && rec.content == old_.content && rec.file == old_.file
      && rec.createdAt == old_.createdAt && rec.lastSeen == old_.lastSeen && rec.commitHash == old_.commitHash
    ensures forall k :: k in st.lines && k != LineKey(path, line) ==> r.lines[k] == st.lines[k]
    ensures !IsBlank(line) && LineKey(path, line) in st.lines && validate ==>
      r.timeline == st.timeline
        + [TimelineEvent(c.when, c.hash, Deletion, path, line, |r.lines|, |DeletedKeys(r.lines)|)]
    ensures !validate ==> r.timeline == st.timeline
  {
    TrimSpaceEmptyIffBlank(line);
    if TrimSpace(line) == "" then st
    else
      var key := LineKey(path, line);
      if key in st.lines then Stamped(st, validate, c, path, line)
      else st
  }

  /** A line deleted by one commit and added back by a later one stays
      deleted: the add finds the key and only refreshes `lastSeen`. */
  lemma ReAddKeepsDeletion(st: Tracker, validate: bool, c1: Stamp, c2: Stamp, path: string, line: string)
    requires !IsBlank(line) && LineKey(path, line) in st.lines
    ensures var r := AddLine(DeleteLine(st, validate, c1, path, line), validate, c2, path, line);
      && LineKey(path, line) in DeletedKeys(r.lines)
      && r.lines[LineKey(path, line)].deletedAt == Some(c1.when)
      && r.lines[LineKey(path, line)].lastSeen == c2.when
      && r.lines[LineKey(path, line)].createdAt == st.lines[LineKey(path, line)].createdAt
  {
  }

  /** Sets the deletion time of the record under the line's key and logs
      the deletion with the current counts. */
  function Stamped(st: Tracker, validate: bool, c: Stamp, path: string, line: string): (r: Tracker)
    requires LineKey(path, line) in st.lines
    ensures r.lines.Keys == st.lines.Keys
    ensures r.lines[LineKey(path, line)] == st.lines[LineKey(path, line)].(deletedAt := Some(c.when))
    ensures forall k :: k in st.lines && k != LineKey(path, line) ==> r.lines[k] == st.lines[k]
    ensures r.timeline == Log(st.timeline, validate, DeleteEvent(c, path, line, |r.lines|, |DeletedKeys(r.lines)|))
  {
    var key := LineKey(path, line);
    var lines := st.lines[key := st.lines[key].(deletedAt := Some(c.when))];
    var deleted := DeletedCount(lines);
    Tracker(lines, Log(st.timeline, validate, DeleteEvent(c, path, line, |lines|, deleted)))
  }

  function Step(st: Tracker, validate: bool, op: LineOp, c: Stamp, path: string, line: string): Tracker {
    match op
    case Snapshot => SnapshotLine(st, validate, c, path, line)
    case Added => AddLine(st, validate, c, path, line)
    case Deleted => DeleteLine(st, validate, c, path, line)
  }

  /** The lines of one file snapshot or one chunk, in order. */
  function ApplyLines(st: Tracker, validate: bool, op: LineOp, c: Stamp, path: string, lines: seq<string>): Tracker
    decreases |lines|
  {
    if |lines| == 0 then st
    else ApplyLines(Step(st, validate, op, c, path, lines[0]), validate, op, c, path, lines[1..])
  }

  // ---------------------------------------------------------------------------
  // What every step preserves
  // ---------------------------------------------------------------------------

  /** `b` comes from `a` by replay: no key is lost and the timeline is only
      appended to. */
  ghost predicate Grows(a: Tracker, b: Tracker) {
    a.lines.Keys <= b.lines.Keys && a.timeline <= b.timeline
  }

  /** What a later commit cannot change about a record: its content, file,
      creation time and creating commit; and a deleted line stays deleted. */
  ghost predicate Keeps(x: CodeLine, y: CodeLine) {
    && y.content == x.content && y.file == x.file
    && y.createdAt == x.createdAt && y.commitHash == x.commitHash
    && (x.deletedAt.Some? ==> y.deletedAt.Some?)
  }

  ghost predicate Persists(a: Tracker, b: Tracker) {
    forall k :: k in a.lines ==> k in b.lines && Keeps(a.lines[k], b.lines[k])
  }

  /** The running counts logged in the timeline: every event sees at least
      one record and at most the current number, never more deleted records
      than records, and the running record count never decreases. */
  ghost predicate TimelineOk(st: Tracker) {
    && (forall i :: 0 <= i < |st.timeline| ==>
          1 <= st.timeline[i].linesSoFar <= |st.lines|
          && st.timeline[i].deletedSoFar <= st.timeline[i].linesSoFar)
    && (forall i, j :: 0 <= i < j < |st.timeline| ==> st.timeline[i].linesSoFar <= st.timeline[j].linesSoFar)
  }

  /** No record mentions a time later than `t`, and each is deleted and seen
      no earlier than it was created. */
  ghost predicate Ordered(st: Tracker, t: Time) {
    forall k :: k in st.lines ==>
      var rec := st.lines[k];
      rec.createdAt <= rec.lastSeen <= t
      && (rec.deletedAt.Some? ==> rec.createdAt <= rec.deletedAt.value <= t)
  }

  function CreateCount(timeline: seq<TimelineEvent>): nat
    decreases |timeline|
  {
    if |timeline| == 0 then 0
    else CreateCount(timeline[..|timeline| - 1]) + (if timeline[|timeline| - 1].action == Creation then 1 else 0)
  }

  lemma OrderedLater(st: Tracker, t: Time, t': Time)
    requires Ordered(st, t) && t <= t'
    ensures Ordered(st, t')
  {
  }

  lemma TimelineOkAppend(st: Tracker, r: Tracker, e: TimelineEvent)
    requires TimelineOk(st) && st.lines.Keys <= r.lines.Keys
    requires r.timeline == st.timeline + [e]
    requires 1 <= e.linesSoFar == |r.lines| && e.deletedSoFar <= e.linesSoFar
    ensures TimelineOk(r)
  {
    SubsetCard(st.lines.Keys, r.lines.Keys);
  }

  lemma TimelineOkSame(st: Tracker, r: Tracker)
    requires TimelineOk(st) && st.lines.Keys <= r.lines.Keys && r.timeline == st.timeline
    ensures TimelineOk(r)
  {
    SubsetCard(st.lines.Keys, r.lines.Keys);
  }

  lemma CreateCountAppend(timeline: seq<TimelineEvent>, e: TimelineEvent)
    ensures CreateCount(timeline + [e]) == CreateCount(timeline) + (if e.action == Creation then 1 else 0)
  {
    assert (timeline + [e])[..|timeline|] == timeline;
  }

  /** What replaying part of the history guarantees about the tracker: it
      grows, its timeline counts stay consistent, and, when `exact` (outside
      the first commit), no record loses its identity and every logged
      creation is exactly one new record; the first commit may log more
      creations than records (duplicate lines). Without validation mode the
      timeline stays as it was. */
  ghost predicate Replays(a: Tracker, b: Tracker, validate: bool, exact: bool) {
    && Grows(a, b)
    && (TimelineOk(a) ==> TimelineOk(b))
    && (exact ==> Persists(a, b))
    && (validate && exact ==> CreateCount(b.timeline) + |a.lines| == CreateCount(a.timeline) + |b.lines|)
    && (validate && !exact ==> CreateCount(b.timeline) + |a.lines| >= CreateCount(a.timeline) + |b.lines|)
    && (!validate ==> b.timeline == a.timeline)
  }

  lemma ReplaysTrans(a: Tracker, b: Tracker, d: Tracker, validate: bool, exact: bool)
    requires Replays(a, b, validate, exact) && Replays(b, d, validate, exact)
    ensures Replays(a, d, validate, exact)
  {
  }

  lemma ReplaysRefl(a: Tracker, validate: bool, exact: bool)
    ensures Replays(a, a, validate, exact)
  {
  }

  /** Storing a fresh record adds at most one key and, in validation mode,
      one creation event; a key that was absent leaves every other record
      as it was. */
  lemma CreatedPreserves(st: Tracker, validate: bool, c: Stamp, path: string, line: string)
    ensures var r := Created(st, validate, c, path, line);
      && Grows(st, r)
      && (TimelineOk(st) ==> TimelineOk(r))
      && (validate ==> CreateCount(r.timeline) == CreateCount(st.timeline) + 1)
      && (!validate ==> r.timeline == st.timeline)
      && |r.lines| <= |st.lines| + 1
      && (LineKey(path, line) !in st.lines ==> |r.lines| == |st.lines| + 1 && Persists(st, r))
      && (Ordered(st, c.when) ==> Ordered(r, c.when))
  {
    var r := Created(st, validate, c, path, line);
    var key := LineKey(path, line);
    assert r.lines.Keys == st.lines.Keys + {key};
    if key !in st.lines {
      assert |r.lines.Keys| == |st.lines.Keys| + 1;
    } else {
      assert r.lines.Keys == st.lines.Keys;
    }
    if validate {
      var e := CreateEvent(c, path, line, |r.lines|);
      CreateCountAppend(st.timeline, e);
      if TimelineOk(st) { TimelineOkAppend(st, r, e); }
    } else if TimelineOk(st) {
      TimelineOkSame(st, r);
    }
  }

  lemma SnapshotLinePreserves(st: Tracker, validate: bool, c: Stamp, path: string, line: string)
    ensures var r := SnapshotLine(st, validate, c, path, line);
      Replays(st, r, validate, false) && (Ordered(st, c.when) ==> Ordered(r, c.when))
  {
    TrimSpaceEmptyIffBlank(line);
    if !IsBlank(line) {
      CreatedPreserves(st, validate, c, path, line);
    }
  }

  lemma AddLinePreserves(st: Tracker, validate: bool, c: Stamp, path: string, line: string)
    ensures var r := AddLine(st, validate, c, path, line);
      Replays(st, r, validate, true) && (Ordered(st, c.when) ==> Ordered(r, c.when))
  {
    var key := LineKey(path, line);
    if !IsBlank(line) {
      if key !in st.lines {
        AddNewLinePreserves(st, validate, c, path, line);
      } else {
        AddKnownLinePreserves(st, validate, c, path, line);
      }
    }
  }

  lemma AddNewLinePreserves(st: Tracker, validate: bool, c: Stamp, path: string, line: string)
    requires !IsBlank(line) && LineKey(path, line) !in st.lines
    ensures var r := AddLine(st, validate, c, path, line);
      Replays(st, r, validate, true) && (Ordered(st, c.when) ==> Ordered(r, c.when))
  {
    TrimSpaceEmptyIffBlank(line);
    CreatedPreserves(st, validate, c, path, line);
  }

  lemma AddKnownLinePreserves(st: Tracker, validate: bool, c: Stamp, path: string, line: string)
    requires !IsBlank(line) && LineKey(path, line) in st.lines
    ensures var r := AddLine(st, validate, c, path, line);
      Replays(st, r, validate, true) && (Ordered(st, c.when) ==> Ordered(r, c.when))
  {
    TrimSpaceEmptyIffBlank(line);
    var key := LineKey(path, line);
    var r := Touched(st, key, c.when);
    assert Persists(st, r);
    if TimelineOk(st) { TimelineOkSame(st, r); }
  }

  lemma DeleteLinePreserves(st: Tracker, validate: bool, c: Stamp, path: string, line: string)
    ensures var r := DeleteLine(st, validate, c, path, line);
      Replays(st, r, validate, true) && (Ordered(st, c.when) ==> Ordered(r, c.when))
  {
    TrimSpaceEmptyIffBlank(line);
    if !IsBlank(line) && LineKey(path, line) in st.lines {
      StampedPreserves(st, validate, c, path, line);
    }
  }

  lemma StampedPreserves(st: Tracker, validate: bool, c: Stamp, path: string, line: string)
    requires LineKey(path, line) in st.lines
    ensures var r := Stamped(st, validate, c, path, line);
      Replays(st, r, validate, true) && (Ordered(st, c.when) ==> Ordered(r, c.when))
  {
    var r := Stamped(st, validate, c, path, line);
    assert Persists(st, r);
    if validate {
      var e := DeleteEvent(c, path, line, |r.lines|, |DeletedKeys(r.lines)|);
      CreateCountAppend(st.timeline, e);
      assert DeletedCount(r.lines) == |DeletedKeys(r.lines)|;
      if TimelineOk(st) { TimelineOkAppend(st, r, e); }
    } else if TimelineOk(st) {
      TimelineOkSame(st, r);
    }
  }

  /** The lines of one snapshot file or one chunk, replayed in order. */
  lemma {:induction false} ApplyLinesPreserves(st: Tracker, validate: bool, op: LineOp, c: Stamp, path: string, lines: seq<string>)
    ensures var r := ApplyLines(st, validate, op, c, path, lines);
      Replays(st, r, validate, op != Snapshot) && (Ordered(st, c.when) ==> Ordered(r, c.when))
    decreases |lines|
  {
    if |lines| == 0 {
      ReplaysRefl(st, validate, op != Snapshot);
    } else {
      var mid := Step(st, validate, op, c, path, lines[0]);
      match op {
        case Snapshot => SnapshotLinePreserves(st, validate, c, path, lines[0]);
        case Added => AddLinePreserves(st, validate, c, path, lines[0]);
        case Deleted => DeleteLinePreserves(st, validate, c, path, lines[0]);
      }
      ApplyLinesPreserves(mid, validate, op, c, path, lines[1..]);
      ReplaysTrans(st, mid, ApplyLines(st, validate, op, c, path, lines), validate, op != Snapshot);
    }
  }

  /** Every record is alive and was created at `when`. */
  predicate AllCreatedAt(m: map<string, CodeLine>, when: Time) {
    forall k :: k in m ==> m[k].deletedAt == None && m[k].createdAt == when
  }

  /** A snapshot only records live lines created at the commit's time. */
  lemma {:induction false} SnapshotLinesCreatedAt(st: Tracker, validate: bool, c: Stamp, path: string, lines: seq<string>)
    requires AllCreatedAt(st.lines, c.when)
    ensures AllCreatedAt(ApplyLines(st, validate, Snapshot, c, path, lines).lines, c.when)
    decreases |lines|
  {
    if |lines| > 0 {
      var mid := Step(st, validate, Snapshot, c, path, lines[0]);
      SnapshotLineCreatedAt(st, validate, c, path, lines[0]);
      SnapshotLinesCreatedAt(mid, validate, c, path, lines[1..]);
    }
  }

  /** One snapshot line keeps every record alive and created at `c.when`. */
  lemma SnapshotLineCreatedAt(st: Tracker, validate: bool, c: Stamp, path: string, line: string)
    requires AllCreatedAt(st.lines, c.when)
    ensures AllCreatedAt(SnapshotLine(st, validate, c, path, line).lines, c.when)
  {
    var r := SnapshotLine(st, validate, c, path, line);
    forall k | k in r.lines ensures r.lines[k].deletedAt == None && r.lines[k].createdAt == c.when {
      if k != LineKey(path, line) {
        assert k in st.lines;
      }
    }
  }

  /** Every event `b` adds after `a` is a creation. */
  predicate CreationsOnly(a: seq<TimelineEvent>, b: seq<TimelineEvent>) {
    CreateCount(b) + |a| == CreateCount(a) + |b|
  }

  /** A snapshot line logs nothing but a creation. */
  lemma SnapshotLineCreationsOnly(st: Tracker, validate: bool, c: Stamp, path: string, line: string)
    ensures CreationsOnly(st.timeline, SnapshotLine(st, validate, c, path, line).timeline)
  {
    var r := SnapshotLine(st, validate, c, path, line);
    if !IsBlank(line) && validate {
      CreateCountAppend(st.timeline, r.timeline[|r.timeline| - 1]);
      assert r.timeline == st.timeline + [r.timeline[|r.timeline| - 1]];
    }
  }

  /** The lines of a snapshot file log nothing but creations. */
  lemma {:induction false} SnapshotLinesCreationsOnly(st: Tracker, validate: bool, c: Stamp, path: string, lines: seq<string>)
    ensures CreationsOnly(st.timeline, ApplyLines(st, validate, Snapshot, c, path, lines).timeline)
    decreases |lines|
  {
    if |lines| > 0 {
      var mid := Step(st, validate, Snapshot, c, path, lines[0]);
      SnapshotLineCreationsOnly(st, validate, c, path, lines[0]);
      SnapshotLinesCreationsOnly(mid, validate, c, path, lines[1..]);
    }
  }
}
