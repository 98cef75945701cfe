/** Replaying a commit history into the lifecycle tracker
    (`analyzeRepository`, main.go): the log is reversed to run oldest first,
    the first commit's tree is recorded line by line, and every later commit
    contributes the `Add` and `Delete` chunks of its patch. The repository
    itself is replaced by plain values: each commit carries its tree (used
    for the first commit only) and its patch against the previous commit
    (used for the others), either of which may be unreadable. */
module History {
  import opened Wrappers
  import opened GoStrings
  import opened Patterns
  import opened Lifecycle

  /** go-git's `diff.Operation`. */
  datatype Operation = Equal | Add | Delete

  datatype Chunk = Chunk(op: Operation, content: string)

  /** One file's part of a patch, in go-git's `FilePatch.Files()` order:
      `from` is the path on the side the diff starts from and `to` the path
      on the side it goes to (either may be absent when the file exists on
      one side only), followed by the chunks that turn `from` into `to`.
      The replay asks for each later commit's patch with
      `commit.Patch(parent)`, a diff from the commit to its parent: `from`
      is the file in the commit, `to` the file in the parent, and the `Add`
      chunks hold lines the parent has and the commit lacks. */
  datatype FilePatch = FilePatch(from: Option<string>, to: Option<string>, chunks: seq<Chunk>)

  /** One file of a tree; `None` when its contents cannot be read. */
  datatype TreeFile = TreeFile(name: string, contents: Option<string>)

  /** A commit as the replay sees it. `None` marks a tree or patch that
      cannot be read. */
  datatype Commit = Commit(
    hash: string,
    when: Time,
    tree: Option<seq<TreeFile>>,
    patch: Option<seq<FilePatch>>)

  /** The file filter and the validation-mode switch. */
  datatype Config = Config(pattern: string, glob: (string, string) -> GlobOutcome, validate: bool)

  function StampOf(c: Commit): Stamp {
    Stamp(c.hash, c.when)
  }

  // ---------------------------------------------------------------------------
  // Commit order
  // ---------------------------------------------------------------------------

  /** The sequence read back to front. */
  function Reversed<T>(s: seq<T>): (r: seq<T>)
    ensures |r| == |s|
  {
    seq(|s|, i requires 0 <= i < |s| => s[|s| - 1 - i])
  }

  lemma {:induction false} ReversedMultiset<T>(s: seq<T>)
    ensures multiset(Reversed(s)) == multiset(s)
    decreases |s|
  {
    if |s| > 0 {
      ReversedMultiset(s[1..]);
      assert Reversed(s) == Reversed(s[1..]) + [s[0]];
      assert s == [s[0]] + s[1..];
    }
  }

  /** The log comes newest first; it is reversed in place by swapping
      positions `i` and `n-1-i` for `i` from `n/2-1` down to 0. */
  method ReverseCommits<T>(log: seq<T>) returns (commits: seq<T>)
    ensures |commits| == |log|
    ensures forall k :: 0 <= k < |log| ==> commits[k] == log[|log| - 1 - k]
    ensures multiset(commits) == multiset(log)
  {
    var a := new T[|log|](k requires 0 <= k < |log| => log[k]);
    var n := a.Length;
    var i := n / 2 - 1;
    while i >= 0
      invariant -1 <= i <= n / 2 - 1
      invariant forall k :: 0 <= k < n && i < k < n - 1 - i ==> a[k] == log[n - 1 - k]
      invariant forall k :: 0 <= k < n && !(i < k < n - 1 - i) ==> a[k] == log[k]
      decreases i
    {
      var opp := n - 1 - i;
      a[i], a[opp] := a[opp], a[i];
      i := i - 1;
    }
    commits := a[..];
    assert commits == Reversed(log);
    ReversedMultiset(log);
  }

  // ---------------------------------------------------------------------------
  // The first commit: every line of every matching file
  // ---------------------------------------------------------------------------

  function SnapshotFile(st: Tracker, cfg: Config, c: Stamp, f: TreeFile): Tracker {
    if !MatchesPattern(f.name, cfg.pattern, cfg.glob) then st
    else
      match f.contents
      case None => st
      case Some(text) => ApplyLines(st, cfg.validate, Snapshot, c, f.name, SplitLines(text))
  }

  function SnapshotFiles(st: Tracker, cfg: Config, c: Stamp, files: seq<TreeFile>): Tracker
    decreases |files|
  {
    if |files| == 0 then st
    else SnapshotFiles(SnapshotFile(st, cfg, c, files[0]), cfg, c, files[1..])
  }

  /** The tracker after the first commit; an unreadable tree records nothing. */
  function FirstCommit(cfg: Config, c: Commit): Tracker {
    match c.tree
    case None => Empty
    case Some(files) => SnapshotFiles(Empty, cfg, StampOf(c), files)
  }

  // ---------------------------------------------------------------------------
  // Later commits: the Add and Delete chunks of the patch
  // ---------------------------------------------------------------------------

  /** The path a file patch is filed under: the `to` path when there is
      one, otherwise the `from` path. In the replay's patches `to` is the
      parent's side, so a renamed file is filed under its name in the
      parent, and a file the commit created under its name in the commit. */
  function PatchPath(fp: FilePatch): (r: Option<string>)
    ensures r.None? <==> fp.to.None? && fp.from.None?
    ensures fp.to.Some? ==> r == fp.to
    ensures fp.to.None? ==> r == fp.from
  {
    if fp.to.Some? then fp.to else fp.from
  }

  /** One chunk: its lines are added or deleted; an `Equal` chunk is
      ignored. */
  function ApplyChunk(st: Tracker, cfg: Config, c: Stamp, path: string, ch: Chunk): (r: Tracker)
    ensures ch.op == Equal ==> r == st
  {
    match ch.op
    case Add => ApplyLines(st, cfg.validate, Added, c, path, SplitLines(ch.content))
    case Delete => ApplyLines(st, cfg.validate, Deleted, c, path, SplitLines(ch.content))
    case Equal => st
  }

  function ApplyChunks(st: Tracker, cfg: Config, c: Stamp, path: string, chunks: seq<Chunk>): Tracker
    decreases |chunks|
  {
    if |chunks| == 0 then st
    else ApplyChunks(ApplyChunk(st, cfg, c, path, chunks[0]), cfg, c, path, chunks[1..])
  }

  /** One file of a patch: skipped when it has neither path or when the
      filter rejects its path, otherwise its chunks are applied in order. */
  function ApplyFilePatch(st: Tracker, cfg: Config, c: Stamp, fp: FilePatch): (r: Tracker)
    ensures fp.to.None? && fp.from.None? ==> r == st
    ensures PatchPath(fp).Some? && !MatchesPattern(PatchPath(fp).value, cfg.pattern, cfg.glob) ==> r == st
    ensures PatchPath(fp).Some? && MatchesPattern(PatchPath(fp).value, cfg.pattern, cfg.glob) ==>
      r == ApplyChunks(st, cfg, c, PatchPath(fp).value, fp.chunks)
  {
    match PatchPath(fp)
    case None => st
    case Some(path) =>
      if !MatchesPattern(path, cfg.pattern, cfg.glob) then st
      else ApplyChunks(st, cfg, c, path, fp.chunks)
  }

  function ApplyFilePatches(st: Tracker, cfg: Config, c: Stamp, fps: seq<FilePatch>): Tracker
    decreases |fps|
  {
    if |fps| == 0 then st
    else ApplyFilePatches(ApplyFilePatch(st, cfg, c, fps[0]), cfg, c, fps[1..])
  }

  /** A commit after the first; one whose patch cannot be read is skipped. */
  function LaterCommit(st: Tracker, cfg: Config, c: Commit): (r: Tracker)
    ensures c.patch.None? ==> r == st
  {
    match c.patch
    case None => st
    case Some(fps) => ApplyFilePatches(st, cfg, StampOf(c), fps)
  }

  function ReplayLater(st: Tracker, cfg: Config, commits: seq<Commit>): Tracker
    decreases |commits|
  {
    if |commits| == 0 then st
    else ReplayLater(LaterCommit(st, cfg, commits[0]), cfg, commits[1..])
  }

  /** The tracker after the whole history, oldest commit first. */
  function Replay(cfg: Config, commits: seq<Commit>): Tracker {
    if |commits| == 0 then Empty
    else ReplayLater(FirstCommit(cfg, commits[0]), cfg, commits[1..])
  }

  // ---------------------------------------------------------------------------
  // What the replay preserves
  // ---------------------------------------------------------------------------

  /** The files of the first commit's tree only add keys and timeline
      events, every event a creation, with at least one creation per new
      record, and keep record times ordered. */
  lemma {:induction false} SnapshotFilesPreserves(st: Tracker, cfg: Config, c: Stamp, files: seq<TreeFile>)
    ensures var r := SnapshotFiles(st, cfg, c, files);
      Replays(st, r, cfg.validate, false) && (Ordered(st, c.when) ==> Ordered(r, c.when))
    ensures CreationsOnly(st.timeline, SnapshotFiles(st, cfg, c, files).timeline)
    decreases |files|
  {
    if |files| == 0 {
      ReplaysRefl(st, cfg.validate, false);
    } else {
      var f := files[0];
      var mid := SnapshotFile(st, cfg, c, f);
      if MatchesPattern(f.name, cfg.pattern, cfg.glob) && f.contents.Some? {
        ApplyLinesPreserves(st, cfg.validate, Snapshot, c, f.name, SplitLines(f.contents.value));
        SnapshotLinesCreationsOnly(st, cfg.validate, c, f.name, SplitLines(f.contents.value));
      } else {
        ReplaysRefl(st, cfg.validate, false);
      }
      SnapshotFilesPreserves(mid, cfg, c, files[1..]);
      ReplaysTrans(st, mid, SnapshotFiles(st, cfg, c, files), cfg.validate, false);
    }
  }

  lemma {:induction false} ApplyChunksPreserves(st: Tracker, cfg: Config, c: Stamp, path: string, chunks: seq<Chunk>)
    ensures var r := ApplyChunks(st, cfg, c, path, chunks);
      Replays(st, r, cfg.validate, true) && (Ordered(st, c.when) ==> Ordered(r, c.when))
    decreases |chunks|
  {
    if |chunks| == 0 {
      ReplaysRefl(st, cfg.validate, true);
    } else {
      var ch := chunks[0];
      var mid := ApplyChunk(st, cfg, c, path, ch);
      match ch.op {
        case Add => ApplyLinesPreserves(st, cfg.validate, Added, c, path, SplitLines(ch.content));
        case Delete => ApplyLinesPreserves(st, cfg.validate, Deleted, c, path, SplitLines(ch.content));
        case Equal => ReplaysRefl(st, cfg.validate, true);
      }
      ApplyChunksPreserves(mid, cfg, c, path, chunks[1..]);
      ReplaysTrans(st, mid, ApplyChunks(st, cfg, c, path, chunks), cfg.validate, true);
    }
  }

  lemma {:induction false} ApplyFilePatchesPreserves(st: Tracker, cfg: Config, c: Stamp, fps: seq<FilePatch>)
    ensures var r := ApplyFilePatches(st, cfg, c, fps);
      Replays(st, r, cfg.validate, true) && (Ordered(st, c.when) ==> Ordered(r, c.when))
    decreases |fps|
  {
    if |fps| == 0 {
      ReplaysRefl(st, cfg.validate, true);
    } else {
      var fp := fps[0];
      var mid := ApplyFilePatch(st, cfg, c, fp);
      if PatchPath(fp).Some? && MatchesPattern(PatchPath(fp).value, cfg.pattern, cfg.glob) {
        ApplyChunksPreserves(st, cfg, c, PatchPath(fp).value, fp.chunks);
      } else {
        ReplaysRefl(st, cfg.validate, true);
      }
      ApplyFilePatchesPreserves(mid, cfg, c, fps[1..]);
      ReplaysTrans(st, mid, ApplyFilePatches(st, cfg, c, fps), cfg.validate, true);
    }
  }

  /** Commit times never decrease along the history. */
  ghost predicate Chronological(commits: seq<Commit>) {
    forall i, j :: 0 <= i < j < |commits| ==> commits[i].when <= commits[j].when
  }

  /** One later commit replays its patch, and keeps a tracker ordered by
      any time up to the commit's own. */
  lemma LaterCommitPreserves(st: Tracker, cfg: Config, c: Commit, t: Time)
    requires t <= c.when
    ensures var r := LaterCommit(st, cfg, c);
      Replays(st, r, cfg.validate, true) && (Ordered(st, t) ==> Ordered(r, c.when))
  {
    if Ordered(st, t) { OrderedLater(st, t, c.when); }
    match c.patch {
      case None => ReplaysRefl(st, cfg.validate, true);
      case Some(fps) => ApplyFilePatchesPreserves(st, cfg, StampOf(c), fps);
    }
  }

  /** Replaying later commits keeps every key and every record's identity,
      logs one creation per new record, and, on a chronological history,
      keeps every record's times in order. */
  lemma {:induction false} ReplayLaterPreserves(st: Tracker, cfg: Config, commits: seq<Commit>, t: Time)
    requires Chronological(commits)
    requires forall i :: 0 <= i < |commits| ==> t <= commits[i].when
    ensures var r := ReplayLater(st, cfg, commits);
      && Replays(st, r, cfg.validate, true)
      && (Ordered(st, t) ==> Ordered(r, if |commits| == 0 then t else commits[|commits| - 1].when))
    decreases |commits|
  {
    if |commits| == 0 {
      ReplaysRefl(st, cfg.validate, true);
    } else {
      var c := commits[0];
      var mid := LaterCommit(st, cfg, c);
      var r := ReplayLater(mid, cfg, commits[1..]);
      assert r == ReplayLater(st, cfg, commits);
      LaterCommitPreserves(st, cfg, c, t);
      ReplayLaterPreserves(mid, cfg, commits[1..], c.when);
      ReplaysTrans(st, mid, r, cfg.validate, true);
      if |commits| > 1 { assert commits[1..][|commits| - 2] == commits[|commits| - 1]; }
    }
  }

  lemma {:induction false} ReplayLaterSplit(st: Tracker, cfg: Config, commits: seq<Commit>, n: nat)
    requires n <= |commits|
    ensures ReplayLater(st, cfg, commits) == ReplayLater(ReplayLater(st, cfg, commits[..n]), cfg, commits[n..])
    decreases n
  {
    if n > 0 {
      ReplayLaterSplit(LaterCommit(st, cfg, commits[0]), cfg, commits[1..], n - 1);
      assert commits[1..][..n - 1] == commits[..n][1..];
      assert commits[1..][n - 1..] == commits[n..];
    }
  }

  /** Records are never removed: every key and every record's identity after
      a prefix of the history survive the rest of it, and the timeline of the
      prefix is a prefix of the final timeline. */
  lemma KeysOnlyGrow(cfg: Config, commits: seq<Commit>, n: nat)
    requires 1 <= n <= |commits|
    ensures Grows(Replay(cfg, commits[..n]), Replay(cfg, commits))
    ensures Persists(Replay(cfg, commits[..n]), Replay(cfg, commits))
  {
    var first := FirstCommit(cfg, commits[0]);
    var rest := commits[1..];
    assert commits[..n][1..] == rest[..n - 1];
    ReplayLaterSplit(first, cfg, rest, n - 1);
    var mid := ReplayLater(first, cfg, rest[..n - 1]);
    ReplayLaterPreservesAny(mid, cfg, rest[n - 1..]);
  }

  /** What holds after any replay: the timeline's running counts are
      consistent, it is empty outside validation mode, and in validation mode
      it logs at least one creation per record. On a chronological history
      every record is seen and deleted no earlier than it was created, and
      no later than the last commit. */
  lemma ReplayWellFormed(cfg: Config, commits: seq<Commit>)
    ensures TimelineOk(Replay(cfg, commits))
    ensures !cfg.validate ==> Replay(cfg, commits).timeline == []
    ensures cfg.validate ==> |Replay(cfg, commits).lines| <= CreateCount(Replay(cfg, commits).timeline)
    ensures |commits| > 0 && Chronological(commits) ==> Ordered(Replay(cfg, commits), commits[|commits| - 1].when)
  {
    if |commits| > 0 {
      var first := FirstCommit(cfg, commits[0]);
      FirstCommitPreserves(cfg, commits[0]);
      ReplayLaterPreservesAny(first, cfg, commits[1..]);
      ReplaysFromEmpty(first, Replay(cfg, commits), cfg.validate);
      if Chronological(commits) {
        ReplayOrdered(cfg, commits);
      }
    }
  }

  /** What a snapshot followed by exact replays leaves, counted from an
      empty tracker. */
  lemma ReplaysFromEmpty(b: Tracker, d: Tracker, validate: bool)
    requires Replays(Empty, b, validate, false) && Replays(b, d, validate, true)
    ensures TimelineOk(d)
    ensures !validate ==> d.timeline == []
    ensures validate ==> |d.lines| <= CreateCount(d.timeline)
  {
  }

  /** On a chronological history every record is ordered by the last
      commit's time. */
  lemma ReplayOrdered(cfg: Config, commits: seq<Commit>)
    requires |commits| > 0 && Chronological(commits)
    ensures Ordered(Replay(cfg, commits), commits[|commits| - 1].when)
  {
    var c := commits[0];
    var first := FirstCommit(cfg, c);
    FirstCommitPreserves(cfg, c);
    var rest := commits[1..];
    ReplayLaterPreserves(first, cfg, rest, c.when);
    if |rest| > 0 { assert rest[|rest| - 1] == commits[|commits| - 1]; }
  }

  /** The first commit's snapshot, from an empty tracker. */
  lemma FirstCommitPreserves(cfg: Config, c: Commit)
    ensures var r := FirstCommit(cfg, c);
      Replays(Empty, r, cfg.validate, false) && Ordered(r, c.when)
  {
    if c.tree.Some? {
      SnapshotFilesPreserves(Empty, cfg, StampOf(c), c.tree.value);
    } else {
      ReplaysRefl(Empty, cfg.validate, false);
    }
  }

  /** The files of a snapshot only record live lines created at the
      commit's time. */
  lemma {:induction false} SnapshotFilesCreatedAt(st: Tracker, cfg: Config, c: Stamp, files: seq<TreeFile>)
    requires AllCreatedAt(st.lines, c.when)
    ensures AllCreatedAt(SnapshotFiles(st, cfg, c, files).lines, c.when)
    decreases |files|
  {
    if |files| > 0 {
      var f := files[0];
      if MatchesPattern(f.name, cfg.pattern, cfg.glob) && f.contents.Some? {
        SnapshotLinesCreatedAt(st, cfg.validate, c, f.name, SplitLines(f.contents.value));
      }
      SnapshotFilesCreatedAt(SnapshotFile(st, cfg, c, f), cfg, c, files[1..]);
    }
  }

  /** After the first commit every record is a live line created at that
      commit's time. */
  lemma FirstCommitCreatedAt(cfg: Config, c: Commit)
    ensures AllCreatedAt(FirstCommit(cfg, c).lines, c.when)
  {
    if c.tree.Some? {
      SnapshotFilesCreatedAt(Empty, cfg, StampOf(c), c.tree.value);
    }
  }

  /** The order-free part of `ReplayLaterPreserves`, for any history. */
  lemma {:induction false} ReplayLaterPreservesAny(st: Tracker, cfg: Config, commits: seq<Commit>)
    ensures Replays(st, ReplayLater(st, cfg, commits), cfg.validate, true)
    decreases |commits|
  {
    if |commits| == 0 {
      ReplaysRefl(st, cfg.validate, true);
    } else {
      var c := commits[0];
      var mid := LaterCommit(st, cfg, c);
      match c.patch {
        case None => ReplaysRefl(st, cfg.validate, true);
        case Some(fps) => ApplyFilePatchesPreserves(st, cfg, StampOf(c), fps);
      }
      ReplayLaterPreservesAny(mid, cfg, commits[1..]);
      ReplaysTrans(st, mid, ReplayLater(st, cfg, commits), cfg.validate, true);
    }
  }
}
