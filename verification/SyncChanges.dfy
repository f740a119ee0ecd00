/**
 The versioned record of client-visible changes of one data object (`syncChanges`):
 marks, captures, acknowledgements of captured versions, and rollback to a capture.
 */
module SyncChanges {
  import opened ChangeTree
  import opened Wrappers

  // ---------------------------------------------------------------- the record as a value

  datatype Record = Record(version: nat, acknowledged: nat, root: Option<Change>, nodes: nat)

  datatype Snapshot = Snapshot(version: nat, root: Option<Change>)

  const FRESH := Record(0, 0, None, 0)

  function Max(a: nat, b: nat): nat {
    if a < b then b else a
  }

  function Tree(root: Option<Change>): Change {
    if root.None? then EMPTY else root.value
  }

  ghost function CountOf(root: Option<Change>): nat {
    if root.None? then 0 else Count(root.value)
  }

  /** The node budget does not allow walking `path`: the record collapses to a full replacement. */
  predicate Trips(r: Record, path: Path) {
    (if r.root.None? then 1 else r.nodes) + |path| > MAX_NODES
  }

  ghost function Marked(r: Record, path: Path): Record {
    var version := r.version + 1;
    if Trips(r, path) then Record(version, r.acknowledged, Some(Change(version, map[])), 1)
    else
      var tree := Mark(Tree(r.root), path, version);
      Record(version, r.acknowledged, Some(tree), Count(tree))
  }

  function PrunedRoot(root: Option<Change>, version: nat): Option<Change> {
    if root.None? || Dead(Prune(root.value, version)) then None else Some(Prune(root.value, version))
  }

  ghost function Acked(r: Record, version: nat): Record {
    var acknowledged := Max(r.acknowledged, version);
    var root := PrunedRoot(r.root, acknowledged);
    Record(r.version, acknowledged, root, CountOf(root))
  }

  ghost function Restored(r: Record, snapshot: Snapshot): Record {
    var root := PrunedRoot(snapshot.root, r.acknowledged);
    Record(Max(r.version, snapshot.version), r.acknowledged, root, CountOf(root))
  }

  /**
   What a mark leaves at `at`: the new version at the marked path, nothing below it, and everything else as
   before; with no room for the path's steps among 4096 nodes, only a replacement of the whole.
   */
  ghost function AfterMark(r: Record, path: Path, at: Path): nat {
    var size := if r.root.None? then 1 else Count(r.root.value);
    if size + |path| <= 4096
    then if at == path then r.version + 1 else if IsPrefix(path, at) then 0 else ReplaceAt(Tree(r.root), at)
    else if at == [] then r.version + 1 else 0
  }

  lemma MarkedExactly(r: Record, path: Path)
    requires r.nodes == CountOf(r.root)
    ensures forall at :: ReplaceAt(Tree(Marked(r, path).root), at) == AfterMark(r, path, at)
  {
    forall at ensures ReplaceAt(Tree(Marked(r, path).root), at) == AfterMark(r, path, at) {
      ReplaceAtMark(Tree(r.root), path, r.version + 1, at);
    }
  }

  // ---------------------------------------------------------------- the record in place

  class SyncChangeRecord {
    var version: nat
    var acknowledged: nat
    var root: Option<Change>
    var nodes: nat

    ghost function Value(): Record
      reads this
    {
      Record(version, acknowledged, root, nodes)
    }

    ghost predicate Valid()
      reads this
    {
      nodes == CountOf(root)
    }

    constructor ()
      ensures Valid() && Value() == FRESH
    {
      version, acknowledged, root, nodes := 0, 0, None, 0;
    }

    /** Walks the path, counting the nodes it creates, and replaces what it ends at. */
    method MarkPath(path: Path)
      requires Valid()
      modifies this
      ensures Valid() && Value() == Marked(old(Value()), path)
      ensures forall at :: ReplaceAt(Tree(root), at) == AfterMark(old(Value()), path, at)
    {
      MarkedExactly(Value(), path);
      version := version + 1;
      if root.None? {
        root, nodes := Some(EMPTY), 1;
        assert Count(EMPTY) == 1;
      }
      if nodes + |path| > MAX_NODES {
        root, nodes := Some(Change(version, map[])), 1;
        assert Count(root.value) == 1;
        return;
      }
      var node := root.value;
      for i := 0 to |path|
        invariant version == old(version) + 1 && acknowledged == old(acknowledged)
        invariant root == Some(Tree(old(root)))
        invariant Subtree(root.value, path) == Subtree(node, path[i..])
        invariant nodes + Created(node, path[i..]) == Count(root.value) + Created(root.value, path)
      {
        assert path[i..] == [path[i]] + path[i + 1..];
        if path[i] !in node.children {
          nodes := nodes + 1;
        }
        node := ChildOrEmpty(node, path[i]);
      }
      assert path[|path|..] == [];
      CountMark(root.value, path, version);
      var below := CountNodes(node);
      nodes := nodes - (below - 1);
      root := Some(Mark(root.value, path, version));
    }

    /** See `RollbackUndoes` for what a capture is good for. */
    method Capture() returns (snapshot: Snapshot)
      ensures snapshot == Snapshot(version, root)
    {
      snapshot := Snapshot(version, root);
    }

    method Acknowledge(upTo: nat)
      requires Valid()
      modifies this
      ensures Valid() && Value() == Acked(old(Value()), upTo)
    {
      acknowledged := Max(acknowledged, upTo);
      root := PrunedRoot(root, acknowledged);
      nodes := 0;
      if root.Some? {
        nodes := CountNodes(root.value);
      }
    }

    method Restore(snapshot: Snapshot)
      requires Valid()
      modifies this
      ensures Valid() && Value() == Restored(old(Value()), snapshot)
    {
      version := Max(version, snapshot.version);
      root := PrunedRoot(snapshot.root, acknowledged);
      nodes := 0;
      if root.Some? {
        nodes := CountNodes(root.value);
      }
    }
  }

  // ---------------------------------------------------------------- acknowledging is exact forgetting

  ghost function MarkedAll(r: Record, paths: seq<Path>): Record {
    if paths == [] then r else Marked(MarkedAll(r, paths[..|paths| - 1]), paths[|paths| - 1])
  }

  /** None of the marks runs into the node budget. */
  ghost predicate NeverTrips(r: Record, paths: seq<Path>) {
    paths == [] ||
    var front := paths[..|paths| - 1];
    NeverTrips(r, front) && !Trips(MarkedAll(r, front), paths[|paths| - 1])
  }

  /** One mark above the acknowledged version and the acknowledgement commute. */
  lemma AckedMarked(r: Record, path: Path, version: nat)
    requires r.nodes == CountOf(r.root) && !Trips(r, path)
    requires version <= r.version && r.acknowledged <= r.version
    ensures !Trips(Acked(r, version), path)
    ensures Acked(Marked(r, path), version) == Marked(Acked(r, version), path)
  {
    var acknowledged, next := Max(r.acknowledged, version), r.version + 1;
    var tree := Tree(r.root);
    PruneMark(tree, path, next, acknowledged);
    MarkNotDead(Prune(tree, acknowledged), path, next);
    assert Prune(EMPTY, acknowledged) == EMPTY;
    CountPrune(tree, acknowledged);
    assert Count(EMPTY) == 1;
    assert Tree(PrunedRoot(r.root, acknowledged)) == Prune(tree, acknowledged);
  }

  lemma {:induction false} AckedMarkedAll(r: Record, paths: seq<Path>, version: nat)
    requires r.nodes == CountOf(r.root) && NeverTrips(r, paths)
    requires version <= r.version && r.acknowledged <= r.version
    ensures NeverTrips(Acked(r, version), paths)
    ensures Acked(MarkedAll(r, paths), version) == MarkedAll(Acked(r, version), paths)
    ensures MarkedAll(r, paths).version == r.version + |paths|
    ensures MarkedAll(r, paths).nodes == CountOf(MarkedAll(r, paths).root)
    ensures MarkedAll(r, paths).acknowledged == r.acknowledged
    decreases |paths|
  {
    if paths != [] {
      var front, last := paths[..|paths| - 1], paths[|paths| - 1];
      AckedMarkedAll(r, front, version);
      AckedMarked(MarkedAll(r, front), last, version);
    }
  }

  /**
   Acknowledging a version forgets it exactly: when nothing in the record is newer than `version`,
   marking and then acknowledging leaves what the marks alone build from an empty record.
   */
  lemma AckForgetsExactly(r: Record, paths: seq<Path>, version: nat)
    requires r.nodes == CountOf(r.root) && NeverTrips(r, paths)
    requires version <= r.version && r.acknowledged <= r.version
    requires ReplacesUpTo(Tree(r.root), version)
    ensures var empty := Record(r.version, Max(r.acknowledged, version), None, 0);
            && NeverTrips(empty, paths)
            && Acked(MarkedAll(r, paths), version) == MarkedAll(empty, paths)
  {
    AckedMarkedAll(r, paths, version);
    PruneAll(Tree(r.root), Max(r.acknowledged, version));
  }

  // ---------------------------------------------------------------- whole runs

  /**
   A mark that has not been rolled back. `effective` is the path it was recorded at: its own,
   or the root when the node budget collapsed the record.
   */
  datatype LiveMark = LiveMark(path: Path, effective: Path, version: nat)

  /** A capture together with the marks that were live when it was taken. */
  datatype Captured = Captured(snapshot: Snapshot, live: seq<LiveMark>, acknowledged: nat)

  datatype System = System(record: Record, live: seq<LiveMark>, captured: seq<Captured>)

  /** Acknowledgements and rollbacks name an earlier capture; one that does not exist does nothing. */
  datatype Op = MarkOp(path: Path) | CaptureOp | AckOp(index: nat) | RestoreOp(index: nat)

  ghost function Apply(sys: System, op: Op): System {
    var r := sys.record;
    match op
    case MarkOp(path) =>
      var mark := LiveMark(path, if Trips(r, path) then [] else path, r.version + 1);
      System(Marked(r, path), sys.live + [mark], sys.captured)
    case CaptureOp =>
      sys.(captured := sys.captured + [Captured(Snapshot(r.version, r.root), sys.live, r.acknowledged)])
    case AckOp(index) =>
      if index < |sys.captured| then sys.(record := Acked(r, sys.captured[index].snapshot.version)) else sys
    case RestoreOp(index) =>
      if index < |sys.captured|
      then System(Restored(r, sys.captured[index].snapshot), sys.captured[index].live, sys.captured)
      else sys
  }

  ghost function Run(ops: seq<Op>): System {
    if ops == [] then System(FRESH, [], []) else Apply(Run(ops[..|ops| - 1]), ops[|ops| - 1])
  }

  /** The version at which `at` was last marked, unless a later mark at a shorter path took it over. */
  function Surviving(marks: seq<LiveMark>, at: Path): nat {
    if marks == [] then 0
    else
      var mark := marks[|marks| - 1];
      if mark.effective == at then mark.version
      else if IsPrefix(mark.effective, at) then 0
      else Surviving(marks[..|marks| - 1], at)
  }

  function Above(version: nat, floor: nat): nat {
    if version <= floor then 0 else version
  }

  /** The tree says exactly what the marks above the acknowledged version left behind. */
  ghost predicate Exact(root: Option<Change>, live: seq<LiveMark>, acknowledged: nat) {
    forall at :: ReplaceAt(Tree(root), at) == Above(Surviving(live, at), acknowledged)
  }

  /** No dead leaf, and within the node budget. */
  ghost predicate Tidy(root: Option<Change>) {
    CountOf(root) <= MAX_NODES && (root.Some? ==> Live(root.value))
  }

  ghost predicate MarksUpTo(live: seq<LiveMark>, version: nat) {
    && (forall i | 0 <= i < |live| :: 0 < live[i].version <= version && IsPrefix(live[i].effective, live[i].path))
    && (forall i, j | 0 <= i < j < |live| :: live[i].version < live[j].version)
  }

  ghost predicate CaptureOk(c: Captured, r: Record) {
    && c.acknowledged <= r.acknowledged && c.snapshot.version <= r.version
    && Tidy(c.snapshot.root) && MarksUpTo(c.live, c.snapshot.version)
    && Exact(c.snapshot.root, c.live, c.acknowledged)
  }

  ghost predicate Inv(sys: System) {
    var r := sys.record;
    && r.acknowledged <= r.version
    && Tidy(r.root) && r.nodes == CountOf(r.root)
    && MarksUpTo(sys.live, r.version)
    && Exact(r.root, sys.live, r.acknowledged)
    && forall i | 0 <= i < |sys.captured| :: CaptureOk(sys.captured[i], r)
  }

  /** A mark, or its collapse to the root, leaves a tidy tree with its size counted. */
  lemma MarkedTidy(r: Record, path: Path)
    requires Tidy(r.root) && r.nodes == CountOf(r.root)
    ensures var r' := Marked(r, path);
            && Tidy(r'.root) && r'.nodes == CountOf(r'.root)
            && r'.root == Some(Mark(Tree(r.root), if Trips(r, path) then [] else path, r.version + 1))
  {
    assert Count(EMPTY) == 1 && Count(Change(r.version + 1, map[])) == 1;
    if !Trips(r, path) {
      CountMark(Tree(r.root), path, r.version + 1);
      CreatedBound(Tree(r.root), path);
    }
    MarkLive(Tree(r.root), if Trips(r, path) then [] else path, r.version + 1);
  }

  lemma MarkedKeeps(sys: System, path: Path)
    requires Inv(sys)
    ensures Inv(Apply(sys, MarkOp(path)))
  {
    var r, next := sys.record, Apply(sys, MarkOp(path));
    var mark := next.live[|sys.live|];
    assert next.live[..|sys.live|] == sys.live;
    MarkedTidy(r, path);
    forall at ensures ReplaceAt(Tree(next.record.root), at) == Above(Surviving(next.live, at), r.acknowledged) {
      ReplaceAtMark(Tree(r.root), mark.effective, mark.version, at);
    }
  }

  lemma PrunedKeeps(root: Option<Change>, live: seq<LiveMark>, before: nat, acknowledged: nat)
    requires Tidy(root) && Exact(root, live, before) && before <= acknowledged
    ensures Tidy(PrunedRoot(root, acknowledged)) && Exact(PrunedRoot(root, acknowledged), live, acknowledged)
  {
    var tree, pruned := Tree(root), PrunedRoot(root, acknowledged);
    PruneLive(tree, acknowledged);
    CountPrune(tree, acknowledged);
    assert Prune(EMPTY, acknowledged) == EMPTY;
    assert Tree(pruned) == Prune(tree, acknowledged);
    forall at ensures ReplaceAt(Tree(pruned), at) == Above(Surviving(live, at), acknowledged) {
      ReplaceAtPrune(tree, acknowledged, at);
    }
  }

  lemma ApplyKeeps(sys: System, op: Op)
    requires Inv(sys)
    ensures Inv(Apply(sys, op))
  {
    var r := sys.record;
    match op
    case MarkOp(path) => MarkedKeeps(sys, path);
    case CaptureOp =>
    case AckOp(index) =>
      if index < |sys.captured| {
        PrunedKeeps(r.root, sys.live, r.acknowledged, Max(r.acknowledged, sys.captured[index].snapshot.version));
      }
    case RestoreOp(index) =>
      if index < |sys.captured| {
        var c := sys.captured[index];
        PrunedKeeps(c.snapshot.root, c.live, c.acknowledged, r.acknowledged);
      }
  }

  /**
   Over every run of marks, captures, acknowledgements of captured versions and rollbacks, the
   tree holds exactly the surviving marks above the acknowledged version, has no dead leaf, and
   `nodes` is its size and within the budget.
   */
  lemma {:induction false} RunKeepsInv(ops: seq<Op>)
    ensures Inv(Run(ops))
  {
    if ops == [] {
      assert forall at :: ReplaceAt(EMPTY, at) == 0;
    } else {
      RunKeepsInv(ops[..|ops| - 1]);
      ApplyKeeps(Run(ops[..|ops| - 1]), ops[|ops| - 1]);
    }
  }

  /** The last mark at a prefix of a marked path survives and is no older than that mark. */
  lemma {:induction false} SurvivingCovers(live: seq<LiveMark>, version: nat, i: nat) returns (n: nat)
    requires MarksUpTo(live, version) && i < |live|
    ensures n <= |live[i].path| && Surviving(live, live[i].path[..n]) >= live[i].version
    decreases |live|
  {
    var last, path := live[|live| - 1], live[i].path;
    if IsPrefix(last.effective, path) {
      n := |last.effective|;
    } else {
      n := SurvivingCovers(live[..|live| - 1], version, i);
      assert |last.effective| <= n ==> path[..n][..|last.effective|] == path[..|last.effective|];
    }
  }

  /** No synchronization fact is lost: every live unacknowledged mark is at or below a replacement at least as new. */
  lemma RunCoversMarks(ops: seq<Op>, i: nat) returns (n: nat)
    requires i < |Run(ops).live| && Run(ops).live[i].version > Run(ops).record.acknowledged
    ensures var sys := Run(ops);
            && n <= |sys.live[i].path|
            && ReplaceAt(Tree(sys.record.root), sys.live[i].path[..n]) >= sys.live[i].version
  {
    RunKeepsInv(ops);
    n := SurvivingCovers(Run(ops).live, Run(ops).record.version, i);
  }

  lemma {:induction false} SurvivingUpTo(live: seq<LiveMark>, version: nat, at: Path)
    requires MarksUpTo(live, version)
    ensures Surviving(live, at) <= version
  {
    if live != [] {
      SurvivingUpTo(live[..|live| - 1], version, at);
    }
  }

  /** Every replacement in the tree is newer than the acknowledged version and no newer than the record. */
  lemma RunRange(ops: seq<Op>, at: Path)
    ensures var r := Run(ops).record;
            ReplaceAt(Tree(r.root), at) != 0 ==> r.acknowledged < ReplaceAt(Tree(r.root), at) <= r.version
  {
    RunKeepsInv(ops);
    SurvivingUpTo(Run(ops).live, Run(ops).record.version, at);
  }

  /** Two runs that leave the same unacknowledged marks hold the same tree, whatever happened in between. */
  lemma RunDeterminedByMarks(ops: seq<Op>, other: seq<Op>)
    requires Run(ops).live == Run(other).live
    requires Run(ops).record.acknowledged == Run(other).record.acknowledged
    ensures Run(ops).record.root == Run(other).record.root
  {
    RunKeepsInv(ops);
    RunKeepsInv(other);
    var left, right := Run(ops).record.root, Run(other).record.root;
    forall at ensures ReplaceAt(Tree(left), at) == ReplaceAt(Tree(right), at) {
      assert ReplaceAt(Tree(left), at) == Above(Surviving(Run(ops).live, at), Run(ops).record.acknowledged);
    }
    Extensional(Tree(left), Tree(right));
  }

  // ---------------------------------------------------------------- captures

  /** Captures are never lost: later operations only add to them. */
  lemma {:induction false} CapturedStay(ops: seq<Op>, more: seq<Op>)
    ensures Run(ops).captured <= Run(ops + more).captured
    decreases |more|
  {
    if more == [] {
      assert ops + more == ops;
    } else {
      assert (ops + more)[..|ops + more| - 1] == ops + more[..|more| - 1];
      CapturedStay(ops, more[..|more| - 1]);
    }
  }

  /** Pruning again at the acknowledged version changes nothing. */
  lemma PruneAgain(sys: System)
    requires Inv(sys)
    ensures PrunedRoot(sys.record.root, sys.record.acknowledged) == sys.record.root
  {
    var r := sys.record;
    PrunedKeeps(r.root, sys.live, r.acknowledged, r.acknowledged);
    var pruned := PrunedRoot(r.root, r.acknowledged);
    forall at ensures ReplaceAt(Tree(pruned), at) == ReplaceAt(Tree(r.root), at) {
      assert ReplaceAt(Tree(pruned), at) == Above(Surviving(sys.live, at), r.acknowledged);
    }
    Extensional(Tree(pruned), Tree(r.root));
  }

  /**
   Rolling back to a capture undoes everything since: whatever was marked, acknowledged, captured or rolled back in
   between, the record holds the captured marks less what has been acknowledged, and its version never goes back.
   */
  lemma RollbackUndoes(before: seq<Op>, after: seq<Op>)
    ensures var c, d := Run(before), Run((before + [CaptureOp]) + after);
            var e := Apply(d, RestoreOp(|c.captured|));
            && e.live == c.live && e.record.root == Acked(c.record, d.record.acknowledged).root
            && e.record.version == d.record.version && e.record.acknowledged == d.record.acknowledged
            && (d.record.acknowledged == c.record.acknowledged ==> e.record.root == c.record.root)
  {
    var c := Run(before);
    var d := Run((before + [CaptureOp]) + after);
    assert (before + [CaptureOp])[..|before|] == before;
    CapturedStay(before + [CaptureOp], after);
    assert d.captured[|c.captured|]
        == Captured(Snapshot(c.record.version, c.record.root), c.live, c.record.acknowledged);
    RunKeepsInv(before);
    RunKeepsInv((before + [CaptureOp]) + after);
    assert CaptureOk(d.captured[|c.captured|], d.record);
    PruneAgain(c);
  }

  // ---------------------------------------------------------------- small runs never collapse

  function MarkLength(ops: seq<Op>): nat {
    if ops == [] then 0
    else
      var op := ops[|ops| - 1];
      MarkLength(ops[..|ops| - 1]) + if op.MarkOp? then |op.path| else 0
  }

  /** Every mark is recorded at its own path, and was made in the run. */
  predicate OwnPaths(live: seq<LiveMark>, ops: seq<Op>) {
    forall i | 0 <= i < |live| :: live[i].effective == live[i].path && MarkOp(live[i].path) in ops
  }

  /** The tree and every captured tree have at most `size` nodes, and no mark has collapsed. */
  ghost predicate Small(sys: System, ops: seq<Op>, size: nat) {
    && CountOf(sys.record.root) <= size && OwnPaths(sys.live, ops)
    && forall i | 0 <= i < |sys.captured| ::
         CountOf(sys.captured[i].snapshot.root) <= size && OwnPaths(sys.captured[i].live, ops)
  }

  lemma SmallGrows(sys: System, ops: seq<Op>, op: Op, size: nat, larger: nat)
    requires Small(sys, ops, size) && size <= larger
    ensures Small(sys, ops + [op], larger)
  {
  }

  lemma MarkGrowsBy(r: Record, path: Path)
    requires r.nodes == CountOf(r.root)
    ensures CountOf(Marked(r, path).root) <= Count(Tree(r.root)) + |path|
  {
    assert Count(EMPTY) == 1;
    assert Count(Change(r.version + 1, map[])) == 1;
    CountMark(Tree(r.root), path, r.version + 1);
    CreatedBound(Tree(r.root), path);
  }

  lemma PrunedRootShrinks(root: Option<Change>, version: nat)
    ensures CountOf(PrunedRoot(root, version)) <= CountOf(root)
  {
    if root.Some? {
      CountPrune(root.value, version);
    }
  }

  lemma ApplyKeepsSmall(sys: System, ops: seq<Op>, op: Op, size: nat)
    requires Small(sys, ops, size) && Inv(sys) && size >= 1
    requires op.MarkOp? ==> size + |op.path| <= 4096
    ensures Small(Apply(sys, op), ops + [op], size + if op.MarkOp? then |op.path| else 0)
  {
    SmallGrows(sys, ops, op, size, size + if op.MarkOp? then |op.path| else 0);
    assert (ops + [op])[|ops|] == op;
    match op
    case MarkOp(path) =>
      MarkGrowsBy(sys.record, path);
      assert Count(EMPTY) == 1;
    case CaptureOp =>
    case AckOp(index) =>
      if index < |sys.captured| {
        PrunedRootShrinks(sys.record.root, Max(sys.record.acknowledged, sys.captured[index].snapshot.version));
      }
    case RestoreOp(index) =>
      if index < |sys.captured| {
        PrunedRootShrinks(sys.captured[index].snapshot.root, sys.record.acknowledged);
      }
  }

  lemma {:induction false} RunIsSmall(ops: seq<Op>)
    requires MarkLength(ops) <= 4095
    ensures Small(Run(ops), ops, 1 + MarkLength(ops))
  {
    if ops != [] {
      var front, op := ops[..|ops| - 1], ops[|ops| - 1];
      RunIsSmall(front);
      RunKeepsInv(front);
      ApplyKeepsSmall(Run(front), front, op, 1 + MarkLength(front));
      assert front + [op] == ops;
    }
  }

  lemma {:induction false} SurvivingWasMarked(live: seq<LiveMark>, ops: seq<Op>, at: Path)
    requires OwnPaths(live, ops) && Surviving(live, at) != 0
    ensures MarkOp(at) in ops
  {
    if live[|live| - 1].effective != at {
      SurvivingWasMarked(live[..|live| - 1], ops, at);
    }
  }

  /** While the marks of a run have at most 4095 steps together, only marked paths are ever replaced. */
  lemma SmallRunNeverCollapses(ops: seq<Op>, at: Path)
    requires MarkLength(ops) <= 4095 && ReplaceAt(Tree(Run(ops).record.root), at) != 0
    ensures MarkOp(at) in ops
  {
    RunIsSmall(ops);
    RunKeepsInv(ops);
    SurvivingWasMarked(Run(ops).live, ops, at);
  }
}
