/**
 The persistence record of one transaction (`PersistPaths`): a change tree without versions in
 which a replaced parent absorbs every later change below it.
 */
module PersistPaths {
  import opened ChangeTree
  import opened Wrappers

  // ---------------------------------------------------------------- the record as a value

  datatype Paths = Paths(root: Option<Change>, nodes: nat)

  const NOTHING := Paths(None, 0)
  const FULL := Change(1, map[])

  function Tree(p: Paths): Change {
    if p.root.None? then EMPTY else p.root.value
  }

  function Size(p: Paths): nat {
    if p.root.None? then 1 else p.nodes
  }

  /** A node strictly above the end of `path` is already replaced. */
  predicate Covered(c: Change, path: Path)
    decreases path
  {
    path != [] && (c.replace != 0 || Covered(ChildOrEmpty(c, path[0]), path[1..]))
  }

  ghost function Recorded(p: Paths, path: Path): Paths {
    var tree := Tree(p);
    if tree.replace != 0 then Paths(Some(tree), Size(p))
    else if Size(p) + |path| > MAX_NODES then Paths(Some(FULL), 1)
    else if Covered(tree, path) then Paths(Some(tree), Size(p))
    else Paths(Some(Mark(tree, path, 1)), Count(Mark(tree, path, 1)))
  }

  ghost function RecordedAll(paths: seq<Path>): Paths {
    if paths == [] then NOTHING else Recorded(RecordedAll(paths[..|paths| - 1]), paths[|paths| - 1])
  }

  // ---------------------------------------------------------------- the record in place

  /** Follows the path, counting missing nodes, and gives up at a replaced node before its end. */
  method Walk(root: Change, path: Path) returns (absorbed: bool, created: nat, node: Change)
    ensures absorbed == Covered(root, path)
    ensures !absorbed ==> created == Created(root, path) && node == Subtree(root, path)
  {
    absorbed, created, node := false, 0, root;
    for i := 0 to |path|
      invariant !absorbed
      invariant Subtree(root, path) == Subtree(node, path[i..])
      invariant Covered(root, path) == Covered(node, path[i..])
      invariant created + Created(node, path[i..]) == Created(root, path)
    {
      assert path[i..] == [path[i]] + path[i + 1..];
      if node.replace != 0 {
        return true, created, node;
      }
      if path[i] !in node.children {
        created := created + 1;
      }
      node := ChildOrEmpty(node, path[i]);
    }
    assert path[|path|..] == [];
  }

  class PersistRecord {
    var root: Option<Change>
    var nodes: nat

    ghost function Value(): Paths
      reads this
    {
      Paths(root, nodes)
    }

    ghost predicate Valid()
      reads this
    {
      root.Some? ==> nodes == Count(root.value)
    }

    constructor ()
      ensures Valid() && Value() == NOTHING
    {
      root, nodes := None, 0;
    }

    /** Walks the path until a replaced node absorbs it, counting the nodes it creates. */
    method RecordPath(path: Path)
      requires Valid()
      modifies this
      ensures Valid() && Value() == Recorded(old(Value()), path)
    {
      assert Count(EMPTY) == 1 && Count(FULL) == 1;
      if root.None? {
        root, nodes := Some(EMPTY), 1;
      }
      if root.value.replace != 0 {
        return;
      }
      if nodes + |path| > MAX_NODES {
        root, nodes := Some(FULL), 1;
        return;
      }
      var absorbed, created, node := Walk(root.value, path);
      if absorbed {
        return;
      }
      CountMark(root.value, path, 1);
      var below := CountNodes(node);
      nodes := nodes + created - (below - 1);
      root := Some(Mark(root.value, path, 1));
    }
  }

  // ---------------------------------------------------------------- what is recorded

  predicate ProperPrefix(p: Path, q: Path) {
    IsPrefix(p, q) && p != q
  }

  /** A recorded path that no shorter recorded path covers. */
  ghost predicate Minimal(paths: seq<Path>, at: Path) {
    at in paths && forall p | p in paths :: !ProperPrefix(p, at)
  }

  /** The replaced nodes of the tree are exactly the minimal paths. */
  ghost predicate Exact(tree: Change, paths: seq<Path>) {
    forall at :: ReplaceAt(tree, at) == if Minimal(paths, at) then 1 else 0
  }

  ghost predicate Tidy(p: Paths) {
    && (p.root.Some? ==> p.nodes == Count(p.root.value) <= MAX_NODES && Live(p.root.value))
    && (Tree(p).replace != 0 ==> Tree(p) == FULL)
  }

  lemma {:induction false} CoveredIsPrefix(c: Change, path: Path)
    ensures Covered(c, path) <==> exists n | 0 <= n < |path| :: ReplaceAt(c, path[..n]) != 0
    decreases path
  {
    if path != [] {
      var child, rest := ChildOrEmpty(c, path[0]), path[1..];
      CoveredIsPrefix(child, rest);
      assert path[..0] == [];
      forall n | 0 < n <= |path|
        ensures ReplaceAt(c, path[..n]) == ReplaceAt(child, rest[..n - 1])
      {
        assert path[..n] == [path[0]] + rest[..n - 1];
      }
      if n :| 0 <= n < |rest| && ReplaceAt(child, rest[..n]) != 0 {
        assert ReplaceAt(c, path[..n + 1]) != 0;
      }
    }
  }

  lemma ProperPrefixTransitive(p: Path, q: Path, r: Path)
    ensures ProperPrefix(p, q) && ProperPrefix(q, r) ==> ProperPrefix(p, r)
  {
    if ProperPrefix(p, q) && ProperPrefix(q, r) {
      assert r[..|p|] == q[..|p|];
    }
  }

  /** A recorded prefix of `at` yields a minimal one. */
  lemma {:induction false} MinimalPrefix(paths: seq<Path>, at: Path, p: Path) returns (n: nat)
    requires p in paths && IsPrefix(p, at)
    ensures n <= |p| && Minimal(paths, at[..n])
    decreases |p|
  {
    if q :| q in paths && ProperPrefix(q, p) {
      assert at[..|q|] == p[..|q|];
      n := MinimalPrefix(paths, at, q);
    } else {
      n := |p|;
    }
  }

  lemma MarkKeepsExact(tree: Change, paths: seq<Path>, path: Path)
    requires Exact(tree, paths) && !Covered(tree, path)
    ensures Exact(Mark(tree, path, 1), paths + [path])
  {
    CoveredIsPrefix(tree, path);
    forall at
      ensures ReplaceAt(Mark(tree, path, 1), at) == if Minimal(paths + [path], at) then 1 else 0
    {
      ReplaceAtMark(tree, path, 1, at);
      if at == path {
        if p :| p in paths && ProperPrefix(p, path) {
          var n := MinimalPrefix(paths, path, p);
          assert false;
        }
      } else if IsPrefix(path, at) {
        assert ProperPrefix(path, at);
      } else {
        assert forall p | p in paths + [path] && ProperPrefix(p, at) :: p in paths;
      }
    }
  }

  lemma CoveredKeepsExact(tree: Change, paths: seq<Path>, path: Path)
    requires Exact(tree, paths) && Covered(tree, path)
    ensures Exact(tree, paths + [path])
  {
    CoveredIsPrefix(tree, path);
    var n :| 0 <= n < |path| && ReplaceAt(tree, path[..n]) != 0;
    var shorter := path[..n];
    assert Minimal(paths, shorter) && ProperPrefix(shorter, path);
    forall at ensures Minimal(paths + [path], at) <==> Minimal(paths, at) {
      ProperPrefixTransitive(shorter, path, at);
    }
  }

  /** The root path, once recorded, is the only minimal one. */
  lemma RootExact(paths: seq<Path>)
    requires [] in paths
    ensures Exact(FULL, paths)
  {
    forall at ensures Minimal(paths, at) <==> at == [] {
      assert at != [] ==> ProperPrefix([], at);
    }
  }

  lemma {:induction false} RecordedAllTidy(paths: seq<Path>)
    ensures Tidy(RecordedAll(paths))
    ensures RecordedAll(paths).root.None? <==> paths == []
  {
    if paths != [] {
      var front, path := paths[..|paths| - 1], paths[|paths| - 1];
      RecordedAllTidy(front);
      RecordedTidy(RecordedAll(front), path);
    }
  }

  lemma RecordedTidy(before: Paths, path: Path)
    requires Tidy(before)
    ensures Tidy(Recorded(before, path)) && Recorded(before, path).root.Some?
  {
    if Tree(before).replace == 0 {
      if Size(before) + |path| > MAX_NODES {
        FullIsTidy();
      } else if Covered(Tree(before), path) {
        NothingCovered(path);
      } else {
        MarkTidy(before, path);
      }
    }
  }

  lemma FullIsTidy()
    ensures Tidy(Paths(Some(FULL), 1))
  {
    assert Count(FULL) == 1;
  }

  lemma MarkTidy(before: Paths, path: Path)
    requires Tidy(before) && Tree(before).replace == 0 && Size(before) + |path| <= MAX_NODES
        && !Covered(Tree(before), path)
    ensures var tree := Mark(Tree(before), path, 1);
            Count(tree) <= MAX_NODES && Live(tree) && (tree.replace != 0 ==> tree == FULL)
  {
    assert Count(EMPTY) == 1;
    CountMark(Tree(before), path, 1);
    CreatedBound(Tree(before), path);
    MarkLive(Tree(before), path, 1);
  }

  lemma NothingCovered(path: Path)
    ensures !Covered(EMPTY, path)
  {
    CoveredIsPrefix(EMPTY, path);
  }

  /**
   As long as the budget has not collapsed the tree to a full replacement, its replaced paths are
   exactly the prefix-minimal recorded paths. A recorded root path is not a collapse.
   */
  lemma {:induction false} ReplacedAreMinimal(paths: seq<Path>)
    requires Tree(RecordedAll(paths)).replace == 0 || [] in paths
    ensures Exact(Tree(RecordedAll(paths)), paths)
  {
    if paths == [] {
      assert forall at :: ReplaceAt(EMPTY, at) == 0;
    } else {
      var front, path := paths[..|paths| - 1], paths[|paths| - 1];
      assert paths == front + [path];
      RecordedAllTidy(paths);
      RecordedAllTidy(front);
      var before := RecordedAll(front);
      if Tree(RecordedAll(paths)).replace != 0 {
        RootExact(paths);
      } else {
        ReplacedAreMinimal(front);
        if Covered(Tree(before), path) {
          CoveredKeepsExact(Tree(before), front, path);
        } else {
          MarkKeepsExact(Tree(before), front, path);
        }
      }
    }
  }

  /** Collapsed or not, every recorded path lies at or below a replaced one. */
  lemma EveryPathCovered(paths: seq<Path>, path: Path) returns (n: nat)
    requires path in paths
    ensures n <= |path| && ReplaceAt(Tree(RecordedAll(paths)), path[..n]) != 0
  {
    RecordedAllTidy(paths);
    if Tree(RecordedAll(paths)).replace != 0 {
      n := 0;
    } else {
      ReplacedAreMinimal(paths);
      n := MinimalPrefix(paths, path, path);
    }
  }

  /** Two different replaced paths never contain one another. */
  lemma ReplacedAntichain(paths: seq<Path>, p: Path, q: Path)
    requires ReplaceAt(Tree(RecordedAll(paths)), p) != 0 && ReplaceAt(Tree(RecordedAll(paths)), q) != 0
    ensures !ProperPrefix(p, q)
  {
    RecordedAllTidy(paths);
    if Tree(RecordedAll(paths)).replace == 0 {
      ReplacedAreMinimal(paths);
    }
  }

  /** The order and repetition of the recorded paths do not matter, the counter included. */
  lemma OrderIndependent(paths: seq<Path>, other: seq<Path>)
    requires paths != [] && other != [] && forall p :: p in paths <==> p in other
    requires Tree(RecordedAll(paths)).replace == 0 || [] in paths
    requires Tree(RecordedAll(other)).replace == 0 || [] in other
    ensures RecordedAll(paths) == RecordedAll(other)
  {
    RecordedAllTidy(paths);
    RecordedAllTidy(other);
    ReplacedAreMinimal(paths);
    ReplacedAreMinimal(other);
    forall at ensures Minimal(paths, at) <==> Minimal(other, at) {}
    Extensional(Tree(RecordedAll(paths)), Tree(RecordedAll(other)));
  }

  /** Some step of the path before its end is already replaced. */
  ghost predicate Absorbed(tree: Change, path: Path) {
    exists n | 0 <= n < |path| :: ReplaceAt(tree, path[..n]) != 0
  }

  /**
   What recording a path leaves at every path: nothing new if it is absorbed, else a replacement of the path
   without anything below it; with no room for its steps among 4096 nodes, a replacement of the whole.
   */
  lemma RecordedExactly(p: Paths, path: Path, at: Path)
    requires Tidy(p)
    ensures var tree := Tree(p);
            ReplaceAt(Tree(Recorded(p, path)), at)
            == if ReplaceAt(tree, []) == 0 && Count(tree) + |path| > 4096 then (if at == [] then 1 else 0)
               else if Absorbed(tree, path) then ReplaceAt(tree, at)
               else if at == path then 1
               else if IsPrefix(path, at) then 0
               else ReplaceAt(tree, at)
  {
    var tree := Tree(p);
    assert Count(EMPTY) == 1;
    CoveredIsPrefix(tree, path);
    assert Covered(tree, path) <==> Absorbed(tree, path);
    ReplaceAtMark(tree, path, 1, at);
    if tree.replace != 0 {
      assert path != [] ==> path[..0] == [];
    }
  }

  function TotalLength(paths: seq<Path>): nat {
    if paths == [] then 0 else TotalLength(paths[..|paths| - 1]) + |paths[|paths| - 1]|
  }

  /** A transaction whose paths fit the budget together never collapses. */
  lemma {:induction false} SmallNeverCollapses(paths: seq<Path>)
    requires TotalLength(paths) <= 4095 && [] !in paths
    ensures Tree(RecordedAll(paths)).replace == 0
    ensures Size(RecordedAll(paths)) <= 1 + TotalLength(paths)
  {
    if paths != [] {
      var front, path := paths[..|paths| - 1], paths[|paths| - 1];
      assert path in paths && forall p | p in front :: p in paths;
      SmallNeverCollapses(front);
      RecordedAllTidy(front);
      var tree := Tree(RecordedAll(front));
      assert Count(EMPTY) == 1;
      CountMark(tree, path, 1);
      CreatedBound(tree, path);
    }
  }
}
