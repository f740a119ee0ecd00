/**
 The change tree shared by the sync change record and the persistence record of a
 transaction (`SyncChange`). A node carries the version of its last whole replacement
 (0 for none) and one child per path step that has changes below it.

 A tree is meant to be read through `ReplaceAt`: the version at which a path was last
 replaced as a whole. The lemmas below say what every tree operation does to that
 reading, and that a tree without dead leaves is determined by it.
 */
module ChangeTree {
  import opened Wrappers

  /** A map key or list index inside a path step; `NoKey` for a plain field. */
  datatype StepKey = NoKey | NumberKey(number: int) | TextKey(text: string)

  datatype Step = Step(field: nat, key: StepKey)

  type Path = seq<Step>

  datatype Change = Change(replace: nat, children: map<Step, Change>)

  const EMPTY := Change(0, map[])

  /** Upper bound on the nodes of one tree (`maxSyncChangeNodes`). */
  const MAX_NODES := 4096

  predicate IsPrefix(p: Path, q: Path) {
    |p| <= |q| && q[..|p|] == p
  }

  /** The child a walk continues into, fresh when the step is new. */
  function ChildOrEmpty(c: Change, step: Step): Change {
    if step in c.children then c.children[step] else EMPTY
  }

  /** The version at which exactly `path` was replaced; 0 when it was not. */
  function ReplaceAt(c: Change, path: Path): nat
    decreases path
  {
    if path == [] then c.replace
    else if path[0] in c.children then ReplaceAt(c.children[path[0]], path[1..])
    else 0
  }

  /** The subtree at `path`, empty when there is none. */
  function Subtree(c: Change, path: Path): Change
    decreases path
  {
    if path == [] then c else Subtree(ChildOrEmpty(c, path[0]), path[1..])
  }

  /** The number of nodes a walk along `path` has to create. */
  function Created(c: Change, path: Path): nat
    decreases path
  {
    if path == [] then 0
    else (if path[0] in c.children then 0 else 1) + Created(ChildOrEmpty(c, path[0]), path[1..])
  }

  /** Replaces the subtree at `path` by a single node of the given version. */
  function Mark(c: Change, path: Path, version: nat): Change
    decreases path
  {
    if path == [] then Change(version, map[])
    else c.(children := c.children[path[0] := Mark(ChildOrEmpty(c, path[0]), path[1..], version)])
  }

  predicate Dead(c: Change) {
    c.replace == 0 && c.children == map[]
  }

  /** Forgets every replacement up to `version` and drops the subtrees left without any. */
  function Prune(c: Change, version: nat): Change {
    Change(if c.replace <= version then 0 else c.replace,
           map step | step in c.children && !Dead(Prune(c.children[step], version)) :: Prune(c.children[step], version))
  }

  /** No node of the tree is a leaf without a replacement. */
  ghost predicate Live(c: Change) {
    !Dead(c) && forall step | step in c.children :: Live(c.children[step])
  }

  /** Every replacement in the tree is at most `version`. */
  ghost predicate ReplacesUpTo(c: Change, version: nat) {
    forall path :: ReplaceAt(c, path) <= version
  }

  // ---------------------------------------------------------------- counting

  /** The number of nodes (`countSyncChanges`). */
  ghost function Count(c: Change): nat
    decreases c, 1, 0
  {
    1 + CountAmong(c, c.children.Keys)
  }

  /** The number of nodes below the children of `c` named by `steps`. */
  ghost function CountAmong(c: Change, steps: set<Step>): nat
    requires steps <= c.children.Keys
    decreases c, 0, |steps|
  {
    if steps == {} then 0
    else var step :| step in steps; Count(c.children[step]) + CountAmong(c, steps - {step})
  }

  lemma {:induction false} CountAmongTake(c: Change, steps: set<Step>, step: Step)
    requires step in steps && steps <= c.children.Keys
    ensures CountAmong(c, steps) == Count(c.children[step]) + CountAmong(c, steps - {step})
    decreases |steps|
  {
    var first :| first in steps && CountAmong(c, steps) == Count(c.children[first]) + CountAmong(c, steps - {first});
    if first != step {
      CountAmongTake(c, steps - {first}, step);
      CountAmongTake(c, steps - {step}, first);
      assert steps - {first} - {step} == steps - {step} - {first};
    }
  }

  lemma {:induction false} CountAmongSame(c: Change, d: Change, steps: set<Step>)
    requires steps <= c.children.Keys && steps <= d.children.Keys
    requires forall step | step in steps :: c.children[step] == d.children[step]
    ensures CountAmong(c, steps) == CountAmong(d, steps)
    decreases |steps|
  {
    if steps != {} {
      var step :| step in steps;
      CountAmongTake(c, steps, step);
      CountAmongTake(d, steps, step);
      CountAmongSame(c, d, steps - {step});
    }
  }

  /** Storing a child changes the count by the difference to the child it replaces. */
  lemma CountStore(c: Change, step: Step, child: Change)
    ensures Count(c.(children := c.children[step := child]))
         == Count(c) + Count(child) - (if step in c.children then Count(c.children[step]) else 0)
  {
    var d := c.(children := c.children[step := child]);
    CountAmongTake(d, d.children.Keys, step);
    if step in c.children {
      CountAmongTake(c, c.children.Keys, step);
    } else {
      assert c.children.Keys - {step} == c.children.Keys;
    }
    assert d.children.Keys - {step} == c.children.Keys - {step};
    CountAmongSame(c, d, c.children.Keys - {step});
  }

  /** The counter update of a mark: nodes created on the way, minus the subtree thrown away. */
  lemma {:induction false} CountMark(c: Change, path: Path, version: nat)
    ensures Count(Mark(c, path, version)) == Count(c) + Created(c, path) - (Count(Subtree(c, path)) - 1)
    decreases path
  {
    if path == [] {
      assert Count(Change(version, map[])) == 1;
    } else {
      var child := ChildOrEmpty(c, path[0]);
      CountMark(child, path[1..], version);
      CountStore(c, path[0], Mark(child, path[1..], version));
      assert Count(EMPTY) == 1;
    }
  }

  lemma {:induction false} CreatedBound(c: Change, path: Path)
    ensures Created(c, path) <= |path|
    decreases path
  {
    if path != [] {
      CreatedBound(ChildOrEmpty(c, path[0]), path[1..]);
    }
  }

  /** Pruning never adds nodes. */
  lemma {:induction false} CountPrune(c: Change, version: nat)
    ensures Count(Prune(c, version)) <= Count(c)
    decreases c, 1, 0
  {
    CountPruneAmong(c, version, c.children.Keys);
    assert c.children.Keys * Prune(c, version).children.Keys == Prune(c, version).children.Keys;
  }

  lemma {:induction false} CountPruneAmong(c: Change, version: nat, steps: set<Step>)
    requires steps <= c.children.Keys
    ensures CountAmong(Prune(c, version), steps * Prune(c, version).children.Keys) <= CountAmong(c, steps)
    decreases c, 0, |steps|
  {
    var d := Prune(c, version);
    if steps != {} {
      var step :| step in steps;
      CountAmongTake(c, steps, step);
      CountPruneAmong(c, version, steps - {step});
      CountPrune(c.children[step], version);
      if step in d.children {
        CountAmongTake(d, steps * d.children.Keys, step);
        assert steps * d.children.Keys - {step} == (steps - {step}) * d.children.Keys;
      } else {
        assert steps * d.children.Keys == (steps - {step}) * d.children.Keys;
      }
    } else {
      assert steps * d.children.Keys == {};
    }
  }

  /** Counts the nodes by walking the children of every node. */
  method CountNodes(c: Change) returns (n: nat)
    ensures n == Count(c)
    decreases c
  {
    n := 1;
    var left := c.children.Keys;
    assert left == c.children.Keys;
    while left != {}
      invariant left <= c.children.Keys
      invariant n + CountAmong(c, left) == Count(c)
      decreases |left|
    {
      var step :| step in left;
      CountAmongTake(c, left, step);
      var below := CountNodes(c.children[step]);
      n := n + below;
      left := left - {step};
    }
  }

  // ---------------------------------------------------------------- reading

  /** A mark decides its own path, hides everything below it and leaves all other paths alone. */
  lemma {:induction false} ReplaceAtMark(c: Change, path: Path, version: nat, at: Path)
    ensures ReplaceAt(Mark(c, path, version), at)
         == if at == path then version else if IsPrefix(path, at) then 0 else ReplaceAt(c, at)
    decreases path
  {
    if path != [] && at != [] && at[0] == path[0] {
      ReplaceAtMark(ChildOrEmpty(c, path[0]), path[1..], version, at[1..]);
      assert at == path <==> at[1..] == path[1..] by {
        assert at == [at[0]] + at[1..] && path == [path[0]] + path[1..];
      }
      assert IsPrefix(path, at) <==> IsPrefix(path[1..], at[1..]) by {
        if |path| <= |at| {
          assert at[..|path|] == [at[0]] + at[1..][..|path| - 1];
          assert path == [path[0]] + path[1..];
        }
      }
    }
  }

  /** Pruning drops exactly the replacements up to the version. */
  lemma {:induction false} ReplaceAtPrune(c: Change, version: nat, at: Path)
    ensures ReplaceAt(Prune(c, version), at) == if ReplaceAt(c, at) <= version then 0 else ReplaceAt(c, at)
    decreases at
  {
    if at != [] && at[0] in c.children {
      ReplaceAtPrune(c.children[at[0]], version, at[1..]);
    }
  }

  lemma {:induction false} MarkLive(c: Change, path: Path, version: nat)
    requires version > 0 && (c == EMPTY || Live(c))
    ensures Live(Mark(c, path, version))
    decreases path
  {
    if path != [] {
      MarkLive(ChildOrEmpty(c, path[0]), path[1..], version);
      assert path[0] in Mark(c, path, version).children;
    }
  }

  lemma {:induction false} PruneLive(c: Change, version: nat)
    ensures forall step | step in Prune(c, version).children :: Live(Prune(c, version).children[step])
    ensures !Dead(Prune(c, version)) ==> Live(Prune(c, version))
  {
    forall step | step in Prune(c, version).children
      ensures Live(Prune(c, version).children[step])
    {
      PruneLive(c.children[step], version);
    }
  }

  /** A live tree holds a replacement somewhere. */
  lemma {:induction false} LiveHasReplacement(c: Change) returns (at: Path)
    requires Live(c)
    ensures ReplaceAt(c, at) > 0
    decreases c
  {
    if c.replace > 0 {
      at := [];
    } else {
      var step :| step in c.children;
      var below := LiveHasReplacement(c.children[step]);
      at := [step] + below;
    }
  }

  /** A live tree, or none at all, is determined by its replacements. */
  lemma {:induction false} Extensional(c: Change, d: Change)
    requires (c == EMPTY || Live(c)) && (d == EMPTY || Live(d))
    requires forall path :: ReplaceAt(c, path) == ReplaceAt(d, path)
    ensures c == d
    decreases c
  {
    assert ReplaceAt(c, []) == ReplaceAt(d, []);
    SameChildren(c, d);
    SameChildren(d, c);
    forall step | step in c.children
      ensures c.children[step] == d.children[step]
    {
      forall path ensures ReplaceAt(c.children[step], path) == ReplaceAt(d.children[step], path) {
        assert ([step] + path)[1..] == path;
        assert ReplaceAt(c, [step] + path) == ReplaceAt(d, [step] + path);
      }
      Extensional(c.children[step], d.children[step]);
    }
    assert c.children == d.children;
  }

  lemma SameChildren(c: Change, d: Change)
    requires c == EMPTY || Live(c)
    requires forall path :: ReplaceAt(c, path) == ReplaceAt(d, path)
    ensures c.children.Keys <= d.children.Keys
  {
    forall step | step in c.children
      ensures step in d.children
    {
      var below := LiveHasReplacement(c.children[step]);
      ReplaceBelow(c, step, below);
      ReplaceBelow(d, step, below);
      assert ReplaceAt(c, [step] + below) == ReplaceAt(d, [step] + below);
    }
  }

  lemma ReplaceBelow(c: Change, step: Step, below: Path)
    ensures ReplaceAt(c, [step] + below) == if step in c.children then ReplaceAt(c.children[step], below) else 0
  {
    assert ([step] + below)[1..] == below;
  }

  // ---------------------------------------------------------------- mark and prune

  lemma {:induction false} MarkNotDead(c: Change, path: Path, version: nat)
    requires version > 0
    ensures !Dead(Mark(c, path, version))
  {
    if path != [] {
      assert path[0] in Mark(c, path, version).children;
    }
  }

  /** Forgetting old versions and recording a newer one commute. */
  lemma {:induction false} PruneMark(c: Change, path: Path, version: nat, floor: nat)
    requires floor < version
    ensures Prune(Mark(c, path, version), floor) == Mark(Prune(c, floor), path, version)
    decreases path
  {
    if path != [] {
      var step, rest := path[0], path[1..];
      var child := ChildOrEmpty(c, step);
      PruneMark(child, rest, version, floor);
      MarkNotDead(Prune(child, floor), rest, version);
      assert Prune(EMPTY, floor) == EMPTY;
      assert ChildOrEmpty(Prune(c, floor), step) == Prune(child, floor);
      var left, right := Prune(Mark(c, path, version), floor), Mark(Prune(c, floor), path, version);
      forall other ensures other in left.children <==> other in right.children {
      }
      forall other | other in left.children ensures left.children[other] == right.children[other] {
      }
      assert left.children == right.children;
    }
  }

  /** Forgetting up to a version that nothing exceeds leaves nothing. */
  lemma {:induction false} PruneAll(c: Change, version: nat)
    requires ReplacesUpTo(c, version)
    ensures Prune(c, version) == EMPTY
  {
    assert ReplaceAt(c, []) <= version;
    forall step | step in c.children
      ensures Dead(Prune(c.children[step], version))
    {
      forall path ensures ReplaceAt(c.children[step], path) <= version {
        assert ([step] + path)[1..] == path;
        assert ReplaceAt(c, [step] + path) <= version;
      }
      PruneAll(c.children[step], version);
    }
    assert Prune(c, version).children == map[];
  }
}
