/**
 Load ordering (`topoSort`, `buildLevels`): templates name the resources they depend on; loading
 goes level by level, and templates of one level load in parallel.
 */
module Loader {
  import opened Digraph

  datatype Template = Template(resource: string, dependsOn: seq<string>)

  type Templates = seq<Template>

  datatype Result = Sorted(order: seq<nat>) | BadNames | UnknownDependency | Circular

  // ---------------------------------------------------------------- what the templates say

  ghost predicate WellNamed(t: Templates) {
    && (forall i | 0 <= i < |t| :: t[i].resource != "")
    && (forall i, j | 0 <= i < j < |t| :: t[i].resource != t[j].resource)
  }

  ghost predicate Declares(t: Templates, name: string) {
    exists j :: 0 <= j < |t| && t[j].resource == name
  }

  ghost predicate Known(t: Templates) {
    forall i, d | 0 <= i < |t| && d in t[i].dependsOn :: Declares(t, d)
  }

  /** Template `i` names the resource of template `j`. */
  predicate Depends(t: Templates, i: nat, j: nat) {
    i < |t| && j < |t| && t[j].resource in t[i].dependsOn
  }

  ghost function GraphOf(t: Templates): (g: Graph<nat>)
    ensures forall i: nat, j: nat :: Edge(g, i, j) <==> Depends(t, i, j)
    ensures forall i: nat :: i in g <==> i < |t|
  {
    map i: nat | i < |t| :: DependenciesOf(t, i)
  }

  ghost function DependenciesOf(t: Templates, i: nat): set<nat> {
    set j: nat | j < |t| && Depends(t, i, j)
  }

  ghost predicate ChainFrom(t: Templates, p: seq<nat>, i: nat) {
    Chain(GraphOf(t), p) && p != [] && p[0] == i
  }

  /** The longest dependency chain from `i` has `level` links. */
  ghost predicate IsLongest(t: Templates, i: nat, level: nat) {
    && (exists p :: ChainFrom(t, p, i) && |p| == level + 1)
    && (forall p | ChainFrom(t, p, i) :: |p| <= level + 1)
  }

  // ---------------------------------------------------------------- orders

  ghost predicate Indices(s: seq<nat>, n: nat) {
    Distinct(s) && forall i | 0 <= i < |s| :: s[i] < n
  }

  lemma {:induction false} IndicesBound(s: seq<nat>, n: nat)
    requires Indices(s, n)
    ensures |s| <= n
    decreases n
  {
    if s != [] {
      if k :| 0 <= k < |s| && s[k] == n - 1 {
        var rest := s[..k] + s[k + 1..];
        assert forall i | 0 <= i < |rest| :: rest[i] == if i < k then s[i] else s[i + 1];
        IndicesBound(rest, n - 1);
      } else {
        assert s[0] < n;
        IndicesBound(s, n - 1);
      }
    }
  }

  lemma AllIndices(s: seq<nat>, n: nat, i: nat)
    requires Indices(s, n) && |s| == n && i < n
    ensures i in s
  {
    if i !in s {
      IndicesBound(s + [i], n);
    }
  }

  /** As many distinct indices as there are templates, dependencies first: an order of all of them. */
  lemma WholeOrder(t: Templates, order: seq<nat>)
    requires Indices(order, |t|) && |order| == |t| && DependenciesFirst(GraphOf(t), order)
    ensures Topological(GraphOf(t), order)
  {
    forall i: nat ensures i in order <==> i in GraphOf(t) {
      if i < |t| {
        AllIndices(order, |t|, i);
      }
    }
  }

  // ---------------------------------------------------------------- an order exists exactly without a cycle

  /** Every template outside `order` depends on another one outside it. */
  ghost predicate Stuck(t: Templates, order: seq<nat>) {
    forall i: nat :: Waits(t, order, i)
  }

  ghost predicate Waits(t: Templates, order: seq<nat>, i: nat) {
    i < |t| && i !in order ==> exists j: nat :: j !in order && Depends(t, i, j)
  }

  /** Following dependencies from a stuck template never ends, so it comes back. */
  lemma {:induction false} StuckHasCycle(t: Templates, order: seq<nat>, walk: seq<nat>)
    requires Stuck(t, order) && Chain(GraphOf(t), walk) && Indices(walk, |t|) && walk != []
        && walk[|walk| - 1] !in order
    ensures !Acyclic(GraphOf(t))
    decreases |t| - |walk|
  {
    var last := walk[|walk| - 1];
    assert Waits(t, order, last);
    var j: nat :| j !in order && Depends(t, last, j);
    if j in walk {
      ChainCloses(GraphOf(t), walk, j);
    } else {
      ChainAppend(GraphOf(t), walk, j);
      AppendIndex(walk, |t|, j);
      IndicesBound(walk + [j], |t|);
      StuckHasCycle(t, order, walk + [j]);
    }
  }

  lemma AppendIndex(s: seq<nat>, n: nat, j: nat)
    requires Indices(s, n) && j < n && j !in s
    ensures Indices(s + [j], n)
  {
  }

  // ---------------------------------------------------------------- Kahn's algorithm

  /** The map built from the resource names. */
  ghost predicate Indexes(t: Templates, names: map<string, nat>) {
    && (forall i | 0 <= i < |t| :: t[i].resource in names && names[t[i].resource] == i)
    && (forall name | name in names :: names[name] < |t| && t[names[name]].resource == name)
  }

  /** How many of the mentions, repeated ones counted each time, are not in `done`. */
  ghost function Waiting(names: map<string, nat>, deps: seq<string>, done: seq<nat>): nat {
    if deps == [] then 0
    else (if deps[0] in names && names[deps[0]] in done then 0 else 1) + Waiting(names, deps[1..], done)
  }

  lemma {:induction false} WaitingNothingDone(names: map<string, nat>, deps: seq<string>)
    ensures Waiting(names, deps, []) == |deps|
  {
    if deps != [] {
      WaitingNothingDone(names, deps[1..]);
    }
  }

  lemma {:induction false} WaitingOneMore(t: Templates, names: map<string, nat>, deps: seq<string>, done: seq<nat>,
                                          current: nat)
    requires Indexes(t, names) && current < |t| && current !in done
    ensures Waiting(names, deps, done) == Waiting(names, deps, done + [current]) + multiset(deps)[t[current].resource]
  {
    if deps != [] {
      WaitingOneMore(t, names, deps[1..], done, current);
      assert deps == [deps[0]] + deps[1..];
    }
  }

  lemma {:induction false} WaitingZero(t: Templates, names: map<string, nat>, deps: seq<string>, done: seq<nat>)
    requires Indexes(t, names)
    ensures Waiting(names, deps, done) == 0 <==> forall d | d in deps :: d in names && names[d] in done
  {
    if deps != [] {
      WaitingZero(t, names, deps[1..], done);
      assert deps == [deps[0]] + deps[1..];
    }
  }

  /**
   The degrees count the dependencies outside `done` and the dependants of the current template
   that are still to be told (`untold`); exactly the templates of degree 0 are listed, each once.
   */
  ghost predicate Counted(t: Templates, names: map<string, nat>, degrees: seq<int>, done: seq<nat>, untold: seq<nat>,
                          listed: seq<nat>) {
    && |degrees| == |t| && Indices(listed, |t|)
    && (forall i | 0 <= i < |untold| :: untold[i] < |t|)
    && (forall i: nat | i < |t| :: degrees[i] == Waiting(names, t[i].dependsOn, done) + multiset(untold)[i])
    && (forall i: nat | i < |t| :: i in listed <==> degrees[i] == 0)
  }

  lemma TellOne(t: Templates, names: map<string, nat>, degrees: seq<int>, degrees': seq<int>, done: seq<nat>,
                untold: seq<nat>, listed: seq<nat>)
    requires Counted(t, names, degrees, done, untold, listed) && untold != []
    requires degrees' == degrees[untold[0] := degrees[untold[0]] - 1]
    ensures degrees'[untold[0]] != 0 ==> Counted(t, names, degrees', done, untold[1..], listed)
    ensures degrees'[untold[0]] == 0 ==> Counted(t, names, degrees', done, untold[1..], listed + [untold[0]])
  {
    var next := untold[0];
    assert untold == [next] + untold[1..];
    assert multiset(untold)[next] == multiset(untold[1..])[next] + 1;
    assert next !in listed;
  }

  /** The adjacency lists hold each template once per mention. */
  ghost predicate Adjacent(t: Templates, adjacent: seq<seq<nat>>) {
    && |adjacent| == |t|
    && (forall j | 0 <= j < |t| :: forall k | 0 <= k < |adjacent[j]| :: adjacent[j][k] < |t|)
    && (forall j, i: nat | 0 <= j < |t| && i < |t| ::
        multiset(adjacent[j])[i] == multiset(t[i].dependsOn)[t[j].resource])
  }

  /** Taking a template off the queue leaves its dependants to be told. */
  lemma TakeFirst(t: Templates, names: map<string, nat>, adjacent: seq<seq<nat>>, degrees: seq<int>, order: seq<nat>,
                  queue: seq<nat>)
    requires Indexes(t, names) && Known(t) && Adjacent(t, adjacent) && queue != []
    requires Counted(t, names, degrees, order, [], order + queue) && DependenciesFirst(GraphOf(t), order)
    ensures queue[0] < |t| && Counted(t, names, degrees, order + [queue[0]], adjacent[queue[0]], order + queue)
    ensures DependenciesFirst(GraphOf(t), order + [queue[0]])
    ensures order + queue == (order + [queue[0]]) + queue[1..]
  {
    var current := queue[0];
    HeadListed(order, queue, |t|);
    forall i: nat | i < |t|
      ensures degrees[i] == Waiting(names, t[i].dependsOn, order + [current]) + multiset(adjacent[current])[i]
    {
      WaitingOneMore(t, names, t[i].dependsOn, order, current);
    }
    assert DependenciesFirst(GraphOf(t), order + [current]) by {
      WaitingZero(t, names, t[current].dependsOn, order);
      ReadyAppends(GraphOf(t), order, current);
    }
  }

  lemma HeadListed(order: seq<nat>, queue: seq<nat>, n: nat)
    requires Indices(order + queue, n) && queue != []
    ensures queue[0] in order + queue && queue[0] !in order && queue[0] < n
    ensures order + queue == (order + [queue[0]]) + queue[1..]
  {
    var listed := order + queue;
    assert listed[|order|] == queue[0];
    forall i | 0 <= i < |order| ensures order[i] != queue[0] {
      assert listed[i] == order[i];
    }
  }

  lemma QueueEmpty(t: Templates, names: map<string, nat>, degrees: seq<int>, order: seq<nat>)
    requires Indexes(t, names) && Known(t) && Counted(t, names, degrees, order, [], order)
    ensures Stuck(t, order)
  {
    forall i: nat ensures Waits(t, order, i) {
      if i < |t| && i !in order {
        WaitingZero(t, names, t[i].dependsOn, order);
        var d :| d in t[i].dependsOn && !(d in names && names[d] in order);
        assert Declares(t, d);
        assert Depends(t, i, names[d]);
      }
    }
  }

  method IndexNames(t: Templates) returns (ok: bool, names: map<string, nat>)
    ensures ok == WellNamed(t)
    ensures ok ==> Indexes(t, names)
  {
    names := map[];
    for index := 0 to |t|
      invariant WellNamed(t[..index]) && Indexes(t[..index], names)
    {
      assert t[..index + 1] == t[..index] + [t[index]];
      if t[index].resource == "" || t[index].resource in names {
        assert t[..index + 1][index] == t[index];
        return false, names;
      }
      names := names[t[index].resource := index];
    }
    assert t[..|t|] == t;
    ok := true;
  }

  /** The lists after some mentions of template `index`, added to lists of earlier templates. */
  ghost predicate Added(t: Templates, index: nat, before: seq<seq<nat>>, mentions: seq<string>,
                        adjacent: seq<seq<nat>>) {
    && |adjacent| == |t| == |before|
    && forall j | 0 <= j < |t| :: AddedTo(before[j], adjacent[j], index, multiset(mentions)[t[j].resource])
  }

  ghost predicate AddedTo(before: seq<nat>, list: seq<nat>, index: nat, times: nat) {
    && (forall m | 0 <= m < |list| :: list[m] <= index)
    && (forall i: nat | i < index :: multiset(list)[i] == multiset(before)[i])
    && multiset(list)[index] == times
  }

  lemma AddMention(t: Templates, names: map<string, nat>, index: nat, before: seq<seq<nat>>,
                   mentions: seq<string>, adjacent: seq<seq<nat>>, mentions': seq<string>, adjacent': seq<seq<nat>>,
                   mention: string)
    requires Indexes(t, names) && Added(t, index, before, mentions, adjacent) && mention in names
    requires mentions' == mentions + [mention]
    requires adjacent' == adjacent[names[mention] := adjacent[names[mention]] + [index]]
    ensures Added(t, index, before, mentions', adjacent')
  {
    forall j | 0 <= j < |t| ensures AddedTo(before[j], adjacent'[j], index, multiset(mentions')[t[j].resource]) {
      assert AddedTo(before[j], adjacent[j], index, multiset(mentions)[t[j].resource]);
      assert j != names[mention] ==> t[j].resource != mention;
    }
  }

  lemma AddNone(t: Templates, index: nat, before: seq<seq<nat>>)
    requires |before| == |t| && forall j | 0 <= j < |t| :: Below(before[j], index)
    ensures Added(t, index, before, [], before)
  {
    forall j | 0 <= j < |t| ensures AddedTo(before[j], before[j], index, 0) {
      assert Below(before[j], index);
      assert index !in before[j];
    }
  }

  ghost predicate Below(list: seq<nat>, index: nat) {
    forall m | 0 <= m < |list| :: list[m] < index
  }

  /** The lists hold the mentions of the templates before `index`. */
  ghost predicate AdjacentUpTo(t: Templates, index: nat, adjacent: seq<seq<nat>>) {
    && |adjacent| == |t| && index <= |t|
    && (forall j | 0 <= j < |t| :: Below(adjacent[j], index))
    && (forall j, i: nat | 0 <= j < |t| && i < index ::
        multiset(adjacent[j])[i] == multiset(t[i].dependsOn)[t[j].resource])
  }

  lemma AddAll(t: Templates, index: nat, before: seq<seq<nat>>, adjacent: seq<seq<nat>>)
    requires AdjacentUpTo(t, index, before) && index < |t| && Added(t, index, before, t[index].dependsOn, adjacent)
    ensures AdjacentUpTo(t, index + 1, adjacent)
  {
    forall j | 0 <= j < |t| ensures Below(adjacent[j], index + 1) {
      assert AddedTo(before[j], adjacent[j], index, multiset(t[index].dependsOn)[t[j].resource]);
    }
    forall j, i: nat | 0 <= j < |t| && i < index + 1
      ensures multiset(adjacent[j])[i] == multiset(t[i].dependsOn)[t[j].resource]
    {
      assert AddedTo(before[j], adjacent[j], index, multiset(t[index].dependsOn)[t[j].resource]);
    }
  }

  ghost predicate Named(names: map<string, nat>, deps: seq<string>) {
    forall m | 0 <= m < |deps| :: deps[m] in names
  }

  lemma KnownIsNamed(t: Templates, names: map<string, nat>)
    requires Indexes(t, names)
    ensures Known(t) <==> forall i | 0 <= i < |t| :: Named(names, t[i].dependsOn)
  {
    if Known(t) {
      forall i, d | 0 <= i < |t| && d in t[i].dependsOn ensures d in names {
        assert Declares(t, d);
      }
    }
    if forall i | 0 <= i < |t| :: Named(names, t[i].dependsOn) {
      forall i, d | 0 <= i < |t| && d in t[i].dependsOn ensures Declares(t, d) {
        assert Named(names, t[i].dependsOn);
        assert t[names[d]].resource == d;
      }
    }
  }

  method Edges(t: Templates, names: map<string, nat>) returns (ok: bool, adjacent: seq<seq<nat>>, inDegree: array<int>)
    requires Indexes(t, names)
    ensures ok == Known(t) && fresh(inDegree) && inDegree.Length == |t|
    ensures ok ==> Adjacent(t, adjacent) && forall i | 0 <= i < |t| :: inDegree[i] == |t[i].dependsOn|
  {
    inDegree := new int[|t|](_ => 0);
    adjacent := seq(|t|, _ => []);
    ok := true;
    KnownIsNamed(t, names);
    for index := 0 to |t|
      invariant AdjacentUpTo(t, index, adjacent)
      invariant forall i | 0 <= i < index :: Named(names, t[i].dependsOn)
      invariant forall i | 0 <= i < |t| :: inDegree[i] == if i < index then |t[i].dependsOn| else 0
    {
      ok, adjacent := EdgesOf(t, names, index, adjacent, inDegree);
      if !ok {
        return;
      }
    }
    assert forall j | 0 <= j < |t| :: Below(adjacent[j], |t|);
  }

  method EdgesOf(t: Templates, names: map<string, nat>, index: nat, before: seq<seq<nat>>, inDegree: array<int>)
    returns (ok: bool, adjacent: seq<seq<nat>>)
    requires Indexes(t, names) && index < |t| == inDegree.Length && inDegree[index] == 0
        && AdjacentUpTo(t, index, before)
    modifies inDegree
    ensures ok == Named(names, t[index].dependsOn)
    ensures ok ==> AdjacentUpTo(t, index + 1, adjacent) && inDegree[index] == |t[index].dependsOn|
    ensures forall i | 0 <= i < |t| && i != index :: inDegree[i] == old(inDegree[i])
  {
    AddNone(t, index, before);
    ok, adjacent := Mention(t, names, index, before, inDegree);
    if ok {
      MentionedAdds(t, names, index, before, t[index].dependsOn);
      AddAll(t, index, before, adjacent);
    }
  }

  /** The lists after template `index` joined the list of each one it mentions. */
  function Mentioned(names: map<string, nat>, index: nat, lists: seq<seq<nat>>, mentions: seq<string>): seq<seq<nat>> {
    if mentions == [] then lists
    else
      var before, mention := Mentioned(names, index, lists, mentions[..|mentions| - 1]), mentions[|mentions| - 1];
      if mention in names && names[mention] < |before|
      then before[names[mention] := before[names[mention]] + [index]] else before
  }

  lemma FrontAndLast(s: seq<string>)
    requires s != []
    ensures s == s[..|s| - 1] + [s[|s| - 1]]
  {
  }

  lemma {:induction false} MentionedAdds(t: Templates, names: map<string, nat>, index: nat, lists: seq<seq<nat>>,
                                         mentions: seq<string>)
    requires Indexes(t, names) && Named(names, mentions) && Added(t, index, lists, [], lists)
    ensures Added(t, index, lists, mentions, Mentioned(names, index, lists, mentions))
  {
    if mentions != [] {
      var front, mention := mentions[..|mentions| - 1], mentions[|mentions| - 1];
      var adjacent := Mentioned(names, index, lists, front);
      MentionedAdds(t, names, index, lists, front);
      FrontAndLast(mentions);
      var target := names[mention];
      var more := adjacent[target := adjacent[target] + [index]];
      AddMention(t, names, index, lists, front, adjacent, mentions, more, mention);
    }
  }

  /** The loop over the mentions of one template. */
  method Mention(t: Templates, names: map<string, nat>, index: nat, before: seq<seq<nat>>, inDegree: array<int>)
    returns (ok: bool, adjacent: seq<seq<nat>>)
    requires Indexes(t, names) && index < |t| == |before| == inDegree.Length
    modifies inDegree
    ensures ok == Named(names, t[index].dependsOn)
    ensures ok ==> adjacent == Mentioned(names, index, before, t[index].dependsOn)
    ensures ok ==> inDegree[index] == old(inDegree[index]) + |t[index].dependsOn|
    ensures forall i | 0 <= i < |t| && i != index :: inDegree[i] == old(inDegree[i])
  {
    var deps := t[index].dependsOn;
    adjacent := before;
    for k := 0 to |deps|
      invariant forall m | 0 <= m < k :: deps[m] in names
      invariant adjacent == Mentioned(names, index, before, deps[..k]) && |adjacent| == |before|
      invariant inDegree[index] == old(inDegree[index]) + k
      invariant forall i | 0 <= i < |t| && i != index :: inDegree[i] == old(inDegree[i])
    {
      if deps[k] !in names {
        return false, adjacent;
      }
      assert deps[..k + 1][..k] == deps[..k];
      var target := names[deps[k]];
      adjacent := adjacent[target := adjacent[target] + [index]];
      inDegree[index] := inDegree[index] + 1;
    }
    assert deps[..|deps|] == deps;
    ok := true;
  }

  method FirstQueue(inDegree: array<int>) returns (queue: seq<nat>)
    ensures Indices(queue, inDegree.Length)
    ensures forall i: nat | i < inDegree.Length :: i in queue <==> inDegree[i] == 0
  {
    queue := [];
    for index := 0 to inDegree.Length
      invariant Indices(queue, index)
      invariant forall i: nat | i < index :: i in queue <==> inDegree[i] == 0
    {
      if inDegree[index] == 0 {
        queue := queue + [index];
      }
    }
  }

  /** Tells the dependants of the template just taken; those with nothing left to wait for join the queue. */
  method Tell(t: Templates, names: map<string, nat>, dependants: seq<nat>, inDegree: array<int>, order: seq<nat>,
              before: seq<nat>)
    returns (queue: seq<nat>)
    requires Counted(t, names, inDegree[..], order, dependants, order + before)
    modifies inDegree
    ensures Counted(t, names, inDegree[..], order, [], order + queue)
  {
    queue := before;
    assert dependants[0..] == dependants;
    for k := 0 to |dependants|
      invariant Counted(t, names, inDegree[..], order, dependants[k..], order + queue)
    {
      assert dependants[k..][1..] == dependants[k + 1..] && dependants[k..][0] == dependants[k];
      queue := TellNext(t, names, dependants[k..], inDegree, order, queue);
    }
    assert dependants[|dependants|..] == [];
  }

  method TellNext(t: Templates, names: map<string, nat>, untold: seq<nat>, inDegree: array<int>, order: seq<nat>,
                  before: seq<nat>)
    returns (queue: seq<nat>)
    requires untold != [] && Counted(t, names, inDegree[..], order, untold, order + before)
    modifies inDegree
    ensures Counted(t, names, inDegree[..], order, untold[1..], order + queue)
  {
    var next := untold[0];
    ghost var degrees := inDegree[..];
    inDegree[next] := inDegree[next] - 1;
    TellOne(t, names, degrees, inDegree[..], order, untold, order + before);
    queue := before;
    if inDegree[next] == 0 {
      queue := before + [next];
      assert (order + before) + [next] == order + queue;
    }
  }

  method Drain(t: Templates, names: map<string, nat>, adjacent: seq<seq<nat>>, inDegree: array<int>, first: seq<nat>)
    returns (order: seq<nat>)
    requires Indexes(t, names) && Known(t) && Adjacent(t, adjacent)
    requires Counted(t, names, inDegree[..], [], [], first)
    modifies inDegree
    ensures Indices(order, |t|) && DependenciesFirst(GraphOf(t), order) && Stuck(t, order)
  {
    var queue := first;
    order := [];
    assert order + queue == queue;
    while queue != []
      invariant Counted(t, names, inDegree[..], order, [], order + queue) && DependenciesFirst(GraphOf(t), order)
      decreases |t| - |order|
    {
      TakeFirst(t, names, adjacent, inDegree[..], order, queue);
      IndicesBound(order + queue, |t|);
      var current := queue[0];
      queue := queue[1..];
      order := order + [current];
      queue := Tell(t, names, adjacent[current], inDegree, order, queue);
    }
    assert order + queue == order;
    QueueEmpty(t, names, inDegree[..], order);
  }

  /** The order, or why there is none. */
  method TopoSort(t: Templates) returns (r: Result)
    ensures r.BadNames? <==> !WellNamed(t)
    ensures r.UnknownDependency? <==> WellNamed(t) && !Known(t)
    ensures r.Circular? <==> WellNamed(t) && Known(t) && !Acyclic(GraphOf(t))
    ensures r.Sorted? ==> Topological(GraphOf(t), r.order) && |r.order| == |t|
  {
    var ok, names := IndexNames(t);
    if !ok {
      return BadNames;
    }
    var known, adjacent, inDegree := Edges(t, names);
    if !known {
      return UnknownDependency;
    }
    var queue := FirstQueue(inDegree);
    Start(t, names, inDegree[..], queue);
    var order := Drain(t, names, adjacent, inDegree, queue);
    IndicesBound(order, |t|);
    if |order| != |t| {
      ShortHasCycle(t, order);
      return Circular;
    }
    WholeOrder(t, order);
    TopologicalIsAcyclic(GraphOf(t), order);
    return Sorted(order);
  }

  lemma Start(t: Templates, names: map<string, nat>, degrees: seq<int>, queue: seq<nat>)
    requires |degrees| == |t| && (forall i | 0 <= i < |t| :: degrees[i] == |t[i].dependsOn|)
    requires Indices(queue, |t|) && (forall i: nat | i < |t| :: i in queue <==> degrees[i] == 0)
    ensures Counted(t, names, degrees, [], [], queue)
  {
    forall i: nat | i < |t| ensures degrees[i] == Waiting(names, t[i].dependsOn, []) {
      WaitingNothingDone(names, t[i].dependsOn);
    }
  }

  lemma ShortHasCycle(t: Templates, order: seq<nat>)
    requires Stuck(t, order) && |order| < |t|
    ensures !Acyclic(GraphOf(t))
  {
    var i := Missing(order, |t|);
    ChainAppend(GraphOf(t), [], i);
    assert [] + [i] == [i];
    StuckHasCycle(t, order, [i]);
  }

  lemma Missing(order: seq<nat>, n: nat) returns (i: nat)
    requires |order| < n
    ensures i < n && i !in order
  {
    if forall k: nat | k < n :: k in order {
      var positions := seq(n, k requires 0 <= k < n => Position(order, k));
      assert forall k | 0 <= k < n :: order[positions[k]] == k;
      IndicesBound(positions, |order|);
      assert false;
    }
    i :| i < n && i !in order;
  }

  // ---------------------------------------------------------------- levels

  /** One more than the highest dependency is the longest chain. */
  lemma LongestStep(t: Templates, i: nat, level: nat, levels: seq<nat>)
    requires i < |t| == |levels|
    requires forall j: nat | Depends(t, i, j) :: IsLongest(t, j, levels[j]) && levels[j] < level
    requires level == 0 || exists j: nat :: Depends(t, i, j) && levels[j] + 1 == level
    ensures IsLongest(t, i, level)
  {
    if level == 0 {
      ChainAppend(GraphOf(t), [], i);
      assert [] + [i] == [i];
      assert ChainFrom(t, [i], i);
    } else {
      var j: nat :| Depends(t, i, j) && levels[j] + 1 == level;
      var p :| ChainFrom(t, p, j) && |p| == level;
      ChainPrepend(GraphOf(t), p, i);
      assert ChainFrom(t, [i] + p, i);
    }
    forall p | ChainFrom(t, p, i) ensures |p| <= level + 1 {
      if |p| > 1 {
        assert Link(GraphOf(t), p, 1);
        ChainSuffix(GraphOf(t), p, 1);
        assert ChainFrom(t, p[1..], p[1]);
      }
    }
  }

  lemma LongestIsOne(t: Templates, i: nat, level: nat, other: nat)
    requires IsLongest(t, i, level) && IsLongest(t, i, other)
    ensures level == other
  {
    var p :| ChainFrom(t, p, i) && |p| == level + 1;
    var q :| ChainFrom(t, q, i) && |q| == other + 1;
  }

  /** What a template depends on lies in a strictly lower level. */
  lemma DependenciesLower(t: Templates, i: nat, j: nat, level: nat, below: nat)
    requires Depends(t, i, j) && IsLongest(t, i, level) && IsLongest(t, j, below)
    ensures below < level
  {
    var p :| ChainFrom(t, p, j) && |p| == below + 1;
    ChainPrepend(GraphOf(t), p, i);
    assert ChainFrom(t, [i] + p, i);
  }

  /** Below a level that is used every level is used. */
  lemma NoGap(t: Templates, i: nat, level: nat, lower: nat) returns (j: nat)
    requires IsLongest(t, i, level) && lower <= level
    ensures j < |t| && IsLongest(t, j, lower)
  {
    var p :| ChainFrom(t, p, i) && |p| == level + 1;
    var at := level - lower;
    j := p[at];
    ChainSuffix(GraphOf(t), p, at);
    assert ChainFrom(t, p[at..], j);
    forall q | ChainFrom(t, q, j) ensures |q| <= lower + 1 {
      ChainReroute(GraphOf(t), p, at, q);
      assert ChainFrom(t, p[..at] + q, i);
    }
  }

  ghost predicate Ascending(s: seq<nat>) {
    forall i, j | 0 <= i < j < |s| :: s[i] < s[j]
  }

  /** The first `count` templates of the order have their final level, the others still 0. */
  ghost predicate Levelled(t: Templates, order: seq<nat>, levels: seq<nat>, count: nat) {
    |levels| == |t| && LevelledBy(LongestIn(t), order, levels, count)
  }

  ghost function LongestIn(t: Templates): (nat, nat) -> bool {
    (i: nat, level: nat) => IsLongest(t, i, level)
  }

  ghost predicate LevelledBy(right: (nat, nat) -> bool, order: seq<nat>, levels: seq<nat>, count: nat) {
    && count <= |order|
    && (forall k | 0 <= k < count :: order[k] < |levels| && right(order[k], levels[order[k]]))
    && (forall i: nat | i < |levels| && i !in order[..count] :: levels[i] == 0)
  }

  /** The mentions of a template, looked up by name, are exactly its dependencies. */
  lemma NamedDependencies(t: Templates, names: map<string, nat>, index: nat)
    requires Indexes(t, names) && Known(t) && index < |t|
    ensures var deps := t[index].dependsOn;
            && (forall m | 0 <= m < |deps| :: deps[m] in names && Depends(t, index, names[deps[m]]))
            && (forall j: nat | Depends(t, index, j) ::
                  exists m :: 0 <= m < |deps| && deps[m] in names && names[deps[m]] == j)
  {
    var deps := t[index].dependsOn;
    forall m | 0 <= m < |deps| ensures deps[m] in names {
      assert Declares(t, deps[m]);
    }
    forall j: nat | Depends(t, index, j)
      ensures exists m :: 0 <= m < |deps| && deps[m] in names && names[deps[m]] == j
    {
      var m :| 0 <= m < |deps| && deps[m] == t[j].resource;
    }
  }

  /** One more than the highest level among the dependencies. */
  ghost predicate OneAbove(t: Templates, index: nat, level: nat, levels: seq<nat>)
    requires |levels| == |t|
  {
    && (forall j: nat | Depends(t, index, j) :: levels[j] < level)
    && (level == 0 || exists j: nat :: Depends(t, index, j) && levels[j] + 1 == level)
  }

  method LevelOf(t: Templates, names: map<string, nat>, index: nat, levels: array<nat>)
    requires Indexes(t, names) && Known(t) && index < |t| == levels.Length && levels[index] == 0
    requires !Depends(t, index, index)
    modifies levels
    ensures OneAbove(t, index, levels[index], levels[..])
    ensures forall i | 0 <= i < |t| && i != index :: levels[i] == old(levels[i])
  {
    var deps := t[index].dependsOn;
    NamedDependencies(t, names, index);
    for k := 0 to |deps|
      invariant forall i | 0 <= i < |t| && i != index :: levels[i] == old(levels[i])
      invariant forall m | 0 <= m < k :: levels[names[deps[m]]] < levels[index]
      invariant levels[index] == 0 || exists j: nat :: Depends(t, index, j) && levels[j] + 1 == levels[index]
    {
      var dependency := names[deps[k]];
      if levels[dependency] + 1 > levels[index] {
        levels[index] := levels[dependency] + 1;
      }
    }
    assert forall j: nat | Depends(t, index, j) :: exists m :: 0 <= m < |deps| && names[deps[m]] == j;
  }

  /** When its turn comes, a template has no level yet, and all its dependencies have theirs. */
  lemma TurnComes(t: Templates, order: seq<nat>, levels: seq<nat>, k: nat)
    requires Topological(GraphOf(t), order) && Levelled(t, order, levels, k) && k < |order|
    ensures order[k] < |t| && order[k] !in order[..k] && levels[order[k]] == 0 && !Depends(t, order[k], order[k])
    ensures forall j: nat | Depends(t, order[k], j) :: IsLongest(t, j, levels[j])
  {
    assert order[k] in order && order[k] !in order[..k];
    assert Ready(GraphOf(t), order, k);
    forall j: nat | Depends(t, order[k], j) ensures j in order[..k] && IsLongest(t, j, levels[j]) {
      assert Edge(GraphOf(t), order[k], j);
      var m :| 0 <= m < k && order[m] == j;
    }
  }

  lemma LevelledOneMore(right: (nat, nat) -> bool, order: seq<nat>, levels: seq<nat>, levels': seq<nat>, k: nat)
    requires LevelledBy(right, order, levels, k) && k < |order| && |levels'| == |levels|
    requires order[k] < |levels| && order[k] !in order[..k] && right(order[k], levels'[order[k]])
    requires forall i: nat | i < |levels| && i != order[k] :: levels'[i] == levels[i]
    ensures LevelledBy(right, order, levels', k + 1)
  {
    assert order[..k + 1] == order[..k] + [order[k]];
    forall m | 0 <= m < k ensures order[m] < |levels| && levels'[order[m]] == levels[order[m]] {
      assert order[m] in order[..k];
    }
  }

  lemma LevelledAll(t: Templates, order: seq<nat>, levels: seq<nat>, i: nat)
    requires Topological(GraphOf(t), order) && Levelled(t, order, levels, |order|) && i < |t|
    ensures IsLongest(t, i, levels[i]) && i in order
  {
    assert i in GraphOf(t);
    var m :| 0 <= m < |order| && order[m] == i;
  }

  method AssignLevels(t: Templates, names: map<string, nat>, order: seq<nat>, levels: array<nat>)
    returns (maxLevel: nat)
    requires Indexes(t, names) && Known(t) && Topological(GraphOf(t), order)
    requires levels.Length == |t| && forall i | 0 <= i < |t| :: levels[i] == 0
    modifies levels
    ensures forall i | 0 <= i < |t| :: IsLongest(t, i, levels[i]) && levels[i] <= maxLevel
    ensures maxLevel == 0 || exists i :: 0 <= i < |t| && levels[i] == maxLevel
  {
    maxLevel := 0;
    for k := 0 to |order|
      invariant Levelled(t, order, levels[..], k)
      invariant forall i | 0 <= i < |t| :: levels[i] <= maxLevel
      invariant maxLevel == 0 || exists i :: 0 <= i < |t| && levels[i] == maxLevel
    {
      var index := order[k];
      TurnComes(t, order, levels[..], k);
      ghost var before := levels[..];
      LevelOf(t, names, index, levels);
      LongestStep(t, index, levels[index], levels[..]);
      LevelledOneMore(LongestIn(t), order, before, levels[..], k);
      if levels[index] > maxLevel {
        maxLevel := levels[index];
      }
    }
    forall i | 0 <= i < |t| ensures IsLongest(t, i, levels[i]) {
      LevelledAll(t, order, levels[..], i);
    }
  }

  /** Each template goes into the one level that is its longest dependency chain; levels list templates in index
      order. */
  method BuildLevels(order: seq<nat>, t: Templates) returns (levels: seq<seq<nat>>)
    requires WellNamed(t) && Known(t) && Topological(GraphOf(t), order)
    ensures forall l: nat, i: nat :: l < |levels| && i in levels[l] <==> i < |t| && IsLongest(t, i, l)
    ensures forall l | 0 <= l < |levels| :: Ascending(levels[l]) && (t != [] ==> levels[l] != [])
    ensures t == [] ==> levels == [[]]
  {
    var ok, names := IndexNames(t);
    var levelsByIndex := new nat[|t|](_ => 0);
    var maxLevel := AssignLevels(t, names, order, levelsByIndex);
    levels := Group(levelsByIndex, maxLevel);
    Grouped(t, levelsByIndex[..], maxLevel, levels);
  }

  method Group(levelsByIndex: array<nat>, maxLevel: nat) returns (levels: seq<seq<nat>>)
    requires forall i | 0 <= i < levelsByIndex.Length :: levelsByIndex[i] <= maxLevel
    ensures |levels| == maxLevel + 1
    ensures forall l | 0 <= l < |levels| :: Ascending(levels[l])
    ensures forall l | 0 <= l < |levels| :: forall i: nat ::
        i in levels[l] <==> i < levelsByIndex.Length && levelsByIndex[i] == l
  {
    levels := seq(maxLevel + 1, _ => []);
    for index := 0 to levelsByIndex.Length
      invariant |levels| == maxLevel + 1
      invariant forall l | 0 <= l < |levels| :: Ascending(levels[l]) && Below(levels[l], index)
      invariant forall l | 0 <= l < |levels| :: forall i: nat :: i in levels[l] <==> i < index && levelsByIndex[i] == l
    {
      var level := levelsByIndex[index];
      levels := levels[level := levels[level] + [index]];
    }
  }

  lemma Member(s: seq<nat>) returns (i: nat)
    requires s != []
    ensures i in s
  {
    i := s[0];
  }

  lemma Grouped(t: Templates, byIndex: seq<nat>, maxLevel: nat, levels: seq<seq<nat>>)
    requires |byIndex| == |t| && |levels| == maxLevel + 1
    requires forall i | 0 <= i < |t| :: IsLongest(t, i, byIndex[i]) && byIndex[i] <= maxLevel
    requires maxLevel == 0 || exists i :: 0 <= i < |t| && byIndex[i] == maxLevel
    requires forall l | 0 <= l < |levels| :: forall i: nat :: i in levels[l] <==> i < |t| && byIndex[i] == l
    ensures forall l: nat, i: nat :: l < |levels| && i in levels[l] <==> i < |t| && IsLongest(t, i, l)
    ensures t != [] ==> forall l | 0 <= l < |levels| :: levels[l] != []
    ensures t == [] ==> levels == [[]]
  {
    forall l: nat, i: nat ensures l < |levels| && i in levels[l] <==> i < |t| && IsLongest(t, i, l) {
      if i < |t| && IsLongest(t, i, l) {
        LongestIsOne(t, i, l, byIndex[i]);
      }
    }
    if t != [] {
      var top :| 0 <= top < |t| && (maxLevel == 0 || byIndex[top] == maxLevel);
      forall l | 0 <= l < |levels| ensures levels[l] != [] {
        var j := NoGap(t, top, byIndex[top], l);
        assert j in levels[l];
      }
    } else {
      if levels[0] != [] {
        var _ := Member(levels[0]);
        assert false;
      }
    }
  }
}
