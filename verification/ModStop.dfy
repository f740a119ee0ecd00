/**
 Stopping on the normal shutdown path (`stopModsReverseBefore`, `stopModSafely` and the stop part of
 `shutdown`): service mods first, then shared ones, each in reverse start order, breaking off
 at the first stop that does not come back.
 */
module ModStop {
  import opened Digraph
  import opened ModOrder

  /** What one stop call gives: it came back, with or without an error of its own; or with a context error; or not in
      time. */
  datatype StopResult = Returned(failed: bool) | ContextError | TimedOut

  /** `expired` says whether the deadline had passed when the loop came to the mod. */
  datatype World = World(expired: Name -> bool, stop: Name -> StopResult)

  datatype Problem = Failed(name: Name) | Incomplete(name: Name) | Deadline

  /** `stopIncomplete` on the joined errors. */
  predicate StopIncomplete(joined: seq<Problem>) {
    exists p :: p in joined && !p.Failed?
  }

  function Reversed(s: seq<Name>): seq<Name> {
    if s == [] then [] else Reversed(s[1..]) + [s[0]]
  }

  ghost predicate Done(w: World, n: Name) {
    !w.expired(n) && w.stop(n).Returned?
  }

  ghost predicate AllDone(w: World, mods: seq<Name>) {
    forall i | 0 <= i < |mods| :: Done(w, mods[i])
  }

  /** The stop calls made are those of `mods[cut..]`, newest first, and every one but the last came back. */
  ghost predicate StoppedDownTo(w: World, mods: seq<Name>, cut: nat, asked: seq<Name>) {
    && cut <= |mods| && asked == Reversed(mods[cut..])
    && (forall i | cut < i < |mods| :: Done(w, mods[i]))
    && (cut < |mods| ==> !w.expired(mods[cut]))
  }

  /** Why the loop broke off at `cut`. */
  ghost predicate BrokeOff(w: World, mods: seq<Name>, cut: nat) {
    || (0 < cut <= |mods| && w.expired(mods[cut - 1]) && (cut < |mods| ==> Done(w, mods[cut])))
    || (cut < |mods| && !w.stop(mods[cut]).Returned?)
  }

  method StopReverse(mods: seq<Name>, w: World) returns (joined: seq<Problem>, asked: seq<Name>, ghost cut: nat)
    ensures StoppedDownTo(w, mods, cut, asked)
    ensures StopIncomplete(joined) <==> !AllDone(w, mods)
    ensures if StopIncomplete(joined) then BrokeOff(w, mods, cut) else cut == 0
    ensures forall n :: Failed(n) in joined <==> n in asked && w.stop(n) == Returned(true)
  {
    joined, asked, cut := [], [], |mods|;
    var i := |mods|;
    while i > 0
      invariant 0 <= i <= |mods| && cut == i
      invariant StoppedDownTo(w, mods, i, asked) && (i < |mods| ==> Done(w, mods[i]))
      invariant !StopIncomplete(joined)
      invariant forall n :: Failed(n) in joined <==> n in asked && w.stop(n) == Returned(true)
    {
      i := i - 1;
      var mod := mods[i];
      if w.expired(mod) {
        assert Deadline in joined + [Deadline];
        joined := joined + [Deadline];
        return;
      }
      assert mods[i..][1..] == mods[i + 1..];
      asked, cut := asked + [mod], i;
      match w.stop(mod)
      case Returned(failed) =>
        if failed {
          joined := joined + [Failed(mod)];
        }
      case _ =>
        assert Incomplete(mod) in joined + [Incomplete(mod)];
        joined := joined + [Incomplete(mod)];
        return;
    }
  }

  /** The stop part of a normal shutdown. `started` below is the start order: shared mods, then service mods. */
  method Shutdown(shared: seq<Name>, service: seq<Name>, w: World)
    returns (joined: seq<Problem>, asked: seq<Name>, releasable: bool, ghost cut: nat)
    ensures StoppedDownTo(w, shared + service, cut, asked)
    ensures releasable <==> AllDone(w, shared + service)
    ensures if releasable then cut == 0 else BrokeOff(w, shared + service, cut)
    ensures forall n :: Failed(n) in joined <==> n in asked && w.stop(n) == Returned(true)
  {
    releasable := false;
    joined, asked, cut := StopReverse(service, w);
    cut := cut + |shared|;
    Lifted(shared, service, w, cut, asked);
    AllDoneJoins(w, shared, service);
    if StopIncomplete(joined) {
      return;
    }
    var more, rest, reached := StopReverse(shared, w);
    Chained(shared, service, w, reached, rest);
    joined, asked, cut := joined + more, asked + rest, reached;
    releasable := !StopIncomplete(more);
  }

  lemma {:induction false} ReversedAppend(s: seq<Name>, r: seq<Name>)
    ensures Reversed(s + r) == Reversed(r) + Reversed(s)
  {
    if s == [] {
      assert s + r == r;
    } else {
      assert (s + r)[1..] == s[1..] + r;
      ReversedAppend(s[1..], r);
    }
  }

  lemma {:induction false} ReversedMembers(s: seq<Name>, n: Name)
    ensures n in Reversed(s) <==> n in s
  {
    if s != [] {
      ReversedMembers(s[1..], n);
      assert s == [s[0]] + s[1..];
    }
  }

  // ---------------------------------------------------------------- dependencies outlive their users

  /**
   The dependencies between all started mods: shared ones use what they found among the shared mods,
   service ones what they found among both.
   */
  ghost function Started(shared: Table, service: Table): Graph<Name> {
    GraphOf(shared, shared.Keys) + GraphOf(service, shared.Keys + service.Keys)
  }

  /** The two sorted orders, one after the other, are an order of everything started. */
  lemma OrdersJoin(shared: Table, service: Table, first: seq<Name>, second: seq<Name>)
    requires Topological(GraphOf(shared, shared.Keys), first) && Topological(GraphOf(service, service.Keys), second)
    requires shared.Keys !! service.Keys
    ensures Topological(Started(shared, service), first + second)
  {
    var g, order := Started(shared, service), first + second;
    forall i, j | 0 <= i < j < |order| ensures order[i] != order[j] {
      if i < |first| <= j {
        assert first[i] in first && second[j - |first|] in second;
      }
    }
    forall k: nat ensures Ready(g, order, k) {
      if k < |first| {
        assert Ready(GraphOf(shared, shared.Keys), first, k);
        assert order[..k] == first[..k];
      } else if k < |order| {
        assert Ready(GraphOf(service, service.Keys), second, k - |first|);
        assert order[..k] == first + second[..k - |first|];
      }
    }
  }

  /**
   A mod is only asked to stop after everything that depends on it, directly or not, was asked and came
   back: when a stop does not return, nothing the mod depends on has been touched.
   */
  lemma UsersStoppedBefore(g: Graph<Name>, started: seq<Name>, w: World, cut: nat, asked: seq<Name>, p: seq<Name>)
    requires Topological(g, started) && StoppedDownTo(w, started, cut, asked)
    requires Chain(g, p) && |p| > 1 && p[|p| - 1] in asked
    ensures p[0] in asked && Done(w, p[0])
  {
    var user, used := p[0], p[|p| - 1];
    PositionsFall(g, started, p, |p| - 1);
    ReversedMembers(started[cut..], used);
    AskedIsLate(started, cut, used);
    ReversedMembers(started[cut..], user);
    var at := Position(started, user);
    assert started[cut..][at - cut] == user;
  }

  /** With both sorts accepted, every hard dependency of a started mod is a started mod and one of its edges. */
  lemma HardDependenciesStarted(sharedMods: seq<Entry>, serviceMods: seq<Entry>, n: Name, d: Name)
    requires WellFormed(sharedMods, {}) && AllHardKnown(TableOf(sharedMods), {})
    requires WellFormed(serviceMods, TableOf(sharedMods).Keys)
        && AllHardKnown(TableOf(serviceMods), TableOf(sharedMods).Keys)
    requires n in TableOf(sharedMods) || n in TableOf(serviceMods)
    requires var mod := if n in TableOf(serviceMods) then TableOf(serviceMods)[n] else TableOf(sharedMods)[n];
             d != "" && d in mod.dependsOn
    ensures TableOf(sharedMods).Keys !! TableOf(serviceMods).Keys
    ensures var g := Started(TableOf(sharedMods), TableOf(serviceMods)); d in g && Edge(g, n, d)
  {
    forall m | m in TableOf(serviceMods) ensures m !in TableOf(sharedMods) {
      NamesInTable(serviceMods, m);
    }
    assert HardKnown(TableOf(sharedMods), {}, n);
    assert HardKnown(TableOf(serviceMods), TableOf(sharedMods).Keys, n);
  }

  lemma AskedIsLate(started: seq<Name>, cut: nat, n: Name)
    requires Distinct(started) && cut <= |started| && n in started[cut..]
    ensures n in started && Position(started, n) >= cut
  {
    var k :| 0 <= k < |started[cut..]| && started[cut..][k] == n;
    assert started[cut + k] == n;
    assert started[Position(started, n)] == started[cut + k];
  }

  lemma AllDoneJoins(w: World, shared: seq<Name>, service: seq<Name>)
    ensures AllDone(w, shared + service) <==> AllDone(w, shared) && AllDone(w, service)
  {
    var all := shared + service;
    if AllDone(w, all) {
      forall i | 0 <= i < |shared| ensures Done(w, shared[i]) { assert Done(w, all[i]); }
      forall i | 0 <= i < |service| ensures Done(w, service[i]) { assert Done(w, all[|shared| + i]); }
    }
  }

  lemma Lifted(shared: seq<Name>, service: seq<Name>, w: World, cut: nat, asked: seq<Name>)
    requires |shared| <= cut && StoppedDownTo(w, service, cut - |shared|, asked)
    ensures StoppedDownTo(w, shared + service, cut, asked)
    ensures BrokeOff(w, service, cut - |shared|) ==> BrokeOff(w, shared + service, cut)
  {
    assert (shared + service)[cut..] == service[cut - |shared|..];
  }

  lemma Chained(shared: seq<Name>, service: seq<Name>, w: World, cut: nat, asked: seq<Name>)
    requires AllDone(w, service) && StoppedDownTo(w, shared, cut, asked)
    ensures StoppedDownTo(w, shared + service, cut, Reversed(service) + asked)
    ensures BrokeOff(w, shared, cut) ==> BrokeOff(w, shared + service, cut)
  {
    var all := shared + service;
    assert all[cut..] == shared[cut..] + service;
    ReversedAppend(shared[cut..], service);
    forall i | cut < i < |all| ensures Done(w, all[i]) {
      assert i >= |shared| ==> Done(w, service[i - |shared|]);
    }
  }

  // ---------------------------------------------------------------- from the sort to the stop

  /** Both sorts accept: registrations well formed, hard dependencies known, no cycle. */
  ghost predicate Accepted(sharedMods: seq<Entry>, serviceMods: seq<Entry>) {
    var shared, service := TableOf(sharedMods), TableOf(serviceMods);
    && WellFormed(sharedMods, {}) && AllHardKnown(shared, {}) && Acyclic(GraphOf(shared, shared.Keys))
    && WellFormed(serviceMods, shared.Keys) && AllHardKnown(service, shared.Keys)
        && Acyclic(GraphOf(service, service.Keys))
  }

  lemma TablesApart(sharedMods: seq<Entry>, serviceMods: seq<Entry>)
    requires WellFormed(serviceMods, TableOf(sharedMods).Keys)
    ensures TableOf(sharedMods).Keys !! TableOf(serviceMods).Keys
  {
    forall m | m in TableOf(serviceMods) ensures m !in TableOf(sharedMods) {
      NamesInTable(serviceMods, m);
    }
  }

  /**
   Sorting both groups, starting them in that order, and stopping on a normal shutdown: nothing a mod depends on,
   directly or not, was asked to stop while the mod's own stop had not come back.
   */
  method SortAndStop(sharedMods: seq<Entry>, serviceMods: seq<Entry>, w: World)
    returns (ok: bool, asked: seq<Name>, releasable: bool)
    ensures ok <==> Accepted(sharedMods, serviceMods)
    ensures ok ==> forall p | Chain(Started(TableOf(sharedMods), TableOf(serviceMods)), p) && |p| > 1
        && !Done(w, p[0]) ::
      p[|p| - 1] !in asked
    ensures ok ==> (releasable <==> forall n | n in Started(TableOf(sharedMods), TableOf(serviceMods)) :: Done(w, n))
    ensures !ok ==> asked == [] && !releasable
  {
    ok, asked, releasable := false, [], false;
    var first := SortMods(sharedMods, {});
    if !first.Sorted? {
      return;
    }
    var names := set n | n in first.order;
    assert names == TableOf(sharedMods).Keys;
    var second := SortMods(serviceMods, names);
    if !second.Sorted? {
      return;
    }
    ok := true;
    ghost var cut;
    var joined;
    joined, asked, releasable, cut := Shutdown(first.order, second.order, w);
    TablesApart(sharedMods, serviceMods);
    OrdersJoin(TableOf(sharedMods), TableOf(serviceMods), first.order, second.order);
    StopsInOrder(Started(TableOf(sharedMods), TableOf(serviceMods)), first.order + second.order, w, cut, asked);
  }

  lemma StopsInOrder(g: Graph<Name>, started: seq<Name>, w: World, cut: nat, asked: seq<Name>)
    requires Topological(g, started) && StoppedDownTo(w, started, cut, asked)
    ensures forall p | Chain(g, p) && |p| > 1 && !Done(w, p[0]) :: p[|p| - 1] !in asked
    ensures AllDone(w, started) <==> forall n | n in g :: Done(w, n)
  {
    forall p | Chain(g, p) && |p| > 1 && !Done(w, p[0]) ensures p[|p| - 1] !in asked {
      if p[|p| - 1] in asked {
        UsersStoppedBefore(g, started, w, cut, asked, p);
        assert false;
      }
    }
    if AllDone(w, started) {
      forall n | n in g ensures Done(w, n) {
        assert Done(w, started[Position(started, n)]);
      }
    } else {
      var i :| 0 <= i < |started| && !Done(w, started[i]);
      assert started[i] in started;
    }
  }
}
