/**
 Mod ordering (`sortMods`): a depth-first sort of mods by their hard dependencies and by the
 optional ones that are present. Names in `external` belong to mods that are already running.
 */
module ModOrder {
  import opened Digraph

  type Name = string

  datatype Mod = Mod(name: Name, dependsOn: seq<Name>, optional: seq<Name>)

  /** A registered mod; the registration may be nil. */
  datatype Entry = NilMod | Registered(mod: Mod)

  datatype Result = Sorted(order: seq<Name>) | BadEntry | UnknownDependency | Cycle

  type Table = map<Name, Mod>

  // ---------------------------------------------------------------- registered mods

  /** Registrations are complete, named, unique, and do not take an external name. */
  ghost predicate WellFormed(mods: seq<Entry>, external: set<Name>) {
    && (forall i | 0 <= i < |mods| :: mods[i].Registered? && mods[i].mod.name != "" && mods[i].mod.name !in external)
    && (forall i, j | 0 <= i < j < |mods| :: mods[i].mod.name != mods[j].mod.name)
  }

  ghost function TableOf(mods: seq<Entry>): Table {
    if mods == [] then map[]
    else
      var rest, last := TableOf(mods[..|mods| - 1]), mods[|mods| - 1];
      if last.NilMod? then rest else rest[last.mod.name := last.mod]
  }

  ghost function NamesOf(mods: seq<Entry>): seq<Name> {
    if mods == [] then []
    else NamesOf(mods[..|mods| - 1]) + if mods[|mods| - 1].NilMod? then [] else [mods[|mods| - 1].mod.name]
  }

  /** The dependencies of a mod, hard and optional, among the names that are present. */
  ghost function Uses(mod: Mod, present: set<Name>): set<Name> {
    set n | n in present && (n in mod.dependsOn || n in mod.optional)
  }

  ghost function GraphOf(table: Table, present: set<Name>): Graph<Name> {
    map n | n in table :: Uses(table[n], present)
  }

  /** Empty names are skipped; every other hard dependency is a mod of the table or external. */
  ghost predicate HardKnown(table: Table, external: set<Name>, n: Name) {
    n in table ==> forall d | d in table[n].dependsOn && d != "" :: d in table || d in external
  }

  ghost predicate AllHardKnown(table: Table, external: set<Name>) {
    forall n :: HardKnown(table, external, n)
  }

  // ---------------------------------------------------------------- the stable sort of dependencies

  /** Registration index; a name that is not registered sorts like the first one. */
  function Rank(ranks: map<Name, nat>, n: Name): nat {
    if n in ranks then ranks[n] else 0
  }

  function Insert(ranks: map<Name, nat>, n: Name, s: seq<Name>): (r: seq<Name>)
    ensures multiset(r) == multiset(s) + multiset{n}
  {
    if s == [] || Rank(ranks, n) <= Rank(ranks, s[0]) then [n] + s
    else
      assert s == [s[0]] + s[1..];
      [s[0]] + Insert(ranks, n, s[1..])
  }

  /** `sort.SliceStable` by registration index. */
  function StableSorted(ranks: map<Name, nat>, s: seq<Name>): (r: seq<Name>)
    ensures multiset(r) == multiset(s)
  {
    if s == [] then []
    else
      assert s == [s[0]] + s[1..];
      Insert(ranks, s[0], StableSorted(ranks, s[1..]))
  }

  predicate Ascending(ranks: map<Name, nat>, s: seq<Name>) {
    |s| <= 1 || (Rank(ranks, s[0]) <= Rank(ranks, s[1]) && Ascending(ranks, s[1..]))
  }

  function OfRank(ranks: map<Name, nat>, s: seq<Name>, rank: nat): seq<Name> {
    if s == [] then []
    else if Rank(ranks, s[0]) == rank then [s[0]] + OfRank(ranks, s[1..], rank)
    else OfRank(ranks, s[1..], rank)
  }

  lemma {:induction false} InsertAscends(ranks: map<Name, nat>, n: Name, s: seq<Name>)
    requires Ascending(ranks, s)
    ensures Ascending(ranks, Insert(ranks, n, s))
  {
    if s == [] || Rank(ranks, n) <= Rank(ranks, s[0]) {
      assert ([n] + s)[1..] == s;
    } else {
      InsertAscends(ranks, n, s[1..]);
      assert Insert(ranks, n, s)[1..] == Insert(ranks, n, s[1..]);
    }
  }

  lemma {:induction false} InsertTies(ranks: map<Name, nat>, n: Name, s: seq<Name>, rank: nat)
    ensures OfRank(ranks, Insert(ranks, n, s), rank)
         == if Rank(ranks, n) == rank then [n] + OfRank(ranks, s, rank) else OfRank(ranks, s, rank)
  {
    if s == [] || Rank(ranks, n) <= Rank(ranks, s[0]) {
      assert ([n] + s)[1..] == s;
    } else {
      InsertTies(ranks, n, s[1..], rank);
      assert Insert(ranks, n, s)[1..] == Insert(ranks, n, s[1..]);
    }
  }

  /** The sort is by registration index and stable: names of one index keep their order. */
  lemma {:induction false} StableSortedIs(ranks: map<Name, nat>, s: seq<Name>, rank: nat)
    ensures Ascending(ranks, StableSorted(ranks, s))
    ensures OfRank(ranks, StableSorted(ranks, s), rank) == OfRank(ranks, s, rank)
  {
    if s != [] {
      StableSortedIs(ranks, s[1..], rank);
      InsertAscends(ranks, s[0], StableSorted(ranks, s[1..]));
      InsertTies(ranks, s[0], StableSorted(ranks, s[1..]), rank);
    }
  }

  lemma SameMembers(s: seq<Name>, r: seq<Name>, n: Name)
    requires multiset(s) == multiset(r)
    ensures n in s <==> n in r
  {
    assert n in s <==> n in multiset(s);
    assert n in r <==> n in multiset(r);
  }

  // ---------------------------------------------------------------- the visit

  datatype Outcome = Fine | Looped | Unknown

  class Visitor {
    const byName: Table
    const ranks: map<Name, nat>
    const external: set<Name>
    var visiting: set<Name>
    var visited: set<Name>
    var out: seq<Name>

    ghost function Graph(): Graph<Name> {
      GraphOf(byName, byName.Keys)
    }

    /** What was emitted is complete: once each, dependencies first, every hard dependency known. */
    ghost predicate Valid()
      reads this
    {
      && visiting !! visited && visiting <= byName.Keys && visited <= byName.Keys && "" !in byName
      && (forall n :: n in out <==> n in visited)
      && Distinct(out) && DependenciesFirst(Graph(), out)
      && (forall n | n in visited :: HardKnown(byName, external, n))
    }

    /** The names being visited form a chain of dependencies. */
    ghost predicate OnStack(stack: seq<Name>)
      reads this
    {
      Chain(Graph(), stack) && forall n :: n in stack <==> n in visiting
    }

    /** The caller may ask for `name`: at the top for a mod, below for a dependency of the last mod on the stack. */
    ghost predicate Called(name: Name, stack: seq<Name>) {
      if stack == [] then name in byName
      else
        var last := stack[|stack| - 1];
        last in byName &&
        if name in byName then Edge(Graph(), last, name) else name != "" && name in byName[last].dependsOn
    }

    /** Visiting the name emits nothing. */
    ghost predicate Passed(name: Name)
      reads this
    {
      name in visited || name !in byName
    }

    /** Every dependency of the mod is out already. */
    ghost predicate Clear(name: Name)
      reads this
    {
      name in byName ==> forall d | d in byName[name].dependsOn || d in byName[name].optional :: Passed(d)
    }

    /** Nothing is left to do for the dependency. */
    ghost predicate Settled(dep: Name)
      reads this
    {
      dep in visited || (dep !in byName && dep in external)
    }

    constructor (byName: Table, ranks: map<Name, nat>, external: set<Name>)
      requires "" !in byName
      ensures Valid() && this.byName == byName && this.external == external && visiting == {} && visited == {}
          && out == []
    {
      this.byName, this.ranks, this.external := byName, ranks, external;
      visiting, visited, out := {}, {}, [];
      new;
      assert forall k: nat :: Ready(Graph(), out, k);
    }

    method Visit(name: Name, ghost stack: seq<Name>) returns (r: Outcome)
      requires Valid() && OnStack(stack) && Called(name, stack)
      modifies this
      ensures r == Fine ==> Valid() && visiting == old(visiting) && old(visited) <= visited && Settled(name)
      ensures r == Fine && old(Passed(name)) ==> out == old(out)
      ensures r == Fine && !old(Passed(name)) && old(Clear(name)) ==> out == old(out) + [name]
      ensures r == Looped ==> !Acyclic(Graph())
      ensures r == Unknown ==> !AllHardKnown(byName, external)
      decreases byName.Keys - visiting - visited, 1
    {
      if name in visited {
        return Fine;
      }
      if name in visiting {
        Loop(name, stack);
        return Looped;
      }
      if name !in byName {
        if name in external {
          return Fine;
        }
        assert !HardKnown(byName, external, stack[|stack| - 1]);
        return Unknown;
      }
      r := VisitNew(name, stack);
    }

    /** The first visit of a mod: its dependencies, then the mod itself. */
    method VisitNew(name: Name, ghost stack: seq<Name>) returns (r: Outcome)
      requires Valid() && OnStack(stack) && Called(name, stack) && name in byName && name !in visited
          && name !in visiting
      modifies this
      ensures r == Fine ==> Valid() && visiting == old(visiting) && old(visited) <= visited && name in visited
      ensures r == Fine && old(Clear(name)) ==> out == old(out) + [name]
      ensures r == Looped ==> !Acyclic(Graph())
      ensures r == Unknown ==> !AllHardKnown(byName, external)
      decreases byName.Keys - visiting - visited, 0
    {
      assert name in byName.Keys - visiting - visited;
      visiting := visiting + {name};
      ChainAppend(Graph(), stack, name);
      ghost var below := stack + [name];
      r := VisitHard(name, StableSorted(ranks, byName[name].dependsOn), below);
      if r != Fine {
        return;
      }
      r := VisitOptional(name, StableSorted(ranks, byName[name].optional), below);
      if r != Fine {
        return;
      }
      Emit(name);
    }

    /** Coming back to a name on the stack closes a cycle. */
    lemma Loop(name: Name, stack: seq<Name>)
      requires OnStack(stack) && Called(name, stack) && name in visiting && visiting <= byName.Keys
      ensures !Acyclic(Graph())
    {
      ChainCloses(Graph(), stack, name);
    }

    method VisitHard(name: Name, deps: seq<Name>, ghost stack: seq<Name>) returns (r: Outcome)
      requires Valid() && OnStack(stack) && stack != [] && stack[|stack| - 1] == name && name in byName
      requires multiset(deps) == multiset(byName[name].dependsOn)
      modifies this
      ensures r == Fine ==> Valid() && visiting == old(visiting) && old(visited) <= visited
      ensures r == Fine && old(Clear(name)) ==> out == old(out)
      ensures r == Fine ==> forall d | d in byName[name].dependsOn && d != "" :: Settled(d)
      ensures r == Looped ==> !Acyclic(Graph())
      ensures r == Unknown ==> !AllHardKnown(byName, external)
      decreases byName.Keys - visiting - visited, 2
    {
      r := Fine;
      for i := 0 to |deps|
        invariant Valid() && visiting == old(visiting) && old(visited) <= visited && r == Fine
        invariant old(Clear(name)) ==> out == old(out)
        invariant forall k | 0 <= k < i && deps[k] != "" :: Settled(deps[k])
      {
        var dep := deps[i];
        if dep == "" {
          continue;
        }
        SameMembers(deps, byName[name].dependsOn, dep);
        r := Visit(dep, stack);
        if r != Fine {
          return;
        }
      }
      forall d | d in byName[name].dependsOn && d != "" ensures Settled(d) {
        SameMembers(deps, byName[name].dependsOn, d);
      }
    }

    method VisitOptional(name: Name, deps: seq<Name>, ghost stack: seq<Name>) returns (r: Outcome)
      requires Valid() && OnStack(stack) && stack != [] && stack[|stack| - 1] == name && name in byName
      requires multiset(deps) == multiset(byName[name].optional)
      modifies this
      ensures r == Fine ==> Valid() && visiting == old(visiting) && old(visited) <= visited
      ensures r == Fine && old(Clear(name)) ==> out == old(out)
      ensures r == Fine ==> forall d | d in byName[name].optional && d in byName :: d in visited
      ensures r == Looped ==> !Acyclic(Graph())
      ensures r == Unknown ==> !AllHardKnown(byName, external)
      decreases byName.Keys - visiting - visited, 2
    {
      r := Fine;
      for i := 0 to |deps|
        invariant Valid() && visiting == old(visiting) && old(visited) <= visited && r == Fine
        invariant old(Clear(name)) ==> out == old(out)
        invariant forall k | 0 <= k < i && deps[k] in byName :: deps[k] in visited
      {
        var dep := deps[i];
        if dep == "" || dep !in byName {
          continue;
        }
        SameMembers(deps, byName[name].optional, dep);
        r := Visit(dep, stack);
        if r != Fine {
          return;
        }
      }
      forall d | d in byName[name].optional && d in byName ensures d in visited {
        SameMembers(deps, byName[name].optional, d);
      }
    }

    /** In an order that is already right, the next mod has its dependencies out. */
    lemma NextIsClear(mods: seq<Entry>, i: nat)
      requires Valid() && i < |mods| && (forall k | 0 <= k < |mods| :: mods[k].Registered?)
      requires forall k, m | 0 <= k < m < |mods| :: mods[k].mod.name != mods[m].mod.name
      ensures mods[i].mod.name in byName && DependenciesFirst(Graph(), NamesOf(mods)) && out == NamesOf(mods[..i])
              ==> Clear(mods[i].mod.name) && mods[i].mod.name !in visited
    {
      NamesAt(mods, i);
      assert DependenciesFirst(Graph(), NamesOf(mods)) ==> Ready(Graph(), NamesOf(mods), i);
      if mods[i].mod.name in NamesOf(mods[..i]) {
        NamesMember(mods[..i], mods[i].mod.name);
        assert false;
      }
    }

    /** All dependencies are out, so the mod is. */
    method Emit(name: Name)
      requires Valid() && name in visiting && name in byName
      requires forall d | d in byName[name].dependsOn && d != "" :: Settled(d)
      requires forall d | d in byName[name].optional && d in byName :: d in visited
      modifies this
      ensures Valid() && visiting == old(visiting) - {name} && visited == old(visited) + {name}
          && out == old(out) + [name]
    {
      ReadyAppends(Graph(), out, name);
      visiting := visiting - {name};
      visited := visited + {name};
      out := out + [name];
    }
  }

  // ---------------------------------------------------------------- the sort

  lemma {:induction false} NamesInTable(mods: seq<Entry>, n: Name)
    requires n in TableOf(mods)
    ensures exists i :: 0 <= i < |mods| && mods[i].Registered? && mods[i].mod.name == n
  {
    var last := |mods| - 1;
    if n in TableOf(mods[..last]) {
      NamesInTable(mods[..last], n);
    }
  }

  lemma {:induction false} EntryInTable(mods: seq<Entry>, i: nat)
    requires i < |mods| && mods[i].Registered?
    ensures mods[i].mod.name in TableOf(mods)
  {
    var last := |mods| - 1;
    if i < last {
      EntryInTable(mods[..last], i);
    }
  }

  /** One more registration is well formed exactly when it passes the checks of the loop. */
  lemma OneMoreEntry(mods: seq<Entry>, external: set<Name>, i: nat)
    requires i < |mods| && WellFormed(mods[..i], external)
    ensures var e := mods[i];
            var refused := e.NilMod? || e.mod.name == "" || e.mod.name in TableOf(mods[..i]) || e.mod.name in external;
            if refused then !WellFormed(mods, external) else WellFormed(mods[..i + 1], external)
  {
    if mods[i].Registered? {
      if mods[i].mod.name in TableOf(mods[..i]) {
        NamesInTable(mods[..i], mods[i].mod.name);
      } else {
        forall k | 0 <= k < i ensures mods[k].mod.name != mods[i].mod.name {
          assert mods[k] == mods[..i][k];
          EntryInTable(mods[..i], k);
        }
      }
    }
  }

  method Register(mods: seq<Entry>, external: set<Name>) returns (ok: bool, byName: Table, ranks: map<Name, nat>)
    ensures ok == WellFormed(mods, external)
    ensures ok ==> byName == TableOf(mods) && "" !in byName
  {
    byName, ranks := map[], map[];
    for i := 0 to |mods|
      invariant WellFormed(mods[..i], external) && byName == TableOf(mods[..i]) && "" !in byName
    {
      OneMoreEntry(mods, external, i);
      if mods[i].NilMod? || mods[i].mod.name == "" || mods[i].mod.name in byName || mods[i].mod.name in external {
        return false, byName, ranks;
      }
      assert mods[..i + 1][..i] == mods[..i];
      byName := byName[mods[i].mod.name := mods[i].mod];
      ranks := ranks[mods[i].mod.name := i];
    }
    assert mods[..|mods|] == mods;
    ok := true;
  }

  lemma {:induction false} NamesAt(mods: seq<Entry>, i: nat)
    requires (forall k | 0 <= k < |mods| :: mods[k].Registered?) && i < |mods|
    ensures |NamesOf(mods)| == |mods| && NamesOf(mods)[i] == mods[i].mod.name
        && NamesOf(mods)[..i] == NamesOf(mods[..i])
  {
    var front := mods[..|mods| - 1];
    if front == [] {
      assert mods[..0] == [];
    } else {
      NamesAt(front, if i < |front| then i else 0);
      assert i < |front| ==> front[..i] == mods[..i];
    }
  }

  lemma {:induction false} NamesMember(mods: seq<Entry>, n: Name)
    requires n in NamesOf(mods)
    ensures exists k :: 0 <= k < |mods| && mods[k].Registered? && mods[k].mod.name == n
  {
    var last := |mods| - 1;
    if n in NamesOf(mods[..last]) {
      NamesMember(mods[..last], n);
    }
  }

  /** Every mod once, after its hard dependencies and its present optional ones; or an error, exactly when there is
      no such order. */
  method SortMods(mods: seq<Entry>, external: set<Name>) returns (r: Result)
    ensures r.BadEntry? <==> !WellFormed(mods, external)
    ensures r.Sorted? <==> && WellFormed(mods, external) && AllHardKnown(TableOf(mods), external)
                           && Acyclic(GraphOf(TableOf(mods), TableOf(mods).Keys))
    ensures r.Sorted? ==> Topological(GraphOf(TableOf(mods), TableOf(mods).Keys), r.order)
    ensures r.Sorted? && DependenciesFirst(GraphOf(TableOf(mods), TableOf(mods).Keys), NamesOf(mods)) ==>
        r.order == NamesOf(mods)
    ensures r.UnknownDependency? ==> !AllHardKnown(TableOf(mods), external)
    ensures r.Cycle? ==> !Acyclic(GraphOf(TableOf(mods), TableOf(mods).Keys))
  {
    var ok, byName, ranks := Register(mods, external);
    if !ok {
      return BadEntry;
    }
    var visitor := new Visitor(byName, ranks, external);
    forall i | 0 <= i < |mods| ensures mods[i].mod.name in byName {
      EntryInTable(mods, i);
    }
    var outcome := VisitAll(visitor, mods);
    if outcome != Fine {
      return if outcome == Looped then Cycle else UnknownDependency;
    }
    forall n | n in byName ensures n in visitor.visited {
      NamesInTable(mods, n);
    }
    TopologicalIsAcyclic(visitor.Graph(), visitor.out);
    return Sorted(visitor.out);
  }

  /** Visits the mods in registration order. */
  method VisitAll(visitor: Visitor, mods: seq<Entry>) returns (r: Outcome)
    requires visitor.Valid() && visitor.visiting == {} && visitor.out == []
    requires forall i | 0 <= i < |mods| :: mods[i].Registered? && mods[i].mod.name in visitor.byName
    requires forall i, j | 0 <= i < j < |mods| :: mods[i].mod.name != mods[j].mod.name
    modifies visitor
    ensures r == Fine ==> visitor.Valid() && forall i | 0 <= i < |mods| :: mods[i].mod.name in visitor.visited
    ensures r == Fine && DependenciesFirst(visitor.Graph(), NamesOf(mods)) ==> visitor.out == NamesOf(mods)
    ensures r == Looped ==> !Acyclic(visitor.Graph())
    ensures r == Unknown ==> !AllHardKnown(visitor.byName, visitor.external)
  {
    r := Fine;
    for i := 0 to |mods|
      invariant visitor.Valid() && visitor.visiting == {} && r == Fine
      invariant forall k | 0 <= k < i :: mods[k].mod.name in visitor.visited
      invariant DependenciesFirst(visitor.Graph(), NamesOf(mods)) ==> visitor.out == NamesOf(mods[..i])
    {
      assert mods[..i + 1][..i] == mods[..i];
      visitor.NextIsClear(mods, i);
      r := visitor.Visit(mods[i].mod.name, []);
      if r != Fine {
        return;
      }
    }
    assert mods[..|mods|] == mods;
  }
}
