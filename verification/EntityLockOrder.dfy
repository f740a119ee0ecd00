/**
 Many goroutines, one guard each, over shared mutexes. A goroutine that waits for a mutex does so
 only where `mayLockEntity` allows it; everything else is a try-lock.
 */
module EntityLockOrder {
  import opened EntityGuard
  import opened Wrappers

  datatype Waiting = Waiting(ent: Entity, guid: Id)

  datatype Thread = Thread(ledger: Ledger, waiting: Option<Waiting>)

  type System = map<nat, Thread>

  datatype Action =
    | Spawn(g: nat)
    | Try(g: nat, ent: Entity, guid: Id, gone: bool)
    | Wait(g: nat, ent: Entity, guid: Id)
    | Grant(g: nat, gone: bool)
    | ReleaseId(g: nat, id: Id)
    | ReleaseInst(g: nat, ent: Entity, guid: Id)
    | ReleaseAll(g: nat)

  /** No other goroutine holds the mutex. */
  predicate Free(s: System, g: nat, m: Mutex) {
    forall h | h in s && h != g :: s[h].ledger.locks[m] == 0
  }

  /** One step; an action that is not possible in a state does nothing. An entity's mutex was created for its ID. */
  ghost function Step(rank: Id -> int, s: System, a: Action): System {
    if a.Spawn? then (if a.g in s then s else s[a.g := Thread(EMPTY, None)])
    else if a.g !in s then s
    else
      var t := s[a.g];
      match a
      case Try(g, ent, guid, gone) =>
        if t.waiting.None? && ent.mutex.lockId == guid
        then s[g := t.(ledger := Require(t.ledger, ent, guid, !Free(s, g, ent.mutex), gone).0)] else s
      case Wait(g, ent, guid) =>
        if t.waiting.None? && ent.mutex.lockId == guid && guid != NO_ID
           && !IsHolding(t.ledger, ent, guid) && Above(rank, t.ledger, guid)
        then s[g := t.(waiting := Some(Waiting(ent, guid)))] else s
      case Grant(g, gone) =>
        if t.waiting.Some? && Free(s, g, t.waiting.value.ent.mutex)
        then s[g := Thread(Require(t.ledger, t.waiting.value.ent, t.waiting.value.guid, false, gone).0, None)] else s
      case ReleaseId(g, id) =>
        if t.waiting.None? then s[g := t.(ledger := Release(t.ledger, id))] else s
      case ReleaseInst(g, ent, guid) =>
        if t.waiting.None? then s[g := t.(ledger := ReleaseInstance(t.ledger, ent, guid))] else s
      case ReleaseAll(g) =>
        if t.waiting.None? then s[g := t.(ledger := ReleaseEverything(t.ledger))] else s
  }

  ghost function Run(rank: Id -> int, actions: seq<Action>): System {
    if actions == [] then map[] else Step(rank, Run(rank, actions[..|actions| - 1]), actions[|actions| - 1])
  }

  /** The action is not a release by instance that hits a double entry. */
  predicate Sound(s: System, a: Action) {
    a.ReleaseInst? && a.g in s ==> !HitsDouble(s[a.g].ledger, a.ent, a.guid)
  }

  /** No release by instance of the run hits a double entry. */
  ghost predicate NeverDouble(rank: Id -> int, actions: seq<Action>) {
    actions == [] ||
    var front := actions[..|actions| - 1];
    NeverDouble(rank, front) && Sound(Run(rank, front), actions[|actions| - 1])
  }

  // ---------------------------------------------------------------- the invariant

  /** Every entry's mutex was created for the ID it is entered under. */
  ghost predicate OwnMutexes(l: Ledger) {
    && (forall id | id in l.eMap :: l.eMap[id].mutex.lockId == id)
    && (forall h | h in l.superseded :: h.ent.mutex.lockId == h.id)
  }

  /** Every held lock has its ID in the map, where the rank check sees it. */
  ghost predicate LedgerOk(l: Ledger) {
    Balanced(l) && Anchored(l) && OwnMutexes(l)
  }

  ghost predicate ThreadOk(rank: Id -> int, t: Thread) {
    && LedgerOk(t.ledger)
    && (t.waiting.Some? ==>
          var w := t.waiting.value; w.ent.mutex.lockId == w.guid && Above(rank, t.ledger, w.guid))
  }

  lemma EmptyIsOk()
    ensures LedgerOk(EMPTY)
  {
    assert forall m :: IdsUsing(map[], m) == {};
  }

  lemma RequireKeepsLedger(l: Ledger, ent: Entity, guid: Id, busy: bool, gone: bool)
    requires LedgerOk(l) && ent.mutex.lockId == guid
    ensures LedgerOk(Require(l, ent, guid, busy, gone).0)
  {
    HoldKeepsBalance(l, ent, guid);
  }

  lemma ReleaseKeepsLedger(l: Ledger, id: Id)
    requires LedgerOk(l)
    ensures LedgerOk(Release(l, id))
  {
    ReleaseKeepsBalance(l, id);
    if id in l.eMap {
      RestoreKeepsEntries(DoRelease(l, id, l.eMap[id]), id);
    }
  }

  /** Bringing the last superseded instance of an ID back leaves no superseded entry of a missing ID. */
  lemma RestoreKeepsEntries(l: Ledger, id: Id)
    requires OwnMutexes(l) && forall h | h in l.superseded :: h.id in l.eMap || h.id == id
    ensures OwnMutexes(RestoreSuperseded(l, id)) && Anchored(RestoreSuperseded(l, id))
  {
    LastOfIdIs(l.superseded, id);
    if LastOfId(l.superseded, id).Some? {
      WithoutMembers(l.superseded, LastOfId(l.superseded, id).value);
    }
  }

  lemma WithoutMembers(s: seq<Held>, i: nat)
    requires i < |s|
    ensures forall h | h in Without(s, i) :: h in s
  {
  }

  lemma ReleaseInstanceKeepsLedger(l: Ledger, ent: Entity, guid: Id)
    requires LedgerOk(l) && !HitsDouble(l, ent, guid)
    ensures LedgerOk(ReleaseInstance(l, ent, guid))
  {
    if guid != NO_ID && IsHolding(l, ent, guid) {
      ReleaseKeepsLedger(l, guid);
    } else {
      ReleaseInstanceBalance(l, ent, guid);
      LastOfEntityIs(l.superseded, ent);
      if LastOfEntity(l.superseded, ent).Some? {
        WithoutMembers(l.superseded, LastOfEntity(l.superseded, ent).value);
      }
    }
  }

  lemma StepKeepsThread(rank: Id -> int, s: System, a: Action, g: nat)
    requires (forall h | h in s :: ThreadOk(rank, s[h])) && Sound(s, a)
    requires g in Step(rank, s, a)
    ensures ThreadOk(rank, Step(rank, s, a)[g])
  {
    if g !in s {
      EmptyIsOk();
    } else if g == a.g {
      var l, w := s[g].ledger, s[g].waiting;
      match a
      case Spawn(_) =>
      case Try(_, ent, guid, gone) =>
        if ent.mutex.lockId == guid {
          RequireKeepsLedger(l, ent, guid, !Free(s, g, ent.mutex), gone);
        }
      case Wait(_, ent, guid) =>
      case Grant(_, gone) =>
        if w.Some? {
          RequireKeepsLedger(l, w.value.ent, w.value.guid, false, gone);
        }
      case ReleaseId(_, id) => ReleaseKeepsLedger(l, id);
      case ReleaseInst(_, ent, guid) => ReleaseInstanceKeepsLedger(l, ent, guid);
      case ReleaseAll(_) =>
        EmptyIsOk();
        ReleaseEverythingIsEmpty(l);
    }
  }

  lemma {:induction false} RunKeepsThreads(rank: Id -> int, actions: seq<Action>)
    requires NeverDouble(rank, actions)
    ensures forall g | g in Run(rank, actions) :: ThreadOk(rank, Run(rank, actions)[g])
  {
    if actions != [] {
      RunKeepsThreads(rank, actions[..|actions| - 1]);
      var s, a := Run(rank, actions[..|actions| - 1]), actions[|actions| - 1];
      forall g | g in Step(rank, s, a) ensures ThreadOk(rank, Step(rank, s, a)[g]) {
        StepKeepsThread(rank, s, a, g);
      }
    }
  }

  // ---------------------------------------------------------------- mutual exclusion

  /** No mutex is locked by two goroutines. */
  ghost predicate Exclusive(s: System) {
    forall g, h, m | g in s && h in s && g != h && s[g].ledger.locks[m] > 0 :: s[h].ledger.locks[m] == 0
  }

  /** A ledger change locks at most one mutex more, and that one only if `taken`. */
  predicate Takes(l: Ledger, l': Ledger, m: Mutex, taken: bool) {
    l'.locks <= if taken then l.locks + multiset{m} else l.locks
  }

  lemma RequireTakes(l: Ledger, ent: Entity, guid: Id, busy: bool, gone: bool)
    ensures Takes(l, Require(l, ent, guid, busy, gone).0, ent.mutex, !busy)
  {
  }

  lemma ReleaseTakesNothing(l: Ledger, id: Id)
    ensures Release(l, id).locks <= l.locks
  {
  }

  lemma ReleaseInstanceTakesNothing(l: Ledger, ent: Entity, guid: Id)
    ensures ReleaseInstance(l, ent, guid).locks <= l.locks
  {
    if guid != NO_ID && IsHolding(l, ent, guid) {
      ReleaseTakesNothing(l, guid);
    }
  }

  lemma {:induction false} UnlockMapTakesNothing(locks: multiset<Mutex>, eMap: map<Id, Entity>)
    ensures UnlockMap(locks, eMap) <= locks
    decreases eMap
  {
    if eMap != map[] {
      var id :| id in eMap && UnlockMap(locks, eMap) == UnlockMap(locks - multiset{eMap[id].mutex}, eMap - {id});
      UnlockMapTakesNothing(locks - multiset{eMap[id].mutex}, eMap - {id});
    }
  }

  lemma {:induction false} UnlockListTakesNothing(locks: multiset<Mutex>, s: seq<Held>)
    ensures UnlockList(locks, s) <= locks
  {
    if s != [] {
      UnlockListTakesNothing(locks - multiset{s[0].ent.mutex}, s[1..]);
    }
  }

  lemma ReleaseEverythingTakesNothing(l: Ledger)
    ensures ReleaseEverything(l).locks <= l.locks
  {
    UnlockMapTakesNothing(l.locks, l.eMap);
    UnlockListTakesNothing(UnlockMap(l.locks, l.eMap), l.superseded);
  }

  lemma StepChangesOne(rank: Id -> int, s: System, a: Action, g: nat)
    requires a.g in s
    ensures Step(rank, s, a).Keys == s.Keys
    ensures g in s && g != a.g ==> Step(rank, s, a)[g] == s[g]
  {
  }

  lemma TryTakesFree(rank: Id -> int, s: System, g: nat, ent: Entity, guid: Id, gone: bool)
    requires g in s
    ensures g in Step(rank, s, Try(g, ent, guid, gone))
    ensures Takes(s[g].ledger, Step(rank, s, Try(g, ent, guid, gone))[g].ledger, ent.mutex, Free(s, g, ent.mutex))
  {
    RequireTakes(s[g].ledger, ent, guid, !Free(s, g, ent.mutex), gone);
  }

  lemma GrantTakesFree(rank: Id -> int, s: System, g: nat, gone: bool)
    requires g in s && s[g].waiting.Some?
    ensures g in Step(rank, s, Grant(g, gone))
    ensures var m := s[g].waiting.value.ent.mutex;
            Takes(s[g].ledger, Step(rank, s, Grant(g, gone))[g].ledger, m, Free(s, g, m))
  {
    RequireTakes(s[g].ledger, s[g].waiting.value.ent, s[g].waiting.value.guid, false, gone);
  }

  lemma OthersTakeNothing(rank: Id -> int, s: System, a: Action)
    requires a.g in s && !a.Try? && (a.Grant? ==> s[a.g].waiting.None?)
    ensures a.g in Step(rank, s, a) && Step(rank, s, a)[a.g].ledger.locks <= s[a.g].ledger.locks
  {
    var l := s[a.g].ledger;
    match a
    case Spawn(_) =>
    case Wait(_, _, _) =>
    case Grant(_, _) =>
    case ReleaseId(_, id) => ReleaseTakesNothing(l, id);
    case ReleaseInst(_, ent, guid) => ReleaseInstanceTakesNothing(l, ent, guid);
    case ReleaseAll(_) => ReleaseEverythingTakesNothing(l);
  }

  /** The goroutine of a step locks at most one more mutex, and one that is free. */
  lemma StepTakesFree(rank: Id -> int, s: System, a: Action) returns (m: Mutex)
    requires a.g in s
    ensures a.g in Step(rank, s, a)
    ensures Takes(s[a.g].ledger, Step(rank, s, a)[a.g].ledger, m, Free(s, a.g, m))
  {
    if a.Try? {
      m := a.ent.mutex;
      TryTakesFree(rank, s, a.g, a.ent, a.guid, a.gone);
    } else if a.Grant? && s[a.g].waiting.Some? {
      m := s[a.g].waiting.value.ent.mutex;
      GrantTakesFree(rank, s, a.g, a.gone);
    } else {
      m := Mutex(NO_ID, 0);
      OthersTakeNothing(rank, s, a);
    }
  }

  lemma ChangeKeepsExclusive(s: System, s': System, g: nat, m: Mutex)
    requires Exclusive(s) && g in s && s'.Keys == s.Keys && forall h | h in s && h != g :: s'[h] == s[h]
    requires Takes(s[g].ledger, s'[g].ledger, m, Free(s, g, m))
    ensures Exclusive(s')
  {
  }

  lemma StepKeepsExclusive(rank: Id -> int, s: System, a: Action)
    requires Exclusive(s)
    ensures Exclusive(Step(rank, s, a))
  {
    if a.g in s {
      var m := StepTakesFree(rank, s, a);
      forall g | g in s && g != a.g ensures Step(rank, s, a)[g] == s[g] {
        StepChangesOne(rank, s, a, g);
      }
      StepChangesOne(rank, s, a, a.g);
      ChangeKeepsExclusive(s, Step(rank, s, a), a.g, m);
    }
  }

  /** Mutual exclusion: in every state of every run a mutex is locked by at most one goroutine. */
  lemma {:induction false} MutualExclusion(rank: Id -> int, actions: seq<Action>, g: nat, h: nat, m: Mutex)
    requires var s := Run(rank, actions); g in s && h in s && g != h && s[g].ledger.locks[m] > 0
    ensures Run(rank, actions)[h].ledger.locks[m] == 0
  {
    RunIsExclusive(rank, actions);
  }

  lemma {:induction false} RunIsExclusive(rank: Id -> int, actions: seq<Action>)
    ensures Exclusive(Run(rank, actions))
  {
    if actions != [] {
      RunIsExclusive(rank, actions[..|actions| - 1]);
      StepKeepsExclusive(rank, Run(rank, actions[..|actions| - 1]), actions[|actions| - 1]);
    }
  }

  /** A try on a mutex that another goroutine holds fails and changes nothing. */
  lemma TryBusyFails(rank: Id -> int, s: System, g: nat, h: nat, ent: Entity, guid: Id, gone: bool)
    requires g in s && h in s && g != h && s[h].ledger.locks[ent.mutex] > 0
    requires !IsHolding(s[g].ledger, ent, guid)
    ensures Step(rank, s, Try(g, ent, guid, gone)) == s
    ensures Require(s[g].ledger, ent, guid, !Free(s, g, ent.mutex), gone) == (s[g].ledger, false)
  {
    assert !Free(s, g, ent.mutex);
    assert s[g := s[g]] == s;
  }

  /** A try on the free mutex of a living entity locks it and makes the instance the current one of its ID. */
  lemma TryFreeSucceeds(rank: Id -> int, s: System, g: nat, ent: Entity)
    requires g in s && s[g].waiting.None? && ent.mutex.lockId != NO_ID
    requires !IsHolding(s[g].ledger, ent, ent.mutex.lockId)
    requires forall h | h in s && h != g :: s[h].ledger.locks[ent.mutex] == 0
    ensures var s' := Step(rank, s, Try(g, ent, ent.mutex.lockId, false));
            && g in s' && s'[g].ledger.locks == s[g].ledger.locks + multiset{ent.mutex}
            && s'[g].ledger.eMap == s[g].ledger.eMap[ent.mutex.lockId := ent]
  {
    assert Free(s, g, ent.mutex);
  }

  /** A waiting goroutine gets the mutex of a living entity exactly when nobody else holds it. */
  lemma GrantExactly(rank: Id -> int, s: System, g: nat)
    requires g in s && s[g].waiting.Some? && s[g].waiting.value.guid != NO_ID
    requires !IsHolding(s[g].ledger, s[g].waiting.value.ent, s[g].waiting.value.guid)
    ensures var w, s' := s[g].waiting.value, Step(rank, s, Grant(g, false));
            if forall h | h in s && h != g :: s[h].ledger.locks[w.ent.mutex] == 0
            then g in s' && s'[g].waiting.None?
                 && s'[g].ledger.locks == s[g].ledger.locks + multiset{w.ent.mutex}
                 && s'[g].ledger.eMap == s[g].ledger.eMap[w.guid := w.ent]
            else s' == s
  {
    assert Free(s, g, s[g].waiting.value.ent.mutex)
      <==> forall h | h in s && h != g :: s[h].ledger.locks[s[g].waiting.value.ent.mutex] == 0;
  }

  // ---------------------------------------------------------------- no deadlock

  /** `g` waits for a mutex that `h` holds. */
  predicate WaitsFor(s: System, g: nat, h: nat) {
    && g in s && h in s && s[g].waiting.Some?
    && s[h].ledger.locks[s[g].waiting.value.ent.mutex] > 0
  }

  /** Each goroutine of the path waits for the next one. */
  predicate WaitPath(s: System, path: seq<nat>) {
    |path| < 2 || (WaitsFor(s, path[0], path[1]) && WaitPath(s, path[1..]))
  }

  /** A cycle of waiting goroutines, of any length. */
  predicate WaitCycle(s: System, path: seq<nat>) {
    |path| >= 2 && path[0] == path[|path| - 1] && WaitPath(s, path)
  }

  /** Along a wait edge between waiting goroutines the rank waited for goes up. */
  lemma RankRises(rank: Id -> int, s: System, g: nat, h: nat)
    requires forall t | t in s :: ThreadOk(rank, s[t])
    requires WaitsFor(s, g, h) && s[h].waiting.Some?
    ensures rank(s[g].waiting.value.guid) < rank(s[h].waiting.value.guid)
  {
    var id := HeldLockHasEntry(s[h].ledger, s[g].waiting.value.ent.mutex);
  }

  lemma {:induction false} RankRisesAlong(rank: Id -> int, s: System, path: seq<nat>)
    requires forall t | t in s :: ThreadOk(rank, s[t])
    requires |path| >= 2 && WaitPath(s, path)
    requires var last := path[|path| - 1]; last in s && s[last].waiting.Some?
    ensures path[0] in s && s[path[0]].waiting.Some?
    ensures rank(s[path[0]].waiting.value.guid) < rank(s[path[|path| - 1]].waiting.value.guid)
    decreases |path|
  {
    if |path| > 2 {
      RankRisesAlong(rank, s, path[1..]);
    }
    RankRises(rank, s, path[0], path[1]);
  }

  /** Unless a release by instance hits a double entry, ordered waiting cannot deadlock. */
  lemma NoWaitCycle(rank: Id -> int, actions: seq<Action>, path: seq<nat>)
    requires NeverDouble(rank, actions)
    ensures !WaitCycle(Run(rank, actions), path)
  {
    var s := Run(rank, actions);
    RunKeepsThreads(rank, actions);
    if WaitCycle(s, path) {
      RankRisesAlong(rank, s, path);
      assert false;
    }
  }

  // ---------------------------------------------------------------- the double entry can deadlock

  lemma RunAppends(rank: Id -> int, actions: seq<Action>, a: Action)
    ensures Run(rank, actions + [a]) == Step(rank, Run(rank, actions), a)
  {
    assert (actions + [a])[..|actions|] == actions;
  }

  /** One goroutine alone, after it required `a`, `b` and `a` again under one ID and released `a` by instance. */
  lemma LeakRun(rank: Id -> int, a: Entity, b: Entity, x: Id) returns (actions: seq<Action>)
    requires a.mutex != b.mutex && a.mutex.lockId == b.mutex.lockId == x && x != NO_ID
    ensures Run(rank, actions) == map[0 := Thread(Ledger(map[], [Held(x, b)], multiset{a.mutex, b.mutex}), None)]
  {
    var l3 := Ledger(map[x := a], [Held(x, a), Held(x, b)], multiset{a.mutex, b.mutex, a.mutex});
    var before := TakenBack(rank, a, b, x);
    RunAppends(rank, before, ReleaseInst(0, a, NO_ID));
    ReleaseFirst(l3, a, b, x);
    actions := before + [ReleaseInst(0, a, NO_ID)];
  }

  /** `a`, then `b` over it, then `a` again. */
  lemma TakenBack(rank: Id -> int, a: Entity, b: Entity, x: Id) returns (actions: seq<Action>)
    requires a.mutex != b.mutex && a.mutex.lockId == b.mutex.lockId == x && x != NO_ID
    ensures var l := Ledger(map[x := a], [Held(x, a), Held(x, b)], multiset{a.mutex, b.mutex, a.mutex});
            Run(rank, actions) == map[0 := Thread(l, None)]
  {
    var l1 := Ledger(map[x := a], [], multiset{a.mutex});
    var l2 := Ledger(map[x := b], [Held(x, a)], multiset{a.mutex, b.mutex});
    var l3 := Ledger(map[x := a], [Held(x, a), Held(x, b)], multiset{a.mutex, b.mutex, a.mutex});
    RequireFirst(a, x);
    RequireOver(a, b, x);
    RequireBack(a, b, x);
    RunAppends(rank, [], Spawn(0));
    var spawned := [] + [Spawn(0)];
    AloneTries(rank, spawned, EMPTY, l1, a, x);
    var once := spawned + [Try(0, a, x, false)];
    AloneTries(rank, once, l1, l2, b, x);
    var over := once + [Try(0, b, x, false)];
    AloneTries(rank, over, l2, l3, a, x);
    actions := over + [Try(0, a, x, false)];
  }

  lemma AloneTries(rank: Id -> int, actions: seq<Action>, l: Ledger, l': Ledger, ent: Entity, x: Id)
    requires Run(rank, actions) == map[0 := Thread(l, None)] && ent.mutex.lockId == x
    requires Require(l, ent, x, false, false).0 == l'
    ensures Run(rank, actions + [Try(0, ent, x, false)]) == map[0 := Thread(l', None)]
  {
    RunAppends(rank, actions, Try(0, ent, x, false));
    assert Free(Run(rank, actions), 0, ent.mutex);
  }

  /**
   The condition is needed: after a release that hits a double entry the leaked lock has no entry, so the
   goroutine may wait below its rank while another waits for the leaked lock.
   */
  lemma DoubleReleaseDeadlocks(rank: Id -> int, a: Entity, b: Entity, c: Entity, x: Id, y: Id)
    returns (actions: seq<Action>)
    requires a.mutex != b.mutex && a.mutex.lockId == b.mutex.lockId == x && c.mutex.lockId == y
    requires x != NO_ID && y != NO_ID && -1 < rank(y) < rank(x)
    ensures WaitCycle(Run(rank, actions), [0, 1, 0])
  {
    actions := LeakRun(rank, a, b, x);
    var leaked := Thread(Ledger(map[], [Held(x, b)], multiset{a.mutex, b.mutex}), None);
    var held := Thread(Ledger(map[y := c], [], multiset{c.mutex}), None);
    RunAppends(rank, actions, Spawn(1));
    actions := actions + [Spawn(1)];
    RunAppends(rank, actions, Try(1, c, y, false));
    assert Run(rank, actions) == map[0 := leaked, 1 := Thread(EMPTY, None)];
    assert Free(Run(rank, actions), 1, c.mutex);
    actions := actions + [Try(1, c, y, false)];
    assert Require(EMPTY, c, y, false, false).0 == held.ledger;
    assert Run(rank, actions) == map[0 := leaked, 1 := Thread(EMPTY, None)][1 := held];
    BothWait(rank, actions, leaked, held, a, c, x, y);
    actions := (actions + [Wait(0, c, y)]) + [Wait(1, a, x)];
  }

  lemma BothWait(rank: Id -> int, actions: seq<Action>, leaked: Thread, held: Thread, a: Entity, c: Entity, x: Id,
                 y: Id)
    requires Run(rank, actions) == map[0 := leaked, 1 := held] && leaked.waiting.None? && held.waiting.None?
    requires leaked.ledger.eMap == map[] && leaked.ledger.locks[a.mutex] > 0
    requires held.ledger.eMap == map[y := c] && held.ledger.locks[c.mutex] > 0
    requires a.mutex.lockId == x && c.mutex.lockId == y && x != NO_ID && y != NO_ID && -1 < rank(y) < rank(x)
    ensures WaitCycle(Run(rank, (actions + [Wait(0, c, y)]) + [Wait(1, a, x)]), [0, 1, 0])
  {
    RunAppends(rank, actions, Wait(0, c, y));
    RunAppends(rank, actions + [Wait(0, c, y)], Wait(1, a, x));
    var s := Run(rank, (actions + [Wait(0, c, y)]) + [Wait(1, a, x)]);
    assert s[0] == leaked.(waiting := Some(Waiting(c, y))) && s[1] == held.(waiting := Some(Waiting(a, x)));
    assert WaitPath(s, [1, 0]) by { assert [1, 0][1..] == [0]; }
    assert [0, 1, 0][1..] == [1, 0];
  }
}
