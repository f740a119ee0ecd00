/**
 The lock ledger of one goroutine (`EntityGuard`): the instance held for each entity ID, the
 instances superseded by a newer one of the same ID whose locks are still held, and the locks.

 An entity instance is identified by a serial number (its pointer) and keeps one mutex for life.
 Its ID and its removed or cleared flags change, so they are arguments of each call: `guid` is 0
 once the instance is cleared, and `gone` is what the check after locking reads.
 */
module EntityGuard {
  import opened Wrappers

  /** A full entity ID; 0 is no ID. */
  datatype Id = Id(number: int)

  const NO_ID := Id(0)

  /** A mutex is created for one ID; a rebuilt entity of the same ID may get another one. */
  datatype Mutex = Mutex(lockId: Id, serial: nat)

  datatype Entity = Entity(serial: nat, mutex: Mutex)

  datatype Held = Held(id: Id, ent: Entity)

  datatype Ledger = Ledger(eMap: map<Id, Entity>, superseded: seq<Held>, locks: multiset<Mutex>)

  const EMPTY := Ledger(map[], [], multiset{})

  // ---------------------------------------------------------------- operations

  predicate IsHolding(l: Ledger, ent: Entity, guid: Id) {
    guid in l.eMap && (l.eMap[guid] == ent || l.eMap[guid].mutex == ent.mutex)
  }

  /** Records the instance whose mutex was just locked; a stale instance of the ID keeps its lock. */
  function Hold(l: Ledger, ent: Entity, guid: Id): Ledger {
    Ledger(l.eMap[guid := ent],
           if guid in l.eMap then l.superseded + [Held(guid, l.eMap[guid])] else l.superseded,
           l.locks + multiset{ent.mutex})
  }

  /** RequireEntity, and TryRequireEntity when the mutex may be `busy`. */
  function Require(l: Ledger, ent: Entity, guid: Id, busy: bool, gone: bool): (Ledger, bool) {
    if guid == NO_ID then (l, false)
    else if IsHolding(l, ent, guid) then (l, true)
    else if busy || gone then (l, false)
    else (Hold(l, ent, guid), true)
  }

  /** Unlocks an instance and drops it from the map if it is the current one of the ID. */
  function DoRelease(l: Ledger, id: Id, ent: Entity): Ledger {
    Ledger(if id in l.eMap && l.eMap[id] == ent then l.eMap - {id} else l.eMap,
           l.superseded,
           l.locks - multiset{ent.mutex})
  }

  function Without(s: seq<Held>, i: nat): seq<Held>
    requires i < |s|
  {
    s[..i] + s[i + 1..]
  }

  /** The last superseded entry of the ID. */
  function LastOfId(s: seq<Held>, id: Id): Option<nat> {
    if s == [] then None
    else if s[|s| - 1].id == id then Some(|s| - 1)
    else LastOfId(s[..|s| - 1], id)
  }

  /** The last superseded entry that is this instance or shares its mutex. */
  function LastOfEntity(s: seq<Held>, ent: Entity): Option<nat> {
    if s == [] then None
    else if s[|s| - 1].ent == ent || s[|s| - 1].ent.mutex == ent.mutex then Some(|s| - 1)
    else LastOfEntity(s[..|s| - 1], ent)
  }

  lemma {:induction false} LastOfIdIs(s: seq<Held>, id: Id)
    ensures LastOfId(s, id).None? ==> forall h | h in s :: h.id != id
    ensures LastOfId(s, id).Some? ==> LastOfId(s, id).value < |s| && s[LastOfId(s, id).value].id == id
  {
    if s != [] {
      LastOfIdIs(s[..|s| - 1], id);
      assert s == s[..|s| - 1] + [s[|s| - 1]];
    }
  }

  lemma {:induction false} LastOfEntityIs(s: seq<Held>, ent: Entity)
    ensures LastOfEntity(s, ent).Some? ==>
      var i := LastOfEntity(s, ent).value; i < |s| && (s[i].ent == ent || s[i].ent.mutex == ent.mutex)
  {
    if s != [] {
      LastOfEntityIs(s[..|s| - 1], ent);
    }
  }

  /** Puts the most recently superseded instance of the ID back into the map. */
  function RestoreSuperseded(l: Ledger, id: Id): Ledger {
    LastOfIdIs(l.superseded, id);
    match LastOfId(l.superseded, id)
    case None => l
    case Some(i) => l.(eMap := l.eMap[id := l.superseded[i].ent], superseded := Without(l.superseded, i))
  }

  function Release(l: Ledger, id: Id): Ledger {
    if id in l.eMap then RestoreSuperseded(DoRelease(l, id, l.eMap[id]), id) else l
  }

  function ReleaseInstance(l: Ledger, ent: Entity, guid: Id): Ledger {
    LastOfEntityIs(l.superseded, ent);
    if guid != NO_ID && IsHolding(l, ent, guid) then Release(l, guid)
    else
      match LastOfEntity(l.superseded, ent)
      case None => l
      case Some(i) =>
        DoRelease(l.(superseded := Without(l.superseded, i)), l.superseded[i].id, l.superseded[i].ent)
  }

  // ---------------------------------------------------------------- the balance

  /** The IDs whose current instance uses the mutex. */
  function IdsUsing(eMap: map<Id, Entity>, m: Mutex): set<Id> {
    set id | id in eMap && eMap[id].mutex == m
  }

  function CountUsing(s: seq<Held>, m: Mutex): nat {
    if s == [] then 0 else (if s[0].ent.mutex == m then 1 else 0) + CountUsing(s[1..], m)
  }

  /** The lock count of every mutex is the number of ledger entries that use it. */
  ghost predicate Balanced(l: Ledger) {
    forall m :: l.locks[m] == |IdsUsing(l.eMap, m)| + CountUsing(l.superseded, m)
  }

  lemma {:induction false} CountUsingConcat(left: seq<Held>, right: seq<Held>, m: Mutex)
    ensures CountUsing(left + right, m) == CountUsing(left, m) + CountUsing(right, m)
  {
    if left == [] {
      assert left + right == right;
    } else {
      assert (left + right)[1..] == left[1..] + right;
      CountUsingConcat(left[1..], right, m);
    }
  }

  lemma CountUsingWithout(s: seq<Held>, i: nat, m: Mutex)
    requires i < |s|
    ensures CountUsing(s, m) == CountUsing(Without(s, i), m) + if s[i].ent.mutex == m then 1 else 0
  {
    assert s == s[..i] + ([s[i]] + s[i + 1..]);
    CountUsingConcat(s[..i], [s[i]] + s[i + 1..], m);
    CountUsingConcat([s[i]], s[i + 1..], m);
    CountUsingConcat(s[..i], s[i + 1..], m);
  }

  /** Replacing the current instance of an ID moves it between the counts of two mutexes. */
  lemma IdsUsingStore(eMap: map<Id, Entity>, id: Id, ent: Entity, m: Mutex)
    ensures |IdsUsing(eMap[id := ent], m)|
         == |IdsUsing(eMap - {id}, m)| + if ent.mutex == m then 1 else 0
  {
    var before, after := IdsUsing(eMap - {id}, m), IdsUsing(eMap[id := ent], m);
    assert after == if ent.mutex == m then before + {id} else before;
  }

  lemma IdsUsingRemove(eMap: map<Id, Entity>, id: Id, m: Mutex)
    requires id in eMap
    ensures |IdsUsing(eMap, m)| == |IdsUsing(eMap - {id}, m)| + if eMap[id].mutex == m then 1 else 0
  {
    assert eMap[id := eMap[id]] == eMap;
    IdsUsingStore(eMap, id, eMap[id], m);
  }

  lemma HoldKeepsBalance(l: Ledger, ent: Entity, guid: Id)
    requires Balanced(l)
    ensures Balanced(Hold(l, ent, guid))
  {
    var l' := Hold(l, ent, guid);
    forall m ensures l'.locks[m] == |IdsUsing(l'.eMap, m)| + CountUsing(l'.superseded, m) {
      IdsUsingStore(l.eMap, guid, ent, m);
      if guid in l.eMap {
        IdsUsingRemove(l.eMap, guid, m);
        CountUsingConcat(l.superseded, [Held(guid, l.eMap[guid])], m);
      } else {
        assert l.eMap - {guid} == l.eMap;
      }
    }
  }

  /** Releasing the current instance of an ID takes one lock and one entry away. */
  lemma DoReleaseKeepsBalance(l: Ledger, id: Id)
    requires Balanced(l) && id in l.eMap
    ensures l.locks[l.eMap[id].mutex] > 0 && Balanced(DoRelease(l, id, l.eMap[id]))
  {
    var l' := DoRelease(l, id, l.eMap[id]);
    IdsUsingRemove(l.eMap, id, l.eMap[id].mutex);
    forall m ensures l'.locks[m] == |IdsUsing(l'.eMap, m)| + CountUsing(l'.superseded, m) {
      IdsUsingRemove(l.eMap, id, m);
    }
  }

  lemma RestoreKeepsBalance(l: Ledger, id: Id)
    requires Balanced(l) && id !in l.eMap
    ensures Balanced(RestoreSuperseded(l, id))
  {
    LastOfIdIs(l.superseded, id);
    var l' := RestoreSuperseded(l, id);
    if LastOfId(l.superseded, id).Some? {
      var i := LastOfId(l.superseded, id).value;
      forall m ensures l'.locks[m] == |IdsUsing(l'.eMap, m)| + CountUsing(l'.superseded, m) {
        assert l.eMap - {id} == l.eMap;
        IdsUsingStore(l.eMap, id, l.superseded[i].ent, m);
        CountUsingWithout(l.superseded, i, m);
      }
    }
  }

  lemma ReleaseKeepsBalance(l: Ledger, id: Id)
    requires Balanced(l)
    ensures Balanced(Release(l, id))
  {
    if id in l.eMap {
      DoReleaseKeepsBalance(l, id);
      RestoreKeepsBalance(DoRelease(l, id, l.eMap[id]), id);
    }
  }

  /**
   The release by instance hits a superseded entry whose instance is at the same time the current
   one of its ID: the instance was required again after it had been superseded.
   */
  predicate HitsDouble(l: Ledger, ent: Entity, guid: Id) {
    LastOfEntityIs(l.superseded, ent);
    && !(guid != NO_ID && IsHolding(l, ent, guid))
    && LastOfEntity(l.superseded, ent).Some?
    && var held := l.superseded[LastOfEntity(l.superseded, ent).value];
       held.id in l.eMap && l.eMap[held.id] == held.ent
  }

  /** Releasing by instance keeps the balance exactly when it does not hit a double entry. */
  lemma ReleaseInstanceBalance(l: Ledger, ent: Entity, guid: Id)
    requires Balanced(l)
    ensures Balanced(ReleaseInstance(l, ent, guid)) <==> !HitsDouble(l, ent, guid)
  {
    LastOfEntityIs(l.superseded, ent);
    if guid != NO_ID && IsHolding(l, ent, guid) {
      ReleaseKeepsBalance(l, guid);
    } else if LastOfEntity(l.superseded, ent).Some? {
      var i := LastOfEntity(l.superseded, ent).value;
      var held, l' := l.superseded[i], ReleaseInstance(l, ent, guid);
      CountUsingWithout(l.superseded, i, held.ent.mutex);
      if HitsDouble(l, ent, guid) {
        IdsUsingRemove(l.eMap, held.id, held.ent.mutex);
        var m := held.ent.mutex;
        assert l'.locks[m] != |IdsUsing(l'.eMap, m)| + CountUsing(l'.superseded, m);
      } else {
        forall m ensures l'.locks[m] == |IdsUsing(l'.eMap, m)| + CountUsing(l'.superseded, m) {
          CountUsingWithout(l.superseded, i, m);
        }
      }
    }
  }

  // ---------------------------------------------------------------- releasing undoes requiring

  /** The ID of every superseded instance stays in the map. */
  ghost predicate Anchored(l: Ledger) {
    forall h | h in l.superseded :: h.id in l.eMap
  }

  lemma LastOfIdPushed(s: seq<Held>, h: Held)
    ensures LastOfId(s + [h], h.id) == Some(|s|) && Without(s + [h], |s|) == s
  {
  }

  /** Releasing the ID right after an instance was taken under it gives the earlier ledger back. */
  lemma ReleaseUndoesHold(l: Ledger, ent: Entity, guid: Id)
    requires Anchored(l)
    ensures Release(Hold(l, ent, guid), guid) == l
  {
    var held := Hold(l, ent, guid);
    var dropped := DoRelease(held, guid, ent);
    assert dropped.locks == l.locks;
    if guid in l.eMap {
      LastOfIdPushed(l.superseded, Held(guid, l.eMap[guid]));
      assert dropped.eMap[guid := l.eMap[guid]] == l.eMap;
    } else {
      LastOfIdIs(l.superseded, guid);
      assert dropped.eMap == l.eMap;
    }
  }

  /** So does releasing the instance itself. */
  lemma ReleaseInstanceUndoesHold(l: Ledger, ent: Entity, guid: Id)
    requires Anchored(l) && guid != NO_ID
    ensures ReleaseInstance(Hold(l, ent, guid), ent, guid) == l
  {
    ReleaseUndoesHold(l, ent, guid);
  }

  /**
   A release by ID unlocks the mutex of the ID's current instance once and nothing else, touches no
   other ID, and makes the newest superseded instance of the ID the current one.
   */
  lemma ReleaseExactly(l: Ledger, id: Id)
    requires id in l.eMap
    ensures Release(l, id).locks == l.locks - multiset{l.eMap[id].mutex}
    ensures forall other | other != id ::
              (other in Release(l, id).eMap <==> other in l.eMap)
              && (other in l.eMap ==> Release(l, id).eMap[other] == l.eMap[other])
    ensures (forall i | 0 <= i < |l.superseded| :: l.superseded[i].id != id) ==>
              id !in Release(l, id).eMap && Release(l, id).superseded == l.superseded
    ensures forall i | 0 <= i < |l.superseded| && l.superseded[i].id == id
                       && (forall j | i < j < |l.superseded| :: l.superseded[j].id != id) ::
              id in Release(l, id).eMap && Release(l, id).eMap[id] == l.superseded[i].ent
              && Release(l, id).superseded == Without(l.superseded, i)
  {
    LastOfIdIs(l.superseded, id);
    LastOfIdIsLast(l.superseded, id);
  }

  lemma {:induction false} LastOfIdIsLast(s: seq<Held>, id: Id)
    ensures forall i | 0 <= i < |s| && s[i].id == id && (forall j | i < j < |s| :: s[j].id != id) ::
              LastOfId(s, id) == Some(i)
  {
    if s != [] {
      LastOfIdIsLast(s[..|s| - 1], id);
    }
  }

  lemma {:induction false} LastOfEntityIsLast(s: seq<Held>, ent: Entity)
    ensures forall i | 0 <= i < |s| && s[i].ent == ent && (forall j | i < j < |s| :: s[j].ent.mutex != ent.mutex) ::
              LastOfEntity(s, ent) == Some(i)
  {
    if s != [] {
      LastOfEntityIsLast(s[..|s| - 1], ent);
    }
  }

  /** A release by instance of a superseded instance unlocks it once and drops its newest entry only. */
  lemma ReleaseInstanceExactly(l: Ledger, ent: Entity, guid: Id, i: nat)
    requires !(guid != NO_ID && IsHolding(l, ent, guid)) && !HitsDouble(l, ent, guid)
    requires i < |l.superseded| && l.superseded[i].ent == ent
    requires forall j | i < j < |l.superseded| :: l.superseded[j].ent.mutex != ent.mutex
    ensures ReleaseInstance(l, ent, guid)
         == Ledger(l.eMap, Without(l.superseded, i), l.locks - multiset{ent.mutex})
  {
    LastOfEntityIsLast(l.superseded, ent);
  }

  // ---------------------------------------------------------------- runs

  datatype Op =
    | RequireOp(ent: Entity, guid: Id, busy: bool, gone: bool)
    | ReleaseOp(id: Id)
    | ReleaseInstanceOp(ent: Entity, guid: Id)

  function Apply(l: Ledger, op: Op): Ledger {
    match op
    case RequireOp(ent, guid, busy, gone) => Require(l, ent, guid, busy, gone).0
    case ReleaseOp(id) => Release(l, id)
    case ReleaseInstanceOp(ent, guid) => ReleaseInstance(l, ent, guid)
  }

  function Run(ops: seq<Op>): Ledger {
    if ops == [] then EMPTY else Apply(Run(ops[..|ops| - 1]), ops[|ops| - 1])
  }

  /** The operation does not take back an instance that was superseded: it has been removed by then. */
  predicate Supported(l: Ledger, op: Op) {
    op.RequireOp? && !op.gone ==> Held(op.guid, op.ent) !in l.superseded
  }

  predicate SupportedRun(ops: seq<Op>) {
    forall i | 0 <= i < |ops| :: Supported(Run(ops[..i]), ops[i])
  }

  /** No instance is entered twice for its ID. */
  ghost predicate EnteredOnce(l: Ledger) {
    && (forall i | 0 <= i < |l.superseded| ::
          l.superseded[i].id in l.eMap && l.eMap[l.superseded[i].id] != l.superseded[i].ent)
    && (forall i, j | 0 <= i < j < |l.superseded| :: l.superseded[i] != l.superseded[j])
  }

  lemma RestoreEntersOnce(l: Ledger, id: Id)
    requires id in l.eMap && EnteredOnce(l)
    ensures EnteredOnce(Release(l, id))
  {
    var released := DoRelease(l, id, l.eMap[id]);
    LastOfIdIs(released.superseded, id);
    if LastOfId(released.superseded, id).Some? {
      WithoutEntries(l.superseded, LastOfId(released.superseded, id).value);
    }
  }

  lemma WithoutEntries(s: seq<Held>, i: nat)
    requires i < |s|
    ensures forall k | 0 <= k < i :: Without(s, i)[k] == s[k]
    ensures forall k | i <= k < |s| - 1 :: Without(s, i)[k] == s[k + 1]
  {
  }

  lemma ApplyKeepsEnteredOnce(l: Ledger, op: Op)
    requires EnteredOnce(l) && Supported(l, op)
    ensures EnteredOnce(Apply(l, op))
    ensures op.ReleaseInstanceOp? ==> !HitsDouble(l, op.ent, op.guid)
  {
    match op
    case RequireOp(ent, guid, busy, gone) =>
    case ReleaseOp(id) =>
      if id in l.eMap {
        RestoreEntersOnce(l, id);
      }
    case ReleaseInstanceOp(ent, guid) =>
      LastOfEntityIs(l.superseded, ent);
      if guid != NO_ID && IsHolding(l, ent, guid) {
        RestoreEntersOnce(l, guid);
      } else if LastOfEntity(l.superseded, ent).Some? {
        WithoutEntries(l.superseded, LastOfEntity(l.superseded, ent).value);
      }
  }

  /**
   Over every run of require, try and release by ID or by instance, same-ID instances with new
   mutexes included: lock counts match the ledger, and the ID of every held lock stays in the map.
   */
  lemma {:induction false} RunKeepsBalance(ops: seq<Op>)
    requires SupportedRun(ops)
    ensures Balanced(Run(ops)) && EnteredOnce(Run(ops))
  {
    if ops == [] {
      assert forall m :: IdsUsing(map[], m) == {};
    } else {
      var front, op := ops[..|ops| - 1], ops[|ops| - 1];
      assert forall i | 0 <= i < |front| :: front[..i] == ops[..i];
      RunKeepsBalance(front);
      var l := Run(front);
      ApplyKeepsEnteredOnce(l, op);
      match op
      case RequireOp(ent, guid, busy, gone) => HoldKeepsBalance(l, ent, guid);
      case ReleaseOp(id) => ReleaseKeepsBalance(l, id);
      case ReleaseInstanceOp(ent, guid) => ReleaseInstanceBalance(l, ent, guid);
    }
  }

  /** The lock counts match the ledger after every operation of the run. */
  ghost predicate BalancedThroughout(ops: seq<Op>) {
    Balanced(Run(ops)) && (ops == [] || BalancedThroughout(ops[..|ops| - 1]))
  }

  predicate NeverHitsDouble(ops: seq<Op>) {
    ops == [] ||
    var front, op := ops[..|ops| - 1], ops[|ops| - 1];
    NeverHitsDouble(front) && (op.ReleaseInstanceOp? ==> !HitsDouble(Run(front), op.ent, op.guid))
  }

  /** A run keeps the balance throughout exactly when no release by instance in it hits a double entry. */
  lemma {:induction false} BalancedExactly(ops: seq<Op>)
    ensures BalancedThroughout(ops) <==> NeverHitsDouble(ops)
  {
    if ops == [] {
      assert forall m :: IdsUsing(map[], m) == {};
    } else {
      var front, op := ops[..|ops| - 1], ops[|ops| - 1];
      BalancedExactly(front);
      var l := Run(front);
      if BalancedThroughout(front) {
        match op
        case RequireOp(ent, guid, busy, gone) => HoldKeepsBalance(l, ent, guid);
        case ReleaseOp(id) => ReleaseKeepsBalance(l, id);
        case ReleaseInstanceOp(ent, guid) => ReleaseInstanceBalance(l, ent, guid);
      }
    }
  }

  /** A held lock belongs to a ledger entry. */
  lemma HeldLockHasEntry(l: Ledger, m: Mutex) returns (id: Id)
    requires Balanced(l) && Anchored(l) && l.locks[m] > 0
    requires forall id | id in l.eMap :: l.eMap[id].mutex.lockId == id
    requires forall h | h in l.superseded :: h.ent.mutex.lockId == h.id
    ensures id == m.lockId && id in l.eMap
  {
    id := m.lockId;
    if |IdsUsing(l.eMap, m)| > 0 {
      var used := IdUsing(l.eMap, m);
      assert used == m.lockId;
    } else {
      var i := EntryUsing(l.superseded, m);
      assert l.superseded[i] in l.superseded;
    }
  }

  lemma IdUsing(eMap: map<Id, Entity>, m: Mutex) returns (id: Id)
    requires |IdsUsing(eMap, m)| > 0
    ensures id in eMap && eMap[id].mutex == m
  {
    var ids := IdsUsing(eMap, m);
    id :| id in ids;
  }

  lemma {:induction false} EntryUsing(s: seq<Held>, m: Mutex) returns (i: nat)
    requires CountUsing(s, m) > 0
    ensures i < |s| && s[i].ent.mutex == m
  {
    if s[0].ent.mutex == m {
      i := 0;
    } else {
      var below := EntryUsing(s[1..], m);
      i := below + 1;
    }
  }

  /**
   The unsupported case really loses a lock: an instance required again after it was superseded and
   released by instance once its ID is cleared leaves its mutex locked with no entry at all.
   */
  lemma RequiredAgainLeaks(a: Entity, b: Entity, id: Id) returns (ops: seq<Op>)
    requires a.mutex != b.mutex && id != NO_ID
    ensures Run(ops) == Ledger(map[], [Held(id, b)], multiset{a.mutex, b.mutex})
  {
    var ra, rb, x := RequireOp(a, id, false, false), RequireOp(b, id, false, false), ReleaseInstanceOp(a, NO_ID);
    var before := [ra] + [rb] + [ra];
    RequiredThrice(a, b, id);
    RunAppend(before, x);
    ReleaseFirst(Run(before), a, b, id);
    ops := before + [x];
  }

  lemma RequiredThrice(a: Entity, b: Entity, id: Id)
    requires a.mutex != b.mutex && id != NO_ID
    ensures var ra, rb := RequireOp(a, id, false, false), RequireOp(b, id, false, false);
            Run([ra] + [rb] + [ra])
            == Ledger(map[id := a], [Held(id, a), Held(id, b)], multiset{a.mutex, b.mutex, a.mutex})
  {
    var ra, rb := RequireOp(a, id, false, false), RequireOp(b, id, false, false);
    RequiredTwice(a, b, id);
    RunAppend([ra] + [rb], ra);
    RequireBack(a, b, id);
  }

  lemma RequireBack(a: Entity, b: Entity, id: Id)
    requires a.mutex != b.mutex && id != NO_ID
    ensures Apply(Ledger(map[id := b], [Held(id, a)], multiset{a.mutex, b.mutex}), RequireOp(a, id, false, false))
         == Ledger(map[id := a], [Held(id, a), Held(id, b)], multiset{a.mutex, b.mutex, a.mutex})
  {
    assert map[id := b][id := a] == map[id := a];
  }

  lemma RequiredTwice(a: Entity, b: Entity, id: Id)
    requires a.mutex != b.mutex && id != NO_ID
    ensures var ra, rb := RequireOp(a, id, false, false), RequireOp(b, id, false, false);
            Run([ra] + [rb]) == Ledger(map[id := b], [Held(id, a)], multiset{a.mutex, b.mutex})
  {
    var ra, rb := RequireOp(a, id, false, false), RequireOp(b, id, false, false);
    RunAppend([], ra);
    assert [] + [ra] == [ra];
    RequireFirst(a, id);
    RunAppend([ra], rb);
    RequireOver(a, b, id);
  }

  lemma RequireFirst(a: Entity, id: Id)
    requires id != NO_ID
    ensures Apply(EMPTY, RequireOp(a, id, false, false)) == Ledger(map[id := a], [], multiset{a.mutex})
  {
  }

  lemma RequireOver(a: Entity, b: Entity, id: Id)
    requires a.mutex != b.mutex && id != NO_ID
    ensures Apply(Ledger(map[id := a], [], multiset{a.mutex}), RequireOp(b, id, false, false))
         == Ledger(map[id := b], [Held(id, a)], multiset{a.mutex, b.mutex})
  {
    assert map[id := a][id := b] == map[id := b];
  }

  lemma ReleaseFirst(l: Ledger, a: Entity, b: Entity, id: Id)
    requires a.mutex != b.mutex && id != NO_ID
    requires l == Ledger(map[id := a], [Held(id, a), Held(id, b)], multiset{a.mutex, b.mutex, a.mutex})
    ensures ReleaseInstance(l, a, NO_ID) == Ledger(map[], [Held(id, b)], multiset{a.mutex, b.mutex})
  {
    assert l.superseded[..1] == [Held(id, a)];
    assert LastOfEntity(l.superseded[..1], a) == Some(0);
    assert Without(l.superseded, 0) == [Held(id, b)];
  }

  lemma RunAppend(ops: seq<Op>, op: Op)
    ensures Run(ops + [op]) == Apply(Run(ops), op)
  {
    assert (ops + [op])[..|ops|] == ops;
  }

  /** Waiting for the ID keeps the lock order: its rank is above every rank in the map. */
  predicate Above(rank: Id -> int, l: Ledger, guid: Id) {
    rank(guid) > -1 && forall id | id in l.eMap :: rank(id) < rank(guid)
  }

  // ---------------------------------------------------------------- release-all on values

  ghost function UnlockMap(locks: multiset<Mutex>, eMap: map<Id, Entity>): multiset<Mutex> {
    if eMap == map[] then locks
    else
      var id :| id in eMap;
      UnlockMap(locks - multiset{eMap[id].mutex}, eMap - {id})
  }

  function UnlockList(locks: multiset<Mutex>, s: seq<Held>): multiset<Mutex> {
    if s == [] then locks else UnlockList(locks - multiset{s[0].ent.mutex}, s[1..])
  }

  /** Every entry is unlocked once; a lock without an entry stays. */
  ghost function ReleaseEverything(l: Ledger): Ledger {
    Ledger(map[], [], UnlockList(UnlockMap(l.locks, l.eMap), l.superseded))
  }

  lemma {:induction false} UnlockMapCounts(locks: multiset<Mutex>, eMap: map<Id, Entity>, m: Mutex)
    requires |IdsUsing(eMap, m)| <= locks[m]
    ensures UnlockMap(locks, eMap)[m] == locks[m] - |IdsUsing(eMap, m)|
    decreases eMap
  {
    if eMap == map[] {
      assert IdsUsing(eMap, m) == {};
    } else {
      var id :| id in eMap && UnlockMap(locks, eMap) == UnlockMap(locks - multiset{eMap[id].mutex}, eMap - {id});
      IdsUsingRemove(eMap, id, m);
      UnlockMapCounts(locks - multiset{eMap[id].mutex}, eMap - {id}, m);
    }
  }

  lemma {:induction false} UnlockListCounts(locks: multiset<Mutex>, s: seq<Held>, m: Mutex)
    requires CountUsing(s, m) <= locks[m]
    ensures UnlockList(locks, s)[m] == locks[m] - CountUsing(s, m)
  {
    if s != [] {
      UnlockListCounts(locks - multiset{s[0].ent.mutex}, s[1..], m);
    }
  }

  /** From a balanced ledger nothing is left. */
  lemma ReleaseEverythingIsEmpty(l: Ledger)
    requires Balanced(l)
    ensures ReleaseEverything(l) == EMPTY
  {
    forall m ensures ReleaseEverything(l).locks[m] == 0 {
      UnlockMapCounts(l.locks, l.eMap, m);
      UnlockListCounts(UnlockMap(l.locks, l.eMap), l.superseded, m);
    }
    assert ReleaseEverything(l).locks == multiset{};
  }

  // ---------------------------------------------------------------- the guard in place

  class Guard {
    var eMap: map<Id, Entity>
    var superseded: seq<Held>
    var locks: multiset<Mutex>

    function Value(): Ledger
      reads this
    {
      Ledger(eMap, superseded, locks)
    }

    constructor ()
      ensures Value() == EMPTY
    {
      eMap, superseded, locks := map[], [], multiset{};
    }

    /** RequireEntity (never busy: it waits) and TryRequireEntity. */
    method RequireEntity(ent: Entity, guid: Id, busy: bool, gone: bool) returns (ok: bool)
      modifies this
      ensures (Value(), ok) == Require(old(Value()), ent, guid, busy, gone)
      ensures ok <==> guid != NO_ID && (IsHolding(old(Value()), ent, guid) || (!busy && !gone))
      ensures ok ==> IsHolding(Value(), ent, guid)
      ensures ok && !old(IsHolding(Value(), ent, guid)) ==>
                eMap == old(eMap)[guid := ent] && locks == old(locks) + multiset{ent.mutex}
      ensures !ok || old(IsHolding(Value(), ent, guid)) ==> Value() == old(Value())
    {
      if guid == NO_ID {
        return false;
      }
      var stale := None;
      if guid in eMap {
        if eMap[guid] == ent || eMap[guid].mutex == ent.mutex {
          return true;
        }
        stale := Some(eMap[guid]);
      }
      if busy {
        return false;
      }
      locks := locks + multiset{ent.mutex};
      if gone {
        locks := locks - multiset{ent.mutex};
        assert locks == old(locks);
        return false;
      }
      if stale.Some? {
        superseded := superseded + [Held(guid, stale.value)];
      }
      eMap := eMap[guid := ent];
      return true;
    }

    method Unlock(id: Id, ent: Entity)
      modifies this`eMap, this`locks
      ensures Value() == DoRelease(old(Value()), id, ent)
    {
      if id in eMap && eMap[id] == ent {
        eMap := eMap - {id};
      }
      locks := locks - multiset{ent.mutex};
    }

    method ReleaseEntity(id: Id)
      modifies this
      ensures Value() == Release(old(Value()), id)
    {
      if id !in eMap {
        return;
      }
      Unlock(id, eMap[id]);
      Restore(id);
    }

    /** The newest superseded instance of the ID, if any, becomes the current one again. */
    method Restore(id: Id)
      modifies this`eMap, this`superseded
      ensures Value() == RestoreSuperseded(old(Value()), id)
    {
      var i := |superseded|;
      assert superseded[..i] == superseded;
      while i > 0
        invariant 0 <= i <= |superseded|
        invariant LastOfId(superseded, id) == LastOfId(superseded[..i], id)
      {
        i := i - 1;
        assert superseded[..i + 1][..i] == superseded[..i];
        if superseded[i].id == id {
          eMap := eMap[id := superseded[i].ent];
          superseded := superseded[..i] + superseded[i + 1..];
          return;
        }
      }
    }

    method ReleaseEntityInstance(ent: Entity, guid: Id)
      modifies this
      ensures Value() == ReleaseInstance(old(Value()), ent, guid)
    {
      if guid != NO_ID && guid in eMap && (eMap[guid] == ent || eMap[guid].mutex == ent.mutex) {
        ReleaseEntity(guid);
        return;
      }
      var i := |superseded|;
      assert superseded[..i] == superseded;
      while i > 0
        invariant 0 <= i <= |superseded|
        invariant LastOfEntity(superseded, ent) == LastOfEntity(superseded[..i], ent)
      {
        i := i - 1;
        assert superseded[..i + 1][..i] == superseded[..i];
        var held := superseded[i];
        if held.ent == ent || held.ent.mutex == ent.mutex {
          superseded := superseded[..i] + superseded[i + 1..];
          Unlock(held.id, held.ent);
          return;
        }
      }
    }

    /** The highest lock rank held, -1 when nothing is held. */
    method MaxLockedGroup(rank: Id -> int) returns (group: int)
      ensures group >= -1
      ensures forall id | id in eMap :: rank(id) <= group
      ensures group == -1 || exists id | id in eMap :: rank(id) == group
    {
      group := -1;
      var left := eMap.Keys;
      while left != {}
        invariant left <= eMap.Keys && group >= -1
        invariant forall id | id in eMap && id !in left :: rank(id) <= group
        invariant group == -1 || exists id | id in eMap :: rank(id) == group
        decreases |left|
      {
        var id :| id in left;
        left := left - {id};
        if rank(id) > group {
          group := rank(id);
        }
      }
    }

    /** The instance is already held, or its rank is above every rank held. */
    method MayLockEntity(rank: Id -> int, ent: Entity, guid: Id) returns (may: bool)
      ensures may == (IsHolding(Value(), ent, guid) || Above(rank, Value(), guid))
    {
      var group := MaxLockedGroup(rank);
      may := (guid in eMap && (eMap[guid] == ent || eMap[guid].mutex == ent.mutex)) || rank(guid) > group;
    }

    /**
     Locks a new entity. Inside a handler the call waits for the mutex only in rank order and
     otherwise gives up on a busy mutex; `waits` says that it would block on one.
     */
    method LockCreated(rank: Id -> int, ent: Entity, guid: Id, inHandler: bool, busy: bool, gone: bool)
      returns (ok: bool, waits: bool)
      modifies this
      ensures waits <==> busy && guid != NO_ID && !IsHolding(old(Value()), ent, guid)
                         && (inHandler ==> Above(rank, old(Value()), guid))
      ensures (Value(), ok) == Require(old(Value()), ent, guid, busy && !waits, gone)
      ensures ok <==> guid != NO_ID && (IsHolding(old(Value()), ent, guid) || ((busy ==> waits) && !gone))
    {
      var may := MayLockEntity(rank, ent, guid);
      if inHandler && !may {
        waits := false;
        ok := RequireEntity(ent, guid, busy, gone);
      } else {
        waits := busy && guid != NO_ID && !IsHolding(Value(), ent, guid);
        ok := RequireEntity(ent, guid, false, gone);
      }
    }

    /** Releases everything: every entry is unlocked once, and no lock is left. */
    method ReleaseAll()
      requires Balanced(Value())
      modifies this
      ensures Value() == EMPTY
    {
      ReleaseCurrent();
      ReleaseSuperseded();
    }

    method ReleaseCurrent()
      requires Balanced(Value())
      modifies this
      ensures Balanced(Value()) && eMap == map[]
    {
      while eMap.Keys != {}
        invariant Balanced(Value())
        decreases |eMap|
      {
        var id :| id in eMap.Keys;
        DoReleaseKeepsBalance(Value(), id);
        Unlock(id, eMap[id]);
      }
    }

    method ReleaseSuperseded()
      requires Balanced(Value()) && eMap == map[]
      modifies this
      ensures Value() == EMPTY
    {
      var left := superseded;
      superseded := [];
      for i := 0 to |left|
        invariant superseded == [] && eMap == map[]
        invariant forall m :: locks[m] == CountUsing(left[i..], m)
      {
        assert left[i..][1..] == left[i + 1..];
        Unlock(left[i].id, left[i].ent);
      }
      assert left[|left|..] == [];
    }
  }
}
