/**
 The lock-free unique number generator (`IDGen`) interleaved at every atomic access: `next` and
 `end` are loaded separately, and a rotation stores them separately. Block numbers come from an
 allocator that only ever goes up.
 */
module IdGen {

  /** 20 offset bits; the upper half of the 52-bit unique range is reserved for static numbers. */
  const BLOCK_SIZE := 0x10_0000
  const STATIC_BASE := 0x8_0000_0000_0000
  const MAX_BLOCK_NO := (STATIC_BASE - 1) / BLOCK_SIZE

  /** Block 0 skips the reserved number 0. */
  function BlockStart(block: nat): nat {
    if block == 0 then 1 else block * BLOCK_SIZE
  }

  function BlockEnd(block: nat): nat {
    block * BLOCK_SIZE + BLOCK_SIZE
  }

  predicate InBlock(id: nat, block: nat) {
    BlockStart(block) <= id < BlockEnd(block)
  }

  // ---------------------------------------------------------------- threads

  datatype Pc =
    | Idle
    | NextLoaded(next: nat)
    | BothLoaded(next: nat, end: nat)
    | WantsRotation
    | HasRotation
    | GotBlock(block: nat)
    | NextStored(block: nat)
    | EndsRotation
    | Spinning

  /**
   The three atomics and the threads. `highest` is the highest block number handed out to anyone,
   `acquired` the blocks this generator installed, `issued` the numbers it returned. `nextBlock`
   and `endBlock` name the blocks whose bounds were last stored.
   */
  datatype System = System(
    next: nat,
    end: nat,
    rotating: bool,
    threads: seq<Pc>,
    highest: nat,
    acquired: seq<nat>,
    issued: seq<nat>,
    nextBlock: nat,
    endBlock: nat)

  datatype Action =
    | LoadNext(t: nat)
    | LoadEnd(t: nat)
    | Take(t: nat)
    | Rotate(t: nat)
    | Acquire(t: nat, skipped: nat)
    | AcquireFails(t: nat)
    | StoreNext(t: nat)
    | StoreEnd(t: nat)
    | EndRotation(t: nat)
    | SpinEnds(t: nat)

  function Goto(s: System, t: nat, pc: Pc): System
    requires t < |s.threads|
  {
    s.(threads := s.threads[t := pc])
  }

  /** One atomic access; an action that does not fit the thread does nothing. */
  function Step(s: System, a: Action): System {
    if a.t >= |s.threads| then s
    else
      var pc := s.threads[a.t];
      match a
      case LoadNext(t) => if pc == Idle then Goto(s, t, NextLoaded(s.next)) else s
      case LoadEnd(t) => if pc.NextLoaded? then Goto(s, t, BothLoaded(pc.next, s.end)) else s
      case Take(t) =>
        if !pc.BothLoaded? then s
        else if pc.next >= pc.end then Goto(s, t, WantsRotation)
        else if s.next != pc.next then Goto(s, t, Idle)
        else Goto(s.(next := pc.next + 1, issued := s.issued + [pc.next]), t, Idle)
      case Rotate(t) =>
        if pc != WantsRotation then s
        else if s.rotating then Goto(s, t, Spinning)
        else Goto(s.(rotating := true), t, HasRotation)
      case Acquire(t, skipped) =>
        if pc != HasRotation then s
        else
          var block := s.highest + 1 + skipped;
          if block > MAX_BLOCK_NO then Goto(s.(highest := block), t, EndsRotation)
          else Goto(s.(highest := block, acquired := s.acquired + [block]), t, GotBlock(block))
      case AcquireFails(t) => if pc == HasRotation then Goto(s, t, EndsRotation) else s
      case StoreNext(t) =>
        if pc.GotBlock?
        then Goto(s.(next := BlockStart(pc.block), nextBlock := pc.block), t, NextStored(pc.block)) else s
      case StoreEnd(t) =>
        if pc.NextStored? then Goto(s.(end := BlockEnd(pc.block), endBlock := pc.block), t, EndsRotation) else s
      case EndRotation(t) => if pc == EndsRotation then Goto(s.(rotating := false), t, Idle) else s
      case SpinEnds(t) => if pc == Spinning && !s.rotating then Goto(s, t, Idle) else s
  }

  function Initial(block: nat, threads: nat): System {
    System(BlockStart(block), BlockEnd(block), false, seq(threads, _ => Idle), block, [block], [], block, block)
  }

  function Run(block: nat, threads: nat, actions: seq<Action>): System {
    if actions == [] then Initial(block, threads)
    else Step(Run(block, threads, actions[..|actions| - 1]), actions[|actions| - 1])
  }

  // ---------------------------------------------------------------- the invariant

  predicate Rotates(pc: Pc) {
    pc == HasRotation || pc.GotBlock? || pc.NextStored? || pc == EndsRotation
  }

  ghost predicate ThreadOk(s: System, pc: Pc) {
    && (pc.NextLoaded? || pc.BothLoaded? ==> pc.next <= s.next)
    && (pc.BothLoaded? ==> pc.end <= s.end)
    && (Rotates(pc) ==> s.rotating)
    && (pc.GotBlock? ==> s.nextBlock < pc.block <= s.highest && pc.block in s.acquired && s.endBlock == s.nextBlock)
    && (pc.NextStored? ==> s.nextBlock == pc.block && s.endBlock < pc.block)
    && (pc == HasRotation || pc == EndsRotation ==> s.endBlock == s.nextBlock)
  }

  /** The number lies inside an acquired block and below the static range. */
  ghost predicate Issuable(s: System, id: nat) {
    (exists block :: block in s.acquired && InBlock(id, block)) && 0 < id < STATIC_BASE
  }

  ghost predicate Inv(s: System) {
    && BlockStart(s.nextBlock) <= s.next <= BlockEnd(s.nextBlock)
    && s.end == BlockEnd(s.endBlock)
    && s.endBlock <= s.nextBlock <= s.highest
    && s.nextBlock in s.acquired && s.nextBlock <= MAX_BLOCK_NO
    && (!s.rotating ==> s.endBlock == s.nextBlock)
    && (forall b | b in s.acquired :: b <= MAX_BLOCK_NO && b <= s.highest)
    && (forall t | 0 <= t < |s.threads| :: ThreadOk(s, s.threads[t]))
    && (forall t, u | 0 <= t < u < |s.threads| :: !(Rotates(s.threads[t]) && Rotates(s.threads[u])))
    && (forall i | 0 <= i < |s.issued| :: s.issued[i] < s.next && Issuable(s, s.issued[i]))
    && (forall i, j | 0 <= i < j < |s.issued| :: s.issued[i] < s.issued[j])
  }

  lemma BlocksInOrder(a: nat, b: nat)
    requires a < b
    ensures BlockEnd(a) <= BlockStart(b)
  {
  }

  lemma BelowStatic(block: nat, id: nat)
    requires block <= MAX_BLOCK_NO && InBlock(id, block)
    ensures 0 < id < STATIC_BASE
  {
  }

  /** A number below both loaded bounds, still the next one, lies in the block of `next`. */
  lemma TakenInBlock(s: System, t: nat)
    requires Inv(s) && t < |s.threads| && s.threads[t].BothLoaded?
    requires s.threads[t].next < s.threads[t].end && s.next == s.threads[t].next
    ensures InBlock(s.next, s.nextBlock) && 0 < s.next < STATIC_BASE && s.next < BlockEnd(s.nextBlock)
  {
    assert ThreadOk(s, s.threads[t]);
    if s.endBlock < s.nextBlock {
      BlocksInOrder(s.endBlock, s.nextBlock);
    }
    BelowStatic(s.nextBlock, s.next);
  }

  /** A successful swap takes a number of the block whose bounds are both in place. */
  lemma TakeKeeps(s: System, t: nat)
    requires Inv(s) && t < |s.threads| && s.threads[t].BothLoaded?
    ensures Inv(Step(s, Take(t)))
  {
    var pc := s.threads[t];
    assert ThreadOk(s, pc);
    if pc.next < pc.end && s.next == pc.next {
      TakenInBlock(s, t);
      var s' := Step(s, Take(t));
      forall u | 0 <= u < |s'.threads| ensures ThreadOk(s', s'.threads[u]) {
        assert ThreadOk(s, s.threads[u]);
      }
      forall i | 0 <= i < |s'.issued| ensures s'.issued[i] < s'.next && Issuable(s', s'.issued[i]) {
        if i < |s.issued| {
          assert Issuable(s, s.issued[i]);
        }
      }
    }
  }

  lemma IssuedStay(s: System, s': System)
    requires Inv(s) && s'.issued == s.issued && s.next <= s'.next
    requires forall b | b in s.acquired :: b in s'.acquired
    ensures forall i | 0 <= i < |s'.issued| :: s'.issued[i] < s'.next && Issuable(s', s'.issued[i])
  {
    forall i | 0 <= i < |s'.issued| ensures s'.issued[i] < s'.next && Issuable(s', s'.issued[i]) {
      assert Issuable(s, s.issued[i]);
      var block :| block in s.acquired && InBlock(s.issued[i], block);
      assert block in s'.acquired;
    }
  }

  lemma AcquireKeeps(s: System, t: nat, skipped: nat)
    requires Inv(s) && t < |s.threads| && s.threads[t] == HasRotation
    ensures Inv(Step(s, Acquire(t, skipped)))
  {
    var s' := Step(s, Acquire(t, skipped));
    assert ThreadOk(s, s.threads[t]);
    IssuedStay(s, s');
    forall u | 0 <= u < |s'.threads| ensures ThreadOk(s', s'.threads[u]) {
      assert ThreadOk(s, s.threads[u]);
    }
  }

  lemma StoresKeep(s: System, a: Action)
    requires Inv(s) && a.t < |s.threads|
    requires (a.StoreNext? && s.threads[a.t].GotBlock?) || (a.StoreEnd? && s.threads[a.t].NextStored?)
    ensures Inv(Step(s, a))
  {
    var s', pc := Step(s, a), s.threads[a.t];
    assert ThreadOk(s, pc);
    BlocksInOrder(if a.StoreNext? then s.nextBlock else s.endBlock, pc.block);
    IssuedStay(s, s');
    forall u | 0 <= u < |s'.threads| ensures ThreadOk(s', s'.threads[u]) {
      assert ThreadOk(s, s.threads[u]);
      if u != a.t {
        assert !Rotates(s.threads[u]);
      }
    }
  }

  /** Loads change nothing but what the thread has seen. */
  lemma LoadsKeep(s: System, a: Action)
    requires Inv(s) && (a.LoadNext? || a.LoadEnd? || a.SpinEnds?)
    ensures Inv(Step(s, a))
  {
    var s' := Step(s, a);
    IssuedStay(s, s');
    forall u | 0 <= u < |s'.threads| ensures ThreadOk(s', s'.threads[u]) {
      assert ThreadOk(s, s.threads[u]);
    }
  }

  /** At most one thread takes the rotation, and gives it back with both bounds in one block. */
  lemma RotationsKeep(s: System, a: Action)
    requires Inv(s) && (a.Rotate? || a.AcquireFails? || a.EndRotation?)
    ensures Inv(Step(s, a))
  {
    var s' := Step(s, a);
    IssuedStay(s, s');
    forall u | 0 <= u < |s'.threads| ensures ThreadOk(s', s'.threads[u]) {
      assert ThreadOk(s, s.threads[u]);
      if a.t < |s.threads| {
        assert ThreadOk(s, s.threads[a.t]);
      }
    }
  }

  lemma StepKeepsInv(s: System, a: Action)
    requires Inv(s)
    ensures Inv(Step(s, a))
  {
    match a
    case Take(t) =>
      if t < |s.threads| && s.threads[t].BothLoaded? {
        TakeKeeps(s, t);
      }
    case Acquire(t, skipped) =>
      if t < |s.threads| && s.threads[t] == HasRotation {
        AcquireKeeps(s, t, skipped);
      }
    case StoreNext(t) =>
      if t < |s.threads| && s.threads[t].GotBlock? {
        StoresKeep(s, a);
      }
    case StoreEnd(t) =>
      if t < |s.threads| && s.threads[t].NextStored? {
        StoresKeep(s, a);
      }
    case LoadNext(_) => LoadsKeep(s, a);
    case LoadEnd(_) => LoadsKeep(s, a);
    case SpinEnds(_) => LoadsKeep(s, a);
    case _ => RotationsKeep(s, a);
  }

  lemma {:induction false} RunKeepsInv(block: nat, threads: nat, actions: seq<Action>)
    requires block <= MAX_BLOCK_NO
    ensures Inv(Run(block, threads, actions))
  {
    if actions == [] {
      assert block in [block];
    } else {
      RunKeepsInv(block, threads, actions[..|actions| - 1]);
      StepKeepsInv(Run(block, threads, actions[..|actions| - 1]), actions[|actions| - 1]);
    }
  }

  // ---------------------------------------------------------------- what every interleaving returns

  /** Any interleaving returns strictly increasing numbers, each nonzero, inside an acquired block and below the
      static range. */
  lemma IssuedAreFresh(block: nat, threads: nat, actions: seq<Action>)
    requires block <= MAX_BLOCK_NO
    ensures var s := Run(block, threads, actions);
            && (forall i, j | 0 <= i < j < |s.issued| :: s.issued[i] < s.issued[j])
            && (forall i | 0 <= i < |s.issued| :: Issuable(s, s.issued[i]))
  {
    RunKeepsInv(block, threads, actions);
  }

  // ---------------------------------------------------------------- what one call returns

  function Continue(s: System, actions: seq<Action>): System {
    if actions == [] then s else Step(Continue(s, actions[..|actions| - 1]), actions[|actions| - 1])
  }

  lemma ContinueAppends(s: System, actions: seq<Action>, a: Action)
    ensures Continue(s, actions + [a]) == Step(Continue(s, actions), a)
  {
    assert (actions + [a])[..|actions|] == actions;
  }

  /** A swap issues a number exactly when the block is not used up and nobody took the number meanwhile. */
  lemma TakeExactly(s: System, t: nat)
    requires t < |s.threads| && s.threads[t].BothLoaded?
    ensures var s', pc := Step(s, Take(t)), s.threads[t];
            if pc.next < pc.end && s.next == pc.next then s'.issued == s.issued + [s.next] && s'.next == s.next + 1
            else s'.issued == s.issued && s'.next == s.next
  {
  }

  function Generate(t: nat): seq<Action> {
    [LoadNext(t), LoadEnd(t), Take(t)]
  }

  lemma GenerateIs(s: System, t: nat)
    requires t < |s.threads| && s.threads[t] == Idle
    ensures Continue(s, Generate(t)) == Step(Goto(s, t, BothLoaded(s.next, s.end)), Take(t))
  {
    ContinueAppends(s, [], LoadNext(t));
    ContinueAppends(s, [] + [LoadNext(t)], LoadEnd(t));
    ContinueAppends(s, [] + [LoadNext(t)] + [LoadEnd(t)], Take(t));
    assert [] + [LoadNext(t)] + [LoadEnd(t)] + [Take(t)] == Generate(t);
    assert s.threads[t := NextLoaded(s.next)][t := BothLoaded(s.next, s.end)]
        == s.threads[t := BothLoaded(s.next, s.end)];
  }

  /** A call that nobody disturbs returns the next number of the block. */
  lemma GenerateReturnsNext(s: System, t: nat)
    requires t < |s.threads| && s.threads[t] == Idle && s.next < s.end
    ensures Continue(s, Generate(t)) == s.(next := s.next + 1, issued := s.issued + [s.next])
  {
    GenerateIs(s, t);
    assert s.threads[t := BothLoaded(s.next, s.end)][t := Idle] == s.threads;
  }

  function Repeat(t: nat, calls: nat): seq<Action> {
    if calls == 0 then [] else Repeat(t, calls - 1) + Generate(t)
  }

  lemma {:induction false} ContinueConcat(s: System, first: seq<Action>, more: seq<Action>)
    ensures Continue(s, first + more) == Continue(Continue(s, first), more)
    decreases |more|
  {
    if more == [] {
      assert first + more == first;
    } else {
      assert (first + more)[..|first + more| - 1] == first + more[..|more| - 1];
      ContinueConcat(s, first, more[..|more| - 1]);
    }
  }

  lemma Chain(s: System, first: seq<Action>, mid: System, more: seq<Action>, end: System)
    requires Continue(s, first) == mid && Continue(mid, more) == end
    ensures Continue(s, first + more) == end
  {
    ContinueConcat(s, first, more);
  }

  function Numbers(first: nat, count: nat): seq<nat> {
    if count == 0 then [] else Numbers(first, count - 1) + [first + count - 1]
  }

  /** Undisturbed calls return every number of the block, one after the other. */
  lemma {:induction false} BlockIsUsedUp(s: System, t: nat, calls: nat)
    requires t < |s.threads| && s.threads[t] == Idle && s.next + calls <= s.end
    ensures Continue(s, Repeat(t, calls)) == s.(next := s.next + calls, issued := s.issued + Numbers(s.next, calls))
  {
    if calls == 0 {
      assert s.issued + Numbers(s.next, 0) == s.issued;
    } else {
      BlockIsUsedUp(s, t, calls - 1);
      var before, last := Numbers(s.next, calls - 1), s.next + calls - 1;
      var mid := s.(next := last, issued := s.issued + before);
      var end := s.(next := s.next + calls, issued := s.issued + Numbers(s.next, calls));
      OneMore(s, mid, end, t, before, last);
      Chain(s, Repeat(t, calls - 1), mid, Generate(t), end);
    }
  }

  lemma OneMore(s: System, mid: System, end: System, t: nat, before: seq<nat>, last: nat)
    requires t < |s.threads| && s.threads[t] == Idle && last < s.end
    requires mid == s.(next := last, issued := s.issued + before)
    requires end == s.(next := last + 1, issued := s.issued + (before + [last]))
    ensures Continue(mid, Generate(t)) == end
  {
    GenerateReturnsNext(mid, t);
    assert (s.issued + before) + [last] == s.issued + (before + [last]);
  }

  function Rotation(t: nat, skipped: nat): seq<Action> {
    [Rotate(t), Acquire(t, skipped), StoreNext(t), StoreEnd(t), EndRotation(t)]
  }

  /** What a rotation that nobody disturbs installs; block numbers that are used up install nothing. */
  function Rotated(s: System, block: nat): System {
    if block > MAX_BLOCK_NO then s.(highest := block)
    else s.(next := BlockStart(block), end := BlockEnd(block), nextBlock := block, endBlock := block,
            highest := block, acquired := s.acquired + [block])
  }

  /** A used-up generator that nobody disturbs moves to a newer block, unless block numbers are used up. */
  lemma RotationInstallsBlock(s: System, t: nat, skipped: nat)
    requires t < |s.threads| && s.threads[t] == Idle && s.next >= s.end && !s.rotating
    ensures Continue(s, Generate(t) + Rotation(t, skipped)) == Rotated(s, s.highest + 1 + skipped)
  {
    UsedUpWantsRotation(s, t);
    RotationFrom(s, t, skipped);
    Chain(s, Generate(t), Goto(s, t, WantsRotation), Rotation(t, skipped), Rotated(s, s.highest + 1 + skipped));
  }

  lemma RotationFrom(s: System, t: nat, skipped: nat)
    requires t < |s.threads| && s.threads[t] == Idle && !s.rotating
    ensures Continue(Goto(s, t, WantsRotation), Rotation(t, skipped)) == Rotated(s, s.highest + 1 + skipped)
  {
    RotationIs(Goto(s, t, WantsRotation), t, skipped);
    BackToIdle(s, t, s.highest + 1 + skipped);
  }

  lemma UsedUpWantsRotation(s: System, t: nat)
    requires t < |s.threads| && s.threads[t] == Idle && s.next >= s.end
    ensures Continue(s, Generate(t)) == Goto(s, t, WantsRotation)
  {
    GenerateIs(s, t);
    assert s.threads[t := BothLoaded(s.next, s.end)][t := WantsRotation] == s.threads[t := WantsRotation];
  }

  lemma BackToIdle(s: System, t: nat, block: nat)
    requires t < |s.threads| && s.threads[t] == Idle
    ensures Goto(Rotated(Goto(s, t, WantsRotation), block), t, Idle) == Rotated(s, block)
  {
    assert s.threads[t := WantsRotation][t := Idle] == s.threads;
  }

  lemma RotationIs(s: System, t: nat, skipped: nat)
    requires t < |s.threads| && s.threads[t] == WantsRotation && !s.rotating
    ensures Continue(s, Rotation(t, skipped)) == Goto(Rotated(s, s.highest + 1 + skipped), t, Idle)
  {
    var r := Rotation(t, skipped);
    ContinueAppends(s, [], r[0]);
    ContinueAppends(s, [] + [r[0]], r[1]);
    ContinueAppends(s, [] + [r[0]] + [r[1]], r[2]);
    ContinueAppends(s, [] + [r[0]] + [r[1]] + [r[2]], r[3]);
    ContinueAppends(s, [] + [r[0]] + [r[1]] + [r[2]] + [r[3]], r[4]);
    assert [] + [r[0]] + [r[1]] + [r[2]] + [r[3]] + [r[4]] == r;
    var one := Step(s, r[0]);
    var two := Step(one, r[1]);
    RotationStores(s, t, one, two, skipped);
  }

  lemma RotationStores(s: System, t: nat, one: System, two: System, skipped: nat)
    requires t < |s.threads| && s.threads[t] == WantsRotation && !s.rotating
    requires one == Step(s, Rotate(t)) && two == Step(one, Acquire(t, skipped))
    ensures Step(Step(Step(two, StoreNext(t)), StoreEnd(t)), EndRotation(t))
         == Goto(Rotated(s, s.highest + 1 + skipped), t, Idle)
  {
    var block := s.highest + 1 + skipped;
    assert one == Goto(s.(rotating := true), t, HasRotation);
    if block > MAX_BLOCK_NO {
      assert two == Goto(s.(rotating := true, highest := block), t, EndsRotation);
    } else {
      assert two == Goto(s.(rotating := true, highest := block, acquired := s.acquired + [block]), t, GotBlock(block));
    }
  }

  lemma BlocksDisjoint(a: nat, b: nat, id: nat)
    requires InBlock(id, a) && InBlock(id, b)
    ensures a == b
  {
    if a < b {
      BlocksInOrder(a, b);
    } else if b < a {
      BlocksInOrder(b, a);
    }
  }

  /** Two generators that never acquire the same block never return the same number. */
  lemma GeneratorsDisjoint(block: nat, threads: nat, actions: seq<Action>, block': nat, threads': nat,
                           actions': seq<Action>,
                           i: nat, j: nat)
    requires block <= MAX_BLOCK_NO && block' <= MAX_BLOCK_NO
    requires i < |Run(block, threads, actions).issued| && j < |Run(block', threads', actions').issued|
    requires forall b | b in Run(block, threads, actions).acquired :: b !in Run(block', threads', actions').acquired
    ensures Run(block, threads, actions).issued[i] != Run(block', threads', actions').issued[j]
  {
    var s, s' := Run(block, threads, actions), Run(block', threads', actions');
    IssuedAreFresh(block, threads, actions);
    IssuedAreFresh(block', threads', actions');
    assert Issuable(s, s.issued[i]) && Issuable(s', s'.issued[j]);
    var a :| a in s.acquired && InBlock(s.issued[i], a);
    var b :| b in s'.acquired && InBlock(s'.issued[j], b);
    if s.issued[i] == s'.issued[j] {
      BlocksDisjoint(a, b, s.issued[i]);
      assert false;
    }
  }

  // ---------------------------------------------------------------- entity IDs

  /** `[sign 0][remote 1][unique 52][kind 8][category 2]` in a positive 64-bit integer. */
  function MakeEntityId(unique: nat, kind: nat, category: nat, remote: bool): nat {
    (if remote then 0x4000_0000_0000_0000 else 0)
    + unique % 0x10_0000_0000_0000 * 0x400 + kind % 0x100 * 4 + category % 4
  }

  function UniqueOf(id: nat): nat {
    id / 0x400 % 0x10_0000_0000_0000
  }

  function KindOf(id: nat): nat {
    id / 4 % 0x100
  }

  predicate RemoteOf(id: nat) {
    id / 0x4000_0000_0000_0000 % 2 == 1
  }

  /** Every part of an entity ID reads back, and the ID is a positive 64-bit integer. */
  lemma EntityIdRoundTrip(unique: nat, kind: nat, category: nat, remote: bool)
    requires 0 < unique < 0x10_0000_0000_0000 && kind < 0x100
    ensures var id := MakeEntityId(unique, kind, category, remote);
            && UniqueOf(id) == unique && KindOf(id) == kind && RemoteOf(id) == remote && id % 4 == category % 4
            && 0 < id < 0x8000_0000_0000_0000
  {
    var id := MakeEntityId(unique, kind, category, remote);
    var low := kind * 4 + category % 4;
    assert id / 4 == (if remote then 0x1000_0000_0000_0000 else 0) + unique * 0x100 + kind;
    assert id / 0x400 == (if remote then 0x10_0000_0000_0000 else 0) + unique;
  }
}
