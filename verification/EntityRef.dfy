/**
 The reference word of an entity (`EntityBase.tryTouch`) under concurrent Touch, UnTouch,
 SetRemoved and ClearBase, interleaved at every single load and compare-and-swap.
 */
module EntityRef {

  // ---------------------------------------------------------------- the packed word

  /** A signed 32-bit word: bits 0-29 the count, bit 30 removed, bit 31 (the sign) cleared. */
  type Word = int

  const REMOVED_BIT := 0x4000_0000
  const CLEARED_BIT := 0x8000_0000

  predicate IsWord(w: Word) {
    0 - CLEARED_BIT <= w < CLEARED_BIT
  }

  function Cnt(w: Word): nat {
    w % REMOVED_BIT
  }

  predicate Removed(w: Word) {
    w / REMOVED_BIT % 2 == 1
  }

  predicate Cleared(w: Word) {
    w < 0
  }

  function WithRemoved(w: Word): Word {
    if Removed(w) then w else w + REMOVED_BIT
  }

  function WithCleared(w: Word): Word {
    if Cleared(w) then w else w - CLEARED_BIT
  }

  /** Setting a bit leaves the other bit and the count alone, and stays within 32 bits. */
  lemma SetBits(w: Word)
    requires IsWord(w)
    ensures IsWord(WithRemoved(w)) && Cnt(WithRemoved(w)) == Cnt(w) && Removed(WithRemoved(w))
        && Cleared(WithRemoved(w)) == Cleared(w)
    ensures IsWord(WithCleared(w)) && Cnt(WithCleared(w)) == Cnt(w) && Removed(WithCleared(w)) == Removed(w)
        && Cleared(WithCleared(w))
  {
  }

  /** Counting never carries into the flag bits. */
  lemma CountUpDown(w: Word)
    requires IsWord(w)
    ensures Cnt(w) < REMOVED_BIT - 1 ==>
      IsWord(w + 1) && Cnt(w + 1) == Cnt(w) + 1 && Removed(w + 1) == Removed(w) && Cleared(w + 1) == Cleared(w)
    ensures Cnt(w) > 0 ==>
      IsWord(w - 1) && Cnt(w - 1) == Cnt(w) - 1 && Removed(w - 1) == Removed(w) && Cleared(w - 1) == Cleared(w)
  {
  }

  // ---------------------------------------------------------------- threads

  /** `Finishing` is the second loop of UnTouch, which clears after the last release. */
  datatype Op = Touch | UnTouch | Remove | Clear | Finishing

  datatype Pc = Ready | Loading(op: Op) | Loaded(op: Op, seen: Word) | Cleaning

  /** A thread and the number of its successful touches not yet released. */
  datatype Thread = Thread(refs: nat, pc: Pc)

  /**
   `clears` counts finished clean-ups. `removedInUse` records that the entity was removed while
   references existed, `clearAsked` that a ClearBase has finished after the removal.
   */
  datatype System = System(word: Word, threads: seq<Thread>, clears: nat, removedInUse: bool, clearAsked: bool)

  datatype Action = Start(t: nat, op: Op) | Load(t: nat) | Cas(t: nat) | Clean(t: nat)

  function SetThread(s: System, t: nat, thread: Thread): System
    requires t < |s.threads|
  {
    s.(threads := s.threads[t := thread])
  }

  /** What a thread does with the word it loaded: give up, or swap if nobody else did. */
  function Swap(s: System, t: nat): System
    requires t < |s.threads| && s.threads[t].pc.Loaded?
  {
    var thread := s.threads[t];
    var old_, op := thread.pc.seen, thread.pc.op;
    var ready, retry := thread.(pc := Ready), thread.(pc := Loading(op));
    match op
    case Touch =>
      if Removed(old_) || Cleared(old_) || Cnt(old_) == REMOVED_BIT - 1 then SetThread(s, t, ready)
      else if s.word != old_ then SetThread(s, t, retry)
      else SetThread(s.(word := old_ + 1), t, Thread(thread.refs + 1, Ready))
    case UnTouch =>
      if Cnt(old_) == 0 || thread.refs == 0 then SetThread(s, t, ready)
      else if s.word != old_ then SetThread(s, t, retry)
      else
        var next := old_ - 1;
        SetThread(s.(word := next), t,
                  Thread(thread.refs - 1, if Removed(next) && Cnt(next) == 0 then Loading(Finishing) else Ready))
    case Remove =>
      if s.word != old_ then SetThread(s, t, retry)
      else SetThread(s.(word := WithRemoved(old_), removedInUse := s.removedInUse || Cnt(old_) > 0), t, ready)
    case Clear =>
      var asked := s.(clearAsked := s.clearAsked || Removed(old_));
      if Cleared(old_) || Cnt(old_) != 0 then SetThread(asked, t, ready)
      else if s.word != old_ then SetThread(s, t, retry)
      else SetThread(asked.(word := WithCleared(old_)), t, thread.(pc := Cleaning))
    case Finishing =>
      if Cleared(old_) then SetThread(s, t, ready)
      else if s.word != old_ then SetThread(s, t, retry)
      else SetThread(s.(word := WithCleared(old_)), t, thread.(pc := Cleaning))
  }

  /** One step; UnTouch is only called by a thread that holds a reference. */
  function Step(s: System, a: Action): System {
    if a.t >= |s.threads| then s
    else
      var thread := s.threads[a.t];
      match a
      case Start(t, op) =>
        if thread.pc == Ready && op != Finishing && (op == UnTouch ==> thread.refs > 0)
        then SetThread(s, t, thread.(pc := Loading(op))) else s
      case Load(t) =>
        if thread.pc.Loading? then SetThread(s, t, thread.(pc := Loaded(thread.pc.op, s.word))) else s
      case Cas(t) => if thread.pc.Loaded? then Swap(s, t) else s
      case Clean(t) =>
        if thread.pc == Cleaning then SetThread(s.(clears := s.clears + 1), t, thread.(pc := Ready)) else s
  }

  function Initial(threads: nat): System {
    System(0, seq(threads, _ => Thread(0, Ready)), 0, false, false)
  }

  function Run(threads: nat, actions: seq<Action>): System {
    if actions == [] then Initial(threads) else Step(Run(threads, actions[..|actions| - 1]), actions[|actions| - 1])
  }

  // ---------------------------------------------------------------- sums over threads

  function TotalRefs(threads: seq<Thread>): nat {
    if threads == [] then 0 else threads[0].refs + TotalRefs(threads[1..])
  }

  function CleaningCount(threads: seq<Thread>): nat {
    if threads == [] then 0 else (if threads[0].pc == Cleaning then 1 else 0) + CleaningCount(threads[1..])
  }

  lemma {:induction false} SumsUpdate(threads: seq<Thread>, t: nat, thread: Thread)
    requires t < |threads|
    ensures TotalRefs(threads[t := thread]) == TotalRefs(threads) - threads[t].refs + thread.refs
    ensures threads[t].refs <= TotalRefs(threads)
    ensures CleaningCount(threads[t := thread])
         == CleaningCount(threads)
            - (if threads[t].pc == Cleaning then 1 else 0) + if thread.pc == Cleaning then 1 else 0
  {
    if t > 0 {
      assert threads[t := thread][1..] == threads[1..][t - 1 := thread];
      SumsUpdate(threads[1..], t - 1, thread);
    }
  }

  lemma {:induction false} SumsInitial(n: nat)
    ensures TotalRefs(Initial(n).threads) == 0 && CleaningCount(Initial(n).threads) == 0
    decreases n
  {
    if n > 0 {
      assert Initial(n).threads[1..] == Initial(n - 1).threads;
      SumsInitial(n - 1);
    }
  }

  // ---------------------------------------------------------------- the invariant

  predicate IsFinishing(thread: Thread) {
    (thread.pc.Loading? || thread.pc.Loaded?) && thread.pc.op == Finishing
  }

  ghost predicate SomeoneFinishing(s: System) {
    exists t | 0 <= t < |s.threads| :: IsFinishing(s.threads[t])
  }

  /** What a loaded word still tells about the current one. */
  ghost predicate SeenOk(s: System, thread: Thread) {
    thread.pc.Loaded? ==>
      var seen := thread.pc.seen;
      && IsWord(seen)
      && (Removed(seen) ==> Removed(s.word))
      && (Cleared(seen) ==> Cleared(s.word))
      && (thread.pc.op == Clear && Removed(seen) && Cnt(seen) > 0 ==> s.removedInUse)
      && (thread.pc.op == UnTouch && thread.refs > 0 ==> Cnt(seen) > 0)
  }

  ghost predicate Inv(s: System) {
    && IsWord(s.word)
    && Cnt(s.word) == TotalRefs(s.threads)
    && (Cleared(s.word) ==> Cnt(s.word) == 0)
    && s.clears + CleaningCount(s.threads) == (if Cleared(s.word) then 1 else 0)
    && (s.removedInUse || s.clearAsked ==> Removed(s.word))
    && (Removed(s.word) && Cnt(s.word) > 0 ==> s.removedInUse)
    && (s.removedInUse || s.clearAsked ==> Cleared(s.word) || Cnt(s.word) > 0 || SomeoneFinishing(s))
    && (forall t | 0 <= t < |s.threads| :: SeenOk(s, s.threads[t]))
    && (forall t | 0 <= t < |s.threads| && IsFinishing(s.threads[t]) :: Removed(s.word) && Cnt(s.word) == 0)
    && (forall t | 0 <= t < |s.threads| ::
          var pc := s.threads[t].pc;
          (pc.Loading? || pc.Loaded?) && pc.op == UnTouch ==> s.threads[t].refs > 0)
  }

  /** A step of one thread that leaves the word alone. */
  lemma PcChangeKeeps(s: System, t: nat, pc: Pc)
    requires Inv(s) && t < |s.threads| && s.threads[t].pc != Cleaning && pc != Cleaning
    requires IsFinishing(s.threads[t]) ==> Cleared(s.word) || ((pc.Loading? || pc.Loaded?) && pc.op == Finishing)
    requires (pc.Loading? || pc.Loaded?) && pc.op == Finishing ==> IsFinishing(s.threads[t])
    requires (pc.Loading? || pc.Loaded?) && pc.op == UnTouch ==> s.threads[t].refs > 0
    requires SeenOk(s, s.threads[t].(pc := pc))
    ensures Inv(SetThread(s, t, s.threads[t].(pc := pc)))
  {
    var s' := SetThread(s, t, s.threads[t].(pc := pc));
    SumsUpdate(s.threads, t, s.threads[t].(pc := pc));
    if SomeoneFinishing(s) && !Cleared(s.word) {
      var f :| 0 <= f < |s.threads| && IsFinishing(s.threads[f]);
      assert IsFinishing(s'.threads[f]);
    }
  }

  lemma TouchKeeps(s: System, t: nat)
    requires Inv(s) && t < |s.threads| && s.threads[t].pc.Loaded? && s.threads[t].pc.op == Touch
    ensures Inv(Swap(s, t))
  {
    var thread, seen := s.threads[t], s.threads[t].pc.seen;
    if Removed(seen) || Cleared(seen) || Cnt(seen) == REMOVED_BIT - 1 {
      PcChangeKeeps(s, t, Ready);
    } else if s.word != seen {
      PcChangeKeeps(s, t, Loading(Touch));
    } else {
      CountUpDown(seen);
      SumsUpdate(s.threads, t, Thread(thread.refs + 1, Ready));
    }
  }

  lemma UnTouchKeeps(s: System, t: nat)
    requires Inv(s) && t < |s.threads| && s.threads[t].pc.Loaded? && s.threads[t].pc.op == UnTouch
    ensures Inv(Swap(s, t))
  {
    var thread, seen := s.threads[t], s.threads[t].pc.seen;
    assert SeenOk(s, thread);
    if s.word != seen {
      PcChangeKeeps(s, t, Loading(UnTouch));
    } else {
      CountUpDown(seen);
      var s' := Swap(s, t);
      SumsUpdate(s.threads, t, s'.threads[t]);
      if Removed(s'.word) && Cnt(s'.word) == 0 {
        assert IsFinishing(s'.threads[t]);
      }
    }
  }

  lemma RemoveKeeps(s: System, t: nat)
    requires Inv(s) && t < |s.threads| && s.threads[t].pc.Loaded? && s.threads[t].pc.op == Remove
    ensures Inv(Swap(s, t))
  {
    var thread, seen := s.threads[t], s.threads[t].pc.seen;
    if s.word != seen {
      PcChangeKeeps(s, t, Loading(Remove));
    } else {
      SetBits(seen);
      PcChangeKeeps(s, t, Ready);
      var s' := Swap(s, t);
      if s.removedInUse || s.clearAsked {
        assert s'.word == s.word;
      }
    }
  }

  /** Setting the cleared bit, from ClearBase or from the last UnTouch. */
  lemma ClearedKeeps(s: System, t: nat)
    requires Inv(s) && t < |s.threads| && s.threads[t].pc.Loaded? && s.threads[t].pc.seen == s.word
    requires s.threads[t].pc.op == Clear || s.threads[t].pc.op == Finishing
    requires !Cleared(s.word) && Cnt(s.word) == 0
    ensures Inv(Swap(s, t))
  {
    SetBits(s.word);
    SumsUpdate(s.threads, t, s.threads[t].(pc := Cleaning));
  }

  lemma ClearKeeps(s: System, t: nat)
    requires Inv(s) && t < |s.threads| && s.threads[t].pc.Loaded? && s.threads[t].pc.op == Clear
    ensures Inv(Swap(s, t))
  {
    var thread, seen := s.threads[t], s.threads[t].pc.seen;
    assert SeenOk(s, thread);
    if Cleared(seen) || Cnt(seen) != 0 {
      PcChangeKeeps(s, t, Ready);
      var ready := SetThread(s, t, thread.(pc := Ready));
      var s' := Swap(s, t);
      assert s' == ready.(clearAsked := s'.clearAsked);
      assert SomeoneFinishing(ready) == SomeoneFinishing(s');
    } else if s.word != seen {
      PcChangeKeeps(s, t, Loading(Clear));
    } else {
      ClearedKeeps(s, t);
    }
  }

  lemma FinishingKeeps(s: System, t: nat)
    requires Inv(s) && t < |s.threads| && s.threads[t].pc.Loaded? && s.threads[t].pc.op == Finishing
    ensures Inv(Swap(s, t))
  {
    var thread, seen := s.threads[t], s.threads[t].pc.seen;
    assert SeenOk(s, thread) && IsFinishing(thread);
    if Cleared(seen) {
      PcChangeKeeps(s, t, Ready);
    } else if s.word != seen {
      PcChangeKeeps(s, t, Loading(Finishing));
    } else {
      ClearedKeeps(s, t);
    }
  }

  lemma StepKeepsInv(s: System, a: Action)
    requires Inv(s)
    ensures Inv(Step(s, a))
  {
    if a.t < |s.threads| {
      var thread := s.threads[a.t];
      match a
      case Start(t, op) =>
        if thread.pc == Ready && op != Finishing && (op == UnTouch ==> thread.refs > 0) {
          PcChangeKeeps(s, t, Loading(op));
        }
      case Load(t) =>
        if thread.pc.Loading? {
          SumsUpdate(s.threads, t, thread);
          PcChangeKeeps(s, t, Loaded(thread.pc.op, s.word));
        }
      case Cas(t) =>
        if thread.pc.Loaded? {
          match thread.pc.op
          case Touch => TouchKeeps(s, t);
          case UnTouch => UnTouchKeeps(s, t);
          case Remove => RemoveKeeps(s, t);
          case Clear => ClearKeeps(s, t);
          case Finishing => FinishingKeeps(s, t);
        }
      case Clean(t) =>
        if thread.pc == Cleaning {
          SumsUpdate(s.threads, t, thread);
          SumsUpdate(s.threads, t, thread.(pc := Ready));
        }
    }
  }

  lemma InitialInv(threads: nat)
    ensures Inv(Initial(threads))
  {
    SumsInitial(threads);
    assert Cnt(0) == 0;
  }

  lemma StepKeepsLength(s: System, a: Action)
    ensures |Step(s, a).threads| == |s.threads|
  {
  }

  lemma {:induction false} RunKeepsInv(threads: nat, actions: seq<Action>)
    ensures Inv(Run(threads, actions)) && |Run(threads, actions).threads| == threads
  {
    if actions == [] {
      InitialInv(threads);
    } else {
      RunKeepsInv(threads, actions[..|actions| - 1]);
      StepKeepsLength(Run(threads, actions[..|actions| - 1]), actions[|actions| - 1]);
      StepKeepsInv(Run(threads, actions[..|actions| - 1]), actions[|actions| - 1]);
    }
  }

  // ---------------------------------------------------------------- what every interleaving keeps

  /** The clean-up starts at most once, and only while no reference is left anywhere. */
  lemma ClearsOnceAndUnused(threads: nat, actions: seq<Action>)
    ensures var s := Run(threads, actions);
            && s.clears + CleaningCount(s.threads) <= 1
            && (s.clears + CleaningCount(s.threads) == 1 ==> Cleared(s.word) && TotalRefs(s.threads) == 0)
  {
    RunKeepsInv(threads, actions);
  }

  /** No thread holds more references than it did. */
  predicate NoneGained(before: seq<Thread>, after: seq<Thread>) {
    |after| == |before| && forall t | 0 <= t < |before| :: after[t].refs <= before[t].refs
  }

  /** Once the entity is removed or cleared, no reference is ever gained and the bits stay. */
  lemma {:induction false} NoTouchAfterwards(s: System, actions: seq<Action>)
    requires Inv(s) && (Removed(s.word) || Cleared(s.word))
    ensures var s' := Continue(s, actions);
            && Inv(s') && (Removed(s.word) ==> Removed(s'.word)) && (Cleared(s.word) ==> Cleared(s'.word))
            && TotalRefs(s'.threads) <= TotalRefs(s.threads)
            && NoneGained(s.threads, s'.threads)
    decreases |actions|
  {
    if actions != [] {
      var front, a := actions[..|actions| - 1], actions[|actions| - 1];
      NoTouchAfterwards(s, front);
      var before := Continue(s, front);
      StepKeepsInv(before, a);
      StepAfterRemoval(before, a);
      StepGainsNothing(before, a);
    }
  }

  lemma StepAfterRemoval(s: System, a: Action)
    requires Inv(s) && (Removed(s.word) || Cleared(s.word))
    ensures var s' := Step(s, a);
            && (Removed(s.word) ==> Removed(s'.word)) && (Cleared(s.word) ==> Cleared(s'.word))
            && Cnt(s'.word) <= Cnt(s.word)
  {
    if a.Cas? && a.t < |s.threads| && s.threads[a.t].pc.Loaded? {
      assert SeenOk(s, s.threads[a.t]);
      SetBits(s.word);
      CountUpDown(s.word);
    }
  }

  lemma StepGainsNothing(s: System, a: Action)
    requires a.t < |s.threads| ==> SeenOk(s, s.threads[a.t])
    requires Removed(s.word) || Cleared(s.word)
    ensures NoneGained(s.threads, Step(s, a).threads)
  {
    if a.t < |s.threads| {
      assert Step(s, a).threads == s.threads[a.t := Step(s, a).threads[a.t]];
      assert Step(s, a).threads[a.t].refs <= s.threads[a.t].refs;
    }
  }

  function Continue(s: System, actions: seq<Action>): System {
    if actions == [] then s else Step(Continue(s, actions[..|actions| - 1]), actions[|actions| - 1])
  }

  /**
   The last UnTouch after a removal leaves the entity cleared: when nobody is inside an operation
   and nobody holds a reference, an entity that was removed in use, or on which ClearBase finished
   after the removal, has been cleaned exactly once.
   */
  lemma LastReleaseClears(threads: nat, actions: seq<Action>)
    requires var s := Run(threads, actions);
             && (s.removedInUse || s.clearAsked)
             && TotalRefs(s.threads) == 0
             && forall t | 0 <= t < |s.threads| :: s.threads[t].pc == Ready
    ensures Cleared(Run(threads, actions).word) && Run(threads, actions).clears == 1
  {
    RunKeepsInv(threads, actions);
    ReadyNotCleaning(Run(threads, actions).threads);
  }

  lemma {:induction false} ReadyNotCleaning(threads: seq<Thread>)
    requires forall t | 0 <= t < |threads| :: threads[t].pc == Ready
    ensures CleaningCount(threads) == 0
  {
    if threads != [] {
      ReadyNotCleaning(threads[1..]);
    }
  }

  /** The underflow panic is unreachable: a releasing thread always loads a positive count. */
  lemma NoUnderflow(threads: nat, actions: seq<Action>, t: nat)
    requires t < threads
    ensures var s := Run(threads, actions);
            && t < |s.threads|
            && (s.threads[t].pc.Loaded? && s.threads[t].pc.op == UnTouch ==> Cnt(s.threads[t].pc.seen) > 0)
  {
    RunKeepsInv(threads, actions);
    assert SeenOk(Run(threads, actions), Run(threads, actions).threads[t]);
  }

  // ---------------------------------------------------------------- what each operation achieves

  predicate Inside(s: System, t: nat, op: Op) {
    t < |s.threads| && (s.threads[t].pc.Loading? || s.threads[t].pc.Loaded?) && s.threads[t].pc.op == op
  }

  /** The action is the last one of its thread's call of `op`. */
  predicate Returns(s: System, a: Action, op: Op) {
    Inside(s, a.t, op) && a.t < |Step(s, a).threads| && Step(s, a).threads[a.t].pc == Ready
  }

  /** When SetRemoved returns the entity is removed and its references are as before. */
  lemma RemoveReturns(s: System, a: Action)
    requires Inv(s) && Returns(s, a, Remove)
    ensures var s' := Step(s, a);
            && Removed(s'.word) && Cnt(s'.word) == Cnt(s.word) && Cleared(s'.word) == Cleared(s.word)
            && s'.threads == s.threads[a.t := Thread(s.threads[a.t].refs, Ready)]
            && (Cnt(s.word) > 0 ==> s'.removedInUse)
  {
    SetBits(s.word);
  }

  /** Removed, cleared, or with a full count. */
  predicate Ungainable(w: Word) {
    Removed(w) || Cleared(w) || Cnt(w) == 0x3FFF_FFFF
  }

  /** A returning Touch either gained one reference of a live entity, or changed nothing because it saw none to gain. */
  lemma TouchReturns(s: System, a: Action)
    requires Inv(s) && Returns(s, a, Touch)
    ensures var s', gained := Step(s, a), Step(s, a).threads[a.t].refs != s.threads[a.t].refs;
            if gained
            then s'.threads[a.t].refs == s.threads[a.t].refs + 1 && Cnt(s'.word) == Cnt(s.word) + 1
                 && !Removed(s'.word) && !Cleared(s'.word)
            else s'.word == s.word && s.threads[a.t].pc.Loaded? && Ungainable(s.threads[a.t].pc.seen)
  {
    CountUpDown(s.word);
  }

  /** A returning UnTouch gave exactly one reference back; the last one after a removal stays to clear. */
  lemma UnTouchReturns(s: System, t: nat)
    requires Inv(s) && Inside(s, t, UnTouch) && !Inside(Step(s, Cas(t)), t, UnTouch)
    ensures var s' := Step(s, Cas(t));
            && s'.threads[t].refs == s.threads[t].refs - 1 && Cnt(s'.word) == Cnt(s.word) - 1
            && Removed(s'.word) == Removed(s.word) && Cleared(s'.word) == Cleared(s.word)
            && (if Removed(s.word) && Cnt(s.word) == 1 then IsFinishing(s'.threads[t]) else s'.threads[t].pc == Ready)
  {
    assert SeenOk(s, s.threads[t]);
    CountUpDown(s.word);
  }

  /** One call with nobody else in between: it starts, loads once and swaps once. */
  function Alone(t: nat, op: Op): seq<Action> {
    [Start(t, op), Load(t), Cas(t)]
  }

  /** The thread has loaded the current word and is about to swap. */
  function AboutToSwap(s: System, t: nat, op: Op): System
    requires t < |s.threads|
  {
    SetThread(s, t, Thread(s.threads[t].refs, Loaded(op, s.word)))
  }

  lemma ContinueAppends(s: System, actions: seq<Action>, a: Action)
    ensures Continue(s, actions + [a]) == Step(Continue(s, actions), a)
  {
    assert (actions + [a])[..|actions|] == actions;
  }

  predicate MayStart(s: System, t: nat, op: Op) {
    t < |s.threads| && s.threads[t].pc == Ready && op != Finishing && (op == UnTouch ==> s.threads[t].refs > 0)
  }

  lemma StartsAndLoads(s: System, t: nat, op: Op)
    requires MayStart(s, t, op)
    ensures Step(Step(s, Start(t, op)), Load(t)) == AboutToSwap(s, t, op)
  {
    var refs := s.threads[t].refs;
    assert Step(s, Start(t, op)) == SetThread(s, t, Thread(refs, Loading(op)));
    assert s.threads[t := Thread(refs, Loading(op))][t := Thread(refs, Loaded(op, s.word))]
        == s.threads[t := Thread(refs, Loaded(op, s.word))];
  }

  lemma AloneSteps(s: System, t: nat, op: Op)
    ensures Continue(s, Alone(t, op)) == Step(Step(Step(s, Start(t, op)), Load(t)), Cas(t))
  {
    ContinueAppends(s, [], Start(t, op));
    assert [] + [Start(t, op)] == [Start(t, op)];
    ContinueAppends(s, [Start(t, op)], Load(t));
    assert [Start(t, op)] + [Load(t)] == [Start(t, op), Load(t)];
    ContinueAppends(s, [Start(t, op), Load(t)], Cas(t));
    assert [Start(t, op), Load(t)] + [Cas(t)] == Alone(t, op);
  }

  lemma AloneIs(s: System, t: nat, op: Op)
    requires MayStart(s, t, op)
    ensures Continue(s, Alone(t, op)) == Swap(AboutToSwap(s, t, op), t)
  {
    AloneSteps(s, t, op);
    StartsAndLoads(s, t, op);
  }

  lemma LoadedOverwritten(s: System, t: nat, op: Op, thread: Thread)
    requires t < |s.threads|
    ensures AboutToSwap(s, t, op).threads[t := thread] == s.threads[t := thread]
    ensures thread == s.threads[t] ==> s.threads[t := thread] == s.threads
  {
  }

  /** Uncontended, Touch gains a reference exactly when the entity is live and the count is not full. */
  lemma TouchAlone(s: System, t: nat)
    requires IsWord(s.word) && MayStart(s, t, Touch)
    ensures var s', refs := Continue(s, Alone(t, Touch)), s.threads[t].refs;
            if !Ungainable(s.word)
            then s'.threads == s.threads[t := Thread(refs + 1, Ready)] && Cnt(s'.word) == Cnt(s.word) + 1
                 && !Removed(s'.word) && !Cleared(s'.word)
            else s'.threads == s.threads && s'.word == s.word
  {
    AloneIs(s, t, Touch);
    if Ungainable(s.word) {
      LoadedOverwritten(s, t, Touch, s.threads[t]);
    } else {
      TouchSwaps(s, t);
    }
  }

  lemma TouchSwaps(s: System, t: nat)
    requires IsWord(s.word) && t < |s.threads| && !Ungainable(s.word)
    ensures var s' := Swap(AboutToSwap(s, t, Touch), t);
            && s'.threads == s.threads[t := Thread(s.threads[t].refs + 1, Ready)]
            && Cnt(s'.word) == Cnt(s.word) + 1 && !Removed(s'.word) && !Cleared(s'.word)
  {
    CountUpDown(s.word);
    LoadedOverwritten(s, t, Touch, Thread(s.threads[t].refs + 1, Ready));
  }

  lemma RemoveAlone(s: System, t: nat)
    requires IsWord(s.word) && MayStart(s, t, Remove)
    ensures var s' := Continue(s, Alone(t, Remove));
            Removed(s'.word) && s'.threads == s.threads && Cnt(s'.word) == Cnt(s.word)
  {
    AloneIs(s, t, Remove);
    SetBits(s.word);
    LoadedOverwritten(s, t, Remove, s.threads[t]);
  }

  /** Uncontended, UnTouch gives the reference back; only the last one of a removed entity goes on to clear it. */
  lemma UnTouchAlone(s: System, t: nat)
    requires IsWord(s.word) && MayStart(s, t, UnTouch) && Cnt(s.word) == TotalRefs(s.threads)
    ensures var s' := Continue(s, Alone(t, UnTouch));
            var last := Removed(s.word) && Cnt(s.word) == 1;
            && Cnt(s'.word) == Cnt(s.word) - 1 && Removed(s'.word) == Removed(s.word)
            && s'.threads == s.threads[t := Thread(s.threads[t].refs - 1, if last then Loading(Finishing) else Ready)]
  {
    AloneIs(s, t, UnTouch);
    SumsUpdate(s.threads, t, s.threads[t]);
    UnTouchSwaps(s, t);
  }

  lemma UnTouchSwaps(s: System, t: nat)
    requires IsWord(s.word) && t < |s.threads| && s.threads[t].refs > 0 && Cnt(s.word) > 0
    ensures var s', last := Swap(AboutToSwap(s, t, UnTouch), t), Removed(s.word) && Cnt(s.word) == 1;
            && Cnt(s'.word) == Cnt(s.word) - 1 && Removed(s'.word) == Removed(s.word)
            && s'.threads == s.threads[t := Thread(s.threads[t].refs - 1, if last then Loading(Finishing) else Ready)]
  {
    CountUpDown(s.word);
    LoadedOverwritten(s, t, UnTouch, Thread(s.threads[t].refs - 1, Ready));
    LoadedOverwritten(s, t, UnTouch, Thread(s.threads[t].refs - 1, Loading(Finishing)));
  }

  /** Uncontended, ClearBase clears exactly an unused entity that was not cleared before. */
  lemma ClearAlone(s: System, t: nat)
    requires IsWord(s.word) && MayStart(s, t, Clear)
    ensures var s' := Continue(s, Alone(t, Clear));
            if Cnt(s.word) == 0 && !Cleared(s.word)
            then Cleared(s'.word) && s'.threads == s.threads[t := Thread(s.threads[t].refs, Cleaning)]
            else s'.word == s.word && s'.threads == s.threads
  {
    AloneIs(s, t, Clear);
    SetBits(s.word);
    LoadedOverwritten(s, t, Clear, s.threads[t]);
    LoadedOverwritten(s, t, Clear, Thread(s.threads[t].refs, Cleaning));
  }

  // ---------------------------------------------------------------- removal over whole runs

  lemma {:induction false} RunContinues(threads: nat, before: seq<Action>, after: seq<Action>)
    ensures Run(threads, before + after) == Continue(Run(threads, before), after)
    decreases |after|
  {
    if after == [] {
      assert before + after == before;
    } else {
      var front := after[..|after| - 1];
      assert (before + after)[..|before + after| - 1] == before + front;
      RunContinues(threads, before, front);
    }
  }

  lemma RunAppends(threads: nat, actions: seq<Action>, a: Action)
    ensures Run(threads, actions + [a]) == Step(Run(threads, actions), a)
  {
    assert (actions + [a])[..|actions|] == actions;
  }

  /** After SetRemoved has returned, the entity is removed for good and no thread ever gains a reference. */
  lemma RemovalIsFinal(threads: nat, before: seq<Action>, a: Action, after: seq<Action>)
    requires Returns(Run(threads, before), a, Remove)
    ensures var s := Run(threads, before + [a] + after);
            Removed(s.word) && NoneGained(Run(threads, before).threads, s.threads)
  {
    RunKeepsInv(threads, before);
    RunKeepsInv(threads, before + [a]);
    RunAppends(threads, before, a);
    RemoveReturns(Run(threads, before), a);
    RunContinues(threads, before + [a], after);
    NoTouchAfterwards(Run(threads, before + [a]), after);
  }

  /** Nobody is inside an operation and nobody holds a reference. */
  predicate AtRest(s: System) {
    TotalRefs(s.threads) == 0 && forall t | 0 <= t < |s.threads| :: s.threads[t].pc == Ready
  }

  lemma StepKeepsFlag(s: System, a: Action)
    requires s.removedInUse
    ensures Step(s, a).removedInUse
  {
  }

  lemma {:induction false} FlagsStay(s: System, actions: seq<Action>)
    requires s.removedInUse
    ensures Continue(s, actions).removedInUse
    decreases |actions|
  {
    if actions != [] {
      FlagsStay(s, actions[..|actions| - 1]);
      StepKeepsFlag(Continue(s, actions[..|actions| - 1]), actions[|actions| - 1]);
    }
  }

  /** An entity removed while references existed is cleaned, once, by the time everything is at rest. */
  lemma RemovedInUseIsCleared(threads: nat, before: seq<Action>, a: Action, after: seq<Action>)
    requires Returns(Run(threads, before), a, Remove) && TotalRefs(Run(threads, before).threads) > 0
    requires AtRest(Run(threads, before + [a] + after))
    ensures Cleared(Run(threads, before + [a] + after).word) && Run(threads, before + [a] + after).clears == 1
  {
    RunKeepsInv(threads, before);
    RunAppends(threads, before, a);
    RemoveReturns(Run(threads, before), a);
    RunContinues(threads, before + [a], after);
    FlagsStay(Run(threads, before + [a]), after);
    LastReleaseClears(threads, before + [a] + after);
  }

  /** A ClearBase called after the removal, still running or finished. */
  predicate ClearUnderway(s: System, t: nat) {
    && t < |s.threads| && Removed(s.word)
    && (s.clearAsked || s.threads[t].pc == Loading(Clear)
        || (s.threads[t].pc.Loaded? && s.threads[t].pc.op == Clear && Removed(s.threads[t].pc.seen)))
  }

  lemma StepKeepsUnderway(s: System, a: Action, t: nat)
    requires Inv(s) && ClearUnderway(s, t)
    ensures ClearUnderway(Step(s, a), t)
  {
    StepAfterRemoval(s, a);
    StepKeepsLength(s, a);
    if a.t != t && a.t < |s.threads| {
      assert Step(s, a).threads[t] == s.threads[t];
    }
  }

  lemma {:induction false} UnderwayStays(s: System, actions: seq<Action>, t: nat)
    requires Inv(s) && ClearUnderway(s, t)
    ensures ClearUnderway(Continue(s, actions), t)
    decreases |actions|
  {
    if actions != [] {
      var front, a := actions[..|actions| - 1], actions[|actions| - 1];
      NoTouchAfterwards(s, front);
      UnderwayStays(s, front, t);
      StepKeepsUnderway(Continue(s, front), a, t);
    }
  }

  /** An entity on which ClearBase is called after SetRemoved returned is cleaned, once, by the time of rest. */
  lemma ClearAfterRemovalIsCleared(threads: nat, before: seq<Action>, a: Action, between: seq<Action>, t: nat,
                                   after: seq<Action>)
    requires Returns(Run(threads, before), a, Remove)
    requires t < threads && t < |Run(threads, before + [a] + between).threads|
    requires Run(threads, before + [a] + between).threads[t].pc == Ready
    requires AtRest(Run(threads, before + [a] + between + [Start(t, Clear)] + after))
    ensures var s := Run(threads, before + [a] + between + [Start(t, Clear)] + after);
            Cleared(s.word) && s.clears == 1
  {
    var called := before + [a] + between + [Start(t, Clear)];
    RemovalIsFinal(threads, before, a, between);
    RunAppends(threads, before + [a] + between, Start(t, Clear));
    RunKeepsInv(threads, called);
    RunContinues(threads, called, after);
    UnderwayStays(Run(threads, called), after, t);
    LastReleaseClears(threads, called + after);
  }

  /**
   A ClearBase that read the word before the removal is not enough: it saw the reference, gives up, and
   the entity stays removed and unused but never cleared.
   */
  lemma EarlierClearIsNotEnough() returns (actions: seq<Action>)
    ensures var s := Run(2, actions); AtRest(s) && Removed(s.word) && !Cleared(s.word)
    ensures Start(1, Clear) in actions && Start(0, Remove) in actions
  {
    var zero, one, seen := Thread(0, Ready), Thread(1, Ready), Thread(0, Loaded(Clear, 1));
    var before := SeesReference();
    SwapsOfTheExample();
    actions := RunAlone(before, UnTouch, 1, [one, seen], 0, [zero, seen]);
    actions := RunAlone(actions, Remove, 0, [zero, seen], REMOVED_BIT, [zero, seen]);
    RunAppends(2, actions, Cas(1));
    actions := actions + [Cas(1)];
    assert Run(2, actions) == System(REMOVED_BIT, [zero, zero], 0, false, false);
    assert TotalRefs([zero, zero]) == 0 by { assert [zero, zero][1..] == [zero]; }
  }

  lemma SeesReference() returns (actions: seq<Action>)
    ensures Run(2, actions) == System(1, [Thread(1, Ready), Thread(0, Loaded(Clear, 1))], 0, false, false)
    ensures Start(1, Clear) in actions
  {
    var zero, one := Thread(0, Ready), Thread(1, Ready);
    assert Initial(2) == System(0, [zero, zero], 0, false, false);
    SwapsOfTheExample();
    actions := RunAlone([], Touch, 0, [zero, zero], 1, [one, zero]);
    RunAppends(2, actions, Start(1, Clear));
    actions := actions + [Start(1, Clear)];
    assert Run(2, actions) == System(1, [one, Thread(0, Loading(Clear))], 0, false, false);
    RunAppends(2, actions, Load(1));
    actions := actions + [Load(1)];
  }

  lemma SwapsOfTheExample()
    ensures var zero, one, seen := Thread(0, Ready), Thread(1, Ready), Thread(0, Loaded(Clear, 1));
            var removed := System(REMOVED_BIT, [zero, seen], 0, false, false);
            && Swap(AboutToSwap(System(0, [zero, zero], 0, false, false), 0, Touch), 0)
               == System(1, [one, zero], 0, false, false)
            && Swap(AboutToSwap(System(1, [one, seen], 0, false, false), 0, UnTouch), 0)
               == System(0, [zero, seen], 0, false, false)
            && Swap(AboutToSwap(System(0, [zero, seen], 0, false, false), 0, Remove), 0) == removed
            && Swap(removed, 1) == System(REMOVED_BIT, [zero, zero], 0, false, false)
            && Removed(REMOVED_BIT) && !Cleared(REMOVED_BIT)
  {
    assert Cnt(0) == 0 && Cnt(1) == 1 && !Removed(0) && !Removed(1);
  }

  /** Thread 0 of two makes one uncontended call that sets no record. */
  lemma RunAlone(actions: seq<Action>, op: Op, word: Word, threads: seq<Thread>, word': Word, threads': seq<Thread>)
    returns (longer: seq<Action>)
    requires Run(2, actions) == System(word, threads, 0, false, false) && |threads| == 2
    requires MayStart(System(word, threads, 0, false, false), 0, op)
    requires Swap(AboutToSwap(System(word, threads, 0, false, false), 0, op), 0)
          == System(word', threads', 0, false, false)
    ensures longer == actions + Alone(0, op) && Run(2, longer) == System(word', threads', 0, false, false)
  {
    longer := actions + Alone(0, op);
    RunContinues(2, actions, Alone(0, op));
    AloneIs(Run(2, actions), 0, op);
  }
}
