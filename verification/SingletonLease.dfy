/**
 The single-instance lease as a protocol: any number of processes, one key with an expiry in a
 shared store, and a network that may delay, lose and repeat requests and delay or lose replies.

 Every call of a process is split at its scheduling points: reading the clock, sending, the store
 executing (any number of times, at any later moment), receiving, and acting on the reply. A
 process may stall for any time between two of these.
 */
module SingletonLease {
  import opened SingletonLock

  /** A process start; its key value carries a random token, so it is identified with its value. */
  type Pid = nat

  datatype Key = Absent | Present(owner: Pid, expiry: int)

  datatype Expected = ExpectAbsent | ExpectOwn

  datatype Request = Cas(pid: Pid, expected: Expected, asked: int) | CompareAndDelete(pid: Pid)

  /** The result of one execution of a request, at the store's clock. */
  datatype Answer = Answer(id: nat, outcome: Outcome, at: int)

  datatype CallState = Idle | Asked(asked: int) | Sent(asked: int, id: nat) | Replied(reply: Reply)

  datatype Phase = Acquiring | Confirming | Renewing | Finished

  datatype Process = Process(phase: Phase, status: Status, call: CallState, released: bool)

  datatype System = System(
    now: int,
    key: Key,
    procs: map<Pid, Process>,
    requests: seq<Request>,
    answers: set<Answer>)

  const INITIAL := System(0, Absent, map[], [], {})

  // ---------------------------------------------------------------- the store

  predicate Alive(key: Key, now: int) {
    key.Present? && now < key.expiry
  }

  /** The atomic compare-and-set and compare-and-delete of the store. */
  function Execute(cfg: Config, key: Key, now: int, request: Request): (Key, Outcome) {
    match request
    case Cas(pid, expected, _) =>
      if (if expected == ExpectAbsent then !Alive(key, now) else Alive(key, now) && key.owner == pid)
      then (Present(pid, now + cfg.ttl), Applied)
      else (key, Refused(Alive(key, now) && key.owner == pid))
    case CompareAndDelete(pid) =>
      if Alive(key, now) && key.owner == pid then (Absent, Applied) else (key, Refused(false))
  }

  // ---------------------------------------------------------------- steps

  datatype Action =
    | Tick(delta: nat)
    | Start(pid: Pid)
    | Ask(pid: Pid)
    | Send(pid: Pid)
    | StoreExecutes(id: nat)
    | Receive(pid: Pid, answer: Answer)
    | TimeOut(pid: Pid)
    | Conclude(pid: Pid)
    | GiveUp(pid: Pid)
    | Release(pid: Pid)

  function Expects(phase: Phase): Expected {
    if phase == Acquiring then ExpectAbsent else ExpectOwn
  }

  /** Acting on a reply, by the phase the process is in. */
  function Concluded(cfg: Config, p: Process, reply: Reply): Process {
    match p.phase
    case Acquiring =>
      (match AfterAcquire(cfg, reply)
       case Acquired => Process(Renewing, Hold(cfg, reply.asked), Idle, p.released)
       case Confirm => p.(phase := Confirming, call := Idle)
       case Retry => p.(call := Idle))
    case Confirming =>
      if Confirmed(cfg, reply) then Process(Renewing, Hold(cfg, reply.asked), Idle, p.released)
      else p.(phase := Acquiring, call := Idle)
    case Renewing =>
      var status := AfterRenewal(cfg, p.status, reply);
      Process(if status.state == Lost then Finished else Renewing, status, Idle, p.released)
    case Finished => p.(call := Idle)
  }

  /** One step; an action that is not possible in a state does nothing. */
  function Step(cfg: Config, s: System, action: Action): System {
    match action
    case Tick(delta) => s.(now := s.now + delta)
    case Start(pid) =>
      if pid in s.procs then s
      else s.(procs := s.procs[pid := Process(Acquiring, Status(Waiting, 0), Idle, false)])
    case Ask(pid) =>
      if pid in s.procs && s.procs[pid].call == Idle && s.procs[pid].phase != Finished
      then s.(procs := s.procs[pid := s.procs[pid].(call := Asked(s.now))]) else s
    case Send(pid) =>
      if pid in s.procs && s.procs[pid].call.Asked? && s.procs[pid].phase != Finished then
        var p := s.procs[pid];
        s.(procs := s.procs[pid := p.(call := Sent(p.call.asked, |s.requests|))],
           requests := s.requests + [Cas(pid, Expects(p.phase), p.call.asked)])
      else s
    case StoreExecutes(id) =>
      if id < |s.requests| then
        var (key, outcome) := Execute(cfg, s.key, s.now, s.requests[id]);
        s.(key := key, answers := s.answers + {Answer(id, outcome, s.now)})
      else s
    case Receive(pid, answer) =>
      if pid in s.procs && s.procs[pid].call.Sent? && answer in s.answers && answer.id == s.procs[pid].call.id then
        var p := s.procs[pid];
        s.(procs := s.procs[pid := p.(call := Replied(Reply(answer.outcome, p.call.asked, s.now)))])
      else s
    case TimeOut(pid) =>
      if pid in s.procs && s.procs[pid].call.Sent? then
        var p := s.procs[pid];
        s.(procs := s.procs[pid := p.(call := Replied(Reply(Failed, p.call.asked, s.now)))])
      else s
    case Conclude(pid) =>
      if pid in s.procs && s.procs[pid].call.Replied?
      then s.(procs := s.procs[pid := Concluded(cfg, s.procs[pid], s.procs[pid].call.reply)]) else s
    case GiveUp(pid) =>
      if pid in s.procs && (s.procs[pid].phase == Acquiring || s.procs[pid].phase == Confirming)
      then s.(procs := s.procs[pid := s.procs[pid].(phase := Finished)]) else s
    case Release(pid) =>
      if pid in s.procs && s.procs[pid].phase == Renewing
      then s.(procs := s.procs[pid := s.procs[pid].(phase := Finished, call := Idle, released := true)],
              requests := s.requests + [CompareAndDelete(pid)]) else s
  }

  function Continue(cfg: Config, s: System, actions: seq<Action>): System {
    if actions == [] then s else Step(cfg, Continue(cfg, s, actions[..|actions| - 1]), actions[|actions| - 1])
  }

  function Run(cfg: Config, actions: seq<Action>): System {
    Continue(cfg, INITIAL, actions)
  }

  // ---------------------------------------------------------------- the invariant

  /** Until `until`, and unless the process released, the key holds its value at least that long. */
  predicate Guaranteed(s: System, pid: Pid, until: int) {
    pid in s.procs && !s.procs[pid].released && s.now < until
    ==> s.key.Present? && s.key.owner == pid && s.key.expiry >= until
  }

  /** The process relies on the lock: held or unknown, its window still open, not released. */
  predicate Relies(s: System, pid: Pid) {
    && pid in s.procs && !s.procs[pid].released
    && (s.procs[pid].status.state == Held || s.procs[pid].status.state == Unknown)
    && s.now < s.procs[pid].status.validUntil
  }

  ghost predicate RequestOk(s: System, id: nat) {
    id < |s.requests| ==>
      var r := s.requests[id];
      && r.pid in s.procs
      && (r.Cas? ==> r.asked <= s.now)
      && (r.CompareAndDelete? ==> s.procs[r.pid].released)
  }

  ghost predicate AnswerOk(cfg: Config, s: System, a: Answer) {
    && a.id < |s.requests|
    && a.at <= s.now
    && (s.requests[a.id].Cas? ==> s.requests[a.id].asked <= a.at)
    && (s.requests[a.id].Cas? && a.outcome == Applied ==> Guaranteed(s, s.requests[a.id].pid, a.at + cfg.ttl))
  }

  ghost predicate ProcessOk(cfg: Config, s: System, pid: Pid) {
    pid in s.procs ==>
      var p := s.procs[pid];
      && (p.call.Asked? ==> p.call.asked <= s.now)
      && (p.call.Sent? ==> p.call.id < |s.requests| && s.requests[p.call.id].Cas?
                           && s.requests[p.call.id].pid == pid && s.requests[p.call.id].asked == p.call.asked)
      && (p.call.Replied? && p.call.reply.outcome == Applied ==> Guaranteed(s, pid, p.call.reply.asked + cfg.ttl))
      && (p.status.state == Held || p.status.state == Unknown ==> Guaranteed(s, pid, p.status.validUntil))
      && (p.phase == Renewing ==> p.status.state == Held || p.status.state == Unknown)
  }

  ghost predicate Inv(cfg: Config, s: System) {
    && (s.key.Present? ==> s.key.expiry <= s.now + cfg.ttl)
    && (forall id: nat :: RequestOk(s, id))
    && (forall a | a in s.answers :: AnswerOk(cfg, s, a))
    && (forall pid :: ProcessOk(cfg, s, pid))
  }

  /** A guarantee, once given, survives every step. */
  lemma StepKeepsGuarantee(cfg: Config, s: System, action: Action, pid: Pid, until: int)
    requires Inv(cfg, s) && pid in s.procs && Guaranteed(s, pid, until)
    ensures Guaranteed(Step(cfg, s, action), pid, until)
  {
    if action.StoreExecutes? && action.id < |s.requests| {
      assert RequestOk(s, action.id);
    }
  }

  lemma StepKeepsAnswers(cfg: Config, s: System, action: Action, a: Answer)
    requires cfg.ttl >= 0 && Inv(cfg, s) && a in Step(cfg, s, action).answers
    ensures AnswerOk(cfg, Step(cfg, s, action), a)
  {
    if a in s.answers {
      assert AnswerOk(cfg, s, a) && RequestOk(s, a.id);
      if s.requests[a.id].Cas? && a.outcome == Applied {
        StepKeepsGuarantee(cfg, s, action, s.requests[a.id].pid, a.at + cfg.ttl);
      }
    } else {
      assert RequestOk(s, a.id);
    }
  }

  /** A process that did not take part keeps everything it was promised. */
  lemma StepKeepsBystander(cfg: Config, s: System, s': System, action: Action, pid: Pid)
    requires cfg.ttl >= 0 && Inv(cfg, s) && s' == Step(cfg, s, action)
    requires pid in s.procs ==> pid in s'.procs && s'.procs[pid] == s.procs[pid]
    requires pid !in s.procs ==> pid !in s'.procs
    ensures ProcessOk(cfg, s', pid)
  {
    if pid in s.procs {
      var p := s.procs[pid];
      assert ProcessOk(cfg, s, pid);
      if p.status.state == Held || p.status.state == Unknown {
        StepKeepsGuarantee(cfg, s, action, pid, p.status.validUntil);
      }
      if p.call.Replied? && p.call.reply.outcome == Applied {
        StepKeepsGuarantee(cfg, s, action, pid, p.call.reply.asked + cfg.ttl);
      }
    }
  }

  /** Acting on a reply keeps the guarantees: a new hold takes over the reply's. */
  lemma ConcludeKeepsProcess(cfg: Config, s: System, pid: Pid)
    requires cfg.ttl >= 0 && Inv(cfg, s)
    ensures ProcessOk(cfg, Step(cfg, s, Conclude(pid)), pid)
  {
    assert ProcessOk(cfg, s, pid);
  }

  lemma StepKeepsProcess(cfg: Config, s: System, action: Action, pid: Pid)
    requires cfg.ttl >= 0 && Inv(cfg, s)
    ensures ProcessOk(cfg, Step(cfg, s, action), pid)
  {
    if action.Tick? || action.StoreExecutes? || action.pid != pid {
      StepKeepsBystander(cfg, s, Step(cfg, s, action), action, pid);
    } else if action.Conclude? {
      ConcludeKeepsProcess(cfg, s, pid);
    } else if pid in s.procs {
      var p := s.procs[pid];
      assert ProcessOk(cfg, s, pid);
      if p.status.state == Held || p.status.state == Unknown {
        StepKeepsGuarantee(cfg, s, action, pid, p.status.validUntil);
      }
      if p.call.Replied? && p.call.reply.outcome == Applied {
        StepKeepsGuarantee(cfg, s, action, pid, p.call.reply.asked + cfg.ttl);
      }
      if action.Receive? && action.answer in s.answers {
        assert AnswerOk(cfg, s, action.answer);
      }
    }
  }

  lemma StepKeepsInv(cfg: Config, s: System, action: Action)
    requires cfg.ttl >= 0 && Inv(cfg, s)
    ensures Inv(cfg, Step(cfg, s, action))
  {
    var s' := Step(cfg, s, action);
    forall id: nat ensures RequestOk(s', id) {
      assert RequestOk(s, id);
      if id < |s'.requests| && id >= |s.requests| {
        assert ProcessOk(cfg, s, s'.requests[id].pid);
      }
    }
    forall a | a in s'.answers ensures AnswerOk(cfg, s', a) {
      StepKeepsAnswers(cfg, s, action, a);
    }
    forall pid ensures ProcessOk(cfg, s', pid) {
      StepKeepsProcess(cfg, s, action, pid);
    }
  }

  lemma {:induction false} RunKeepsInv(cfg: Config, actions: seq<Action>)
    requires cfg.ttl >= 0
    ensures Inv(cfg, Run(cfg, actions))
  {
    if actions != [] {
      RunKeepsInv(cfg, actions[..|actions| - 1]);
      StepKeepsInv(cfg, Run(cfg, actions[..|actions| - 1]), actions[|actions| - 1]);
    }
  }

  // ---------------------------------------------------------------- safety

  /** A process that relies on the lock owns the key for as long as its window lasts. */
  lemma RelyingOwnsKey(cfg: Config, actions: seq<Action>, pid: Pid)
    requires cfg.ttl >= 0 && Relies(Run(cfg, actions), pid)
    ensures var s := Run(cfg, actions);
            s.key.Present? && s.key.owner == pid && s.key.expiry >= s.procs[pid].status.validUntil
  {
    RunKeepsInv(cfg, actions);
    assert ProcessOk(cfg, Run(cfg, actions), pid);
  }

  /** At any instant of any run, at most one process relies on the lock. */
  lemma MutualExclusion(cfg: Config, actions: seq<Action>, p: Pid, q: Pid)
    requires cfg.ttl >= 0
    requires Relies(Run(cfg, actions), p) && Relies(Run(cfg, actions), q)
    ensures p == q
  {
    RelyingOwnsKey(cfg, actions, p);
    RelyingOwnsKey(cfg, actions, q);
  }

  /** While one process relies on the lock, every request of another is refused as foreign. */
  lemma OthersAreRefused(cfg: Config, actions: seq<Action>, pid: Pid, request: Request)
    requires cfg.ttl >= 0 && Relies(Run(cfg, actions), pid) && request.pid != pid
    ensures var s := Run(cfg, actions); Execute(cfg, s.key, s.now, request) == (s.key, Refused(false))
  {
    RelyingOwnsKey(cfg, actions, pid);
  }

  /** A hold is only taken on a reply that left more than the guard of its window. */
  lemma HoldLeavesGuard(cfg: Config, p: Process, reply: Reply)
    requires Concluded(cfg, p, reply).status != p.status && Concluded(cfg, p, reply).status.state == Held
    ensures reply.outcome == Applied
    ensures Concluded(cfg, p, reply).status.validUntil == reply.asked + cfg.ttl
    ensures reply.replied + cfg.guard < Concluded(cfg, p, reply).status.validUntil
  {
  }

  /**
   In every run a new hold is backed by the store: it comes from an applied reply that left more than the guard, its
   window counts from the request, and until then the key is this process's own, unless it released.
   */
  lemma NewHoldIsBacked(cfg: Config, actions: seq<Action>, action: Action, pid: Pid)
    requires cfg.ttl >= 0 && pid in Run(cfg, actions).procs
    requires var p, p' := Run(cfg, actions).procs[pid], Step(cfg, Run(cfg, actions), action).procs[pid];
             p'.status != p.status && p'.status.state == Held
    ensures var s, s' := Run(cfg, actions), Step(cfg, Run(cfg, actions), action);
            var call, until := s.procs[pid].call, s'.procs[pid].status.validUntil;
            && action == Conclude(pid) && call.Replied? && call.reply.outcome == Applied
            && until == call.reply.asked + cfg.ttl && call.reply.replied + cfg.guard < until
            && Guaranteed(s', pid, until)
  {
    var s := Run(cfg, actions);
    HoldLeavesGuard(cfg, s.procs[pid], s.procs[pid].call.reply);
    RunKeepsInv(cfg, actions);
    StepKeepsInv(cfg, s, action);
    assert ProcessOk(cfg, Step(cfg, s, action), pid);
  }

  /** Losing the lock and releasing it are final, whatever replies are still on their way. */
  lemma {:induction false} FinishedIsFinal(cfg: Config, s: System, pid: Pid, actions: seq<Action>)
    requires pid in s.procs && s.procs[pid].phase == Finished
    ensures var s' := Continue(cfg, s, actions);
            && pid in s'.procs && s'.procs[pid].phase == Finished
            && s'.procs[pid].status == s.procs[pid].status && s'.procs[pid].released == s.procs[pid].released
    decreases |actions|
  {
    if actions != [] {
      FinishedIsFinal(cfg, s, pid, actions[..|actions| - 1]);
    }
  }

  // ---------------------------------------------------------------- what a process achieves

  /** In every phase of the loops, an applied reply that leaves more than the guard makes or extends the hold. */
  lemma TimelyReplyHolds(cfg: Config, s: System, pid: Pid)
    requires pid in s.procs && s.procs[pid].phase != Finished && s.procs[pid].call.Replied?
    requires var reply := s.procs[pid].call.reply;
             reply.outcome == Applied && reply.replied < reply.asked + cfg.ttl - cfg.guard
    ensures var s', asked := Step(cfg, s, Conclude(pid)), s.procs[pid].call.reply.asked;
            && pid in s'.procs
            && s'.procs[pid] == Process(Renewing, Status(Held, asked + cfg.ttl), Idle, s.procs[pid].released)
  {
  }

  /** The lock is lost on a reply exactly if the key was foreign, or the call failed with only the guard left. */
  lemma LostExactly(cfg: Config, s: System, pid: Pid)
    requires pid in s.procs && s.procs[pid].phase == Renewing && s.procs[pid].call.Replied?
    requires s.procs[pid].status.state == Held || s.procs[pid].status.state == Unknown
    ensures var p, p' := s.procs[pid], Step(cfg, s, Conclude(pid)).procs[pid];
            var reply := p.call.reply;
            && (p'.status.state == Lost <==>
                reply.outcome.Refused? || (reply.outcome == Failed && reply.replied >= p.status.validUntil - cfg.guard))
            && (p'.status.state == Lost <==> p'.phase == Finished)
            && (p'.status.state == Unknown ==> p'.status.validUntil == p.status.validUntil)
  {
  }

  lemma ContinueAppends(cfg: Config, s: System, actions: seq<Action>, action: Action)
    ensures Continue(cfg, s, actions + [action]) == Step(cfg, Continue(cfg, s, actions), action)
  {
    assert (actions + [action])[..|actions|] == actions;
  }

  lemma {:induction false} ContinueConcat(cfg: Config, s: System, first: seq<Action>, more: seq<Action>)
    ensures Continue(cfg, s, first + more) == Continue(cfg, Continue(cfg, s, first), more)
    decreases |more|
  {
    if more == [] {
      assert first + more == first;
    } else {
      assert (first + more)[..|first + more| - 1] == first + more[..|more| - 1];
      ContinueConcat(cfg, s, first, more[..|more| - 1]);
    }
  }

  function CallRequest(s: System, pid: Pid): Request
    requires pid in s.procs
  {
    Cas(pid, Expects(s.procs[pid].phase), s.now)
  }

  /** The process asks and sends; the store executes `there` later. */
  function Call(s: System, pid: Pid, there: nat): seq<Action>
    requires pid in s.procs
  {
    [Ask(pid), Send(pid), Tick(there), StoreExecutes(|s.requests|)]
  }

  /** The reply arrives `back` later and the process acts on it. */
  function Answered(cfg: Config, s: System, pid: Pid, there: nat, back: nat): seq<Action>
    requires pid in s.procs
  {
    var outcome := Execute(cfg, s.key, s.now + there, CallRequest(s, pid)).1;
    [Tick(back), Receive(pid, Answer(|s.requests|, outcome, s.now + there))]
  }

  /** One whole call whose request takes `there` and whose reply takes `back`. */
  function RoundTrip(cfg: Config, s: System, pid: Pid, there: nat, back: nat): seq<Action>
    requires pid in s.procs
  {
    Call(s, pid, there) + Answered(cfg, s, pid, there, back) + [Conclude(pid)]
  }

  lemma SendsRequest(cfg: Config, s: System, pid: Pid)
    requires pid in s.procs && s.procs[pid].call == Idle && s.procs[pid].phase != Finished
    ensures Step(cfg, Step(cfg, s, Ask(pid)), Send(pid))
         == s.(procs := s.procs[pid := s.procs[pid].(call := Sent(s.now, |s.requests|))],
               requests := s.requests + [CallRequest(s, pid)])
  {
    var p := s.procs[pid];
    assert s.procs[pid := p.(call := Asked(s.now))][pid := p.(call := Sent(s.now, |s.requests|))]
        == s.procs[pid := p.(call := Sent(s.now, |s.requests|))];
  }

  lemma CallIsExecuted(cfg: Config, s: System, pid: Pid, there: nat)
    requires pid in s.procs && s.procs[pid].call == Idle && s.procs[pid].phase != Finished
    ensures var (key, outcome) := Execute(cfg, s.key, s.now + there, CallRequest(s, pid));
            Continue(cfg, s, Call(s, pid, there))
            == System(s.now + there, key, s.procs[pid := s.procs[pid].(call := Sent(s.now, |s.requests|))],
                      s.requests + [CallRequest(s, pid)],
                      s.answers + {Answer(|s.requests|, outcome, s.now + there)})
  {
    var call := Call(s, pid, there);
    ContinueAppends(cfg, s, [], call[0]);
    ContinueAppends(cfg, s, [] + [call[0]], call[1]);
    SendsRequest(cfg, s, pid);
    ContinueAppends(cfg, s, [] + [call[0]] + [call[1]], call[2]);
    ContinueAppends(cfg, s, [] + [call[0]] + [call[1]] + [call[2]], call[3]);
    assert [] + [call[0]] + [call[1]] + [call[2]] + [call[3]] == call;
  }

  lemma CallIsAnswered(cfg: Config, s: System, pid: Pid, there: nat, back: nat)
    requires pid in s.procs && s.procs[pid].call == Idle && s.procs[pid].phase != Finished
    ensures var (key, outcome) := Execute(cfg, s.key, s.now + there, CallRequest(s, pid));
            var reply := Reply(outcome, s.now, s.now + there + back);
            Continue(cfg, s, Call(s, pid, there) + Answered(cfg, s, pid, there, back))
            == System(s.now + there + back, key, s.procs[pid := s.procs[pid].(call := Replied(reply))],
                      s.requests + [CallRequest(s, pid)],
                      s.answers + {Answer(|s.requests|, outcome, s.now + there)})
  {
    var call, answered := Call(s, pid, there), Answered(cfg, s, pid, there, back);
    CallIsExecuted(cfg, s, pid, there);
    var executed := Continue(cfg, s, call);
    ContinueAppends(cfg, s, call, answered[0]);
    ContinueAppends(cfg, s, call + [answered[0]], answered[1]);
    assert call + [answered[0]] + [answered[1]] == call + answered;
    var replied := s.procs[pid].(call := Replied(Reply(answered[1].answer.outcome, s.now, s.now + there + back)));
    assert executed.procs[pid := replied] == s.procs[pid := replied];
  }

  /** A round trip updates the key as the store executes the request, and the process as it acts on the outcome. */
  lemma RoundTripIs(cfg: Config, s: System, pid: Pid, there: nat, back: nat)
    requires pid in s.procs && s.procs[pid].call == Idle && s.procs[pid].phase != Finished
    ensures var (key, outcome) := Execute(cfg, s.key, s.now + there, CallRequest(s, pid));
            var reply := Reply(outcome, s.now, s.now + there + back);
            var s' := Continue(cfg, s, RoundTrip(cfg, s, pid, there, back));
            && s'.now == s.now + there + back && s'.key == key
            && s'.procs == s.procs[pid := Concluded(cfg, s.procs[pid].(call := Replied(reply)), reply)]
  {
    CallIsAnswered(cfg, s, pid, there, back);
    ContinueAppends(cfg, s, Call(s, pid, there) + Answered(cfg, s, pid, there, back), Conclude(pid));
  }

  predicate Acquires(s: System, pid: Pid) {
    pid in s.procs && s.procs[pid].phase == Acquiring && s.procs[pid].call == Idle && !s.procs[pid].released
  }

  /** A free key is acquired: one round trip shorter than `ttl - guard` ends with the process relying on the lock. */
  lemma FreeKeyIsAcquired(cfg: Config, s: System, pid: Pid, there: nat, back: nat)
    requires ValidConfig(cfg) && Acquires(s, pid)
    requires s.key.Absent? || s.key.expiry <= s.now + there
    requires there + back < cfg.ttl - cfg.guard
    ensures var s' := Continue(cfg, s, RoundTrip(cfg, s, pid, there, back));
            && Relies(s', pid) && s'.procs[pid].status == Status(Held, s.now + cfg.ttl)
            && s'.key == Present(pid, s.now + there + cfg.ttl)
  {
    RoundTripIs(cfg, s, pid, there, back);
  }

  /** A process that has just started acquires. */
  lemma StartedAcquires(cfg: Config, s: System, pid: Pid)
    requires pid !in s.procs
    ensures Acquires(Step(cfg, s, Start(pid)), pid) && Step(cfg, s, Start(pid)).key == s.key
  {
  }

  /** While the key is another's, an attempt leaves it alone and the process keeps acquiring. */
  lemma ForeignKeyIsNotAcquired(cfg: Config, s: System, pid: Pid, there: nat, back: nat)
    requires Acquires(s, pid) && s.key.Present? && s.key.owner != pid && s.now + there < s.key.expiry
    ensures var s' := Continue(cfg, s, RoundTrip(cfg, s, pid, there, back));
            s'.key == s.key && Acquires(s', pid) && s'.procs[pid].status == s.procs[pid].status
  {
    RoundTripIs(cfg, s, pid, there, back);
  }

  /**
   A key that already holds the process's own value, as after a lost reply, is not waited out: the refusal leads
   to a confirmation, and a confirming round trip in time ends with the process relying on the lock.
   */
  lemma OwnValueIsConfirmed(cfg: Config, s: System, pid: Pid, there: nat, back: nat, there': nat, back': nat)
    requires ValidConfig(cfg) && Acquires(s, pid) && s.key.Present? && s.key.owner == pid
    requires s.now + there + back + there' < s.key.expiry && there' + back' < cfg.ttl - cfg.guard
    ensures var refused := Continue(cfg, s, RoundTrip(cfg, s, pid, there, back));
            && pid in refused.procs && refused.procs[pid].phase == Confirming && refused.key == s.key
            && var s' := Continue(cfg, refused, RoundTrip(cfg, refused, pid, there', back'));
               Relies(s', pid) && s'.procs[pid].status == Status(Held, refused.now + cfg.ttl)
               && s'.key == Present(pid, refused.now + there' + cfg.ttl)
  {
    RoundTripIs(cfg, s, pid, there, back);
    RoundTripIs(cfg, Continue(cfg, s, RoundTrip(cfg, s, pid, there, back)), pid, there', back');
  }

  /** In every run, a relying process whose renewal is executed within its window extends the window. */
  lemma RenewalExtends(cfg: Config, actions: seq<Action>, pid: Pid, there: nat, back: nat)
    requires ValidConfig(cfg) && Relies(Run(cfg, actions), pid)
    requires var p := Run(cfg, actions).procs[pid]; p.phase == Renewing && p.call == Idle
    requires Run(cfg, actions).now + there < Run(cfg, actions).procs[pid].status.validUntil
    requires there + back < cfg.ttl - cfg.guard
    ensures var s := Run(cfg, actions);
            var s' := Run(cfg, actions + RoundTrip(cfg, s, pid, there, back));
            && Relies(s', pid) && s'.procs[pid].status == Status(Held, s.now + cfg.ttl)
            && s'.key == Present(pid, s.now + there + cfg.ttl)
  {
    var s := Run(cfg, actions);
    RelyingOwnsKey(cfg, actions, pid);
    RoundTripIs(cfg, s, pid, there, back);
    ContinueConcat(cfg, INITIAL, actions, RoundTrip(cfg, s, pid, there, back));
  }

  /** A release ends the hold at once, and when the store executes it the key is free if it is still the process's. */
  lemma ReleaseFreesKey(cfg: Config, s: System, pid: Pid, there: nat)
    requires pid in s.procs && s.procs[pid].phase == Renewing
    ensures var s' := Continue(cfg, s, [Release(pid), Tick(there), StoreExecutes(|s.requests|)]);
            && pid in s'.procs && s'.procs[pid].phase == Finished && !Relies(s', pid)
            && s'.key == if s.key.Present? && s.key.owner == pid && s.now + there < s.key.expiry then Absent else s.key
  {
    var execute := StoreExecutes(|s.requests|);
    ContinueAppends(cfg, s, [], Release(pid));
    ContinueAppends(cfg, s, [] + [Release(pid)], Tick(there));
    ContinueAppends(cfg, s, [] + [Release(pid)] + [Tick(there)], execute);
    assert [] + [Release(pid)] + [Tick(there)] + [execute] == [Release(pid), Tick(there), execute];
  }
}
