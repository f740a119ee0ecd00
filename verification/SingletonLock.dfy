/**
 The single-instance lock of one process (`singletonLock`): the verdicts on a compare-and-set
 reply, the acquisition loop, and the renewal loop with its deadline argument.

 Times are integers of one monotonic clock. A compare-and-set call is given by how long it takes
 and how it ends; a timer is given by how late it fires.
 */
module SingletonLock {

  /** `singleton.*`: all calls in clock units. */
  datatype Config = Config(ttl: int, renewInterval: int, guard: int, startupWait: int)

  /** The time relations `ValidateConfig` enforces, with the `min` bounds of the declarations. */
  predicate ValidConfig(cfg: Config) {
    && cfg.ttl >= 1 && cfg.renewInterval >= 1 && cfg.guard >= 1
    && cfg.renewInterval <= cfg.guard
    && 2 * cfg.renewInterval <= cfg.ttl - cfg.guard
    && cfg.startupWait >= cfg.ttl + 2 * cfg.renewInterval
  }

  datatype LockState = Waiting | Held | Unknown | Lost

  datatype Status = Status(state: LockState, validUntil: int)

  /** How a compare-and-set ended: applied, refused (and whose value the key holds), or an error. */
  datatype Outcome = Applied | Refused(ownValue: bool) | Failed

  datatype Reply = Reply(outcome: Outcome, asked: int, replied: int)

  /** An applied reply counts only when it arrives before `asked + ttl - guard`. */
  predicate Timely(cfg: Config, reply: Reply) {
    reply.replied < reply.asked + cfg.ttl - cfg.guard
  }

  function Hold(cfg: Config, asked: int): Status {
    Status(Held, asked + cfg.ttl)
  }

  /** The verdict of the renewal loop on one reply. */
  function AfterRenewal(cfg: Config, status: Status, reply: Reply): Status {
    match reply.outcome
    case Applied => if Timely(cfg, reply) then Hold(cfg, reply.asked) else status.(state := Unknown)
    case Refused(_) => status.(state := Lost)
    case Failed =>
      status.(state := if reply.replied >= status.validUntil - cfg.guard then Lost else Unknown)
  }

  /** What the acquisition loop does after the reply to compare-and-set from "absent". */
  datatype Acquisition = Acquired | Confirm | Retry

  function AfterAcquire(cfg: Config, reply: Reply): Acquisition {
    match reply.outcome
    case Failed => Retry
    case Applied => if Timely(cfg, reply) then Acquired else Confirm
    case Refused(ownValue) => if ownValue then Confirm else Retry
  }

  predicate Confirmed(cfg: Config, reply: Reply) {
    reply.outcome == Applied && Timely(cfg, reply)
  }

  function Min(a: int, b: int): int {
    if a < b then a else b
  }

  function Max(a: int, b: int): int {
    if a < b then b else a
  }

  /** The timeout of one call: a renewal interval, cut at `validUntil` while that lies ahead. */
  function Timeout(cfg: Config, status: Status, asked: int): int {
    if asked < status.validUntil then Min(cfg.renewInterval, status.validUntil - asked) else cfg.renewInterval
  }

  // ---------------------------------------------------------------- the renewal loop

  /** One round of the environment: the timer fires `late`, the call takes `duration`. */
  datatype Round = Round(late: nat, duration: nat, outcome: Outcome)

  /** The loop between rounds: the status, the next beat, and the clock. */
  datatype Loop = Loop(status: Status, next: int, now: int)

  function Asked(l: Loop, round: Round): int {
    Max(l.now, l.next) + round.late
  }

  function RoundReply(l: Loop, round: Round): Reply {
    Reply(round.outcome, Asked(l, round), Asked(l, round) + round.duration)
  }

  function Beat(cfg: Config, l: Loop, round: Round): Loop {
    var reply := RoundReply(l, round);
    var status := AfterRenewal(cfg, l.status, reply);
    Loop(status,
         match reply.outcome
         case Applied => if Timely(cfg, reply) then reply.asked + cfg.renewInterval else reply.replied
         case Refused(_) => l.next
         case Failed => if status.state == Lost then l.next else l.next + cfg.renewInterval,
         reply.replied)
  }

  /** The rounds up to the one that loses the lock. */
  function Beats(cfg: Config, l: Loop, rounds: seq<Round>): Loop
    decreases |rounds|
  {
    if rounds == [] || l.status.state == Lost then l else Beats(cfg, Beat(cfg, l, rounds[0]), rounds[1..])
  }

  /** The timer fires on the beat and the call returns by its timeout. */
  predicate OnTime(cfg: Config, l: Loop, round: Round) {
    round.late == 0 && round.duration <= Timeout(cfg, l.status, Asked(l, round))
  }

  predicate AllOnTime(cfg: Config, l: Loop, rounds: seq<Round>)
    decreases |rounds|
  {
    rounds == [] || l.status.state == Lost
    || (OnTime(cfg, l, rounds[0]) && AllOnTime(cfg, Beat(cfg, l, rounds[0]), rounds[1..]))
  }

  /** The state in which the loop starts and to which every timely applied reply returns it. */
  predicate FreshHold(cfg: Config, l: Loop, asked: int) {
    l.status == Hold(cfg, asked) && l.next == asked + cfg.renewInterval && asked <= l.now <= l.next
  }

  /** `k` renewals have failed since the hold taken at `asked`; the loop is still on its beat. */
  predicate OnBeat(cfg: Config, l: Loop, asked: int, k: nat) {
    && (l.status.state == Held || l.status.state == Unknown)
    && l.status.validUntil == asked + cfg.ttl
    && l.next == asked + (k + 1) * cfg.renewInterval
    && asked + k * cfg.renewInterval <= l.now <= l.next
    && l.now < l.status.validUntil - cfg.guard
  }

  lemma FreshIsOnBeat(cfg: Config, l: Loop, asked: int)
    requires ValidConfig(cfg) && FreshHold(cfg, l, asked)
    ensures OnBeat(cfg, l, asked, 0)
  {
  }

  /** One on-time round: a new hold, one more failure on the beat, or a loss by `validUntil`. */
  lemma BeatOnTime(cfg: Config, l: Loop, asked: int, k: nat, round: Round)
    requires ValidConfig(cfg) && OnBeat(cfg, l, asked, k) && OnTime(cfg, l, round)
    ensures var l' := Beat(cfg, l, round);
            match round.outcome
            case Applied => FreshHold(cfg, l', asked + (k + 1) * cfg.renewInterval)
            case Refused(_) => l'.status.state == Lost && l'.now <= l'.status.validUntil == asked + cfg.ttl
            case Failed =>
              if l'.status.state == Lost then l'.now <= l'.status.validUntil == asked + cfg.ttl
              else OnBeat(cfg, l', asked, k + 1)
  {
    assert Asked(l, round) == l.next < l.status.validUntil;
    assert (k + 2) * cfg.renewInterval == (k + 1) * cfg.renewInterval + cfg.renewInterval;
    assert (k + 1) * cfg.renewInterval == k * cfg.renewInterval + cfg.renewInterval;
  }

  /**
   Lost no later than `validUntil`: over every on-time run, whatever mix of outcomes, the lock is
   lost while its last validity window is still open, and until then the clock stays more than
   the guard before the end of the window.
   */
  lemma {:induction false} LossIsWithinWindow(cfg: Config, l: Loop, asked: int, k: nat, rounds: seq<Round>)
    requires ValidConfig(cfg) && OnBeat(cfg, l, asked, k) && AllOnTime(cfg, l, rounds)
    ensures var end := Beats(cfg, l, rounds);
            && (end.status.state == Lost ==> end.now <= end.status.validUntil)
            && (end.status.state != Lost ==> end.now < end.status.validUntil - cfg.guard)
    decreases |rounds|
  {
    if rounds != [] {
      BeatOnTime(cfg, l, asked, k, rounds[0]);
      var next := Beat(cfg, l, rounds[0]);
      if next.status.state == Lost {
        assert Beats(cfg, next, rounds[1..]) == next;
      } else if rounds[0].outcome == Applied {
        var again := asked + (k + 1) * cfg.renewInterval;
        FreshIsOnBeat(cfg, next, again);
        LossIsWithinWindow(cfg, next, again, 0, rounds[1..]);
      } else {
        LossIsWithinWindow(cfg, next, asked, k + 1, rounds[1..]);
      }
    }
  }

  /** A run of failing renewals ends in Lost once its beats cover the window before the guard. */
  lemma {:induction false} FailingRunLoses(cfg: Config, l: Loop, asked: int, k: nat, rounds: seq<Round>)
    requires ValidConfig(cfg) && OnBeat(cfg, l, asked, k) && AllOnTime(cfg, l, rounds)
    requires forall i | 0 <= i < |rounds| :: rounds[i].outcome != Applied
    requires (k + |rounds|) * cfg.renewInterval >= cfg.ttl - cfg.guard
    ensures var end := Beats(cfg, l, rounds); end.status.state == Lost && end.now <= asked + cfg.ttl
    decreases |rounds|
  {
    if rounds == [] {
      assert false;
    } else {
      BeatOnTime(cfg, l, asked, k, rounds[0]);
      var next := Beat(cfg, l, rounds[0]);
      if next.status.state == Lost {
        assert Beats(cfg, next, rounds[1..]) == next;
      } else {
        assert k + |rounds| == (k + 1) + |rounds[1..]|;
        FailingRunLoses(cfg, next, asked, k + 1, rounds[1..]);
      }
    }
  }

  /**
   One failed renewal never loses the lock exactly when twice the interval lies strictly below
   `ttl - guard`. The configuration check also admits equality.
   */
  lemma SingleFailureTolerated(cfg: Config, l: Loop, asked: int)
    requires ValidConfig(cfg) && FreshHold(cfg, l, asked)
    ensures 2 * cfg.renewInterval < cfg.ttl - cfg.guard
       <==> forall round: Round | round.outcome == Failed && OnTime(cfg, l, round) ::
              Beat(cfg, l, round).status.state != Lost
  {
    var slowest := Round(0, cfg.renewInterval, Failed);
    assert OnTime(cfg, l, slowest);
    assert Beat(cfg, l, slowest).now == asked + 2 * cfg.renewInterval;
  }

  /** In every configuration with equality, which the check admits, one timed-out renewal loses the lock. */
  lemma EqualityLosesOnOneTimeout(cfg: Config, l: Loop, asked: int) returns (round: Round)
    requires ValidConfig(cfg) && FreshHold(cfg, l, asked) && 2 * cfg.renewInterval == cfg.ttl - cfg.guard
    ensures round.outcome == Failed && OnTime(cfg, l, round) && Beat(cfg, l, round).status.state == Lost
  {
    SingleFailureTolerated(cfg, l, asked);
    round :| round.outcome == Failed && OnTime(cfg, l, round) && Beat(cfg, l, round).status.state == Lost;
  }

  // ---------------------------------------------------------------- acquisition against a stalled holder

  /**
   A call the store executes `executed` after it was asked and that returns after `duration`; while the key is alive
   it may also fail.
   */
  datatype Call = Call(executed: nat, duration: nat, fails: bool)

  /**
   The acquisition loop against a key whose holder no longer renews: the key is refused until it
   expires at `expiry` and free afterwards.
   */
  datatype Wait = Wait(asked: int, now: int, held: bool, gaveUp: bool)

  function Attempt(cfg: Config, w: Wait, deadline: int, expiry: int, call: Call): Wait {
    var replied := w.asked + call.duration;
    var outcome := if w.asked + call.executed >= expiry then Applied else if call.fails then Failed else Refused(false);
    var reply := Reply(outcome, w.asked, replied);
    if AfterAcquire(cfg, reply) == Acquired then Wait(w.asked, replied, true, false)
    else if replied >= deadline then Wait(w.asked, replied, false, true)
    else Wait(Max(replied, w.asked + cfg.renewInterval), replied, false, false)
  }

  function Attempts(cfg: Config, w: Wait, deadline: int, expiry: int, calls: seq<Call>): Wait
    decreases |calls|
  {
    if calls == [] || w.held || w.gaveUp then w
    else Attempts(cfg, Attempt(cfg, w, deadline, expiry, calls[0]), deadline, expiry, calls[1..])
  }

  /**
   A process that starts while a stalled holder's key is still alive gets the lock before its
   startup wait runs out: the key's last renewal may even be processed one interval after the start.
   */
  lemma {:induction false} AcquiresFromStalled(cfg: Config, start: int, expiry: int, w: Wait, k: nat, calls: seq<Call>)
    requires ValidConfig(cfg)
    requires expiry <= start + cfg.ttl + cfg.renewInterval
    requires !w.held && !w.gaveUp && w.asked == start + k * cfg.renewInterval
    requires w.asked < expiry + cfg.renewInterval
    requires forall i | 0 <= i < |calls| :: calls[i].executed <= calls[i].duration <= cfg.renewInterval
    requires (k + |calls|) * cfg.renewInterval >= cfg.ttl + 2 * cfg.renewInterval
    ensures Attempts(cfg, w, start + cfg.startupWait, expiry, calls).held
    decreases |calls|
  {
    var deadline := start + cfg.startupWait;
    if calls == [] {
      assert false;
    } else {
      var next := Attempt(cfg, w, deadline, expiry, calls[0]);
      if next.held {
        assert Attempts(cfg, next, deadline, expiry, calls[1..]) == next;
      } else {
        assert (k + 1) * cfg.renewInterval == k * cfg.renewInterval + cfg.renewInterval;
        assert k + |calls| == (k + 1) + |calls[1..]|;
        AcquiresFromStalled(cfg, start, expiry, next, k + 1, calls[1..]);
      }
    }
  }

  // ---------------------------------------------------------------- the lock in place

  /** The lock object: its status and the clock it reads. */
  class Lock {
    const cfg: Config
    var status: Status
    var now: int

    constructor (cfg: Config, now: int)
      ensures this.cfg == cfg && status == Status(Waiting, 0) && this.now == now
    {
      this.cfg, this.status, this.now := cfg, Status(Waiting, 0), now;
    }

    /** Renews on fixed beats until the lock is lost or the environment stops the loop. */
    method RenewLoop(firstBeat: int, rounds: seq<Round>) returns (next: int)
      modifies this
      requires status.state != Lost
      ensures Loop(status, next, now) == Beats(cfg, old(Loop(status, firstBeat, now)), rounds)
    {
      next := firstBeat;
      ghost var start := Loop(status, next, now);
      assert rounds[0..] == rounds;
      for i := 0 to |rounds|
        invariant status.state != Lost
        invariant Beats(cfg, start, rounds) == Beats(cfg, Loop(status, next, now), rounds[i..])
      {
        assert rounds[i..][1..] == rounds[i + 1..];
        var round := rounds[i];
        var asked := Max(now, next) + round.late;
        now := asked + round.duration;
        var reply := Reply(round.outcome, asked, now);
        match round.outcome
        case Applied =>
          if Timely(cfg, reply) {
            status := Hold(cfg, asked);
            next := asked + cfg.renewInterval;
          } else {
            status := status.(state := Unknown);
            next := now;
          }
        case Refused(_) =>
          status := status.(state := Lost);
          return;
        case Failed =>
          if now >= status.validUntil - cfg.guard {
            status := status.(state := Lost);
            return;
          }
          status := status.(state := Unknown);
          next := next + cfg.renewInterval;
      }
      assert rounds[|rounds|..] == [];
    }
  }
}
