/**
 The lockstep client bot (`LockstepBot`): released frames walk simulate, input and hash, and a
 cursor remembers where a failed send interrupted the first pending frame.

 The transcript records everything the bot did with effect: frames simulated, producers called,
 inputs accepted, hashes sampled and accepted. Sends fail in any pattern.
 */
module Lockstep {
  import opened Wrappers

  type Payload = seq<nat>

  datatype Input = Input(player: nat, payload: Payload)

  datatype Frame = Frame(id: nat, inputs: seq<Input>)

  /** `fold` is the running FNV-1a hash over frames; `input` and `hash` are the optional producers. */
  datatype Config = Config(
    fold: (nat, Frame) -> nat,
    input: Option<nat -> Option<Payload>>,
    hash: Option<nat -> nat>,
    keyframeInterval: nat,
    maxPending: nat)

  datatype Event =
    | Simulated(frame: Frame)
    | Produced(forFrame: nat)
    | Submitted(forFrame: nat, payload: Payload)
    | Sampled(at: nat)
    | Reported(at: nat, hash: nat)

  /** A history, newest event outermost. */
  datatype Events = Start | Then(before: Events, event: Event)

  ghost predicate Has(t: Events, e: Event) {
    t.Then? && (t.event == e || Has(t.before, e))
  }

  /** `longer` is `t` with further events. */
  ghost predicate Extends(longer: Events, t: Events) {
    longer == t || (longer.Then? && Extends(longer.before, t))
  }

  lemma {:induction false} ExtendsTransitive(longest: Events, longer: Events, t: Events)
    requires Extends(longest, longer) && Extends(longer, t)
    ensures Extends(longest, t)
  {
    if longest != longer {
      ExtendsTransitive(longest.before, longer, t);
    }
  }

  // ---------------------------------------------------------------- the failure-free transcript

  predicate IsKeyframe(cfg: Config, frame: Frame) {
    cfg.keyframeInterval > 0 && frame.id % cfg.keyframeInterval == 0
  }

  function HashAt(cfg: Config, sum: nat, frame: Frame): nat {
    if cfg.hash.Some? then cfg.hash.value(frame.id) else sum
  }

  function WithSimulated(frame: Frame, t: Events): Events {
    Then(t, Simulated(frame))
  }

  function WithProduced(cfg: Config, frame: Frame, t: Events): Events {
    if cfg.input.None? then t else Then(t, Produced(frame.id + 1))
  }

  function WithSubmitted(cfg: Config, frame: Frame, t: Events): Events {
    if cfg.input.None? || cfg.input.value(frame.id + 1).None? then t
    else Then(t, Submitted(frame.id + 1, cfg.input.value(frame.id + 1).value))
  }

  function WithSampled(cfg: Config, frame: Frame, t: Events): Events {
    if !IsKeyframe(cfg, frame) then t else Then(t, Sampled(frame.id))
  }

  function WithReported(cfg: Config, sum: nat, frame: Frame, t: Events): Events {
    if !IsKeyframe(cfg, frame) then t else Then(t, Reported(frame.id, HashAt(cfg, sum, frame)))
  }

  /** The frame's input is settled. */
  function UpToInput(cfg: Config, frame: Frame, t: Events): Events {
    WithSubmitted(cfg, frame, WithProduced(cfg, frame, WithSimulated(frame, t)))
  }

  /** One whole frame, when nothing fails; `sum` is the chain value with the frame folded in. */
  function WholeFrame(cfg: Config, sum: nat, frame: Frame, t: Events): Events {
    WithReported(cfg, sum, frame, WithSampled(cfg, frame, UpToInput(cfg, frame, t)))
  }

  function FoldAll(cfg: Config, base: nat, frames: seq<Frame>): nat {
    if frames == [] then base else cfg.fold(FoldAll(cfg, base, frames[..|frames| - 1]), frames[|frames| - 1])
  }

  /** Everything the bot does for the frames when nothing fails, starting from the chain value `base`. */
  function Transcript(cfg: Config, base: nat, frames: seq<Frame>): Events {
    if frames == [] then Start
    else
      var last := |frames| - 1;
      WholeFrame(cfg, FoldAll(cfg, base, frames), frames[last], Transcript(cfg, base, frames[..last]))
  }

  function SimulatedFrames(t: Events): seq<Frame> {
    if t.Start? then []
    else if t.event.Simulated? then SimulatedFrames(t.before) + [t.event.frame]
    else SimulatedFrames(t.before)
  }

  lemma WholeFrameSimulatesOne(cfg: Config, sum: nat, frame: Frame, t: Events)
    ensures SimulatedFrames(WholeFrame(cfg, sum, frame, t)) == SimulatedFrames(t) + [frame]
  {
    var t1 := WithSimulated(frame, t);
    var t3 := UpToInput(cfg, frame, t);
    assert SimulatedFrames(t3) == SimulatedFrames(t1);
    assert SimulatedFrames(WithSampled(cfg, frame, t3)) == SimulatedFrames(t3);
  }

  lemma BeforeAndLast(frames: seq<Frame>)
    requires frames != []
    ensures frames[..|frames| - 1] + [frames[|frames| - 1]] == frames
  {
  }

  /** The transcript simulates each frame once, in order. */
  lemma {:induction false} TranscriptSimulatesEach(cfg: Config, base: nat, frames: seq<Frame>)
    ensures SimulatedFrames(Transcript(cfg, base, frames)) == frames
  {
    if frames != [] {
      var before, last := frames[..|frames| - 1], frames[|frames| - 1];
      BeforeAndLast(frames);
      TranscriptSimulatesEach(cfg, base, before);
      WholeFrameSimulatesOne(cfg, FoldAll(cfg, base, frames), last, Transcript(cfg, base, before));
    }
  }

  lemma WholeFrameReports(cfg: Config, sum: nat, frame: Frame, t: Events, e: Event)
    requires Has(WholeFrame(cfg, sum, frame, t), e) && e.Reported? && !Has(t, e)
    ensures IsKeyframe(cfg, frame) && e == Reported(frame.id, HashAt(cfg, sum, frame))
  {
    var sent := UpToInput(cfg, frame, t);
    assert !Has(WithProduced(cfg, frame, WithSimulated(frame, t)), e);
    assert !Has(sent, e);
    assert !Has(WithSampled(cfg, frame, sent), e);
  }

  /** A default hash reported for a frame is the fold through that frame. */
  lemma {:induction false} ReportedIsFold(cfg: Config, base: nat, frames: seq<Frame>, e: Event) returns (i: nat)
    requires cfg.hash.None? && Has(Transcript(cfg, base, frames), e) && e.Reported?
    ensures i < |frames| && frames[i].id == e.at && IsKeyframe(cfg, frames[i])
        && e.hash == FoldAll(cfg, base, frames[..i + 1])
  {
    var last := |frames| - 1;
    if Has(Transcript(cfg, base, frames[..last]), e) {
      i := ReportedIsFold(cfg, base, frames[..last], e);
      assert frames[..last][..i + 1] == frames[..i + 1];
    } else {
      i := last;
      WholeFrameReports(cfg, FoldAll(cfg, base, frames), frames[last], Transcript(cfg, base, frames[..last]), e);
      assert frames[..last + 1] == frames;
    }
  }

  function Submissions(t: Events): seq<Event> {
    if t.Start? then []
    else if t.event.Submitted? then Submissions(t.before) + [t.event]
    else Submissions(t.before)
  }

  function Reports(t: Events): seq<Event> {
    if t.Start? then []
    else if t.event.Reported? then Reports(t.before) + [t.event]
    else Reports(t.before)
  }

  /** For every frame in order, what the producer gives for the frame after it. */
  function DueInputs(cfg: Config, frames: seq<Frame>): seq<Event> {
    if frames == [] then []
    else
      var target := frames[|frames| - 1].id + 1;
      DueInputs(cfg, frames[..|frames| - 1])
      + if cfg.input.None? || cfg.input.value(target).None? then []
        else [Submitted(target, cfg.input.value(target).value)]
  }

  /** For every keyframe in order, the hash through it: the producer's, or the fold of all frames so far. */
  function DueReports(cfg: Config, base: nat, frames: seq<Frame>): seq<Event> {
    if frames == [] then []
    else
      var last := frames[|frames| - 1];
      DueReports(cfg, base, frames[..|frames| - 1])
      + if cfg.keyframeInterval == 0 || last.id % cfg.keyframeInterval != 0 then []
        else [Reported(last.id, if cfg.hash.Some? then cfg.hash.value(last.id) else FoldAll(cfg, base, frames))]
  }

  lemma WholeFrameOutputs(cfg: Config, sum: nat, frame: Frame, t: Events)
    ensures var target := frame.id + 1;
            Submissions(WholeFrame(cfg, sum, frame, t)) == Submissions(t)
            + if cfg.input.None? || cfg.input.value(target).None? then []
              else [Submitted(target, cfg.input.value(target).value)]
    ensures Reports(WholeFrame(cfg, sum, frame, t)) == Reports(t)
            + if !IsKeyframe(cfg, frame) then [] else [Reported(frame.id, HashAt(cfg, sum, frame))]
  {
    var produced := WithProduced(cfg, frame, WithSimulated(frame, t));
    var sent := WithSubmitted(cfg, frame, produced);
    assert Submissions(produced) == Submissions(t) && Reports(produced) == Reports(t);
    assert Reports(sent) == Reports(produced);
    assert Submissions(WithSampled(cfg, frame, sent)) == Submissions(sent);
    assert Reports(WithSampled(cfg, frame, sent)) == Reports(sent);
  }

  /** Every due input and every due hash is sent exactly once, in frame order, and nothing else is sent. */
  lemma {:induction false} TranscriptSendsEach(cfg: Config, base: nat, frames: seq<Frame>)
    ensures Submissions(Transcript(cfg, base, frames)) == DueInputs(cfg, frames)
    ensures Reports(Transcript(cfg, base, frames)) == DueReports(cfg, base, frames)
  {
    if frames != [] {
      var before, last := frames[..|frames| - 1], frames[|frames| - 1];
      TranscriptSendsEach(cfg, base, before);
      WholeFrameOutputs(cfg, FoldAll(cfg, base, frames), last, Transcript(cfg, base, before));
    }
  }

  lemma {:induction false} ExtendsHas(longer: Events, t: Events, e: Event)
    requires Extends(longer, t) && Has(t, e)
    ensures Has(longer, e)
  {
    if longer != t {
      ExtendsHas(longer.before, t, e);
    }
  }

  // ---------------------------------------------------------------- the cursor

  datatype Step = AtSimulate | AtInput | AtHash

  /** Where the first pending frame stopped, and the output it already produced. */
  datatype Cursor = Cursor(step: Step, payload: Option<Option<Payload>>, hash: Option<nat>)

  const FRESH := Cursor(AtSimulate, None, None)

  /** What was done by the time the frame reached the cursor, after `t`. */
  function Reached(cfg: Config, frame: Frame, cursor: Cursor, t: Events): Events {
    match cursor.step
    case AtSimulate => t
    case AtInput =>
      if cursor.payload.None? then WithSimulated(frame, t) else WithProduced(cfg, frame, WithSimulated(frame, t))
    case AtHash =>
      if cursor.hash.None? then UpToInput(cfg, frame, t) else WithSampled(cfg, frame, UpToInput(cfg, frame, t))
  }

  /** The kept output is the output the producers gave for this frame; it is kept only where it is still needed. */
  predicate CursorOk(cfg: Config, sum: nat, frame: Frame, cursor: Cursor) {
    match cursor.step
    case AtSimulate => cursor == FRESH
    case AtInput =>
      && cursor.hash.None?
      && (cursor.payload.Some? ==> cfg.input.Some? && cursor.payload.value == cfg.input.value(frame.id + 1))
    case AtHash => cursor.hash.Some? ==> IsKeyframe(cfg, frame) && cursor.hash.value == HashAt(cfg, sum, frame)
  }

  /** The frames finished since the snapshot, the chain value, the unfinished frames, the cursor, and what was done. */
  datatype Progress = Progress(finished: seq<Frame>, sum: nat, pending: seq<Frame>, cursor: Cursor, done: Events)

  /** What was done is exactly the transcript of the finished frames, and the first pending frame up to its cursor. */
  ghost predicate OnTrack(cfg: Config, p: Progress, base: nat) {
    var chain, t := FoldAll(cfg, base, p.finished), Transcript(cfg, base, p.finished);
    if p.pending == [] then p.cursor == FRESH && p.sum == chain && p.done == t
    else
      && CursorOk(cfg, p.sum, p.pending[0], p.cursor)
      && p.sum == (if p.cursor.step == AtSimulate then chain else cfg.fold(chain, p.pending[0]))
      && p.done == Reached(cfg, p.pending[0], p.cursor, t)
  }

  lemma WholeFrameExtends(cfg: Config, sum: nat, frame: Frame, cursor: Cursor, t: Events)
    ensures Extends(Reached(cfg, frame, cursor, t), t)
    ensures Extends(WholeFrame(cfg, sum, frame, t), Reached(cfg, frame, cursor, t))
  {
    var a := WithSimulated(frame, t);
    var b := WithProduced(cfg, frame, a);
    var c := WithSubmitted(cfg, frame, b);
    var d := WithSampled(cfg, frame, c);
    var whole := WithReported(cfg, sum, frame, d);
    ExtendsTransitive(b, a, t);
    ExtendsTransitive(c, b, t);
    ExtendsTransitive(d, c, t);
    ExtendsTransitive(whole, d, c);
    ExtendsTransitive(whole, c, b);
    ExtendsTransitive(whole, b, a);
    ExtendsTransitive(whole, a, t);
  }

  lemma {:induction false} TranscriptExtends(cfg: Config, base: nat, frames: seq<Frame>, k: nat)
    requires k <= |frames|
    ensures Extends(Transcript(cfg, base, frames), Transcript(cfg, base, frames[..k]))
    decreases |frames| - k
  {
    if k == |frames| {
      assert frames[..k] == frames;
    } else {
      var more := frames[..k + 1];
      assert more[..k] == frames[..k];
      WholeFrameExtends(cfg, FoldAll(cfg, base, more), more[k], FRESH, Transcript(cfg, base, frames[..k]));
      TranscriptExtends(cfg, base, frames, k + 1);
      ExtendsTransitive(Transcript(cfg, base, frames), Transcript(cfg, base, more), Transcript(cfg, base, frames[..k]));
    }
  }

  /** However far the bot got, nothing it did departs from the failure-free transcript. */
  lemma OnTrackPrefix(cfg: Config, p: Progress, base: nat, released: seq<Frame>)
    requires OnTrack(cfg, p, base) && released == p.finished + p.pending
    ensures Extends(Transcript(cfg, base, released), p.done)
    ensures p.pending == [] ==> p.done == Transcript(cfg, base, released)
  {
    if p.pending == [] {
      assert released == p.finished;
    } else {
      var k := |p.finished|;
      var more := released[..k + 1];
      assert more[..k] == p.finished && more[k] == p.pending[0];
      WholeFrameExtends(cfg, FoldAll(cfg, base, more), more[k], p.cursor, Transcript(cfg, base, p.finished));
      TranscriptExtends(cfg, base, released, k + 1);
      ExtendsTransitive(Transcript(cfg, base, released), Transcript(cfg, base, more), p.done);
    }
  }

  /** The first pending frame, with everything done for it, is finished. */
  lemma FinishKeeps(cfg: Config, p: Progress, base: nat, done: Events)
    requires OnTrack(cfg, p, base) && p.pending != [] && p.cursor.step == AtHash
    requires IsKeyframe(cfg, p.pending[0]) ==> p.cursor.hash.Some?
    requires done == if IsKeyframe(cfg, p.pending[0])
                     then Then(p.done, Reported(p.pending[0].id, p.cursor.hash.value)) else p.done
    ensures OnTrack(cfg, Progress(p.finished + [p.pending[0]], p.sum, p.pending[1..], FRESH, done), base)
  {
    var finished := p.finished + [p.pending[0]];
    assert finished[..|p.finished|] == p.finished;
    assert p.sum == FoldAll(cfg, base, finished);
    assert done == Transcript(cfg, base, finished);
  }

  lemma MoveFirst(finished: seq<Frame>, pending: seq<Frame>)
    requires pending != []
    ensures (finished + [pending[0]]) + pending[1..] == finished + pending
  {
  }

  // ---------------------------------------------------------------- the bot

  class Bot {
    const cfg: Config
    /** How the calls to the world and the sink end, in their order; `calls` were made and `failures` of them failed. */
    const world: nat -> bool
    var calls: nat
    ghost var failures: nat
    var pending: seq<Frame>
    var cursor: Cursor
    var owned: nat
    var sum: nat
    var terminal: bool
    /** Since the last snapshot: its chain value, the frames released after it, those finished, and what was done. */
    ghost var base: nat
    ghost var released: seq<Frame>
    ghost var finished: seq<Frame>
    ghost var transcript: Events

    ghost function Now(): Progress
      reads this
    {
      Progress(finished, sum, pending, cursor, transcript)
    }

    /** Everything released is finished or pending, and what was done is exactly as far as the cursor says. */
    ghost predicate Running()
      reads this
    {
      cfg.keyframeInterval > 0 && !terminal && released == finished + pending && OnTrack(cfg, Now(), base)
    }

    ghost predicate Valid()
      reads this
    {
      if terminal then
        cfg.keyframeInterval > 0 && pending == [] && owned == 0 && Extends(Transcript(cfg, base, released), transcript)
      else
        Running() && |pending| <= cfg.maxPending && owned <= |pending|
    }

    constructor (cfg: Config, offsetBasis: nat, world: nat -> bool)
      requires cfg.keyframeInterval > 0
      ensures Valid() && this.cfg == cfg && this.world == world
      ensures !terminal && released == [] && base == offsetBasis
    {
      this.cfg, this.world, calls, failures := cfg, world, 0, 0;
      pending, cursor, owned, sum, terminal := [], FRESH, 0, offsetBasis, false;
      base, released, finished, transcript := offsetBasis, [], [], Start;
    }

    method Call() returns (ok: bool)
      modifies this`calls, this`failures
      ensures ok == world(old(calls)) && calls == old(calls) + 1
      ensures failures == old(failures) + if ok then 0 else 1
    {
      ok := world(calls);
      calls := calls + 1;
      failures := failures + if ok then 0 else 1;
    }

    /** Whatever failed before, a default hash the bot reported is the fold through its frame since the snapshot. */
    lemma ReportedByBot(e: Event) returns (i: nat)
      requires Valid() && cfg.hash.None? && Has(transcript, e) && e.Reported?
      ensures i < |released| && released[i].id == e.at && IsKeyframe(cfg, released[i])
      ensures e.hash == FoldAll(cfg, base, released[..i + 1])
    {
      if !terminal {
        OnTrackPrefix(cfg, Now(), base, released);
      }
      ExtendsHas(Transcript(cfg, base, released), transcript, e);
      i := ReportedIsFold(cfg, base, released, e);
    }

    /**
     Drains newly released frames on top of whatever an earlier call left unfinished. `ok` means
     that everything was done, and it is reached exactly when no call it made failed.
     */
    method Apply(frames: seq<Frame>) returns (ok: bool)
      requires Valid()
      modifies this
      ensures Valid()
      ensures old(terminal) ==> !ok && terminal && transcript == old(transcript) && released == old(released)
      ensures !old(terminal) ==> released == old(released) + frames
      ensures base == old(base) && Extends(transcript, old(transcript))
      ensures ok ==> !terminal && pending == [] && transcript == Transcript(cfg, base, released)
      ensures !ok && !terminal ==> pending != [] && owned == |pending|
      ensures !old(terminal) ==> (ok <==> failures == old(failures))
    {
      if terminal {
        return false;
      }
      pending, released := pending + frames, released + frames;
      assert released == finished + pending;
      while pending != []
        invariant Running() && Extends(transcript, old(transcript))
        invariant base == old(base) && released == old(released) + frames
        invariant failures == old(failures)
        decreases |pending|
      {
        ghost var sofar := transcript;
        ok := Advance();
        ExtendsTransitive(transcript, sofar, old(transcript));
        if !ok {
          return;
        }
      }
      OnTrackPrefix(cfg, Now(), base, released);
      pending, owned, ok := [], 0, true;
    }

    /** Walks the first pending frame from its cursor to its end. */
    method Advance() returns (ok: bool)
      requires Running() && pending != []
      modifies this`pending, this`cursor, this`owned, this`sum, this`terminal, this`finished, this`transcript
      modifies this`calls, this`failures
      ensures Extends(transcript, old(transcript))
      ensures failures >= old(failures) && (ok <==> failures == old(failures))
      ensures ok ==> Running() && pending == old(pending)[1..]
      ensures !ok ==> Valid() && (!terminal ==> owned == |pending| > 0)
    {
      if cursor.step == AtSimulate {
        OnTrackPrefix(cfg, Now(), base, released);
        ok := Simulate();
        if !ok {
          Fail();
          return;
        }
      }
      ghost var simulated := transcript;
      ok := SendOutputs();
      ExtendsTransitive(transcript, simulated, old(transcript));
    }

    /** Sends the input and the hash of a simulated frame, from where its cursor stands. */
    method SendOutputs() returns (ok: bool)
      requires Running() && pending != [] && cursor.step != AtSimulate
      modifies this`pending, this`cursor, this`owned, this`terminal, this`finished, this`transcript
      modifies this`calls, this`failures
      ensures Extends(transcript, old(transcript))
      ensures failures >= old(failures) && (ok <==> failures == old(failures))
      ensures ok ==> Running() && pending == old(pending)[1..]
      ensures !ok ==> Valid() && (!terminal ==> owned == |pending| > 0)
    {
      if cursor.step == AtInput {
        ok := SubmitInput();
        if !ok {
          Retain();
          return;
        }
      }
      ghost var submitted := transcript;
      ok := ReportHash();
      ExtendsTransitive(transcript, submitted, old(transcript));
      if !ok {
        Retain();
      }
    }

    /** Folds and simulates the first pending frame; a rejected frame cannot be run again. */
    method Simulate() returns (ok: bool)
      requires Running() && pending != [] && cursor.step == AtSimulate
      modifies this`sum, this`transcript, this`cursor, this`calls, this`failures
      ensures ok == world(old(calls)) && failures == old(failures) + if ok then 0 else 1
      ensures transcript == if ok then Then(old(transcript), Simulated(pending[0])) else old(transcript)
      ensures ok ==> Running() && cursor == Cursor(AtInput, None, None)
    {
      sum := cfg.fold(sum, pending[0]);
      ok := Call();
      if ok {
        transcript := Then(transcript, Simulated(pending[0]));
        cursor := Cursor(AtInput, None, None);
      }
    }

    /** Produces the input once and sends it, possibly again after a failed send. */
    method SubmitInput() returns (ok: bool)
      requires Running() && pending != [] && cursor.step == AtInput
      modifies this`transcript, this`cursor, this`calls, this`failures
      ensures Running() && Extends(transcript, old(transcript))
      ensures failures >= old(failures) && (ok <==> failures == old(failures))
      ensures ok ==> cursor.step == AtHash
      ensures !ok ==> cursor.step == AtInput && cursor.payload.Some?
    {
      if cfg.input.Some? {
        Produce();
        if cursor.payload.value.Some? {
          ok := Call();
          if !ok {
            return;
          }
          transcript := Then(transcript, Submitted(pending[0].id + 1, cursor.payload.value.value));
        }
      }
      cursor, ok := cursor.(step := AtHash), true;
    }

    method Produce()
      requires Running() && pending != [] && cursor.step == AtInput && cfg.input.Some?
      modifies this`transcript, this`cursor
      ensures Running() && cursor.step == AtInput && cursor.payload.Some?
      ensures transcript == if old(cursor.payload).None?
                            then Then(old(transcript), Produced(pending[0].id + 1)) else old(transcript)
    {
      if cursor.payload.None? {
        cursor := cursor.(payload := Some(cfg.input.value(pending[0].id + 1)));
        transcript := Then(transcript, Produced(pending[0].id + 1));
      }
    }

    /** Samples the hash of a keyframe once and sends it, possibly again after a failed send; then the frame is done. */
    method ReportHash() returns (ok: bool)
      requires Running() && pending != [] && cursor.step == AtHash
      modifies this`transcript, this`cursor, this`pending, this`owned, this`finished, this`calls, this`failures
      ensures Running() && Extends(transcript, old(transcript))
      ensures failures >= old(failures) && (ok <==> failures == old(failures))
      ensures pending == if ok then old(pending)[1..] else old(pending)
    {
      ok := true;
      if pending[0].id % cfg.keyframeInterval == 0 {
        Sample();
        ok := Call();
        if !ok {
          return;
        }
      }
      ghost var sampled := transcript;
      Finish();
      ExtendsTransitive(transcript, sampled, old(transcript));
    }

    method Sample()
      requires Running() && pending != [] && cursor.step == AtHash && IsKeyframe(cfg, pending[0])
      modifies this`transcript, this`cursor
      ensures Running() && cursor.step == AtHash && cursor.hash.Some?
      ensures transcript == if old(cursor.hash).None?
                            then Then(old(transcript), Sampled(pending[0].id)) else old(transcript)
    {
      if cursor.hash.None? {
        cursor := cursor.(hash := Some(if cfg.hash.Some? then cfg.hash.value(pending[0].id) else sum));
        transcript := Then(transcript, Sampled(pending[0].id));
      }
    }

    method Finish()
      requires Running() && pending != [] && cursor.step == AtHash
          && (IsKeyframe(cfg, pending[0]) ==> cursor.hash.Some?)
      modifies this`transcript, this`cursor, this`pending, this`owned, this`finished
      ensures Running() && Extends(transcript, old(transcript)) && pending == old(pending)[1..]
    {
      ghost var done := if IsKeyframe(cfg, pending[0])
        then Then(transcript, Reported(pending[0].id, cursor.hash.value)) else transcript;
      FinishKeeps(cfg, Now(), base, done);
      transcript := done;
      MoveFirst(finished, pending);
      finished := finished + [pending[0]];
      pending, cursor := pending[1..], FRESH;
      if owned > 0 {
        owned := owned - 1;
      }
    }

    /** Keeps the unfinished frames as the bot's own, or gives up on a sink that has failed for too long. */
    method Retain()
      requires Running() && pending != []
      modifies this`pending, this`owned, this`cursor, this`terminal
      ensures Valid() && (!terminal ==> owned == |pending| > 0)
      ensures terminal <==> |old(pending)| > cfg.maxPending
    {
      if |pending| > cfg.maxPending {
        OnTrackPrefix(cfg, Now(), base, released);
        Fail();
        return;
      }
      owned := |pending|;
    }

    /** Makes the bot terminal and drops the work it can no longer finish. */
    method Fail()
      requires cfg.keyframeInterval > 0 && Extends(Transcript(cfg, base, released), transcript)
      modifies this`pending, this`owned, this`cursor, this`terminal
      ensures Valid() && terminal
    {
      terminal, pending, owned, cursor := true, [], 0, FRESH;
    }

    /**
     Replaces the state by a snapshot: unfinished frames are dropped, and the chain continues from the
     restored hash. A failed or mismatching restore is terminal.
     */
    method Restore(got: Option<nat>, want: Option<nat>)
      requires Valid() && !terminal
      modifies this
      ensures Valid()
      ensures terminal <==> got.None? || (want.Some? && got.value != want.value)
      ensures !terminal ==> pending == [] && base == got.value && released == [] && transcript == Start
    {
      if got.None? || (want.Some? && got.value != want.value) {
        OnTrackPrefix(cfg, Now(), base, released);
        Fail();
        return;
      }
      pending, owned, cursor := [], 0, FRESH;
      sum := got.value;
      base, released, finished, transcript := sum, [], [], Start;
    }
  }
}
