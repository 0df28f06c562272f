/** A compiled trajectory is a run of the controller: the simulation between the teacher and the reply machine. */
module Replay {
  import opened Bytes
  import opened Outcomes
  import opened ValueTransport
  import opened Teacher
  import opened ReplyMachine
  import opened ReplySafety
  import Utf8

  function KindOf(phase: Phase): Kind {
    match phase
    case Generate => Base
    case StartValue => Start
    case ContinueValue => Continue
    case EndValue => End
  }

  /** The reply setup that a record belongs to, with budgets that the compiled trajectory fits. */
  ghost predicate Fits(p: Setup, r: Record) {
    && ValidSetup(p)
    && TeacherOf(p.codec, r).Ok?
    && p.initial == r.prompt && p.snapshot == [r.source]
    && p.codec.eos in p.codec.blocked
    && var t := TeacherOf(p.codec, r).value;
       var k := CompilePieces(p.codec, r).value.cursor;
       && |t.completion| <= p.maxNew && |t.prompt| + |t.completion| <= p.limits.maxTotalTokens
       && |k.value| <= p.limits.maxValueBytes && |k.tokens| <= p.limits.maxValueTokens
  }

  /** The frame at position `i`: the argmax is the teacher's token where the model speaks for itself, and the reader
      reports route 1, starting the value exactly where the trajectory does and naming its bytes. */
  predicate FrameAt(t: Trajectory, i: nat, f: LiveFrame)
    requires i < |t.completion| == |t.phases| && t.targets.valueBytes.Some?
  {
    && f.sound && f.origin == NativeFresh
    && f.prefixIds == t.prompt + t.completion[..i]
    && (t.phases[i] in {Generate, EndValue} ==> f.argmax == t.completion[i])
    && (t.phases[i] == Generate ==> f.prediction.route == 1 && !f.prediction.start)
    && (t.phases[i] == StartValue ==>
          && f.prediction.route == 1 && f.prediction.start
          && f.prediction.valueBytes == t.targets.valueBytes.value
          && f.prediction.handle == Some(NeuralHandle(t.targets.valueBytes.value)))
  }

  function NeuralHandle(bounds: (nat, nat)): Handle {
    Handle(Some(Span(0, bounds.0, bounds.1)), NeuralPrediction)
  }

  /** Each frame proposed, then the trajectory's token acknowledged. */
  function ReplayEvents(frames: seq<LiveFrame>, ids: seq<Token>, n: nat): seq<Event>
    requires n <= |frames| && n <= |ids|
  {
    if n == 0 then []
    else ReplayEvents(frames, ids, n - 1) + [Proposal(frames[n - 1]), Acknowledgement(true, ids[n - 1])]
  }

  lemma RunOfTwo(p: Setup, events: seq<Event>, x: Event, y: Event)
    requires ValidSetup(p)
    ensures RunOf(p, events + [x, y]) == Step(p, Step(p, RunOf(p, events), x), y)
  {
    var all := events + [x, y];
    assert all[..|all| - 1] == events + [x];
    assert (events + [x])[..|events|] == events;
  }

  lemma SpaceBeforePlain(text: Bytes)
    requires PlainText(text)
    ensures PlainText(SPACE + text)
  {
    Utf8.OneCharValid(SPACE);
    Utf8.ValidAppend(SPACE, text);
  }

  /** The neural handle compiles to the same tokens as the gold one, from the decoded prefix instead of the prompt text. */
  lemma SameValueTokens(c: Codec, source: Bytes, gold: Handle, prefix: seq<Token>, text: Bytes, limits: Limits)
    requires gold.span.Some? && gold.origin == OracleFixture
    requires var k := CompileAppend(gold, [source], prefix, text, c, DEFAULT_LIMITS, true);
             && k.Ok? && k.value.Some?
             && |k.value.value.value| <= limits.maxValueBytes
             && |k.value.value.tokens| <= limits.maxValueTokens
             && |prefix| + |k.value.value.tokens| <= limits.maxTotalTokens
    ensures |prefix| >= 1
    ensures var k := CompileAppend(gold, [source], prefix, text, c, DEFAULT_LIMITS, true).value.value;
            var actual := c.Text(prefix[1..]);
            && Utf8.Valid(actual)
            && CompileAppend(gold.(origin := NeuralPrediction), [source], prefix, actual, c, limits, false)
               == Ok(Some(k.(handle := gold.(origin := NeuralPrediction))))
  {
    hide EncodeValue, Concat, Utf8.Valid;
    SpaceBeforePlainIf(text);
    var k := CompileAppend(gold, [source], prefix, text, c, DEFAULT_LIMITS, true).value.value;
    assert |k.tokens| >= 1;
  }

  lemma SpaceBeforePlainIf(text: Bytes)
    ensures PlainText(text) ==> PlainText(SPACE + text)
  {
    if PlainText(text) {
      SpaceBeforePlain(text);
    }
  }

  /** Where the controller stands after the first `i` tokens of the trajectory. */
  ghost predicate Stands(p: Setup, t: Trajectory, k: Cursor, i: nat, m: Machine)
    requires i <= |t.completion|
  {
    var a, n := |k.initial| - |p.initial|, |k.tokens|;
    && m.prefix == p.initial + t.completion[..i]
    && m.pending.None? && m.frameOrigin in {None, Some(NativeFresh)}
    && m.route in {None, Some(1)} && (i > 0 ==> m.route == Some(1))
    && (if i <= a then m.cursor.None? && m.state == Idle && m.activations == 0
        else if i <= a + n then m.cursor == Some(k.(offset := i - a)) && m.state == Active && m.activations == 1
        else m.cursor.None? && m.activations == 1 && m.state == if i == |t.completion| then Done else Idle)
  }

  /** The cursor the controller will bind: the gold one under the predicted handle. */
  function Bind(k: Cursor): Cursor {
    k.(handle := k.handle.(origin := NeuralPrediction))
  }

  /** The trajectory as the sequence of its parts. */
  ghost predicate Laid(p: Setup, t: Trajectory, k: Cursor) {
    && CursorOk(k, p.codec, p.snapshot, false) && k.offset == 0 && |k.tokens| > 0
    && p.initial <= k.initial
    && var a, n := |k.initial| - |p.initial|, |k.tokens|;
       && a + n < |t.completion| == |t.phases|
       && t.prompt == p.initial && k.initial == p.initial + t.completion[..a]
       && t.completion[a..a + n] == k.tokens
       && t.phases == PhasesOf(a, n, |t.completion| - a - n - 1)
       && t.completion[|t.completion| - 1] == p.codec.eos
       && (forall i :: 0 <= i < |t.completion| - 1 ==> t.completion[i] != p.codec.eos)
       && |t.completion| <= p.maxNew && |p.initial| + |t.completion| <= p.limits.maxTotalTokens
       && t.targets.valueBytes.Some?
       && k.handle == NeuralHandle(t.targets.valueBytes.value)
  }

  lemma BindKeepsOk(k: Cursor, c: Codec, snapshot: Snapshot)
    requires CursorOk(k, c, snapshot, true)
    ensures CursorOk(Bind(k), c, snapshot, false)
  {
    hide Utf8.Valid, Concat;
  }

  lemma FitsIsLaid(p: Setup, r: Record)
    requires Fits(p, r)
    ensures CompilePieces(p.codec, r).Ok?
    ensures Laid(p, TeacherOf(p.codec, r).value, Bind(CompilePieces(p.codec, r).value.cursor))
  {
    hide EncodeValue, CompileAppend, TeacherOf, CompilePieces, Find, Count, PhasesOf, Concat, UsableReply, Utf8.Valid, CursorOk, Selected;
    TeacherParts(p.codec, r);
    var q := CompilePieces(p.codec, r).value;
    var t := TeacherOf(p.codec, r).value;
    BindKeepsOk(q.cursor, p.codec, p.snapshot);
    assert t.completion[..|q.pre|] == q.pre;
    assert t.completion[|t.completion| - 1] == p.codec.eos;
    assert p.initial + q.pre == q.cursor.initial;
    var k := Bind(q.cursor);
    PhaseAt(|q.pre|, |k.tokens|, |q.post|, 0);
  }

  /** One turn before the value, or after its END. */
  lemma PlainTurn(p: Setup, m: Machine, f: LiveFrame)
    requires ValidSetup(p) && |m.prefix| >= 1 && m.pending.None? && m.cursor.None? && m.state == Idle
    requires FrameOk(p, m, f) && Remaining(p, m) > 0 && |m.prefix| < p.limits.maxTotalTokens
    requires f.prediction.route == 1 && !f.prediction.start && m.route in {None, Some(1)}
    ensures var proposed := Propose(p, m, f).0;
            && proposed.frame == Some(f) && proposed.pending.Some? && proposed.pending.value.kind == Base
            && Commit(p, proposed, true, f.argmax) ==
               (m.(prefix := m.prefix + [f.argmax], route := Some(1), frameOrigin := Some(f.origin), frame := None,
                   state := if f.argmax == p.codec.eos then Done else Idle), true)
  {
    hide Activate;
  }

  lemma StartTurn(p: Setup, m: Machine, f: LiveFrame, k: Cursor)
    requires ValidSetup(p) && |m.prefix| >= 1 && m.pending.None? && m.cursor.None? && m.state == Idle
    requires FrameOk(p, m, f) && Remaining(p, m) > 0 && |m.prefix| < p.limits.maxTotalTokens
    requires f.prediction.route == 1 && f.prediction.start && m.route in {None, Some(1)}
    requires Activate(p, m.prefix, m.activations, f) == Ok(k)
    requires CursorOk(k, p.codec, p.snapshot, false) && k.offset == 0 && k.initial == m.prefix
    ensures var proposed := Propose(p, m, f).0;
            && proposed.frame == Some(f) && proposed.pending.Some? && proposed.pending.value.kind == Start
            && Commit(p, proposed, true, k.tokens[0]) ==
               (m.(prefix := m.prefix + [k.tokens[0]], route := Some(1), frameOrigin := Some(f.origin), frame := None,
                   cursor := Some(k.(offset := 1)), activations := m.activations + 1,
                   state := if k.tokens[0] == p.codec.eos then Done else Active), true)
  {
    hide Activate, Selected;
    assert k.initial + k.tokens[..0] == m.prefix;
  }

  lemma ValueTurn(p: Setup, m: Machine, f: LiveFrame, emitted: Token)
    requires ValidSetup(p) && |m.prefix| >= 1 && m.pending.None? && m.cursor.Some? && m.state == Active
    requires FrameOk(p, m, f) && Remaining(p, m) > 0 && |m.prefix| < p.limits.maxTotalTokens && m.route == Some(1)
    requires CursorOk(m.cursor.value, p.codec, p.snapshot, false) && m.prefix == m.cursor.value.Expected()
    requires var k := m.cursor.value; emitted == if k.Done() then f.argmax else k.tokens[k.offset]
    ensures var k := m.cursor.value;
            var proposed := Propose(p, m, f).0;
            && proposed.frame == Some(f) && proposed.pending.Some?
            && proposed.pending.value.kind == (if k.Done() then End else Continue)
            && Commit(p, proposed, true, emitted) ==
               (m.(prefix := m.prefix + [emitted], frameOrigin := Some(f.origin), frame := None,
                   cursor := if k.Done() then None else Some(k.(offset := k.offset + 1)),
                   state := if emitted == p.codec.eos then Done else if k.Done() then Idle else Active), true)
  {
    hide Activate, Selected;
  }

  /** One position of the trajectory, replayed. */
  ghost predicate Replayed(p: Setup, t: Trajectory, k: Cursor, i: nat, m: Machine, f: LiveFrame)
    requires i < |t.completion| == |t.phases| && |m.prefix| >= 1
  {
    var proposed := Propose(p, m, f).0;
    var (next, ok) := Commit(p, proposed, true, t.completion[i]);
    && ok && proposed.frame == Some(f) && proposed.pending.Some?
    && proposed.pending.value.kind == KindOf(t.phases[i])
    && Stands(p, t, k, i + 1, next)
  }

  lemma ReplayStart(p: Setup, t: Trajectory, k: Cursor, i: nat, m: Machine, f: LiveFrame)
    requires ValidSetup(p) && Laid(p, t, k) && i < |t.completion| && Stands(p, t, k, i, m) && FrameAt(t, i, f)
    requires i == |k.initial| - |p.initial| && t.phases[i] == StartValue
    requires |m.prefix| >= 1 && m.prefix + [t.completion[i]] == p.initial + t.completion[..i + 1]
    requires Activate(p, m.prefix, 0, f) == Ok(k)
    ensures Replayed(p, t, k, i, m, f)
  {
    hide Propose, Commit, Activate, CursorOk, PhasesOf;
    CursorMoved(k, p, 0);
    assert t.completion[i..i + |k.tokens|][0] == t.completion[i];
    StartTurn(p, m, f, k);
  }

  lemma ReplayInValue(p: Setup, t: Trajectory, k: Cursor, i: nat, m: Machine, f: LiveFrame)
    requires ValidSetup(p) && Laid(p, t, k) && i < |t.completion| && Stands(p, t, k, i, m) && FrameAt(t, i, f)
    requires 0 < i - (|k.initial| - |p.initial|) <= |k.tokens|
    requires t.phases[i] == if i < |k.initial| - |p.initial| + |k.tokens| then ContinueValue else EndValue
    requires |m.prefix| >= 1 && m.prefix + [t.completion[i]] == p.initial + t.completion[..i + 1]
    ensures Replayed(p, t, k, i, m, f)
  {
    hide Propose, Commit, Activate, CursorOk, PhasesOf;
    var a, n := |k.initial| - |p.initial|, |k.tokens|;
    assert k.initial + k.tokens[..i - a] == m.prefix by {
      assert k.tokens[..i - a] == t.completion[a..i];
      assert t.completion[..a] + t.completion[a..i] == t.completion[..i];
    }
    assert i < a + n ==> t.completion[a..a + n][i - a] == t.completion[i];
    CursorMoved(k, p, i - a);
    ValueTurn(p, m, f, t.completion[i]);
  }

  lemma ReplayPlain(p: Setup, t: Trajectory, k: Cursor, i: nat, m: Machine, f: LiveFrame)
    requires ValidSetup(p) && Laid(p, t, k) && i < |t.completion| && Stands(p, t, k, i, m) && FrameAt(t, i, f)
    requires var a := |k.initial| - |p.initial|; (i < a || i > a + |k.tokens|) && t.phases[i] == Generate
    requires |m.prefix| >= 1 && m.prefix + [t.completion[i]] == p.initial + t.completion[..i + 1]
    ensures Replayed(p, t, k, i, m, f)
  {
    hide Propose, Commit, Activate, CursorOk, PhasesOf;
    PlainTurn(p, m, f);
  }

  lemma ReplayTurn(p: Setup, t: Trajectory, k: Cursor, i: nat, m: Machine, f: LiveFrame)
    requires ValidSetup(p) && Laid(p, t, k) && i < |t.completion| && Stands(p, t, k, i, m)
    requires FrameAt(t, i, f)
    requires |m.prefix| >= 1
    requires i == |k.initial| - |p.initial| ==> Activate(p, m.prefix, 0, f) == Ok(k)
    ensures Replayed(p, t, k, i, m, f)
  {
    hide Activate, CursorOk, PhasesOf, Replayed;
    var a, n := |k.initial| - |p.initial|, |k.tokens|;
    PhaseAt(a, n, |t.completion| - a - n - 1, i);
    assert t.completion[..i + 1] == t.completion[..i] + [t.completion[i]];
    assert m.prefix + [t.completion[i]] == p.initial + t.completion[..i + 1];
    if i == a {
      ReplayStart(p, t, k, i, m, f);
    } else if a < i <= a + n {
      ReplayInValue(p, t, k, i, m, f);
    } else {
      ReplayPlain(p, t, k, i, m, f);
    }
  }

  lemma CursorMoved(k: Cursor, p: Setup, offset: nat)
    requires CursorOk(k, p.codec, p.snapshot, false) && offset <= |k.tokens|
    ensures CursorOk(k.(offset := offset), p.codec, p.snapshot, false)
  {
  }

  /** At the START frame the controller binds the very cursor that the compiler stepped. */
  lemma BindsCompiledCursor(p: Setup, r: Record, f: LiveFrame)
    requires Fits(p, r)
    requires var q := CompilePieces(p.codec, r).value; FrameAt(TeacherOf(p.codec, r).value, |q.pre|, f)
    ensures var q := CompilePieces(p.codec, r).value;
            && |r.prompt + q.pre| >= 1
            && Activate(p, r.prompt + q.pre, 0, f) == Ok(Bind(q.cursor))
  {
    hide EncodeValue, TeacherOf, Find, Count, PhasesOf, Concat, UsableReply, Utf8.Valid, CursorOk;
    TeacherParts(p.codec, r);
    var q := CompilePieces(p.codec, r).value;
    var t := TeacherOf(p.codec, r).value;
    var a, n := |q.pre|, |q.cursor.tokens|;
    PhaseAt(a, n, |q.post|, a);
    var prefix := r.prompt + q.pre;
    var remaining := p.maxNew - (|prefix| - |p.initial|);
    var effective := Limits(p.limits.maxValueBytes, Min(p.limits.maxValueTokens, remaining - 1), p.limits.maxTotalTokens - 1);
    SameValueTokens(p.codec, r.source, GoldHandle(r), prefix, r.promptText + SplitReply(r).value.pre, effective);
  }

  /** Frames for every position of the compiled trajectory. */
  ghost predicate Follows(p: Setup, r: Record, frames: seq<LiveFrame>) {
    && Fits(p, r) && r.targets.valueBytes.Some?
    && var t := TeacherOf(p.codec, r).value;
       && |frames| == |t.completion| == |t.phases| && t.targets.valueBytes.Some?
       && forall j :: 0 <= j < |frames| ==> FrameAt(t, j, frames[j])
  }

  /** The run after `i` positions. */
  ghost predicate ReplayedTo(p: Setup, t: Trajectory, k: Cursor, frames: seq<LiveFrame>, i: nat, run: Run)
    requires i <= |frames| == |t.completion| == |t.phases|
  {
    && Stands(p, t, k, i, run.machine) && |run.machine.prefix| >= 1
    && |run.log| == i
    && forall j :: 0 <= j < i ==> run.log[j] == Entry(frames[j], KindOf(t.phases[j]), t.completion[j])
  }

  lemma ReplayedNext(p: Setup, t: Trajectory, k: Cursor, frames: seq<LiveFrame>, i: nat, run: Run)
    requires ValidSetup(p) && i < |frames| == |t.completion| == |t.phases|
    requires ReplayedTo(p, t, k, frames, i, run) && Replayed(p, t, k, i, run.machine, frames[i])
    ensures var proposed := Step(p, run, Proposal(frames[i]));
            ReplayedTo(p, t, k, frames, i + 1, Step(p, proposed, Acknowledgement(true, t.completion[i])))
  {
    hide Propose, Commit, Stands;
  }

  /** One more position of the replay. */
  lemma ReplayStep(p: Setup, r: Record, frames: seq<LiveFrame>, i: nat, run: Run)
    requires Follows(p, r, frames) && i < |frames| && CompilePieces(p.codec, r).Ok?
    requires var t := TeacherOf(p.codec, r).value;
             ReplayedTo(p, t, Bind(CompilePieces(p.codec, r).value.cursor), frames, i, run)
    ensures var t := TeacherOf(p.codec, r).value;
            var proposed := Step(p, run, Proposal(frames[i]));
            ReplayedTo(p, t, Bind(CompilePieces(p.codec, r).value.cursor), frames, i + 1,
                       Step(p, proposed, Acknowledgement(true, t.completion[i])))
  {
    hide TeacherOf, CompilePieces, Step, Activate, PhasesOf, CursorOk, Replayed;
    FitsIsLaid(p, r);
    var t := TeacherOf(p.codec, r).value;
    var q := CompilePieces(p.codec, r).value;
    var k := Bind(q.cursor);
    if i == |k.initial| - |p.initial| {
      TeacherParts(p.codec, r);
      BindsCompiledCursor(p, r, frames[i]);
      assert run.machine.prefix == r.prompt + q.pre;
    }
    ReplayTurn(p, t, k, i, run.machine, frames[i]);
    ReplayedNext(p, t, k, frames, i, run);
  }

  /** The whole replay, position by position. */
  lemma {:induction false} ReplayUpTo(p: Setup, r: Record, frames: seq<LiveFrame>, i: nat)
    requires Follows(p, r, frames) && i <= |frames|
    ensures CompilePieces(p.codec, r).Ok?
    ensures var t := TeacherOf(p.codec, r).value;
            var k := Bind(CompilePieces(p.codec, r).value.cursor);
            ReplayedTo(p, t, k, frames, i, RunOf(p, ReplayEvents(frames, t.completion, i)))
  {
    hide TeacherOf, CompilePieces, Step, Activate, PhasesOf, CursorOk;
    FitsIsLaid(p, r);
    var t := TeacherOf(p.codec, r).value;
    if i == 0 {
      assert p.initial + t.completion[..0] == p.initial;
    } else {
      hide ReplayedTo;
      ReplayUpTo(p, r, frames, i - 1);
      var events := ReplayEvents(frames, t.completion, i - 1);
      ReplayStep(p, r, frames, i - 1, RunOf(p, events));
      RunOfTwo(p, events, Proposal(frames[i - 1]), Acknowledgement(true, t.completion[i - 1]));
    }
  }

  /** Simulation: given frames that follow a compiled trajectory and budgets that hold it, the controller emits exactly
      its tokens, by actions that match its phases one for one, and ends DONE. */
  lemma TrajectoryReplays(p: Setup, r: Record, frames: seq<LiveFrame>)
    requires Follows(p, r, frames)
    ensures var t := TeacherOf(p.codec, r).value;
            var run := RunOf(p, ReplayEvents(frames, t.completion, |frames|));
            && run.machine.state == Done
            && run.machine.prefix == t.prompt + t.completion
            && Tokens(run.log) == t.completion
            && forall j :: 0 <= j < |frames| ==> run.log[j].kind == KindOf(t.phases[j])
  {
    hide TeacherOf, CompilePieces, PhasesOf, CursorOk, RunOf;
    ReplayUpTo(p, r, frames, |frames|);
    FitsIsLaid(p, r);
    var t := TeacherOf(p.codec, r).value;
    assert t.completion[..|frames|] == t.completion;
  }
}
