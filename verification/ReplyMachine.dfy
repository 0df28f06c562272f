/** The propose/commit machine of one reply, as a function on its state. */
module ReplyMachine {
  import opened Bytes
  import opened Outcomes
  import opened ValueTransport
  import Utf8

  datatype FrameOrigin = NativeFresh | SyntheticTest

  datatype Kind = Base | Start | Continue | End | NeedsUncertainty

  datatype State = Idle | Active | WaitUncertainty | Done | Failed

  /** What the reader answers for one frame; `handle` is absent when the reader refuses to bind one. */
  datatype Prediction = Prediction(route: int, start: bool, valueBytes: (nat, nat), handle: Option<Handle>)

  /** A frame: the prefix it was computed for, its most likely next token, and the reader's answer.
      `sound` stands for the shape, type and identity checks on the tensors. */
  datatype LiveFrame = LiveFrame(
    prefixIds: seq<Token>, argmax: Token, origin: FrameOrigin, sound: bool, prediction: Prediction)

  datatype Decision = Decision(kind: Kind, token: Option<Token>, prefixIds: seq<Token>, route: int, origin: FrameOrigin)

  datatype Setup = Setup(
    codec: Codec, snapshot: Snapshot, initial: seq<Token>,
    maxNew: nat, maxReads: nat, limits: Limits, allowSynthetic: bool)

  /** What the constructor demands. */
  predicate ValidSetup(p: Setup) {
    && p.maxNew > 0 && p.maxReads > 0
    && p.limits.maxValueBytes > 0 && p.limits.maxValueTokens > 0
    && p.codec.ValidIds(p.initial) && p.initial[0] == p.codec.bos
    && |p.initial| < p.limits.maxTotalTokens
    && p.codec.eos < p.codec.vocab
    && |p.snapshot| <= 1
  }

  datatype Machine = Machine(
    state: State, route: Option<int>, cursor: Option<Cursor>, activations: nat,
    pending: Option<Decision>, frame: Option<LiveFrame>, frameOrigin: Option<FrameOrigin>, prefix: seq<Token>)

  function Fresh(p: Setup): Machine {
    Machine(Idle, None, None, 0, None, None, None, p.initial)
  }

  /** The exception path: only the state and the pending decision are touched. */
  function Failing(m: Machine): Machine {
    m.(state := Failed, pending := None)
  }

  function Remaining(p: Setup, m: Machine): int {
    p.maxNew - (|m.prefix| - |p.initial|)
  }

  predicate FrameOk(p: Setup, m: Machine, f: LiveFrame) {
    && f.sound
    && (f.origin == NativeFresh || p.allowSynthetic)
    && (m.frameOrigin == None || m.frameOrigin == Some(f.origin))
    && f.prefixIds == m.prefix
  }

  function Min(a: int, b: int): int {
    if a <= b then a else b
  }

  /** START: bind the predicted handle and compile its whole value within what is left of the budgets,
      one token held back for END. */
  function Activate(p: Setup, prefix: seq<Token>, activations: nat, f: LiveFrame): Result<Cursor, TransportError>
    requires |prefix| >= 1
  {
    var remaining := p.maxNew - (|prefix| - |p.initial|);
    :- Need(activations < p.maxReads, Rejected);
    :- Need(remaining >= 2 && p.limits.maxTotalTokens - |prefix| >= 2, Rejected);
    var handle := f.prediction.handle;
    :- Need(handle.Some? && handle.value.origin == NeuralPrediction && handle.value.span.Some? &&
            (handle.value.span.value.start, handle.value.span.value.end) == f.prediction.valueBytes, Rejected);
    var effective := Limits(p.limits.maxValueBytes, Min(p.limits.maxValueTokens, remaining - 1), p.limits.maxTotalTokens - 1);
    var actualText := p.codec.Text(prefix[1..]);
    :- Need(Utf8.Valid(actualText), Rejected);
    var compiled :- CompileAppend(handle.value, p.snapshot, prefix, actualText, p.codec, effective, false);
    :- Need(compiled.Some?, Rejected);
    Ok(compiled.value)
  }

  /** The kind and token proposed for a frame that passed validation, with the state left behind so far;
      a failure also leaves a route behind if it had been latched. */
  datatype Choice = Choice(machine: Machine, picked: Option<(Kind, Option<Token>)>)

  /** `activation` is what a START at this frame would bind. */
  function Choose(p: Setup, m: Machine, f: LiveFrame, activation: Result<Cursor, TransportError>): (c: Choice)
    ensures c.machine.prefix == m.prefix
  {
    if m.cursor.Some? then
      var k := m.cursor.value;
      if k.Done() then
        if k.Accepts(p.snapshot, m.prefix, false) then Choice(m, Some((End, Some(f.argmax)))) else Choice(m, None)
      else
        var t := k.Select(f.argmax, p.snapshot, m.prefix, false);
        if t.Ok? then Choice(m, Some((Continue, Some(t.value)))) else Choice(m, None)
    else if m.route == Some(0) then Choice(m, Some((Base, Some(f.argmax))))
    else
      var route := f.prediction.route;
      if m.route.Some? && m.route.value != route then Choice(m, None)
      else
        var latched := m.(route := Some(route));
        if route == 2 then Choice(latched, Some((NeedsUncertainty, None)))
        else if route == 1 && f.prediction.start then
          if activation.Err? then Choice(latched, None)
          else
            var t := activation.value.Select(f.argmax, p.snapshot, m.prefix, false);
            var started := latched.(cursor := Some(activation.value));
            if t.Ok? then Choice(started, Some((Start, Some(t.value)))) else Choice(started, None)
        else Choice(latched, Some((Base, Some(f.argmax))))
  }

  function Propose(p: Setup, m: Machine, f: LiveFrame): (r: (Machine, Option<Decision>))
    requires |m.prefix| >= 1
    ensures r.0.prefix == m.prefix
  {
    if !(m.state in {Idle, Active} && m.pending.None?) then (Failing(m), None)
    else if !FrameOk(p, m, f) then (Failing(m), None)
    else if !(Remaining(p, m) > 0 && |m.prefix| < p.limits.maxTotalTokens) then (Failing(m), None)
    else Conclude(m, f, Choose(p, m, f, Activate(p, m.prefix, m.activations, f)))
  }

  /** The decision made of a choice; uncertainty ends the reply without a pending decision. */
  function Conclude(m: Machine, f: LiveFrame, c: Choice): (r: (Machine, Option<Decision>))
    ensures r.0.prefix == c.machine.prefix
  {
    if c.picked.None? || c.machine.route.None? || c.machine.route.value !in {0, 1, 2} then (Failing(c.machine), None)
    else
      var (kind, token) := c.picked.value;
      var d := Decision(kind, token, m.prefix, c.machine.route.value, f.origin);
      var seen := c.machine.(frameOrigin := Some(f.origin));
      if kind == NeedsUncertainty then (seen.(state := WaitUncertainty), Some(d))
      else (seen.(pending := Some(d), frame := Some(f)), Some(d))
  }

  /** `genuine`: the acknowledged decision is the very object that was proposed. */
  function Commit(p: Setup, m: Machine, genuine: bool, emitted: Token): (r: (Machine, bool))
    ensures r.0.prefix == if r.1 then m.prefix + [emitted] else m.prefix
  {
    if !(m.state in {Idle, Active} && m.pending.Some? && genuine) then (Failing(m), false)
    else if m.pending.value.token != Some(emitted) then (Failing(m), false)
    else
      var kind := m.pending.value.kind;
      if kind in {Start, Continue} then
        if m.cursor.None? then (Failing(m), false)
        else
          var k := m.cursor.value.Commit(emitted, p.snapshot, m.prefix, false);
          if k.Err? then (Failing(m), false)
          else
            (Emit(p, m.(cursor := Some(k.value), state := Active, activations := m.activations + if kind == Start then 1 else 0), emitted), true)
      else if kind == End then
        if m.cursor.Some? && m.cursor.value.Done() then (Emit(p, m.(cursor := None, state := Idle), emitted), true)
        else (Failing(m), false)
      else (Emit(p, m.(state := Idle), emitted), true)
  }

  function Emit(p: Setup, m: Machine, emitted: Token): Machine {
    m.(prefix := m.prefix + [emitted], state := if emitted == p.codec.eos then Done else m.state,
       pending := None, frame := None)
  }

  // ---- Runs

  datatype Event = Proposal(frame: LiveFrame) | Acknowledgement(genuine: bool, emitted: Token)

  /** One token that really went out: the frame it answered and the kind of action that chose it. */
  datatype Entry = Entry(frame: LiveFrame, kind: Kind, token: Token)

  datatype Run = Run(machine: Machine, log: seq<Entry>)

  function Step(p: Setup, r: Run, e: Event): (next: Run)
    requires |r.machine.prefix| >= 1
    ensures |next.machine.prefix| >= 1
  {
    match e
    case Proposal(f) => Run(Propose(p, r.machine, f).0, r.log)
    case Acknowledgement(genuine, emitted) =>
      var (next, ok) := Commit(p, r.machine, genuine, emitted);
      if ok && r.machine.frame.Some? then
        Run(next, r.log + [Entry(r.machine.frame.value, r.machine.pending.value.kind, emitted)])
      else Run(next, r.log)
  }

  /** The state after any sequence of calls on a new controller, and the tokens acknowledged on the way. */
  function RunOf(p: Setup, events: seq<Event>): (r: Run)
    requires ValidSetup(p)
    ensures |r.machine.prefix| >= 1
  {
    if events == [] then Run(Fresh(p), [])
    else Step(p, RunOf(p, events[..|events| - 1]), events[|events| - 1])
  }

  function Tokens(log: seq<Entry>): (r: seq<Token>)
    ensures |r| == |log|
    ensures forall i :: 0 <= i < |log| ==> r[i] == log[i].token
  {
    seq(|log|, i requires 0 <= i < |log| => log[i].token)
  }
}
