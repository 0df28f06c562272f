/** Invariants of every run of the reply machine: budgets, routing and what the emitted tokens spell. */
module ReplySafety {
  import opened Bytes
  import opened Outcomes
  import opened ValueTransport
  import opened ReplyMachine

  /** Room for the whole value and for the END after it was taken when the value was activated. */
  predicate Reserved(p: Setup, k: Cursor) {
    && |k.initial| + |k.tokens| + 1 <= p.limits.maxTotalTokens
    && |k.initial| - |p.initial| + |k.tokens| + 1 <= p.maxNew
  }

  ghost predicate CursorInv(p: Setup, m: Machine) {
    m.cursor.Some? ==>
      var k := m.cursor.value;
      && CursorOk(k, p.codec, p.snapshot, false)
      && k.handle.span.Some?
      && m.prefix == k.Expected()
      && Reserved(p, k)
      && m.route == Some(1)
      && (k.offset == 0 ==> m.state == Failed || (m.pending.Some? && m.pending.value.kind == Start))
  }

  ghost predicate PendingInv(p: Setup, m: Machine) {
    m.pending.Some? ==>
      var d := m.pending.value;
      && m.state in {Idle, Active}
      && m.frame.Some? && m.frame.value.prefixIds == m.prefix && d.prefixIds == m.prefix
      && Remaining(p, m) > 0 && |m.prefix| < p.limits.maxTotalTokens
      && m.route == Some(d.route) && d.route in {0, 1}
      && d.token.Some?
      && match d.kind
         case Base => m.cursor.None? && d.token.value == m.frame.value.argmax
         case Start => m.cursor.Some? && m.activations < p.maxReads && m.cursor.value.offset == 0 &&
           |m.cursor.value.tokens| > 0 && d.token.value == m.cursor.value.tokens[0] && Names(m.frame.value, m.cursor.value)
         case Continue => m.cursor.Some? && 0 < m.cursor.value.offset < |m.cursor.value.tokens| &&
           d.token.value == m.cursor.value.tokens[m.cursor.value.offset]
         case End => m.cursor.Some? && m.cursor.value.Done() && d.token.value == m.frame.value.argmax
         case NeedsUncertainty => false
  }

  /** The frame's prediction named exactly the bytes that the cursor carries. */
  predicate Names(f: LiveFrame, k: Cursor) {
    && f.prediction.start && k.handle.span.Some? && k.handle.span.value.fact == 0
    && f.prediction.valueBytes == (k.handle.span.value.start, k.handle.span.value.end)
  }

  ghost predicate RouteInv(p: Setup, m: Machine) {
    && (m.route == Some(0) ==> m.cursor.None?)
    && (m.route == Some(2) ==> m.state in {WaitUncertainty, Failed} && m.prefix == p.initial)
    && (m.state == WaitUncertainty ==> m.route == Some(2) && m.pending.None?)
    && (m.prefix != p.initial ==> m.route in {Some(0), Some(1)})
  }

  ghost predicate Inv(p: Setup, m: Machine) {
    && p.initial <= m.prefix
    && Remaining(p, m) >= 0 && |m.prefix| <= p.limits.maxTotalTokens
    && m.activations <= p.maxReads
    && CursorInv(p, m) && PendingInv(p, m) && RouteInv(p, m)
    && (m.state == Active ==> m.cursor.Some? && m.cursor.value.offset > 0)
    && (m.state == Idle && m.pending.None? ==> m.cursor.None?)
    && (m.state == Done ==> m.prefix != [] && m.prefix[|m.prefix| - 1] == p.codec.eos && m.pending.None?)
  }

  /** A cursor bound by a START at this state and frame. */
  ghost predicate Bound(p: Setup, m: Machine, f: LiveFrame, k: Cursor) {
    && CursorOk(k, p.codec, p.snapshot, false) && Reserved(p, k)
    && k.initial == m.prefix && k.offset == 0 && m.prefix == k.Expected()
    && m.activations < p.maxReads
    && k.handle.span.Some? && k.handle.span.value.fact == 0
    && f.prediction.valueBytes == (k.handle.span.value.start, k.handle.span.value.end)
  }

  lemma ActivateReserves(p: Setup, m: Machine, f: LiveFrame)
    requires ValidSetup(p) && Remaining(p, m) >= 0 && |m.prefix| >= 1
    requires Activate(p, m.prefix, m.activations, f).Ok?
    ensures Bound(p, m, f, Activate(p, m.prefix, m.activations, f).value)
  {
    var k := Activate(p, m.prefix, m.activations, f).value;
    assert k.tokens[..0] == [] && k.initial + [] == k.initial;
  }

  /** What a proposal changes: perhaps the route, perhaps a cursor that has emitted nothing. */
  predicate Proposed(m: Machine, next: Machine) {
    && next.prefix == m.prefix
    && (next.cursor == m.cursor || (m.cursor.None? && next.cursor.Some? && next.cursor.value.offset == 0))
    && (next.route == m.route || m.route.None?)
  }

  lemma ConcludeInValue(p: Setup, m: Machine, f: LiveFrame, activation: Result<Cursor, TransportError>)
    requires ValidSetup(p) && Inv(p, m)
    requires m.state in {Idle, Active} && m.pending.None? && f.prefixIds == m.prefix
    requires Remaining(p, m) > 0 && |m.prefix| < p.limits.maxTotalTokens
    requires m.cursor.Some?
    ensures var next := Conclude(m, f, Choose(p, m, f, activation)).0;
            Inv(p, next) && Proposed(m, next)
  {
  }

  lemma ConcludeIdle(p: Setup, m: Machine, f: LiveFrame, activation: Result<Cursor, TransportError>)
    requires ValidSetup(p) && Inv(p, m)
    requires m.state in {Idle, Active} && m.pending.None? && f.prefixIds == m.prefix
    requires Remaining(p, m) > 0 && |m.prefix| < p.limits.maxTotalTokens
    requires m.cursor.None? && (m.route == Some(0) || !(f.prediction.route == 1 && f.prediction.start) || activation.Err?)
    ensures var next := Conclude(m, f, Choose(p, m, f, activation)).0;
            Inv(p, next) && Proposed(m, next)
  {
  }

  lemma ConcludeStart(p: Setup, m: Machine, f: LiveFrame, activation: Result<Cursor, TransportError>)
    requires ValidSetup(p) && Inv(p, m)
    requires m.state in {Idle, Active} && m.pending.None? && f.prefixIds == m.prefix
    requires Remaining(p, m) > 0 && |m.prefix| < p.limits.maxTotalTokens
    requires m.cursor.None? && m.route != Some(0) && f.prediction.route == 1 && f.prediction.start
    requires activation.Ok? && Bound(p, m, f, activation.value)
    ensures var next := Conclude(m, f, Choose(p, m, f, activation)).0;
            Inv(p, next) && Proposed(m, next)
  {
  }

  lemma ProposeKeeps(p: Setup, m: Machine, f: LiveFrame)
    requires ValidSetup(p) && Inv(p, m) && |m.prefix| >= 1
    ensures Inv(p, Propose(p, m, f).0) && Proposed(m, Propose(p, m, f).0)
  {
    var activation := Activate(p, m.prefix, m.activations, f);
    if activation.Ok? {
      ActivateReserves(p, m, f);
    }
    if m.state in {Idle, Active} && m.pending.None? && f.prefixIds == m.prefix &&
       Remaining(p, m) > 0 && |m.prefix| < p.limits.maxTotalTokens {
      if m.cursor.Some? {
        ConcludeInValue(p, m, f, activation);
      } else if m.route != Some(0) && f.prediction.route == 1 && f.prediction.start && activation.Ok? {
        ConcludeStart(p, m, f, activation);
      } else {
        ConcludeIdle(p, m, f, activation);
      }
    }
  }

  /** What an accepted acknowledgement changes. */
  predicate Committed(m: Machine, emitted: Token, next: Machine) {
    && m.pending.Some? && m.frame.Some? && m.state in {Idle, Active}
    && m.pending.value.token == Some(emitted)
    && next.prefix == m.prefix + [emitted] && next.route == m.route
    && (if m.pending.value.kind in {Start, Continue} then
          m.cursor.Some? && next.cursor == Some(m.cursor.value.(offset := m.cursor.value.offset + 1))
        else next.cursor.None?)
  }

  lemma CommitKeeps(p: Setup, m: Machine, genuine: bool, emitted: Token)
    requires ValidSetup(p) && Inv(p, m)
    ensures var (next, ok) := Commit(p, m, genuine, emitted);
            && Inv(p, next)
            && (ok ==> Committed(m, emitted, next))
            && (!ok ==> next == Failing(m))
  {
    if m.pending.Some? && m.pending.value.token == Some(emitted) && m.pending.value.kind in {Start, Continue} {
      CommitInValue(p, m, genuine, emitted);
    } else {
      CommitElsewhere(p, m, genuine, emitted);
    }
  }

  lemma CommitInValue(p: Setup, m: Machine, genuine: bool, emitted: Token)
    requires ValidSetup(p) && Inv(p, m)
    requires m.pending.Some? && m.pending.value.token == Some(emitted) && m.pending.value.kind in {Start, Continue}
    ensures var (next, ok) := Commit(p, m, genuine, emitted);
            && Inv(p, next)
            && (ok ==> Committed(m, emitted, next))
            && (!ok ==> next == Failing(m))
  {
    var k := m.cursor.value;
    assert k.tokens[..k.offset + 1] == k.tokens[..k.offset] + [k.tokens[k.offset]];
    assert m.prefix + [k.tokens[k.offset]] == k.initial + k.tokens[..k.offset + 1];
  }

  lemma CommitElsewhere(p: Setup, m: Machine, genuine: bool, emitted: Token)
    requires ValidSetup(p) && Inv(p, m)
    requires m.pending.Some? && m.pending.value.token == Some(emitted) ==> m.pending.value.kind !in {Start, Continue}
    ensures var (next, ok) := Commit(p, m, genuine, emitted);
            && Inv(p, next)
            && (ok ==> Committed(m, emitted, next))
            && (!ok ==> next == Failing(m))
  {
  }

  /** Budgets and routing hold in every reachable state. */
  lemma {:induction false} ReachableInv(p: Setup, events: seq<Event>)
    requires ValidSetup(p)
    ensures Inv(p, RunOf(p, events).machine)
    decreases |events|
  {
    if events != [] {
      var before := events[..|events| - 1];
      ReachableInv(p, before);
      match events[|events| - 1]
      case Proposal(f) => ProposeKeeps(p, RunOf(p, before).machine, f);
      case Acknowledgement(genuine, emitted) => CommitKeeps(p, RunOf(p, before).machine, genuine, emitted);
    }
  }

  /** In every reachable state the token, context and activation budgets are respected. */
  lemma BudgetsRespected(p: Setup, events: seq<Event>)
    requires ValidSetup(p)
    ensures var m := RunOf(p, events).machine;
            && |m.prefix| - |p.initial| <= p.maxNew
            && |m.prefix| <= p.limits.maxTotalTokens
            && m.activations <= p.maxReads
  {
    ReachableInv(p, events);
  }

  /** Uncertainty is reachable only by route 2 and before any token; nothing can be committed from a final state. */
  lemma FinalStates(p: Setup, events: seq<Event>, genuine: bool, emitted: Token)
    requires ValidSetup(p)
    ensures var m := RunOf(p, events).machine;
            && (m.state == WaitUncertainty ==> m.route == Some(2) && m.prefix == p.initial)
            && (m.route == Some(2) ==> m.prefix == p.initial)
            && (m.state in {WaitUncertainty, Done, Failed} ==> !Commit(p, m, genuine, emitted).1)
  {
    ReachableInv(p, events);
  }

  /** Once latched, the route of a reply never changes. */
  lemma RouteLatched(p: Setup, events: seq<Event>, e: Event)
    requires ValidSetup(p)
    ensures var r := RunOf(p, events);
            r.machine.route.Some? ==> Step(p, r, e).machine.route == r.machine.route
  {
    hide Activate, Choose, Conclude;
    var m := RunOf(p, events).machine;
    ReachableInv(p, events);
    match e
    case Proposal(f) => ProposeKeeps(p, m, f);
    case Acknowledgement(genuine, emitted) => CommitKeeps(p, m, genuine, emitted);
  }

  // ---- What went out

  /** `log[s..e]` is a START and the CONTINUEs after it. */
  predicate ValueRun(log: seq<Entry>, s: int, e: int) {
    && 0 <= s < e <= |log|
    && log[s].kind == Start
    && forall i :: s < i < e ==> log[i].kind == Continue
  }

  predicate InValue(entry: Entry) {
    entry.kind in {Start, Continue}
  }

  /** The bytes of the stored source that the frame of a START named. */
  function NamedValue(p: Setup, entry: Entry): Bytes {
    var (from, to) := entry.frame.prediction.valueBytes;
    if |p.snapshot| == 1 && from <= to <= |p.snapshot[0]| then p.snapshot[0][from..to] else []
  }

  ghost predicate Grammar(log: seq<Entry>) {
    && (forall i :: 0 <= i < |log| ==> log[i].kind != NeedsUncertainty)
    && (forall i :: 0 <= i < |log| && log[i].kind in {Continue, End} ==> i > 0 && InValue(log[i - 1]))
    && (forall i :: 0 < i < |log| && log[i].kind in {Start, Base} ==> !InValue(log[i - 1]))
  }

  ghost predicate Answered(p: Setup, log: seq<Entry>) {
    forall i :: 0 <= i < |log| ==>
      && log[i].frame.prefixIds == p.initial + Tokens(log)[..i]
      && (log[i].kind in {Base, End} ==> log[i].token == log[i].frame.argmax)
  }

  ghost predicate Carried(p: Setup, log: seq<Entry>) {
    forall s, e :: ValueRun(log, s, e) ==>
      && p.codec.Text(Tokens(log)[s..e]) <= NamedValue(p, log[s])
      && (e < |log| && log[e].kind == End ==> p.codec.Text(Tokens(log)[s..e]) == NamedValue(p, log[s]))
  }

  /** The value in flight started `offset` tokens ago. */
  ghost predicate InFlight(p: Setup, m: Machine, log: seq<Entry>) {
    if m.cursor.Some? && m.cursor.value.offset > 0 then
      var k := m.cursor.value;
      var s := |log| - k.offset;
      && CursorOk(k, p.codec, p.snapshot, false)
      && ValueRun(log, s, |log|)
      && Tokens(log)[s..] == k.tokens[..k.offset]
      && k.value == NamedValue(p, log[s])
    else log != [] ==> !InValue(log[|log| - 1])
  }

  ghost predicate LogInv(p: Setup, r: Run) {
    && r.machine.prefix == p.initial + Tokens(r.log)
    && Grammar(r.log) && Answered(p, r.log) && Carried(p, r.log) && InFlight(p, r.machine, r.log)
    && (r.machine.route == Some(0) ==> forall i :: 0 <= i < |r.log| ==> r.log[i].kind == Base)
  }

  lemma TokensSnoc(log: seq<Entry>, x: Entry)
    ensures Tokens(log + [x]) == Tokens(log) + [x.token]
    ensures forall i, j :: 0 <= i <= j <= |log| ==> Tokens(log + [x])[i..j] == Tokens(log)[i..j]
  {
  }

  /** A run that ends at the last entry starts where the value in flight started. */
  lemma OneOpenRun(log: seq<Entry>, s: int, t: int)
    requires ValueRun(log, s, |log|) && ValueRun(log, t, |log|)
    ensures s == t
  {
  }

  lemma RunBefore(log: seq<Entry>, x: Entry, s: int, e: int)
    requires ValueRun(log + [x], s, e)
    ensures e <= |log| ==> ValueRun(log, s, e)
    ensures e == |log| + 1 && s < |log| ==> ValueRun(log, s, |log|) && x.kind == Continue
    ensures s == |log| ==> x.kind == Start && e == |log| + 1
  {
    var more := log + [x];
    assert more[|log|] == x;
    assert forall i :: 0 <= i < |log| ==> more[i] == log[i];
  }

  /** The value in flight spells the bytes named at its START, token by token. */
  lemma FlightSpells(p: Setup, m: Machine, log: seq<Entry>, n: nat)
    requires InFlight(p, m, log) && m.cursor.Some? && m.cursor.value.offset > 0 && n <= |m.cursor.value.tokens|
    ensures var k := m.cursor.value;
            var s := |log| - k.offset;
            && ValueRun(log, s, |log|) && Tokens(log)[s..] == k.tokens[..k.offset]
            && p.codec.Text(k.tokens) == NamedValue(p, log[s])
            && p.codec.Text(k.tokens[..n]) <= NamedValue(p, log[s])
  {
    TextPrefix(p.codec, m.cursor.value.tokens, n);
  }

  lemma CarriedSnoc(p: Setup, m: Machine, log: seq<Entry>, x: Entry)
    requires Carried(p, log) && InFlight(p, m, log)
    requires x.kind == Start ==> p.codec.Text([x.token]) <= NamedValue(p, x)
    requires x.kind in {Continue, End} ==> m.cursor.Some? && 0 < m.cursor.value.offset <= |m.cursor.value.tokens|
    requires x.kind == Continue ==> !m.cursor.value.Done() && x.token == m.cursor.value.tokens[m.cursor.value.offset]
    requires x.kind == End ==> m.cursor.value.Done()
    ensures Carried(p, log + [x])
  {
    var more := log + [x];
    forall s, e | ValueRun(more, s, e)
      ensures p.codec.Text(Tokens(more)[s..e]) <= NamedValue(p, more[s])
      ensures e < |more| && more[e].kind == End ==> p.codec.Text(Tokens(more)[s..e]) == NamedValue(p, more[s])
    {
      hide Carried, InFlight, NamedValue;
      CarriedRun(p, m, log, x, s, e);
    }
  }

  lemma CarriedRun(p: Setup, m: Machine, log: seq<Entry>, x: Entry, s: int, e: int)
    requires Carried(p, log) && InFlight(p, m, log) && ValueRun(log + [x], s, e)
    requires x.kind == Start ==> p.codec.Text([x.token]) <= NamedValue(p, x)
    requires x.kind in {Continue, End} ==> m.cursor.Some? && 0 < m.cursor.value.offset <= |m.cursor.value.tokens|
    requires x.kind == Continue ==> !m.cursor.value.Done() && x.token == m.cursor.value.tokens[m.cursor.value.offset]
    requires x.kind == End ==> m.cursor.value.Done()
    ensures var more := log + [x];
            && p.codec.Text(Tokens(more)[s..e]) <= NamedValue(p, more[s])
            && (e < |more| && more[e].kind == End ==> p.codec.Text(Tokens(more)[s..e]) == NamedValue(p, more[s]))
  {
    var more := log + [x];
    hide InFlight, NamedValue;
    TokensSnoc(log, x);
    RunBefore(log, x, s, e);
    assert s < |log| ==> more[s] == log[s];
    assert e < |log| ==> more[e] == log[e];
    if e == |log| && x.kind == End {
      ClosedRun(p, m, log, s);
    } else if e == |log| + 1 && s < |log| {
      LongerRun(p, m, log, x, s);
    } else if s == |log| {
      assert Tokens(more)[s..e] == [x.token];
    }
  }

  lemma ClosedRun(p: Setup, m: Machine, log: seq<Entry>, s: int)
    requires InFlight(p, m, log) && m.cursor.Some? && m.cursor.value.offset == |m.cursor.value.tokens| > 0
    requires ValueRun(log, s, |log|)
    ensures p.codec.Text(Tokens(log)[s..|log|]) == NamedValue(p, log[s])
  {
    var k := m.cursor.value;
    FlightSpells(p, m, log, 0);
    OneOpenRun(log, s, |log| - k.offset);
    assert Tokens(log)[s..|log|] == Tokens(log)[s..] && k.tokens[..k.offset] == k.tokens;
  }

  lemma LongerRun(p: Setup, m: Machine, log: seq<Entry>, x: Entry, s: int)
    requires InFlight(p, m, log) && m.cursor.Some? && 0 < m.cursor.value.offset < |m.cursor.value.tokens|
    requires x.token == m.cursor.value.tokens[m.cursor.value.offset] && ValueRun(log, s, |log|)
    ensures p.codec.Text(Tokens(log + [x])[s..|log| + 1]) <= NamedValue(p, log[s])
  {
    var k := m.cursor.value;
    FlightSpells(p, m, log, k.offset + 1);
    OneOpenRun(log, s, |log| - k.offset);
    TokensSnoc(log, x);
    hide InFlight, ValueRun, NamedValue;
    assert k.tokens[..k.offset + 1] == k.tokens[..k.offset] + [x.token];
    assert Tokens(log + [x])[s..|log| + 1] == Tokens(log)[s..] + [x.token];
  }

  lemma FirstToken(p: Setup, m: Machine)
    requires ValidSetup(p) && Inv(p, m)
    requires m.pending.Some? && m.pending.value.kind == Start
    ensures var x := Entry(m.frame.value, Start, m.pending.value.token.value);
            && p.codec.Text([x.token]) <= NamedValue(p, x)
            && m.cursor.value.value == NamedValue(p, x)
  {
    var k := m.cursor.value;
    assert k.tokens[..1] == [k.tokens[0]];
    TextPrefix(p.codec, k.tokens, 1);
  }

  lemma ProposedKeepsLog(p: Setup, m: Machine, next: Machine, log: seq<Entry>)
    requires LogInv(p, Run(m, log)) && Proposed(m, next) && RouteInv(p, m)
    ensures LogInv(p, Run(next, log))
  {
    if m.route.None? {
      assert m.prefix == p.initial && |Tokens(log)| == 0;
    }
  }

  lemma CommittedKeepsLog(p: Setup, m: Machine, next: Machine, log: seq<Entry>, emitted: Token)
    requires ValidSetup(p) && Inv(p, m) && LogInv(p, Run(m, log)) && Committed(m, emitted, next)
    ensures LogInv(p, Run(next, log + [Entry(m.frame.value, m.pending.value.kind, emitted)]))
  {
    var x := Entry(m.frame.value, m.pending.value.kind, emitted);
    TokensSnoc(log, x);
    assert m.prefix + [emitted] == p.initial + (Tokens(log) + [emitted]);
    if x.kind == Start {
      FirstToken(p, m);
    }
    OpenIff(p, m, log);
    CarriedSnoc(p, m, log, x);
    AnsweredSnoc(p, m, log, x);
    GrammarSnoc(p, m, log, x);
    InFlightSnoc(p, m, next, log, x);
  }

  lemma AnsweredSnoc(p: Setup, m: Machine, log: seq<Entry>, x: Entry)
    requires Answered(p, log) && m.prefix == p.initial + Tokens(log)
    requires x.frame.prefixIds == m.prefix && (x.kind in {Base, End} ==> x.token == x.frame.argmax)
    ensures Answered(p, log + [x])
  {
    TokensSnoc(log, x);
    var more := log + [x];
    forall i | 0 <= i < |more|
      ensures more[i].frame.prefixIds == p.initial + Tokens(more)[..i]
      ensures more[i].kind in {Base, End} ==> more[i].token == more[i].frame.argmax
    {
      assert Tokens(more)[..i] == Tokens(log)[..i];
      if i == |log| {
        assert Tokens(log)[..i] == Tokens(log);
      } else {
        assert more[i] == log[i];
      }
    }
  }

  lemma GrammarSnoc(p: Setup, m: Machine, log: seq<Entry>, x: Entry)
    requires Grammar(log) && x.kind != NeedsUncertainty
    requires x.kind in {Continue, End} <==> log != [] && InValue(log[|log| - 1])
    ensures Grammar(log + [x])
  {
  }

  /** Between two calls the last token out belongs to a value exactly when the cursor has emitted something. */
  lemma OpenIff(p: Setup, m: Machine, log: seq<Entry>)
    requires InFlight(p, m, log)
    ensures m.cursor.Some? && m.cursor.value.offset > 0 <==> log != [] && InValue(log[|log| - 1])
  {
  }

  lemma InFlightStart(p: Setup, m: Machine, next: Machine, log: seq<Entry>, x: Entry)
    requires ValidSetup(p) && Inv(p, m) && x.kind == Start
    requires Committed(m, x.token, next) && x.kind == m.pending.value.kind && x.frame == m.frame.value
    ensures InFlight(p, next, log + [x])
  {
    var more := log + [x];
    var k := m.cursor.value;
    FirstToken(p, m);
    assert k.tokens[..1] == [x.token];
    assert Tokens(more)[|log|..] == [x.token];
  }

  lemma CursorAdvances(k: Cursor, c: Codec, snapshot: Snapshot, allowOracle: bool)
    requires CursorOk(k, c, snapshot, allowOracle) && k.offset < |k.tokens|
    ensures CursorOk(k.(offset := k.offset + 1), c, snapshot, allowOracle)
  {
  }

  lemma InFlightContinue(p: Setup, m: Machine, next: Machine, log: seq<Entry>, x: Entry)
    requires PendingInv(p, m) && InFlight(p, m, log) && x.kind == Continue
    requires Committed(m, x.token, next) && x.kind == m.pending.value.kind
    ensures InFlight(p, next, log + [x])
  {
    hide CursorOk, NamedValue;
    var more := log + [x];
    var k := m.cursor.value;
    var s := |log| - k.offset;
    CursorAdvances(k, p.codec, p.snapshot, false);
    TokensSnoc(log, x);
    ExtendRun(log, x, s);
    assert k.tokens[..k.offset + 1] == k.tokens[..k.offset] + [x.token];
    assert Tokens(more)[s..] == Tokens(log)[s..] + [x.token];
    assert more[s] == log[s];
  }

  lemma InFlightSnoc(p: Setup, m: Machine, next: Machine, log: seq<Entry>, x: Entry)
    requires ValidSetup(p) && Inv(p, m) && InFlight(p, m, log)
    requires Committed(m, x.token, next) && x.kind == m.pending.value.kind && x.frame == m.frame.value
    ensures InFlight(p, next, log + [x])
  {
    if x.kind == Start {
      InFlightStart(p, m, next, log, x);
    } else if x.kind == Continue {
      InFlightContinue(p, m, next, log, x);
    } else {
      assert (log + [x])[|log|] == x;
    }
  }

  lemma ExtendRun(log: seq<Entry>, x: Entry, s: int)
    requires ValueRun(log, s, |log|) && x.kind == Continue
    ensures ValueRun(log + [x], s, |log| + 1)
  {
    var more := log + [x];
    assert forall i :: 0 <= i < |log| ==> more[i] == log[i];
  }

  lemma StepKeepsLog(p: Setup, r: Run, e: Event)
    requires ValidSetup(p) && |r.machine.prefix| >= 1
    requires Inv(p, r.machine) && LogInv(p, r)
    ensures LogInv(p, Step(p, r, e))
  {
    hide Activate, Choose, Conclude;
    match e
    case Proposal(f) =>
      ProposeKeeps(p, r.machine, f);
      ProposedKeepsLog(p, r.machine, Propose(p, r.machine, f).0, r.log);
    case Acknowledgement(genuine, emitted) =>
      var (next, ok) := Commit(p, r.machine, genuine, emitted);
      CommitKeeps(p, r.machine, genuine, emitted);
      if ok {
        CommittedKeepsLog(p, r.machine, next, r.log, emitted);
      }
  }

  lemma {:induction false} ReachableLog(p: Setup, events: seq<Event>)
    requires ValidSetup(p)
    ensures LogInv(p, RunOf(p, events))
    decreases |events|
  {
    if events == [] {
      assert p.initial + [] == p.initial;
    } else {
      var before := events[..|events| - 1];
      ReachableInv(p, before);
      ReachableLog(p, before);
      StepKeepsLog(p, RunOf(p, before), events[|events| - 1]);
    }
  }

  /** Over every run the prefix is the prompt followed by exactly the acknowledged tokens, and each was chosen for
      the prefix it extends. */
  lemma PrefixIsPromptAndAcknowledged(p: Setup, events: seq<Event>)
    requires ValidSetup(p)
    ensures var r := RunOf(p, events);
            && r.machine.prefix == p.initial + Tokens(r.log)
            && forall i :: 0 <= i < |r.log| ==> r.log[i].frame.prefixIds == p.initial + Tokens(r.log)[..i]
  {
    ReachableLog(p, events);
  }

  /** Over every run, the tokens from a START on spell a prefix of the source bytes that its frame named,
      and all of them once END is reached; CONTINUE and END occur nowhere else. */
  lemma TransportIsExact(p: Setup, events: seq<Event>, s: int, e: int)
    requires ValidSetup(p)
    ensures var log := RunOf(p, events).log;
            && Grammar(log)
            && (ValueRun(log, s, e) ==>
              && p.codec.Text(Tokens(log)[s..e]) <= NamedValue(p, log[s])
              && (e < |log| && log[e].kind == End ==> p.codec.Text(Tokens(log)[s..e]) == NamedValue(p, log[s])))
  {
    ReachableLog(p, events);
  }

  /** Plain greedy decoding: the argmax of each prefix, appended. */
  function Greedy(next: seq<Token> -> Token, prefix: seq<Token>, n: nat): (r: seq<Token>)
    ensures |r| == n
    decreases n
  {
    if n == 0 then [] else [next(prefix)] + Greedy(next, prefix + [next(prefix)], n - 1)
  }

  lemma {:induction false} GreedyUnique(next: seq<Token> -> Token, prefix: seq<Token>, ids: seq<Token>)
    requires forall i :: 0 <= i < |ids| ==> ids[i] == next(prefix + ids[..i])
    ensures ids == Greedy(next, prefix, |ids|)
    decreases |ids|
  {
    if ids != [] {
      assert prefix + ids[..0] == prefix;
      forall i | 0 <= i < |ids| - 1
        ensures ids[1..][i] == next((prefix + [ids[0]]) + ids[1..][..i])
      {
        assert (prefix + [ids[0]]) + ids[1..][..i] == prefix + ids[..i + 1];
      }
      GreedyUnique(next, prefix + [ids[0]], ids[1..]);
    }
  }

  /** A reply routed 0 is, for its whole run, the plain greedy continuation of the prompt. */
  lemma RouteZeroIsGreedy(p: Setup, events: seq<Event>, next: seq<Token> -> Token)
    requires ValidSetup(p) && RunOf(p, events).machine.route == Some(0)
    requires forall i :: 0 <= i < |RunOf(p, events).log| ==>
      var f := RunOf(p, events).log[i].frame; f.argmax == next(f.prefixIds)
    ensures var r := RunOf(p, events);
            r.machine.prefix == p.initial + Greedy(next, p.initial, |r.log|)
  {
    ReachableLog(p, events);
    GreedyUnique(next, p.initial, Tokens(RunOf(p, events).log));
  }

  // ---- The reserved budget

  /** One frame proposed and its token acknowledged. */
  function Turn(p: Setup, m: Machine, f: LiveFrame): (r: (Machine, bool))
    requires |m.prefix| >= 1
  {
    var (proposed, d) := Propose(p, m, f);
    if d.None? || d.value.token.None? then (proposed, false)
    else Commit(p, proposed, true, d.value.token.value)
  }

  /** Between a START and its END no budget can fail: each sound frame yields the next value token, and then END. */
  lemma ValueTurnSucceeds(p: Setup, m: Machine, f: LiveFrame)
    requires ValidSetup(p) && Inv(p, m)
    requires m.cursor.Some? && m.state == Active && m.pending.None?
    requires FrameOk(p, m, f)
    ensures |m.prefix| >= 1
    ensures var k := m.cursor.value;
            var (next, ok) := Turn(p, m, f);
            && ok && Inv(p, next)
            && (if k.Done() then
                  && next.cursor.None? && next.state == (if f.argmax == p.codec.eos then Done else Idle)
                  && next.prefix == m.prefix + [f.argmax]
                else
                  && next.cursor == Some(k.(offset := k.offset + 1))
                  && next.prefix == m.prefix + [k.tokens[k.offset]]
                  && next.state == if k.tokens[k.offset] == p.codec.eos then Done else Active)
            && next.pending.None? && next.frameOrigin == Some(f.origin)
  {
    var k := m.cursor.value;
    assert |k.Expected()| == |k.initial| + k.offset;
    var proposed := Propose(p, m, f).0;
    ProposeKeeps(p, m, f);
    CommitKeeps(p, proposed, true, proposed.pending.value.token.value);
  }

  /** Turn after turn, with frames made by `frameOf` for whatever prefix is reached. */
  function Turns(p: Setup, m: Machine, frameOf: seq<Token> -> LiveFrame, n: nat): (r: (Machine, bool))
    requires |m.prefix| >= 1
    decreases n
  {
    if n == 0 then (m, true)
    else
      var (next, ok) := Turn(p, m, frameOf(m.prefix));
      if ok && |next.prefix| >= 1 then Turns(p, next, frameOf, n - 1) else (next, false)
  }

  /** From any reachable state inside a value, with EOS blocked, the rest of the value and its END always go out:
      the prefix grows by exactly the remaining tokens and one argmax, and no budget check can stop it. */
  lemma {:induction false} ValueAlwaysCompletes(p: Setup, m: Machine, frameOf: seq<Token> -> LiveFrame)
    requires ValidSetup(p) && Inv(p, m) && p.codec.eos in p.codec.blocked
    requires m.cursor.Some? && m.state == Active && m.pending.None?
    requires forall prefix :: SoundFrame(p, m.frameOrigin, frameOf(prefix), prefix)
    ensures |m.prefix| >= 1
    ensures var k := m.cursor.value;
            var left := k.tokens[k.offset..];
            var (end, ok) := Turns(p, m, frameOf, |left| + 1);
            var last := frameOf(m.prefix + left).argmax;
            && ok && end.cursor.None? && end.prefix == m.prefix + left + [last]
            && end.state == if last == p.codec.eos then Done else Idle
    decreases |m.cursor.value.tokens| - m.cursor.value.offset
  {
    hide Turn;
    var k := m.cursor.value;
    var left := k.tokens[k.offset..];
    var f := frameOf(m.prefix);
    assert SoundFrame(p, m.frameOrigin, f, m.prefix);
    ValueTurnSucceeds(p, m, f);
    var next := Turn(p, m, f).0;
    if k.Done() {
      assert left == [] && m.prefix + left == m.prefix;
      assert Turns(p, next, frameOf, 0) == (next, true);
    } else {
      forall prefix
        ensures SoundFrame(p, next.frameOrigin, frameOf(prefix), prefix)
      {
        assert SoundFrame(p, m.frameOrigin, frameOf(prefix), prefix);
        assert SoundFrame(p, m.frameOrigin, frameOf(m.prefix), m.prefix);
      }
      ValueAlwaysCompletes(p, next, frameOf);
      assert left == [k.tokens[k.offset]] + k.tokens[k.offset + 1..];
      assert next.prefix + k.tokens[k.offset + 1..] == m.prefix + left;
    }
  }

  /** The same after any sequence of calls: a committed START is always followed through to its END. */
  lemma ReachableValueCompletes(p: Setup, events: seq<Event>, frameOf: seq<Token> -> LiveFrame)
    requires ValidSetup(p) && p.codec.eos in p.codec.blocked
    requires var m := RunOf(p, events).machine;
             && m.cursor.Some? && m.state == Active && m.pending.None?
             && forall prefix :: SoundFrame(p, m.frameOrigin, frameOf(prefix), prefix)
    ensures var m := RunOf(p, events).machine;
            var k := m.cursor.value;
            var (end, ok) := Turns(p, m, frameOf, |k.tokens| - k.offset + 1);
            && ok && end.cursor.None? && |end.prefix| == |k.initial| + |k.tokens| + 1
            && k.initial + k.tokens <= end.prefix
            && |end.prefix| - |p.initial| <= p.maxNew && |end.prefix| <= p.limits.maxTotalTokens
  {
    hide Turns, RunOf;
    var m := RunOf(p, events).machine;
    var k := m.cursor.value;
    ReachableInv(p, events);
    ValueAlwaysCompletes(p, m, frameOf);
    assert |k.tokens[k.offset..]| == |k.tokens| - k.offset;
    assert k.tokens[..k.offset] + k.tokens[k.offset..] == k.tokens;
    assert m.prefix + k.tokens[k.offset..] == k.initial + k.tokens;
  }

  predicate SoundFrame(p: Setup, origin: Option<FrameOrigin>, f: LiveFrame, prefix: seq<Token>) {
    && f.sound && f.prefixIds == prefix
    && f.origin == NativeFresh
    && (origin == None || origin == Some(NativeFresh))
  }
}
