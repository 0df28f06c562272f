/** What one call decides, written out over the state and the frame: when a proposal is made and which, when an
    acknowledgement is accepted, and when a value fits. */
module ReplyDecisions {
  import opened Bytes
  import opened Outcomes
  import opened ValueTransport
  import opened ReplyMachine
  import opened ReplySafety
  import Utf8

  // ---- Acknowledgements

  /** An acknowledgement is accepted if and only if it names the very decision that is pending and its token; a refused one
      leaves nothing pending, and the reply failed. */
  lemma CommitIff(p: Setup, m: Machine, genuine: bool, emitted: Token)
    requires ValidSetup(p) && Inv(p, m)
    ensures var (next, ok) := Commit(p, m, genuine, emitted);
            && (ok <==> genuine && m.pending.Some? && m.pending.value.token == Some(emitted))
            && (ok ==> next.prefix == m.prefix + [emitted] && next.pending.None? && next.frame.None?)
            && (ok ==> next.activations == m.activations + if m.pending.value.kind == Start then 1 else 0)
            && (ok ==> (next.state == Done <==> emitted == p.codec.eos) && next.state in {Idle, Active, Done})
            && (ok && emitted != p.codec.eos ==> (next.state == Active <==> m.pending.value.kind in {Start, Continue}))
            && (!ok ==> next.state == Failed && next.pending.None? && next.prefix == m.prefix)
  {
    hide Utf8.Valid, Concat;
  }

  /** The same in every state that calls can reach. */
  lemma AcceptedIsGenuine(p: Setup, events: seq<Event>, genuine: bool, emitted: Token)
    requires ValidSetup(p)
    ensures var m := RunOf(p, events).machine;
            var (next, ok) := Commit(p, m, genuine, emitted);
            && (ok <==> genuine && m.pending.Some? && m.pending.value.token == Some(emitted))
            && (!ok ==> next.state == Failed && next.pending.None? && next.prefix == m.prefix)
  {
    hide RunOf, Commit, Inv;
    ReachableInv(p, events);
    CommitIff(p, RunOf(p, events).machine, genuine, emitted);
  }

  // ---- Proposals

  /** A proposal is answered at all: between two tokens, for a sound frame of the actual prefix and of an admissible origin,
      within both budgets. */
  predicate Allowed(p: Setup, m: Machine, f: LiveFrame) {
    && (m.state == Idle || m.state == Active) && m.pending.None?
    && f.sound && f.prefixIds == m.prefix
    && (f.origin == SyntheticTest ==> p.allowSynthetic)
    && (m.frameOrigin.Some? ==> m.frameOrigin.value == f.origin)
    && |m.prefix| < |p.initial| + p.maxNew && |m.prefix| < p.limits.maxTotalTokens
  }

  /** A value starts here: the bytes that the frame names can be written after the actual prefix, the value was not read
      too often, and its tokens fit both token budgets together with the END after them. */
  ghost predicate StartFits(p: Setup, m: Machine, f: LiveFrame, ids: seq<Token>)
    requires |m.prefix| >= 1
  {
    var text := p.codec.Text(m.prefix[1..]);
    && m.activations < p.maxReads && f.prediction.handle.Some?
    && var h := f.prediction.handle.value;
       && h.origin == NeuralPrediction && Selectable(h, p.snapshot, false)
       && f.prediction.valueBytes == (h.span.value.start, h.span.value.end)
       && Continuable(p.codec, m.prefix, text) && Carries(p.codec, Named(h, p.snapshot), ids)
       && |Named(h, p.snapshot)| <= p.limits.maxValueBytes && |ids| <= p.limits.maxValueTokens
       && |m.prefix| + |ids| + 1 <= |p.initial| + p.maxNew
       && |m.prefix| + |ids| + 1 <= p.limits.maxTotalTokens
  }

  /** A START binds a cursor if and only if the value fits, and then one for exactly those tokens. */
  lemma ActivateIff(p: Setup, m: Machine, f: LiveFrame, ids: seq<Token>)
    requires |m.prefix| >= 1 && |m.prefix| >= |p.initial|
    ensures (Activate(p, m.prefix, m.activations, f).Ok? && Activate(p, m.prefix, m.activations, f).value.tokens == ids) <==>
            StartFits(p, m, f, ids)
    ensures StartFits(p, m, f, ids) ==>
              Activate(p, m.prefix, m.activations, f)
              == Ok(Cursor(f.prediction.handle.value, m.prefix, ids, p.codec.Pieces(ids),
                           Named(f.prediction.handle.value, p.snapshot), 0))
  {
    hide Utf8.Valid, CompileAppend, Carries, Named, Concat, CursorOk;
    var remaining := p.maxNew - (|m.prefix| - |p.initial|);
    if StartFits(p, m, f, ids) {
      CarriesSome(p.codec, Named(f.prediction.handle.value, p.snapshot), ids);
    }
    if f.prediction.handle.Some? && remaining >= 2 && p.limits.maxTotalTokens >= 1 {
      var h := f.prediction.handle.value;
      var text := p.codec.Text(m.prefix[1..]);
      var limits := Limits(p.limits.maxValueBytes, Min(p.limits.maxValueTokens, remaining - 1), p.limits.maxTotalTokens - 1);
      var r := CompileAppend(h, p.snapshot, m.prefix, text, p.codec, limits, false);
      if r.Ok? && r.value.Some? {
        CompileAppendIff(h, p.snapshot, m.prefix, text, p.codec, limits, false, r.value.value);
      }
      if StartFits(p, m, f, ids) {
        var k := Cursor(h, m.prefix, ids, p.codec.Pieces(ids), Named(h, p.snapshot), 0);
        CompileAppendIff(h, p.snapshot, m.prefix, text, p.codec, limits, false, k);
      }
    }
  }

  lemma CarriesSome(c: Codec, value: Bytes, ids: seq<Token>)
    requires Carries(c, value, ids)
    ensures ids != []
  {
  }

  /** A proposal that fails: nothing is pending, the reply has failed, the prefix stays. */
  predicate Refused(m: Machine, next: Machine, d: Option<Decision>) {
    d.None? && next.state == Failed && next.pending.None? && next.prefix == m.prefix
  }

  /** A proposal that leaves a decision to be acknowledged. */
  predicate Offers(m: Machine, f: LiveFrame, next: Machine, d: Option<Decision>, kind: Kind, token: Token, route: int) {
    && d == Some(Decision(kind, Some(token), m.prefix, route, f.origin))
    && next.pending == d && next.frame == Some(f) && next.state == m.state
    && next.route == Some(route) && next.frameOrigin == Some(f.origin) && next.activations == m.activations
  }

  lemma RefusedUnlessAllowed(p: Setup, m: Machine, f: LiveFrame)
    requires ValidSetup(p) && Inv(p, m) && |m.prefix| >= 1 && !Allowed(p, m, f)
    ensures var (next, d) := Propose(p, m, f); Refused(m, next, d)
  {
    hide Activate, Choose;
  }

  /** Inside a value the next of its tokens is proposed, and END behind the last. */
  lemma ValueIsContinued(p: Setup, m: Machine, f: LiveFrame)
    requires ValidSetup(p) && Inv(p, m) && |m.prefix| >= 1 && Allowed(p, m, f) && m.cursor.Some?
    ensures var (next, d) := Propose(p, m, f);
            var k := m.cursor.value;
            && next.cursor == m.cursor
            && if k.offset == |k.tokens| then Offers(m, f, next, d, End, f.argmax, 1)
               else k.offset < |k.tokens| && Offers(m, f, next, d, Continue, k.tokens[k.offset], 1)
  {
    hide Activate;
  }

  /** A frame that the reader may route here: the reply has no route yet, or the reader repeats it. */
  predicate Routed(m: Machine, f: LiveFrame) {
    f.prediction.route in {0, 1, 2} && (m.route.Some? ==> m.route.value == f.prediction.route)
  }

  /** Outside a value: on route 0 always the most likely token; otherwise what the reader's route asks for, which may not
      change. Uncertainty ends the reply without a token. */
  lemma PlainProposal(p: Setup, m: Machine, f: LiveFrame)
    requires ValidSetup(p) && Inv(p, m) && |m.prefix| >= 1 && Allowed(p, m, f) && m.cursor.None?
    ensures var (next, d) := Propose(p, m, f);
            if m.route == Some(0) then next.cursor.None? && Offers(m, f, next, d, Base, f.argmax, 0)
            else if !Routed(m, f) then Refused(m, next, d)
            else if f.prediction.route == 2 then
              && d == Some(Decision(NeedsUncertainty, None, m.prefix, 2, f.origin))
              && next.state == WaitUncertainty && next.pending.None? && next.route == Some(2) && next.prefix == m.prefix
            else (f.prediction.route == 1 && f.prediction.start)
                 || (next.cursor.None? && Offers(m, f, next, d, Base, f.argmax, f.prediction.route))
  {
    hide Activate;
  }

  /** A frame that asks for a value on route 1 starts it if and only if it fits, with the first of its tokens. */
  lemma StartProposal(p: Setup, m: Machine, f: LiveFrame, ids: seq<Token>)
    requires ValidSetup(p) && Inv(p, m) && |m.prefix| >= 1 && Allowed(p, m, f) && m.cursor.None?
    requires m.route != Some(0) && Routed(m, f) && f.prediction.route == 1 && f.prediction.start
    ensures var (next, d) := Propose(p, m, f);
            && ((exists some :: StartFits(p, m, f, some)) <==> d.Some?)
            && (d.None? ==> Refused(m, next, d))
            && (StartFits(p, m, f, ids) ==>
                  && ids != [] && Offers(m, f, next, d, Start, ids[0], 1)
                  && next.cursor == Some(Cursor(f.prediction.handle.value, m.prefix, ids, p.codec.Pieces(ids),
                                                Named(f.prediction.handle.value, p.snapshot), 0)))
  {
    hide Activate, StartFits, CursorOk, Selectable, Utf8.Valid, Choose, Conclude, Inv, Offers, Refused;
    var activation := Activate(p, m.prefix, m.activations, f);
    WithinBudgets(p, m);
    if activation.Ok? {
      ActivateIff(p, m, f, activation.value.tokens);
      ActivateReserves(p, m, f);
    }
    forall some | StartFits(p, m, f, some) ensures activation.Ok? && activation.value.tokens == some {
      ActivateIff(p, m, f, some);
    }
    StartConcluded(p, m, f, activation);
    if StartFits(p, m, f, ids) {
      ActivateIff(p, m, f, ids);
    }
  }

  lemma WithinBudgets(p: Setup, m: Machine)
    requires Inv(p, m)
    ensures Remaining(p, m) >= 0 && |m.prefix| >= |p.initial|
  {
  }

  lemma StartConcluded(p: Setup, m: Machine, f: LiveFrame, activation: Result<Cursor, TransportError>)
    requires ValidSetup(p) && Inv(p, m) && |m.prefix| >= 1 && Allowed(p, m, f) && m.cursor.None?
    requires m.route != Some(0) && Routed(m, f) && f.prediction.route == 1 && f.prediction.start
    requires activation.Ok? ==> Bound(p, m, f, activation.value)
    ensures var (next, d) := Conclude(m, f, Choose(p, m, f, activation));
            && (d.Some? <==> activation.Ok?) && (d.None? ==> Refused(m, next, d))
            && (activation.Ok? ==>
                  && activation.value.tokens != [] && Offers(m, f, next, d, Start, activation.value.tokens[0], 1)
                  && next.cursor == Some(activation.value))
  {
    hide Utf8.Valid, Concat;
  }
}
