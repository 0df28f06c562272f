/** The controller object: fields updated by `propose` and `commit`, each call one step of `ReplyMachine`. */
module Controller {
  import opened Bytes
  import opened Outcomes
  import opened ValueTransport
  import M = ReplyMachine
  import Utf8

  /** A proposed action; `commit` recognises it by identity, so an equal copy is not accepted. */
  class ProposedAction {
    const decision: M.Decision

    constructor (decision: M.Decision)
      ensures this.decision == decision
    {
      this.decision := decision;
    }
  }

  class AutonomousValueController {
    const setup: M.Setup
    var state: M.State
    var route: Option<int>
    var cursor: Option<Cursor>
    var activations: nat
    var pending: ProposedAction?
    var frame: Option<M.LiveFrame>
    var frameOrigin: Option<M.FrameOrigin>
    var prefix: seq<Token>

    function Model(): M.Machine
      reads this
    {
      M.Machine(state, route, cursor, activations,
                if pending == null then None else Some(pending.decision), frame, frameOrigin, prefix)
    }

    constructor (setup: M.Setup)
      requires M.ValidSetup(setup)
      ensures this.setup == setup && Model() == M.Fresh(setup)
    {
      this.setup := setup;
      state, route, cursor, activations := M.Idle, None, None, 0;
      pending, frame, frameOrigin, prefix := null, None, None, setup.initial;
    }

    /** The exception path of both calls. */
    method Reject()
      modifies this`state, this`pending
      ensures Model() == M.Failing(old(Model()))
    {
      state, pending := M.Failed, null;
    }

    /** Null stands for a raised exception. */
    method Propose(f: M.LiveFrame) returns (action: ProposedAction?)
      requires |prefix| >= 1
      modifies this
      ensures Model() == M.Propose(setup, old(Model()), f).0
      ensures M.Propose(setup, old(Model()), f).1 ==
              if action == null then None else Some(action.decision)
      ensures action != null ==> fresh(action) && (action.decision.kind != M.NeedsUncertainty ==> pending == action)
    {
      hide M.Activate, M.Choose, M.FrameOk;
      action := null;
      if !(state in {M.Idle, M.Active} && pending == null) {
        Reject();
        return;
      }
      if !M.FrameOk(setup, Model(), f) {
        Reject();
        return;
      }
      var remaining := setup.maxNew - (|prefix| - |setup.initial|);
      if !(remaining > 0 && |prefix| < setup.limits.maxTotalTokens) {
        Reject();
        return;
      }
      var picked := Pick(f);
      if picked.None? {
        Reject();
        return;
      }
      var (kind, token) := picked.value;
      if route.None? || route.value !in {0, 1, 2} {
        Reject();
        return;
      }
      action := new ProposedAction(M.Decision(kind, token, prefix, route.value, f.origin));
      frameOrigin := Some(f.origin);
      if kind == M.NeedsUncertainty {
        state := M.WaitUncertainty;
        return;
      }
      pending, frame := action, Some(f);
    }

    /** The choice between END, CONTINUE, START, uncertainty and the plain token; None when a check raises. */
    method Pick(f: M.LiveFrame) returns (picked: Option<(M.Kind, Option<Token>)>)
      requires |prefix| >= 1
      modifies this`route, this`cursor
      ensures M.Choice(Model(), picked) ==
              M.Choose(setup, old(Model()), f, M.Activate(setup, prefix, activations, f))
    {
      hide M.Activate, Cursor.Accepts;
      if cursor.Some? {
        if cursor.value.Done() {
          picked := if cursor.value.Accepts(setup.snapshot, prefix, false) then Some((M.End, Some(f.argmax))) else None;
        } else {
          var selected := cursor.value.Select(f.argmax, setup.snapshot, prefix, false);
          picked := if selected.Ok? then Some((M.Continue, Some(selected.value))) else None;
        }
      } else if route != Some(0) {
        if route.Some? && route.value != f.prediction.route {
          return None;
        }
        route := Some(f.prediction.route);
        if f.prediction.route == 2 {
          picked := Some((M.NeedsUncertainty, None));
        } else if f.prediction.route == 1 && f.prediction.start {
          var started := Start(f);
          picked := if started.Some? then Some((M.Start, started)) else None;
        } else {
          picked := Some((M.Base, Some(f.argmax)));
        }
      } else {
        picked := Some((M.Base, Some(f.argmax)));
      }
    }

    /** START: nothing but the cursor is set, and only when the whole value compiles. */
    method Start(f: M.LiveFrame) returns (token: Option<Token>)
      requires |prefix| >= 1
      modifies this`cursor
      ensures var k := M.Activate(setup, prefix, activations, f);
              if k.Err? then token == None && cursor == old(cursor)
              else
                var t := k.value.Select(f.argmax, setup.snapshot, prefix, false);
                cursor == Some(k.value) && token == if t.Ok? then Some(t.value) else None
    {
      hide CompileAppend, CursorOk, Cursor.Accepts, Utf8.Valid;
      token := None;
      var remaining := setup.maxNew - (|prefix| - |setup.initial|);
      if !(activations < setup.maxReads) {
        return;
      }
      if !(remaining >= 2 && setup.limits.maxTotalTokens - |prefix| >= 2) {
        return;
      }
      var handle := f.prediction.handle;
      if !(handle.Some? && handle.value.origin == NeuralPrediction && handle.value.span.Some? &&
           (handle.value.span.value.start, handle.value.span.value.end) == f.prediction.valueBytes) {
        return;
      }
      var effective := Limits(setup.limits.maxValueBytes, M.Min(setup.limits.maxValueTokens, remaining - 1),
                              setup.limits.maxTotalTokens - 1);
      var actualText := setup.codec.Text(prefix[1..]);
      if !Utf8.Valid(actualText) {
        return;
      }
      var compiled := CompileAppend(handle.value, setup.snapshot, prefix, actualText, setup.codec, effective, false);
      if compiled.Err? || compiled.value.None? {
        return;
      }
      cursor := compiled.value;
      var selected := cursor.value.Select(f.argmax, setup.snapshot, prefix, false);
      if selected.Ok? {
        token := Some(selected.value);
      }
    }

    /** False stands for a raised exception; then nothing is pending any more. Only the object that is pending can be
        acknowledged, and only with its own token. */
    method Commit(action: ProposedAction, emitted: Token) returns (ok: bool)
      modifies this
      ensures ok ==> action == old(pending) && action.decision.token == Some(emitted) && prefix == old(prefix) + [emitted]
      ensures !ok ==> state == M.Failed && prefix == old(prefix)
      ensures pending == null
      ensures (Model(), ok) == M.Commit(setup, old(Model()), action == old(pending), emitted)
    {
      hide Cursor.Accepts;
      ok := false;
      if !(state in {M.Idle, M.Active} && pending != null && action == pending) {
        Reject();
        return;
      }
      if action.decision.token != Some(emitted) {
        Reject();
        return;
      }
      if action.decision.kind in {M.Start, M.Continue} {
        if cursor.None? {
          Reject();
          return;
        }
        var advanced := cursor.value.Commit(emitted, setup.snapshot, prefix, false);
        if advanced.Err? {
          Reject();
          return;
        }
        cursor := Some(advanced.value);
        if action.decision.kind == M.Start {
          activations := activations + 1;
        }
        state := M.Active;
      } else if action.decision.kind == M.End {
        if !(cursor.Some? && cursor.value.Done()) {
          Reject();
          return;
        }
        cursor, state := None, M.Idle;
      } else {
        state := M.Idle;
      }
      prefix := prefix + [emitted];
      if emitted == setup.codec.eos {
        state := M.Done;
      }
      pending, frame := null, None;
      ok := true;
    }
  }
}
