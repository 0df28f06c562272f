/** Sessions, contexts and the generation record as objects, against `Generation`. */
module SessionServer {
  import opened Bytes
  import opened Outcomes
  import D = StreamDecoder
  import Utf8Stream
  import G = Generation

  type Token = nat

  /** A model context: the tokens it has evaluated so far, and how many fit. */
  class Context {
    const capacity: nat
    var tokens: seq<Token>

    constructor (capacity: nat)
      ensures this.capacity == capacity && tokens == []
    {
      this.capacity := capacity;
      tokens := [];
    }

    method Eval(more: seq<Token>) returns (status: int)
      modifies this
      ensures var r := G.Eval(old(tokens), more, capacity);
              (status == 0 <==> r.Ok?) && tokens == if r.Ok? then r.value else old(tokens)
    {
      if more == [] {
        return -1;
      }
      if |tokens| + |more| > capacity {
        return -2;
      }
      tokens := tokens + more;
      status := 0;
    }
  }

  /** A cached session. */
  class Session {
    const ctx: Context
    const historyTokens: array<Token>
    var historyCount: nat
    var transcript: Bytes

    ghost predicate Valid()
      reads this
    {
      historyTokens.Length == ctx.capacity && historyCount <= historyTokens.Length
    }

    ghost function Chat(): G.Chat
      reads this, ctx, historyTokens
      requires Valid()
    {
      G.Chat(ctx.tokens, historyTokens[..historyCount], transcript)
    }

    constructor (capacity: nat)
      ensures Valid() && Chat() == G.NEW_CHAT && fresh(ctx) && fresh(historyTokens) && ctx.capacity == capacity
    {
      ctx := new Context(capacity);
      historyTokens := new Token[capacity];
      historyCount := 0;
      transcript := [];
    }

    method Reset()
      requires Valid()
      modifies this, ctx
      ensures Valid() && Chat() == G.NEW_CHAT
    {
      ctx.tokens := [];
      historyCount := 0;
      transcript := [];
    }
  }

  /** The record of one generation; it borrows the session's context and history buffer when there is a session. */
  class GenerationState {
    const ctx: Context
    const historyTokens: array<Token>
    const session: Session?
    const reply: Utf8Stream.ReplyText
    var historyCount: nat
    var maxTokens: int
    var emitted: nat
    var finishReasonLength: bool

    ghost predicate Valid()
      reads this, session, reply, reply.pending
    {
      && historyTokens.Length == ctx.capacity && historyCount <= historyTokens.Length
      && reply.Valid() && reply.pending as object != historyTokens
      && (session != null ==>
            session.ctx == ctx && session.historyTokens == historyTokens && session.Valid() &&
            session.historyCount == historyCount)
    }

    ghost function Model(): G.Gen
      reads this, ctx, historyTokens, session, reply, reply.pending
      requires Valid()
    {
      G.Gen(ctx.tokens, historyTokens[..historyCount], ctx.capacity,
            if session == null then None else Some(session.transcript),
            reply.text, reply.Model(), maxTokens, emitted, finishReasonLength)
    }

    constructor Borrow(session: Session, maxTokens: int)
      requires session.Valid()
      ensures Valid() && this.session == session && fresh(reply) && fresh(reply.pending)
      ensures ctx == session.ctx && historyTokens == session.historyTokens
      ensures Model() == G.Gen(session.ctx.tokens, session.Chat().history, session.ctx.capacity, Some(session.transcript),
                               [], D.IDLE, maxTokens, 0, false)
    {
      ctx, historyTokens, this.session := session.ctx, session.historyTokens, session;
      reply := new Utf8Stream.ReplyText();
      historyCount := session.historyCount;
      this.maxTokens, emitted, finishReasonLength := maxTokens, 0, false;
    }

    constructor Own(capacity: nat, maxTokens: int)
      ensures Valid() && session == null && fresh(reply) && fresh(reply.pending) && fresh(ctx) && fresh(historyTokens)
      ensures Model() == G.Gen([], [], capacity, None, [], D.IDLE, maxTokens, 0, false)
    {
      ctx := new Context(capacity);
      historyTokens := new Token[capacity];
      session := null;
      reply := new Utf8Stream.ReplyText();
      historyCount := 0;
      this.maxTokens, emitted, finishReasonLength := maxTokens, 0, false;
    }

    /** Evaluate tokens and record them, in that order, as the prefill does. */
    method Prefill(tokens: seq<Token>) returns (ok: bool)
      requires Valid() && historyCount + |tokens| <= historyTokens.Length
      modifies this`historyCount, ctx, historyTokens, session
      ensures Valid()
      ensures var evaluated := G.Eval(old(ctx.tokens), tokens, ctx.capacity);
              && ok == evaluated.Ok?
              && Model() == if ok then old(Model()).(evaluated := evaluated.value, history := old(Model()).history + tokens)
                            else old(Model())
    {
      var status := ctx.Eval(tokens);
      if status != 0 {
        return false;
      }
      ghost var before := historyTokens[..historyCount];
      forall i | 0 <= i < |tokens| {
        historyTokens[historyCount + i] := tokens[i];
      }
      assert historyTokens[..historyCount + |tokens|] == before + tokens;
      historyCount := historyCount + |tokens|;
      if session != null {
        session.historyCount := historyCount;
      }
      ok := true;
    }

    /** Decode one token into `decoded`, add it to the reply text, and leave in `decoded` the piece to stream. */
    method Announce(m: G.LanguageModel, next: Token, decoded: array<Byte>)
      requires reply.Valid() && |m.piece(next)| < G.PIECE_SIZE
      requires decoded.Length == G.PIECE_SIZE && decoded != reply.pending
      modifies reply, reply.pending, decoded
      ensures reply.Valid()
      ensures var d := D.Decode(old(reply.Model()), m.piece(next));
              && reply.text == old(reply.text) + d.Text() && reply.Model() == d.pending
              && CString(decoded[..]) == D.Piece(old(reply.Model()), m.piece(next), G.PIECE_SIZE)
    {
      hide D.Fill, D.Feed, CString;
      var piece := m.piece(next);
      forall i | 0 <= i < |piece| {
        decoded[i] := piece[i];
      }
      decoded[|piece|] := 0;
      assert decoded[..|piece|] == piece;
      reply.AppendDecoded(decoded, |piece|, decoded);
      ghost var d := D.Decode(old(reply.Model()), piece);
      if |piece| == 0 {
        assert d == D.Decoded([], old(reply.Model()));
        assert decoded[0] == 0;
        FillNothing();
        CStringStops(decoded[..], 0);
        assert decoded[..][..0] == [];
      } else {
        ghost var n := |D.Fill([], d.groups, decoded.Length)|;
        CStringStops(decoded[..], n);
        assert decoded[..][..n] == decoded[..n];
      }
    }

    static lemma FillNothing()
      ensures D.Fill([], [], G.PIECE_SIZE) == []
    {
    }

    /** Record a token that has been announced, evaluate it, and bring the session up to date. */
    method Record(next: Token, decoded: array<Byte>) returns (turn: G.Turn)
      requires Valid() && decoded.Length == G.PIECE_SIZE && decoded as object != historyTokens
      modifies this`historyCount, this`emitted, this`finishReasonLength, ctx, historyTokens, session
      ensures Valid()
      ensures (Model(), turn) == G.Record(old(Model()), next, CString(old(decoded[..])))
    {
      hide CString;
      if historyCount >= historyTokens.Length {
        return G.Failed(G.CapacityExceeded);
      }
      ghost var before := historyTokens[..historyCount];
      historyTokens[historyCount] := next;
      historyCount := historyCount + 1;
      assert historyTokens[..historyCount] == before + [next];
      if session != null {
        session.historyCount := historyCount;
      }
      var status := ctx.Eval([next]);
      if status != 0 {
        return G.Failed(G.EvalFailed);
      }
      if session != null {
        session.transcript := session.transcript + CString(decoded[..]);
      }
      emitted := emitted + 1;
      if emitted >= maxTokens {
        finishReasonLength := true;
        return G.Finished;
      }
      turn := G.More;
    }

    /** One turn of the decode loop; `decoded` receives the piece to stream. */
    method Step(m: G.LanguageModel, cfg: G.Config, decoded: array<Byte>) returns (turn: G.Turn)
      requires Valid() && G.BoundedModel(m, cfg)
      requires decoded.Length == G.PIECE_SIZE && decoded != reply.pending && decoded as object != historyTokens
      modifies this, ctx, historyTokens, session, reply, reply.pending, decoded
      ensures Valid()
      ensures (Model(), turn) == G.Step(m, cfg, old(Model()))
    {
      hide D.Decode, D.Fill, CString, Concat, D.Wf;
      if emitted >= maxTokens {
        finishReasonLength := true;
        return G.Finished;
      }
      var recentCount := if historyCount < cfg.repeatLastN then historyCount else cfg.repeatLastN;
      var recent := historyTokens[historyCount - recentCount..historyCount];
      assert recent == G.Recent(cfg, historyTokens[..historyCount]);
      var next := m.sample(ctx.tokens, recent);
      if next < 0 {
        return G.Failed(G.SamplingFailed);
      }
      if next in m.endOfGeneration {
        finishReasonLength := false;
        return G.Finished;
      }
      Announce(m, next, decoded);
      turn := Record(next, decoded);
    }
  }

  /** Choose the reuse path, check the room, evaluate what is missing, and bring the transcript up to date.
      Null stands for an error return. */
  method PrepareGeneration(m: G.LanguageModel, cfg: G.Config, session: Session, prompt: Bytes, maxTokens: int, reset: bool)
    returns (gen: GenerationState?)
    requires session.Valid() && session.ctx.capacity == cfg.maxContext && G.ValidConfig(cfg)
    modifies session, session.ctx, session.historyTokens
    ensures session.Valid()
    ensures var start := if reset then G.NEW_CHAT else old(session.Chat());
            var r := G.Prepare(m, cfg, start, prompt, maxTokens);
            if r.Err? then gen == null && session.Chat() == start
            else gen != null && gen.Valid() && gen.session == session && gen.Model() == r.value
    ensures gen != null ==> fresh(gen) && fresh(gen.reply) && fresh(gen.reply.pending)
  {
    gen := null;
    if reset {
      session.Reset();
    }
    ghost var start := session.Chat();
    var history := session.historyTokens[..session.historyCount];
    var toEval: seq<Token>;
    var transcript := session.transcript + prompt;
    if session.historyCount > 0 && |session.transcript| > 0 && session.transcript <= prompt {
      var suffix := prompt[|session.transcript|..];
      var tokens := m.tokenize(suffix, false);
      if tokens.None? {
        return;
      }
      toEval := tokens.value;
      transcript := session.transcript + suffix;
    } else if session.historyCount > 0 {
      var full := m.tokenize(prompt, true);
      if full.Some? && history <= full.value {
        toEval := full.value[session.historyCount..];
        transcript := prompt;
      } else {
        var tokens := m.tokenize(prompt, false);
        if tokens.None? || tokens.value == [] {
          return;
        }
        toEval := tokens.value;
      }
    } else {
      var tokens := m.tokenize(prompt, true);
      if tokens.None? || tokens.value == [] {
        return;
      }
      toEval := tokens.value;
    }
    var budget := G.RequestTokens(cfg, maxTokens);
    if session.historyCount + |toEval| + budget + 1 > cfg.maxContext {
      return;
    }
    var prepared := new GenerationState.Borrow(session, budget);
    if toEval != [] {
      var ok := prepared.Prefill(toEval);
      if !ok {
        return;
      }
    }
    session.transcript := transcript;
    gen := prepared;
  }

  /** The same without a session: the budget shrinks to the room there is, and the context is made to measure. */
  method PrepareOneShot(m: G.LanguageModel, cfg: G.Config, prompt: Bytes, maxTokens: int) returns (gen: GenerationState?)
    requires G.ValidConfig(cfg)
    ensures var r := G.PrepareOnce(m, cfg, prompt, maxTokens);
            if r.Err? then gen == null else gen != null && gen.Valid() && gen.session == null && gen.Model() == r.value
    ensures gen != null ==> fresh(gen)
  {
    gen := null;
    var tokens := m.tokenize(prompt, true);
    if tokens.None? || tokens.value == [] {
      return;
    }
    var n := |tokens.value|;
    var budget := G.RequestTokens(cfg, maxTokens);
    if n + budget + 1 > cfg.maxContext {
      budget := cfg.maxContext - n - 1;
      if budget <= 0 {
        return;
      }
    }
    var capacity := n + budget + 1;
    if capacity < G.MIN_CONTEXT_TOKENS {
      capacity := G.MIN_CONTEXT_TOKENS;
    }
    var prepared := new GenerationState.Own(capacity, budget);
    var ok := prepared.Prefill(tokens.value);
    if ok {
      gen := prepared;
    }
  }

  /** One whole request on a session: prepare, loop until done, return the text; None for any error return. */
  method GenerateText(m: G.LanguageModel, cfg: G.Config, session: Session, q: G.Request) returns (text: Option<Bytes>)
    requires session.Valid() && session.ctx.capacity == cfg.maxContext && G.ValidConfig(cfg) && G.BoundedModel(m, cfg)
    modifies session, session.ctx, session.historyTokens
    ensures session.Valid() && session.Chat() == G.Serve(m, cfg, old(session.Chat()), q)
    ensures var start := if q.reset then G.NEW_CHAT else old(session.Chat());
            var r := G.Prepare(m, cfg, start, q.prompt, q.maxTokens);
            text == if r.Ok? && G.Run(m, cfg, r.value).1 == G.Finished then Some(G.Run(m, cfg, r.value).0.text) else None
  {
    hide G.Step, G.Prepare;
    var gen := PrepareGeneration(m, cfg, session, q.prompt, q.maxTokens, q.reset);
    if gen == null {
      return None;
    }
    ghost var first := gen.Model();
    var decoded := new Byte[G.PIECE_SIZE];
    var turn := G.More;
    while turn == G.More
      invariant gen.Valid() && gen.session == session && fresh(gen) && fresh(gen.reply) && fresh(gen.reply.pending)
      invariant gen.Model().transcript.Some?
      invariant if turn == G.More then G.Run(m, cfg, gen.Model()) == G.Run(m, cfg, first)
                else G.Run(m, cfg, first) == (gen.Model(), turn)
      decreases turn == G.More, gen.maxTokens - gen.emitted
    {
      turn := gen.Step(m, cfg, decoded);
    }
    if turn != G.Finished {
      return None;
    }
    text := Some(gen.reply.text);
  }
}
