/** Session reuse and the decode loop, as functions on the abstract state of a session. */
module Generation {
  import opened Bytes
  import opened Outcomes
  import opened StreamDecoder

  type Token = nat

  const MIN_CONTEXT_TOKENS: nat := 128
  const PIECE_SIZE: nat := 256

  /** The model as the server sees it. `sample` is greedy decoding with the repetition window, negative on failure;
      `piece` is empty when decoding a token gives nothing. */
  datatype LanguageModel = LanguageModel(
    tokenize: (Bytes, bool) -> Option<seq<Token>>,
    sample: (seq<Token>, seq<Token>) -> int,
    piece: Token -> Bytes,
    endOfGeneration: set<Token>)

  datatype Config = Config(maxContext: nat, defaultMax: nat, maxRequest: nat, repeatLastN: nat)

  /** What argument parsing leaves in the configuration. */
  predicate ValidConfig(cfg: Config) {
    1 <= cfg.defaultMax <= cfg.maxRequest && cfg.maxRequest + MIN_CONTEXT_TOKENS <= cfg.maxContext
  }

  /** Neither a tokenization nor a decoded token exceeds the buffer it is written to. */
  ghost predicate BoundedModel(m: LanguageModel, cfg: Config) {
    && (forall text, bos :: m.tokenize(text, bos).Some? ==> |m.tokenize(text, bos).value| <= cfg.maxContext)
    && (forall t :: |m.piece(t)| < PIECE_SIZE)
  }

  /** A session: what its context has evaluated, what its history buffer records, and its transcript. */
  datatype Chat = Chat(evaluated: seq<Token>, history: seq<Token>, transcript: Bytes)

  const NEW_CHAT := Chat([], [], [])

  datatype Failure = NotTokenized | NoRoom | SamplingFailed | CapacityExceeded | EvalFailed

  /** How a prompt will be served: the tokens still to evaluate, how many cached ones are reused, the next transcript. */
  datatype Plan = Plan(toEval: seq<Token>, reused: nat, transcript: Bytes)

  datatype Path = TranscriptPrefix | TokenPrefix | Append

  function PathFor(m: LanguageModel, chat: Chat, prompt: Bytes): Path {
    if chat.history != [] && chat.transcript != [] && chat.transcript <= prompt then TranscriptPrefix
    else if chat.history != [] then
      var full := m.tokenize(prompt, true);
      if full.Some? && chat.history <= full.value then TokenPrefix else Append
    else Append
  }

  function PlanFor(m: LanguageModel, chat: Chat, prompt: Bytes): Result<Plan, Failure> {
    match PathFor(m, chat, prompt)
    case TranscriptPrefix =>
      var suffix := prompt[|chat.transcript|..];
      var tokens := m.tokenize(suffix, false);
      if tokens.None? then Err(NotTokenized)
      else Ok(Plan(tokens.value, |chat.history|, chat.transcript + suffix))
    case TokenPrefix =>
      Ok(Plan(m.tokenize(prompt, true).value[|chat.history|..], |chat.history|, prompt))
    case Append =>
      var tokens := m.tokenize(prompt, chat.history == []);
      if tokens.None? || tokens.value == [] then Err(NotTokenized)
      else Ok(Plan(tokens.value, 0, chat.transcript + prompt))
  }

  function RequestTokens(cfg: Config, maxTokens: int): int {
    var asked := if maxTokens <= 0 then cfg.defaultMax else maxTokens;
    if asked > cfg.maxRequest then cfg.maxRequest else asked
  }

  /** The generation record, with the session's transcript when there is one. */
  datatype Gen = Gen(
    evaluated: seq<Token>, history: seq<Token>, capacity: nat, transcript: Option<Bytes>,
    text: Bytes, pending: Pending, maxTokens: int, emitted: nat, lengthStop: bool)

  /** Evaluating tokens in a context of the given capacity. */
  function Eval(evaluated: seq<Token>, tokens: seq<Token>, capacity: nat): Result<seq<Token>, Failure> {
    if tokens == [] || |evaluated| + |tokens| > capacity then Err(EvalFailed) else Ok(evaluated + tokens)
  }

  function Prepare(m: LanguageModel, cfg: Config, chat: Chat, prompt: Bytes, maxTokens: int): Result<Gen, Failure> {
    var plan :- PlanFor(m, chat, prompt);
    var budget := RequestTokens(cfg, maxTokens);
    if |chat.history| + |plan.toEval| + budget + 1 > cfg.maxContext then Err(NoRoom)
    else if plan.toEval == [] then
      Ok(Gen(chat.evaluated, chat.history, cfg.maxContext, Some(plan.transcript), [], IDLE, budget, 0, false))
    else
      var evaluated :- Eval(chat.evaluated, plan.toEval, cfg.maxContext);
      Ok(Gen(evaluated, chat.history + plan.toEval, cfg.maxContext, Some(plan.transcript), [], IDLE, budget, 0, false))
  }

  /** Without a session the budget shrinks to what the context can hold, and the context is made to measure. */
  function PrepareOnce(m: LanguageModel, cfg: Config, prompt: Bytes, maxTokens: int): Result<Gen, Failure> {
    var tokens := m.tokenize(prompt, true);
    if tokens.None? || tokens.value == [] then Err(NotTokenized)
    else
      var n := |tokens.value|;
      var asked := RequestTokens(cfg, maxTokens);
      var budget := if n + asked + 1 > cfg.maxContext then cfg.maxContext - n - 1 else asked;
      if budget <= 0 then Err(NoRoom)
      else
        var capacity := if n + budget + 1 < MIN_CONTEXT_TOKENS then MIN_CONTEXT_TOKENS else n + budget + 1;
        var evaluated :- Eval([], tokens.value, capacity);
        Ok(Gen(evaluated, tokens.value, capacity, None, [], IDLE, budget, 0, false))
  }

  datatype Turn = More | Finished | Failed(error: Failure)

  function Recent(cfg: Config, history: seq<Token>): seq<Token> {
    if |history| < cfg.repeatLastN then history else history[|history| - cfg.repeatLastN..]
  }

  predicate GenWf(g: Gen) {
    Wf(g.pending)
  }

  /** The text and the terminated piece that one token adds. */
  function Emission(m: LanguageModel, g: Gen, next: Token): Decoded
    requires GenWf(g)
  {
    Decode(g.pending, m.piece(next))
  }

  /** Recording a token whose text has been added: history, context and transcript, in that order. */
  function Record(g: Gen, next: Token, piece: Bytes): (Gen, Turn) {
    if |g.history| >= g.capacity then (g, Failed(CapacityExceeded))
    else
      var pushed := g.(history := g.history + [next]);
      var evaluated := Eval(g.evaluated, [next], g.capacity);
      if evaluated.Err? then (pushed, Failed(EvalFailed))
      else
        var transcript := if g.transcript.None? then None else Some(g.transcript.value + piece);
        var after := pushed.(evaluated := evaluated.value, transcript := transcript, emitted := g.emitted + 1);
        if after.emitted >= after.maxTokens then (after.(lengthStop := true), Finished) else (after, More)
  }

  function Step(m: LanguageModel, cfg: Config, g: Gen): (r: (Gen, Turn))
    requires GenWf(g)
    ensures GenWf(r.0) && r.0.maxTokens == g.maxTokens
    ensures r.1 == More ==> r.0.emitted == g.emitted + 1 && g.emitted + 1 < g.maxTokens
  {
    if g.emitted >= g.maxTokens then (g.(lengthStop := true), Finished)
    else
      var next := m.sample(g.evaluated, Recent(cfg, g.history));
      if next < 0 then (g, Failed(SamplingFailed))
      else if next in m.endOfGeneration then (g.(lengthStop := false), Finished)
      else
        var d := Emission(m, g, next);
        Record(g.(text := g.text + d.Text(), pending := d.pending), next, Piece(g.pending, m.piece(next), PIECE_SIZE))
  }

  /** The decode loop. */
  function Run(m: LanguageModel, cfg: Config, g: Gen): (r: (Gen, Turn))
    requires GenWf(g)
    ensures r.1 != More
    decreases g.maxTokens - g.emitted
  {
    var (next, turn) := Step(m, cfg, g);
    if turn == More then Run(m, cfg, next) else (next, turn)
  }

  /** How often the loop body runs. */
  function Turns(m: LanguageModel, cfg: Config, g: Gen): nat
    requires GenWf(g)
    decreases g.maxTokens - g.emitted
  {
    var (next, turn) := Step(m, cfg, g);
    1 + if turn == More then Turns(m, cfg, next) else 0
  }

  // ---- After a successful preparation the loop is safe

  /** The context holds exactly the recorded history, with room for every token still to come. */
  predicate Ready(g: Gen) {
    && GenWf(g) && g.evaluated == g.history
    && g.emitted <= g.maxTokens
    && |g.history| + (g.maxTokens - g.emitted) + 1 <= g.capacity
  }

  lemma PrepareIsReady(m: LanguageModel, cfg: Config, chat: Chat, prompt: Bytes, maxTokens: int)
    requires ValidConfig(cfg) && chat.evaluated == chat.history
    ensures Prepare(m, cfg, chat, prompt, maxTokens).Ok? ==>
      var g := Prepare(m, cfg, chat, prompt, maxTokens).value;
      Ready(g) && g.emitted == 0 < g.maxTokens && g.history != [] && g.transcript.Some? && g.capacity == cfg.maxContext
    ensures PrepareOnce(m, cfg, prompt, maxTokens).Ok? ==>
      var g := PrepareOnce(m, cfg, prompt, maxTokens).value;
      Ready(g) && g.emitted == 0 < g.maxTokens && g.history != [] && g.transcript.None?
  {
    var plan := PlanFor(m, chat, prompt);
    if plan.Ok? && plan.value.toEval == [] {
      assert chat.history != [];
    }
  }

  lemma StepKeepsReady(m: LanguageModel, cfg: Config, g: Gen)
    requires Ready(g)
    ensures var (next, turn) := Step(m, cfg, g);
            && Ready(next) && g.history <= next.history && next.capacity == g.capacity
            && |next.history| - |g.history| == next.emitted - g.emitted
            && (turn.Failed? ==> turn.error == SamplingFailed)
            && (turn == Finished && g.emitted < g.maxTokens ==> (next.lengthStop <==> next.emitted == next.maxTokens))
            && next.transcript.Some? == g.transcript.Some?
  {
    hide Decode, Fill, CString, Concat;
  }

  /** Once prepared, the loop neither overruns the context nor fails to evaluate, takes at most `maxTokens` turns, and
      reports a length stop exactly when it emitted all the tokens it was allowed. */
  lemma {:induction false} LoopIsSafe(m: LanguageModel, cfg: Config, g: Gen)
    requires Ready(g) && g.emitted < g.maxTokens
    ensures var (end, turn) := Run(m, cfg, g);
            && Ready(end) && |end.history| < end.capacity && g.history <= end.history
            && |end.history| - |g.history| == end.emitted - g.emitted
            && (turn.Failed? ==> turn.error == SamplingFailed)
            && (turn == Finished ==> (end.lengthStop <==> end.emitted == end.maxTokens))
            && end.transcript.Some? == g.transcript.Some? && end.capacity == g.capacity
    ensures Turns(m, cfg, g) <= g.maxTokens - g.emitted
    decreases g.maxTokens - g.emitted
  {
    hide Step;
    StepKeepsReady(m, cfg, g);
    var (next, turn) := Step(m, cfg, g);
    if turn == More {
      LoopIsSafe(m, cfg, next);
    }
  }

  // ---- Which tokens are emitted

  /** The tokens that count for the repetition window after `k` tokens: the last ones, at most `repeatLastN`. */
  function Window(cfg: Config, history: seq<Token>, k: nat): seq<Token>
    requires k <= |history|
  {
    history[(if k > cfg.repeatLastN then k - cfg.repeatLastN else 0)..k]
  }

  /** What the model answers to the first `k` tokens. */
  function Answer(m: LanguageModel, cfg: Config, history: seq<Token>, k: nat): int
    requires k <= |history|
  {
    m.sample(history[..k], Window(cfg, history, k))
  }

  /** From position `from` on, every token is the model's answer to the tokens before it, and none ends the reply. */
  predicate Sampled(m: LanguageModel, cfg: Config, history: seq<Token>, from: nat) {
    forall k :: from <= k < |history| ==>
      history[k] == Answer(m, cfg, history, k) && history[k] !in m.endOfGeneration
  }

  lemma StepSamples(m: LanguageModel, cfg: Config, g: Gen)
    requires Ready(g) && g.emitted < g.maxTokens
    ensures var (next, turn) := Step(m, cfg, g);
            var answer := Answer(m, cfg, g.history, |g.history|);
            && next.maxTokens == g.maxTokens
            && (answer < 0 <==> turn == Failed(SamplingFailed))
            && (answer in m.endOfGeneration || answer < 0 ==> next.history == g.history && next.emitted == g.emitted)
            && (answer >= 0 && answer in m.endOfGeneration ==> turn == Finished && !next.lengthStop)
            && (answer >= 0 && answer !in m.endOfGeneration ==>
                  && next.history == g.history + [answer] && next.emitted == g.emitted + 1
                  && turn == (if next.emitted == g.maxTokens then Finished else More)
                  && (turn == Finished ==> next.lengthStop))
  {
    hide Decode, Piece, Concat;
    assert g.history[..|g.history|] == g.history;
    assert Window(cfg, g.history, |g.history|) == Recent(cfg, g.history);
  }

  lemma SampledSnoc(m: LanguageModel, cfg: Config, before: seq<Token>, token: Token, history: seq<Token>)
    requires before + [token] <= history && Sampled(m, cfg, history, |before| + 1)
    requires token == Answer(m, cfg, before, |before|) && token !in m.endOfGeneration
    ensures Sampled(m, cfg, history, |before|)
  {
    assert history[..|before|] == before == before[..|before|];
    assert Window(cfg, history, |before|) == Window(cfg, before, |before|);
    assert history[|before|] == (before + [token])[|before|];
  }

  /** A reply is greedy: every emitted token is the model's answer to the tokens before it, and no stop token is among
      them. It ends by itself exactly when the next answer is a stop token, and at the budget otherwise. */
  lemma {:induction false} ReplyIsSampled(m: LanguageModel, cfg: Config, g: Gen)
    requires Ready(g) && g.emitted < g.maxTokens
    ensures var (end, turn) := Run(m, cfg, g);
            var answer := Answer(m, cfg, end.history, |end.history|);
            && g.history <= end.history && Sampled(m, cfg, end.history, |g.history|)
            && |end.history| - |g.history| == end.emitted - g.emitted
            && end.emitted <= g.maxTokens == end.maxTokens
            && (end.emitted < g.maxTokens ==>
                  && (turn == Failed(SamplingFailed) <==> answer < 0)
                  && (turn == Finished <==> answer >= 0) && (answer >= 0 ==> answer in m.endOfGeneration))
            && (end.emitted == g.maxTokens ==> turn == Finished)
            && (turn == Finished ==> (end.lengthStop <==> end.emitted == g.maxTokens))
    decreases g.maxTokens - g.emitted
  {
    hide Step, Answer, Sampled;
    StepKeepsReady(m, cfg, g);
    StepSamples(m, cfg, g);
    LoopIsSafe(m, cfg, g);
    var (next, turn) := Step(m, cfg, g);
    var end := Run(m, cfg, g).0;
    NothingSampled(m, cfg, end.history);
    if next.emitted > g.emitted {
      var answer := Answer(m, cfg, g.history, |g.history|);
      if turn == More {
        ReplyIsSampled(m, cfg, next);
      }
      SampledSnoc(m, cfg, g.history, answer, end.history);
    }
  }

  lemma NothingSampled(m: LanguageModel, cfg: Config, history: seq<Token>)
    ensures Sampled(m, cfg, history, |history|)
  {
  }

  // ---- What the loop writes

  /** The bytes of a list of tokens. */
  function PiecesOf(m: LanguageModel, tokens: seq<Token>): (r: seq<Bytes>)
    ensures |r| == |tokens| && forall i :: 0 <= i < |r| ==> r[i] == m.piece(tokens[i])
  {
    seq(|tokens|, i requires 0 <= i < |tokens| => m.piece(tokens[i]))
  }

  /** Text and transcript both come from the emitted tokens: the text is the decoded stream of their pieces. */
  lemma {:induction false} TextIsDecodedStream(m: LanguageModel, cfg: Config, g: Gen)
    requires Ready(g)
    ensures var end := Run(m, cfg, g).0;
            && |g.history| <= |end.history|
            && var d := DecodePieces(g.pending, PiecesOf(m, end.history[|g.history|..]));
               end.text == g.text + d.Text() && end.pending == d.pending
    decreases g.maxTokens - g.emitted
  {
    StepKeepsReady(m, cfg, g);
    var (next, turn) := Step(m, cfg, g);
    var end := Run(m, cfg, g).0;
    if turn == More {
      TextIsDecodedStream(m, cfg, next);
      StepKeepsRun(m, cfg, next);
      NextPiece(m, g, next, end.history);
    } else if next.emitted == g.emitted {
      assert end.history[|g.history|..] == [] && PiecesOf(m, []) == [];
      assert g.text + [] == g.text;
    } else {
      assert end.history[|g.history|..] == [next.history[|g.history|]];
      var tokens := end.history[|g.history|..];
      assert PiecesOf(m, tokens)[1..] == [];
      var d := Emission(m, g, tokens[0]);
      assert d.groups + [] == d.groups;
    }
  }

  lemma StepKeepsRun(m: LanguageModel, cfg: Config, g: Gen)
    requires Ready(g)
    ensures g.history <= Run(m, cfg, g).0.history
  {
    if g.emitted < g.maxTokens {
      LoopIsSafe(m, cfg, g);
    }
  }

  lemma NextPiece(m: LanguageModel, g: Gen, next: Gen, all: seq<Token>)
    requires GenWf(g) && GenWf(next)
    requires next.history <= all && |next.history| == |g.history| + 1
    requires var d := Emission(m, g, next.history[|g.history|]);
             next.text == g.text + d.Text() && next.pending == d.pending
    ensures var rest := DecodePieces(next.pending, PiecesOf(m, all[|next.history|..]));
            var d := DecodePieces(g.pending, PiecesOf(m, all[|g.history|..]));
            g.text + d.Text() == next.text + rest.Text() && d.pending == rest.pending
  {
    hide Decode;
    var tokens := all[|g.history|..];
    assert tokens[0] == next.history[|g.history|];
    assert PiecesOf(m, tokens)[1..] == PiecesOf(m, all[|next.history|..]);
    var first := Emission(m, g, tokens[0]);
    var rest := DecodePieces(next.pending, PiecesOf(m, all[|next.history|..]));
    ConcatAppend(first.groups, rest.groups);
    assert (g.text + first.Text()) + rest.Text() == g.text + (first.Text() + rest.Text());
  }

  /** What is streamed, and appended to the transcript, for a list of emitted tokens. */
  function Streamed(m: LanguageModel, p: Pending, tokens: seq<Token>): Bytes
    requires Wf(p)
    decreases |tokens|
  {
    if tokens == [] then []
    else
      Piece(p, m.piece(tokens[0]), PIECE_SIZE) + Streamed(m, Decode(p, m.piece(tokens[0])).pending, tokens[1..])
  }

  /** Of no token the piece was cut: what it completed fits the 256-byte buffer, and it holds no zero byte. */
  predicate NothingCut(m: LanguageModel, p: Pending, tokens: seq<Token>)
    requires Wf(p)
    decreases |tokens|
  {
    tokens == [] ||
    var d := Decode(p, m.piece(tokens[0]));
    |d.Text()| < PIECE_SIZE && 0 !in m.piece(tokens[0]) && NothingCut(m, d.pending, tokens[1..])
  }

  lemma StepStreams(m: LanguageModel, cfg: Config, g: Gen)
    requires Ready(g) && g.transcript.Some?
    ensures var (next, turn) := Step(m, cfg, g);
            && g.history <= next.history && next.transcript.Some? && (turn == More ==> next.emitted == g.emitted + 1)
            && (next.emitted == g.emitted ==> next.history == g.history && next.transcript == g.transcript)
            && (next.emitted != g.emitted ==>
                  && |next.history| == |g.history| + 1
                  && var bytes := m.piece(next.history[|g.history|]);
                     && next.transcript.value == g.transcript.value + Piece(g.pending, bytes, PIECE_SIZE)
                     && next.pending == Decode(g.pending, bytes).pending)
  {
    hide Decode, Piece, Concat;
  }

  /** Over a run the transcript grows by what was streamed for the emitted tokens. */
  lemma {:induction false} TranscriptIsStreamed(m: LanguageModel, cfg: Config, g: Gen)
    requires Ready(g) && g.transcript.Some?
    ensures var end := Run(m, cfg, g).0;
            && |g.history| <= |end.history|
            && end.transcript == Some(g.transcript.value + Streamed(m, g.pending, end.history[|g.history|..]))
    decreases g.maxTokens - g.emitted
  {
    hide Decode, Piece, Step;
    StepKeepsReady(m, cfg, g);
    StepStreams(m, cfg, g);
    StepKeepsRun(m, cfg, g);
    var (next, turn) := Step(m, cfg, g);
    var end := Run(m, cfg, g).0;
    var tokens := end.history[|g.history|..];
    if turn == More {
      TranscriptIsStreamed(m, cfg, next);
      StepKeepsRun(m, cfg, next);
      assert tokens[0] == next.history[|g.history|] && tokens[1..] == end.history[|next.history|..];
      var first, rest := Piece(g.pending, m.piece(tokens[0]), PIECE_SIZE), Streamed(m, next.pending, tokens[1..]);
      assert (g.transcript.value + first) + rest == g.transcript.value + (first + rest);
    } else if next.emitted == g.emitted {
      assert tokens == [] && g.transcript.value + [] == g.transcript.value;
    } else {
      assert tokens == [next.history[|g.history|]] && tokens[1..] == [];
      var first := Piece(g.pending, m.piece(tokens[0]), PIECE_SIZE);
      assert first + [] == first;
    }
  }

  lemma {:induction false} StreamedIsTextIff(m: LanguageModel, p: Pending, tokens: seq<Token>)
    requires Wf(p)
    ensures var text := DecodePieces(p, PiecesOf(m, tokens)).Text();
            && |Streamed(m, p, tokens)| <= |text|
            && (Streamed(m, p, tokens) == text <==> NothingCut(m, p, tokens))
    decreases |tokens|
  {
    hide Decode, Piece, Wf, Concat;
    if tokens == [] {
      assert PiecesOf(m, tokens) == [];
      NoPieces(p);
    } else {
      var bytes := m.piece(tokens[0]);
      var d := Decode(p, bytes);
      PieceIsWholeIff(p, bytes, PIECE_SIZE);
      StreamedIsTextIff(m, d.pending, tokens[1..]);
      assert PiecesOf(m, tokens)[1..] == PiecesOf(m, tokens[1..]);
      var rest := DecodePieces(d.pending, PiecesOf(m, tokens[1..]));
      ConcatAppend(d.groups, rest.groups);
      SumsAgreeIff(Piece(p, bytes, PIECE_SIZE), d.Text(), Streamed(m, d.pending, tokens[1..]), rest.Text());
    }
  }

  lemma NoPieces(p: Pending)
    requires Wf(p)
    ensures DecodePieces(p, []).Text() == []
  {
  }

  lemma SumsAgreeIff(a: Bytes, x: Bytes, b: Bytes, y: Bytes)
    requires |a| <= |x| && |b| <= |y|
    ensures a + b == x + y <==> a == x && b == y
  {
    if a + b == x + y {
      assert a == (a + b)[..|a|] == (x + y)[..|x|] == x;
      assert b == (a + b)[|a|..] == (x + y)[|x|..] == y;
    }
  }

  /** The transcript grows by exactly the reply text if and only if the piece of no emitted token was cut. */
  lemma TranscriptGrowsByTextIff(m: LanguageModel, cfg: Config, g: Gen)
    requires Ready(g) && g.transcript.Some?
    ensures var end := Run(m, cfg, g).0;
            && |g.history| <= |end.history| && g.text <= end.text
            && (end.transcript == Some(g.transcript.value + end.text[|g.text|..]) <==>
                NothingCut(m, g.pending, end.history[|g.history|..]))
  {
    hide Run, Wf, NothingCut, Streamed, DecodePieces, Concat;
    var end := Run(m, cfg, g).0;
    TextIsDecodedStream(m, cfg, g);
    TranscriptIsStreamed(m, cfg, g);
    var tokens := end.history[|g.history|..];
    StreamedIsTextIff(m, g.pending, tokens);
    var text := DecodePieces(g.pending, PiecesOf(m, tokens)).Text();
    assert end.text[|g.text|..] == text;
    var was, more := g.transcript.value, Streamed(m, g.pending, tokens);
    assert was + more == was + text <==> more == text by {
      assert (was + more)[|was|..] == more && (was + text)[|was|..] == text;
    }
  }

  /** A model that answers with two tokens, the second of which ends a character that the first began. */
  const LOSSY := LanguageModel(
    (text, bos) => Some([2]),
    (evaluated, recent) => if |evaluated| == 1 then 0 else 1,
    t => if t == 0 then [0xC3] else if t == 1 then [0xA9] + Letters(254) else [0x61],
    {})

  /** Its whole reply to a one-token prompt reaches the client and the transcript cut short. */
  lemma TranscriptCanLoseText(cfg: Config)
    requires ValidConfig(cfg) && cfg.maxRequest >= 2
    ensures var prepared := Prepare(LOSSY, cfg, NEW_CHAT, [0x61], 2);
            && BoundedModel(LOSSY, cfg) && prepared.Ok?
            && var (end, turn) := Run(LOSSY, cfg, prepared.value);
               turn == Finished && end.transcript.Some? && end.transcript.value != [0x61] + end.text
  {
    hide Run, NothingCut, Letters, Prepare;
    LossyStart(cfg);
    var g := Prepare(LOSSY, cfg, NEW_CHAT, [0x61], 2).value;
    LossyRun(cfg, g);
    LoopIsSafe(LOSSY, cfg, g);
    TranscriptGrowsByTextIff(LOSSY, cfg, g);
    var end := Run(LOSSY, cfg, g).0;
    assert end.history[1..] == [0, 1] && end.text[0..] == end.text;
    LossyCut();
  }

  lemma LossyStart(cfg: Config)
    requires ValidConfig(cfg) && cfg.maxRequest >= 2
    ensures BoundedModel(LOSSY, cfg)
    ensures Prepare(LOSSY, cfg, NEW_CHAT, [0x61], 2) == Ok(Gen([2], [2], cfg.maxContext, Some([0x61]), [], IDLE, 2, 0, false))
  {
    assert NEW_CHAT.history + [2] == [2] && NEW_CHAT.transcript + [0x61] == [0x61];
  }

  lemma LossyCut()
    ensures !NothingCut(LOSSY, IDLE, [0, 1])
  {
    PieceCanLoseText();
    hide Letters;
    var p: Pending := Pending([0xC3], 2);
    assert Decode(IDLE, [0xC3]) == Decoded([], p) by {
      assert [0xC3][1..] == [];
    }
    hide Decode;
    assert !NothingCut(LOSSY, p, [1]);
    assert [0, 1][1..] == [1];
  }

  lemma LossyRun(cfg: Config, g: Gen)
    requires Ready(g) && g.evaluated == [2] && g.emitted == 0 && g.maxTokens == 2
    ensures Run(LOSSY, cfg, g).0.history == [2, 0, 1] && Run(LOSSY, cfg, g).1 == Finished
  {
    hide Decode, Piece, Letters;
    var (next, turn) := Step(LOSSY, cfg, g);
    assert turn == More && next.history == [2, 0] && next.evaluated == [2, 0];
    var (last, done) := Step(LOSSY, cfg, next);
    assert done == Finished && last.history == [2, 0, 1];
  }

  // ---- What a prompt does to a session

  /** The whole of the transcript so far, which is not empty, stands at the head of the prompt. */
  predicate Continues(chat: Chat, prompt: Bytes) {
    && chat.history != [] && chat.transcript != [] && |chat.transcript| <= |prompt|
    && prompt[..|chat.transcript|] == chat.transcript
  }

  /** Tokenized from its beginning, the prompt begins with the recorded tokens. */
  predicate Retokenizes(m: LanguageModel, chat: Chat, prompt: Bytes) {
    && chat.history != [] && m.tokenize(prompt, true).Some?
    && var full := m.tokenize(prompt, true).value;
       |chat.history| <= |full| && full[..|chat.history|] == chat.history
  }

  /** The tokens that a prompt adds to the history: those of its new suffix, those behind the recorded ones, or those of
      the whole prompt, which alone may begin a text. */
  function Added(m: LanguageModel, chat: Chat, prompt: Bytes): Option<seq<Token>> {
    if Continues(chat, prompt) then m.tokenize(prompt[|chat.transcript|..], false)
    else if Retokenizes(m, chat, prompt) then Some(m.tokenize(prompt, true).value[|chat.history|..])
    else if chat.history == [] then m.tokenize(prompt, true)
    else m.tokenize(prompt, false)
  }

  /** How many tokens a request may generate: what it asks for, at most the server's maximum, or the server's default. */
  function Budget(cfg: Config, maxTokens: int): int {
    if maxTokens <= 0 then (if cfg.defaultMax < cfg.maxRequest then cfg.defaultMax else cfg.maxRequest)
    else if maxTokens < cfg.maxRequest then maxTokens
    else cfg.maxRequest
  }

  /** A prompt is accepted exactly when it can be tokenized, adds a token or reuses some, and leaves room for the whole
      budget and one more token. Then history and context grow by what it adds, and the transcript becomes the prompt on
      the reuse paths and grows by it on the other. */
  lemma PrepareMeans(m: LanguageModel, cfg: Config, chat: Chat, prompt: Bytes, maxTokens: int)
    requires ValidConfig(cfg) && chat.evaluated == chat.history
    ensures var r := Prepare(m, cfg, chat, prompt, maxTokens);
            var added := Added(m, chat, prompt);
            var reused := Continues(chat, prompt) || Retokenizes(m, chat, prompt);
            && (r.Ok? <==> added.Some? && (reused || added.value != [])
                           && |chat.history| + |added.value| + Budget(cfg, maxTokens) + 1 <= cfg.maxContext)
            && (r.Ok? ==>
                  && r.value.history == chat.history + added.value && r.value.evaluated == r.value.history
                  && r.value.transcript == Some(if reused then prompt else chat.transcript + prompt)
                  && r.value.maxTokens == Budget(cfg, maxTokens) && r.value.emitted == 0 && !r.value.lengthStop
                  && r.value.text == [] && r.value.pending == IDLE)
  {
    assert Continues(chat, prompt) <==> PathFor(m, chat, prompt) == TranscriptPrefix;
    if Continues(chat, prompt) {
      assert chat.transcript + prompt[|chat.transcript|..] == prompt;
    } else {
      assert Retokenizes(m, chat, prompt) <==> PathFor(m, chat, prompt) == TokenPrefix;
    }
  }

  /** Without a session the budget is what the context leaves, at least one token, and the context is as large as needed
      but not smaller than 128. */
  lemma PrepareOnceMeans(m: LanguageModel, cfg: Config, prompt: Bytes, maxTokens: int)
    requires ValidConfig(cfg)
    ensures var r := PrepareOnce(m, cfg, prompt, maxTokens);
            var tokens := m.tokenize(prompt, true);
            && (r.Ok? <==> tokens.Some? && tokens.value != [] && |tokens.value| + 2 <= cfg.maxContext)
            && (r.Ok? ==>
                  var room := cfg.maxContext - |tokens.value| - 1;
                  && r.value.maxTokens == (if Budget(cfg, maxTokens) <= room then Budget(cfg, maxTokens) else room)
                  && r.value.history == tokens.value && r.value.evaluated == tokens.value && r.value.transcript.None?
                  && |tokens.value| + r.value.maxTokens + 1 <= r.value.capacity <= cfg.maxContext
                  && (r.value.capacity == |tokens.value| + r.value.maxTokens + 1 || r.value.capacity == 128)
                  && r.value.capacity >= 128 && r.value.emitted == 0 && r.value.text == [] && r.value.pending == IDLE)
  {
  }

  // ---- Reuse agrees with evaluating from scratch

  /** Reusing a token prefix leaves the very generation state that evaluating the whole prompt in a new session leaves,
      and both refuse together; so everything generated afterwards is the same. */
  lemma TokenReuseIsFromScratch(m: LanguageModel, cfg: Config, chat: Chat, prompt: Bytes, maxTokens: int)
    requires chat.evaluated == chat.history && ValidConfig(cfg)
    requires PathFor(m, chat, prompt) == TokenPrefix
    ensures Prepare(m, cfg, chat, prompt, maxTokens) == Prepare(m, cfg, NEW_CHAT, prompt, maxTokens)
  {
    var full := m.tokenize(prompt, true).value;
    var h := |chat.history|;
    assert chat.history + full[h..] == full;
    assert NEW_CHAT.history + full == full && NEW_CHAT.transcript + prompt == prompt;
    assert PlanFor(m, NEW_CHAT, prompt) == Ok(Plan(full, 0, prompt));
    assert PlanFor(m, chat, prompt) == Ok(Plan(full[h..], h, prompt));
    if full[h..] == [] {
      assert chat.history == full;
    }
  }

  /** Both reuse paths leave the transcript equal to the prompt, and no cached token is evaluated twice. */
  lemma ReuseLeavesPrompt(m: LanguageModel, cfg: Config, chat: Chat, prompt: Bytes, maxTokens: int)
    requires chat.evaluated == chat.history
    requires PathFor(m, chat, prompt) != Append && Prepare(m, cfg, chat, prompt, maxTokens).Ok?
    ensures var g := Prepare(m, cfg, chat, prompt, maxTokens).value;
            && g.transcript == Some(prompt)
            && chat.history <= g.history && g.evaluated == g.history
  {
    if chat.transcript <= prompt {
      assert chat.transcript + prompt[|chat.transcript|..] == prompt;
    }
  }

  // ---- Sequences of requests

  datatype Request = Request(prompt: Bytes, maxTokens: int, reset: bool)

  /** One request on a session; a failed preparation leaves the session as it was (reset aside). */
  function Serve(m: LanguageModel, cfg: Config, chat: Chat, q: Request): Chat {
    var start := if q.reset then NEW_CHAT else chat;
    var prepared := Prepare(m, cfg, start, q.prompt, q.maxTokens);
    if prepared.Err? then start
    else
      var end := Run(m, cfg, prepared.value).0;
      Chat(end.evaluated, end.history, if end.transcript.Some? then end.transcript.value else start.transcript)
  }

  function ServeAll(m: LanguageModel, cfg: Config, requests: seq<Request>): Chat {
    if requests == [] then NEW_CHAT
    else Serve(m, cfg, ServeAll(m, cfg, requests[..|requests| - 1]), requests[|requests| - 1])
  }

  predicate ChatInv(cfg: Config, chat: Chat) {
    && chat.evaluated == chat.history
    && |chat.history| <= cfg.maxContext
    && (chat.history == [] ==> chat.transcript == [])
    && 0 !in chat.transcript
  }

  /** Prompts come in as C strings. */
  predicate CStrings(requests: seq<Request>) {
    forall i :: 0 <= i < |requests| ==> 0 !in requests[i].prompt
  }

  lemma {:induction false} RunKeepsTranscript(m: LanguageModel, cfg: Config, g: Gen)
    requires Ready(g) && g.transcript.Some? && 0 !in g.transcript.value
    ensures var end := Run(m, cfg, g).0;
            end.transcript.Some? && g.transcript.value <= end.transcript.value && 0 !in end.transcript.value
    decreases g.maxTokens - g.emitted
  {
    hide Decode, Fill, Concat;
    StepKeepsReady(m, cfg, g);
    var (next, turn) := Step(m, cfg, g);
    assert next.transcript.Some? && g.transcript.value <= next.transcript.value && 0 !in next.transcript.value;
    if turn == More {
      RunKeepsTranscript(m, cfg, next);
    }
  }

  /** The session a request starts from, the tokens its prompt adds there, and what the transcript then is. */
  function StartOf(chat: Chat, q: Request): Chat {
    if q.reset then Chat([], [], []) else chat
  }

  predicate Accepted(m: LanguageModel, cfg: Config, chat: Chat, q: Request) {
    var added := Added(m, chat, q.prompt);
    && added.Some? && (Continues(chat, q.prompt) || Retokenizes(m, chat, q.prompt) || added.value != [])
    && |chat.history| + |added.value| + Budget(cfg, q.maxTokens) + 1 <= cfg.maxContext
  }

  /** One whole request. A refused prompt leaves the session, reset or not, as it was. An accepted one is recorded, and
      behind it comes the model's greedy reply, at most as long as the budget; the transcript gains what was streamed. */
  lemma RequestMeans(m: LanguageModel, cfg: Config, chat: Chat, q: Request)
    requires ValidConfig(cfg) && chat.evaluated == chat.history
    ensures var start := StartOf(chat, q);
            var end := Serve(m, cfg, chat, q);
            if !Accepted(m, cfg, start, q) then end == start
            else
              var prompted := start.history + Added(m, start, q.prompt).value;
              && prompted <= end.history && end.evaluated == end.history
              && |end.history| - |prompted| <= Budget(cfg, q.maxTokens)
              && Sampled(m, cfg, end.history, |prompted|)
              && end.transcript
                 == (if Continues(start, q.prompt) || Retokenizes(m, start, q.prompt) then q.prompt
                     else start.transcript + q.prompt) + Streamed(m, IDLE, end.history[|prompted|..])
  {
    hide Run, Prepare, Added, Sampled, Streamed, Continues, Retokenizes, Budget;
    var start := StartOf(chat, q);
    PrepareMeans(m, cfg, start, q.prompt, q.maxTokens);
    var prepared := Prepare(m, cfg, start, q.prompt, q.maxTokens);
    if prepared.Ok? {
      PrepareIsReady(m, cfg, start, q.prompt, q.maxTokens);
      ReplyIsSampled(m, cfg, prepared.value);
      LoopIsSafe(m, cfg, prepared.value);
      TranscriptIsStreamed(m, cfg, prepared.value);
    }
  }

  /** After any sequence of requests the context has evaluated exactly the recorded history, which fits its buffer, and
      an empty history has an empty transcript. */
  lemma {:induction false} CacheAgrees(m: LanguageModel, cfg: Config, requests: seq<Request>)
    requires ValidConfig(cfg) && CStrings(requests)
    ensures ChatInv(cfg, ServeAll(m, cfg, requests))
    decreases |requests|
  {
    if requests != [] {
      var n := |requests| - 1;
      CacheAgrees(m, cfg, requests[..n]);
      ServeKeepsInv(m, cfg, ServeAll(m, cfg, requests[..n]), requests[n]);
    }
  }

  lemma ServeKeepsInv(m: LanguageModel, cfg: Config, chat: Chat, q: Request)
    requires ValidConfig(cfg) && ChatInv(cfg, chat) && 0 !in q.prompt
    ensures ChatInv(cfg, Serve(m, cfg, chat, q))
  {
    hide Run;
    var start := if q.reset then NEW_CHAT else chat;
    var prepared := Prepare(m, cfg, start, q.prompt, q.maxTokens);
    if prepared.Ok? {
      assert 0 !in prepared.value.transcript.value;
      PrepareIsReady(m, cfg, start, q.prompt, q.maxTokens);
      LoopIsSafe(m, cfg, prepared.value);
      RunKeepsTranscript(m, cfg, prepared.value);
    }
  }

  /** A prompt that continues the transcript of an earlier reply is always served from the cache: only its new suffix
      is tokenized and evaluated. */
  lemma ContinuationIsServedFromCache(m: LanguageModel, cfg: Config, requests: seq<Request>, suffix: Bytes)
    requires ValidConfig(cfg) && CStrings(requests)
    ensures var chat := ServeAll(m, cfg, requests);
            var prompt := chat.transcript + suffix;
            chat.transcript != [] && m.tokenize(suffix, false).Some? ==>
              && PathFor(m, chat, prompt) == TranscriptPrefix
              && PlanFor(m, chat, prompt) == Ok(Plan(m.tokenize(suffix, false).value, |chat.history|, prompt))
  {
    CacheAgrees(m, cfg, requests);
    var chat := ServeAll(m, cfg, requests);
    assert (chat.transcript + suffix)[|chat.transcript|..] == suffix;
  }

  /** Dropping the cache changes no reply on the token-prefix path: the request leaves the same session either way. */
  lemma ReuseIsTransparent(m: LanguageModel, cfg: Config, requests: seq<Request>, q: Request)
    requires ValidConfig(cfg) && CStrings(requests) && !q.reset
    requires PathFor(m, ServeAll(m, cfg, requests), q.prompt) == TokenPrefix
    ensures var chat := ServeAll(m, cfg, requests);
            Prepare(m, cfg, chat, q.prompt, q.maxTokens).Ok? ==>
              Serve(m, cfg, chat, q) == Serve(m, cfg, chat, q.(reset := true))
  {
    hide Run, Prepare;
    CacheAgrees(m, cfg, requests);
    var chat := ServeAll(m, cfg, requests);
    TokenReuseIsFromScratch(m, cfg, chat, q.prompt, q.maxTokens);
    var prepared := Prepare(m, cfg, chat, q.prompt, q.maxTokens);
    if prepared.Ok? {
      PrepareIsReady(m, cfg, chat, q.prompt, q.maxTokens);
      LoopIsSafe(m, cfg, prepared.value);
    }
  }
}
