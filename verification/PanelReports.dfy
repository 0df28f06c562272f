/** What a panel report says, row by row and step by step, without the functions that compute it. */
module PanelReports {
  import opened Bytes
  import opened Outcomes
  import opened PrefixWire
  import opened BatchedDecode
  import Utf8

  /** A greedy reply: each token is the arg-max after the prompt and the tokens before it, none but the last is a stop token,
      and it ends with one or has 64 tokens. */
  predicate GreedyReply(m: Model, prompt: Tokens, g: Tokens) {
    && 0 < |g| <= 64
    && (forall k :: 0 <= k < |g| ==> g[k] == m.next(prompt + g[..k]))
    && (forall k :: 0 <= k < |g| - 1 ==> g[k] !in m.stops)
    && (g[|g| - 1] in m.stops || |g| == 64)
  }

  /** The bytes of tokens, one after the other. */
  function PiecesOf(m: Model, tokens: Tokens): (r: seq<Bytes>)
    ensures |r| == |tokens| && forall i :: 0 <= i < |r| ==> r[i] == m.piece(tokens[i])
  {
    seq(|tokens|, i requires 0 <= i < |tokens| => m.piece(tokens[i]))
  }

  /** A row reports its greedy reply: the tokens without a stop token at the end, their bytes in order, whether these are
      complete text, why the reply ended, and one forward call for each token. */
  predicate RowSays(m: Model, prompt: Tokens, row: Row) {
    && row.prompt == prompt && GreedyReply(m, prompt, row.generated)
    && var n := |row.generated|;
       var stopped := row.generated[n - 1] in m.stops;
       && row.visible == (if stopped then row.generated[..n - 1] else row.generated)
       && row.raw == Concat(PiecesOf(m, row.visible)) && (row.complete <==> Utf8.Valid(row.raw))
       && (row.finish == StopToken <==> stopped) && (row.truncated <==> !stopped) && row.calls == n
  }

  lemma {:induction false} RawTextMeans(m: Model, visible: Tokens)
    ensures RawText(m, visible) == Concat(PiecesOf(m, visible))
    decreases |visible|
  {
    if visible != [] {
      var n := |visible| - 1;
      RawTextMeans(m, visible[..n]);
      assert PiecesOf(m, visible) == PiecesOf(m, visible[..n]) + [m.piece(visible[n])];
      ConcatSnoc(PiecesOf(m, visible[..n]), m.piece(visible[n]));
    }
  }

  lemma GeneratedIsGreedy(m: Model, prompt: Tokens)
    ensures GreedyReply(m, prompt, Generated(m, prompt))
  {
    hide Greedy;
    var g := Generated(m, prompt);
    GreedyPrefix(m, prompt, 0, MAX_NEW);
    GeneratedTerminates(m, prompt);
    forall k | 0 <= k < |g| ensures g[k] == m.next(prompt + g[..k]) {
      GeneratedToken(m, prompt, k);
    }
  }

  /** A prompt has one greedy reply. */
  lemma GreedyOnce(m: Model, prompt: Tokens, a: Tokens, b: Tokens)
    requires GreedyReply(m, prompt, a) && GreedyReply(m, prompt, b)
    ensures a == b
  {
    var n := if |a| <= |b| then |a| else |b|;
    SameSoFar(m, prompt, a, b, n);
    assert a[..n][n - 1] == a[n - 1] && b[..n][n - 1] == b[n - 1];
  }

  lemma {:induction false} SameSoFar(m: Model, prompt: Tokens, a: Tokens, b: Tokens, k: nat)
    requires GreedyReply(m, prompt, a) && GreedyReply(m, prompt, b) && k <= |a| && k <= |b|
    ensures a[..k] == b[..k]
  {
    if k > 0 {
      SameSoFar(m, prompt, a, b, k - 1);
      assert a[..k] == a[..k - 1] + [a[k - 1]] && b[..k] == b[..k - 1] + [b[k - 1]];
    }
  }

  /** The reported row is the one that says so, and there is no other. */
  lemma RowIff(m: Model, prompt: Tokens, row: Row)
    ensures row == RowOf(m, prompt, Generated(m, prompt)) <==> RowSays(m, prompt, row)
  {
    hide Greedy, Concat, Utf8.Valid, RawText;
    var g := Generated(m, prompt);
    GeneratedIsGreedy(m, prompt);
    RawTextMeans(m, Visible(m, g));
    if RowSays(m, prompt, row) {
      GreedyOnce(m, prompt, g, row.generated);
      assert row.finish == StopToken || row.finish == MaxNewTokens;
    }
  }

  /** A step reports, in ascending order, exactly the rows that still generate; its files hold their prefixes, and the arg-max
      of each, which is the row's next token. */
  predicate StepSays(m: Model, prompts: seq<Tokens>, rows: seq<Row>, k: nat, info: StepInfo, file: StepFile)
    requires |rows| == |prompts|
  {
    && info.step == k && (forall i, j :: 0 <= i < j < |info.active| ==> info.active[i] < info.active[j])
    && (forall j :: 0 <= j < |info.active| ==> info.active[j] < |rows| && |rows[info.active[j]].generated| > k)
    && (forall i :: 0 <= i < |rows| && |rows[i].generated| > k ==> i in info.active)
    && |file.output| == |info.active|
    && (forall j :: 0 <= j < |info.active| ==> file.output[j] == rows[info.active[j]].generated[k])
    && file.input == Encode(PrefixesAt(prompts, rows, info.active, k))
  }

  /** What these rows are continued from: prompt and the first `k` tokens. */
  function PrefixesAt(prompts: seq<Tokens>, rows: seq<Row>, active: seq<nat>, k: nat): (r: seq<Tokens>)
    requires |rows| == |prompts| && forall j :: 0 <= j < |active| ==> active[j] < |rows| && |rows[active[j]].generated| > k
    ensures |r| == |active|
    ensures forall j :: 0 <= j < |r| ==> r[j] == prompts[active[j]] + rows[active[j]].generated[..k]
  {
    seq(|active|, j requires 0 <= j < |active| => prompts[active[j]] + rows[active[j]].generated[..k])
  }

  /** A whole panel: one row for each prompt, and one step for each token of the longest reply. */
  predicate PanelSays(m: Model, prompts: seq<Tokens>, report: Report, files: seq<StepFile>) {
    && |report.rows| == |prompts| && (forall i :: 0 <= i < |prompts| ==> RowSays(m, prompts[i], report.rows[i]))
    && |files| == |report.steps|
    && (forall i :: 0 <= i < |prompts| ==> |report.rows[i].generated| <= |report.steps|)
    && (prompts != [] ==> exists i :: 0 <= i < |prompts| && |report.rows[i].generated| == |report.steps|)
    && (prompts == [] ==> report.steps == [])
    && forall k :: 0 <= k < |report.steps| ==> StepSays(m, prompts, report.rows, k, report.steps[k], files[k])
  }

  lemma StepIsSaid(m: Model, prompts: seq<Tokens>, rows: seq<Row>, k: nat)
    requires |rows| == |prompts| && forall i :: 0 <= i < |rows| ==> rows[i].generated == Generated(m, prompts[i])
    ensures var gens := Gens(m, prompts);
            StepSays(m, prompts, rows, k, StepInfo(k, ActiveAt(gens, k)), FileOf(m, prompts, gens, k))
  {
    hide Encode, Generated, Picks;
    var gens := Gens(m, prompts);
    ActiveGenerate(gens, k);
    hide ActiveAt;
    var active := ActiveAt(gens, k);
    var current := CurrentAt(prompts, gens, active, k);
    assert forall j :: 0 <= j < |active| ==> gens[active[j]] == rows[active[j]].generated;
    assert current == PrefixesAt(prompts, rows, active, k);
    forall j | 0 <= j < |active| ensures m.next(current[j]) == rows[active[j]].generated[k] {
      GeneratedToken(m, prompts[active[j]], k);
    }
  }

  lemma ActiveGenerate(gens: seq<Tokens>, k: nat)
    ensures var active := ActiveAt(gens, k);
            && (forall i, j :: 0 <= i < j < |active| ==> active[i] < active[j])
            && (forall j :: 0 <= j < |active| ==> active[j] < |gens| && |gens[active[j]]| > k)
            && (forall i :: 0 <= i < |gens| && |gens[i]| > k ==> i in active)
  {
  }

  /** The report of a run, and every report that an audit of genuine files accepts, says exactly this. */
  lemma ReportSays(m: Model, prompts: seq<Tokens>)
    ensures var report := ReportOf(m, prompts);
            PanelSays(m, prompts, report, FilesOf(m, prompts, Gens(m, prompts), |report.steps|))
  {
    hide Encode, Generated, RowOf, RowSays, StepSays, FileOf, ActiveAt;
    var report, gens := ReportOf(m, prompts), Gens(m, prompts);
    forall i | 0 <= i < |prompts|
      ensures RowSays(m, prompts[i], report.rows[i]) && report.rows[i].generated == gens[i] && |gens[i]| > 0
    {
      RowIff(m, prompts[i], report.rows[i]);
      RowGenerates(m, prompts[i]);
    }
    forall k | 0 <= k < |report.steps|
      ensures StepSays(m, prompts, report.rows, k, report.steps[k], FileOf(m, prompts, gens, k))
    {
      StepIsSaid(m, prompts, report.rows, k);
    }
    if prompts != [] {
      assert |gens[0]| > 0;
    }
  }

  lemma RowGenerates(m: Model, prompt: Tokens)
    ensures RowOf(m, prompt, Generated(m, prompt)).generated == Generated(m, prompt) && |Generated(m, prompt)| > 0
  {
    GeneratedIsGreedy(m, prompt);
  }

  lemma AcceptedSays(m: Model, prompts: seq<Tokens>, report: Report, files: seq<StepFile>)
    requires |prompts| <= MAX_BATCH && (forall k :: 0 <= k < |files| ==> Genuine(m, files[k]))
    requires Accepts(m, prompts, report, files)
    ensures PanelSays(m, prompts, report, files) && |report.rows| == |prompts|
    ensures forall i :: 0 <= i < |prompts| ==> 2 <= |prompts[i]| && |prompts[i]| + |report.rows[i].generated| <= 129
  {
    hide Accepts, FilesOf, Generated;
    AuditMeans(m, prompts, report, files);
    ReportSays(m, prompts);
    hide PanelSays;
    forall i | 0 <= i < |prompts| ensures 2 <= |prompts[i]| && |prompts[i]| + |report.rows[i].generated| <= 129 {
      assert RowFits(m, prompts[i], CAPACITY + 1);
    }
  }
}
