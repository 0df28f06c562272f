/** Greedy decoding of a whole panel in shrinking batches, and the audit that replays its raw traces. */
module BatchedDecode {
  import opened Bytes
  import opened Outcomes
  import opened PrefixWire
  import Utf8

  const MAX_NEW: nat := 64
  const CAPACITY: nat := 128
  const MAX_BATCH: nat := 10000

  type Tokens = seq<Token>

  /** The arg-max of the native model's scores, its stop tokens, and the bytes of a token. */
  datatype Model = Model(next: Tokens -> Token, stops: set<Token>, piece: Token -> Bytes)

  // ---- One row by itself

  predicate Stopped(m: Model, g: Tokens) {
    g != [] && g[|g| - 1] in m.stops
  }

  /** What one row generates alone in at most `k` steps: the arg-max of the prompt and everything so far, up to and
      including the first stop token. */
  function Greedy(m: Model, prompt: Tokens, k: nat): (g: Tokens)
    ensures |g| <= k && (!Stopped(m, g) ==> |g| == k)
  {
    if k == 0 then []
    else
      var g := Greedy(m, prompt, k - 1);
      if Stopped(m, g) then g else g + [m.next(prompt + g)]
  }

  function Generated(m: Model, prompt: Tokens): Tokens {
    Greedy(m, prompt, MAX_NEW)
  }

  function Visible(m: Model, g: Tokens): Tokens {
    if Stopped(m, g) then g[..|g| - 1] else g
  }

  /** Steps only ever extend a row, and stop at its first stop token. */
  lemma {:induction false} GreedyPrefix(m: Model, prompt: Tokens, k: nat, n: nat)
    requires k <= n
    ensures var g := Greedy(m, prompt, n);
            && Greedy(m, prompt, k) == (if k <= |g| then g[..k] else g)
            && (!Stopped(m, Greedy(m, prompt, k)) && k < n <==> k < |g|)
    decreases n
  {
    if k < n {
      GreedyPrefix(m, prompt, k, n - 1);
    }
  }

  // ---- All rows together

  datatype Live = Live(prefix: Tokens, generated: Tokens, visible: Tokens, done: bool)

  /** One row after one token. */
  function Advance(m: Model, r: Live, token: Token): Live {
    if token in m.stops then r.(generated := r.generated + [token], done := true)
    else Live(r.prefix + [token], r.generated + [token], r.visible + [token], false)
  }

  function After(m: Model, prompt: Tokens, k: nat): Live {
    var g := Greedy(m, prompt, k);
    Live(prompt + Visible(m, g), g, Visible(m, g), Stopped(m, g))
  }

  lemma AdvanceIsAfter(m: Model, prompt: Tokens, k: nat)
    ensures var r := After(m, prompt, k);
            After(m, prompt, k + 1) == if r.done then r else Advance(m, r, m.next(r.prefix))
  {
    var g := Greedy(m, prompt, k);
    if !Stopped(m, g) {
      var longer := g + [m.next(prompt + g)];
      assert longer[..|longer| - 1] == g;
      assert prompt + longer == prompt + g + [m.next(prompt + g)];
    }
  }

  /** Indices of the true flags, in order. */
  function Picks(flags: seq<bool>): (r: seq<nat>)
    ensures forall j :: 0 <= j < |r| ==> r[j] < |flags| && flags[r[j]]
    ensures forall i, j :: 0 <= i < j < |r| ==> r[i] < r[j]
    ensures forall i :: 0 <= i < |flags| && flags[i] ==> i in r
  {
    if flags == [] then []
    else Picks(flags[..|flags| - 1]) + (if flags[|flags| - 1] then [|flags| - 1] else [])
  }

  predicate Indices(active: seq<nat>, n: nat) {
    forall j :: 0 <= j < |active| ==> active[j] < n
  }

  /** The rows that generate a token at step `k`. */
  function ActiveAt(gens: seq<Tokens>, k: nat): (r: seq<nat>)
    ensures Indices(r, |gens|)
  {
    Picks(seq(|gens|, i requires 0 <= i < |gens| => |gens[i]| > k))
  }

  function Upto(g: Tokens, k: nat): Tokens {
    if k <= |g| then g[..k] else g
  }

  /** The prefixes those rows are continued from. */
  function CurrentAt(prompts: seq<Tokens>, gens: seq<Tokens>, active: seq<nat>, k: nat): (r: seq<Tokens>)
    requires |prompts| == |gens| && Indices(active, |gens|)
    ensures |r| == |active|
    ensures forall j :: 0 <= j < |active| ==> r[j] == prompts[active[j]] + Upto(gens[active[j]], k)
  {
    seq(|active|, j requires 0 <= j < |active| => prompts[active[j]] + Upto(gens[active[j]], k))
  }

  function MaxLen(gens: seq<Tokens>): (r: nat)
    ensures forall i :: 0 <= i < |gens| ==> |gens[i]| <= r
    ensures r > 0 ==> exists i :: 0 <= i < |gens| && |gens[i]| == r
  {
    if gens == [] then 0
    else
      var rest, last := MaxLen(gens[..|gens| - 1]), |gens[|gens| - 1]|;
      if last > rest then last else rest
  }

  datatype Finish = StopToken | MaxNewTokens

  datatype Row = Row(prompt: Tokens, generated: Tokens, visible: Tokens, raw: Bytes, complete: bool, finish: Finish,
                     truncated: bool, calls: nat)

  datatype StepInfo = StepInfo(step: nat, active: seq<nat>)

  /** The raw files of one step: the batch as given to the native model, and the arg-max of each row of scores. */
  datatype StepFile = StepFile(input: Bytes, output: Tokens)

  datatype Report = Report(rows: seq<Row>, steps: seq<StepInfo>)

  function RawText(m: Model, visible: Tokens): Bytes {
    if visible == [] then [] else RawText(m, visible[..|visible| - 1]) + m.piece(visible[|visible| - 1])
  }

  function RowOf(m: Model, prompt: Tokens, g: Tokens): Row {
    var stopped, raw := Stopped(m, g), RawText(m, Visible(m, g));
    Row(prompt, g, Visible(m, g), raw, Utf8.Valid(raw), if stopped then StopToken else MaxNewTokens, !stopped, |g|)
  }

  function Gens(m: Model, prompts: seq<Tokens>): (r: seq<Tokens>)
    ensures |r| == |prompts| && forall i :: 0 <= i < |prompts| ==> r[i] == Generated(m, prompts[i])
  {
    seq(|prompts|, i requires 0 <= i < |prompts| => Generated(m, prompts[i]))
  }

  function RowsOf(m: Model, prompts: seq<Tokens>, gens: seq<Tokens>): (r: seq<Row>)
    requires |prompts| == |gens|
    ensures |r| == |prompts| && forall i :: 0 <= i < |prompts| ==> r[i] == RowOf(m, prompts[i], gens[i])
  {
    seq(|prompts|, i requires 0 <= i < |prompts| => RowOf(m, prompts[i], gens[i]))
  }

  function StepsOf(gens: seq<Tokens>, n: nat): (r: seq<StepInfo>)
    ensures |r| == n && forall k :: 0 <= k < n ==> r[k] == StepInfo(k, ActiveAt(gens, k))
  {
    seq(n, k requires 0 <= k < n => StepInfo(k, ActiveAt(gens, k)))
  }

  function Outputs(m: Model, current: seq<Tokens>): (r: Tokens)
    ensures |r| == |current| && forall j :: 0 <= j < |current| ==> r[j] == m.next(current[j])
  {
    seq(|current|, j requires 0 <= j < |current| => m.next(current[j]))
  }

  function FileOf(m: Model, prompts: seq<Tokens>, gens: seq<Tokens>, k: nat): StepFile
    requires |prompts| == |gens|
  {
    var current := CurrentAt(prompts, gens, ActiveAt(gens, k), k);
    StepFile(Encode(current), Outputs(m, current))
  }

  function FilesOf(m: Model, prompts: seq<Tokens>, gens: seq<Tokens>, n: nat): (r: seq<StepFile>)
    requires |prompts| == |gens|
    ensures |r| == n && forall k :: 0 <= k < n ==> r[k] == FileOf(m, prompts, gens, k)
  {
    seq(n, k requires 0 <= k < n => FileOf(m, prompts, gens, k))
  }

  /** What the panel should report: every row decoded by itself, and the steps in which rows take part until they stop. */
  function ReportOf(m: Model, prompts: seq<Tokens>): Report {
    var gens := Gens(m, prompts);
    Report(RowsOf(m, prompts, gens), StepsOf(gens, MaxLen(gens)))
  }

  /** The longest prefix a row is continued from, one short of prompt and generated tokens together, stays under `cap`. */
  predicate RowFits(m: Model, prompt: Tokens, cap: nat) {
    2 <= |prompt| && |prompt| + |Generated(m, prompt)| <= cap
  }

  predicate AllFit(m: Model, prompts: seq<Tokens>, cap: nat) {
    forall i :: 0 <= i < |prompts| ==> RowFits(m, prompts[i], cap)
  }

  // ---- The run

  predicate Running(m: Model, prompts: seq<Tokens>, rows: seq<Live>, k: nat) {
    |rows| == |prompts| && forall i :: 0 <= i < |rows| ==> rows[i] == After(m, prompts[i], k)
  }

  lemma ActiveWhileRunning(m: Model, prompts: seq<Tokens>, rows: seq<Live>, k: nat)
    requires Running(m, prompts, rows, k) && k < MAX_NEW
    ensures Picks(seq(|rows|, i requires 0 <= i < |rows| => !rows[i].done)) == ActiveAt(Gens(m, prompts), k)
    ensures forall i :: 0 <= i < |rows| && !rows[i].done ==>
              rows[i].prefix == prompts[i] + Upto(Gens(m, prompts)[i], k) && |rows[i].prefix| == |prompts[i]| + k
  {
    var gens := Gens(m, prompts);
    forall i | 0 <= i < |rows|
      ensures !rows[i].done <==> |gens[i]| > k
      ensures !rows[i].done ==> rows[i].prefix == prompts[i] + Upto(gens[i], k) && |rows[i].prefix| == |prompts[i]| + k
    {
      GreedyPrefix(m, prompts[i], k, MAX_NEW);
    }
    assert seq(|rows|, i requires 0 <= i < |rows| => !rows[i].done)
        == seq(|gens|, i requires 0 <= i < |gens| => |gens[i]| > k);
  }

  method ActiveRows(rows: seq<Live>) returns (active: seq<nat>)
    ensures active == Picks(seq(|rows|, i requires 0 <= i < |rows| => !rows[i].done))
  {
    active := [];
    ghost var flags := seq(|rows|, i requires 0 <= i < |rows| => !rows[i].done);
    for i := 0 to |rows|
      invariant active == Picks(flags[..i])
    {
      assert flags[..i + 1][..i] == flags[..i];
      if !rows[i].done {
        active := active + [i];
      }
    }
    assert flags[..|rows|] == flags;
  }

  /** One step: every running row gets its token from one native batch. */
  method AdvanceAll(m: Model, ghost prompts: seq<Tokens>, before: seq<Live>, active: seq<nat>, output: Tokens,
                    ghost k: nat) returns (rows: seq<Live>)
    requires Running(m, prompts, before, k)
    requires active == Picks(seq(|before|, i requires 0 <= i < |before| => !before[i].done))
    requires |output| == |active| && forall j :: 0 <= j < |active| ==> output[j] == m.next(before[active[j]].prefix)
    ensures Running(m, prompts, rows, k + 1)
  {
    hide After, Advance;
    rows := before;
    for position := 0 to |active|
      invariant |rows| == |before|
      invariant forall i :: 0 <= i < |rows| ==>
        rows[i] == if i in active[..position] then After(m, prompts[i], k + 1) else before[i]
    {
      var i := active[position];
      assert i !in active[..position];
      AdvanceIsAfter(m, prompts[i], k);
      rows := rows[i := Advance(m, rows[i], output[position])];
      assert active[..position + 1] == active[..position] + [i];
    }
    assert active[..|active|] == active;
    forall i | 0 <= i < |rows| ensures rows[i] == After(m, prompts[i], k + 1) {
      if i !in active {
        AdvanceIsAfter(m, prompts[i], k);
      }
    }
  }

  function Prefixes(rows: seq<Live>, active: seq<nat>): (r: seq<Tokens>)
    requires Indices(active, |rows|)
    ensures |r| == |active| && forall j :: 0 <= j < |active| ==> r[j] == rows[active[j]].prefix
  {
    seq(|active|, j requires 0 <= j < |active| => rows[active[j]].prefix)
  }

  predicate Usable(prefix: Tokens) {
    2 <= |prefix| < CAPACITY
  }

  /** No step before `k` met a prefix that is too short or too long. */
  predicate Clear(prompts: seq<Tokens>, gens: seq<Tokens>, k: nat)
    requires |prompts| == |gens|
  {
    k > 0 ==> forall i :: 0 <= i < |prompts| ==>
      2 <= |prompts[i]| && |prompts[i]| + (if k <= |gens[i]| then k else |gens[i]|) <= CAPACITY
  }

  lemma ClearStep(m: Model, prompts: seq<Tokens>, current: seq<Tokens>, k: nat)
    requires var gens := Gens(m, prompts);
             Clear(prompts, gens, k) && k < MAX_NEW && current == CurrentAt(prompts, gens, ActiveAt(gens, k), k)
    ensures var gens := Gens(m, prompts);
            if forall j :: 0 <= j < |current| ==> Usable(current[j]) then Clear(prompts, gens, k + 1)
            else !AllFit(m, prompts, CAPACITY)
  {
    var gens := Gens(m, prompts);
    var active := ActiveAt(gens, k);
    if forall j :: 0 <= j < |current| ==> Usable(current[j]) {
      forall i | 0 <= i < |prompts|
        ensures 2 <= |prompts[i]| && |prompts[i]| + (if k + 1 <= |gens[i]| then k + 1 else |gens[i]|) <= CAPACITY
      {
        ClearRow(m, prompts, current, k, i);
      }
    } else {
      var j :| 0 <= j < |current| && !Usable(current[j]);
      hide Clear;
      assert !RowFits(m, prompts[active[j]], CAPACITY);
    }
  }

  lemma ClearRow(m: Model, prompts: seq<Tokens>, current: seq<Tokens>, k: nat, i: nat)
    requires var gens := Gens(m, prompts);
             Clear(prompts, gens, k) && k < MAX_NEW && current == CurrentAt(prompts, gens, ActiveAt(gens, k), k)
    requires i < |prompts| && forall j :: 0 <= j < |current| ==> Usable(current[j])
    ensures var g := Gens(m, prompts)[i];
            2 <= |prompts[i]| && |prompts[i]| + (if k + 1 <= |g| then k + 1 else |g|) <= CAPACITY
  {
    var gens := Gens(m, prompts);
    var active := ActiveAt(gens, k);
    GreedyPrefix(m, prompts[i], 0, MAX_NEW);
    hide Greedy, Stopped;
    if |gens[i]| > k {
      assert i in active;
      var j :| 0 <= j < |active| && active[j] == i;
      assert |current[j]| == |prompts[i]| + k;
    }
  }

  lemma StepsSnoc(m: Model, prompts: seq<Tokens>, gens: seq<Tokens>, k: nat)
    requires |prompts| == |gens|
    ensures StepsOf(gens, k + 1) == StepsOf(gens, k) + [StepInfo(k, ActiveAt(gens, k))]
    ensures FilesOf(m, prompts, gens, k + 1) == FilesOf(m, prompts, gens, k) + [FileOf(m, prompts, gens, k)]
  {
  }

  lemma CurrentIsPrefixes(m: Model, prompts: seq<Tokens>, rows: seq<Live>, k: nat)
    requires Running(m, prompts, rows, k) && k < MAX_NEW
    ensures var gens := Gens(m, prompts);
            Prefixes(rows, ActiveAt(gens, k)) == CurrentAt(prompts, gens, ActiveAt(gens, k), k)
  {
    ActiveWhileRunning(m, prompts, rows, k);
  }

  lemma RunIsComplete(m: Model, prompts: seq<Tokens>, rows: seq<Live>, k: nat)
    requires Running(m, prompts, rows, k) && k <= MAX_NEW
    requires k == MAX_NEW || ActiveAt(Gens(m, prompts), k) == []
    requires k > 0 ==> ActiveAt(Gens(m, prompts), k - 1) != []
    requires Clear(prompts, Gens(m, prompts), k)
    ensures AllFit(m, prompts, CAPACITY) && k == MaxLen(Gens(m, prompts))
    ensures |rows| == |prompts| && forall i :: 0 <= i < |rows| ==> rows[i] == After(m, prompts[i], MAX_NEW)
  {
    hide Greedy, MaxLen, Visible, ActiveAt, After;
    var gens := Gens(m, prompts);
    forall i | 0 <= i < |prompts|
      ensures 0 < |gens[i]| <= k && After(m, prompts[i], k) == After(m, prompts[i], MAX_NEW)
    {
      RowIsComplete(m, prompts, k, i);
    }
    if k > 0 {
      SomeoneRan(gens, k - 1);
    }
  }

  lemma SomeoneRan(gens: seq<Tokens>, k: nat)
    requires ActiveAt(gens, k) != []
    ensures exists i :: 0 <= i < |gens| && |gens[i]| > k
  {
    assert |gens[ActiveAt(gens, k)[0]]| > k;
  }

  lemma RowIsComplete(m: Model, prompts: seq<Tokens>, k: nat, i: nat)
    requires i < |prompts| && k <= MAX_NEW && (k == MAX_NEW || ActiveAt(Gens(m, prompts), k) == [])
    ensures 0 < |Gens(m, prompts)[i]| <= k && After(m, prompts[i], k) == After(m, prompts[i], MAX_NEW)
  {
    hide Greedy;
    var g := Gens(m, prompts)[i];
    assert k < MAX_NEW && |g| > k ==> i in ActiveAt(Gens(m, prompts), k);
    GreedyPrefix(m, prompts[i], k, MAX_NEW);
    GreedyPrefix(m, prompts[i], 0, MAX_NEW);
    assert g[..|g|] == g;
  }

  /** Decode the panel; `None` when some running prefix cannot be given to the native model. */
  method RunBatch(m: Model, prompts: seq<Tokens>) returns (r: Option<(Report, seq<StepFile>)>)
    requires |prompts| <= MAX_BATCH
    ensures r.Some? <==> AllFit(m, prompts, CAPACITY)
    ensures r.Some? ==> r.value.0 == ReportOf(m, prompts)
    ensures r.Some? ==> r.value.1 == FilesOf(m, prompts, Gens(m, prompts), |r.value.0.steps|)
  {
    hide ActiveAt, Picks, After, FileOf, Running, Clear, MaxLen, AllFit, CurrentAt, Encode, Greedy, Advance;
    ghost var gens := Gens(m, prompts);
    var rows: seq<Live> := seq(|prompts|, i requires 0 <= i < |prompts| => Live(prompts[i], [], [], false));
    var steps: seq<StepInfo> := [];
    var files: seq<StepFile> := [];
    StartRunning(m, prompts, rows);
    var k := 0;
    while k < MAX_NEW
      invariant k <= MAX_NEW && Running(m, prompts, rows, k)
      invariant steps == StepsOf(gens, k) && files == FilesOf(m, prompts, gens, k)
      invariant k > 0 ==> ActiveAt(gens, k - 1) != []
      invariant Clear(prompts, gens, k)
    {
      ActiveWhileRunning(m, prompts, rows, k);
      var active := ActiveRows(rows);
      if active == [] {
        break;
      }
      var current := Prefixes(rows, active);
      CurrentIsPrefixes(m, prompts, rows, k);
      ClearStep(m, prompts, current, k);
      if exists j :: 0 <= j < |current| && !Usable(current[j]) {
        return None;
      }
      var input := WriteInput(current);
      var output := Outputs(m, current);
      rows := AdvanceAll(m, prompts, rows, active, output, k);
      steps := steps + [StepInfo(k, active)];
      files := files + [StepFile(input, output)];
      FileIs(m, prompts, gens, k);
      StepsSnoc(m, prompts, gens, k);
      k := k + 1;
    }
    RunIsComplete(m, prompts, rows, k);
    var predictions := Predictions(m, prompts, rows);
    r := Some((Report(predictions, steps), files));
  }

  lemma FileIs(m: Model, prompts: seq<Tokens>, gens: seq<Tokens>, k: nat)
    requires |prompts| == |gens|
    ensures var current := CurrentAt(prompts, gens, ActiveAt(gens, k), k);
            FileOf(m, prompts, gens, k) == StepFile(Encode(current), Outputs(m, current))
  {
  }

  lemma StartRunning(m: Model, prompts: seq<Tokens>, rows: seq<Live>)
    requires rows == seq(|prompts|, i requires 0 <= i < |prompts| => Live(prompts[i], [], [], false))
    ensures Running(m, prompts, rows, 0)
    ensures Clear(prompts, Gens(m, prompts), 0)
  {
    forall i | 0 <= i < |rows| ensures rows[i] == After(m, prompts[i], 0) {
      assert prompts[i] + [] == prompts[i];
    }
  }

  method Predictions(m: Model, prompts: seq<Tokens>, rows: seq<Live>) returns (r: seq<Row>)
    requires |rows| == |prompts| && forall i :: 0 <= i < |rows| ==> rows[i] == After(m, prompts[i], MAX_NEW)
    ensures r == RowsOf(m, prompts, Gens(m, prompts))
  {
    hide Greedy, RawText, Utf8.Valid;
    r := [];
    for i := 0 to |rows|
      invariant |r| == i && forall k :: 0 <= k < i ==> r[k] == RowOf(m, prompts[k], Generated(m, prompts[k]))
    {
      var raw := RawText(m, rows[i].visible);
      r := r + [Row(prompts[i], rows[i].generated, rows[i].visible, raw, Utf8.Valid(raw),
                    if rows[i].done then StopToken else MaxNewTokens, !rows[i].done, |rows[i].generated|)];
    }
  }

  // ---- The audit

  function GensOf(rows: seq<Row>): (r: seq<Tokens>)
    ensures |r| == |rows| && forall i :: 0 <= i < |rows| ==> r[i] == rows[i].generated
  {
    seq(|rows|, i requires 0 <= i < |rows| => rows[i].generated)
  }

  /** Between one and 64 tokens, a stop token only at the end, and nothing but a stop token before 64. */
  predicate Terminates(m: Model, g: Tokens) {
    && 1 <= |g| <= MAX_NEW && (forall i :: 0 <= i < |g| - 1 ==> g[i] !in m.stops)
    && (!Stopped(m, g) ==> |g| == MAX_NEW)
  }

  predicate RowAccepted(m: Model, prompt: Tokens, row: Row) {
    row.prompt == prompt && Terminates(m, row.generated) && row == RowOf(m, prompt, row.generated)
  }

  predicate Readable(prefix: Tokens) {
    2 <= |prefix| <= CAPACITY
  }

  predicate StepAccepted(prompts: seq<Tokens>, gens: seq<Tokens>, info: StepInfo, file: StepFile, k: nat)
    requires |prompts| == |gens|
  {
    var active := ActiveAt(gens, k);
    var current := CurrentAt(prompts, gens, active, k);
    && info == StepInfo(k, active) && file.input == Encode(current) && |file.output| == |current|
    && forall j :: 0 <= j < |current| ==> Readable(current[j]) && file.output[j] == gens[active[j]][k]
  }

  predicate Accepts(m: Model, prompts: seq<Tokens>, report: Report, files: seq<StepFile>) {
    && |report.rows| == |prompts| && |files| == |report.steps|
    && (forall i :: 0 <= i < |prompts| ==> RowAccepted(m, prompts[i], report.rows[i]))
    && var gens := GensOf(report.rows);
    && |report.steps| == MaxLen(gens)
    && forall k :: 0 <= k < |report.steps| ==> StepAccepted(prompts, gens, report.steps[k], files[k], k)
  }

  /** The audit, row by row and then step by step. */
  method Audit(m: Model, prompts: seq<Tokens>, report: Report, files: seq<StepFile>) returns (ok: bool)
    ensures ok <==> Accepts(m, prompts, report, files)
  {
    hide RowOf, Encode, ActiveAt, MaxLen;
    if |report.rows| != |prompts| || |files| != |report.steps| {
      return false;
    }
    for i := 0 to |prompts|
      invariant forall k :: 0 <= k < i ==> RowAccepted(m, prompts[k], report.rows[k])
    {
      var accepted := CheckRow(m, prompts[i], report.rows[i]);
      if !accepted {
        return false;
      }
    }
    var gens := GensOf(report.rows);
    if |report.steps| != MaxLen(gens) {
      return false;
    }
    hide RowAccepted;
    for k := 0 to |report.steps|
      invariant forall j :: 0 <= j < k ==> StepAccepted(prompts, gens, report.steps[j], files[j], j)
    {
      var accepted := CheckStep(prompts, gens, report.steps[k], files[k], k);
      if !accepted {
        return false;
      }
    }
    return true;
  }

  method CheckRow(m: Model, prompt: Tokens, row: Row) returns (ok: bool)
    ensures ok <==> RowAccepted(m, prompt, row)
  {
    var ids := row.generated;
    var stopped := ids != [] && ids[|ids| - 1] in m.stops;
    if row.prompt != prompt || !(1 <= |ids| <= MAX_NEW) {
      return false;
    }
    if exists i :: 0 <= i < |ids| - 1 && ids[i] in m.stops {
      return false;
    }
    if !stopped && |ids| != MAX_NEW {
      return false;
    }
    var visible := if stopped then ids[..|ids| - 1] else ids;
    var raw := RawText(m, visible);
    hide RawText, Utf8.Valid;
    return row.visible == visible && row.raw == raw && row.complete == Utf8.Valid(raw) && row.truncated == !stopped
           && row.finish == (if stopped then StopToken else MaxNewTokens) && row.calls == |ids|;
  }

  method CheckStep(prompts: seq<Tokens>, gens: seq<Tokens>, info: StepInfo, file: StepFile, k: nat) returns (ok: bool)
    requires |prompts| == |gens|
    ensures ok <==> StepAccepted(prompts, gens, info, file, k)
  {
    var active := ActiveAt(gens, k);
    if info.step != k || info.active != active {
      return false;
    }
    var current := CurrentAt(prompts, gens, active, k);
    var expected := WriteInput(current);
    if file.input != expected || |file.output| != |current| {
      return false;
    }
    hide ActiveAt, CurrentAt, Encode;
    for j := 0 to |current|
      invariant forall i :: 0 <= i < j ==> Readable(current[i]) && file.output[i] == gens[active[i]][k]
    {
      if !Readable(current[j]) || file.output[j] != gens[active[j]][k] {
        return false;
      }
    }
    return true;
  }

  // ---- What an accepted audit proves

  /** The output belongs to the input: whatever batch the input spells, these are its arg-maxes. */
  ghost predicate Genuine(m: Model, file: StepFile) {
    forall rows :: RowsFit(rows) && file.input == Encode(rows) ==> file.output == Outputs(m, rows)
  }

  /** The files of the run are genuine, because a file spells one batch only. */
  lemma FileIsGenuine(m: Model, prompts: seq<Tokens>, gens: seq<Tokens>, k: nat)
    requires |prompts| == |gens|
    requires RowsFit(CurrentAt(prompts, gens, ActiveAt(gens, k), k))
    ensures Genuine(m, FileOf(m, prompts, gens, k))
  {
    hide Encode, ActiveAt;
    var current := CurrentAt(prompts, gens, ActiveAt(gens, k), k);
    forall rows | RowsFit(rows) && Encode(current) == Encode(rows) ensures rows == current {
      EncodeInjective(rows, current);
    }
  }

  lemma CurrentFits(m: Model, prompts: seq<Tokens>, report: Report, files: seq<StepFile>, k: nat)
    requires |prompts| <= MAX_BATCH && Accepts(m, prompts, report, files) && k < |files|
    ensures var gens := GensOf(report.rows); RowsFit(CurrentAt(prompts, gens, ActiveAt(gens, k), k))
  {
    var gens := GensOf(report.rows);
    assert StepAccepted(prompts, gens, report.steps[k], files[k], k);
    PicksShort(seq(|gens|, i requires 0 <= i < |gens| => |gens[i]| > k));
  }

  lemma {:induction false} PicksShort(flags: seq<bool>)
    ensures |Picks(flags)| <= |flags|
    decreases |flags|
  {
    if flags != [] {
      PicksShort(flags[..|flags| - 1]);
    }
  }

  /** With genuine files, every token of an accepted row is the arg-max of the row's own prefix. */
  lemma AcceptedToken(m: Model, prompts: seq<Tokens>, report: Report, files: seq<StepFile>, i: nat, k: nat)
    requires |prompts| <= MAX_BATCH && Accepts(m, prompts, report, files) && i < |prompts|
    requires k < |report.rows[i].generated| && k < |files| && Genuine(m, files[k])
    ensures var g := report.rows[i].generated;
            g[k] == m.next(prompts[i] + g[..k]) && Readable(prompts[i] + g[..k])
  {
    hide Encode, RowAccepted, MaxLen;
    var gens := GensOf(report.rows);
    var active := ActiveAt(gens, k);
    var current := CurrentAt(prompts, gens, active, k);
    CurrentFits(m, prompts, report, files, k);
    assert StepAccepted(prompts, gens, report.steps[k], files[k], k);
    assert files[k].output == Outputs(m, current);
    assert i in active;
    var j :| 0 <= j < |active| && active[j] == i;
    assert current[j] == prompts[i] + gens[i][..k];
  }

  lemma {:induction false} AcceptedPrefix(m: Model, prompts: seq<Tokens>, report: Report, files: seq<StepFile>, i: nat, k: nat)
    requires |prompts| <= MAX_BATCH && Accepts(m, prompts, report, files) && i < |prompts|
    requires forall j :: 0 <= j < |files| ==> Genuine(m, files[j])
    requires k <= |report.rows[i].generated|
    ensures Greedy(m, prompts[i], k) == report.rows[i].generated[..k]
    decreases k
  {
    var g := report.rows[i].generated;
    hide Accepts, Genuine, RowOf, Greedy;
    if k == 0 {
      GreedyPrefix(m, prompts[i], 0, 0);
    } else {
      AcceptedPrefix(m, prompts, report, files, i, k - 1);
      EnoughFiles(m, prompts, report, files, i);
      AcceptedToken(m, prompts, report, files, i, k - 1);
      NotYetStopped(m, g, k - 1);
      hide Stopped, Terminates;
      GreedyContinues(m, prompts[i], g, k);
    }
  }

  lemma GreedyContinues(m: Model, prompt: Tokens, g: Tokens, k: nat)
    requires 0 < k <= |g| && Greedy(m, prompt, k - 1) == g[..k - 1] && !Stopped(m, g[..k - 1])
    requires g[k - 1] == m.next(prompt + g[..k - 1])
    ensures Greedy(m, prompt, k) == g[..k]
  {
    assert g[..k] == g[..k - 1] + [g[k - 1]];
  }

  lemma NotYetStopped(m: Model, g: Tokens, k: nat)
    requires Terminates(m, g) && k < |g|
    ensures !Stopped(m, g[..k])
  {
    assert k > 0 ==> g[k - 1] !in m.stops;
  }

  lemma EnoughFiles(m: Model, prompts: seq<Tokens>, report: Report, files: seq<StepFile>, i: nat)
    requires Accepts(m, prompts, report, files) && i < |prompts|
    ensures |report.rows[i].generated| <= |files| && Terminates(m, report.rows[i].generated)
  {
    assert RowAccepted(m, prompts[i], report.rows[i]);
  }

  lemma AcceptedRow(m: Model, prompts: seq<Tokens>, report: Report, files: seq<StepFile>, i: nat)
    requires |prompts| <= MAX_BATCH && Accepts(m, prompts, report, files) && i < |prompts|
    requires forall j :: 0 <= j < |files| ==> Genuine(m, files[j])
    ensures report.rows[i] == RowOf(m, prompts[i], Generated(m, prompts[i]))
    ensures RowFits(m, prompts[i], CAPACITY + 1)
  {
    var g := report.rows[i].generated;
    AcceptedPrefix(m, prompts, report, files, i, |g|);
    EnoughFiles(m, prompts, report, files, i);
    assert RowAccepted(m, prompts[i], report.rows[i]);
    hide Accepts, Genuine, RowOf;
    assert g[..|g|] == g;
    GreedyPrefix(m, prompts[i], |g|, MAX_NEW);
    assert Generated(m, prompts[i]) == g;
    AcceptedToken(m, prompts, report, files, i, |g| - 1);
    AcceptedToken(m, prompts, report, files, i, 0);
    assert g[..0] == [];
  }

  /** Given genuine files, the audit accepts exactly the report of the rows' own greedy decodes, with the batches
      rebuilt from them, provided every prefix had at most 128 tokens. */
  lemma AuditMeans(m: Model, prompts: seq<Tokens>, report: Report, files: seq<StepFile>)
    requires |prompts| <= MAX_BATCH && forall k :: 0 <= k < |files| ==> Genuine(m, files[k])
    ensures Accepts(m, prompts, report, files) <==>
            && report == ReportOf(m, prompts) && AllFit(m, prompts, CAPACITY + 1)
            && files == FilesOf(m, prompts, Gens(m, prompts), |report.steps|)
  {
    if Accepts(m, prompts, report, files) {
      AuditIsSound(m, prompts, report, files);
    }
    if report == ReportOf(m, prompts) && AllFit(m, prompts, CAPACITY + 1)
       && files == FilesOf(m, prompts, Gens(m, prompts), |report.steps|) {
      AuditIsComplete(m, prompts);
    }
  }

  lemma AuditIsSound(m: Model, prompts: seq<Tokens>, report: Report, files: seq<StepFile>)
    requires |prompts| <= MAX_BATCH && forall k :: 0 <= k < |files| ==> Genuine(m, files[k])
    requires Accepts(m, prompts, report, files)
    ensures report == ReportOf(m, prompts) && AllFit(m, prompts, CAPACITY + 1)
    ensures files == FilesOf(m, prompts, Gens(m, prompts), |report.steps|)
  {
    var gens := Gens(m, prompts);
    forall i | 0 <= i < |prompts|
      ensures report.rows[i] == RowOf(m, prompts[i], gens[i]) && RowFits(m, prompts[i], CAPACITY + 1)
      ensures report.rows[i].generated == gens[i]
    {
      AcceptedRow(m, prompts, report, files, i);
    }
    assert GensOf(report.rows) == gens;
    forall k | 0 <= k < |files| ensures report.steps[k] == StepInfo(k, ActiveAt(gens, k)) && files[k] == FileOf(m, prompts, gens, k) {
      StepIsHonest(m, prompts, report, files, k);
    }
    hide RowAccepted, StepAccepted, Genuine, FileOf, RowOf, ActiveAt;
    assert report.rows == RowsOf(m, prompts, gens);
    assert report.steps == StepsOf(gens, MaxLen(gens));
  }

  lemma StepIsHonest(m: Model, prompts: seq<Tokens>, report: Report, files: seq<StepFile>, k: nat)
    requires |prompts| <= MAX_BATCH && Accepts(m, prompts, report, files) && k < |files| && Genuine(m, files[k])
    ensures var gens := GensOf(report.rows);
            report.steps[k] == StepInfo(k, ActiveAt(gens, k)) && files[k] == FileOf(m, prompts, gens, k)
  {
    hide Encode, RowAccepted, MaxLen, ActiveAt;
    CurrentFits(m, prompts, report, files, k);
    assert StepAccepted(prompts, GensOf(report.rows), report.steps[k], files[k], k);
  }

  lemma GeneratedTerminates(m: Model, prompt: Tokens)
    ensures Terminates(m, Generated(m, prompt))
  {
    var g := Generated(m, prompt);
    GreedyPrefix(m, prompt, 0, MAX_NEW);
    forall i | 0 <= i < |g| - 1 ensures g[i] !in m.stops {
      GreedyPrefix(m, prompt, i + 1, MAX_NEW);
      assert g[..i + 1][i] == g[i];
    }
  }

  lemma GeneratedToken(m: Model, prompt: Tokens, k: nat)
    requires k < |Generated(m, prompt)|
    ensures Generated(m, prompt)[k] == m.next(prompt + Upto(Generated(m, prompt), k))
  {
    var g := Generated(m, prompt);
    GreedyPrefix(m, prompt, k, MAX_NEW);
    GreedyPrefix(m, prompt, k + 1, MAX_NEW);
    assert g[..k + 1][k] == g[k];
  }

  lemma AuditIsComplete(m: Model, prompts: seq<Tokens>)
    requires AllFit(m, prompts, CAPACITY + 1)
    ensures var report := ReportOf(m, prompts);
            Accepts(m, prompts, report, FilesOf(m, prompts, Gens(m, prompts), |report.steps|))
  {
    var gens := Gens(m, prompts);
    var report := ReportOf(m, prompts);
    var files := FilesOf(m, prompts, gens, |report.steps|);
    forall i | 0 <= i < |prompts| ensures RowAccepted(m, prompts[i], report.rows[i]) {
      GeneratedTerminates(m, prompts[i]);
    }
    assert GensOf(report.rows) == gens;
    forall k | 0 <= k < |report.steps| ensures StepAccepted(prompts, gens, report.steps[k], files[k], k) {
      StepIsAccepted(m, prompts, k);
    }
  }

  lemma StepIsAccepted(m: Model, prompts: seq<Tokens>, k: nat)
    requires AllFit(m, prompts, CAPACITY + 1)
    ensures var gens := Gens(m, prompts);
            StepAccepted(prompts, gens, StepInfo(k, ActiveAt(gens, k)), FileOf(m, prompts, gens, k), k)
  {
    hide Greedy, Encode;
    var gens := Gens(m, prompts);
    var active := ActiveAt(gens, k);
    var current := CurrentAt(prompts, gens, active, k);
    forall j | 0 <= j < |active| ensures Readable(current[j]) && m.next(current[j]) == gens[active[j]][k] {
      var i := active[j];
      assert RowFits(m, prompts[i], CAPACITY + 1);
      GeneratedToken(m, prompts[i], k);
    }
  }

  /** The audit passes a panel's own greedy report if and only if no prefix had more than 128 tokens; the run makes it if
      and only if none had more than 127. */
  lemma AuditGap(m: Model, prompts: seq<Tokens>)
    requires |prompts| <= MAX_BATCH
    ensures var report := ReportOf(m, prompts);
            Accepts(m, prompts, report, FilesOf(m, prompts, Gens(m, prompts), |report.steps|)) <==>
            AllFit(m, prompts, CAPACITY + 1)
    ensures AllFit(m, prompts, CAPACITY) ==> AllFit(m, prompts, CAPACITY + 1)
  {
    var report, gens := ReportOf(m, prompts), Gens(m, prompts);
    var files := FilesOf(m, prompts, gens, |report.steps|);
    if AllFit(m, prompts, CAPACITY + 1) {
      AuditIsComplete(m, prompts);
    }
    if Accepts(m, prompts, report, files) {
      assert GensOf(report.rows) == gens;
      hide Accepts, ReportOf, Encode;
      forall k | 0 <= k < |files| ensures Genuine(m, files[k]) {
        CurrentFits(m, prompts, report, files, k);
        FileIsGenuine(m, prompts, gens, k);
      }
      AuditIsSound(m, prompts, report, files);
    }
  }

  /** A model that stops at once, and a prompt of 128 tokens. */
  const STOPS_AT_ONCE := Model(prefix => 2, {2}, token => [])
  const LONG_PROMPT: Tokens := seq(CAPACITY, _ => 1)

  /** The run refuses this panel, and the audit passes its report. */
  lemma AuditAcceptsTooLong()
    ensures !AllFit(STOPS_AT_ONCE, [LONG_PROMPT], CAPACITY)
    ensures var report := ReportOf(STOPS_AT_ONCE, [LONG_PROMPT]);
            Accepts(STOPS_AT_ONCE, [LONG_PROMPT], report,
                    FilesOf(STOPS_AT_ONCE, [LONG_PROMPT], Gens(STOPS_AT_ONCE, [LONG_PROMPT]), |report.steps|))
  {
    hide Accepts, ReportOf, FilesOf;
    assert Greedy(STOPS_AT_ONCE, LONG_PROMPT, 1) == [2];
    GreedyPrefix(STOPS_AT_ONCE, LONG_PROMPT, 1, MAX_NEW);
    assert |Generated(STOPS_AT_ONCE, LONG_PROMPT)| == 1;
    assert RowFits(STOPS_AT_ONCE, LONG_PROMPT, CAPACITY + 1) && !RowFits(STOPS_AT_ONCE, LONG_PROMPT, CAPACITY);
    assert !AllFit(STOPS_AT_ONCE, [LONG_PROMPT], CAPACITY) by {
      assert [LONG_PROMPT][0] == LONG_PROMPT;
    }
    AuditGap(STOPS_AT_ONCE, [LONG_PROMPT]);
  }
}
