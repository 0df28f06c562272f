/** Teacher trajectories: a gold reply compiled to tokens and phases, and the independent audit of the result. */
module Teacher {
  import opened Bytes
  import opened Outcomes
  import opened ValueTransport
  import Utf8

  datatype Phase = Generate | StartValue | ContinueValue | EndValue

  datatype ByteTargets = ByteTargets(
    route: int, factBytes: Option<(nat, nat)>, valueBytes: Option<(nat, nat)>, idleMode: Option<int>)

  datatype Trajectory = Trajectory(
    prompt: seq<Token>, completion: seq<Token>, phases: seq<Phase>, idle: seq<Option<int>>,
    response: Bytes, targets: ByteTargets)

  datatype Fact = Fact(subject: Bytes, relation: Bytes, value: Bytes, time: Bytes, actual: bool)

  predicate Wanted(f: Fact, subject: Bytes, relation: Bytes, time: Bytes) {
    f.subject == subject && f.relation == relation && f.time == time && f.actual
  }

  function Matches(facts: seq<Fact>, subject: Bytes, relation: Bytes, time: Bytes): (r: seq<Fact>)
    ensures forall f :: f in r <==> f in facts && Wanted(f, subject, relation, time)
    decreases |facts|
  {
    if facts == [] then []
    else (if Wanted(facts[0], subject, relation, time) then [facts[0]] else []) + Matches(facts[1..], subject, relation, time)
  }

  /** The byte spans of the one actual fact at the asked time; `clauseOf` is the past-style sentence of a fact. */
  function PositiveBytesTime(raw: Bytes, facts: seq<Fact>, subject: Bytes, relation: Bytes, time: Bytes,
                             clauseOf: Fact -> Bytes): (r: Result<ByteTargets, TransportError>)
    ensures r.Ok? ==>
      && exists f :: f in facts && Wanted(f, subject, relation, time) && (
           && r.value.route == 1 && r.value.factBytes.Some? && r.value.valueBytes.Some?
           && var (fs, fe) := r.value.factBytes.value;
              var (vs, ve) := r.value.valueBytes.value;
              && fs <= vs <= ve <= fe <= |raw|
              && raw[vs..ve] == f.value && raw[fs..fe] == clauseOf(f))
  {
    var matches := Matches(facts, subject, relation, time);
    :- Need(|matches| == 1, Rejected);
    var f := matches[0];
    var clause := clauseOf(f);
    :- Need(Count(raw, clause, 0) == 1 && Count(clause, f.value, 0) == 1, Rejected);
    var fs := Find(raw, clause, 0);
    var inside := Find(clause, f.value, 0);
    :- Need(fs.Some? && inside.Some?, Rejected);
    var vs := fs.value + inside.value;
    OccursInside(raw, clause, f.value, fs.value, inside.value);
    assert f in matches;
    Ok(ByteTargets(1, Some((fs.value, fs.value + |clause|)), Some((vs, vs + |f.value|)), Some(0)))
  }

  // ---- Compilation

  function Repeat<T>(x: T, n: nat): (r: seq<T>)
    ensures |r| == n && forall i :: 0 <= i < n ==> r[i] == x
  {
    seq(n, _ => x)
  }

  /** The phases of `a` tokens before the value, `n` tokens of it, and `b` tokens between it and the stop token. */
  function PhasesOf(a: nat, n: nat, b: nat): seq<Phase>
    requires n > 0
  {
    Repeat(Generate, a) + [StartValue] + Repeat(ContinueValue, n - 1) + [EndValue] + Repeat(Generate, b)
  }

  lemma PhaseAt(a: nat, n: nat, b: nat, i: nat)
    requires n > 0 && i < a + n + b + 1
    ensures |PhasesOf(a, n, b)| == a + n + b + 1
    ensures PhasesOf(a, n, b)[i] ==
            if i < a then Generate else if i == a then StartValue else if i < a + n then ContinueValue
            else if i == a + n then EndValue else Generate
  {
  }

  function IdleOf(phase: Phase): Option<int> {
    match phase
    case ContinueValue => None
    case StartValue => Some(1)
    case _ => Some(0)
  }

  function IdleTargets(phases: seq<Phase>): (r: seq<Option<int>>)
    ensures |r| == |phases| && forall i :: 0 <= i < |r| ==> r[i] == IdleOf(phases[i])
  {
    seq(|phases|, i requires 0 <= i < |phases| => IdleOf(phases[i]))
  }

  /** Tokens of one stretch of reply text, none for the empty stretch. */
  function Segment(c: Codec, text: Bytes): (r: Result<seq<Token>, TransportError>)
    ensures r.Ok? ==> c.Text(r.value) == text && forall i :: 0 <= i < |r.value| ==> r.value[i] !in c.blocked
  {
    if text == [] then Ok([])
    else
      var ids :- EncodeValue(c, text);
      :- Need(c.Text(ids) == text && forall i :: 0 <= i < |ids| ==> ids[i] !in c.blocked, Rejected);
      Ok(ids)
  }

  predicate UsableReply(response: Bytes, reserved: seq<Bytes>) {
    PlainText(response) && forall i :: 0 <= i < |reserved| ==> Count(response, reserved[i], 0) == 0
  }

  datatype Record = Record(
    prompt: seq<Token>, promptText: Bytes, source: Bytes, response: Bytes, targets: ByteTargets,
    reserved: seq<Bytes>, capacity: nat)

  /** The reply split around its one occurrence of the value. */
  datatype Split = Split(pre: Bytes, value: Bytes, post: Bytes)

  function SplitReply(r: Record): (s: Result<Split, TransportError>)
    ensures s.Ok? ==>
      && r.response == s.value.pre + s.value.value + s.value.post
      && r.targets.valueBytes.Some?
      && var (vs, ve) := r.targets.valueBytes.value;
         vs <= ve <= |r.source| && s.value.value == r.source[vs..ve]
  {
    var usable := UsableReply(r.response, r.reserved) && PlainText(r.source);
    :- Need(usable, Rejected);
    :- Need(r.targets.valueBytes.Some?, Rejected);
    var (vs, ve) := r.targets.valueBytes.value;
    :- Need(vs <= ve <= |r.source| && Utf8.Valid(r.source[vs..ve]), Rejected);
    var value := r.source[vs..ve];
    :- Need(Count(r.response, value, 0) == 1, Rejected);
    var at := Find(r.response, value, 0);
    :- Need(at.Some?, Rejected);
    Ok(Split(r.response[..at.value], value, r.response[at.value + |value|..]))
  }

  function GoldHandle(r: Record): Handle
    requires r.targets.valueBytes.Some?
  {
    Handle(Some(Span(0, r.targets.valueBytes.value.0, r.targets.valueBytes.value.1)), OracleFixture)
  }

  /** Token lists of the three stretches. */
  datatype Pieces = Pieces(pre: seq<Token>, cursor: Cursor, post: seq<Token>)

  function CompilePieces(c: Codec, r: Record): (p: Result<Pieces, TransportError>)
    ensures p.Ok? ==>
      var s := SplitReply(r);
      && s.Ok? && Segment(c, s.value.pre) == Ok(p.value.pre) && Segment(c, s.value.post) == Ok(p.value.post)
      && CompileAppend(GoldHandle(r), [r.source], r.prompt + p.value.pre, r.promptText + s.value.pre, c,
                       DEFAULT_LIMITS, true) == Ok(Some(p.value.cursor))
      && CursorOk(p.value.cursor, c, [r.source], true) && p.value.cursor.value == s.value.value
  {
    var s :- SplitReply(r);
    var pre :- Segment(c, s.pre);
    var compiled :- CompileAppend(GoldHandle(r), [r.source], r.prompt + pre, r.promptText + s.pre, c, DEFAULT_LIMITS, true);
    :- Need(compiled.Some?, Rejected);
    :- Need(Utf8.Valid(Concat(compiled.value.pieces)), Rejected);
    var post :- Segment(c, s.post);
    Ok(Pieces(pre, compiled.value, post))
  }

  /** What the compiler of a supported reply computes. */
  function TeacherOf(c: Codec, r: Record): Result<Trajectory, TransportError> {
    var p :- CompilePieces(c, r);
    :- Need(c.piece(c.eos) == ANCHOR, Rejected);
    var body := p.pre + p.cursor.tokens + p.post;
    :- Need(c.Text(body) == r.response, Rejected);
    :- Need(|r.prompt| + |body| + 1 <= r.capacity, Rejected);
    var phases := PhasesOf(|p.pre|, |p.cursor.tokens|, |p.post|);
    Ok(Trajectory(r.prompt, body + [c.eos], phases, IdleTargets(phases), r.response, r.targets.(idleMode := None)))
  }

  /** What it computes for a reply that uses no stored value. */
  function PlainTeacherOf(c: Codec, r: Record): Result<Trajectory, TransportError> {
    var usable := UsableReply(r.response, r.reserved) && r.targets.route in {0, 2};
    :- Need(usable, Rejected);
    var body :- Segment(c, r.response);
    :- Need(c.piece(c.eos) == ANCHOR, Rejected);
    :- Need(|r.prompt| + |body| + 1 <= r.capacity, Rejected);
    var phases := Repeat(Generate, |body| + 1);
    Ok(Trajectory(r.prompt, body + [c.eos], phases, IdleTargets(phases), r.response, ByteTargets(r.targets.route, None, None, None)))
  }

  /** The value tokens so far and their phases. */
  function ValuePhases(n: nat): seq<Phase> {
    if n == 0 then [] else [StartValue] + Repeat(ContinueValue, n - 1)
  }

  lemma ValuePhasesNext(n: nat)
    ensures ValuePhases(n + 1) == ValuePhases(n) + [if n == 0 then StartValue else ContinueValue]
  {
  }

  /** Step the cursor over its whole value, noting the phase of every token. */
  method StepCursor(c: Codec, r: Record, start: Cursor) returns (parts: seq<Token>, phases: seq<Phase>)
    requires CursorOk(start, c, [r.source], true) && start.offset == 0
    ensures parts == start.tokens && phases == ValuePhases(|parts|)
  {
    assert Selected(start.handle, [r.source], true) == Ok(Some(start.value));
    hide CursorOk, Selected, ValuePhases;
    parts, phases := [], [];
    var prefix := start.initial;
    var cursor := start;
    var first := true;
    assert start.tokens[..0] == [] && prefix + [] == prefix;
    assert phases == ValuePhases(0) by {
      NoPhases();
    }
    while !cursor.Done()
      invariant cursor == start.(offset := cursor.offset) && cursor.offset <= |start.tokens|
      invariant parts == start.tokens[..cursor.offset]
      invariant prefix == start.initial + parts
      invariant phases == ValuePhases(cursor.offset)
      invariant first == (cursor.offset == 0)
      decreases |start.tokens| - cursor.offset
    {
      var selected := cursor.Select(c.bos, [r.source], prefix, true);
      var token := selected.value;
      var advanced := cursor.Commit(token, [r.source], prefix, true);
      ValuePhasesNext(cursor.offset);
      assert start.tokens[..cursor.offset + 1] == start.tokens[..cursor.offset] + [token];
      cursor := advanced.value;
      parts := parts + [token];
      phases := phases + [if first then StartValue else ContinueValue];
      first := false;
      prefix := prefix + [token];
    }
    assert start.tokens[..cursor.offset] == start.tokens;
  }

  lemma NoPhases()
    ensures ValuePhases(0) == []
  {
  }

  /** The compiler as written: lists extended stretch by stretch, the cursor stepped to its end, the phase after
      the value overwritten at the end. */
  method CompileTeacher(c: Codec, r: Record) returns (t: Result<Trajectory, TransportError>)
    ensures t == TeacherOf(c, r)
  {
    hide CompileAppend, EncodeValue, Utf8.Valid, CompilePieces, Find, Count, UsableReply, Concat;
    var p := CompilePieces(c, r);
    if p.Err? {
      return Err(p.error);
    }
    var spelled, valuePhases := StepCursor(c, r, p.value.cursor);
    var parts := p.value.pre + spelled;
    var phases := Repeat(Generate, |p.value.pre|) + valuePhases;
    var end := |parts|;
    parts := parts + p.value.post;
    phases := phases + Repeat(Generate, |p.value.post|);
    if c.piece(c.eos) != ANCHOR {
      return Err(Rejected);
    }
    ghost var body := parts;
    parts := parts + [c.eos];
    phases := phases + [Generate];
    phases := phases[end := EndValue];
    assert phases == PhasesOf(|p.value.pre|, |p.value.cursor.tokens|, |p.value.post|);
    assert parts[..|parts| - 1] == body;
    if c.Text(parts[..|parts| - 1]) != r.response {
      return Err(Rejected);
    }
    if |r.prompt| + |parts| > r.capacity {
      return Err(Rejected);
    }
    t := Ok(Trajectory(r.prompt, parts, phases, IdleTargets(phases), r.response, r.targets.(idleMode := None)));
  }

  // ---- What the record type itself insists on

  function CountPhase(phases: seq<Phase>, x: Phase): nat
    decreases |phases|
  {
    if phases == [] then 0 else (if phases[0] == x then 1 else 0) + CountPhase(phases[1..], x)
  }

  /** Index of the first `x`, or the length. */
  function IndexOf(phases: seq<Phase>, x: Phase): (i: nat)
    ensures i <= |phases| && (i < |phases| ==> phases[i] == x)
    ensures forall j :: 0 <= j < i ==> phases[j] != x
    decreases |phases|
  {
    if phases == [] || phases[0] == x then 0 else 1 + IndexOf(phases[1..], x)
  }

  /** One START, its CONTINUEs, one END, and nothing but GENERATE around them. */
  predicate OneValue(phases: seq<Phase>) {
    && CountPhase(phases, StartValue) == 1 && CountPhase(phases, EndValue) == 1
    && var s, e := IndexOf(phases, StartValue), IndexOf(phases, EndValue);
       && s < e
       && (forall i :: s < i < e ==> phases[i] == ContinueValue)
       && (forall i :: 0 <= i < |phases| && (i < s || i > e) ==> phases[i] == Generate)
  }

  predicate NoValue(phases: seq<Phase>) {
    forall i :: 0 <= i < |phases| ==> phases[i] == Generate
  }

  /** The checks of the trajectory record's own constructor. */
  predicate Constructible(t: Trajectory) {
    && t.prompt != [] && t.completion != []
    && |t.completion| == |t.phases| == |t.idle|
    && t.targets.idleMode == None
    && (forall i :: 0 <= i < |t.phases| ==> t.idle[i] == IdleOf(t.phases[i]))
    && (if t.targets.route == 1 then OneValue(t.phases)
        else CountPhase(t.phases, StartValue) == 0 && CountPhase(t.phases, EndValue) == 0 && NoValue(t.phases))
  }

  // ---- The audit

  /** Slicing that clamps out-of-range bounds. */
  function Slice(s: Bytes, from: nat, to: nat): Bytes {
    var hi := if to <= |s| then to else |s|;
    if from <= hi then s[from..hi] else []
  }

  datatype GoldLabel = GoldLabel(route: int, response: Bytes, claim: Bytes)

  /** The independent re-check of one archived trajectory against its record. */
  predicate AuditAccepts(c: Codec, t: Trajectory, prompt: seq<Token>, gold: GoldLabel, source: Bytes) {
    && prompt == t.prompt
    && |t.completion| == |t.phases| == |t.idle|
    && t.completion != [] && t.completion[|t.completion| - 1] == c.eos
    && c.Text(t.completion[..|t.completion| - 1]) == gold.response
    && (forall i :: 0 <= i < |t.completion| - 1 ==> t.completion[i] !in c.blocked)
    && t.targets.route == gold.route && t.targets.idleMode == None
    && (forall i :: 0 <= i < |t.phases| ==> t.idle[i] == IdleOf(t.phases[i]))
    && (if gold.route == 1 then
          && OneValue(t.phases)
          && t.targets.valueBytes.Some?
          && var s, e := IndexOf(t.phases, StartValue), IndexOf(t.phases, EndValue);
             var (vs, ve) := t.targets.valueBytes.value;
             && c.Text(t.completion[s..e]) == Slice(source, vs, ve)
             && Utf8.Valid(Slice(source, vs, ve)) && Slice(source, vs, ve) == gold.claim
        else NoValue(t.phases))
  }

  lemma {:induction false} CountPrefix(phases: seq<Phase>, i: nat, x: Phase)
    requires i < |phases|
    ensures CountPhase(phases[..i + 1], x) == CountPhase(phases[..i], x) + if phases[i] == x then 1 else 0
  {
    assert phases[..i + 1] == phases[..i] + [phases[i]];
    CountAppend(phases[..i], [phases[i]], x);
    assert [phases[i]][1..] == [];
  }

  /** Count and first index of a phase, in one pass. */
  method Locate(phases: seq<Phase>, x: Phase) returns (count: nat, first: nat)
    ensures count == CountPhase(phases, x) && first == IndexOf(phases, x)
  {
    count, first := 0, |phases|;
    var i := 0;
    while i < |phases|
      invariant i <= |phases|
      invariant count == CountPhase(phases[..i], x)
      invariant first <= |phases|
      invariant if first < |phases| then first < i && phases[first] == x && forall j :: 0 <= j < first ==> phases[j] != x
                else forall j :: 0 <= j < i ==> phases[j] != x
    {
      CountPrefix(phases, i, x);
      if phases[i] == x {
        count := count + 1;
        if first == |phases| {
          first := i;
        }
      }
      i := i + 1;
    }
    assert phases[..i] == phases;
  }

  /** The audit as written: one check after another, the first failure rejecting the record. */
  method AuditRecord(c: Codec, t: Trajectory, prompt: seq<Token>, gold: GoldLabel, source: Bytes) returns (ok: bool)
    ensures ok == AuditAccepts(c, t, prompt, gold, source)
  {
    hide IndexOf, CountPhase, Utf8.Valid, Concat;
    var ids := t.completion;
    if prompt != t.prompt || |ids| != |t.phases| || |ids| != |t.idle| || ids == [] || ids[|ids| - 1] != c.eos ||
       c.Text(ids[..|ids| - 1]) != gold.response {
      return false;
    }
    for i := 0 to |ids| - 1
      invariant forall j :: 0 <= j < i ==> ids[j] !in c.blocked
    {
      if ids[i] in c.blocked {
        return false;
      }
    }
    if t.targets.route != gold.route || t.targets.idleMode != None {
      return false;
    }
    for i := 0 to |ids|
      invariant forall j :: 0 <= j < i ==> t.idle[j] == IdleOf(t.phases[j])
    {
      if t.idle[i] != IdleOf(t.phases[i]) {
        return false;
      }
    }
    if gold.route == 1 {
      var starts, s := Locate(t.phases, StartValue);
      var ends, e := Locate(t.phases, EndValue);
      if starts != 1 || ends != 1 || !(s < e) {
        return false;
      }
      for i := 0 to |ids|
        invariant forall j :: 0 <= j < i && s < j < e ==> t.phases[j] == ContinueValue
        invariant forall j :: 0 <= j < i && (j < s || j > e) ==> t.phases[j] == Generate
      {
        if (s < i < e && t.phases[i] != ContinueValue) || ((i < s || i > e) && t.phases[i] != Generate) {
          return false;
        }
      }
      if t.targets.valueBytes.None? {
        return false;
      }
      var (vs, ve) := t.targets.valueBytes.value;
      var value := Slice(source, vs, ve);
      ok := c.Text(ids[s..e]) == value && Utf8.Valid(value) && value == gold.claim;
    } else {
      for i := 0 to |ids|
        invariant forall j :: 0 <= j < i ==> t.phases[j] == Generate
      {
        if t.phases[i] != Generate {
          return false;
        }
      }
      ok := true;
    }
  }

  lemma {:induction false} CountAppend(a: seq<Phase>, b: seq<Phase>, x: Phase)
    ensures CountPhase(a + b, x) == CountPhase(a, x) + CountPhase(b, x)
    decreases |a|
  {
    if a == [] {
      assert a + b == b;
    } else {
      assert (a + b)[1..] == a[1..] + b;
      CountAppend(a[1..], b, x);
    }
  }

  lemma {:induction false} CountNone(a: seq<Phase>, x: Phase)
    requires x !in a
    ensures CountPhase(a, x) == 0
    decreases |a|
  {
    if a != [] {
      assert a[0] in a;
      CountNone(a[1..], x);
    }
  }

  lemma {:induction false} IndexAppend(a: seq<Phase>, b: seq<Phase>, x: Phase)
    requires x !in a && b != [] && b[0] == x
    ensures IndexOf(a + b, x) == |a|
  {
    assert (a + b)[|a|] == x;
    assert forall j :: 0 <= j < |a| ==> (a + b)[j] == a[j];
  }

  /** The compiled phases have the shape both the constructor and the audit ask for, at known positions. */
  lemma PhasesShape(a: nat, n: nat, b: nat)
    requires n > 0
    ensures var phases := PhasesOf(a, n, b);
            && OneValue(phases) && |phases| == a + n + b + 1
            && IndexOf(phases, StartValue) == a && IndexOf(phases, EndValue) == a + n
  {
    var before, inside, after := Repeat(Generate, a), Repeat(ContinueValue, n - 1), Repeat(Generate, b);
    var phases := PhasesOf(a, n, b);
    var rest := [StartValue] + inside + [EndValue] + after;
    assert phases == before + rest;
    assert phases == (before + [StartValue] + inside) + ([EndValue] + after);
    IndexAppend(before, rest, StartValue);
    IndexAppend(before + [StartValue] + inside, [EndValue] + after, EndValue);
    forall x | x in {StartValue, EndValue}
      ensures CountPhase(phases, x) == 1
    {
      CountAppend(before, rest, x);
      assert rest == [StartValue] + (inside + ([EndValue] + after));
      CountAppend([StartValue], inside + ([EndValue] + after), x);
      CountAppend(inside, [EndValue] + after, x);
      CountAppend([EndValue], after, x);
      CountNone(before, x);
      CountNone(inside, x);
      CountNone(after, x);
      assert [StartValue][1..] == [] && [EndValue][1..] == [];
    }
    forall i | 0 <= i < |phases|
      ensures a < i < a + n ==> phases[i] == ContinueValue
      ensures i < a || i > a + n ==> phases[i] == Generate
    {
    }
  }

  lemma {:induction false} IndexInside(phases: seq<Phase>, x: Phase)
    requires CountPhase(phases, x) >= 1
    ensures IndexOf(phases, x) < |phases|
    decreases |phases|
  {
    if phases[0] != x {
      IndexInside(phases[1..], x);
    }
  }

  lemma OneValueShape(phases: seq<Phase>)
    requires OneValue(phases)
    ensures var s, e := IndexOf(phases, StartValue), IndexOf(phases, EndValue);
            s < e < |phases| && phases == PhasesOf(s, e - s, |phases| - e - 1)
  {
    hide PhasesOf, CountPhase, IndexOf;
    IndexInside(phases, EndValue);
    PhasesAre(phases, IndexOf(phases, StartValue), IndexOf(phases, EndValue));
  }

  lemma PhasesAre(phases: seq<Phase>, s: nat, e: nat)
    requires s < e < |phases| && phases[s] == StartValue && phases[e] == EndValue
    requires forall i :: s < i < e ==> phases[i] == ContinueValue
    requires forall i :: 0 <= i < |phases| && (i < s || i > e) ==> phases[i] == Generate
    ensures phases == PhasesOf(s, e - s, |phases| - e - 1)
  {
    hide PhasesOf;
    PhaseAt(s, e - s, |phases| - e - 1, 0);
    forall i | 0 <= i < |phases| ensures phases[i] == PhasesOf(s, e - s, |phases| - e - 1)[i] {
      PhaseAt(s, e - s, |phases| - e - 1, i);
    }
  }

  /** The grammar GENERATE* START CONTINUE* END GENERATE*, and nothing else. */
  lemma OneValueIff(phases: seq<Phase>)
    ensures OneValue(phases) <==> exists a, n, b :: n > 0 && phases == PhasesOf(a, n, b)
  {
    if OneValue(phases) {
      OneValueShape(phases);
    }
    forall a: nat, n: nat, b: nat | n > 0 && phases == PhasesOf(a, n, b) ensures OneValue(phases) {
      PhasesShape(a, n, b);
    }
  }

  /** Mode targets as numbers: one where a value starts, none while it is continued, zero everywhere else. */
  predicate IdleNumber(phase: Phase, idle: Option<int>) {
    && (phase == StartValue ==> idle == Some(1))
    && (phase == ContinueValue ==> idle == None)
    && (phase == Generate || phase == EndValue ==> idle == Some(0))
  }

  predicate IdleNumbers(phases: seq<Phase>, idle: seq<Option<int>>) {
    |idle| == |phases| && forall i :: 0 <= i < |phases| ==> IdleNumber(phases[i], idle[i])
  }

  /** A trajectory laid out around one value. */
  predicate LaidOut(c: Codec, t: Trajectory, gold: GoldLabel, pre: seq<Token>, value: seq<Token>, post: seq<Token>) {
    && value != [] && t.completion == pre + value + post + [c.eos]
    && t.phases == PhasesOf(|pre|, |value|, |post|) && IdleNumbers(t.phases, t.idle)
    && c.Text(pre) + c.Text(value) + c.Text(post) == gold.response && c.Text(value) == gold.claim
    && forall i :: 0 <= i < |pre + value + post| ==> (pre + value + post)[i] !in c.blocked
  }

  /** The audit of a supported record accepts exactly the trajectories that are laid out around the claimed value, in the
      order GENERATE* START CONTINUE* END GENERATE*, with their mode targets, spelling the whole reply and naming the
      place of the value in the source. */
  lemma AuditMeans(c: Codec, t: Trajectory, prompt: seq<Token>, gold: GoldLabel, source: Bytes)
    requires gold.route == 1
    ensures AuditAccepts(c, t, prompt, gold, source) <==>
            && t.prompt == prompt && t.targets.route == 1 && t.targets.idleMode.None?
            && t.targets.valueBytes.Some?
            && Slice(source, t.targets.valueBytes.value.0, t.targets.valueBytes.value.1) == gold.claim
            && Utf8.Valid(gold.claim) && exists pre, value, post :: LaidOut(c, t, gold, pre, value, post)
  {
    hide Utf8.Valid, Concat, IndexOf, CountPhase, Slice;
    if AuditAccepts(c, t, prompt, gold, source) {
      AcceptedIsLaidOut(c, t, prompt, gold, source);
    }
    forall pre, value, post | LaidOut(c, t, gold, pre, value, post)
      ensures (t.prompt == prompt && t.targets.route == 1 && t.targets.idleMode.None? && t.targets.valueBytes.Some?
               && Slice(source, t.targets.valueBytes.value.0, t.targets.valueBytes.value.1) == gold.claim
               && Utf8.Valid(gold.claim)) ==> AuditAccepts(c, t, prompt, gold, source)
    {
      LaidOutParts(c, t, gold, pre, value, post);
    }
  }

  lemma AcceptedIsLaidOut(c: Codec, t: Trajectory, prompt: seq<Token>, gold: GoldLabel, source: Bytes)
    requires gold.route == 1 && AuditAccepts(c, t, prompt, gold, source)
    ensures exists pre, value, post :: LaidOut(c, t, gold, pre, value, post)
  {
    hide Utf8.Valid, Concat, Slice, OneValue, IndexOf, PhasesOf;
    var s, e := IndexOf(t.phases, StartValue), IndexOf(t.phases, EndValue);
    OneValueShape(t.phases);
    assert IdleNumbers(t.phases, t.idle);
    var body := t.completion[..|t.completion| - 1];
    var pre, value, post := body[..s], body[s..e], body[e..];
    assert body == pre + value + post && t.completion == body + [c.eos] && t.completion[s..e] == value;
    TextAppend(c, pre + value, post);
    TextAppend(c, pre, value);
    assert LaidOut(c, t, gold, pre, value, post);
  }

  lemma LaidOutParts(c: Codec, t: Trajectory, gold: GoldLabel, pre: seq<Token>, value: seq<Token>, post: seq<Token>)
    requires LaidOut(c, t, gold, pre, value, post)
    ensures OneValue(t.phases) && |t.completion| == |t.phases| == |t.idle|
    ensures t.completion != [] && t.completion[|t.completion| - 1] == c.eos
    ensures IndexOf(t.phases, StartValue) == |pre| && IndexOf(t.phases, EndValue) == |pre| + |value| < |t.completion|
    ensures t.completion[|pre|..|pre| + |value|] == value && c.Text(t.completion[..|t.completion| - 1]) == gold.response
    ensures forall i :: 0 <= i < |t.completion| - 1 ==> t.completion[i] !in c.blocked
    ensures forall i :: 0 <= i < |t.phases| ==> t.idle[i] == IdleOf(t.phases[i])
  {
    hide Concat, PhasesOf, OneValue, CountPhase;
    PhasesShape(|pre|, |value|, |post|);
    var body := pre + value + post;
    assert t.completion[..|t.completion| - 1] == body;
    TextAppend(c, pre + value, post);
    TextAppend(c, pre, value);
  }

  /** Slicing a source inside its bounds. */
  lemma SliceMeans(s: Bytes, from: nat, to: nat)
    ensures from <= to <= |s| ==> Slice(s, from, to) == s[from..to]
    ensures |s| < to ==> Slice(s, from, to) == Slice(s, from, |s|)
    ensures to < from || |s| < from ==> Slice(s, from, to) == []
  {
  }

  /** Without a value: the whole reply and the stop token, all GENERATE, all zero. */
  lemma PlainAuditMeans(c: Codec, t: Trajectory, prompt: seq<Token>, gold: GoldLabel, source: Bytes)
    requires gold.route != 1
    ensures AuditAccepts(c, t, prompt, gold, source) <==>
            && t.prompt == prompt && t.targets.route == gold.route && t.targets.idleMode.None?
            && t.completion != []
            && var body := t.completion[..|t.completion| - 1];
               && t.completion[|t.completion| - 1] == c.eos && c.Text(body) == gold.response
               && (forall i :: 0 <= i < |body| ==> body[i] !in c.blocked)
               && t.phases == Repeat(Generate, |t.completion|) && t.idle == Repeat(Some(0), |t.completion|)
  {
    hide Concat;
  }

  /** The stretches spell the reply, so the compiler's closing byte check never fires. */
  lemma StretchesSpellReply(c: Codec, r: Record)
    requires CompilePieces(c, r).Ok?
    ensures var p := CompilePieces(c, r).value;
            c.Text(p.pre + p.cursor.tokens + p.post) == r.response
  {
    var p := CompilePieces(c, r).value;
    TextAppend(c, p.pre + p.cursor.tokens, p.post);
    TextAppend(c, p.pre, p.cursor.tokens);
  }

  /** The parts of a compiled trajectory, by position. */
  lemma TeacherParts(c: Codec, r: Record)
    requires TeacherOf(c, r).Ok?
    ensures CompilePieces(c, r).Ok?
    ensures var p := CompilePieces(c, r).value;
            var t := TeacherOf(c, r).value;
            var a, n := |p.pre|, |p.cursor.tokens|;
            && n > 0
            && t.completion == p.pre + p.cursor.tokens + p.post + [c.eos]
            && t.phases == PhasesOf(a, n, |p.post|) && t.idle == IdleTargets(t.phases)
            && t.prompt == r.prompt && t.response == r.response && t.targets == r.targets.(idleMode := None)
            && |t.prompt| + |t.completion| <= r.capacity
            && t.completion[..|t.completion| - 1] == p.pre + p.cursor.tokens + p.post
            && t.completion[a..a + n] == p.cursor.tokens
            && (forall i :: 0 <= i < |t.completion| - 1 ==> t.completion[i] !in c.blocked)
  {
    hide EncodeValue, CompileAppend, Find, Count, Utf8.Valid, PhasesOf, Concat, Selected, UsableReply;
    var p := CompilePieces(c, r).value;
    var t := TeacherOf(c, r).value;
    var body := p.pre + p.cursor.tokens + p.post;
    assert t.completion == body + [c.eos];
  }

  // ---- When the compiler succeeds

  /** Exactly one fact is the wanted one. */
  predicate OnlyWanted(facts: seq<Fact>, subject: Bytes, relation: Bytes, time: Bytes, i: int) {
    && 0 <= i < |facts| && Wanted(facts[i], subject, relation, time)
    && forall j :: 0 <= j < |facts| && j != i ==> !Wanted(facts[j], subject, relation, time)
  }

  lemma {:induction false} MatchesOne(facts: seq<Fact>, subject: Bytes, relation: Bytes, time: Bytes)
    ensures Matches(facts, subject, relation, time) == [] <==>
            forall j :: 0 <= j < |facts| ==> !Wanted(facts[j], subject, relation, time)
    ensures |Matches(facts, subject, relation, time)| == 1 <==> exists i :: OnlyWanted(facts, subject, relation, time, i)
    ensures forall i :: OnlyWanted(facts, subject, relation, time, i) ==> Matches(facts, subject, relation, time) == [facts[i]]
    decreases |facts|
  {
    hide Wanted;
    if facts != [] {
      var rest := facts[1..];
      MatchesOne(rest, subject, relation, time);
      assert forall j :: 0 <= j < |rest| ==> rest[j] == facts[j + 1];
      if Wanted(facts[0], subject, relation, time) {
        if Matches(rest, subject, relation, time) == [] {
          assert OnlyWanted(facts, subject, relation, time, 0);
        }
        assert forall i :: OnlyWanted(facts, subject, relation, time, i) ==> i == 0;
      } else {
        if i :| OnlyWanted(rest, subject, relation, time, i) {
          assert OnlyWanted(facts, subject, relation, time, i + 1);
        }
        forall i | OnlyWanted(facts, subject, relation, time, i) ensures OnlyWanted(rest, subject, relation, time, i - 1) {
        }
      }
    }
  }

  /** An actual fact about this subject and relation at this time. */
  lemma WantedMeans(f: Fact, subject: Bytes, relation: Bytes, time: Bytes)
    ensures Wanted(f, subject, relation, time) <==>
            f.actual && f.subject == subject && f.relation == relation && f.time == time
  {
  }

  /** Fact `i` alone is wanted, its sentence stands once in the source, at `at`, and its value once in the sentence. */
  ghost predicate Resolves(raw: Bytes, facts: seq<Fact>, subject: Bytes, relation: Bytes, time: Bytes,
                           clauseOf: Fact -> Bytes, i: int, at: int, inside: int) {
    && OnlyWanted(facts, subject, relation, time, i)
    && OnceAt(raw, clauseOf(facts[i]), at) && OnceAt(clauseOf(facts[i]), facts[i].value, inside)
  }

  lemma PositiveAt(raw: Bytes, facts: seq<Fact>, subject: Bytes, relation: Bytes, time: Bytes, clauseOf: Fact -> Bytes,
                   i: nat, at: nat, inside: nat)
    requires Resolves(raw, facts, subject, relation, time, clauseOf, i, at, inside)
    ensures PositiveBytesTime(raw, facts, subject, relation, time, clauseOf)
            == Ok(ByteTargets(1, Some((at, at + |clauseOf(facts[i])|)),
                              Some((at + inside, at + inside + |facts[i].value|)), Some(0)))
  {
    hide Wanted, Count, Find, Matches, OnceAt;
    MatchesOne(facts, subject, relation, time);
    CountMeans(raw, clauseOf(facts[i]));
    CountMeans(clauseOf(facts[i]), facts[i].value);
  }

  /** The time-scoped resolver succeeds exactly when there are such places, and then names them. */
  lemma PositiveIff(raw: Bytes, facts: seq<Fact>, subject: Bytes, relation: Bytes, time: Bytes, clauseOf: Fact -> Bytes)
    ensures PositiveBytesTime(raw, facts, subject, relation, time, clauseOf).Ok? <==>
            exists i: nat, at: nat, inside: nat :: Resolves(raw, facts, subject, relation, time, clauseOf, i, at, inside)
  {
    hide Wanted, Count, Find, Matches, OnceAt;
    if i: nat, at: nat, inside: nat :| Resolves(raw, facts, subject, relation, time, clauseOf, i, at, inside) {
      PositiveAt(raw, facts, subject, relation, time, clauseOf, i, at, inside);
    }
    if PositiveBytesTime(raw, facts, subject, relation, time, clauseOf).Ok? {
      MatchesOne(facts, subject, relation, time);
      var i :| OnlyWanted(facts, subject, relation, time, i);
      CountMeans(raw, clauseOf(facts[i]));
      CountMeans(clauseOf(facts[i]), facts[i].value);
      var at, inside := Find(raw, clauseOf(facts[i]), 0).value, Find(clauseOf(facts[i]), facts[i].value, 0).value;
      assert Resolves(raw, facts, subject, relation, time, clauseOf, i, at, inside);
    }
  }

  /** Tokens for a stretch of reply text, none of them blocked. */
  predicate Writes(c: Codec, text: Bytes, ids: seq<Token>) {
    if text == [] then ids == [] else Suffix(c, text, ids) && forall i :: 0 <= i < |ids| ==> ids[i] !in c.blocked
  }

  lemma SegmentIff(c: Codec, text: Bytes, ids: seq<Token>)
    ensures Segment(c, text) == Ok(ids) <==> Writes(c, text, ids)
  {
    hide EncodeValue, Suffix, Concat;
    EncodeValueIff(c, text, ids);
    var encoded := EncodeValue(c, text);
    if encoded.Ok? {
      EncodeValueIff(c, text, encoded.value);
    }
  }

  /** The reply can be used: plain text in which no reserved marker occurs. */
  ghost predicate Unmarked(response: Bytes, reserved: seq<Bytes>) {
    PlainText(response) && forall k, j :: 0 <= k < |reserved| ==> !OccursAt(response, reserved[k], j)
  }

  lemma UsableIff(response: Bytes, reserved: seq<Bytes>)
    ensures UsableReply(response, reserved) <==> Unmarked(response, reserved)
  {
    hide Count, Find, PlainText;
    forall k | 0 <= k < |reserved|
      ensures Count(response, reserved[k], 0) == 0 <==> forall j :: !OccursAt(response, reserved[k], j)
    {
      CountMeans(response, reserved[k]);
    }
  }

  /** The reply is `pre`, the bytes the targets name in the source, and `post`, and those bytes stand in it once. */
  ghost predicate Parted(r: Record, s: Split) {
    && Unmarked(r.response, r.reserved) && PlainText(r.source) && r.targets.valueBytes.Some?
    && var (vs, ve) := r.targets.valueBytes.value;
       && vs <= ve <= |r.source| && s.value == r.source[vs..ve] && Utf8.Valid(s.value)
       && r.response == s.pre + s.value + s.post && OnceAt(r.response, s.value, |s.pre|)
  }

  lemma SplitIff(r: Record, s: Split)
    ensures SplitReply(r) == Ok(s) <==> Parted(r, s)
  {
    hide Count, Find, UsableReply, Unmarked, Utf8.Valid, OnceAt;
    UsableIff(r.response, r.reserved);
    if r.targets.valueBytes.Some? && r.targets.valueBytes.value.0 <= r.targets.valueBytes.value.1 <= |r.source| {
      var value := r.source[r.targets.valueBytes.value.0..r.targets.valueBytes.value.1];
      CountMeans(r.response, value);
      var at := Find(r.response, value, 0);
      if Parted(r, s) {
        assert at == Some(|s.pre|);
        assert r.response[..|s.pre|] == s.pre && r.response[|s.pre| + |s.value|..] == s.post;
      }
    }
  }

  /** A supported reply that can be compiled: it is parted, its three stretches can be written, the stop token is the known
      one, the value has at most 256 bytes and 64 tokens, and everything fits. */
  ghost predicate Fitting(c: Codec, r: Record, s: Split, pre: seq<Token>, ids: seq<Token>, post: seq<Token>) {
    && Parted(r, s) && Writes(c, s.pre, pre) && Writes(c, s.post, post)
    && Compilable(GoldHandle(r), [r.source], r.prompt + pre, r.promptText + s.pre, c, Limits(256, 64, 128), true, ids)
    && c.piece(c.eos) == ANCHOR && |r.prompt| + |pre| + |ids| + |post| + 1 <= r.capacity
  }

  /** Then its trajectory is these tokens and the stop token, laid out around the value. */
  lemma TeacherAt(c: Codec, r: Record, s: Split, pre: seq<Token>, ids: seq<Token>, post: seq<Token>)
    requires Fitting(c, r, s, pre, ids, post)
    ensures ids != []
    ensures TeacherOf(c, r) ==
            Ok(Trajectory(r.prompt, pre + ids + post + [c.eos], PhasesOf(|pre|, |ids|, |post|),
                          IdleTargets(PhasesOf(|pre|, |ids|, |post|)), r.response, r.targets.(idleMode := None)))
  {
    PiecesAt(c, r, s, pre, ids, post);
    StretchesSpellReply(c, r);
    hide CompilePieces, Parted, Compilable, Writes, PhasesOf, CursorOk, Concat;
  }

  lemma PiecesAt(c: Codec, r: Record, s: Split, pre: seq<Token>, ids: seq<Token>, post: seq<Token>)
    requires Fitting(c, r, s, pre, ids, post)
    ensures ids != []
    ensures CompilePieces(c, r).Ok? && CompilePieces(c, r).value.pre == pre && CompilePieces(c, r).value.post == post
    ensures CompilePieces(c, r).value.cursor.tokens == ids
  {
    hide SplitReply, Segment, CompileAppend, Continuable, Carries, Selectable, Writes, CursorOk, Utf8.Valid, Concat, OnceAt, Unmarked;
    SplitIff(r, s);
    SegmentIff(c, s.pre, pre);
    SegmentIff(c, s.post, post);
    var h := GoldHandle(r);
    GoldNames(r, s);
    var k := Cursor(h, r.prompt + pre, ids, c.Pieces(ids), s.value, 0);
    CompileAppendIff(h, [r.source], r.prompt + pre, r.promptText + s.pre, c, DEFAULT_LIMITS, true, k);
    CarriesText(c, s.value, ids);
  }

  lemma GoldNames(r: Record, s: Split)
    requires Parted(r, s) && Selectable(GoldHandle(r), [r.source], true)
    ensures Named(GoldHandle(r), [r.source]) == s.value
  {
  }

  lemma CarriesText(c: Codec, value: Bytes, ids: seq<Token>)
    requires Carries(c, value, ids)
    ensures ids != [] && Concat(c.Pieces(ids)) == value && Utf8.Valid(value)
  {
    hide Utf8.Valid, Concat;
  }

  /** The compiler of supported replies succeeds exactly when there are such tokens. */
  lemma TeacherIff(c: Codec, r: Record)
    ensures TeacherOf(c, r).Ok? <==> exists s, pre, ids, post :: Fitting(c, r, s, pre, ids, post)
  {
    forall s, pre, ids, post | Fitting(c, r, s, pre, ids, post) ensures TeacherOf(c, r).Ok? {
      TeacherAt(c, r, s, pre, ids, post);
    }
    if TeacherOf(c, r).Ok? {
      CompiledFits(c, r);
    }
  }

  lemma CompiledFits(c: Codec, r: Record)
    requires TeacherOf(c, r).Ok?
    ensures exists s, pre, ids, post :: Fitting(c, r, s, pre, ids, post)
  {
    hide SplitReply, Segment, CompileAppend, Compilable, Parted, Writes, CursorOk, Utf8.Valid, Concat, PhasesOf;
    var q := CompilePieces(c, r).value;
    var s := SplitReply(r).value;
    SplitIff(r, s);
    SegmentIff(c, s.pre, q.pre);
    SegmentIff(c, s.post, q.post);
    CompileAppendIff(GoldHandle(r), [r.source], r.prompt + q.pre, r.promptText + s.pre, c, DEFAULT_LIMITS, true, q.cursor);
    assert Fitting(c, r, s, q.pre, q.cursor.tokens, q.post);
  }

  /** A reply that uses no stored value compiles exactly when it is unmarked, can be written, and fits. */
  lemma PlainTeacherIff(c: Codec, r: Record)
    ensures PlainTeacherOf(c, r).Ok? <==>
            && Unmarked(r.response, r.reserved) && r.targets.route in {0, 2} && c.piece(c.eos) == ANCHOR
            && exists body :: Writes(c, r.response, body) && |r.prompt| + |body| + 1 <= r.capacity
  {
    hide UsableReply, Unmarked, Segment, Writes;
    UsableIff(r.response, r.reserved);
    var segment := Segment(c, r.response);
    if segment.Ok? {
      SegmentIff(c, r.response, segment.value);
    }
    forall body | Writes(c, r.response, body) ensures segment == Ok(body) {
      SegmentIff(c, r.response, body);
    }
  }

  /** A compiled trajectory is always constructible, and its audit fails only on a claim that names another value. */
  lemma TeacherPassesAudit(c: Codec, r: Record, claim: Bytes)
    requires TeacherOf(c, r).Ok? && r.targets.route == 1 && r.prompt != []
    ensures r.targets.valueBytes.Some?
    ensures var t := TeacherOf(c, r).value;
            var (vs, ve) := r.targets.valueBytes.value;
            && Constructible(t)
            && vs <= ve <= |r.source|
            && (AuditAccepts(c, t, r.prompt, GoldLabel(1, r.response, claim), r.source) <==> claim == r.source[vs..ve])
  {
    hide EncodeValue, CompileAppend, TeacherOf, Find, Count, OneValue, Utf8.Valid, PhasesOf, Concat, Selected, UsableReply;
    TeacherParts(c, r);
    var p := CompilePieces(c, r).value;
    PhasesShape(|p.pre|, |p.cursor.tokens|, |p.post|);
    StretchesSpellReply(c, r);
    SelectedIsText(p.cursor.handle, [r.source], true);
  }

  lemma PositiveFact(raw: Bytes, facts: seq<Fact>, subject: Bytes, relation: Bytes, time: Bytes, clauseOf: Fact -> Bytes, f: Fact)
    requires PositiveBytesTime(raw, facts, subject, relation, time, clauseOf).Ok?
    requires f in facts && Wanted(f, subject, relation, time)
    ensures var targets := PositiveBytesTime(raw, facts, subject, relation, time, clauseOf).value;
            && targets.route == 1 && targets.valueBytes.Some?
            && var (vs, ve) := targets.valueBytes.value;
               vs <= ve <= |raw| && raw[vs..ve] == f.value
  {
    hide Count, Find;
    var matches := Matches(facts, subject, relation, time);
    assert f in matches && |matches| == 1 && f == matches[0];
    var g :| g in facts && Wanted(g, subject, relation, time) &&
             var (vs, ve) := PositiveBytesTime(raw, facts, subject, relation, time, clauseOf).value.valueBytes.value;
             vs <= ve <= |raw| && raw[vs..ve] == g.value;
    assert g in matches;
  }

  /** Compiled with the targets of the time-scoped resolver, a reply passes the audit for exactly the value of the one
      actual fact at the asked time. */
  lemma ResolvedTeacherPassesAudit(c: Codec, r: Record, facts: seq<Fact>, subject: Bytes, relation: Bytes, time: Bytes,
                                   clauseOf: Fact -> Bytes, claim: Bytes, f: Fact)
    requires PositiveBytesTime(r.source, facts, subject, relation, time, clauseOf) == Ok(r.targets)
    requires TeacherOf(c, r).Ok? && r.prompt != [] && f in facts && Wanted(f, subject, relation, time)
    ensures var t := TeacherOf(c, r).value;
            && Constructible(t)
            && (AuditAccepts(c, t, r.prompt, GoldLabel(1, r.response, claim), r.source) <==> claim == f.value)
  {
    hide TeacherOf, AuditAccepts, PositiveBytesTime, Constructible, Wanted;
    PositiveFact(r.source, facts, subject, relation, time, clauseOf, f);
    TeacherPassesAudit(c, r, claim);
  }

  lemma PlainTeacherPassesAudit(c: Codec, r: Record, claim: Bytes)
    requires PlainTeacherOf(c, r).Ok? && r.prompt != []
    ensures var t := PlainTeacherOf(c, r).value;
            && Constructible(t)
            && AuditAccepts(c, t, r.prompt, GoldLabel(r.targets.route, r.response, claim), r.source)
  {
    hide EncodeValue, Find, Count, Utf8.Valid, Concat;
    var t := PlainTeacherOf(c, r).value;
    var body := Segment(c, r.response).value;
    assert t.completion[..|t.completion| - 1] == body;
    CountNone(t.phases, StartValue);
    CountNone(t.phases, EndValue);
  }
}
