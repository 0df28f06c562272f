/** Typed memory as the server writes it: autonomous writes, structured events, snapshots, and the evidence they keep. */
module TypedMemory {
  import opened Bytes
  import opened Outcomes
  import T = TypedSpans
  import Episodes
  import opened EventLog

  const MAX_RESIDENT: nat := 32

  /** Address features of one resident event; their content is the encoder's business. */
  datatype Slot = Slot(features: Bytes)

  datatype Memory = Memory(records: seq<Episodes.Record>, events: seq<Event>, slots: seq<Slot>)

  const EMPTY := Memory([], [], [])

  datatype Failure = Refused | NoPredecessor | BadSpan

  datatype Hint = Ignore | Store | Update | Delete

  /** A member of the request; one that holds no string reads as the empty string. */
  datatype Given = Absent | Present(text: Bytes) {
    function Or(fallback: Bytes): Bytes {
      if Present? && text != [] then text else fallback
    }
  }

  datatype Ids = Ids(event: Given, episode: Given, source: Given)

  /** What the typed writer predicts for a text: token spans of the four fields, and the entity's anchor token. */
  datatype Reading = Reading(pieces: seq<Option<Bytes>>, entity: (nat, nat), anchor: nat, relation: (nat, nat),
                             value: (nat, nat), time: (nat, nat), operation: int)

  /** Outcome of the search for the event that a new one replaces. */
  datatype Selection = Unavailable | SelectFailed | NoneSelected | Selected(index: nat)

  /** What the models answer during one write; `None` where they fail. */
  datatype Answers = Answers(reading: Option<Reading>, slot: Option<Slot>, selection: Selection)

  datatype Receipt = Receipt(index: nat, deduplicated: bool)

  datatype Written<+R> = Written(memory: Memory, outcome: Result<R, Failure>)

  // ---- Compiling the fields of an autonomous event

  datatype Fields = Fields(entity: Span, relation: Bytes, evidence: Span, validTime: Bytes)

  predicate IsoDate(source: Bytes, start: nat, end: nat) {
    && end == start + 10 && end <= |source|
    && forall i :: start <= i < end ==> if i == start + 4 || i == start + 7 then source[i] == 0x2D else T.IsDigit(source[i])
  }

  function FieldSpan(x: T.DecodedSource, text: Bytes, tokens: (nat, nat), mode: T.Expansion): (r: Option<(nat, nat)>)
    requires T.Offsets(x.text, x.offsets)
    ensures r.Some? ==> r.value.0 < r.value.1 <= |text|
  {
    T.SourceSpan(x.text, x.offsets, x.floor, text, tokens.0, tokens.1, mode)
  }

  /** The entity falls back on its anchor token; a time that is no date is unknown; the other fields must map. */
  function CompileSpans(reading: Reading, text: Bytes, x: T.DecodedSource): Result<Fields, Failure>
    requires T.Offsets(x.text, x.offsets)
  {
    var mapped := FieldSpan(x, text, reading.entity, T.Entity);
    var entity := if mapped.Some? then mapped else FieldSpan(x, text, (reading.anchor, reading.anchor), T.Entity);
    var relation := FieldSpan(x, text, reading.relation, T.Exact);
    var value := FieldSpan(x, text, reading.value, T.Value);
    var time := FieldSpan(x, text, reading.time, T.Exact);
    if entity.None? || relation.None? || value.None? then Err(BadSpan)
    else
      var name := T.NormalizePredicate(text, relation.value.0, relation.value.1);
      if name.None? then Err(Refused)
      else
        Ok(Fields(Span(entity.value.0, entity.value.1), name.value,
                  Span(T.ArticleStart(text, value.value.0), value.value.1),
                  if time.Some? && IsoDate(text, time.value.0, time.value.1) then text[time.value.0..time.value.1] else []))
  }

  function CompileFields(reading: Option<Reading>, text: Bytes): (r: Result<Fields, Failure>) {
    if reading.None? || T.DecodedOf(reading.value.pieces, text).None? then Err(Refused)
    else
      var x := T.DecodedOf(reading.value.pieces, text).value;
      T.DecodedMeans(reading.value.pieces, text);
      CompileSpans(reading.value, text, x)
  }

  function Digits(n: nat): Bytes {
    if n < 10 then [0x30 + n] else Digits(n / 10) + [0x30 + n % 10]
  }

  const AUTO_EVENT: Bytes := [0x61, 0x75, 0x74, 0x6F, 0x2D, 0x65, 0x76, 0x65, 0x6E, 0x74, 0x2D]
  const AUTO_EPISODE: Bytes := [0x61, 0x75, 0x74, 0x6F, 0x2D, 0x65, 0x70, 0x69, 0x73, 0x6F, 0x64, 0x65, 0x2D]
  const AUTO_SOURCE: Bytes := [0x61, 0x75, 0x74, 0x6F, 0x2D, 0x73, 0x6F, 0x75, 0x72, 0x63, 0x65, 0x2D]

  /** The writer's own verdict, unless the caller asked for a store or an update. */
  function Intended(hint: Hint, predicted: int): Operation {
    if hint == Store || (hint != Update && predicted == 0) then Assert else Supersede
  }

  function Compose(m: Memory, text: Bytes, f: Fields, ids: Ids, operation: Operation): Statement
    requires f.entity.start <= f.entity.end <= |text| && f.evidence.start <= f.evidence.end <= |text|
  {
    Statement(ids.event.Or(AUTO_EVENT + Digits(|m.events|)), ids.episode.Or(AUTO_EPISODE + Digits(|m.records|)),
              ids.source.Or(AUTO_SOURCE + Digits(|m.records|)), text[f.entity.start..f.entity.end], f.relation,
              text[f.evidence.start..f.evidence.end], f.validTime, [], operation, Property, Positive, Actual, 0,
              f.entity, f.evidence)
  }

  /** A change is linked to the version it replaces; with no such version it is stored as a first observation, unless
      the caller insisted on an update. */
  function Link(m: Memory, s: Statement, selection: Selection, hint: Hint): Result<Statement, Failure> {
    match selection
    case Unavailable => Err(Refused)
    case SelectFailed => Err(Refused)
    case NoneSelected => if hint == Update then Err(NoPredecessor) else Ok(s.(operation := Assert, target := []))
    case Selected(i) =>
      if i >= |m.events| then Err(Refused)
      else
        var t := m.events[i].stated;
        Ok(s.(operation := Supersede, target := t.id, entity := t.entity, relation := t.relation))
  }

  lemma FieldsFit(reading: Option<Reading>, text: Bytes)
    requires CompileFields(reading, text).Ok?
    ensures reading.Some?
    ensures var f := CompileFields(reading, text).value;
            f.entity.start < f.entity.end <= |text| && f.evidence.start < f.evidence.end <= |text|
  {
    hide T.DecodedOf, T.NormalizePredicate, T.Offsets, IsoDate, T.ArticleStart, FieldSpan;
    T.DecodedMeans(reading.value.pieces, text);
  }

  /** The event to be written, before any store changes. Resident memory keeps every version as an assertion. */
  function Draft(m: Memory, resident: bool, text: Bytes, hint: Hint, ids: Ids, answers: Answers): (r: Result<Statement, Failure>)
    ensures r.Ok? && resident ==> answers.slot.Some? && |m.slots| == |m.events| < MAX_RESIDENT
  {
    var f := CompileFields(answers.reading, text);
    if f.Err? then Err(f.error)
    else
      FieldsFit(answers.reading, text);
      var s := Compose(m, text, f.value, ids, Intended(hint, answers.reading.value.operation));
      if resident then
        if |m.slots| != |m.events| || |m.slots| >= MAX_RESIDENT || answers.slot.None? then Err(Refused)
        else Ok(s.(operation := Assert))
      else if s.operation == Supersede then Link(m, s, answers.selection, hint)
      else Ok(s)
  }

  // ---- Autonomous writes

  predicate Holds(m: Memory, e: Event, text: Bytes) {
    e.active && e.stated.record < |m.records| && m.records[e.stated.record].text == text
  }

  /** The event that already says `text`; resident memory only looks at its latest event. */
  function DuplicateFrom(m: Memory, resident: bool, text: Bytes, i: nat): (r: Option<nat>)
    ensures r.Some? ==> i <= r.value < |m.events| && Holds(m, m.events[r.value], text)
    ensures r.Some? && resident ==> r.value == |m.events| - 1
    ensures r.None? ==> forall k :: i <= k < |m.events| && (resident ==> k + 1 == |m.events|) ==> !Holds(m, m.events[k], text)
    decreases |m.events| - i
  {
    if i >= |m.events| then None
    else if (resident ==> i + 1 == |m.events|) && Holds(m, m.events[i], text) then Some(i)
    else DuplicateFrom(m, resident, text, i + 1)
  }

  function Duplicate(m: Memory, resident: bool, text: Bytes, hint: Hint, ids: Ids): Option<nat> {
    if hint == Ignore && ids.event.Absent? then DuplicateFrom(m, resident, text, 0) else None
  }

  /** The record first, then the event that cites it; a refused event takes the record back. */
  function Save(m: Memory, resident: bool, text: Bytes, priority: real, s: Statement, slot: Option<Slot>): Written<Receipt>
    requires resident ==> slot.Some?
  {
    var added := Episodes.Add(m.records, text, priority);
    if added.None? then Written(m, Err(Refused))
    else
      var (records, i) := added.value;
      var events := Apply(m.events, s.(record := i));
      if events.None? then Written(m.(records := Episodes.Truncate(records, |m.records|)), Err(Refused))
      else
        Written(Memory(records, events.value, if resident then m.slots + [slot.value] else m.slots),
                Ok(Receipt(|m.events|, false)))
  }

  function Remember(m: Memory, resident: bool, text: Bytes, priority: real, hint: Hint, ids: Ids, answers: Answers)
      : Written<Receipt>
  {
    if text == [] then Written(m, Err(Refused))
    else
      var known := Duplicate(m, resident, text, hint, ids);
      if known.Some? then Written(m, Ok(Receipt(known.value, true)))
      else
        match Draft(m, resident, text, hint, ids, answers)
        case Err(e) => Written(m, Err(e))
        case Ok(s) => Save(m, resident, text, priority, s, answers.slot)
  }

  // ---- Evidence spans and structured events

  /** The span of the one occurrence of `text`. */
  function UniqueSpan(source: Bytes, text: Bytes): Option<Span> {
    if text == [] then None
    else
      var at := Find(source, text, 0);
      if at.None? || Find(source, text, at.value + 1).Some? then None else Some(Span(at.value, at.value + |text|))
  }

  /** The text occurs at `at` and nowhere else, occurrences that overlap counted apart. */
  ghost predicate OnlyAt(source: Bytes, text: Bytes, at: int) {
    OccursAt(source, text, at) && forall j :: OccursAt(source, text, j) ==> j == at
  }

  /** Found exactly when there is one place. */
  lemma UniqueSpanMeans(source: Bytes, text: Bytes)
    ensures UniqueSpan(source, text).Some? <==> text != [] && exists i :: OnlyAt(source, text, i)
    ensures UniqueSpan(source, text).Some? ==>
            var s := UniqueSpan(source, text).value;
            OnlyAt(source, text, s.start) && s.end == s.start + |text|
  {
    if text != [] {
      var at := Find(source, text, 0);
      if at.Some? {
        var next := Find(source, text, at.value + 1);
        if next.None? {
          assert OnlyAt(source, text, at.value);
        } else {
          assert OccursAt(source, text, at.value) && OccursAt(source, text, next.value);
        }
      }
    }
  }

  predicate ExactSpan(source: Bytes, text: Bytes, s: Span) {
    s.start < s.end <= |source| && source[s.start..s.end] == text
  }

  /** Offsets in the request: none at all, an unusable set of them, or all four. */
  datatype GivenSpans = NoSpans | BadSpans | Spans(subject: Span, evidence: Span)

  datatype Request = Request(record: Option<Bytes>, rawIndex: Option<int>, stated: Statement,
                             subjectText: Option<Bytes>, valueText: Option<Bytes>, spans: GivenSpans)
  {
    function ValueText(): Bytes { if valueText.Some? then valueText.value else stated.value }
    function SubjectText(): Bytes { if subjectText.Some? then subjectText.value else stated.entity }
  }

  function ResolveEvidence(q: Request, source: Bytes): (r: Option<(Span, Span)>)
    ensures r.Some? ==> ExactSpan(source, q.SubjectText(), r.value.0) && ExactSpan(source, q.ValueText(), r.value.1)
  {
    var subject := if q.spans.Spans? then Some(q.spans.subject) else UniqueSpan(source, q.SubjectText());
    var evidence := if q.spans.Spans? then Some(q.spans.evidence) else UniqueSpan(source, q.ValueText());
    if q.spans.BadSpans? || subject.None? || evidence.None? then None
    else if q.spans.Spans? && (subject.value.start > MAX_SPAN || subject.value.end > MAX_SPAN
                               || evidence.value.start > MAX_SPAN || evidence.value.end > MAX_SPAN) then None
    else if ExactSpan(source, q.SubjectText(), subject.value) && ExactSpan(source, q.ValueText(), evidence.value) then
      Some((subject.value, evidence.value))
    else None
  }

  function Clamp(x: int, max: nat): nat {
    if x < 0 then 0 else if x > max then max else x
  }

  /** The record a structured event cites and its text: the one it brings, or one already stored (the last by default). */
  function Cited(m: Memory, q: Request): (r: Option<(nat, Bytes)>)
    ensures r.Some? && q.record.None? ==> r.value.0 < |m.records| && m.records[r.value.0].text == r.value.1
  {
    if q.record.Some? then
      var known := Episodes.IndexOf(m.records, q.record.value);
      var index := if known.Some? then known.value else |m.records|;
      if q.rawIndex.Some? && Clamp(q.rawIndex.value, index) != index then None else Some((index, q.record.value))
    else if m.records == [] then None
    else
      var last := |m.records| - 1;
      var index := if q.rawIndex.Some? then Clamp(q.rawIndex.value, last) else last;
      Some((index, m.records[index].text))
  }

  function Retarget(m: Memory, s: Statement, selection: Selection): Result<Statement, Failure> {
    if s.operation == Assert || s.target != [] || selection.Unavailable? then Ok(s)
    else if selection.NoneSelected? then Err(NoPredecessor)
    else if selection.Selected? && selection.index < |m.events| then Ok(s.(target := m.events[selection.index].stated.id))
    else Err(Refused)
  }

  /** The event with its evidence and target filled in, before any store changes. */
  function Resolve(m: Memory, q: Request, selection: Selection): Result<Statement, Failure> {
    var cited := Cited(m, q);
    if cited.None? then Err(Refused)
    else
      var (index, source) := cited.value;
      var spans := ResolveEvidence(q, source);
      if spans.None? then Err(Refused)
      else Retarget(m, q.stated.(record := index, subject := spans.value.0, evidence := spans.value.1), selection)
  }

  function Structured(m: Memory, q: Request, selection: Selection): Written<Receipt> {
    match Resolve(m, q, selection)
    case Err(e) => Written(m, Err(e))
    case Ok(s) =>
      if q.record.Some? then Save(m, false, q.record.value, 0.0, s, None)
      else
        var events := Apply(m.events, s);
        if events.None? then Written(m, Err(Refused))
        else Written(m.(events := events.value), Ok(Receipt(|m.events|, false)))
  }

  // ---- Snapshots

  datatype Snapshot = Snapshot(records: seq<Episodes.Record>, events: seq<Event>, slots: seq<Slot>)

  /** Files hold 32-bit offsets, the largest of which stands for "unknown". */
  function ToFile(x: nat): nat { if x == SPAN_UNKNOWN then MAX_SPAN else x % 0x1_0000_0000 }
  function FromFile(x: nat): nat { if x == MAX_SPAN then SPAN_UNKNOWN else x }

  function SpanToFile(s: Span): Span { Span(ToFile(s.start), ToFile(s.end)) }
  function SpanFromFile(s: Span): Span { Span(FromFile(s.start), FromFile(s.end)) }

  function EventsToFile(events: seq<Event>): (r: seq<Event>)
    ensures |r| == |events|
  {
    seq(|events|, i requires 0 <= i < |events| =>
      var s := events[i].stated;
      Event(s.(record := s.record % 0x1_0000_0000, subject := SpanToFile(s.subject), evidence := SpanToFile(s.evidence)),
            events[i].active))
  }

  function EventsFromFile(events: seq<Event>): (r: seq<Event>)
    ensures |r| == |events|
  {
    seq(|events|, i requires 0 <= i < |events| =>
      var s := events[i].stated;
      Event(s.(subject := SpanFromFile(s.subject), evidence := SpanFromFile(s.evidence)), events[i].active))
  }

  function Export(m: Memory, resident: bool): Option<Snapshot> {
    if |m.records| > Episodes.MAX_RECORDS || |m.events| > MAX_EVENTS || (resident && |m.slots| != |m.events|)
       || (exists i :: 0 <= i < |m.records| && !(0 < |m.records[i].text| <= Episodes.MAX_RECORD_BYTES))
       || (exists i :: 0 <= i < |m.events| && (m.events[i].stated.record > MAX_SPAN || !ValidSpans(m.events[i].stated)))
    then None
    else Some(Snapshot(m.records, EventsToFile(m.events), if resident then m.slots else []))
  }

  predicate SpansUnknown(s: Statement) {
    && s.subject.start == s.subject.end == SPAN_UNKNOWN
    && s.evidence.start == s.evidence.end == SPAN_UNKNOWN
  }

  predicate Fits(s: Statement, source: Bytes) {
    SpansUnknown(s) ||
    (s.subject.start < s.subject.end <= |source| && ExactSpan(source, s.value, s.evidence))
  }

  /** The event's evidence is a record, and the exact bytes of its value in that record, or is unknown altogether. */
  predicate Grounded(records: seq<Episodes.Record>, s: Statement) {
    s.record < |records| && Fits(s, records[s.record].text)
  }

  predicate AllGrounded(records: seq<Episodes.Record>, events: seq<Event>) {
    forall i :: 0 <= i < |events| ==> Grounded(records, events[i].stated)
  }

  function Import(m: Memory, resident: bool, file: Snapshot): Written<()> {
    var records := Episodes.Replay(file.records);
    var events := EventsFromFile(file.events);
    if records.None? || !Loadable(events) || (resident && (|file.slots| > MAX_RESIDENT || |file.slots| != |events|))
       || !AllGrounded(records.value, events)
    then Written(m, Err(Refused))
    else Written(Memory(records.value, events, if resident then file.slots else []), Ok(()))
  }

  // ---- Reading a value back

  /** The answer for a selected event: the bytes of its record, checked against the stored value. */
  function Extract(m: Memory, i: nat): Option<Bytes>
    requires i < |m.events|
  {
    var s := m.events[i].stated;
    if s.record >= |m.records| then None
    else
      var source := m.records[s.record].text;
      if s.evidence.start >= s.evidence.end || s.evidence.end > |source|
         || |s.value| != s.evidence.end - s.evidence.start
         || source[s.evidence.start..s.evidence.end] != s.value
      then None
      else Some(source[s.evidence.start..s.evidence.end])
  }

  // ---- The invariant

  predicate Inv(m: Memory, resident: bool) {
    && Episodes.Sound(m.records) && Loadable(m.events) && AllGrounded(m.records, m.events)
    && (if resident then |m.slots| == |m.events| <= MAX_RESIDENT else m.slots == [])
  }

  lemma EmptyInv(resident: bool)
    ensures Inv(EMPTY, resident)
  {
  }

  lemma GroundedExtends(records: seq<Episodes.Record>, more: seq<Episodes.Record>, events: seq<Event>)
    requires AllGrounded(records, events) && Episodes.Extends(records, more)
    ensures AllGrounded(more, events)
  {
    hide Fits;
    forall i | 0 <= i < |events| ensures Grounded(more, events[i].stated) {
      assert Grounded(records, events[i].stated);
    }
  }

  lemma AppendGrounded(records: seq<Episodes.Record>, events: seq<Event>, s: Statement)
    requires AllGrounded(records, events) && Apply(events, s).Some?
    ensures AllGrounded(records, Apply(events, s).value) <==> Grounded(records, s)
  {
    hide Apply, Grounded;
    var longer := Apply(events, s).value;
    ApplyStatements(events, s);
    assert |longer| == |events| + 1;
    forall i | 0 <= i < |longer| ensures longer[i].stated == if i < |events| then events[i].stated else s {
      assert Statements(longer)[i] == (Statements(events) + [s])[i];
    }
    if AllGrounded(records, longer) {
      assert Grounded(records, longer[|events|].stated);
    }
  }

  lemma TruncatedIsSound(records: seq<Episodes.Record>, text: Bytes, priority: real)
    requires Episodes.Sound(records) && Episodes.Add(records, text, priority).Some?
    ensures Episodes.Sound(Episodes.Truncate(Episodes.Add(records, text, priority).value.0, |records|))
  {
    Episodes.AddIsSound(records, text, priority);
  }

  /** A write keeps the invariant when it succeeds exactly if its event is grounded, and always when it fails. */
  lemma SaveKeepsInv(m: Memory, resident: bool, text: Bytes, priority: real, s: Statement, slot: Option<Slot>)
    requires Inv(m, resident) && (resident ==> slot.Some? && |m.slots| < MAX_RESIDENT)
    ensures var w := Save(m, resident, text, priority, s, slot);
            Inv(w.memory, resident) <==> (w.outcome.Ok? ==> Fits(s, text))
  {
    var added := Episodes.Add(m.records, text, priority);
    if added.Some? {
      hide Episodes.Add, Episodes.Sound, Fits, Loadable, Acceptable, AllGrounded;
      var (records, i) := added.value;
      Episodes.AddIsSound(m.records, text, priority);
      GroundedExtends(m.records, records, m.events);
      if Apply(m.events, s.(record := i)).Some? {
        ApplyKeepsLoadable(m.events, s.(record := i));
        AppendGrounded(records, m.events, s.(record := i));
        FitsIgnoresRecord(s, i, text);
      } else {
        Episodes.TruncateUndoesAdd(m.records, text, priority);
        TruncatedIsSound(m.records, text, priority);
        GroundedExtends(m.records, Episodes.Truncate(records, |m.records|), m.events);
      }
    }
  }

  lemma FitsIgnoresRecord(s: Statement, i: nat, text: Bytes)
    ensures Fits(s.(record := i), text) <==> Fits(s, text)
  {
  }

  /** Every drafted event has its value, and its entity's span, in the text it was drafted from. */
  lemma DraftFits(m: Memory, resident: bool, text: Bytes, hint: Hint, ids: Ids, answers: Answers)
    requires Draft(m, resident, text, hint, ids, answers).Ok?
    ensures var s := Draft(m, resident, text, hint, ids, answers).value;
            && s.subject.start < s.subject.end <= |text| && ExactSpan(text, s.value, s.evidence)
            && (resident ==> s.operation == Assert)
            && s.operation != Retract && s.kind == Property
  {
    hide CompileFields, Digits;
    FieldsFit(answers.reading, text);
  }

  /** What the drafted event says: a new statement is about the entity and relation found in the text; a replacement
      takes them from the event it replaces; the time is a date of the text or unknown. */
  lemma DraftMeans(m: Memory, resident: bool, text: Bytes, hint: Hint, ids: Ids, answers: Answers)
    requires Draft(m, resident, text, hint, ids, answers).Ok?
    ensures var s := Draft(m, resident, text, hint, ids, answers).value;
            && s.subject.start <= s.subject.end <= |text|
            && (s.operation == Assert ==>
                  s.target == [] && s.entity == text[s.subject.start..s.subject.end] && T.Predicate(s.relation))
            && (s.operation == Supersede ==>
                  && !resident && hint != Store && answers.selection.Selected? && answers.selection.index < |m.events|
                  && var t := m.events[answers.selection.index].stated;
                     s.target == t.id && s.entity == t.entity && s.relation == t.relation)
            && (hint == Update && !resident ==> s.operation == Supersede)
            && (s.validTime == [] || DateOf(text, s.validTime))
            && (ids.event.Present? && ids.event.text != [] ==> s.id == ids.event.text)
  {
    hide CompileFields, T.Predicate, DateOf, Compose, Link;
    FieldsFit(answers.reading, text);
    FieldsMean(answers.reading, text);
    var f := CompileFields(answers.reading, text).value;
    var operation := Intended(hint, answers.reading.value.operation);
    var s := Compose(m, text, f, ids, operation);
    ComposeMeans(m, text, f, ids, operation);
    if !resident && operation == Supersede {
      LinkMeans(m, s, answers.selection, hint);
    }
  }

  lemma ComposeMeans(m: Memory, text: Bytes, f: Fields, ids: Ids, operation: Operation)
    requires f.entity.start <= f.entity.end <= |text| && f.evidence.start <= f.evidence.end <= |text|
    ensures var s := Compose(m, text, f, ids, operation);
            && s.subject == f.entity && s.entity == text[f.entity.start..f.entity.end]
            && s.relation == f.relation && s.validTime == f.validTime && s.operation == operation && s.target == []
            && (ids.event.Present? && ids.event.text != [] ==> s.id == ids.event.text)
  {
    hide Digits;
  }

  lemma LinkMeans(m: Memory, s: Statement, selection: Selection, hint: Hint)
    requires Link(m, s, selection, hint).Ok?
    ensures var l := Link(m, s, selection, hint).value;
            && l.id == s.id && l.subject == s.subject && l.validTime == s.validTime
            && (selection.NoneSelected? ==> hint != Update && l == s.(operation := Assert, target := []))
            && (!selection.NoneSelected? ==>
                  && selection.Selected? && selection.index < |m.events|
                  && var t := m.events[selection.index].stated;
                     l == s.(operation := Supersede, target := t.id, entity := t.entity, relation := t.relation))
  {
  }

  ghost predicate DateOf(text: Bytes, date: Bytes) {
    exists start: nat, end: nat :: IsoDate(text, start, end) && date == text[start..end]
  }

  lemma FieldsMean(reading: Option<Reading>, text: Bytes)
    requires CompileFields(reading, text).Ok?
    ensures var f := CompileFields(reading, text).value;
            && T.Predicate(f.relation)
            && (f.validTime == [] || DateOf(text, f.validTime))
  {
    hide T.DecodedOf, T.Predicate, T.Offsets, IsoDate, T.ArticleStart, FieldSpan;
    T.DecodedMeans(reading.value.pieces, text);
    var x := T.DecodedOf(reading.value.pieces, text).value;
    var relation := FieldSpan(x, text, reading.value.relation, T.Exact).value;
    T.NormalPredicate(text, relation.0, relation.1);
    hide T.NormalizePredicate;
    var time := FieldSpan(x, text, reading.value.time, T.Exact);
    assert time.Some? && IsoDate(text, time.value.0, time.value.1) ==> DateOf(text, text[time.value.0..time.value.1]);
  }

  /** Autonomous writes keep the invariant whatever the models answer, whether they succeed or fail. */
  lemma RememberKeepsInv(m: Memory, resident: bool, text: Bytes, priority: real, hint: Hint, ids: Ids, answers: Answers)
    requires Inv(m, resident)
    ensures Inv(Remember(m, resident, text, priority, hint, ids, answers).memory, resident)
  {
    hide Inv, Save, Draft, Duplicate;
    if text != [] && Duplicate(m, resident, text, hint, ids).None? && Draft(m, resident, text, hint, ids, answers).Ok? {
      var s := Draft(m, resident, text, hint, ids, answers).value;
      DraftFits(m, resident, text, hint, ids, answers);
      SaveKeepsInv(m, resident, text, priority, s, answers.slot);
    }
  }

  /** The failed write changes nothing, except that a refused event leaves behind the raised priority of a record that
      was stored before with a lower one. */
  predicate LeavesPriority(m: Memory, resident: bool, text: Bytes, priority: real, hint: Hint, ids: Ids, answers: Answers) {
    var known := Episodes.IndexOf(m.records, text);
    var s := Draft(m, resident, text, hint, ids, answers);
    && Duplicate(m, resident, text, hint, ids).None? && s.Ok? && Episodes.PriorityOk(priority)
    && known.Some? && priority > m.records[known.value].priority
    && !Acceptable(m.events, s.value.(record := known.value))
  }

  lemma FailedRemember(m: Memory, resident: bool, text: Bytes, priority: real, hint: Hint, ids: Ids, answers: Answers)
    requires Remember(m, resident, text, priority, hint, ids, answers).outcome.Err?
    ensures var after := Remember(m, resident, text, priority, hint, ids, answers).memory;
            && after.events == m.events && after.slots == m.slots
            && |after.records| == |m.records| && Episodes.Extends(m.records, after.records)
            && (after == m <==> text == [] || !LeavesPriority(m, resident, text, priority, hint, ids, answers))
  {
    hide Draft, Duplicate, Acceptable;
    if text != [] && Draft(m, resident, text, hint, ids, answers).Ok? {
      var s := Draft(m, resident, text, hint, ids, answers).value;
      var added := Episodes.Add(m.records, text, priority);
      if added.Some? {
        hide Episodes.Add;
        Episodes.TruncateUndoesAdd(m.records, text, priority);
        AddedIndex(m.records, text, priority);
      }
    }
  }

  lemma AddedIndex(records: seq<Episodes.Record>, text: Bytes, priority: real)
    requires Episodes.Add(records, text, priority).Some?
    ensures Episodes.PriorityOk(priority)
    ensures var known := Episodes.IndexOf(records, text);
            Episodes.Add(records, text, priority).value.1 == if known.Some? then known.value else |records|
  {
  }

  /** Structured events keep the invariant exactly when the text they point at is the value they state. */
  lemma StructuredKeepsInv(m: Memory, q: Request, selection: Selection)
    requires Inv(m, false)
    ensures var w := Structured(m, q, selection);
            && (w.outcome.Err? ==> w.memory == m)
            && (Inv(w.memory, false) <==> (w.outcome.Ok? ==> q.ValueText() == q.stated.value))
  {
    if Resolve(m, q, selection).Ok? {
      var s := Resolve(m, q, selection).value;
      ResolvedFits(m, q, selection);
      hide Resolve, Fits, Loadable, AllGrounded;
      if q.record.Some? {
        SaveKeepsInv(m, false, q.record.value, 0.0, s, None);
        hide Inv;
        PlainSaveIsAtomic(m, q.record.value, s);
      } else if Apply(m.events, s).Some? {
        ApplyKeepsLoadable(m.events, s);
        AppendGrounded(m.records, m.events, s);
      }
    }
  }

  lemma ResolvedFits(m: Memory, q: Request, selection: Selection)
    requires Resolve(m, q, selection).Ok?
    ensures Cited(m, q).Some?
    ensures var (index, source) := Cited(m, q).value;
            var s := Resolve(m, q, selection).value;
            && s.record == index
            && (Fits(s, source) <==> q.ValueText() == q.stated.value)
  {
    hide UniqueSpan, Cited;
  }

  lemma PlainSaveIsAtomic(m: Memory, text: Bytes, s: Statement)
    requires Inv(m, false)
    ensures Save(m, false, text, 0.0, s, None).outcome.Err? ==> Save(m, false, text, 0.0, s, None).memory == m
  {
    hide Apply, Loadable, AllGrounded;
    if Episodes.Add(m.records, text, 0.0).Some? {
      Episodes.TruncateUndoesAdd(m.records, text, 0.0);
      if Episodes.IndexOf(m.records, text).Some? {
        assert Episodes.PriorityOk(m.records[Episodes.IndexOf(m.records, text).value].priority);
      }
    }
  }

  lemma ImportKeepsInv(m: Memory, resident: bool, file: Snapshot)
    requires Inv(m, resident)
    ensures Inv(Import(m, resident, file).memory, resident)
    ensures Import(m, resident, file).outcome.Err? ==> Import(m, resident, file).memory == m
  {
    hide Loadable, AllGrounded, Episodes.Replay, Episodes.Sound;
    if Episodes.Replay(file.records).Some? {
      Episodes.ReplayIsSound(file.records);
    }
  }

  /** The value of an event is read back from its record, byte for byte, exactly when its span is known. */
  lemma ExtractMeans(m: Memory, resident: bool, i: nat)
    requires Inv(m, resident) && i < |m.events|
    ensures var s := m.events[i].stated;
            && (Extract(m, i).Some? <==> s.evidence.Known())
            && (Extract(m, i).Some? ==> Extract(m, i).value == s.value && s.record < |m.records|
                                        && OccursAt(m.records[s.record].text, s.value, s.evidence.start))
  {
    hide Loadable;
    var s := m.events[i].stated;
    assert Grounded(m.records, s);
    assert |m.records[s.record].text| <= Episodes.MAX_RECORD_BYTES;
  }
}
