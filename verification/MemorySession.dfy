/** The typed memory of one session: the three stores, updated in place by the server's requests. */
module MemorySession {
  import opened Bytes
  import opened Outcomes
  import T = TypedSpans
  import Episodes
  import opened EventLog
  import opened TypedMemory

  // ---- Compiling a prediction, field by field

  method IsIsoDate(source: Bytes, start: nat, end: nat) returns (r: bool)
    ensures r == IsoDate(source, start, end)
  {
    if end != start + 10 || end > |source| {
      return false;
    }
    for index := 0 to 10
      invariant forall i :: start <= i < start + index ==>
        if i == start + 4 || i == start + 7 then source[i] == 0x2D else T.IsDigit(source[i])
    {
      var byte := source[start + index];
      if index == 4 || index == 7 {
        if byte != 0x2D {
          return false;
        }
      } else if !T.IsDigit(byte) {
        return false;
      }
    }
    return true;
  }

  method MapField(x: T.DecodedSource, text: Bytes, tokens: (nat, nat), mode: T.Expansion) returns (r: Option<(nat, nat)>)
    requires T.Offsets(x.text, x.offsets)
    ensures r == FieldSpan(x, text, tokens, mode)
    ensures r.Some? ==> r.value.0 < r.value.1 <= |text|
  {
    r := T.TokenSpanToSource(x.text, x.offsets, x.floor, text, tokens.0, tokens.1, mode);
  }

  method CompileReading(reading: Option<Reading>, text: Bytes) returns (r: Result<Fields, Failure>)
    ensures r == CompileFields(reading, text)
  {
    if reading.None? {
      return Err(Refused);
    }
    var decoded := T.DecodeSource(reading.value.pieces, text);
    if decoded.None? {
      return Err(Refused);
    }
    T.DecodedMeans(reading.value.pieces, text);
    hide T.DecodedOf, FieldSpan, T.NormalizePredicate, T.ArticleStart, IsoDate;
    r := CompileDecoded(reading.value, text, decoded.value);
  }

  method CompileDecoded(reading: Reading, text: Bytes, x: T.DecodedSource) returns (r: Result<Fields, Failure>)
    requires T.Offsets(x.text, x.offsets)
    ensures r == CompileSpans(reading, text, x)
  {
    hide FieldSpan, T.NormalizePredicate, T.ArticleStart, IsoDate, T.Offsets;
    var entity := MapField(x, text, reading.entity, T.Entity);
    if entity.None? {
      entity := MapField(x, text, (reading.anchor, reading.anchor), T.Entity);
    }
    if entity.None? {
      return Err(BadSpan);
    }
    var relation := MapField(x, text, reading.relation, T.Exact);
    if relation.None? {
      return Err(BadSpan);
    }
    var value := MapField(x, text, reading.value, T.Value);
    if value.None? {
      return Err(BadSpan);
    }
    var validTime: Bytes := [];
    var time := MapField(x, text, reading.time, T.Exact);
    if time.Some? {
      var date := IsIsoDate(text, time.value.0, time.value.1);
      if date {
        validTime := text[time.value.0..time.value.1];
      }
    }
    var name := T.NormalizePredicateSpan(text, relation.value.0, relation.value.1);
    if name.None? {
      return Err(Refused);
    }
    var start := T.ExpandLeadingArticle(text, value.value.0);
    r := Ok(Fields(Span(entity.value.0, entity.value.1), name.value, Span(start, value.value.1), validTime));
  }

  /** Two searches, the second behind the first place found: the span of the text if it occurs exactly once. */
  method FindUniqueSpan(source: Bytes, text: Bytes) returns (r: Option<Span>)
    ensures r.Some? <==> text != [] && exists i :: OnlyAt(source, text, i)
    ensures r.Some? ==> OnlyAt(source, text, r.value.start) && r.value.end == r.value.start + |text|
  {
    if text == [] {
      return None;
    }
    var at := Find(source, text, 0);
    if at.None? {
      return None;
    }
    var next := Find(source, text, at.value + 1);
    if next.Some? {
      assert OccursAt(source, text, at.value) && OccursAt(source, text, next.value);
      return None;
    }
    assert OnlyAt(source, text, at.value);
    r := Some(Span(at.value, at.value + |text|));
  }

  method ResolveSpans(q: Request, source: Bytes) returns (r: Option<(Span, Span)>)
    ensures r == ResolveEvidence(q, source)
  {
    if q.spans.BadSpans? {
      return None;
    }
    var subject, evidence;
    if q.spans.Spans? {
      subject, evidence := q.spans.subject, q.spans.evidence;
      if subject.start > MAX_SPAN || subject.end > MAX_SPAN || evidence.start > MAX_SPAN || evidence.end > MAX_SPAN {
        return None;
      }
    } else {
      UniqueSpanMeans(source, q.SubjectText());
      UniqueSpanMeans(source, q.ValueText());
      var found := FindUniqueSpan(source, q.SubjectText());
      if found.None? {
        return None;
      }
      subject := found.value;
      found := FindUniqueSpan(source, q.ValueText());
      if found.None? {
        return None;
      }
      evidence := found.value;
    }
    hide UniqueSpan;
    if ExactSpan(source, q.SubjectText(), subject) && ExactSpan(source, q.ValueText(), evidence) {
      r := Some((subject, evidence));
    } else {
      r := None;
    }
  }

  method CheckEvidence(records: seq<Episodes.Record>, events: seq<Event>) returns (r: bool)
    ensures r == AllGrounded(records, events)
  {
    for index := 0 to |events|
      invariant forall i :: 0 <= i < index ==> Grounded(records, events[i].stated)
    {
      if !Grounded(records, events[index].stated) {
        return false;
      }
    }
    return true;
  }

  class MemorySession {
    const resident: bool
    const episodes: Episodes.EpisodicStore
    const log: EventStore
    var slots: seq<Slot>

    constructor (resident: bool)
      ensures View() == EMPTY && this.resident == resident
      ensures fresh(episodes) && fresh(log)
    {
      this.resident := resident;
      slots := [];
      episodes := new Episodes.EpisodicStore();
      log := new EventStore();
    }

    function View(): Memory
      reads this, episodes, log
    {
      Memory(episodes.records, log.events, slots)
    }

    /** Look for a current event that says `text`: any one, or only the latest in resident memory. */
    method FindDuplicate(text: Bytes) returns (r: Option<nat>)
      ensures r == DuplicateFrom(View(), resident, text, 0)
    {
      var i := 0;
      while i < |log.events|
        invariant i <= |log.events| && DuplicateFrom(View(), resident, text, i) == DuplicateFrom(View(), resident, text, 0)
      {
        if !(resident && i + 1 != |log.events|) {
          if Holds(View(), log.events[i], text) {
            return Some(i);
          }
        }
        i := i + 1;
      }
      return None;
    }

    method DraftEvent(text: Bytes, hint: Hint, ids: Ids, answers: Answers) returns (r: Result<Statement, Failure>)
      ensures r == Draft(View(), resident, text, hint, ids, answers)
    {
      var fields := CompileReading(answers.reading, text);
      hide CompileFields, Digits;
      if fields.Err? {
        return Err(fields.error);
      }
      FieldsFit(answers.reading, text);
      var s := Compose(View(), text, fields.value, ids, Intended(hint, answers.reading.value.operation));
      if resident {
        if |slots| != |log.events| || |slots| >= MAX_RESIDENT || answers.slot.None? {
          return Err(Refused);
        }
        s := s.(operation := Assert);
      }
      if s.operation == Supersede {
        return Link(View(), s, answers.selection, hint);
      }
      r := Ok(s);
    }

    /** Store the record, then the event that cites it; cut the records back if the event is refused. */
    method SaveEvent(text: Bytes, priority: real, s: Statement, slot: Option<Slot>, keepSlot: bool)
        returns (r: Result<Receipt, Failure>)
      requires keepSlot ==> slot.Some?
      modifies this`slots, episodes, log
      ensures Written(View(), r) == Save(old(View()), keepSlot, text, priority, s, slot)
    {
      hide Episodes.Add, Apply;
      var count := |episodes.records|;
      var record := episodes.AddIndexed(text, priority);
      if record.None? {
        return Err(Refused);
      }
      var applied := log.Append(s.(record := record.value));
      if !applied {
        episodes.CutBack(count);
        return Err(Refused);
      }
      ApplyStatements(old(log.events), s.(record := record.value));
      if keepSlot {
        slots := slots + [slot.value];
      }
      assert |log.events| == |Statements(log.events)|;
      r := Ok(Receipt(|log.events| - 1, false));
    }

    method RememberText(text: Bytes, priority: real, hint: Hint, ids: Ids, answers: Answers)
        returns (r: Result<Receipt, Failure>)
      modifies this`slots, episodes, log
      ensures Written(View(), r) == Remember(old(View()), resident, text, priority, hint, ids, answers)
    {
      hide Draft, Save, Duplicate;
      if text == [] {
        return Err(Refused);
      }
      if hint == Ignore && ids.event.Absent? {
        var known := FindDuplicate(text);
        DuplicateIs(View(), resident, text, hint, ids);
        if known.Some? {
          return Ok(Receipt(known.value, true));
        }
      } else {
        DuplicateIs(View(), resident, text, hint, ids);
      }
      var s := DraftEvent(text, hint, ids, answers);
      if s.Err? {
        return Err(s.error);
      }
      r := SaveEvent(text, priority, s.value, answers.slot, resident);
    }

    method WriteEvent(q: Request, selection: Selection) returns (r: Result<Receipt, Failure>)
      requires !resident
      modifies this`slots, episodes, log
      ensures Written(View(), r) == Structured(old(View()), q, selection)
    {
      hide Save, Apply, UniqueSpan;
      ghost var before := View();
      var cited := FindCited(q);
      if cited.None? {
        return Err(Refused);
      }
      var (index, source) := cited.value;
      var spans := ResolveSpans(q, source);
      hide ResolveEvidence, Cited;
      if spans.None? {
        return Err(Refused);
      }
      var s := Retarget(View(), q.stated.(record := index, subject := spans.value.0, evidence := spans.value.1), selection);
      if s.Err? {
        return Err(s.error);
      }
      assert Resolve(before, q, selection) == s;
      hide Resolve, Retarget;
      if q.record.Some? {
        r := SaveEvent(q.record.value, 0.0, s.value, None, false);
      } else {
        var applied := log.Append(s.value);
        if !applied {
          return Err(Refused);
        }
        ApplyStatements(before.events, s.value);
        assert |log.events| == |Statements(log.events)|;
        r := Ok(Receipt(|log.events| - 1, false));
      }
    }

    method FindCited(q: Request) returns (r: Option<(nat, Bytes)>)
      ensures r == Cited(View(), q)
    {
      if q.record.None? {
        if episodes.records == [] {
          return None;
        }
        var last := |episodes.records| - 1;
        var index := if q.rawIndex.Some? then Clamp(q.rawIndex.value, last) else last;
        return Some((index, episodes.records[index].text));
      }
      var index := |episodes.records|;
      var i := 0;
      while i < |episodes.records|
        invariant i <= |episodes.records| && index == |episodes.records|
        invariant Episodes.FindFrom(episodes.records, q.record.value, i) == Episodes.IndexOf(episodes.records, q.record.value)
      {
        if episodes.records[i].text == q.record.value {
          index := i;
          break;
        }
        i := i + 1;
      }
      if q.rawIndex.Some? && Clamp(q.rawIndex.value, index) != index {
        return None;
      }
      return Some((index, q.record.value));
    }

    /** Load a snapshot beside the session's memory, check it, and only then replace the memory by it. */
    method ImportSnapshot(file: Snapshot) returns (r: Result<(), Failure>)
      modifies this`slots, episodes, log
      ensures Written(View(), r) == Import(old(View()), resident, file)
    {
      hide Episodes.Replay, Loadable, EventsFromFile, AllGrounded;
      var records := new Episodes.EpisodicStore();
      var loaded := records.Load(file.records);
      if !loaded {
        return Err(Refused);
      }
      var events := new EventStore();
      loaded := events.Load(EventsFromFile(file.events));
      if !loaded || (resident && (|file.slots| > MAX_RESIDENT || |file.slots| != |events.events|)) {
        return Err(Refused);
      }
      var sound := CheckEvidence(records.records, events.events);
      if !sound {
        return Err(Refused);
      }
      episodes.records := records.records;
      log.events := events.events;
      slots := if resident then file.slots else [];
      return Ok(());
    }

    method Reset()
      modifies this`slots, episodes, log
      ensures View() == EMPTY
    {
      episodes.Clear();
      log.Clear();
      slots := [];
    }
  }

  lemma DuplicateIs(m: Memory, resident: bool, text: Bytes, hint: Hint, ids: Ids)
    ensures Duplicate(m, resident, text, hint, ids) ==
            if hint == Ignore && ids.event.Absent? then DuplicateFrom(m, resident, text, 0) else None
  {
  }
}
