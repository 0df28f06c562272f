/** What one write leaves in the three stores, written out: which tokens each field comes from, which event is drafted, and
    what is recorded, cited and closed. */
module MemoryWrites {
  import opened Bytes
  import opened Outcomes
  import T = TypedSpans
  import S = SpanMeanings
  import Episodes
  import opened EventLog
  import opened TypedMemory

  // ---- The fields of an autonomous event

  /** The decoded tokens `tokens` stand for the bytes `s` of the text. */
  ghost predicate Reads(x: T.DecodedSource, text: Bytes, tokens: (nat, nat), mode: T.Expansion, s: Span) {
    S.Maps(x.text, x.offsets, x.floor, text, tokens, mode, (s.start, s.end))
  }

  lemma FieldSpanIff(x: T.DecodedSource, text: Bytes, tokens: (nat, nat), mode: T.Expansion, s: Span)
    requires T.Offsets(x.text, x.offsets) && T.EndsWithSource(x.text, x.floor, text)
    ensures FieldSpan(x, text, tokens, mode) == Some((s.start, s.end)) <==> Reads(x, text, tokens, mode, s)
  {
    hide T.SourceSpan;
    S.SourceSpanIff(x.text, x.offsets, x.floor, text, tokens, mode, (s.start, s.end));
  }

  ghost predicate Unread(x: T.DecodedSource, text: Bytes, tokens: (nat, nat), mode: T.Expansion) {
    forall s: Span :: !Reads(x, text, tokens, mode, s)
  }

  lemma FieldSpanNone(x: T.DecodedSource, text: Bytes, tokens: (nat, nat), mode: T.Expansion)
    requires T.Offsets(x.text, x.offsets) && T.EndsWithSource(x.text, x.floor, text)
    ensures FieldSpan(x, text, tokens, mode).None? <==> Unread(x, text, tokens, mode)
  {
    hide FieldSpan, Reads;
    var found := FieldSpan(x, text, tokens, mode);
    if found.Some? {
      FieldSpanIff(x, text, tokens, mode, Span(found.value.0, found.value.1));
    }
    forall s: Span | Reads(x, text, tokens, mode, s) ensures found.Some? {
      FieldSpanIff(x, text, tokens, mode, s);
    }
  }

  /** The entity: the word at its tokens, or at its anchor token exactly when those stand for nothing in the text. */
  ghost predicate EntityField(r: Reading, x: T.DecodedSource, text: Bytes, f: Fields) {
    || Reads(x, text, r.entity, T.Entity, f.entity)
    || (Unread(x, text, r.entity, T.Entity) && Reads(x, text, (r.anchor, r.anchor), T.Entity, f.entity))
  }

  /** The relation: the words at its own tokens, in lower case and joined by underscores. */
  ghost predicate RelationField(r: Reading, x: T.DecodedSource, text: Bytes, f: Fields, s: Span) {
    && Reads(x, text, r.relation, T.Exact, s)
    && f.relation == S.Join(S.WordsOf(text[s.start..s.end])) && f.relation != [] && T.IsLower(f.relation[0])
  }

  /** The evidence: the completed value at the value's own tokens, with an article right in front of it. */
  ghost predicate EvidenceField(r: Reading, x: T.DecodedSource, text: Bytes, f: Fields, s: Span) {
    && Reads(x, text, r.value, T.Value, s) && f.evidence.end == s.end
    && (if exists a, e :: 0 <= a < e < s.start && T.Article(text, a, e, s.start)
        then exists e :: f.evidence.start < e < s.start && T.Article(text, f.evidence.start, e, s.start)
        else f.evidence.start == s.start)
  }

  predicate Digit(b: Byte) {
    0x30 <= b <= 0x39
  }

  /** Four digits, a hyphen, two digits, a hyphen, two digits. */
  predicate Date(d: Bytes) {
    && |d| == 10 && d[4] == 0x2D && d[7] == 0x2D
    && Digit(d[0]) && Digit(d[1]) && Digit(d[2]) && Digit(d[3]) && Digit(d[5]) && Digit(d[6]) && Digit(d[8]) && Digit(d[9])
  }

  lemma DateIff(text: Bytes, start: nat, end: nat)
    requires start <= end <= |text|
    ensures IsoDate(text, start, end) <==> Date(text[start..end])
  {
    if end == start + 10 {
      var d := text[start..end];
      assert forall k :: 0 <= k < 10 ==> d[k] == text[start + k];
      if Date(d) {
        forall i | start <= i < end
          ensures if i == start + 4 || i == start + 7 then text[i] == 0x2D else T.IsDigit(text[i])
        {
          assert text[i] == d[i - start];
        }
      }
    }
  }

  /** The time: the bytes at its own tokens when they are a date, and unknown otherwise. */
  ghost predicate TimeField(r: Reading, x: T.DecodedSource, text: Bytes, f: Fields) {
    && (forall s: Span :: Reads(x, text, r.time, T.Exact, s) && Date(text[s.start..s.end]) ==> f.validTime == text[s.start..s.end])
    && ((forall s: Span :: Reads(x, text, r.time, T.Exact, s) ==> !Date(text[s.start..s.end])) ==> f.validTime == [])
  }

  ghost predicate Compiled(r: Reading, x: T.DecodedSource, text: Bytes, f: Fields) {
    && EntityField(r, x, text, f) && (exists s :: RelationField(r, x, text, f, s))
    && (exists s :: EvidenceField(r, x, text, f, s)) && TimeField(r, x, text, f)
  }

  lemma EntityIff(r: Reading, x: T.DecodedSource, text: Bytes, f: Fields)
    requires T.Offsets(x.text, x.offsets) && T.EndsWithSource(x.text, x.floor, text)
    ensures var mapped := FieldSpan(x, text, r.entity, T.Entity);
            var found := if mapped.Some? then mapped else FieldSpan(x, text, (r.anchor, r.anchor), T.Entity);
            found == Some((f.entity.start, f.entity.end)) <==> EntityField(r, x, text, f)
  {
    hide FieldSpan, Reads, Unread;
    FieldSpanNone(x, text, r.entity, T.Entity);
    FieldSpanIff(x, text, r.entity, T.Entity, f.entity);
    FieldSpanIff(x, text, (r.anchor, r.anchor), T.Entity, f.entity);
    if Reads(x, text, r.entity, T.Entity, f.entity) {
      assert FieldSpan(x, text, r.entity, T.Entity).Some?;
    }
  }

  lemma RelationIff(r: Reading, x: T.DecodedSource, text: Bytes, f: Fields)
    requires T.Offsets(x.text, x.offsets) && T.EndsWithSource(x.text, x.floor, text)
    ensures var found := FieldSpan(x, text, r.relation, T.Exact);
            (found.Some? && T.NormalizePredicate(text, found.value.0, found.value.1) == Some(f.relation)) <==>
            exists s :: RelationField(r, x, text, f, s)
  {
    hide FieldSpan, T.NormalizePredicate, Reads, S.Join, S.WordsOf;
    var found := FieldSpan(x, text, r.relation, T.Exact);
    if found.Some? {
      var s := Span(found.value.0, found.value.1);
      FieldSpanIff(x, text, r.relation, T.Exact, s);
      S.PredicateMeans(text, s.start, s.end);
      if T.NormalizePredicate(text, s.start, s.end) == Some(f.relation) {
        assert RelationField(r, x, text, f, s);
      }
    }
    forall s | RelationField(r, x, text, f, s)
      ensures found == Some((s.start, s.end)) && T.NormalizePredicate(text, s.start, s.end) == Some(f.relation)
    {
      FieldSpanIff(x, text, r.relation, T.Exact, s);
      S.PredicateMeans(text, s.start, s.end);
      ReadsInside(x, text, r.relation, T.Exact, s);
    }
  }

  lemma ReadsInside(x: T.DecodedSource, text: Bytes, tokens: (nat, nat), mode: T.Expansion, s: Span)
    requires Reads(x, text, tokens, mode, s)
    ensures s.start < s.end <= |text|
  {
  }

  lemma ArticleIff(text: Bytes, start: nat, r: nat)
    requires start <= |text|
    ensures T.ArticleStart(text, start) == r <==>
            if exists a, e :: 0 <= a < e < start && T.Article(text, a, e, start)
            then exists e :: r < e < start && T.Article(text, r, e, start)
            else r == start
  {
    T.ArticleMeans(text, start);
    hide T.ArticleStart, T.Article;
  }

  lemma EvidenceIff(r: Reading, x: T.DecodedSource, text: Bytes, f: Fields)
    requires T.Offsets(x.text, x.offsets) && T.EndsWithSource(x.text, x.floor, text)
    ensures var found := FieldSpan(x, text, r.value, T.Value);
            (found.Some? && f.evidence == Span(T.ArticleStart(text, found.value.0), found.value.1)) <==>
            exists s :: EvidenceField(r, x, text, f, s)
  {
    hide FieldSpan, T.ArticleStart, Reads, T.Article;
    var found := FieldSpan(x, text, r.value, T.Value);
    if found.Some? {
      var s := Span(found.value.0, found.value.1);
      FieldSpanIff(x, text, r.value, T.Value, s);
      ArticleIff(text, s.start, f.evidence.start);
      if f.evidence == Span(T.ArticleStart(text, s.start), s.end) {
        assert EvidenceField(r, x, text, f, s);
      }
    }
    forall s | EvidenceField(r, x, text, f, s)
      ensures found == Some((s.start, s.end)) && f.evidence == Span(T.ArticleStart(text, s.start), s.end)
    {
      FieldSpanIff(x, text, r.value, T.Value, s);
      ReadsInside(x, text, r.value, T.Value, s);
      ArticleIff(text, s.start, f.evidence.start);
    }
  }

  lemma TimeIff(r: Reading, x: T.DecodedSource, text: Bytes, f: Fields)
    requires T.Offsets(x.text, x.offsets) && T.EndsWithSource(x.text, x.floor, text)
    ensures var time := FieldSpan(x, text, r.time, T.Exact);
            var read := if time.Some? && IsoDate(text, time.value.0, time.value.1) then text[time.value.0..time.value.1] else [];
            f.validTime == read <==> TimeField(r, x, text, f)
  {
    hide FieldSpan, Reads, IsoDate, Date;
    var time := FieldSpan(x, text, r.time, T.Exact);
    if time.Some? {
      FieldSpanIff(x, text, r.time, T.Exact, Span(time.value.0, time.value.1));
      DateIff(text, time.value.0, time.value.1);
    }
    forall s: Span | Reads(x, text, r.time, T.Exact, s) ensures time == Some((s.start, s.end)) {
      FieldSpanIff(x, text, r.time, T.Exact, s);
    }
  }

  /** The fields are compiled exactly when the source is found in the decoded tokens and entity, relation and value can be
      read there; and then each comes from its own tokens. */
  lemma CompileFieldsIff(reading: Option<Reading>, text: Bytes, f: Fields)
    ensures CompileFields(reading, text) == Ok(f) <==>
            && reading.Some? && T.DecodedOf(reading.value.pieces, text).Some?
            && Compiled(reading.value, T.DecodedOf(reading.value.pieces, text).value, text, f)
  {
    hide T.DecodedOf, FieldSpan, T.NormalizePredicate, T.ArticleStart, IsoDate, EntityField, RelationField, EvidenceField, TimeField;
    if reading.Some? && T.DecodedOf(reading.value.pieces, text).Some? {
      var r, x := reading.value, T.DecodedOf(reading.value.pieces, text).value;
      T.DecodedMeans(r.pieces, text);
      hide T.EndsWithSource;
      EntityIff(r, x, text, f);
      RelationIff(r, x, text, f);
      EvidenceIff(r, x, text, f);
      TimeIff(r, x, text, f);
    }
  }

  // ---- The event that is drafted

  /** What a decimal numeral stands for. */
  function Number(d: Bytes): int {
    if d == [] then 0 else
      var last: int := d[|d| - 1];
      Number(d[..|d| - 1]) * 10 + (last - 0x30)
  }

  /** Numbers in names are written in decimal, without leading zeros. */
  lemma {:induction false} DigitsMean(n: nat)
    ensures var d := Digits(n);
            Number(d) == n && d != [] && (forall i :: 0 <= i < |d| ==> 0x30 <= d[i] <= 0x39) && (d[0] == 0x30 ==> n == 0)
    decreases n
  {
    var d := Digits(n);
    if n >= 10 {
      DigitsMean(n / 10);
      assert d[..|d| - 1] == Digits(n / 10) && d[|d| - 1] == 0x30 + n % 10;
      assert n == n / 10 * 10 + n % 10;
    } else {
      assert d[..|d| - 1] == [];
    }
  }

  /** What the caller called an event, an episode or a source, or else a name with the number of what is stored so far. */
  predicate Called(given: Given, name: Bytes, prefix: Bytes, count: nat) {
    if given.Present? && given.text != [] then name == given.text else name == prefix + Digits(count)
  }

  /** A new statement with these fields: a positive actual property, said now, about nothing stored before. */
  predicate FirstObservation(m: Memory, text: Bytes, f: Fields, ids: Ids, s: Statement) {
    && Called(ids.event, s.id, [0x61, 0x75, 0x74, 0x6F, 0x2D, 0x65, 0x76, 0x65, 0x6E, 0x74, 0x2D], |m.events|)
    && Called(ids.episode, s.episode, [0x61, 0x75, 0x74, 0x6F, 0x2D, 0x65, 0x70, 0x69, 0x73, 0x6F, 0x64, 0x65, 0x2D], |m.records|)
    && Called(ids.source, s.source, [0x61, 0x75, 0x74, 0x6F, 0x2D, 0x73, 0x6F, 0x75, 0x72, 0x63, 0x65, 0x2D], |m.records|)
    && s.subject == f.entity && f.entity.start <= f.entity.end <= |text| && s.entity == text[f.entity.start..f.entity.end]
    && s.evidence == f.evidence && f.evidence.start <= f.evidence.end <= |text|
    && s.value == text[f.evidence.start..f.evidence.end]
    && s.relation == f.relation && s.validTime == f.validTime && s.target == []
    && s.operation == Assert && s.kind == Property && s.polarity == Positive && s.modality == Actual && s.record == 0
  }

  /** The same as a change of event `i`: it closes that one, and is about its entity and relation. */
  predicate ChangeOf(m: Memory, first: Statement, i: nat, s: Statement) {
    && i < |m.events|
    && s == first.(operation := Supersede, target := m.events[i].stated.id,
                   entity := m.events[i].stated.entity, relation := m.events[i].stated.relation)
  }

  /** The caller asks for an update, or neither asks for a store nor is told one by the writer. */
  predicate WantsChange(hint: Hint, predicted: int) {
    hint == Update || (hint != Store && predicted != 0)
  }

  /** Resident memory keeps every version as a first observation, in a free slot. Elsewhere a change replaces the event
      selected for it; when none is, it is a first observation too, unless the caller insisted. */
  predicate Drafted(m: Memory, resident: bool, hint: Hint, answers: Answers, first: Statement, s: Statement)
    requires answers.reading.Some?
  {
    if resident then s == first && answers.slot.Some? && |m.slots| == |m.events| && |m.slots| < 32
    else if WantsChange(hint, answers.reading.value.operation) then
      || (answers.selection.Selected? && ChangeOf(m, first, answers.selection.index, s))
      || (answers.selection.NoneSelected? && hint != Update && s == first)
    else s == first
  }

  /** A draft exists exactly when the fields can be compiled and the event, new or changing another, can be placed; and it
      is that event. */
  lemma DraftIff(m: Memory, resident: bool, text: Bytes, hint: Hint, ids: Ids, answers: Answers, s: Statement)
    ensures Draft(m, resident, text, hint, ids, answers) == Ok(s) <==>
            && answers.reading.Some? && T.DecodedOf(answers.reading.value.pieces, text).Some?
            && exists f, first ::
                 && Compiled(answers.reading.value, T.DecodedOf(answers.reading.value.pieces, text).value, text, f)
                 && FirstObservation(m, text, f, ids, first) && Drafted(m, resident, hint, answers, first, s)
  {
    hide CompileFields, Compiled, T.DecodedOf, Digits;
    var compiled := CompileFields(answers.reading, text);
    if compiled.Ok? {
      var f := compiled.value;
      FieldsFit(answers.reading, text);
      CompileFieldsIff(answers.reading, text, f);
      var first := Compose(m, text, f, ids, Assert);
      ComposeIsFirst(m, text, f, ids);
      DraftCases(m, resident, text, hint, ids, answers, first, s);
    }
    forall f, first |
      && answers.reading.Some? && T.DecodedOf(answers.reading.value.pieces, text).Some?
      && Compiled(answers.reading.value, T.DecodedOf(answers.reading.value.pieces, text).value, text, f)
      && FirstObservation(m, text, f, ids, first)
      ensures compiled == Ok(f) && first == Compose(m, text, f, ids, Assert)
    {
      CompileFieldsIff(answers.reading, text, f);
    }
  }

  lemma ComposeIsFirst(m: Memory, text: Bytes, f: Fields, ids: Ids)
    requires f.entity.start <= f.entity.end <= |text| && f.evidence.start <= f.evidence.end <= |text|
    ensures FirstObservation(m, text, f, ids, Compose(m, text, f, ids, Assert))
  {
    hide Digits;
  }

  lemma DraftCases(m: Memory, resident: bool, text: Bytes, hint: Hint, ids: Ids, answers: Answers, first: Statement, s: Statement)
    requires CompileFields(answers.reading, text).Ok? && answers.reading.Some?
    requires var f := CompileFields(answers.reading, text).value;
             && f.entity.start <= f.entity.end <= |text| && f.evidence.start <= f.evidence.end <= |text|
             && first == Compose(m, text, f, ids, Assert)
    ensures Draft(m, resident, text, hint, ids, answers) == Ok(s) <==> Drafted(m, resident, hint, answers, first, s)
  {
    hide CompileFields, Digits;
  }

  // ---- What the stores do

  /** A text is recorded as number `i`: where it already stands, with the higher of both priorities, or behind the others. */
  predicate Recorded(records: seq<Episodes.Record>, text: Bytes, priority: real, more: seq<Episodes.Record>, i: nat) {
    && text != [] && 0.0 <= priority <= 1.0
    && if i < |records| then
         && records[i].text == text
         && more == records[i := Episodes.Record(text, if records[i].priority < priority then priority else records[i].priority)]
       else
         && i == |records| < 4096 && |text| <= 65536 && (forall k :: 0 <= k < |records| ==> records[k].text != text)
         && more == records + [Episodes.Record(text, priority)]
  }

  lemma AddIff(records: seq<Episodes.Record>, text: Bytes, priority: real, more: seq<Episodes.Record>, i: nat)
    requires Episodes.Sound(records)
    ensures Episodes.Add(records, text, priority) == Some((more, i)) <==> Recorded(records, text, priority, more, i)
  {
    hide Episodes.FindFrom;
    assert forall k :: 0 <= k < |records| ==> records[k := records[k]] == records;
    var known := Episodes.IndexOf(records, text);
    if known.Some? && i < |records| && records[i].text == text {
      assert known.value == i;
    }
  }

  predicate Name(p: Bytes) {
    && 0 < |p| <= 64 && 0x61 <= p[0] <= 0x7A
    && forall i :: 0 <= i < |p| ==> 0x61 <= p[i] <= 0x7A || 0x30 <= p[i] <= 0x39 || p[i] == 0x5F
  }

  predicate Text(s: Bytes) {
    0 < |s| <= 65536
  }

  /** Both spans are known, not empty and end within 32 bits; or neither is known and what is stored of them is unset. */
  predicate Placed(subject: Span, evidence: Span) {
    || (subject.start < subject.end <= 0xFFFF_FFFF && evidence.start < evidence.end <= 0xFFFF_FFFF)
    || (Unset(subject) && Unset(evidence))
  }

  /** At least one end unknown, which is the greatest 64-bit number, and the other unknown or zero. */
  predicate Unset(s: Span) {
    && (s.start == 0xFFFF_FFFF_FFFF_FFFF || s.start == 0) && (s.end == 0xFFFF_FFFF_FFFF_FFFF || s.end == 0)
    && (s.start != 0 || s.end != 0)
  }

  lemma PlacedIff(s: Statement)
    ensures ValidSpans(s) <==> Placed(s.subject, s.evidence)
  {
  }

  /** Event `i` is current and about the same fact, so that `s` may close it; only a property can be superseded. */
  predicate Closable(log: seq<Event>, i: nat, s: Statement) {
    && i < |log| && log[i].stated.id == s.target && log[i].active
    && log[i].stated.entity == s.entity && log[i].stated.relation == s.relation && log[i].stated.kind == s.kind
    && (s.operation == Supersede ==> s.kind == Property)
  }

  /** An event is appended exactly when its strings, its predicate and its spans are well formed, its name is new, there is
      room, and it closes nothing or a current event on the same fact. */
  lemma AppendIff(log: seq<Event>, s: Statement)
    requires Loadable(log)
    ensures Apply(log, s).Some? <==>
            && Name(s.relation) && Text(s.id) && Text(s.episode) && Text(s.source) && Text(s.entity) && Text(s.value)
            && |s.validTime| <= 65536 && |s.target| <= 65536 && Placed(s.subject, s.evidence)
            && |log| < 8192 && (forall i :: 0 <= i < |log| ==> log[i].stated.id != s.id)
            && (s.operation != Assert ==> s.target != [] && exists i: nat :: Closable(log, i, s))
  {
    NamesAreDistinct(log);
    PlacedIff(s);
    hide Loadable, ValidSpans, Placed, IndexFrom;
    var t := IndexOf(log, s.target);
    if i: nat :| Closable(log, i, s) {
      assert t == Some(i);
    }
    if t.Some? && log[t.value].active && SameFact(log[t.value].stated, s) {
      assert Closable(log, t.value, s);
    }
    assert Name(s.relation) <==> ValidRelation(s.relation) by {
      NameIff(s.relation);
    }
  }

  lemma NameIff(p: Bytes)
    ensures Name(p) <==> ValidRelation(p)
  {
  }

  lemma NamesAreDistinct(log: seq<Event>)
    requires Loadable(log)
    ensures forall i, j :: 0 <= i < j < |log| ==> log[i].stated.id != log[j].stated.id
  {
    hide Loadable, Follows;
    LoadableMeans(log);
    var all := Statements(log);
    forall i, j | 0 <= i < j < |log| ensures log[i].stated.id != log[j].stated.id {
      FollowsNew(all, i, j);
    }
  }

  lemma FollowsNew(all: seq<Statement>, i: nat, j: nat)
    requires Chained(all) && i < j < |all|
    ensures all[i].id != all[j].id
  {
    assert Follows(all, j);
  }

  /** What an event and its record leave behind. */
  ghost predicate Appended(m: Memory, text: Bytes, priority: real, s: Statement, next: Memory, i: nat) {
    && Recorded(m.records, text, priority, next.records, i)
    && |next.events| == |m.events| + 1
    && next.events[|m.events|] == Event(s.(record := i), s.operation != Retract)
    && (s.operation == Assert ==> next.events[..|m.events|] == m.events)
    && (s.operation != Assert ==>
          exists t: nat :: Closable(m.events, t, s) && next.events[..|m.events|] == m.events[t := m.events[t].(active := false)])
  }

  /** A write succeeds exactly when its text can be recorded and its event appended, citing that record. Then the event is
      the last one, in resident memory the slot with its number is its own, and nothing else changed. */
  lemma SaveMeans(m: Memory, resident: bool, text: Bytes, priority: real, s: Statement, slot: Option<Slot>)
    requires Inv(m, resident) && (resident ==> slot.Some?)
    ensures var w := Save(m, resident, text, priority, s, slot);
            && (w.outcome.Ok? <==>
                exists i: nat, more :: Recorded(m.records, text, priority, more, i) && Apply(m.events, s.(record := i)).Some?)
            && (w.outcome.Ok? ==>
                  && w.outcome.value == Receipt(|m.events|, false) && (exists i: nat :: Appended(m, text, priority, s, w.memory, i))
                  && (if resident then
                        && w.memory.slots == m.slots + [slot.value] && |m.slots| == |m.events|
                        && w.memory.slots[|m.events|] == slot.value
                      else w.memory.slots == m.slots))
  {
    hide Loadable, AllGrounded, Acceptable, Episodes.Sound, Apply, Episodes.Add, Recorded, Closable;
    var added := Episodes.Add(m.records, text, priority);
    if added.Some? {
      AddIff(m.records, text, priority, added.value.0, added.value.1);
      if Apply(m.events, s.(record := added.value.1)).Some? {
        AppliedAppends(m, s.(record := added.value.1));
        var w := Save(m, resident, text, priority, s, slot);
        ClosableIgnoresRecord(m.events, s, added.value.1);
        assert Appended(m, text, priority, s, w.memory, added.value.1);
      }
    }
    forall i: nat, more | Recorded(m.records, text, priority, more, i) ensures added == Some((more, i)) {
      AddIff(m.records, text, priority, more, i);
    }
  }

  lemma ClosableIgnoresRecord(log: seq<Event>, s: Statement, r: nat)
    ensures forall t: nat :: Closable(log, t, s.(record := r)) <==> Closable(log, t, s)
  {
  }

  lemma AppliedAppends(m: Memory, s: Statement)
    requires Apply(m.events, s).Some?
    ensures var events := Apply(m.events, s).value;
            && |events| == |m.events| + 1 && events[|m.events|] == Event(s, s.operation != Retract)
            && (s.operation == Assert ==> events[..|m.events|] == m.events)
            && (s.operation != Assert ==>
                  exists t: nat :: Closable(m.events, t, s) && events[..|m.events|] == m.events[t := m.events[t].(active := false)])
  {
    hide Storable;
    ApplyCloses(m.events, s);
    if s.operation != Assert {
      var t := IndexOf(m.events, s.target).value;
      assert Closable(m.events, t, s);
    }
  }

  // ---- Autonomous writes

  /** Event `i` is current and its record is this text. */
  predicate Says(m: Memory, i: nat, text: Bytes) {
    && i < |m.events| && m.events[i].active && m.events[i].stated.record < |m.records|
    && m.records[m.events[i].stated.record].text == text
  }

  /** The write repeats event `i`: a plain observation, without an identifier of the caller's own, that a current event
      says already; the first such event, or in resident memory only the very last. */
  predicate Repeats(m: Memory, resident: bool, text: Bytes, hint: Hint, ids: Ids, i: nat) {
    && hint == Ignore && ids.event.Absent? && Says(m, i, text)
    && if resident then i + 1 == |m.events| else forall k :: 0 <= k < i ==> !Says(m, k, text)
  }

  lemma DuplicateIff(m: Memory, resident: bool, text: Bytes, hint: Hint, ids: Ids, i: nat)
    ensures Duplicate(m, resident, text, hint, ids) == Some(i) <==> Repeats(m, resident, text, hint, ids, i)
  {
    if hint == Ignore && ids.event.Absent? {
      FirstSays(m, resident, text, 0, i);
    }
  }

  lemma {:induction false} FirstSays(m: Memory, resident: bool, text: Bytes, from: nat, i: nat)
    requires from <= |m.events|
    ensures DuplicateFrom(m, resident, text, from) == Some(i) <==>
            && from <= i && Says(m, i, text)
            && if resident then i + 1 == |m.events| else forall k :: from <= k < i ==> !Says(m, k, text)
    decreases |m.events| - from
  {
    if from < |m.events| {
      assert Says(m, from, text) <==> Holds(m, m.events[from], text);
      FirstSays(m, resident, text, from + 1, i);
    }
  }

  /** An autonomous write of a text: a repetition changes nothing and names the event that says it; otherwise it succeeds
      exactly when an event can be drafted, its text recorded and the event appended, and leaves just that behind. */
  lemma RememberMeans(m: Memory, resident: bool, text: Bytes, priority: real, hint: Hint, ids: Ids, answers: Answers)
    requires Inv(m, resident)
    ensures var w := Remember(m, resident, text, priority, hint, ids, answers);
            && (text == [] ==> w.memory == m && w.outcome.Err?)
            && (forall i :: text != [] && Repeats(m, resident, text, hint, ids, i) ==> w == Written(m, Ok(Receipt(i, true))))
            && (text != [] && (forall i: nat :: !Repeats(m, resident, text, hint, ids, i)) ==>
                  && (w.outcome.Ok? <==>
                      exists s, i: nat, more ::
                        && Draft(m, resident, text, hint, ids, answers) == Ok(s)
                        && Recorded(m.records, text, priority, more, i) && Apply(m.events, s.(record := i)).Some?)
                  && (w.outcome.Ok? ==>
                        && w.outcome.value == Receipt(|m.events|, false)
                        && (exists s, i: nat ::
                              Draft(m, resident, text, hint, ids, answers) == Ok(s) && Appended(m, text, priority, s, w.memory, i))
                        && w.memory.slots == if resident then m.slots + [answers.slot.value] else m.slots))
  {
    hide Draft, Duplicate, Inv, Save, Repeats, Appended, Recorded, Apply;
    var known := Duplicate(m, resident, text, hint, ids);
    if known.Some? {
      DuplicateIff(m, resident, text, hint, ids, known.value);
    }
    forall i: nat | Repeats(m, resident, text, hint, ids, i) ensures known == Some(i) {
      DuplicateIff(m, resident, text, hint, ids, i);
    }
    var draft := Draft(m, resident, text, hint, ids, answers);
    if draft.Ok? {
      SaveMeans(m, resident, text, priority, draft.value, answers.slot);
    }
  }

  // ---- Structured events

  /** The record a structured event cites: its own text, where it stands or will stand, or a stored one. A number given for
      it is taken into range, and must not fall short of the place of its own text. */
  predicate Cites(m: Memory, q: Request, i: nat, text: Bytes) {
    if q.record.Some? then
      && text == q.record.value
      && (if i < |m.records| then m.records[i].text == text
          else i == |m.records| && forall k :: 0 <= k < |m.records| ==> m.records[k].text != text)
      && (q.rawIndex.Some? ==> q.rawIndex.value >= i || i == 0)
    else
      && i < |m.records| && text == m.records[i].text
      && if q.rawIndex.None? || q.rawIndex.value >= |m.records| then i == |m.records| - 1
         else if q.rawIndex.value < 0 then i == 0 else i == q.rawIndex.value
  }

  lemma CitedIff(m: Memory, q: Request, i: nat, text: Bytes)
    requires Episodes.Sound(m.records)
    ensures Cited(m, q) == Some((i, text)) <==> Cites(m, q, i, text)
  {
    if q.record.Some? {
      var known := Episodes.IndexOf(m.records, q.record.value);
      if i < |m.records| && m.records[i].text == q.record.value {
        assert known == Some(i);
      }
    }
  }

  /** The target a structured event gets: none is looked for when it asserts, names its own, or no selection is available;
      otherwise it is the selected event. */
  predicate Targeted(m: Memory, s: Statement, selection: Selection, target: Bytes) {
    if s.operation == Assert || s.target != [] || selection.Unavailable? then target == s.target
    else selection.Selected? && selection.index < |m.events| && target == m.events[selection.index].stated.id
  }

  /** The places of subject and value: the given ones, within 32 bits, or the only occurrences; the text must stand there. */
  ghost predicate Evidenced(q: Request, source: Bytes, subject: Span, evidence: Span) {
    && !q.spans.BadSpans?
    && subject.start < subject.end <= |source| && source[subject.start..subject.end] == q.SubjectText()
    && evidence.start < evidence.end <= |source| && source[evidence.start..evidence.end] == q.ValueText()
    && (q.spans.Spans? ==>
          && subject == q.spans.subject && evidence == q.spans.evidence
          && subject.end <= MAX_SPAN && evidence.end <= MAX_SPAN)
    && (q.spans.NoSpans? ==> OnlyAt(source, q.SubjectText(), subject.start) && OnlyAt(source, q.ValueText(), evidence.start))
  }

  lemma EvidenceSpansIff(q: Request, source: Bytes, subject: Span, evidence: Span)
    ensures ResolveEvidence(q, source) == Some((subject, evidence)) <==> Evidenced(q, source, subject, evidence)
  {
    UniqueSpanMeans(source, q.SubjectText());
    UniqueSpanMeans(source, q.ValueText());
    hide UniqueSpan, OnlyAt;
    OnlyOnce(source, q.SubjectText());
    OnlyOnce(source, q.ValueText());
  }

  lemma OnlyOnce(source: Bytes, text: Bytes)
    ensures forall i, j :: OnlyAt(source, text, i) && OnlyAt(source, text, j) ==> i == j
    ensures forall i :: OnlyAt(source, text, i) ==> 0 <= i && i + |text| <= |source| && source[i..i + |text|] == text
  {
  }

  /** The event a structured request stands for. */
  ghost predicate Resolved(m: Memory, q: Request, selection: Selection, source: Bytes, s: Statement) {
    && Cites(m, q, s.record, source) && Evidenced(q, source, s.subject, s.evidence)
    && Targeted(m, q.stated, selection, s.target)
    && s == q.stated.(record := s.record, subject := s.subject, evidence := s.evidence, target := s.target)
  }

  lemma ResolveIff(m: Memory, q: Request, selection: Selection, s: Statement)
    requires Episodes.Sound(m.records)
    ensures Resolve(m, q, selection) == Ok(s) <==> exists source :: Resolved(m, q, selection, source, s)
  {
    hide Cited, ResolveEvidence, Cites, Evidenced, Episodes.Sound;
    var cited := Cited(m, q);
    if cited.Some? {
      CitedIff(m, q, cited.value.0, cited.value.1);
      var spans := ResolveEvidence(q, cited.value.1);
      if spans.Some? {
        EvidenceSpansIff(q, cited.value.1, spans.value.0, spans.value.1);
        if Resolve(m, q, selection) == Ok(s) {
          assert Resolved(m, q, selection, cited.value.1, s);
        }
      }
    }
    forall source | Resolved(m, q, selection, source, s) ensures Resolve(m, q, selection) == Ok(s) {
      CitedIff(m, q, s.record, source);
      EvidenceSpansIff(q, source, s.subject, s.evidence);
    }
  }

  /** A structured event is stored exactly when it can be resolved and appended, and its own text, if it brings one, recorded;
      its record is the one it cites. */
  lemma StructuredMeans(m: Memory, q: Request, selection: Selection)
    requires Inv(m, false)
    ensures var w := Structured(m, q, selection);
            && (w.outcome.Ok? ==> w.outcome.value == Receipt(|m.events|, false) && w.memory.slots == m.slots)
            && (q.record.None? ==>
                  && (w.outcome.Ok? <==> exists s, source :: Resolved(m, q, selection, source, s) && Apply(m.events, s).Some?)
                  && (w.outcome.Ok? ==>
                        && w.memory.records == m.records
                        && exists s, source :: Resolved(m, q, selection, source, s) && Apply(m.events, s) == Some(w.memory.events)))
            && (q.record.Some? ==>
                  && (w.outcome.Ok? <==>
                      exists s, source, i: nat, more ::
                        && Resolved(m, q, selection, source, s) && Recorded(m.records, q.record.value, 0.0, more, i)
                        && Apply(m.events, s.(record := i)).Some?)
                  && (w.outcome.Ok? ==>
                        exists s, source :: Resolved(m, q, selection, source, s)
                                            && Appended(m, q.record.value, 0.0, s, w.memory, s.record)))
  {
    hide Resolve, Resolved, Loadable, AllGrounded, Apply, Recorded, Appended, Save, Episodes.Sound;
    var resolved := Resolve(m, q, selection);
    if resolved.Ok? {
      var s := resolved.value;
      ResolveIff(m, q, selection, s);
      if q.record.Some? {
        SaveMeans(m, false, q.record.value, 0.0, s, None);
        CitesRecorded(m, q, selection, s);
        var w := Save(m, false, q.record.value, 0.0, s, None);
        forall i: nat | Appended(m, q.record.value, 0.0, s, w.memory, i) ensures i == s.record {
          AppendedRecorded(m, q.record.value, 0.0, s, w.memory, i);
        }
      }
    }
    forall s, source | Resolved(m, q, selection, source, s) ensures resolved == Ok(s) {
      ResolveIff(m, q, selection, s);
    }
  }

  lemma AppendedRecorded(m: Memory, text: Bytes, priority: real, s: Statement, next: Memory, i: nat)
    requires Appended(m, text, priority, s, next, i)
    ensures Recorded(m.records, text, priority, next.records, i)
  {
  }

  /** The record that is cited is the one that recording the text gives. */
  lemma CitesRecorded(m: Memory, q: Request, selection: Selection, s: Statement)
    requires Episodes.Sound(m.records) && q.record.Some? && exists source :: Resolved(m, q, selection, source, s)
    ensures forall more, i: nat :: Recorded(m.records, q.record.value, 0.0, more, i) ==> i == s.record
  {
  }

  // ---- Reading back

  /** An event answers with its value exactly when its record has that value, not empty, at its span. */
  lemma ExtractIff(m: Memory, i: nat, answer: Bytes)
    requires i < |m.events|
    ensures var s := m.events[i].stated;
            Extract(m, i) == Some(answer) <==>
            && s.record < |m.records| && answer == s.value && answer != []
            && s.evidence.start < s.evidence.end == s.evidence.start + |answer|
            && OccursAt(m.records[s.record].text, answer, s.evidence.start)
  {
  }
}
