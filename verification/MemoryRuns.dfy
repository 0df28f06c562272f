/** Typed memory over whole runs: what every sequence of requests keeps, and what a run of writes leaves behind. */
module MemoryRuns {
  import opened Bytes
  import opened Outcomes
  import T = TypedSpans
  import Episodes
  import opened EventLog
  import opened TypedMemory

  // ---- Snapshots lose nothing

  lemma SpanSurvives(s: Span)
    requires s.start == SPAN_UNKNOWN || s.start < MAX_SPAN
    requires s.end == SPAN_UNKNOWN || s.end < MAX_SPAN
    ensures SpanFromFile(SpanToFile(s)) == s
  {
  }

  lemma SmallSpans(m: Memory, resident: bool, i: nat)
    requires Inv(m, resident) && i < |m.events|
    ensures var s := m.events[i].stated;
            && s.record < Episodes.MAX_RECORDS && ValidSpans(s)
            && SpanFromFile(SpanToFile(s.subject)) == s.subject && SpanFromFile(SpanToFile(s.evidence)) == s.evidence
  {
    hide Loadable;
    var s := m.events[i].stated;
    assert Grounded(m.records, s);
    assert |m.records[s.record].text| <= Episodes.MAX_RECORD_BYTES;
    LoadableMeans(m.events);
    assert Follows(Statements(m.events), i);
    SpanSurvives(s.subject);
    SpanSurvives(s.evidence);
  }

  lemma EventsSurvive(m: Memory, resident: bool)
    requires Inv(m, resident)
    ensures EventsFromFile(EventsToFile(m.events)) == m.events
  {
    hide Inv;
    forall i | 0 <= i < |m.events| ensures EventsFromFile(EventsToFile(m.events))[i] == m.events[i] {
      SmallSpans(m, resident, i);
    }
  }

  /** Any memory the server can reach is exported, and importing the export, into any session, gives it back whole. */
  lemma SnapshotRoundTrip(m: Memory, other: Memory, resident: bool)
    requires Inv(m, resident)
    ensures Export(m, resident).Some?
    ensures Import(other, resident, Export(m, resident).value) == Written(m, Ok(()))
  {
    hide Loadable, AllGrounded;
    forall i | 0 <= i < |m.events| ensures m.events[i].stated.record <= MAX_SPAN && ValidSpans(m.events[i].stated) {
      SmallSpans(m, resident, i);
    }
    EventsSurvive(m, resident);
    Episodes.ReplayIsExact(m.records);
    assert |m.events| <= MAX_EVENTS by {
      LoadableMeans(m.events);
      if m.events != [] {
        assert Follows(Statements(m.events), |m.events| - 1);
      }
    }
  }

  // ---- Runs of requests

  datatype Call =
    | Autonomous(text: Bytes, priority: real, hint: Hint, ids: Ids, answers: Answers)
    | Event(request: Request, selection: Selection)
    | Restore(file: Snapshot)
    | Reset

  /** Resident memory refuses the structured requests. */
  function Serve(m: Memory, resident: bool, c: Call): Memory {
    match c
    case Autonomous(text, priority, hint, ids, answers) => Remember(m, resident, text, priority, hint, ids, answers).memory
    case Event(q, selection) => if resident then m else Structured(m, q, selection).memory
    case Restore(file) => Import(m, resident, file).memory
    case Reset => EMPTY
  }

  function ServeAll(m: Memory, resident: bool, calls: seq<Call>): Memory {
    if calls == [] then m else Serve(ServeAll(m, resident, calls[..|calls| - 1]), resident, calls[|calls| - 1])
  }

  /** A structured event points at the value it states; leaving `value_text` out always does. */
  predicate Honest(c: Call) {
    c.Event? ==> c.request.ValueText() == c.request.stated.value
  }

  /** Whatever is asked of the server, in whatever order, every event keeps byte-exact evidence and every store the
      form that a snapshot can hold; in resident memory each event has its slot. */
  lemma {:induction false} ReachableInv(m: Memory, resident: bool, calls: seq<Call>)
    requires Inv(m, resident) && forall i :: 0 <= i < |calls| ==> Honest(calls[i])
    ensures Inv(ServeAll(m, resident, calls), resident)
    decreases |calls|
  {
    if calls != [] {
      hide Inv, Remember, Structured, Import;
      var before, c := ServeAll(m, resident, calls[..|calls| - 1]), calls[|calls| - 1];
      ReachableInv(m, resident, calls[..|calls| - 1]);
      match c
      case Autonomous(text, priority, hint, ids, answers) =>
        RememberKeepsInv(before, resident, text, priority, hint, ids, answers);
      case Event(q, selection) =>
        if !resident {
          StructuredKeepsInv(before, q, selection);
        }
      case Restore(file) => ImportKeepsInv(before, resident, file);
      case Reset => EmptyInv(resident);
    }
  }

  lemma InvGrounded(m: Memory, resident: bool, i: nat)
    requires Inv(m, resident) && i < |m.events|
    ensures Grounded(m.records, m.events[i].stated)
  {
  }

  /** So the value of any event of any run is read back from its record, unless its span is unknown. */
  lemma ReachableValues(resident: bool, calls: seq<Call>, i: nat)
    requires forall k :: 0 <= k < |calls| ==> Honest(calls[k])
    requires i < |ServeAll(EMPTY, resident, calls).events|
    ensures var m := ServeAll(EMPTY, resident, calls);
            var s := m.events[i].stated;
            && s.record < |m.records|
            && (s.evidence.Known() ==> Extract(m, i) == Some(s.value)
                                       && OccursAt(m.records[s.record].text, s.value, s.evidence.start))
            && (!s.evidence.Known() ==> Extract(m, i).None?)
  {
    hide ServeAll, Inv, Extract;
    var m := ServeAll(EMPTY, resident, calls);
    EmptyInv(resident);
    ReachableInv(EMPTY, resident, calls);
    ExtractMeans(m, resident, i);
    InvGrounded(m, resident, i);
  }

  predicate AllKnown(events: seq<EventLog.Event>) {
    forall i :: 0 <= i < |events| ==> events[i].stated.evidence.Known()
  }

  lemma {:induction false} AppendKnown(events: seq<EventLog.Event>, s: Statement)
    requires AllKnown(events) && s.evidence.Known()
    ensures Apply(events, s).Some? ==> AllKnown(Apply(events, s).value)
  {
    if Apply(events, s).Some? {
      hide Apply;
      ApplyStatements(events, s);
      var longer := Apply(events, s).value;
      forall i | 0 <= i < |longer| ensures longer[i].stated.evidence.Known() {
        assert Statements(longer)[i] == (Statements(events) + [s])[i];
      }
    }
  }

  /** A span inside a text that a record can hold is never long enough to look unknown. */
  lemma SaveKnown(m: Memory, resident: bool, text: Bytes, priority: real, s: Statement, slot: Option<Slot>)
    requires Inv(m, resident) && (resident ==> slot.Some?) && AllKnown(m.events)
    requires s.evidence.start < s.evidence.end <= |text|
    ensures AllKnown(Save(m, resident, text, priority, s, slot).memory.events)
  {
    var added := Episodes.Add(m.records, text, priority);
    if added.Some? {
      Episodes.AddIsSound(m.records, text, priority);
      hide Apply, AllKnown, Episodes.Add, Loadable, AllGrounded;
      assert |text| <= Episodes.MAX_RECORD_BYTES;
      AppendKnown(m.events, s.(record := added.value.1));
    }
  }

  /** Only an import can bring in an event whose evidence is unknown. */
  lemma ServeKnown(m: Memory, resident: bool, c: Call)
    requires Inv(m, resident) && AllKnown(m.events) && !c.Restore?
    ensures AllKnown(Serve(m, resident, c).events)
  {
    hide Inv, AllKnown, Draft, Resolve, Duplicate;
    match c
    case Autonomous(text, priority, hint, ids, answers) =>
      if text != [] && Draft(m, resident, text, hint, ids, answers).Ok? {
        DraftFits(m, resident, text, hint, ids, answers);
        var s := Draft(m, resident, text, hint, ids, answers).value;
        SaveKnown(m, resident, text, priority, s, answers.slot);
      }
    case Event(q, selection) =>
      if !resident && Resolve(m, q, selection).Ok? {
        StructuredKnown(m, q, selection);
      }
    case Reset =>
      NoneUnknown();
  }

  lemma NoneUnknown()
    ensures AllKnown(EMPTY.events)
  {
  }

  lemma StructuredKnown(m: Memory, q: Request, selection: Selection)
    requires Inv(m, false) && AllKnown(m.events) && Resolve(m, q, selection).Ok?
    ensures AllKnown(Structured(m, q, selection).memory.events)
  {
    var s := Resolve(m, q, selection).value;
    var (index, source) := Cited(m, q).value;
    assert s.evidence.start < s.evidence.end <= |source| by {
      hide UniqueSpan, Cited;
    }
    if q.record.Some? {
      hide Inv, AllKnown, Resolve, Cited;
      SaveKnown(m, false, q.record.value, 0.0, s, None);
    } else {
      assert |m.records[index].text| <= Episodes.MAX_RECORD_BYTES;
      hide Resolve, Cited, Apply, AllKnown;
      AppendKnown(m.events, s);
    }
  }

  lemma {:induction false} RunKnown(resident: bool, calls: seq<Call>)
    requires forall k :: 0 <= k < |calls| ==> Honest(calls[k]) && !calls[k].Restore?
    ensures AllKnown(ServeAll(EMPTY, resident, calls).events)
    decreases |calls|
  {
    EmptyInv(resident);
    hide Inv, AllKnown, Serve;
    if calls == [] {
      NoneUnknown();
    } else {
      var n := |calls| - 1;
      RunKnown(resident, calls[..n]);
      ReachableInv(EMPTY, resident, calls[..n]);
      ServeKnown(ServeAll(EMPTY, resident, calls[..n]), resident, calls[n]);
    }
  }

  /** Without imports, every event of every run answers with its exact value. */
  lemma EveryValueIsRead(resident: bool, calls: seq<Call>, i: nat)
    requires forall k :: 0 <= k < |calls| ==> Honest(calls[k]) && !calls[k].Restore?
    requires i < |ServeAll(EMPTY, resident, calls).events|
    ensures var m := ServeAll(EMPTY, resident, calls);
            Extract(m, i) == Some(m.events[i].stated.value)
  {
    hide ServeAll, Extract;
    RunKnown(resident, calls);
    ReachableValues(resident, calls, i);
  }

  // ---- What a run of observations leaves in the log

  function TextOf(m: Memory, i: nat): Bytes
    requires i < |m.events|
  {
    var r := m.events[i].stated.record;
    if r < |m.records| then m.records[r].text else []
  }

  function Texts(m: Memory): (r: seq<Bytes>)
    ensures |r| == |m.events|
  {
    seq(|m.events|, i requires 0 <= i < |m.events| => TextOf(m, i))
  }

  predicate AllActive(events: seq<EventLog.Event>) {
    forall i :: 0 <= i < |events| ==> events[i].active
  }

  /** What a successful write did: found the event that says the text, or appended a current one that cites it and
      whose value can be read back. */
  lemma RememberStores(m: Memory, resident: bool, text: Bytes, priority: real, hint: Hint, ids: Ids, answers: Answers)
    requires Inv(m, resident) && Remember(m, resident, text, priority, hint, ids, answers).outcome.Ok?
    ensures var w := Remember(m, resident, text, priority, hint, ids, answers);
            var i := w.outcome.value.index;
            && i < |w.memory.events| && Holds(w.memory, w.memory.events[i], text)
            && (w.outcome.value.deduplicated ==> w.memory == m && Duplicate(m, resident, text, hint, ids) == Some(i))
            && (!w.outcome.value.deduplicated ==>
                && i == |m.events| && |w.memory.events| == |m.events| + 1
                && Statements(w.memory.events)[..i] == Statements(m.events)
                && Duplicate(m, resident, text, hint, ids).None?
                && Episodes.Extends(m.records, w.memory.records)
                && (resident ==> w.memory.events[..i] == m.events))
  {
    hide Draft, Inv, Duplicate;
    if Duplicate(m, resident, text, hint, ids).None? {
      var s := Draft(m, resident, text, hint, ids, answers).value;
      DraftFits(m, resident, text, hint, ids, answers);
      SavedEvent(m, resident, text, priority, s, answers.slot);
    } else {
      DuplicateHolds(m, resident, text, hint, ids);
    }
  }

  lemma DuplicateHolds(m: Memory, resident: bool, text: Bytes, hint: Hint, ids: Ids)
    requires Duplicate(m, resident, text, hint, ids).Some?
    ensures var i := Duplicate(m, resident, text, hint, ids).value;
            i < |m.events| && Holds(m, m.events[i], text)
  {
  }

  lemma SavedEvent(m: Memory, resident: bool, text: Bytes, priority: real, s: Statement, slot: Option<Slot>)
    requires Inv(m, resident) && (resident ==> slot.Some? && s.operation == Assert) && s.operation != Retract
    requires Save(m, resident, text, priority, s, slot).outcome.Ok?
    ensures var w := Save(m, resident, text, priority, s, slot);
            && !w.outcome.value.deduplicated && w.outcome.value.index == |m.events|
            && |w.memory.events| == |m.events| + 1
            && Statements(w.memory.events)[..|m.events|] == Statements(m.events)
            && Episodes.Extends(m.records, w.memory.records)
            && Holds(w.memory, w.memory.events[|m.events|], text)
            && (resident ==> w.memory.events[..|m.events|] == m.events)
  {
    var (records, i) := Episodes.Add(m.records, text, priority).value;
    Episodes.AddIsSound(m.records, text, priority);
    hide Episodes.Add, Acceptable, Episodes.Sound, Loadable, AllGrounded;
    ApplyStatements(m.events, s.(record := i));
    AppliedLast(m.events, s.(record := i));
  }

  lemma {:induction false} AppliedLast(events: seq<EventLog.Event>, s: Statement)
    requires Apply(events, s).Some?
    ensures var longer := Apply(events, s).value;
            && |longer| == |events| + 1 && longer[|events|] == EventLog.Event(s, s.operation != Retract)
            && (s.operation == Assert ==> longer[..|events|] == events)
  {
    hide Storable, SameFact;
  }

  /** A list without the entries that repeat the one just before them. */
  function Collapse<X(==)>(xs: seq<X>): seq<X> {
    if xs == [] then []
    else
      var n := |xs| - 1;
      Collapse(xs[..n]) + (if n > 0 && xs[n] == xs[n - 1] then [] else [xs[n]])
  }

  lemma {:induction false} CollapseEnds<X>(xs: seq<X>)
    requires xs != []
    ensures Collapse(xs) != [] && Collapse(xs)[|Collapse(xs)| - 1] == xs[|xs| - 1]
    decreases |xs|
  {
    if |xs| > 1 {
      CollapseEnds(xs[..|xs| - 1]);
    }
  }

  lemma CollapseSnoc<X>(xs: seq<X>, x: X)
    ensures Collapse(xs + [x]) == if xs != [] && xs[|xs| - 1] == x then Collapse(xs) else Collapse(xs) + [x]
  {
    var ys := xs + [x];
    assert ys[..|ys| - 1] == xs && ys[|ys| - 1] == x;
    assert xs != [] ==> ys[|ys| - 2] == xs[|xs| - 1];
    hide Collapse;
    CollapseUnfolds(ys);
  }

  lemma CollapseUnfolds<X>(xs: seq<X>)
    requires xs != []
    ensures var n := |xs| - 1;
            Collapse(xs) == Collapse(xs[..n]) + (if n > 0 && xs[n] == xs[n - 1] then [] else [xs[n]])
  {
  }

  /** A plain observation: no hint and no event identifier of the caller's own. */
  datatype Observation = Observation(text: Bytes, priority: real, episode: Given, source: Given, answers: Answers)

  function Observe(m: Memory, resident: bool, o: Observation): Written<Receipt> {
    Remember(m, resident, o.text, o.priority, Ignore, Ids(Absent, o.episode, o.source), o.answers)
  }

  predicate Observed(m: Memory, resident: bool, all: seq<Observation>, last: Memory)
    decreases |all|
  {
    if all == [] then m == last
    else
      var w := Observe(m, resident, all[0]);
      w.outcome.Ok? && Observed(w.memory, resident, all[1..], last)
  }

  lemma ResidentStep(m: Memory, o: Observation)
    requires Inv(m, true) && AllActive(m.events) && Observe(m, true, o).outcome.Ok?
    ensures var next := Observe(m, true, o).memory;
            && Inv(next, true) && AllActive(next.events)
            && Texts(next) == if m.events != [] && Texts(m)[|m.events| - 1] == o.text then Texts(m) else Texts(m) + [o.text]
  {
    var ids := Ids(Absent, o.episode, o.source);
    RememberKeepsInv(m, true, o.text, o.priority, Ignore, ids, o.answers);
    RememberStores(m, true, o.text, o.priority, Ignore, ids, o.answers);
    var w := Observe(m, true, o);
    hide Inv, Remember;
    if w.outcome.value.deduplicated {
      assert Holds(m, m.events[|m.events| - 1], o.text);
    } else {
      NewText(m, w.memory, o.text);
    }
  }

  lemma {:induction false} NewText(m: Memory, next: Memory, text: Bytes)
    requires Inv(m, true) && AllActive(m.events)
    requires |next.events| == |m.events| + 1 && next.events[..|m.events|] == m.events
    requires Holds(next, next.events[|m.events|], text) && Episodes.Extends(m.records, next.records)
    requires DuplicateFrom(m, true, text, 0).None?
    ensures AllActive(next.events) && Texts(next) == Texts(m) + [text]
    ensures m.events != [] ==> Texts(m)[|m.events| - 1] != text
  {
    hide Inv, Texts, DuplicateFrom;
    TextsStay(m, next);
    LastNotRepeated(m, text);
    var n := |m.events|;
    assert TextOf(next, n) == text;
    assert next.events == m.events + [next.events[n]];
    TextsSnoc(m, next);
  }

  lemma TextsStay(m: Memory, next: Memory)
    requires Inv(m, true) && |next.events| == |m.events| + 1 && next.events[..|m.events|] == m.events
    requires Episodes.Extends(m.records, next.records)
    ensures forall i :: 0 <= i < |m.events| ==> TextOf(next, i) == TextOf(m, i)
  {
    hide Inv;
    forall i | 0 <= i < |m.events| ensures TextOf(next, i) == TextOf(m, i) {
      assert next.events[i] == next.events[..|m.events|][i];
      InvGrounded(m, true, i);
    }
  }

  lemma LastNotRepeated(m: Memory, text: Bytes)
    requires Inv(m, true) && AllActive(m.events) && DuplicateFrom(m, true, text, 0).None?
    ensures m.events != [] ==> Texts(m)[|m.events| - 1] != text
  {
    hide Inv;
    if m.events != [] {
      InvGrounded(m, true, |m.events| - 1);
      assert !Holds(m, m.events[|m.events| - 1], text);
    }
  }

  lemma TextsSnoc(m: Memory, next: Memory)
    requires |next.events| == |m.events| + 1 && forall i :: 0 <= i < |m.events| ==> TextOf(next, i) == TextOf(m, i)
    ensures Texts(next) == Texts(m) + [TextOf(next, |m.events|)]
  {
  }

  function TextsOf(all: seq<Observation>): (r: seq<Bytes>)
    ensures |r| == |all| && forall i :: 0 <= i < |all| ==> r[i] == all[i].text
  {
    seq(|all|, i requires 0 <= i < |all| => all[i].text)
  }

  lemma {:induction false} ResidentRun(m: Memory, seen: seq<Bytes>, all: seq<Observation>, last: Memory)
    requires Inv(m, true) && AllActive(m.events) && Texts(m) == Collapse(seen)
    requires Observed(m, true, all, last)
    ensures Texts(last) == Collapse(seen + TextsOf(all)) && AllActive(last.events) && Inv(last, true)
    decreases |all|
  {
    hide Inv, Observe, AllActive, Texts, Collapse;
    if all == [] {
      assert seen + TextsOf(all) == seen;
    } else {
      var next, more := Observe(m, true, all[0]).memory, seen + [all[0].text];
      ResidentStep(m, all[0]);
      CollapseSnoc(seen, all[0].text);
      CollapseKeepsSome(seen);
      if seen != [] {
        CollapseEnds(seen);
      }
      assert Texts(next) == Collapse(more);
      assert seen + TextsOf(all) == more + TextsOf(all[1..]);
      ResidentRun(next, more, all[1..], last);
    }
  }

  lemma CollapseKeepsSome<X>(xs: seq<X>)
    ensures Collapse(xs) == [] <==> xs == []
  {
    if xs != [] {
      CollapseEnds(xs);
    }
  }

  /** Resident memory keeps one event for each observation in order, only immediate repeats collapsed, all current. */
  lemma ResidentLogIsCollapse(all: seq<Observation>, last: Memory)
    requires Observed(EMPTY, true, all, last)
    ensures Texts(last) == Collapse(TextsOf(all)) && AllActive(last.events)
    ensures |last.slots| == |last.events|
  {
    EmptyInv(true);
    assert Texts(EMPTY) == [] && AllActive(EMPTY.events);
    hide Texts, AllActive, Collapse, Observed, Inv;
    CollapseKeepsSome<Bytes>([]);
    assert [] + TextsOf(all) == TextsOf(all);
    ResidentRun(EMPTY, [], all, last);
    SlotsMatch(last);
  }

  /** Coming back to an earlier observation is a new observation: A, B, A leaves three events. */
  lemma ReturnIsKept(all: seq<Observation>, last: Memory)
    requires Observed(EMPTY, true, all, last) && |all| == 3
    requires all[0].text != all[1].text && all[2].text == all[0].text
    ensures Texts(last) == [all[0].text, all[1].text, all[0].text] && AllActive(last.events)
  {
    hide Observed, Texts, AllActive;
    ResidentLogIsCollapse(all, last);
    var a, b := all[0].text, all[1].text;
    assert TextsOf(all) == [] + [a] + [b] + [a];
    CollapseSnoc([], a);
    CollapseSnoc([] + [a], b);
    CollapseSnoc([] + [a] + [b], a);
  }

  lemma SlotsMatch(m: Memory)
    requires Inv(m, true)
    ensures |m.slots| == |m.events|
  {
  }

  /** A text that a current event says is not stored again outside resident memory, however old that event is. */
  lemma PlainRepeatIsFree(m: Memory, o: Observation, i: nat)
    requires o.text != [] && i < |m.events| && Holds(m, m.events[i], o.text)
    ensures var w := Observe(m, false, o);
            w.memory == m && w.outcome.Ok? && w.outcome.value.deduplicated && w.outcome.value.index <= i
  {
    hide Holds;
    assert DuplicateFrom(m, false, o.text, 0).Some? && DuplicateFrom(m, false, o.text, 0).value <= i by {
      FirstDuplicate(m, o.text, 0, i);
    }
  }

  lemma {:induction false} FirstDuplicate(m: Memory, text: Bytes, from: nat, i: nat)
    requires from <= i < |m.events| && Holds(m, m.events[i], text)
    ensures DuplicateFrom(m, false, text, from).Some? && DuplicateFrom(m, false, text, from).value <= i
    decreases i - from
  {
    if !Holds(m, m.events[from], text) {
      FirstDuplicate(m, text, from + 1, i);
    }
  }

  // ---- Identifiers the server invents

  lemma {:induction false} DigitsEnd(n: nat)
    ensures Digits(n) != [] && Digits(n)[|Digits(n)| - 1] == 0x30 + n % 10 && (|Digits(n)| == 1 <==> n < 10)
  {
    if n >= 10 {
      DigitsEnd(n / 10);
    }
  }

  lemma {:induction false} DigitsDiffer(a: nat, b: nat)
    ensures Digits(a) == Digits(b) ==> a == b
  {
    if Digits(a) == Digits(b) {
      DigitsEnd(a);
      DigitsEnd(b);
      if a >= 10 {
        assert Digits(a)[..|Digits(a)| - 1] == Digits(a / 10) && Digits(b)[..|Digits(b)| - 1] == Digits(b / 10);
        DigitsDiffer(a / 10, b / 10);
        assert a == a / 10 * 10 + a % 10 && b == b / 10 * 10 + b % 10;
      }
    }
  }

  /** Event `i` carries the invented identifier that ends in `i`. */
  predicate AutoNamed(events: seq<EventLog.Event>) {
    forall i :: 0 <= i < |events| ==> events[i].stated.id == AUTO_EVENT + Digits(i)
  }

  /** An invented identifier never collides with earlier invented ones: while the server names all events, a drafted
      resident event is refused only for what it is or when the stores are full. */
  lemma {:induction false} AutoNameIsFresh(m: Memory, o: Observation)
    requires Inv(m, true) && AutoNamed(m.events) && o.text != []
    requires Duplicate(m, true, o.text, Ignore, Ids(Absent, o.episode, o.source)).None?
    requires Draft(m, true, o.text, Ignore, Ids(Absent, o.episode, o.source), o.answers).Ok?
    ensures var s := Draft(m, true, o.text, Ignore, Ids(Absent, o.episode, o.source), o.answers).value;
            var w := Observe(m, true, o);
            && s.id == AUTO_EVENT + Digits(|m.events|)
            && (w.outcome.Ok? <==> Episodes.Add(m.records, o.text, o.priority).Some? && Storable(s))
            && AutoNamed(w.memory.events)
  {
    var ids := Ids(Absent, o.episode, o.source);
    var s := Draft(m, true, o.text, Ignore, ids, o.answers).value;
    DraftFits(m, true, o.text, Ignore, ids, o.answers);
    assert s.id == AUTO_EVENT + Digits(|m.events|) by {
      hide CompileFields;
    }
    FreshName(m.events, s.id);
    AutoSave(m, o, s);
  }

  lemma {:induction false} FreshName(events: seq<EventLog.Event>, id: Bytes)
    requires AutoNamed(events) && id == AUTO_EVENT + Digits(|events|)
    ensures EventLog.IndexOf(events, id).None?
  {
    hide Digits;
    forall i | 0 <= i < |events| ensures events[i].stated.id != id {
      DigitsDiffer(i, |events|);
      assert id[|AUTO_EVENT|..] == Digits(|events|) && (AUTO_EVENT + Digits(i))[|AUTO_EVENT|..] == Digits(i);
    }
  }

  lemma {:induction false} AutoSave(m: Memory, o: Observation, s: Statement)
    requires Inv(m, true) && AutoNamed(m.events) && |m.slots| < MAX_RESIDENT && o.answers.slot.Some?
    requires s.id == AUTO_EVENT + Digits(|m.events|) && s.operation == Assert && EventLog.IndexOf(m.events, s.id).None?
    ensures var w := Save(m, true, o.text, o.priority, s, o.answers.slot);
            && (w.outcome.Ok? <==> Episodes.Add(m.records, o.text, o.priority).Some? && Storable(s))
            && AutoNamed(w.memory.events)
  {
    hide Digits, Episodes.Add, Loadable, AllGrounded, Episodes.Sound, AutoNamed;
    if Episodes.Add(m.records, o.text, o.priority).Some? {
      var i := Episodes.Add(m.records, o.text, o.priority).value.1;
      StorableAnywhere(s, i);
      hide Storable;
      if Storable(s) {
        NamedSnoc(m.events, s.(record := i));
      }
    }
  }

  lemma StorableAnywhere(s: Statement, i: nat)
    ensures Storable(s.(record := i)) <==> Storable(s)
  {
  }

  lemma {:induction false} NamedSnoc(events: seq<EventLog.Event>, s: Statement)
    requires AutoNamed(events) && Apply(events, s).Some? && s.id == AUTO_EVENT + Digits(|events|)
    ensures AutoNamed(Apply(events, s).value)
  {
    var longer := Apply(events, s).value;
    ApplyStatements(events, s);
    AppliedLast(events, s);
    hide Apply, Digits;
    var n := |events|;
    assert longer[n].stated == s;
    forall i | 0 <= i < n ensures longer[i].stated == events[i].stated {
      assert Statements(longer)[i] == (Statements(events) + [s])[i];
    }
  }

  // ---- Where the guarantees stop

  const A: Bytes := [0x61]
  const B: Bytes := [0x62]

  /** A structured event whose `value_text` is found but differs from its `value` is stored, and can never be read back. */
  lemma MisstatedValue()
    ensures var stated := Statement(A, A, A, A, A, B, [], [], Assert, Property, Positive, Actual, 0, Span(0, 0), Span(0, 0));
            var w := Structured(EMPTY, Request(Some(A), None, stated, None, Some(A), NoSpans), Unavailable);
            && w.outcome.Ok? && |w.memory.events| == 1 && w.memory.events[0].stated.evidence.Known()
            && Extract(w.memory, 0).None? && !Inv(w.memory, false)
  {
    var stated := Statement(A, A, A, A, A, B, [], [], Assert, Property, Positive, Actual, 0, Span(0, 0), Span(0, 0));
    var q := Request(Some(A), None, stated, None, Some(A), NoSpans);
    assert OccursAt(A, A, 0) && Find(A, A, 0) == Some(0) && Find(A, A, 1) == None;
    assert UniqueSpan(A, A) == Some(Span(0, 1)) && A[0..1] == A;
    assert ResolveEvidence(q, A) == Some((Span(0, 1), Span(0, 1)));
    var s := stated.(subject := Span(0, 1), evidence := Span(0, 1));
    assert Resolve(EMPTY, q, Unavailable) == Ok(s);
    assert Apply([], s).Some?;
    EmptyInv(false);
    StructuredKeepsInv(EMPTY, q, Unavailable);
  }

  const READING_A := Reading([Some(A)], (0, 0), 0, (0, 0), (0, 0), (0, 0), 0)

  lemma DecodedA()
    ensures T.DecodedOf([Some(A)], A) == Some(T.DecodedSource(A, [0, 1], 0))
  {
    var pieces: seq<Option<Bytes>> := [Some(A)];
    var none: (Bytes, seq<nat>) := ([], [0]);
    assert pieces[..0] == [] && T.Spelled(pieces[..0]) == Some(none);
    assert [] + A == A && none.1 + [1] == [0, 1];
    assert T.Spelled(pieces) == Some((A, [0, 1]));
    assert CString(A) == A;
    assert OccursAt(A, A, 0) && Find(A, A, 0) == Some(0);
  }

  lemma SpansOfA(x: T.DecodedSource)
    requires x == T.DecodedSource(A, [0, 1], 0)
    ensures FieldSpan(x, A, (0, 0), T.Exact) == Some((0, 1))
    ensures FieldSpan(x, A, (0, 0), T.Entity) == Some((0, 1))
    ensures FieldSpan(x, A, (0, 0), T.Value) == Some((0, 1))
  {
    assert T.SkipSpaces(A, 0, 1) == 0 && T.DropSpaces(A, 0, 1) == 1;
    assert T.BackWord(A, 0, T.SkipNonWord(A, 0, 1)) == 0 && T.ForwardWord(A, 1) == 1 && T.DropPossessive(A, 0, 1) == 1;
    assert T.GrowLeft(A, 0, T.AlignLeft(A, 0, 0)) == 0 && T.GrowRight(A, T.AlignRight(A, 1)) == 1;
  }

  lemma DraftedA()
    ensures CompileFields(Some(READING_A), A) == Ok(Fields(Span(0, 1), A, Span(0, 1), []))
  {
    DecodedA();
    SpansOfA(T.DecodedSource(A, [0, 1], 0));
    hide FieldSpan, T.DecodedOf;
    assert A[0..1] == A && A[..0] == [] && T.NormalOf(A) == T.Normal(A, false);
    assert T.NormalizePredicate(A, 0, 1) == Some(A);
    assert T.ArticleStart(A, 0) == 0;
  }

  const IDS_A := Ids(Present(A), Present(A), Present(A))
  const ANSWERS_A := Answers(Some(READING_A), None, Unavailable)
  const STATED_A := Statement(A, A, A, A, A, A, [], [], Assert, Property, Positive, Actual, 0, Span(0, 1), Span(0, 1))

  lemma DraftOfA(m: Memory)
    ensures Draft(m, false, A, Store, IDS_A, ANSWERS_A) == Ok(STATED_A)
  {
    DraftedA();
    hide CompileFields, Digits;
    assert A[0..1] == A;
  }

  /** The first write of a text, under an identifier of the caller's own, is stored. */
  lemma FirstWriteOfA()
    ensures Serve(EMPTY, false, Autonomous(A, 0.0, Store, IDS_A, ANSWERS_A))
            == Memory([Episodes.Record(A, 0.0)], [EventLog.Event(STATED_A, true)], [])
  {
    DraftOfA(EMPTY);
    hide Draft;
    assert EMPTY.records + [Episodes.Record(A, 0.0)] == [Episodes.Record(A, 0.0)];
    assert EMPTY.events + [EventLog.Event(STATED_A, true)] == [EventLog.Event(STATED_A, true)];
    assert Episodes.IndexOf(EMPTY.records, A).None? && EventLog.IndexOf(EMPTY.events, A).None?;
    assert Episodes.Add([], A, 0.0) == Some(([Episodes.Record(A, 0.0)], 0));
    assert Apply([], STATED_A) == Some([EventLog.Event(STATED_A, true)]);
    assert STATED_A.(record := 0) == STATED_A;
  }

  /** The same request again, with a higher priority, fails because the identifier is taken: nothing is stored, but the
      record keeps the priority it was given on the way. */
  lemma PriorityStaysRaised()
    ensures var first := Autonomous(A, 0.0, Store, IDS_A, ANSWERS_A);
            var m := ServeAll(EMPTY, false, [first]);
            var w := Remember(m, false, A, 1.0, Store, IDS_A, ANSWERS_A);
            && Inv(m, false) && m.records == [Episodes.Record(A, 0.0)] && |m.events| == 1
            && w.outcome.Err? && w.memory == m.(records := [Episodes.Record(A, 1.0)])
  {
    var first := Autonomous(A, 0.0, Store, IDS_A, ANSWERS_A);
    assert [first][..0] == [];
    assert ServeAll(EMPTY, false, [first]) == Serve(EMPTY, false, first);
    EmptyInv(false);
    ReachableInv(EMPTY, false, [first]);
    FirstWriteOfA();
    hide ServeAll, Serve, Inv, Remember;
    SecondWriteOfA(ServeAll(EMPTY, false, [first]));
  }

  lemma SecondWriteOfA(m: Memory)
    requires m == Memory([Episodes.Record(A, 0.0)], [EventLog.Event(STATED_A, true)], [])
    ensures var w := Remember(m, false, A, 1.0, Store, IDS_A, ANSWERS_A);
            w.outcome.Err? && w.memory == m.(records := [Episodes.Record(A, 1.0)])
  {
    DraftOfA(m);
    hide Draft;
    assert m.records[0 := Episodes.Record(A, 1.0)] == [Episodes.Record(A, 1.0)];
    assert Episodes.IndexOf(m.records, A) == Some(0);
    assert Episodes.Add(m.records, A, 1.0) == Some(([Episodes.Record(A, 1.0)], 0));
    assert EventLog.IndexOf(m.events, A).Some?;
    assert Episodes.Truncate([Episodes.Record(A, 1.0)], 1) == [Episodes.Record(A, 1.0)];
  }

  // ---- Predicates

  /** The store accepts a normalised predicate exactly when it is not too long. */
  lemma NormalisedIsValid(source: Bytes, start: nat, end: nat)
    requires T.NormalizePredicate(source, start, end).Some?
    ensures var p := T.NormalizePredicate(source, start, end).value;
            ValidRelation(p) <==> |p| <= MAX_PREDICATE
  {
    T.NormalPredicate(source, start, end);
  }
}
