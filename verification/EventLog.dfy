/** The log of typed events: what may be appended, what an append changes, and which logs a snapshot may hold. */
module EventLog {
  import opened Bytes
  import opened Outcomes
  import TypedSpans

  const SPAN_UNKNOWN: nat := 0xFFFF_FFFF_FFFF_FFFF
  const MAX_SPAN: nat := 0xFFFF_FFFF
  const MAX_EVENTS: nat := 8192
  const MAX_STRING: nat := 65536
  const MAX_PREDICATE: nat := 64

  datatype Operation = Assert | Supersede | Retract
  datatype Kind = Property | Collection | Occurrence
  datatype Polarity = Positive | Negative
  datatype Modality = Actual | Planned | Possible

  datatype Span = Span(start: nat, end: nat) {
    predicate Known() { start != SPAN_UNKNOWN && end != SPAN_UNKNOWN }

    /** Unknown, or an offset the file format of old stores left at zero. */
    predicate Blank() {
      (start == SPAN_UNKNOWN || start == 0) && (end == SPAN_UNKNOWN || end == 0)
    }
  }

  /** An absent string behaves as the empty one. */
  datatype Statement = Statement(
    id: Bytes, episode: Bytes, source: Bytes, entity: Bytes, relation: Bytes, value: Bytes, validTime: Bytes,
    target: Bytes, operation: Operation, kind: Kind, polarity: Polarity, modality: Modality,
    record: nat, subject: Span, evidence: Span)

  /** A stored event record: what it states, and whether it is still current. */
  datatype Event = Event(stated: Statement, active: bool)

  predicate ValidRelation(p: Bytes) {
    && 0 < |p| <= MAX_PREDICATE && TypedSpans.IsLower(p[0])
    && forall i :: 1 <= i < |p| ==> TypedSpans.NameByte(p[i]) || p[i] == 0x5F
  }

  predicate ValidSpans(s: Statement) {
    if !s.subject.Known() && !s.evidence.Known() then s.subject.Blank() && s.evidence.Blank()
    else
      && s.subject.Known() && s.evidence.Known()
      && s.subject.start < s.subject.end <= MAX_SPAN && s.evidence.start < s.evidence.end <= MAX_SPAN
  }

  predicate Copied(s: Bytes) {
    0 < |s| <= MAX_STRING
  }

  /** What the store asks of an event before it looks at the log. */
  predicate Storable(s: Statement) {
    && ValidRelation(s.relation) && ValidSpans(s)
    && Copied(s.id) && Copied(s.episode) && Copied(s.source) && Copied(s.entity) && Copied(s.value)
    && |s.validTime| <= MAX_STRING && |s.target| <= MAX_STRING
  }

  function Statements(log: seq<Event>): (r: seq<Statement>)
    ensures |r| == |log| && forall i :: 0 <= i < |log| ==> r[i] == log[i].stated
  {
    seq(|log|, i requires 0 <= i < |log| => log[i].stated)
  }

  function IndexFrom(log: seq<Event>, id: Bytes, from: nat): (r: Option<nat>)
    ensures r.Some? ==> from <= r.value < |log| && log[r.value].stated.id == id
    ensures forall i :: from <= i < (if r.Some? then r.value else |log|) ==> log[i].stated.id != id
    decreases |log| - from
  {
    if from >= |log| then None else if log[from].stated.id == id then Some(from) else IndexFrom(log, id, from + 1)
  }

  function IndexOf(log: seq<Event>, id: Bytes): Option<nat> {
    IndexFrom(log, id, 0)
  }

  /** `s` may close an event that states `t`. */
  predicate SameFact(t: Statement, s: Statement) {
    && t.entity == s.entity && t.relation == s.relation && t.kind == s.kind
    && (s.operation.Supersede? ==> s.kind.Property?)
  }

  predicate Acceptable(log: seq<Event>, s: Statement) {
    && Storable(s) && IndexOf(log, s.id).None? && |log| < MAX_EVENTS
    && (s.operation != Assert ==>
        && s.target != []
        && var t := IndexOf(log, s.target);
           t.Some? && log[t.value].active && SameFact(log[t.value].stated, s))
  }

  /** The log after an accepted event: the event itself, and its target no longer current. */
  function Apply(log: seq<Event>, s: Statement): Option<seq<Event>> {
    if !Acceptable(log, s) then None
    else
      var closed :=
        if s.operation == Assert then log
        else var t := IndexOf(log, s.target).value; log[t := log[t].(active := false)];
      Some(closed + [Event(s, s.operation != Retract)])
  }

  /** Loading a snapshot feeds the stored events through an empty store, one by one. */
  function Replay(stated: seq<Statement>): Option<seq<Event>> {
    if stated == [] then Some([])
    else
      var before := Replay(stated[..|stated| - 1]);
      if before.None? then None else Apply(before.value, stated[|stated| - 1])
  }

  /** A snapshot is accepted when its replay has the activity flags it was stored with. */
  predicate Loadable(log: seq<Event>) {
    Replay(Statements(log)) == Some(log)
  }

  // ---- What an accepted log is, without replaying it

  predicate Targets(s: Statement, t: Statement) {
    s.operation != Assert && s.target == t.id
  }

  predicate Untargeted(all: seq<Statement>, i: nat, to: nat)
    requires i < |all| && to <= |all|
  {
    forall k :: 0 <= k < to ==> !Targets(all[k], all[i])
  }

  /** Statement `j` closes `i`: an earlier statement of the same fact that nothing closed before. */
  predicate Closes(all: seq<Statement>, i: nat, j: nat)
    requires i < j < |all|
  {
    Targets(all[j], all[i]) && all[i].operation != Retract && SameFact(all[i], all[j]) && Untargeted(all, i, j)
  }

  predicate Follows(all: seq<Statement>, j: nat)
    requires j < |all|
  {
    && Storable(all[j]) && j < MAX_EVENTS
    && (forall i :: 0 <= i < j ==> all[i].id != all[j].id)
    && (all[j].operation != Assert ==> exists i :: 0 <= i < j && Closes(all, i, j))
  }

  predicate Chained(all: seq<Statement>) {
    forall j :: 0 <= j < |all| ==> Follows(all, j)
  }

  /** A statement that is no retraction and that none closes. */
  predicate Current(all: seq<Statement>, i: nat)
    requires i < |all|
  {
    all[i].operation != Retract && Untargeted(all, i, |all|)
  }

  /** Every event carries the flag that the statements alone give it. */
  predicate Flagged(log: seq<Event>, all: seq<Statement>) {
    |log| == |all| && forall i :: 0 <= i < |log| ==> log[i] == Event(all[i], Current(all, i))
  }

  // ---- The two agree

  lemma FollowsPrefix(all: seq<Statement>, n: nat, j: nat)
    requires j < n <= |all|
    ensures Follows(all[..n], j) <==> Follows(all, j)
  {
    var some := all[..n];
    forall i | 0 <= i < j ensures Closes(some, i, j) <==> Closes(all, i, j) {
      assert forall k :: 0 <= k < j ==> some[k] == all[k];
    }
  }

  lemma UntargetedSnoc(all: seq<Statement>, s: Statement, i: nat)
    requires i < |all|
    ensures Untargeted(all + [s], i, |all|) <==> Untargeted(all, i, |all|)
    ensures Current(all + [s], i) <==> Current(all, i) && !Targets(s, all[i])
  {
    var more := all + [s];
    assert forall k :: 0 <= k < |all| ==> more[k] == all[k];
    assert more[|all|] == s;
  }

  lemma IndexIsUnique(log: seq<Event>, all: seq<Statement>, i: nat)
    requires Flagged(log, all) && Chained(all) && i < |all|
    ensures IndexOf(log, all[i].id) == Some(i)
  {
    hide Storable;
    assert Follows(all, i);
    assert forall k :: 0 <= k < i ==> log[k].stated.id != all[i].id;
  }

  /** Acceptance, read off the statements. */
  lemma AcceptableFollows(log: seq<Event>, all: seq<Statement>, s: Statement)
    requires Flagged(log, all) && Chained(all)
    ensures Acceptable(log, s) <==> Follows(all + [s], |all|)
  {
    if s.operation == Assert {
      hide Storable;
      assert forall i :: 0 <= i < |all| ==> (all + [s])[i].id == log[i].stated.id;
    } else {
      if Acceptable(log, s) {
        AcceptableThenFollows(log, all, s);
      }
      if Follows(all + [s], |all|) {
        FollowsThenAcceptable(log, all, s);
      }
    }
  }

  lemma AcceptableThenFollows(log: seq<Event>, all: seq<Statement>, s: Statement)
    requires Flagged(log, all) && Chained(all) && Acceptable(log, s) && s.operation != Assert
    ensures Follows(all + [s], |all|)
  {
    hide Storable, SameFact;
    var more, n := all + [s], |all|;
    var t := IndexOf(log, s.target).value;
    UntargetedSnoc(all, s, t);
    assert more[t] == all[t] && more[n] == s;
    assert Closes(more, t, n);
    assert forall i :: 0 <= i < n ==> more[i].id == log[i].stated.id;
  }

  lemma FollowsThenAcceptable(log: seq<Event>, all: seq<Statement>, s: Statement)
    requires Flagged(log, all) && Chained(all) && Follows(all + [s], |all|) && s.operation != Assert
    ensures Acceptable(log, s)
  {
    hide Storable, SameFact;
    var more, n := all + [s], |all|;
    assert forall i :: 0 <= i < n ==> more[i].id == log[i].stated.id;
    assert IndexOf(log, s.id).None?;
    var t :| 0 <= t < n && Closes(more, t, n);
    assert more[t] == all[t] && more[n] == s;
    IndexIsUnique(log, all, t);
    UntargetedSnoc(all, s, t);
    assert Follows(all, t);
    StorableId(all[t]);
  }

  lemma StorableId(s: Statement)
    requires Storable(s)
    ensures s.id != []
  {
  }

  lemma ApplyFlags(log: seq<Event>, all: seq<Statement>, s: Statement)
    requires Flagged(log, all) && Chained(all) && Acceptable(log, s)
    ensures Flagged(Apply(log, s).value, all + [s])
  {
    hide Storable, SameFact;
    var more, n := all + [s], |all|;
    var longer := Apply(log, s).value;
    forall i | 0 <= i < n ensures longer[i] == Event(more[i], Current(more, i)) {
      UntargetedSnoc(all, s, i);
      IndexIsUnique(log, all, i);
    }
    NewIsUntargeted(log, all, s);
  }

  lemma NewIsUntargeted(log: seq<Event>, all: seq<Statement>, s: Statement)
    requires Flagged(log, all) && Chained(all) && Acceptable(log, s)
    ensures Untargeted(all + [s], |all|, |all| + 1)
  {
    hide Storable, SameFact;
    var more, n := all + [s], |all|;
    forall k | 0 <= k <= n ensures !Targets(more[k], s) {
      if k < n {
        assert Follows(all, k) && more[k] == all[k];
      }
    }
  }

  /** Replay accepts exactly the chained statements, and the flags it computes are the declared ones. */
  lemma {:induction false} ReplayMeans(all: seq<Statement>)
    ensures Replay(all).Some? <==> Chained(all)
    ensures Replay(all).Some? ==> Flagged(Replay(all).value, all)
    decreases |all|
  {
    if all != [] {
      var n := |all| - 1;
      var init, s := all[..n], all[n];
      hide Follows, Flagged, Acceptable;
      ReplayMeans(init);
      assert all == init + [s];
      assert Chained(init) && Follows(all, n) <==> Chained(all) by {
        forall j | 0 <= j < n ensures Follows(init, j) <==> Follows(all, j) {
          FollowsPrefix(all, n, j);
        }
      }
      if Chained(init) {
        var log := Replay(init).value;
        AcceptableFollows(log, init, s);
        if Acceptable(log, s) {
          ApplyFlags(log, init, s);
        }
      }
    } else {
      assert Flagged([], all);
    }
  }

  /** A snapshot is loadable exactly when its identifiers are unique, each closing event names an earlier statement of
      the same fact that nothing else had closed, and the current events are the statements that none closes. */
  lemma LoadableMeans(log: seq<Event>)
    ensures Loadable(log) <==> Chained(Statements(log)) && Flagged(log, Statements(log))
  {
    ReplayMeans(Statements(log));
    if Chained(Statements(log)) && Flagged(log, Statements(log)) {
      assert Replay(Statements(log)).value == log;
    }
  }

  /** An append changes no statement already there. */
  lemma ApplyStatements(log: seq<Event>, s: Statement)
    requires Apply(log, s).Some?
    ensures Statements(Apply(log, s).value) == Statements(log) + [s]
  {
    hide Storable, SameFact;
  }

  /** An accepted event is the new last one, current unless it is a retraction; every other event keeps its flag, except
      that the one it targets, current until now, is closed. */
  lemma ApplyCloses(log: seq<Event>, s: Statement)
    requires Apply(log, s).Some?
    ensures var longer := Apply(log, s).value;
            && |longer| == |log| + 1 && longer[|log|] == Event(s, s.operation != Retract)
            && (s.operation == Assert ==> longer[..|log|] == log)
            && (s.operation != Assert ==>
                  exists t :: 0 <= t < |log| && log[t].stated.id == s.target && log[t].active && SameFact(log[t].stated, s)
                              && longer[..|log|] == log[t := log[t].(active := false)])
  {
    hide Storable, SameFact;
    if s.operation != Assert {
      var t := IndexOf(log, s.target).value;
      assert Apply(log, s).value[..|log|] == log[t := log[t].(active := false)];
    }
  }

  /** Appending to a loadable log leaves a loadable log. */
  lemma ApplyKeepsLoadable(log: seq<Event>, s: Statement)
    requires Loadable(log) && Apply(log, s).Some?
    ensures Loadable(Apply(log, s).value)
  {
    var longer := Apply(log, s).value;
    hide Apply;
    ApplyStatements(log, s);
    assert Statements(longer)[..|log|] == Statements(log);
  }

  // ---- The store

  class EventStore {
    var events: seq<Event>

    constructor ()
      ensures events == []
    {
      events := [];
    }

    method Find(id: Bytes) returns (r: Option<nat>)
      ensures r == IndexOf(events, id)
    {
      var i := 0;
      while i < |events|
        invariant i <= |events| && IndexFrom(events, id, i) == IndexOf(events, id)
      {
        if events[i].stated.id == id {
          return Some(i);
        }
        i := i + 1;
      }
      return None;
    }

    method Append(s: Statement) returns (ok: bool)
      modifies this
      ensures ok <==> Apply(old(events), s).Some?
      ensures events == if ok then Apply(old(events), s).value else old(events)
    {
      hide Storable, SameFact;
      var known := Find(s.id);
      if !Storable(s) || known.Some? || |events| >= MAX_EVENTS {
        return false;
      }
      if s.operation != Assert {
        if s.target == [] {
          return false;
        }
        var t := Find(s.target);
        if t.None? || !events[t.value].active || !SameFact(events[t.value].stated, s) {
          return false;
        }
        events := events[t.value := events[t.value].(active := false)];
      }
      events := events + [Event(s, s.operation != Retract)];
      return true;
    }

    method Clear()
      modifies this
      ensures events == []
    {
      events := [];
    }

    /** Replace the log by a stored one, if replaying it gives the flags it was stored with. */
    method Load(stored: seq<Event>) returns (ok: bool)
      modifies this
      ensures ok <==> Loadable(stored)
      ensures events == if ok then stored else old(events)
    {
      hide Apply, Acceptable;
      var all := Statements(stored);
      var replayed := new EventStore();
      for i := 0 to |stored|
        modifies replayed
        invariant Replay(all[..i]) == Some(replayed.events)
      {
        assert all[..i + 1][..i] == all[..i];
        var added := replayed.Append(stored[i].stated);
        if !added {
          ReplayNeedsPrefix(all, i + 1);
          return false;
        }
      }
      assert all[..|stored|] == all;
      ReplayCopies(all);
      for i := 0 to |stored|
        invariant forall k :: 0 <= k < i ==> replayed.events[k].active == stored[k].active
      {
        if replayed.events[i].active != stored[i].active {
          return false;
        }
      }
      assert forall k :: 0 <= k < |stored| ==> replayed.events[k].stated == stored[k].stated;
      assert replayed.events == stored;
      events := replayed.events;
      return true;
    }
  }

  lemma {:induction false} ReplayNeedsPrefix(all: seq<Statement>, n: nat)
    requires n <= |all| && Replay(all[..n]).None?
    ensures Replay(all).None?
    decreases |all|
  {
    if n == |all| {
      assert all[..n] == all;
    } else {
      assert all[..|all| - 1][..n] == all[..n];
      ReplayNeedsPrefix(all[..|all| - 1], n);
    }
  }

  lemma ReplayCopies(all: seq<Statement>)
    requires Replay(all).Some?
    ensures Statements(Replay(all).value) == all
  {
    ReplayMeans(all);
  }
}
