/** Dialogue sources: the value is looked for inside the turns spoken by the subject of the question. */
module DialogueSpans {
  import opened Bytes
  import opened Outcomes
  import opened Teacher
  import opened ValueTransport

  const SPACE_BYTE: Byte := 0x20
  const MAX_NAME: nat := 24
  const WIDE_COLON: Bytes := [0xEF, 0xBC, 0x9A]
  const CURRENT: Bytes := [0x63, 0x75, 0x72, 0x72, 0x65, 0x6E, 0x74]

  /** A colon, or the three bytes of the full-width one. */
  predicate ColonAt(raw: Bytes, i: nat) {
    OccursAt(raw, [0x3A], i) || OccursAt(raw, WIDE_COLON, i)
  }

  function SkipBlanks(raw: Bytes, i: nat): (r: nat)
    ensures i <= r && (i <= |raw| ==> r <= |raw|)
    decreases |raw| - i
  {
    if i < |raw| && raw[i] == SPACE_BYTE then SkipBlanks(raw, i + 1) else i
  }

  /** Where the word that ends at `i` begins: just after the space before it. */
  function WordStart(raw: Bytes, i: nat): (r: nat)
    requires i <= |raw|
    ensures r <= i && (r > 0 ==> raw[r - 1] == SPACE_BYTE)
    ensures forall k :: r <= k < i ==> raw[k] != SPACE_BYTE
  {
    if i > 0 && raw[i - 1] != SPACE_BYTE then WordStart(raw, i - 1) else i
  }

  /** A colon with a name of at most 24 bytes before it, and a space before the name. */
  predicate SpeakerAt(raw: Bytes, i: nat)
    requires i <= |raw|
  {
    ColonAt(raw, i) && 0 < WordStart(raw, i) < i && i - WordStart(raw, i) <= MAX_NAME
  }

  /** The first speaker colon at or after `i` closes the turn before the speaker's name. */
  function TurnEnd(raw: Bytes, i: nat): (r: nat)
    requires i <= |raw|
    ensures r <= |raw|
    decreases |raw| - i
  {
    if i == |raw| then |raw|
    else if SpeakerAt(raw, i) then WordStart(raw, i) - 1
    else TurnEnd(raw, i + 1)
  }

  function TurnBounds(raw: Bytes, colon: nat): (nat, nat)
    requires colon < |raw|
  {
    var start := SkipBlanks(raw, colon + 1);
    (start, TurnEnd(raw, start))
  }

  /** A name of `n` bytes, none of them a space, stands between a space and the colon at `i`. */
  predicate NameBefore(raw: Bytes, i: nat, n: nat) {
    && n < i <= |raw| && (OccursAt(raw, [0x3A], i) || OccursAt(raw, [0xEF, 0xBC, 0x9A], i))
    && 1 <= n <= 24 && raw[i - n - 1] == 0x20 && forall k :: i - n <= k < i ==> raw[k] != 0x20
  }

  lemma SpeakerIff(raw: Bytes, i: nat)
    requires i <= |raw|
    ensures SpeakerAt(raw, i) <==> exists n: nat :: NameBefore(raw, i, n)
    ensures forall n: nat :: NameBefore(raw, i, n) ==> WordStart(raw, i) == i - n
  {
    hide OccursAt;
    var w := WordStart(raw, i);
    if SpeakerAt(raw, i) {
      assert NameBefore(raw, i, i - w);
    }
    forall n: nat | NameBefore(raw, i, n) ensures w == i - n {
      assert raw[i - n - 1] == SPACE_BYTE && (w > 0 ==> raw[w - 1] == SPACE_BYTE);
    }
  }

  predicate NoName(raw: Bytes, from: nat, to: nat)
    requires from <= to <= |raw|
  {
    forall i, n :: from <= i < to && 0 <= n < i ==> !NameBefore(raw, i, n)
  }

  /** A turn begins after the blanks behind its colon, and ends before the space in front of the name of the next speaker, or
      with the text when no name with a colon follows. */
  lemma TurnMeans(raw: Bytes, colon: nat)
    requires colon < |raw|
    ensures var (start, end) := TurnBounds(raw, colon);
            && colon < start <= |raw| && end <= |raw| && (start < |raw| ==> raw[start] != 0x20)
            && (forall i :: colon < i < start ==> raw[i] == 0x20)
            && exists next: nat :: start <= next <= |raw| && NoName(raw, start, next)
                 && (if next == |raw| then end == |raw| else exists n: nat :: NameBefore(raw, next, n) && end == next - n - 1)
  {
    hide SpeakerAt, WordStart, NameBefore;
    BlanksMean(raw, colon + 1);
    var start := SkipBlanks(raw, colon + 1);
    var next := TurnEndMeans(raw, start);
    forall i, n | start <= i < next && 0 <= n < i ensures !NameBefore(raw, i, n) {
      SpeakerIff(raw, i);
      assert !SpeakerAt(raw, i);
    }
    assert NoName(raw, start, next);
    if next < |raw| {
      SpeakerIff(raw, next);
      var n: nat :| NameBefore(raw, next, n);
      NameBounds(raw, next, n);
      assert TurnBounds(raw, colon).1 == next - n - 1;
    }
  }

  lemma NameBounds(raw: Bytes, i: nat, n: nat)
    requires NameBefore(raw, i, n)
    ensures n < i
  {
  }

  predicate NoSpeaker(raw: Bytes, from: nat, to: nat)
    requires from <= to <= |raw|
  {
    forall i :: from <= i < to ==> !SpeakerAt(raw, i)
  }

  lemma {:induction false} BlanksMean(raw: Bytes, i: nat)
    requires i <= |raw|
    ensures var r := SkipBlanks(raw, i);
            (forall k :: i <= k < r ==> raw[k] == SPACE_BYTE) && (r < |raw| ==> raw[r] != SPACE_BYTE)
    decreases |raw| - i
  {
    if i < |raw| && raw[i] == SPACE_BYTE {
      BlanksMean(raw, i + 1);
    }
  }

  lemma {:induction false} TurnEndMeans(raw: Bytes, i: nat) returns (next: nat)
    requires i <= |raw|
    ensures i <= next <= |raw| && NoSpeaker(raw, i, next)
    ensures if next == |raw| then TurnEnd(raw, i) == |raw|
            else SpeakerAt(raw, next) && TurnEnd(raw, i) == WordStart(raw, next) - 1
    decreases |raw| - i
  {
    hide SpeakerAt, WordStart;
    if i == |raw| || SpeakerAt(raw, i) {
      next := i;
    } else {
      next := TurnEndMeans(raw, i + 1);
    }
  }

  method FindTurn(raw: Bytes, colon: nat) returns (start: nat, end: nat)
    requires colon < |raw|
    ensures (start, end) == TurnBounds(raw, colon)
  {
    start := colon + 1;
    while start < |raw| && raw[start] == SPACE_BYTE
      invariant start <= |raw| && SkipBlanks(raw, start) == SkipBlanks(raw, colon + 1)
    {
      start := start + 1;
    }
    hide SkipBlanks;
    end := ScanTurn(raw, start);
  }

  method ScanTurn(raw: Bytes, start: nat) returns (end: nat)
    requires start <= |raw|
    ensures end == TurnEnd(raw, start)
  {
    hide ColonAt, WordStart;
    var pos := start;
    while pos < |raw|
      invariant start <= pos <= |raw| && TurnEnd(raw, pos) == TurnEnd(raw, start)
    {
      if ColonAt(raw, pos) {
        var back := FindWordStart(raw, pos);
        if back > 0 && back < pos && pos - back <= MAX_NAME {
          return back - 1;
        }
      }
      pos := pos + 1;
    }
    return |raw|;
  }

  method FindWordStart(raw: Bytes, i: nat) returns (back: nat)
    requires i <= |raw|
    ensures back == WordStart(raw, i)
  {
    back := i;
    while back > 0 && raw[back - 1] != SPACE_BYTE
      invariant back <= i && WordStart(raw, back) == WordStart(raw, i)
    {
      back := back - 1;
    }
  }

  predicate SpokenBy(raw: Bytes, subject: Bytes, colon: nat)
    requires colon < |raw|
  {
    ColonAt(raw, colon) && raw[WordStart(raw, colon)..colon] == subject
  }

  /** The subject speaks: its name, which holds no space, stands before the colon, at the beginning or behind a space. */
  lemma SpokenIff(raw: Bytes, subject: Bytes, colon: nat)
    requires colon < |raw|
    ensures SpokenBy(raw, subject, colon) <==>
            && (OccursAt(raw, [0x3A], colon) || OccursAt(raw, [0xEF, 0xBC, 0x9A], colon))
            && 0x20 !in subject && |subject| <= colon && raw[colon - |subject|..colon] == subject
            && (|subject| < colon ==> raw[colon - |subject| - 1] == 0x20)
  {
    hide OccursAt;
    var w := WordStart(raw, colon);
    assert forall k :: 0 <= k < colon - w ==> raw[w..colon][k] == raw[w + k];
    if |subject| <= colon && raw[colon - |subject|..colon] == subject {
      assert forall k :: 0 <= k < |subject| ==> subject[k] == raw[colon - |subject| + k];
      assert 0x20 !in subject && (|subject| < colon ==> raw[colon - |subject| - 1] == 0x20) ==> w == colon - |subject|;
    }
  }

  /** Colons of the turns spoken by the subject, in order. */
  function SubjectTurns(raw: Bytes, subject: Bytes, from: nat): (r: seq<nat>)
    requires from <= |raw|
    ensures forall c :: c in r ==> from <= c < |raw| && SpokenBy(raw, subject, c)
    ensures forall c :: from <= c < |raw| && SpokenBy(raw, subject, c) ==> c in r
    decreases |raw| - from
  {
    if from == |raw| then []
    else (if SpokenBy(raw, subject, from) then [from] else []) + SubjectTurns(raw, subject, from + 1)
  }

  predicate Ascending(turns: seq<nat>) {
    forall i, j :: 0 <= i < j < |turns| ==> turns[i] < turns[j]
  }

  lemma {:induction false} TurnsAscend(raw: Bytes, subject: Bytes, from: nat)
    requires from <= |raw|
    ensures Ascending(SubjectTurns(raw, subject, from))
    decreases |raw| - from
  {
    hide SpokenBy;
    if from < |raw| {
      TurnsAscend(raw, subject, from + 1);
      var rest := SubjectTurns(raw, subject, from + 1);
      assert forall i :: 0 <= i < |rest| ==> rest[i] in rest;
    }
  }

  /** `size` bytes at `hit` lie inside the turn after `colon`. */
  predicate InTurn(raw: Bytes, colon: nat, hit: nat, size: nat) {
    colon < |raw| && TurnBounds(raw, colon).0 <= hit && hit + size <= TurnBounds(raw, colon).1
  }

  function FirstTurn(raw: Bytes, turns: seq<nat>, hit: nat, size: nat): (r: Option<nat>)
    ensures r.Some? ==> r.value in turns && InTurn(raw, r.value, hit, size)
    ensures r.None? ==> forall c :: c in turns ==> !InTurn(raw, c, hit, size)
  {
    if turns == [] then None
    else if InTurn(raw, turns[0], hit, size) then Some(turns[0])
    else FirstTurn(raw, turns[1..], hit, size)
  }

  lemma {:induction false} FirstIsLeast(raw: Bytes, turns: seq<nat>, hit: nat, size: nat)
    requires Ascending(turns) && FirstTurn(raw, turns, hit, size).Some?
    ensures forall c :: c in turns && c < FirstTurn(raw, turns, hit, size).value ==> !InTurn(raw, c, hit, size)
    decreases |turns|
  {
    hide InTurn;
    if !InTurn(raw, turns[0], hit, size) {
      assert forall i :: 0 <= i < |turns[1..]| ==> turns[1..][i] == turns[i + 1];
      FirstIsLeast(raw, turns[1..], hit, size);
      assert turns == [turns[0]] + turns[1..];
    }
  }

  /** An occurrence of the value with the turn that it was found in. */
  datatype Candidate = Candidate(hit: nat, colon: nat)

  function CandidatesFrom(raw: Bytes, value: Bytes, turns: seq<nat>, from: nat): (r: seq<Candidate>)
    decreases |raw| + 1 - from
  {
    var hit := Find(raw, value, from);
    if hit.None? then []
    else
      var turn := FirstTurn(raw, turns, hit.value, |value|);
      (if turn.Some? then [Candidate(hit.value, turn.value)] else []) + CandidatesFrom(raw, value, turns, hit.value + 1)
  }

  /** The targets, when the value is found at one place only. */
  function Annotated(raw: Bytes, value: Bytes, turns: seq<nat>): Option<ByteTargets> {
    var candidates := CandidatesFrom(raw, value, turns, 0);
    if turns == [] || |candidates| != 1 then None
    else
      var c := candidates[0];
      CandidateIsHit(raw, value, turns, 0, 0);
      Some(ByteTargets(1, Some(TurnBounds(raw, c.colon)), Some((c.hit, c.hit + |value|)), Some(0)))
  }

  function PositiveBytesDialogue(raw: Bytes, facts: seq<Fact>, subject: Bytes, relation: Bytes): Option<ByteTargets> {
    var matches := Matches(facts, subject, relation, CURRENT);
    if |matches| != 1 then None else Annotated(raw, matches[0].value, SubjectTurns(raw, subject, 0))
  }

  /** The value stands at `hit`, inside a turn of the subject. */
  predicate Hit(raw: Bytes, value: Bytes, turns: seq<nat>, hit: nat) {
    OccursAt(raw, value, hit) && FirstTurn(raw, turns, hit, |value|).Some?
  }

  /** The candidates from `from` on, unfolded once. */
  lemma CandidatesStep(raw: Bytes, value: Bytes, turns: seq<nat>, from: nat)
    ensures var hit, all := Find(raw, value, from), CandidatesFrom(raw, value, turns, from);
            && (hit.None? ==> all == [])
            && (hit.Some? ==>
                && hit.value <= |raw| && OccursAt(raw, value, hit.value)
                && var turn := FirstTurn(raw, turns, hit.value, |value|);
                   all == (if turn.Some? then [Candidate(hit.value, turn.value)] else [])
                          + CandidatesFrom(raw, value, turns, hit.value + 1))
  {
    hide TurnBounds;
  }

  lemma {:induction false} CandidateIsHit(raw: Bytes, value: Bytes, turns: seq<nat>, from: nat, k: nat)
    requires k < |CandidatesFrom(raw, value, turns, from)|
    ensures var c := CandidatesFrom(raw, value, turns, from)[k];
            && from <= c.hit && Hit(raw, value, turns, c.hit)
            && c.colon in turns && c.colon < |raw| && InTurn(raw, c.colon, c.hit, |value|)
            && FirstTurn(raw, turns, c.hit, |value|) == Some(c.colon)
    decreases |raw| + 1 - from
  {
    hide CandidatesFrom, FirstTurn, Find, TurnBounds, OccursAt;
    CandidatesStep(raw, value, turns, from);
    var hit := Find(raw, value, from).value;
    if FirstTurn(raw, turns, hit, |value|).None? {
      CandidateIsHit(raw, value, turns, hit + 1, k);
    } else if k > 0 {
      CandidateIsHit(raw, value, turns, hit + 1, k - 1);
    }
  }

  /** Candidates are exactly the hits, each once, in order. */
  lemma {:induction false} HitIsCandidate(raw: Bytes, value: Bytes, turns: seq<nat>, from: nat, at: nat)
    requires from <= at && Hit(raw, value, turns, at)
    ensures exists k :: 0 <= k < |CandidatesFrom(raw, value, turns, from)| && CandidatesFrom(raw, value, turns, from)[k].hit == at
    decreases |raw| + 1 - from
  {
    hide CandidatesFrom, FirstTurn, Find, InTurn, OccursAt;
    CandidatesStep(raw, value, turns, from);
    FindBefore(raw, value, from, at);
    var hit := Find(raw, value, from).value;
    var all := CandidatesFrom(raw, value, turns, from);
    if hit < at {
      HitIsCandidate(raw, value, turns, hit + 1, at);
      var rest := CandidatesFrom(raw, value, turns, hit + 1);
      var k :| 0 <= k < |rest| && rest[k].hit == at;
      assert all[|all| - |rest| + k] == rest[k];
    } else {
      assert all[0].hit == at;
    }
  }

  lemma FindBefore(raw: Bytes, value: Bytes, from: nat, at: nat)
    requires from <= at && OccursAt(raw, value, at)
    ensures Find(raw, value, from).Some? && Find(raw, value, from).value <= at
  {
    var first := Find(raw, value, from);
    assert at <= |raw|;
    hide Find, OccursAt;
  }

  lemma {:induction false} CandidatesAscend(raw: Bytes, value: Bytes, turns: seq<nat>, from: nat, i: nat, j: nat)
    requires i < j < |CandidatesFrom(raw, value, turns, from)|
    ensures CandidatesFrom(raw, value, turns, from)[i].hit < CandidatesFrom(raw, value, turns, from)[j].hit
    decreases |raw| + 1 - from
  {
    hide CandidatesFrom, FirstTurn, Find, InTurn, OccursAt, Hit;
    CandidatesStep(raw, value, turns, from);
    var hit := Find(raw, value, from).value;
    if FirstTurn(raw, turns, hit, |value|).None? {
      CandidatesAscend(raw, value, turns, hit + 1, i, j);
    } else if i == 0 {
      CandidateIsHit(raw, value, turns, hit + 1, j - 1);
    } else {
      CandidatesAscend(raw, value, turns, hit + 1, i - 1, j - 1);
    }
  }

  /** One place, and no other. */
  ghost predicate OnlyHit(raw: Bytes, value: Bytes, turns: seq<nat>, at: nat) {
    Hit(raw, value, turns, at) && forall other :: Hit(raw, value, turns, other) ==> other == at
  }

  ghost predicate HasOnlyHit(raw: Bytes, value: Bytes, turns: seq<nat>) {
    exists at :: OnlyHit(raw, value, turns, at)
  }

  lemma OneCandidate(raw: Bytes, value: Bytes, turns: seq<nat>)
    ensures |CandidatesFrom(raw, value, turns, 0)| == 1 <==> HasOnlyHit(raw, value, turns)
  {
    hide Hit, CandidatesFrom;
    var all := CandidatesFrom(raw, value, turns, 0);
    if |all| == 1 {
      CandidateIsHit(raw, value, turns, 0, 0);
      forall other | Hit(raw, value, turns, other) ensures other == all[0].hit {
        HitIsCandidate(raw, value, turns, 0, other);
      }
      assert OnlyHit(raw, value, turns, all[0].hit);
    }
    if at :| OnlyHit(raw, value, turns, at) {
      HitIsCandidate(raw, value, turns, 0, at);
      if |all| > 1 {
        CandidateIsHit(raw, value, turns, 0, 0);
        CandidateIsHit(raw, value, turns, 0, 1);
        CandidatesAscend(raw, value, turns, 0, 0, 1);
      }
    }
  }

  /** The targets name the place of the value and the first turn around it. */
  ghost predicate Names(raw: Bytes, value: Bytes, turns: seq<nat>, t: ByteTargets) {
    && t.route == 1 && t.idleMode == Some(0) && t.factBytes.Some? && t.valueBytes.Some?
    && var (vs, ve) := t.valueBytes.value;
       var (fs, fe) := t.factBytes.value;
       && fs <= vs <= ve <= fe <= |raw| && raw[vs..ve] == value
       && OnlyHit(raw, value, turns, vs)
       && exists colon :: colon in turns && colon < |raw| && (fs, fe) == TurnBounds(raw, colon)
            && FirstTurn(raw, turns, vs, |value|) == Some(colon)
  }

  lemma AnnotatedMeans(raw: Bytes, value: Bytes, turns: seq<nat>)
    ensures var r := Annotated(raw, value, turns);
            && (r.Some? <==> HasOnlyHit(raw, value, turns))
            && (r.Some? ==> Names(raw, value, turns, r.value))
  {
    hide CandidatesFrom, FirstTurn, SkipBlanks, TurnEnd, Hit;
    OneCandidate(raw, value, turns);
    var all := CandidatesFrom(raw, value, turns, 0);
    if |all| == 1 {
      CandidateIsHit(raw, value, turns, 0, 0);
      HitNeedsTurn(raw, value, turns, all[0].hit);
      TheOnlyHit(raw, value, turns, all[0].hit);
    }
  }

  lemma TheOnlyHit(raw: Bytes, value: Bytes, turns: seq<nat>, at: nat)
    requires Hit(raw, value, turns, at) && HasOnlyHit(raw, value, turns)
    ensures OnlyHit(raw, value, turns, at)
  {
    hide Hit;
  }

  /** The annotation succeeds exactly when one fact is asked for and its value occurs, overlaps counted, at exactly one
      place inside turns of the subject; it then names that place and the first turn of the subject around it. */
  lemma DialogueMeans(raw: Bytes, facts: seq<Fact>, subject: Bytes, relation: Bytes)
    ensures var matches := Matches(facts, subject, relation, [0x63, 0x75, 0x72, 0x72, 0x65, 0x6E, 0x74]);
            var turns := SubjectTurns(raw, subject, 0);
            var r := PositiveBytesDialogue(raw, facts, subject, relation);
            && (r.Some? <==> |matches| == 1 && HasOnlyHit(raw, matches[0].value, turns))
            && (r.Some? ==> Names(raw, matches[0].value, turns, r.value) && NamesFirst(raw, matches[0].value, turns, r.value))
            && forall c :: c in turns ==> c < |raw| && SpokenBy(raw, subject, c)
  {
    hide Annotated, Names, NamesFirst, HasOnlyHit, Matches, SpokenBy, SubjectTurns;
    var matches := Matches(facts, subject, relation, CURRENT);
    var turns := SubjectTurns(raw, subject, 0);
    if |matches| == 1 {
      assert PositiveBytesDialogue(raw, facts, subject, relation) == Annotated(raw, matches[0].value, turns);
      hide PositiveBytesDialogue;
      AnnotatedMeans(raw, matches[0].value, turns);
      TurnsAscend(raw, subject, 0);
      var r := Annotated(raw, matches[0].value, turns);
      if r.Some? {
        FirstIsNamed(raw, matches[0].value, turns, r.value);
      }
    }
  }

  /** The turn named is the first of the subject's turns that holds the value. */
  ghost predicate NamesFirst(raw: Bytes, value: Bytes, turns: seq<nat>, t: ByteTargets) {
    && t.factBytes.Some? && t.valueBytes.Some?
    && exists colon :: colon in turns && colon < |raw| && t.factBytes.value == TurnBounds(raw, colon)
         && InTurn(raw, colon, t.valueBytes.value.0, |value|)
         && forall c :: c in turns && c < colon ==> !InTurn(raw, c, t.valueBytes.value.0, |value|)
  }

  lemma FirstIsNamed(raw: Bytes, value: Bytes, turns: seq<nat>, t: ByteTargets)
    requires Ascending(turns) && Names(raw, value, turns, t)
    ensures NamesFirst(raw, value, turns, t)
  {
    hide OnlyHit, Hit, FirstTurn;
    FirstIsLeast(raw, turns, t.valueBytes.value.0, |value|);
  }

  lemma HitNeedsTurn(raw: Bytes, value: Bytes, turns: seq<nat>, at: nat)
    requires Hit(raw, value, turns, at)
    ensures turns != [] && OccursAt(raw, value, at)
  {
  }

  // ---- The loops as written

  /** The nearer of the next two kinds of colon. */
  method NextColon(raw: Bytes, from: nat) returns (r: Option<nat>)
    requires from <= |raw|
    ensures r.Some? ==> from <= r.value < |raw| && ColonAt(raw, r.value)
    ensures forall i :: from <= i < (if r.Some? then r.value else |raw|) ==> !ColonAt(raw, i)
  {
    var narrow := Find(raw, [0x3A], from);
    var wide := Find(raw, WIDE_COLON, from);
    if narrow.None? && wide.None? {
      return None;
    }
    r := if wide.None? || (narrow.Some? && narrow.value <= wide.value) then narrow else wide;
  }

  method CollectTurns(raw: Bytes, subject: Bytes) returns (turns: seq<nat>)
    ensures turns == SubjectTurns(raw, subject, 0)
  {
    hide ColonAt, WordStart, SubjectTurns, SpokenBy;
    turns := [];
    var pos := 0;
    while true
      invariant pos <= |raw| && turns + SubjectTurns(raw, subject, pos) == SubjectTurns(raw, subject, 0)
      decreases |raw| - pos
    {
      var hit := NextColon(raw, pos);
      if hit.None? {
        NoTurns(raw, subject, pos, |raw|);
        return;
      }
      NoTurns(raw, subject, pos, hit.value);
      var back := FindWordStart(raw, hit.value);
      TurnsStep(raw, subject, hit.value);
      if raw[back..hit.value] == subject {
        turns := turns + [hit.value];
      }
      pos := hit.value + 1;
    }
  }

  lemma TurnsStep(raw: Bytes, subject: Bytes, at: nat)
    requires at < |raw| && ColonAt(raw, at)
    ensures SubjectTurns(raw, subject, at) ==
            (if raw[WordStart(raw, at)..at] == subject then [at] else []) + SubjectTurns(raw, subject, at + 1)
  {
  }

  lemma {:induction false} NoTurns(raw: Bytes, subject: Bytes, from: nat, to: nat)
    requires from <= to <= |raw| && forall i :: from <= i < to ==> !ColonAt(raw, i)
    ensures SubjectTurns(raw, subject, from) == SubjectTurns(raw, subject, to)
    ensures to == |raw| ==> SubjectTurns(raw, subject, from) == []
    decreases |raw| - from
  {
    hide ColonAt, WordStart;
    if from < to {
      NoTurns(raw, subject, from + 1, to);
    }
  }

  method Locate(raw: Bytes, facts: seq<Fact>, subject: Bytes, relation: Bytes) returns (r: Option<ByteTargets>)
    ensures r == PositiveBytesDialogue(raw, facts, subject, relation)
  {
    hide SubjectTurns, Annotated, Matches, TurnBounds;
    var matches := Matches(facts, subject, relation, CURRENT);
    if |matches| != 1 {
      return None;
    }
    var turns := CollectTurns(raw, subject);
    r := Annotate(raw, matches[0].value, turns);
  }

  method Annotate(raw: Bytes, value: Bytes, turns: seq<nat>) returns (r: Option<ByteTargets>)
    ensures r == Annotated(raw, value, turns)
  {
    hide Find, TurnBounds, FirstTurn, CandidatesFrom, InTurn, Hit, OccursAt;
    if turns == [] {
      return None;
    }
    var candidates: seq<Candidate> := [];
    var search := 0;
    ghost var all := CandidatesFrom(raw, value, turns, 0);
    while true
      invariant candidates + CandidatesFrom(raw, value, turns, search) == all
      decreases |raw| + 1 - search
    {
      CandidatesStep(raw, value, turns, search);
      var hit := Find(raw, value, search);
      if hit.None? {
        break;
      }
      var turn := FirstTurn(raw, turns, hit.value, |value|);
      if turn.Some? {
        candidates := candidates + [Candidate(hit.value, turn.value)];
      }
      search := hit.value + 1;
    }
    if |candidates| != 1 {
      return None;
    }
    CandidateIsHit(raw, value, turns, 0, 0);
    assert candidates[0].colon < |raw|;
    var start, end := FindTurn(raw, candidates[0].colon);
    r := Some(ByteTargets(1, Some((start, end)), Some((candidates[0].hit, candidates[0].hit + |value|)), Some(0)));
  }
}
