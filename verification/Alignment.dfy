/** Aligning the tokens of a text with byte spans of it. */
module Alignment {
  import opened Bytes
  import opened Outcomes
  import opened UnicodeText
  import IndexLines

  type Range = Option<(int, int)>

  /** Byte offset at which piece `i` begins in the decoded text. */
  function Offset(pieces: seq<Bytes>, i: nat): nat
    requires i <= |pieces|
  {
    if i == 0 then 0 else Offset(pieces, i - 1) + |pieces[i - 1]|
  }

  lemma {:induction false} OffsetIsPrefix(pieces: seq<Bytes>, i: nat)
    requires i <= |pieces|
    ensures Offset(pieces, i) == |Concat(pieces[..i])|
  {
    if i > 0 {
      OffsetIsPrefix(pieces, i - 1);
      assert pieces[..i] == pieces[..i - 1] + [pieces[i - 1]];
      ConcatSnoc(pieces[..i - 1], pieces[i - 1]);
    }
  }

  lemma {:induction false} OffsetGrows(pieces: seq<Bytes>, i: nat, j: nat)
    requires i <= j <= |pieces|
    ensures Offset(pieces, i) <= Offset(pieces, j)
    decreases j
  {
    if i < j {
      OffsetGrows(pieces, i, j - 1);
    }
  }

  /** A piece is the stretch of the decoded text between two offsets. */
  lemma PieceIsSlice(pieces: seq<Bytes>, i: nat)
    requires i < |pieces|
    ensures Offset(pieces, i + 1) <= |Concat(pieces)|
    ensures Concat(pieces)[Offset(pieces, i)..Offset(pieces, i + 1)] == pieces[i]
  {
    OffsetIsPrefix(pieces, i);
    var before, after := pieces[..i], pieces[i + 1..];
    assert pieces == before + [pieces[i]] + after;
    ConcatAppend(before + [pieces[i]], after);
    ConcatSnoc(before, pieces[i]);
  }

  /** The tokenizer may decode with one space in front. */
  function Pad(raw: Bytes, decoded: Bytes): Option<nat> {
    if decoded == raw then Some(0) else if decoded == [0x20] + raw then Some(1) else None
  }

  // ---- Ranges of the source message inside its JSON frame

  function Literal(text: Text): Bytes {
    EncodeText([IndexLines.QUOTE] + IndexLines.EscapeAll(text) + [IndexLines.QUOTE])
  }

  /** The message needs no JSON escape, and the frame ends with its literal and a closing brace. */
  predicate Framed(text: Text, framed: Bytes) {
    && EncodeText(IndexLines.EscapeAll(text)) == EncodeText(text)
    && |framed| > |Literal(text)| && framed[|framed| - |Literal(text)| - 1..] == Literal(text) + [0x7D]
  }

  function RangeOf(pieces: seq<Bytes>, allowed: seq<bool>, start: int, i: nat): Range
    requires i < |pieces| && i < |allowed|
  {
    if allowed[i] then Some((Offset(pieces, i) - start, Offset(pieces, i + 1) - start)) else None
  }

  function RangesFrom(pieces: seq<Bytes>, allowed: seq<bool>, start: int, n: nat): (r: seq<Range>)
    requires n <= |pieces| && n <= |allowed|
    ensures |r| == n && forall i :: 0 <= i < n ==> r[i] == RangeOf(pieces, allowed, start, i)
  {
    if n == 0 then [] else RangesFrom(pieces, allowed, start, n - 1) + [RangeOf(pieces, allowed, start, n - 1)]
  }

  function Zipped(pieces: seq<Bytes>, allowed: seq<bool>): nat {
    if |pieces| <= |allowed| then |pieces| else |allowed|
  }

  function SourceAlignment(text: Text, framed: Bytes, pieces: seq<Bytes>, allowed: seq<bool>): Option<seq<Range>> {
    var pad := Pad(framed, Concat(pieces));
    if pad.None? || !Framed(text, framed) then None
    else Some(RangesFrom(pieces, allowed, |framed| - |Literal(text)| + pad.value, Zipped(pieces, allowed)))
  }

  method AlignSource(text: Text, framed: Bytes, pieces: seq<Bytes>, allowed: seq<bool>) returns (r: Option<seq<Range>>)
    ensures r == SourceAlignment(text, framed, pieces, allowed)
  {
    hide Framed, Literal, Concat;
    var pad := Pad(framed, Concat(pieces));
    if pad.None? || !Framed(text, framed) {
      return None;
    }
    var start := |framed| - |Literal(text)| + pad.value;
    var offset := 0;
    var ranges: seq<Range> := [];
    for i := 0 to Zipped(pieces, allowed)
      invariant ranges == RangesFrom(pieces, allowed, start, i) && offset == Offset(pieces, i)
    {
      var end := offset + |pieces[i]|;
      ranges := ranges + [if allowed[i] then Some((offset - start, end - start)) else None];
      offset := end;
    }
    r := Some(ranges);
  }

  lemma {:induction false} EscapeSame(text: Text)
    ensures IndexLines.EscapeAll(text) == text <==> forall i :: 0 <= i < |text| ==> IndexLines.Escape(text[i]) == [text[i]]
    ensures |IndexLines.EscapeAll(text)| >= |text|
    decreases |text|
  {
    if text != [] {
      hide IndexLines.Escape;
      var first, rest := IndexLines.Escape(text[0]), IndexLines.EscapeAll(text[1..]);
      EscapeSame(text[1..]);
      assert text == [text[0]] + text[1..];
      if first + rest == text {
        assert |first| == 1 && (first + rest)[0] == first[0] && (first + rest)[1..] == rest;
        forall i | 0 <= i < |text| ensures IndexLines.Escape(text[i]) == [text[i]] {
          if i > 0 {
            assert text[i] == text[1..][i - 1];
          }
        }
      }
    }
  }

  /** A message is supported only if JSON writes each of its characters as itself. */
  lemma FramedNeedsNoEscape(text: Text, framed: Bytes)
    requires Framed(text, framed)
    ensures forall i :: 0 <= i < |text| ==> IndexLines.Escape(text[i]) == [text[i]]
    ensures Literal(text) == [0x22] + EncodeText(text) + [0x22]
  {
    hide IndexLines.EscapeAll, IndexLines.Escape, EncodeChar;
    TextRoundTrip(IndexLines.EscapeAll(text));
    TextRoundTrip(text);
    EscapeSame(text);
    EncodeAppend([IndexLines.QUOTE] + text, [IndexLines.QUOTE]);
    EncodeAppend([IndexLines.QUOTE], text);
    QuoteEncoded();
  }

  lemma QuoteEncoded()
    ensures EncodeText([IndexLines.QUOTE]) == [0x22]
  {
    assert [IndexLines.QUOTE][1..] == [];
  }

  /** Every allowed piece that lies inside the message has a range whose slice of the message is that piece. */
  lemma RangeIsPiece(text: Text, framed: Bytes, pieces: seq<Bytes>, allowed: seq<bool>, i: nat)
    requires SourceAlignment(text, framed, pieces, allowed).Some? && i < |pieces| && i < |allowed|
    ensures var raw := EncodeText(text);
            var r := SourceAlignment(text, framed, pieces, allowed).value;
            && i < |r| <= |pieces| && |r| <= |allowed|
            && (r[i].Some? <==> allowed[i])
            && (r[i].Some? && 0 <= r[i].value.0 && r[i].value.1 <= |raw| ==>
                r[i].value.0 <= r[i].value.1 && raw[r[i].value.0..r[i].value.1] == pieces[i])
  {
    hide IndexLines.EscapeAll, EncodeText, Concat, Offset, Framed, Literal;
    var pad := Pad(framed, Concat(pieces)).value;
    var at := |framed| - |Literal(text)|;
    FramedNeedsNoEscape(text, framed);
    PieceIsSlice(pieces, i);
    OffsetGrows(pieces, i, i + 1);
    FramedAt(text, framed);
    SliceOfSlice(Concat(pieces), framed, EncodeText(text), pad, at, Offset(pieces, i), Offset(pieces, i + 1));
  }

  lemma FramedAt(text: Text, framed: Bytes)
    requires Framed(text, framed)
    ensures var raw, at := EncodeText(text), |framed| - |Literal(text)|;
            0 <= at && at + |raw| <= |framed| && framed[at..at + |raw|] == raw
  {
    hide IndexLines.EscapeAll, EncodeText;
    FramedNeedsNoEscape(text, framed);
    hide Literal;
    FramedText(framed, EncodeText(text), |framed| - |Literal(text)| - 1);
  }

  lemma SliceOfSlice(decoded: Bytes, framed: Bytes, raw: Bytes, pad: nat, at: nat, from: nat, to: nat)
    requires |decoded| == pad + |framed| && decoded[pad..] == framed
    requires at + |raw| <= |framed| && framed[at..at + |raw|] == raw
    requires from <= to <= |decoded|
    ensures at + pad <= from && to <= at + pad + |raw| ==> raw[from - at - pad..to - at - pad] == decoded[from..to]
  {
    if at + pad <= from && to <= at + pad + |raw| {
      InnerSlice(decoded, pad, |decoded|, from - pad, to - pad);
      InnerSlice(framed, at, at + |raw|, from - at - pad, to - at - pad);
      assert decoded[pad..|decoded|] == framed;
    }
  }

  lemma FramedText(framed: Bytes, raw: Bytes, at: nat)
    requires at <= |framed| && framed[at..] == [0x22] + raw + [0x22] + [0x7D]
    ensures at + 1 + |raw| <= |framed| && framed[at + 1..at + 1 + |raw|] == raw
  {
    var tail := framed[at..|framed|];
    assert tail == framed[at..] && tail[1..1 + |raw|] == raw;
    InnerSlice(framed, at, |framed|, 1, 1 + |raw|);
  }

  // ---- Exact spans

  /** Position of a text that Python's `count` finds once. */
  function UniqueAt(raw: Bytes, needle: Bytes): (r: Option<nat>) {
    if Count(raw, needle, 0) != 1 then None else Find(raw, needle, 0)
  }

  lemma UniqueOccurs(raw: Bytes, needle: Bytes)
    requires UniqueAt(raw, needle).Some?
    ensures OccursAt(raw, needle, UniqueAt(raw, needle).value)
  {
  }

  function StartsAt(ranges: seq<Range>, at: int): seq<nat> {
    if ranges == [] then []
    else
      var n := |ranges| - 1;
      StartsAt(ranges[..n], at) + (if ranges[n].Some? && ranges[n].value.0 == at then [n] else [])
  }

  function EndsAt(ranges: seq<Range>, at: int): seq<nat> {
    if ranges == [] then []
    else
      var n := |ranges| - 1;
      EndsAt(ranges[..n], at) + (if ranges[n].Some? && ranges[n].value.1 == at then [n + 1] else [])
  }

  /** Pieces `i` to `j`, exclusive: the only one that starts at `start`, and the only one that ends at `end`. */
  function Bounds(ranges: seq<Range>, start: int, end: int): Option<(nat, nat)> {
    var starts, ends := StartsAt(ranges, start), EndsAt(ranges, end);
    if |starts| != 1 || |ends| != 1 then None else Some((starts[0], ends[0]))
  }

  function ExactSpan(raw: Bytes, needle: Bytes, ranges: seq<Range>): Option<(nat, nat)> {
    var at := UniqueAt(raw, needle);
    if at.None? then None else Bounds(ranges, at.value, at.value + |needle|)
  }

  lemma {:induction false} StartsAtMeans(ranges: seq<Range>, at: int)
    ensures forall k :: 0 <= k < |StartsAt(ranges, at)| ==>
              var i := StartsAt(ranges, at)[k]; i < |ranges| && ranges[i].Some? && ranges[i].value.0 == at
    decreases |ranges|
  {
    if ranges != [] {
      StartsAtMeans(ranges[..|ranges| - 1], at);
    }
  }

  lemma {:induction false} EndsAtMeans(ranges: seq<Range>, at: int)
    ensures forall k :: 0 <= k < |EndsAt(ranges, at)| ==>
              var j := EndsAt(ranges, at)[k]; 0 < j <= |ranges| && ranges[j - 1].Some? && ranges[j - 1].value.1 == at
    decreases |ranges|
  {
    if ranges != [] {
      EndsAtMeans(ranges[..|ranges| - 1], at);
    }
  }

  /** Piece `k` has a range, and it begins at `at`; piece `k - 1` has one, and it ends there. */
  predicate Starts(ranges: seq<Range>, at: int, k: int) {
    0 <= k < |ranges| && ranges[k].Some? && ranges[k].value.0 == at
  }

  predicate Ends(ranges: seq<Range>, at: int, k: int) {
    0 < k <= |ranges| && ranges[k - 1].Some? && ranges[k - 1].value.1 == at
  }

  ghost predicate OnlyStart(ranges: seq<Range>, at: int, i: int) {
    Starts(ranges, at, i) && forall k :: Starts(ranges, at, k) ==> k == i
  }

  ghost predicate OnlyEnd(ranges: seq<Range>, at: int, j: int) {
    Ends(ranges, at, j) && forall k :: Ends(ranges, at, k) ==> k == j
  }

  /** Strictly increasing, and below a bound. */
  predicate Rising(s: seq<nat>, below: nat) {
    && (forall a, b :: 0 <= a < b < |s| ==> s[a] < s[b])
    && forall a :: 0 <= a < |s| ==> s[a] < below
  }

  lemma RisingSnoc(s: seq<nat>, below: nat)
    requires Rising(s, below)
    ensures Rising(s, below + 1) && Rising(s + [below], below + 1)
  {
  }

  lemma {:induction false} StartsAtIff(ranges: seq<Range>, at: int)
    ensures forall k :: k in StartsAt(ranges, at) <==> Starts(ranges, at, k)
    ensures Rising(StartsAt(ranges, at), |ranges|)
    decreases |ranges|
  {
    if ranges != [] {
      var n := |ranges| - 1;
      var init := ranges[..n];
      var s := StartsAt(init, at);
      assert StartsAt(ranges, at) == s + (if Starts(ranges, at, n) then [n] else []);
      assert forall k :: Starts(ranges, at, k) <==> Starts(init, at, k) || (k == n && Starts(ranges, at, n));
      hide StartsAt, Starts, Rising;
      StartsAtIff(init, at);
      RisingSnoc(s, n);
    }
  }

  lemma EndsSnoc(ranges: seq<Range>, at: int, k: int)
    requires ranges != []
    ensures var n := |ranges| - 1;
            Ends(ranges, at, k) <==> Ends(ranges[..n], at, k) || (k == n + 1 && ranges[n].Some? && ranges[n].value.1 == at)
  {
  }

  lemma {:induction false} EndsAtIff(ranges: seq<Range>, at: int)
    ensures forall k :: k in EndsAt(ranges, at) <==> Ends(ranges, at, k)
    ensures Rising(EndsAt(ranges, at), |ranges| + 1)
    decreases |ranges|
  {
    if ranges == [] {
      assert EndsAt(ranges, at) == [];
    } else {
      var n := |ranges| - 1;
      var s, last := EndsAt(ranges[..n], at), if ranges[n].Some? && ranges[n].value.1 == at then [n + 1] else [];
      assert EndsAt(ranges, at) == s + last;
      hide EndsAt, Ends, Rising;
      EndsAtIff(ranges[..n], at);
      RisingSnoc(s, n + 1);
      forall k ensures k in s + last <==> Ends(ranges, at, k) {
        EndsSnoc(ranges, at, k);
      }
    }
  }

  lemma OneIff(s: seq<nat>, x: nat, below: nat)
    requires Rising(s, below)
    ensures s == [x] <==> x in s && forall y :: y in s ==> y == x
  {
    assert |s| <= 1 || s[0] < s[1];
    assert forall a :: 0 <= a < |s| ==> s[a] in s;
  }

  /** An exact span exists exactly when the value stands once in the text and one single piece begins, and one ends, where it
      does. */
  lemma ExactSpanIff(raw: Bytes, needle: Bytes, ranges: seq<Range>, i: nat, j: nat)
    ensures ExactSpan(raw, needle, ranges) == Some((i, j)) <==>
            exists at: nat :: OnceAt(raw, needle, at) && OnlyStart(ranges, at, i) && OnlyEnd(ranges, at + |needle|, j)
  {
    hide Count, Find, StartsAt, EndsAt, OccursAt, OnceAt;
    CountMeans(raw, needle);
    forall at: nat | OnceAt(raw, needle, at)
      ensures UniqueAt(raw, needle) == Some(at)
      ensures Bounds(ranges, at, at + |needle|) == Some((i, j)) <==>
              OnlyStart(ranges, at, i) && OnlyEnd(ranges, at + |needle|, j)
    {
      BoundsIff(ranges, at, at + |needle|, i, j);
    }
  }

  lemma BoundsIff(ranges: seq<Range>, start: int, end: int, i: nat, j: nat)
    ensures Bounds(ranges, start, end) == Some((i, j)) <==> OnlyStart(ranges, start, i) && OnlyEnd(ranges, end, j)
  {
    hide StartsAt, EndsAt, Starts, Ends, Rising;
    StartsAtIff(ranges, start);
    EndsAtIff(ranges, end);
    var starts, ends := StartsAt(ranges, start), EndsAt(ranges, end);
    OneIff(starts, i, |ranges|);
    OneIff(ends, j, |ranges| + 1);
    assert forall k :: OnlyStart(ranges, start, k) ==> k in starts;
    assert forall k :: OnlyEnd(ranges, end, k) ==> k in ends;
  }

  // ---- Spans of overlapping tokens

  predicate Overlaps(pieces: seq<Bytes>, i: nat, start: int, end: int)
    requires i < |pieces|
  {
    Offset(pieces, i) < end && Offset(pieces, i + 1) > start
  }

  function PositionsUpto(pieces: seq<Bytes>, start: int, end: int, n: nat): seq<nat>
    requires n <= |pieces|
  {
    if n == 0 then []
    else PositionsUpto(pieces, start, end, n - 1) + (if Overlaps(pieces, n - 1, start, end) then [n - 1] else [])
  }

  function Covering(pieces: seq<Bytes>, start: int, end: int): Option<seq<nat>> {
    var positions := PositionsUpto(pieces, start, end, |pieces|);
    if positions == [] then None else Some(positions)
  }

  function TokenSpan(raw: Bytes, pieces: seq<Bytes>, needle: Bytes): Option<seq<nat>> {
    var pad, at := Pad(raw, Concat(pieces)), UniqueAt(raw, needle);
    if pad.None? || at.None? then None
    else Covering(pieces, at.value + pad.value, at.value + pad.value + |needle|)
  }

  method FindTokenSpan(raw: Bytes, pieces: seq<Bytes>, needle: Bytes) returns (r: Option<seq<nat>>)
    ensures r == TokenSpan(raw, pieces, needle)
  {
    hide Concat, UniqueAt;
    var pad := Pad(raw, Concat(pieces));
    var at := UniqueAt(raw, needle);
    if pad.None? || at.None? {
      return None;
    }
    var start := at.value + pad.value;
    var end := start + |needle|;
    var offset := 0;
    var positions: seq<nat> := [];
    for i := 0 to |pieces|
      invariant offset == Offset(pieces, i) && positions == PositionsUpto(pieces, start, end, i)
    {
      if offset < end && offset + |pieces[i]| > start {
        positions := positions + [i];
      }
      offset := offset + |pieces[i]|;
    }
    r := if positions == [] then None else Some(positions);
  }

  /** `i`, `i + 1`, … up to but not including `j`. */
  function Interval(i: nat, j: nat): (r: seq<nat>)
    requires i <= j
    ensures |r| == j - i && forall k :: 0 <= k < j - i ==> r[k] == i + k
  {
    seq(j - i, k requires 0 <= k < j - i => i + k)
  }

  /** First piece that ends after `start`, or the number of pieces. */
  function FirstAfter(pieces: seq<Bytes>, start: int, i: nat): (r: nat)
    requires i <= |pieces|
    ensures i <= r <= |pieces|
    ensures forall k :: i < k <= r ==> Offset(pieces, k) <= start
    ensures r < |pieces| ==> Offset(pieces, r + 1) > start
    decreases |pieces| - i
  {
    if i == |pieces| || Offset(pieces, i + 1) > start then i else FirstAfter(pieces, start, i + 1)
  }

  /** First piece that begins at `end` or later, or the number of pieces. */
  function FirstFrom(pieces: seq<Bytes>, end: int, i: nat): (r: nat)
    requires i <= |pieces|
    ensures i <= r <= |pieces|
    ensures forall k :: i <= k < r ==> Offset(pieces, k) < end
    ensures r < |pieces| ==> Offset(pieces, r) >= end
    decreases |pieces| - i
  {
    if i == |pieces| || Offset(pieces, i) >= end then i else FirstFrom(pieces, end, i + 1)
  }

  lemma OverlapsIsInterval(pieces: seq<Bytes>, start: int, end: int, i: nat)
    requires i < |pieces|
    ensures Overlaps(pieces, i, start, end) <==> FirstAfter(pieces, start, 0) <= i < FirstFrom(pieces, end, 0)
  {
    var lo, hi := FirstAfter(pieces, start, 0), FirstFrom(pieces, end, 0);
    if lo <= i {
      OffsetGrows(pieces, lo + 1, i + 1);
    }
    if hi <= i {
      OffsetGrows(pieces, hi, i);
    }
  }

  lemma {:induction false} PositionsAre(pieces: seq<Bytes>, start: int, end: int, n: nat)
    requires n <= |pieces|
    ensures var lo, hi := FirstAfter(pieces, start, 0), FirstFrom(pieces, end, 0);
            var top := if hi < n then hi else n;
            PositionsUpto(pieces, start, end, n) == if lo <= top then Interval(lo, top) else []
  {
    hide Overlaps, Offset, FirstAfter, FirstFrom;
    if n > 0 {
      PositionsAre(pieces, start, end, n - 1);
      OverlapsIsInterval(pieces, start, end, n - 1);
    }
  }

  /** One unbroken stretch of tokens, that covers `start` to `end`. */
  predicate Stretch(pieces: seq<Bytes>, span: seq<nat>, start: int, end: int) {
    && span != [] && span[0] <= span[|span| - 1] < |pieces|
    && span == Interval(span[0], span[|span| - 1] + 1)
    && Offset(pieces, span[0]) <= start && end <= Offset(pieces, span[|span| - 1] + 1)
  }

  /** Exactly the tokens that overlap `start` to `end`. */
  predicate Collects(pieces: seq<Bytes>, span: seq<nat>, start: int, end: int) {
    forall i :: 0 <= i < |pieces| ==> (i in span <==> Overlaps(pieces, i, start, end))
  }

  lemma PositionsStretch(pieces: seq<Bytes>, start: int, end: int)
    requires 0 <= start < end <= Offset(pieces, |pieces|)
    ensures var span := PositionsUpto(pieces, start, end, |pieces|);
            (span != [] ==> Stretch(pieces, span, start, end)) && Collects(pieces, span, start, end)
  {
    var lo, hi := FirstAfter(pieces, start, 0), FirstFrom(pieces, end, 0);
    PositionsAre(pieces, start, end, |pieces|);
    var span := PositionsUpto(pieces, start, end, |pieces|);
    forall i | 0 <= i < |pieces| ensures i in span <==> Overlaps(pieces, i, start, end) {
      OverlapsIsInterval(pieces, start, end, i);
      assert lo <= i < hi ==> span[i - lo] == i;
    }
  }

  /** The token span is one unbroken stretch of tokens: exactly those that overlap the value, and together they cover it. */
  lemma TokenSpanMeans(raw: Bytes, pieces: seq<Bytes>, needle: Bytes)
    requires needle != [] && TokenSpan(raw, pieces, needle).Some?
    ensures UniqueAt(raw, needle).Some? && Pad(raw, Concat(pieces)).Some?
    ensures var span := TokenSpan(raw, pieces, needle).value;
            var start := UniqueAt(raw, needle).value + Pad(raw, Concat(pieces)).value;
            Stretch(pieces, span, start, start + |needle|) && Collects(pieces, span, start, start + |needle|)
  {
    hide UniqueAt, Concat, Offset, Stretch, Collects, PositionsUpto;
    NeedleSlice(raw, needle, Concat(pieces), Pad(raw, Concat(pieces)).value);
    hide Pad;
    WholeOffset(pieces);
    var start := UniqueAt(raw, needle).value + Pad(raw, Concat(pieces)).value;
    PositionsStretch(pieces, start, start + |needle|);
  }

  lemma WholeOffset(pieces: seq<Bytes>)
    ensures Offset(pieces, |pieces|) == |Concat(pieces)|
  {
    OffsetIsPrefix(pieces, |pieces|);
    assert pieces[..|pieces|] == pieces;
  }

  /** Ranges of the same pieces, moved so that the text starts at zero; disallowed ones are missing. */
  predicate Aligned(ranges: seq<Range>, pieces: seq<Bytes>, pad: nat) {
    |ranges| <= |pieces| && forall i :: 0 <= i < |ranges| ==> AlignedAt(ranges, pieces, pad, i)
  }

  predicate AlignedAt(ranges: seq<Range>, pieces: seq<Bytes>, pad: nat, i: nat)
    requires i < |ranges| <= |pieces|
  {
    ranges[i].Some? ==> ranges[i].value == (Offset(pieces, i) - pad, Offset(pieces, i + 1) - pad)
  }

  predicate NoneEmpty(pieces: seq<Bytes>) {
    forall i :: 0 <= i < |pieces| ==> pieces[i] != []
  }

  lemma BoundsSpell(ranges: seq<Range>, pieces: seq<Bytes>, pad: nat, at: nat, needle: Bytes)
    requires Aligned(ranges, pieces, pad) && needle != [] && Bounds(ranges, at, at + |needle|).Some? && NoneEmpty(pieces)
    requires at + pad + |needle| <= |Concat(pieces)| && Concat(pieces)[at + pad..at + pad + |needle|] == needle
    ensures var (i, j) := Bounds(ranges, at, at + |needle|).value;
            && i < j <= |pieces| && Covering(pieces, at + pad, at + pad + |needle|) == Some(Interval(i, j))
            && Concat(pieces[i..j]) == needle
  {
    hide Concat, Bounds, Covering, Aligned, NoneEmpty, Offset;
    BoundsCover(ranges, pieces, pad, at, |needle|);
    var (i, j) := Bounds(ranges, at, at + |needle|).value;
    SpellsNeedle(pieces, i, j, needle, at + pad);
  }

  lemma SpellsNeedle(pieces: seq<Bytes>, i: nat, j: nat, needle: Bytes, at: nat)
    requires i <= j <= |pieces| && Offset(pieces, i) == at && Offset(pieces, j) == at + |needle|
    requires at + |needle| <= |Concat(pieces)| && Concat(pieces)[at..at + |needle|] == needle
    ensures Concat(pieces[i..j]) == needle
  {
    hide Concat, Offset;
    ConcatBetween(pieces, i, j);
  }

  lemma BoundsCover(ranges: seq<Range>, pieces: seq<Bytes>, pad: nat, at: nat, size: nat)
    requires Aligned(ranges, pieces, pad) && size > 0 && Bounds(ranges, at, at + size).Some?
    requires NoneEmpty(pieces)
    ensures var (i, j) := Bounds(ranges, at, at + size).value;
            && i < j <= |pieces| && Offset(pieces, i) == at + pad && Offset(pieces, j) == at + pad + size
            && Covering(pieces, at + pad, at + pad + size) == Some(Interval(i, j))
  {
    hide StartsAt, EndsAt, Offset, PositionsUpto, AlignedAt;
    var (i, j) := Bounds(ranges, at, at + size).value;
    StartsAtMeans(ranges, at);
    EndsAtMeans(ranges, at + size);
    assert StartsAt(ranges, at)[0] == i && EndsAt(ranges, at + size)[0] == j;
    assert AlignedAt(ranges, pieces, pad, i) && AlignedAt(ranges, pieces, pad, j - 1);
    AlignedEnds(ranges, pieces, pad, i, j);
    ExactPositions(pieces, at + pad, at + pad + size, i, j);
  }

  lemma AlignedEnds(ranges: seq<Range>, pieces: seq<Bytes>, pad: nat, i: nat, j: nat)
    requires i < |ranges| <= |pieces| && 0 < j <= |ranges| && ranges[i].Some? && ranges[j - 1].Some?
    requires AlignedAt(ranges, pieces, pad, i) && AlignedAt(ranges, pieces, pad, j - 1)
    ensures Offset(pieces, i) == ranges[i].value.0 + pad && Offset(pieces, j) == ranges[j - 1].value.1 + pad
  {
  }

  lemma ExactPositions(pieces: seq<Bytes>, start: int, end: int, i: nat, j: nat)
    requires i <= |pieces| && j <= |pieces| && start < end && Offset(pieces, i) == start && Offset(pieces, j) == end
    requires NoneEmpty(pieces)
    ensures i < j && PositionsUpto(pieces, start, end, |pieces|) == Interval(i, j) && Interval(i, j) != []
  {
    if j <= i {
      OffsetGrows(pieces, j, i);
      assert false;
    }
    AfterIs(pieces, start, i);
    FromIs(pieces, end, j);
    PositionsAre(pieces, start, end, |pieces|);
  }

  lemma AfterIs(pieces: seq<Bytes>, start: int, i: nat)
    requires i < |pieces| && Offset(pieces, i) == start && pieces[i] != []
    ensures FirstAfter(pieces, start, 0) == i
  {
    var lo := FirstAfter(pieces, start, 0);
    if lo < i {
      OffsetGrows(pieces, lo + 1, i);
    }
    assert Offset(pieces, i + 1) > start;
  }

  lemma FromIs(pieces: seq<Bytes>, end: int, j: nat)
    requires j <= |pieces| && Offset(pieces, j) == end
    requires NoneEmpty(pieces)
    ensures FirstFrom(pieces, end, 0) == j
  {
    var hi := FirstFrom(pieces, end, 0);
    if hi < j {
      OffsetStep(pieces, hi);
      OffsetGrows(pieces, hi + 1, j);
    }
  }

  lemma OffsetStep(pieces: seq<Bytes>, k: nat)
    requires k < |pieces| && pieces[k] != []
    ensures Offset(pieces, k + 1) > Offset(pieces, k)
  {
  }

  lemma ConcatBetween(pieces: seq<Bytes>, i: nat, j: nat)
    requires i <= j <= |pieces|
    ensures Offset(pieces, i) <= Offset(pieces, j) <= |Concat(pieces)|
    ensures Concat(pieces[i..j]) == Concat(pieces)[Offset(pieces, i)..Offset(pieces, j)]
  {
    hide Concat, Offset;
    OffsetIsPrefix(pieces, i);
    OffsetIsPrefix(pieces, j);
    assert pieces == pieces[..j] + pieces[j..] && pieces[..j] == pieces[..i] + pieces[i..j];
    ConcatAppend(pieces[..j], pieces[j..]);
    ConcatAppend(pieces[..i], pieces[i..j]);
    MiddleSlice(Concat(pieces[..i]), Concat(pieces[i..j]), Concat(pieces[j..]));
  }

  lemma MiddleSlice(a: Bytes, b: Bytes, c: Bytes)
    ensures (a + b + c)[|a|..|a + b|] == b
  {
  }

  lemma NeedleSlice(raw: Bytes, needle: Bytes, decoded: Bytes, pad: nat)
    requires Pad(raw, decoded) == Some(pad) && UniqueAt(raw, needle).Some?
    ensures var at := UniqueAt(raw, needle).value;
            at + pad + |needle| <= |decoded| && decoded[at + pad..at + pad + |needle|] == needle
  {
    var at := UniqueAt(raw, needle).value;
    UniqueOccurs(raw, needle);
    hide UniqueAt;
    assert decoded[pad..] == raw;
    SliceOfSlice(decoded, raw, raw, pad, 0, at + pad, at + pad + |needle|);
  }

  /** An exact span, taken through the ranges of a framed message, is made of the pieces that spell the value; and it is the
      token span of the value in the frame whenever there is one. */
  lemma ExactSpanIsTokenSpan(text: Text, framed: Bytes, pieces: seq<Bytes>, allowed: seq<bool>, needle: Bytes)
    requires SourceAlignment(text, framed, pieces, allowed).Some? && NoneEmpty(pieces) && needle != []
    requires ExactSpan(EncodeText(text), needle, SourceAlignment(text, framed, pieces, allowed).value).Some?
    ensures var (i, j) := ExactSpan(EncodeText(text), needle, SourceAlignment(text, framed, pieces, allowed).value).value;
            && i < j <= |pieces| && Concat(pieces[i..j]) == needle
            && (UniqueAt(framed, needle).Some? ==> TokenSpan(framed, pieces, needle) == Some(Interval(i, j)))
  {
    hide UniqueAt, Concat, Bounds, NoneEmpty, OccursAt, Offset, Framed, EncodeText, Literal, Covering;
    var ranges := SourceAlignment(text, framed, pieces, allowed).value;
    var raw := EncodeText(text);
    var at := UniqueAt(raw, needle).value;
    var pad := Pad(framed, Concat(pieces)).value;
    FramedAt(text, framed);
    var from := |framed| - |Literal(text)|;
    UniqueInside(raw, needle);
    PadSlice(framed, Concat(pieces), pad);
    SliceOfSlice(Concat(pieces), framed, raw, pad, from, at + from + pad, at + from + pad + |needle|);
    BoundsSpell(ranges, pieces, from + pad, at, needle);
    if UniqueAt(framed, needle).Some? {
      NoQuoteInside(text, framed);
      UniqueInFrame(framed, raw, needle, from);
    }
    hide Pad;
  }

  /** The opening quote stands right before the message, and no quote stands in it. */
  lemma NoQuoteInside(text: Text, framed: Bytes)
    requires Framed(text, framed)
    ensures var at := |framed| - |Literal(text)|; 0 < at <= |framed| && framed[at - 1] == 0x22
    ensures 0x22 !in EncodeText(text)
  {
    hide IndexLines.EscapeAll, EncodeText;
    FramedNeedsNoEscape(text, framed);
    QuoteNotEncoded(text);
    hide Literal;
    var at := |framed| - |Literal(text)| - 1;
    assert framed[at] == framed[at..][0] == (Literal(text) + [0x7D])[0];
  }

  lemma {:induction false} QuoteNotEncoded(text: Text)
    requires forall i :: 0 <= i < |text| ==> IndexLines.Escape(text[i]) == [text[i]]
    ensures 0x22 !in EncodeText(text)
  {
    if text != [] {
      assert forall i :: 0 <= i < |text[1..]| ==> text[1..][i] == text[i + 1];
      QuoteNotEncoded(text[1..]);
      assert text[0] != 0x22;
    }
  }

  /** The single occurrence in the frame is the one in the message: no occurrence reaches across the opening quote. */
  lemma UniqueInFrame(framed: Bytes, raw: Bytes, needle: Bytes, from: nat)
    requires 0 < from && from + |raw| <= |framed| && framed[from..from + |raw|] == raw
    requires framed[from - 1] == 0x22 && 0x22 !in raw && needle != []
    requires UniqueAt(raw, needle).Some? && UniqueAt(framed, needle).Some?
    ensures UniqueAt(framed, needle).value == from + UniqueAt(raw, needle).value
  {
    var at, first := UniqueAt(raw, needle).value, UniqueAt(framed, needle).value;
    UniqueMeans(raw, needle);
    UniqueMeans(framed, needle);
    hide UniqueAt;
    assert OccursAt(framed, raw, from);
    OccursInside(framed, raw, needle, from, at);
    SpellsAt(raw, needle, at);
    if first < from {
      QuoteOutside(framed, needle, first, from - 1);
    } else {
      OccursWithin(framed, raw, needle, from, first);
    }
  }

  /** Every occurrence begins inside the first one. */
  lemma UniqueMeans(raw: Bytes, needle: Bytes)
    requires UniqueAt(raw, needle).Some? && needle != []
    ensures var at := UniqueAt(raw, needle).value;
            OccursAt(raw, needle, at) && forall j :: OccursAt(raw, needle, j) ==> at <= j < at + |needle|
  {
    assert Count(raw, needle, UniqueAt(raw, needle).value + |needle|) == 0;
  }

  lemma SpellsAt(whole: Bytes, part: Bytes, at: nat)
    requires OccursAt(whole, part, at)
    ensures forall k :: 0 <= k < |part| ==> part[k] == whole[at + k]
  {
    assert forall k :: 0 <= k < |part| ==> part[k] == whole[at..at + |part|][k];
  }

  lemma QuoteOutside(whole: Bytes, part: Bytes, at: nat, q: nat)
    requires OccursAt(whole, part, at) && q < |whole| && whole[q] !in part
    ensures q < at || at + |part| <= q
  {
    SpellsAt(whole, part, at);
    var x := whole[q];
    assert forall k :: 0 <= k < |part| ==> part[k] != x;
    assert forall k :: at <= k < at + |part| ==> whole[k] == part[k - at];
  }

  lemma OccursWithin(whole: Bytes, part: Bytes, inner: Bytes, i: nat, j: nat)
    requires OccursAt(whole, part, i) && OccursAt(whole, inner, j) && i <= j && j + |inner| <= i + |part|
    ensures OccursAt(part, inner, j - i)
  {
    InnerSlice(whole, i, i + |part|, j - i, j - i + |inner|);
  }

  lemma UniqueInside(raw: Bytes, needle: Bytes)
    requires UniqueAt(raw, needle).Some?
    ensures var at := UniqueAt(raw, needle).value; at + |needle| <= |raw| && raw[at..at + |needle|] == needle
  {
    hide UniqueAt;
    UniqueOccurs(raw, needle);
  }

  lemma PadSlice(raw: Bytes, decoded: Bytes, pad: nat)
    requires Pad(raw, decoded) == Some(pad)
    ensures |decoded| == pad + |raw| && decoded[pad..] == raw
  {
  }

  // ---- Where two replies part

  method FirstDivergence<X(==)>(a: seq<X>, b: seq<X>) returns (r: Option<nat>)
    ensures r.Some? ==> r.value < |a| && r.value < |b| && a[..r.value] == b[..r.value] && a[r.value] != b[r.value]
    ensures r.None? <==> a <= b || b <= a
  {
    var i := 0;
    while i < |a| && i < |b|
      invariant i <= |a| && i <= |b| && a[..i] == b[..i]
    {
      if a[i] != b[i] {
        assert !(a <= b) && !(b <= a);
        return Some(i);
      }
      i := i + 1;
    }
    return None;
  }
}
