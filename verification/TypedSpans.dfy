/** From predicted token spans to byte spans of the source text, and the normal form of predicates. */
module TypedSpans {
  import opened Bytes
  import opened Outcomes
  import Utf8

  // ---- Character classes of the C locale, and reading a terminated buffer

  predicate IsSpace(b: Byte) {
    b == 0x20 || 0x09 <= b <= 0x0D
  }

  predicate IsUpper(b: Byte) { 0x41 <= b <= 0x5A }
  predicate IsLower(b: Byte) { 0x61 <= b <= 0x7A }
  predicate IsDigit(b: Byte) { 0x30 <= b <= 0x39 }
  predicate IsAlpha(b: Byte) { IsUpper(b) || IsLower(b) }
  predicate IsAlnum(b: Byte) { IsAlpha(b) || IsDigit(b) }

  function ToLower(b: Byte): Byte {
    if IsUpper(b) then b + 0x20 else b
  }

  /** Reading at the end of the buffer finds the terminator. */
  function At(d: Bytes, i: int): Byte {
    if 0 <= i < |d| then d[i] else 0
  }

  predicate WordByte(b: Byte) {
    IsAlnum(b) || b == 0x5F || b == 0x2D || b == 0x27 || b >= 0x80
  }

  /** Length of the word character at `i`: an ASCII word byte or a two-byte Latin letter; 0 for anything else. */
  function WordWidth(d: Bytes, i: int): (w: nat)
    ensures w > 0 ==> 0 <= i && i + w <= |d| && w <= 2
  {
    var first := At(d, i);
    if first < 0x80 then if first != 0 && WordByte(first) then 1 else 0
    else if 0xC3 <= first <= 0xCA && Utf8.IsCont(At(d, i + 1)) then
      var code := (first - 0xC0) * 64 + (At(d, i + 1) - 0x80);
      if code <= 0x02AF && code != 0xD7 && code != 0xF7 then 2 else 0
    else 0
  }

  // ---- The loops of the span mapping, as functions

  function SkipSpaces(d: Bytes, i: nat, end: nat): (r: nat)
    ensures i <= end ==> i <= r <= end
    decreases end - i
  {
    if i < end && IsSpace(At(d, i)) then SkipSpaces(d, i + 1, end) else i
  }

  function DropSpaces(d: Bytes, start: nat, i: nat): (r: nat)
    ensures start <= i ==> start <= r <= i
    decreases i
  {
    if i > start && IsSpace(At(d, i - 1)) then DropSpaces(d, start, i - 1) else i
  }

  function AlignLeft(d: Bytes, floor: nat, i: nat): (r: nat)
    ensures r <= i && (floor <= i ==> floor <= r)
    ensures r > floor ==> !Utf8.IsCont(At(d, r))
    decreases i
  {
    if i > floor && Utf8.IsCont(At(d, i)) then AlignLeft(d, floor, i - 1) else i
  }

  function AlignRight(d: Bytes, i: nat): (r: nat)
    ensures i <= r && (i <= |d| ==> r <= |d|) && !Utf8.IsCont(At(d, r))
    decreases |d| - i
  {
    if Utf8.IsCont(At(d, i)) then AlignRight(d, i + 1) else i
  }

  /** Start of the word character that ends at `i`, or `i` when none does. */
  function Previous(d: Bytes, floor: nat, i: nat): (r: nat)
    requires floor < i
    ensures floor <= r <= i
  {
    var lead := AlignLeft(d, floor, i - 1);
    if WordWidth(d, lead) == i - lead then lead else i
  }

  function GrowLeft(d: Bytes, floor: nat, i: nat): (r: nat)
    ensures r <= i && (floor <= i ==> floor <= r)
    decreases i
  {
    if i > floor && Previous(d, floor, i) < i then GrowLeft(d, floor, Previous(d, floor, i)) else i
  }

  function GrowRight(d: Bytes, i: nat): (r: nat)
    ensures i <= r && (i <= |d| ==> r <= |d|)
    decreases |d| - i
  {
    if WordWidth(d, i) > 0 then GrowRight(d, i + WordWidth(d, i)) else i
  }

  function SkipNonWord(d: Bytes, i: nat, end: nat): (r: nat)
    ensures i <= end ==> i <= r <= end
    decreases end - i
  {
    if i < end && !WordByte(At(d, i)) then SkipNonWord(d, i + 1, end) else i
  }

  function BackWord(d: Bytes, floor: nat, i: nat): (r: nat)
    ensures r <= i && (floor <= i ==> floor <= r)
    decreases i
  {
    if i > floor && WordByte(At(d, i - 1)) then BackWord(d, floor, i - 1) else i
  }

  function ForwardWord(d: Bytes, i: nat): (r: nat)
    ensures i <= r && (i <= |d| ==> r <= |d|)
    decreases |d| - i
  {
    if WordByte(At(d, i)) then ForwardWord(d, i + 1) else i
  }

  const APOSTROPHE_S: Bytes := [0x27, 0x73]
  const TYPOGRAPHIC_S: Bytes := [0xE2, 0x80, 0x99, 0x73]

  function DropPossessive(d: Bytes, start: nat, end: nat): (r: nat)
    ensures start <= end ==> start <= r <= end
  {
    if end >= start + 2 && OccursAt(d, APOSTROPHE_S, end - 2) then end - 2
    else if end >= start + 4 && OccursAt(d, TYPOGRAPHIC_S, end - 4) then end - 4
    else end
  }

  datatype Expansion = Exact | Entity | Value

  /** The span inside the decoded text, before it is checked against the source. */
  function DecodedSpan(d: Bytes, from: nat, to: nat, floor: nat, mode: Expansion): (r: (nat, nat))
    requires from <= to <= |d|
  {
    var start := SkipSpaces(d, from, to);
    var end := DropSpaces(d, start, to);
    match mode
    case Exact => (start, end)
    case Value => (GrowLeft(d, floor, AlignLeft(d, floor, start)), GrowRight(d, AlignRight(d, end)))
    case Entity =>
      var left := BackWord(d, floor, SkipNonWord(d, start, end));
      (left, DropPossessive(d, left, ForwardWord(d, end)))
  }

  /** The offsets grow and stay inside the text. */
  predicate Offsets(d: Bytes, offsets: seq<nat>) {
    forall i, j :: 0 <= i <= j < |offsets| ==> offsets[i] <= offsets[j] <= |d|
  }

  /** The decoded span as a span of the source, unless it is empty or leaves the source. */
  function Located(span: (nat, nat), floor: nat, source: Bytes): (r: Option<(nat, nat)>)
    ensures r.Some? ==> r.value.0 < r.value.1 <= |source|
  {
    var (start, end) := span;
    if start < floor || end <= start || end - floor > |source| then None else Some((start - floor, end - floor))
  }

  /** What the mapping returns: a span of the source, or nothing. */
  function SourceSpan(d: Bytes, offsets: seq<nat>, floor: nat, source: Bytes, tokenStart: nat, tokenEnd: nat,
                      mode: Expansion): (r: Option<(nat, nat)>)
    requires Offsets(d, offsets)
    ensures r.Some? ==> r.value.0 < r.value.1 <= |source|
  {
    if !(tokenStart <= tokenEnd && tokenEnd + 1 < |offsets|) then None
    else Located(DecodedSpan(d, offsets[tokenStart], offsets[tokenEnd + 1], floor, mode), floor, source)
  }

  /** The mapping as written, loop by loop. */
  method TokenSpanToSource(d: Bytes, offsets: seq<nat>, floor: nat, source: Bytes, tokenStart: nat, tokenEnd: nat,
                           mode: Expansion) returns (r: Option<(nat, nat)>)
    requires Offsets(d, offsets)
    ensures r == SourceSpan(d, offsets, floor, source, tokenStart, tokenEnd, mode)
  {
    if !(tokenStart <= tokenEnd && tokenEnd + 1 < |offsets|) {
      return None;
    }
    var start, end := MapSpan(d, offsets[tokenStart], offsets[tokenEnd + 1], floor, mode);
    hide DecodedSpan;
    if start < floor || end <= start || end - floor > |source| {
      return None;
    }
    r := Some((start - floor, end - floor));
  }

  method MapSpan(d: Bytes, from: nat, to: nat, floor: nat, mode: Expansion) returns (start: nat, end: nat)
    requires from <= to <= |d|
    ensures (start, end) == DecodedSpan(d, from, to, floor, mode)
  {
    hide SkipSpaces, DropSpaces, GrowLeft, GrowRight, AlignLeft, AlignRight, BackWord, ForwardWord, SkipNonWord, DropPossessive;
    start, end := Trim(d, from, to);
    if mode == Value {
      start, end := ExpandValue(d, floor, start, end);
    } else if mode == Entity {
      start, end := ExpandEntity(d, floor, start, end);
    }
  }

  method Trim(d: Bytes, from: nat, to: nat) returns (start: nat, end: nat)
    requires from <= to <= |d|
    ensures start == SkipSpaces(d, from, to) && end == DropSpaces(d, start, to)
  {
    start, end := from, to;
    while start < end && IsSpace(At(d, start))
      invariant from <= start <= end && SkipSpaces(d, start, end) == SkipSpaces(d, from, to)
    {
      start := start + 1;
    }
    while end > start && IsSpace(At(d, end - 1))
      invariant start <= end <= to && DropSpaces(d, start, end) == DropSpaces(d, start, to)
    {
      end := end - 1;
    }
  }

  /** Character alignment, then Latin word completion, on both sides. */
  method ExpandValue(d: Bytes, floor: nat, from: nat, to: nat) returns (start: nat, end: nat)
    requires from <= to <= |d|
    ensures start == GrowLeft(d, floor, AlignLeft(d, floor, from)) && end == GrowRight(d, AlignRight(d, to))
  {
    hide GrowLeft, GrowRight;
    start, end := from, to;
    while start > floor && Utf8.IsCont(At(d, start))
      invariant AlignLeft(d, floor, start) == AlignLeft(d, floor, from)
    {
      start := start - 1;
    }
    while Utf8.IsCont(At(d, end))
      invariant end <= |d| && AlignRight(d, end) == AlignRight(d, to)
      decreases |d| - end
    {
      end := end + 1;
    }
    start := CompleteLeft(d, floor, start);
    end := CompleteRight(d, end);
  }

  method CompleteLeft(d: Bytes, floor: nat, from: nat) returns (start: nat)
    ensures start == GrowLeft(d, floor, from)
  {
    hide WordWidth, At, AlignLeft;
    start := from;
    while start > floor
      invariant GrowLeft(d, floor, start) == GrowLeft(d, floor, from)
    {
      var previous := LeadBefore(d, floor, start);
      if WordWidth(d, previous) != start - previous {
        break;
      }
      start := previous;
    }
  }

  method CompleteRight(d: Bytes, from: nat) returns (end: nat)
    requires from <= |d|
    ensures end == GrowRight(d, from)
  {
    hide WordWidth, At;
    end := from;
    var width := WordWidth(d, end);
    while width != 0
      invariant end <= |d| && width == WordWidth(d, end) && GrowRight(d, end) == GrowRight(d, from)
      decreases |d| - end
    {
      end := end + width;
      width := WordWidth(d, end);
    }
  }

  method LeadBefore(d: Bytes, floor: nat, i: nat) returns (previous: nat)
    requires floor < i
    ensures previous == AlignLeft(d, floor, i - 1)
  {
    previous := i - 1;
    while previous > floor && Utf8.IsCont(At(d, previous))
      invariant AlignLeft(d, floor, previous) == AlignLeft(d, floor, i - 1)
    {
      previous := previous - 1;
    }
  }

  method ExpandEntity(d: Bytes, floor: nat, from: nat, to: nat) returns (start: nat, end: nat)
    requires from <= to <= |d|
    ensures start == BackWord(d, floor, SkipNonWord(d, from, to))
    ensures end == DropPossessive(d, start, ForwardWord(d, to))
  {
    hide WordByte, At, OccursAt;
    start, end := from, to;
    while start < end && !WordByte(At(d, start))
      invariant start <= end && SkipNonWord(d, start, end) == SkipNonWord(d, from, to)
    {
      start := start + 1;
    }
    ghost var first := start;
    while start > floor && WordByte(At(d, start - 1))
      invariant BackWord(d, floor, start) == BackWord(d, floor, first)
    {
      start := start - 1;
    }
    while WordByte(At(d, end))
      invariant ForwardWord(d, end) == ForwardWord(d, to)
      decreases ForwardWord(d, to) - end
    {
      end := end + 1;
    }
    if end >= start + 2 && OccursAt(d, APOSTROPHE_S, end - 2) {
      end := end - 2;
    } else if end >= start + 4 && OccursAt(d, TYPOGRAPHIC_S, end - 4) {
      end := end - 4;
    }
  }

  // ---- What value completion guarantees

  /** `d[i..j]` is a run of word characters. */
  predicate Words(d: Bytes, i: nat, j: nat)
    decreases j - i
  {
    i == j || (i < j && WordWidth(d, i) > 0 && Words(d, i + WordWidth(d, i), j))
  }

  lemma {:induction false} WordsAppend(d: Bytes, i: nat, j: nat, k: nat)
    requires Words(d, i, j) && Words(d, j, k)
    ensures Words(d, i, k)
    decreases j - i
  {
    if i < j {
      WordsAppend(d, i + WordWidth(d, i), j, k);
      WordsForward(d, i + WordWidth(d, i), j);
      WordsForward(d, j, k);
    }
  }

  lemma {:induction false} WordsForward(d: Bytes, i: nat, j: nat)
    requires Words(d, i, j)
    ensures i <= j
    decreases j - i
  {
    if i < j {
      WordsForward(d, i + WordWidth(d, i), j);
    }
  }

  lemma {:induction false} GrowRightIsMaximal(d: Bytes, i: nat)
    requires i <= |d|
    ensures Words(d, i, GrowRight(d, i)) && WordWidth(d, GrowRight(d, i)) == 0
    decreases |d| - i
  {
    if WordWidth(d, i) > 0 {
      GrowRightIsMaximal(d, i + WordWidth(d, i));
    }
  }

  /** In valid text the character at a boundary ends at a boundary; a word character is a whole one. */
  lemma WordEndsAtBoundary(d: Bytes, i: nat)
    requires Utf8.Valid(d) && Utf8.Boundary(d, i) && WordWidth(d, i) > 0
    ensures Utf8.Boundary(d, i + WordWidth(d, i))
  {
    Utf8.BoundarySplits(d, i);
    var rest := d[i..];
    var n := Utf8.CharLen(rest);
    assert rest[0] == d[i];
    if n < |rest| {
      var after := rest[n..];
      assert Utf8.Valid(after) && after[0] == rest[n] == d[i + n];
      assert Utf8.CharLen(after) > 0;
    }
  }

  lemma {:induction false} WordsEndAtBoundary(d: Bytes, i: nat, j: nat)
    requires Utf8.Valid(d) && Utf8.Boundary(d, i) && Words(d, i, j) && j <= |d|
    ensures Utf8.Boundary(d, j)
    decreases j - i
  {
    if i < j {
      WordEndsAtBoundary(d, i);
      WordsEndAtBoundary(d, i + WordWidth(d, i), j);
    }
  }

  /** Byte `k` belongs to a word character inside `d[i..j]`: an ASCII word byte or a letter U+00C0..U+02AF. */
  predicate InWord(d: Bytes, i: nat, j: nat, k: nat) {
    exists c :: i <= c <= k < c + WordWidth(d, c) <= j
  }

  /** Word completion swallows no character from U+02B0 on, nor a byte of one. */
  lemma {:induction false} WordsAreLatin(d: Bytes, i: nat, j: nat, k: nat)
    requires Words(d, i, j) && i <= k < j <= |d|
    ensures InWord(d, i, j, k)
    decreases j - i
  {
    var next := i + WordWidth(d, i);
    WordsForward(d, next, j);
    if k >= next {
      WordsAreLatin(d, next, j, k);
    }
  }

  // ---- What the other two modes guarantee

  lemma {:induction false} SkipSpacesMeans(d: Bytes, i: nat, end: nat)
    requires i <= end <= |d|
    ensures var r := SkipSpaces(d, i, end);
            (forall k :: i <= k < r ==> IsSpace(d[k])) && (r < end ==> !IsSpace(d[r]))
    decreases end - i
  {
    if i < end && IsSpace(d[i]) {
      SkipSpacesMeans(d, i + 1, end);
    }
  }

  lemma {:induction false} DropSpacesMeans(d: Bytes, start: nat, i: nat)
    requires start <= i <= |d|
    ensures var r := DropSpaces(d, start, i);
            (forall k :: r <= k < i ==> IsSpace(d[k])) && (r > start ==> !IsSpace(d[r - 1]))
    decreases i
  {
    if i > start && IsSpace(d[i - 1]) {
      DropSpacesMeans(d, start, i - 1);
    }
  }

  lemma {:induction false} BackWordMeans(d: Bytes, floor: nat, i: nat)
    requires i <= |d|
    ensures var r := BackWord(d, floor, i);
            && (forall k :: r <= k < i ==> WordByte(d[k])) && (r > floor ==> !WordByte(d[r - 1]))
            && (i <= floor ==> r == i)
    decreases i
  {
    if i > floor && WordByte(d[i - 1]) {
      BackWordMeans(d, floor, i - 1);
    }
  }

  lemma {:induction false} ForwardWordMeans(d: Bytes, i: nat)
    requires i <= |d|
    ensures var r := ForwardWord(d, i);
            (forall k :: i <= k < r ==> WordByte(d[k])) && (r < |d| ==> !WordByte(d[r]))
    decreases |d| - i
  {
    if i < |d| && WordByte(d[i]) {
      ForwardWordMeans(d, i + 1);
    }
  }

  /** The text a span is cut from: decoded tokens that end with the source. */
  predicate EndsWithSource(d: Bytes, floor: nat, source: Bytes) {
    floor + |source| <= |d| && d[floor..floor + |source|] == source
  }

  // ---- Decoding the source

  /** Concatenated token pieces, the offset at which each begins, and where the source begins among them. */
  datatype DecodedSource = DecodedSource(text: Bytes, offsets: seq<nat>, floor: nat)

  /** The decoded tokens one after the other with the offset of each and of the end; absent when one cannot be decoded. */
  function Spelled(pieces: seq<Option<Bytes>>): Option<(Bytes, seq<nat>)>
    decreases |pieces|
  {
    if pieces == [] then Some(([], [0]))
    else
      var before, last := Spelled(pieces[..|pieces| - 1]), pieces[|pieces| - 1];
      if before.None? || last.None? then None
      else
        var longer := before.value.0 + last.value;
        Some((longer, before.value.1 + [|longer|]))
  }

  /** The source must be found in the text first at its very end. */
  function DecodedOf(pieces: seq<Option<Bytes>>, source: Bytes): Option<DecodedSource> {
    if Spelled(pieces).None? || Spelled(pieces).value.0 == [] then None
    else
      var (text, offsets) := Spelled(pieces).value;
      var visible := CString(text);
      var at := Find(visible, source, 0);
      if at.None? || |visible| - at.value != |source| then None else Some(DecodedSource(text, offsets, at.value))
  }

  /** `pieces` are the decoded tokens, absent where decoding fails. */
  method DecodeSource(pieces: seq<Option<Bytes>>, source: Bytes) returns (r: Option<DecodedSource>)
    ensures r == DecodedOf(pieces, source)
  {
    var text: Bytes := [];
    var offsets: seq<nat> := [0];
    for token := 0 to |pieces|
      invariant Spelled(pieces[..token]) == Some((text, offsets))
    {
      assert pieces[..token + 1][..token] == pieces[..token];
      if pieces[token].None? {
        SpelledNeedsAll(pieces, token);
        return None;
      }
      text := text + pieces[token].value;
      offsets := offsets + [|text|];
    }
    assert pieces[..|pieces|] == pieces;
    if text == [] {
      return None;
    }
    var visible := CString(text);
    var at := Find(visible, source, 0);
    if at.None? || |visible| - at.value != |source| {
      return None;
    }
    r := Some(DecodedSource(text, offsets, at.value));
  }

  lemma {:induction false} SpelledNeedsAll(pieces: seq<Option<Bytes>>, k: nat)
    requires k < |pieces| && pieces[k].None?
    ensures Spelled(pieces).None?
    decreases |pieces|
  {
    if k < |pieces| - 1 {
      SpelledNeedsAll(pieces[..|pieces| - 1], k);
    }
  }

  /** Each token spells the text between its offset and the next one. */
  predicate Pieced(pieces: seq<Option<Bytes>>, text: Bytes, offsets: seq<nat>) {
    && |offsets| == |pieces| + 1 && offsets[0] == 0 && offsets[|pieces|] == |text|
    && Offsets(text, offsets)
    && forall i :: 0 <= i < |pieces| ==> pieces[i] == Some(text[offsets[i]..offsets[i + 1]])
  }

  lemma PiecedSnoc(pieces: seq<Option<Bytes>>, text: Bytes, offsets: seq<nat>, piece: Bytes)
    requires Pieced(pieces, text, offsets)
    ensures Pieced(pieces + [Some(piece)], text + piece, offsets + [|text + piece|])
  {
    var longer, more := text + piece, offsets + [|text + piece|];
    assert longer[|text|..|longer|] == piece;
    forall i | 0 <= i < |pieces| ensures longer[more[i]..more[i + 1]] == text[offsets[i]..offsets[i + 1]] {
    }
  }

  lemma {:induction false} SpelledIsPieced(pieces: seq<Option<Bytes>>)
    ensures Spelled(pieces).Some? ==> Pieced(pieces, Spelled(pieces).value.0, Spelled(pieces).value.1)
    decreases |pieces|
  {
    if pieces != [] && Spelled(pieces).Some? {
      var n := |pieces| - 1;
      SpelledIsPieced(pieces[..n]);
      var (text, offsets) := Spelled(pieces[..n]).value;
      hide Pieced;
      PiecedSnoc(pieces[..n], text, offsets, pieces[n].value);
      assert pieces == pieces[..n] + [Some(pieces[n].value)];
    }
  }

  /** Every token spells its own stretch of the decoded text, and the visible part of the text ends with the source. */
  lemma DecodedMeans(pieces: seq<Option<Bytes>>, source: Bytes)
    requires DecodedOf(pieces, source).Some?
    ensures var x := DecodedOf(pieces, source).value;
            && Pieced(pieces, x.text, x.offsets) && EndsWithSource(x.text, x.floor, source)
            && x.floor + |source| == |CString(x.text)|
  {
    hide Spelled, Pieced;
    SpelledIsPieced(pieces);
    var x := DecodedOf(pieces, source).value;
    var visible := CString(x.text);
    assert x.text[x.floor..x.floor + |source|] == visible[x.floor..x.floor + |source|];
  }

  // ---- Predicates

  /** The normaliser's state after a span: the output so far, and whether a separator is waiting. */
  datatype Normal = Normal(written: Bytes, separator: bool)

  function NormalStep(n: Normal, b: Byte): Normal {
    if IsAlnum(b) then
      Normal(n.written + (if n.separator && n.written != [] then [0x5F] else []) + [ToLower(b)], false)
    else Normal(n.written, n.written != [] || n.separator)
  }

  function NormalOf(s: Bytes): Normal {
    if s == [] then Normal([], false) else NormalStep(NormalOf(s[..|s| - 1]), s[|s| - 1])
  }

  predicate NameByte(b: Byte) {
    IsLower(b) || IsDigit(b)
  }

  /** Lower-case words of letters and digits joined by single underscores. */
  predicate Joined(p: Bytes) {
    && (forall i :: 0 <= i < |p| ==> NameByte(p[i]) || p[i] == 0x5F)
    && (p != [] ==> p[0] != 0x5F && p[|p| - 1] != 0x5F)
    && (forall i :: 0 < i < |p| ==> p[i - 1] != 0x5F || p[i] != 0x5F)
  }

  /** The form [a-z][a-z0-9]*(_[a-z0-9]+)*. */
  predicate Predicate(p: Bytes) {
    p != [] && IsLower(p[0]) && Joined(p)
  }

  function NormalizePredicate(source: Bytes, start: nat, end: nat): Option<Bytes> {
    if end <= start || end > |source| then None
    else
      var value := NormalOf(source[start..end]).written;
      if value == [] || !IsLower(value[0]) then None else Some(value)
  }

  method NormalizePredicateSpan(source: Bytes, start: nat, end: nat) returns (r: Option<Bytes>)
    ensures r == NormalizePredicate(source, start, end)
  {
    if end <= start || end > |source| {
      return None;
    }
    var value: Bytes := [];
    var separator := false;
    var index := start;
    assert source[start..start] == [];
    while index < end
      invariant start <= index <= end
      invariant Normal(value, separator) == NormalOf(source[start..index])
    {
      var byte := source[index];
      assert source[start..index + 1] == source[start..index] + [byte];
      NormalSeparator(source[start..index]);
      if IsAlnum(byte) {
        if separator && |value| > 0 {
          value := value + [0x5F];
        }
        value := value + [ToLower(byte)];
        separator := false;
      } else if |value| > 0 {
        separator := true;
      }
      index := index + 1;
    }
    if |value| == 0 || !IsLower(value[0]) {
      return None;
    }
    r := Some(value);
  }

  /** No separator waits before the first word. */
  lemma {:induction false} NormalSeparator(s: Bytes)
    ensures NormalOf(s).separator ==> NormalOf(s).written != []
    decreases |s|
  {
    if s != [] {
      NormalSeparator(s[..|s| - 1]);
    }
  }

  lemma {:induction false} NormalIsJoined(s: Bytes)
    ensures var n := NormalOf(s);
            Joined(n.written) && |n.written| + (if n.separator then 1 else 0) <= |s|
    decreases |s|
  {
    if s != [] {
      NormalIsJoined(s[..|s| - 1]);
      NormalSeparator(s[..|s| - 1]);
    }
  }

  function LowerAll(s: Bytes): (r: Bytes)
    ensures |r| == |s| && forall i :: 0 <= i < |s| ==> r[i] == ToLower(s[i])
  {
    seq(|s|, i requires 0 <= i < |s| => ToLower(s[i]))
  }

  lemma {:induction false} NormalIgnoresCase(s: Bytes)
    ensures NormalOf(LowerAll(s)) == NormalOf(s)
    decreases |s|
  {
    if s != [] {
      assert LowerAll(s)[..|s| - 1] == LowerAll(s[..|s| - 1]);
      NormalIgnoresCase(s[..|s| - 1]);
    }
  }

  /** A prefix of words joined by single underscores passes through; a trailing underscore waits as a separator. */
  function Through(p: Bytes, k: nat): Normal
    requires k <= |p|
  {
    if k > 0 && p[k - 1] == 0x5F then Normal(p[..k - 1], true) else Normal(p[..k], false)
  }

  lemma ThroughStep(p: Bytes, k: nat)
    requires 0 < k <= |p|
    requires NameByte(p[k - 1]) || (p[k - 1] == 0x5F && k > 1 && p[k - 2] != 0x5F)
    requires k > 1 && p[k - 2] == 0x5F ==> k > 2
    ensures NormalStep(Through(p, k - 1), p[k - 1]) == Through(p, k)
  {
    assert p[..k] == p[..k - 1] + [p[k - 1]];
    if k > 1 {
      assert p[..k - 1] == p[..k - 2] + [p[k - 2]];
    }
  }

  lemma {:induction false} NormalFixesJoined(p: Bytes, k: nat)
    requires Joined(p) && k <= |p|
    ensures NormalOf(p[..k]) == Through(p, k)
  {
    if k > 0 {
      hide Through, NormalStep;
      NormalFixesJoined(p, k - 1);
      assert p[..k][..k - 1] == p[..k - 1];
      ThroughStep(p, k);
    }
  }

  /** A normalised predicate has the promised form, is no longer than its span, does not depend on ASCII case, and is
      its own normal form. */
  lemma NormalPredicate(source: Bytes, start: nat, end: nat)
    requires NormalizePredicate(source, start, end).Some?
    ensures var p := NormalizePredicate(source, start, end).value;
            && Predicate(p) && |p| <= end - start
            && NormalizePredicate(LowerAll(source), start, end) == Some(p)
            && NormalizePredicate(p, 0, |p|) == Some(p)
  {
    var span := source[start..end];
    NormalIsJoined(span);
    NormalIgnoresCase(span);
    assert LowerAll(source)[start..end] == LowerAll(span);
    var p := NormalizePredicate(source, start, end).value;
    NormalFixesJoined(p, |p|);
    assert p[..|p|] == p && p[0..|p|] == p;
  }

  // ---- Leading articles

  function BackSpaces(s: Bytes, i: nat): (r: nat)
    requires i <= |s|
    ensures r <= i
    ensures forall k :: r <= k < i ==> IsSpace(s[k])
    ensures r > 0 ==> !IsSpace(s[r - 1])
  {
    if i > 0 && IsSpace(s[i - 1]) then BackSpaces(s, i - 1) else i
  }

  function BackAlpha(s: Bytes, i: nat): (r: nat)
    requires i <= |s|
    ensures r <= i
    ensures forall k :: r <= k < i ==> IsAlpha(s[k])
    ensures r > 0 ==> !IsAlpha(s[r - 1])
  {
    if i > 0 && IsAlpha(s[i - 1]) then BackAlpha(s, i - 1) else i
  }

  predicate IsArticle(w: Bytes) {
    LowerAll(w) in {[0x61], [0x61, 0x6E], [0x74, 0x68, 0x65]}
  }

  function ArticleStart(source: Bytes, start: nat): (r: nat)
    requires start <= |source|
    ensures r <= start
  {
    var wordEnd := BackSpaces(source, start);
    var wordStart := BackAlpha(source, wordEnd);
    if wordEnd < start && IsArticle(source[wordStart..wordEnd]) then wordStart else start
  }

  /** The start moves over exactly one whole article and the spaces after it, or not at all. */
  lemma ArticleMeans(source: Bytes, start: nat)
    requires start <= |source|
    ensures var r := ArticleStart(source, start);
            r < start ==> exists wordEnd :: r < wordEnd < start && Article(source, r, wordEnd, start)
    ensures forall r, wordEnd :: 0 <= r < wordEnd < start && Article(source, r, wordEnd, start) ==> ArticleStart(source, start) == r
  {
    var end := BackSpaces(source, start);
    var begin := BackAlpha(source, end);
    if ArticleStart(source, start) < start {
      assert IsArticle(source[begin..end]);
      assert |LowerAll(source[begin..end])| > 0;
      assert Article(source, begin, end, start);
    }
    forall r, wordEnd | 0 <= r < wordEnd < start && Article(source, r, wordEnd, start)
      ensures ArticleStart(source, start) == r
    {
      ArticleIsWord(source, r, wordEnd, start);
    }
  }

  /** An article stands at `r`, a whole word, with only spaces between it and `start`. */
  predicate Article(source: Bytes, r: nat, wordEnd: nat, start: nat)
    requires r < wordEnd < start <= |source|
  {
    && IsArticle(source[r..wordEnd])
    && (r > 0 ==> !IsAlpha(source[r - 1]))
    && forall k :: wordEnd <= k < start ==> IsSpace(source[k])
  }

  lemma ArticleIsWord(source: Bytes, r: nat, wordEnd: nat, start: nat)
    requires r < wordEnd < start <= |source| && Article(source, r, wordEnd, start)
    ensures BackSpaces(source, start) == wordEnd && BackAlpha(source, wordEnd) == r
  {
    var word := source[r..wordEnd];
    assert forall k :: 0 <= k < |word| ==> ToLower(word[k]) == LowerAll(word)[k];
    forall k | r <= k < wordEnd ensures IsAlpha(source[k]) && !IsSpace(source[k]) {
      assert source[k] == word[k - r];
      assert LowerAll(word)[k - r] in {0x61, 0x6E, 0x74, 0x68, 0x65};
    }
    hide IsAlpha, IsSpace, IsArticle, LowerAll;
    BackSpacesStops(source, start, wordEnd);
    BackAlphaStops(source, wordEnd, r);
  }

  lemma {:induction false} BackSpacesStops(s: Bytes, i: nat, n: nat)
    requires n <= i <= |s| && (n > 0 ==> !IsSpace(s[n - 1])) && forall k :: n <= k < i ==> IsSpace(s[k])
    ensures BackSpaces(s, i) == n
  {
    if i > n {
      BackSpacesStops(s, i - 1, n);
    }
  }

  lemma {:induction false} BackAlphaStops(s: Bytes, i: nat, n: nat)
    requires n <= i <= |s| && (n > 0 ==> !IsAlpha(s[n - 1])) && forall k :: n <= k < i ==> IsAlpha(s[k])
    ensures BackAlpha(s, i) == n
  {
    if i > n {
      BackAlphaStops(s, i - 1, n);
    }
  }

  /** The value start, moved left over one whole word that is an article, and only then. */
  method ExpandLeadingArticle(source: Bytes, start: nat) returns (r: nat)
    requires start <= |source|
    ensures r == ArticleStart(source, start)
  {
    if start == 0 {
      return 0;
    }
    var wordEnd: nat := start;
    while wordEnd > 0 && IsSpace(source[wordEnd - 1])
      invariant wordEnd <= start && BackSpaces(source, wordEnd) == BackSpaces(source, start)
    {
      wordEnd := wordEnd - 1;
    }
    if wordEnd == start || wordEnd == 0 {
      return start;
    }
    var wordStart: nat := wordEnd;
    while wordStart > 0 && IsAlpha(source[wordStart - 1])
      invariant wordStart <= wordEnd && BackAlpha(source, wordStart) == BackAlpha(source, wordEnd)
    {
      wordStart := wordStart - 1;
    }
    var article := ArticleAt(source, wordStart, wordEnd - wordStart);
    hide BackSpaces, BackAlpha, IsArticle;
    r := if article then wordStart else start;
  }

  method ArticleAt(source: Bytes, at: nat, length: nat) returns (r: bool)
    requires at + length <= |source|
    ensures r == IsArticle(source[at..at + length])
  {
    ghost var word := source[at..at + length];
    r := (length == 1 && ToLower(source[at]) == 0x61)
         || (length == 2 && ToLower(source[at]) == 0x61 && ToLower(source[at + 1]) == 0x6E)
         || (length == 3 && ToLower(source[at]) == 0x74 && ToLower(source[at + 1]) == 0x68
             && ToLower(source[at + 2]) == 0x65);
    ghost var lower := LowerAll(word);
    assert forall i :: 0 <= i < length ==> lower[i] == ToLower(source[at + i]);
    if r {
      assert lower == [0x61] || lower == [0x61, 0x6E] || lower == [0x74, 0x68, 0x65];
    } else {
      assert length > 0 ==> lower[0] == ToLower(source[at]);
      assert lower != [0x61] && lower != [0x61, 0x6E] && lower != [0x74, 0x68, 0x65];
    }
  }
}
