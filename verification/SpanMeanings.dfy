/** What the mapping from token spans to source spans finds, written out without its loops. */
module SpanMeanings {
  import opened Bytes
  import opened Outcomes
  import opened TypedSpans
  import UnicodeText
  import Utf8

  // ---- Characters

  /** The character classes of the C locale. */
  lemma Classes(b: Byte)
    ensures IsSpace(b) <==> b in {0x20, 0x09, 0x0A, 0x0B, 0x0C, 0x0D}
    ensures IsLower(b) <==> 0x61 <= b <= 0x7A
    ensures IsAlpha(b) <==> 0x41 <= b <= 0x5A || 0x61 <= b <= 0x7A
    ensures IsAlnum(b) <==> IsAlpha(b) || 0x30 <= b <= 0x39
    ensures WordByte(b) <==> IsAlnum(b) || b in {0x27, 0x2D, 0x5F} || b >= 0x80
    ensures ToLower(b) == if 0x41 <= b <= 0x5A then b + 0x20 else b
  {
  }

  /** A letter from U+00C0 to U+02AF, without the two signs among them. */
  predicate LatinLetter(c: UnicodeText.Char) {
    0xC0 <= c <= 0x2AF && c != 0xD7 && c != 0xF7
  }

  /** A word character is an ASCII letter or digit, an underscore, a hyphen or an apostrophe, or the two bytes of such a
      letter. */
  lemma WordWidthIff(d: Bytes, i: nat)
    ensures WordWidth(d, i) <= 2
    ensures WordWidth(d, i) == 1 <==> i < |d| && d[i] < 0x80 && (IsAlnum(d[i]) || d[i] in {0x27, 0x2D, 0x5F})
    ensures WordWidth(d, i) == 2 <==>
            i + 2 <= |d| && exists c: UnicodeText.Char :: LatinLetter(c) && UnicodeText.EncodeChar(c) == d[i..i + 2]
  {
    if WordWidth(d, i) == 2 {
      var a: int, b: int := d[i], d[i + 1];
      UnicodeText.TwoBytes(a, b);
      var c: UnicodeText.Char := (a - 0xC0) * 64 + (b - 0x80);
      assert LatinLetter(c) && UnicodeText.EncodeChar(c) == [d[i], d[i + 1]] == d[i..i + 2];
    }
    if c: UnicodeText.Char :| i + 2 <= |d| && LatinLetter(c) && UnicodeText.EncodeChar(c) == d[i..i + 2] {
      assert d[i] == d[i..i + 2][0] == 0xC0 + c / 64 && d[i + 1] == d[i..i + 2][1] == 0x80 + c % 64;
      assert c == c / 64 * 64 + c % 64;
    }
  }

  // ---- The span without the spaces around it

  /** `d[a..b]` is `d[from..to]` without the spaces at its ends; nothing but spaces leaves the empty end. */
  predicate Trimmed(d: Bytes, from: nat, to: nat, a: nat, b: nat) {
    && from <= a <= b <= to <= |d|
    && (forall k :: from <= k < a ==> IsSpace(d[k])) && (forall k :: b <= k < to ==> IsSpace(d[k]))
    && (if a < b then !IsSpace(d[a]) && !IsSpace(d[b - 1]) else a == to)
  }

  lemma TrimmedSpan(d: Bytes, from: nat, to: nat)
    requires from <= to <= |d|
    ensures var a := SkipSpaces(d, from, to); Trimmed(d, from, to, a, DropSpaces(d, a, to))
  {
    SkipSpacesMeans(d, from, to);
    DropSpacesMeans(d, SkipSpaces(d, from, to), to);
    hide SkipSpaces, DropSpaces, IsSpace;
  }

  lemma TrimmedOnce(d: Bytes, from: nat, to: nat, a: nat, b: nat, a': nat, b': nat)
    requires Trimmed(d, from, to, a, b) && Trimmed(d, from, to, a', b')
    ensures a == a' && b == b'
  {
    hide IsSpace;
  }

  // ---- A value span

  /** The start moves left out of the character that it cuts, never below the floor, and not otherwise. */
  predicate CutLeft(d: Bytes, floor: nat, left: nat, a: nat) {
    && left <= a && (floor <= left || left == a)
    && (forall k :: left < k <= a ==> Utf8.IsCont(At(d, k)))
    && (left > floor ==> !Utf8.IsCont(At(d, left)))
  }

  /** The end moves right out of the character that it cuts, and not otherwise. */
  predicate CutRight(d: Bytes, b: nat, right: nat) {
    && b <= right <= |d|
    && (forall k :: b <= k < right ==> Utf8.IsCont(d[k]))
    && (right < |d| ==> !Utf8.IsCont(d[right]))
  }

  /** Above the floor no word character ends at `i`. */
  predicate NoWordBefore(d: Bytes, floor: nat, i: nat) {
    forall c :: floor <= c < i ==> WordWidth(d, c) != i - c
  }

  /** A completed value: the trimmed token span, out of the characters it cuts, and over the unbroken run of word characters
      on either side. */
  predicate ValueParts(d: Bytes, from: nat, to: nat, floor: nat, a: nat, b: nat, left: nat, right: nat, start: nat, end: nat) {
    && Trimmed(d, from, to, a, b) && CutLeft(d, floor, left, a) && CutRight(d, b, right)
    && start <= left && (floor <= start || start == left) && Words(d, start, left) && NoWordBefore(d, floor, start)
    && right <= end <= |d| && Words(d, right, end) && WordWidth(d, end) == 0
  }

  lemma {:induction false} AlignedLeft(d: Bytes, floor: nat, i: nat)
    ensures CutLeft(d, floor, AlignLeft(d, floor, i), i)
    decreases i
  {
    if i > floor && Utf8.IsCont(At(d, i)) {
      AlignedLeft(d, floor, i - 1);
    }
  }

  lemma {:induction false} AlignedRight(d: Bytes, i: nat)
    requires i <= |d|
    ensures CutRight(d, i, AlignRight(d, i))
    decreases |d| - i
  {
    if Utf8.IsCont(At(d, i)) {
      AlignedRight(d, i + 1);
    }
  }

  lemma CutLeftOnce(d: Bytes, floor: nat, a: nat, left: nat, left': nat)
    requires CutLeft(d, floor, left, a) && CutLeft(d, floor, left', a)
    ensures left == left'
  {
  }

  lemma CutRightOnce(d: Bytes, b: nat, right: nat, right': nat)
    requires CutRight(d, b, right) && CutRight(d, b, right')
    ensures right == right'
  {
  }

  /** A word character that ends at `i` is the one the backward scan meets. */
  lemma WordBefore(d: Bytes, floor: nat, c: nat, i: nat)
    requires floor <= c < i && WordWidth(d, c) == i - c
    ensures Previous(d, floor, i) == c
  {
    var lead := AlignLeft(d, floor, i - 1);
    AlignedLeft(d, floor, i - 1);
    assert !Utf8.IsCont(At(d, c));
    if i - c == 2 {
      assert Utf8.IsCont(At(d, c + 1));
      assert CutLeft(d, floor, c, i - 1);
    } else {
      assert CutLeft(d, floor, c, i - 1);
    }
    CutLeftOnce(d, floor, i - 1, lead, c);
  }

  lemma {:induction false} GrownLeft(d: Bytes, floor: nat, i: nat)
    requires i <= |d|
    ensures var r := GrowLeft(d, floor, i);
            r <= i && (floor <= r || r == i) && Words(d, r, i) && NoWordBefore(d, floor, r)
    decreases i
  {
    hide WordWidth;
    if i > floor && Previous(d, floor, i) < i {
      var p := Previous(d, floor, i);
      GrownLeft(d, floor, p);
      assert p + WordWidth(d, p) == i && Words(d, i, i);
      assert Words(d, p, i);
      WordsAppend(d, GrowLeft(d, floor, p), p, i);
    } else {
      forall c | floor <= c < i ensures WordWidth(d, c) != i - c {
        if WordWidth(d, c) == i - c {
          WordBefore(d, floor, c, i);
        }
      }
    }
  }

  lemma {:induction false} WordsStop(d: Bytes, i: nat, j: nat, k: nat)
    requires Words(d, i, j) && Words(d, i, k) && WordWidth(d, j) == 0 && WordWidth(d, k) == 0
    ensures j == k
    decreases j - i
  {
    hide WordWidth;
    if i < j && i < k {
      WordsStop(d, i + WordWidth(d, i), j, k);
    }
  }

  /** Inside a run of word characters every word character begins where another ends. */
  lemma {:induction false} WordEndsAt(d: Bytes, i: nat, k: nat, j: nat) returns (c: nat)
    requires Words(d, i, j) && Words(d, k, j) && i < k <= j
    ensures i <= c < k && WordWidth(d, c) == k - c
    decreases k - i
  {
    var w := WordWidth(d, i);
    if i + w == k {
      c := i;
    } else if i + w < k {
      c := WordEndsAt(d, i + w, k, j);
    } else {
      WordsForward(d, i + w, j);
      assert false;
    }
  }

  lemma StartOnce(d: Bytes, floor: nat, left: nat, s: nat, t: nat)
    requires s <= left && t <= left && (floor <= s || s == left) && (floor <= t || t == left)
    requires Words(d, s, left) && Words(d, t, left) && NoWordBefore(d, floor, s) && NoWordBefore(d, floor, t)
    ensures s == t
  {
    hide WordWidth;
    if s < t {
      var c := WordEndsAt(d, s, t, left);
    } else if t < s {
      var c := WordEndsAt(d, t, s, left);
    }
  }

  lemma ValueSpanParts(d: Bytes, from: nat, to: nat, floor: nat)
    requires from <= to <= |d|
    ensures var a := SkipSpaces(d, from, to);
            var b := DropSpaces(d, a, to);
            var (start, end) := DecodedSpan(d, from, to, floor, Value);
            ValueParts(d, from, to, floor, a, b, AlignLeft(d, floor, a), AlignRight(d, b), start, end)
  {
    hide GrowLeft, GrowRight, AlignLeft, AlignRight, Words, WordWidth, SkipSpaces, DropSpaces, At, Utf8.IsCont;
    hide Trimmed, CutLeft, CutRight, NoWordBefore;
    TrimmedSpan(d, from, to);
    var a := SkipSpaces(d, from, to);
    var b := DropSpaces(d, a, to);
    AlignedLeft(d, floor, a);
    AlignedRight(d, b);
    GrownLeft(d, floor, AlignLeft(d, floor, a));
    GrowRightIsMaximal(d, AlignRight(d, b));
  }

  lemma ValuePartsOnce(d: Bytes, from: nat, to: nat, floor: nat, a: nat, b: nat, left: nat, right: nat, start: nat, end: nat,
                       a': nat, b': nat, left': nat, right': nat, start': nat, end': nat)
    requires ValueParts(d, from, to, floor, a, b, left, right, start, end)
    requires ValueParts(d, from, to, floor, a', b', left', right', start', end')
    ensures start == start' && end == end'
  {
    hide Trimmed, CutLeft, CutRight, NoWordBefore, Words, WordWidth;
    TrimmedOnce(d, from, to, a, b, a', b');
    CutLeftOnce(d, floor, a, left, left');
    CutRightOnce(d, b, right, right');
    StartOnce(d, floor, left, start, start');
    WordsStop(d, right, end, end');
  }

  /** In valid text a value span ends between two characters, and starts between two unless it starts where the source
      itself starts inside one. Alignment adds at most three bytes of one character on either side, completion only whole
      word characters: an ASCII word byte, or a letter U+00C0..U+02AF. */
  lemma ValueSpanBoundaries(d: Bytes, from: nat, to: nat, floor: nat, a: nat, b: nat, left: nat, right: nat, start: nat, end: nat)
    requires ValueParts(d, from, to, floor, a, b, left, right, start, end) && Utf8.Valid(d) && floor <= start
    ensures Utf8.Boundary(d, start) <==> start > floor || Utf8.Boundary(d, floor)
    ensures Utf8.Boundary(d, end)
    ensures Utf8.Boundary(d, start) && start <= end ==> Utf8.Valid(d[start..end])
    ensures a - left <= 3 && right - b <= 3
    ensures forall k :: start <= k < left ==> InWord(d, start, left, k)
    ensures forall k :: right <= k < end ==> InWord(d, right, end, k)
  {
    assert a <= |d|;
    hide Words, Utf8.Valid, InWord, NoWordBefore, Trimmed, CutLeft, CutRight;
    LeftCutIsShort(d, floor, left, a);
    RightCutIsShort(d, b, right);
    ValueEnds(d, floor, left, a, right, b, start, end);
    if start <= end && Utf8.Boundary(d, start) {
      hide Utf8.Boundary;
      Utf8.BoundarySplits(d, start);
      Utf8.BoundarySplits(d, end);
      Utf8.ValidBetween(d, start, end);
    }
    forall k | start <= k < left ensures InWord(d, start, left, k) {
      WordsAreLatin(d, start, left, k);
    }
    forall k | right <= k < end ensures InWord(d, right, end, k) {
      WordsAreLatin(d, right, end, k);
    }
  }

  lemma LeftCutIsShort(d: Bytes, floor: nat, left: nat, a: nat)
    requires Utf8.Valid(d) && a <= |d| && CutLeft(d, floor, left, a)
    ensures a - left <= 3
  {
    hide Utf8.Valid;
    if left < a {
      assert Utf8.IsCont(At(d, a));
      forall k | left + 1 <= k < a + 1 ensures Utf8.IsCont(d[k]) {
        assert Utf8.IsCont(At(d, k));
      }
      Utf8.ContinuationsAreShort(d, left + 1, a + 1);
    }
  }

  lemma RightCutIsShort(d: Bytes, b: nat, right: nat)
    requires Utf8.Valid(d) && CutRight(d, b, right)
    ensures right - b <= 3
  {
    Utf8.ContinuationsAreShort(d, b, right);
  }

  lemma ValueEnds(d: Bytes, floor: nat, left: nat, a: nat, right: nat, b: nat, start: nat, end: nat)
    requires Utf8.Valid(d) && a <= |d| && CutLeft(d, floor, left, a) && CutRight(d, b, right)
    requires floor <= start <= left && right <= end <= |d| && Words(d, start, left) && Words(d, right, end)
    ensures Utf8.Boundary(d, start) <==> start > floor || Utf8.Boundary(d, floor)
    ensures Utf8.Boundary(d, end)
  {
    hide Words, Utf8.Valid;
    StartIsLead(d, start, left);
    WordsEndAtBoundary(d, right, end);
  }

  lemma StartIsLead(d: Bytes, start: nat, left: nat)
    requires Words(d, start, left)
    ensures start < left ==> !Utf8.IsCont(At(d, start))
  {
  }

  // ---- An entity span

  predicate EndsIn(d: Bytes, start: nat, end: nat, tail: Bytes) {
    start + |tail| <= end <= |d| && d[end - |tail|..end] == tail
  }

  /** From the first word byte of the trimmed token span back to the beginning of its word, and on to the end of the word at
      the end of the tokens, less a possessive ending. */
  predicate EntityParts(d: Bytes, from: nat, to: nat, floor: nat, a: nat, b: nat, first: nat, whole: nat, start: nat, end: nat) {
    && Trimmed(d, from, to, a, b)
    && a <= first <= b && (forall k :: a <= k < first ==> !WordByte(d[k])) && (first < b ==> WordByte(d[first]))
    && start <= first && (floor <= start || start == first)
    && (forall k :: start <= k < first ==> WordByte(d[k])) && (start > floor ==> !WordByte(d[start - 1]))
    && b <= whole <= |d| && (forall k :: b <= k < whole ==> WordByte(d[k])) && (whole < |d| ==> !WordByte(d[whole]))
    && end == whole - (if EndsIn(d, start, whole, APOSTROPHE_S) then 2
                       else if EndsIn(d, start, whole, TYPOGRAPHIC_S) then 4 else 0)
  }

  lemma {:induction false} FirstWordByte(d: Bytes, a: nat, b: nat)
    requires a <= b <= |d|
    ensures var r := SkipNonWord(d, a, b);
            (forall k :: a <= k < r ==> !WordByte(d[k])) && (r < b ==> WordByte(d[r]))
    decreases b - a
  {
    if a < b && !WordByte(d[a]) {
      FirstWordByte(d, a + 1, b);
    }
  }

  lemma EntitySpanParts(d: Bytes, from: nat, to: nat, floor: nat)
    requires from <= to <= |d|
    ensures var a := SkipSpaces(d, from, to);
            var b := DropSpaces(d, a, to);
            var (start, end) := DecodedSpan(d, from, to, floor, Entity);
            EntityParts(d, from, to, floor, a, b, SkipNonWord(d, a, b), ForwardWord(d, b), start, end)
  {
    hide SkipSpaces, DropSpaces, SkipNonWord, BackWord, ForwardWord, WordByte, At, Trimmed;
    TrimmedSpan(d, from, to);
    TrimmedBounds(d, from, to);
    var a := SkipSpaces(d, from, to);
    var b := DropSpaces(d, a, to);
    FirstWordByte(d, a, b);
    BackWordMeans(d, floor, SkipNonWord(d, a, b));
    ForwardWordMeans(d, b);
    PossessiveEnd(d, BackWord(d, floor, SkipNonWord(d, a, b)), ForwardWord(d, b));
    hide DropPossessive, EndsIn;
  }

  lemma PossessiveEnd(d: Bytes, start: nat, whole: nat)
    requires start <= whole <= |d|
    ensures DropPossessive(d, start, whole)
            == whole - (if EndsIn(d, start, whole, APOSTROPHE_S) then 2 else if EndsIn(d, start, whole, TYPOGRAPHIC_S) then 4 else 0)
  {
  }

  lemma TrimmedBounds(d: Bytes, from: nat, to: nat)
    requires from <= to <= |d|
    ensures var a := SkipSpaces(d, from, to); from <= a <= DropSpaces(d, a, to) <= to
  {
  }

  lemma EntityPartsOnce(d: Bytes, from: nat, to: nat, floor: nat, a: nat, b: nat, first: nat, whole: nat, start: nat, end: nat,
                        a': nat, b': nat, first': nat, whole': nat, start': nat, end': nat)
    requires EntityParts(d, from, to, floor, a, b, first, whole, start, end)
    requires EntityParts(d, from, to, floor, a', b', first', whole', start', end')
    ensures start == start' && end == end'
  {
    hide Trimmed, WordByte, EndsIn;
    TrimmedOnce(d, from, to, a, b, a', b');
    assert first == first';
    assert whole == whole';
    assert start == start';
  }

  // ---- All three

  /** `d[start..end]` is what tokens `from` to `to` stand for in this mode. */
  ghost predicate Means(d: Bytes, from: nat, to: nat, floor: nat, mode: Expansion, start: nat, end: nat) {
    match mode
    case Exact => Trimmed(d, from, to, start, end)
    case Value =>
      exists a: nat, b: nat, left: nat, right: nat :: ValueParts(d, from, to, floor, a, b, left, right, start, end)
    case Entity =>
      exists a: nat, b: nat, first: nat, whole: nat :: EntityParts(d, from, to, floor, a, b, first, whole, start, end)
  }

  /** The mapping computes that span, and there is only one. */
  lemma DecodedSpanIff(d: Bytes, from: nat, to: nat, floor: nat, mode: Expansion, start: nat, end: nat)
    requires from <= to <= |d|
    ensures DecodedSpan(d, from, to, floor, mode) == (start, end) <==> Means(d, from, to, floor, mode, start, end)
  {
    hide DecodedSpan, Trimmed, ValueParts, EntityParts;
    var (s, e) := DecodedSpan(d, from, to, floor, mode);
    match mode
    case Exact =>
      ExactSpanParts(d, from, to, floor);
      if Trimmed(d, from, to, start, end) {
        TrimmedOnce(d, from, to, s, e, start, end);
      }
    case Value =>
      ValueSpanParts(d, from, to, floor);
      if a: nat, b: nat, left: nat, right: nat :| ValueParts(d, from, to, floor, a, b, left, right, start, end) {
        var x := SkipSpaces(d, from, to);
        var y := DropSpaces(d, x, to);
        ValuePartsOnce(d, from, to, floor, a, b, left, right, start, end, x, y, AlignLeft(d, floor, x), AlignRight(d, y), s, e);
      }
    case Entity =>
      EntitySpanParts(d, from, to, floor);
      if a: nat, b: nat, first: nat, whole: nat :| EntityParts(d, from, to, floor, a, b, first, whole, start, end) {
        var x := SkipSpaces(d, from, to);
        var y := DropSpaces(d, x, to);
        EntityPartsOnce(d, from, to, floor, a, b, first, whole, start, end, x, y, SkipNonWord(d, x, y), ForwardWord(d, y), s, e);
      }
  }

  lemma ExactSpanParts(d: Bytes, from: nat, to: nat, floor: nat)
    requires from <= to <= |d|
    ensures var (start, end) := DecodedSpan(d, from, to, floor, Exact); Trimmed(d, from, to, start, end)
  {
    hide Trimmed, SkipSpaces, DropSpaces;
    TrimmedSpan(d, from, to);
  }

  /** Tokens `tokens.0` to `tokens.1` stand for the bytes `s` of the source. */
  ghost predicate Maps(d: Bytes, offsets: seq<nat>, floor: nat, source: Bytes, tokens: (nat, nat), mode: Expansion, s: (nat, nat)) {
    && tokens.0 <= tokens.1 && tokens.1 + 1 < |offsets| && s.0 < s.1 <= |source|
    && Means(d, offsets[tokens.0], offsets[tokens.1 + 1], floor, mode, s.0 + floor, s.1 + floor)
  }

  /** A token span is mapped to a span of the source exactly when it stands for a stretch of it that is not empty, and then
      to that one; and the source has there the very bytes of the decoded text. */
  lemma SourceSpanIff(d: Bytes, offsets: seq<nat>, floor: nat, source: Bytes, tokens: (nat, nat), mode: Expansion, s: (nat, nat))
    requires Offsets(d, offsets) && EndsWithSource(d, floor, source)
    ensures SourceSpan(d, offsets, floor, source, tokens.0, tokens.1, mode) == Some(s) <==>
            Maps(d, offsets, floor, source, tokens, mode, s)
    ensures s.0 <= s.1 <= |source| ==> source[s.0..s.1] == d[s.0 + floor..s.1 + floor]
  {
    hide DecodedSpan, Means;
    if tokens.0 <= tokens.1 && tokens.1 + 1 < |offsets| {
      DecodedSpanIff(d, offsets[tokens.0], offsets[tokens.1 + 1], floor, mode, s.0 + floor, s.1 + floor);
    }
    if s.0 <= s.1 <= |source| {
      InnerSlice(d, floor, floor + |source|, s.0, s.1);
    }
  }

  // ---- Articles

  /** "a", "an" or "the", in any mixture of cases. */
  lemma ArticleSpelled(w: Bytes)
    ensures IsArticle(w) <==>
            || (|w| == 1 && w[0] in {0x41, 0x61})
            || (|w| == 2 && w[0] in {0x41, 0x61} && w[1] in {0x4E, 0x6E})
            || (|w| == 3 && w[0] in {0x54, 0x74} && w[1] in {0x48, 0x68} && w[2] in {0x45, 0x65})
  {
    var low := LowerAll(w);
    assert low == [0x61] <==> |w| == 1 && ToLower(w[0]) == 0x61;
    assert low == [0x61, 0x6E] <==> |w| == 2 && ToLower(w[0]) == 0x61 && ToLower(w[1]) == 0x6E;
    assert low == [0x74, 0x68, 0x65] <==> |w| == 3 && ToLower(w[0]) == 0x74 && ToLower(w[1]) == 0x68 && ToLower(w[2]) == 0x65;
  }

  // ---- Decoding

  /** The pieces that could be decoded. */
  function Decoded(pieces: seq<Option<Bytes>>): seq<Bytes>
    requires forall i :: 0 <= i < |pieces| ==> pieces[i].Some?
  {
    seq(|pieces|, i requires 0 <= i < |pieces| => pieces[i].value)
  }

  lemma {:induction false} SpelledMeans(pieces: seq<Option<Bytes>>)
    ensures Spelled(pieces).Some? <==> forall i :: 0 <= i < |pieces| ==> pieces[i].Some?
    ensures Spelled(pieces).Some? ==>
              var (text, offsets) := Spelled(pieces).value;
              && text == Concat(Decoded(pieces)) && |offsets| == |pieces| + 1 && offsets[|pieces|] == |text|
    decreases |pieces|
  {
    if pieces != [] {
      var n := |pieces| - 1;
      var before := pieces[..n];
      SpelledMeans(before);
      assert forall i :: 0 <= i < n ==> before[i] == pieces[i];
      if Spelled(pieces).Some? {
        assert Decoded(pieces) == Decoded(before) + [pieces[n].value];
        ConcatSnoc(Decoded(before), pieces[n].value);
      }
    }
  }

  /** The source is found exactly when every token can be decoded and the visible part of their text ends with the source and
      holds it nowhere else before; it then begins where that end does. */
  lemma DecodedIff(pieces: seq<Option<Bytes>>, source: Bytes)
    ensures DecodedOf(pieces, source).Some? <==>
            && (forall i :: 0 <= i < |pieces| ==> pieces[i].Some?)
            && var text := Concat(Decoded(pieces));
               && text != [] && |source| <= |CString(text)|
               && var at := |CString(text)| - |source|;
                  OccursAt(CString(text), source, at) && forall j :: 0 <= j < at ==> !OccursAt(CString(text), source, j)
    ensures DecodedOf(pieces, source).Some? ==>
              var x := DecodedOf(pieces, source).value;
              && x.text == Concat(Decoded(pieces)) && |x.offsets| == |pieces| + 1
              && x.floor == |CString(x.text)| - |source|
  {
    hide Spelled, Concat, CString;
    SpelledMeans(pieces);
  }

  // ---- Predicates

  /** Length of the run of letters and digits at the head of `s`. */
  function RunLength(s: Bytes): (n: nat)
    ensures n <= |s| && (forall i :: 0 <= i < n ==> IsAlnum(s[i])) && (n < |s| ==> !IsAlnum(s[n]))
  {
    if s != [] && IsAlnum(s[0]) then 1 + RunLength(s[1..]) else 0
  }

  /** The longest runs of letters and digits, in lower case. */
  function WordsOf(s: Bytes): seq<Bytes>
    decreases |s|
  {
    if s == [] then []
    else if RunLength(s) == 0 then WordsOf(s[1..])
    else [LowerAll(s[..RunLength(s)])] + WordsOf(s[RunLength(s)..])
  }

  /** The words with one underscore between any two. */
  function Join(words: seq<Bytes>): Bytes {
    if words == [] then [] else if |words| == 1 then words[0] else words[0] + [0x5F] + Join(words[1..])
  }

  function NormalFrom(n: Normal, s: Bytes): Normal
    decreases |s|
  {
    if s == [] then n else NormalFrom(NormalStep(n, s[0]), s[1..])
  }

  lemma {:induction false} NormalSplit(a: Bytes, b: Bytes)
    ensures NormalOf(a + b) == NormalFrom(NormalOf(a), b)
    decreases |b|
  {
    hide NormalStep;
    if b == [] {
      assert a + b == a;
    } else {
      assert a + b == (a + [b[0]]) + b[1..] && (a + [b[0]])[..|a|] == a;
      NormalSplit(a + [b[0]], b[1..]);
    }
  }

  /** One run of letters and digits, with the waiting separator in front. */
  lemma {:induction false} NormalRun(n: Normal, w: Bytes)
    requires w != [] && forall i :: 0 <= i < |w| ==> IsAlnum(w[i])
    ensures var sep := if n.separator && n.written != [] then [0x5F] else [];
            NormalFrom(n, w) == Normal(n.written + sep + LowerAll(w), false)
    decreases |w|
  {
    var c, rest := ToLower(w[0]), w[1..];
    var sep: Bytes := if n.separator && n.written != [] then [0x5F] else [];
    var next := Normal(n.written + sep + [c], false);
    assert NormalStep(n, w[0]) == next;
    LowerCons(w);
    Regroup(n.written, sep, [c], LowerAll(rest));
    if rest == [] {
      assert NormalFrom(next, rest) == next && LowerAll(rest) == [];
      assert [c] + [] == [c];
    } else {
      hide NormalStep, IsAlnum, LowerAll;
      NormalRun(next, rest);
      assert next.written + [] == next.written;
    }
  }

  lemma LowerCons(w: Bytes)
    requires w != []
    ensures LowerAll(w) == [ToLower(w[0])] + LowerAll(w[1..])
  {
  }

  lemma Regroup(a: Bytes, b: Bytes, c: Bytes, d: Bytes)
    ensures a + b + c + d == a + b + (c + d)
  {
  }

  lemma {:induction false} NormalFromSplit(n: Normal, a: Bytes, b: Bytes)
    ensures NormalFrom(n, a + b) == NormalFrom(NormalFrom(n, a), b)
    decreases |a|
  {
    hide NormalStep;
    if a == [] {
      assert a + b == b;
    } else {
      assert (a + b)[1..] == a[1..] + b;
      NormalFromSplit(NormalStep(n, a[0]), a[1..], b);
    }
  }

  /** Between two words: what is to come is joined on with an underscore, if there is any. */
  predicate Between(n: Normal, s: Bytes) {
    (n.separator ==> n.written != []) && (n.written != [] && !n.separator && s != [] ==> !IsAlnum(s[0]))
  }

  lemma {:induction false} NormalJoins(n: Normal, s: Bytes)
    requires Between(n, s)
    ensures NormalFrom(n, s).written ==
            if WordsOf(s) == [] then n.written
            else if n.written == [] then Join(WordsOf(s)) else n.written + [0x5F] + Join(WordsOf(s))
    decreases |s|
  {
    if s != [] {
      var k := RunLength(s);
      if k == 0 {
        NormalJoins(NormalStep(n, s[0]), s[1..]);
      } else {
        var word, rest := LowerAll(s[..k]), s[k..];
        assert s == s[..k] + rest;
        NormalFromSplit(n, s[..k], rest);
        NormalRun(n, s[..k]);
        var next := NormalFrom(n, s[..k]);
        assert next.written != [] && Between(next, rest);
        NormalJoins(next, rest);
        JoinCons(word, WordsOf(rest));
        JoinedOn(n.written, word, WordsOf(rest), n.separator);
      }
    }
  }

  lemma JoinCons(word: Bytes, words: seq<Bytes>)
    ensures Join([word] + words) == if words == [] then word else word + [0x5F] + Join(words)
  {
    assert ([word] + words)[1..] == words;
  }

  lemma JoinedOn(written: Bytes, word: Bytes, words: seq<Bytes>, separator: bool)
    requires separator <==> written != []
    ensures var sep := if separator && written != [] then [0x5F] else [];
            var sofar := written + sep + word;
            (if words == [] then sofar else sofar + [0x5F] + Join(words)) ==
            if written == [] then Join([word] + words) else written + [0x5F] + Join([word] + words)
  {
    JoinCons(word, words);
    hide Join;
    if words != [] {
      assert written + [0x5F] + word + [0x5F] + Join(words) == written + [0x5F] + (word + [0x5F] + Join(words));
      assert [] + [] + word == word;
    }
  }

  /** The normal form of a span is its words in lower case, one underscore wherever other bytes stood between two of them;
      a span is refused when it has none or does not begin with a letter. */
  lemma PredicateMeans(source: Bytes, start: nat, end: nat)
    ensures start < end <= |source| ==>
              var form := Join(WordsOf(source[start..end]));
              NormalizePredicate(source, start, end) == if form != [] && IsLower(form[0]) then Some(form) else None
    ensures !(start < end <= |source|) ==> NormalizePredicate(source, start, end).None?
  {
    if start < end <= |source| {
      var s := source[start..end];
      assert [] + s == s;
      NormalSplit([], s);
      NormalJoins(Normal([], false), s);
    }
  }
}
