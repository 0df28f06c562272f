/** Append-only transport of one selected source value, token by token. */
module ValueTransport {
  import opened Bytes
  import opened Outcomes
  import Utf8

  type Token = nat

  datatype TransportError = Rejected | BudgetExceeded | UnsafeToken

  /** The tokenizer as the transport sees it: one byte piece per token, an encoder that may refuse a text. */
  datatype Codec = Codec(
    vocab: nat,
    bos: Token,
    eos: Token,
    blocked: set<Token>,
    piece: Token -> Bytes,
    encodeWithBos: Bytes -> Option<seq<Token>>)
  {
    function Pieces(ids: seq<Token>): (r: seq<Bytes>)
      ensures |r| == |ids|
      ensures forall i :: 0 <= i < |ids| ==> r[i] == piece(ids[i])
    {
      seq(|ids|, i requires 0 <= i < |ids| => piece(ids[i]))
    }

    function Text(ids: seq<Token>): Bytes {
      Concat(Pieces(ids))
    }

    predicate ValidIds(ids: seq<Token>) {
      ids != [] && forall i :: 0 <= i < |ids| ==> ids[i] < vocab
    }
  }

  const ANCHOR: Bytes := [0x3C, 0x7C, 0x69, 0x6D, 0x5F, 0x65, 0x6E, 0x64, 0x7C, 0x3E]
  const SPACE: Bytes := [0x20]

  /** Text that may cross the tokenizer boundary: nonempty, without a zero byte, well-formed. */
  predicate PlainText(s: Bytes) {
    s != [] && 0 !in s && Utf8.Valid(s)
  }

  /** Tokens of `value`, cut from an encoding that starts with the anchor. */
  function EncodeValue(c: Codec, value: Bytes): (r: Result<seq<Token>, TransportError>)
    ensures r.Ok? ==> PlainText(value) && c.ValidIds(r.value) && c.Text(r.value) == value
  {
    var plain := PlainText(value);
    :- Need(plain, Rejected);
    var anchor := c.encodeWithBos(ANCHOR);
    :- Need(anchor.Some? && anchor.value != [], Rejected);
    var anchorIds := anchor.value;
    var anchorPieces := c.Pieces(anchorIds[1..]);
    :- Need(anchorPieces == [ANCHOR] || anchorPieces == [SPACE, ANCHOR], Rejected);
    :- Need(anchorIds[|anchorIds| - 1] in c.blocked, Rejected);
    var encoded := c.encodeWithBos(ANCHOR + value);
    :- Need(encoded.Some? && c.ValidIds(encoded.value), Rejected);
    var combined := encoded.value;
    :- Need(anchorIds <= combined && |anchorIds| < |combined|, Rejected);
    var suffix := combined[|anchorIds|..];
    :- Need(c.Text(suffix) == value, Rejected);
    Ok(suffix)
  }

  datatype Span = Span(fact: nat, start: nat, end: nat)

  datatype Origin = OracleFixture | NeuralPrediction

  datatype Handle = Handle(span: Option<Span>, origin: Origin)

  type Snapshot = seq<Bytes>

  /** The selected bytes: the span must lie inside its fact and cut no character at either end. */
  function Selected(h: Handle, snapshot: Snapshot, allowOracle: bool): (r: Result<Option<Bytes>, TransportError>)
    ensures r.Ok? && h.span.Some? ==>
      && h.span.value.fact < |snapshot|
      && h.span.value.start < h.span.value.end <= |snapshot[h.span.value.fact]|
      && r.value == Some(snapshot[h.span.value.fact][h.span.value.start..h.span.value.end])
  {
    var permitted := h.origin == NeuralPrediction || allowOracle;
    :- Need(permitted, Rejected);
    if h.span.None? then Ok(None)
    else
      var span := h.span.value;
      :- Need(span.start < span.end && span.fact < |snapshot|, Rejected);
      var raw := snapshot[span.fact];
      :- Need(span.end <= |raw|, Rejected);
      :- Need(Utf8.Valid(raw[..span.start]) && Utf8.Valid(raw[..span.end]), Rejected);
      Ok(Some(raw[span.start..span.end]))
  }

  /** A selected value is itself well-formed text, although only two prefixes of the fact are checked. */
  lemma SelectedIsText(h: Handle, snapshot: Snapshot, allowOracle: bool)
    requires var r := Selected(h, snapshot, allowOracle); r.Ok? && r.value.Some?
    ensures Utf8.Valid(Selected(h, snapshot, allowOracle).value.value)
  {
    var span := h.span.value;
    Utf8.ValidBetween(snapshot[span.fact], span.start, span.end);
  }

  datatype Limits = Limits(maxValueBytes: nat, maxValueTokens: nat, maxTotalTokens: nat)

  const DEFAULT_LIMITS := Limits(256, 64, 128)

  datatype Cursor = Cursor(
    handle: Handle, initial: seq<Token>, tokens: seq<Token>, pieces: seq<Bytes>, value: Bytes, offset: nat)
  {
    predicate Done() { offset == |tokens| }

    function Expected(): seq<Token>
      requires offset <= |tokens|
    {
      initial + tokens[..offset]
    }

    /** The revalidation that `select` and `commit` begin with. */
    predicate Accepts(snapshot: Snapshot, prefix: seq<Token>, allowOracle: bool) {
      && Selected(handle, snapshot, allowOracle) == Ok(Some(value))
      && offset <= |tokens| && prefix == Expected()
    }

    function Select(base: Token, snapshot: Snapshot, prefix: seq<Token>, allowOracle: bool): Result<Token, TransportError> {
      var accepted := Accepts(snapshot, prefix, allowOracle);
      :- Need(accepted, Rejected);
      Ok(if Done() then base else tokens[offset])
    }

    function Commit(emitted: Token, snapshot: Snapshot, prefix: seq<Token>, allowOracle: bool): Result<Cursor, TransportError> {
      var accepted := Accepts(snapshot, prefix, allowOracle);
      :- Need(accepted, Rejected);
      :- Need(!Done() && emitted == tokens[offset], Rejected);
      Ok(this.(offset := offset + 1))
    }
  }

  /** Everything a cursor promises about the value it carries. */
  ghost predicate CursorOk(k: Cursor, c: Codec, snapshot: Snapshot, allowOracle: bool) {
    && Selected(k.handle, snapshot, allowOracle) == Ok(Some(k.value))
    && k.tokens != [] && k.offset <= |k.tokens|
    && k.pieces == c.Pieces(k.tokens) && Concat(k.pieces) == k.value
    && forall i :: 0 <= i < |k.tokens| ==> k.tokens[i] !in c.blocked && k.tokens[i] < c.vocab
  }

  /** All checks happen here, before the first token is emitted. */
  function CompileAppend(h: Handle, snapshot: Snapshot, prefix: seq<Token>, prefixText: Bytes, c: Codec,
                         limits: Limits, allowOracle: bool): (r: Result<Option<Cursor>, TransportError>)
    ensures r.Ok? && r.value.Some? ==>
      var k := r.value.value;
      && CursorOk(k, c, snapshot, allowOracle) && k.handle == h && k.initial == prefix && k.offset == 0
      && |k.value| <= limits.maxValueBytes
      && |k.tokens| <= limits.maxValueTokens && |prefix| + |k.tokens| <= limits.maxTotalTokens
  {
    var selected :- Selected(h, snapshot, allowOracle);
    if selected.None? then Ok(None)
    else
      var value := selected.value;
      :- Need(|value| <= limits.maxValueBytes, BudgetExceeded);
      :- Need(c.ValidIds(prefix), Rejected);
      :- Need(prefix[0] == c.bos && PlainText(prefixText), Rejected);
      :- Need(|prefix| < limits.maxTotalTokens, BudgetExceeded);
      var pieces := c.Pieces(prefix[1..]);
      :- Need(forall i :: 0 <= i < |pieces| ==> pieces[i] != [], Rejected);
      :- Need(Concat(pieces) == prefixText || Concat(pieces) == SPACE + prefixText, Rejected);
      var suffix :- EncodeValue(c, value);
      var suffixPieces := c.Pieces(suffix);
      :- Need(forall i :: 0 <= i < |suffixPieces| ==> suffixPieces[i] != [], Rejected);
      :- Need(forall i :: 0 <= i < |suffix| ==> suffix[i] !in c.blocked && 0 !in suffixPieces[i], UnsafeToken);
      :- Need(|suffix| <= limits.maxValueTokens && |prefix| + |suffix| <= limits.maxTotalTokens, BudgetExceeded);
      Ok(Some(Cursor(h, prefix, suffix, suffixPieces, value, 0)))
  }

  /** What a completed compile fixes: the token suffix depends on the value alone, not on the prefix or the limits. */
  lemma SuffixDependsOnValueOnly(h: Handle, snapshot: Snapshot, prefix: seq<Token>, text: Bytes, c: Codec,
                                 limits: Limits, allowOracle: bool)
    requires var r := CompileAppend(h, snapshot, prefix, text, c, limits, allowOracle); r.Ok? && r.value.Some?
    ensures var k := CompileAppend(h, snapshot, prefix, text, c, limits, allowOracle).value.value;
            EncodeValue(c, k.value) == Ok(k.tokens)
  {
    hide EncodeValue, Selected, Concat;
  }

  // ---- When a value can be carried

  /** The tokenizer's frame around a value: a blocked boundary token, perhaps with a space in front. */
  predicate Framing(c: Codec, anchor: seq<Token>) {
    && c.encodeWithBos(ANCHOR) == Some(anchor)
    && (|anchor| == 2 || (|anchor| == 3 && c.piece(anchor[1]) == SPACE))
    && c.piece(anchor[|anchor| - 1]) == ANCHOR && anchor[|anchor| - 1] in c.blocked
  }

  /** `ids` is what the tokenizer puts behind the anchor for `value`. */
  predicate Suffix(c: Codec, value: Bytes, ids: seq<Token>) {
    && PlainText(value) && ids != [] && c.Text(ids) == value
    && c.encodeWithBos(ANCHOR).Some?
    && var anchor := c.encodeWithBos(ANCHOR).value;
       && Framing(c, anchor) && c.encodeWithBos(ANCHOR + value) == Some(anchor + ids) && c.ValidIds(anchor + ids)
  }

  lemma EncodeValueIff(c: Codec, value: Bytes, ids: seq<Token>)
    ensures EncodeValue(c, value) == Ok(ids) <==> Suffix(c, value, ids)
  {
    hide Utf8.Valid, Concat;
    var anchor, encoded := c.encodeWithBos(ANCHOR), c.encodeWithBos(ANCHOR + value);
    if anchor.Some? && anchor.value != [] {
      FramingPieces(c, anchor.value);
      if encoded.Some? && anchor.value <= encoded.value {
        assert encoded.value == anchor.value + encoded.value[|anchor.value|..];
      }
      assert (anchor.value + ids)[|anchor.value|..] == ids && anchor.value <= anchor.value + ids;
    }
  }

  lemma FramingPieces(c: Codec, anchor: seq<Token>)
    requires anchor != []
    ensures var pieces := c.Pieces(anchor[1..]);
            pieces == [ANCHOR] || pieces == [SPACE, ANCHOR] <==>
            (|anchor| == 2 || (|anchor| == 3 && c.piece(anchor[1]) == SPACE)) && c.piece(anchor[|anchor| - 1]) == ANCHOR
  {
    var pieces := c.Pieces(anchor[1..]);
    assert |pieces| == |anchor| - 1;
    assert forall i :: 0 <= i < |pieces| ==> pieces[i] == c.piece(anchor[i + 1]);
  }

  /** Tokens that spell `value`, none of them empty or blocked. */
  predicate Carries(c: Codec, value: Bytes, ids: seq<Token>) {
    Suffix(c, value, ids) && forall i :: 0 <= i < |ids| ==> c.piece(ids[i]) != [] && ids[i] !in c.blocked
  }

  /** Tokens that a value can be appended to, and the text they stand for. */
  predicate Continuable(c: Codec, prefix: seq<Token>, text: Bytes) {
    && c.ValidIds(prefix) && prefix[0] == c.bos && PlainText(text)
    && (forall i :: 0 < i < |prefix| ==> c.piece(prefix[i]) != [])
    && (c.Text(prefix[1..]) == text || c.Text(prefix[1..]) == SPACE + text)
  }

  /** The handle may be used, and names a stretch of a fact that begins and ends between two characters. */
  predicate Selectable(h: Handle, snapshot: Snapshot, allowOracle: bool) {
    && (h.origin == OracleFixture ==> allowOracle) && h.span.Some? && h.span.value.fact < |snapshot|
    && var raw := snapshot[h.span.value.fact];
       && h.span.value.start < h.span.value.end <= |raw|
       && Utf8.Valid(raw[..h.span.value.start]) && Utf8.Valid(raw[..h.span.value.end])
  }

  function Named(h: Handle, snapshot: Snapshot): Bytes
    requires h.span.Some? && h.span.value.fact < |snapshot|
    requires h.span.value.start <= h.span.value.end <= |snapshot[h.span.value.fact]|
  {
    snapshot[h.span.value.fact][h.span.value.start..h.span.value.end]
  }

  lemma SelectedIff(h: Handle, snapshot: Snapshot, allowOracle: bool)
    ensures (exists value :: Selected(h, snapshot, allowOracle) == Ok(Some(value))) <==> Selectable(h, snapshot, allowOracle)
    ensures Selectable(h, snapshot, allowOracle) ==> Selected(h, snapshot, allowOracle) == Ok(Some(Named(h, snapshot)))
  {
    hide Utf8.Valid;
    assert Selectable(h, snapshot, allowOracle) ==> Selected(h, snapshot, allowOracle) == Ok(Some(Named(h, snapshot)));
  }

  /** The named bytes can be written after the prefix, by these tokens, within the three limits. */
  predicate Compilable(h: Handle, snapshot: Snapshot, prefix: seq<Token>, text: Bytes, c: Codec, limits: Limits,
                       allowOracle: bool, ids: seq<Token>) {
    && Selectable(h, snapshot, allowOracle) && Continuable(c, prefix, text) && Carries(c, Named(h, snapshot), ids)
    && |Named(h, snapshot)| <= limits.maxValueBytes && |ids| <= limits.maxValueTokens
    && |prefix| + |ids| <= limits.maxTotalTokens
  }

  /** A cursor is compiled if and only if there are such tokens, and it then stands before the first of them. */
  lemma CompileAppendIff(h: Handle, snapshot: Snapshot, prefix: seq<Token>, text: Bytes, c: Codec, limits: Limits,
                         allowOracle: bool, k: Cursor)
    ensures CompileAppend(h, snapshot, prefix, text, c, limits, allowOracle) == Ok(Some(k)) <==>
            && Compilable(h, snapshot, prefix, text, c, limits, allowOracle, k.tokens)
            && k == Cursor(h, prefix, k.tokens, c.Pieces(k.tokens), Named(h, snapshot), 0)
  {
    hide Utf8.Valid, EncodeValue, Suffix, Concat, Selected;
    SelectedIff(h, snapshot, allowOracle);
    var selected := Selected(h, snapshot, allowOracle);
    if selected.Ok? && selected.value.Some? {
      var value := selected.value.value;
      assert Selectable(h, snapshot, allowOracle) && value == Named(h, snapshot);
      EncodeValueIff(c, value, k.tokens);
      var suffix := EncodeValue(c, value);
      if suffix.Ok? {
        EncodeValueIff(c, value, suffix.value);
        SuffixIds(c, value, suffix.value);
        PiecesHaveNoZero(c, value, suffix.value);
      }
      if prefix != [] {
        PrefixPieces(c, prefix);
      }
    }
  }

  /** A cursor that was compiled answers for exactly one prefix: the one it began at and the tokens committed since. There it
      selects the next token of its value, and the model's own behind the last. It accepts that next token and no other, none
      behind the last, and then stands one token further. */
  lemma CursorMeans(k: Cursor, c: Codec, snapshot: Snapshot, prefix: seq<Token>, allowOracle: bool, token: Token)
    requires CursorOk(k, c, snapshot, allowOracle)
    ensures var stands := prefix == k.initial + k.tokens[..k.offset];
            && k.Select(token, snapshot, prefix, allowOracle)
               == (if !stands then Err(Rejected) else if k.offset < |k.tokens| then Ok(k.tokens[k.offset]) else Ok(token))
            && k.Commit(token, snapshot, prefix, allowOracle)
               == (if stands && k.offset < |k.tokens| && token == k.tokens[k.offset] then
                     Ok(Cursor(k.handle, k.initial, k.tokens, k.pieces, k.value, k.offset + 1))
                   else Err(Rejected))
  {
    hide Selected, Concat;
  }

  /** Against a snapshot that no longer holds its value at its place a cursor answers nothing. */
  lemma CursorNeedsItsValue(k: Cursor, snapshot: Snapshot, prefix: seq<Token>, allowOracle: bool, token: Token)
    requires !Selectable(k.handle, snapshot, allowOracle) || Named(k.handle, snapshot) != k.value
    ensures k.Select(token, snapshot, prefix, allowOracle).Err? && k.Commit(token, snapshot, prefix, allowOracle).Err?
  {
    hide Utf8.Valid;
    SelectedIff(k.handle, snapshot, allowOracle);
  }

  lemma SuffixIds(c: Codec, value: Bytes, ids: seq<Token>)
    requires Suffix(c, value, ids)
    ensures PlainText(value) && c.Text(ids) == value
    ensures (forall i :: 0 <= i < |ids| ==> c.piece(ids[i]) != []) <==> forall i :: 0 <= i < |ids| ==> c.Pieces(ids)[i] != []
  {
    assert forall i :: 0 <= i < |ids| ==> c.Pieces(ids)[i] == c.piece(ids[i]);
  }

  lemma PiecesHaveNoZero(c: Codec, value: Bytes, ids: seq<Token>)
    requires PlainText(value) && c.Text(ids) == value
    ensures forall i :: 0 <= i < |ids| ==> 0 !in c.Pieces(ids)[i]
  {
    hide Utf8.Valid;
    forall i | 0 <= i < |ids| ensures 0 !in c.Pieces(ids)[i] {
      PieceInside(c.Pieces(ids), i, 0);
    }
  }

  lemma {:induction false} PieceInside(pieces: seq<Bytes>, i: nat, x: Byte)
    requires i < |pieces|
    ensures x in pieces[i] ==> x in Concat(pieces)
  {
    if i > 0 {
      PieceInside(pieces[1..], i - 1, x);
    }
  }

  lemma PrefixPieces(c: Codec, prefix: seq<Token>)
    requires prefix != []
    ensures var pieces := c.Pieces(prefix[1..]);
            (forall i :: 0 < i < |prefix| ==> c.piece(prefix[i]) != []) <==> (forall i :: 0 <= i < |pieces| ==> pieces[i] != [])
  {
    var pieces := c.Pieces(prefix[1..]);
    assert forall i :: 0 <= i < |pieces| ==> pieces[i] == c.piece(prefix[i + 1]);
    assert forall i :: 0 < i < |prefix| ==> c.piece(prefix[i]) == pieces[i - 1];
  }

  /** Pieces of a part of a token list. */
  lemma TextAppend(c: Codec, a: seq<Token>, b: seq<Token>)
    ensures c.Text(a + b) == c.Text(a) + c.Text(b)
  {
    assert c.Pieces(a + b) == c.Pieces(a) + c.Pieces(b);
    ConcatAppend(c.Pieces(a), c.Pieces(b));
  }

  lemma TextPrefix(c: Codec, ids: seq<Token>, n: nat)
    requires n <= |ids|
    ensures c.Text(ids[..n]) <= c.Text(ids)
  {
    assert ids == ids[..n] + ids[n..];
    TextAppend(c, ids[..n], ids[n..]);
  }
}
