/** The streaming UTF-8 assembler of the server, its twin in the command-line generator,
    and the meaning both are proved against. */
module StreamDecoder {
  import opened Bytes
  import opened Utf8

  /** Bytes of an unfinished character, and how many it will have. */
  datatype Pending = Pending(bytes: Bytes, expected: nat)

  const IDLE := Pending([], 0)

  predicate Wf(p: Pending) {
    if p.bytes == [] then p == IDLE
    else
      && |p.bytes| < p.expected == ExpectedLen(p.bytes[0])
      && forall i :: 1 <= i < |p.bytes| ==> IsCont(p.bytes[i])
  }

  /** Completed groups, in order, and what is left unfinished. */
  datatype Decoded = Decoded(groups: seq<Bytes>, pending: Pending) {
    function Text(): Bytes { Concat(groups) }
  }

  function Lead(b: Byte): Decoded {
    var n := ExpectedLen(b);
    if n == 1 then Decoded([[b]], IDLE)
    else if n > 1 then Decoded([], Pending([b], n))
    else Decoded([], IDLE)
  }

  /** One byte. A byte that does not continue the unfinished character discards it and is read again as a lead. */
  function Feed(p: Pending, b: Byte): (d: Decoded)
    requires Wf(p)
    ensures Wf(d.pending)
  {
    if p.bytes == [] || !IsCont(b) then Lead(b)
    else if |p.bytes| + 1 < p.expected then Decoded([], Pending(p.bytes + [b], p.expected))
    else Decoded([p.bytes + [b]], IDLE)
  }

  function Decode(p: Pending, s: Bytes): (d: Decoded)
    requires Wf(p)
    ensures Wf(d.pending)
    decreases |s|
  {
    if s == [] then Decoded([], p)
    else
      var first := Feed(p, s[0]);
      var rest := Decode(first.pending, s[1..]);
      Decoded(first.groups + rest.groups, rest.pending)
  }

  lemma {:induction false} DecodeAppend(p: Pending, a: Bytes, b: Bytes)
    requires Wf(p)
    ensures var da := Decode(p, a);
            var db := Decode(da.pending, b);
            Decode(p, a + b) == Decoded(da.groups + db.groups, db.pending)
    decreases |a|
  {
    if a == [] {
      assert a + b == b;
      assert [] + Decode(p, b).groups == Decode(p, b).groups;
    } else {
      hide Feed;
      var first := Feed(p, a[0]);
      assert (a + b)[1..] == a[1..] + b && (a + b)[0] == a[0];
      DecodeAppend(first.pending, a[1..], b);
      var da := Decode(first.pending, a[1..]);
      var db := Decode(da.pending, b);
      assert first.groups + (da.groups + db.groups) == (first.groups + da.groups) + db.groups;
    }
  }

  lemma DecodeNothing(p: Pending)
    requires Wf(p)
    ensures Decode(p, []) == Decoded([], p)
  {
  }

  lemma DecodeSnoc(p: Pending, a: Bytes, b: Byte)
    requires Wf(p)
    ensures var d := Decode(p, a);
            var f := Feed(d.pending, b);
            Decode(p, a + [b]) == Decoded(d.groups + f.groups, f.pending)
  {
    DecodeAppend(p, a, [b]);
    var f := Feed(Decode(p, a).pending, b);
    assert [b][1..] == [];
    assert Decode(f.pending, []) == Decoded([], f.pending);
    assert f.groups + [] == f.groups;
  }

  /** One call per piece, the unfinished bytes carried from call to call. */
  function DecodePieces(p: Pending, pieces: seq<Bytes>): (d: Decoded)
    requires Wf(p)
    ensures Wf(d.pending)
    decreases |pieces|
  {
    if pieces == [] then Decoded([], p)
    else
      var first := Decode(p, pieces[0]);
      var rest := DecodePieces(first.pending, pieces[1..]);
      Decoded(first.groups + rest.groups, rest.pending)
  }

  /** However a byte stream is cut into pieces, the assembled text is the same. */
  lemma {:induction false} ChunkingIrrelevant(p: Pending, pieces: seq<Bytes>)
    requires Wf(p)
    ensures DecodePieces(p, pieces) == Decode(p, Concat(pieces))
    decreases |pieces|
  {
    if pieces != [] {
      ChunkingIrrelevant(Decode(p, pieces[0]).pending, pieces[1..]);
      DecodeAppend(p, pieces[0], Concat(pieces[1..]));
    }
  }

  // ---- Valid streams: agreement with the longest valid prefix

  /** A lead byte followed by exactly the continuation bytes it announces. */
  predicate Group(g: Bytes) {
    g != [] && ExpectedLen(g[0]) == |g| && forall i :: 1 <= i < |g| ==> IsCont(g[i])
  }

  predicate Grouped(groups: seq<Bytes>) {
    forall i :: 0 <= i < |groups| ==> Group(groups[i])
  }

  /** The first `k` bytes of one group, fed to an idle decoder. */
  lemma {:induction false} DecodeGroup(g: Bytes, k: nat)
    requires Group(g) && 0 < k <= |g|
    ensures Decode(IDLE, g[..k]) == if k < |g| then Decoded([], Pending(g[..k], |g|)) else Decoded([g], IDLE)
  {
    assert g[..k] == g[..k - 1] + [g[k - 1]];
    DecodeSnoc(IDLE, g[..k - 1], g[k - 1]);
    if k == 1 {
      DecodeNothing(IDLE);
      assert g[..0] == [] && g[..1] == [g[0]];
      var f := Feed(IDLE, g[0]);
      assert f == if |g| == 1 then Decoded([[g[0]]], IDLE) else Decoded([], Pending([g[0]], |g|));
      assert [] + f.groups == f.groups;
    } else {
      DecodeGroup(g, k - 1);
      hide Decode;
      var p := Pending(g[..k - 1], |g|);
      assert p.bytes + [g[k - 1]] == g[..k];
      var f := Feed(p, g[k - 1]);
      assert f == if k < |g| then Decoded([], Pending(g[..k], |g|)) else Decoded([g[..k]], IDLE);
      assert [] + f.groups == f.groups;
    }
    assert k == |g| ==> g[..k] == g;
  }

  /** A group at the head of the input is written whole, and the decoder is idle after it. */
  lemma DecodeAfterGroup(g: Bytes, rest: Bytes)
    requires Group(g)
    ensures var d := Decode(IDLE, rest);
            && Decode(IDLE, g + rest) == Decoded([g] + d.groups, d.pending)
            && Decode(IDLE, g + rest).Text() == g + d.Text()
  {
    DecodeGroup(g, |g|);
    assert g[..|g|] == g;
    DecodeAppend(IDLE, g, rest);
    var groups := Decode(IDLE, rest).groups;
    assert ([g] + groups)[1..] == groups;
  }

  /** On every prefix of a valid stream the decoder has written exactly the text that `utf8_prefix`
      returns, and holds back exactly the bytes that it drops, at most three. */
  lemma {:induction false} AgreesWithLongestValidPrefix(stream: Bytes, data: Bytes)
    requires Valid(stream) && data <= stream
    ensures var d := Decode(IDLE, data);
            && Utf8Prefix(data) == PrefixResult(d.Text(), |d.pending.bytes|)
            && |d.pending.bytes| <= 3
            && d.Text() + d.pending.bytes == data
            && Valid(d.Text())
    decreases |stream|
  {
    var c := ValidStreamShape(stream, data);
    var d := Decode(IDLE, data);
    assert c[..|d.pending.bytes|] == d.pending.bytes;
    PrefixOfUnfinished(d.Text(), c, |d.pending.bytes|, 0);
  }

  /** `tail` is a proper prefix of one character. */
  ghost predicate Unfinished(c: Bytes, tail: Bytes) {
    c != [] && CharLen(c) == |c| && tail < c
  }

  /** Whole characters and then part of one, of which `c` is a completion. */
  ghost predicate StreamShape(data: Bytes, c: Bytes) {
    var d := Decode(IDLE, data);
    d.Text() + d.pending.bytes == data && Valid(d.Text()) && Unfinished(c, d.pending.bytes)
  }

  lemma {:induction false} ValidStreamShape(stream: Bytes, data: Bytes) returns (c: Bytes)
    requires Valid(stream) && data <= stream
    ensures StreamShape(data, c)
    decreases |stream|
  {
    hide Decode, StreamShape;
    var n := CharLen(stream);
    if data == [] {
      c := [65];
      NothingShape();
    } else if |data| < n {
      c := stream[..n];
      CharLenOfChar(stream);
      assert c[..|data|] == data;
      PartShape(c, data);
    } else {
      CharLenOfChar(stream);
      c := ValidStreamShape(stream[n..], data[n..]);
      CharThenShape(stream[..n], data[n..], c);
      assert data == stream[..n] + data[n..];
    }
  }

  lemma NothingShape()
    ensures StreamShape([], [65])
  {
  }

  lemma PartShape(c: Bytes, data: Bytes)
    requires Unfinished(c, data) && data != []
    ensures StreamShape(data, c)
  {
    hide Decode;
    assert c[..|data|] == data;
    DecodeGroup(c, |data|);
    assert Decode(IDLE, data).Text() + data == data;
  }

  lemma CharThenShape(c: Bytes, data: Bytes, last: Bytes)
    requires c != [] && CharLen(c) == |c| && StreamShape(data, last)
    ensures StreamShape(c + data, last)
  {
    hide Decode;
    DecodeAfterGroup(c, data);
    CharBeforeValid(c, Decode(IDLE, data).Text());
    StepAssoc(c, Decode(IDLE, data).Text(), Decode(IDLE, data).pending.bytes);
  }

  lemma CharBeforeValid(c: Bytes, text: Bytes)
    requires c != [] && CharLen(c) == |c| && Valid(text)
    ensures Valid(c + text)
  {
    OneCharValid(c);
    ValidAppend(c, text);
  }

  lemma StepAssoc(a: Bytes, b: Bytes, c: Bytes)
    ensures (a + b) + c == a + (b + c)
  {
  }

  // ---- Arbitrary bytes

  /** Whatever the input, the text is made of complete groups. */
  lemma {:induction false} OutputIsGrouped(p: Pending, s: Bytes)
    requires Wf(p)
    ensures Grouped(Decode(p, s).groups)
    decreases |s|
  {
    if s != [] {
      OutputIsGrouped(Feed(p, s[0]).pending, s[1..]);
    }
  }

  /** Whatever the input, the text and the unfinished bytes are a subsequence of what was fed in. */
  lemma {:induction false} OutputIsSubsequence(p: Pending, s: Bytes)
    requires Wf(p)
    ensures Subsequence(Decode(p, s).Text() + Decode(p, s).pending.bytes, p.bytes + s)
    decreases |s|
  {
    if s == [] {
      assert Decode(p, s).Text() + p.bytes == p.bytes + s;
      SubsequenceRefl(p.bytes + s);
    } else {
      var f := Feed(p, s[0]);
      OutputIsSubsequence(f.pending, s[1..]);
      FeedSubsequence(p, s[0]);
      var rest := Decode(f.pending, s[1..]);
      OneMoreByte(p, s, f, rest);
    }
  }

  lemma OneMoreByte(p: Pending, s: Bytes, f: Decoded, rest: Decoded)
    requires s != [] && (f.Text() == [] || f.pending == IDLE)
    requires Subsequence(f.Text() + f.pending.bytes, p.bytes + [s[0]])
    requires Subsequence(rest.Text() + rest.pending.bytes, f.pending.bytes + s[1..])
    ensures Subsequence(Concat(f.groups + rest.groups) + rest.pending.bytes, p.bytes + s)
  {
    StepSubsequence(f.Text(), f.pending.bytes, p.bytes + [s[0]], s[1..], rest.Text() + rest.pending.bytes);
    StepText(f.groups, rest.groups, rest.pending.bytes);
    assert p.bytes + s == (p.bytes + [s[0]]) + s[1..];
  }

  lemma StepSubsequence(text: Bytes, kept: Bytes, head: Bytes, tail: Bytes, more: Bytes)
    requires text == [] || kept == []
    requires Subsequence(text + kept, head) && Subsequence(more, kept + tail)
    ensures Subsequence(text + more, head + tail)
  {
    if text == [] {
      assert text + kept == kept && text + more == more;
      SubsequenceSubstitute(kept, head, tail, more);
    } else {
      assert text + kept == text && kept + tail == tail;
      SubsequenceAppend(text, head, more, tail);
    }
  }

  lemma StepText(a: seq<Bytes>, b: seq<Bytes>, tail: Bytes)
    ensures Concat(a + b) + tail == Concat(a) + (Concat(b) + tail)
  {
    ConcatAppend(a, b);
  }

  lemma SubsequenceSubstitute(a: Bytes, b: Bytes, c: Bytes, whole: Bytes)
    requires Subsequence(a, b) && Subsequence(whole, a + c)
    ensures Subsequence(whole, b + c)
  {
    SubsequenceRefl(c);
    SubsequenceAppend(a, b, c, c);
    SubsequenceTrans(whole, a + c, b + c);
  }

  lemma FeedSubsequence(p: Pending, b: Byte)
    requires Wf(p)
    ensures var f := Feed(p, b);
            && (f.Text() == [] || f.pending == IDLE)
            && Subsequence(f.Text() + f.pending.bytes, p.bytes + [b])
  {
    var f := Feed(p, b);
    if f.groups != [] {
      ConcatOne(f.groups[0]);
      assert f.Text() + [] == f.Text();
    } else {
      assert [] + f.pending.bytes == f.pending.bytes;
    }
    SubsequenceRefl(p.bytes + [b]);
    SubsequenceRefl([b]);
    SubsequenceSkip([b], p.bytes, [b]);
  }

  lemma {:induction false} SubsequenceTrans(a: Bytes, b: Bytes, c: Bytes)
    requires Subsequence(a, b) && Subsequence(b, c)
    ensures Subsequence(a, c)
    decreases |c|
  {
    if a != [] {
      if b[0] == c[0] && Subsequence(b[1..], c[1..]) {
        if a[0] == b[0] && Subsequence(a[1..], b[1..]) {
          SubsequenceTrans(a[1..], b[1..], c[1..]);
        } else {
          SubsequenceTrans(a, b[1..], c[1..]);
        }
      } else {
        SubsequenceTrans(a, b, c[1..]);
      }
    }
  }

  /** A text made of complete groups passes through unchanged. */
  lemma {:induction false} GroupsAreFixed(groups: seq<Bytes>)
    requires Grouped(groups)
    ensures Decode(IDLE, Concat(groups)) == Decoded(groups, IDLE)
  {
    if groups != [] {
      var g := groups[0];
      GroupsAreFixed(groups[1..]);
      DecodeAfterGroup(g, Concat(groups[1..]));
      assert [g] + groups[1..] == groups;
    }
  }

  /** Decoding is idempotent on its own output, and the fixed texts are exactly those made of complete groups. */
  lemma DecodeIdempotent(s: Bytes)
    ensures var text := Decode(IDLE, s).Text();
            && Decode(IDLE, text).Text() == text
            && Decode(IDLE, text).pending == IDLE
    ensures Decode(IDLE, s).Text() == s <==> exists groups: seq<Bytes> :: Grouped(groups) && Concat(groups) == s
  {
    OutputIsGrouped(IDLE, s);
    GroupsAreFixed(Decode(IDLE, s).groups);
    forall groups: seq<Bytes> | Grouped(groups) && Concat(groups) == s
      ensures Decode(IDLE, s).Text() == s
    {
      GroupsAreFixed(groups);
    }
  }

  // ---- Which groups come out

  /** At `i` a lead byte is followed by all the continuation bytes it announces. */
  predicate WholeAt(s: Bytes, i: nat) {
    i < |s| && var n := ExpectedLen(s[i]); i + n <= |s| && Group(s[i..i + n])
  }

  /** All such groups that begin at `i` or later, in order, found without keeping any state. */
  function GroupsFrom(s: Bytes, i: nat): seq<Bytes>
    requires i <= |s|
    decreases |s| - i
  {
    if i == |s| then []
    else (if WholeAt(s, i) then [s[i..i + ExpectedLen(s[i])]] else []) + GroupsFrom(s, i + 1)
  }

  /** The bytes of the end of the input that may still become a character: a lead byte and continuation bytes, too few. */
  predicate UnfinishedTail(s: Bytes, i: nat) {
    && i < |s| && |s| - i < ExpectedLen(s[i]) && forall k :: i < k < |s| ==> IsCont(s[k])
  }

  lemma WholeShift(s: Bytes, k: nat, i: nat)
    requires k <= i < |s|
    ensures WholeAt(s[k..], i - k) <==> WholeAt(s, i)
    ensures WholeAt(s, i) ==> s[k..][i - k] == s[i] && var n := ExpectedLen(s[i]); s[k..][i - k..i - k + n] == s[i..i + n]
  {
    hide Group;
    var n := ExpectedLen(s[i]);
    assert s[k..][i - k] == s[i];
    if i + n <= |s| {
      assert s[k..][i - k..i - k + n] == s[i..i + n];
    }
  }

  function GroupsAt(s: Bytes, i: nat): seq<Bytes>
    requires i < |s|
  {
    if WholeAt(s, i) then [s[i..i + ExpectedLen(s[i])]] else []
  }

  lemma GroupsStep(s: Bytes, i: nat)
    requires i < |s|
    ensures GroupsFrom(s, i) == GroupsAt(s, i) + GroupsFrom(s, i + 1)
  {
    hide WholeAt, ExpectedLen;
  }

  lemma {:induction false} GroupsShift(s: Bytes, k: nat, i: nat)
    requires k <= i <= |s|
    ensures GroupsFrom(s, i) == GroupsFrom(s[k..], i - k)
    decreases |s| - i
  {
    if i < |s| {
      GroupsShift(s, k, i + 1);
      GroupsStep(s, i);
      GroupsStep(s[k..], i - k);
      WholeShift(s, k, i);
      hide GroupsFrom, WholeAt, ExpectedLen;
      assert GroupsAt(s, i) == GroupsAt(s[k..], i - k);
    }
  }

  lemma {:induction false} NoGroups(s: Bytes, i: nat, k: nat)
    requires i <= k <= |s| && forall j :: i <= j < k ==> !WholeAt(s, j)
    ensures GroupsFrom(s, i) == GroupsFrom(s, k)
    decreases k - i
  {
    if i < k {
      NoGroups(s, i + 1, k);
    }
  }

  /** The decoder writes every complete group of its input, wherever it begins, in order and nothing else; in particular a
      byte that breaks off a character still begins its own. */
  lemma {:induction false} WritesAllGroups(s: Bytes)
    ensures Decode(IDLE, s).groups == GroupsFrom(s, 0)
    decreases |s|
  {
    if s != [] {
      var n := ExpectedLen(s[0]);
      var k := if n == 0 then 1 else ContRun(s, n);
      WritesAllGroups(s[k..]);
      GroupsShift(s, k, k);
      FirstGroup(s, n, k);
    }
  }

  lemma FirstGroup(s: Bytes, n: nat, k: nat)
    requires s != [] && n == ExpectedLen(s[0]) && 1 <= k <= |s|
    requires if n == 0 then k == 1 else k == ContRun(s, n)
    ensures Decode(IDLE, s).groups
            == (if k == n then [s[..n]] + Decode(IDLE, s[k..]).groups else Decode(IDLE, s[k..]).groups)
    ensures GroupsFrom(s, 0) == (if k == n then [s[..n]] else []) + GroupsFrom(s, k)
  {
    OnlyFirst(s, n, k);
    hide Decode, Group, WholeAt, GroupsFrom;
    if k == n {
      assert s == s[..n] + s[n..];
      DecodeAfterGroup(s[..n], s[n..]);
      GroupsStep(s, 0);
      NoGroups(s, 1, k);
      assert s[0..0 + n] == s[..n];
    } else {
      BrokenFirstDropped(s, n, k);
      NoGroups(s, 0, k);
      assert [] + GroupsFrom(s, k) == GroupsFrom(s, k);
    }
  }

  lemma OnlyFirst(s: Bytes, n: nat, k: nat)
    requires s != [] && n == ExpectedLen(s[0]) && 1 <= k <= |s|
    requires if n == 0 then k == 1 else k == ContRun(s, n)
    ensures forall j :: 0 <= j < k ==> (WholeAt(s, j) <==> j == 0 && k == n)
    ensures k == n ==> Group(s[..n])
  {
    forall j | 0 <= j < k ensures WholeAt(s, j) <==> j == 0 && k == n {
      if j == 0 {
        assert n <= |s| ==> s[0..n] == s[..n] && forall i :: 0 <= i < n ==> s[..n][i] == s[i];
      } else {
        assert IsCont(s[j]) && ExpectedLen(s[j]) == 0;
      }
    }
  }

  function TailFrom(s: Bytes, i: nat): Pending
    requires i <= |s|
    decreases |s| - i
  {
    if i == |s| then IDLE
    else if UnfinishedTail(s, i) then Pending(s[i..], ExpectedLen(s[i]))
    else TailFrom(s, i + 1)
  }

  lemma {:induction false} TailShift(s: Bytes, k: nat, i: nat)
    requires k <= i <= |s|
    ensures TailFrom(s, i) == TailFrom(s[k..], i - k)
    decreases |s| - i
  {
    if i < |s| {
      TailShift(s, k, i + 1);
      assert s[k..][i - k] == s[i] && s[k..][i - k..] == s[i..];
      assert UnfinishedTail(s[k..], i - k) <==> UnfinishedTail(s, i) by {
        assert forall j :: i < j < |s| ==> s[j] == s[k..][j - k];
        assert forall j :: i - k < j < |s| - k ==> s[k..][j] == s[k + j];
      }
    }
  }

  lemma {:induction false} NoTail(s: Bytes, i: nat, k: nat)
    requires i <= k <= |s| && forall j :: i <= j < k ==> !UnfinishedTail(s, j)
    ensures TailFrom(s, i) == TailFrom(s, k)
    decreases k - i
  {
    if i < k {
      NoTail(s, i + 1, k);
    }
  }

  /** What it holds back is the unfinished tail of its input, if there is one, and nothing otherwise. */
  lemma {:induction false} HoldsBackTail(s: Bytes)
    ensures Decode(IDLE, s).pending == TailFrom(s, 0)
    decreases |s|
  {
    if s != [] {
      var n := ExpectedLen(s[0]);
      var k := if n == 0 then 1 else ContRun(s, n);
      HoldsBackTail(s[k..]);
      TailShift(s, k, k);
      FirstTail(s, n, k);
    }
  }

  lemma FirstTail(s: Bytes, n: nat, k: nat)
    requires s != [] && n == ExpectedLen(s[0]) && 1 <= k <= |s|
    requires if n == 0 then k == 1 else k == ContRun(s, n)
    requires Decode(IDLE, s[k..]).pending == TailFrom(s, k)
    ensures Decode(IDLE, s).pending == TailFrom(s, 0)
  {
    forall j | 0 <= j < k ensures UnfinishedTail(s, j) <==> j == 0 && k == |s| < n {
      if j > 0 {
        assert IsCont(s[j]) && ExpectedLen(s[j]) == 0;
      }
    }
    assert s[0..] == s;
    if k == n {
      assert s == s[..n] + s[n..] && Group(s[..n]);
      hide Decode, Group, UnfinishedTail;
      DecodeAfterGroup(s[..n], s[n..]);
      NoTail(s, 0, k);
    } else {
      hide Decode, Group, UnfinishedTail;
      BrokenFirstDropped(s, n, k);
      if !(k == |s| < n) {
        NoTail(s, 0, k);
      }
    }
  }

  // ---- When the output is valid

  lemma {:induction false} GroupsValidIff(groups: seq<Bytes>)
    requires Grouped(groups)
    ensures Valid(Concat(groups)) <==> forall i :: 0 <= i < |groups| && |groups[i]| >= 2 ==> SecondOk(groups[i][0], groups[i][1])
  {
    if groups != [] {
      var g, rest := groups[0], groups[1..];
      GroupsValidIff(rest);
      GroupBeforeText(g, Concat(rest));
      assert forall i :: 1 <= i < |groups| ==> groups[i] == rest[i - 1];
    }
  }

  lemma GroupBeforeText(g: Bytes, text: Bytes)
    requires Group(g)
    ensures Valid(g + text) <==> (|g| >= 2 ==> SecondOk(g[0], g[1])) && Valid(text)
  {
    var s := g + text;
    assert forall i :: 0 <= i < |g| ==> s[i] == g[i];
    assert CharLen(s) == if |g| >= 2 && !SecondOk(g[0], g[1]) then 0 else |g|;
    assert s[|g|..] == text;
  }

  /** At `i` a lead byte of a longer character is followed by all the continuation bytes it announces. */
  predicate GroupAt(s: Bytes, i: nat) {
    i < |s| && var n := ExpectedLen(s[i]); n >= 2 && i + n <= |s| && Group(s[i..i + n])
  }

  /** No group of the input has a second byte that its lead byte forbids. */
  predicate SecondsOk(s: Bytes) {
    SecondsOkBefore(s, |s|)
  }

  predicate SecondsOkBefore(s: Bytes, k: nat)
    requires k <= |s|
  {
    forall i :: 0 <= i < k && GroupAt(s, i) ==> SecondOk(s[i], s[i + 1])
  }

  lemma SecondsSplit(s: Bytes, k: nat)
    requires k <= |s|
    ensures SecondsOk(s) <==> SecondsOkBefore(s, k) && SecondsOk(s[k..])
  {
    hide Group, SecondOk;
    var t := s[k..];
    forall i | k <= i < |s| ensures GroupAt(s, i) <==> GroupAt(t, i - k) {
      var n := ExpectedLen(s[i]);
      assert t[i - k] == s[i];
      if i + n <= |s| {
        assert t[i - k..i - k + n] == s[i..i + n];
      }
    }
    forall i | 0 <= i < |t| ensures GroupAt(t, i) <==> GroupAt(s, i + k) {
      assert GroupAt(s, i + k) <==> GroupAt(t, i + k - k);
    }
  }

  /** The decoder checks no second byte: what it has written at any time is valid if and only if no complete group of the
      unfinished bytes and the new ones has a second byte that its lead byte forbids. */
  lemma ValidOutputIff(p: Pending, s: Bytes)
    requires Wf(p)
    ensures Valid(Decode(p, s).Text()) <==> SecondsOk(p.bytes + s)
  {
    PendingIsInput(p, s);
    ValidFromIdle(p.bytes + s);
  }

  /** Unfinished bytes are as good as bytes still to be read. */
  lemma PendingIsInput(p: Pending, s: Bytes)
    requires Wf(p)
    ensures Decode(p, s) == Decode(IDLE, p.bytes + s)
  {
    if p.bytes == [] {
      assert p.bytes + s == s;
    } else {
      var n := |p.bytes|;
      var g := p.bytes + seq(p.expected - n, _ => 0x80);
      assert g[..n] == p.bytes;
      DecodeGroup(g, n);
      DecodeAppend(IDLE, p.bytes, s);
      assert [] + Decode(p, s).groups == Decode(p, s).groups;
    }
  }

  /** Length of the run of continuation bytes after the first byte, at most `n - 1`. */
  function ContRun(s: Bytes, n: nat): (k: nat)
    requires 1 <= n && s != []
    ensures 1 <= k <= n && k <= |s|
    ensures forall i :: 1 <= i < k ==> IsCont(s[i])
    ensures k < n && k < |s| ==> !IsCont(s[k])
  {
    if n == 1 then 1
    else
      var k := ContRun(s, n - 1);
      if k == n - 1 && k < |s| && IsCont(s[k]) then n else k
  }

  lemma {:induction false} ValidFromIdle(s: Bytes)
    ensures Valid(Decode(IDLE, s).Text()) <==> SecondsOk(s)
    decreases |s|
  {
    if s != [] {
      var n := ExpectedLen(s[0]);
      var k := if n == 0 then 1 else ContRun(s, n);
      ValidFromIdle(s[k..]);
      if k == n {
        WholeFirst(s, n);
      } else {
        BrokenFirst(s, n, k);
      }
    }
  }

  lemma WholeFirst(s: Bytes, n: nat)
    requires n >= 1 && n <= |s| && Group(s[..n])
    requires Valid(Decode(IDLE, s[n..]).Text()) <==> SecondsOk(s[n..])
    ensures Valid(Decode(IDLE, s).Text()) <==> SecondsOk(s)
  {
    hide Decode, SecondOk, Valid;
    assert s == s[..n] + s[n..];
    DecodeAfterGroup(s[..n], s[n..]);
    GroupBeforeText(s[..n], Decode(IDLE, s[n..]).Text());
    GroupThenSeconds(s, n);
  }

  lemma GroupThenSeconds(s: Bytes, n: nat)
    requires n >= 1 && n <= |s| && Group(s[..n])
    ensures SecondsOk(s) <==> (n >= 2 ==> SecondOk(s[0], s[1])) && SecondsOk(s[n..])
  {
    hide SecondOk, SecondsOk;
    SecondsSplit(s, n);
    assert s[..n] == s[0..n];
    forall i | 0 <= i < n ensures GroupAt(s, i) <==> i == 0 && n >= 2 {
      assert s[i] == s[..n][i];
    }
  }

  /** A first byte that leads nowhere is dropped together with the continuation bytes that were already kept for it. */
  lemma BrokenFirst(s: Bytes, n: nat, k: nat)
    requires s != [] && n == ExpectedLen(s[0]) && n != k && 1 <= k <= |s|
    requires if n == 0 then k == 1 else k == ContRun(s, n)
    requires Valid(Decode(IDLE, s[k..]).Text()) <==> SecondsOk(s[k..])
    ensures Valid(Decode(IDLE, s).Text()) <==> SecondsOk(s)
  {
    hide SecondOk, SecondsOk, Valid, Decode;
    forall i | 0 <= i < k ensures !GroupAt(s, i) {
      if i == 0 && n >= 2 && n <= |s| {
        assert s[0..n][k] == s[k];
      }
    }
    SecondsSplit(s, k);
    BrokenFirstDropped(s, n, k);
  }

  lemma BrokenFirstDropped(s: Bytes, n: nat, k: nat)
    requires s != [] && n == ExpectedLen(s[0]) && n != k && 1 <= k <= |s|
    requires if n == 0 then k == 1 else k == ContRun(s, n)
    ensures Decode(IDLE, s).groups == Decode(IDLE, s[k..]).groups
    ensures Decode(IDLE, s).pending == if k == |s| < n then Pending(s, n) else Decode(IDLE, s[k..]).pending
  {
    if n == 0 {
      assert s[..1][1..] == [] && Decode(IDLE, s[..1]) == Decoded([], IDLE);
      DroppedFront(s, k, IDLE);
    } else {
      var g := s[..k] + seq(n - k, _ => 0x80);
      assert g[..k] == s[..k] && Group(g);
      DecodeGroup(g, k);
      hide Decode, Group;
      DroppedFront(s, k, Pending(s[..k], n));
      AfterBroken(Pending(s[..k], n), s[k..]);
      assert k == |s| ==> s[..k] == s && s[k..] == [];
    }
  }

  lemma DroppedFront(s: Bytes, k: nat, p: Pending)
    requires k <= |s| && Wf(p) && Decode(IDLE, s[..k]) == Decoded([], p)
    ensures Decode(IDLE, s) == Decode(p, s[k..])
  {
    hide Decode;
    DecodeAppend(IDLE, s[..k], s[k..]);
    assert s == s[..k] + s[k..] && [] + Decode(p, s[k..]).groups == Decode(p, s[k..]).groups;
  }

  /** What does not continue an unfinished character is decoded as if there were none. */
  lemma AfterBroken(p: Pending, s: Bytes)
    requires Wf(p) && (s != [] ==> !IsCont(s[0]))
    ensures Decode(p, s).groups == Decode(IDLE, s).groups
    ensures Decode(p, s).pending == if s == [] then p else Decode(IDLE, s).pending
  {
  }

  /** An encoded surrogate is let through. */
  lemma SurrogatePassesDecoder()
    ensures Decode(IDLE, [0xED, 0xA0, 0x80]).Text() == [0xED, 0xA0, 0x80]
    ensures !Valid([0xED, 0xA0, 0x80])
  {
    var g := [0xED, 0xA0, 0x80];
    DecodeGroup(g, 3);
    assert g[..3] == g;
    ConcatOne<Byte>(g);
  }

  // ---- The fixed-size piece handed to the stream and to the session transcript

  /** Groups copied into a buffer of `size` bytes: a group that would not leave room for the terminator is skipped. */
  function Fill(written: Bytes, groups: seq<Bytes>, size: nat): (out: Bytes)
    requires |written| < size
    ensures |out| < size && written <= out
    decreases |groups|
  {
    if groups == [] then written
    else if |written| + |groups[0]| < size then Fill(written + groups[0], groups[1..], size)
    else Fill(written, groups[1..], size)
  }

  lemma {:induction false} FillSnoc(written: Bytes, groups: seq<Bytes>, g: Bytes, size: nat)
    requires |written| < size
    ensures var out := Fill(written, groups, size);
            Fill(written, groups + [g], size) == if |out| + |g| < size then out + g else out
    decreases |groups|
  {
    if groups == [] {
      assert groups + [g] == [g] && [g][1..] == [];
    } else {
      assert (groups + [g])[1..] == groups[1..] + [g];
      if |written| + |groups[0]| < size {
        FillSnoc(written + groups[0], groups[1..], g, size);
      } else {
        FillSnoc(written, groups[1..], g, size);
      }
    }
  }

  lemma {:induction false} FillIsWholeIff(written: Bytes, groups: seq<Bytes>, size: nat)
    requires |written| < size && Grouped(groups)
    ensures |Fill(written, groups, size)| <= |written| + |Concat(groups)|
    ensures Fill(written, groups, size) == written + Concat(groups) <==> |written| + |Concat(groups)| < size
    decreases |groups|
  {
    if groups == [] {
      assert written + [] == written;
    } else {
      var g, rest := groups[0], groups[1..];
      assert (written + g) + Concat(rest) == written + Concat(groups);
      if |written| + |g| < size {
        FillIsWholeIff(written + g, rest, size);
      } else {
        FillIsWholeIff(written, rest, size);
      }
    }
  }

  /** What the rest of the server reads of the piece that one call leaves in a buffer of `size` bytes. */
  function Piece(p: Pending, s: Bytes, size: nat): Bytes
    requires Wf(p) && size > 0
  {
    CString(Fill([], Decode(p, s).groups, size))
  }

  /** A zero byte passes the decoder, and it writes none that it was not given. */
  lemma {:induction false} ZeroPasses(p: Pending, s: Bytes)
    requires Wf(p)
    ensures 0 in Decode(p, s).Text() <==> 0 in s
    ensures 0 !in p.bytes && 0 !in Decode(p, s).pending.bytes
    decreases |s|
  {
    PendingHasNoZero(p);
    if s != [] {
      var f := Feed(p, s[0]);
      var rest := Decode(f.pending, s[1..]);
      ZeroPasses(f.pending, s[1..]);
      ConcatAppend(f.groups, rest.groups);
      assert 0 in f.Text() <==> s[0] == 0 by {
        if f.groups != [] {
          ConcatOne(f.groups[0]);
        }
      }
      assert Decode(p, s).Text() == f.Text() + rest.Text();
      assert s == [s[0]] + s[1..];
    }
  }

  lemma PendingHasNoZero(p: Pending)
    requires Wf(p)
    ensures 0 !in p.bytes
  {
    if p.bytes != [] {
      assert p.bytes[0] != 0;
    }
  }

  /** One call hands out exactly the text it adds if and only if that text fits with its terminator and the call was given
      no zero byte; what it hands out is never longer. */
  lemma PieceIsWholeIff(p: Pending, s: Bytes, size: nat)
    requires Wf(p) && size > 0
    ensures Piece(p, s, size) == Decode(p, s).Text() <==> |Decode(p, s).Text()| < size && 0 !in s
    ensures |Piece(p, s, size)| <= |Decode(p, s).Text()|
  {
    hide Decode, Fill, CString, Concat, Wf;
    var d := Decode(p, s);
    var filled := Fill([], d.groups, size);
    OutputIsGrouped(p, s);
    FillIsWholeIff([], d.groups, size);
    assert [] + d.Text() == d.Text();
    ZeroPasses(p, s);
    CStringWhole(filled);
  }

  /** A call given 255 bytes, one of which ends an unfinished character, adds 256 bytes to the text and hands out fewer. */
  lemma PieceCanLoseText()
    ensures var p, s := Pending([0xC3], 2), [0xA9] + Letters(254);
            Wf(p) && |s| == 255 && |Decode(p, s).Text()| == 256 && |Piece(p, s, 256)| < 256
    ensures Decode(IDLE, [0]).Text() == [0] && Piece(IDLE, [0], 256) == []
  {
    CutExample();
    hide Letters;
    ZeroExample();
  }

  lemma CutExample()
    ensures var p, s := Pending([0xC3], 2), [0xA9] + Letters(254);
            Wf(p) && |Decode(p, s).Text()| == 256 && |Piece(p, s, 256)| < 256
  {
    var p: Pending := Pending([0xC3], 2);
    var g: Bytes := [0xC3, 0xA9];
    var s: Bytes := [0xA9] + Letters(254);
    PendingIsInput(p, s);
    assert p.bytes + s == g + Letters(254);
    assert Group(g);
    hide Decode, Fill, Group;
    DecodeAfterGroup(g, Letters(254));
    LettersPass(254);
  }

  lemma ZeroExample()
    ensures Decode(IDLE, [0]).Text() == [0] && Piece(IDLE, [0], 256) == []
  {
    ConcatOne<Byte>([0]);
    assert [0][1..] == [] && Decode(IDLE, [0]) == Decoded([[0]], IDLE);
    hide Decode;
    assert CString(Fill([], [[0]], 256)) == [] by {
      assert [] + [0] == [0];
    }
  }

  function Letters(n: nat): (r: Bytes)
    ensures |r| == n
  {
    seq(n, _ => 0x61)
  }

  lemma {:induction false} LettersPass(n: nat)
    ensures Decode(IDLE, Letters(n)).Text() == Letters(n)
  {
    if n > 0 {
      LettersPass(n - 1);
      assert Letters(n) == [0x61] + Letters(n - 1);
      DecodeAfterGroup([0x61], Letters(n - 1));
    }
  }

  // ---- What a decoding loop knows between two bytes

  /** `total` is what has been completed so far, followed by what the rest of the input will give. */
  ghost predicate Remaining(total: Decoded, groups: seq<Bytes>, p: Pending, rest: Bytes)
    requires Wf(p)
  {
    total == Decoded(groups + Decode(p, rest).groups, Decode(p, rest).pending)
  }

  lemma Begin(p: Pending, input: Bytes)
    requires Wf(p)
    ensures Remaining(Decode(p, input), [], p, input)
  {
    assert [] + Decode(p, input).groups == Decode(p, input).groups;
  }

  lemma Advance(total: Decoded, groups: seq<Bytes>, p: Pending, input: Bytes, i: nat)
    requires Wf(p) && i < |input| && Remaining(total, groups, p, input[i..])
    ensures var f := Feed(p, input[i]); Remaining(total, groups + f.groups, f.pending, input[i + 1..])
  {
    var f := Feed(p, input[i]);
    assert input[i..][1..] == input[i + 1..];
    var more := Decode(f.pending, input[i + 1..]).groups;
    assert groups + (f.groups + more) == (groups + f.groups) + more;
  }

  lemma Reread(total: Decoded, groups: seq<Bytes>, p: Pending, input: Bytes, i: nat)
    requires Wf(p) && i < |input| && Remaining(total, groups, p, input[i..])
    requires p.bytes != [] && !IsCont(input[i])
    ensures Remaining(total, groups, IDLE, input[i..])
  {
  }

  lemma Finish(total: Decoded, groups: seq<Bytes>, p: Pending, input: Bytes)
    requires Wf(p) && Remaining(total, groups, p, input[|input|..])
    ensures total == Decoded(groups, p)
  {
    assert input[|input|..] == [] && groups + [] == groups;
  }
}
