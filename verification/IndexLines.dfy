/** The index of a .bnmodel file: one compact JSON object per tensor and line. */
module IndexLines {
  import opened Outcomes
  import opened UnicodeText

  datatype Entry = Entry(name: Text, shape: seq<nat>, offset: nat)

  const QUOTE: Char := 0x22
  const BACKSLASH: Char := 0x5C
  const NEWLINE: Char := 0x0A
  const COMMA: Char := 0x2C

  /** {"n":" */
  const OPEN: Text := [0x7B, 0x22, 0x6E, 0x22, 0x3A, 0x22]
  /** ,"s":[ */
  const SHAPE: Text := [0x2C, 0x22, 0x73, 0x22, 0x3A, 0x5B]
  /** ],"o": */
  const OFFSET: Text := [0x5D, 0x2C, 0x22, 0x6F, 0x22, 0x3A]
  /** } */
  const CLOSE: Text := [0x7D]

  // ---- Writing

  function Hex(d: nat): Char
    requires d < 16
  {
    if d < 10 then 0x30 + d else 0x57 + d
  }

  /** Quotes, backslashes and control characters are escaped; everything else is written as it is. */
  function Escape(c: Char): (r: Text)
    ensures r != []
  {
    if c == QUOTE then [BACKSLASH, QUOTE]
    else if c == BACKSLASH then [BACKSLASH, BACKSLASH]
    else if c == 0x0A then [BACKSLASH, 0x6E]
    else if c == 0x0D then [BACKSLASH, 0x72]
    else if c == 0x09 then [BACKSLASH, 0x74]
    else if c == 0x0C then [BACKSLASH, 0x66]
    else if c == 0x08 then [BACKSLASH, 0x62]
    else if c < 0x20 then [BACKSLASH, 0x75, 0x30, 0x30, Hex(c / 16), Hex(c % 16)]
    else [c]
  }

  function EscapeAll(t: Text): Text {
    if t == [] then [] else Escape(t[0]) + EscapeAll(t[1..])
  }

  function Decimal(n: nat): (r: Text)
    ensures r != [] && forall i :: 0 <= i < |r| ==> IsDigit(r[i])
  {
    if n < 10 then [0x30 + n] else Decimal(n / 10) + [0x30 + n % 10]
  }

  function Dims(shape: seq<nat>): Text {
    if shape == [] then []
    else if |shape| == 1 then Decimal(shape[0])
    else Decimal(shape[0]) + [COMMA] + Dims(shape[1..])
  }

  function Line(e: Entry): Text {
    OPEN + EscapeAll(e.name) + [QUOTE] + SHAPE + Dims(e.shape) + OFFSET + Decimal(e.offset) + CLOSE
  }

  function Index(entries: seq<Entry>): Text {
    if entries == [] then [] else Line(entries[0]) + [NEWLINE] + Index(entries[1..])
  }

  // ---- Reading

  predicate IsDigit(c: Char) { 0x30 <= c <= 0x39 }

  function HexValue(c: Char): Option<nat> {
    if IsDigit(c) then Some(c - 0x30)
    else if 0x61 <= c <= 0x66 then Some(c - 0x57)
    else if 0x41 <= c <= 0x46 then Some(c - 0x37)
    else None
  }

  /** One character of a JSON string and what follows it; nothing at the closing quote or at the end. */
  function ReadChar(t: Text): (r: Option<(Char, Text)>)
    ensures r.Some? ==> |r.value.1| < |t|
  {
    if t == [] || t[0] == QUOTE || t[0] < 0x20 then None
    else if t[0] != BACKSLASH then Some((t[0], t[1..]))
    else if |t| < 2 then None
    else if t[1] == QUOTE || t[1] == BACKSLASH || t[1] == 0x2F then Some((t[1], t[2..]))
    else if t[1] == 0x6E then Some((0x0A, t[2..]))
    else if t[1] == 0x72 then Some((0x0D, t[2..]))
    else if t[1] == 0x74 then Some((0x09, t[2..]))
    else if t[1] == 0x66 then Some((0x0C, t[2..]))
    else if t[1] == 0x62 then Some((0x08, t[2..]))
    else if t[1] == 0x75 && |t| >= 6 then ReadHex(t)
    else None
  }

  function ReadHex(t: Text): (r: Option<(Char, Text)>)
    requires |t| >= 6
    ensures r.Some? ==> |r.value.1| < |t|
  {
    var a, b, c, d := HexValue(t[2]), HexValue(t[3]), HexValue(t[4]), HexValue(t[5]);
    if a.None? || b.None? || c.None? || d.None? then None
    else
      var code := a.value * 4096 + b.value * 256 + c.value * 16 + d.value;
      if code > 0xFFFF || 0xD800 <= code <= 0xDFFF then None else Some((code, t[6..]))
  }

  /** The rest of a JSON string and what follows its closing quote. */
  function ReadString(t: Text): Option<(Text, Text)>
    decreases |t|
  {
    if t != [] && t[0] == QUOTE then Some(([], t[1..]))
    else
      var c := ReadChar(t);
      if c.None? then None
      else
        var rest := ReadString(c.value.1);
        if rest.None? then None else Some(([c.value.0] + rest.value.0, rest.value.1))
  }

  function Run(t: Text): (n: nat)
    ensures n <= |t|
    ensures forall i :: 0 <= i < n ==> IsDigit(t[i])
    ensures n < |t| ==> !IsDigit(t[n])
  {
    if t != [] && IsDigit(t[0]) then 1 + Run(t[1..]) else 0
  }

  function Value(digits: Text): nat
    requires forall i :: 0 <= i < |digits| ==> IsDigit(digits[i])
  {
    if digits == [] then 0
    else
      var last: int := digits[|digits| - 1];
      assert IsDigit(digits[|digits| - 1]);
      10 * Value(digits[..|digits| - 1]) + (last - 0x30)
  }

  function ReadNat(t: Text): (r: Option<(nat, Text)>)
    ensures r.Some? ==> |r.value.1| < |t|
  {
    var n := Run(t);
    if n == 0 then None else Some((Value(t[..n]), t[n..]))
  }

  /** The numbers of a non-empty list, separated by commas. */
  function ReadNats(t: Text): Option<(seq<nat>, Text)>
    decreases |t|
  {
    var n := ReadNat(t);
    if n.None? then None
    else if n.value.1 == [] || n.value.1[0] != COMMA then Some(([n.value.0], n.value.1))
    else
      var rest := ReadNats(n.value.1[1..]);
      if rest.None? then None else Some(([n.value.0] + rest.value.0, rest.value.1))
  }

  function ReadDims(t: Text): Option<(seq<nat>, Text)> {
    if t != [] && t[0] == 0x5D then Some(([], t)) else ReadNats(t)
  }

  function Skip(t: Text, expected: Text): Option<Text> {
    if |t| >= |expected| && t[..|expected|] == expected then Some(t[|expected|..]) else None
  }

  /** One line, in the compact form that the writer gives it. */
  function ReadLine(t: Text): Option<Entry> {
    var body := Skip(t, OPEN);
    if body.None? then None
    else
      var name := ReadString(body.value);
      if name.None? then None
      else
        var list := Skip(name.value.1, SHAPE);
        if list.None? then None
        else
          var shape := ReadDims(list.value);
          if shape.None? then None
          else
            var last := Skip(shape.value.1, OFFSET);
            if last.None? then None
            else
              var offset := ReadNat(last.value);
              if offset.None? || offset.value.1 != CLOSE then None
              else Some(Entry(name.value.0, shape.value.0, offset.value.0))
  }

  /** Where Python's `splitlines` breaks a line. */
  predicate IsBreak(c: Char) {
    0x0A <= c <= 0x0D || 0x1C <= c <= 0x1E || c == 0x85 || c == 0x2028 || c == 0x2029
  }

  predicate Unbroken(t: Text) {
    forall i :: 0 <= i < |t| ==> !IsBreak(t[i])
  }

  function FirstBreak(t: Text): (r: nat)
    ensures r <= |t| && Unbroken(t[..r]) && (r < |t| ==> IsBreak(t[r]))
  {
    if t == [] || IsBreak(t[0]) then 0
    else
      var r := 1 + FirstBreak(t[1..]);
      assert forall i :: 0 < i < r ==> t[i] == t[1..][..r - 1][i - 1];
      r
  }

  /** The lines that are not empty. */
  function Lines(t: Text): seq<Text>
    decreases |t|
  {
    var r := FirstBreak(t);
    (if r == 0 then [] else [t[..r]]) + (if r == |t| then [] else Lines(t[r + 1..]))
  }

  function ReadLines(lines: seq<Text>): Option<seq<Entry>> {
    if lines == [] then Some([])
    else
      var first, rest := ReadLine(lines[0]), ReadLines(lines[1..]);
      if first.None? || rest.None? then None else Some([first.value] + rest.value)
  }

  function ReadIndex(t: Text): Option<seq<Entry>> {
    ReadLines(Lines(t))
  }

  // ---- Reading what was written

  lemma EscapeRead(c: Char, rest: Text)
    ensures ReadChar(Escape(c) + rest) == Some((c, rest)) && (Escape(c) + rest)[0] != QUOTE
  {
    var t := Escape(c) + rest;
    assert t[|Escape(c)|..] == rest;
    if c < 0x20 && Escape(c)[1] == 0x75 {
      assert t[4] == Hex(c / 16) && t[5] == Hex(c % 16);
      assert c == c / 16 * 16 + c % 16;
    }
  }

  lemma {:induction false} StringRead(name: Text, rest: Text)
    ensures ReadString(EscapeAll(name) + [QUOTE] + rest) == Some((name, rest))
    decreases |name|
  {
    hide Escape, ReadChar;
    if name == [] {
      assert EscapeAll(name) + [QUOTE] + rest == [QUOTE] + rest;
    } else {
      var more := EscapeAll(name[1..]) + [QUOTE] + rest;
      assert EscapeAll(name) + [QUOTE] + rest == Escape(name[0]) + more;
      EscapeRead(name[0], more);
      StringRead(name[1..], rest);
      assert [name[0]] + name[1..] == name;
    }
  }

  /** A string cut off before its closing quote is no string. */
  lemma {:induction false} StringCut(name: Text)
    ensures ReadString(EscapeAll(name)).None?
    decreases |name|
  {
    hide Escape;
    if name != [] {
      EscapeRead(name[0], EscapeAll(name[1..]));
      StringCut(name[1..]);
    }
  }

  lemma {:induction false} DecimalValue(n: nat)
    ensures Value(Decimal(n)) == n
  {
    if n >= 10 {
      DecimalValue(n / 10);
      assert Decimal(n)[..|Decimal(n)| - 1] == Decimal(n / 10);
    }
  }

  lemma {:induction false} RunOf(digits: Text, rest: Text)
    requires forall i :: 0 <= i < |digits| ==> IsDigit(digits[i])
    requires rest == [] || !IsDigit(rest[0])
    ensures Run(digits + rest) == |digits|
  {
    var t := digits + rest;
    assert forall i :: 0 <= i < |digits| ==> t[i] == digits[i];
    assert rest != [] ==> t[|digits|] == rest[0];
  }

  lemma NatRead(n: nat, rest: Text)
    requires rest == [] || !IsDigit(rest[0])
    ensures ReadNat(Decimal(n) + rest) == Some((n, rest))
  {
    RunOf(Decimal(n), rest);
    DecimalValue(n);
    var t := Decimal(n) + rest;
    assert t[..|Decimal(n)|] == Decimal(n) && t[|Decimal(n)|..] == rest;
  }

  lemma {:induction false} NatsRead(shape: seq<nat>, rest: Text)
    requires shape != [] && rest != [] && !IsDigit(rest[0]) && rest[0] != COMMA
    ensures ReadNats(Dims(shape) + rest) == Some((shape, rest))
    decreases |shape|
  {
    hide ReadNat, Decimal;
    if |shape| == 1 {
      NatRead(shape[0], rest);
      assert shape == [shape[0]];
    } else {
      var more := Dims(shape[1..]) + rest;
      assert Dims(shape) + rest == Decimal(shape[0]) + ([COMMA] + more);
      NatRead(shape[0], [COMMA] + more);
      NatsRead(shape[1..], rest);
      assert [shape[0]] + shape[1..] == shape;
    }
  }

  lemma DimsRead(shape: seq<nat>, rest: Text)
    ensures ReadDims(Dims(shape) + (OFFSET + rest)) == Some((shape, OFFSET + rest))
  {
    var more := OFFSET + rest;
    if shape == [] {
      assert Dims(shape) + more == more;
    } else {
      NatsRead(shape, more);
      var first := Decimal(shape[0]);
      assert (Dims(shape) + more)[0] == first[0];
    }
  }

  lemma SkipRead(expected: Text, rest: Text)
    ensures Skip(expected + rest, expected) == Some(rest)
  {
    assert (expected + rest)[..|expected|] == expected && (expected + rest)[|expected|..] == rest;
  }

  lemma LineRead(e: Entry)
    ensures ReadLine(Line(e)) == Some(e)
  {
    hide Skip, ReadString, ReadDims, ReadNat, EscapeAll, Dims, Decimal;
    var last := Decimal(e.offset) + CLOSE;
    var list := Dims(e.shape) + (OFFSET + last);
    var body := EscapeAll(e.name) + [QUOTE] + (SHAPE + list);
    assert Line(e) == OPEN + body;
    SkipRead(OPEN, body);
    StringRead(e.name, SHAPE + list);
    SkipRead(SHAPE, list);
    DimsRead(e.shape, last);
    SkipRead(OFFSET, last);
    NatRead(e.offset, CLOSE);
  }

  /** The line breaks that JSON writes as they are. */
  predicate Breaking(c: Char) {
    c == 0x85 || c == 0x2028 || c == 0x2029
  }

  predicate Plain(name: Text) {
    forall i :: 0 <= i < |name| ==> !Breaking(name[i])
  }

  lemma {:induction false} EscapeUnbroken(name: Text)
    requires Plain(name)
    ensures Unbroken(EscapeAll(name))
    decreases |name|
  {
    if name != [] {
      assert Unbroken(Escape(name[0])) by {
        assert !Breaking(name[0]);
      }
      EscapeUnbroken(name[1..]);
    }
  }

  lemma DigitsUnbroken(t: Text)
    requires forall i :: 0 <= i < |t| ==> IsDigit(t[i])
    ensures Unbroken(t)
  {
  }

  lemma {:induction false} DimsUnbroken(shape: seq<nat>)
    ensures Unbroken(Dims(shape))
    decreases |shape|
  {
    if shape != [] {
      DigitsUnbroken(Decimal(shape[0]));
      hide Decimal;
      DimsUnbroken(shape[1..]);
    }
  }

  lemma UnbrokenAppend(a: Text, b: Text)
    ensures Unbroken(a + b) <==> Unbroken(a) && Unbroken(b)
  {
    if Unbroken(a + b) {
      assert forall i :: 0 <= i < |a| ==> a[i] == (a + b)[i];
      assert forall i :: 0 <= i < |b| ==> b[i] == (a + b)[|a| + i];
    }
  }

  lemma LineUnbroken(e: Entry)
    requires Plain(e.name)
    ensures Unbroken(Line(e))
  {
    EscapeUnbroken(e.name);
    DimsUnbroken(e.shape);
    DigitsUnbroken(Decimal(e.offset));
    hide Unbroken, EscapeAll, Dims, Decimal;
    Constants();
    UnbrokenAppend(OPEN, EscapeAll(e.name));
    UnbrokenAppend(OPEN + EscapeAll(e.name), [QUOTE]);
    UnbrokenAppend(OPEN + EscapeAll(e.name) + [QUOTE], SHAPE);
    UnbrokenAppend(OPEN + EscapeAll(e.name) + [QUOTE] + SHAPE, Dims(e.shape));
    UnbrokenAppend(OPEN + EscapeAll(e.name) + [QUOTE] + SHAPE + Dims(e.shape), OFFSET);
    UnbrokenAppend(OPEN + EscapeAll(e.name) + [QUOTE] + SHAPE + Dims(e.shape) + OFFSET, Decimal(e.offset));
    UnbrokenAppend(OPEN + EscapeAll(e.name) + [QUOTE] + SHAPE + Dims(e.shape) + OFFSET + Decimal(e.offset), CLOSE);
  }

  lemma Constants()
    ensures Unbroken(OPEN) && Unbroken(SHAPE) && Unbroken(OFFSET) && Unbroken(CLOSE) && Unbroken([QUOTE])
  {
  }

  lemma {:induction false} BreakAt(line: Text, c: Char, rest: Text)
    requires Unbroken(line) && IsBreak(c)
    ensures FirstBreak(line + [c] + rest) == |line|
    decreases |line|
  {
    var t := line + [c] + rest;
    if line != [] {
      assert t[1..] == line[1..] + [c] + rest && t[0] == line[0];
      BreakAt(line[1..], c, rest);
    }
  }

  lemma LinesCons(line: Text, c: Char, rest: Text)
    requires line != [] && Unbroken(line) && IsBreak(c)
    ensures Lines(line + [c] + rest) == [line] + Lines(rest)
  {
    BreakAt(line, c, rest);
    var t := line + [c] + rest;
    assert t[..|line|] == line && t[|line| + 1..] == rest;
  }

  lemma {:induction false} PlainIndexRead(entries: seq<Entry>)
    requires forall i :: 0 <= i < |entries| ==> Plain(entries[i].name)
    ensures ReadIndex(Index(entries)) == Some(entries)
    decreases |entries|
  {
    if entries == [] {
      assert Index(entries) == [] && Lines([]) == [];
    } else {
      hide *;
      PlainIndexRead(entries[1..]);
      PlainLineRead(entries);
      assert [entries[0]] + entries[1..] == entries;
    }
  }

  lemma PlainLineRead(entries: seq<Entry>)
    requires entries != [] && Plain(entries[0].name)
    requires ReadIndex(Index(entries[1..])).Some?
    ensures ReadIndex(Index(entries)) == Some([entries[0]] + ReadIndex(Index(entries[1..])).value)
  {
    assert IsBreak(NEWLINE);
    hide *;
    var e, rest := entries[0], entries[1..];
    LineUnbroken(e);
    LineRead(e);
    IndexParts(entries);
    LinesCons(Line(e), NEWLINE, Index(rest));
    FirstLine(Line(e), Lines(Index(rest)));
  }

  lemma IndexParts(entries: seq<Entry>)
    requires entries != []
    ensures Line(entries[0]) != [] && Index(entries) == Line(entries[0]) + [NEWLINE] + Index(entries[1..])
    ensures ReadIndex(Index(entries)) == ReadLines(Lines(Index(entries)))
    ensures ReadIndex(Index(entries[1..])) == ReadLines(Lines(Index(entries[1..])))
  {
    LineIsThere(entries[0]);
    hide Line, ReadLines, Lines;
  }

  lemma FirstLine(line: Text, lines: seq<Text>)
    requires ReadLine(line).Some? && ReadLines(lines).Some?
    ensures ReadLines([line] + lines) == Some([ReadLine(line).value] + ReadLines(lines).value)
  {
    hide ReadLine;
    assert ([line] + lines)[1..] == lines;
  }

  // ---- A name that breaks its line

  lemma {:induction false} EscapeAppend(a: Text, b: Text)
    ensures EscapeAll(a + b) == EscapeAll(a) + EscapeAll(b)
    decreases |a|
  {
    hide Escape;
    if a == [] {
      assert a + b == b;
    } else {
      assert (a + b)[1..] == a[1..] + b;
      EscapeAppend(a[1..], b);
    }
  }

  lemma {:induction false} FirstBreaking(name: Text) returns (k: nat)
    requires !Plain(name)
    ensures k < |name| && Breaking(name[k]) && Plain(name[..k])
    decreases |name|
  {
    if Breaking(name[0]) {
      k := 0;
    } else {
      var j :| 0 <= j < |name| && Breaking(name[j]);
      assert name[1..][j - 1] == name[j];
      var i := FirstBreaking(name[1..]);
      k := i + 1;
      assert forall x :: 0 < x < k ==> name[x] == name[1..][..i][x - 1];
    }
  }

  /** The line of such a name is torn inside its JSON string, and its first part cannot be parsed. */
  lemma TornLine(e: Entry, rest: Text)
    requires !Plain(e.name)
    ensures var lines := Lines(Line(e) + rest);
            lines != [] && ReadLine(lines[0]).None?
  {
    var k := FirstBreaking(e.name);
    var before, c, after := e.name[..k], e.name[k], e.name[k + 1..];
    EscapeTorn(e.name, k);
    EscapeUnbroken(before);
    StringCut(before);
    hide EscapeAll, Dims, Decimal, Plain, ReadString, Unbroken, Line;
    Constants();
    var torn := OPEN + EscapeAll(before);
    UnbrokenAppend(OPEN, EscapeAll(before));
    var more := EscapeAll(after) + Tail(e) + rest;
    LineTorn(e, rest, before, c, after);
    LinesCons(torn, c, more);
    SkipRead(OPEN, EscapeAll(before));
  }

  lemma EscapeTorn(name: Text, k: nat)
    requires k < |name| && Breaking(name[k])
    ensures EscapeAll(name) == EscapeAll(name[..k]) + [name[k]] + EscapeAll(name[k + 1..])
  {
    var before, c, after := name[..k], name[k], name[k + 1..];
    EscapeOne(c);
    hide EscapeAll;
    assert name == before + [c] + after;
    EscapeAppend(before + [c], after);
    EscapeAppend(before, [c]);
  }

  lemma EscapeOne(c: Char)
    requires Breaking(c)
    ensures EscapeAll([c]) == [c]
  {
    assert [c][1..] == [];
  }

  function Tail(e: Entry): Text {
    [QUOTE] + SHAPE + Dims(e.shape) + OFFSET + Decimal(e.offset) + CLOSE
  }

  lemma LineTorn(e: Entry, rest: Text, before: Text, c: Char, after: Text)
    requires EscapeAll(e.name) == EscapeAll(before) + [c] + EscapeAll(after)
    ensures Line(e) + rest == (OPEN + EscapeAll(before)) + [c] + (EscapeAll(after) + Tail(e) + rest)
  {
    hide EscapeAll, Dims, Decimal;
    assert Line(e) == OPEN + EscapeAll(e.name) + Tail(e);
    hide Tail, Line;
  }

  lemma {:induction false} TornIndexFails(entries: seq<Entry>)
    requires exists i :: 0 <= i < |entries| && !Plain(entries[i].name)
    ensures ReadIndex(Index(entries)).None?
    decreases |entries|
  {
    var e := entries[0];
    var rest := Index(entries[1..]);
    hide Line, ReadLine, Lines, Plain;
    assert Index(entries) == Line(e) + ([NEWLINE] + rest);
    if !Plain(e.name) {
      TornLine(e, [NEWLINE] + rest);
    } else {
      var i :| 0 <= i < |entries| && !Plain(entries[i].name);
      assert entries[1..][i - 1] == entries[i];
      TornIndexFails(entries[1..]);
      LineUnbroken(e);
      LineRead(e);
      LineIsThere(e);
      LinesCons(Line(e), NEWLINE, rest);
      assert Line(e) + ([NEWLINE] + rest) == Line(e) + [NEWLINE] + rest;
      assert ([Line(e)] + Lines(rest))[1..] == Lines(rest);
    }
  }

  lemma LineIsThere(e: Entry)
    ensures Line(e) != []
  {
  }

  /** An index is read back exactly as it was written when no name holds U+0085, U+2028 or U+2029; otherwise it cannot
      be read at all. */
  lemma IndexRoundTrip(entries: seq<Entry>)
    ensures ReadIndex(Index(entries)) ==
            if forall i :: 0 <= i < |entries| ==> Plain(entries[i].name) then Some(entries) else None
  {
    if forall i :: 0 <= i < |entries| ==> Plain(entries[i].name) {
      PlainIndexRead(entries);
    } else {
      TornIndexFails(entries);
    }
  }

  /** U+0085 is one of the three: it comes unescaped, and tears the line that holds it. */
  lemma NextLineTearsIndex()
    ensures ReadIndex(Index([Entry([0x85], [1], 0)])).None?
    ensures ReadIndex(Index([Entry([0x0A], [1], 0)])) == Some([Entry([0x0A], [1], 0)])
  {
    var torn, plain := [Entry([0x85], [1], 0)], [Entry([0x0A], [1], 0)];
    assert Breaking(torn[0].name[0]) && plain[0].name == [0x0A];
    assert !Breaking(0x0A) && !Plain(torn[0].name) && Plain(plain[0].name);
    hide Index, ReadIndex;
    IndexRoundTrip(torn);
    IndexRoundTrip(plain);
  }

  /** {"n":"a\"","s":[1,20],"o":8} */
  lemma LineSpelled()
    ensures Line(Entry([0x61, 0x22], [1, 20], 8)) ==
            [0x7B, 0x22, 0x6E, 0x22, 0x3A, 0x22] + [0x61, 0x5C, 0x22] + [0x22] + [0x2C, 0x22, 0x73, 0x22, 0x3A, 0x5B]
            + [0x31, 0x2C, 0x32, 0x30] + [0x5D, 0x2C, 0x22, 0x6F, 0x22, 0x3A] + [0x38] + [0x7D]
  {
    EscapeAppend([0x61], [0x22]);
    OneEscaped(0x61);
    OneEscaped(0x22);
    assert [0x61] + [0x22] == [0x61, 0x22];
    assert [1, 20][1..] == [20];
    assert Decimal(20) == [0x32, 0x30] && Dims([20]) == [0x32, 0x30] && Dims([1, 20]) == [0x31, 0x2C, 0x32, 0x30] && Decimal(8) == [0x38];
    hide EscapeAll, Dims, Decimal;
  }

  lemma OneEscaped(c: Char)
    ensures EscapeAll([c]) == Escape(c)
  {
    assert [c][1..] == [] && Escape(c) + [] == Escape(c);
  }

  /** A control character without a short form is written with four hexadecimal digits, in lower case. */
  lemma ControlSpelled()
    ensures Escape(0x1F) == [0x5C, 0x75, 0x30, 0x30, 0x31, 0x66] && Escape(0x01) == [0x5C, 0x75, 0x30, 0x30, 0x30, 0x31]
  {
  }
}
