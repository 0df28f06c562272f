/** Text as Unicode scalar values, and its UTF-8 form (section 3 of RFC 3629). */
module UnicodeText {
  import opened Bytes
  import opened Outcomes
  import Utf8

  type Char = c: int | 0 <= c <= 0x10FFFF && !(0xD800 <= c <= 0xDFFF)
  type Text = seq<Char>

  function EncodeChar(c: Char): (b: Bytes)
    ensures 1 <= |b| <= 4
  {
    if c < 0x80 then [c]
    else if c < 0x800 then [0xC0 + c / 64, 0x80 + c % 64]
    else if c < 0x10000 then [0xE0 + c / 4096, 0x80 + c / 64 % 64, 0x80 + c % 64]
    else [0xF0 + c / 262144, 0x80 + c / 4096 % 64, 0x80 + c / 64 % 64, 0x80 + c % 64]
  }

  /** The scalar value of the character that `b` starts with. */
  function CodeOf(b: Bytes): Char
    requires Utf8.CharLen(b) > 0
  {
    var n := Utf8.CharLen(b);
    var b0: int := b[0];
    if n == 1 then b0
    else
      var b1: int := b[1] - 0x80;
      if n == 2 then (b0 - 0xC0) * 64 + b1
      else
        var b2: int := b[2] - 0x80;
        if n == 3 then (b0 - 0xE0) * 4096 + b1 * 64 + b2
        else (b0 - 0xF0) * 262144 + b1 * 4096 + b2 * 64 + (b[3] - 0x80)
  }

  function EncodeText(t: Text): Bytes {
    if t == [] then [] else EncodeChar(t[0]) + EncodeText(t[1..])
  }

  function DecodeText(b: Bytes): Option<Text>
    decreases |b|
  {
    if b == [] then Some([])
    else if Utf8.CharLen(b) == 0 then None
    else
      var rest := DecodeText(b[Utf8.CharLen(b)..]);
      if rest.None? then None else Some([CodeOf(b)] + rest.value)
  }

  lemma CharRoundTrip(c: Char, rest: Bytes)
    ensures var b := EncodeChar(c) + rest;
            Utf8.CharLen(b) == |EncodeChar(c)| && CodeOf(b) == c && b[Utf8.CharLen(b)..] == rest
  {
    var b := EncodeChar(c) + rest;
    assert c == c / 64 * 64 + c % 64;
    assert c / 64 == c / 4096 * 64 + c / 64 % 64;
    assert c / 4096 == c / 262144 * 64 + c / 4096 % 64;
    assert forall i :: 0 <= i < |EncodeChar(c)| ==> b[i] == EncodeChar(c)[i];
  }

  lemma {:induction false} TextRoundTrip(t: Text)
    ensures DecodeText(EncodeText(t)) == Some(t)
    decreases |t|
  {
    if t != [] {
      hide EncodeChar, CodeOf, Utf8.CharLen;
      CharRoundTrip(t[0], EncodeText(t[1..]));
      TextRoundTrip(t[1..]);
      assert [t[0]] + t[1..] == t;
    }
  }

  lemma {:induction false} EncodeAppend(a: Text, b: Text)
    ensures EncodeText(a + b) == EncodeText(a) + EncodeText(b)
    decreases |a|
  {
    hide EncodeChar;
    if a == [] {
      assert a + b == b;
    } else {
      assert (a + b)[1..] == a[1..] + b;
      EncodeAppend(a[1..], b);
    }
  }

  /** What the grammar of section 4 calls a character is what section 3 writes for its scalar value. */
  lemma CharIsEncoded(b: Bytes)
    requires Utf8.CharLen(b) > 0
    ensures EncodeChar(CodeOf(b)) == b[..Utf8.CharLen(b)]
  {
    var n := Utf8.CharLen(b);
    var b0: int := b[0];
    if n == 2 {
      TwoBytes(b0, b[1]);
    } else if n == 3 {
      ThreeBytes(b0, b[1], b[2]);
    } else if n == 4 {
      FourBytes(b0, b[1], b[2], b[3]);
    }
  }

  lemma TwoBytes(a: int, b: int)
    requires 0xC2 <= a <= 0xDF && 0x80 <= b < 0xC0
    ensures var c := (a - 0xC0) * 64 + (b - 0x80); 0x80 <= c < 0x800 && c / 64 == a - 0xC0 && c % 64 == b - 0x80
  {
  }

  lemma ThreeBytes(a: int, b: int, d: int)
    requires 0xE0 <= a <= 0xEF && 0x80 <= b < 0xC0 && 0x80 <= d < 0xC0 && (a == 0xE0 ==> 0xA0 <= b)
    ensures var c := (a - 0xE0) * 4096 + (b - 0x80) * 64 + (d - 0x80);
            0x800 <= c < 0x10000 && c / 4096 == a - 0xE0 && c / 64 % 64 == b - 0x80 && c % 64 == d - 0x80
  {
    var c := (a - 0xE0) * 4096 + (b - 0x80) * 64 + (d - 0x80);
    assert c / 64 == (a - 0xE0) * 64 + (b - 0x80);
  }

  lemma FourBytes(a: int, b: int, d: int, e: int)
    requires 0xF0 <= a <= 0xF4 && 0x80 <= b < 0xC0 && 0x80 <= d < 0xC0 && 0x80 <= e < 0xC0 && (a == 0xF0 ==> 0x90 <= b)
    ensures var c := (a - 0xF0) * 262144 + (b - 0x80) * 4096 + (d - 0x80) * 64 + (e - 0x80);
            && 0x10000 <= c && c / 262144 == a - 0xF0 && c / 4096 % 64 == b - 0x80
            && c / 64 % 64 == d - 0x80 && c % 64 == e - 0x80
  {
    var c := (a - 0xF0) * 262144 + (b - 0x80) * 4096 + (d - 0x80) * 64 + (e - 0x80);
    assert c / 64 == (a - 0xF0) * 4096 + (b - 0x80) * 64 + (d - 0x80);
    assert c / 4096 == (a - 0xF0) * 64 + (b - 0x80);
  }

  /** The valid byte sequences are exactly the encodings of texts. */
  lemma {:induction false} ValidIffEncoded(b: Bytes)
    ensures Utf8.Valid(b) <==> exists t: Text :: EncodeText(t) == b
    ensures Utf8.Valid(b) <==> DecodeText(b).Some?
    ensures DecodeText(b).Some? ==> EncodeText(DecodeText(b).value) == b
    decreases |b|
  {
    hide EncodeChar, CodeOf, Utf8.CharLen;
    if b == [] {
      assert EncodeText([]) == b;
    } else if Utf8.CharLen(b) > 0 {
      var n := Utf8.CharLen(b);
      ValidIffEncoded(b[n..]);
      CharIsEncoded(b);
      if DecodeText(b).Some? {
        var t := DecodeText(b).value;
        assert t[0] == CodeOf(b) && t[1..] == DecodeText(b[n..]).value;
        assert b == b[..n] + b[n..];
      }
    }
    forall t: Text | EncodeText(t) == b ensures DecodeText(b).Some? {
      TextRoundTrip(t);
    }
    if DecodeText(b).Some? {
      assert EncodeText(DecodeText(b).value) == b;
    }
  }
}
