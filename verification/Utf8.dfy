/** UTF-8 well-formedness, after the byte-sequence grammar of section 4 of RFC 3629,
    and the "longest valid prefix" helper of the reply protocol. */
module Utf8 {
  import opened Bytes

  predicate IsCont(b: Byte) {
    0x80 <= b < 0xC0
  }

  /** UTF8-2, UTF8-3 and UTF8-4 restrict the byte after some leads. */
  predicate SecondOk(lead: Byte, second: Byte) {
    IsCont(second) &&
    (lead == 0xE0 ==> 0xA0 <= second) &&
    (lead == 0xED ==> second < 0xA0) &&
    (lead == 0xF0 ==> 0x90 <= second) &&
    (lead == 0xF4 ==> second < 0x90)
  }

  /** Length announced by a lead byte, 0 for a byte that cannot start a character. */
  function ExpectedLen(b: Byte): nat {
    if b < 0x80 then 1
    else if 0xC2 <= b <= 0xDF then 2
    else if 0xE0 <= b <= 0xEF then 3
    else if 0xF0 <= b <= 0xF4 then 4
    else 0
  }

  /** Length of the UTF8-char that `s` starts with, 0 when it starts with none. */
  function CharLen(s: Bytes): (n: nat)
    ensures n <= |s| && n <= 4
    ensures n > 0 ==> n == ExpectedLen(s[0])
  {
    if s == [] then 0
    else
      var n := ExpectedLen(s[0]);
      if 1 <= n <= |s| && (n >= 2 ==> SecondOk(s[0], s[1])) && (n >= 3 ==> IsCont(s[2])) && (n >= 4 ==> IsCont(s[3]))
      then n
      else 0
  }

  /** The production UTF8-octets: a concatenation of UTF8-chars. */
  predicate Valid(s: Bytes)
    decreases |s|
  {
    s == [] || (CharLen(s) > 0 && Valid(s[CharLen(s)..]))
  }

  lemma CharLenPrefix(a: Bytes, b: Bytes)
    requires CharLen(a) > 0
    ensures CharLen(a + b) == CharLen(a)
  {
    assert forall i :: 0 <= i < |a| ==> (a + b)[i] == a[i];
  }

  lemma {:induction false} ValidAppend(a: Bytes, b: Bytes)
    requires Valid(a)
    ensures Valid(a + b) <==> Valid(b)
    decreases |a|
  {
    if a == [] {
      assert a + b == b;
    } else {
      var n := CharLen(a);
      CharLenPrefix(a, b);
      assert (a + b)[n..] == a[n..] + b;
      ValidAppend(a[n..], b);
    }
  }

  /** Nothing valid is left strictly inside one character. */
  lemma ProperPrefixInvalid(c: Bytes, k: nat)
    requires c != [] && CharLen(c) == |c| && 0 < k < |c|
    ensures CharLen(c[..k]) == 0 && !Valid(c[..k])
  {
    assert c[..k][0] == c[0];
  }

  /** Position `i` of `s` does not fall between the bytes of one character. */
  predicate Boundary(s: Bytes, i: int) {
    0 <= i <= |s| && (i < |s| ==> !IsCont(s[i]))
  }

  lemma {:induction false} BoundarySplits(s: Bytes, i: int)
    requires Valid(s) && Boundary(s, i)
    ensures Valid(s[..i]) && Valid(s[i..])
    decreases |s|
  {
    if s == [] {
      assert s[..i] == [] && s[i..] == [];
    } else if i == 0 {
      assert s[..0] == [] && s[0..] == s;
    } else {
      var n := CharLen(s);
      assert i >= n;
      assert s[n..][..i - n] == s[n..i] && s[n..][i - n..] == s[i..];
      BoundarySplits(s[n..], i - n);
      CharBefore(s, n, i);
    }
  }

  /** A prefix of valid text is valid exactly when it cuts no character. */
  lemma ValidPrefixIff(s: Bytes, i: nat)
    requires Valid(s) && i <= |s|
    ensures Valid(s[..i]) <==> Boundary(s, i)
  {
    if Boundary(s, i) {
      BoundarySplits(s, i);
    }
    if Valid(s[..i]) {
      assert s == s[..i] + s[i..];
      ValidAppend(s[..i], s[i..]);
      BeginsWithLead(s[i..]);
      assert i < |s| ==> s[i..][0] == s[i];
    }
  }

  /** At most three bytes of valid text in a row continue a character. */
  lemma {:induction false} ContinuationsAreShort(s: Bytes, i: nat, j: nat)
    requires Valid(s) && i <= j <= |s| && forall k :: i <= k < j ==> IsCont(s[k])
    ensures j - i <= 3
    decreases |s|
  {
    if i < j {
      var n := CharLen(s);
      BeginsWithLead(s[n..]);
      assert n < |s| ==> s[n..][0] == s[n];
      if i < n {
        assert !IsCont(s[0]) && j <= n;
      } else {
        assert forall k :: i - n <= k < j - n ==> s[n..][k] == s[k + n];
        ContinuationsAreShort(s[n..], i - n, j - n);
      }
    }
  }

  lemma BeginsWithLead(s: Bytes)
    requires Valid(s)
    ensures s != [] ==> !IsCont(s[0])
  {
  }

  lemma CharBefore(s: Bytes, n: nat, i: nat)
    requires s != [] && n == CharLen(s) > 0 && n <= i <= |s| && Valid(s[n..i])
    ensures Valid(s[..i])
  {
    CharLenOfChar(s);
    OneCharValid(s[..n]);
    ValidAppend(s[..n], s[n..i]);
    assert s[..i] == s[..n] + s[n..i];
  }

  lemma CharLenOfChar(s: Bytes)
    requires CharLen(s) > 0
    ensures CharLen(s[..CharLen(s)]) == CharLen(s)
  {
    var n := CharLen(s);
    assert s[..n][0] == s[0];
  }

  lemma OneCharValid(c: Bytes)
    requires c != [] && CharLen(c) == |c|
    ensures Valid(c)
  {
    assert c[|c|..] == [];
  }

  /** Two valid prefixes of the same text differ by valid text. */
  lemma ValidBetween(s: Bytes, i: nat, j: nat)
    requires i <= j <= |s|
    requires Valid(s[..i]) && Valid(s[..j])
    ensures Valid(s[i..j])
  {
    assert s[..j] == s[..i] + s[i..j];
    ValidAppend(s[..i], s[i..j]);
  }

  datatype PrefixResult = PrefixResult(text: Bytes, dropped: nat)

  /** The loop of `utf8_prefix`: drop `cut` bytes, then one more, at most four. */
  function TryCut(data: Bytes, cut: nat): PrefixResult
    requires cut <= |data|
    decreases |data| - cut
  {
    if Valid(data[..|data| - cut]) then PrefixResult(data[..|data| - cut], cut)
    else if cut < 4 && cut < |data| then TryCut(data, cut + 1)
    else PrefixResult([], |data|)
  }

  function Utf8Prefix(data: Bytes): PrefixResult {
    TryCut(data, 0)
  }

  predicate ValidWithout(data: Bytes, cut: nat) {
    cut <= |data| && Valid(data[..|data| - cut])
  }

  /** `cut` is the least number of bytes whose removal leaves valid text. */
  predicate LeastCut(data: Bytes, cut: nat) {
    ValidWithout(data, cut) && forall less: nat :: less < cut ==> !ValidWithout(data, less)
  }

  lemma {:induction false} TryCutMeans(data: Bytes, from: nat)
    requires from <= 4 && from <= |data| && forall less: nat :: less < from ==> !ValidWithout(data, less)
    ensures forall cut: nat :: cut <= 4 && LeastCut(data, cut) ==> TryCut(data, from) == PrefixResult(data[..|data| - cut], cut)
    ensures (forall cut: nat :: cut <= 4 ==> !LeastCut(data, cut)) ==> TryCut(data, from) == PrefixResult([], |data|)
    decreases 4 - from
  {
    hide Valid;
    if ValidWithout(data, from) {
      assert LeastCut(data, from);
    } else if from < 4 && from < |data| {
      TryCutMeans(data, from + 1);
    }
  }

  /** On any bytes `utf8_prefix` returns the longest valid text that is left after dropping at most four bytes, and drops
      everything when there is none. */
  lemma PrefixMeans(data: Bytes)
    ensures forall cut: nat :: cut <= 4 && LeastCut(data, cut) ==> Utf8Prefix(data) == PrefixResult(data[..|data| - cut], cut)
    ensures (forall cut: nat :: cut <= 4 ==> !LeastCut(data, cut)) ==> Utf8Prefix(data) == PrefixResult([], |data|)
  {
    TryCutMeans(data, 0);
  }

  /** `utf8_prefix` of whole characters followed by an unfinished one. */
  lemma {:induction false} PrefixOfUnfinished(text: Bytes, c: Bytes, k: nat, cut: nat)
    requires Valid(text)
    requires c != [] && CharLen(c) == |c| && cut <= k < |c|
    ensures TryCut(text + c[..k], cut) == PrefixResult(text, k)
    decreases k - cut
  {
    var data := text + c[..k];
    var left := k - cut;
    assert data[..|data| - cut] == text + c[..left];
    ValidAppend(text, c[..left]);
    if left == 0 {
      assert c[..0] == [] && text + [] == text;
    } else {
      ProperPrefixInvalid(c, left);
      hide Valid, CharLen;
      PrefixOfUnfinished(text, c, k, cut + 1);
    }
  }
}
