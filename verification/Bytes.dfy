/** Bytes, byte strings and the C-string view of a byte buffer. */
module Bytes {
  import opened Outcomes

  type Byte = b: int | 0 <= b < 256
  type Bytes = seq<Byte>

  /** The concatenation of a list of pieces. */
  function Concat<T>(pieces: seq<seq<T>>): seq<T> {
    if pieces == [] then [] else pieces[0] + Concat(pieces[1..])
  }

  lemma {:induction false} ConcatAppend<T>(a: seq<seq<T>>, b: seq<seq<T>>)
    ensures Concat(a + b) == Concat(a) + Concat(b)
    decreases |a|
  {
    if a == [] {
      assert a + b == b && Concat(a) + Concat(b) == Concat(b);
    } else {
      assert (a + b)[1..] == a[1..] + b && (a + b)[0] == a[0];
      ConcatAppend(a[1..], b);
      assert a[0] + (Concat(a[1..]) + Concat(b)) == (a[0] + Concat(a[1..])) + Concat(b);
    }
  }

  lemma ConcatOne<T>(p: seq<T>)
    ensures Concat([p]) == p
  {
    assert [p][1..] == [];
  }

  lemma ConcatSnoc<T>(a: seq<seq<T>>, p: seq<T>)
    ensures Concat(a + [p]) == Concat(a) + p
  {
    ConcatAppend(a, [p]);
    ConcatOne(p);
  }

  lemma InnerSlice(s: Bytes, a: nat, e: nat, b: nat, c: nat)
    requires a <= e <= |s| && b <= c <= e - a
    ensures s[a..e][b..c] == s[a + b..a + c]
  {
    var x, y := s[a..e][b..c], s[a + b..a + c];
    assert forall k :: 0 <= k < c - b ==> x[k] == s[a..e][b + k] && y[k] == s[a + b + k];
  }

  /** `part` occurs in `whole` at position `at`. */
  predicate OccursAt(whole: Bytes, part: Bytes, at: int) {
    0 <= at <= |whole| - |part| && whole[at..at + |part|] == part
  }

  /** First occurrence of `part` at or after `from`. */
  function Find(whole: Bytes, part: Bytes, from: nat): (r: Option<nat>)
    ensures r.Some? ==> from <= r.value && OccursAt(whole, part, r.value)
    ensures forall i :: from <= i < (if r.Some? then r.value else |whole| + 1) ==> !OccursAt(whole, part, i)
    decreases |whole| - from
  {
    if from + |part| > |whole| then None
    else if OccursAt(whole, part, from) then Some(from)
    else Find(whole, part, from + 1)
  }

  /** Occurrences that do not overlap, counted from the left. */
  function Count(whole: Bytes, part: Bytes, from: nat): nat
    requires from <= |whole|
    decreases |whole| - from
  {
    if part == [] then |whole| - from + 1
    else
      var at := Find(whole, part, from);
      if at.None? then 0 else 1 + Count(whole, part, at.value + |part|)
  }

  /** `part` occurs first at `at`, and every other occurrence overlaps that one. */
  ghost predicate OnceAt(whole: Bytes, part: Bytes, at: int) {
    && OccursAt(whole, part, at) && (part == [] ==> whole == [])
    && forall j :: OccursAt(whole, part, j) && part != [] ==> at <= j < at + |part|
  }

  /** What a count of one, and a count of none, say about the places. */
  lemma CountMeans(whole: Bytes, part: Bytes)
    ensures Count(whole, part, 0) == 0 <==> forall j :: !OccursAt(whole, part, j)
    ensures Count(whole, part, 0) == 1 <==> exists at :: OnceAt(whole, part, at)
    ensures forall at :: OnceAt(whole, part, at) ==> Find(whole, part, 0) == Some(at)
  {
    var first := Find(whole, part, 0);
    if part == [] {
      assert OccursAt(whole, part, 0) && first == Some(0);
      assert whole == [] ==> OnceAt(whole, part, 0);
    } else if first.Some? {
      var second := Find(whole, part, first.value + |part|);
      assert Count(whole, part, 0) == 1 + Count(whole, part, first.value + |part|);
      assert second.None? ==> OnceAt(whole, part, first.value);
      assert second.Some? ==> OccursAt(whole, part, second.value);
      forall at | OnceAt(whole, part, at) ensures first == Some(at) {
        assert OccursAt(whole, part, first.value);
      }
    }
  }

  lemma OccursInside(whole: Bytes, part: Bytes, inner: Bytes, i: nat, j: nat)
    requires OccursAt(whole, part, i) && OccursAt(part, inner, j)
    ensures OccursAt(whole, inner, i + j)
  {
    assert forall k :: 0 <= k < |inner| ==> inner[k] == part[j..j + |inner|][k] && part[j + k] == whole[i..i + |part|][j + k];
  }

  const LIMIT: nat := 0x1_0000_0000

  /** Four bytes, least significant first. */
  function U32(n: nat): (r: Bytes)
    ensures |r| == 4
  {
    [n % 256, n / 256 % 256, n / 65536 % 256, n / 16777216 % 256]
  }

  function ReadU32(b: Bytes): nat
    requires |b| >= 4
  {
    b[0] as int + 256 * (b[1] as int) + 65536 * (b[2] as int) + 16777216 * (b[3] as int)
  }

  lemma U32Read(n: nat, rest: Bytes)
    requires n < LIMIT
    ensures |U32(n) + rest| >= 4 && ReadU32(U32(n) + rest) == n && (U32(n) + rest)[4..] == rest
  {
    assert n == n % 256 + 256 * (n / 256);
    assert n / 256 == n / 256 % 256 + 256 * (n / 65536);
    assert n / 65536 == n / 65536 % 256 + 256 * (n / 16777216);
  }

  /** The least significant byte comes first. */
  lemma U32Order()
    ensures U32(0x04030201) == [1, 2, 3, 4] && ReadU32([1, 2, 3, 4]) == 0x04030201
  {
  }

  /** What `strlen` and `strcmp` see of a buffer: everything before its first zero byte. */
  function CString(s: Bytes): (r: Bytes)
    ensures r <= s && 0 !in r
    ensures |r| < |s| ==> s[|r|] == 0
  {
    if s == [] || s[0] == 0 then [] else [s[0]] + CString(s[1..])
  }

  lemma {:induction false} CStringWhole(s: Bytes)
    ensures CString(s) == s <==> 0 !in s
  {
    if |CString(s)| < |s| {
      assert s[|CString(s)|] in s;
    }
  }

  /** Bytes from the first terminator on are never read. */
  lemma {:induction false} CStringStops(s: Bytes, n: nat)
    requires n < |s| && s[n] == 0
    ensures CString(s) == CString(s[..n])
    decreases n
  {
    if n > 0 && s[0] != 0 {
      CStringStops(s[1..], n - 1);
      assert s[1..][..n - 1] == s[..n][1..];
    }
  }

  /** `a` is what remains of `b` after deleting some of its bytes. */
  predicate Subsequence(a: Bytes, b: Bytes) {
    if a == [] then true
    else if b == [] then false
    else if a[0] == b[0] && Subsequence(a[1..], b[1..]) then true
    else Subsequence(a, b[1..])
  }

  lemma {:induction false} SubsequenceRefl(a: Bytes)
    ensures Subsequence(a, a)
  {
    if a != [] {
      SubsequenceRefl(a[1..]);
    }
  }

  lemma {:induction false} SubsequenceAppend(a: Bytes, b: Bytes, c: Bytes, d: Bytes)
    requires Subsequence(a, b) && Subsequence(c, d)
    ensures Subsequence(a + c, b + d)
  {
    if a == [] {
      assert a + c == c;
      SubsequenceSkip(c, b, d);
    } else if a[0] == b[0] && Subsequence(a[1..], b[1..]) {
      SubsequenceAppend(a[1..], b[1..], c, d);
      assert (a + c)[1..] == a[1..] + c && (b + d)[1..] == b[1..] + d;
    } else {
      SubsequenceAppend(a, b[1..], c, d);
      assert (b + d)[1..] == b[1..] + d;
    }
  }

  lemma {:induction false} SubsequenceSkip(c: Bytes, b: Bytes, d: Bytes)
    requires Subsequence(c, d)
    ensures Subsequence(c, b + d)
  {
    if b == [] {
      assert b + d == d;
    } else {
      SubsequenceSkip(c, b[1..], d);
      assert (b + d)[1..] == b[1..] + d;
    }
  }

  /** Deleting bytes neither lengthens a text nor brings in a new byte. */
  lemma {:induction false} SubsequenceBounds(a: Bytes, b: Bytes, x: Byte)
    requires Subsequence(a, b)
    ensures |a| <= |b| && (x in a ==> x in b)
    decreases |b|
  {
    if a != [] {
      if a[0] == b[0] && Subsequence(a[1..], b[1..]) {
        SubsequenceBounds(a[1..], b[1..], x);
        assert a == [a[0]] + a[1..];
      } else {
        SubsequenceBounds(a, b[1..], x);
      }
      assert b == [b[0]] + b[1..];
    }
  }
}
