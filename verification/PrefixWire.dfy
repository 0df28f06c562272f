/** The file in which a batch of token prefixes is handed to the native model. */
module PrefixWire {
  import opened Bytes
  import opened Outcomes

  const VOCAB: nat := 73448
  type Token = t: nat | t < VOCAB

  /** "BNPI0001" */
  const MAGIC: Bytes := [0x42, 0x4E, 0x50, 0x49, 0x30, 0x30, 0x30, 0x31]

  function EncodeIds(ids: seq<Token>): Bytes {
    if ids == [] then [] else U32(ids[0]) + EncodeIds(ids[1..])
  }

  function EncodeRow(ids: seq<Token>): Bytes {
    U32(|ids|) + EncodeIds(ids)
  }

  function EncodeRows(rows: seq<seq<Token>>): Bytes {
    if rows == [] then [] else EncodeRow(rows[0]) + EncodeRows(rows[1..])
  }

  function Encode(rows: seq<seq<Token>>): Bytes {
    MAGIC + U32(|rows|) + EncodeRows(rows)
  }

  predicate RowsFit(rows: seq<seq<Token>>) {
    |rows| < LIMIT && forall i :: 0 <= i < |rows| ==> |rows[i]| < LIMIT
  }

  // ---- Reading it back

  function ReadIds(b: Bytes, n: nat): Option<(seq<Token>, Bytes)>
    decreases n
  {
    if n == 0 then Some(([], b))
    else if |b| < 4 || ReadU32(b) >= VOCAB then None
    else
      var rest := ReadIds(b[4..], n - 1);
      if rest.None? then None else Some(([ReadU32(b)] + rest.value.0, rest.value.1))
  }

  function ReadRows(b: Bytes, n: nat): Option<(seq<seq<Token>>, Bytes)>
    decreases n
  {
    if n == 0 then Some(([], b))
    else if |b| < 4 then None
    else
      var row := ReadIds(b[4..], ReadU32(b));
      if row.None? then None
      else
        var rest := ReadRows(row.value.1, n - 1);
        if rest.None? then None else Some(([row.value.0] + rest.value.0, rest.value.1))
  }

  function Decode(b: Bytes): Option<seq<seq<Token>>> {
    if |b| < 12 || b[..8] != MAGIC then None
    else
      var rows := ReadRows(b[12..], ReadU32(b[8..]));
      if rows.None? || rows.value.1 != [] then None else Some(rows.value.0)
  }

  lemma {:induction false} IdsRoundTrip(ids: seq<Token>, rest: Bytes)
    ensures ReadIds(EncodeIds(ids) + rest, |ids|) == Some((ids, rest))
    decreases |ids|
  {
    if ids == [] {
      assert EncodeIds(ids) + rest == rest;
    } else {
      var tail := EncodeIds(ids[1..]) + rest;
      assert EncodeIds(ids) + rest == U32(ids[0]) + tail;
      U32Read(ids[0], tail);
      IdsRoundTrip(ids[1..], rest);
      assert [ids[0]] + ids[1..] == ids;
    }
  }

  lemma {:induction false} RowsRoundTrip(rows: seq<seq<Token>>, rest: Bytes)
    requires RowsFit(rows)
    ensures ReadRows(EncodeRows(rows) + rest, |rows|) == Some((rows, rest))
    decreases |rows|
  {
    hide U32, ReadU32;
    if rows == [] {
      assert EncodeRows(rows) + rest == rest;
    } else {
      var tail := EncodeRows(rows[1..]) + rest;
      assert EncodeRows(rows) + rest == U32(|rows[0]|) + (EncodeIds(rows[0]) + tail);
      U32Read(|rows[0]|, EncodeIds(rows[0]) + tail);
      IdsRoundTrip(rows[0], tail);
      RowsRoundTrip(rows[1..], rest);
      assert [rows[0]] + rows[1..] == rows;
    }
  }

  lemma EncodeRoundTrip(rows: seq<seq<Token>>)
    requires RowsFit(rows)
    ensures Decode(Encode(rows)) == Some(rows)
  {
    hide U32, ReadU32;
    var b := Encode(rows);
    assert b[..8] == MAGIC && b[8..] == U32(|rows|) + EncodeRows(rows);
    U32Read(|rows|, EncodeRows(rows));
    assert b[12..] == b[8..][4..] == EncodeRows(rows) + [];
    RowsRoundTrip(rows, []);
  }

  /** One file is the image of one batch only. */
  lemma EncodeInjective(a: seq<seq<Token>>, b: seq<seq<Token>>)
    requires RowsFit(a) && RowsFit(b)
    ensures Encode(a) == Encode(b) ==> a == b
  {
    EncodeRoundTrip(a);
    EncodeRoundTrip(b);
  }

  // ---- Writing it

  lemma {:induction false} EncodeRowsSnoc(rows: seq<seq<Token>>, last: seq<Token>)
    ensures EncodeRows(rows + [last]) == EncodeRows(rows) + EncodeRow(last)
    decreases |rows|
  {
    hide EncodeRow;
    if rows == [] {
      assert [last][1..] == [];
    } else {
      assert (rows + [last])[1..] == rows[1..] + [last];
      EncodeRowsSnoc(rows[1..], last);
    }
  }

  method WriteInput(rows: seq<seq<Token>>) returns (file: Bytes)
    ensures file == Encode(rows)
  {
    hide U32, EncodeIds;
    file := MAGIC + U32(|rows|);
    for i := 0 to |rows|
      invariant file == MAGIC + U32(|rows|) + EncodeRows(rows[..i])
    {
      EncodeRowsSnoc(rows[..i], rows[i]);
      assert rows[..i + 1] == rows[..i] + [rows[i]];
      file := file + (U32(|rows[i]|) + EncodeIds(rows[i]));
    }
    assert rows[..|rows|] == rows;
  }

  /** "BNPI0001", the number of rows, and for each row its length and its tokens, four bytes each. */
  lemma FileSpelled()
    ensures Encode([[1, 258]]) == [0x42, 0x4E, 0x50, 0x49, 0x30, 0x30, 0x30, 0x31] + [1, 0, 0, 0]
                                  + ([2, 0, 0, 0] + ([1, 0, 0, 0] + [2, 1, 0, 0]))
  {
    var row: seq<Token> := [1, 258];
    assert U32(1) == [1, 0, 0, 0] && U32(2) == [2, 0, 0, 0] && U32(258) == [2, 1, 0, 0];
    hide U32;
    OneId(258);
    assert row[1..] == [258] && EncodeIds(row) == [1, 0, 0, 0] + EncodeIds([258]);
    assert EncodeRow(row) == [2, 0, 0, 0] + ([1, 0, 0, 0] + [2, 1, 0, 0]);
    hide EncodeRow;
    EncodeRowsSnoc([], row);
    assert [] + [row] == [row] && EncodeRows([]) == [] && [] + EncodeRow(row) == EncodeRow(row);
  }

  lemma OneId(t: Token)
    ensures EncodeIds([t]) == U32(t)
  {
    assert [t][1..] == [] && U32(t) + [] == U32(t);
  }
}
