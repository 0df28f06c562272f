/** The growable, zero-terminated buffer behind every text the server builds. */
module ByteBuffer {
  import opened Bytes

  const SIZE_MAX: nat := 0xFFFF_FFFF_FFFF_FFFF
  const FIRST_CAPACITY: nat := 256

  class Buffer {
    var data: array<Byte>
    var len: nat

    ghost predicate Valid()
      reads this, data
    {
      if data.Length == 0 then len == 0 else len < data.Length && data[len] == 0
    }

    ghost function Contents(): Bytes
      reads this, data
      requires Valid()
    {
      data[..len]
    }

    constructor ()
      ensures Valid() && Contents() == [] && fresh(data)
    {
      data := new Byte[0];
      len := 0;
    }

    /** Refuses only when doubling would pass the address range, and then changes nothing. */
    method Append(bytes: Bytes) returns (ok: bool)
      requires Valid()
      modifies this, data
      ensures Valid() && (data == old(data) || fresh(data))
      ensures Contents() == if ok then old(Contents()) + bytes else old(Contents())
      ensures old(data.Length) <= data.Length
      ensures old(len) + |bytes| + 1 <= SIZE_MAX / 2 ==> ok
    {
      if |bytes| == 0 {
        assert old(Contents()) + bytes == old(Contents());
        return true;
      }
      ghost var before := Contents();
      var needed := len + |bytes| + 1;
      if needed > data.Length {
        var nextCap := if data.Length == 0 then FIRST_CAPACITY else data.Length;
        while needed > nextCap
          invariant nextCap > 0 && nextCap >= data.Length
          decreases needed - nextCap
        {
          if nextCap > SIZE_MAX / 2 {
            return false;
          }
          nextCap := nextCap * 2;
        }
        var next := new Byte[nextCap];
        forall i | 0 <= i < len {
          next[i] := data[i];
        }
        data := next;
        assert data[..len] == before;
      }
      forall i | 0 <= i < |bytes| {
        data[len + i] := bytes[i];
      }
      assert data[..len + |bytes|] == before + bytes;
      len := len + |bytes|;
      data[len] := 0;
      ok := true;
    }

    method Replace(text: Bytes)
      requires Valid()
      modifies this, data
      ensures Valid() && (data == old(data) || fresh(data))
      ensures Contents() == text
    {
      if |text| + 1 > data.Length {
        data := new Byte[|text| + 1];
      }
      forall i | 0 <= i < |text| {
        data[i] := text[i];
      }
      data[|text|] := 0;
      len := |text|;
      assert data[..len] == text;
    }
  }
}
