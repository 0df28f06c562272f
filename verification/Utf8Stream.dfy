/** The two stateful decoders, as written, against `StreamDecoder.Decode`. */
module Utf8Stream {
  import opened Bytes
  import opened Utf8
  import opened StreamDecoder

  /** The decoder state inside the server's generation record, and the text it has assembled. */
  class ReplyText {
    const pending: array<Byte>
    var pendingLen: nat
    var pendingExpected: nat
    var text: Bytes

    ghost predicate Valid()
      reads this, pending
    {
      pending.Length == 4 && pendingLen <= 4 && Wf(Model())
    }

    ghost function Model(): Pending
      reads this, pending
      requires pendingLen <= pending.Length
    {
      Pending(pending[..pendingLen], pendingExpected)
    }

    constructor ()
      ensures Valid() && Model() == IDLE && text == [] && fresh(pending)
    {
      pending := new Byte[4];
      pendingLen, pendingExpected := 0, 0;
      text := [];
    }

    /** One turn of the byte loop: a completed group, or the order to read the byte again. */
    method Take(b: Byte) returns (complete: Bytes, reread: bool)
      requires Valid()
      modifies this`pendingLen, this`pendingExpected, pending
      ensures Valid()
      ensures reread ==> old(Model()).bytes != [] && !IsCont(b) && Model() == IDLE
      ensures !reread ==> Feed(old(Model()), b) == Decoded(if complete == [] then [] else [complete], Model())
    {
      complete, reread := [], false;
      if pendingLen == 0 {
        var expected := ExpectedLen(b);
        if expected == 1 {
          complete := [b];
        } else if expected > 1 {
          pending[0] := b;
          pendingLen, pendingExpected := 1, expected;
        }
      } else if IsCont(b) {
        pending[pendingLen] := b;
        pendingLen := pendingLen + 1;
        assert pending[..pendingLen] == old(pending[..pendingLen]) + [b];
        if pendingLen == pendingExpected {
          complete := pending[..pendingExpected];
          pendingLen, pendingExpected := 0, 0;
        }
      } else {
        pendingLen, pendingExpected := 0, 0;
        reread := true;
      }
    }

    /** `out` may be the very array that `bytes` is. */
    method AppendDecoded(bytes: array<Byte>, byteLen: int, out: array<Byte>)
      requires Valid() && byteLen <= bytes.Length
      requires out != pending && bytes != pending
      modifies this, pending, out
      ensures Valid()
      ensures byteLen <= 0 ==> text == old(text) && Model() == old(Model()) && out[..] == old(out[..])
      ensures byteLen > 0 ==>
        var d := Decode(old(Model()), old(bytes[..byteLen]));
        && Model() == d.pending
        && text == old(text) + d.Text()
        && (out.Length > 0 ==> Holds(out, |Fill([], d.groups, out.Length)|, d.groups))
    {
      if byteLen <= 0 {
        return;
      }
      var input := bytes[..byteLen];
      var outLen: nat := 0;
      if out.Length > 0 {
        out[0] := 0;
      }
      assert text == text + Concat([]);
      outLen := AppendAll(input, out, outLen);
    }

    /** What the call has added so far: to the text, and to the piece as far as it fits. */
    ghost predicate Delivered(before: Bytes, out: array<Byte>, outLen: nat, groups: seq<Bytes>)
      reads this`text, out
    {
      && text == before + Concat(groups)
      && (out.Length > 0 ==> Holds(out, outLen, groups))
    }

    /** The byte loop, over the private copy of the input. */
    method AppendAll(input: Bytes, out: array<Byte>, start: nat) returns (outLen: nat)
      requires Valid() && out != pending && Delivered(text, out, start, [])
      modifies this, pending, out
      ensures Valid()
      ensures var d := Decode(old(Model()), input);
              Model() == d.pending && Delivered(old(text), out, outLen, d.groups)
    {
      hide Decode, Feed, Remaining, Delivered;
      ghost var before := text;
      ghost var total := Decode(Model(), input);
      ghost var groups: seq<Bytes> := [];
      outLen := start;
      var i := 0;
      Begin(Model(), input);
      assert input[0..] == input;
      while i < |input|
        invariant 0 <= i <= |input| && Valid()
        invariant Remaining(total, groups, Model(), input[i..])
        invariant Delivered(before, out, outLen, groups)
        decreases |input| - i, pendingLen
      {
        ghost var cur := Model();
        var complete, reread := Take(input[i]);
        if reread {
          Reread(total, groups, cur, input, i);
          continue;
        }
        Advance(total, groups, cur, input, i);
        i := i + 1;
        if complete == [] {
          assert groups + [] == groups;
          continue;
        }
        outLen := Deliver(complete, out, outLen, before, groups);
        groups := groups + [complete];
      }
      Finish(total, groups, Model(), input);
    }

    method Deliver(complete: Bytes, out: array<Byte>, outLen: nat, ghost before: Bytes, ghost groups: seq<Bytes>)
      returns (newLen: nat)
      requires out != pending && Delivered(before, out, outLen, groups)
      modifies this`text, out
      ensures Delivered(before, out, newLen, groups + [complete])
    {
      hide Concat, Fill;
      ConcatSnoc(groups, complete);
      text := text + complete;
      assert text == before + Concat(groups + [complete]);
      newLen := outLen;
      if out.Length > 0 {
        FillSnoc([], groups, complete, out.Length);
        if outLen + |complete| < out.Length {
          ghost var written := out[..outLen];
          forall k | 0 <= k < |complete| {
            out[outLen + k] := complete[k];
          }
          newLen := outLen + |complete|;
          assert out[..newLen] == written + complete;
          out[newLen] := 0;
        }
      }
    }

    /** `out` holds, terminated, the completed groups that fitted. */
    static ghost predicate Holds(out: array<Byte>, outLen: nat, groups: seq<Bytes>)
      reads out
      requires out.Length > 0
    {
      var piece := Fill([], groups, out.Length);
      outLen == |piece| && out[..outLen] == piece && out[outLen] == 0
    }
  }

  /** The second copy of the decoder, which writes straight to standard output. */
  class ConsoleText {
    const pending: array<Byte>
    var pendingLen: nat
    var pendingExpected: nat
    var stdout: Bytes

    ghost predicate Valid()
      reads this, pending
    {
      pending.Length == 4 && pendingLen <= 4 && Wf(Model())
    }

    ghost function Model(): Pending
      reads this, pending
      requires pendingLen <= pending.Length
    {
      Pending(pending[..pendingLen], pendingExpected)
    }

    constructor ()
      ensures Valid() && Model() == IDLE && stdout == [] && fresh(pending)
    {
      pending := new Byte[4];
      pendingLen, pendingExpected := 0, 0;
      stdout := [];
    }

    method Take(b: Byte) returns (reread: bool)
      requires Valid()
      modifies this, pending
      ensures Valid()
      ensures reread ==> old(Model()).bytes != [] && !IsCont(b) && Model() == IDLE && stdout == old(stdout)
      ensures !reread ==>
        var f := Feed(old(Model()), b);
        f.pending == Model() && stdout == old(stdout) + f.Text()
    {
      reread := false;
      ghost var f := Feed(Model(), b);
      if f.groups != [] {
        ConcatOne(f.groups[0]);
      }
      if pendingLen == 0 {
        var expected := ExpectedLen(b);
        if expected == 1 {
          stdout := stdout + [b];
        } else if expected > 1 {
          pending[0] := b;
          pendingLen, pendingExpected := 1, expected;
        }
      } else if IsCont(b) {
        pending[pendingLen] := b;
        pendingLen := pendingLen + 1;
        assert pending[..pendingLen] == old(pending[..pendingLen]) + [b];
        if pendingLen == pendingExpected {
          stdout := stdout + pending[..pendingExpected];
          pendingLen, pendingExpected := 0, 0;
        }
      } else {
        pendingLen, pendingExpected := 0, 0;
        reread := true;
      }
    }

    method PrintDecoded(bytes: Bytes)
      requires Valid()
      modifies this, pending
      ensures Valid()
      ensures var d := Decode(old(Model()), bytes);
              Model() == d.pending && stdout == old(stdout) + d.Text()
    {
      hide Decode, Feed, Remaining;
      ghost var before := stdout;
      ghost var total := Decode(Model(), bytes);
      ghost var groups: seq<Bytes> := [];
      var i := 0;
      Begin(Model(), bytes);
      assert bytes[0..] == bytes;
      while i < |bytes|
        invariant 0 <= i <= |bytes| && Valid()
        invariant Remaining(total, groups, Model(), bytes[i..])
        invariant stdout == before + Concat(groups)
        decreases |bytes| - i, pendingLen
      {
        ghost var cur, soFar := Model(), stdout;
        var reread := Take(bytes[i]);
        if reread {
          Reread(total, groups, cur, bytes, i);
          continue;
        }
        ghost var f := Feed(cur, bytes[i]);
        Advance(total, groups, cur, bytes, i);
        ConcatAppend(groups, f.groups);
        assert stdout == before + Concat(groups + f.groups);
        groups := groups + f.groups;
        i := i + 1;
      }
      Finish(total, groups, Model(), bytes);
    }
  }
}
