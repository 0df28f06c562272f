/** The store of raw records that typed events cite as evidence. */
module Episodes {
  import opened Bytes
  import opened Outcomes

  const MAX_RECORDS: nat := 4096
  const MAX_RECORD_BYTES: nat := 65536

  datatype Record = Record(text: Bytes, priority: real)

  predicate PriorityOk(priority: real) {
    0.0 <= priority <= 1.0
  }

  function FindFrom(records: seq<Record>, text: Bytes, from: nat): (r: Option<nat>)
    ensures r.Some? ==> from <= r.value < |records| && records[r.value].text == text
    ensures forall i :: from <= i < (if r.Some? then r.value else |records|) ==> records[i].text != text
    decreases |records| - from
  {
    if from >= |records| then None else if records[from].text == text then Some(from) else FindFrom(records, text, from + 1)
  }

  function IndexOf(records: seq<Record>, text: Bytes): Option<nat> {
    FindFrom(records, text, 0)
  }

  /** Storing a text already stored raises its priority; both give the index of the record. */
  function Add(records: seq<Record>, text: Bytes, priority: real): Option<(seq<Record>, nat)> {
    if text == [] || !PriorityOk(priority) then None
    else
      var known := IndexOf(records, text);
      if known.Some? then
        var i := known.value;
        Some((if priority > records[i].priority then records[i := Record(text, priority)] else records, i))
      else if |records| >= MAX_RECORDS || |text| > MAX_RECORD_BYTES then None
      else Some((records + [Record(text, priority)], |records|))
  }

  function Truncate(records: seq<Record>, count: nat): seq<Record> {
    if count < |records| then records[..count] else records
  }

  /** Loading a snapshot stores its records again, one by one. */
  function Replay(stored: seq<Record>): Option<seq<Record>> {
    if stored == [] then Some([])
    else
      var before, last := Replay(stored[..|stored| - 1]), stored[|stored| - 1];
      if before.None? then None
      else
        var added := Add(before.value, last.text, last.priority);
        if added.None? then None else Some(added.value.0)
  }

  /** What every store built from an empty one satisfies. */
  predicate Sound(records: seq<Record>) {
    && |records| <= MAX_RECORDS
    && (forall i :: 0 <= i < |records| ==> 0 < |records[i].text| <= MAX_RECORD_BYTES && PriorityOk(records[i].priority))
    && (forall i, j :: 0 <= i < j < |records| ==> records[i].text != records[j].text)
  }

  /** Texts never change or move; only priorities rise. */
  predicate Extends(records: seq<Record>, more: seq<Record>) {
    && |records| <= |more|
    && forall i :: 0 <= i < |records| ==> more[i].text == records[i].text && more[i].priority >= records[i].priority
  }

  lemma AddIsSound(records: seq<Record>, text: Bytes, priority: real)
    requires Sound(records) && Add(records, text, priority).Some?
    ensures var (more, i) := Add(records, text, priority).value;
            Sound(more) && Extends(records, more) && i < |more| && more[i].text == text && more[i].priority >= priority
  {
  }

  /** Cutting back to the old count undoes an addition, except that a raised priority stays raised. */
  lemma TruncateUndoesAdd(records: seq<Record>, text: Bytes, priority: real)
    requires Add(records, text, priority).Some?
    ensures var back := Truncate(Add(records, text, priority).value.0, |records|);
            && Extends(records, back) && |back| == |records|
            && (back == records <==> IndexOf(records, text).None? || priority <= records[IndexOf(records, text).value].priority)
  {
    var (more, i) := Add(records, text, priority).value;
    if IndexOf(records, text).None? {
      assert more[..|records|] == records;
    } else if priority > records[i].priority {
      assert more[i] != records[i];
    }
  }

  lemma {:induction false} ReplayIsSound(stored: seq<Record>)
    requires Replay(stored).Some?
    ensures Sound(Replay(stored).value)
    decreases |stored|
  {
    if stored != [] {
      hide Add, Sound;
      var n := |stored| - 1;
      ReplayIsSound(stored[..n]);
      AddIsSound(Replay(stored[..n]).value, stored[n].text, stored[n].priority);
    } else {
      assert Sound([]);
    }
  }

  /** A snapshot of records survives loading unchanged exactly when a store could hold them. */
  lemma {:induction false} ReplayIsExact(stored: seq<Record>)
    ensures Replay(stored) == Some(stored) <==> Sound(stored)
    decreases |stored|
  {
    if stored == [] {
      assert Sound(stored);
    } else if Sound(stored) {
      var n := |stored| - 1;
      ReplayIsExact(stored[..n]);
      assert IndexOf(stored[..n], stored[n].text).None?;
      assert stored == stored[..n] + [stored[n]];
    } else if Replay(stored) == Some(stored) {
      ReplayIsSound(stored);
      assert false;
    }
  }

  class EpisodicStore {
    var records: seq<Record>

    constructor ()
      ensures records == []
    {
      records := [];
    }

    method AddIndexed(text: Bytes, priority: real) returns (r: Option<nat>)
      modifies this
      ensures r.Some? <==> Add(old(records), text, priority).Some?
      ensures r.Some? ==> (records, r.value) == Add(old(records), text, priority).value
      ensures r.None? ==> records == old(records)
    {
      if text == [] || !PriorityOk(priority) {
        return None;
      }
      var i := 0;
      while i < |records|
        invariant i <= |records| && FindFrom(records, text, i) == IndexOf(records, text)
      {
        if records[i].text == text {
          if priority > records[i].priority {
            records := records[i := Record(text, priority)];
          }
          return Some(i);
        }
        i := i + 1;
      }
      if |records| >= MAX_RECORDS || |text| > MAX_RECORD_BYTES {
        return None;
      }
      records := records + [Record(text, priority)];
      return Some(|records| - 1);
    }

    method CutBack(count: nat)
      modifies this
      ensures records == Truncate(old(records), count)
    {
      while |records| > count
        invariant Truncate(records, count) == Truncate(old(records), count)
      {
        assert records[..|records| - 1][..count] == records[..count];
        records := records[..|records| - 1];
      }
      assert |records| == count ==> records[..count] == records;
    }

    method Clear()
      modifies this
      ensures records == []
    {
      records := [];
    }

    /** Replace the records by stored ones, each added afresh. */
    method Load(stored: seq<Record>) returns (ok: bool)
      modifies this
      ensures ok <==> Replay(stored).Some?
      ensures records == if ok then Replay(stored).value else old(records)
    {
      hide Add;
      var loaded := new EpisodicStore();
      for i := 0 to |stored|
        modifies loaded
        invariant Replay(stored[..i]) == Some(loaded.records)
      {
        assert stored[..i + 1][..i] == stored[..i];
        var added := loaded.AddIndexed(stored[i].text, stored[i].priority);
        if added.None? {
          ReplayNeedsPrefix(stored, i + 1);
          return false;
        }
      }
      assert stored[..|stored|] == stored;
      records := loaded.records;
      return true;
    }
  }

  lemma {:induction false} ReplayNeedsPrefix(stored: seq<Record>, n: nat)
    requires n <= |stored| && Replay(stored[..n]).None?
    ensures Replay(stored).None?
    decreases |stored|
  {
    if n == |stored| {
      assert stored[..n] == stored;
    } else {
      assert stored[..|stored| - 1][..n] == stored[..n];
      ReplayNeedsPrefix(stored[..|stored| - 1], n);
    }
  }
}
