/** Single-file weight containers: writing, reading, appending and replacing tensors. */
module Container {
  import opened Bytes
  import opened Outcomes
  import opened UnicodeText
  import opened IndexLines

  /** "BNMW" */
  const MAGIC: Bytes := [0x42, 0x4E, 0x4D, 0x57]

  /** A float32 array as the writer sees it: its bytes, four for each element. */
  datatype Tensor = Tensor(name: Text, shape: seq<nat>, data: Bytes)

  datatype File = File(version: nat, entries: seq<Entry>, payload: Bytes)

  datatype Failure = NotAModel | BadHeader | BadIndex | CountMismatch | NameTaken | SizeMismatch | TooLarge | BadVersion

  function Size(shape: seq<nat>): nat {
    if shape == [] then 1 else Size(shape[..|shape| - 1]) * shape[|shape| - 1]
  }

  predicate Sized(t: Tensor) {
    |t.data| == 4 * Size(t.shape)
  }

  predicate AllSized(ts: seq<Tensor>) {
    forall i :: 0 <= i < |ts| ==> Sized(ts[i])
  }

  /** The keys of a dictionary. */
  predicate UniqueNames(ts: seq<Tensor>) {
    forall i, j :: 0 <= i < j < |ts| ==> ts[i].name != ts[j].name
  }

  predicate AllPlain(entries: seq<Entry>) {
    forall i :: 0 <= i < |entries| ==> Plain(entries[i].name)
  }

  // ---- The file format

  function Pack(f: File): Result<Bytes, Failure> {
    var index := EncodeText(Index(f.entries));
    if f.version >= LIMIT || |f.entries| >= LIMIT || |index| >= LIMIT then Err(TooLarge)
    else Ok(MAGIC + U32(f.version) + U32(|f.entries|) + U32(|index|) + index + [0x0A] + f.payload)
  }

  /** A read that meets the end of the file gives what there is. */
  function Upto(b: Bytes, from: nat, to: nat): Bytes
    requires from <= to
  {
    if from >= |b| then [] else if to >= |b| then b[from..] else b[from..to]
  }

  datatype Opened = Opened(version: nat, count: nat, entries: seq<Entry>, payload: Bytes)

  function Open(b: Bytes): Result<Opened, Failure> {
    if Upto(b, 0, 4) != MAGIC then Err(NotAModel)
    else if |b| < 16 then Err(BadHeader)
    else
      var size := ReadU32(b[12..]);
      var text := DecodeText(Upto(b, 16, 16 + size));
      if text.None? then Err(BadIndex)
      else
        var entries := ReadIndex(text.value);
        if entries.None? then Err(BadIndex)
        else Ok(Opened(ReadU32(b[4..]), ReadU32(b[8..]), entries.value, Upto(b, 17 + size, 17 + size + |b|)))
  }

  /** Shape and offset of every name. */
  type Names = map<Text, (seq<nat>, nat)>

  /** The name table that reading an index returns; a later entry of the same name wins. */
  function Table(entries: seq<Entry>): Names {
    if entries == [] then map[]
    else
      var last := entries[|entries| - 1];
      Table(entries[..|entries| - 1])[last.name := (last.shape, last.offset)]
  }

  function ReadTable(b: Bytes): Result<Names, Failure> {
    var x :- Open(b);
    if |Table(x.entries)| != x.count then Err(CountMismatch) else Ok(Table(x.entries))
  }

  function Load(b: Bytes): Result<File, Failure> {
    var x :- Open(b);
    if |x.entries| != x.count then Err(CountMismatch) else Ok(File(x.version, x.entries, x.payload))
  }

  // ---- Operations on files

  /** Tensors one after the other from `at` on. */
  function Layout(ts: seq<Tensor>, at: nat): (r: seq<Entry>)
    ensures |r| == |ts| && forall i :: 0 <= i < |ts| ==> r[i].name == ts[i].name && r[i].shape == ts[i].shape
    decreases |ts|
  {
    if ts == [] then []
    else
      var init, last := ts[..|ts| - 1], ts[|ts| - 1];
      Layout(init, at) + [Entry(last.name, last.shape, at + |Data(init)|)]
  }

  function Data(ts: seq<Tensor>): Bytes {
    if ts == [] then [] else Data(ts[..|ts| - 1]) + ts[|ts| - 1].data
  }

  function Write(ts: seq<Tensor>, version: nat): Result<Bytes, Failure> {
    if version != 2 && version != 3 then Err(BadVersion) else Pack(File(version, Layout(ts, 0), Data(ts)))
  }

  /** Where the last tensor of an index ends. */
  function End(entries: seq<Entry>): nat {
    if entries == [] then 0
    else
      var before, last := End(entries[..|entries| - 1]), entries[|entries| - 1];
      if last.offset + 4 * Size(last.shape) > before then last.offset + 4 * Size(last.shape) else before
  }

  predicate Named(ts: seq<Tensor>, name: Text) {
    exists i :: 0 <= i < |ts| && ts[i].name == name
  }

  function Appended(f: File, new_: seq<Tensor>): Result<File, Failure> {
    if exists i :: 0 <= i < |f.entries| && Named(new_, f.entries[i].name) then Err(NameTaken)
    else if End(f.entries) != |f.payload| then Err(SizeMismatch)
    else Ok(File(f.version + 1, f.entries + Layout(new_, End(f.entries)), f.payload + Data(new_)))
  }

  /** What an operation on files leaves behind, and what it returns: the index of the new file, read back from it. */
  datatype Saved = Saved(file: Option<Bytes>, table: Result<Names, Failure>)

  function Save(packed: Result<Bytes, Failure>): Saved {
    if packed.Err? then Saved(None, Err(packed.error)) else Saved(Some(packed.value), ReadTable(packed.value))
  }

  function AppendFile(base: Bytes, new_: seq<Tensor>): Result<Bytes, Failure> {
    var f :- Load(base);
    var g :- Appended(f, new_);
    Pack(g)
  }

  function Append(base: Bytes, new_: seq<Tensor>): Saved {
    Save(AppendFile(base, new_))
  }

  function Materialised(f: File): (r: seq<Tensor>)
    ensures |r| == |f.entries|
    ensures forall i :: 0 <= i < |r| ==> var e := f.entries[i];
              r[i] == Tensor(e.name, e.shape, Upto(f.payload, e.offset, e.offset + 4 * Size(e.shape)))
  {
    seq(|f.entries|, i requires 0 <= i < |f.entries| =>
      var e := f.entries[i]; Tensor(e.name, e.shape, Upto(f.payload, e.offset, e.offset + 4 * Size(e.shape))))
  }

  function LastNamed(ts: seq<Tensor>, name: Text): (r: Option<nat>)
    ensures r.Some? ==> r.value < |ts| && ts[r.value].name == name
    ensures r.None? <==> !Named(ts, name)
    ensures r.Some? ==> forall i :: r.value < i < |ts| ==> ts[i].name != name
  {
    if ts == [] then None
    else if ts[|ts| - 1].name == name then Some(|ts| - 1)
    else
      var r := LastNamed(ts[..|ts| - 1], name);
      assert Named(ts, name) ==> Named(ts[..|ts| - 1], name) by {
        if Named(ts, name) {
          var i :| 0 <= i < |ts| && ts[i].name == name;
          assert ts[..|ts| - 1][i].name == name;
        }
      }
      r
  }

  function ReplaceOne(ts: seq<Tensor>, t: Tensor): seq<Tensor> {
    var i := LastNamed(ts, t.name);
    if i.Some? then ts[i.value := t] else ts + [t]
  }

  function ReplaceAll(ts: seq<Tensor>, new_: seq<Tensor>): seq<Tensor> {
    if new_ == [] then ts else ReplaceOne(ReplaceAll(ts, new_[..|new_| - 1]), new_[|new_| - 1])
  }

  function Replaced(f: File, new_: seq<Tensor>, version: Option<nat>): File {
    var ts := ReplaceAll(Materialised(f), new_);
    File(if version.Some? then version.value else f.version, Layout(ts, 0), Data(ts))
  }

  function ReplaceFile(base: Bytes, new_: seq<Tensor>, version: Option<nat>): Result<Bytes, Failure> {
    var f :- Load(base);
    Pack(Replaced(f, new_, version))
  }

  function Replace(base: Bytes, new_: seq<Tensor>, version: Option<nat>): Saved {
    Save(ReplaceFile(base, new_, version))
  }

  // ---- Reading back what was written

  lemma HeaderParts(a: Bytes, b: Bytes, c: Bytes, d: Bytes, tail: Bytes)
    requires |a| == |b| == |c| == |d| == 4
    ensures var x := a + b + c + d + tail;
            && |x| == 16 + |tail| && x[..4] == a && x[4..] == b + x[8..] && x[8..] == c + x[12..]
            && x[12..] == d + x[16..] && x[16..] == tail
  {
    var x := a + b + c + d + tail;
    assert x[4..8] == b && x[8..12] == c && x[12..16] == d;
  }

  lemma TailParts(head: Bytes, index: Bytes, payload: Bytes)
    requires |head| == 16
    ensures var x := head + (index + [0x0A] + payload);
            Upto(x, 16, 16 + |index|) == index && Upto(x, 17 + |index|, 17 + |index| + |x|) == payload
  {
    var x := head + (index + [0x0A] + payload);
    assert x[16..16 + |index|] == index && x[17 + |index|..] == payload;
  }

  /** The parts that opening a packed file finds. */
  lemma PackedParts(f: File)
    requires Pack(f).Ok?
    ensures var b := Pack(f).value;
            var index := EncodeText(Index(f.entries));
            && |b| >= 16 && Upto(b, 0, 4) == MAGIC
            && ReadU32(b[4..]) == f.version && ReadU32(b[8..]) == |f.entries| && ReadU32(b[12..]) == |index|
            && Upto(b, 16, 16 + |index|) == index && Upto(b, 17 + |index|, 17 + |index| + |b|) == f.payload
  {
    hide U32, ReadU32, Index, EncodeText;
    var b := Pack(f).value;
    var index := EncodeText(Index(f.entries));
    var v, c, n := U32(f.version), U32(|f.entries|), U32(|index|);
    var tail := index + [0x0A] + f.payload;
    assert b == MAGIC + v + c + n + tail;
    HeaderParts(MAGIC, v, c, n, tail);
    TailParts(MAGIC + v + c + n, index, f.payload);
    U32Read(f.version, b[8..]);
    U32Read(|f.entries|, b[12..]);
    U32Read(|index|, b[16..]);
  }

  // ---- Which files can be read

  /** Header, index and payload of a file: sixteen bytes, as many bytes of encoded text as the header says, one more byte,
      and the rest. */
  ghost predicate Reads(b: Bytes, version: nat, count: nat, entries: seq<Entry>, payload: Bytes) {
    && |b| >= 16 && b[..4] == [0x42, 0x4E, 0x4D, 0x57]
    && version == ReadU32(b[4..]) && count == ReadU32(b[8..])
    && var end := 16 + ReadU32(b[12..]);
       && payload == (if end + 1 < |b| then b[end + 1..] else [])
       && exists text: Text :: EncodeText(text) == b[16..if end < |b| then end else |b|] && ReadIndex(text) == Some(entries)
  }

  lemma OpenIff(b: Bytes, x: Opened)
    ensures Open(b) == Ok(x) <==> Reads(b, x.version, x.count, x.entries, x.payload)
  {
    hide EncodeText, ReadIndex, ReadU32, DecodeText;
    if |b| >= 16 {
      var size := ReadU32(b[12..]);
      var end := 16 + size;
      var index := b[16..if end < |b| then end else |b|];
      assert Upto(b, 16, end) == index && Upto(b, 0, 4) == b[..4];
      assert Upto(b, 17 + size, 17 + size + |b|) == if end + 1 < |b| then b[end + 1..] else [];
      hide Upto;
      ValidIffEncoded(index);
      forall text: Text | EncodeText(text) == index ensures DecodeText(index) == Some(text) {
        TextRoundTrip(text);
      }
    }
  }

  /** A file can be loaded exactly when it reads and its index has as many lines as the header says. */
  lemma LoadIff(b: Bytes, f: File)
    ensures Load(b) == Ok(f) <==> Reads(b, f.version, |f.entries|, f.entries, f.payload)
  {
    hide Open, Reads;
    OpenIff(b, Opened(f.version, |f.entries|, f.entries, f.payload));
  }

  /** Entry `i` is the last one with its name. */
  predicate LastOf(entries: seq<Entry>, i: nat) {
    i < |entries| && forall j :: i < j < |entries| ==> entries[j].name != entries[i].name
  }

  /** A name table gives shape and offset of the last entry with each name. */
  lemma {:induction false} TableOfLast(entries: seq<Entry>, i: nat)
    requires LastOf(entries, i)
    ensures Lists(Table(entries), entries[i])
    decreases |entries|
  {
    var n := |entries| - 1;
    var init := entries[..n];
    if i < n {
      assert forall j :: 0 <= j < n ==> init[j] == entries[j];
      TableOfLast(init, i);
      assert entries[n].name != entries[i].name;
    }
  }

  /** The index of a file can be read exactly when the file reads and has as many different names as the header says. */
  lemma ReadTableIff(b: Bytes, table: Names)
    ensures ReadTable(b) == Ok(table) <==>
            exists version, entries, payload :: Reads(b, version, |table|, entries, payload) && table == Table(entries)
  {
    hide Open, Reads, Table;
    var x := Open(b);
    if x.Ok? {
      OpenIff(b, x.value);
    }
    forall version, entries, payload | Reads(b, version, |table|, entries, payload)
      ensures x == Ok(Opened(version, |table|, entries, payload))
    {
      OpenIff(b, Opened(version, |table|, entries, payload));
    }
  }

  /** Three numbers of the header have 32 bits, and nothing else can keep a file from being packed. */
  predicate Packable(f: File) {
    f.version < 0x1_0000_0000 && |f.entries| < 0x1_0000_0000 && |EncodeText(Index(f.entries))| < 0x1_0000_0000
  }

  /** A file is packed exactly then, into a header of sixteen bytes, the index, a line feed and the payload. */
  lemma PackIff(f: File)
    ensures Pack(f).Ok? <==> Packable(f)
    ensures Pack(f).Ok? ==>
              var b, n := Pack(f).value, |EncodeText(Index(f.entries))|;
              && |b| == 17 + n + |f.payload|
              && b[..4] == [0x42, 0x4E, 0x4D, 0x57] && ReadU32(b[4..]) == f.version && ReadU32(b[8..]) == |f.entries|
              && ReadU32(b[12..]) == n && b[16..16 + n] == EncodeText(Index(f.entries)) && b[16 + n] == 0x0A
              && b[17 + n..] == f.payload
  {
    hide Index, EncodeText, U32, ReadU32, Upto;
    if Pack(f).Ok? {
      PackedParts(f);
      var index := EncodeText(Index(f.entries));
      var head := MAGIC + U32(f.version) + U32(|f.entries|) + U32(|index|);
      assert Pack(f).value == head + (index + [0x0A] + f.payload);
      SplitTail(head, index, f.payload);
      assert head[..4] == MAGIC;
    }
  }

  lemma SplitTail(head: Bytes, index: Bytes, payload: Bytes)
    requires |head| == 16
    ensures var x := head + (index + [0x0A] + payload);
            && |x| == 17 + |index| + |payload| && x[..4] == head[..4] && x[16..16 + |index|] == index
            && x[16 + |index|] == 0x0A && x[17 + |index|..] == payload
  {
  }

  lemma PacksIff(f: File)
    ensures Pack(f).Ok? <==> Packable(f)
  {
    PackIff(f);
  }

  /** Writing succeeds exactly for versions 2 and 3 of a file that can be packed. */
  lemma WriteIff(ts: seq<Tensor>, version: nat)
    ensures Write(ts, version).Ok? <==>
            version in {2, 3} && |ts| < 0x1_0000_0000 && |EncodeText(Index(Layout(ts, 0)))| < 0x1_0000_0000
  {
    hide Index, EncodeText, Layout, Data;
    PacksIff(File(version, Layout(ts, 0), Data(ts)));
  }

  /** An append writes a file exactly when the base can be loaded, has none of the new names, ends where its payload does,
      and the longer file can be packed. */
  lemma AppendIff(base: Bytes, new_: seq<Tensor>)
    ensures Append(base, new_).file.Some? <==>
            && Load(base).Ok?
            && var f := Load(base).value;
               && (forall i, k :: 0 <= i < |f.entries| && 0 <= k < |new_| ==> f.entries[i].name != new_[k].name)
               && End(f.entries) == |f.payload|
               && Packable(File(f.version + 1, f.entries + Layout(new_, End(f.entries)), f.payload + Data(new_)))
  {
    hide Load, Pack, Packable, Layout, Data, End, ReadTable, Appended;
    if Load(base).Ok? {
      var f := Load(base).value;
      AppendedIff(f, new_);
      PacksIff(File(f.version + 1, f.entries + Layout(new_, End(f.entries)), f.payload + Data(new_)));
    }
  }

  lemma AppendedIff(f: File, new_: seq<Tensor>)
    ensures Appended(f, new_).Ok? <==>
            && (forall i, k :: 0 <= i < |f.entries| && 0 <= k < |new_| ==> f.entries[i].name != new_[k].name)
            && End(f.entries) == |f.payload|
    ensures Appended(f, new_).Ok? ==>
              Appended(f, new_).value
              == File(f.version + 1, f.entries + Layout(new_, End(f.entries)), f.payload + Data(new_))
  {
    hide Layout, Data, End;
  }

  /** A replacement writes a file exactly when the base can be loaded and the new file packed. */
  lemma ReplaceIff(base: Bytes, new_: seq<Tensor>, version: Option<nat>)
    ensures Replace(base, new_, version).file.Some? <==> Load(base).Ok? && Packable(Replaced(Load(base).value, new_, version))
  {
    hide Load, Pack, Packable, Replaced, ReadTable;
    if Load(base).Ok? {
      PacksIff(Replaced(Load(base).value, new_, version));
    }
  }

  /** A packed file opens to what was packed, unless a name holds U+0085, U+2028 or U+2029: then it cannot be read. */
  lemma OpenPacked(f: File)
    requires Pack(f).Ok?
    ensures Open(Pack(f).value) ==
            if AllPlain(f.entries) then Ok(Opened(f.version, |f.entries|, f.entries, f.payload)) else Err(BadIndex)
  {
    hide Pack, Open, Index, ReadIndex, EncodeText, DecodeText, U32, ReadU32, Upto, Plain;
    PackedParts(f);
    TextRoundTrip(Index(f.entries));
    IndexRoundTrip(f.entries);
    OpenParts(Pack(f).value, Index(f.entries), f.payload);
  }

  lemma OpenParts(b: Bytes, text: Text, payload: Bytes)
    requires |b| >= 16 && Upto(b, 0, 4) == MAGIC && DecodeText(EncodeText(text)) == Some(text)
    requires var n := |EncodeText(text)|;
             ReadU32(b[12..]) == n && Upto(b, 16, 16 + n) == EncodeText(text) && Upto(b, 17 + n, 17 + n + |b|) == payload
    ensures Open(b) == if ReadIndex(text).None? then Err(BadIndex)
                       else Ok(Opened(ReadU32(b[4..]), ReadU32(b[8..]), ReadIndex(text).value, payload))
  {
    hide ReadIndex, EncodeText, DecodeText, ReadU32, Upto;
  }

  lemma {:induction false} TableKeys(entries: seq<Entry>, name: Text)
    ensures name in Table(entries) <==> exists i :: 0 <= i < |entries| && entries[i].name == name
    decreases |entries|
  {
    if entries != [] {
      var n := |entries| - 1;
      TableKeys(entries[..n], name);
      if i :| 0 <= i < |entries| && entries[i].name == name {
        if i < n {
          assert entries[..n][i].name == name;
        }
      }
    }
  }

  predicate Lists(table: Names, e: Entry) {
    e.name in table && table[e.name] == (e.shape, e.offset)
  }

  predicate Distinct(entries: seq<Entry>) {
    forall i, j :: 0 <= i < j < |entries| ==> entries[i].name != entries[j].name
  }

  lemma {:induction false} TableOfDistinct(entries: seq<Entry>)
    requires Distinct(entries)
    ensures forall i :: 0 <= i < |entries| ==> Lists(Table(entries), entries[i])
    decreases |entries|
  {
    if entries != [] {
      var n := |entries| - 1;
      TableOfDistinct(entries[..n]);
      TableKeys(entries[..n], entries[n].name);
      assert forall i :: 0 <= i < n ==> entries[i] == entries[..n][i];
    }
  }

  /** The table is as long as the index exactly when no name comes twice. */
  lemma {:induction false} TableCounts(entries: seq<Entry>)
    ensures |Table(entries)| <= |entries|
    ensures |Table(entries)| == |entries| <==> Distinct(entries)
    decreases |entries|
  {
    if entries != [] {
      var n := |entries| - 1;
      var init, name := entries[..n], entries[n].name;
      TableCounts(init);
      TableKeys(init, name);
      assert forall i :: 0 <= i < n ==> entries[i] == init[i];
      if name in Table(init) {
        var i :| 0 <= i < n && init[i].name == name;
        assert entries[i].name == entries[n].name;
      } else {
        assert Distinct(init) ==> Distinct(entries);
        assert Distinct(entries) ==> Distinct(init);
      }
    }
  }

  lemma LayoutSnoc(ts: seq<Tensor>, at: nat)
    requires ts != []
    ensures var init, last := ts[..|ts| - 1], ts[|ts| - 1];
            && Layout(ts, at) == Layout(init, at) + [Entry(last.name, last.shape, at + |Data(init)|)]
            && Data(ts) == Data(init) + last.data
  {
  }

  /** Tensor `i` of a layout, in the payload it was laid out for. */
  lemma {:induction false} LayoutSlice(ts: seq<Tensor>, at: nat, i: nat)
    requires i < |ts|
    ensures var e := Layout(ts, at)[i];
            && e.offset == at + |Data(ts[..i])|
            && |Data(ts[..i])| + |ts[i].data| <= |Data(ts)|
            && Data(ts)[|Data(ts[..i])|..|Data(ts[..i])| + |ts[i].data|] == ts[i].data
    decreases |ts|
  {
    hide Layout, Data;
    var n := |ts| - 1;
    LayoutSnoc(ts, at);
    if i < n {
      LayoutSlice(ts[..n], at, i);
      assert ts[..n][..i] == ts[..i];
      var from, to := |Data(ts[..i])|, |Data(ts[..i])| + |ts[i].data|;
      assert (Data(ts[..n]) + ts[n].data)[from..to] == Data(ts[..n])[from..to];
    }
  }

  lemma {:induction false} LayoutOrder(ts: seq<Tensor>, at: nat, i: nat, j: nat)
    requires i < j < |ts|
    ensures Layout(ts, at)[i].offset + |ts[i].data| <= Layout(ts, at)[j].offset
    decreases |ts|
  {
    var n := |ts| - 1;
    LayoutSlice(ts, at, i);
    LayoutSlice(ts, at, j);
    assert ts[..j][..i] == ts[..i];
    LayoutSlice(ts[..j], at, i);
  }

  /** The table gives every tensor's name, its shape, and the place of its bytes in the payload. */
  predicate Recovers(table: Names, payload: Bytes, ts: seq<Tensor>) {
    |table| == |ts| && forall i :: 0 <= i < |ts| ==> RecoversOne(table, payload, ts[i])
  }

  predicate RecoversOne(table: Names, payload: Bytes, t: Tensor) {
    && t.name in table && table[t.name].0 == t.shape
    && Upto(payload, table[t.name].1, table[t.name].1 + |t.data|) == t.data
  }

  lemma LayoutRecovers(ts: seq<Tensor>)
    requires UniqueNames(ts)
    ensures Recovers(Table(Layout(ts, 0)), Data(ts), ts)
  {
    LayoutTable(ts);
    hide Table, Layout, Data, RecoversOne, UniqueNames;
    forall i | 0 <= i < |ts| ensures RecoversOne(Table(Layout(ts, 0)), Data(ts), ts[i]) {
      RecoversAt(ts, i);
    }
  }

  lemma LayoutTable(ts: seq<Tensor>)
    requires UniqueNames(ts)
    ensures |Table(Layout(ts, 0))| == |ts|
    ensures forall i :: 0 <= i < |ts| ==> Lists(Table(Layout(ts, 0)), Layout(ts, 0)[i])
  {
    var entries := Layout(ts, 0);
    hide Layout, Table;
    forall i, j | 0 <= i < j < |entries| ensures entries[i].name != entries[j].name {
      assert ts[i].name != ts[j].name;
    }
    TableOfDistinct(entries);
    TableCounts(entries);
  }

  lemma RecoversAt(ts: seq<Tensor>, i: nat)
    requires UniqueNames(ts) && i < |ts|
    ensures RecoversOne(Table(Layout(ts, 0)), Data(ts), ts[i])
  {
    hide *;
    LayoutTable(ts);
    LayoutUpto(ts, i);
    var entries := Layout(ts, 0);
    assert Lists(Table(entries), entries[i]);
    RecoversListed(Table(entries), Data(ts), ts[i], entries[i]);
  }

  lemma RecoversListed(table: Names, payload: Bytes, t: Tensor, e: Entry)
    requires Lists(table, e) && e.name == t.name && e.shape == t.shape
    requires Upto(payload, e.offset, e.offset + |t.data|) == t.data
    ensures RecoversOne(table, payload, t)
  {
    hide Upto;
  }

  lemma {:induction false} LayoutUpto(ts: seq<Tensor>, i: nat)
    requires i < |ts|
    ensures var e := Layout(ts, 0)[i];
            e.name == ts[i].name && e.shape == ts[i].shape && Upto(Data(ts), e.offset, e.offset + |ts[i].data|) == ts[i].data
  {
    hide Layout, Data;
    LayoutSlice(ts, 0, i);
  }

  /** What a written file says: every name, shape and payload, when no name breaks a line; nothing otherwise. */
  lemma WriteThenRead(ts: seq<Tensor>, version: nat)
    requires UniqueNames(ts) && Write(ts, version).Ok?
    ensures var b := Write(ts, version).value;
            && (ReadTable(b).Ok? <==> AllPlain(Layout(ts, 0)))
            && (ReadTable(b).Ok? ==> Open(b).Ok? && Recovers(ReadTable(b).value, Open(b).value.payload, ts))
  {
    OpenPacked(File(version, Layout(ts, 0), Data(ts)));
    LayoutRecovers(ts);
    hide Pack, Open, AllPlain, Table, Layout, Data, RecoversOne;
  }

  // ---- Appending

  lemma {:induction false} EndBounds(entries: seq<Entry>, i: nat)
    requires i < |entries|
    ensures entries[i].offset + 4 * Size(entries[i].shape) <= End(entries)
    decreases |entries|
  {
    if i < |entries| - 1 {
      EndBounds(entries[..|entries| - 1], i);
    }
  }

  lemma EndSnoc(entries: seq<Entry>, e: Entry)
    ensures End(entries + [e]) ==
            if e.offset + 4 * Size(e.shape) > End(entries) then e.offset + 4 * Size(e.shape) else End(entries)
  {
    assert (entries + [e])[..|entries|] == entries;
    hide Size;
  }

  lemma {:induction false} EndOfLayout(entries: seq<Entry>, ts: seq<Tensor>)
    requires AllSized(ts)
    ensures End(entries + Layout(ts, End(entries))) == End(entries) + |Data(ts)|
    decreases |ts|
  {
    var at := End(entries);
    if ts == [] {
      assert entries + Layout(ts, at) == entries;
    } else {
      var n := |ts| - 1;
      LayoutSnoc(ts, at);
      hide Layout, Data, End, Size;
      EndOfLayout(entries, ts[..n]);
      var e := Entry(ts[n].name, ts[n].shape, at + |Data(ts[..n])|);
      assert entries + Layout(ts, at) == entries + Layout(ts[..n], at) + [e];
      EndSnoc(entries + Layout(ts[..n], at), e);
      assert Sized(ts[n]);
    }
  }

  /** The bytes an entry stands for. */
  function Slice(f: File, i: nat): Bytes
    requires i < |f.entries|
  {
    var e := f.entries[i];
    Upto(f.payload, e.offset, e.offset + 4 * Size(e.shape))
  }

  /** Entry `i` of `g` is tensor `t`, stored behind the first `floor` bytes. */
  predicate Holds(g: File, i: nat, t: Tensor, floor: nat)
    requires i < |g.entries|
  {
    var e := g.entries[i];
    e.name == t.name && e.shape == t.shape && e.offset >= floor && Slice(g, i) == t.data
  }

  predicate Before(a: Entry, b: Entry) {
    a.offset + 4 * Size(a.shape) <= b.offset
  }

  /** Every entry of `f` is in `g`, at the same offset with the same, complete, bytes. */
  predicate KeepsBase(f: File, g: File) {
    && f.entries <= g.entries && f.payload <= g.payload
    && forall i :: 0 <= i < |f.entries| ==> Slice(g, i) == Slice(f, i) && |Slice(f, i)| == 4 * Size(f.entries[i].shape)
  }

  predicate HoldsAll(g: File, from: nat, ts: seq<Tensor>, floor: nat) {
    |g.entries| == from + |ts| && forall k :: 0 <= k < |ts| ==> Holds(g, from + k, ts[k], floor)
  }

  predicate Disjoint(entries: seq<Entry>, from: nat) {
    forall i, j :: from <= i < j < |entries| ==> Before(entries[i], entries[j])
  }

  /** Appending keeps every entry and every payload byte of the base where it was, places the new tensors one after the
      other behind them, and leaves a file that passes its own size check. */
  lemma AppendedFile(f: File, new_: seq<Tensor>)
    requires AllSized(new_) && Appended(f, new_).Ok?
    ensures var g := Appended(f, new_).value;
            && g.version == f.version + 1 && End(g.entries) == |g.payload|
            && KeepsBase(f, g) && HoldsAll(g, |f.entries|, new_, |f.payload|) && Disjoint(g.entries, |f.entries|)
  {
    var g := Appended(f, new_).value;
    AppendedShape(f, new_);
    KeptBase(f, new_);
    hide *;
    assert HoldsAll(g, |f.entries|, new_, |f.payload|) by {
      AllHold(f, new_);
    }
    assert Disjoint(g.entries, |f.entries|) by {
      AllDisjoint(f, new_);
    }
  }

  lemma AppendedShape(f: File, new_: seq<Tensor>)
    requires AllSized(new_) && Appended(f, new_).Ok?
    ensures var g := Appended(f, new_).value;
            g.version == f.version + 1 && End(g.entries) == |g.payload| && |g.entries| == |f.entries| + |new_|
  {
    EndOfLayout(f.entries, new_);
    hide End, Layout, Data;
  }

  lemma AllHold(f: File, new_: seq<Tensor>)
    requires AllSized(new_) && Appended(f, new_).Ok?
    ensures HoldsAll(Appended(f, new_).value, |f.entries|, new_, |f.payload|)
  {
    AppendedShape(f, new_);
    hide Appended, AllSized, Holds;
    forall k | 0 <= k < |new_| ensures Holds(Appended(f, new_).value, |f.entries| + k, new_[k], |f.payload|) {
      NewHolds(f, new_, k);
    }
  }

  lemma AllDisjoint(f: File, new_: seq<Tensor>)
    requires AllSized(new_) && Appended(f, new_).Ok?
    ensures Disjoint(Appended(f, new_).value.entries, |f.entries|)
  {
    AppendedShape(f, new_);
    hide Appended, AllSized, Before;
    var entries := Appended(f, new_).value.entries;
    forall i, j | |f.entries| <= i < j < |entries| ensures Before(entries[i], entries[j]) {
      NewBefore(f, new_, i - |f.entries|, j - |f.entries|);
    }
  }

  lemma KeptBase(f: File, new_: seq<Tensor>)
    requires Appended(f, new_).Ok?
    ensures KeepsBase(f, Appended(f, new_).value)
  {
    var g := Appended(f, new_).value;
    assert f.entries <= g.entries && f.payload <= g.payload && End(f.entries) == |f.payload|;
    hide Appended, End, Layout, Data, Slice, Size;
    forall i | 0 <= i < |f.entries| ensures Slice(g, i) == Slice(f, i) && |Slice(f, i)| == 4 * Size(f.entries[i].shape) {
      EndBounds(f.entries, i);
      BaseSlice(f, g, i);
    }
  }

  lemma NewHolds(f: File, new_: seq<Tensor>, k: nat)
    requires AllSized(new_) && Appended(f, new_).Ok? && k < |new_|
    ensures Holds(Appended(f, new_).value, |f.entries| + k, new_[k], |f.payload|)
  {
    var g := Appended(f, new_).value;
    var at := End(f.entries);
    hide End, Layout, Data, Size;
    LayoutSlice(new_, at, k);
    assert Sized(new_[k]);
    assert g.entries[|f.entries| + k] == Layout(new_, at)[k];
    NewSlice(f.payload, Data(new_), |Data(new_[..k])|, |new_[k].data|);
  }

  lemma NewBefore(f: File, new_: seq<Tensor>, i: nat, j: nat)
    requires AllSized(new_) && Appended(f, new_).Ok? && i < j < |new_|
    ensures var g := Appended(f, new_).value;
            Before(g.entries[|f.entries| + i], g.entries[|f.entries| + j])
  {
    var g := Appended(f, new_).value;
    var at := End(f.entries);
    hide End, Layout, Data, Size;
    LayoutOrder(new_, at, i, j);
    assert Sized(new_[i]);
    assert g.entries[|f.entries| + i] == Layout(new_, at)[i] && g.entries[|f.entries| + j] == Layout(new_, at)[j];
  }

  lemma BaseSlice(f: File, g: File, i: nat)
    requires i < |f.entries| && f.entries <= g.entries && f.payload <= g.payload
    requires f.entries[i].offset + 4 * Size(f.entries[i].shape) <= |f.payload|
    ensures Slice(g, i) == Slice(f, i) && |Slice(g, i)| == 4 * Size(f.entries[i].shape)
  {
    var e := f.entries[i];
    assert g.entries[i] == e;
    assert g.payload[..|f.payload|] == f.payload;
    hide Size;
    var to := e.offset + 4 * Size(e.shape);
    assert g.payload[e.offset..to] == g.payload[..|f.payload|][e.offset..to];
  }

  lemma NewSlice(a: Bytes, b: Bytes, at: nat, size: nat)
    requires at + size <= |b|
    ensures Upto(a + b, |a| + at, |a| + at + size) == b[at..at + size]
  {
  }

  /** Reading back a packed file succeeds exactly when all names are plain and none comes twice, and then lists every entry. */
  lemma PackThenRead(g: File)
    requires Pack(g).Ok?
    ensures var r := ReadTable(Pack(g).value);
            && r == (if !AllPlain(g.entries) then Err(BadIndex)
                     else if !Distinct(g.entries) then Err(CountMismatch) else Ok(Table(g.entries)))
            && (r.Ok? ==> |r.value| == |g.entries| && forall i :: 0 <= i < |g.entries| ==> Lists(r.value, g.entries[i]))
  {
    OpenPacked(g);
    TableCounts(g.entries);
    if Distinct(g.entries) {
      TableOfDistinct(g.entries);
    }
    hide Open, Pack, Table, AllPlain, Distinct, Lists;
  }

  predicate PlainNames(ts: seq<Tensor>) {
    forall i :: 0 <= i < |ts| ==> Plain(ts[i].name)
  }

  /** The names of an appended file: those of the base and the new ones, which are none of the base's. */
  lemma AppendedNames(f: File, new_: seq<Tensor>)
    requires UniqueNames(new_) && Appended(f, new_).Ok?
    ensures var entries := Appended(f, new_).value.entries;
            && (AllPlain(entries) <==> AllPlain(f.entries) && PlainNames(new_))
            && (Distinct(entries) <==> Distinct(f.entries))
  {
    hide *;
    AppendedEntries(f, new_);
    PlainJoined(f.entries, Layout(new_, End(f.entries)), new_);
    DistinctJoined(f.entries, Layout(new_, End(f.entries)), new_);
  }

  lemma AppendedEntries(f: File, new_: seq<Tensor>)
    requires Appended(f, new_).Ok?
    ensures Appended(f, new_).value.entries == f.entries + Layout(new_, End(f.entries))
    ensures forall i :: 0 <= i < |f.entries| ==> !Named(new_, f.entries[i].name)
  {
    hide Layout, Data, End, Named;
  }

  lemma PlainJoined(before: seq<Entry>, added: seq<Entry>, new_: seq<Tensor>)
    requires |added| == |new_| && forall k :: 0 <= k < |added| ==> added[k].name == new_[k].name
    ensures AllPlain(before + added) <==> AllPlain(before) && PlainNames(new_)
  {
    hide Plain;
    var entries, n := before + added, |before|;
    assert forall i :: 0 <= i < n ==> entries[i] == before[i];
    if AllPlain(entries) {
      forall k | 0 <= k < |new_| ensures Plain(new_[k].name) {
        assert Plain(entries[n + k].name);
      }
    }
  }

  lemma DistinctJoined(before: seq<Entry>, added: seq<Entry>, new_: seq<Tensor>)
    requires |added| == |new_| && UniqueNames(new_) && forall k :: 0 <= k < |added| ==> added[k].name == new_[k].name
    requires forall i :: 0 <= i < |before| ==> !Named(new_, before[i].name)
    ensures Distinct(before + added) <==> Distinct(before)
  {
    var entries, n := before + added, |before|;
    assert forall i :: 0 <= i < n ==> entries[i] == before[i];
    if Distinct(before) {
      forall i, j | 0 <= i < j < |entries| ensures entries[i].name != entries[j].name {
        if n <= j {
          assert entries[j].name == new_[j - n].name;
        }
      }
    }
  }

  /** A successful append returns an index exactly when the names of the base are plain and distinct and the new ones are
      plain. The index then lists every base tensor at its old offset and every new one, and the file, which keeps the
      base and holds the new tensors, can be appended to again. */
  lemma AppendThenRead(base: Bytes, new_: seq<Tensor>)
    requires AllSized(new_) && UniqueNames(new_) && Append(base, new_).file.Some?
    ensures Load(base).Ok? && Appended(Load(base).value, new_).Ok?
    ensures var f := Load(base).value;
            var g := Appended(f, new_).value;
            var r := Append(base, new_);
            && (r.table.Ok? <==> AllPlain(f.entries) && Distinct(f.entries) && PlainNames(new_))
            && (r.table.Ok? ==>
                  && |r.table.value| == |f.entries| + |new_| && KeepsBase(f, g)
                  && (forall i :: 0 <= i < |f.entries| ==> Lists(r.table.value, f.entries[i]))
                  && (forall k :: 0 <= k < |new_| ==> RecoversOne(r.table.value, g.payload, new_[k]))
                  && Load(r.file.value) == Ok(g) && forall more: seq<Tensor> :: Appended(g, more) != Err(SizeMismatch))
  {
    var f := Load(base).value;
    var g := Appended(f, new_).value;
    hide Load, Appended, ReadTable, Pack, AllPlain, PlainNames, Distinct, RecoversOne, KeepsBase, AllSized, UniqueNames;
    AppendedNames(f, new_);
    AppendedFile(f, new_);
    PackThenRead(g);
    if Append(base, new_).table.Ok? {
      LoadPacked(g);
      assert forall i :: 0 <= i < |f.entries| ==> g.entries[i] == f.entries[i] by {
        BaseEntriesKept(f, g);
      }
      NewRecovered(Append(base, new_).table.value, f, g, new_);
      forall more: seq<Tensor> ensures Appended(g, more) != Err(SizeMismatch) {
        SizeIsRight(g, more);
      }
    }
  }

  /** A base that lists one name twice loads and can be appended to, but the index of the file written cannot be read. */
  lemma DoubledNameIsNotRead()
    ensures var e := Entry([0x61], [1], 0);
            var g := Appended(File(2, [e, e], [1, 2, 3, 4]), []);
            && g == Ok(File(3, [e, e], [1, 2, 3, 4]))
            && (Pack(g.value).Ok? ==>
                  Load(Pack(g.value).value) == Ok(g.value) && ReadTable(Pack(g.value).value) == Err(CountMismatch))
  {
    var e := Entry([0x61], [1], 0);
    var g := File(3, [e, e], [1, 2, 3, 4]);
    hide Pack, Load, ReadTable, End, Appended;
    TwiceTheSame(e, [1, 2, 3, 4]);
    if Pack(g).Ok? {
      assert !Distinct(g.entries) by {
        assert g.entries[0].name == g.entries[1].name;
      }
      assert AllPlain(g.entries) by {
        assert forall i :: 0 <= i < |g.entries| ==> g.entries[i].name == [0x61];
      }
      hide AllPlain, Distinct;
      PackThenRead(g);
      LoadPacked(g);
    }
  }

  lemma TwiceTheSame(e: Entry, payload: Bytes)
    requires e.shape == [1] && e.offset == 0 && |payload| == 4
    ensures Appended(File(2, [e, e], payload), []) == Ok(File(3, [e, e], payload))
  {
    assert End([e, e]) == 4 by {
      assert [1][..0] == [] && Size([1]) == 1;
      hide Size;
      OneEnd(e);
      EndSnoc([e], e);
      assert [e] + [e] == [e, e];
    }
    hide End;
    assert [e, e] + [] == [e, e] && payload + [] == payload;
  }

  lemma BaseEntriesKept(f: File, g: File)
    requires KeepsBase(f, g)
    ensures |f.entries| <= |g.entries| && forall i :: 0 <= i < |f.entries| ==> g.entries[i] == f.entries[i]
  {
  }

  lemma NewRecovered(table: Names, f: File, g: File, new_: seq<Tensor>)
    requires AllSized(new_) && HoldsAll(g, |f.entries|, new_, |f.payload|)
    requires forall i :: 0 <= i < |g.entries| ==> Lists(table, g.entries[i])
    ensures forall k :: 0 <= k < |new_| ==> RecoversOne(table, g.payload, new_[k])
  {
    hide Size, Upto;
    forall k | 0 <= k < |new_| ensures RecoversOne(table, g.payload, new_[k]) {
      assert Holds(g, |f.entries| + k, new_[k], |f.payload|) && Sized(new_[k]);
      assert Lists(table, g.entries[|f.entries| + k]);
    }
  }

  lemma SizeIsRight(g: File, more: seq<Tensor>)
    requires End(g.entries) == |g.payload|
    ensures Appended(g, more) != Err(SizeMismatch)
  {
  }

  lemma LoadPacked(g: File)
    requires Pack(g).Ok?
    ensures Load(Pack(g).value) == if AllPlain(g.entries) then Ok(g) else Err(BadIndex)
  {
    OpenPacked(g);
    hide Open, Pack;
  }

  // ---- Replacing

  /** `r` is `ts` with tensors replaced in place by those of `new_` that have their names, and the others at the end. */
  predicate Updates(r: seq<Tensor>, ts: seq<Tensor>, new_: seq<Tensor>) {
    && UniqueNames(r) && |ts| <= |r|
    && (forall i :: 0 <= i < |ts| ==> r[i].name == ts[i].name)
    && (forall i :: 0 <= i < |ts| && !Named(new_, ts[i].name) ==> r[i] == ts[i])
    && (forall t :: t in new_ ==> t in r)
    && (forall i :: |ts| <= i < |r| ==> r[i] in new_)
  }

  lemma {:induction false} ReplaceAllUpdates(ts: seq<Tensor>, new_: seq<Tensor>)
    requires UniqueNames(ts) && UniqueNames(new_)
    ensures Updates(ReplaceAll(ts, new_), ts, new_)
    decreases |new_|
  {
    if new_ != [] {
      var n := |new_| - 1;
      hide Updates, ReplaceOne;
      ReplaceAllUpdates(ts, new_[..n]);
      assert new_ == new_[..n] + [new_[n]];
      ReplaceOneUpdates(ReplaceAll(ts, new_[..n]), ts, new_[..n], new_[n]);
    }
  }

  lemma ReplaceOneUpdates(r: seq<Tensor>, ts: seq<Tensor>, new_: seq<Tensor>, t: Tensor)
    requires Updates(r, ts, new_) && UniqueNames(new_ + [t])
    ensures Updates(ReplaceOne(r, t), ts, new_ + [t])
  {
    var more, next := new_ + [t], ReplaceOne(r, t);
    assert more[|new_|] == t;
    forall x | x in new_ ensures x.name != t.name && x in next {
      var i :| 0 <= i < |new_| && new_[i] == x;
      assert more[i] == x && more[|new_|] == t;
      var j :| 0 <= j < |r| && r[j] == x;
      assert next[j] == x;
    }
    var at := LastNamed(r, t.name);
    assert t in next by {
      assert if at.Some? then next[at.value] == t else next[|r|] == t;
    }
    forall i | 0 <= i < |ts| && !Named(more, ts[i].name) ensures next[i] == ts[i] {
      assert more[|new_|].name == t.name;
      NotNamedBefore(new_, t, ts[i].name);
    }
    forall i | |ts| <= i < |next| ensures next[i] in more {
      assert i < |r| ==> r[i] in new_;
    }
    assert UniqueNames(next);
  }

  lemma NotNamedBefore(new_: seq<Tensor>, t: Tensor, name: Text)
    requires !Named(new_ + [t], name)
    ensures !Named(new_, name) && t.name != name
  {
    assert forall i :: 0 <= i < |new_| ==> (new_ + [t])[i] == new_[i];
    assert (new_ + [t])[|new_|] == t;
  }

  /** The bytes of an entry are all there exactly when it lies inside the payload (or is empty). */
  lemma SliceIsComplete(f: File, i: nat)
    requires i < |f.entries|
    ensures var e := f.entries[i];
            |Slice(f, i)| == 4 * Size(e.shape) <==> Size(e.shape) == 0 || e.offset + 4 * Size(e.shape) <= |f.payload|
  {
    hide Size;
  }

  /** Tensor `t` is entry `i`, with exactly these bytes. */
  predicate Stores(g: File, i: nat, t: Tensor)
    requires i < |g.entries|
  {
    var e := g.entries[i];
    e.name == t.name && e.shape == t.shape && Upto(g.payload, e.offset, e.offset + |t.data|) == t.data
  }

  /** The file holds the tensors in order, packed without gaps. */
  predicate Packed(g: File, ts: seq<Tensor>) {
    && |g.entries| == |ts| && |g.payload| == |Data(ts)|
    && forall i :: 0 <= i < |ts| ==> Stores(g, i, ts[i]) && g.entries[i].offset == |Data(ts[..i])|
  }

  lemma {:induction false} LayoutStores(ts: seq<Tensor>, g: File, i: nat)
    requires i < |ts| && g.entries == Layout(ts, 0) && g.payload == Data(ts)
    ensures Stores(g, i, ts[i]) && g.entries[i].offset == |Data(ts[..i])|
  {
    hide Layout, Data;
    LayoutUpto(ts, i);
    LayoutSlice(ts, 0, i);
  }

  lemma {:induction false} LayoutIsPacked(ts: seq<Tensor>, g: File)
    requires g.entries == Layout(ts, 0) && g.payload == Data(ts)
    ensures Packed(g, ts)
  {
    hide Layout, Data, Stores;
    forall i | 0 <= i < |ts| ensures Stores(g, i, ts[i]) && g.entries[i].offset == |Data(ts[..i])| {
      LayoutStores(ts, g, i);
    }
  }

  lemma LayoutEnds(ts: seq<Tensor>)
    requires AllSized(ts)
    ensures End(Layout(ts, 0)) == |Data(ts)|
  {
    EndOfLayout([], ts);
    EndOfNone();
    hide End, Layout, Data;
    assert [] + Layout(ts, 0) == Layout(ts, 0);
  }

  /** A replaced file holds, packed without gaps, every tensor of the base that is not replaced, byte for byte and in its
      old place in the index, and every new one. */
  lemma ReplacedFile(f: File, new_: seq<Tensor>, version: Option<nat>)
    requires UniqueNames(Materialised(f)) && UniqueNames(new_)
    ensures var g := Replaced(f, new_, version);
            var ts := ReplaceAll(Materialised(f), new_);
            && g.version == (if version.Some? then version.value else f.version)
            && Updates(ts, Materialised(f), new_) && Packed(g, ts)
            && (AllSized(ts) ==> End(g.entries) == |g.payload|)
  {
    var ts := ReplaceAll(Materialised(f), new_);
    ReplaceAllUpdates(Materialised(f), new_);
    hide ReplaceAll, Updates, Layout, Data, End, Materialised, UniqueNames, Packed, AllSized;
    LayoutIsPacked(ts, Replaced(f, new_, version));
    if AllSized(ts) {
      LayoutEnds(ts);
    }
  }

  lemma EndOfNone()
    ensures End([]) == 0
  {
  }

  lemma {:induction false} ReplaceAllKeepsNames(ts: seq<Tensor>, new_: seq<Tensor>)
    ensures var r := ReplaceAll(ts, new_);
            |ts| <= |r| && forall i :: 0 <= i < |ts| ==> r[i].name == ts[i].name
    decreases |new_|
  {
    if new_ != [] {
      ReplaceAllKeepsNames(ts, new_[..|new_| - 1]);
    }
  }

  /** The names of a replaced file are plain and distinct exactly when those of the base are and the new ones are plain. */
  lemma ReplacedNames(f: File, new_: seq<Tensor>, version: Option<nat>)
    requires UniqueNames(new_)
    ensures var entries := Replaced(f, new_, version).entries;
            AllPlain(entries) && Distinct(entries) <==> AllPlain(f.entries) && Distinct(f.entries) && PlainNames(new_)
  {
    hide *;
    var ts := ReplaceAll(Materialised(f), new_);
    var entries := Replaced(f, new_, version).entries;
    ReplacedEntries(f, new_, version);
    SameNames(entries, ts);
    SameNames(f.entries, Materialised(f));
    ReplaceAllKeepsNames(Materialised(f), new_);
    if UniqueNames(Materialised(f)) {
      ReplaceAllUpdates(Materialised(f), new_);
      UpdatedNames(ts, Materialised(f), new_);
    } else {
      StaysDoubled(ts, Materialised(f));
    }
  }

  lemma ReplacedEntries(f: File, new_: seq<Tensor>, version: Option<nat>)
    ensures var ts := ReplaceAll(Materialised(f), new_);
            var entries := Replaced(f, new_, version).entries;
            |entries| == |ts| && forall i :: 0 <= i < |ts| ==> entries[i].name == ts[i].name
  {
    hide ReplaceAll, Layout, Data;
  }

  lemma SameNames(entries: seq<Entry>, ts: seq<Tensor>)
    requires |entries| == |ts| && forall i :: 0 <= i < |ts| ==> entries[i].name == ts[i].name
    ensures (AllPlain(entries) <==> PlainNames(ts)) && (Distinct(entries) <==> UniqueNames(ts))
  {
    hide Plain;
  }

  lemma StaysDoubled(r: seq<Tensor>, ts: seq<Tensor>)
    requires |ts| <= |r| && forall i :: 0 <= i < |ts| ==> r[i].name == ts[i].name
    ensures UniqueNames(r) ==> UniqueNames(ts)
  {
  }

  lemma UpdatedNames(r: seq<Tensor>, ts: seq<Tensor>, new_: seq<Tensor>)
    requires Updates(r, ts, new_)
    ensures UniqueNames(r)
    ensures PlainNames(r) <==> PlainNames(ts) && PlainNames(new_)
  {
    hide Plain;
    if PlainNames(r) {
      forall i | 0 <= i < |new_| ensures Plain(new_[i].name) {
        assert new_[i] in new_;
      }
      assert forall i :: 0 <= i < |ts| ==> Plain(r[i].name);
    }
  }

  /** A replacement that writes a file returns an index exactly when the names of the base are plain and distinct and the
      new ones are plain. The index then recovers, from a file without gaps, every tensor of the updated list. */
  lemma ReplaceThenRead(base: Bytes, new_: seq<Tensor>, version: Option<nat>)
    requires UniqueNames(new_) && Replace(base, new_, version).file.Some?
    ensures Load(base).Ok?
    ensures var f := Load(base).value;
            var g := Replaced(f, new_, version);
            var ts := ReplaceAll(Materialised(f), new_);
            var r := Replace(base, new_, version);
            && (r.table.Ok? <==> AllPlain(f.entries) && Distinct(f.entries) && PlainNames(new_))
            && (r.table.Ok? ==>
                  && Updates(ts, Materialised(f), new_) && Packed(g, ts) && Recovers(r.table.value, g.payload, ts)
                  && Load(r.file.value) == Ok(g))
  {
    var f := Load(base).value;
    var g := Replaced(f, new_, version);
    assert g.entries == Layout(ReplaceAll(Materialised(f), new_), 0);
    assert g.payload == Data(ReplaceAll(Materialised(f), new_));
    hide Load, Replaced, ReadTable, Pack, AllPlain, PlainNames, Recovers, Updates, Packed, ReplaceAll, Layout, Data, Table;
    ReplacedNames(f, new_, version);
    PackThenRead(g);
    if Replace(base, new_, version).table.Ok? {
      LoadPacked(g);
      DistinctNames(f);
      ReplacedFile(f, new_, version);
      UpdatesUnique(ReplaceAll(Materialised(f), new_), Materialised(f), new_);
      LayoutRecovers(ReplaceAll(Materialised(f), new_));
    }
  }

  lemma DistinctNames(f: File)
    requires Distinct(f.entries)
    ensures UniqueNames(Materialised(f))
  {
  }

  lemma UpdatesUnique(r: seq<Tensor>, ts: seq<Tensor>, new_: seq<Tensor>)
    requires Updates(r, ts, new_)
    ensures UniqueNames(r)
  {
  }

  /** A base whose one tensor claims eight bytes of a payload of four: its copy keeps the shape and four bytes, and nothing
      can be appended to the result. */
  lemma ReplacementCanCutShort()
    ensures var f := File(2, [Entry([0x61], [2], 0)], [1, 2, 3, 4]);
            var g := Replaced(f, [], None);
            && |Slice(f, 0)| == 4 < 4 * Size(f.entries[0].shape)
            && g.entries == f.entries && Slice(g, 0) == f.payload
            && Appended(g, []) == Err(SizeMismatch)
  {
    var e := Entry([0x61], [2], 0);
    var f := File(2, [e], [1, 2, 3, 4]);
    var t := Tensor([0x61], [2], [1, 2, 3, 4]);
    assert Size([2]) == 2 by {
      assert [2][..0] == [];
    }
    hide Size;
    assert Materialised(f) == [t];
    hide Upto, Materialised;
    OneTensor(t);
    assert Slice(f, 0) == t.data;
    hide Layout, Data, Slice;
    assert Replaced(f, [], None) == f;
    hide Replaced, ReplaceAll, Appended;
    OneEnd(e);
    NoAppendAfter(f);
  }

  lemma OneEnd(e: Entry)
    ensures End([e]) == e.offset + 4 * Size(e.shape)
  {
    hide Size;
    assert [e][..0] == [];
  }

  lemma NoAppendAfter(g: File)
    requires End(g.entries) != |g.payload|
    ensures Appended(g, []) == Err(SizeMismatch)
  {
    hide End;
  }

  lemma OneTensor(t: Tensor)
    ensures Layout([t], 0) == [Entry(t.name, t.shape, 0)] && Data([t]) == t.data
  {
    assert [t][..0] == [];
    assert [] + t.data == t.data;
  }

  // ---- The loops of the writers

  /** Advance a cursor over the tensors, giving each its entry and collecting the bytes. */
  method Place(ts: seq<Tensor>, at: nat) returns (entries: seq<Entry>, data: Bytes)
    ensures entries == Layout(ts, at) && data == Data(ts)
  {
    entries, data := [], [];
    var cursor := at;
    for i := 0 to |ts|
      invariant entries == Layout(ts[..i], at) && data == Data(ts[..i]) && cursor == at + |data|
    {
      LayoutSnoc(ts[..i + 1], at);
      assert ts[..i + 1][..i] == ts[..i];
      hide Layout, Data;
      entries := entries + [Entry(ts[i].name, ts[i].shape, cursor)];
      data := data + ts[i].data;
      cursor := cursor + |ts[i].data|;
    }
    assert ts[..|ts|] == ts;
  }

  method WriteModel(ts: seq<Tensor>, version: nat) returns (r: Result<Bytes, Failure>)
    ensures r == Write(ts, version)
  {
    if version != 2 && version != 3 {
      return Err(BadVersion);
    }
    var entries, data := Place(ts, 0);
    hide Pack;
    r := Pack(File(version, entries, data));
  }

  method BaseEnd(entries: seq<Entry>) returns (end: nat)
    ensures end == End(entries)
  {
    end := 0;
    for i := 0 to |entries|
      invariant end == End(entries[..i])
    {
      assert entries[..i + 1] == entries[..i] + [entries[i]];
      EndSnoc(entries[..i], entries[i]);
      hide End, Size;
      var floats := Size(entries[i].shape);
      end := if entries[i].offset + floats * 4 > end then entries[i].offset + floats * 4 else end;
    }
    assert entries[..|entries|] == entries;
  }

  method AppendTensors(base: Bytes, new_: seq<Tensor>) returns (r: Saved)
    ensures r == Append(base, new_)
  {
    hide Load, Pack, Layout, Data, End, ReadTable;
    var loaded := Load(base);
    if loaded.Err? {
      return Saved(None, Err(loaded.error));
    }
    var f := loaded.value;
    for i := 0 to |f.entries|
      invariant forall k :: 0 <= k < i ==> !Named(new_, f.entries[k].name)
    {
      if Named(new_, f.entries[i].name) {
        return Saved(None, Err(NameTaken));
      }
    }
    var end := BaseEnd(f.entries);
    if end != |f.payload| {
      return Saved(None, Err(SizeMismatch));
    }
    var entries, data := Place(new_, end);
    r := Save(Pack(File(f.version + 1, f.entries + entries, f.payload + data)));
  }

  method ReplaceTensors(base: Bytes, new_: seq<Tensor>, version: Option<nat>) returns (r: Saved)
    ensures r == Replace(base, new_, version)
  {
    hide Load, Pack, Layout, Data, Materialised, ReplaceOne, ReadTable;
    var loaded := Load(base);
    if loaded.Err? {
      return Saved(None, Err(loaded.error));
    }
    var f := loaded.value;
    var ts := Materialised(f);
    for i := 0 to |new_|
      invariant ts == ReplaceAll(Materialised(f), new_[..i])
    {
      assert new_[..i + 1][..i] == new_[..i];
      ts := ReplaceOne(ts, new_[i]);
    }
    assert new_[..|new_|] == new_;
    var entries, data := Place(ts, 0);
    r := Save(Pack(File(if version.Some? then version.value else f.version, entries, data)));
  }
}
