/** Dumping the storage to a byte stream and restoring it, byte by byte. */
module Serializer {
  import opened Bytes
  import opened Entries

  const MAGIC: seq<Byte> := [84, 72, 82, 84]
  const VERSION: Byte := 1

  // The storage, in its iteration order; a restored key can be up to 65535 bytes long.
  datatype Item = Item(key: seq<Byte>, entry: Entry)

  type Storage = map<seq<Byte>, Entry>

  datatype Value = CounterValue(n: nat) | RawValue(bytes: seq<Byte>) | NoValue

  // What one record of a dump says.
  datatype Record = Record(
    key: seq<Byte>, expiresAt: nat, typeCode: Byte, ttlCode: Byte, metrics: seq<nat>, value: Value)

  // ----- The format

  function MetricsOf(m: Metrics): (r: seq<nat>)
    ensures |r| == 6
  {
    [m.readCount, m.writeCount, m.readsAccumulator, m.writesAccumulator, m.readsPerMinute, m.writesPerMinute]
  }

  function WordBytes(ws: seq<nat>): seq<Byte> {
    if ws == [] then [] else EncodeLE(ws[0], 8) + WordBytes(ws[1..])
  }

  function ValueBytes(v: Width, value: Value): seq<Byte> {
    match value
    case CounterValue(n) => EncodeLE(n, v)
    case RawValue(b) => EncodeLE(|b|, v) + b
    case NoValue => []
  }

  function RecordBytes(v: Width, r: Record): seq<Byte> {
    EncodeLE(|r.key|, 2) + (r.key + (EncodeLE(r.expiresAt, 8) + ([r.typeCode] + ([r.ttlCode]
    + (WordBytes(r.metrics) + ValueBytes(v, r.value))))))
  }

  function ValueOf(e: Entry): Value {
    match e.kind
    case Counter => CounterValue(e.counter)
    case Raw => RawValue(e.buffer)
    case OtherType(_) => NoValue
  }

  function RecordOf(p: Protocol, it: Item): Record
    requires p.Valid()
  {
    var e := it.entry;
    Record(it.key, e.expiresAt, TypeCode(p, e.kind), TtlCode(p, e.ttlType), MetricsOf(e.metrics), ValueOf(e))
  }

  function Live(items: seq<Item>): seq<Item> {
    if items == [] then []
    else (if items[0].entry.expired then [] else [items[0]]) + Live(items[1..])
  }

  function RecordsOf(p: Protocol, items: seq<Item>): seq<Record>
    requires p.Valid()
  {
    if items == [] then [] else [RecordOf(p, items[0])] + RecordsOf(p, items[1..])
  }

  function Body(v: Width, rs: seq<Record>): seq<Byte> {
    if rs == [] then [] else RecordBytes(v, rs[0]) + Body(v, rs[1..])
  }

  function Dumped(p: Protocol, v: Width, items: seq<Item>): seq<Byte>
    requires p.Valid()
  {
    MAGIC + ([VERSION] + ([v] + (EncodeLE(|Live(items)|, 4) + Body(v, RecordsOf(p, Live(items))))))
  }

  // ----- Writing

  class OutStream {
    var bytes: seq<Byte>

    constructor ()
      ensures bytes == []
    {
      bytes := [];
    }

    method Put(b: Byte)
      modifies this
      ensures bytes == old(bytes) + [b]
    {
      bytes := bytes + [b];
    }

    method WriteBytes(buffer: seq<Byte>)
      modifies this
      ensures bytes == old(bytes) + buffer
    {
      for i := 0 to |buffer|
        invariant bytes == old(bytes) + buffer[..i]
      {
        Put(buffer[i]);
        Assoc(old(bytes), buffer[..i], [buffer[i]]);
        assert buffer[..i] + [buffer[i]] == buffer[..i + 1];
      }
      assert buffer[..|buffer|] == buffer;
    }

    // write_raw of a number of `width` bytes
    method WriteRaw(value: nat, width: nat)
      modifies this
      ensures bytes == old(bytes) + EncodeLE(value, width)
    {
      WriteBytes(EncodeLE(value, width));
    }
  }

  lemma WordBytesHead(ws: seq<nat>, i: nat)
    requires i < |ws|
    ensures WordBytes(ws[i..]) == EncodeLE(ws[i], 8) + WordBytes(ws[i + 1..])
  {
  }

  lemma RecordInSteps(out: seq<Byte>, v: Width, r: Record)
    ensures out + EncodeLE(|r.key|, 2) + r.key + EncodeLE(r.expiresAt, 8) + [r.typeCode] + [r.ttlCode]
            + WordBytes(r.metrics) + ValueBytes(v, r.value)
         == out + RecordBytes(v, r)
  {
  }

  lemma WordsInSteps(out: seq<Byte>, ws: seq<nat>)
    requires |ws| == 6
    ensures out + EncodeLE(ws[0], 8) + EncodeLE(ws[1], 8) + EncodeLE(ws[2], 8) + EncodeLE(ws[3], 8)
            + EncodeLE(ws[4], 8) + EncodeLE(ws[5], 8)
         == out + WordBytes(ws)
  {
    hide EncodeLE, WordBytes;
    var a, b, c, d, e, f := EncodeLE(ws[0], 8), EncodeLE(ws[1], 8), EncodeLE(ws[2], 8),
                            EncodeLE(ws[3], 8), EncodeLE(ws[4], 8), EncodeLE(ws[5], 8);
    forall i: nat | i < 6 ensures WordBytes(ws[i..]) == EncodeLE(ws[i], 8) + WordBytes(ws[i + 1..]) {
      WordBytesHead(ws, i);
    }
    assert ws[0..] == ws && ws[6..] == [];
    WordBytesNone();
    assert f + [] == f;
    assert WordBytes(ws) == a + (b + (c + (d + (e + f))));
    Assoc(out + a + b + c + d, e, f);
    Assoc(out + a + b + c, d, e + f);
    Assoc(out + a + b, c, d + (e + f));
    Assoc(out + a, b, c + (d + (e + f)));
    Assoc(out, a, b + (c + (d + (e + f))));
  }

  lemma WordBytesNone()
    ensures WordBytes([]) == []
  {
  }

  method WriteRecord(out: OutStream, p: Protocol, v: Width, it: Item)
    requires p.Valid() && |it.key| < 0x1_0000
    modifies out
    ensures out.bytes == old(out.bytes) + RecordBytes(v, RecordOf(p, it))
  {
    hide EncodeLE, WordBytes, RecordBytes, ValueBytes, TypeCode, TtlCode;
    RecordInSteps(out.bytes, v, RecordOf(p, it));
    ghost var base := out.bytes;
    var e := it.entry;
    out.WriteRaw(|it.key|, 2);
    out.WriteBytes(it.key);
    out.WriteRaw(e.expiresAt, 8);
    out.Put(TypeCode(p, e.kind));
    out.Put(TtlCode(p, e.ttlType));
    WordsInSteps(out.bytes, MetricsOf(e.metrics));
    out.WriteRaw(e.metrics.readCount, 8);
    out.WriteRaw(e.metrics.writeCount, 8);
    out.WriteRaw(e.metrics.readsAccumulator, 8);
    out.WriteRaw(e.metrics.writesAccumulator, 8);
    out.WriteRaw(e.metrics.readsPerMinute, 8);
    out.WriteRaw(e.metrics.writesPerMinute, 8);
    WriteValue(out, v, e);
  }

  method WriteValue(out: OutStream, v: Width, e: Entry)
    modifies out
    ensures out.bytes == old(out.bytes) + ValueBytes(v, ValueOf(e))
  {
    if e.kind == Counter {
      out.WriteRaw(e.counter, v);
    } else if e.kind == Raw {
      out.WriteRaw(|e.buffer|, v);
      out.WriteBytes(e.buffer);
      Assoc(old(out.bytes), EncodeLE(|e.buffer|, v), e.buffer);
    } else {
      assert old(out.bytes) + [] == old(out.bytes);
    }
  }

  lemma LiveHead(items: seq<Item>, i: nat)
    requires i < |items|
    ensures Live(items[i..]) == (if items[i].entry.expired then [] else [items[i]]) + Live(items[i + 1..])
  {
  }

  lemma BodyHead(p: Protocol, v: Width, it: Item, rest: seq<Item>)
    requires p.Valid()
    ensures Body(v, RecordsOf(p, [it] + rest)) == RecordBytes(v, RecordOf(p, it)) + Body(v, RecordsOf(p, rest))
  {
  }

  lemma NothingToDump(p: Protocol, v: Width, items: seq<Item>)
    requires p.Valid()
    ensures Live(items[|items|..]) == []
    ensures Body(v, RecordsOf(p, Live(items[|items|..]))) == []
  {
  }

  // dump_to_file
  method Dump(items: seq<Item>, p: Protocol, v: Width) returns (out: OutStream)
    requires p.Valid() && forall it :: it in items ==> |it.key| < 0x1_0000
    ensures fresh(out) && out.bytes == Dumped(p, v, items)
  {
    hide Live, RecordsOf, RecordOf, Body, EncodeLE;
    out := new OutStream();
    out.WriteBytes(MAGIC);
    out.WriteRaw(VERSION, 1);
    out.WriteRaw(v, 1);
    var count := 0;
    assert items[0..] == items;
    for i := 0 to |items|
      invariant count + |Live(items[i..])| == |Live(items)|
      invariant out.bytes == [] + MAGIC + EncodeLE(VERSION, 1) + EncodeLE(v, 1)
    {
      LiveHead(items, i);
      if !items[i].entry.expired {
        count := count + 1;
      }
    }
    NothingToDump(p, v, items);
    out.WriteRaw(count, 4);
    ghost var head := out.bytes;
    ghost var done: seq<Byte> := [];
    ghost var all := Body(v, RecordsOf(p, Live(items)));
    for i := 0 to |items|
      invariant out.bytes == head + done
      invariant done + Body(v, RecordsOf(p, Live(items[i..]))) == all
    {
      LiveHead(items, i);
      if items[i].entry.expired {
        assert [] + Live(items[i + 1..]) == Live(items[i + 1..]);
        continue;
      }
      BodyHead(p, v, items[i], Live(items[i + 1..]));
      ghost var bytes := RecordBytes(v, RecordOf(p, items[i]));
      Assoc(done, bytes, Body(v, RecordsOf(p, Live(items[i + 1..]))));
      Assoc(head, done, bytes);
      WriteRecord(out, p, v, items[i]);
      done := done + bytes;
    }
    assert done + [] == done;
    HeaderInSteps(v, |Live(items)|, all);
  }

  lemma HeaderInSteps(v: Width, count: nat, body: seq<Byte>)
    ensures [] + MAGIC + EncodeLE(VERSION, 1) + EncodeLE(v, 1) + EncodeLE(count, 4) + body
         == MAGIC + ([VERSION] + ([v] + (EncodeLE(count, 4) + body)))
  {
  }

  // ----- Reading

  // std::generate over in.get(c): past the end of the stream the last byte read repeats.
  function Generate(rest: seq<Byte>, n: nat, last: Byte): (seq<Byte>, seq<Byte>) {
    if n == 0 then ([], rest)
    else
      var c := if rest == [] then last else rest[0];
      var (b, r) := Generate(if rest == [] then [] else rest[1..], n - 1, c);
      ([c] + b, r)
  }

  function GetRaw(rest: seq<Byte>, n: nat): (nat, seq<Byte>) {
    var (b, r) := Generate(rest, n, 0);
    (DecodeLE(b), r)
  }

  // read_bytes: past the end every byte is zero.
  function GetBytes(rest: seq<Byte>, n: nat): (seq<Byte>, seq<Byte>) {
    if n == 0 then ([], rest)
    else
      var (b, r) := GetBytes(if rest == [] then [] else rest[1..], n - 1);
      ([if rest == [] then 0 else rest[0]] + b, r)
  }

  function GetWords(rest: seq<Byte>, n: nat): (seq<nat>, seq<Byte>)
    decreases n
  {
    if n == 0 then ([], rest)
    else
      var (w, r) := GetRaw(rest, 8);
      var (ws, r') := GetWords(r, n - 1);
      ([w] + ws, r')
  }

  function GetByte(rest: seq<Byte>): (Byte, seq<Byte>) {
    if rest == [] then (0, []) else (rest[0], rest[1..])
  }

  function GetValue(p: Protocol, v: Width, typeCode: Byte, rest: seq<Byte>): (Value, seq<Byte>)
    requires p.Valid()
  {
    match TypeOf(p, typeCode)
    case Counter => var (n, r) := GetRaw(rest, v); (CounterValue(n), r)
    case Raw => var (n, r) := GetRaw(rest, v); var (b, r') := GetBytes(r, n); (RawValue(b), r')
    case OtherType(_) => (NoValue, rest)
  }

  function GetRecord(p: Protocol, v: Width, rest: seq<Byte>): (Record, seq<Byte>)
    requires p.Valid()
  {
    var (size, r0) := GetRaw(rest, 2);
    var (key, r1) := GetBytes(r0, size);
    var (expiresAt, r2) := GetRaw(r1, 8);
    var (typeCode, r3) := GetByte(r2);
    var (ttlCode, r4) := GetByte(r3);
    var (metrics, r5) := GetWords(r4, 6);
    var (value, r6) := GetValue(p, v, typeCode, r5);
    (Record(key, expiresAt, typeCode, ttlCode, metrics, value), r6)
  }

  function GetRecords(p: Protocol, v: Width, n: nat, rest: seq<Byte>): (seq<Record>, seq<Byte>)
    requires p.Valid()
  {
    if n == 0 then ([], rest)
    else
      var (r, rest1) := GetRecord(p, v, rest);
      var (rs, rest2) := GetRecords(p, v, n - 1, rest1);
      ([r] + rs, rest2)
  }

  // The entry a record leaves in the storage: made from a zeroed value, whatever the
  // record said about value and metrics.
  function Restored(p: Protocol, v: Width, r: Record): Entry
    requires p.Valid()
  {
    NewEntry(v, TypeOf(p, r.typeCode), seq(v, _ => 0), TtlOf(p, r.ttlCode), r.expiresAt % U64)
  }

  // emplace keeps what is there already.
  function Emplace(m: Storage, key: seq<Byte>, e: Entry): Storage {
    if key in m then m else m[key := e]
  }

  function EmplaceAll(p: Protocol, v: Width, m: Storage, rs: seq<Record>): Storage
    requires p.Valid()
    decreases |rs|
  {
    if rs == [] then m
    else EmplaceAll(p, v, Emplace(m, rs[0].key, Restored(p, v, rs[0])), rs[1..])
  }

  datatype Error = InvalidFormat | UnsupportedVersion | MismatchedValueSize

  datatype Outcome = Loaded(storage: Storage, left: seq<Byte>) | Refused(error: Error)

  // What restore_from_file makes of a file.
  function Loading(p: Protocol, v: Width, m: Storage, file: seq<Byte>): Outcome
    requires p.Valid()
  {
    if |file| < 4 || file[..4] != MAGIC then Refused(InvalidFormat)
    else
      var (version, r0) := GetByte(file[4..]);
      if version != VERSION then Refused(UnsupportedVersion)
      else
        var (width, r1) := GetByte(r0);
        if width != v then Refused(MismatchedValueSize)
        else
          var (count, r2) := GetRaw(r1, 4);
          var (rs, left) := GetRecords(p, v, count, r2);
          Loaded(EmplaceAll(p, v, m, rs), left)
  }

  class InStream {
    const data: seq<Byte>
    var pos: nat

    ghost predicate Valid()
      reads this
    {
      pos <= |data|
    }

    ghost function Rest(): seq<Byte>
      requires Valid()
      reads this
    {
      data[pos..]
    }

    constructor (file: seq<Byte>)
      ensures Valid() && data == file && Rest() == file
    {
      data, pos := file, 0;
    }

    // in.get(c): leaves c alone at the end of the stream.
    method Get(last: Byte) returns (c: Byte)
      requires Valid()
      modifies this
      ensures Valid()
      ensures old(Rest()) == [] ==> c == last && Rest() == []
      ensures old(Rest()) != [] ==> c == old(Rest())[0] && Rest() == old(Rest())[1..]
    {
      if pos == |data| {
        return last;
      }
      c := data[pos];
      pos := pos + 1;
    }

    method ReadRaw(n: nat) returns (value: nat)
      requires Valid()
      modifies this
      ensures Valid() && (value, Rest()) == GetRaw(old(Rest()), n)
    {
      var b: seq<Byte>, c: Byte := [], 0;
      ghost var all := Generate(Rest(), n, 0);
      for i := 0 to n
        invariant Valid()
        invariant var g := Generate(Rest(), n - i, c);
                  all.0 == b + g.0 && all.1 == g.1
      {
        ghost var g := Generate(Rest(), n - i, c);
        c := Get(c);
        Assoc(b, [c], Generate(Rest(), n - i - 1, c).0);
        b := b + [c];
      }
      assert b + [] == b;
      value := DecodeLE(b);
    }

    method ReadBytes(n: nat) returns (b: seq<Byte>)
      requires Valid()
      modifies this
      ensures Valid() && (b, Rest()) == GetBytes(old(Rest()), n)
    {
      b := [];
      ghost var all := GetBytes(Rest(), n);
      for i := 0 to n
        invariant Valid()
        invariant var g := GetBytes(Rest(), n - i);
                  all.0 == b + g.0 && all.1 == g.1
      {
        var c := Get(0);
        Assoc(b, [c], GetBytes(Rest(), n - i - 1).0);
        b := b + [c];
      }
      assert b + [] == b;
    }

    // read_raw of a single byte
    method ReadByte() returns (b: Byte)
      requires Valid()
      modifies this
      ensures Valid() && (b, Rest()) == GetByte(old(Rest()))
    {
      b := Get(0);
    }

    method ReadMetrics() returns (ws: seq<nat>)
      requires Valid()
      modifies this
      ensures Valid() && (ws, Rest()) == GetWords(old(Rest()), 6)
    {
      hide GetRaw;
      ws := [];
      ghost var all := GetWords(Rest(), 6);
      for i := 0 to 6
        invariant Valid()
        invariant var g := GetWords(Rest(), 6 - i);
                  all.0 == ws + g.0 && all.1 == g.1
      {
        var w := ReadRaw(8);
        Assoc(ws, [w], GetWords(Rest(), 6 - i - 1).0);
        ws := ws + [w];
      }
      assert ws + [] == ws;
    }

    method ReadRecord(p: Protocol, v: Width) returns (r: Record)
      requires Valid() && p.Valid()
      modifies this
      ensures Valid() && (r, Rest()) == GetRecord(p, v, old(Rest()))
    {
      hide GetRaw, GetBytes, GetWords, GetByte, TypeOf;
      var size := ReadRaw(2);
      var key := ReadBytes(size);
      var expiresAt := ReadRaw(8);
      var typeCode := ReadByte();
      var ttlCode := ReadByte();
      var metrics := ReadMetrics();
      var value := NoValue;
      match TypeOf(p, typeCode) {
        case Counter =>
          var n := ReadRaw(v);
          value := CounterValue(n);
        case Raw =>
          var n := ReadRaw(v);
          var b := ReadBytes(n);
          value := RawValue(b);
        case OtherType(_) =>
      }
      r := Record(key, expiresAt, typeCode, ttlCode, metrics, value);
    }
  }

  // The loop over the records.
  method RestoreRecords(input: InStream, m: Storage, count: nat, p: Protocol, v: Width) returns (storage: Storage)
    requires p.Valid() && input.Valid()
    modifies input
    ensures input.Valid()
    ensures var g := GetRecords(p, v, count, old(input.Rest()));
            storage == EmplaceAll(p, v, m, g.0) && input.Rest() == g.1
  {
    hide GetRaw, GetRecord, GetRecords, Restored, Emplace, EmplaceAll;
    storage := m;
    ghost var all := GetRecords(p, v, count, input.Rest());
    for i := 0 to count
      invariant input.Valid()
      invariant all.1 == GetRecords(p, v, count - i, input.Rest()).1
      invariant EmplaceAll(p, v, m, all.0) == EmplaceAll(p, v, storage, GetRecords(p, v, count - i, input.Rest()).0)
    {
      RecordsStep(p, v, count - i, input.Rest(), storage);
      var r := input.ReadRecord(p, v);
      storage := Emplace(storage, r.key, Restored(p, v, r));
    }
    NoRecords(p, v, input.Rest(), storage);
  }

  // restore_from_file
  method Restore(m: Storage, file: seq<Byte>, p: Protocol, v: Width) returns (outcome: Outcome)
    requires p.Valid()
    ensures outcome == Loading(p, v, m, file)
  {
    hide GetRaw, GetByte, GetRecords, EmplaceAll;
    var input := new InStream(file);
    if |file| < 4 || file[..4] != MAGIC {
      return Refused(InvalidFormat);
    }
    input.pos := 4;
    var version := input.ReadByte();
    if version != VERSION {
      return Refused(UnsupportedVersion);
    }
    var width := input.ReadByte();
    if width != v {
      return Refused(MismatchedValueSize);
    }
    var count := input.ReadRaw(4);
    var storage := RestoreRecords(input, m, count, p, v);
    outcome := Loaded(storage, input.data[input.pos..]);
  }

  lemma RecordsStep(p: Protocol, v: Width, n: nat, rest: seq<Byte>, m: Storage)
    requires p.Valid() && n > 0
    ensures var (r, rest1) := GetRecord(p, v, rest);
            var g, g1 := GetRecords(p, v, n, rest), GetRecords(p, v, n - 1, rest1);
            && g.1 == g1.1
            && EmplaceAll(p, v, m, g.0) == EmplaceAll(p, v, Emplace(m, r.key, Restored(p, v, r)), g1.0)
  {
    hide GetRecord, Restored, Emplace;
    var (r, rest1) := GetRecord(p, v, rest);
    var g1 := GetRecords(p, v, n - 1, rest1);
    assert ([r] + g1.0)[1..] == g1.0;
  }

  lemma NoRecords(p: Protocol, v: Width, rest: seq<Byte>, m: Storage)
    requires p.Valid()
    ensures GetRecords(p, v, 0, rest) == ([], rest)
    ensures EmplaceAll(p, v, m, []) == m
  {
  }

  // ----- Round trip

  lemma {:induction false} GenerateExact(a: seq<Byte>, tail: seq<Byte>, last: Byte)
    ensures Generate(a + tail, |a|, last) == (a, tail)
  {
    if a == [] {
      assert a + tail == tail;
    } else {
      assert (a + tail)[0] == a[0] && (a + tail)[1..] == a[1..] + tail;
      GenerateExact(a[1..], tail, a[0]);
      assert [a[0]] + a[1..] == a;
    }
  }

  lemma GetRawExact(n: nat, w: nat, tail: seq<Byte>)
    requires n < Pow256(w)
    ensures GetRaw(EncodeLE(n, w) + tail, w) == (n, tail)
  {
    GenerateExact(EncodeLE(n, w), tail, 0);
    DecodeEncodeLE(n, w);
  }

  lemma {:induction false} GetBytesExact(a: seq<Byte>, tail: seq<Byte>)
    ensures GetBytes(a + tail, |a|) == (a, tail)
  {
    if a == [] {
      assert a + tail == tail;
    } else {
      assert (a + tail)[0] == a[0] && (a + tail)[1..] == a[1..] + tail;
      GetBytesExact(a[1..], tail);
      assert [a[0]] + a[1..] == a;
    }
  }

  lemma {:induction false} GetWordsExact(ws: seq<nat>, tail: seq<Byte>)
    requires forall w :: w in ws ==> w < U64
    ensures GetWords(WordBytes(ws) + tail, |ws|) == (ws, tail)
  {
    if ws == [] {
      assert WordBytes(ws) + tail == tail;
    } else {
      hide EncodeLE, GetRaw;
      Pow256Values();
      assert ws[0] in ws;
      Assoc(EncodeLE(ws[0], 8), WordBytes(ws[1..]), tail);
      GetRawExact(ws[0], 8, WordBytes(ws[1..]) + tail);
      forall w | w in ws[1..] ensures w < U64 {
        assert w in ws;
      }
      GetWordsExact(ws[1..], tail);
      assert [ws[0]] + ws[1..] == ws;
    }
  }

  // Sizes and values that fit the fields carrying them.
  ghost predicate ValueFits(v: Width, value: Value) {
    match value
    case CounterValue(n) => n < Pow256(v)
    case RawValue(b) => |b| < Pow256(v)
    case NoValue => true
  }

  ghost predicate Fits(p: Protocol, v: Width, r: Record)
    requires p.Valid()
  {
    && |r.key| < 0x1_0000 && r.expiresAt < U64
    && |r.metrics| == 6 && (forall w :: w in r.metrics ==> w < U64)
    && ValueFits(v, r.value)
    && (TypeOf(p, r.typeCode) == Counter <==> r.value.CounterValue?)
    && (TypeOf(p, r.typeCode) == Raw <==> r.value.RawValue?)
  }

  lemma GetValueExact(p: Protocol, v: Width, r: Record, tail: seq<Byte>)
    requires p.Valid() && Fits(p, v, r)
    ensures GetValue(p, v, r.typeCode, ValueBytes(v, r.value) + tail) == (r.value, tail)
  {
    hide EncodeLE, GetRaw, GetBytes;
    match r.value
    case CounterValue(n) => GetRawExact(n, v, tail);
    case RawValue(b) =>
      Assoc(EncodeLE(|b|, v), b, tail);
      GetRawExact(|b|, v, b + tail);
      GetBytesExact(b, tail);
    case NoValue => assert [] + tail == tail;
  }

  // Reading a record consumes exactly the bytes that were written for it.
  lemma GetRecordExact(p: Protocol, v: Width, r: Record, tail: seq<Byte>)
    requires p.Valid() && Fits(p, v, r)
    ensures GetRecord(p, v, RecordBytes(v, r) + tail) == (r, tail)
  {
    hide EncodeLE, GetRaw, GetBytes, GetWords, GetValue, WordBytes, ValueBytes, TypeOf;
    Pow256Values();
    var r5 := ValueBytes(v, r.value) + tail;
    var r4 := WordBytes(r.metrics) + r5;
    var r3 := [r.ttlCode] + r4;
    var r2 := [r.typeCode] + r3;
    var r1 := EncodeLE(r.expiresAt, 8) + r2;
    var r0 := r.key + r1;
    RecordBytesAre(v, r, tail);
    GetRawExact(|r.key|, 2, r0);
    GetBytesExact(r.key, r1);
    GetRawExact(r.expiresAt, 8, r2);
    assert r2[1..] == r3 && r3[1..] == r4;
    GetWordsExact(r.metrics, r5);
    GetValueExact(p, v, r, tail);
  }

  lemma RecordBytesAre(v: Width, r: Record, tail: seq<Byte>)
    ensures RecordBytes(v, r) + tail ==
            EncodeLE(|r.key|, 2) + (r.key + (EncodeLE(r.expiresAt, 8) + ([r.typeCode] + ([r.ttlCode]
            + (WordBytes(r.metrics) + (ValueBytes(v, r.value) + tail))))))
  {
  }

  lemma {:induction false} GetRecordsExact(p: Protocol, v: Width, rs: seq<Record>, tail: seq<Byte>)
    requires p.Valid() && forall r :: r in rs ==> Fits(p, v, r)
    ensures GetRecords(p, v, |rs|, Body(v, rs) + tail) == (rs, tail)
    decreases |rs|
  {
    hide GetRecord, RecordBytes, Fits;
    if rs == [] {
      assert Body(v, rs) + tail == tail;
    } else {
      assert rs[0] in rs;
      Assoc(RecordBytes(v, rs[0]), Body(v, rs[1..]), tail);
      GetRecordExact(p, v, rs[0], Body(v, rs[1..]) + tail);
      GetRecordsExact(p, v, rs[1..], tail);
      assert [rs[0]] + rs[1..] == rs;
    }
  }

  // What the storage promises of its items: keys and values of the sizes the protocol can
  // deliver, and codes that name what they stand for.
  ghost predicate Storable(p: Protocol, v: Width, it: Item) {
    && |it.key| < 0x1_0000
    && it.entry.counter < Pow256(v) && |it.entry.buffer| < Pow256(v)
    && CanonicalType(p, it.entry.kind) && CanonicalTtl(p, it.entry.ttlType)
  }

  lemma StorableFits(p: Protocol, v: Width, it: Item)
    requires p.Valid() && Storable(p, v, it)
    ensures Fits(p, v, RecordOf(p, it))
  {
    TypeRoundTrip(p, it.entry.kind);
  }

  lemma {:induction false} RecordsFit(p: Protocol, v: Width, items: seq<Item>)
    requires p.Valid() && forall it :: it in items ==> Storable(p, v, it)
    ensures |RecordsOf(p, items)| == |items|
    ensures forall i :: 0 <= i < |items| ==> RecordsOf(p, items)[i] == RecordOf(p, items[i])
    ensures forall r :: r in RecordsOf(p, items) ==> Fits(p, v, r)
  {
    hide Fits, RecordOf;
    if items == [] {
    } else {
      assert items[0] in items;
      StorableFits(p, v, items[0]);
      RecordsFit(p, v, items[1..]);
    }
  }

  lemma {:induction false} LiveSound(items: seq<Item>)
    ensures forall it :: it in Live(items) <==> it in items && !it.entry.expired
  {
    if items == [] {
    } else {
      LiveSound(items[1..]);
      assert items == [items[0]] + items[1..];
    }
  }

  // Restoring a dump reads back every record it wrote, values and metrics included, and
  // stops exactly at the end of what was dumped.
  lemma DumpRoundTrip(p: Protocol, v: Width, m: Storage, items: seq<Item>, tail: seq<Byte>)
    requires p.Valid() && |Live(items)| < 0x1_0000_0000
    requires forall it :: it in items ==> Storable(p, v, it)
    ensures Loading(p, v, m, Dumped(p, v, items) + tail)
         == Loaded(EmplaceAll(p, v, m, RecordsOf(p, Live(items))), tail)
    ensures forall i :: 0 <= i < |Live(items)| ==>
              |RecordsOf(p, Live(items))| == |Live(items)|
              && RecordsOf(p, Live(items))[i] == RecordOf(p, Live(items)[i])
  {
    LiveSound(items);
    RecordsFit(p, v, Live(items));
    Pow256Values();
    hide EncodeLE, GetRaw, GetRecords, Body, RecordsOf, Live, EmplaceAll, Fits, Storable;
    var rs := RecordsOf(p, Live(items));
    var r1 := EncodeLE(|rs|, 4) + (Body(v, rs) + tail);
    var file := Dumped(p, v, items) + tail;
    assert file == MAGIC + ([VERSION] + ([v] + r1)) by {
      Assoc(EncodeLE(|rs|, 4), Body(v, rs), tail);
      Assoc([v], EncodeLE(|rs|, 4) + Body(v, rs), tail);
      Assoc([VERSION], [v] + (EncodeLE(|rs|, 4) + Body(v, rs)), tail);
      Assoc(MAGIC, [VERSION] + ([v] + (EncodeLE(|rs|, 4) + Body(v, rs))), tail);
    }
    Cut(MAGIC, [VERSION] + ([v] + r1));
    Cut([VERSION], [v] + r1);
    Cut([v], r1);
    GetRawExact(|rs|, 4, Body(v, rs) + tail);
    GetRecordsExact(p, v, rs, tail);
  }

  lemma {:induction false} EmplaceAllKeeps(p: Protocol, v: Width, m: Storage, rs: seq<Record>)
    requires p.Valid()
    ensures forall k :: k in m ==> k in EmplaceAll(p, v, m, rs) && EmplaceAll(p, v, m, rs)[k] == m[k]
    ensures forall k :: k in EmplaceAll(p, v, m, rs) <==> k in m || exists i :: 0 <= i < |rs| && rs[i].key == k
    decreases |rs|
  {
    hide Restored;
    if rs == [] {
    } else {
      var m1 := Emplace(m, rs[0].key, Restored(p, v, rs[0]));
      EmplaceAllKeeps(p, v, m1, rs[1..]);
      forall k
        ensures k in EmplaceAll(p, v, m, rs) <==> k in m || exists i :: 0 <= i < |rs| && rs[i].key == k
      {
        if k in EmplaceAll(p, v, m, rs) && k !in m && k != rs[0].key {
          var i :| 0 <= i < |rs[1..]| && rs[1..][i].key == k;
          assert rs[i + 1].key == k;
        }
        if i :| 0 <= i < |rs| && rs[i].key == k {
          if i > 0 {
            assert rs[1..][i - 1].key == k;
          }
        }
      }
    }
  }

  lemma {:induction false} EmplaceAllAt(p: Protocol, v: Width, m: Storage, rs: seq<Record>, i: nat)
    requires p.Valid() && i < |rs|
    requires rs[i].key !in m && forall j :: 0 <= j < i ==> rs[j].key != rs[i].key
    ensures rs[i].key in EmplaceAll(p, v, m, rs)
    ensures EmplaceAll(p, v, m, rs)[rs[i].key] == Restored(p, v, rs[i])
    decreases |rs|
  {
    hide Restored;
    var m1 := Emplace(m, rs[0].key, Restored(p, v, rs[0]));
    if i == 0 {
      EmplaceAllKeeps(p, v, m1, rs[1..]);
    } else {
      EmplaceAllAt(p, v, m1, rs[1..], i - 1);
    }
  }

  // What a restored entry has in common with the one that was dumped.
  lemma RestoredKeeps(p: Protocol, v: Width, it: Item)
    requires p.Valid() && Storable(p, v, it)
    ensures var e := Restored(p, v, RecordOf(p, it));
            e.kind == it.entry.kind && e.ttlType == it.entry.ttlType && e.expiresAt == it.entry.expiresAt && !e.expired
  {
  }

  ghost predicate DistinctKeys(items: seq<Item>) {
    forall i, j :: 0 <= i < j < |items| ==> items[i].key != items[j].key
  }

  // A storage that holds exactly these items, as far as a dump carries them.
  ghost predicate Carries(m: Storage, items: seq<Item>) {
    && (forall k :: k in m <==> exists i :: 0 <= i < |items| && items[i].key == k)
    && (forall i :: 0 <= i < |items| ==> items[i].key in m && SameMetadata(m[items[i].key], items[i].entry))
  }

  ghost predicate SameMetadata(a: Entry, b: Entry) {
    a.kind == b.kind && a.ttlType == b.ttlType && a.expiresAt == b.expiresAt && a.expired == b.expired
  }

  lemma EmplacedCarry(p: Protocol, v: Width, items: seq<Item>)
    requires p.Valid() && DistinctKeys(items)
    requires forall it :: it in items ==> Storable(p, v, it) && !it.entry.expired
    ensures Carries(EmplaceAll(p, v, map[], RecordsOf(p, items)), items)
  {
    hide Restored, EmplaceAll, Storable, RecordsOf;
    RecordsFit(p, v, items);
    var rs := RecordsOf(p, items);
    EmplaceAllKeeps(p, v, map[], rs);
    assert forall i :: 0 <= i < |items| ==> rs[i].key == items[i].key;
    forall i | 0 <= i < |items|
      ensures items[i].key in EmplaceAll(p, v, map[], rs)
      ensures SameMetadata(EmplaceAll(p, v, map[], rs)[items[i].key], items[i].entry)
    {
      assert items[i] in items;
      EmplaceAllAt(p, v, map[], rs, i);
      RestoredKeeps(p, v, items[i]);
    }
  }

  // Restored into an empty storage, a dump leaves exactly the keys that were not expired,
  // each with its type, its TTL type and its expiration.
  lemma RestoreKeepsTheLiveEntries(p: Protocol, v: Width, items: seq<Item>, tail: seq<Byte>)
    requires p.Valid() && |Live(items)| < 0x1_0000_0000 && DistinctKeys(Live(items))
    requires forall it :: it in items ==> Storable(p, v, it)
    ensures var loaded := Loading(p, v, map[], Dumped(p, v, items) + tail);
            loaded.Loaded? && loaded.left == tail && Carries(loaded.storage, Live(items))
  {
    hide EmplaceAll, Dumped, Loading, Live, RecordsOf, Storable, Carries, DistinctKeys;
    DumpRoundTrip(p, v, map[], items, tail);
    LiveSound(items);
    EmplacedCarry(p, v, Live(items));
  }

  lemma {:induction false} ZerosDecode(n: nat)
    ensures DecodeLE(seq(n, i => 0)) == 0
  {
    if n == 0 {
    } else {
      assert seq(n, i => 0)[1..] == seq(n - 1, i => 0);
      ZerosDecode(n - 1);
    }
  }

  // The value itself survives only where it was already what a zeroed one looks like: a
  // counter at zero, or a buffer of exactly `v` zero bytes.
  lemma RestoredValueIff(p: Protocol, v: Width, it: Item)
    requires p.Valid() && Storable(p, v, it) && (it.entry.kind == Counter || it.entry.kind == Raw)
    ensures ValueOf(Restored(p, v, RecordOf(p, it))) == ValueOf(it.entry) <==>
            if it.entry.kind == Counter then it.entry.counter == 0
            else |it.entry.buffer| == v && forall i :: 0 <= i < v ==> it.entry.buffer[i] == 0
  {
    TypeRoundTrip(p, it.entry.kind);
    var zeros: seq<Byte> := seq(v, i => 0);
    assert zeros[..v] == zeros;
    ZerosDecode(v);
    if it.entry.kind == Raw {
      assert Restored(p, v, RecordOf(p, it)).buffer == zeros;
      if |it.entry.buffer| == v && forall i :: 0 <= i < v ==> it.entry.buffer[i] == 0 {
        assert it.entry.buffer == zeros;
      }
    }
  }

  // A counter at one comes back from a dump at zero.
  lemma RestoredCounter(p: Protocol, v: Width, key: Key, metrics: Metrics)
    requires p.Valid()
    ensures var e := Entry(Counter, 1, [], Seconds, 10, false, metrics);
            var loaded := Loading(p, v, map[], Dumped(p, v, [Item(key, e)]));
            loaded.Loaded? && key in loaded.storage && ValueOf(loaded.storage[key]) == CounterValue(0)
  {
    var e := Entry(Counter, 1, [], Seconds, 10, false, metrics);
    var it := Item(key, e);
    Pow256Values();
    assert Live([it]) == [it] + Live([]);
    DumpRoundTrip(p, v, map[], [it], []);
    hide Loading, Dumped, RecordOf, Restored;
    assert Dumped(p, v, [it]) + [] == Dumped(p, v, [it]);
    CounterRecord(p, v, it);
    assert RecordsOf(p, [it])[0] == RecordOf(p, it);
    EmplaceAllAt(p, v, map[], RecordsOf(p, [it]), 0);
  }

  lemma CounterRecord(p: Protocol, v: Width, it: Item)
    requires p.Valid() && it.entry.kind == Counter
    ensures RecordOf(p, it).key == it.key
    ensures ValueOf(Restored(p, v, RecordOf(p, it))) == CounterValue(0)
  {
    TypeRoundTrip(p, Counter);
    ZerosDecode(v);
    assert seq(v, i => 0)[..v] == seq(v, i => 0);
  }


  // ----- Files that end too early

  // A number's missing bytes repeat the last one there was, or are zero if there was none.
  lemma {:induction false} GenerateShort(rest: seq<Byte>, n: nat, last: Byte)
    ensures var (b, r) := Generate(rest, n, last);
            && |b| == n && r == rest[Min(n, |rest|)..]
            && forall i :: 0 <= i < n ==>
                 b[i] == if i < |rest| then rest[i] else if rest == [] then last else rest[|rest| - 1]
  {
    if n == 0 {
    } else {
      var c, tail := if rest == [] then last else rest[0], if rest == [] then [] else rest[1..];
      GenerateShort(tail, n - 1, c);
    }
  }

  // Missing bytes of a key or a buffer are zero.
  lemma {:induction false} GetBytesShort(rest: seq<Byte>, n: nat)
    ensures var (b, r) := GetBytes(rest, n);
            && |b| == n && r == rest[Min(n, |rest|)..]
            && forall i :: 0 <= i < n ==> b[i] == if i < |rest| then rest[i] else 0
  {
    if n == 0 {
    } else {
      GetBytesShort(if rest == [] then [] else rest[1..], n - 1);
    }
  }

  // ----- What the bytes say

  // Which files are refused, and with which error: the first of magic, version and width
  // that is not as it should be. A byte past the end counts as zero.
  lemma RefusedIff(p: Protocol, v: Width, m: Storage, file: seq<Byte>)
    requires p.Valid()
    ensures var r := Loading(p, v, m, file);
            var named := |file| >= 4 && file[0] == 84 && file[1] == 72 && file[2] == 82 && file[3] == 84;
            && (r == Refused(InvalidFormat) <==> !named)
            && (r == Refused(UnsupportedVersion) <==> named && (|file| < 5 || file[4] != 1))
            && (r == Refused(MismatchedValueSize) <==>
                  named && |file| >= 5 && file[4] == 1 && (|file| < 6 || file[5] != v))
            && (r.Loaded? <==> named && |file| >= 6 && file[4] == 1 && file[5] == v)
  {
    hide GetRaw, GetRecords, EmplaceAll;
    if |file| >= 4 {
      assert file[..4] == MAGIC <==> file[0] == 84 && file[1] == 72 && file[2] == 82 && file[3] == 84;
    }
  }

  // The header of a dump.
  lemma DumpHeader(p: Protocol, v: Width, items: seq<Item>)
    requires p.Valid() && |Live(items)| < 0x1_0000_0000
    ensures var b := Dumped(p, v, items);
            && |b| >= 10 && b[..4] == [84, 72, 82, 84] && b[4] == 1 && b[5] == v
            && DecodeLE(b[6..10]) == |Live(items)|
            && b[10..] == Body(v, RecordsOf(p, Live(items)))
  {
    var count, body := EncodeLE(|Live(items)|, 4), Body(v, RecordsOf(p, Live(items)));
    Pow256Values();
    DecodeEncodeLE(|Live(items)|, 4);
    hide EncodeLE, DecodeLE, Body, RecordsOf, Live, Pow256;
    var b := Dumped(p, v, items);
    assert b == MAGIC + [VERSION] + [v] + count + body;
    assert b[6..10] == count && b[10..] == body;
  }

  lemma {:induction false} WordsSay(ws: seq<nat>, i: nat)
    requires i < |ws| && ws[i] < U64
    ensures |WordBytes(ws)| == 8 * |ws|
    ensures DecodeLE(WordBytes(ws)[8 * i..8 * i + 8]) == ws[i]
  {
    WordsLength(ws);
    if i == 0 {
      DecodeEncodeWord(ws[0]);
      assert WordBytes(ws)[..8] == EncodeLE(ws[0], 8);
    } else {
      WordsSay(ws[1..], i - 1);
      assert WordBytes(ws)[8 * i..8 * i + 8] == WordBytes(ws[1..])[8 * (i - 1)..8 * (i - 1) + 8];
    }
  }

  lemma {:induction false} WordsLength(ws: seq<nat>)
    ensures |WordBytes(ws)| == 8 * |ws|
  {
    if ws == [] {
    } else {
      WordsLength(ws[1..]);
    }
  }

  // What the bytes of a record say of its entry: first the key, the deadline and the two
  // type bytes, ...
  lemma RecordSays(p: Protocol, v: Width, it: Item)
    requires p.Valid() && Storable(p, v, it)
    ensures var b, n, e := RecordBytes(v, RecordOf(p, it)), |it.key|, it.entry;
            && |b| >= 60 + n
            && DecodeLE(b[..2]) == n && b[2..2 + n] == it.key
            && DecodeLE(b[2 + n..10 + n]) == e.expiresAt
            && TypeOf(p, b[10 + n]) == e.kind && TtlOf(p, b[11 + n]) == e.ttlType
            && b[12 + n..60 + n] == WordBytes(MetricsOf(e.metrics))
            && b[60 + n..] == ValueBytes(v, ValueOf(e))
  {
    var e := it.entry;
    var size, at := EncodeLE(|it.key|, 2), EncodeLE(e.expiresAt, 8);
    var ws, value := WordBytes(MetricsOf(e.metrics)), ValueBytes(v, ValueOf(e));
    var types: seq<Byte> := [TypeCode(p, e.kind)] + [TtlCode(p, e.ttlType)];
    Pow256Values();
    DecodeEncodeLE(|it.key|, 2);
    DecodeEncodeWord(e.expiresAt);
    WordsLength(MetricsOf(e.metrics));
    TypeRoundTrip(p, e.kind);
    TtlRoundTrip(p, e.ttlType);
    var b := RecordBytes(v, RecordOf(p, it));
    hide EncodeLE, DecodeLE, WordBytes, ValueBytes, TypeCode, TtlCode, TypeOf, TtlOf, MetricsOf, ValueOf, Pow256;
    hide RecordBytes;
    RecordSplit(b, size, it.key, at, types, ws, value);
  }

  lemma RecordSplit(b: seq<Byte>, size: seq<Byte>, key: seq<Byte>, at: seq<Byte>, types: seq<Byte>,
                    ws: seq<Byte>, value: seq<Byte>)
    requires |size| == 2 && |at| == 8 && |types| == 2 && |ws| == 48
    requires b == size + (key + (at + ([types[0]] + ([types[1]] + (ws + value)))))
    ensures var n := |key|;
            && |b| == 60 + n + |value|
            && b[..2] == size && b[2..2 + n] == key && b[2 + n..10 + n] == at
            && b[10 + n] == types[0] && b[11 + n] == types[1]
            && b[12 + n..60 + n] == ws && b[60 + n..] == value
  {
    assert b == (size + key) + (at + (types + (ws + value)));
    ThreeParts(b, 0, size, key, at + (types + (ws + value)));
    ThreeParts(b, 2 + |key|, at, types, ws + value);
    ThreeParts(b, 10 + |key|, types, ws, value);
  }

  // ... then the metrics, one word each, ...
  lemma MetricsSay(m: Metrics)
    ensures var b := WordBytes(MetricsOf(m));
            && |b| == 48
            && DecodeLE(b[0..8]) == m.readCount && DecodeLE(b[8..16]) == m.writeCount
            && DecodeLE(b[16..24]) == m.readsAccumulator && DecodeLE(b[24..32]) == m.writesAccumulator
            && DecodeLE(b[32..40]) == m.readsPerMinute && DecodeLE(b[40..48]) == m.writesPerMinute
  {
    var ws := MetricsOf(m);
    WordsSay(ws, 0);
    WordsSay(ws, 1);
    WordsSay(ws, 2);
    WordsSay(ws, 3);
    WordsSay(ws, 4);
    WordsSay(ws, 5);
    hide WordBytes, DecodeLE;
  }

  // ... and the counter, or the length and the bytes of the buffer.
  lemma ValueSays(p: Protocol, v: Width, it: Item)
    requires p.Valid() && Storable(p, v, it)
    ensures var b, e := ValueBytes(v, ValueOf(it.entry)), it.entry;
            && (e.kind == Counter ==> |b| == v && DecodeLE(b) == e.counter)
            && (e.kind == Raw ==> |b| == v + |e.buffer| && DecodeLE(b[..v]) == |e.buffer| && b[v..] == e.buffer)
            && (e.kind.OtherType? ==> b == [])
  {
    DecodeEncodeLE(it.entry.counter, v);
    DecodeEncodeLE(|it.entry.buffer|, v);
    Cut(EncodeLE(|it.entry.buffer|, v), it.entry.buffer);
    hide EncodeLE, DecodeLE, Pow256;
  }

  // The live entries are those not expired, in the order of the index.
  lemma {:induction false} LiveInOrder(a: seq<Item>, b: seq<Item>)
    ensures Live(a + b) == Live(a) + Live(b)
    ensures forall it :: Live([it]) == if it.entry.expired then [] else [it]
  {
    forall it ensures Live([it]) == if it.entry.expired then [] else [it] {
      assert [it][1..] == [];
    }
    if a == [] {
      assert a + b == b;
    } else {
      assert (a + b)[0] == a[0] && (a + b)[1..] == a[1..] + b;
      LiveInOrder(a[1..], b);
      Assoc(if a[0].entry.expired then [] else [a[0]], Live(a[1..]), Live(b));
    }
  }
}
