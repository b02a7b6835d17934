/** Storage entries and the enumerations the wire carries as single bytes. */
module Entries {
  import opened Bytes

  // Keys arrive behind a one-byte length.
  type Key = k: seq<Byte> | |k| <= 255

  datatype EntryType = Counter | Raw | OtherType(typeCode: Byte)

  datatype TtlType =
    | Nanoseconds | Microseconds | Milliseconds | Seconds | Minutes | Hours
    | OtherTtl(ttlCode: Byte)

  // The numeric values of the enumerators, which the protocol library fixes.
  datatype Protocol = Protocol(counter: Byte, raw: Byte, units: seq<Byte>) {
    ghost predicate Valid() {
      && counter != raw
      && |units| == 6
      && (forall i, j :: 0 <= i < j < 6 ==> units[i] != units[j])
    }
  }

  function TypeCode(p: Protocol, t: EntryType): Byte {
    match t
    case Counter => p.counter
    case Raw => p.raw
    case OtherType(c) => c
  }

  // static_cast<entry_types>(byte)
  function TypeOf(p: Protocol, b: Byte): EntryType {
    if b == p.counter then Counter else if b == p.raw then Raw else OtherType(b)
  }

  function TtlCode(p: Protocol, t: TtlType): Byte
    requires p.Valid()
  {
    match t
    case Nanoseconds => p.units[0]
    case Microseconds => p.units[1]
    case Milliseconds => p.units[2]
    case Seconds => p.units[3]
    case Minutes => p.units[4]
    case Hours => p.units[5]
    case OtherTtl(c) => c
  }

  // static_cast<ttl_types>(byte)
  function TtlOf(p: Protocol, b: Byte): TtlType
    requires p.Valid()
  {
    if b == p.units[0] then Nanoseconds
    else if b == p.units[1] then Microseconds
    else if b == p.units[2] then Milliseconds
    else if b == p.units[3] then Seconds
    else if b == p.units[4] then Minutes
    else if b == p.units[5] then Hours
    else OtherTtl(b)
  }

  // The catch-all constructors stand only for bytes no enumerator uses.
  ghost predicate CanonicalType(p: Protocol, t: EntryType) {
    t.OtherType? ==> t.typeCode != p.counter && t.typeCode != p.raw
  }

  ghost predicate CanonicalTtl(p: Protocol, t: TtlType) {
    t.OtherTtl? ==> t.ttlCode !in p.units
  }

  lemma TypeRoundTrip(p: Protocol, t: EntryType)
    requires p.Valid()
    ensures TypeOf(p, TypeCode(p, t)) == t <==> CanonicalType(p, t)
  {
  }

  lemma TtlRoundTrip(p: Protocol, t: TtlType)
    requires p.Valid()
    ensures TtlOf(p, TtlCode(p, t)) == t <==> CanonicalTtl(p, t)
  {
  }

  datatype Metrics = Metrics(
    readCount: Word, writeCount: Word,
    readsAccumulator: Word, writesAccumulator: Word,
    readsPerMinute: Word, writesPerMinute: Word)

  datatype Entry = Entry(
    kind: EntryType,
    counter: nat,
    buffer: seq<Byte>,
    ttlType: TtlType,
    expiresAt: Word,
    expired: bool,
    metrics: Metrics)

  // entry_wrapper's constructor: a raw entry copies the value, any other parses it as a
  // number; the new entry has one write to its name.
  function NewEntry(v: Width, kind: EntryType, value: seq<Byte>, ttlType: TtlType, expiresAt: Word): Entry
    requires kind != Raw ==> |value| >= v
  {
    var initial := Metrics(0, 1, 0, 0, 0, 0);
    if kind == Raw then Entry(Raw, 0, value, ttlType, expiresAt, false, initial)
    else Entry(kind, DecodeLE(value[..v]), [], ttlType, expiresAt, false, initial)
  }
}
