/** Conversions between TTL values and expiration points, in nanoseconds. */
module Time {
  import opened Bytes
  import opened Entries

  const INT64_LIMIT: nat := 0x8000_0000_0000_0000

  // Nanoseconds in one unit; get_expiration_point and get_ttl treat any other code as seconds.
  function Unit(t: TtlType): (u: nat)
    ensures u > 0
  {
    match t
    case Nanoseconds => 1
    case Microseconds => 1_000
    case Milliseconds => 1_000_000
    case Minutes => 60_000_000_000
    case Hours => 3_600_000_000_000
    case Seconds | OtherTtl(_) => 1_000_000_000
  }

  // The durations are signed 64-bit counts: this is when the conversion stays in range.
  ghost predicate Converts(value: nat, t: TtlType) {
    value * Unit(t) < INT64_LIMIT
  }

  function GetExpirationPoint(now: Word, t: TtlType, ttl: seq<Byte>, v: Width): Word
    requires |ttl| >= v
    requires Converts(DecodeLE(ttl[..v]), t)
  {
    Add64(now, DecodeLE(ttl[..v]) * Unit(t))
  }

  // The result is narrowed to value_type.
  function GetTtl(expiresAt: Word, t: TtlType, now: Word, v: Width): nat {
    if expiresAt <= now then 0 else ((expiresAt - now) / Unit(t)) % Pow256(v)
  }

  // apply_ttl_change knows only the six units.
  function PatchDuration(value: nat, t: TtlType): nat {
    if t.OtherTtl? then 0 else value * Unit(t)
  }

  // Values of one or two bytes convert in every unit; four-byte values convert in
  // every unit up to seconds, and in the longer ones only while they are small.
  lemma SmallValuesConvert(value: nat, t: TtlType, v: Width)
    requires value < Pow256(v)
    ensures v <= 2 ==> Converts(value, t)
    ensures v == 4 && !t.Minutes? && !t.Hours? ==> Converts(value, t)
  {
  }

  lemma LongUnitsOverflow(value: nat)
    ensures Converts(value, Minutes) <==> value <= 153_722_867
    ensures Converts(value, Hours) <==> value <= 2_562_047
    ensures Unit(Hours) == 60 * Unit(Minutes) == 3600 * Unit(Seconds)
    ensures Unit(Seconds) == 1000 * Unit(Milliseconds) == 1000_000 * Unit(Microseconds)
    ensures Unit(Microseconds) == 1000 * Unit(Nanoseconds) == 1000
  {
  }

  // ceil(e / unit): the units already spent e nanoseconds after creation.
  function Elapsed(e: nat, t: TtlType): nat {
    (e + Unit(t) - 1) / Unit(t)
  }

  lemma CeilingComplement(value: nat, u: nat, e: nat)
    requires u > 0 && e <= value * u
    ensures (e + u - 1) / u <= value
    ensures (value * u - e) / u == value - (e + u - 1) / u
  {
    var c := (e + u - 1) / u;
    var r := (e + u - 1) % u;
    assert e + u - 1 == c * u + r;
    if c > value {
      MulMono(value + 1, c, u);
      assert false;
    }
    assert (value - c) * u + c * u == value * u;
    ModUnique(value * u - e, u, value - c, u - 1 - r);
  }

  // e nanoseconds after an entry was created with TTL `value`, and no later than its
  // expiration, the reported TTL is `value` less the units begun since.
  lemma TtlCountsDown(now: Word, t: TtlType, ttl: seq<Byte>, v: Width, e: nat)
    requires |ttl| == v
    requires Converts(DecodeLE(ttl), t)
    requires now + DecodeLE(ttl) * Unit(t) < U64
    requires e <= DecodeLE(ttl) * Unit(t)
    ensures ttl[..v] == ttl
    ensures Elapsed(e, t) <= DecodeLE(ttl)
    ensures GetTtl(GetExpirationPoint(now, t, ttl, v), t, now + e, v) == DecodeLE(ttl) - Elapsed(e, t)
  {
    hide Unit, DecodeLE, Pow256;
    assert ttl[..v] == ttl;
    var value, u, d := DecodeLE(ttl), Unit(t), DecodeLE(ttl) * Unit(t);
    DecodeLEBound(ttl);
    CeilingComplement(value, u, e);
    ModUnique(now + d, U64, 0, now + d);
    if e == d {
      ModUnique(0, u, 0, 0);
    } else {
      var left := value - Elapsed(e, t);
      ModUnique(left, Pow256(v), 0, left);
    }
  }

  // A deadline that does not wrap lies the TTL's units ahead; at it, and later, none is left.
  lemma DeadlineAhead(now: Word, t: TtlType, ttl: seq<Byte>, v: Width, later: Word)
    requires |ttl| == v && Converts(DecodeLE(ttl), t)
    requires now + DecodeLE(ttl) * Unit(t) < U64
    ensures ttl[..v] == ttl
    ensures GetExpirationPoint(now, t, ttl, v) == now + DecodeLE(ttl) * Unit(t)
    ensures later >= now + DecodeLE(ttl) * Unit(t) ==> GetTtl(GetExpirationPoint(now, t, ttl, v), t, later, v) == 0
  {
    assert ttl[..v] == ttl;
    hide Unit, DecodeLE;
  }

  // Patching a TTL moves the deadline where creating the entry now would put it, exactly
  // when the stored unit is one of the six or the value is zero.
  lemma PatchAgreesWithCreation(now: Word, t: TtlType, ttl: seq<Byte>, v: Width)
    requires |ttl| == v && Converts(DecodeLE(ttl), t)
    ensures ttl[..v] == ttl
    ensures Add64(now, PatchDuration(DecodeLE(ttl), t)) == GetExpirationPoint(now, t, ttl, v)
            <==> !t.OtherTtl? || DecodeLE(ttl) == 0
  {
  }
}
