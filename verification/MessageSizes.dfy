/** The table of size functions that decides where a request ends in the byte stream. */
module MessageSizes {
  import opened Bytes

  // One constructor for each entry the messages service registers, and the
  // default that fills the rest of the table.
  datatype Kind =
    | Insert | Query | Update | Set | Get | Purge | Stat
    | List | Stats | Connections | Connection | WhoAmI
    | Subscribe | Unsubscribe | Publish | Channels | Channel | Info | Event
    | Invalid

  const TABLE_SIZE: nat := 32

  // `message_types_`: the registered kind of every type byte below 32.
  type Table = t: seq<Kind> | |t| == TABLE_SIZE witness seq(TABLE_SIZE, i => Invalid)

  function InsertHeader(v: Width): nat { 2 * v + 3 }
  function UpdateHeader(v: Width): nat { v + 4 }
  function SetHeader(v: Width): nat { 2 * v + 3 }
  function PublishHeader(v: Width): nat { v + 2 }
  const KEYED_HEADER: nat := 2
  const CONNECTION_HEADER: nat := 17
  const BARE_HEADER: nat := 1

  function GetInsertSize(v: Width, b: seq<Byte>): nat {
    if |b| < InsertHeader(v) then 0 else (InsertHeader(v) + b[2 * v + 2]) % U64
  }

  function GetUpdateSize(v: Width, b: seq<Byte>): nat {
    if |b| < UpdateHeader(v) then 0 else (UpdateHeader(v) + b[v + 3]) % U64
  }

  function GetSetSize(v: Width, b: seq<Byte>): nat {
    if |b| < SetHeader(v) then 0
    else (SetHeader(v) + b[2 + v] + DecodeLE(b[3 + v..3 + v + v])) % U64
  }

  // Query, get, purge, stat, subscribe, unsubscribe and channel share this shape.
  function GetKeyedSize(b: seq<Byte>): nat {
    if |b| < KEYED_HEADER then 0 else KEYED_HEADER + b[1]
  }

  // List, stats, connections, connection, whoami, channels and info have a fixed size.
  function GetFixedSize(header: nat, b: seq<Byte>): nat {
    if |b| >= header then header else 0
  }

  // Publish and event share this shape.
  function GetPublishSize(v: Width, b: seq<Byte>): nat {
    if |b| < PublishHeader(v) then 0
    else (PublishHeader(v) + b[1] + DecodeLE(b[2..2 + v])) % U64
  }

  function SizeOf(k: Kind, v: Width, b: seq<Byte>): nat {
    match k
    case Insert => GetInsertSize(v, b)
    case Set => GetSetSize(v, b)
    case Update => GetUpdateSize(v, b)
    case Query | Get | Purge | Stat | Subscribe | Unsubscribe | Channel => GetKeyedSize(b)
    case List | Stats | Connections | WhoAmI | Channels | Info => GetFixedSize(BARE_HEADER, b)
    case Connection => GetFixedSize(CONNECTION_HEADER, b)
    case Publish | Event => GetPublishSize(v, b)
    case Invalid => 0
  }

  // Zero means "not yet known"; a type byte past the table never gets a size here,
  // and the code that indexes the table must not meet one.
  function MessageSize(t: Table, v: Width, b: seq<Byte>): nat {
    if b == [] || b[0] >= TABLE_SIZE then 0 else SizeOf(t[b[0]], v, b)
  }

  lemma SliceStable(b: seq<Byte>, more: seq<Byte>, lo: nat, hi: nat)
    requires lo <= hi <= |b|
    ensures (b + more)[lo..hi] == b[lo..hi]
  {
  }

  lemma SetSizeStable(v: Width, b: seq<Byte>, more: seq<Byte>)
    requires |b| >= SetHeader(v)
    ensures GetSetSize(v, b + more) == GetSetSize(v, b)
  {
    SliceStable(b, more, 3 + v, 3 + v + v);
    assert (b + more)[2 + v] == b[2 + v];
  }

  lemma PublishSizeStable(v: Width, b: seq<Byte>, more: seq<Byte>)
    requires |b| >= PublishHeader(v)
    ensures GetPublishSize(v, b + more) == GetPublishSize(v, b)
  {
    SliceStable(b, more, 2, 2 + v);
    assert (b + more)[1] == b[1];
  }

  // A size, once known, does not depend on the bytes that follow.
  lemma PrefixStable(t: Table, v: Width, b: seq<Byte>, more: seq<Byte>)
    requires MessageSize(t, v, b) != 0
    ensures MessageSize(t, v, b + more) == MessageSize(t, v, b)
  {
    assert (b + more)[0] == b[0];
    var k := t[b[0]];
    if k == Set {
      SetSizeStable(v, b, more);
    } else if k == Publish || k == Event {
      PublishSizeStable(v, b, more);
    } else if k == Insert {
      assert (b + more)[2 * v + 2] == b[2 * v + 2];
    } else if k == Update {
      assert (b + more)[v + 3] == b[v + 3];
    }
  }

  // The header a kind needs before its size is known.
  function Header(k: Kind, v: Width): nat {
    match k
    case Insert => InsertHeader(v)
    case Set => SetHeader(v)
    case Update => UpdateHeader(v)
    case Query | Get | Purge | Stat | Subscribe | Unsubscribe | Channel => KEYED_HEADER
    case Connection => CONNECTION_HEADER
    case Publish | Event => PublishHeader(v)
    case _ => BARE_HEADER
  }

  lemma SetSizeBounds(v: Width, b: seq<Byte>)
    requires v <= 4 && |b| >= SetHeader(v)
    ensures GetSetSize(v, b) == SetHeader(v) + b[2 + v] + DecodeLE(b[3 + v..3 + v + v])
  {
    Pow256Values();
    DecodeLEBound(b[3 + v..3 + v + v]);
  }

  lemma PublishSizeBounds(v: Width, b: seq<Byte>)
    requires v <= 4 && |b| >= PublishHeader(v)
    ensures GetPublishSize(v, b) == PublishHeader(v) + b[1] + DecodeLE(b[2..2 + v])
  {
    Pow256Values();
    DecodeLEBound(b[2..2 + v]);
  }

  lemma ShortSpan(k: Kind, v: Width, b: seq<Byte>)
    requires |b| < Header(k, v)
    ensures SizeOf(k, v, b) == 0
  {
  }

  lemma InsertSizeBounds(v: Width, b: seq<Byte>)
    requires v <= 4
    ensures |b| >= InsertHeader(v) ==> GetInsertSize(v, b) == InsertHeader(v) + b[2 * v + 2]
    ensures |b| >= UpdateHeader(v) ==> GetUpdateSize(v, b) == UpdateHeader(v) + b[v + 3]
  {
  }

  // With values of at most four bytes no sum wraps: the size is known exactly when
  // the header is complete, and is never smaller than that header.
  lemma SizeKnownIffHeader(t: Table, v: Width, b: seq<Byte>)
    requires v <= 4
    requires b != [] && b[0] < TABLE_SIZE
    ensures MessageSize(t, v, b) != 0 <==> t[b[0]] != Invalid && |b| >= Header(t[b[0]], v)
    ensures MessageSize(t, v, b) != 0 ==> MessageSize(t, v, b) >= Header(t[b[0]], v)
  {
    var k := t[b[0]];
    if |b| >= Header(k, v) {
      match k
      case Set => SetSizeBounds(v, b);
      case Publish | Event => PublishSizeBounds(v, b);
      case Insert | Update => InsertSizeBounds(v, b);
      case _ =>
    } else {
      ShortSpan(k, v, b);
    }
  }

  // ... so a dispatched view measures exactly its own length.
  lemma SelfDelimiting(t: Table, v: Width, b: seq<Byte>, n: nat)
    requires v <= 4
    requires n == MessageSize(t, v, b) && 0 < n <= |b|
    ensures MessageSize(t, v, b[..n]) == n
  {
    SizeKnownIffHeader(t, v, b);
    SizeKnownIffHeader(t, v, b[..n]);
    PrefixStable(t, v, b[..n], b[n..]);
    assert b[..n] + b[n..] == b;
  }

  // With eight-byte values the sum can wrap: this SET header announces a value so long
  // that the computed size is 1, smaller than the header it was read from.
  lemma EightByteValuesWrap()
    ensures var b := [0] + EncodeLE(0, 8) + [0, 0] + EncodeLE(U64 - 18, 8);
            GetSetSize(8, b) == 1
  {
    var b := [0] + EncodeLE(0, 8) + [0, 0] + EncodeLE(U64 - 18, 8);
    assert b[10] == 0;
    assert b[11..19] == EncodeLE(U64 - 18, 8);
    DecodeEncodeWord(U64 - 18);
  }
}
