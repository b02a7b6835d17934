/** The requests a client can write, and what the framer makes of a stream of them. */
module Requests {
  import opened Bytes
  import opened Entries
  import opened MessageSizes
  import Framing

  // Fields of value_type width are given as the bytes on the wire.
  datatype Request =
    | InsertRequest(quota: seq<Byte>, ttlCode: Byte, ttl: seq<Byte>, key: Key)
    | SetRequest(ttlCode: Byte, ttl: seq<Byte>, key: Key, value: seq<Byte>)
    | UpdateRequest(attribute: Byte, change: Byte, amount: seq<Byte>, key: Key)
    // query, get, purge, stat, subscribe, unsubscribe, channel
    | NamedRequest(kind: Kind, name: Key)
    // list, stats, connections, whoami, channels, info
    | BareRequest(kind: Kind)
    | ConnectionRequest(id: seq<Byte>)
    | PublishRequest(channel: Key, payload: seq<Byte>)

  predicate Named(k: Kind) {
    k in {Query, Get, Purge, Stat, Subscribe, Unsubscribe, Channel}
  }

  predicate Bare(k: Kind) {
    k in {List, Stats, Connections, WhoAmI, Channels, Info}
  }

  function KindOf(r: Request): Kind {
    match r
    case InsertRequest(_, _, _, _) => Insert
    case SetRequest(_, _, _, _) => Set
    case UpdateRequest(_, _, _, _) => Update
    case NamedRequest(k, _) => k
    case BareRequest(k) => k
    case ConnectionRequest(_) => Connection
    case PublishRequest(_, _) => Publish
  }

  // Fields of the right width; lengths that their fields can announce.
  ghost predicate WellFormed(v: Width, r: Request) {
    match r
    case InsertRequest(quota, _, ttl, _) => |quota| == v && |ttl| == v
    case SetRequest(_, ttl, _, value) => |ttl| == v && |value| < Pow256(v)
    case UpdateRequest(_, _, amount, _) => |amount| == v
    case NamedRequest(k, _) => Named(k)
    case BareRequest(k) => Bare(k)
    case ConnectionRequest(id) => |id| == 16
    case PublishRequest(_, payload) => |payload| < Pow256(v)
  }

  // `code` is the type byte of the request's kind.
  function Encode(code: Byte, v: Width, r: Request): seq<Byte> {
    match r
    case InsertRequest(quota, t, ttl, key) => [code] + quota + [t] + ttl + [|key|] + key
    case SetRequest(t, ttl, key, value) => [code] + [t] + ttl + [|key|] + EncodeLE(|value|, v) + (key + value)
    case UpdateRequest(a, c, amount, key) => [code] + [a] + [c] + amount + [|key|] + key
    case NamedRequest(_, name) => [code] + [|name|] + name
    case BareRequest(_) => [code]
    case ConnectionRequest(id) => [code] + id
    case PublishRequest(channel, payload) => [code] + [|channel|] + EncodeLE(|payload|, v) + (channel + payload)
  }

  // The size function of each kind finds the end of a request just where the client put it.
  lemma EncodedSize(t: Table, code: Byte, v: Width, r: Request)
    requires v <= 4 && WellFormed(v, r)
    requires code < TABLE_SIZE && t[code] == KindOf(r)
    ensures Encode(code, v, r)[0] == code
    ensures MessageSize(t, v, Encode(code, v, r)) == |Encode(code, v, r)|
  {
    hide GetSetSize, GetPublishSize, GetInsertSize, GetUpdateSize;
    match r
    case InsertRequest(_, _, _, _) => InsertEncodedSize(code, v, r);
    case SetRequest(_, _, _, _) => SetEncodedSize(code, v, r);
    case UpdateRequest(_, _, _, _) => UpdateEncodedSize(code, v, r);
    case PublishRequest(_, _) => PublishEncodedSize(code, v, r);
    case _ =>
  }

  lemma InsertEncodedSize(code: Byte, v: Width, r: Request)
    requires r.InsertRequest? && v <= 4 && WellFormed(v, r)
    ensures GetInsertSize(v, Encode(code, v, r)) == |Encode(code, v, r)|
  {
    var b := Encode(code, v, r);
    InsertSizeBounds(v, b);
    assert b[2 * v + 2] == |r.key|;
  }

  lemma UpdateEncodedSize(code: Byte, v: Width, r: Request)
    requires r.UpdateRequest? && v <= 4 && WellFormed(v, r)
    ensures GetUpdateSize(v, Encode(code, v, r)) == |Encode(code, v, r)|
  {
    var b := Encode(code, v, r);
    InsertSizeBounds(v, b);
    assert b[v + 3] == |r.key|;
  }

  lemma SetEncodedSize(code: Byte, v: Width, r: Request)
    requires r.SetRequest? && v <= 4 && WellFormed(v, r)
    ensures GetSetSize(v, Encode(code, v, r)) == |Encode(code, v, r)|
  {
    var head := [code] + [r.ttlCode] + r.ttl + [|r.key|];
    var size := EncodeLE(|r.value|, v);
    var b := head + size + (r.key + r.value);
    assert b == Encode(code, v, r);
    Middle(head, size, r.key + r.value);
    assert b[3 + v..3 + v + v] == size;
    assert b[2 + v] == |r.key|;
    DecodeEncodeLE(|r.value|, v);
    SetSizeBounds(v, b);
    hide EncodeLE, DecodeLE, Encode;
  }

  lemma PublishEncodedSize(code: Byte, v: Width, r: Request)
    requires r.PublishRequest? && v <= 4 && WellFormed(v, r)
    ensures GetPublishSize(v, Encode(code, v, r)) == |Encode(code, v, r)|
  {
    var head := [code] + [|r.channel|];
    var size := EncodeLE(|r.payload|, v);
    var b := head + size + (r.channel + r.payload);
    assert b == Encode(code, v, r);
    Middle(head, size, r.channel + r.payload);
    assert b[2..2 + v] == size;
    assert b[1] == |r.channel|;
    DecodeEncodeLE(|r.payload|, v);
    PublishSizeBounds(v, b);
  }

  // A client's type byte for each kind, one the server's table agrees with.
  ghost predicate Agrees(t: Table, codes: map<Kind, Byte>) {
    forall k :: k in codes ==> codes[k] < TABLE_SIZE && t[codes[k]] == k
  }

  function EncodeAll(codes: map<Kind, Byte>, v: Width, rs: seq<Request>): seq<seq<Byte>>
    requires forall r :: r in rs ==> KindOf(r) in codes
  {
    if rs == [] then [] else [Encode(codes[KindOf(rs[0])], v, rs[0])] + EncodeAll(codes, v, rs[1..])
  }

  lemma {:induction false} EncodeAllSizes(t: Table, codes: map<Kind, Byte>, v: Width, rs: seq<Request>)
    requires v <= 4 && Agrees(t, codes)
    requires forall r :: r in rs ==> KindOf(r) in codes && WellFormed(v, r)
    ensures forall m :: m in EncodeAll(codes, v, rs) ==> m != [] && MessageSize(t, v, m) == |m|
  {
    if rs == [] {
    } else {
      assert rs[0] in rs;
      EncodedSize(t, codes[KindOf(rs[0])], v, rs[0]);
      hide Encode, MessageSize, WellFormed, KindOf;
      EncodeAllSizes(t, codes, v, rs[1..]);
    }
  }

  // A pipeline of requests arrives whole and in order, however the network cuts it: each
  // dispatched view is one request's bytes, and nothing is left over.
  lemma PipelineArrives(t: Table, codes: map<Kind, Byte>, v: Width, rs: seq<Request>, chunks: seq<seq<Byte>>)
    requires v <= 4 && Agrees(t, codes)
    requires forall r :: r in rs ==> KindOf(r) in codes && WellFormed(v, r)
    requires Flatten(chunks) == Flatten(EncodeAll(codes, v, rs))
    ensures Framing.ParseReads(t, v, [], chunks) == Framing.Parsed(EncodeAll(codes, v, rs), [])
  {
    EncodeAllSizes(t, codes, v, rs);
    hide Encode, MessageSize, WellFormed;
    Framing.MessagesSurviveChunking(t, v, EncodeAll(codes, v, rs), chunks);
  }
}
