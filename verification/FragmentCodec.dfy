/** The layout shared by the fragmented responses, and the client that reads it back. */
module FragmentCodec {
  import opened Bytes
  import opened Wrappers

  // A record is a fixed-size block of metadata and, in the named layouts, a name whose
  // length is the first metadata byte.
  datatype Rec = Rec(meta: seq<Byte>, name: seq<Byte>)

  datatype Layout = Layout(metaSize: nat, named: bool)

  predicate NameLength(l: Layout, meta: seq<Byte>, n: nat) {
    n == if l.named && meta != [] then meta[0] else 0
  }

  ghost predicate WellFormed(l: Layout, r: Rec) {
    |r.meta| == l.metaSize && NameLength(l, r.meta, |r.name|)
  }

  ghost predicate AllWellFormed(l: Layout, rs: seq<Rec>) {
    forall r :: r in rs ==> WellFormed(l, r)
  }

  function Metas(rs: seq<Rec>): seq<Byte> {
    if rs == [] then [] else rs[0].meta + Metas(rs[1..])
  }

  function Names(rs: seq<Rec>): seq<Byte> {
    if rs == [] then [] else rs[0].name + Names(rs[1..])
  }

  function EncodeFragment(index: nat, rs: seq<Rec>): seq<Byte> {
    EncodeLE(index, 8) + EncodeLE(|rs|, 8) + (Metas(rs) + Names(rs))
  }

  // Fragments are numbered from `index` on.
  function EncodeBody(index: nat, fs: seq<seq<Rec>>): seq<Byte>
    decreases |fs|
  {
    if fs == [] then [] else EncodeFragment(index, fs[0]) + EncodeBody(index + 1, fs[1..])
  }

  const SUCCESS: Byte := 1

  function Encode(fs: seq<seq<Rec>>): seq<Byte> {
    [SUCCESS] + EncodeLE(|fs|, 8) + EncodeBody(1, fs)
  }

  lemma EncodeInSteps(fs: seq<seq<Rec>>)
    ensures [] + [SUCCESS] + EncodeLE(|fs|, 8) + EncodeBody(1, fs) == Encode(fs)
  {
    hide EncodeLE, EncodeBody;
  }

  // The reading side.

  datatype Fragment = Fragment(index: nat, records: seq<Rec>)

  function ReadMetas(l: Layout, n: nat, b: seq<Byte>): Option<(seq<seq<Byte>>, seq<Byte>)> {
    if n == 0 then Some(([], b))
    else if |b| < l.metaSize then None
    else match ReadMetas(l, n - 1, b[l.metaSize..])
         case None => None
         case Some((metas, rest)) => Some(([b[..l.metaSize]] + metas, rest))
  }

  function ReadNames(l: Layout, metas: seq<seq<Byte>>, b: seq<Byte>): Option<(seq<Rec>, seq<Byte>)> {
    if metas == [] then Some(([], b))
    else
      var n: nat := if l.named && metas[0] != [] then metas[0][0] else 0;
      if |b| < n then None
      else match ReadNames(l, metas[1..], b[n..])
           case None => None
           case Some((rs, rest)) => Some(([Rec(metas[0], b[..n])] + rs, rest))
  }

  function ReadFragments(l: Layout, count: nat, b: seq<Byte>): Option<(seq<Fragment>, seq<Byte>)> {
    if count == 0 then Some(([], b))
    else if |b| < 16 then None
    else match ReadMetas(l, DecodeLE(b[8..16]), b[16..])
         case None => None
         case Some((metas, names)) =>
           match ReadNames(l, metas, names)
           case None => None
           case Some((rs, rest)) =>
             match ReadFragments(l, count - 1, rest)
             case None => None
             case Some((fs, tail)) => Some(([Fragment(DecodeLE(b[..8]), rs)] + fs, tail))
  }

  // What a client makes of a response, and the bytes it leaves unread.
  function Decode(l: Layout, b: seq<Byte>): Option<(seq<Fragment>, seq<Byte>)> {
    if |b| < 9 || b[0] != SUCCESS then None
    else ReadFragments(l, DecodeLE(b[1..9]), b[9..])
  }

  function Numbered(index: nat, fs: seq<seq<Rec>>): seq<Fragment>
    decreases |fs|
  {
    if fs == [] then [] else [Fragment(index, fs[0])] + Numbered(index + 1, fs[1..])
  }

  function MetasOf(rs: seq<Rec>): seq<seq<Byte>> {
    if rs == [] then [] else [rs[0].meta] + MetasOf(rs[1..])
  }

  lemma {:induction false} ReadsMetas(l: Layout, rs: seq<Rec>, tail: seq<Byte>)
    requires AllWellFormed(l, rs)
    ensures ReadMetas(l, |rs|, Metas(rs) + tail) == Some((MetasOf(rs), tail))
  {
    if rs == [] {
      assert Metas(rs) + tail == tail;
    } else {
      assert rs[0] in rs;
      ReadsMetas(l, rs[1..], tail);
      Cut(rs[0].meta, Metas(rs[1..]) + tail);
      Assoc(rs[0].meta, Metas(rs[1..]), tail);
    }
  }

  lemma ReadOneName(l: Layout, r: Rec, metas: seq<seq<Byte>>, rs: seq<Rec>, rest: seq<Byte>, tail: seq<Byte>)
    requires WellFormed(l, r)
    requires ReadNames(l, metas, rest) == Some((rs, tail))
    ensures ReadNames(l, [r.meta] + metas, r.name + rest) == Some(([r] + rs, tail))
  {
  }

  lemma {:induction false} ReadsNames(l: Layout, rs: seq<Rec>, tail: seq<Byte>)
    requires AllWellFormed(l, rs)
    ensures ReadNames(l, MetasOf(rs), Names(rs) + tail) == Some((rs, tail))
  {
    if rs == [] {
      assert Names(rs) + tail == tail;
    } else {
      hide ReadNames;
      var r, names := rs[0], Names(rs[1..]);
      assert r in rs;
      ReadsNames(l, rs[1..], tail);
      ReadOneName(l, r, MetasOf(rs[1..]), rs[1..], names + tail, tail);
      Assoc(r.name, names, tail);
      assert [r] + rs[1..] == rs;
    }
  }

  // A fragment's two counters and its records come off the front of the bytes.
  lemma CutFragment(index: nat, f: seq<Rec>, rest: seq<Byte>)
    requires index < U64 && |f| < U64
    ensures var b := EncodeFragment(index, f) + rest;
            && |b| >= 16
            && DecodeLE(b[..8]) == index
            && DecodeLE(b[8..16]) == |f|
            && b[16..] == Metas(f) + (Names(f) + rest)
  {
    var i, n, body := EncodeLE(index, 8), EncodeLE(|f|, 8), Metas(f) + (Names(f) + rest);
    assert EncodeFragment(index, f) + rest == i + (n + body);
    assert (i + (n + body))[..8] == i && (i + (n + body))[8..16] == n;
    assert (i + (n + body))[16..] == body;
    DecodeEncodeWord(index);
    DecodeEncodeWord(|f|);
  }

  lemma ReadOneFragment(l: Layout, index: nat, f: seq<Rec>, fs: seq<Fragment>, rest: seq<Byte>, tail: seq<Byte>,
                        count: nat)
    requires AllWellFormed(l, f) && index < U64 && |f| < U64
    requires ReadFragments(l, count, rest) == Some((fs, tail))
    ensures ReadFragments(l, count + 1, EncodeFragment(index, f) + rest) == Some(([Fragment(index, f)] + fs, tail))
  {
    CutFragment(index, f, rest);
    ReadsMetas(l, f, Names(f) + rest);
    ReadsNames(l, f, rest);
    hide EncodeFragment, EncodeLE, DecodeLE, Metas, Names, ReadMetas, ReadNames, AllWellFormed;
  }

  lemma ReadsNothing(l: Layout, b: seq<Byte>)
    ensures ReadFragments(l, 0, b) == Some(([], b))
  {
  }

  // Sizes that their eight-byte fields can carry.
  ghost predicate Encodable(l: Layout, fs: seq<seq<Rec>>) {
    forall f :: f in fs ==> AllWellFormed(l, f) && |f| < U64
  }

  lemma {:induction false} ReadsFragments(l: Layout, index: nat, fs: seq<seq<Rec>>, tail: seq<Byte>)
    requires Encodable(l, fs)
    requires index + |fs| <= U64
    ensures ReadFragments(l, |fs|, EncodeBody(index, fs) + tail) == Some((Numbered(index, fs), tail))
    decreases |fs|
  {
    hide ReadFragments, EncodeFragment, AllWellFormed;
    if fs == [] {
      assert EncodeBody(index, fs) + tail == tail;
      ReadsNothing(l, tail);
    } else {
      var f, body := fs[0], EncodeBody(index + 1, fs[1..]);
      assert f in fs;
      assert (EncodeFragment(index, f) + body) + tail == EncodeFragment(index, f) + (body + tail);
      ReadsFragments(l, index + 1, fs[1..], tail);
      ReadOneFragment(l, index, f, Numbered(index + 1, fs[1..]), body + tail, tail, |fs| - 1);
    }
  }

  lemma CutResponse(fs: seq<seq<Rec>>, tail: seq<Byte>)
    requires |fs| < U64
    ensures var b := Encode(fs) + tail;
            && |b| >= 9 && b[0] == SUCCESS
            && DecodeLE(b[1..9]) == |fs|
            && b[9..] == EncodeBody(1, fs) + tail
  {
    hide EncodeLE, DecodeLE, EncodeBody;
    var n, body := EncodeLE(|fs|, 8), EncodeBody(1, fs) + tail;
    var b := [SUCCESS] + (n + body);
    assert Encode(fs) + tail == b;
    assert b[1..9] == n && b[9..] == body;
    DecodeEncodeWord(|fs|);
  }

  // Where a client finds the status, the counters and the first fragment of a response.
  lemma ResponseLayout(fs: seq<seq<Rec>>)
    requires 0 < |fs| < U64 && |fs[0]| < U64
    ensures var b, metas := Encode(fs), Metas(fs[0]);
            && |b| >= 25 + |metas| + |Names(fs[0])|
            && b[0] == 0x01
            && DecodeLE(b[1..9]) == |fs| && DecodeLE(b[9..17]) == 1 && DecodeLE(b[17..25]) == |fs[0]|
            && b[25..25 + |metas|] == metas
            && b[25 + |metas|..25 + |metas| + |Names(fs[0])|] == Names(fs[0])
            && b[25 + |metas| + |Names(fs[0])|..] == EncodeBody(2, fs[1..])
  {
    CutResponse(fs, []);
    var b, f, rest := Encode(fs), fs[0], EncodeBody(2, fs[1..]);
    assert b + [] == b;
    assert EncodeBody(1, fs) + [] == EncodeFragment(1, f) + rest;
    CutFragment(1, f, rest);
    hide Encode, EncodeFragment, EncodeBody, EncodeLE, DecodeLE, Metas, Names;
    assert b[9..][..8] == b[9..17] && b[9..][8..16] == b[17..25] && b[9..][16..] == b[25..];
    ThreeParts(b, 25, Metas(f), Names(f), rest);
  }

  // A client reads back every fragment with its number, its records and its names,
  // and stops exactly where the response ends.
  lemma ResponseRoundTrip(l: Layout, fs: seq<seq<Rec>>, tail: seq<Byte>)
    requires Encodable(l, fs) && |fs| < U64
    ensures Decode(l, Encode(fs) + tail) == Some((Numbered(1, fs), tail))
  {
    CutResponse(fs, tail);
    ReadsFragments(l, 1, fs, tail);
    hide Encode;
  }

  lemma {:induction false} NumberedAt(index: nat, fs: seq<seq<Rec>>, i: nat)
    requires i < |fs|
    ensures |Numbered(index, fs)| == |fs|
    ensures Numbered(index, fs)[i] == Fragment(index + i, fs[i])
    decreases |fs|
  {
    if |fs| == 1 {
    } else if i == 0 {
      NumberedAt(index + 1, fs[1..], 0);
    } else {
      NumberedAt(index + 1, fs[1..], i - 1);
    }
  }
}
