/** The CONNECTIONS response: 237-byte records of the connections in the four maps. */
module ConnectionsResponse {
  import opened Bytes
  import opened Messages
  import opened Packing
  import Codec = FragmentCodec

  const MAX_FRAGMENT: nat := 2048
  const RECORD: nat := 237

  const PER_FRAGMENT: nat := 8

  // A registered connection, with the accumulators of its metrics in the order they are
  // reported: seven network words (the first is connected_at) and eighteen command words.
  datatype PeerData = PeerData(
    tcp: bool,
    id: seq<Byte>,
    typeCode: Byte,
    kindCode: Byte,
    ip: seq<Byte>,
    port: nat,
    network: seq<Word>,
    commands: seq<Word>)

  type Peer = c: PeerData |
    |c.id| == 16 && c.port < 0x1_0000 && |c.network| == 7 && |c.commands| == 18
    witness PeerData(true, seq(16, _ => 0), 0, 0, [], 0, seq(7, _ => 0), seq(18, _ => 0))

  const COLON: Byte := 58

  // The address text cut or padded with zeros to sixteen bytes.
  function PaddedIp(ip: seq<Byte>): (r: seq<Byte>)
    ensures |r| == 16
  {
    if |ip| >= 16 then ip[..16] else ip + seq(16 - |ip|, _ => 0)
  }

  function Words(ws: seq<Word>): (r: seq<Byte>)
    ensures |r| == 8 * |ws|
  {
    if ws == [] then [] else EncodeLE(ws[0], 8) + Words(ws[1..])
  }

  function RecordOf(c: Peer): (r: seq<Byte>)
    ensures |r| == RECORD
  {
    c.id + [c.typeCode] + [c.kindCode] + [if COLON in c.ip then 6 else 4]
    + PaddedIp(c.ip) + EncodeLE(c.port, 2) + Words(c.network) + Words(c.commands)
  }

  lemma WordsSnoc(ws: seq<Word>, i: nat)
    requires i < |ws|
    ensures Words(ws[..i + 1]) == Words(ws[..i]) + EncodeLE(ws[i], 8)
  {
    hide EncodeLE;
    if i == 0 {
      assert ws[..1] == [ws[0]];
      assert ws[..0] == [];
      assert Words([ws[0]]) == EncodeLE(ws[0], 8) + Words([]);
    } else {
      assert ws[..i + 1][1..] == ws[1..][..i];
      assert ws[..i][1..] == ws[1..][..i - 1];
      WordsSnoc(ws[1..], i - 1);
      Assoc(EncodeLE(ws[0], 8), Words(ws[1..][..i - 1]), EncodeLE(ws[i], 8));
    }
  }

  method FillWords(m: Message, ghost before: seq<Segment>, ghost own: seq<Byte>, ghost size: nat,
                   ghost start: nat, offset: nat, ghost filled: seq<Byte>, ws: seq<Word>)
    returns (next: nat)
    requires Filling(m, before, own, size, start, offset, filled) && offset + 8 * |ws| <= size
    modifies m`writeBuffer
    ensures next == offset + 8 * |ws|
    ensures Filling(m, before, own, size, start, next, filled + Words(ws))
    ensures m.Out(|before|) == old(m.Out(|before|))
  {
    hide Filling, EncodeLE, Words;
    next := offset;
    WordsNone(ws);
    assert filled + [] == filled;
    for i := 0 to |ws|
      invariant next == offset + 8 * i
      invariant Filling(m, before, own, size, start, next, filled + Words(ws[..i]))
      invariant m.Out(|before|) == old(m.Out(|before|))
    {
      WordsSnoc(ws, i);
      Assoc(filled, Words(ws[..i]), EncodeLE(ws[i], 8));
      next := Fill(m, before, own, size, start, next, filled + Words(ws[..i]), EncodeLE(ws[i], 8));
    }
    assert ws[..|ws|] == ws;
  }

  lemma WordsNone(ws: seq<Word>)
    ensures Words(ws[..0]) == []
  {
  }

  // write_connections_entry_to_buffer in writing mode.
  method WriteRecord(m: Message, ghost before: seq<Segment>, ghost own: seq<Byte>, ghost size: nat,
                     offset: nat, c: Peer)
    returns (next: nat)
    requires Writing(m, before, own, size, offset) && offset + RECORD <= size
    modifies m`writeBuffer, m`buffers
    ensures next == offset + RECORD
    ensures Writing(m, before, own, size, next)
    ensures m.Out(|before|) == old(m.Out(|before|)) + RecordOf(c)
    ensures |m.buffers| == |old(m.buffers)| + 1
  {
    assert Filling(m, before, own, size, offset, offset, []);
    assert [] + c.id == c.id;
    hide Writing, Filling, EncodeLE, Words, PaddedIp;
    ghost var f0 := c.id;
    next := Fill(m, before, own, size, offset, offset, [], c.id);
    next := Fill(m, before, own, size, offset, next, f0, [c.typeCode]);
    ghost var f1 := f0 + [c.typeCode];
    next := Fill(m, before, own, size, offset, next, f1, [c.kindCode]);
    ghost var f2 := f1 + [c.kindCode];
    var version: Byte := if COLON in c.ip then 6 else 4;
    next := Fill(m, before, own, size, offset, next, f2, [version]);
    ghost var f3 := f2 + [version];
    next := Fill(m, before, own, size, offset, next, f3, PaddedIp(c.ip));
    ghost var f4 := f3 + PaddedIp(c.ip);
    next := Fill(m, before, own, size, offset, next, f4, EncodeLE(c.port, 2));
    ghost var f5 := f4 + EncodeLE(c.port, 2);
    next := FillWords(m, before, own, size, offset, next, f5, c.network);
    next := FillWords(m, before, own, size, offset, next, f5 + Words(c.network), c.commands);
    EmplaceFilled(m, before, own, size, offset, next, RecordOf(c));
  }

  // A fragment under construction keeps its TCP and its UNIX connections apart.
  datatype Fragment = Fragment(tcp: seq<Peer>, unix: seq<Peer>)

  function Tcps(cs: seq<Peer>): seq<Peer> {
    if cs == [] then [] else (if cs[0].tcp then [cs[0]] else []) + Tcps(cs[1..])
  }

  function Unixes(cs: seq<Peer>): seq<Peer> {
    if cs == [] then [] else (if cs[0].tcp then [] else [cs[0]]) + Unixes(cs[1..])
  }

  function Split(cs: seq<Peer>): Fragment {
    Fragment(Tcps(cs), Unixes(cs))
  }

  function SplitAll(groups: seq<seq<Peer>>): seq<Fragment> {
    if groups == [] then [] else [Split(groups[0])] + SplitAll(groups[1..])
  }

  // The order in which a group's records are written.
  function Ordered(cs: seq<Peer>): seq<Peer> {
    Tcps(cs) + Unixes(cs)
  }

  lemma {:induction false} OrderedIsPermutation(cs: seq<Peer>)
    ensures multiset(Ordered(cs)) == multiset(cs)
    ensures |Ordered(cs)| == |Tcps(cs)| + |Unixes(cs)| == |cs|
  {
    if cs == [] {
    } else {
      OrderedIsPermutation(cs[1..]);
      assert cs == [cs[0]] + cs[1..];
    }
  }

  lemma {:induction false} SplitSnoc(cs: seq<Peer>, c: Peer)
    ensures Split(cs + [c]) == if c.tcp then Fragment(Tcps(cs) + [c], Unixes(cs))
                               else Fragment(Tcps(cs), Unixes(cs) + [c])
  {
    if cs == [] {
      assert [] + [c] == [c];
      assert Tcps([c]) == (if c.tcp then [c] else []) + Tcps([]);
      assert Unixes([c]) == (if c.tcp then [] else [c]) + Unixes([]);
    } else {
      assert (cs + [c])[0] == cs[0] && (cs + [c])[1..] == cs[1..] + [c];
      SplitSnoc(cs[1..], c);
    }
  }

  function RecordSize(): Peer -> nat {
    (c: Peer) => RECORD
  }

  // The groups of connections that share a fragment.
  function Groups(cs: seq<Peer>): seq<seq<Peer>> {
    Fragments(RecordSize(), MAX_FRAGMENT, cs)
  }

  ghost predicate Filled(fragments: seq<Fragment>, fragment: Fragment, current: seq<Peer>, size: nat,
                         left: seq<Peer>, all: seq<Peer>) {
    && fragment == Split(current)
    && fragments + SplitAll(Pack(RecordSize(), MAX_FRAGMENT, left, current, size)) == SplitAll(Groups(all))
  }

  lemma FilledStep(fragments: seq<Fragment>, fragment: Fragment, current: seq<Peer>, size: nat,
                   c: Peer, left: seq<Peer>, all: seq<Peer>)
    requires Filled(fragments, fragment, current, size, [c] + left, all)
    ensures size + RECORD > MAX_FRAGMENT ==>
              Filled(fragments + [fragment], Split([c]), [c], RECORD, left, all)
    ensures size + RECORD <= MAX_FRAGMENT ==>
              Filled(fragments, Split(current + [c]), current + [c], size + RECORD, left, all)
  {
  }

  // The fragmenter, called once for each map of connections.
  method FragmentMap(cs: seq<Peer>, fragments0: seq<Fragment>, fragment0: Fragment, size0: nat,
                     batchSize0: nat, bufferSize0: nat,
                     ghost current0: seq<Peer>, ghost left: seq<Peer>, ghost all: seq<Peer>)
    returns (fragments: seq<Fragment>, fragment: Fragment, size: nat,
             batchSize: nat, bufferSize: nat, ghost current: seq<Peer>)
    requires Filled(fragments0, fragment0, current0, size0, cs + left, all)
    ensures Filled(fragments, fragment, current, size, left, all)
    ensures batchSize == batchSize0 + |cs| && bufferSize == bufferSize0 + RECORD * |cs|
  {
    hide Filled, Split;
    fragments, fragment, size, current := fragments0, fragment0, size0, current0;
    batchSize, bufferSize := batchSize0, bufferSize0;
    assert cs[0..] == cs;
    for i := 0 to |cs|
      invariant Filled(fragments, fragment, current, size, cs[i..] + left, all)
      invariant batchSize == batchSize0 + i && bufferSize == bufferSize0 + RECORD * i
    {
      var c := cs[i];
      assert cs[i..] + left == [c] + (cs[i + 1..] + left);
      FilledStep(fragments, fragment, current, size, c, cs[i + 1..] + left, all);
      FilledIsSplit(fragments, fragment, current, size, cs[i..] + left, all);
      batchSize := batchSize + 1;
      bufferSize := bufferSize + RECORD;
      if size + RECORD > MAX_FRAGMENT {
        fragments := fragments + [fragment];
        fragment := Fragment([], []);
        size := 0;
        current := [];
        assert [] + [c] == [c];
        SplitNone();
      }
      SplitSnoc(current, c);
      if c.tcp {
        fragment := Fragment(fragment.tcp + [c], fragment.unix);
      } else {
        fragment := Fragment(fragment.tcp, fragment.unix + [c]);
      }
      size := size + RECORD;
      current := current + [c];
    }
    assert cs[|cs|..] + left == left;
  }

  lemma SplitNone()
    ensures Split([]) == Fragment([], [])
    ensures Tcps([]) == [] && Unixes([]) == []
  {
  }

  lemma FilledIsSplit(fragments: seq<Fragment>, fragment: Fragment, current: seq<Peer>, size: nat,
                      left: seq<Peer>, all: seq<Peer>)
    requires Filled(fragments, fragment, current, size, left, all)
    ensures fragment == Split(current) && fragment == Fragment(Tcps(current), Unixes(current))
  {
  }

  lemma {:induction false} SplitAllAt(groups: seq<seq<Peer>>)
    ensures |SplitAll(groups)| == |groups|
    ensures forall i :: 0 <= i < |groups| ==> SplitAll(groups)[i] == Split(groups[i])
  {
    if groups == [] {
    } else {
      SplitAllAt(groups[1..]);
    }
  }

  // The connections of the four maps, in the order they are visited.
  function Peers(tcp: seq<Peer>, unix: seq<Peer>, agentTcp: seq<Peer>, agentUnix: seq<Peer>): seq<Peer> {
    tcp + (unix + (agentTcp + (agentUnix + [])))
  }

  // The measuring pass over the four maps, in this order.
  method Measure(tcp: seq<Peer>, unix: seq<Peer>, agentTcp: seq<Peer>, agentUnix: seq<Peer>)
    returns (fragments: seq<Fragment>, batchSize: nat, bufferSize: nat)
    ensures var all := Peers(tcp, unix, agentTcp, agentUnix);
            && fragments == SplitAll(Groups(all))
            && batchSize == 2 + |all| + 2 * |fragments|
            && bufferSize == 8 + RECORD * |all| + 16 * |fragments|
  {
    ghost var all := Peers(tcp, unix, agentTcp, agentUnix);
    var fragment, size := Fragment([], []), 0;
    ghost var current: seq<Peer> := [];
    assert Filled([], fragment, [], 0, all, all) by {
      assert [] + SplitAll(Groups(all)) == SplitAll(Groups(all));
    }
    hide Filled, SplitAll, Groups;
    fragments, fragment, size, batchSize, bufferSize, current :=
      FragmentMap(tcp, [], fragment, size, 2, 8, current, unix + (agentTcp + (agentUnix + [])), all);
    fragments, fragment, size, batchSize, bufferSize, current :=
      FragmentMap(unix, fragments, fragment, size, batchSize, bufferSize, current, agentTcp + (agentUnix + []), all);
    fragments, fragment, size, batchSize, bufferSize, current :=
      FragmentMap(agentTcp, fragments, fragment, size, batchSize, bufferSize, current, agentUnix + [], all);
    fragments, fragment, size, batchSize, bufferSize, current :=
      FragmentMap(agentUnix, fragments, fragment, size, batchSize, bufferSize, current, [], all);
    LastFragment(fragments, fragment, current, size, all);
    if fragment.tcp != [] || fragment.unix != [] {
      fragments := fragments + [fragment];
    }
    batchSize := batchSize + |fragments| * 2;
    bufferSize := bufferSize + |fragments| * 16;
  }

  lemma LastFragment(fragments: seq<Fragment>, fragment: Fragment, current: seq<Peer>, size: nat, all: seq<Peer>)
    requires Filled(fragments, fragment, current, size, [], all)
    ensures SplitAll(Groups(all)) ==
            if fragment.tcp != [] || fragment.unix != [] then fragments + [fragment] else fragments
  {
    OrderedIsPermutation(current);
    if current == [] {
      assert fragments + [] == fragments;
    } else {
      assert SplitAll([current]) == [Split(current)] + SplitAll([]);
      assert [fragment] + [] == [fragment];
    }
  }

  // The records of a list of connections, as the client's decoder cuts them.
  function RecsOf(cs: seq<Peer>): seq<Codec.Rec> {
    if cs == [] then [] else [Codec.Rec(RecordOf(cs[0]), [])] + RecsOf(cs[1..])
  }

  function AllRecs(groups: seq<seq<Peer>>): seq<seq<Codec.Rec>> {
    if groups == [] then [] else [RecsOf(Ordered(groups[0]))] + AllRecs(groups[1..])
  }

  lemma {:induction false} RecsHaveNoNames(cs: seq<Peer>)
    ensures Codec.Names(RecsOf(cs)) == []
    ensures |RecsOf(cs)| == |cs|
    ensures Codec.AllWellFormed(Codec.Layout(RECORD, false), RecsOf(cs))
  {
    hide RecordOf;
    if cs == [] {
    } else {
      RecsHaveNoNames(cs[1..]);
    }
  }

  lemma {:induction false} RecsAppend(a: seq<Peer>, b: seq<Peer>)
    ensures Codec.Metas(RecsOf(a + b)) == Codec.Metas(RecsOf(a)) + Codec.Metas(RecsOf(b))
  {
    hide RecordOf;
    if a == [] {
      assert a + b == b;
    } else {
      var r, rs := Codec.Rec(RecordOf(a[0]), []), RecsOf(a[1..]);
      assert (a + b)[0] == a[0] && (a + b)[1..] == a[1..] + b;
      RecsAppend(a[1..], b);
      assert ([r] + rs)[1..] == rs;
      assert ([r] + RecsOf(a[1..] + b))[1..] == RecsOf(a[1..] + b);
      Assoc(r.meta, Codec.Metas(rs), Codec.Metas(RecsOf(b)));
    }
  }

  lemma RecsHead(cs: seq<Peer>, i: nat)
    requires i < |cs|
    ensures Codec.Metas(RecsOf(cs[i..])) == RecordOf(cs[i]) + Codec.Metas(RecsOf(cs[i + 1..]))
  {
  }

  method WriteRecords(m: Message, ghost before: seq<Segment>, ghost own: seq<Byte>, ghost size: nat,
                      offset: nat, cs: seq<Peer>)
    returns (next: nat)
    requires Writing(m, before, own, size, offset) && offset + RECORD * |cs| <= size
    modifies m`writeBuffer, m`buffers
    ensures next == offset + RECORD * |cs|
    ensures Writing(m, before, own, size, next)
    ensures m.Out(|before|) == old(m.Out(|before|)) + Codec.Metas(RecsOf(cs))
    ensures |m.buffers| == |old(m.buffers)| + |cs|
  {
    hide Writing, RecordOf, RecsOf, Codec.Metas;
    next := offset;
    ghost var out := m.Out(|before|);
    ghost var done: seq<Byte> := [];
    ghost var all := Codec.Metas(RecsOf(cs));
    assert cs[0..] == cs;
    for i := 0 to |cs|
      invariant Writing(m, before, own, size, next)
      invariant next == offset + RECORD * i
      invariant m.Out(|before|) == out + done
      invariant done + Codec.Metas(RecsOf(cs[i..])) == all
      invariant |m.buffers| == |old(m.buffers)| + i
    {
      RecsHead(cs, i);
      Assoc(done, RecordOf(cs[i]), Codec.Metas(RecsOf(cs[i + 1..])));
      Assoc(out, done, RecordOf(cs[i]));
      next := WriteRecord(m, before, own, size, next, cs[i]);
      done := done + RecordOf(cs[i]);
    }
    NothingLeft(cs);
    assert done + [] == done;
  }

  lemma NothingLeft(cs: seq<Peer>)
    ensures Codec.Metas(RecsOf(cs[|cs|..])) == []
  {
  }

  // Buffer bytes and connections in a list of groups.
  function Total(groups: seq<seq<Peer>>): nat {
    if groups == [] then 0 else |groups[0]| + Total(groups[1..])
  }

  lemma {:induction false} TotalIsLength(groups: seq<seq<Peer>>)
    ensures Total(groups) == |Flatten(groups)|
  {
    if groups == [] {
    } else {
      TotalIsLength(groups[1..]);
    }
  }

  lemma FragmentInSteps(out: seq<Byte>, index: nat, cs: seq<Peer>)
    ensures var tcp, unix := Codec.Metas(RecsOf(Tcps(cs))), Codec.Metas(RecsOf(Unixes(cs)));
            out + EncodeLE(index, 8) + EncodeLE(|cs|, 8) + tcp + unix
            == out + Codec.EncodeFragment(index, RecsOf(Ordered(cs)))
  {
    OrderedIsPermutation(cs);
    RecsHaveNoNames(Ordered(cs));
    RecsAppend(Tcps(cs), Unixes(cs));
    hide EncodeLE, RecsOf, Tcps, Unixes, Codec.Metas, Codec.Names;
    var a, b := EncodeLE(index, 8), EncodeLE(|cs|, 8);
    var tcp, unix := Codec.Metas(RecsOf(Tcps(cs))), Codec.Metas(RecsOf(Unixes(cs)));
    Assoc(out, a, b);
    Assoc(out + (a + b), tcp, unix);
    Assoc(out, a + b, tcp + unix);
    assert (tcp + unix) + [] == tcp + unix;
  }

  method WriteFragment(m: Message, ghost before: seq<Segment>, ghost own: seq<Byte>, ghost size: nat,
                       offset: nat, index: nat, fragment: Fragment, ghost cs: seq<Peer>)
    returns (next: nat)
    requires fragment == Split(cs)
    requires Writing(m, before, own, size, offset) && offset + 16 + RECORD * |cs| <= size
    modifies m`writeBuffer, m`buffers
    ensures next == offset + 16 + RECORD * |cs|
    ensures Writing(m, before, own, size, next)
    ensures m.Out(|before|) == old(m.Out(|before|)) + Codec.EncodeFragment(index, RecsOf(Ordered(cs)))
    ensures |m.buffers| == |old(m.buffers)| + 2 + |cs|
  {
    OrderedIsPermutation(cs);
    FragmentInSteps(m.Out(|before|), index, cs);
    hide Writing, RecsOf, EncodeLE, Ordered, Tcps, Unixes, Codec.EncodeFragment, Codec.Metas, Codec.Names;
    var count := |fragment.tcp| + |fragment.unix|;
    assert count == |cs|;
    next := Put(m, before, own, size, offset, EncodeLE(index, 8));
    next := Put(m, before, own, size, next, EncodeLE(count, 8));
    next := WriteRecords(m, before, own, size, next, fragment.tcp);
    next := WriteRecords(m, before, own, size, next, fragment.unix);
  }

  lemma BodyHead(groups: seq<seq<Peer>>, i: nat)
    requires i < |groups|
    ensures Total(groups[i..]) == |groups[i]| + Total(groups[i + 1..])
    ensures Codec.EncodeBody(i + 1, AllRecs(groups[i..]))
         == Codec.EncodeFragment(i + 1, RecsOf(Ordered(groups[i]))) + Codec.EncodeBody(i + 2, AllRecs(groups[i + 1..]))
  {
  }

  lemma BodyEnd(groups: seq<seq<Peer>>)
    ensures Total(groups[|groups|..]) == 0
    ensures Codec.EncodeBody(|groups| + 1, AllRecs(groups[|groups|..])) == []
  {
  }

  method WriteBody(m: Message, ghost before: seq<Segment>, ghost own: seq<Byte>, ghost size: nat,
                   offset: nat, fragments: seq<Fragment>, ghost groups: seq<seq<Peer>>)
    returns (next: nat)
    requires fragments == SplitAll(groups)
    requires Writing(m, before, own, size, offset)
    requires offset + 16 * |groups| + RECORD * Total(groups) <= size
    modifies m`writeBuffer, m`buffers
    ensures next == offset + 16 * |groups| + RECORD * Total(groups)
    ensures Writing(m, before, own, size, next)
    ensures m.Out(|before|) == old(m.Out(|before|)) + Codec.EncodeBody(1, AllRecs(groups))
    ensures |m.buffers| == |old(m.buffers)| + 2 * |groups| + Total(groups)
  {
    hide Writing, RecsOf, AllRecs, Ordered, Split, SplitAll, Total, Codec.EncodeBody, Codec.EncodeFragment;
    next := offset;
    SplitAllAt(groups);
    ghost var out := m.Out(|before|);
    ghost var done: seq<Byte> := [];
    ghost var all := Codec.EncodeBody(1, AllRecs(groups));
    assert groups[0..] == groups;
    for i := 0 to |fragments|
      invariant Writing(m, before, own, size, next)
      invariant next + 16 * (|groups| - i) + RECORD * Total(groups[i..])
             == offset + 16 * |groups| + RECORD * Total(groups)
      invariant m.Out(|before|) == out + done
      invariant done + Codec.EncodeBody(i + 1, AllRecs(groups[i..])) == all
      invariant |m.buffers| + 2 * (|groups| - i) + Total(groups[i..]) == |old(m.buffers)| + 2 * |groups| + Total(groups)
    {
      BodyHead(groups, i);
      ghost var bytes := Codec.EncodeFragment(i + 1, RecsOf(Ordered(groups[i])));
      Assoc(done, bytes, Codec.EncodeBody(i + 2, AllRecs(groups[i + 1..])));
      Assoc(out, done, bytes);
      next := WriteFragment(m, before, own, size, next, i + 1, fragments[i], groups[i]);
      done := done + bytes;
    }
    BodyEnd(groups);
    assert done + [] == done;
  }

  lemma {:induction false} AllRecsShape(groups: seq<seq<Peer>>)
    ensures |AllRecs(groups)| == |groups|
    ensures forall i :: 0 <= i < |groups| ==> AllRecs(groups)[i] == RecsOf(Ordered(groups[i]))
  {
    hide RecsOf, Ordered;
    if groups == [] {
    } else {
      AllRecsShape(groups[1..]);
    }
  }

  // handle_fragmented_connections_response
  method HandleFragmentedConnections(m: Message, tcp: seq<Peer>, unix: seq<Peer>,
                                     agentTcp: seq<Peer>, agentUnix: seq<Peer>)
    modifies m
    ensures var groups := Groups(Peers(tcp, unix, agentTcp, agentUnix));
            && m.Out(|old(m.buffers)|) == Codec.Encode(AllRecs(groups))
            && m.generation == old(m.generation) + 1
            && Writing(m, old(m.buffers), old(m.writeBuffer), |m.writeBuffer|, |m.writeBuffer|)
            && |m.writeBuffer| == |old(m.writeBuffer)| + 8 + 16 * |groups|
                                  + RECORD * |Peers(tcp, unix, agentTcp, agentUnix)|
            && |m.buffers| == m.reserved
            && m.reserved == |old(m.buffers)| + 2 + 2 * |groups| + |Peers(tcp, unix, agentTcp, agentUnix)|
    ensures m.inUse == old(m.inUse) && m.recyclable == old(m.recyclable)
  {
    hide Peers, Groups, AllRecs, SplitAll, Split, Total, Flatten, RecsOf, Ordered, Writing;
    hide Codec.Encode, Codec.EncodeBody, EncodeLE;
    ghost var before, own := m.buffers, m.writeBuffer;
    var offset := |m.writeBuffer|;
    ghost var all := Peers(tcp, unix, agentTcp, agentUnix);
    ghost var groups := Groups(all);
    var fragments, batchSize, bufferSize := Measure(tcp, unix, agentTcp, agentUnix);
    SplitAllAt(groups);
    TotalIsLength(groups);
    GroupsConserve(all);
    MakeRoom(m, batchSize, bufferSize);
    ghost var size := |m.writeBuffer|;
    PutForeign(m, before, own, size, offset, [Codec.SUCCESS]);
    offset := Put(m, before, own, size, offset, EncodeLE(|fragments|, 8));
    offset := WriteBody(m, before, own, size, offset, fragments, groups);
    AllRecsShape(groups);
    Codec.EncodeInSteps(AllRecs(groups));
    WritingSize(m, before, own, size, offset);
  }

  lemma GroupsConserve(cs: seq<Peer>)
    ensures Flatten(Groups(cs)) == cs
  {
    FragmentsConserve(RecordSize(), MAX_FRAGMENT, cs);
  }

  // Eight records fill a fragment.
  lemma FragmentCount(cs: seq<Peer>)
    ensures |Groups(cs)| == CeilDiv(|cs|, PER_FRAGMENT)
  {
    UniformFragments(RecordSize(), MAX_FRAGMENT, cs, RECORD, PER_FRAGMENT);
  }

  // Where the client finds each field of a record.
  lemma RecordLayout(c: Peer)
    ensures var r := RecordOf(c);
            && r[..16] == c.id
            && r[16] == c.typeCode && r[17] == c.kindCode
            && r[18] == (if COLON in c.ip then 6 else 4)
            && r[19..35] == PaddedIp(c.ip)
            && DecodeLE(r[35..37]) == c.port
            && r[37..93] == Words(c.network)
            && r[93..] == Words(c.commands)
  {
    Pow256Values();
    DecodeEncodeLE(c.port, 2);
    hide EncodeLE, DecodeLE, Words, PaddedIp;
    assert RecordOf(c)[35..37] == EncodeLE(c.port, 2);
  }

  lemma {:induction false} WordsAt(ws: seq<Word>, i: nat)
    requires i < |ws|
    ensures DecodeLE(Words(ws)[8 * i..8 * i + 8]) == ws[i]
  {
    hide EncodeLE, DecodeLE;
    Cut(EncodeLE(ws[0], 8), Words(ws[1..]));
    if i == 0 {
      DecodeEncodeWord(ws[0]);
    } else {
      WordsAt(ws[1..], i - 1);
      assert Words(ws)[8 * i..8 * i + 8] == Words(ws)[8..][8 * (i - 1)..8 * (i - 1) + 8];
    }
  }

  lemma {:induction false} FlattenOrdered(groups: seq<seq<Peer>>, i: nat)
    requires i < |groups|
    ensures |Ordered(groups[i])| <= |Flatten(groups)|
  {
    OrderedIsPermutation(groups[i]);
    if i == 0 {
    } else {
      FlattenOrdered(groups[1..], i - 1);
    }
  }

  // Decoding the response yields the groups, numbered from one, each with the records of
  // its connections, TCP before UNIX; together they hold every connection exactly once.
  lemma ConnectionsRoundTrip(all: seq<Peer>, next: seq<Byte>)
    requires |all| < U64
    ensures var groups := Groups(all);
            var answer := Codec.Decode(Codec.Layout(RECORD, false), Codec.Encode(AllRecs(groups)) + next);
            && answer.Some? && answer.value.1 == next
            && |answer.value.0| == |groups| == CeilDiv(|all|, PER_FRAGMENT)
            && (forall i :: 0 <= i < |groups| ==>
                  answer.value.0[i] == Codec.Fragment(i + 1, RecsOf(Ordered(groups[i]))))
            && (forall i :: 0 <= i < |groups| ==> multiset(Ordered(groups[i])) == multiset(groups[i]))
            && Flatten(groups) == all
  {
    hide Groups, AllRecs, RecsOf, Ordered, RecordOf, Codec.Encode, Codec.Decode;
    var groups, l := Groups(all), Codec.Layout(RECORD, false);
    GroupsConserve(all);
    FragmentCount(all);
    AllRecsShape(groups);
    var recs := AllRecs(groups);
    forall i | 0 <= i < |groups|
      ensures Codec.AllWellFormed(l, recs[i]) && |recs[i]| < U64
      ensures multiset(Ordered(groups[i])) == multiset(groups[i])
    {
      RecsHaveNoNames(Ordered(groups[i]));
      FlattenOrdered(groups, i);
      OrderedIsPermutation(groups[i]);
    }
    assert (|all| + 7) / 8 <= |all|;
    Codec.ResponseRoundTrip(l, recs, next);
    if |groups| > 0 {
      Codec.NumberedAt(1, recs, 0);
    }
    forall i | 0 <= i < |groups|
      ensures Codec.Numbered(1, recs)[i] == Codec.Fragment(i + 1, RecsOf(Ordered(groups[i])))
    {
      Codec.NumberedAt(1, recs, i);
    }
  }

  // ----- All four maps, in one response

  // The records of a list of connections, and of a decoded response.
  function Records(cs: seq<Peer>): seq<seq<Byte>> {
    if cs == [] then [] else [RecordOf(cs[0])] + Records(cs[1..])
  }

  function MetasIn(rs: seq<Codec.Rec>): seq<seq<Byte>> {
    if rs == [] then [] else [rs[0].meta] + MetasIn(rs[1..])
  }

  function RecordsIn(fs: seq<Codec.Fragment>): seq<seq<Byte>> {
    if fs == [] then [] else MetasIn(fs[0].records) + RecordsIn(fs[1..])
  }

  lemma {:induction false} RecordsAppend(a: seq<Peer>, b: seq<Peer>)
    ensures Records(a + b) == Records(a) + Records(b)
  {
    hide RecordOf;
    if a == [] {
      assert a + b == b;
    } else {
      assert (a + b)[0] == a[0] && (a + b)[1..] == a[1..] + b;
      RecordsAppend(a[1..], b);
    }
  }

  lemma RecordsCons(c: Peer, cs: seq<Peer>)
    ensures Records([c] + cs) == [RecordOf(c)] + Records(cs)
    ensures multiset(Records([c] + cs)) == multiset{RecordOf(c)} + multiset(Records(cs))
  {
  }

  lemma SplitCons(c: Peer, cs: seq<Peer>)
    ensures Tcps([c] + cs) == if c.tcp then [c] + Tcps(cs) else Tcps(cs)
    ensures Unixes([c] + cs) == if c.tcp then Unixes(cs) else [c] + Unixes(cs)
  {
    assert ([c] + cs)[1..] == cs;
    assert [] + Tcps(cs) == Tcps(cs) && [] + Unixes(cs) == Unixes(cs);
  }

  lemma {:induction false} RecordsOrdered(cs: seq<Peer>)
    ensures multiset(Records(Tcps(cs))) + multiset(Records(Unixes(cs))) == multiset(Records(cs))
  {
    if cs == [] {
    } else {
      hide RecordOf, Records, Tcps, Unixes;
      var c, rest := cs[0], cs[1..];
      assert [c] + rest == cs;
      RecordsOrdered(rest);
      SplitCons(c, rest);
      RecordsCons(c, Tcps(rest));
      RecordsCons(c, Unixes(rest));
      RecordsCons(c, rest);
    }
  }

  lemma {:induction false} MetasAreRecords(cs: seq<Peer>)
    ensures MetasIn(RecsOf(cs)) == Records(cs)
  {
    hide RecordOf;
    if cs == [] {
    } else {
      MetasAreRecords(cs[1..]);
    }
  }

  lemma {:induction false} RecordsOfGroups(index: nat, groups: seq<seq<Peer>>)
    ensures multiset(RecordsIn(Codec.Numbered(index, AllRecs(groups)))) == multiset(Records(Flatten(groups)))
    decreases |groups|
  {
    if groups == [] {
    } else {
      hide RecordOf, RecsOf, Records, Tcps, Unixes;
      var cs := groups[0];
      RecordsOfGroups(index + 1, groups[1..]);
      RecordsAppend(cs, Flatten(groups[1..]));
      MetasAreRecords(Ordered(cs));
      RecordsAppend(Tcps(cs), Unixes(cs));
      RecordsOrdered(cs);
      var r, rs := RecsOf(Ordered(cs)), AllRecs(groups[1..]);
      assert ([r] + rs)[0] == r && ([r] + rs)[1..] == rs;
      var f, fs := Codec.Fragment(index, r), Codec.Numbered(index + 1, rs);
      assert ([f] + fs)[0] == f && ([f] + fs)[1..] == fs;
    }
  }

  // Of the records of a fragment, those of TCP connections come first.
  lemma {:induction false} TcpFirst(cs: seq<Peer>)
    ensures forall i :: 0 <= i < |Tcps(cs)| ==> Tcps(cs)[i].tcp
    ensures forall i :: 0 <= i < |Unixes(cs)| ==> !Unixes(cs)[i].tcp
    ensures forall i, j :: 0 <= i < j < |Ordered(cs)| && Ordered(cs)[j].tcp ==> Ordered(cs)[i].tcp
  {
    if cs == [] {
    } else {
      TcpFirst(cs[1..]);
    }
  }

  // The connections of all four maps are visited, one map after the other; their records
  // all arrive, each as often as its connection is there, eight to a fragment.
  lemma AllFourMaps(tcp: seq<Peer>, unix: seq<Peer>, agentTcp: seq<Peer>, agentUnix: seq<Peer>, next: seq<Byte>)
    requires |tcp| + |unix| + |agentTcp| + |agentUnix| < U64
    ensures var groups := Groups(Peers(tcp, unix, agentTcp, agentUnix));
            var answer := Codec.Decode(Codec.Layout(RECORD, false), Codec.Encode(AllRecs(groups)) + next);
            && Flatten(groups) == tcp + unix + agentTcp + agentUnix
            && answer.Some? && answer.value.1 == next
            && |answer.value.0| == CeilDiv(|tcp| + |unix| + |agentTcp| + |agentUnix|, 8)
            && multiset(RecordsIn(answer.value.0)) == multiset(Records(tcp)) + multiset(Records(unix))
                                                      + multiset(Records(agentTcp)) + multiset(Records(agentUnix))
  {
    var all := Peers(tcp, unix, agentTcp, agentUnix);
    assert all == tcp + unix + agentTcp + agentUnix;
    hide Groups, AllRecs, RecsOf, RecordOf, Records, RecordsIn, Codec.Encode, Codec.Decode, Codec.Numbered;
    ConnectionsRoundTrip(all, next);
    var groups := Groups(all);
    RecordsOfGroups(1, groups);
    Answered(all, next);
    RecordsAppend(tcp + unix + agentTcp, agentUnix);
    RecordsAppend(tcp + unix, agentTcp);
    RecordsAppend(tcp, unix);
  }

  lemma Answered(all: seq<Peer>, next: seq<Byte>)
    requires |all| < U64
    ensures var answer := Codec.Decode(Codec.Layout(RECORD, false), Codec.Encode(AllRecs(Groups(all))) + next);
            answer.Some? && answer.value.0 == Codec.Numbered(1, AllRecs(Groups(all)))
  {
    hide Groups, AllRecs, RecsOf, Ordered, Codec.Encode, Codec.Decode;
    ConnectionsRoundTrip(all, next);
    var groups := Groups(all);
    AllRecsShape(groups);
    var recs := AllRecs(groups);
    if |groups| > 0 {
      Codec.NumberedAt(1, recs, 0);
    }
    forall i | 0 <= i < |groups| ensures Codec.Numbered(1, recs)[i] == Codec.Fragment(i + 1, recs[i]) {
      Codec.NumberedAt(1, recs, i);
    }
  }

  // The address field byte by byte.
  lemma PaddedIpAt(ip: seq<Byte>, i: nat)
    requires i < 16
    ensures PaddedIp(ip)[i] == if i < |ip| then ip[i] else 0
  {
  }
}
