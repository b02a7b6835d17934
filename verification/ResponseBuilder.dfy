/** The LIST and STATS responses: measure and fragment the live entries, reserve the
    whole buffer at once, then write it front to back. */
module ResponseBuilder {
  import opened Bytes
  import opened Entries
  import opened Messages
  import opened Packing
  import Codec = FragmentCodec

  const MAX_FRAGMENT: nat := 2048

  datatype Item = Item(key: Key, entry: Entry)

  datatype Format = ListFormat | StatsFormat

  // What serialize_entry answers in measuring mode: buffer bytes and segments.
  function ItemSize(f: Format, v: Width): nat {
    match f
    case ListFormat => 1 + 8 + v
    case StatsFormat => 33
  }

  const ITEM_SEGMENTS: nat := 5

  function OwnSize(f: Format, v: Width): Item -> nat {
    (it: Item) => ItemSize(f, v)
  }

  // An entry's share of a fragment counts its key as well.
  function RequiredSpace(f: Format, v: Width): Item -> nat {
    (it: Item) => ItemSize(f, v) + |it.key|
  }

  function BytesUsed(v: Width, e: Entry): nat {
    if e.kind == Counter then v else |e.buffer|
  }

  function ListMeta(p: Protocol, v: Width, it: Item): seq<Byte>
    requires p.Valid()
  {
    [|it.key|, TypeCode(p, it.entry.kind), TtlCode(p, it.entry.ttlType)]
    + EncodeLE(it.entry.expiresAt, 8) + EncodeLE(BytesUsed(v, it.entry), v)
  }

  function StatsMeta(it: Item): seq<Byte> {
    var m := it.entry.metrics;
    [|it.key|]
    + EncodeLE(m.readsPerMinute, 8) + EncodeLE(m.writesPerMinute, 8)
    + EncodeLE(m.readsAccumulator, 8) + EncodeLE(m.writesAccumulator, 8)
  }

  function RecOf(f: Format, p: Protocol, v: Width, it: Item): Codec.Rec
    requires p.Valid()
  {
    Codec.Rec(if f.ListFormat? then ListMeta(p, v, it) else StatsMeta(it), it.key)
  }

  function RecsOf(f: Format, p: Protocol, v: Width, items: seq<Item>): seq<Codec.Rec>
    requires p.Valid()
  {
    if items == [] then [] else [RecOf(f, p, v, items[0])] + RecsOf(f, p, v, items[1..])
  }

  function AllRecs(f: Format, p: Protocol, v: Width, fragments: seq<seq<Item>>): seq<seq<Codec.Rec>>
    requires p.Valid()
  {
    if fragments == [] then [] else [RecsOf(f, p, v, fragments[0])] + AllRecs(f, p, v, fragments[1..])
  }

  // The unexpired entries, in index order.
  function Live(items: seq<Item>): seq<Item> {
    if items == [] then []
    else if items[0].entry.expired then Live(items[1..])
    else [items[0]] + Live(items[1..])
  }

  function LiveFragments(f: Format, v: Width, max: nat, items: seq<Item>): seq<seq<Item>> {
    Fragments(RequiredSpace(f, v), max, Live(items))
  }

  // Buffer bytes the write pass puts down for a list of fragments.
  function BodySize(f: Format, v: Width, fragments: seq<seq<Item>>): nat {
    if fragments == [] then 0
    else 16 + Weight(OwnSize(f, v), fragments[0]) + BodySize(f, v, fragments[1..])
  }

  lemma {:induction false} BodySizeSum(f: Format, v: Width, fragments: seq<seq<Item>>)
    ensures BodySize(f, v, fragments) == 16 * |fragments| + Weight(OwnSize(f, v), Flatten(fragments))
  {
    if fragments == [] {
    } else {
      BodySizeSum(f, v, fragments[1..]);
      WeightAppend(OwnSize(f, v), fragments[0], Flatten(fragments[1..]));
    }
  }

  // The segment count of a list of fragments.
  function BodySegments(fragments: seq<seq<Item>>): nat {
    if fragments == [] then 0
    else 2 + (ITEM_SEGMENTS + 1) * |fragments[0]| + BodySegments(fragments[1..])
  }

  lemma {:induction false} BodySegmentsSum(fragments: seq<seq<Item>>)
    ensures BodySegments(fragments) == 2 * |fragments| + (ITEM_SEGMENTS + 1) * |Flatten(fragments)|
  {
    if fragments == [] {
    } else {
      BodySegmentsSum(fragments[1..]);
    }
  }

  lemma ListMetaInSteps(out: seq<Byte>, p: Protocol, v: Width, it: Item)
    requires p.Valid()
    ensures out + [|it.key|] + [TypeCode(p, it.entry.kind)] + [TtlCode(p, it.entry.ttlType)]
            + EncodeLE(it.entry.expiresAt, 8) + EncodeLE(BytesUsed(v, it.entry), v)
         == out + ListMeta(p, v, it)
  {
  }

  method WriteListEntry(m: Message, ghost before: seq<Segment>, ghost own: seq<Byte>, ghost size: nat,
                        offset: nat, p: Protocol, v: Width, it: Item)
    returns (next: nat)
    requires p.Valid()
    requires Writing(m, before, own, size, offset) && offset + ItemSize(ListFormat, v) <= size
    modifies m`writeBuffer, m`buffers
    ensures next == offset + ItemSize(ListFormat, v)
    ensures Writing(m, before, own, size, next)
    ensures m.Out(|before|) == old(m.Out(|before|)) + ListMeta(p, v, it)
    ensures |m.buffers| == |old(m.buffers)| + ITEM_SEGMENTS
  {
    hide Writing, ListMeta, EncodeLE, TypeCode, TtlCode;
    ListMetaInSteps(m.Out(|before|), p, v, it);
    next := Put(m, before, own, size, offset, [|it.key|]);
    PutForeign(m, before, own, size, next, [TypeCode(p, it.entry.kind)]);
    PutForeign(m, before, own, size, next, [TtlCode(p, it.entry.ttlType)]);
    next := Put(m, before, own, size, next, EncodeLE(it.entry.expiresAt, 8));
    if it.entry.kind == Counter {
      next := Put(m, before, own, size, next, EncodeLE(v, v));
    } else {
      next := Put(m, before, own, size, next, EncodeLE(|it.entry.buffer|, v));
    }
  }

  lemma StatsMetaInSteps(out: seq<Byte>, it: Item)
    ensures out + [|it.key|]
            + EncodeLE(it.entry.metrics.readsPerMinute, 8) + EncodeLE(it.entry.metrics.writesPerMinute, 8)
            + EncodeLE(it.entry.metrics.readsAccumulator, 8) + EncodeLE(it.entry.metrics.writesAccumulator, 8)
         == out + StatsMeta(it)
  {
  }

  method WriteStatsEntry(m: Message, ghost before: seq<Segment>, ghost own: seq<Byte>, ghost size: nat,
                         offset: nat, v: Width, it: Item)
    returns (next: nat)
    requires Writing(m, before, own, size, offset) && offset + ItemSize(StatsFormat, v) <= size
    modifies m`writeBuffer, m`buffers
    ensures next == offset + ItemSize(StatsFormat, v)
    ensures Writing(m, before, own, size, next)
    ensures m.Out(|before|) == old(m.Out(|before|)) + StatsMeta(it)
    ensures |m.buffers| == |old(m.buffers)| + ITEM_SEGMENTS
  {
    hide Writing, StatsMeta, EncodeLE;
    StatsMetaInSteps(m.Out(|before|), it);
    var metrics := it.entry.metrics;
    next := Put(m, before, own, size, offset, [|it.key|]);
    next := Put(m, before, own, size, next, EncodeLE(metrics.readsPerMinute, 8));
    next := Put(m, before, own, size, next, EncodeLE(metrics.writesPerMinute, 8));
    next := Put(m, before, own, size, next, EncodeLE(metrics.readsAccumulator, 8));
    next := Put(m, before, own, size, next, EncodeLE(metrics.writesAccumulator, 8));
  }

  // `serialize_entry` in writing mode: the handler's callback.
  method WriteEntry(m: Message, ghost before: seq<Segment>, ghost own: seq<Byte>, ghost size: nat,
                    offset: nat, f: Format, p: Protocol, v: Width, it: Item)
    returns (next: nat)
    requires p.Valid()
    requires Writing(m, before, own, size, offset) && offset + ItemSize(f, v) <= size
    modifies m`writeBuffer, m`buffers
    ensures next == offset + ItemSize(f, v)
    ensures Writing(m, before, own, size, next)
    ensures m.Out(|before|) == old(m.Out(|before|)) + RecOf(f, p, v, it).meta
    ensures |m.buffers| == |old(m.buffers)| + ITEM_SEGMENTS
  {
    hide Writing, StatsMeta, ListMeta;
    match f {
      case ListFormat => next := WriteListEntry(m, before, own, size, offset, p, v, it);
      case StatsFormat => next := WriteStatsEntry(m, before, own, size, offset, v, it);
    }
  }

  lemma RecsHead(f: Format, p: Protocol, v: Width, items: seq<Item>, i: nat)
    requires p.Valid() && i < |items|
    ensures RecsOf(f, p, v, items[i..]) == [RecOf(f, p, v, items[i])] + RecsOf(f, p, v, items[i + 1..])
    ensures Codec.Metas(RecsOf(f, p, v, items[i..]))
         == RecOf(f, p, v, items[i]).meta + Codec.Metas(RecsOf(f, p, v, items[i + 1..]))
    ensures Codec.Names(RecsOf(f, p, v, items[i..]))
         == items[i].key + Codec.Names(RecsOf(f, p, v, items[i + 1..]))
    ensures Weight(OwnSize(f, v), items[i..]) == ItemSize(f, v) + Weight(OwnSize(f, v), items[i + 1..])
  {
  }

  lemma {:induction false} RecsLength(f: Format, p: Protocol, v: Width, items: seq<Item>)
    requires p.Valid()
    ensures |RecsOf(f, p, v, items)| == |items|
  {
    if items == [] {
    } else {
      RecsLength(f, p, v, items[1..]);
    }
  }

  method WriteMetas(m: Message, ghost before: seq<Segment>, ghost own: seq<Byte>, ghost size: nat,
                    offset: nat, f: Format, p: Protocol, v: Width, items: seq<Item>)
    returns (next: nat)
    requires p.Valid()
    requires Writing(m, before, own, size, offset) && offset + Weight(OwnSize(f, v), items) <= size
    modifies m`writeBuffer, m`buffers
    ensures next == offset + Weight(OwnSize(f, v), items)
    ensures Writing(m, before, own, size, next)
    ensures m.Out(|before|) == old(m.Out(|before|)) + Codec.Metas(RecsOf(f, p, v, items))
    ensures |m.buffers| == |old(m.buffers)| + ITEM_SEGMENTS * |items|
  {
    hide Writing, RecOf, RecsOf, Weight, OwnSize, Codec.Metas, Codec.Names;
    next := offset;
    ghost var out := m.Out(|before|);
    ghost var done: seq<Byte> := [];
    ghost var all := Codec.Metas(RecsOf(f, p, v, items));
    assert items[0..] == items;
    for i := 0 to |items|
      invariant Writing(m, before, own, size, next)
      invariant next + Weight(OwnSize(f, v), items[i..]) == offset + Weight(OwnSize(f, v), items)
      invariant m.Out(|before|) == out + done
      invariant done + Codec.Metas(RecsOf(f, p, v, items[i..])) == all
      invariant |m.buffers| == |old(m.buffers)| + ITEM_SEGMENTS * i
    {
      RecsHead(f, p, v, items, i);
      ghost var meta := RecOf(f, p, v, items[i]).meta;
      Assoc(done, meta, Codec.Metas(RecsOf(f, p, v, items[i + 1..])));
      Assoc(out, done, meta);
      next := WriteEntry(m, before, own, size, next, f, p, v, items[i]);
      done := done + meta;
    }
    NothingLeft(f, p, v, items);
    assert done + [] == done;
  }

  lemma NothingLeft(f: Format, p: Protocol, v: Width, items: seq<Item>)
    requires p.Valid()
    ensures items[|items|..] == [] && Weight(OwnSize(f, v), items[|items|..]) == 0
    ensures RecsOf(f, p, v, items[|items|..]) == []
    ensures Codec.Metas(RecsOf(f, p, v, items[|items|..])) == []
    ensures Codec.Names(RecsOf(f, p, v, items[|items|..])) == []
  {
  }

  method WriteKeys(m: Message, ghost before: seq<Segment>, ghost own: seq<Byte>, ghost size: nat,
                   ghost offset: nat, ghost f: Format, ghost p: Protocol, ghost v: Width, items: seq<Item>)
    requires p.Valid()
    requires Writing(m, before, own, size, offset)
    modifies m`buffers
    ensures Writing(m, before, own, size, offset)
    ensures m.Out(|before|) == old(m.Out(|before|)) + Codec.Names(RecsOf(f, p, v, items))
    ensures |m.buffers| == |old(m.buffers)| + |items|
  {
    hide Writing, RecOf, RecsOf, Codec.Metas, Codec.Names;
    ghost var out := m.Out(|before|);
    ghost var done: seq<Byte> := [];
    ghost var all := Codec.Names(RecsOf(f, p, v, items));
    assert items[0..] == items;
    for i := 0 to |items|
      invariant Writing(m, before, own, size, offset)
      invariant m.Out(|before|) == out + done
      invariant done + Codec.Names(RecsOf(f, p, v, items[i..])) == all
      invariant |m.buffers| == |old(m.buffers)| + i
    {
      RecsHead(f, p, v, items, i);
      Assoc(done, items[i].key, Codec.Names(RecsOf(f, p, v, items[i + 1..])));
      Assoc(out, done, items[i].key);
      PutForeign(m, before, own, size, offset, items[i].key);
      done := done + items[i].key;
    }
    NothingLeft(f, p, v, items);
    assert done + [] == done;
  }

  method WriteFragment(m: Message, ghost before: seq<Segment>, ghost own: seq<Byte>, ghost size: nat,
                       offset: nat, f: Format, p: Protocol, v: Width, index: nat, items: seq<Item>)
    returns (next: nat)
    requires p.Valid()
    requires Writing(m, before, own, size, offset)
    requires offset + 16 + Weight(OwnSize(f, v), items) <= size
    modifies m`writeBuffer, m`buffers
    ensures next == offset + 16 + Weight(OwnSize(f, v), items)
    ensures Writing(m, before, own, size, next)
    ensures m.Out(|before|) == old(m.Out(|before|)) + Codec.EncodeFragment(index, RecsOf(f, p, v, items))
    ensures |m.buffers| == |old(m.buffers)| + 2 + (ITEM_SEGMENTS + 1) * |items|
  {
    hide Writing, RecsOf, EncodeLE, Codec.Metas, Codec.Names;
    RecsLength(f, p, v, items);
    ghost var out := m.Out(|before|);
    ghost var rs := RecsOf(f, p, v, items);
    ghost var a, b := EncodeLE(index, 8), EncodeLE(|items|, 8);
    next := Put(m, before, own, size, offset, EncodeLE(index, 8));
    next := Put(m, before, own, size, next, EncodeLE(|items|, 8));
    Assoc(out, a, b);
    next := WriteMetas(m, before, own, size, next, f, p, v, items);
    WriteKeys(m, before, own, size, next, f, p, v, items);
    Assoc(out + (a + b), Codec.Metas(rs), Codec.Names(rs));
    Assoc(out, a + b, Codec.Metas(rs) + Codec.Names(rs));
  }

  lemma LiveHead(items: seq<Item>, i: nat)
    requires i < |items|
    ensures Live(items[i..]) == (if items[i].entry.expired then [] else [items[i]]) + Live(items[i + 1..])
  {
  }

  // One turn of the fragmenting loop.
  lemma PackHead(f: Format, v: Width, max: nat, it: Item, rest: seq<Item>, current: seq<Item>, size: nat)
    ensures var w := RequiredSpace(f, v);
            Pack(w, max, [it] + rest, current, size) ==
            if size + w(it) > max then [current] + Pack(w, max, rest, [it], w(it))
            else Pack(w, max, rest, current + [it], size + w(it))
    ensures Weight(OwnSize(f, v), [it] + rest) == ItemSize(f, v) + Weight(OwnSize(f, v), rest)
  {
  }

  // The measuring pass: the fragments, the buffer bytes and the segments they need.
  method Measure(f: Format, v: Width, max: nat, items: seq<Item>)
    returns (fragments: seq<seq<Item>>, bufferSize: nat, batchSize: nat)
    ensures fragments == LiveFragments(f, v, max, items)
    ensures bufferSize == 8 + BodySize(f, v, fragments)
    ensures batchSize == 2 + BodySegments(fragments)
  {
    hide Pack, Weight, Live;
    var fragmentSize: nat := 0;
    var current: seq<Item> := [];
    fragments := [];
    bufferSize := 8;
    batchSize := 2;
    ghost var w, own := RequiredSpace(f, v), OwnSize(f, v);
    ghost var all := Live(items);
    assert items[0..] == items;
    assert [] + LiveFragments(f, v, max, items) == LiveFragments(f, v, max, items);
    for i := 0 to |items|
      invariant fragments + Pack(w, max, Live(items[i..]), current, fragmentSize) == LiveFragments(f, v, max, items)
      invariant bufferSize + Weight(own, Live(items[i..])) == 8 + Weight(own, all)
      invariant batchSize + (ITEM_SEGMENTS + 1) * |Live(items[i..])|
             == 2 + (ITEM_SEGMENTS + 1) * |all| + 2 * |fragments|
    {
      LiveHead(items, i);
      var it := items[i];
      if it.entry.expired {
        assert [] + Live(items[i + 1..]) == Live(items[i + 1..]);
        continue;
      }
      PackHead(f, v, max, it, Live(items[i + 1..]), current, fragmentSize);
      var itemSize := ItemSize(f, v);
      var required := itemSize + |it.key|;
      assert w(it) == required;
      if fragmentSize + required > max {
        Assoc(fragments, [current], Pack(w, max, Live(items[i + 1..]), [it], w(it)));
        fragments := fragments + [current];
        fragmentSize := 0;
        current := [];
        batchSize := batchSize + 2;
        assert [] + [it] == [it];
      }
      current := current + [it];
      fragmentSize := fragmentSize + required;
      bufferSize := bufferSize + itemSize;
      batchSize := batchSize + ITEM_SEGMENTS + 1;
    }
    NoneLive(f, v, max, items, current, fragmentSize);
    if current != [] {
      fragments := fragments + [current];
      batchSize := batchSize + 2;
    } else {
      assert fragments + [] == fragments;
    }
    bufferSize := bufferSize + |fragments| * 16;
    FragmentsConserve(w, max, all);
    BodySizeSum(f, v, fragments);
    BodySegmentsSum(fragments);
  }

  lemma NoneLive(f: Format, v: Width, max: nat, items: seq<Item>, current: seq<Item>, size: nat)
    ensures Live(items[|items|..]) == []
    ensures Weight(OwnSize(f, v), Live(items[|items|..])) == 0
    ensures Pack(RequiredSpace(f, v), max, Live(items[|items|..]), current, size)
         == if current == [] then [] else [current]
  {
  }

  lemma BodyHead(f: Format, p: Protocol, v: Width, fragments: seq<seq<Item>>, i: nat)
    requires p.Valid() && i < |fragments|
    ensures var rest := fragments[i + 1..];
            && BodySize(f, v, fragments[i..]) == 16 + Weight(OwnSize(f, v), fragments[i]) + BodySize(f, v, rest)
            && BodySegments(fragments[i..]) == 2 + (ITEM_SEGMENTS + 1) * |fragments[i]| + BodySegments(rest)
            && Codec.EncodeBody(i + 1, AllRecs(f, p, v, fragments[i..]))
               == Codec.EncodeFragment(i + 1, RecsOf(f, p, v, fragments[i]))
                  + Codec.EncodeBody(i + 2, AllRecs(f, p, v, rest))
  {
    hide RecsOf, Codec.EncodeFragment;
    assert fragments[i..][0] == fragments[i] && fragments[i..][1..] == fragments[i + 1..];
    var r, rs := RecsOf(f, p, v, fragments[i]), AllRecs(f, p, v, fragments[i + 1..]);
    assert AllRecs(f, p, v, fragments[i..]) == [r] + rs;
    assert ([r] + rs)[1..] == rs;
  }

  lemma BodyEnd(f: Format, p: Protocol, v: Width, fragments: seq<seq<Item>>)
    requires p.Valid()
    ensures fragments[|fragments|..] == []
    ensures BodySize(f, v, fragments[|fragments|..]) == 0
    ensures BodySegments(fragments[|fragments|..]) == 0
    ensures Codec.EncodeBody(|fragments| + 1, AllRecs(f, p, v, fragments[|fragments|..])) == []
  {
  }

  // The write pass over the fragments.
  method WriteBody(m: Message, ghost before: seq<Segment>, ghost own: seq<Byte>, ghost size: nat,
                   offset: nat, f: Format, p: Protocol, v: Width, fragments: seq<seq<Item>>)
    returns (next: nat)
    requires p.Valid()
    requires Writing(m, before, own, size, offset)
    requires offset + BodySize(f, v, fragments) <= size
    modifies m`writeBuffer, m`buffers
    ensures next == offset + BodySize(f, v, fragments)
    ensures Writing(m, before, own, size, next)
    ensures m.Out(|before|) == old(m.Out(|before|)) + Codec.EncodeBody(1, AllRecs(f, p, v, fragments))
    ensures |m.buffers| == |old(m.buffers)| + BodySegments(fragments)
  {
    hide Writing, RecsOf, AllRecs, BodySize, BodySegments, Codec.EncodeBody, Codec.EncodeFragment, Weight;
    next := offset;
    ghost var out := m.Out(|before|);
    ghost var done: seq<Byte> := [];
    ghost var all := Codec.EncodeBody(1, AllRecs(f, p, v, fragments));
    assert fragments[0..] == fragments;
    for i := 0 to |fragments|
      invariant Writing(m, before, own, size, next)
      invariant next + BodySize(f, v, fragments[i..]) == offset + BodySize(f, v, fragments)
      invariant m.Out(|before|) == out + done
      invariant done + Codec.EncodeBody(i + 1, AllRecs(f, p, v, fragments[i..])) == all
      invariant |m.buffers| + BodySegments(fragments[i..]) == |old(m.buffers)| + BodySegments(fragments)
    {
      BodyHead(f, p, v, fragments, i);
      ghost var bytes := Codec.EncodeFragment(i + 1, RecsOf(f, p, v, fragments[i]));
      Assoc(done, bytes, Codec.EncodeBody(i + 2, AllRecs(f, p, v, fragments[i + 1..])));
      Assoc(out, done, bytes);
      next := WriteFragment(m, before, own, size, next, f, p, v, i + 1, fragments[i]);
      done := done + bytes;
    }
    BodyEnd(f, p, v, fragments);
    assert done + [] == done;
  }

  lemma {:induction false} AllRecsLength(f: Format, p: Protocol, v: Width, fragments: seq<seq<Item>>)
    requires p.Valid()
    ensures |AllRecs(f, p, v, fragments)| == |fragments|
  {
    if fragments == [] {
    } else {
      AllRecsLength(f, p, v, fragments[1..]);
    }
  }

  // handle_fragmented_entries_response
  method HandleFragmentedEntries(m: Message, f: Format, p: Protocol, v: Width, max: nat, items: seq<Item>)
    requires p.Valid()
    modifies m
    // what the client receives
    ensures m.Out(|old(m.buffers)|) == Codec.Encode(AllRecs(f, p, v, LiveFragments(f, v, max, items)))
    // the buffer was resized once, before the first segment, to exactly what was written
    ensures m.generation == old(m.generation) + 1
    ensures Writing(m, old(m.buffers), old(m.writeBuffer), |m.writeBuffer|, |m.writeBuffer|)
    ensures |m.writeBuffer| == |old(m.writeBuffer)| + 8 + BodySize(f, v, LiveFragments(f, v, max, items))
    // and the segments are exactly the ones there was room for
    ensures |m.buffers| == m.reserved == |old(m.buffers)| + 2 + BodySegments(LiveFragments(f, v, max, items))
    ensures m.inUse == old(m.inUse) && m.recyclable == old(m.recyclable)
  {
    hide LiveFragments, AllRecs, BodySize, BodySegments, Writing, Codec.Encode, Codec.EncodeBody, EncodeLE;
    ghost var before, own := m.buffers, m.writeBuffer;
    var offset := |m.writeBuffer|;
    var fragments, bufferSize, batchSize := Measure(f, v, max, items);
    MakeRoom(m, batchSize, bufferSize);
    ghost var size := |m.writeBuffer|;
    PutForeign(m, before, own, size, offset, [Codec.SUCCESS]);
    offset := Put(m, before, own, size, offset, EncodeLE(|fragments|, 8));
    offset := WriteBody(m, before, own, size, offset, f, p, v, fragments);
    AllRecsLength(f, p, v, fragments);
    Codec.EncodeInSteps(AllRecs(f, p, v, fragments));
    WritingSize(m, before, own, size, offset);
  }

  // The limits of the fragments.

  // With the one-byte key sizes of the protocol every LIST and STATS fragment is
  // non-empty and within the limit, and the fragments are the live entries in order.
  lemma LiveFragmentsFit(f: Format, v: Width, items: seq<Item>)
    ensures Fits(RequiredSpace(f, v), MAX_FRAGMENT, LiveFragments(f, v, MAX_FRAGMENT, items))
    ensures Flatten(LiveFragments(f, v, MAX_FRAGMENT, items)) == Live(items)
  {
    FragmentsFitIff(RequiredSpace(f, v), MAX_FRAGMENT, Live(items));
    FragmentsConserve(RequiredSpace(f, v), MAX_FRAGMENT, Live(items));
  }

  // No other way of cutting the live entries, in their order, into fragments within the
  // limit needs fewer fragments.
  lemma LiveFragmentsOptimal(f: Format, v: Width, max: nat, items: seq<Item>, split: seq<seq<Item>>)
    requires Flatten(split) == Live(items)
    requires forall b :: b in split ==> Weight(RequiredSpace(f, v), b) <= max
    ensures |LiveFragments(f, v, max, items)| <= |split|
  {
    GreedyIsOptimal(RequiredSpace(f, v), max, Live(items), split);
  }

  // ----- The limit, on the bytes that are written

  // What a fragment puts on the wire after its two counters.
  function WireBytes(f: Format, p: Protocol, v: Width, items: seq<Item>): nat
    requires p.Valid()
  {
    |Codec.Metas(RecsOf(f, p, v, items))| + |Codec.Names(RecsOf(f, p, v, items))|
  }

  // Keys count as they are written. Of a LIST record the two type bytes, which are not in
  // the buffer, do not.
  lemma {:induction false} MeasuredBytes(f: Format, p: Protocol, v: Width, items: seq<Item>)
    requires p.Valid()
    ensures WireBytes(f, p, v, items)
         == Weight(RequiredSpace(f, v), items) + if f.ListFormat? then 2 * |items| else 0
  {
    if items == [] {
    } else {
      MeasuredBytes(f, p, v, items[1..]);
      ListMetaLayout(p, v, items[0]);
      StatsMetaLayout(items[0]);
      hide ListMeta, StatsMeta;
      var r, rs := RecOf(f, p, v, items[0]), RecsOf(f, p, v, items[1..]);
      assert ([r] + rs)[1..] == rs;
    }
  }

  // Every fragment is non-empty and writes at most 2048 bytes, and two more for each
  // record of a LIST.
  lemma FragmentsOnTheWire(f: Format, p: Protocol, v: Width, items: seq<Item>)
    requires p.Valid()
    ensures forall b :: b in LiveFragments(f, v, MAX_FRAGMENT, items) ==>
              b != [] && WireBytes(f, p, v, b) <= 2048 + if f.ListFormat? then 2 * |b| else 0
  {
    LiveFragmentsFit(f, v, items);
    hide LiveFragments, WireBytes, Weight;
    forall b | b in LiveFragments(f, v, MAX_FRAGMENT, items)
      ensures b != [] && WireBytes(f, p, v, b) <= 2048 + if f.ListFormat? then 2 * |b| else 0
    {
      MeasuredBytes(f, p, v, b);
    }
  }

  // No way of cutting the live entries, in their order, into fragments that write no more
  // than that needs fewer fragments.
  lemma FewestOnTheWire(f: Format, p: Protocol, v: Width, items: seq<Item>, split: seq<seq<Item>>)
    requires p.Valid() && Flatten(split) == Live(items)
    requires forall b :: b in split ==> WireBytes(f, p, v, b) <= 2048 + if f.ListFormat? then 2 * |b| else 0
    ensures |LiveFragments(f, v, MAX_FRAGMENT, items)| <= |split|
  {
    hide LiveFragments, WireBytes, Weight;
    forall b | b in split ensures Weight(RequiredSpace(f, v), b) <= MAX_FRAGMENT {
      MeasuredBytes(f, p, v, b);
    }
    LiveFragmentsOptimal(f, v, MAX_FRAGMENT, items, split);
  }

  // The live entries are those not expired, in the order of the index.
  lemma {:induction false} LiveInOrder(a: seq<Item>, b: seq<Item>)
    ensures Live(a + b) == Live(a) + Live(b)
    ensures forall it :: Live([it]) == if it.entry.expired then [] else [it]
  {
    forall it ensures Live([it]) == if it.entry.expired then [] else [it] {
      assert [it][1..] == [];
    }
    if a == [] {
      assert a + b == b;
    } else {
      assert (a + b)[0] == a[0] && (a + b)[1..] == a[1..] + b;
      LiveInOrder(a[1..], b);
    }
  }

  // What the bytes of a LIST record say of its entry.
  lemma ListRecordSays(p: Protocol, v: Width, it: Item)
    requires p.Valid() && |it.entry.buffer| < Pow256(v)
    ensures var m, e := ListMeta(p, v, it), it.entry;
            && |m| == 11 + v && m[0] == |it.key|
            && (e.kind == Counter ==> m[1] == p.counter && DecodeLE(m[11..]) == v)
            && (e.kind == Raw ==> m[1] == p.raw && DecodeLE(m[11..]) == |e.buffer|)
            && (e.ttlType == Nanoseconds ==> m[2] == p.units[0]) && (e.ttlType == Microseconds ==> m[2] == p.units[1])
            && (e.ttlType == Milliseconds ==> m[2] == p.units[2]) && (e.ttlType == Seconds ==> m[2] == p.units[3])
            && (e.ttlType == Minutes ==> m[2] == p.units[4]) && (e.ttlType == Hours ==> m[2] == p.units[5])
            && DecodeLE(m[3..11]) == e.expiresAt
  {
    ListMetaLayout(p, v, it);
    Pow256Values();
    DecodeEncodeWord(it.entry.expiresAt);
    DecodeEncodeLE(BytesUsed(v, it.entry), v);
    hide ListMeta, EncodeLE, DecodeLE, Pow256;
  }

  // ... and those of a STATS record.
  lemma StatsRecordSays(it: Item)
    ensures var m, metrics := StatsMeta(it), it.entry.metrics;
            && |m| == 33 && m[0] == |it.key|
            && DecodeLE(m[1..9]) == metrics.readsPerMinute && DecodeLE(m[9..17]) == metrics.writesPerMinute
            && DecodeLE(m[17..25]) == metrics.readsAccumulator && DecodeLE(m[25..33]) == metrics.writesAccumulator
  {
    StatsMetaLayout(it);
    DecodeEncodeWord(it.entry.metrics.readsPerMinute);
    DecodeEncodeWord(it.entry.metrics.writesPerMinute);
    DecodeEncodeWord(it.entry.metrics.readsAccumulator);
    DecodeEncodeWord(it.entry.metrics.writesAccumulator);
    hide StatsMeta, EncodeLE, DecodeLE;
  }

  // What a client learns about an entry from its record.
  datatype Line =
    | ListLine(key: seq<Byte>, typeCode: Byte, ttlCode: Byte, expiresAt: nat, bytesUsed: nat)
    | StatsLine(key: seq<Byte>, readsPerMinute: nat, writesPerMinute: nat, allReads: nat, allWrites: nat)

  function MetaSize(f: Format, v: Width): nat {
    match f
    case ListFormat => 11 + v
    case StatsFormat => 33
  }

  function LayoutOf(f: Format, v: Width): Codec.Layout {
    Codec.Layout(MetaSize(f, v), true)
  }

  function ReadLine(f: Format, v: Width, r: Codec.Rec): Line
    requires |r.meta| == MetaSize(f, v)
  {
    match f
    case ListFormat =>
      ListLine(r.name, r.meta[1], r.meta[2], DecodeLE(r.meta[3..11]), DecodeLE(r.meta[11..]))
    case StatsFormat =>
      StatsLine(r.name, DecodeLE(r.meta[1..9]), DecodeLE(r.meta[9..17]),
                DecodeLE(r.meta[17..25]), DecodeLE(r.meta[25..33]))
  }

  // What the client should learn.
  function LineOf(f: Format, p: Protocol, v: Width, it: Item): Line
    requires p.Valid()
  {
    var e := it.entry;
    match f
    case ListFormat =>
      ListLine(it.key, TypeCode(p, e.kind), TtlCode(p, e.ttlType), e.expiresAt, BytesUsed(v, e))
    case StatsFormat =>
      StatsLine(it.key, e.metrics.readsPerMinute, e.metrics.writesPerMinute,
                e.metrics.readsAccumulator, e.metrics.writesAccumulator)
  }

  lemma ListMetaLayout(p: Protocol, v: Width, it: Item)
    requires p.Valid()
    ensures var m := ListMeta(p, v, it);
            && |m| == 11 + v && m[0] == |it.key|
            && m[1] == TypeCode(p, it.entry.kind) && m[2] == TtlCode(p, it.entry.ttlType)
            && m[3..11] == EncodeLE(it.entry.expiresAt, 8)
            && m[11..] == EncodeLE(BytesUsed(v, it.entry), v)
  {
  }

  lemma StatsMetaLayout(it: Item)
    ensures var m := StatsMeta(it);
            && |m| == 33 && m[0] == |it.key|
            && m[1..9] == EncodeLE(it.entry.metrics.readsPerMinute, 8)
            && m[9..17] == EncodeLE(it.entry.metrics.writesPerMinute, 8)
            && m[17..25] == EncodeLE(it.entry.metrics.readsAccumulator, 8)
            && m[25..33] == EncodeLE(it.entry.metrics.writesAccumulator, 8)
  {
  }

  // A record is well formed and says everything about its entry, if the length of the
  // entry's buffer fits the field that carries it.
  lemma RecReadsBack(f: Format, p: Protocol, v: Width, it: Item)
    requires p.Valid() && |it.entry.buffer| < Pow256(v)
    ensures Codec.WellFormed(LayoutOf(f, v), RecOf(f, p, v, it))
    ensures |RecOf(f, p, v, it).meta| == MetaSize(f, v)
    ensures ReadLine(f, v, RecOf(f, p, v, it)) == LineOf(f, p, v, it)
  {
    match f {
      case ListFormat =>
        ListMetaLayout(p, v, it);
        hide EncodeLE, ListMeta, DecodeLE;
        DecodeEncodeWord(it.entry.expiresAt);
        Pow256Values();
        DecodeEncodeLE(BytesUsed(v, it.entry), v);
      case StatsFormat =>
        StatsMetaLayout(it);
        hide EncodeLE, StatsMeta, DecodeLE;
        DecodeEncodeWord(it.entry.metrics.readsPerMinute);
        DecodeEncodeWord(it.entry.metrics.writesPerMinute);
        DecodeEncodeWord(it.entry.metrics.readsAccumulator);
        DecodeEncodeWord(it.entry.metrics.writesAccumulator);
    }
  }

  ghost predicate BuffersFit(v: Width, items: seq<Item>) {
    forall it :: it in items ==> |it.entry.buffer| < Pow256(v)
  }

  ghost predicate ReadsAs(f: Format, p: Protocol, v: Width, rs: seq<Codec.Rec>, items: seq<Item>)
    requires p.Valid()
  {
    && |rs| == |items|
    && (forall i :: 0 <= i < |rs| ==>
          |rs[i].meta| == MetaSize(f, v) && ReadLine(f, v, rs[i]) == LineOf(f, p, v, items[i]))
  }

  lemma ReadsAsCons(f: Format, p: Protocol, v: Width, r: Codec.Rec, it: Item, rs: seq<Codec.Rec>, items: seq<Item>)
    requires p.Valid()
    requires |r.meta| == MetaSize(f, v) && ReadLine(f, v, r) == LineOf(f, p, v, it)
    requires ReadsAs(f, p, v, rs, items)
    ensures ReadsAs(f, p, v, [r] + rs, [it] + items)
  {
  }

  lemma {:induction false} RecsReadBack(f: Format, p: Protocol, v: Width, items: seq<Item>)
    requires p.Valid() && BuffersFit(v, items)
    ensures Codec.AllWellFormed(LayoutOf(f, v), RecsOf(f, p, v, items))
    ensures ReadsAs(f, p, v, RecsOf(f, p, v, items), items)
  {
    if items == [] {
    } else {
      hide RecOf, ReadLine, LineOf, Codec.WellFormed;
      assert items[0] in items;
      RecReadsBack(f, p, v, items[0]);
      RecsReadBack(f, p, v, items[1..]);
      ReadsAsCons(f, p, v, RecOf(f, p, v, items[0]), items[0], RecsOf(f, p, v, items[1..]), items[1..]);
      assert [items[0]] + items[1..] == items;
    }
  }

  lemma {:induction false} AllRecsReadBack(f: Format, p: Protocol, v: Width, fragments: seq<seq<Item>>, n: nat)
    requires p.Valid() && BuffersFit(v, Flatten(fragments)) && |Flatten(fragments)| <= n < U64
    ensures |AllRecs(f, p, v, fragments)| == |fragments|
    ensures Codec.Encodable(LayoutOf(f, v), AllRecs(f, p, v, fragments))
    ensures forall i :: 0 <= i < |fragments| ==>
              ReadsAs(f, p, v, AllRecs(f, p, v, fragments)[i], fragments[i])
  {
    hide RecsOf, ReadsAs, Codec.AllWellFormed;
    if fragments == [] {
    } else {
      var head, tail := fragments[0], Flatten(fragments[1..]);
      assert BuffersFit(v, head) by {
        forall it | it in head ensures it in head + tail {}
      }
      assert BuffersFit(v, tail) by {
        forall it | it in tail ensures it in head + tail {}
      }
      RecsReadBack(f, p, v, head);
      RecsLength(f, p, v, head);
      AllRecsReadBack(f, p, v, fragments[1..], n);
      var r, rs := RecsOf(f, p, v, head), AllRecs(f, p, v, fragments[1..]);
      assert AllRecs(f, p, v, fragments) == [r] + rs;
    }
  }

  lemma {:induction false} NonEmptyFragments<T>(ss: seq<seq<T>>)
    requires forall i :: 0 <= i < |ss| ==> ss[i] != []
    ensures |ss| <= |Flatten(ss)|
  {
    if ss == [] {
    } else {
      NonEmptyFragments(ss[1..]);
    }
  }

  lemma {:induction false} LiveSound(items: seq<Item>)
    ensures |Live(items)| <= |items|
    ensures forall it :: it in Live(items) <==> it in items && !it.entry.expired
  {
    if items == [] {
    } else {
      LiveSound(items[1..]);
      assert items == [items[0]] + items[1..];
    }
  }

  // Whatever the storage holds, a client that decodes a LIST or STATS response gets the
  // greedy fragments back, numbered from one, each record telling all of its live entry,
  // in index order; and it stops where the next response begins.
  lemma EntriesRoundTrip(f: Format, p: Protocol, v: Width, items: seq<Item>, next: seq<Byte>)
    requires p.Valid() && BuffersFit(v, items) && |items| < U64
    ensures var fragments := LiveFragments(f, v, MAX_FRAGMENT, items);
            var response := Codec.Encode(AllRecs(f, p, v, fragments));
            var answer := Codec.Decode(LayoutOf(f, v), response + next);
            && answer.Some? && answer.value.1 == next
            && |answer.value.0| == |fragments|
            && (forall i :: 0 <= i < |fragments| ==>
                  && answer.value.0[i].index == i + 1
                  && ReadsAs(f, p, v, answer.value.0[i].records, fragments[i]))
            && Flatten(fragments) == Live(items)
  {
    hide LiveFragments, AllRecs, ReadsAs, Codec.Encode, Codec.Decode;
    var fragments := LiveFragments(f, v, MAX_FRAGMENT, items);
    LiveFragmentsFit(f, v, items);
    LiveSound(items);
    forall i | 0 <= i < |fragments| ensures fragments[i] != [] {
      assert fragments[i] in fragments;
    }
    NonEmptyFragments(fragments);
    AllRecsReadBack(f, p, v, fragments, |items|);
    var recs := AllRecs(f, p, v, fragments);
    Codec.ResponseRoundTrip(LayoutOf(f, v), recs, next);
    var answer := Codec.Numbered(1, recs);
    if recs == [] {
    } else {
      Codec.NumberedAt(1, recs, 0);
    }
    forall i | 0 <= i < |fragments|
      ensures answer[i].index == i + 1 && ReadsAs(f, p, v, answer[i].records, fragments[i])
    {
      Codec.NumberedAt(1, recs, i);
    }
  }
}
