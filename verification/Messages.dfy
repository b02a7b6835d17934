/** Outgoing messages: a byte buffer the message owns, and the list of segments that
    the socket gathers into one response. */
module Messages {
  import opened Bytes

  // A segment points into the message's own write buffer, as it was since its last
  // resize, or at bytes that live elsewhere.
  datatype Segment = Own(generation: nat, offset: nat, length: nat) | Foreign(bytes: seq<Byte>)

  ghost predicate InBounds(s: Segment, limit: nat) {
    s.Own? ==> s.offset + s.length <= limit
  }

  // Segments taken since the last resize, all below `limit`.
  ghost predicate Current(segments: seq<Segment>, generation: nat, limit: nat) {
    forall s :: s in segments ==> InBounds(s, limit) && (s.Own? ==> s.generation == generation)
  }

  ghost predicate AllInBounds(segments: seq<Segment>, limit: nat) {
    forall s :: s in segments ==> InBounds(s, limit)
  }

  function SegmentBytes(s: Segment, own: seq<Byte>): seq<Byte>
    requires InBounds(s, |own|)
  {
    match s
    case Own(_, o, n) => own[o..o + n]
    case Foreign(b) => b
  }

  // The bytes the socket sends for a list of segments.
  ghost function Render(segments: seq<Segment>, own: seq<Byte>): seq<Byte>
    requires AllInBounds(segments, |own|)
  {
    if segments == [] then [] else SegmentBytes(segments[0], own) + Render(segments[1..], own)
  }

  lemma {:induction false} RenderSnoc(segments: seq<Segment>, s: Segment, own: seq<Byte>)
    requires AllInBounds(segments, |own|)
    requires InBounds(s, |own|)
    ensures Render(segments + [s], own) == Render(segments, own) + SegmentBytes(s, own)
  {
    if segments == [] {
      assert [s][1..] == [];
      assert Render([], own) == [];
      assert Render([s], own) == SegmentBytes(s, own) + [];
      assert [] + [s] == [s];
    } else {
      var tail := segments[1..];
      assert (segments + [s])[0] == segments[0] && (segments + [s])[1..] == tail + [s];
      RenderSnoc(tail, s, own);
      Assoc(SegmentBytes(segments[0], own), Render(tail, own), SegmentBytes(s, own));
    }
  }

  // Writing past the segments does not change what they send.
  lemma {:induction false} RenderStable(segments: seq<Segment>, own: seq<Byte>, own': seq<Byte>, limit: nat)
    requires limit <= |own| && limit <= |own'| && own[..limit] == own'[..limit]
    requires AllInBounds(segments, limit)
    ensures AllInBounds(segments, |own|) && AllInBounds(segments, |own'|)
    ensures Render(segments, own) == Render(segments, own')
  {
    if segments == [] {
    } else {
      var s := segments[0];
      assert s in segments;
      if s.Own? {
        assert own[s.offset..s.offset + s.length] == own[..limit][s.offset..s.offset + s.length];
        assert own'[s.offset..s.offset + s.length] == own'[..limit][s.offset..s.offset + s.length];
      }
      RenderStable(segments[1..], own, own', limit);
    }
  }

  lemma CurrentSnoc(segments: seq<Segment>, s: Segment, generation: nat, limit: nat, limit': nat)
    requires Current(segments, generation, limit) && limit <= limit'
    requires Current([s], generation, limit')
    ensures Current(segments + [s], generation, limit')
  {
  }

  lemma CurrentInBounds(segments: seq<Segment>, generation: nat, limit: nat, bound: nat)
    requires Current(segments, generation, limit) && limit <= bound
    ensures AllInBounds(segments, bound) && Current(segments, generation, bound)
  {
  }

  class Message {
    var writeBuffer: seq<Byte>
    var buffers: seq<Segment>
    var recyclable: bool
    var inUse: bool
    // Resizing the buffer may move it: segments taken before no longer point into it.
    var generation: nat
    // How many segments the list was last told to make room for.
    ghost var reserved: nat

    constructor ()
      ensures writeBuffer == [] && buffers == [] && !recyclable && !inUse
    {
      writeBuffer, buffers := [], [];
      recyclable, inUse := false, false;
      generation, reserved := 0, 0;
    }

    // The segments from `base` on are current and lie below `offset`.
    ghost predicate Written(base: nat, offset: nat)
      reads this
    {
      && base <= |buffers|
      && offset <= |writeBuffer|
      && Current(buffers[base..], generation, offset)
    }

    // What the segments from `base` on send; nothing can be said of segments that no
    // longer point into the buffer.
    ghost function Out(base: nat): seq<Byte>
      reads this
    {
      if base <= |buffers| && Current(buffers[base..], generation, |writeBuffer|)
      then Render(buffers[base..], writeBuffer)
      else []
    }

    method Reserve(n: nat)
      modifies this`reserved
      ensures reserved == n
    {
      reserved := n;
    }

    method Resize(n: nat)
      modifies this`writeBuffer, this`generation
      ensures |writeBuffer| == n && generation == old(generation) + 1
      ensures n >= |old(writeBuffer)| ==> writeBuffer[..|old(writeBuffer)|] == old(writeBuffer)
    {
      if n <= |writeBuffer| {
        writeBuffer := writeBuffer[..n];
      } else {
        writeBuffer := writeBuffer + seq(n - |writeBuffer|, _ => 0);
      }
      generation := generation + 1;
    }

    // memcpy into the buffer; the caller must have made room.
    method Copy(offset: nat, bytes: seq<Byte>)
      requires offset + |bytes| <= |writeBuffer|
      modifies this`writeBuffer
      ensures |writeBuffer| == |old(writeBuffer)|
      ensures writeBuffer[..offset] == old(writeBuffer)[..offset]
      ensures writeBuffer[offset..offset + |bytes|] == bytes
    {
      writeBuffer := writeBuffer[..offset] + bytes + writeBuffer[offset + |bytes|..];
    }

    // emplace_back of bytes that live outside the buffer.
    method EmplaceForeign(ghost base: nat, ghost offset: nat, bytes: seq<Byte>)
      requires Written(base, offset)
      modifies this`buffers
      ensures Written(base, offset)
      ensures buffers == old(buffers) + [Foreign(bytes)]
      ensures Out(base) == old(Out(base)) + bytes
    {
      hide Render;
      ghost var tail := buffers[base..];
      CurrentSnoc(tail, Foreign(bytes), generation, offset, offset);
      CurrentInBounds(tail, generation, offset, |writeBuffer|);
      RenderSnoc(tail, Foreign(bytes), writeBuffer);
      buffers := buffers + [Foreign(bytes)];
      assert buffers[base..] == tail + [Foreign(bytes)];
    }

    // emplace_back of a stretch of the buffer that has just been filled.
    method EmplaceOwn(ghost base: nat, offset: nat, length: nat)
      requires Written(base, offset) && offset + length <= |writeBuffer|
      modifies this`buffers
      ensures Written(base, offset + length)
      ensures |buffers| == |old(buffers)| + 1 && buffers[..|old(buffers)|] == old(buffers)
      ensures Out(base) == old(Out(base)) + writeBuffer[offset..offset + length]
    {
      hide Render;
      ghost var tail := buffers[base..];
      var segment := Own(generation, offset, length);
      CurrentSnoc(tail, segment, generation, offset, offset + length);
      CurrentInBounds(tail, generation, offset, |writeBuffer|);
      RenderSnoc(tail, segment, writeBuffer);
      buffers := buffers + [segment];
      assert buffers[base..] == tail + [segment];
    }
  }

  // A handler at work: it found `before` and `own` in the message, resized the buffer
  // to `size`, and has filled it up to `offset`, with a segment over everything it wrote.
  ghost predicate Writing(m: Message, before: seq<Segment>, own: seq<Byte>, size: nat, offset: nat)
    reads m
  {
    && m.Written(|before|, offset)
    && m.buffers[..|before|] == before
    && |m.writeBuffer| == size
    && |own| <= offset && m.writeBuffer[..|own|] == own
  }

  lemma WritingSize(m: Message, before: seq<Segment>, own: seq<Byte>, size: nat, offset: nat)
    requires Writing(m, before, own, size, offset)
    ensures |m.writeBuffer| == size
  {
  }

  // Reserve the segments and resize the buffer, once, before anything is written.
  method MakeRoom(m: Message, batchSize: nat, bufferSize: nat)
    modifies m`writeBuffer, m`generation, m`reserved
    ensures m.reserved == |m.buffers| + batchSize
    ensures m.generation == old(m.generation) + 1
    ensures |m.writeBuffer| == |old(m.writeBuffer)| + bufferSize
    ensures Writing(m, m.buffers, old(m.writeBuffer), |m.writeBuffer|, |old(m.writeBuffer)|)
    ensures m.Out(|m.buffers|) == []
  {
    m.Reserve(|m.buffers| + batchSize);
    m.Resize(|m.writeBuffer| + bufferSize);
    assert m.buffers[|m.buffers|..] == [];
  }

  // memcpy the bytes, take a segment over them, advance the offset.
  method Put(m: Message, ghost before: seq<Segment>, ghost own: seq<Byte>, ghost size: nat,
             offset: nat, bytes: seq<Byte>)
    returns (next: nat)
    requires Writing(m, before, own, size, offset) && offset + |bytes| <= size
    modifies m`writeBuffer, m`buffers
    ensures next == offset + |bytes|
    ensures Writing(m, before, own, size, next)
    ensures m.Out(|before|) == old(m.Out(|before|)) + bytes
    ensures |m.buffers| == |old(m.buffers)| + 1
  {
    ghost var base := |before|;
    ghost var was := m.writeBuffer;
    m.Copy(offset, bytes);
    RenderStable(m.buffers[base..], was, m.writeBuffer, offset);
    assert m.writeBuffer[..|own|] == m.writeBuffer[..offset][..|own|];
    assert was[..|own|] == was[..offset][..|own|];
    m.EmplaceOwn(base, offset, |bytes|);
    next := offset + |bytes|;
  }

  method PutForeign(m: Message, ghost before: seq<Segment>, ghost own: seq<Byte>, ghost size: nat,
                    ghost offset: nat, bytes: seq<Byte>)
    requires Writing(m, before, own, size, offset)
    modifies m`buffers
    ensures Writing(m, before, own, size, offset)
    ensures m.Out(|before|) == old(m.Out(|before|)) + bytes
    ensures |m.buffers| == |old(m.buffers)| + 1
  {
    m.EmplaceForeign(|before|, offset, bytes);
  }

  // Filling a longer stretch of the buffer before taking one segment over all of it.
  ghost predicate Filling(m: Message, before: seq<Segment>, own: seq<Byte>, size: nat,
                          start: nat, offset: nat, bytes: seq<Byte>)
    reads m
  {
    && Writing(m, before, own, size, start)
    && start <= offset <= size
    && m.writeBuffer[start..offset] == bytes
  }

  method Fill(m: Message, ghost before: seq<Segment>, ghost own: seq<Byte>, ghost size: nat,
              ghost start: nat, offset: nat, ghost filled: seq<Byte>, bytes: seq<Byte>)
    returns (next: nat)
    requires Filling(m, before, own, size, start, offset, filled) && offset + |bytes| <= size
    modifies m`writeBuffer
    ensures next == offset + |bytes|
    ensures Filling(m, before, own, size, start, next, filled + bytes)
    ensures m.Out(|before|) == old(m.Out(|before|))
  {
    ghost var base := |before|;
    ghost var was := m.writeBuffer;
    m.Copy(offset, bytes);
    assert m.writeBuffer[..start] == m.writeBuffer[..offset][..start];
    assert was[..start] == was[..offset][..start];
    RenderStable(m.buffers[base..], was, m.writeBuffer, start);
    assert m.writeBuffer[..|own|] == m.writeBuffer[..start][..|own|];
    assert was[..|own|] == was[..start][..|own|];
    next := offset + |bytes|;
    assert m.writeBuffer[start..offset] == m.writeBuffer[..offset][start..];
    assert was[start..offset] == was[..offset][start..];
    assert m.writeBuffer[start..next] == m.writeBuffer[start..offset] + m.writeBuffer[offset..next];
  }

  method EmplaceFilled(m: Message, ghost before: seq<Segment>, ghost own: seq<Byte>, ghost size: nat,
                       start: nat, offset: nat, ghost filled: seq<Byte>)
    requires Filling(m, before, own, size, start, offset, filled)
    modifies m`buffers
    ensures Writing(m, before, own, size, offset)
    ensures m.Out(|before|) == old(m.Out(|before|)) + filled
    ensures |m.buffers| == |old(m.buffers)| + 1
  {
    m.EmplaceOwn(|before|, start, offset - start);
  }
}
