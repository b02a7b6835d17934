/** The read half of a connection: a fixed buffer with two cursors that cuts the byte
    stream into requests, and the stream parser it must agree with. */
module Framing {
  import opened Bytes
  import opened MessageSizes

  const MAX_LENGTH: nat := 8096

  datatype Parsed = Parsed(frames: seq<seq<Byte>>, rest: seq<Byte>) {
    function After(earlier: seq<seq<Byte>>): Parsed {
      Parsed(earlier + frames, rest)
    }
  }

  // The whole-stream parser: cut off messages while one is complete.
  function Parse(t: Table, v: Width, s: seq<Byte>): Parsed
    decreases |s|
  {
    var n := MessageSize(t, v, s);
    if n == 0 || |s| < n then
      Parsed([], s)
    else
      var p := Parse(t, v, s[n..]);
      Parsed([s[..n]] + p.frames, p.rest)
  }

  // One turn of the parser.
  lemma ParseHead(t: Table, v: Width, s: seq<Byte>)
    ensures var n := MessageSize(t, v, s);
            Parse(t, v, s) == if n == 0 || |s| < n then Parsed([], s) else Parse(t, v, s[n..]).After([s[..n]])
    ensures s != [] && s[0] >= TABLE_SIZE ==> Parse(t, v, s).rest == s
  {
  }

  predicate Incomplete(t: Table, v: Width, s: seq<Byte>) {
    MessageSize(t, v, s) == 0 || |s| < MessageSize(t, v, s)
  }

  // What a client means by its stream: whole messages followed by an unfinished one.
  ghost predicate IsFraming(t: Table, v: Width, frames: seq<seq<Byte>>, rest: seq<Byte>, s: seq<Byte>) {
    && s == Flatten(frames) + rest
    && (forall f :: f in frames ==> f != [] && MessageSize(t, v, f) == |f|)
    && Incomplete(t, v, rest)
  }

  lemma {:induction false} ParseConserves(t: Table, v: Width, s: seq<Byte>)
    ensures s == Flatten(Parse(t, v, s).frames) + Parse(t, v, s).rest
    ensures Incomplete(t, v, Parse(t, v, s).rest)
    decreases |s|
  {
    hide MessageSize, Parse;
    ParseHead(t, v, s);
    var n := MessageSize(t, v, s);
    if n == 0 || |s| < n {
    } else {
      ParseConserves(t, v, s[n..]);
      var p := Parse(t, v, s[n..]);
      FlattenAppend([s[..n]], p.frames);
      Assoc(s[..n], Flatten(p.frames), p.rest);
    }
  }

  lemma {:induction false} FramesSelfDelimiting(t: Table, v: Width, s: seq<Byte>)
    requires v <= 4
    ensures forall f :: f in Parse(t, v, s).frames ==> f != [] && MessageSize(t, v, f) == |f|
    decreases |s|
  {
    hide MessageSize, Parse;
    ParseHead(t, v, s);
    var n := MessageSize(t, v, s);
    if n == 0 || |s| < n {
    } else {
      SelfDelimiting(t, v, s, n);
      FramesSelfDelimiting(t, v, s[n..]);
    }
  }

  lemma {:induction false} FramingIsParse(t: Table, v: Width, frames: seq<seq<Byte>>, rest: seq<Byte>, s: seq<Byte>)
    requires IsFraming(t, v, frames, rest, s)
    ensures Parse(t, v, s) == Parsed(frames, rest)
    decreases |frames|
  {
    hide MessageSize, Parse;
    ParseHead(t, v, s);
    if frames == [] {
      assert s == rest;
    } else {
      var f, tail := frames[0], Flatten(frames[1..]) + rest;
      Assoc(f, Flatten(frames[1..]), rest);
      PrefixStable(t, v, f, tail);
      Cut(f, tail);
      FramingIsParse(t, v, frames[1..], rest, tail);
      assert [f] + frames[1..] == frames;
    }
  }

  // The parser finds the one and only framing of a stream.
  lemma ParseIsTheFraming(t: Table, v: Width, s: seq<Byte>, frames: seq<seq<Byte>>, rest: seq<Byte>)
    requires v <= 4
    ensures IsFraming(t, v, frames, rest, s) <==> Parse(t, v, s) == Parsed(frames, rest)
  {
    hide MessageSize, Parse;
    if IsFraming(t, v, frames, rest, s) {
      FramingIsParse(t, v, frames, rest, s);
    }
    if Parse(t, v, s) == Parsed(frames, rest) {
      ParseConserves(t, v, s);
      FramesSelfDelimiting(t, v, s);
    }
  }

  // Parsing can stop at any byte and resume from the remainder.
  lemma {:induction false} ParseResumes(t: Table, v: Width, a: seq<Byte>, b: seq<Byte>)
    ensures var p := Parse(t, v, a);
            Parse(t, v, a + b) == Parse(t, v, p.rest + b).After(p.frames)
    decreases |a|
  {
    hide MessageSize, Parse;
    ParseHead(t, v, a);
    var n := MessageSize(t, v, a);
    if n == 0 || |a| < n {
      assert [] + Parse(t, v, a + b).frames == Parse(t, v, a + b).frames;
    } else {
      var f, tail := a[..n], a[n..];
      PrefixStable(t, v, a, b);
      Assoc(f, tail, b);
      Cut(f, tail + b);
      assert f + tail == a;
      ParseHead(t, v, a + b);
      ParseResumes(t, v, tail, b);
      var p := Parse(t, v, tail);
      Assoc([f], p.frames, Parse(t, v, p.rest + b).frames);
    }
  }

  // A session as the network delivers it: one parse per read, resumed each time.
  function ParseReads(t: Table, v: Width, pending: seq<Byte>, chunks: seq<seq<Byte>>): Parsed
    decreases |chunks|
  {
    if chunks == [] then
      Parsed([], pending)
    else
      var p := Parse(t, v, pending + chunks[0]);
      ParseReads(t, v, p.rest, chunks[1..]).After(p.frames)
  }

  lemma {:induction false} ReadsResume(t: Table, v: Width, pending: seq<Byte>, chunks: seq<seq<Byte>>)
    requires Incomplete(t, v, pending)
    ensures ParseReads(t, v, pending, chunks) == Parse(t, v, pending + Flatten(chunks))
    decreases |chunks|
  {
    hide MessageSize, Parse;
    if chunks == [] {
      ParseHead(t, v, pending);
      assert pending + [] == pending;
    } else {
      var p := Parse(t, v, pending + chunks[0]);
      ParseConserves(t, v, pending + chunks[0]);
      ReadsResume(t, v, p.rest, chunks[1..]);
      ParseResumes(t, v, pending + chunks[0], Flatten(chunks[1..]));
      Assoc(pending, chunks[0], Flatten(chunks[1..]));
    }
  }

  // However the network cuts a stream into reads, the same requests are dispatched
  // and the same bytes stay pending.
  lemma ChunkingIndependence(t: Table, v: Width, chunks: seq<seq<Byte>>, others: seq<seq<Byte>>)
    requires Flatten(chunks) == Flatten(others)
    ensures ParseReads(t, v, [], chunks) == ParseReads(t, v, [], others) == Parse(t, v, Flatten(chunks))
  {
    hide Parse, ParseReads;
    ReadsResume(t, v, [], chunks);
    ReadsResume(t, v, [], others);
    assert [] + Flatten(chunks) == Flatten(chunks);
  }

  // The client of a well-formed stream gets back exactly its messages, whatever the reads.
  lemma MessagesSurviveChunking(t: Table, v: Width, messages: seq<seq<Byte>>, chunks: seq<seq<Byte>>)
    requires forall m :: m in messages ==> m != [] && MessageSize(t, v, m) == |m|
    requires Flatten(chunks) == Flatten(messages)
    ensures ParseReads(t, v, [], chunks) == Parsed(messages, [])
  {
    hide MessageSize, Parse;
    ChunkingIndependence(t, v, chunks, chunks);
    assert Flatten(messages) == Flatten(messages) + [];
    FramingIsParse(t, v, messages, [], Flatten(messages));
  }

  // The unfinished remainder of a stream of messages that fit the buffer leaves room
  // to read; a full buffer that yields nothing holds a message that does not fit.
  lemma PendingLeavesRoom(t: Table, v: Width, rest: seq<Byte>, message: seq<Byte>)
    requires Incomplete(t, v, rest)
    requires MessageSize(t, v, message) == |message| && 0 < |message| <= MAX_LENGTH
    requires rest <= message
    ensures |rest| < MAX_LENGTH
  {
    assert |rest| == |message| ==> rest == message;
  }

  // The source keeps the stream in a fixed array between two cursors.
  class Reader {
    const table: Table
    const width: Width
    const buffer: array<Byte>
    var start: nat
    var end: nat
    // The views handed to the command table, in order.
    var dispatched: seq<seq<Byte>>
    // Every byte the socket has delivered.
    ghost var received: seq<Byte>

    ghost predicate InBounds()
      reads this
    {
      buffer.Length == MAX_LENGTH && start <= end <= MAX_LENGTH
    }

    ghost function Pending(): seq<Byte>
      requires InBounds()
      reads this, buffer
    {
      buffer[start..end]
    }

    // Between two reads: everything received is either dispatched or pending.
    ghost predicate Valid()
      reads this, buffer
    {
      InBounds() && Parse(table, width, received) == Parsed(dispatched, Pending())
    }

    // What a read may ask of the socket: a window into the buffer.
    ghost predicate Reading()
      reads this, buffer
    {
      && Valid()
      && start <= MAX_LENGTH / 2
      && (end == MAX_LENGTH ==> start == 0)
    }

    constructor (t: Table, v: Width, b: array<Byte>)
      requires b.Length == MAX_LENGTH
      ensures Reading() && received == [] && dispatched == []
      ensures table == t && width == v && buffer == b
    {
      table, width, buffer := t, v, b;
      start, end := 0, 0;
      dispatched, received := [], [];
    }

    method CompactBuffer()
      requires InBounds()
      modifies this`start, this`end, buffer
      ensures InBounds() && Pending() == old(Pending())
      ensures old(start) != old(end) ==> start == 0
      ensures old(start) == old(end) ==> start == end == old(start)
    {
      if start == end {
        return;
      }
      forall i | 0 <= i < end - start {
        buffer[i] := buffer[start + i];
      }
      end := end - start;
      start := 0;
    }

    method CompactBufferIfNeeded()
      requires InBounds()
      modifies this`start, this`end, buffer
      ensures InBounds() && Pending() == old(Pending())
      ensures start <= MAX_LENGTH / 2
      ensures start == end ==> start == 0
    {
      if start == end {
        start, end := 0, 0;
      } else if start > MAX_LENGTH / 2 {
        CompactBuffer();
      }
    }

    method DoRead()
      requires InBounds()
      requires start <= MAX_LENGTH / 2 && (start == end ==> start == 0)
      modifies this`start, this`end, buffer
      ensures InBounds() && Pending() == old(Pending())
      ensures start <= MAX_LENGTH / 2 && (end == MAX_LENGTH ==> start == 0)
    {
      if end == MAX_LENGTH {
        CompactBuffer();
      }
    }

    method GetMessageSize(span: seq<Byte>) returns (n: nat)
      requires span == [] || span[0] < TABLE_SIZE
      ensures n == MessageSize(table, width, span)
    {
      if span == [] {
        return 0;
      }
      var kind := table[span[0]];
      n := SizeOf(kind, width, span);
    }

    // Every type byte the loop looks at indexes the table.
    ghost predicate TypesInTable()
      requires InBounds()
      reads this, buffer
    {
      var rest := Parse(table, width, Pending()).rest;
      rest == [] || rest[0] < TABLE_SIZE
    }

    method TryProcessNext()
      requires InBounds() && TypesInTable()
      modifies this`start, this`end, this`dispatched, buffer
      ensures InBounds()
      ensures start <= MAX_LENGTH / 2 && (end == MAX_LENGTH ==> start == 0)
      ensures dispatched == old(dispatched) + Parse(table, width, old(Pending())).frames
      ensures Pending() == Parse(table, width, old(Pending())).rest
    {
      hide MessageSize, Parse;
      ghost var all := Parse(table, width, Pending());
      ghost var taken: seq<seq<Byte>> := [];
      while true
        invariant InBounds()
        invariant dispatched == old(dispatched) + taken
        invariant all == Parse(table, width, Pending()).After(taken)
        modifies this`start, this`dispatched
        decreases end - start
      {
        var span := buffer[start..end];
        ParseHead(table, width, span);
        var size := GetMessageSize(span);
        if size == 0 || |span| < size {
          break;
        }
        var view := buffer[start..start + size];
        assert forall i :: 0 <= i < size ==> view[i] == span[i];
        assert view == span[..size];
        start := start + size;
        assert Pending() == span[size..];
        dispatched := dispatched + [view];
        Assoc(taken, [view], Parse(table, width, Pending()).frames);
        taken := taken + [view];
      }
      assert taken + [] == taken;
      CompactBufferIfNeeded();
      DoRead();
    }

    // The socket puts `chunk` into the window that starts at `end`.
    method Fill(chunk: seq<Byte>)
      requires InBounds() && |chunk| <= MAX_LENGTH - end
      modifies this`end, buffer
      ensures InBounds() && Pending() == old(Pending()) + chunk
    {
      ghost var before := Pending();
      forall i | 0 <= i < |chunk| {
        buffer[end + i] := chunk[i];
      }
      assert buffer[start..end] == before;
      assert buffer[end..end + |chunk|] == chunk;
      assert buffer[start..end + |chunk|] == buffer[start..end] + buffer[end..end + |chunk|];
      end := end + |chunk|;
    }

    method OnRead(chunk: seq<Byte>)
      requires Reading() && |chunk| <= MAX_LENGTH - end
      requires var rest := Parse(table, width, Pending() + chunk).rest;
               rest == [] || rest[0] < TABLE_SIZE
      modifies this, buffer
      ensures Reading()
      ensures received == old(received) + chunk
      ensures dispatched == old(dispatched) + Parse(table, width, old(Pending()) + chunk).frames
      ensures Pending() == Parse(table, width, old(Pending()) + chunk).rest
      // the next read gets a window unless the pending bytes fill the whole buffer
      ensures end < MAX_LENGTH <==> |Pending()| < MAX_LENGTH
    {
      hide MessageSize, Parse;
      ParseResumes(table, width, received, chunk);
      received := received + chunk;
      Fill(chunk);
      TryProcessNext();
    }
  }
}
