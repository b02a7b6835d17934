/** The executor that serves all connections from one message pool. */
module EventLoop {
  import opened Bytes
  import opened Messages
  import opened MessagesPool
  import opened WriteQueue
  import opened Delivery
  import opened Traffic
  import opened Wrappers

  // ----- Connections and messages as values

  ghost function LineOf(c: Connection): Line
    reads c
  {
    Line(c.pending, c.sent, c.written, c.received)
  }

  ghost function LinesOf(cs: set<Connection>): Lines
    reads cs
  {
    map c | c in cs :: LineOf(c)
  }

  // The bytes that messages would put on the wire.
  ghost function Contents(ms: set<Message>): map<Message, seq<Byte>>
    reads ms
  {
    map m | m in ms :: m.Out(0)
  }

  ghost predicate AllValid(cs: set<Connection>)
    reads cs
  {
    forall c :: c in cs ==> c.Valid()
  }

  ghost function Failed(cs: set<Connection>): set<Connection>
    reads cs
  {
    set c | c in cs && c.failed
  }

  // Messages in flight are in use.
  ghost predicate Held(ms: set<Message>)
    reads ms
  {
    forall m :: m in ms ==> m.inUse && m.recyclable
  }

  lemma Joined(cs: set<Connection>, c: Connection)
    requires AllValid(cs) && c.Valid() && c !in cs
    ensures LinesOf(cs + {c}) == LinesOf(cs)[c := LineOf(c)] && AllValid(cs + {c})
  {
  }

  lemma LineIn(cs: set<Connection>, c: Connection)
    requires c in cs && AllValid(cs)
    ensures LinesOf(cs).Keys == cs && LinesOf(cs)[c] == LineOf(c) && c.Valid()
  {
  }

  lemma KeysOf(cs: set<Connection>)
    ensures LinesOf(cs).Keys == cs
  {
  }

  lemma FrontIsOutstanding(c: Connection)
    requires c.Valid() && c.outstanding.Some?
    ensures |c.received| == |c.written| && !c.failed
    ensures c.pending != [] && c.pending[0] == c.outstanding.value
  {
  }

  lemma FliesToo(ms: set<Message>, m: Message)
    ensures Contents(ms + {m}) == Contents(ms)[m := m.Out(0)]
    ensures Held(ms) && m.inUse && m.recyclable ==> Held(ms + {m})
  {
  }

  class Executor {
    const pool: Pool
    var connections: set<Connection>
    var posted: seq<(Connection, Message)>
    // everything in flight, and what every client was and will be told
    ghost var now: State

    // A state that is that of the objects.
    ghost predicate Mirrors(w: State)
      reads this`connections, connections, w.destination.Keys
    {
      w.lines == LinesOf(connections) && w.held == Contents(w.destination.Keys)
    }

    ghost predicate Consistent(w: State)
      reads this`connections, pool, pool.available, pool.used, connections, w.destination.Keys
    {
      && pool.Valid() && FIT <= pool.capacity
      && AllValid(connections) && Held(w.destination.Keys)
      && Mirrors(w) && Sound(w)
    }

    ghost predicate Valid()
      reads this, pool, pool.available, pool.used, connections, now.destination.Keys
    {
      Consistent(now) && posted == now.posted
    }

    // The bytes on their way, and those that have arrived.
    ghost function Flowing(): Flow
      reads this, connections
    {
      FlowOf(now, Failed(connections))
    }

    // The objects have reached the next state.
    method Advance(posted': seq<(Connection, Message)>, ghost next: State)
      requires Consistent(next) && posted' == next.posted
      modifies this`posted, this`now
      ensures Valid() && posted == posted' && now == next
    {
      hide Consistent;
      posted, now := posted', next;
    }

    // Every message the executor can reach.
    ghost function Messages(): set<Message>
      reads this, pool
    {
      (set m | m in pool.available) + (set m | m in pool.used) + now.destination.Keys
    }

    constructor (p: Pool)
      requires p.Valid() && FIT <= p.capacity
      ensures Valid() && pool == p && connections == {} && posted == [] && now.destination == map[]
    {
      pool, connections, posted := p, {}, [];
      now := State(map[], [], map[], map[], map[], map[]);
    }

    method Connect() returns (c: Connection)
      requires Valid()
      modifies this`connections, this`now
      ensures Valid() && fresh(c) && connections == old(connections) + {c}
      ensures c.pending == [] && c.received == [] && !c.failed && Messages() == old(Messages())
      ensures now == Connected(old(now), c)
    {
      hide Sound, Pool.Valid, AllValid, Held, Contents, LinesOf, Connection.Valid;
      c := new Connection();
      Adopt(c);
    }

    method Adopt(c: Connection)
      requires Valid() && c !in connections && c.Valid()
      requires c.pending == [] && c.sent == [] && c.written == [] && c.received == []
      modifies this`connections, this`now
      ensures Valid() && connections == old(connections) + {c}
      ensures now == Connected(old(now), c)
    {
      hide Sound, Pool.Valid, AllValid, Held, Contents, LinesOf;
      KeysOf(connections);
      ConnectedSound(now, c);
      Joined(connections, c);
      connections := connections + {c};
      now := Connected(now, c);
    }

    // take_one, in the presence of the connections: nothing in flight is touched.
    method TakeMessage() returns (m: Message)
      requires Valid()
      modifies pool, Messages()
      ensures Valid() && Flowing() == old(Flowing())
      ensures m !in now.destination && m !in pool.available && m.inUse && m.recyclable
      ensures m.buffers == [] && m.writeBuffer == []
      ensures forall x :: x in now.destination ==> unchanged(x)
      ensures m in Messages() && forall x :: x in Messages() ==> x in old(Messages()) || fresh(x)
    {
      hide Sound, PushBack, AllValid, Pool.Valid, LinesOf, Contents, Keep, Ready;
      pool.AvailableIsIdle();
      ghost var flying := now.destination.Keys;
      ghost var busy := Busy(pool.used);
      assert forall x :: x in flying && x in pool.used ==> x in busy;
      m := pool.TakeOne(FIT);
      assert Held(flying);
      assert Contents(flying) == old(Contents(flying));
      assert LinesOf(connections) == old(LinesOf(connections));
    }

    // A handler fills the message it took.
    method Answer(m: Message, response: seq<Byte>)
      requires Valid() && m !in now.destination && m !in pool.available
      requires m.buffers == [] && m.writeBuffer == []
      modifies m`writeBuffer, m`buffers, m`generation, m`reserved
      ensures Valid() && Flowing() == old(Flowing()) && m.Out(0) == response
    {
      hide Sound, AllValid, LinesOf, Contents, Held;
      MakeRoom(m, 1, |response|);
      var end := Put(m, [], [], |response|, 0, response);
      assert [] + response == response;
    }

    // A message that is not in flight is in no connection's queue, on its way to none, and
    // not being written.
    lemma FreeIsNowhere(m: Message)
      requires Valid() && m !in now.destination
      ensures forall c :: c in connections ==> m !in c.pending && c.outstanding != Some(m)
      ensures forall i :: 0 <= i < |posted| ==> posted[i].1 != m
    {
      FreeInSound(now, m);
      hide Sound;
      forall c | c in connections ensures m !in c.pending && c.outstanding != Some(m) {
        LineIn(connections, c);
        assert c in now.lines;
        assert c.outstanding.Some? ==> c.outstanding.value in c.pending;
      }
    }

    // send: the message is posted to its connection.
    method Post(c: Connection, m: Message)
      requires Valid() && c in connections
      requires m !in now.destination && m.inUse && m.recyclable
      modifies this`posted, this`now
      ensures Valid() && Messages() == old(Messages()) + {m}
      ensures CanPost(old(now), c) && now == Posted(old(now), c, m, m.Out(0))
      ensures Flowing() == Next(old(Flowing()), Reply(c, m.Out(0)))
    {
      hide Sound, Pool.Valid, AllValid, Held, Contents, LinesOf, Failed, Message.Out, Next, FlowOf;
      KeysOf(connections);
      PostedSound(now, c, m, m.Out(0));
      PostedFlow(now, c, m, m.Out(0), Failed(connections));
      FliesToo(now.destination.Keys, m);
      assert now.destination[m := c].Keys == now.destination.Keys + {m};
      Advance(posted + [(c, m)], Posted(now, c, m, m.Out(0)));
    }

    // The oldest posted message reaches the queue of its connection.
    method DeliverOne() returns (to: Connection, message: Message)
      requires Valid() && posted != []
      requires |posted[0].0.pending| < CAPACITY
      modifies this`posted, this`now, {posted[0].0}
      ensures Valid() && Messages() == old(Messages())
      ensures to == old(posted[0]).0 && message == old(posted[0]).1 && to in connections
      ensures posted == old(posted)[1..] && to.pending == old(posted[0].0.pending) + [message]
      ensures CanDeliver(old(now)) && now == Delivered(old(now))
      ensures Flowing() == Next(old(Flowing()), Deliver)
    {
      hide Sound, Pool.Valid, AllValid, Held, Contents, LinesOf, Failed, Connection.Valid;
      hide Delivered, CanDeliver, Next, FlowOf;
      to, message := posted[0].0, posted[0].1;
      FrontLine();
      DeliveredSound(now);
      DeliveredParts(now);
      DeliveredFlow(now, Failed(connections));
      Enqueue(to, message);
      Advance(posted[1..], Delivered(now));
    }

    // What a delivery does to the objects.
    method Enqueue(to: Connection, message: Message)
      requires pool.Valid() && AllValid(connections) && Held(now.destination.Keys) && Mirrors(now) && CanDeliver(now)
      requires (to, message) == now.posted[0] && to in connections && |to.pending| < CAPACITY
      modifies to
      ensures pool.Valid() && AllValid(connections) && Held(now.destination.Keys)
      ensures LinesOf(connections) == Delivered(now).lines && Failed(connections) == old(Failed(connections))
      ensures to.pending == old(to.pending) + [message]
      ensures Contents(now.destination.Keys) == now.held
    {
      hide Pool.Valid, AllValid, Held, Contents, LinesOf, Failed, Delivered;
      Handover(to, message);
    }

    method Handover(to: Connection, message: Message)
      requires AllValid(connections) && Mirrors(now) && CanDeliver(now)
      requires (to, message) == now.posted[0] && to in connections && |to.pending| < CAPACITY
      modifies to
      ensures AllValid(connections)
      ensures LinesOf(connections) == Delivered(now).lines && Failed(connections) == old(Failed(connections))
      ensures to.pending == old(to.pending) + [message]
    {
      hide Connection.Valid;
      LineIn(connections, to);
      to.OnSend(message);
    }

    // The write in progress on a connection has ended; its message may be recycled.
    method CompleteWrite(c: Connection, error: bool)
      requires Valid() && c in connections && c.outstanding.Some?
      modifies this`now, this`posted, c, c.outstanding.value`inUse
      ensures Valid() && Messages() <= old(Messages())
      ensures Flowing() == Next(old(Flowing()), Complete(c, error))
      ensures error ==> c.failed && now == old(now) && c.received == old(c.received)
      ensures !error ==> CanComplete(old(now), c) && now == Completed(old(now), c)
      ensures !error ==> c.received == old(c.received) + [old(c.outstanding.value.Out(0))]
      ensures Failed(connections) == if error then old(Failed(connections)) + {c} else old(Failed(connections))
    {
      hide Sound, LinesOf, AllValid, Held, Contents, Failed, Pool.Valid, Connection.Valid, Message.Out;
      hide Completed, CanComplete, Next, FlowOf;
      OutstandingFlies(c);
      CompletedSound(now, c);
      CompletedHere(c);
      StillWriting(c);
      CompletedFlow(now, c, Failed(connections));
      FailedFlow(now, c, Failed(connections));
      EndWrite(c, error);
      if !error {
        Advance(posted, Completed(now, c));
      }
    }

    // What the end of a write does to the objects.
    method EndWrite(c: Connection, error: bool)
      requires pool.Valid() && AllValid(connections) && Held(now.destination.Keys)
      requires c in connections && c.outstanding.Some? && c.outstanding.value in now.destination
      requires Mirrors(now) && CanComplete(now, c)
      modifies c, c.outstanding.value`inUse
      ensures pool.Valid() && AllValid(connections)
      ensures error ==> c.failed && Held(now.destination.Keys) && LinesOf(connections) == old(LinesOf(connections))
      ensures error ==> Contents(now.destination.Keys) == old(Contents(now.destination.Keys))
      ensures Failed(connections) == if error then old(Failed(connections)) + {c} else old(Failed(connections))
      ensures c.received == if error then old(c.received) else old(c.received) + [old(c.outstanding.value.Out(0))]
      ensures !error ==> Held(Completed(now, c).destination.Keys)
      ensures !error ==> Contents(Completed(now, c).destination.Keys) == Completed(now, c).held
      ensures !error ==> LinesOf(connections) == Completed(now, c).lines
    {
      hide NoDup, Message.Out, AllValid, LinesOf, Failed, Connection.Valid;
      pool.AvailableIsIdle();
      LineIn(connections, c);
      FrontIsOutstanding(c);
      FinishWrite(c, error);
    }

    method FinishWrite(c: Connection, error: bool)
      requires AllValid(connections) && c in connections && c.outstanding.Some?
      modifies c, c.outstanding.value`inUse
      ensures AllValid(connections)
      ensures LinesOf(connections) == old(LinesOf(connections))[c := LineOf(c)]
      ensures Failed(connections) == if error then old(Failed(connections)) + {c} else old(Failed(connections))
      ensures error ==> c.failed && unchanged(old(c.outstanding.value)) && LineOf(c) == old(LineOf(c))
      ensures var m, text, l := old(c.outstanding.value), old(c.outstanding.value.Out(0)), old(LineOf(c));
              !error ==>
                && l.pending != []
                && LineOf(c) == Line(l.pending[1..], l.sent, l.written + [m], l.received + [text])
    {
      hide Message.Out, Connection.Valid;
      LineIn(connections, c);
      FrontIsOutstanding(c);
      assert c.Front() == {c.outstanding.value} && !c.failed;
      c.OnWrite(error);
    }

    lemma OutstandingFlies(c: Connection)
      requires Valid() && c in connections && c.outstanding.Some?
      ensures c.outstanding.value in now.destination && c.outstanding.value in Messages()
      ensures c in now.lines && now.lines[c] == LineOf(c) && c.pending != []
      ensures c.pending[0] == c.outstanding.value
    {
      LineIn(connections, c);
      SoundKeys(now);
      hide Sound;
    }

    // What reaches a client is the beginning of what was asked for it, each message once
    // and with the bytes it was posted with, and all of it once nothing is posted or pending.
    lemma RepliesInOrder(c: Connection)
      requires Valid() && c in connections
      ensures c in now.requested && c in now.responses
      ensures c.written <= now.requested[c] && c.received <= now.responses[c]
      ensures c.pending == [] && PostedTo(posted, c) == [] ==>
                c.written == now.requested[c] && c.received == now.responses[c]
      ensures NoDup(c.pending)
    {
      KeysOf(connections);
      SoundDelivery(now, c);
      hide Sound;
      LineIn(connections, c);
    }

    // io_context::run: any script of events, each taken when it can happen. Whatever they
    // interleave, bytes flow as through plain queues; what a client has received is the
    // beginning of the responses made to it, in order; and a script that ends flushing
    // leaves nothing behind.
    method RunEvents(script: seq<Event>)
      requires Valid()
      modifies this, pool, connections, Messages()
      ensures Valid() && connections == old(connections)
      ensures Flowing() == Run(old(Flowing()), script)
      ensures forall c :: c in connections ==>
                && c in old(now.responses) && c in now.responses && c in now.requested
                && now.responses[c] == old(now.responses[c]) + ResponsesTo(script, c)
                && c.written <= now.requested[c] && c.received <= now.responses[c]
                && Flatten(c.received) <= Flatten(now.responses[c])
      ensures (exists i: nat, j: nat :: EndsFlushing(old(Flowing()), script, i, j)) ==>
                posted == [] && forall c :: c in connections ==>
                  c in now.responses && c.pending == [] && c.received == now.responses[c]
    {
      hide Valid, Messages, Next, FlowOf, EndsFlushing;
      ghost var start := Flowing();
      ghost var before := now.responses;
      FlowKnown();
      for i := 0 to |script|
        invariant Valid() && connections == old(connections)
        invariant forall m :: m in Messages() ==> m in old(Messages()) || fresh(m)
        invariant Flowing() == Run(start, script[..i])
        invariant now.responses.Keys == connections
        invariant forall c :: c in connections ==> now.responses[c] == before[c] + ResponsesTo(script[..i], c)
      {
        assert script[..i + 1] == script[..i] + [script[i]];
        RunAppend(start, script[..i], [script[i]]);
        RunOne(Flowing(), script[i]);
        ghost var told := now.responses;
        Handle(script[i]);
        forall c | c in connections ensures now.responses[c] == before[c] + ResponsesTo(script[..i + 1], c) {
          ResponsesAre(script[..i], [script[i]], c);
          Assoc(before[c], ResponsesTo(script[..i], c), ResponsesTo([script[i]], c));
        }
      }
      assert script[..|script|] == script;
      forall c | c in connections
        ensures c in now.requested && c.written <= now.requested[c] && c.received <= now.responses[c]
        ensures Flatten(c.received) <= Flatten(now.responses[c])
      {
        RepliesInOrder(c);
        FlattenPrefix(c.received, now.responses[c]);
      }
      if i: nat, j: nat :| EndsFlushing(start, script, i, j) {
        FlushedIsAll(start, script, i, j);
        NothingFlows();
      }
    }

    method Handle(event: Event)
      requires Valid()
      modifies this, pool, connections, Messages()
      ensures Valid() && connections == old(connections)
      ensures forall m :: m in Messages() ==> m in old(Messages()) || fresh(m)
      ensures Flowing() == Next(old(Flowing()), event)
      ensures now.responses.Keys == old(now.responses.Keys) == connections
      ensures forall c :: c in connections ==>
                now.responses[c] == old(now.responses)[c] + ResponsesTo([event], c)
    {
      hide Valid, Messages, Flowing, Next, ResponsesTo;
      FlowKnown();
      ResponsesOfOne(event);
      match event {
        case Reply(c, response) =>
          if c in connections {
            Respond(c, response);
          } else {
            NobodyReplied(c, response);
          }
        case Deliver => DeliverNext();
        case Complete(c, error) => CompleteNext(c, error);
      }
    }

    // A message taken, filled and posted: the response is behind all that were posted.
    method Respond(c: Connection, response: seq<Byte>)
      requires Valid() && c in connections
      modifies this, pool, Messages()
      ensures Valid() && connections == old(connections)
      ensures forall m :: m in Messages() ==> m in old(Messages()) || fresh(m)
      ensures Flowing() == Next(old(Flowing()), Reply(c, response))
      ensures c in old(now.responses)
      ensures now.responses == old(now.responses)[c := old(now.responses)[c] + [response]]
    {
      hide Valid, Flowing, Messages, Message.Out, Next;
      var m := TakeMessage();
      Answer(m, response);
      Post(c, m);
    }

    // If a message is posted and its connection has room, the oldest one moves there.
    method DeliverNext()
      requires Valid()
      modifies this, connections
      ensures Valid() && connections == old(connections)
      ensures Messages() == old(Messages()) && now.responses == old(now.responses)
      ensures Flowing() == Next(old(Flowing()), Deliver)
      ensures if old(posted) != [] && |old(posted[0].0.pending)| < CAPACITY
              then posted == old(posted)[1..]
                   && old(posted[0].0).pending == old(posted[0].0.pending) + [old(posted[0].1)]
              else posted == old(posted) && now == old(now)
    {
      hide Valid, Messages, Delivered, Next, Flowing, CanDeliver;
      if posted != [] {
        FrontLine();
        DeliveredParts(now);
      }
      if posted != [] && |posted[0].0.pending| < CAPACITY {
        var c, m := DeliverOne();
      } else {
        DeliveryWaits();
      }
    }

    // If a write is in progress, its end adds the bytes written to what the client has
    // received, or fails the connection.
    method CompleteNext(c: Connection, error: bool)
      requires Valid()
      modifies this, connections, Messages()
      ensures Valid() && connections == old(connections)
      ensures Messages() <= old(Messages()) && now.responses == old(now.responses)
      ensures Flowing() == Next(old(Flowing()), Complete(c, error))
      ensures c in connections && old(c.outstanding).Some? && !error ==>
                c.received == old(c.received) + [old(c.outstanding.value.Out(0))]
      ensures c in connections && old(c.outstanding).Some? && error ==>
                c.failed && c.received == old(c.received)
      ensures c in connections && old(c.outstanding).None? ==> now == old(now) && c.received == old(c.received)
    {
      hide Valid, Messages, Completed, CanComplete, Next, Flowing, Message.Out;
      if c in connections && c.outstanding.Some? {
        OutstandingFlies(c);
        CompletedHere(c);
        CompleteWrite(c, error);
      } else {
        NothingCompletes(c, error);
      }
    }

    // The flow and the objects: who is connected, who waits, who has failed.
    lemma FlowKnown()
      requires Valid()
      ensures Proper(Flowing()) && Flowing().waiting.Keys == connections
      ensures now.responses.Keys == connections
      ensures |Flowing().posted| == |posted| && Flowing().failed == Failed(connections)
      ensures forall c :: c in connections ==> |Flowing().waiting[c]| == |c.pending|
      ensures forall c :: c in connections ==> Flowing().received[c] == c.received
    {
      KeysOf(connections);
      SoundKeys(now);
      FlowIsProper(now, Failed(connections));
      LinesWait(now.held, now.lines);
      hide Sound, WaitingTexts, TextsOf;
      forall c | c in connections ensures now.lines[c] == LineOf(c) {
        LineIn(connections, c);
      }
    }

    // Nothing waiting and nothing posted: all responses have been received.
    lemma NothingFlows()
      requires Valid() && Flowing().posted == []
      requires forall c :: c in connections ==> c in Flowing().waiting && Flowing().waiting[c] == []
      ensures posted == [] && now.responses.Keys == connections
      ensures forall c :: c in connections ==> c.pending == [] && c.received == now.responses[c]
    {
      FlowKnown();
      hide FlowOf, Sound;
      forall c | c in connections ensures c.pending == [] && c.received == now.responses[c] {
        assert |Flowing().waiting[c]| == |c.pending|;
        RepliesInOrder(c);
      }
    }

    lemma DeliveryWaits()
      requires Valid() && (posted == [] || |posted[0].0.pending| >= CAPACITY)
      ensures Flowing() == Next(Flowing(), Deliver)
    {
      FlowKnown();
      if posted != [] {
        FrontLine();
        assert |Flowing().waiting[posted[0].0]| >= CAPACITY;
      }
    }

    lemma NothingCompletes(c: Connection, error: bool)
      requires Valid() && (c !in connections || c.outstanding.None?)
      ensures Flowing() == Next(Flowing(), Complete(c, error))
    {
      FlowKnown();
      if c in connections {
        StillWriting(c);
      }
      hide Sound, FlowOf;
    }

    lemma NobodyReplied(c: Connection, response: seq<Byte>)
      requires Valid() && c !in connections
      ensures Flowing() == Next(Flowing(), Reply(c, response))
    {
      FlowKnown();
      hide Sound, FlowOf;
    }

    lemma CompletedHere(c: Connection)
      requires Valid() && c in connections && c.outstanding.Some?
      ensures CanComplete(now, c) && Completed(now, c).responses == now.responses
      ensures Completed(now, c).posted == now.posted
      ensures Completed(now, c).destination.Keys <= now.destination.Keys
    {
      OutstandingFlies(c);
      CompletedSound(now, c);
      hide Sound;
    }

    lemma FrontLine()
      requires Valid() && posted != []
      ensures posted[0].0 in connections && CanDeliver(now)
      ensures now.posted == posted && now.lines[posted[0].0].pending == posted[0].0.pending
    {
      KnownConnection();
      LineIn(connections, posted[0].0);
      hide Sound;
    }

    lemma StillWriting(c: Connection)
      requires Valid() && c in connections
      ensures c.outstanding.Some? <==> c.pending != [] && !c.failed
      ensures c in Failed(connections) <==> c.failed
    {
      LineIn(connections, c);
      hide Sound;
    }

    lemma KnownConnection()
      requires Valid() && posted != []
      ensures posted[0].0 in connections
    {
      KeysOf(connections);
      SoundKeys(now);
    }
  }

  // One connection, one response of one byte: it arrives.
  method OneReply(pool: Pool) returns (c: Connection)
    requires pool.Valid() && FIT <= pool.capacity
    modifies pool, pool.available, pool.used
    ensures fresh(c) && c.received == [[1]] && c.pending == []
  {
    hide Executor.Valid, Executor.Flowing, Pool.Valid, ResponsesTo, EndsFlushing, Run;
    var executor := new Executor(pool);
    c := executor.Connect();
    var script := [Reply(c, [1]), Deliver, Complete(c, false)];
    executor.FlowKnown();
    OneReplyFlushes(executor.Flowing(), c);
    OneReplyTold(c);
    executor.RunEvents(script);
  }

  lemma OneReplyTold(c: Connection)
    ensures ResponsesTo([Reply(c, [1]), Deliver, Complete(c, false)], c) == [[1]]
  {
    var script := [Reply(c, [1]), Deliver, Complete(c, false)];
    assert script == [Reply(c, [1])] + ([Deliver] + [Complete(c, false)]);
    ResponsesAre([Reply(c, [1])], [Deliver] + [Complete(c, false)], c);
    ResponsesAre([Deliver], [Complete(c, false)], c);
    ResponsesOfOne(Reply(c, [1]));
    ResponsesOfOne(Deliver);
    ResponsesOfOne(Complete(c, false));
  }

  lemma OneReplyFlushes(t: Flow, c: Connection)
    requires Proper(t) && t.waiting.Keys == {c} && t.posted == [] && t.failed == {} && t.waiting[c] == []
    ensures EndsFlushing(t, [Reply(c, [1]), Deliver, Complete(c, false)], 1, 2)
  {
    var script := [Reply(c, [1]), Deliver, Complete(c, false)];
    assert script[..1] == [Reply(c, [1])] && script[1..2] == [Deliver] && script[2..] == [Complete(c, false)];
    ResponsesOfOne(Reply(c, [1]));
    assert Completions([Complete(c, false)], c) == 1 + Completions([], c);
    FlushesByCount(t, script, 1, 2);
  }

  lemma FlattenPrefix(a: seq<seq<Byte>>, b: seq<seq<Byte>>)
    requires a <= b
    ensures Flatten(a) <= Flatten(b)
  {
    assert b == a + b[|a|..];
    FlattenAppend(a, b[|a|..]);
  }
}
