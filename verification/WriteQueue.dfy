/** The write half of a connection, and the executor that serves all connections from one
    message pool. */
module WriteQueue {
  import opened Bytes
  import opened Messages
  import opened MessagesPool
  import opened Wrappers

  // pending_writes_.set_capacity(1024)
  const CAPACITY: nat := 1024

  class Connection {
    var pending: seq<Message>
    // the message of the async_write in progress
    var outstanding: Option<Message>
    var failed: bool
    // every message handed to on_send, every message whose write completed, and the bytes
    // each of these put on the wire
    ghost var sent: seq<Message>
    ghost var written: seq<Message>
    ghost var received: seq<seq<Byte>>

    ghost predicate Valid()
      reads this
    {
      && |pending| <= CAPACITY
      && sent == written + pending && |received| == |written|
      && (failed ==> pending != [] && outstanding == None)
      && (!failed ==> outstanding == if pending == [] then None else Some(pending[0]))
    }

    constructor ()
      ensures Valid() && pending == [] && sent == [] && written == [] && received == [] && !failed
    {
      pending, outstanding, failed := [], None, false;
      sent, written, received := [], [], [];
    }

    method WriteNext()
      modifies this`outstanding
      ensures outstanding == if pending == [] then old(outstanding) else Some(pending[0])
    {
      if |pending| == 0 {
        return;
      }
      outstanding := Some(pending[0]);
    }

    // A full queue gives up its front, the very message that is being written.
    method OnSend(batch: Message)
      requires Valid()
      modifies this
      ensures sent == old(sent) + [batch]
      ensures written == old(written) && received == old(received) && failed == old(failed)
      ensures |old(pending)| < CAPACITY ==> Valid() && pending == old(pending) + [batch]
      ensures |old(pending)| == CAPACITY ==> pending == old(pending)[1..] + [batch] && outstanding == old(outstanding)
    {
      Assoc(written, pending, [batch]);
      sent := sent + [batch];
      pending := PushBack(pending, batch, CAPACITY);
      if |pending| > 1 {
        return;
      }
      WriteNext();
    }

    ghost function Front(): set<Message>
      reads this
    {
      if pending == [] then {} else {pending[0]}
    }

    // The write in progress has ended. Whatever was written, the front of the queue is
    // what is taken off and released.
    method OnWrite(error: bool)
      requires outstanding.Some? && |received| == |written|
      modifies this, Front()`inUse
      ensures old(Valid()) ==> Valid()
      ensures sent == old(sent) && |received| == |written|
      ensures error ==> failed && pending == old(pending) && outstanding == None
      ensures error ==> written == old(written) && received == old(received)
      ensures error ==> forall m :: m in old(Front()) ==> unchanged(m)
      ensures !error ==> failed == old(failed) && pending == if old(pending) == [] then [] else old(pending)[1..]
      ensures !error ==> outstanding == if pending == [] then None else Some(pending[0])
      ensures !error ==> written == old(written) + [old(outstanding.value)]
      ensures !error ==> received == old(received) + [old(outstanding.value.Out(0))]
      ensures !error ==> forall m :: m in old(Front()) ==> m.inUse == (old(m.inUse) && !m.recyclable)
    {
      if error {
        outstanding := None;
        failed := true;
        return;
      }
      ghost var was := pending;
      written := written + [outstanding.value];
      received := received + [outstanding.value.Out(0)];
      outstanding := None;
      if |pending| == 0 {
        return;
      }
      var message := pending[0];
      pending := pending[1..];
      Assoc(old(written), [message], pending);
      assert [message] + pending == was;
      if message.recyclable {
        message.inUse := false;
      }
      if |pending| != 0 {
        WriteNext();
      }
    }
  }

  // A message sent on a full queue: the next completed write takes off the following
  // message unwritten, and that one is lost; the one that was written is never released.
  method SendOnFull(c: Connection, batch: Message)
    requires c.Valid() && !c.failed && |c.pending| == CAPACITY
    modifies c, {c.pending[1]}`inUse
    ensures c.sent == old(c.sent) + [batch]
    ensures c.written == old(c.written) + [old(c.pending[0])]
    ensures c.pending == old(c.pending)[2..] + [batch] && c.outstanding == Some(c.pending[0])
    ensures c.sent == c.written + [old(c.pending[1])] + c.pending
    ensures !c.failed && |c.received| == |c.written|
  {
    ghost var was := c.pending;
    ghost var written := c.written;
    c.OnSend(batch);
    assert c.Front() == {was[1]};
    c.OnWrite(false);
    assert was == [was[0]] + [was[1]] + was[2..];
    assert c.sent == written + ([was[0]] + [was[1]] + was[2..]) + [batch];
    assert c.pending == was[2..] + [batch];
  }

  // A new connection that is sent one message more than its queue holds.
  method Overflow() returns (c: Connection, lost: Message)
    ensures fresh(c) && !c.failed && |c.sent| == CAPACITY + 1
    ensures lost in c.sent && lost !in c.written && lost !in c.pending
  {
    c := new Connection();
    for i := 0 to CAPACITY
      invariant fresh(c) && c.Valid() && !c.failed && c.written == [] && |c.pending| == i
      invariant fresh(c.pending) && NoDup(c.pending)
    {
      var m := new Message();
      c.OnSend(m);
    }
    ghost var was := c.pending;
    lost := c.pending[1];
    var batch := new Message();
    SendOnFull(c, batch);
    assert c.sent[1] == lost;
    assert c.written == [] + [was[0]];
    forall i | 0 <= i < |c.pending| ensures c.pending[i] != was[1] {
      assert i < CAPACITY - 2 ==> c.pending[i] == was[i + 2];
    }
  }

  // Written and pending messages make up what was sent exactly while there is room.
  lemma OverflowLosesIff(sent: seq<Message>, written: seq<Message>, pending: seq<Message>, batch: Message)
    requires sent == written + pending && |pending| <= CAPACITY
    ensures sent + [batch] == written + PushBack(pending, batch, CAPACITY) <==> |pending| < CAPACITY
  {
  }
}
