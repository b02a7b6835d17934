/** The registry of connections beside the subscription index, and publishing through both. */
module Registry {
  import opened Bytes
  import opened Entries
  import opened Messages
  import opened MessageSizes
  import opened Subscriptions
  import Framing

  // ----- EVENT frames

  // `code` is the number of the event request type.
  function EventFrame(code: Byte, v: Width, channel: Key, payload: seq<Byte>): seq<Byte> {
    [code] + [|channel|] + EncodeLE(|payload|, v) + channel + payload
  }

  // The frame, filled into a fresh message as one segment.
  method FillEvent(m: Message, code: Byte, v: Width, channel: Key, payload: seq<Byte>)
    requires m.buffers == [] && m.writeBuffer == []
    modifies m`writeBuffer, m`buffers, m`generation, m`reserved
    ensures m.Out(0) == EventFrame(code, v, channel, payload)
    ensures |m.buffers| == 1 == m.reserved
    ensures m.writeBuffer == EventFrame(code, v, channel, payload)
  {
    var size := 1 + 1 + v + |channel| + |payload|;
    MakeRoom(m, 1, size);
    assert Filling(m, [], [], size, 0, 0, []);
    hide Filling, Writing, EncodeLE;
    var a: seq<Byte>, b: seq<Byte>, c := [code], [|channel|], EncodeLE(|payload|, v);
    assert [] + a == a;
    var offset := Fill(m, [], [], size, 0, 0, [], a);
    offset := Fill(m, [], [], size, 0, offset, a, b);
    offset := Fill(m, [], [], size, 0, offset, a + b, c);
    offset := Fill(m, [], [], size, 0, offset, a + b + c, channel);
    offset := Fill(m, [], [], size, 0, offset, a + b + c + channel, payload);
    FilledWhole(m, [], [], size, EventFrame(code, v, channel, payload));
    EmplaceFilled(m, [], [], size, 0, offset, EventFrame(code, v, channel, payload));
    WritingSize(m, [], [], size, offset);
    assert [] + EventFrame(code, v, channel, payload) == EventFrame(code, v, channel, payload);
  }

  lemma FilledWhole(m: Message, before: seq<Segment>, own: seq<Byte>, size: nat, bytes: seq<Byte>)
    requires Filling(m, before, own, size, 0, size, bytes)
    ensures m.writeBuffer == bytes
  {
  }

  // What a receiver reads from an event.
  ghost predicate Announces(frame: seq<Byte>, code: Byte, v: Width, channel: Key, payload: seq<Byte>) {
    && |frame| == 2 + v + |channel| + |payload|
    && frame[0] == code && frame[1] == |channel|
    && DecodeLE(frame[2..2 + v]) == |payload|
    && frame[2 + v..2 + v + |channel|] == channel
    && frame[2 + v + |channel|..] == payload
  }

  lemma EventReads(code: Byte, v: Width, channel: Key, payload: seq<Byte>)
    requires |payload| < Pow256(v)
    ensures Announces(EventFrame(code, v, channel, payload), code, v, channel, payload)
  {
    DecodeEncodeLE(|payload|, v);
    var a: seq<Byte>, b: seq<Byte>, c := [code], [|channel|], EncodeLE(|payload|, v);
    hide EncodeLE, DecodeLE, Pow256;
    var frame := EventFrame(code, v, channel, payload);
    assert frame == a + b + c + channel + payload;
    Cut(a + b + c + channel, payload);
    assert frame[2 + v..2 + v + |channel|] == channel;
    assert frame[2..2 + v] == c;
  }

  // A subscriber that frames its input cuts an event out as exactly one message.
  lemma EventIsOneMessage(t: Table, code: Byte, v: Width, channel: Key, payload: seq<Byte>)
    requires code < TABLE_SIZE && t[code] == Event
    requires v <= 4 && |payload| < Pow256(v)
    ensures var frame := EventFrame(code, v, channel, payload);
            MessageSize(t, v, frame) == |frame|
            && Framing.Parse(t, v, frame) == Framing.Parsed([frame], [])
  {
    var frame := EventFrame(code, v, channel, payload);
    EventSize(t, code, v, channel, payload);
    assert Flatten([frame]) == frame + Flatten([]);
    assert frame == Flatten([frame]) + [];
    hide EventFrame, MessageSize, Framing.Parse;
    NothingIsIncomplete(t, v);
    Framing.FramingIsParse(t, v, [frame], [], frame);
  }

  lemma NothingIsIncomplete(t: Table, v: Width)
    ensures Framing.Incomplete(t, v, [])
  {
  }

  lemma EventSize(t: Table, code: Byte, v: Width, channel: Key, payload: seq<Byte>)
    requires code < TABLE_SIZE && t[code] == Event
    requires v <= 4 && |payload| < Pow256(v)
    ensures var frame := EventFrame(code, v, channel, payload);
            MessageSize(t, v, frame) == |frame| && frame != []
  {
    var frame := EventFrame(code, v, channel, payload);
    var head: seq<Byte> := [code] + [|channel|];
    Middle(head, EncodeLE(|payload|, v), channel + payload);
    Assoc(head + EncodeLE(|payload|, v), channel, payload);
    assert frame == head + EncodeLE(|payload|, v) + (channel + payload);
    assert frame[2..2 + v] == EncodeLE(|payload|, v);
    assert frame[0] == code && frame[1] == |channel|;
    DecodeEncodeLE(|payload|, v);
    PublishSizeBounds(v, frame);
  }

  // ----- Connections and their subscriptions

  // Which of the four maps a connection belongs in.
  datatype Place = Tcp | Unix | AgentTcp | AgentUnix

  // Where a connection stands between the halves of join and leave, which each take one
  // lock at a time.
  datatype Phase = Registered | Joined | Unsubscribed

  // A map's keys are exactly the connections that belong in it.
  ghost predicate Holds(ids: set<Id>, place: map<Id, Place>, p: Place) {
    forall id :: id in ids <==> id in place && place[id] == p
  }

  lemma Entered(ids: set<Id>, place: map<Id, Place>, q: Place, id: Id, p: Place)
    requires Holds(ids, place, q) && id !in place
    ensures Holds(if p == q then ids + {id} else ids, place[id := p], q)
  {
  }

  lemma Left(ids: set<Id>, place: map<Id, Place>, q: Place, id: Id, p: Place)
    requires Holds(ids, place, q) && (id in place ==> place[id] == p)
    ensures Holds(if p == q then ids - {id} else ids, place - {id}, q)
  {
  }

  class State {
    var tcp: set<Id>
    var unix: set<Id>
    var agentTcp: set<Id>
    var agentUnix: set<Id>
    const index: Index
    ghost var phase: map<Id, Phase>
    ghost var place: map<Id, Place>

    ghost predicate RegisteredOnce()
      reads this
    {
      && phase.Keys == place.Keys
      && Holds(tcp, place, Tcp) && Holds(unix, place, Unix)
      && Holds(agentTcp, place, AgentTcp) && Holds(agentUnix, place, AgentUnix)
    }

    // Every subscription belongs to a connection that is in exactly one of the four maps.
    ghost predicate Valid()
      reads this, index
    {
      && index.Valid() && RegisteredOnce()
      && (forall s :: s in index.subs ==> s.id in phase && phase[s.id] == Joined)
    }

    constructor ()
      ensures Valid() && phase == map[] && fresh(index) && index.subs == []
    {
      tcp, unix, agentTcp, agentUnix := {}, {}, {}, {};
      index := new Index();
      phase, place := map[], map[];
    }

    // join, first half
    method Register(id: Id, p: Place)
      requires Valid() && id !in phase
      modifies this
      ensures Valid()
      ensures phase == old(phase)[id := Registered] && place == old(place)[id := p]
    {
      hide Holds;
      Entered(tcp, place, Tcp, id, p);
      Entered(unix, place, Unix, id, p);
      Entered(agentTcp, place, AgentTcp, id, p);
      Entered(agentUnix, place, AgentUnix, id, p);
      match p {
        case Tcp => tcp := tcp + {id};
        case AgentTcp => agentTcp := agentTcp + {id};
        case Unix => unix := unix + {id};
        case AgentUnix => agentUnix := agentUnix + {id};
      }
      phase, place := phase[id := Registered], place[id := p];
    }

    // join, second half: the connection's own channel and the one for everybody
    method SubscribeOnJoin(id: Id, own: Key, everybody: Key)
      requires Valid() && id in phase && phase[id] == Registered
      modifies this`phase, index
      ensures Valid() && phase == old(phase)[id := Joined]
      ensures multiset(index.subs) == multiset(old(index.subs))
                                      + multiset{Subscription(id, own), Subscription(id, everybody)}
    {
      hide Arrived;
      ghost var was := index.subs;
      index.Insert(Subscription(id, own));
      index.Insert(Subscription(id, everybody));
      phase := phase[id := Joined];
      Arrivals(was, index.subs, Subscription(id, own), Subscription(id, everybody));
    }

    // the SUBSCRIBE command of a joined connection
    method Subscribe(id: Id, channel: Key)
      requires Valid() && id in phase && phase[id] == Joined
      modifies index
      ensures Valid()
      ensures multiset(index.subs) == multiset(old(index.subs)) + multiset{Subscription(id, channel)}
    {
      hide RegisteredOnce, Arrived;
      ghost var was := index.subs;
      index.Insert(Subscription(id, channel));
      Arrivals(was, index.subs, Subscription(id, channel), Subscription(id, channel));
    }

    // the UNSUBSCRIBE command
    method Unsubscribe(id: Id, channel: Key) returns (ok: bool)
      requires Valid()
      modifies index
      ensures Valid()
      ensures multiset(index.subs) == multiset(old(index.subs))[Subscription(id, channel) := 0]
      ensures ok == ScanFinds(old(index.subs), id, channel)
    {
      var s := Subscription(id, channel);
      WithoutRemovesAllCopies(index.subs, s);
      WithoutSorted(index.subs, s);
      WithoutMembers(index.subs, s);
      hide RegisteredOnce, Index.Valid, Without, ScanFinds;
      ok := index.Unsubscribe(id, channel);
    }

    // leave, first half
    method EraseOnLeave(id: Id)
      requires Valid() && (id in phase ==> phase[id] == Joined)
      modifies this`phase, index
      ensures Valid()
      ensures phase == if id in old(phase) then old(phase)[id := Unsubscribed] else old(phase)
      ensures forall s: Subscription ::
                multiset(index.subs)[s] == if s.id == id then 0 else multiset(old(index.subs))[s]
    {
      OthersStay(index.subs, id);
      StillThere(index.subs, id);
      index.EraseAll(id);
      if id in phase {
        phase := phase[id := Unsubscribed];
      }
    }

    // leave, second half
    method Deregister(id: Id, p: Place)
      requires Valid() && (id in phase ==> phase[id] == Unsubscribed && place[id] == p)
      modifies this
      ensures Valid()
      ensures phase == old(phase) - {id} && place == old(place) - {id}
    {
      hide Holds;
      Left(tcp, place, Tcp, id, p);
      Left(unix, place, Unix, id, p);
      Left(agentTcp, place, AgentTcp, id, p);
      Left(agentUnix, place, AgentUnix, id, p);
      match p {
        case Tcp => tcp := tcp - {id};
        case AgentTcp => agentTcp := agentTcp - {id};
        case Unix => unix := unix - {id};
        case AgentUnix => agentUnix := agentUnix - {id};
      }
      phase, place := phase - {id}, place - {id};
    }

    // One subscriber's share of a publish: a send for each map its connection is found in,
    // and none if the connection has gone.
    method DeliverTo(id: Id, frame: seq<Byte>) returns (sends: seq<Delivery>)
      requires RegisteredOnce()
      ensures sends == if id in place then [Delivery(id, frame)] else []
    {
      sends := [];
      if id !in tcp && id !in unix && id !in agentTcp && id !in agentUnix {
        return;
      }
      if id in tcp {
        sends := sends + [Delivery(id, frame)];
      }
      if id in unix {
        sends := sends + [Delivery(id, frame)];
      }
      if id in agentTcp {
        sends := sends + [Delivery(id, frame)];
      }
      if id in agentUnix {
        sends := sends + [Delivery(id, frame)];
      }
    }

    lemma SubscribersAreRegistered(s: Subscription)
      requires Valid() && s in index.subs
      ensures s.id in place && RegisteredOnce()
    {
    }

    // publish_command::call as one step. `matching` is the channel's range in the other
    // index: the same subscriptions in some order. Each gets exactly one frame.
    method Publish(code: Byte, v: Width, channel: Key, payload: seq<Byte>, matching: seq<Subscription>)
      returns (ok: bool, deliveries: seq<Delivery>)
      requires Valid()
      requires multiset(matching) == multiset(On(index.subs, channel))
      ensures ok == (exists s :: s in index.subs && s.channel == channel)
      ensures deliveries == OneEach(matching, EventFrame(code, v, channel, payload))
      // each matching subscription is sent one frame, which announces channel and payload
      ensures |deliveries| == |matching|
      ensures forall i :: 0 <= i < |matching| ==> deliveries[i].to == matching[i].id
      ensures |payload| < Pow256(v) ==>
                forall d :: d in deliveries ==> Announces(d.frame, code, v, channel, payload)
    {
      hide On, EventFrame, RegisteredOnce;
      MatchingAre(matching, index.subs, channel);
      ok, deliveries := |matching| != 0, [];
      if !ok {
        return;
      }
      assert matching[0] in matching;
      for i := 0 to |matching|
        invariant deliveries == OneEach(matching[..i], EventFrame(code, v, channel, payload))
      {
        var m := new Message();
        FillEvent(m, code, v, channel, payload);
        assert matching[i] in matching;
        SubscribersAreRegistered(matching[i]);
        var sends := DeliverTo(matching[i].id, m.writeBuffer);
        deliveries := deliveries + sends;
        OneEachSnoc(matching, i, EventFrame(code, v, channel, payload));
      }
      assert matching[..|matching|] == matching;
      OneEachAt(matching, EventFrame(code, v, channel, payload));
      if |payload| < Pow256(v) {
        EventReads(code, v, channel, payload);
      }
    }
  }

  lemma StillThere(subs: seq<Subscription>, id: Id)
    ensures forall s :: s in Others(subs, id) ==> s in subs && s.id != id
  {
    OthersStay(subs, id);
    forall s | s in Others(subs, id) ensures s in subs && s.id != id {
      assert s in multiset(Others(subs, id));
      assert s in multiset(subs);
    }
  }

  lemma Arrivals(was: seq<Subscription>, now: seq<Subscription>, a: Subscription, b: Subscription)
    requires multiset(now) <= multiset(was) + multiset{a, b}
    ensures forall s :: s in now ==> s in was || s == a || s == b
  {
    forall s | s in now ensures s in was || s == a || s == b {
      assert s in multiset(now);
      assert s in multiset(was) + multiset{a, b};
    }
  }

  datatype Delivery = Delivery(to: Id, frame: seq<Byte>)

  function OneEach(subs: seq<Subscription>, frame: seq<Byte>): seq<Delivery> {
    if subs == [] then [] else [Delivery(subs[0].id, frame)] + OneEach(subs[1..], frame)
  }

  lemma {:induction false} OneEachAt(subs: seq<Subscription>, frame: seq<Byte>)
    ensures |OneEach(subs, frame)| == |subs|
    ensures forall i :: 0 <= i < |subs| ==> OneEach(subs, frame)[i] == Delivery(subs[i].id, frame)
  {
    if subs == [] {
    } else {
      OneEachAt(subs[1..], frame);
    }
  }

  lemma {:induction false} OneEachSnoc(subs: seq<Subscription>, i: nat, frame: seq<Byte>)
    requires i < |subs|
    ensures OneEach(subs[..i + 1], frame) == OneEach(subs[..i], frame) + [Delivery(subs[i].id, frame)]
  {
    if i == 0 {
      assert subs[..1][1..] == [] && subs[..0] == [];
      assert OneEach(subs[..1], frame) == [Delivery(subs[0].id, frame)] + OneEach([], frame);
    } else {
      assert subs[..i + 1][1..] == subs[1..][..i];
      assert subs[..i][1..] == subs[1..][..i - 1];
      OneEachSnoc(subs[1..], i - 1, frame);
    }
  }

  lemma MatchingAre(matching: seq<Subscription>, subs: seq<Subscription>, channel: Key)
    requires multiset(matching) == multiset(On(subs, channel))
    ensures forall s :: s in matching <==> s in subs && s.channel == channel
  {
    OnSound(subs, channel);
    forall s ensures s in matching <==> s in On(subs, channel) {
      assert s in matching <==> s in multiset(matching);
      assert s in On(subs, channel) <==> s in multiset(On(subs, channel));
    }
  }

  // The subscriptions of a channel.
  function On(subs: seq<Subscription>, channel: Key): seq<Subscription> {
    if subs == [] then [] else (if subs[0].channel == channel then [subs[0]] else []) + On(subs[1..], channel)
  }

  lemma {:induction false} OnSound(subs: seq<Subscription>, channel: Key)
    ensures forall s :: s in On(subs, channel) <==> s in subs && s.channel == channel
    ensures forall s: Subscription :: s.channel == channel ==> multiset(On(subs, channel))[s] == multiset(subs)[s]
  {
    if subs == [] {
    } else {
      OnSound(subs[1..], channel);
      assert subs == [subs[0]] + subs[1..];
      var head := if subs[0].channel == channel then [subs[0]] else [];
      assert multiset(On(subs, channel)) == multiset(head) + multiset(On(subs[1..], channel));
    }
  }
}
