/** The bytes on their way to clients, as one queue of posts and one queue per connection:
    what every event does to them, and which scripts leave nothing on the way. */
module Traffic {
  import opened Bytes
  import opened Messages
  import opened WriteQueue
  import opened Delivery

  // What the environment makes happen next.
  datatype Event =
    // a handler takes a message, fills it and posts it to a connection
    | Reply(to: Connection, response: seq<Byte>)
    // the oldest posted message reaches its connection's queue
    | Deliver
    // a connection's write ends
    | Complete(of: Connection, error: bool)

  datatype Flow = Flow(
    posted: seq<(Connection, seq<Byte>)>, waiting: Texts, received: Texts, failed: set<Connection>)

  ghost predicate Proper(t: Flow) {
    && t.waiting.Keys == t.received.Keys
    && forall i :: 0 <= i < |t.posted| ==> t.posted[i].0 in t.waiting
  }

  // A queue without room, or a write that is not in progress, makes an event wait.
  function Next(t: Flow, e: Event): Flow {
    match e
    case Reply(c, text) => if c in t.waiting then t.(posted := t.posted + [(c, text)]) else t
    case Deliver =>
      if t.posted == [] || t.posted[0].0 !in t.waiting || |t.waiting[t.posted[0].0]| >= CAPACITY then t
      else
        var c := t.posted[0].0;
        t.(posted := t.posted[1..], waiting := t.waiting[c := t.waiting[c] + [t.posted[0].1]])
    case Complete(c, error) =>
      if c !in t.waiting || c !in t.received || t.waiting[c] == [] || c in t.failed then t
      else if error then t.(failed := t.failed + {c})
      else
        t.(waiting := t.waiting[c := t.waiting[c][1..]],
           received := t.received[c := t.received[c] + [t.waiting[c][0]]])
  }

  function Run(t: Flow, script: seq<Event>): Flow
    decreases |script|
  {
    if script == [] then t else Run(Next(t, script[0]), script[1..])
  }

  lemma {:induction false} RunAppend(t: Flow, a: seq<Event>, b: seq<Event>)
    ensures Run(t, a + b) == Run(Run(t, a), b)
    decreases |a|
  {
    hide Next;
    if a == [] {
      assert a + b == b;
    } else {
      assert (a + b)[0] == a[0] && (a + b)[1..] == a[1..] + b;
      RunAppend(Next(t, a[0]), a[1..], b);
    }
  }

  lemma RunOne(t: Flow, e: Event)
    ensures Run(t, [e]) == Next(t, e)
  {
    assert [e][1..] == [];
  }

  // The responses a script asks for on a connection.
  function ResponsesTo(script: seq<Event>, c: Connection): seq<seq<Byte>> {
    if script == [] then []
    else
      (match script[0]
       case Reply(to, response) => if to == c then [response] else []
       case _ => [])
      + ResponsesTo(script[1..], c)
  }

  lemma ResponsesOfOne(e: Event)
    ensures forall c :: ResponsesTo([e], c) == if e.Reply? && e.to == c then [e.response] else []
  {
    assert [e][1..] == [];
  }

  // They are the texts of the replies to the connection, in order.
  lemma {:induction false} ResponsesAre(a: seq<Event>, b: seq<Event>, c: Connection)
    ensures ResponsesTo(a + b, c) == ResponsesTo(a, c) + ResponsesTo(b, c)
    ensures forall text :: ResponsesTo([Reply(c, text)], c) == [text]
    ensures forall e: Event :: (e.Reply? ==> e.to != c) ==> ResponsesTo([e], c) == []
  {
    forall e: Event ensures ResponsesTo([e], c) == if e.Reply? && e.to == c then [e.response] else [] {
      ResponsesOfOne(e);
    }
    if a == [] {
      assert a + b == b;
    } else {
      assert (a + b)[0] == a[0] && (a + b)[1..] == a[1..] + b;
      ResponsesAre(a[1..], b, c);
    }
  }

  function TextsTo(posted: seq<(Connection, seq<Byte>)>, c: Connection): seq<seq<Byte>> {
    if posted == [] then []
    else (if posted[0].0 == c then [posted[0].1] else []) + TextsTo(posted[1..], c)
  }

  lemma {:induction false} TextsToSnoc(posted: seq<(Connection, seq<Byte>)>, p: (Connection, seq<Byte>), c: Connection)
    ensures TextsTo(posted + [p], c) == TextsTo(posted, c) + if p.0 == c then [p.1] else []
  {
    if posted == [] {
      assert [] + [p] == [p] && [p][1..] == [];
    } else {
      assert (posted + [p])[0] == posted[0] && (posted + [p])[1..] == posted[1..] + [p];
      TextsToSnoc(posted[1..], p, c);
    }
  }

  // Everything a connection has been or is still to be told.
  function Told(t: Flow, c: Connection): seq<seq<Byte>>
    requires c in t.waiting && c in t.received
  {
    t.received[c] + t.waiting[c] + TextsTo(t.posted, c)
  }

  lemma NextKeeps(t: Flow, e: Event)
    requires Proper(t)
    ensures Proper(Next(t, e)) && Next(t, e).waiting.Keys == t.waiting.Keys
  {
  }

  lemma NextTells(t: Flow, e: Event, c: Connection)
    requires Proper(t) && c in t.waiting
    ensures Proper(Next(t, e)) && Next(t, e).waiting.Keys == t.waiting.Keys
    ensures Told(Next(t, e), c) == Told(t, c) + ResponsesTo([e], c)
  {
    NextKeeps(t, e);
    ResponsesAre([], [e], c);
    match e
    case Reply(d, text) =>
      TextsToSnoc(t.posted, (d, text), c);
      if d == c {
        assert ResponsesTo([e], c) == [text];
        Assoc(t.received[c] + t.waiting[c], TextsTo(t.posted, c), [text]);
      }
    case Deliver =>
      if Next(t, e) != t && t.posted[0].0 == c {
        var text, rest := t.posted[0].1, TextsTo(t.posted[1..], c);
        Assoc(t.received[c], t.waiting[c], [text]);
        Assoc(t.received[c] + t.waiting[c], [text], rest);
      }
    case Complete(d, error) =>
      if Next(t, e) != t && d == c && !error {
        assert [t.waiting[c][0]] + t.waiting[c][1..] == t.waiting[c];
        Assoc(t.received[c], [t.waiting[c][0]], t.waiting[c][1..]);
      }
  }

  // Nothing is lost, repeated or reordered by any script.
  lemma {:induction false} RunTells(t: Flow, script: seq<Event>, c: Connection)
    requires Proper(t) && c in t.waiting
    ensures Proper(Run(t, script)) && Run(t, script).waiting.Keys == t.waiting.Keys
    ensures Told(Run(t, script), c) == Told(t, c) + ResponsesTo(script, c)
    decreases |script|
  {
    hide Next, Told;
    if script == [] {
    } else {
      var e, rest := script[0], script[1..];
      assert script == [e] + rest;
      NextTells(t, e, c);
      RunTells(Next(t, e), rest, c);
      ResponsesAre([e], rest, c);
      Assoc(Told(t, c), ResponsesTo([e], c), ResponsesTo(rest, c));
    }
  }

  // ----- Scripts that leave nothing on the way

  ghost predicate AllDeliver(script: seq<Event>) {
    forall e :: e in script ==> e.Deliver?
  }

  ghost predicate AllComplete(script: seq<Event>) {
    forall e :: e in script ==> e.Complete? && !e.error
  }

  function Completions(script: seq<Event>, c: Connection): nat {
    if script == [] then 0
    else (if script[0] == Complete(c, false) then 1 else 0) + Completions(script[1..], c)
  }

  // Every queue has room for what is posted to it.
  ghost predicate Roomy(t: Flow) {
    forall c :: c in t.waiting ==> |t.waiting[c]| + |TextsTo(t.posted, c)| <= CAPACITY
  }

  lemma DeliverMoves(t: Flow)
    requires Proper(t) && Roomy(t)
    ensures var t' := Next(t, Deliver);
            && Proper(t') && Roomy(t') && t'.waiting.Keys == t.waiting.Keys && t'.failed == t.failed
            && t'.received == t.received
            && (t.posted != [] ==> |t'.posted| == |t.posted| - 1)
            && (t.posted == [] ==> t'.posted == [])
  {
    if t.posted != [] {
      var c := t.posted[0].0;
      assert |TextsTo(t.posted, c)| == 1 + |TextsTo(t.posted[1..], c)|;
    }
  }

  // As many deliveries as messages posted leave none posted.
  lemma {:induction false} DeliversAll(t: Flow, script: seq<Event>)
    requires Proper(t) && Roomy(t) && AllDeliver(script) && |script| >= |t.posted|
    ensures var t' := Run(t, script);
            Proper(t') && t'.posted == [] && t'.failed == t.failed && t'.waiting.Keys == t.waiting.Keys
    decreases |script|
  {
    if script == [] {
    } else {
      assert script[0] in script;
      DeliverMoves(t);
      hide Next, Proper, Roomy;
      DeliversAll(Next(t, Deliver), script[1..]);
    }
  }

  lemma CompleteMoves(t: Flow, e: Event)
    requires Proper(t) && t.posted == [] && t.failed == {} && e.Complete? && !e.error
    ensures var t' := Next(t, e);
            && Proper(t') && t'.posted == [] && t'.failed == {} && t'.waiting.Keys == t.waiting.Keys
            && forall c :: c in t.waiting ==>
                 |t'.waiting[c]| == if c == e.of && t.waiting[c] != [] then |t.waiting[c]| - 1 else |t.waiting[c]|
  {
  }

  // As many completed writes as messages waiting leave none waiting.
  lemma {:induction false} CompletesAll(t: Flow, script: seq<Event>)
    requires Proper(t) && t.posted == [] && t.failed == {} && AllComplete(script)
    requires forall c :: c in t.waiting ==> |t.waiting[c]| <= Completions(script, c)
    ensures var t' := Run(t, script);
            && Proper(t') && t'.posted == [] && t'.waiting.Keys == t.waiting.Keys
            && forall c :: c in t.waiting ==> t'.waiting[c] == []
    decreases |script|
  {
    if script == [] {
    } else {
      var e := script[0];
      assert e in script;
      CompleteMoves(t, e);
      hide Next, Proper;
      CompletesAll(Next(t, e), script[1..]);
    }
  }

  // A script that ends, from its i-th event on, with as many deliveries as messages are
  // then posted, and, from its j-th on, with as many completed writes on each connection
  // as it is then to be sent; before them no write has failed and no queue is too full.
  ghost predicate EndsFlushing(t: Flow, script: seq<Event>, i: nat, j: nat) {
    && i <= j <= |script|
    && AllDeliver(script[i..j]) && AllComplete(script[j..])
    && var at := Run(t, script[..i]);
       && at.failed == {} && Roomy(at) && |at.posted| <= j - i
       && forall c :: c in at.waiting ==> |at.waiting[c]| + |TextsTo(at.posted, c)| <= Completions(script[j..], c)
  }

  lemma {:induction false} DeliverCounts(t: Flow, script: seq<Event>, c: Connection)
    requires Proper(t) && AllDeliver(script) && c in t.waiting
    ensures var t' := Run(t, script);
            && c in t'.waiting
            && |t'.waiting[c]| + |TextsTo(t'.posted, c)| == |t.waiting[c]| + |TextsTo(t.posted, c)|
    decreases |script|
  {
    if script == [] {
    } else {
      assert script[0] in script;
      NextKeeps(t, Deliver);
      DeliverCounts(Next(t, Deliver), script[1..], c);
    }
  }

  // Then every client has received all there was for it, and all the script asked for.
  lemma FlushedIsAll(t: Flow, script: seq<Event>, i: nat, j: nat)
    requires Proper(t) && EndsFlushing(t, script, i, j)
    ensures var t' := Run(t, script);
            && Proper(t') && t'.posted == [] && t'.waiting.Keys == t.waiting.Keys
            && forall c :: c in t.waiting ==>
                 t'.waiting[c] == [] && t'.received[c] == Told(t, c) + ResponsesTo(script, c)
  {
    var a, b, d := script[..i], script[i..j], script[j..];
    assert script == a + b + d;
    RunAppend(t, a + b, d);
    RunAppend(t, a, b);
    var at := Run(t, a);
    RunKeeps(t, a);
    DeliversAll(at, b);
    forall c | c in at.waiting ensures |Run(at, b).waiting[c]| <= Completions(d, c) {
      DeliverCounts(at, b, c);
    }
    CompletesAll(Run(at, b), d);
    var t' := Run(t, script);
    forall c | c in t.waiting ensures t'.received[c] == Told(t, c) + ResponsesTo(script, c) {
      RunTells(t, script, c);
      assert t'.received[c] + [] + [] == t'.received[c];
    }
  }

  lemma {:induction false} RunKeeps(t: Flow, script: seq<Event>)
    requires Proper(t)
    ensures Proper(Run(t, script)) && Run(t, script).waiting.Keys == t.waiting.Keys
    decreases |script|
  {
    if script == [] {
    } else {
      NextKeeps(t, script[0]);
      hide Next, Proper;
      RunKeeps(Next(t, script[0]), script[1..]);
    }
  }

  // What a connection is still to be sent.
  function Load(t: Flow, c: Connection): nat
    requires c in t.waiting
  {
    |t.waiting[c]| + |TextsTo(t.posted, c)|
  }

  ghost predicate NoErrors(script: seq<Event>) {
    forall e :: e in script ==> !(e.Complete? && e.error)
  }

  lemma NextLoads(t: Flow, e: Event, c: Connection)
    requires Proper(t) && c in t.waiting && t.failed == {} && !(e.Complete? && e.error)
    ensures Proper(Next(t, e)) && c in Next(t, e).waiting && Next(t, e).failed == {}
    ensures Load(Next(t, e), c) <= Load(t, c) + |ResponsesTo([e], c)|
    ensures |Next(t, e).posted| <= |t.posted| + 1
  {
    NextKeeps(t, e);
    ResponsesOfOne(e);
    match e
    case Reply(d, text) => TextsToSnoc(t.posted, (d, text), c);
    case _ =>
  }

  lemma {:induction false} RunLoads(t: Flow, script: seq<Event>, c: Connection)
    requires Proper(t) && c in t.waiting && t.failed == {} && NoErrors(script)
    ensures c in Run(t, script).waiting && Run(t, script).failed == {}
    ensures Load(Run(t, script), c) <= Load(t, c) + |ResponsesTo(script, c)|
    ensures |Run(t, script).posted| <= |t.posted| + |script|
    decreases |script|
  {
    hide Next, Load;
    if script == [] {
    } else {
      var e, rest := script[0], script[1..];
      assert e in script && script == [e] + rest;
      NextLoads(t, e, c);
      RunLoads(Next(t, e), rest, c);
      ResponsesAre([e], rest, c);
    }
  }

  // It is enough to count: no connection and no write fails, each connection has room and
  // completed writes for everything it is ever to be sent, and the deliveries are as many
  // as all messages that may have been posted.
  lemma FlushesByCount(t: Flow, script: seq<Event>, i: nat, j: nat)
    requires Proper(t) && t.failed == {} && t.waiting != map[]
    requires i <= j <= |script| && NoErrors(script[..i]) && AllDeliver(script[i..j]) && AllComplete(script[j..])
    requires |t.posted| + i <= j - i
    requires forall c :: c in t.waiting ==>
               && Load(t, c) + |ResponsesTo(script[..i], c)| <= CAPACITY
               && Load(t, c) + |ResponsesTo(script[..i], c)| <= Completions(script[j..], c)
    ensures EndsFlushing(t, script, i, j)
  {
    RunKeeps(t, script[..i]);
    var some :| some in t.waiting;
    RunLoads(t, script[..i], some);
    forall c | c in t.waiting ensures Load(Run(t, script[..i]), c) <= Load(t, c) + |ResponsesTo(script[..i], c)| {
      RunLoads(t, script[..i], c);
    }
    hide Run;
  }

  // ----- The flow of a state of deliveries

  function TextOf(held: map<Message, seq<Byte>>, m: Message): seq<Byte> {
    if m in held then held[m] else []
  }

  function TextsOf(held: map<Message, seq<Byte>>, ms: seq<Message>): seq<seq<Byte>> {
    seq(|ms|, i requires 0 <= i < |ms| => TextOf(held, ms[i]))
  }

  function PostedTexts(held: map<Message, seq<Byte>>, posted: seq<(Connection, Message)>)
    : seq<(Connection, seq<Byte>)>
  {
    seq(|posted|, i requires 0 <= i < |posted| => (posted[i].0, TextOf(held, posted[i].1)))
  }

  function WaitingTexts(held: map<Message, seq<Byte>>, ls: Lines): Texts {
    map c | c in ls :: TextsOf(held, ls[c].pending)
  }

  function FlowOf(w: State, failed: set<Connection>): Flow {
    Flow(PostedTexts(w.held, w.posted), WaitingTexts(w.held, w.lines), Received(w.lines), failed)
  }

  lemma SameTexts(held: map<Message, seq<Byte>>, held': map<Message, seq<Byte>>, ms: seq<Message>)
    requires forall m :: m in ms ==> TextOf(held', m) == TextOf(held, m)
    ensures TextsOf(held', ms) == TextsOf(held, ms)
  {
    forall i | 0 <= i < |ms| ensures TextsOf(held', ms)[i] == TextsOf(held, ms)[i] {
      assert ms[i] in ms;
    }
  }

  lemma FlowIsProper(w: State, failed: set<Connection>)
    requires Sound(w)
    ensures Proper(FlowOf(w, failed)) && FlowOf(w, failed).waiting.Keys == w.lines.Keys
  {
    hide InOrder, Telling;
    assert Pending(w.lines).Keys == w.lines.Keys;
  }

  // Every message of a sound state is in flight.
  lemma AllFly(w: State)
    requires Sound(w)
    ensures forall c, m :: c in w.lines && m in w.lines[c].pending ==> m in w.destination
    ensures forall i :: 0 <= i < |w.posted| ==> w.posted[i].1 in w.destination
  {
    hide InOrder, Telling;
    forall c, m | c in w.lines && m in w.lines[c].pending ensures m in w.destination {
      assert c in Pending(w.lines) && m in Pending(w.lines)[c];
    }
  }

  // Texts of messages in flight do not change with what is held for others.
  lemma SameFlow(w: State, held: map<Message, seq<Byte>>)
    requires Sound(w) && forall m :: m in w.destination ==> TextOf(held, m) == TextOf(w.held, m)
    ensures PostedTexts(held, w.posted) == PostedTexts(w.held, w.posted)
    ensures WaitingTexts(held, w.lines) == WaitingTexts(w.held, w.lines)
  {
    AllFly(w);
    hide Sound, TextOf, TextsOf;
    SamePosted(w.held, held, w.posted);
    forall c | c in w.lines ensures TextsOf(held, w.lines[c].pending) == TextsOf(w.held, w.lines[c].pending) {
      SameTexts(w.held, held, w.lines[c].pending);
    }
  }

  lemma SamePosted(held: map<Message, seq<Byte>>, held': map<Message, seq<Byte>>, posted: seq<(Connection, Message)>)
    requires forall i :: 0 <= i < |posted| ==> TextOf(held', posted[i].1) == TextOf(held, posted[i].1)
    ensures PostedTexts(held', posted) == PostedTexts(held, posted)
  {
  }

  lemma PostedSnoc(held: map<Message, seq<Byte>>, posted: seq<(Connection, Message)>, c: Connection, m: Message)
    ensures PostedTexts(held, posted + [(c, m)]) == PostedTexts(held, posted) + [(c, TextOf(held, m))]
  {
  }

  lemma PostedFlow(w: State, c: Connection, m: Message, text: seq<Byte>, failed: set<Connection>)
    requires Sound(w) && c in w.lines && m !in w.destination && CanPost(w, c)
    ensures FlowOf(Posted(w, c, m, text), failed) == Next(FlowOf(w, failed), Reply(c, text))
  {
    hide Sound;
    var held := w.held[m := text];
    SameFlow(w, held);
    PostedSnoc(held, w.posted, c, m);
    LinesWait(w.held, w.lines);
    hide PostedTexts, WaitingTexts, TextsOf;
  }

  lemma LinesWait(held: map<Message, seq<Byte>>, ls: Lines)
    ensures WaitingTexts(held, ls).Keys == Received(ls).Keys == ls.Keys
    ensures forall c :: c in ls ==> |WaitingTexts(held, ls)[c]| == |ls[c].pending|
    ensures forall c :: c in ls ==> WaitingTexts(held, ls)[c] == TextsOf(held, ls[c].pending)
    ensures forall c :: c in ls ==> Received(ls)[c] == ls[c].received
  {
  }

  lemma WaitingSet(held: map<Message, seq<Byte>>, ls: Lines, c: Connection, l: Line)
    ensures WaitingTexts(held, ls[c := l]) == WaitingTexts(held, ls)[c := TextsOf(held, l.pending)]
  {
  }

  lemma DeliveredFlow(w: State, failed: set<Connection>)
    requires Sound(w) && CanDeliver(w) && |w.lines[w.posted[0].0].pending| < CAPACITY
    ensures FlowOf(Delivered(w), failed) == Next(FlowOf(w, failed), Deliver)
  {
    hide Sound;
    var c, m := w.posted[0].0, w.posted[0].1;
    var l := w.lines[c];
    var l' := l.(pending := l.pending + [m], sent := l.sent + [m]);
    PostedFront(w.held, w.posted);
    TextsSnoc(w.held, l.pending, m);
    hide WaitingTexts, TextsOf, PostedTexts, Received, TextOf;
    LinesWait(w.held, w.lines);
    WaitingSet(w.held, w.lines, c, l');
    LineSet(w.lines, c, l');
    SameQueue(Received(w.lines), c, l.received);
  }

  lemma PostedFront(held: map<Message, seq<Byte>>, posted: seq<(Connection, Message)>)
    requires posted != []
    ensures PostedTexts(held, posted) != []
    ensures PostedTexts(held, posted)[0] == (posted[0].0, TextOf(held, posted[0].1))
    ensures PostedTexts(held, posted[1..]) == PostedTexts(held, posted)[1..]
  {
  }

  lemma TextsSnoc(held: map<Message, seq<Byte>>, ms: seq<Message>, m: Message)
    ensures TextsOf(held, ms + [m]) == TextsOf(held, ms) + [TextOf(held, m)]
  {
  }

  lemma CompletedFlow(w: State, c: Connection, failed: set<Connection>)
    requires Sound(w) && CanComplete(w, c) && c !in failed
    ensures FlowOf(Completed(w, c), failed) == Next(FlowOf(w, failed), Complete(c, false))
  {
    hide Sound;
    var w', l := Completed(w, c), w.lines[c];
    var m := l.pending[0];
    var l' := Line(l.pending[1..], l.sent, l.written + [m], l.received + [w.held[m]]);
    CompletedSound(w, c);
    StillHeld(w, c);
    SameFlow(w', w.held);
    LinesWait(w.held, w.lines);
    WaitingSet(w.held, w.lines, c, l');
    LineSet(w.lines, c, l');
    assert TextsOf(w.held, l.pending[1..]) == TextsOf(w.held, l.pending)[1..];
    assert TextsOf(w.held, l.pending)[0] == w.held[m];
    hide WaitingTexts, TextsOf, PostedTexts, Received;
  }

  lemma StillHeld(w: State, c: Connection)
    requires CanComplete(w, c)
    ensures forall m :: m in Completed(w, c).destination ==> TextOf(Completed(w, c).held, m) == TextOf(w.held, m)
  {
  }

  lemma FailedFlow(w: State, c: Connection, failed: set<Connection>)
    requires Sound(w) && CanComplete(w, c) && c !in failed
    ensures FlowOf(w, failed + {c}) == Next(FlowOf(w, failed), Complete(c, true))
  {
    LinesWait(w.held, w.lines);
    hide Sound, WaitingTexts, PostedTexts, Received;
  }
}
