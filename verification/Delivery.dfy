/** Messages on their way to clients, as values: where each is, what has reached every
    client, and how posting, delivering and completing writes move them along. */
module Delivery {
  import opened Bytes
  import opened Messages
  import opened MessagesPool
  import opened WriteQueue

  // Messages posted for one connection, in order.
  function PostedTo(posted: seq<(Connection, Message)>, c: Connection): seq<Message> {
    if posted == [] then []
    else (if posted[0].0 == c then [posted[0].1] else []) + PostedTo(posted[1..], c)
  }

  lemma {:induction false} PostedToSnoc(posted: seq<(Connection, Message)>, p: (Connection, Message), c: Connection)
    ensures PostedTo(posted + [p], c) == PostedTo(posted, c) + if p.0 == c then [p.1] else []
  {
    if posted == [] {
      assert [] + [p] == [p];
      assert PostedTo([p], c) == (if p.0 == c then [p.1] else []) + PostedTo([], c);
    } else {
      assert (posted + [p])[0] == posted[0] && (posted + [p])[1..] == posted[1..] + [p];
      PostedToSnoc(posted[1..], p, c);
      Assoc(if posted[0].0 == c then [posted[0].1] else [], PostedTo(posted[1..], c), if p.0 == c then [p.1] else []);
    }
  }

  // The queues of the connections, as values.
  type Queues = map<Connection, seq<Message>>

  // A message in flight is in one place only: pending on its connection, or posted to it.
  ghost predicate Placed(pending: Queues, posted: seq<(Connection, Message)>, destination: map<Message, Connection>) {
    && (forall c :: c in pending ==> NoDup(pending[c]))
    && (forall c, m :: c in pending && m in pending[c] ==> m in destination && destination[m] == c)
    && (forall i :: 0 <= i < |posted| ==>
          && posted[i].0 in pending
          && posted[i].1 in destination && destination[posted[i].1] == posted[i].0
          && posted[i].1 !in pending[posted[i].0])
    && (forall i, j :: 0 <= i < j < |posted| ==> posted[i].1 != posted[j].1)
  }

  // Each connection has been sent what was asked for it, except what is still posted.
  ghost predicate InOrder(sent: Queues, posted: seq<(Connection, Message)>, requested: Queues) {
    && sent.Keys == requested.Keys
    && (forall c :: c in requested ==> requested[c] == sent[c] + PostedTo(posted, c))
  }

  lemma PostPlaced(pending: Queues, posted: seq<(Connection, Message)>, destination: map<Message, Connection>,
                   c: Connection, m: Message)
    requires Placed(pending, posted, destination) && c in pending && m !in destination
    ensures Placed(pending, posted + [(c, m)], destination[m := c])
  {
  }

  lemma PostInOrder(sent: Queues, posted: seq<(Connection, Message)>, requested: Queues, c: Connection, m: Message)
    requires InOrder(sent, posted, requested) && c in requested
    ensures InOrder(sent, posted + [(c, m)], requested[c := requested[c] + [m]])
  {
    forall d | d in requested
      ensures requested[c := requested[c] + [m]][d] == sent[d] + PostedTo(posted + [(c, m)], d)
    {
      PostedToSnoc(posted, (c, m), d);
      Assoc(sent[d], PostedTo(posted, d), [m]);
      assert PostedTo(posted, d) + [] == PostedTo(posted, d);
    }
  }

  lemma DeliverPlaced(pending: Queues, posted: seq<(Connection, Message)>, destination: map<Message, Connection>)
    requires Placed(pending, posted, destination) && posted != []
    ensures posted[0].0 in pending
    ensures Placed(pending[posted[0].0 := pending[posted[0].0] + [posted[0].1]], posted[1..], destination)
  {
  }

  lemma DeliverInOrder(sent: Queues, posted: seq<(Connection, Message)>, requested: Queues)
    requires InOrder(sent, posted, requested) && posted != [] && posted[0].0 in sent
    ensures InOrder(sent[posted[0].0 := sent[posted[0].0] + [posted[0].1]], posted[1..], requested)
  {
    var c, m, rest := posted[0].0, posted[0].1, posted[1..];
    forall d | d in requested
      ensures requested[d] == sent[c := sent[c] + [m]][d] + PostedTo(rest, d)
    {
      Assoc(sent[c], [m], PostedTo(rest, c));
      assert [] + PostedTo(rest, d) == PostedTo(rest, d);
    }
  }

  lemma CompletePlaced(pending: Queues, posted: seq<(Connection, Message)>, destination: map<Message, Connection>,
                       c: Connection, m: Message, rest: seq<Message>)
    requires Placed(pending, posted, destination)
    requires c in pending && pending[c] == [m] + rest
    ensures m in destination && Placed(pending[c := rest], posted, destination - {m})
  {
    assert pending[c][0] == m && m in pending[c];
    assert forall i :: 0 <= i < |rest| ==> rest[i] == pending[c][i + 1];
    forall d, x | d in pending && x in pending[c := rest][d]
      ensures x in destination - {m} && (destination - {m})[x] == d
    {
      if d == c {
        var i :| 0 <= i < |rest| && rest[i] == x;
        assert pending[c][i + 1] == x;
        assert x != m;
      }
      assert x in pending[d];
    }
    forall i | 0 <= i < |posted|
      ensures posted[i].1 != m
    {
      assert posted[i].1 !in pending[posted[i].0];
    }
  }

  lemma ConnectKeeps(pending: Queues, sent: Queues, posted: seq<(Connection, Message)>,
                     destination: map<Message, Connection>, requested: Queues, c: Connection)
    requires Placed(pending, posted, destination) && InOrder(sent, posted, requested)
    requires c !in pending
    ensures Placed(pending[c := []], posted, destination)
    ensures InOrder(sent[c := []], posted, requested[c := []])
  {
    NothingPosted(posted, pending.Keys, c);
  }

  lemma {:induction false} NothingPosted(posted: seq<(Connection, Message)>, known: set<Connection>, c: Connection)
    requires forall i :: 0 <= i < |posted| ==> posted[i].0 in known
    requires c !in known
    ensures PostedTo(posted, c) == []
  {
    if posted == [] {
    } else {
      assert posted[0].0 in known;
      NothingPosted(posted[1..], known, c);
    }
  }

  type Texts = map<Connection, seq<seq<Byte>>>

  // A client has received the responses of the messages written, and the messages still to
  // be written hold the responses that are to come.
  ghost predicate Telling(written: Queues, received: Texts, requested: Queues, responses: Texts,
                          held: map<Message, seq<Byte>>)
  {
    && written.Keys == received.Keys == requested.Keys == responses.Keys
    && forall c :: c in requested ==>
         && |written[c]| <= |requested[c]| == |responses[c]|
         && received[c] == responses[c][..|written[c]|]
         && forall i :: |written[c]| <= i < |requested[c]| ==>
              requested[c][i] in held && held[requested[c][i]] == responses[c][i]
  }

  lemma ConnectTelling(written: Queues, received: Texts, requested: Queues, responses: Texts,
                       held: map<Message, seq<Byte>>, c: Connection)
    requires Telling(written, received, requested, responses, held) && c !in requested
    ensures Telling(written[c := []], received[c := []], requested[c := []], responses[c := []], held)
  {
  }

  lemma PostTelling(written: Queues, received: Texts, requested: Queues, responses: Texts,
                    held: map<Message, seq<Byte>>, c: Connection, m: Message, text: seq<Byte>)
    requires Telling(written, received, requested, responses, held) && c in requested && m !in held
    ensures Telling(written, received, requested[c := requested[c] + [m]], responses[c := responses[c] + [text]],
                    held[m := text])
  {
  }

  lemma CompleteTelling(written: Queues, received: Texts, requested: Queues, responses: Texts,
                        held: map<Message, seq<Byte>>, c: Connection, m: Message)
    requires Telling(written, received, requested, responses, held)
    requires c in requested && |written[c]| < |requested[c]| && requested[c][|written[c]|] == m
    requires forall d, i :: d in requested && |written[d]| <= i < |requested[d]| ==>
               requested[d][i] != m || (d == c && i == |written[c]|)
    ensures m in held
    ensures Telling(written[c := written[c] + [m]], received[c := received[c] + [held[m]]], requested, responses,
                    held - {m})
  {
    var n := |written[c]|;
    assert responses[c][..n + 1] == responses[c][..n] + [responses[c][n]];
    var written', held' := written[c := written[c] + [m]], held - {m};
    forall d, i | d in requested && |written'[d]| <= i < |requested[d]|
      ensures requested[d][i] in held' && held'[requested[d][i]] == responses[d][i]
    {
      assert requested[d][i] in held;
    }
  }

  lemma {:induction false} PostedFly(posted: seq<(Connection, Message)>, c: Connection, flying: set<Message>)
    requires forall i :: 0 <= i < |posted| ==> posted[i].1 in flying
    ensures forall m :: m in PostedTo(posted, c) ==> m in flying
  {
    if posted == [] {
    } else {
      assert posted[0].1 in flying;
      PostedFly(posted[1..], c, flying);
    }
  }

  // What is asked for and not yet written is in flight.
  lemma TailFlies(pending: Queues, posted: seq<(Connection, Message)>, destination: map<Message, Connection>,
                  c: Connection, written: seq<Message>, asked: seq<Message>)
    requires Placed(pending, posted, destination) && c in pending
    requires asked == written + pending[c] + PostedTo(posted, c)
    ensures forall i :: |written| <= i < |asked| ==> asked[i] in destination
  {
    PostedFly(posted, c, destination.Keys);
    forall i | |written| <= i < |asked| ensures asked[i] in destination {
      if i < |written| + |pending[c]| {
        assert asked[i] == pending[c][i - |written|];
      } else {
        assert asked[i] == PostedTo(posted, c)[i - |written| - |pending[c]|];
      }
    }
  }

  // Once m has been written, it is not among what is still to come on any connection.
  lemma CompleteTails(pending: Queues, sent: Queues, written: Queues, posted: seq<(Connection, Message)>,
                      destination: map<Message, Connection>, requested: Queues,
                      c: Connection, m: Message, rest: seq<Message>)
    requires pending.Keys == sent.Keys == written.Keys && c in pending && pending[c] == [m] + rest
    requires Placed(pending[c := rest], posted, destination - {m})
    requires InOrder(sent, posted, requested)
    requires forall d :: d in pending ==> sent[d] == written[d] + pending[d]
    ensures |written[c]| < |requested[c]| && requested[c][|written[c]|] == m
    ensures forall d, i :: d in requested && |written[d]| <= i < |requested[d]| ==>
              requested[d][i] != m || (d == c && i == |written[c]|)
  {
    hide Placed;
    assert sent[c] == written[c] + ([m] + rest);
    forall d, i | d in requested && |written[d]| <= i < |requested[d]|
      ensures requested[d][i] != m || (d == c && i == |written[c]|)
    {
      var done := if d == c then written[c] + [m] else written[d];
      assert sent[d] == done + pending[c := rest][d];
      TailFlies(pending[c := rest], posted, destination - {m}, d, done, requested[d]);
    }
  }

  // ----- The state of all connections at once

  datatype Line = Line(
    pending: seq<Message>, sent: seq<Message>, written: seq<Message>, received: seq<seq<Byte>>)

  type Lines = map<Connection, Line>

  datatype State = State(
    lines: Lines,
    posted: seq<(Connection, Message)>,
    destination: map<Message, Connection>,
    requested: Queues, responses: Texts,
    held: map<Message, seq<Byte>>)

  function Pending(ls: Lines): Queues {
    map c | c in ls :: ls[c].pending
  }

  function Sent(ls: Lines): Queues {
    map c | c in ls :: ls[c].sent
  }

  function Written(ls: Lines): Queues {
    map c | c in ls :: ls[c].written
  }

  function Received(ls: Lines): Texts {
    map c | c in ls :: ls[c].received
  }

  lemma LineSet(ls: Lines, c: Connection, l: Line)
    ensures Pending(ls[c := l]) == Pending(ls)[c := l.pending]
    ensures Sent(ls[c := l]) == Sent(ls)[c := l.sent]
    ensures Written(ls[c := l]) == Written(ls)[c := l.written]
    ensures Received(ls[c := l]) == Received(ls)[c := l.received]
  {
    PendingSet(ls, c, l);
    SentSet(ls, c, l);
    WrittenSet(ls, c, l);
    hide Pending, Sent, Written;
  }

  lemma PendingSet(ls: Lines, c: Connection, l: Line)
    ensures Pending(ls[c := l]) == Pending(ls)[c := l.pending]
  {
  }

  lemma SentSet(ls: Lines, c: Connection, l: Line)
    ensures Sent(ls[c := l]) == Sent(ls)[c := l.sent]
  {
  }

  lemma WrittenSet(ls: Lines, c: Connection, l: Line)
    ensures Written(ls[c := l]) == Written(ls)[c := l.written]
  {
  }

  ghost predicate Sound(w: State) {
    && w.held.Keys == w.destination.Keys
    && (forall c :: c in w.lines ==> w.lines[c].sent == w.lines[c].written + w.lines[c].pending)
    && Placed(Pending(w.lines), w.posted, w.destination)
    && InOrder(Sent(w.lines), w.posted, w.requested)
    && Telling(Written(w.lines), Received(w.lines), w.requested, w.responses, w.held)
  }

  ghost function Connected(w: State, c: Connection): State {
    w.(lines := w.lines[c := Line([], [], [], [])],
       requested := w.requested[c := []], responses := w.responses[c := []])
  }

  ghost predicate CanPost(w: State, c: Connection) {
    c in w.requested && c in w.responses
  }

  // A message holding `text` is posted to c.
  ghost function Posted(w: State, c: Connection, m: Message, text: seq<Byte>): State
    requires CanPost(w, c)
  {
    w.(posted := w.posted + [(c, m)], destination := w.destination[m := c],
       requested := w.requested[c := w.requested[c] + [m]],
       responses := w.responses[c := w.responses[c] + [text]], held := w.held[m := text])
  }

  ghost predicate CanDeliver(w: State) {
    w.posted != [] && w.posted[0].0 in w.lines
  }

  // The oldest posted message joins its queue.
  ghost function Delivered(w: State): State
    requires CanDeliver(w)
  {
    var (c, m) := w.posted[0];
    var l := w.lines[c];
    w.(posted := w.posted[1..], lines := w.lines[c := l.(pending := l.pending + [m], sent := l.sent + [m])])
  }

  lemma DeliveredParts(w: State)
    requires CanDeliver(w)
    ensures w.posted != [] && Delivered(w).posted == w.posted[1..]
    ensures Delivered(w).destination == w.destination && Delivered(w).held == w.held
    ensures Delivered(w).requested == w.requested && Delivered(w).responses == w.responses
  {
  }

  ghost predicate CanComplete(w: State, c: Connection) {
    c in w.lines && w.lines[c].pending != [] && w.lines[c].pending[0] in w.held
  }

  // The front of a queue has been written.
  ghost function Completed(w: State, c: Connection): State
    requires CanComplete(w, c)
  {
    var l := w.lines[c];
    var m := l.pending[0];
    w.(lines := w.lines[c := Line(l.pending[1..], l.sent, l.written + [m], l.received + [w.held[m]])],
       destination := w.destination - {m}, held := w.held - {m})
  }

  lemma SoundKeys(w: State)
    requires Sound(w)
    ensures w.requested.Keys == w.responses.Keys == w.lines.Keys
    ensures w.posted != [] ==> w.posted[0].0 in w.lines
    ensures forall c :: c in w.lines && w.lines[c].pending != [] ==> w.lines[c].pending[0] in w.held
  {
    forall c | c in w.lines && w.lines[c].pending != [] ensures w.lines[c].pending[0] in w.held {
      assert w.lines[c].pending[0] in Pending(w.lines)[c];
    }
  }

  lemma ConnectedSound(w: State, c: Connection)
    requires Sound(w) && c !in w.lines
    ensures Sound(Connected(w, c))
  {
    hide Placed, InOrder, Telling;
    SoundKeys(w);
    LineSet(w.lines, c, Line([], [], [], []));
    ConnectKeeps(Pending(w.lines), Sent(w.lines), w.posted, w.destination, w.requested, c);
    ConnectTelling(Written(w.lines), Received(w.lines), w.requested, w.responses, w.held, c);
  }

  lemma PostedSound(w: State, c: Connection, m: Message, text: seq<Byte>)
    requires Sound(w) && c in w.lines && m !in w.destination
    ensures CanPost(w, c) && Sound(Posted(w, c, m, text))
  {
    hide Placed, InOrder, Telling;
    SoundKeys(w);
    PostPlaced(Pending(w.lines), w.posted, w.destination, c, m);
    PostInOrder(Sent(w.lines), w.posted, w.requested, c, m);
    PostTelling(Written(w.lines), Received(w.lines), w.requested, w.responses, w.held, c, m, text);
  }

  lemma DeliveredSound(w: State)
    requires Sound(w) && w.posted != []
    ensures CanDeliver(w) && Sound(Delivered(w))
  {
    hide Placed, InOrder, Telling;
    SoundKeys(w);
    var c, m := w.posted[0].0, w.posted[0].1;
    var l := w.lines[c];
    LineSet(w.lines, c, l.(pending := l.pending + [m], sent := l.sent + [m]));
    SameQueue(Written(w.lines), c, l.written);
    SameQueue(Received(w.lines), c, l.received);
    DeliverPlaced(Pending(w.lines), w.posted, w.destination);
    DeliverInOrder(Sent(w.lines), w.posted, w.requested);
    Assoc(l.written, l.pending, [m]);
  }

  lemma SameQueue<T>(qs: map<Connection, T>, c: Connection, q: T)
    requires c in qs && qs[c] == q
    ensures qs[c := q] == qs
  {
  }

  lemma CompletedSound(w: State, c: Connection)
    requires Sound(w) && c in w.lines && w.lines[c].pending != []
    ensures CanComplete(w, c) && Sound(Completed(w, c))
  {
    hide Placed, InOrder, Telling;
    SoundKeys(w);
    var l := w.lines[c];
    var m, rest := l.pending[0], l.pending[1..];
    assert l.pending == [m] + rest;
    LineSet(w.lines, c, Line(rest, l.sent, l.written + [m], l.received + [w.held[m]]));
    SameQueue(Sent(w.lines), c, l.sent);
    CompletePlaced(Pending(w.lines), w.posted, w.destination, c, m, rest);
    CompleteTails(Pending(w.lines), Sent(w.lines), Written(w.lines), w.posted, w.destination, w.requested, c, m, rest);
    CompleteTelling(Written(w.lines), Received(w.lines), w.requested, w.responses, w.held, c, m);
    Assoc(l.written, [m], rest);
  }

  // A client has received the first of the responses made to it, in order and each once;
  // all of them, when nothing is pending or posted.
  lemma SoundDelivery(w: State, c: Connection)
    requires Sound(w) && c in w.lines
    ensures c in w.requested && c in w.responses
    ensures var l := w.lines[c];
            && l.written <= w.requested[c] && l.received <= w.responses[c]
            && (l.pending == [] && PostedTo(w.posted, c) == [] ==>
                  l.written == w.requested[c] && l.received == w.responses[c])
            && NoDup(l.pending)
  {
    hide PostedTo, NoDup;
    SoundKeys(w);
    assert c in Pending(w.lines);
    assert Sent(w.lines)[c] == w.lines[c].written + w.lines[c].pending;
  }

  // A message that is not in flight is in no queue and posted to no connection.
  lemma FreeInSound(w: State, m: Message)
    requires Sound(w) && m !in w.destination
    ensures forall c :: c in w.lines ==> m !in w.lines[c].pending
    ensures forall i :: 0 <= i < |w.posted| ==> w.posted[i].1 != m
  {
    hide InOrder, Telling;
    forall c | c in w.lines ensures m !in w.lines[c].pending {
      assert w.lines[c].pending == Pending(w.lines)[c];
    }
  }
}
