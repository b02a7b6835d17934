/** The subscription index: looking up, subscribing and unsubscribing. */
module Subscriptions {
  import opened Bytes
  import opened Entries

  // A connection's identifier, ordered as its bytes are.
  type Id = nat

  datatype Subscription = Subscription(id: Id, channel: Key)

  // ----- The index by connection

  ghost predicate Sorted(subs: seq<Subscription>) {
    forall i, j :: 0 <= i < j < |subs| ==> subs[i].id <= subs[j].id
  }

  // How many subscriptions, from the front, belong to smaller connections ...
  function LowerBound(subs: seq<Subscription>, id: Id): (n: nat)
    ensures n <= |subs|
  {
    if subs == [] || subs[0].id >= id then 0 else 1 + LowerBound(subs[1..], id)
  }

  // ... and to connections no greater.
  function UpperBound(subs: seq<Subscription>, id: Id): (n: nat)
    ensures n <= |subs|
  {
    if subs == [] || subs[0].id > id then 0 else 1 + UpperBound(subs[1..], id)
  }

  lemma SortedTail(subs: seq<Subscription>)
    requires Sorted(subs) && subs != []
    ensures Sorted(subs[1..])
  {
  }

  lemma {:induction false} BoundsSplit(subs: seq<Subscription>, id: Id)
    requires Sorted(subs)
    ensures LowerBound(subs, id) <= UpperBound(subs, id)
    ensures forall i :: 0 <= i < |subs| ==> (subs[i].id < id <==> i < LowerBound(subs, id))
    ensures forall i :: 0 <= i < |subs| ==> (subs[i].id <= id <==> i < UpperBound(subs, id))
  {
    if subs == [] {
    } else {
      SortedTail(subs);
      BoundsSplit(subs[1..], id);
      forall i | 0 <= i < |subs|
        ensures subs[i].id < id <==> i < LowerBound(subs, id)
        ensures subs[i].id <= id <==> i < UpperBound(subs, id)
      {
        assert subs[0].id <= subs[i].id;
        if i > 0 {
          assert subs[i] == subs[1..][i - 1];
        }
      }
    }
  }

  lemma RangeIs(subs: seq<Subscription>, id: Id)
    requires Sorted(subs)
    ensures LowerBound(subs, id) <= UpperBound(subs, id) <= |subs|
    ensures forall i :: 0 <= i < |subs| ==> (subs[i].id == id <==> LowerBound(subs, id) <= i < UpperBound(subs, id))
  {
    BoundsSplit(subs, id);
    hide LowerBound, UpperBound, Sorted;
  }

  // What is left when every copy of one subscription is taken out.
  function Without(subs: seq<Subscription>, s: Subscription): seq<Subscription> {
    if subs == [] then [] else (if subs[0] == s then [] else [subs[0]]) + Without(subs[1..], s)
  }

  // Unsubscribing removes every copy of the subscription and nothing else.
  lemma {:induction false} WithoutRemovesAllCopies(subs: seq<Subscription>, s: Subscription)
    ensures multiset(Without(subs, s)) == multiset(subs)[s := 0]
  {
    if subs == [] {
    } else {
      WithoutRemovesAllCopies(subs[1..], s);
      assert subs == [subs[0]] + subs[1..];
    }
  }

  lemma {:induction false} WithoutMembers(subs: seq<Subscription>, s: Subscription)
    ensures forall x :: x in Without(subs, s) <==> x in subs && x != s
    ensures s !in subs ==> Without(subs, s) == subs
  {
    if subs == [] {
    } else {
      WithoutMembers(subs[1..], s);
      assert subs == [subs[0]] + subs[1..];
    }
  }

  lemma {:induction false} WithoutSorted(subs: seq<Subscription>, s: Subscription)
    requires Sorted(subs)
    ensures Sorted(Without(subs, s))
  {
    if subs == [] {
    } else {
      SortedTail(subs);
      WithoutSorted(subs[1..], s);
      WithoutMembers(subs[1..], s);
      var rest := Without(subs[1..], s);
      forall i | 0 <= i < |rest| ensures subs[0].id <= rest[i].id {
        assert rest[i] in rest && rest[i] in subs[1..];
      }
    }
  }

  lemma {:induction false} WithoutAppend(a: seq<Subscription>, b: seq<Subscription>, s: Subscription)
    ensures Without(a + b, s) == Without(a, s) + Without(b, s)
  {
    if a == [] {
      assert a + b == b;
    } else {
      assert (a + b)[0] == a[0] && (a + b)[1..] == a[1..] + b;
      WithoutAppend(a[1..], b, s);
    }
  }

  // The scan starts at the connection's own range but does not stop at its end.
  ghost predicate ScanFinds(subs: seq<Subscription>, id: Id, channel: Key) {
    && (exists s :: s in subs && s.id == id)
    && (exists s :: s in subs && s.id >= id && s.channel == channel)
  }

  // It never misses a subscription; it reports one that is not there exactly when the
  // connection has some other subscription and a greater connection has this channel.
  lemma ScanIsComplete(subs: seq<Subscription>, id: Id, channel: Key)
    ensures Subscription(id, channel) in subs ==> ScanFinds(subs, id, channel)
    ensures ScanFinds(subs, id, channel) && Subscription(id, channel) !in subs <==>
              && Subscription(id, channel) !in subs
              && (exists s :: s in subs && s.id == id)
              && (exists s :: s in subs && s.id > id && s.channel == channel)
  {
  }

  // Two connections, the greater one alone subscribed to a channel.
  lemma ScanIsUnsound(a: Id, b: Id, own: Key, channel: Key)
    requires a < b && own != channel
    ensures var subs := [Subscription(a, own), Subscription(b, channel)];
            Sorted(subs) && ScanFinds(subs, a, channel) && Subscription(a, channel) !in subs
  {
  }

  lemma InsertedSorted(subs: seq<Subscription>, s: Subscription)
    requires Sorted(subs)
    ensures var at := UpperBound(subs, s.id);
            Sorted(subs[..at] + [s] + subs[at..])
  {
    BoundsSplit(subs, s.id);
    hide UpperBound, LowerBound;
    var at := UpperBound(subs, s.id);
    SplitAt(subs, at, s.id);
    hide Sorted;
    SortedJoin(subs[..at], s, subs[at..]);
  }

  lemma SplitAt(subs: seq<Subscription>, at: nat, id: Id)
    requires Sorted(subs) && at <= |subs|
    requires forall i :: 0 <= i < |subs| ==> (subs[i].id <= id <==> i < at)
    ensures Sorted(subs[..at]) && Sorted(subs[at..])
    ensures forall i :: 0 <= i < |subs[..at]| ==> subs[..at][i].id <= id
    ensures forall i :: 0 <= i < |subs[at..]| ==> subs[at..][i].id >= id
  {
  }

  lemma SortedJoin(a: seq<Subscription>, s: Subscription, b: seq<Subscription>)
    requires Sorted(a) && Sorted(b)
    requires forall i :: 0 <= i < |a| ==> a[i].id <= s.id
    requires forall i :: 0 <= i < |b| ==> b[i].id >= s.id
    ensures Sorted(a + [s] + b)
  {
  }

  lemma RangeErasedSorted(subs: seq<Subscription>, begin: nat, end: nat)
    requires Sorted(subs) && begin <= end <= |subs|
    ensures Sorted(subs[..begin] + subs[end..])
  {
  }

  // What is left when all of a connection's subscriptions are taken out.
  function Others(subs: seq<Subscription>, id: Id): seq<Subscription> {
    if subs == [] then [] else (if subs[0].id == id then [] else [subs[0]]) + Others(subs[1..], id)
  }

  // Every other subscription stays as often as it was there.
  lemma {:induction false} OthersStay(subs: seq<Subscription>, id: Id)
    ensures forall s: Subscription :: multiset(Others(subs, id))[s] == if s.id == id then 0 else multiset(subs)[s]
  {
    if subs == [] {
    } else {
      OthersStay(subs[1..], id);
      assert subs == [subs[0]] + subs[1..];
    }
  }

  lemma {:induction false} OthersAppend(a: seq<Subscription>, b: seq<Subscription>, id: Id)
    ensures Others(a + b, id) == Others(a, id) + Others(b, id)
  {
    if a == [] {
      assert a + b == b;
    } else {
      OthersAppend(a[1..], b, id);
      assert (a + b)[0] == a[0] && (a + b)[1..] == a[1..] + b;
      Assoc(if a[0].id == id then [] else [a[0]], Others(a[1..], id), Others(b, id));
    }
  }

  lemma {:induction false} AllOthers(subs: seq<Subscription>, id: Id)
    requires forall i :: 0 <= i < |subs| ==> subs[i].id != id
    ensures Others(subs, id) == subs
  {
    if subs == [] {
    } else {
      AllOthers(subs[1..], id);
    }
  }

  lemma {:induction false} NoOthers(subs: seq<Subscription>, id: Id)
    requires forall i :: 0 <= i < |subs| ==> subs[i].id == id
    ensures Others(subs, id) == []
  {
    if subs == [] {
    } else {
      NoOthers(subs[1..], id);
    }
  }

  lemma MiddleErased(a: seq<Subscription>, mine: seq<Subscription>, b: seq<Subscription>, id: Id)
    requires forall i :: 0 <= i < |a| ==> a[i].id != id
    requires forall i :: 0 <= i < |mine| ==> mine[i].id == id
    requires forall i :: 0 <= i < |b| ==> b[i].id != id
    ensures Others(a + mine + b, id) == a + b
  {
    AllOthers(a, id);
    NoOthers(mine, id);
    AllOthers(b, id);
    OthersAppend(a, mine, id);
    OthersAppend(a + mine, b, id);
    assert a + [] == a;
  }

  lemma RangeErased(subs: seq<Subscription>, id: Id)
    requires Sorted(subs)
    ensures LowerBound(subs, id) <= UpperBound(subs, id)
    ensures var left := subs[..LowerBound(subs, id)] + subs[UpperBound(subs, id)..];
            Sorted(left) && left == Others(subs, id)
  {
    RangeIs(subs, id);
    hide LowerBound, UpperBound, Sorted, Others;
    var begin, end := LowerBound(subs, id), UpperBound(subs, id);
    RangeErasedSorted(subs, begin, end);
    var a, mine, b := subs[..begin], subs[begin..end], subs[end..];
    assert a + mine + b == subs;
    assert forall i :: 0 <= i < |b| ==> b[i] == subs[end + i];
    MiddleErased(a, mine, b, id);
  }

  // A subscription behind those of smaller and of the same connection, before the greater.
  ghost predicate Arrived(was: seq<Subscription>, now: seq<Subscription>, s: Subscription) {
    exists at: nat ::
      && at <= |was| && now == was[..at] + [s] + was[at..]
      && (forall i :: 0 <= i < at ==> was[i].id <= s.id)
      && (forall i :: at <= i < |was| ==> s.id < was[i].id)
  }

  lemma ArrivesAt(subs: seq<Subscription>, s: Subscription)
    requires Sorted(subs)
    ensures var at := UpperBound(subs, s.id);
            Arrived(subs, subs[..at] + [s] + subs[at..], s)
  {
    BoundsSplit(subs, s.id);
    hide Sorted, LowerBound, UpperBound;
  }

  // Positions of the copies of a subscription, in order.
  ghost predicate Copies(subs: seq<Subscription>, positions: seq<nat>, s: Subscription) {
    && (forall j :: 0 <= j < |positions| ==> positions[j] < |subs| && subs[positions[j]] == s)
    && (forall j, k :: 0 <= j < k < |positions| ==> positions[j] < positions[k])
    && (forall i :: 0 <= i < |subs| && subs[i] == s ==> i in positions)
  }

  class Index {
    var subs: seq<Subscription>

    ghost predicate Valid()
      reads this
    {
      Sorted(subs)
    }

    constructor ()
      ensures Valid() && subs == []
    {
      subs := [];
    }

    // insert: equal identifiers keep their order of arrival, and nothing is refused.
    method Insert(s: Subscription)
      requires Valid()
      modifies this
      ensures Valid()
      ensures multiset(subs) == multiset(old(subs)) + multiset{s}
      ensures Arrived(old(subs), subs, s)
    {
      hide Sorted, UpperBound, Arrived;
      var at := UpperBound(subs, s.id);
      InsertedSorted(subs, s);
      ArrivesAt(subs, s);
      assert subs == subs[..at] + subs[at..];
      subs := subs[..at] + [s] + subs[at..];
    }

    // erase of the connection's whole range
    method EraseAll(id: Id)
      requires Valid()
      modifies this
      ensures Valid()
      ensures subs == Others(old(subs), id)
    {
      RangeErased(subs, id);
      var begin, end := LowerBound(subs, id), UpperBound(subs, id);
      hide Sorted, LowerBound, UpperBound;
      subs := subs[..begin] + subs[end..];
    }

    // subscriptions_service::is_subscribed
    method IsSubscribed(id: Id, channel: Key) returns (found: bool)
      requires Valid()
      ensures found == ScanFinds(subs, id, channel)
    {
      var it := LowerBound(subs, id);
      BoundsSplit(subs, id);
      if it == |subs| || subs[it].id != id {
        assert forall s :: s in subs ==> s.id != id by {
          forall s | s in subs ensures s.id != id {
            var i :| 0 <= i < |subs| && subs[i] == s;
            assert i < it || it <= i;
          }
        }
        return false;
      }
      ghost var first := it;
      assert subs[it] in subs;
      while it < |subs|
        invariant first <= it <= |subs|
        invariant forall i :: first <= i < it ==> subs[i].channel != channel
      {
        if subs[it].channel == channel {
          assert subs[it] in subs && subs[it].id >= id;
          return true;
        }
        it := it + 1;
      }
      forall s | s in subs && s.id >= id ensures s.channel != channel {
        var i :| 0 <= i < |subs| && subs[i] == s;
        assert first <= i;
      }
      return false;
    }

    // unsubscribe_command::call: the reply is the scan's, the effect is exact.
    method Unsubscribe(id: Id, channel: Key) returns (ok: bool)
      requires Valid()
      modifies this
      ensures Valid()
      ensures subs == Without(old(subs), Subscription(id, channel))
      ensures ok == ScanFinds(old(subs), id, channel)
    {
      var s := Subscription(id, channel);
      WithoutSorted(subs, s);
      WithoutMembers(subs, s);
      ScanIsComplete(subs, id, channel);
      ok := IsSubscribed(id, channel);
      if !ok {
        return;
      }
      var toErase := Collect(id, channel);
      Erase(toErase, s);
    }

    method Collect(id: Id, channel: Key) returns (toErase: seq<nat>)
      requires Valid()
      ensures Copies(subs, toErase, Subscription(id, channel))
    {
      RangeIs(subs, id);
      hide Valid, Sorted, LowerBound, UpperBound;
      var s := Subscription(id, channel);
      var begin, end := LowerBound(subs, id), UpperBound(subs, id);
      toErase := [];
      for it := begin to end
        invariant forall j :: 0 <= j < |toErase| ==> begin <= toErase[j] < it && subs[toErase[j]] == s
        invariant forall j, k :: 0 <= j < k < |toErase| ==> toErase[j] < toErase[k]
        invariant forall i :: begin <= i < it && subs[i] == s ==> i in toErase
      {
        if subs[it].channel == channel {
          toErase := toErase + [it];
        }
      }
    }

    // Erasing through stable iterators: the j-th position has moved down by j.
    method Erase(toErase: seq<nat>, s: Subscription)
      requires Copies(subs, toErase, s)
      modifies this
      ensures subs == Without(old(subs), s)
    {
      ghost var all := subs;
      HalfwayStart(all, toErase, s);
      hide Halfway, Without, Copies;
      for j := 0 to |toErase|
        invariant Halfway(all, toErase, s, subs, j)
      {
        HalfwayStep(all, toErase, s, subs, j);
        subs := subs[..toErase[j] - j] + subs[toErase[j] - j + 1..];
      }
      HalfwayEnd(all, toErase, s, subs);
    }

    // With j copies erased: everything up to the last of them is done with.
    ghost predicate Halfway(all: seq<Subscription>, positions: seq<nat>, s: Subscription,
                            now: seq<Subscription>, j: nat)
    {
      && j <= |positions|
      && var q := if j == 0 then 0 else positions[j - 1] + 1;
         && j <= q <= |all|
         && |Without(all[..q], s)| == q - j
         && now == Without(all[..q], s) + all[q..]
    }

    lemma HalfwayStart(all: seq<Subscription>, positions: seq<nat>, s: Subscription)
      ensures Halfway(all, positions, s, all, 0)
    {
    }

    lemma HalfwayStep(all: seq<Subscription>, positions: seq<nat>, s: Subscription, now: seq<Subscription>, j: nat)
      requires Copies(all, positions, s) && j < |positions| && Halfway(all, positions, s, now, j)
      ensures j <= positions[j] && positions[j] - j < |now|
      ensures Halfway(all, positions, s, now[..positions[j] - j] + now[positions[j] - j + 1..], j + 1)
    {
      hide Without;
      var q := if j == 0 then 0 else positions[j - 1] + 1;
      Skip(all, positions, s, q, j);
      hide Copies;
      OneErased(all, s, q, positions[j], now, j);
    }

    lemma HalfwayEnd(all: seq<Subscription>, positions: seq<nat>, s: Subscription, now: seq<Subscription>)
      requires Copies(all, positions, s) && Halfway(all, positions, s, now, |positions|)
      ensures now == Without(all, s)
    {
      hide Without;
      var q := if positions == [] then 0 else positions[|positions| - 1] + 1;
      NoMore(all, positions, s, q);
      hide Copies;
      assert all == all[..q] + all[q..];
      WithoutAppend(all[..q], all[q..], s);
    }

    lemma SplitThree(all: seq<Subscription>, q: nat, at: nat)
      requires q <= at < |all|
      ensures all[q..] == all[q..at] + ([all[at]] + all[at + 1..])
    {
    }

    // Removing the copy at `at` once everything before q has been dealt with.
    lemma OneErased(all: seq<Subscription>, s: Subscription, q: nat, at: nat, now: seq<Subscription>, j: nat)
      requires j <= q <= at < |all| && all[at] == s
      requires |Without(all[..q], s)| == q - j && now == Without(all[..q], s) + all[q..]
      requires Without(all[..at], s) == Without(all[..q], s) + all[q..at]
      ensures at - j < |now|
      ensures |Without(all[..at + 1], s)| == at - j
      ensures Without(all[..at + 1], s) == Without(all[..at], s)
      ensures now[..at - j] + now[at - j + 1..] == Without(all[..at + 1], s) + all[at + 1..]
    {
      assert Without([s], s) == [] + Without([s][1..], s);
      hide Without;
      WithoutAppend(all[..at], [s], s);
      assert all[..at + 1] == all[..at] + [s];
      var kept := Without(all[..at], s);
      SplitThree(all, q, at);
      Assoc(Without(all[..q], s), all[q..at], [s] + all[at + 1..]);
      assert now == kept + ([s] + all[at + 1..]);
      assert |kept| == at - j;
      Taken(kept, s, all[at + 1..]);
    }

    lemma Taken(a: seq<Subscription>, s: Subscription, b: seq<Subscription>)
      ensures (a + ([s] + b))[..|a|] + (a + ([s] + b))[|a| + 1..] == a + b
    {
    }

    // Between two copies nothing is removed.
    lemma Skip(all: seq<Subscription>, positions: seq<nat>, s: Subscription, q: nat, j: nat)
      requires j < |positions| && q == if j == 0 then 0 else positions[j - 1] + 1
      requires Copies(all, positions, s)
      ensures q <= positions[j] < |all| && all[positions[j]] == s
      ensures Without(all[..positions[j]], s) == Without(all[..q], s) + all[q..positions[j]]
    {
      var at := positions[j];
      forall k | 0 <= k < |positions| ensures positions[k] < q || at <= positions[k] {
        assert k < j - 1 ==> positions[k] < positions[j - 1];
      }
      assert forall i :: q <= i < at ==> i !in positions;
      assert all[..at] == all[..q] + all[q..at];
      WithoutAppend(all[..q], all[q..at], s);
      KeepsOthers(all[q..at], s);
    }

    lemma NoMore(all: seq<Subscription>, positions: seq<nat>, s: Subscription, q: nat)
      requires q == if positions == [] then 0 else positions[|positions| - 1] + 1
      requires Copies(all, positions, s)
      ensures q <= |all| && Without(all[q..], s) == all[q..]
    {
      forall k | 0 <= k < |positions| ensures positions[k] < q {
        assert k < |positions| - 1 ==> positions[k] < positions[|positions| - 1];
      }
      assert forall i :: q <= i < |all| ==> i !in positions;
      KeepsOthers(all[q..], s);
    }

    lemma KeepsOthers(part: seq<Subscription>, s: Subscription)
      requires forall i :: 0 <= i < |part| ==> part[i] != s
      ensures Without(part, s) == part
    {
    }
  }
}
