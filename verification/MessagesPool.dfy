/** The pool that recycles outgoing messages through two bounded buffers. */
module MessagesPool {
  import opened Bytes
  import opened Messages

  // What fit() keeps, whatever take_one was asked for.
  const FIT: nat := 20480

  // push_back on a circular buffer: when full, the oldest element gives way; a buffer
  // without room keeps nothing.
  function PushBack<T>(s: seq<T>, x: T, capacity: nat): (r: seq<T>)
    ensures |s| <= capacity ==> |r| <= capacity
  {
    if |s| < capacity then s + [x]
    else if s == [] then []
    else s[1..] + [x]
  }

  function PushAll<T>(s: seq<T>, xs: seq<T>, capacity: nat): seq<T>
    decreases |xs|
  {
    if xs == [] then s else PushAll(PushBack(s, xs[0], capacity), xs[1..], capacity)
  }

  ghost predicate NoDup<T>(s: seq<T>) {
    forall i, j :: 0 <= i < j < |s| ==> s[i] != s[j]
  }

  // The messages of a list that belong to a set, and the others.
  function Keep(ms: seq<Message>, these: set<Message>): seq<Message> {
    if ms == [] then [] else (if ms[0] in these then [ms[0]] else []) + Keep(ms[1..], these)
  }

  function Drop(ms: seq<Message>, these: set<Message>): seq<Message> {
    if ms == [] then [] else (if ms[0] in these then [] else [ms[0]]) + Drop(ms[1..], these)
  }

  // The messages of a list that are in use.
  ghost function Busy(ms: seq<Message>): set<Message>
    reads ms
  {
    set m | m in ms && m.inUse
  }

  lemma KeepDropHead(ms: seq<Message>, these: set<Message>, i: nat)
    requires i < |ms|
    ensures Keep(ms[i..], these) == (if ms[i] in these then [ms[i]] else []) + Keep(ms[i + 1..], these)
    ensures Drop(ms[i..], these) == (if ms[i] in these then [] else [ms[i]]) + Drop(ms[i + 1..], these)
  {
  }

  lemma KeepDropNothing(ms: seq<Message>, these: set<Message>)
    ensures Keep(ms[|ms|..], these) == [] == Drop(ms[|ms|..], these)
  {
  }

  // A message ready to be taken.
  ghost predicate Clean(m: Message)
    reads m
  {
    !m.inUse && m.recyclable && m.buffers == [] && m.writeBuffer == []
  }

  class Pool {
    var available: seq<Message>
    var used: seq<Message>
    // of each of the two buffers
    var capacity: nat

    ghost predicate Valid()
      reads this, available, used
    {
      && |available| <= capacity && |used| <= capacity
      && NoDup(available) && NoDup(used)
      && (forall m :: m in available ==> m !in used)
      && (forall m :: m in available ==> Clean(m))
      && (forall m :: m in used ==> m.recyclable)
    }

    // A thread's pool before it is prepared.
    constructor ()
      ensures Valid() && available == [] && used == [] && capacity == 0
    {
      available, used, capacity := [], [], 0;
    }

    method Prepare(initial: nat)
      requires Valid() && available == [] && used == []
      modifies this
      ensures Valid() && fresh(available) && used == []
      ensures |available| == initial && capacity == initial * 2
    {
      capacity := initial * 2;
      for e := 0 to initial
        invariant Valid() && used == [] && capacity == initial * 2
        invariant fresh(available) && |available| == e
      {
        var message := new Message();
        message.recyclable := true;
        PushBackNoDup(available, message, capacity);
        available := PushBack(available, message, capacity);
      }
    }

    // Messages no longer in use go back, emptied; the others stay, in order.
    method Recycle()
      requires Valid()
      modifies this`available, this`used, (set m | m in used)`buffers, (set m | m in used)`writeBuffer
      ensures Valid()
      ensures used == Keep(old(used), old(Busy(used)))
      ensures available == PushAll(old(available), Drop(old(used), old(Busy(used))), capacity)
      ensures forall m :: m in available ==> m in old(available) || m in old(used)
      ensures forall m :: m in used ==> m in old(used)
      ensures forall m :: m in old(Busy(used)) ==> unchanged(m)
    {
      hide Keep, Drop, PushAll, PushBack;
      ghost var busy := Busy(used);
      ghost var before := available;
      var kept: seq<Message> := [];
      var all := used;
      assert all[0..] == all;
      for i := 0 to |all|
        invariant used == all
        invariant |available| <= capacity && NoDup(available)
        invariant forall m :: m in available ==> Clean(m)
        invariant forall m :: m in available ==> m in before || (m in all[..i] && m !in busy)
        invariant forall m :: m in busy ==> unchanged(m)
        invariant kept + Keep(all[i..], busy) == Keep(all, busy)
        invariant PushAll(available, Drop(all[i..], busy), capacity) == PushAll(before, Drop(all, busy), capacity)
      {
        var m := all[i];
        KeepDropHead(all, busy, i);
        Fresh(all, i);
        assert m in all;
        assert m !in available;
        if !m.inUse {
          m.buffers := [];
          m.writeBuffer := [];
          PushBackNoDup(available, m, capacity);
          PushAllHead(available, m, Drop(all[i + 1..], busy), capacity);
          available := PushBack(available, m, capacity);
          assert [] + Keep(all[i + 1..], busy) == Keep(all[i + 1..], busy);
        } else {
          assert [] + Drop(all[i + 1..], busy) == Drop(all[i + 1..], busy);
          Assoc(kept, [m], Keep(all[i + 1..], busy));
          kept := kept + [m];
        }
        assert all[..i + 1] == all[..i] + [m];
      }
      KeepDropNothing(all, busy);
      PushNothing(available, capacity);
      assert kept + [] == kept;
      KeepSound(all, busy);
      used := kept;
    }

    lemma AvailableIsIdle()
      requires Valid()
      ensures forall m :: m in available ==> !m.inUse
    {
    }

    method Fit()
      requires Valid()
      modifies this`available
      ensures Valid()
      ensures available == Fitted(old(available))
      ensures forall x :: x in available ==> x in old(available)
    {
      if |available| > FIT {
        available := available[..FIT];
      }
    }

    method Refill(count: nat)
      requires Valid() && available == [] && count <= capacity
      modifies this`available
      ensures Valid() && fresh(available) && |available| == count
    {
      while |available| < count
        invariant Valid() && fresh(available) && |available| <= count
        decreases count - |available|
      {
        var message := new Message();
        message.recyclable := true;
        PushBackNoDup(available, message, capacity);
        available := PushBack(available, message, capacity);
      }
    }

    // available_.back() changes hands.
    method HandOut() returns (m: Message)
      requires Valid() && available != [] && 0 < capacity
      modifies this`available, this`used, {available[|available| - 1]}`inUse
      ensures Valid()
      ensures m == old(available[|available| - 1]) && available + [m] == old(available)
      ensures used == PushBack(old(used), m, capacity) && m in used && m !in available
      ensures forall x :: x in used ==> x in old(used) || x == m
      ensures m.inUse
    {
      m := available[|available| - 1];
      assert m in available && m !in used;
      Fresh(available, |available| - 1);
      PushBackNoDup(used, m, capacity);
      m.inUse := true;
      used := PushBack(used, m, capacity);
      available := available[..|available| - 1];
    }

    // A message that nobody else is using, emptied and marked as in use. The pool must
    // have been prepared with room for `count` messages, or the refill would never end.
    method TakeOne(count: nat) returns (m: Message)
      requires Valid()
      requires 0 < count <= capacity
      modifies this`available, this`used, (set x | x in used)`buffers, (set x | x in used)`writeBuffer,
               (set x | x in available)`inUse, (set x | x in used)`inUse
      ensures Valid()
      // which message
      ensures fresh(m) || ((m in old(available) || m in old(used)) && !old(m.inUse))
      ensures m.inUse && m.recyclable && m.buffers == [] && m.writeBuffer == []
      ensures m !in available && m in used
      // where the others are
      ensures used == PushBack(Keep(old(used), old(Busy(used))), m, capacity)
      ensures var ready := Ready(old(available), old(used), old(Busy(used)), capacity);
              if ready != [] then available + [m] == ready
              else |available| == count - 1 && fresh(m) && forall x :: x in available ==> fresh(x)
      ensures forall x :: x in available || x in used ==> x in old(available) || x in old(used) || fresh(x)
      // messages in use are not touched, and no other message changes hands
      ensures forall x :: x in old(Busy(used)) ==> unchanged(x)
      ensures forall x :: (x in old(available) || x in old(used)) && x != m ==> x.inUse == old(x.inUse)
    {
      hide Keep, Drop, PushAll, PushBack, NoDup, Fitted;
      Recycle();
      Fit();
      forall x | x in available ensures (x in old(available) || x in old(used)) && !old(x.inUse) {
        assert Clean(x);
      }
      var shouldRefill := |available| == 0;
      if shouldRefill {
        Refill(count);
      }
      ghost var back := available[|available| - 1];
      assert back in available && Clean(back);
      ghost var stock := available;
      m := HandOut();
      assert m == back;
      forall x | x in available ensures x in stock && (shouldRefill ==> fresh(x)) {
        assert x in available + [m];
      }
    }
  }

  function Fitted(ms: seq<Message>): seq<Message> {
    if |ms| > FIT then ms[..FIT] else ms
  }

  // The messages take_one can choose from before it has to make new ones.
  function Ready(available: seq<Message>, used: seq<Message>, busy: set<Message>, capacity: nat): seq<Message> {
    Fitted(PushAll(available, Drop(used, busy), capacity))
  }

  lemma Fresh(ms: seq<Message>, i: nat)
    requires NoDup(ms) && i < |ms|
    ensures ms[i] !in ms[..i]
  {
  }

  lemma PushBackNoDup<T>(s: seq<T>, x: T, capacity: nat)
    requires NoDup(s) && x !in s
    ensures NoDup(PushBack(s, x, capacity))
    ensures forall y :: y in PushBack(s, x, capacity) ==> y in s || y == x
    ensures capacity > 0 ==> x in PushBack(s, x, capacity)
  {
  }

  lemma PushNothing<T>(s: seq<T>, capacity: nat)
    ensures PushAll(s, [], capacity) == s
  {
  }

  lemma PushAllHead<T>(s: seq<T>, x: T, xs: seq<T>, capacity: nat)
    ensures PushAll(s, [x] + xs, capacity) == PushAll(PushBack(s, x, capacity), xs, capacity)
  {
  }

  lemma {:induction false} KeepSound(ms: seq<Message>, these: set<Message>)
    requires NoDup(ms)
    ensures NoDup(Keep(ms, these)) && |Keep(ms, these)| <= |ms|
    ensures forall m :: m in Keep(ms, these) <==> m in ms && m in these
  {
    if ms == [] {
    } else {
      assert ms == [ms[0]] + ms[1..];
      KeepSound(ms[1..], these);
    }
  }

  // Conservation across a full pool: refilling grows an empty buffer to `count` messages
  // exactly when the buffer has room for them, and otherwise never gets there.
  lemma {:induction false} PushesReach<T>(xs: seq<T>, capacity: nat)
    ensures |PushAll([], xs, capacity)| == Min(|xs|, capacity)
  {
    PushAllLength([], xs, capacity);
  }

  // Pushing keeps the newest that there is room for, in order.
  lemma {:induction false} PushAllKeepsNewest<T>(s: seq<T>, xs: seq<T>, capacity: nat)
    requires |s| <= capacity
    ensures var all := s + xs;
            PushAll(s, xs, capacity) == all[|all| - Min(|all|, capacity)..]
    decreases |xs|
  {
    if xs == [] {
      assert s + xs == s;
    } else {
      var s', all := PushBack(s, xs[0], capacity), s + xs;
      assert s + [xs[0]] + xs[1..] == all;
      PushAllKeepsNewest(s', xs[1..], capacity);
      if |s| >= capacity {
        if s == [] {
          PushesReach(xs, 0);
          assert all[|all|..] == [];
        } else {
          assert s' + xs[1..] == all[1..];
        }
      } else {
        assert s' + xs[1..] == all;
      }
    }
  }

  // Recycling splits a list: each message goes one way, all of them in order.
  lemma {:induction false} KeepAndDrop(ms: seq<Message>, these: set<Message>)
    ensures multiset(Keep(ms, these)) + multiset(Drop(ms, these)) == multiset(ms)
    ensures forall m :: m in Keep(ms, these) ==> m in these
    ensures forall m :: m in Drop(ms, these) ==> m !in these
  {
    if ms == [] {
    } else {
      KeepAndDrop(ms[1..], these);
      assert ms == [ms[0]] + ms[1..];
    }
  }

  // In a pool that was never prepared no refill gets anywhere.
  lemma UnpreparedRefill<T>(xs: seq<T>)
    ensures PushAll([], xs, 0) == []
  {
    PushesReach(xs, 0);
  }

  lemma {:induction false} PushAllLength<T>(s: seq<T>, xs: seq<T>, capacity: nat)
    requires |s| <= capacity
    ensures |PushAll(s, xs, capacity)| == Min(|s| + |xs|, capacity)
    decreases |xs|
  {
    if xs == [] {
    } else {
      PushAllLength(PushBack(s, xs[0], capacity), xs[1..], capacity);
    }
  }
}
