/** The services and commands that change the store, on the state they change. */
module StorageServer {
  import opened Bytes
  import opened Entries
  import opened Time
  import opened Wrappers
  import opened Store

  // An iteration order of a hashed index.
  ghost predicate Enumerates(order: seq<Key>, keys: set<Key>) {
    forall k :: k in order <==> k in keys
  }

  // The entry a loop over the index stops at.
  ghost predicate FirstVisible(order: seq<Key>, m: Index, first: Key) {
    exists i :: 0 <= i < |order| && order[i] == first && Visible(m, first)
                && forall j :: 0 <= j < i ==> !Visible(m, order[j])
  }

  class Server {
    const width: Width
    var storage: Index
    var timer: Option<Word>
    var queue: multiset<Task>

    ghost function State(): State
      reads this
    {
      Store.State(storage, timer, queue)
    }

    constructor (v: Width)
      ensures width == v && State() == INITIAL
    {
      width := v;
      storage, timer, queue := map[], None, multiset{};
    }

    // schedule_timer; running at once is left to the executor.
    method ScheduleTimer(proposed: Word, clock: Word)
      modifies this`timer, this`queue
      ensures State() == Scheduled(old(State()), proposed, clock)
    {
      if proposed <= clock {
        queue := queue + multiset{Run};
        return;
      }
      timer := Some(proposed);
    }

    // The first pass of run: what to flag, what to erase, and the earliest deadline ahead.
    method Inspect(now: Word, order: seq<Key>)
      returns (toExpire: seq<Key>, toErase: seq<Key>, next: Word)
      requires Enumerates(order, storage.Keys)
      ensures forall k :: k in toExpire <==> k in storage && !storage[k].expired && storage[k].expiresAt <= now
      ensures forall k :: k in toErase <==> k in storage && Erased(storage[k], now)
      ensures forall k :: k in storage && !storage[k].expired && now < storage[k].expiresAt ==>
                next <= storage[k].expiresAt
      ensures next == NEVER
              || exists k :: k in storage && !storage[k].expired && now < storage[k].expiresAt == next
    {
      hide Sub64;
      toExpire, toErase, next := [], [], NEVER;
      for i := 0 to |order|
        invariant forall k :: k in toExpire <==>
                    k in order[..i] && k in storage && !storage[k].expired && storage[k].expiresAt <= now
        invariant forall k :: k in toErase <==> k in order[..i] && k in storage && Erased(storage[k], now)
        invariant forall k :: k in order[..i] && k in storage && !storage[k].expired && now < storage[k].expiresAt ==>
                    next <= storage[k].expiresAt
        invariant next == NEVER
                  || exists k :: k in storage && !storage[k].expired && now < storage[k].expiresAt == next
      {
        var key := order[i];
        assert key in order;
        var item := storage[key];
        assert order[..i + 1] == order[..i] + [key];
        if item.expired {
          if Sub64(now, item.expiresAt) > GRACE {
            toErase := toErase + [key];
          }
        } else if item.expiresAt <= now {
          toExpire := toExpire + [key];
        } else if item.expiresAt < next {
          next := item.expiresAt;
        }
      }
      assert order[..|order|] == order;
    }

    method Flag(keys: seq<Key>)
      modifies this`storage
      ensures storage.Keys == old(storage.Keys)
      ensures forall k :: k in storage ==>
                storage[k] == if k in keys then old(storage)[k].(expired := true) else old(storage)[k]
    {
      for i := 0 to |keys|
        invariant storage.Keys == old(storage.Keys)
        invariant forall k :: k in storage ==>
                    storage[k] == if k in keys[..i] then old(storage)[k].(expired := true) else old(storage)[k]
      {
        var key := keys[i];
        assert keys[..i + 1] == keys[..i] + [key];
        if key in storage && !storage[key].expired {
          storage := storage[key := storage[key].(expired := true)];
        }
      }
      assert keys[..|keys|] == keys;
    }

    method Erase(keys: seq<Key>)
      modifies this`storage
      ensures forall k :: k in storage <==> k in old(storage) && !(k in keys && old(storage)[k].expired)
      ensures forall k :: k in storage ==> storage[k] == old(storage)[k]
    {
      for i := 0 to |keys|
        invariant forall k :: k in storage <==> k in old(storage) && !(k in keys[..i] && old(storage)[k].expired)
        invariant forall k :: k in storage ==> storage[k] == old(storage)[k]
      {
        var key := keys[i];
        assert keys[..i + 1] == keys[..i] + [key];
        if key in storage && storage[key].expired {
          storage := storage - {key};
        }
      }
      assert keys[..|keys|] == keys;
    }

    // The last pass of run.
    method EarliestCandidate(first: Word, order: seq<Key>) returns (next: Word)
      requires forall k :: k in storage ==> k in order
      ensures next <= first && forall k :: k in storage ==> next <= Candidate(storage[k])
      ensures next == first || exists k :: k in storage && Candidate(storage[k]) == next
    {
      next := first;
      for i := 0 to |order|
        invariant next <= first
        invariant forall k :: k in storage && k in order[..i] ==> next <= Candidate(storage[k])
        invariant next == first || exists k :: k in storage && Candidate(storage[k]) == next
      {
        var key := order[i];
        assert order[..i + 1] == order[..i] + [key];
        if key in storage {
          var item := storage[key];
          var candidate := if item.expired then Add64(item.expiresAt, GRACE) else item.expiresAt;
          if candidate < next {
            next := candidate;
          }
        }
      }
      assert order[..|order|] == order;
    }

    // garbage_collector_service::run, whatever the order of the index.
    method RunCollection(now: Word, clock: Word, order: seq<Key>)
      requires Enumerates(order, storage.Keys)
      modifies this
      ensures State() == StepCollect(old(State()), now, clock)
    {
      var toExpire, toErase, next := Inspect(now, order);
      Flag(toExpire);
      Erase(toErase);
      assert storage == Collect(old(storage), now);
      next := EarliestCandidate(next, order);
      NextIsUnique(storage, next);
      if next != NEVER {
        ScheduleTimer(next, clock);
      }
    }

    // create_service::use
    method Use(key: Key, value: seq<Byte>, ttlType: TtlType, ttl: seq<Byte>, kind: EntryType,
               asInsert: bool, now: Word, order: seq<Key>)
      returns (ok: bool)
      requires |ttl| >= width && Converts(DecodeLE(ttl[..width]), ttlType)
      requires kind != Raw ==> |value| >= width
      requires Enumerates(order, storage.Keys + {key})
      modifies this
      ensures exists first: Key ::
                var at := GetExpirationPoint(now, ttlType, ttl, width);
                var a := Create(key, kind, value, ttlType, at, asInsert, first);
                && Enabled(width, old(State()), a) && (State(), ok) == Step(width, old(State()), a)
                && (key !in old(storage) ==> FirstVisible(order, storage, first))
    {
      ghost var was := State();
      var expiresAt := GetExpirationPoint(now, ttlType, ttl, width);
      if !asInsert && key in storage && storage[key].kind != Counter {
        storage := storage[key := storage[key].(buffer := value, expiresAt := expiresAt, ttlType := ttlType)];
        ghost var a := Create(key, kind, value, ttlType, expiresAt, asInsert, key);
        assert Enabled(width, was, a) && (State(), true) == Step(width, was, a);
        return true;
      }
      if key in storage {
        ghost var a := Create(key, kind, value, ttlType, expiresAt, asInsert, key);
        assert Enabled(width, was, a) && (State(), false) == Step(width, was, a);
        return false;
      }
      storage := storage[key := NewEntry(width, kind, value, ttlType, expiresAt)];
      var first := FirstUnflagged(order, key);
      if expiresAt <= storage[first].expiresAt {
        queue := queue + multiset{Schedule(expiresAt)};
      }
      ghost var a := Create(key, kind, value, ttlType, expiresAt, asInsert, first);
      assert Enabled(width, was, a);
      assert (State(), true) == Step(width, was, a) by {
        assert was.queue + multiset{} == was.queue;
      }
      return true;
    }

    // The loop over the index, which stops at the first unflagged entry.
    method FirstUnflagged(order: seq<Key>, inserted: Key) returns (first: Key)
      requires Enumerates(order, storage.Keys) && Visible(storage, inserted)
      ensures Visible(storage, first) && FirstVisible(order, storage, first)
    {
      assert inserted in order;
      ghost var at :| 0 <= at < |order| && order[at] == inserted;
      var i := 0;
      assert order[i] in order;
      while storage[order[i]].expired
        invariant 0 <= i <= at
        invariant forall j :: 0 <= j < i ==> !Visible(storage, order[j])
        decreases at - i
      {
        i := i + 1;
        assert order[i] in order;
      }
      first := order[i];
    }

    // find_service::find_or_fail, and with it QUERY and GET
    method FindOrFail(key: Key) returns (found: Option<Entry>)
      ensures found == if Visible(storage, key) then Some(storage[key]) else None
      ensures (State(), found.Some?) == Step(width, State(), Find(key))
    {
      if key !in storage || storage[key].expired {
        return None;
      }
      return Some(storage[key]);
    }

    // update_command::call
    method UpdateEntry(key: Key, request: Request, now: Word) returns (ok: bool)
      requires Enabled(width, State(), Update(key, request, now))
      modifies this
      ensures (State(), ok) == Step(width, old(State()), Update(key, request, now))
    {
      var found := FindOrFail(key);
      if found.None? {
        return false;
      }
      var e := found.value;
      match request.attribute {
        case Quota =>
          if e.kind != Counter {
            return false;
          }
          ok := true;
          match request.change {
            case Patch => e := e.(counter := request.value);
            case Increase => e := e.(counter := (e.counter + request.value) % Pow256(width));
            case Decrease =>
              if e.counter >= request.value {
                e := e.(counter := e.counter - request.value);
              } else {
                ok := false;
              }
          }
          storage := storage[key := e];
        case Ttl =>
          var d := PatchDuration(request.value, e.ttlType);
          match request.change {
            case Patch => e := e.(expiresAt := Add64(now, d));
            case Increase => e := e.(expiresAt := Add64(e.expiresAt, d));
            case Decrease => e := e.(expiresAt := Sub64(e.expiresAt, d));
          }
          storage := storage[key := e];
          if |key| == 0 {
            queue := queue + multiset{Schedule(e.expiresAt)};
          } else {
            assert queue + multiset{} == queue;
          }
          ok := true;
      }
    }

    // purge_command::call
    method PurgeEntry(key: Key) returns (ok: bool)
      modifies this
      ensures (State(), ok) == Step(width, old(State()), Purge(key))
    {
      if key !in storage || storage[key].expired {
        return false;
      }
      storage := storage - {key};
      return true;
    }

    // The executor's side: the timer's handler is queued, queued work is taken and run.
    method FireTimer()
      requires timer.Some?
      modifies this
      ensures (State(), true) == Step(width, old(State()), Fire)
    {
      timer := None;
      queue := queue + multiset{Run};
    }

    method RunScheduleTask(proposed: Word, clock: Word)
      requires Schedule(proposed) in queue
      modifies this
      ensures (State(), true) == Step(width, old(State()), RunSchedule(proposed, clock))
    {
      queue := queue - multiset{Schedule(proposed)};
      ScheduleTimer(proposed, clock);
    }

    method RunCollectTask(now: Word, clock: Word, order: seq<Key>)
      requires Run in queue && Enumerates(order, storage.Keys)
      modifies this
      ensures (State(), true) == Step(width, old(State()), RunCollect(now, clock))
    {
      hide StepCollect;
      queue := queue - multiset{Run};
      RunCollection(now, clock, order);
    }
  }
}
