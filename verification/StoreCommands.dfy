/** What every step of the store does, field by field: to the entry it is about, to the
    timer and to the queue, and what it replies. */
module StoreCommands {
  import opened Bytes
  import opened Entries
  import opened Time
  import opened Wrappers
  import opened Store
  import opened StoreProperties

  // QUERY and GET find what is visible, and change nothing.
  lemma FindResult(v: Width, s: State, key: Key)
    ensures Step(v, s, Find(key)) == (s, key in s.entries && !s.entries[key].expired)
  {
  }

  // PURGE takes out exactly the key it is given, if that is visible.
  lemma PurgeResult(v: Width, s: State, key: Key)
    ensures var (s', ok) := Step(v, s, Purge(key));
            && s'.timer == s.timer && s'.queue == s.queue
            && (ok <==> key in s.entries && !s.entries[key].expired)
            && (!ok ==> s' == s)
            && (ok ==> s'.entries.Keys == s.entries.Keys - {key}
                       && forall k :: k in s'.entries ==> s'.entries[k] == s.entries[k])
            && !Step(v, s', Find(key)).1
  {
  }

  // INSERT and SET of an absent key store what the request says, with one write to its
  // name; a wake-up is asked for exactly when no first unflagged entry is due earlier.
  lemma CreateResult(v: Width, s: State, a: Action)
    requires a.Create? && Enabled(v, s, a) && a.key !in s.entries
    ensures var (s', ok) := Step(v, s, a);
            && ok && s'.entries.Keys == s.entries.Keys + {a.key} && a.first in s'.entries
            && (forall k :: k in s.entries ==> s'.entries[k] == s.entries[k])
            && s'.timer == s.timer
            && (a.expiresAt <= s'.entries[a.first].expiresAt ==>
                  s'.queue == s.queue + multiset{Schedule(a.expiresAt)})
            && (a.expiresAt > s'.entries[a.first].expiresAt ==> s'.queue == s.queue)
            && var e := s'.entries[a.key];
               && e.kind == a.kind && e.ttlType == a.ttlType && e.expiresAt == a.expiresAt && !e.expired
               && (e.kind == Raw ==> e.buffer == a.value)
               && (e.kind != Raw ==> e.counter == DecodeLE(a.value[..v]))
               && e.metrics.writeCount == 1 && e.metrics.readCount == 0
               && e.metrics.readsAccumulator == e.metrics.writesAccumulator == 0
               && e.metrics.readsPerMinute == e.metrics.writesPerMinute == 0
  {
    assert s.queue + multiset{} == s.queue;
  }

  // A second SET replaces buffer, deadline and unit of what is not a counter, and leaves
  // the flag, the timer and the queue alone.
  lemma SetAgainResult(v: Width, s: State, a: Action)
    requires a.Create? && !a.asInsert && a.key in s.entries && s.entries[a.key].kind != Counter
    requires Enabled(v, s, a)
    ensures var (s', ok) := Step(v, s, a);
            && ok && s'.timer == s.timer && s'.queue == s.queue && s'.entries.Keys == s.entries.Keys
            && (forall k :: k in s.entries && k != a.key ==> s'.entries[k] == s.entries[k])
            && var e, e' := s.entries[a.key], s'.entries[a.key];
               && e'.buffer == a.value && e'.expiresAt == a.expiresAt && e'.ttlType == a.ttlType
               && e'.kind == e.kind && e'.counter == e.counter && e'.expired == e.expired && e'.metrics == e.metrics
  {
  }

  // INSERT of a stored key, flagged or not, and SET of a stored counter are refused.
  lemma CreateRefused(v: Width, s: State, a: Action)
    requires a.Create? && Enabled(v, s, a) && a.key in s.entries
    requires a.asInsert || s.entries[a.key].kind == Counter
    ensures Step(v, s, a) == (s, false)
  {
  }

  // UPDATE of a key that is not visible, or of the quota of what is not a counter, is refused.
  lemma UpdateRefused(v: Width, s: State, a: Action)
    requires a.Update? && Enabled(v, s, a)
    requires a.key !in s.entries || s.entries[a.key].expired
             || (a.request.attribute == Quota && s.entries[a.key].kind != Counter)
    ensures Step(v, s, a) == (s, false)
  {
  }

  // UPDATE of a quota changes the counter alone, and refuses only to go below zero.
  lemma QuotaResult(v: Width, s: State, a: Action)
    requires a.Update? && Enabled(v, s, a) && a.request.attribute == Quota
    requires a.key in s.entries && !s.entries[a.key].expired && s.entries[a.key].kind == Counter
    requires s.entries[a.key].counter < Pow256(v) && a.request.value < Pow256(v)
    ensures var (s', ok) := Step(v, s, a);
            && s'.timer == s.timer && s'.queue == s.queue && s'.entries.Keys == s.entries.Keys
            && (forall k :: k in s.entries && k != a.key ==> s'.entries[k] == s.entries[k])
            && var c, n, c' := s.entries[a.key].counter, a.request.value, s'.entries[a.key].counter;
               && s'.entries[a.key].(counter := c) == s.entries[a.key]
               && (a.request.change == Patch ==> ok && c' == n)
               && (a.request.change == Increase ==> ok && c' == if c + n < Pow256(v) then c + n else c + n - Pow256(v))
               && (a.request.change == Decrease ==> (ok <==> n <= c) && c' == if n <= c then c - n else c)
  {
    var c, n, p := s.entries[a.key].counter, a.request.value, Pow256(v);
    if c + n < p {
      ModUnique(c + n, p, 0, c + n);
    } else {
      ModUnique(c + n, p, 1, c + n - p);
    }
    hide Pow256, Converts, ApplyTtl;
  }

  // UPDATE of a TTL changes the deadline alone, by units of the entry's own TTL type, and
  // asks for a wake-up exactly for the empty key.
  lemma TtlResult(v: Width, s: State, a: Action)
    requires a.Update? && Enabled(v, s, a) && a.request.attribute == Ttl
    requires a.key in s.entries && !s.entries[a.key].expired
    ensures var (s', ok) := Step(v, s, a);
            && ok && s'.timer == s.timer && s'.entries.Keys == s.entries.Keys
            && (forall k :: k in s.entries && k != a.key ==> s'.entries[k] == s.entries[k])
            && var e, e' := s.entries[a.key], s'.entries[a.key];
               var d := if e.ttlType.OtherTtl? then 0 else a.request.value * Unit(e.ttlType);
               && e'.(expiresAt := e.expiresAt) == e
               && (a.request.change == Patch ==> e'.expiresAt == (a.now + d) % U64)
               && (a.request.change == Increase ==> e'.expiresAt == (e.expiresAt + d) % U64)
               && (a.request.change == Decrease ==>
                     e'.expiresAt == if d <= e.expiresAt then e.expiresAt - d else e.expiresAt + U64 - d)
               && s'.queue == if a.key == [] then s.queue + multiset{Schedule(e'.expiresAt)} else s.queue
  {
    assert s.queue + multiset{} == s.queue;
    hide Unit;
  }

  // The timer going off leaves it unarmed and a collection queued.
  lemma FireResult(v: Width, s: State)
    requires Enabled(v, s, Fire)
    ensures Step(v, s, Fire).0 == State(s.entries, None, s.queue + multiset{Run})
  {
  }

  // A queued wake-up is used up; it arms the timer if it lies ahead of the clock and
  // otherwise queues a collection.
  lemma ScheduleResult(v: Width, s: State, at: Word, clock: Word)
    requires Enabled(v, s, RunSchedule(at, clock))
    ensures var s', left := Step(v, s, RunSchedule(at, clock)).0, s.queue - multiset{Schedule(at)};
            && s'.entries == s.entries
            && (clock < at ==> s'.timer == Some(at) && s'.queue == left)
            && (at <= clock ==> s'.timer == s.timer && s'.queue == left + multiset{Run})
  {
  }

  // A collection flags what is due and erases what was flagged more than ten seconds past
  // its deadline; nothing else of an entry changes.
  lemma CollectResult(v: Width, s: State, now: Word, clock: Word)
    requires Enabled(v, s, RunCollect(now, clock))
    ensures var m, m' := s.entries, Step(v, s, RunCollect(now, clock)).0.entries;
            && (forall k :: k in m' ==> k in m && m'[k].(expired := m[k].expired) == m[k])
            && (forall k :: k in m && !m[k].expired ==> k in m' && (m'[k].expired <==> m[k].expiresAt <= now))
            && (forall k :: k in m && m[k].expired && m[k].expiresAt <= now ==>
                  (k in m' <==> now <= m[k].expiresAt + 10_000_000_000))
            && (forall k :: k in m' && m[k].expired ==> m'[k].expired)
  {
    StepOfTimer(v, s, RunCollect(now, clock));
    hide Step;
  }

  // The constants, in the units of the TTLs.
  lemma Constants()
    ensures GRACE == 10 * Unit(Seconds)
    ensures NEVER as int == 0x1_0000_0000_0000_0000 - 1
  {
  }
}
