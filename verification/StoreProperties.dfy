/** What the store keeps over whole runs: wake-ups, tombstones, draining, balances. */
module StoreProperties {
  import opened Bytes
  import opened Entries
  import opened Time
  import opened Wrappers
  import opened Store

  // ----- No stranded storage

  ghost predicate Awake(s: State) {
    s.timer.Some? || s.queue != multiset{}
  }

  // Entries left behind always have a wake-up coming.
  ghost predicate Anchored(s: State) {
    s.entries != map[] ==> Awake(s)
  }

  lemma CreateAnchored(v: Width, s: State, a: Action)
    requires a.Create? && Enabled(v, s, a) && Anchored(s)
    ensures Anchored(Step(v, s, a).0)
  {
  }

  lemma UpdateAnchored(v: Width, s: State, a: Action)
    requires a.Update? && Enabled(v, s, a) && Anchored(s)
    ensures Anchored(Step(v, s, a).0)
  {
  }

  // A collection that leaves entries re-arms the timer or queues another one, unless
  // every deadline left stands for "none"; otherwise it relies on what was there before.
  lemma CollectAnchoredIff(v: Width, s: State, a: Action)
    requires a.RunCollect? && Enabled(v, s, a)
    ensures var s' := Step(v, s, a).0;
            Anchored(s') <==>
              || s'.entries == map[]
              || (exists k :: k in s'.entries && Candidate(s'.entries[k]) != NEVER)
              || s.timer.Some?
              || s.queue - multiset{Run} != multiset{}
  {
    var s' := Step(v, s, a).0;
    var next := NextDeadline(s'.entries);
    if next != NEVER {
      if next <= a.clock {
        assert Run in s'.queue;
      }
    } else {
      forall k | k in s'.entries ensures Candidate(s'.entries[k]) == NEVER {
        assert next <= Candidate(s'.entries[k]);
      }
    }
  }

  ghost predicate Bounded(m: Index) {
    forall k :: k in m ==> Candidate(m[k]) != NEVER
  }

  lemma StepAnchored(v: Width, s: State, a: Action)
    requires Enabled(v, s, a) && Anchored(s)
    requires Bounded(Step(v, s, a).0.entries)
    ensures Anchored(Step(v, s, a).0)
  {
    var s' := Step(v, s, a).0;
    match a
    case Create(_, _, _, _, _, _, _) => CreateAnchored(v, s, a);
    case Update(_, _, _) => UpdateAnchored(v, s, a);
    case RunCollect(_, _) =>
      CollectAnchoredIff(v, s, a);
      if s'.entries != map[] {
        var k :| k in s'.entries;
        assert Candidate(s'.entries[k]) != NEVER;
      }
    case Fire => assert Run in s'.queue;
    case RunSchedule(proposed, clock) =>
      if proposed <= clock { assert Run in s'.queue; }
    case Purge(_) =>
    case Find(_) =>
  }

  // In every state reached from empty storage, while deadlines stay below the largest
  // 64-bit value, entries imply an armed timer or a queued wake-up.
  lemma {:induction false} NoStrandedStorage(v: Width, states: seq<State>, actions: seq<Action>, i: nat)
    requires IsRun(v, states, actions) && states[0] == INITIAL
    requires forall j :: 0 <= j < |states| ==> Bounded(states[j].entries)
    requires i < |states|
    ensures Anchored(states[i])
  {
    if i == 0 {
    } else {
      NoStrandedStorage(v, states, actions, i - 1);
      assert Step(v, states[i - 1], actions[i - 1]).0 == states[i];
      StepAnchored(v, states[i - 1], actions[i - 1]);
    }
  }

  // The bound is needed: one entry with the largest deadline is left without a wake-up.
  lemma LargestDeadlineStrands(v: Width, key: Key, e: Entry, now: Word, clock: Word)
    requires e.expiresAt == NEVER && !e.expired && now < NEVER
    ensures var s := State(map[key := e], None, multiset{Run});
            var a := RunCollect(now, clock);
            Enabled(v, s, a) && Anchored(s) && !Anchored(Step(v, s, a).0)
  {
    var s := State(map[key := e], None, multiset{Run});
    var a := RunCollect(now, clock);
    var m := Collect(s.entries, now);
    assert key in m && Candidate(m[key]) == NEVER;
    CollectAnchoredIff(v, s, a);
    assert s.queue - multiset{Run} == multiset{};
  }

  // ----- Tombstones

  ghost predicate Tombstoned(m: Index, key: Key) {
    key in m && m[key].expired
  }

  // The key a command is about.
  ghost predicate About(a: Action, key: Key) {
    (a.Create? || a.Update? || a.Purge? || a.Find?) && a.key == key
  }

  // A flagged key answers no command but SET, and only the collector removes it.
  lemma StepOnTombstone(v: Width, s: State, a: Action, key: Key)
    requires Enabled(v, s, a) && Tombstoned(s.entries, key)
    ensures var (s', ok) := Step(v, s, a);
            && (Tombstoned(s'.entries, key)
                || (a.RunCollect? && Erased(s.entries[key], a.now) && key !in s'.entries))
            && (About(a, key) && ok ==>
                  a.Create? && !a.asInsert && s.entries[key].kind != Counter && !Visible(s'.entries, key))
            && (About(a, key) && !ok ==> s' == s)
  {
  }

  // An absent key is brought back only by a create that says so.
  lemma StepOnAbsent(v: Width, s: State, a: Action, key: Key)
    requires Enabled(v, s, a) && key !in s.entries
    ensures var (s', ok) := Step(v, s, a);
            key in s'.entries <==> a.Create? && a.key == key
    ensures var (s', ok) := Step(v, s, a);
            key in s'.entries ==> ok && Visible(s'.entries, key)
  {
  }

  ghost predicate ErasesAt(states: seq<State>, actions: seq<Action>, key: Key, e: nat) {
    && e < |actions| && e + 1 < |states|
    && actions[e].RunCollect?
    && Tombstoned(states[e].entries, key) && key !in states[e + 1].entries
  }

  ghost predicate CreatesAt(states: seq<State>, actions: seq<Action>, key: Key, c: nat) {
    && c < |actions| && c + 1 < |states|
    && actions[c].Create? && actions[c].key == key
    && key !in states[c].entries && key in states[c + 1].entries
  }

  lemma {:induction false} CreatedSince(v: Width, states: seq<State>, actions: seq<Action>, key: Key, i: nat, j: nat)
    returns (c: nat)
    requires IsRun(v, states, actions) && i <= j < |states|
    requires key !in states[i].entries && key in states[j].entries
    ensures i <= c < j && CreatesAt(states, actions, key, c)
    decreases j - i
  {
    StepOnAbsent(v, states[i], actions[i], key);
    if key in states[i + 1].entries {
      c := i;
    } else {
      c := CreatedSince(v, states, actions, key, i + 1, j);
    }
  }

  // Once flagged, a key is seen again only after the collector has erased it and a later
  // create has stored it anew.
  lemma {:induction false} TombstonesLast(v: Width, states: seq<State>, actions: seq<Action>, key: Key, i: nat, j: nat)
    requires IsRun(v, states, actions) && i <= j < |states|
    requires Tombstoned(states[i].entries, key) && Visible(states[j].entries, key)
    ensures exists e, c :: i <= e < c < j && ErasesAt(states, actions, key, e) && CreatesAt(states, actions, key, c)
    decreases j - i
  {
    StepOnTombstone(v, states[i], actions[i], key);
    if Tombstoned(states[i + 1].entries, key) {
      TombstonesLast(v, states, actions, key, i + 1, j);
    } else {
      assert ErasesAt(states, actions, key, i);
      var c := CreatedSince(v, states, actions, key, i + 1, j);
    }
  }

  // A SET that says yes makes its key visible exactly when the key was not flagged.
  lemma SetIsVisibleIff(v: Width, s: State, a: Action)
    requires a.Create? && !a.asInsert && Enabled(v, s, a) && Step(v, s, a).1
    ensures Visible(Step(v, s, a).0.entries, a.key) <==> !Tombstoned(s.entries, a.key)
  {
  }

  // ... and the deadline it gives a flagged key makes the next collection erase it at
  // once, unless that deadline lies almost a full clock period ahead.
  lemma SetOverTombstoneIsLost(v: Width, s: State, a: Action, now: Word)
    requires a.Create? && SetsAgain(s.entries, a) && Enabled(v, s, a)
    requires Tombstoned(s.entries, a.key) && now < a.expiresAt
    ensures var m := Step(v, s, a).0.entries;
            a.key in Collect(m, now) <==> a.expiresAt - now >= U64 - GRACE
  {
  }

  // ----- The collector as a function of time

  ghost predicate FlaggedInThePast(m: Index, now: Word) {
    forall k :: k in m && m[k].expired ==> m[k].expiresAt <= now
  }

  // Unflagged before the deadline, flagged for ten seconds from it on, gone afterwards.
  function Settled(m: Index, now: Word): Index {
    map k | k in m && now <= m[k].expiresAt + GRACE :: m[k].(expired := m[k].expiresAt <= now)
  }

  lemma CollectAt(m: Index, now: Word, k: Key)
    ensures k in Collect(m, now) <==> k in m && !Erased(m[k], now)
    ensures k in Collect(m, now) ==> Collect(m, now)[k] == Marked(m[k], now)
  {
  }

  // Two collections at one instant put the storage where the clock says it should be,
  // exactly when no entry was flagged ahead of its deadline.
  lemma TwoRunsSettle(m: Index, now: Word)
    ensures Collect(Collect(m, now), now) == Settled(m, now) <==> FlaggedInThePast(m, now)
  {
    var m1 := Collect(m, now);
    var m2 := Collect(m1, now);
    if FlaggedInThePast(m, now) {
      forall k
        ensures k in m2 <==> k in Settled(m, now)
        ensures k in m2 ==> m2[k] == Settled(m, now)[k]
      {
        CollectAt(m, now, k);
        CollectAt(m1, now, k);
      }
      assert m2 == Settled(m, now);
    } else {
      var k :| k in m && m[k].expired && now < m[k].expiresAt;
      CollectAt(m, now, k);
      CollectAt(m1, now, k);
      assert k in Settled(m, now) && !Settled(m, now)[k].expired;
    }
  }

  // SET of a deadline still ahead on a key already flagged: the one way to a flag that
  // comes before its deadline.
  ghost predicate SetsAhead(s: State, a: Action, now: Word) {
    a.Create? && SetsAgain(s.entries, a) && s.entries[a.key].expired && now < a.expiresAt
  }

  lemma StepFlagsIff(v: Width, s: State, a: Action, now: Word)
    requires Enabled(v, s, a) && FlaggedInThePast(s.entries, now)
    requires a.RunCollect? ==> a.now <= now
    ensures FlaggedInThePast(Step(v, s, a).0.entries, now) <==> !SetsAhead(s, a, now)
  {
    if SetsAhead(s, a, now) {
      assert a.key in Step(v, s, a).0.entries && Step(v, s, a).0.entries[a.key].expired;
    } else {
      forall k | Tombstoned(Step(v, s, a).0.entries, k) ensures Step(v, s, a).0.entries[k].expiresAt <= now {
        FlagComesFrom(v, s, a, k);
      }
    }
  }

  lemma StepOfTimer(v: Width, s: State, a: Action)
    requires Enabled(v, s, a) && (a.Fire? || a.RunSchedule? || a.RunCollect?)
    ensures Step(v, s, a).0.entries == if a.RunCollect? then Collect(s.entries, a.now) else s.entries
  {
    hide Collect, IsNext, Candidate;
  }

  // A flag was there before, set by a collection or moved by SET.
  lemma FlagComesFrom(v: Width, s: State, a: Action, k: Key)
    requires Enabled(v, s, a) && Tombstoned(Step(v, s, a).0.entries, k)
    ensures k in s.entries
    ensures var at := Step(v, s, a).0.entries[k].expiresAt;
            if !s.entries[k].expired then a.RunCollect? && at <= a.now
            else if a.Create? && SetsAgain(s.entries, a) && a.key == k then at == a.expiresAt
            else at == s.entries[k].expiresAt
  {
    match a
    case RunCollect(now, _) =>
      hide Step;
      StepOfTimer(v, s, a);
      CollectAt(s.entries, now, k);
    case Update(_, _, _) =>
      hide Step;
      UpdateKeepsFlags(v, s, a, k);
    case Create(_, _, _, _, _, _, _) =>
    case _ =>
      hide StepCreate, StepUpdate, StepCollect;
  }

  lemma UpdateKeepsFlags(v: Width, s: State, a: Action, k: Key)
    requires a.Update? && Enabled(v, s, a) && Tombstoned(Step(v, s, a).0.entries, k)
    ensures k in s.entries && Step(v, s, a).0.entries[k] == s.entries[k]
  {
    hide Add64, Sub64, Pow256, Converts, Unit, PatchDuration;
  }

  // So in every state reached from empty storage by clocks that have not passed `now` and
  // without such a SET, two collections at `now` leave what the clock says.
  lemma {:induction false} ReachedStorageSettles(v: Width, states: seq<State>, actions: seq<Action>, i: nat, now: Word)
    requires IsRun(v, states, actions) && states[0] == INITIAL && i < |states|
    requires forall j :: 0 <= j < i && actions[j].RunCollect? ==> actions[j].now <= now
    requires forall j :: 0 <= j < i ==> !SetsAhead(states[j], actions[j], now)
    ensures FlaggedInThePast(states[i].entries, now)
    ensures Collect(Collect(states[i].entries, now), now) == Settled(states[i].entries, now)
  {
    hide Step, Enabled, Collect, Settled, SetsAhead;
    if i == 0 {
    } else {
      ReachedStorageSettles(v, states, actions, i - 1, now);
      assert Step(v, states[i - 1], actions[i - 1]).0 == states[i];
      StepFlagsIff(v, states[i - 1], actions[i - 1], now);
    }
    TwoRunsSettle(states[i].entries, now);
  }

  // A third collection at the same instant changes nothing.
  lemma TwoRunsAreEnough(m: Index, now: Word)
    ensures var m2 := Collect(Collect(m, now), now);
            Collect(m2, now) == m2
  {
  }

  ghost predicate NoWrap(m: Index) {
    forall k :: k in m ==> m[k].expiresAt + GRACE < U64
  }

  // A settled storage asks for its next collection no earlier than now, and no later
  // than any entry needs it.
  lemma SettledDeadline(m: Index, now: Word)
    requires NoWrap(m)
    ensures var s := Settled(m, now);
            && now <= NextDeadline(s)
            && (forall k :: k in s ==>
                  NextDeadline(s) <= if s[k].expired then s[k].expiresAt + GRACE else s[k].expiresAt)
            && (s != map[] ==>
                  (exists k ::
                     k in s && NextDeadline(s) == if s[k].expired then s[k].expiresAt + GRACE else s[k].expiresAt))
  {
  }

  // ----- Draining

  ghost function Unflagged(m: Index): set<Key> {
    set k | k in m && !m[k].expired
  }

  ghost function Flagged(m: Index): set<Key> {
    set k | k in m && m[k].expired
  }

  // Collections an index still has to go through, counting two for an unflagged entry.
  ghost function Work(m: Index): nat {
    2 * |Unflagged(m)| + |Flagged(m)|
  }

  lemma WorkIsAtMostTwice(m: Index)
    ensures Work(m) <= 2 * |m|
    ensures Work(m) == 0 <==> m == map[]
  {
    assert m.Keys == Unflagged(m) + Flagged(m);
    if m != map[] {
      var k :| k in m;
      assert k in Unflagged(m) || k in Flagged(m);
    }
  }

  ghost predicate Due(e: Entry, now: Word) {
    if e.expired then Erased(e, now) else e.expiresAt <= now
  }

  ghost function DueKeys(m: Index, now: Word): set<Key> {
    set k | k in m && Due(m[k], now)
  }

  lemma CollectSets(m: Index, now: Word)
    ensures var m' := Collect(m, now);
            var marks := DueKeys(m, now) * Unflagged(m);
            var gone := DueKeys(m, now) * Flagged(m);
            && Unflagged(m') == Unflagged(m) - marks
            && Flagged(m') == (Flagged(m) - gone) + marks
            && DueKeys(m, now) == marks + gone
            && Unflagged(m) !! Flagged(m)
  {
  }

  lemma Sizes(u: set<Key>, f: set<Key>, d: set<Key>)
    requires u !! f && d == d * u + d * f
    ensures 2 * |u - d * u| + |(f - d * f) + d * u| == 2 * |u| + |f| - |d|
  {
  }

  lemma CollectChangesIff(m: Index, now: Word)
    ensures DueKeys(m, now) == {} <==> Collect(m, now) == m
  {
    hide Sub64;
    if DueKeys(m, now) == {} {
      forall k
        ensures k in Collect(m, now) <==> k in m
        ensures k in m ==> Collect(m, now)[k] == m[k]
      {
        CollectAt(m, now, k);
        assert k !in DueKeys(m, now);
      }
    } else {
      var k :| k in DueKeys(m, now);
      CollectAt(m, now, k);
    }
  }

  // A collection does exactly the work that is due: one unit for each entry it flags and
  // one for each it erases.
  lemma CollectWorks(m: Index, now: Word)
    ensures Work(Collect(m, now)) == Work(m) - |DueKeys(m, now)|
    ensures DueKeys(m, now) == {} <==> Collect(m, now) == m
  {
    hide Due, Collect;
    CollectSets(m, now);
    Sizes(Unflagged(m), Flagged(m), DueKeys(m, now));
    CollectChangesIff(m, now);
  }

  // Past the deadline it asked for, a collection always finds something to do.
  lemma LateRunsWork(m: Index, now: Word)
    requires m != map[] && NoWrap(m) && NextDeadline(m) < now
    ensures Work(Collect(m, now)) < Work(m)
    ensures NoWrap(Collect(m, now))
  {
    var d := NextDeadline(m);
    var k :| k in m && Candidate(m[k]) == d;
    assert Due(m[k], now);
    assert k in DueKeys(m, now);
    CollectWorks(m, now);
  }

  // At the very instant of an erasure deadline there is nothing to do yet, and the same
  // deadline is asked for again.
  lemma EarlyRunIdles(key: Key, e: Entry)
    requires e.expired && e.expiresAt + GRACE < NEVER
    ensures var m := map[key := e];
            var now := e.expiresAt + GRACE;
            Collect(m, now) == m && NextDeadline(m) == now
  {
    var m := map[key := e];
    CollectWorks(m, e.expiresAt + GRACE);
    assert key in m && Candidate(m[key]) == e.expiresAt + GRACE;
    NextIsUnique(m, e.expiresAt + GRACE);
    assert DueKeys(m, e.expiresAt + GRACE) == {};
  }

  function CollectAll(m: Index, clocks: seq<Word>): Index {
    if clocks == [] then m else CollectAll(Collect(m, clocks[0]), clocks[1..])
  }

  // Every collection reads the clock past the deadline the one before asked for.
  ghost predicate Late(m: Index, clocks: seq<Word>)
    decreases |clocks|
  {
    clocks == [] ||
    ((m != map[] ==> NextDeadline(m) < clocks[0]) && Late(Collect(m, clocks[0]), clocks[1..]))
  }

  lemma {:induction false} DrainsWithin(m: Index, clocks: seq<Word>)
    requires NoWrap(m) && Late(m, clocks) && Work(m) <= |clocks|
    ensures CollectAll(m, clocks) == map[]
    decreases |clocks|
  {
    WorkIsAtMostTwice(m);
    if clocks == [] {
    } else {
      var m' := Collect(m, clocks[0]);
      WorkIsAtMostTwice(m');
      if m == map[] {
        assert m' == map[];
      } else {
        LateRunsWork(m, clocks[0]);
      }
      DrainsWithin(m', clocks[1..]);
    }
  }

  // ----- Quotas

  ghost predicate QuotaOn(a: Action, key: Key, c: Change) {
    a.Update? && a.key == key && a.request.attribute == Quota && a.request.change == c
  }

  // What a run admitted on a key, and what it put back.
  ghost function Admitted(v: Width, states: seq<State>, actions: seq<Action>, key: Key, n: nat): nat
    requires IsRun(v, states, actions) && n <= |actions|
  {
    if n == 0 then 0
    else Admitted(v, states, actions, key, n - 1)
         + if QuotaOn(actions[n - 1], key, Decrease) && Step(v, states[n - 1], actions[n - 1]).1
           then actions[n - 1].request.value else 0
  }

  ghost function Refilled(v: Width, states: seq<State>, actions: seq<Action>, key: Key, n: nat): nat
    requires IsRun(v, states, actions) && n <= |actions|
  {
    if n == 0 then 0
    else Refilled(v, states, actions, key, n - 1)
         + if QuotaOn(actions[n - 1], key, Increase) && Step(v, states[n - 1], actions[n - 1]).1
           then actions[n - 1].request.value else 0
  }

  // A counter that stays in the storage, its increases kept within the width of the
  // counter and its value never overwritten by a patch.
  ghost predicate Metered(v: Width, states: seq<State>, actions: seq<Action>, key: Key) {
    && IsRun(v, states, actions)
    && (forall i :: 0 <= i < |states| ==> key in states[i].entries && states[i].entries[key].kind == Counter)
    && (forall i :: 0 <= i < |actions| ==>
          && !QuotaOn(actions[i], key, Patch)
          && (QuotaOn(actions[i], key, Increase) ==>
                states[i].entries[key].counter + actions[i].request.value < Pow256(v)))
  }

  // One step on a counter, in terms of its balance.
  lemma StepOnCounter(v: Width, s: State, a: Action, key: Key)
    requires Enabled(v, s, a) && key in s.entries && s.entries[key].kind == Counter
    requires key in Step(v, s, a).0.entries
    requires QuotaOn(a, key, Increase) ==> s.entries[key].counter + a.request.value < Pow256(v)
    ensures var (s', ok) := Step(v, s, a);
            var c, c' := s.entries[key].counter, s'.entries[key].counter;
            if QuotaOn(a, key, Increase) && ok then c' == c + a.request.value
            else if QuotaOn(a, key, Decrease) && ok then c' == c - a.request.value && a.request.value <= c
            else if QuotaOn(a, key, Patch) && ok then c' == a.request.value
            else c' == c
  {
    match a
    case Update(_, _, _) => UpdateOnCounter(v, s, a, key);
    case Create(_, _, _, _, _, _, _) => CreateKeepsCounters(v, s, a, key);
    case RunCollect(_, _) => CollectAt(s.entries, a.now, key);
    case _ =>
  }

  lemma UpdateOnCounter(v: Width, s: State, a: Action, key: Key)
    requires a.Update? && Enabled(v, s, a) && key in s.entries && s.entries[key].kind == Counter
    requires QuotaOn(a, key, Increase) ==> s.entries[key].counter + a.request.value < Pow256(v)
    ensures var (s', ok) := StepUpdate(v, s, a);
            key in s'.entries &&
            var c, c' := s.entries[key].counter, s'.entries[key].counter;
            if QuotaOn(a, key, Increase) && ok then c' == c + a.request.value
            else if QuotaOn(a, key, Decrease) && ok then c' == c - a.request.value && a.request.value <= c
            else if QuotaOn(a, key, Patch) && ok then c' == a.request.value
            else c' == c
  {
    hide Pow256, Converts, Unit;
    if QuotaOn(a, key, Increase) {
      ModUnique(s.entries[key].counter + a.request.value, Pow256(v), 0, s.entries[key].counter + a.request.value);
    }
  }

  lemma CreateKeepsCounters(v: Width, s: State, a: Action, key: Key)
    requires a.Create? && Enabled(v, s, a) && key in s.entries && s.entries[key].kind == Counter
    ensures key in Step(v, s, a).0.entries && Step(v, s, a).0.entries[key] == s.entries[key]
  {
  }

  // Over any interleaving with other commands and collections, the counter is the exact
  // balance, so no more is ever admitted than was granted.
  lemma {:induction false} NoOverAdmission(v: Width, states: seq<State>, actions: seq<Action>, key: Key, n: nat)
    requires Metered(v, states, actions, key) && n <= |actions|
    ensures states[n].entries[key].counter + Admitted(v, states, actions, key, n)
         == states[0].entries[key].counter + Refilled(v, states, actions, key, n)
    ensures Admitted(v, states, actions, key, n)
         <= states[0].entries[key].counter + Refilled(v, states, actions, key, n)
  {
    hide Step, Enabled, Pow256;
    if n == 0 {
    } else {
      NoOverAdmission(v, states, actions, key, n - 1);
      assert Step(v, states[n - 1], actions[n - 1]).0 == states[n];
      StepOnCounter(v, states[n - 1], actions[n - 1], key);
    }
  }

  // A decrease of a visible counter is refused exactly when it exceeds the balance, and
  // refusing it changes nothing.
  lemma DecreaseRefusedIff(v: Width, states: seq<State>, actions: seq<Action>, key: Key, n: nat)
    requires Metered(v, states, actions, key) && n < |actions|
    requires QuotaOn(actions[n], key, Decrease) && Visible(states[n].entries, key)
    ensures var balance := states[0].entries[key].counter + Refilled(v, states, actions, key, n)
                           - Admitted(v, states, actions, key, n);
            !Step(v, states[n], actions[n]).1 <==> actions[n].request.value > balance
    ensures !Step(v, states[n], actions[n]).1 ==> states[n + 1] == states[n]
  {
    NoOverAdmission(v, states, actions, key, n);
    if !Step(v, states[n], actions[n]).1 {
      var e := states[n].entries[key];
      assert states[n].entries[key := e.(counter := e.counter)] == states[n].entries;
    }
  }

  // Giving back what was taken restores an entry's TTL, on every input, and its quota
  // whenever the first of the two changes was accepted without wrapping.
  lemma UpdatesUndo(v: Width, e: Entry, counter: nat, value: nat, now: Word)
    requires Converts(value, e.ttlType)
    requires counter < Pow256(v) && value < Pow256(v)
    ensures ApplyTtl(ApplyTtl(e, Increase, value, now), Decrease, value, now) == e
    ensures ApplyTtl(ApplyTtl(e, Decrease, value, now), Increase, value, now) == e
    ensures var (less, taken) := ApplyQuota(v, counter, Decrease, value);
            taken ==> ApplyQuota(v, less, Increase, value) == (counter, true)
    ensures var (more, _) := ApplyQuota(v, counter, Increase, value);
            counter + value < Pow256(v) ==> ApplyQuota(v, more, Decrease, value) == (counter, true)
  {
    hide Pow256, Unit;
    ShiftsUndo(e.expiresAt, PatchDuration(value, e.ttlType));
    IncreaseWraps(v, counter, value);
    if counter >= value {
      IncreaseWraps(v, counter - value, value);
    }
  }

  lemma ShiftsUndo(at: Word, d: nat)
    requires d < U64
    ensures Sub64(Add64(at, d), d) == at && Add64(Sub64(at, d), d) == at
  {
  }

  // A command touches no key but its own.
  lemma CommandsKeepOtherKeys(v: Width, s: State, a: Action, key: Key)
    requires Enabled(v, s, a) && (a.Create? || a.Update? || a.Purge? || a.Find?) && !About(a, key)
    ensures var m := Step(v, s, a).0.entries;
            (key in m <==> key in s.entries) && (key in m ==> m[key] == s.entries[key])
  {
  }

  // Without the bound an increase can wrap, and the balance is off by exactly one period.
  lemma IncreaseWraps(v: Width, counter: nat, value: nat)
    requires counter < Pow256(v) && value < Pow256(v)
    ensures ApplyQuota(v, counter, Increase, value).0 ==
            if counter + value < Pow256(v) then counter + value else counter + value - Pow256(v)
  {
    var sum, p := counter + value, Pow256(v);
    if sum < p {
      ModUnique(sum, p, 0, sum);
    } else {
      ModUnique(sum, p, 1, sum - p);
    }
  }
}
