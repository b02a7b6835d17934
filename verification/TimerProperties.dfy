/** What the expiration timer keeps: which steps leave every deadline with a wake-up in
    time, and how the collections it wakes empty the storage. */
module TimerProperties {
  import opened Bytes
  import opened Entries
  import opened Time
  import opened Wrappers
  import opened Store
  import opened StoreProperties

  // ----- Deadlines and wake-ups

  // Some wake-up comes no later than d.
  ghost predicate WakesBy(s: State, d: Word) {
    || (s.timer.Some? && s.timer.value <= d)
    || Run in s.queue
    || exists p: Word :: Schedule(p) in s.queue && p <= d
  }

  ghost predicate Covered(s: State) {
    forall k :: k in s.entries ==> WakesBy(s, Candidate(s.entries[k]))
  }

  // With nothing queued, being covered means that the timer stands no later than the
  // earliest deadline.
  lemma CoveredAtRest(s: State)
    requires s.queue == multiset{}
    ensures Covered(s) <==> s.entries == map[] || (s.timer.Some? && s.timer.value <= NextDeadline(s.entries))
  {
    var d := NextDeadline(s.entries);
    if Covered(s) && s.entries != map[] {
      var k :| k in s.entries && (d == NEVER || Candidate(s.entries[k]) == d);
      assert WakesBy(s, Candidate(s.entries[k]));
    }
  }

  // What each step asks of the state before it: a deadline that moves must still have a
  // wake-up in time, a proposal must not replace a timer that an earlier deadline relied
  // on, and a collection must not leave entries to nobody.
  ghost predicate KeepsCover(v: Width, s: State, a: Action)
    requires Enabled(v, s, a)
  {
    match a
    case Create(key, _, _, _, at, _, _) =>
      SetsAgain(s.entries, a) ==> WakesBy(s, if s.entries[key].expired then Add64(at, GRACE) else at)
    case Update(key, request, now) =>
      request.attribute == Ttl && Visible(s.entries, key) && key != [] ==>
        WakesBy(s, ApplyTtl(s.entries[key], request.change, request.value, now).expiresAt)
    case RunSchedule(p, clock) =>
      || p <= clock
      || forall k :: k in s.entries && Candidate(s.entries[k]) < p ==>
           WakesBy(s.(timer := None), Candidate(s.entries[k]))
    case RunCollect(now, _) =>
      var m := Collect(s.entries, now);
      || m == map[]
      || (exists k :: k in m && Candidate(m[k]) != NEVER)
      || s.timer.Some?
      || s.queue - multiset{Run} != multiset{}
    case _ => true
  }

  // More wake-ups serve every deadline that fewer do.
  lemma WakesMore(s: State, s': State, d: Word)
    requires s'.timer == s.timer && s.queue <= s'.queue && WakesBy(s, d)
    ensures WakesBy(s', d)
  {
    if !(s.timer.Some? && s.timer.value <= d) && Run !in s.queue {
      var p: Word :| Schedule(p) in s.queue && p <= d;
      assert Schedule(p) in s'.queue;
    }
  }

  lemma CreateCovers(v: Width, s: State, a: Action)
    requires a.Create? && Enabled(v, s, a) && Covered(s)
    ensures Covered(Step(v, s, a).0) <==> KeepsCover(v, s, a)
  {
    hide WakesBy;
    var s' := Step(v, s, a).0;
    forall d: Word | WakesBy(s, d) ensures WakesBy(s', d) {
      WakesMore(s, s', d);
    }
    if SetsAgain(s.entries, a) {
      SameWakes(s, s');
      var late := s.entries[a.key].expired;
      assert Candidate(s'.entries[a.key]) == if late then Add64(a.expiresAt, GRACE) else a.expiresAt;
    } else if a.key !in s.entries {
      NewDeadlineCovered(v, s, a);
    }
  }

  lemma SameWakes(s: State, s': State)
    requires s'.timer == s.timer && s'.queue == s.queue
    ensures forall d: Word :: WakesBy(s', d) <==> WakesBy(s, d)
  {
  }

  // A create that does not ask for a wake-up was compared with an entry that has one no
  // later.
  lemma NewDeadlineCovered(v: Width, s: State, a: Action)
    requires a.Create? && Enabled(v, s, a) && Covered(s) && a.key !in s.entries
    ensures WakesBy(Step(v, s, a).0, a.expiresAt)
  {
    var s' := Step(v, s, a).0;
    var d := s'.entries[a.first].expiresAt;
    if a.expiresAt <= d {
      assert Schedule(a.expiresAt) in s'.queue;
    } else {
      assert a.first in s.entries && WakesBy(s, d);
      WakesMore(s, s', d);
    }
  }

  lemma UpdateCovers(v: Width, s: State, a: Action)
    requires a.Update? && Enabled(v, s, a) && Covered(s)
    ensures Covered(Step(v, s, a).0) <==> KeepsCover(v, s, a)
  {
    hide WakesBy, Converts, Unit;
    var s' := Step(v, s, a).0;
    forall d: Word | WakesBy(s, d) ensures WakesBy(s', d) {
      WakesMore(s, s', d);
    }
    if Visible(s.entries, a.key) && a.request.attribute == Ttl {
      var at := ApplyTtl(s.entries[a.key], a.request.change, a.request.value, a.now).expiresAt;
      assert Candidate(s'.entries[a.key]) == at;
      if a.key == [] {
        assert Schedule(at) in s'.queue;
        Proposed(s', at);
      } else {
        assert s.queue + multiset{} == s.queue;
        SameWakes(s, s');
      }
    }
  }

  lemma Proposed(s: State, d: Word)
    requires Schedule(d) in s.queue
    ensures WakesBy(s, d)
  {
  }

  // A proposal ahead replaces the timer, whatever it stood at.
  lemma ScheduleCovers(v: Width, s: State, a: Action)
    requires a.RunSchedule? && Enabled(v, s, a) && Covered(s)
    ensures Covered(Step(v, s, a).0) <==> KeepsCover(v, s, a)
  {
    var s', p := Step(v, s, a).0, a.proposed;
    if p <= a.clock {
      assert Run in s'.queue;
    } else {
      forall d: Word ensures WakesBy(s', d) <==> p <= d || WakesBy(s.(timer := None), d) {
        forall t: Task | t != Schedule(p) ensures t in s'.queue <==> t in s.queue {}
      }
    }
  }

  // A collection leaves every deadline covered, whatever was covered before, unless it
  // leaves entries, no deadline but the largest value, and nothing else that wakes up.
  lemma CollectCovers(v: Width, s: State, a: Action)
    requires a.RunCollect? && Enabled(v, s, a)
    ensures Covered(Step(v, s, a).0) <==> KeepsCover(v, s, a)
  {
    hide Sub64, Erased, Marked;
    var s' := Step(v, s, a).0;
    CollectAnchoredIff(v, s, a);
    var next := NextDeadline(s'.entries);
    if next == NEVER {
      forall k | k in s'.entries ensures Candidate(s'.entries[k]) == NEVER {}
      AwakeIsEnough(s');
    } else if next <= a.clock {
      assert Run in s'.queue;
    }
  }

  lemma AwakeIsEnough(s: State)
    ensures WakesBy(s, NEVER) <==> Awake(s)
  {
    if s.queue != multiset{} {
      var t :| t in s.queue;
      assert t == Run || Schedule(t.proposed) in s.queue;
    }
  }

  // Every step keeps all deadlines covered exactly when it meets its condition: creates of
  // absent keys, refusals, purges, lookups and the timer going off always do.
  lemma StepCoversIff(v: Width, s: State, a: Action)
    requires Enabled(v, s, a) && Covered(s)
    ensures Covered(Step(v, s, a).0) <==> KeepsCover(v, s, a)
    ensures a.Purge? || a.Find? || a.Fire? || (a.Create? && a.key !in s.entries) ==> Covered(Step(v, s, a).0)
  {
    match a
    case Create(_, _, _, _, _, _, _) => CreateCovers(v, s, a);
    case Update(_, _, _) => UpdateCovers(v, s, a);
    case RunSchedule(_, _) => ScheduleCovers(v, s, a);
    case RunCollect(_, _) => CollectCovers(v, s, a);
    case Fire => assert Run in Step(v, s, a).0.queue;
    case _ =>
  }

  // So a run from covered storage, empty storage included, stays covered in every state
  // exactly when each of its steps meets its condition.
  lemma CoveredThroughoutIff(v: Width, states: seq<State>, actions: seq<Action>)
    requires IsRun(v, states, actions) && Covered(states[0])
    ensures (forall i :: 0 <= i < |states| ==> Covered(states[i])) <==>
            (forall i :: 0 <= i < |actions| ==> KeepsCover(v, states[i], actions[i]))
  {
    hide Covered, KeepsCover, Step, Enabled;
    forall i | 0 <= i < |actions| && Covered(states[i])
      ensures Covered(states[i + 1]) <==> KeepsCover(v, states[i], actions[i])
    {
      assert Step(v, states[i], actions[i]).0 == states[i + 1];
      StepCoversIff(v, states[i], actions[i]);
    }
    if forall i :: 0 <= i < |actions| ==> KeepsCover(v, states[i], actions[i]) {
      for i := 0 to |actions|
        invariant forall j :: 0 <= j <= i ==> Covered(states[j])
      {
        assert KeepsCover(v, states[i], actions[i]);
      }
    } else {
      var i :| 0 <= i < |actions| && !KeepsCover(v, states[i], actions[i]);
      assert Covered(states[i]) ==> !Covered(states[i + 1]);
    }
  }

  // A collection asks for another one straight away exactly when an entry it leaves is
  // already due by the second reading of the clock.
  lemma CollectRunsAgainIff(s: State, now: Word, clock: Word)
    ensures var s' := StepCollect(s, now, clock);
            s'.queue == s.queue + multiset{Run} <==>
            exists k :: k in s'.entries && Candidate(s'.entries[k]) <= clock && Candidate(s'.entries[k]) != NEVER
  {
  }

  // Right after a collection: another one is queued when an entry it left is already due,
  // and otherwise the timer stands at exactly the earliest deadline it left, if it left any.
  lemma TimerExactAfterCollect(v: Width, s: State, a: Action)
    requires a.RunCollect? && Enabled(v, s, a)
    ensures var s' := Step(v, s, a).0;
            var left := s.queue - multiset{Run};
            if exists k :: k in s'.entries && Candidate(s'.entries[k]) <= a.clock && Candidate(s'.entries[k]) != NEVER
            then s'.queue == left + multiset{Run} && s'.timer == s.timer
            else if exists k :: k in s'.entries && Candidate(s'.entries[k]) != NEVER
            then s'.queue == left && s'.timer.Some? && a.clock < s'.timer.value && IsNext(s'.entries, s'.timer.value)
            else s'.queue == left && s'.timer == s.timer
  {
  }

  // Steps of the timer alone, with no command in between.
  ghost predicate TimerOnly(actions: seq<Action>) {
    forall a :: a in actions ==> a.Fire? || a.RunSchedule? || a.RunCollect?
  }

  ghost function Clocks(actions: seq<Action>): seq<Word> {
    if actions == [] then []
    else (if actions[0].RunCollect? then [actions[0].now] else []) + Clocks(actions[1..])
  }

  lemma RunTail(v: Width, states: seq<State>, actions: seq<Action>)
    requires IsRun(v, states, actions) && actions != []
    ensures IsRun(v, states[1..], actions[1..])
  {
  }

  lemma {:induction false} TimerOnlyCollects(v: Width, states: seq<State>, actions: seq<Action>)
    requires IsRun(v, states, actions) && TimerOnly(actions)
    ensures states[|actions|].entries == CollectAll(states[0].entries, Clocks(actions))
    decreases |actions|
  {
    if actions == [] {
    } else {
      var a := actions[0];
      assert a in actions;
      StepOfTimer(v, states[0], a);
      RunTail(v, states, actions);
      hide Step, Enabled, Collect;
      TimerOnlyCollects(v, states[1..], actions[1..]);
      if a.RunCollect? {
        assert Clocks(actions)[0] == a.now && Clocks(actions)[1..] == Clocks(actions[1..]);
      } else {
        assert [] + Clocks(actions[1..]) == Clocks(actions[1..]);
      }
    }
  }

  // No deadline, nor the erasure that follows it, reaches the value that stands for "none".
  ghost predicate Clear(m: Index) {
    forall k :: k in m ==> m[k].expiresAt + GRACE < NEVER
  }

  lemma CollectKeepsClear(m: Index, now: Word)
    requires Clear(m)
    ensures Clear(Collect(m, now)) && NoWrap(m)
    ensures m != map[] ==> NextDeadline(m) != NEVER
  {
    if m != map[] {
      var k :| k in m;
      assert NextDeadline(m) <= Candidate(m[k]);
    }
  }

  // What the collection between two states was followed by: the deadline at which it left
  // the timer armed or, when it asked for another collection at once, its own last reading
  // of the clock.
  function WokenFor(s: State, a: Action, s': State): Word
    requires a.RunCollect?
  {
    if s'.queue == s.queue - multiset{Run} && s'.timer.Some? then s'.timer.value else a.clock
  }

  // Each collection of what storage is left reads the clock past what the one before it
  // was followed by; of the first, only past `woken`, if anything.
  ghost predicate Punctual(states: seq<State>, actions: seq<Action>, woken: Option<Word>)
    requires |states| == |actions| + 1
    decreases |actions|
  {
    actions == [] ||
    if actions[0].RunCollect? then
      && (states[0].entries != map[] && woken.Some? ==> woken.value < actions[0].now)
      && Punctual(states[1..], actions[1..], Some(WokenFor(states[0], actions[0], states[1])))
    else
      Punctual(states[1..], actions[1..], woken)
  }

  lemma CollectionWakes(v: Width, s: State, a: Action)
    requires a.RunCollect? && Enabled(v, s, a) && Clear(s.entries)
    ensures var s' := Step(v, s, a).0;
            s'.entries != map[] ==> NextDeadline(s'.entries) <= WokenFor(s, a, s')
  {
    var s' := Step(v, s, a).0;
    CollectKeepsClear(s.entries, a.now);
    CollectKeepsClear(s'.entries, a.now);
    if s'.entries != map[] && NextDeadline(s'.entries) <= a.clock {
      assert s'.queue[Run] == s.queue[Run];
    }
  }

  // Collections past the timer armed by the one before them are past the deadline that
  // the storage needs them for.
  lemma {:induction false} PunctualIsLate(v: Width, states: seq<State>, actions: seq<Action>, woken: Word)
    requires IsRun(v, states, actions) && TimerOnly(actions) && Clear(states[0].entries)
    requires Punctual(states, actions, Some(woken))
    requires states[0].entries != map[] ==> NextDeadline(states[0].entries) <= woken
    ensures Late(states[0].entries, Clocks(actions))
    decreases |actions|
  {
    if actions == [] {
    } else {
      var a := actions[0];
      assert a in actions;
      StepOfTimer(v, states[0], a);
      RunTail(v, states, actions);
      assert Step(v, states[0], a).0 == states[1];
      if a.RunCollect? {
        CollectionWakes(v, states[0], a);
        CollectKeepsClear(states[0].entries, a.now);
        hide Step, Enabled, Collect, Clear, WokenFor;
        PunctualIsLate(v, states[1..], actions[1..], WokenFor(states[0], a, states[1]));
        assert Clocks(actions)[0] == a.now && Clocks(actions)[1..] == Clocks(actions[1..]);
      } else {
        hide Step, Enabled, Collect, Clear, WokenFor;
        PunctualIsLate(v, states[1..], actions[1..], woken);
        assert [] + Clocks(actions[1..]) == Clocks(actions[1..]);
      }
    }
  }

  lemma PunctualDrains(v: Width, states: seq<State>, actions: seq<Action>, woken: Word)
    requires IsRun(v, states, actions) && TimerOnly(actions) && Clear(states[0].entries)
    requires Punctual(states, actions, Some(woken))
    requires states[0].entries != map[] ==> NextDeadline(states[0].entries) <= woken
    requires Work(states[0].entries) <= |Clocks(actions)|
    ensures states[|actions|].entries == map[]
  {
    var m := states[0].entries;
    PunctualIsLate(v, states, actions, woken);
    CollectKeepsClear(m, 0);
    TimerOnlyCollects(v, states, actions);
    hide IsRun, TimerOnly, Clear, Punctual, Late, Work, Clocks, Collect, NoWrap;
    DrainsWithin(m, Clocks(actions));
  }

  // From a timer armed no earlier than the first deadline, a storage of n entries is empty
  // after at most 2n collections, each past the timer that woke it.
  lemma ArmedStorageDrains(v: Width, states: seq<State>, actions: seq<Action>)
    requires IsRun(v, states, actions) && TimerOnly(actions) && Clear(states[0].entries)
    requires states[0].timer.Some? && NextDeadline(states[0].entries) <= states[0].timer.value
    requires Punctual(states, actions, states[0].timer)
    requires 2 * |states[0].entries| <= |Clocks(actions)|
    ensures states[|actions|].entries == map[]
  {
    WorkIsAtMostTwice(states[0].entries);
    PunctualDrains(v, states, actions, states[0].timer.value);
  }

  // What a first collection leaves to the rest of the run.
  lemma AfterFirst(v: Width, states: seq<State>, actions: seq<Action>)
    requires IsRun(v, states, actions) && actions != [] && actions[0].RunCollect?
    requires TimerOnly(actions) && Clear(states[0].entries) && Punctual(states, actions, None)
    ensures var m, m', woken := states[0].entries, states[1].entries, WokenFor(states[0], actions[0], states[1]);
            && Clear(m') && Work(m') <= 2 * |m|
            && (m' != map[] ==> NextDeadline(m') <= woken)
            && TimerOnly(actions[1..]) && Punctual(states[1..], actions[1..], Some(woken))
            && |Clocks(actions)| == 1 + |Clocks(actions[1..])|
  {
    var a, m := actions[0], states[0].entries;
    assert a in actions;
    assert Step(v, states[0], a).0 == states[1];
    StepOfTimer(v, states[0], a);
    CollectionWakes(v, states[0], a);
    hide Step, Enabled, Collect, Clear, WokenFor, Work, IsRun, NextDeadline;
    CollectKeepsClear(m, a.now);
    CollectWorks(m, a.now);
    WorkIsAtMostTwice(m);
  }

  // From any timer and any queue, one collection more is enough: the first may come at any
  // time, and each other is past the timer armed by the one before.
  lemma {:induction false} StorageDrains(v: Width, states: seq<State>, actions: seq<Action>)
    requires IsRun(v, states, actions) && TimerOnly(actions) && Clear(states[0].entries)
    requires Punctual(states, actions, None)
    requires 2 * |states[0].entries| + 1 <= |Clocks(actions)|
    ensures states[|actions|].entries == map[]
    decreases |actions|
  {
    if actions[0].RunCollect? {
      AfterFirst(v, states, actions);
      RunTail(v, states, actions);
      PunctualDrains(v, states[1..], actions[1..], WokenFor(states[0], actions[0], states[1]));
    } else {
      assert actions[0] in actions;
      StepOfTimer(v, states[0], actions[0]);
      RunTail(v, states, actions);
      hide Step, Enabled, Collect, Clear, WokenFor;
      assert [] + Clocks(actions[1..]) == Clocks(actions[1..]);
      StorageDrains(v, states[1..], actions[1..]);
    }
  }
}
