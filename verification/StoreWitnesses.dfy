/** Runs from empty storage that reach the states in which the store does less than a
    reader may expect. */
module StoreWitnesses {
  import opened Bytes
  import opened Entries
  import opened Time
  import opened Wrappers
  import opened Store
  import opened StoreProperties
  import opened TimerProperties

  // SET of an empty buffer with a deadline.
  function Put(key: Key, at: Word, first: Key): Action {
    Create(key, Raw, [], Nanoseconds, at, false, first)
  }

  function Stored(v: Width, at: Word): Entry {
    NewEntry(v, Raw, [], Nanoseconds, at)
  }

  lemma StoredAt(v: Width, at: Word)
    ensures !Stored(v, at).expired && Stored(v, at).expiresAt == at
  {
  }

  lemma Empty(v: Width)
    ensures Reaches(v, [INITIAL], [], INITIAL)
  {
  }

  lemma PutWakes(v: Width, s: State, key: Key, at: Word, first: Key)
    requires key !in s.entries
    requires var m := s.entries[key := Stored(v, at)];
             Visible(m, first) && at <= m[first].expiresAt
    ensures Enabled(v, s, Put(key, at, first))
    ensures Step(v, s, Put(key, at, first)).0
         == State(s.entries[key := Stored(v, at)], s.timer, s.queue + multiset{Schedule(at)})
  {
  }

  lemma ScheduleArms(v: Width, s: State, at: Word, clock: Word)
    requires Schedule(at) in s.queue && clock < at
    ensures Enabled(v, s, RunSchedule(at, clock))
    ensures Step(v, s, RunSchedule(at, clock)).0 == State(s.entries, Some(at), s.queue - multiset{Schedule(at)})
  {
  }

  // A run that starts from empty storage and ends in s.
  ghost predicate Reaches(v: Width, states: seq<State>, actions: seq<Action>, s: State) {
    IsRun(v, states, actions) && states[0] == INITIAL && states[|actions|] == s
  }

  lemma Extended(v: Width, states: seq<State>, actions: seq<Action>, s: State, a: Action, s': State)
    requires Reaches(v, states, actions, s)
    requires Enabled(v, s, a) && Step(v, s, a).0 == s'
    ensures Reaches(v, states + [s'], actions + [a], s')
  {
  }

  lemma PutRun(v: Width, states: seq<State>, actions: seq<Action>, s: State, key: Key, at: Word, first: Key)
    returns (states': seq<State>, actions': seq<Action>)
    requires Reaches(v, states, actions, s) && key !in s.entries
    requires var m := s.entries[key := Stored(v, at)];
             Visible(m, first) && at <= m[first].expiresAt
    ensures Reaches(v, states', actions',
                    State(s.entries[key := Stored(v, at)], s.timer, s.queue + multiset{Schedule(at)}))
  {
    PutWakes(v, s, key, at, first);
    var s' := Step(v, s, Put(key, at, first)).0;
    Extended(v, states, actions, s, Put(key, at, first), s');
    states', actions' := states + [s'], actions + [Put(key, at, first)];
  }

  lemma ScheduleRun(v: Width, states: seq<State>, actions: seq<Action>, s: State, at: Word, clock: Word)
    returns (states': seq<State>, actions': seq<Action>)
    requires Reaches(v, states, actions, s) && Schedule(at) in s.queue && clock < at
    ensures Reaches(v, states', actions', State(s.entries, Some(at), s.queue - multiset{Schedule(at)}))
  {
    ScheduleArms(v, s, at, clock);
    var s' := Step(v, s, RunSchedule(at, clock)).0;
    Extended(v, states, actions, s, RunSchedule(at, clock), s');
    states', actions' := states + [s'], actions + [RunSchedule(at, clock)];
  }

  // Three entries with deadlines 100, 10 and 50, each compared with the first unflagged
  // one, and their wake-ups taken in order.
  const THREE: multiset<Task> := multiset{} + multiset{Schedule(100)} + multiset{Schedule(10)} + multiset{Schedule(50)}

  function Three(v: Width): Index {
    map[][[3] := Stored(v, 100)][[1] := Stored(v, 10)][[2] := Stored(v, 50)]
  }

  lemma ThreeEntries(v: Width) returns (states: seq<State>, actions: seq<Action>)
    ensures Reaches(v, states, actions, State(Three(v), None, THREE))
  {
    hide Stored, Reaches;
    StoredAt(v, 10);
    StoredAt(v, 50);
    StoredAt(v, 100);
    Empty(v);
    var k1: Key, k2: Key, k3: Key := [1], [2], [3];
    var q: multiset<Task> := multiset{};
    var m: Index := map[];
    states, actions := PutRun(v, [INITIAL], [], INITIAL, k3, 100, k3);
    m, q := m[k3 := Stored(v, 100)], q + multiset{Schedule(100)};
    states, actions := PutRun(v, states, actions, State(m, None, q), k1, 10, k3);
    m, q := m[k1 := Stored(v, 10)], q + multiset{Schedule(10)};
    states, actions := PutRun(v, states, actions, State(m, None, q), k2, 50, k3);
  }

  lemma TwoWakeUps(v: Width) returns (states: seq<State>, actions: seq<Action>)
    ensures Reaches(v, states, actions, State(Three(v), Some(10), multiset{Schedule(50)}))
  {
    states, actions := ThreeEntries(v);
    hide Reaches, Three;
    var q := THREE - multiset{Schedule(100)};
    states, actions := ScheduleRun(v, states, actions, State(Three(v), None, THREE), 100, 5);
    states, actions := ScheduleRun(v, states, actions, State(Three(v), Some(100), q), 10, 5);
    assert q - multiset{Schedule(10)} == multiset{Schedule(50)};
  }

  // The last wake-up replaces the timer that stood at the earliest deadline.
  lemma ReplacedTimer(v: Width) returns (states: seq<State>, actions: seq<Action>, s: State)
    ensures Reaches(v, states, actions, s) && LosesCover(v, s, RunSchedule(50, 5))
    ensures var s' := Step(v, s, RunSchedule(50, 5)).0;
            && s'.timer == Some(50) && s'.queue == multiset{}
            && Visible(s'.entries, [1]) && s'.entries[[1]].expiresAt == 10
  {
    states, actions := TwoWakeUps(v);
    hide Reaches, Stored;
    StoredAt(v, 10);
    StoredAt(v, 50);
    StoredAt(v, 100);
    s := State(Three(v), Some(10), multiset{Schedule(50)});
    ScheduleArms(v, s, 50, 5);
    assert Covered(s);
    assert s.queue - multiset{Schedule(50)} == multiset{};
    var s', k1: Key := Step(v, s, RunSchedule(50, 5)).0, [1];
    assert k1 in s'.entries && Candidate(s'.entries[k1]) == 10 && !WakesBy(s', 10);
  }

  ghost predicate LosesCover(v: Width, s: State, a: Action) {
    Enabled(v, s, a) && Step(v, s, a).1 && Covered(s) && !Covered(Step(v, s, a).0)
  }

  // One entry with its timer armed.
  lemma OneEntry(v: Width) returns (states: seq<State>, actions: seq<Action>)
    ensures Reaches(v, states, actions, State(map[[1] := Stored(v, 100)], Some(100), multiset{}))
  {
    hide Reaches;
    Empty(v);
    states, actions := PutRun(v, [INITIAL], [], INITIAL, [1], 100, [1]);
    var m: Index := map[[1] := Stored(v, 100)];
    assert INITIAL.entries[[1] := Stored(v, 100)] == m;
    assert multiset{} + multiset{Schedule(100)} == multiset{Schedule(100)};
    states, actions := ScheduleRun(v, states, actions, State(m, None, multiset{Schedule(100)}), 100, 5);
    assert multiset{Schedule(100)} - multiset{Schedule(100)} == multiset{};
  }

  // A TTL decrease and a second SET each move its deadline to 50 and leave the timer at 100.
  lemma MovedDeadlines(v: Width) returns (states: seq<State>, actions: seq<Action>, s: State)
    ensures Reaches(v, states, actions, s)
    ensures LosesCover(v, s, Update([1], Request(Ttl, Decrease, 50), 5))
    ensures LosesCover(v, s, Put([1], 50, [1]))
  {
    states, actions := OneEntry(v);
    s := State(map[[1] := Stored(v, 100)], Some(100), multiset{});
    hide Reaches;
    assert Covered(s) && !WakesBy(s, 50);
    StepCoversIff(v, s, Update([1], Request(Ttl, Decrease, 50), 5));
    StepCoversIff(v, s, Put([1], 50, [1]));
  }

  // A collection past its deadline flags an entry.
  lemma CollectFlags(v: Width)
    ensures var live, dead := map[[1] := Stored(v, 10)], map[[1] := Stored(v, 10).(expired := true)];
            var s := State(live, None, multiset{Run});
            && Enabled(v, s, RunCollect(20, 21))
            && Step(v, s, RunCollect(20, 21)).0 == State(dead, Some(10 + GRACE), multiset{})
  {
    hide Stored;
    StoredAt(v, 10);
    var k: Key := [1];
    var live, dead := map[k := Stored(v, 10)], map[k := Stored(v, 10).(expired := true)];
    assert Collect(live, 20) == dead;
    assert Candidate(dead[k]) == 10 + GRACE;
    NextIsUnique(dead, 10 + GRACE);
    assert multiset{Run} - multiset{Run} == multiset{};
  }

  lemma OneTombstone(v: Width) returns (states: seq<State>, actions: seq<Action>)
    ensures Reaches(v, states, actions,
                    State(map[[1] := Stored(v, 10).(expired := true)], Some(10 + GRACE), multiset{}))
  {
    hide Reaches;
    Empty(v);
    var live: Index := map[[1] := Stored(v, 10)];
    var s1, s2 := State(live, None, multiset{Schedule(10)}), State(live, None, multiset{Run});
    assert INITIAL.entries[[1] := Stored(v, 10)] == live;
    assert multiset{} + multiset{Schedule(10)} == multiset{Schedule(10)};
    states, actions := PutRun(v, [INITIAL], [], INITIAL, [1], 10, [1]);
    assert multiset{Schedule(10)} - multiset{Schedule(10)} + multiset{Run} == multiset{Run};
    assert Step(v, s1, RunSchedule(10, 20)).0 == s2;
    Extended(v, states, actions, s1, RunSchedule(10, 20), s2);
    states, actions := states + [s2], actions + [RunSchedule(10, 20)];
    CollectFlags(v);
    hide Step, Enabled, Stored;
    var s3 := State(map[[1] := Stored(v, 10).(expired := true)], Some(10 + GRACE), multiset{});
    Extended(v, states, actions, s2, RunCollect(20, 21), s3);
    states, actions := states + [s3], actions + [RunCollect(20, 21)];
  }

  // Set again, it is answered with yes and stays invisible; its new deadline lies ahead,
  // but the next collection erases it, so that two collections do not settle the storage.
  lemma SetOverTombstone(v: Width) returns (states: seq<State>, actions: seq<Action>, s: State)
    ensures Reaches(v, states, actions, s) && Enabled(v, s, Put([1], 100, [1]))
    ensures var (s', ok) := Step(v, s, Put([1], 100, [1]));
            var m := s'.entries;
            && ok && [1] in m && 30 < m[[1]].expiresAt
            && !Visible(m, [1]) && [1] !in Collect(m, 30)
            && Collect(Collect(m, 30), 30) != Settled(m, 30)
  {
    states, actions := OneTombstone(v);
    s := State(map[[1] := Stored(v, 10).(expired := true)], Some(10 + GRACE), multiset{});
    hide Reaches;
    SetOverTombstoneIsLost(v, s, Put([1], 100, [1]), 30);
    var m := Step(v, s, Put([1], 100, [1])).0.entries;
    TwoRunsSettle(m, 30);
    assert m[[1]].expired && 30 < m[[1]].expiresAt;
  }
}
