/** The expiring store as a state machine: what every command, timer step and garbage
    collection does to the entries, the expiration timer and the queued wake-ups. */
module Store {
  import opened Bytes
  import opened Entries
  import opened Time
  import opened Wrappers

  // Ten seconds between an entry's expiration and its erasure.
  const GRACE: nat := 10_000_000_000

  // The deadline that stands for "none".
  const NEVER: Word := U64 - 1

  type Index = map<Key, Entry>

  datatype Change = Patch | Increase | Decrease

  datatype Attribute = Quota | Ttl

  datatype Request = Request(attribute: Attribute, change: Change, value: nat)

  // Work posted to the executor.
  datatype Task = Schedule(proposed: Word) | Run

  datatype State = State(entries: Index, timer: Option<Word>, queue: multiset<Task>)

  const INITIAL: State := State(map[], None, multiset{})

  // ----- Updates

  function ApplyQuota(v: Width, counter: nat, change: Change, value: nat): (nat, bool) {
    match change
    case Patch => (value, true)
    case Increase => ((counter + value) % Pow256(v), true)
    case Decrease => if counter >= value then (counter - value, true) else (counter, false)
  }

  function ApplyTtl(e: Entry, change: Change, value: nat, now: Word): Entry
    requires Converts(value, e.ttlType)
  {
    var d := PatchDuration(value, e.ttlType);
    match change
    case Patch => e.(expiresAt := Add64(now, d))
    case Increase => e.(expiresAt := Add64(e.expiresAt, d))
    case Decrease => e.(expiresAt := Sub64(e.expiresAt, d))
  }

  // ----- Garbage collection

  // The subtraction wraps: an entry flagged before its deadline counts as long expired.
  predicate Erased(e: Entry, now: Word) {
    e.expired && Sub64(now, e.expiresAt) > GRACE
  }

  function Marked(e: Entry, now: Word): Entry {
    if !e.expired && e.expiresAt <= now then e.(expired := true) else e
  }

  function Collect(m: Index, now: Word): Index {
    map k | k in m && !Erased(m[k], now) :: Marked(m[k], now)
  }

  // When an entry next needs the collector.
  function Candidate(e: Entry): Word {
    if e.expired then Add64(e.expiresAt, GRACE) else e.expiresAt
  }

  ghost predicate IsNext(m: Index, d: Word) {
    && (forall k :: k in m ==> d <= Candidate(m[k]))
    && (d == NEVER || exists k :: k in m && Candidate(m[k]) == d)
  }

  lemma {:induction false} NextExists(m: Index)
    ensures exists d: Word :: IsNext(m, d)
    decreases |m|
  {
    if m == map[] {
      assert IsNext(m, NEVER);
    } else {
      var k :| k in m;
      var rest := m - {k};
      assert |rest| < |m| by {
        assert m.Keys == rest.Keys + {k};
      }
      NextExists(rest);
      var d: Word :| IsNext(rest, d);
      var c := Candidate(m[k]);
      if c < d {
        assert IsNext(m, c);
      } else {
        assert d == NEVER || exists j :: j in rest && Candidate(rest[j]) == d;
        assert IsNext(m, d);
      }
    }
  }

  ghost function NextDeadline(m: Index): (d: Word)
    ensures IsNext(m, d)
  {
    NextExists(m);
    var d: Word :| IsNext(m, d);
    d
  }

  lemma NextIsUnique(m: Index, d: Word)
    requires IsNext(m, d)
    ensures d == NextDeadline(m)
  {
  }

  // ----- The machine

  // schedule_timer, for a deadline that may already have passed on its own clock.
  function Scheduled(s: State, proposed: Word, clock: Word): State {
    if proposed <= clock then s.(queue := s.queue + multiset{Run})
    else s.(timer := Some(proposed))
  }

  datatype Action =
    // INSERT and SET; `first` is the first unflagged entry in the order of the index
    | Create(key: Key, kind: EntryType, value: seq<Byte>, ttlType: TtlType, expiresAt: Word,
             asInsert: bool, first: Key)
    | Update(key: Key, request: Request, now: Word)
    | Purge(key: Key)
    // QUERY and GET
    | Find(key: Key)
    // the expiration timer goes off and its handler is queued
    | Fire
    // a queued schedule_timer runs
    | RunSchedule(proposed: Word, clock: Word)
    // a queued collection runs, reading the clock at `now` and again when it re-arms the timer
    | RunCollect(now: Word, clock: Word)

  predicate Visible(m: Index, key: Key) {
    key in m && !m[key].expired
  }

  // SET on a key that already holds something other than a counter.
  predicate SetsAgain(m: Index, a: Action)
    requires a.Create?
  {
    !a.asInsert && a.key in m && m[a.key].kind != Counter
  }

  function Inserted(v: Width, m: Index, a: Action): Index
    requires a.Create? && (a.kind != Raw ==> |a.value| >= v)
  {
    m[a.key := NewEntry(v, a.kind, a.value, a.ttlType, a.expiresAt)]
  }

  ghost predicate Enabled(v: Width, s: State, a: Action) {
    match a
    case Create(key, kind, value, _, _, _, first) =>
      && (kind != Raw ==> |value| >= v)
      && (key !in s.entries ==> Visible(Inserted(v, s.entries, a), first))
    case Update(key, request, _) =>
      request.attribute == Ttl && Visible(s.entries, key) ==> Converts(request.value, s.entries[key].ttlType)
    case Fire => s.timer.Some?
    case RunSchedule(proposed, _) => Schedule(proposed) in s.queue
    case RunCollect(_, _) => Run in s.queue
    case _ => true
  }

  ghost function StepCreate(v: Width, s: State, a: Action): (State, bool)
    requires a.Create? && Enabled(v, s, a)
  {
    if SetsAgain(s.entries, a) then
      var e := s.entries[a.key].(buffer := a.value, expiresAt := a.expiresAt, ttlType := a.ttlType);
      (s.(entries := s.entries[a.key := e]), true)
    else if a.key in s.entries then
      (s, false)
    else
      var m := Inserted(v, s.entries, a);
      var wake := if a.expiresAt <= m[a.first].expiresAt then multiset{Schedule(a.expiresAt)} else multiset{};
      (s.(entries := m, queue := s.queue + wake), true)
  }

  ghost function StepUpdate(v: Width, s: State, a: Action): (State, bool)
    requires a.Update? && Enabled(v, s, a)
  {
    if !Visible(s.entries, a.key) then (s, false)
    else
      var e := s.entries[a.key];
      match a.request.attribute
      case Quota =>
        if e.kind != Counter then (s, false)
        else
          var (c, ok) := ApplyQuota(v, e.counter, a.request.change, a.request.value);
          (s.(entries := s.entries[a.key := e.(counter := c)]), ok)
      case Ttl =>
        var e' := ApplyTtl(e, a.request.change, a.request.value, a.now);
        // the scheduled key is never set, so only the empty key matches it
        var wake := if a.key == [] then multiset{Schedule(e'.expiresAt)} else multiset{};
        (s.(entries := s.entries[a.key := e'], queue := s.queue + wake), true)
  }

  ghost function StepCollect(s: State, now: Word, clock: Word): State {
    var m := Collect(s.entries, now);
    var next := NextDeadline(m);
    var s' := s.(entries := m);
    if next == NEVER then s' else Scheduled(s', next, clock)
  }

  // The new state and the reply; steps that are not commands reply true.
  ghost function Step(v: Width, s: State, a: Action): (State, bool)
    requires Enabled(v, s, a)
  {
    match a
    case Create(_, _, _, _, _, _, _) => StepCreate(v, s, a)
    case Update(_, _, _) => StepUpdate(v, s, a)
    case Purge(key) =>
      if Visible(s.entries, key) then (s.(entries := s.entries - {key}), true) else (s, false)
    case Find(key) => (s, Visible(s.entries, key))
    case Fire => (s.(timer := None, queue := s.queue + multiset{Run}), true)
    case RunSchedule(proposed, clock) =>
      (Scheduled(s.(queue := s.queue - multiset{Schedule(proposed)}), proposed, clock), true)
    case RunCollect(now, clock) =>
      (StepCollect(s.(queue := s.queue - multiset{Run}), now, clock), true)
  }

  // A run: the states and, between them, the actions.
  ghost predicate IsRun(v: Width, states: seq<State>, actions: seq<Action>) {
    && |states| == |actions| + 1
    && forall i :: 0 <= i < |actions| ==>
         Enabled(v, states[i], actions[i]) && Step(v, states[i], actions[i]).0 == states[i + 1]
  }
}
