/** The CHANNELS response: one record for each channel that has subscriptions. */
module ChannelsResponse {
  import opened Bytes
  import opened Entries
  import opened Messages
  import opened Packing
  import opened Wrappers
  import Codec = FragmentCodec

  const MAX_FRAGMENT: nat := 2048
  const PER_FRAGMENT: nat := 81

  // What the fragmenter counts for a channel: its metadata, not its name.
  const CHANNEL: nat := 1 + 8 + 8 + 8

  // A subscription, with the byte accumulators of its metrics.
  datatype Sub = Sub(channel: Key, readBytes: Word, writeBytes: Word)

  datatype Stat = Stat(name: Key, readSum: Word, writeSum: Word, connections: nat)

  // The order of an index sorted by channel: equal channels are adjacent.
  ghost predicate Grouped(subs: seq<Sub>) {
    forall i, j, k :: 0 <= i < j < k < |subs| && subs[i].channel == subs[k].channel
                      ==> subs[j].channel == subs[i].channel
  }

  function Of(subs: seq<Sub>, channel: Key): seq<Sub> {
    if subs == [] then []
    else (if subs[0].channel == channel then [subs[0]] else []) + Of(subs[1..], channel)
  }

  function ReadTotal(subs: seq<Sub>): nat {
    if subs == [] then 0 else subs[0].readBytes + ReadTotal(subs[1..])
  }

  function WriteTotal(subs: seq<Sub>): nat {
    if subs == [] then 0 else subs[0].writeBytes + WriteTotal(subs[1..])
  }

  function StatOf(name: Key, subs: seq<Sub>): Stat {
    Stat(name, ReadTotal(subs) % U64, WriteTotal(subs) % U64, |subs|)
  }

  // equal_range: how many subscriptions at the front share the channel.
  function RunLength(subs: seq<Sub>, channel: Key): (n: nat)
    ensures n <= |subs|
  {
    if subs == [] || subs[0].channel != channel then 0 else 1 + RunLength(subs[1..], channel)
  }

  lemma {:induction false} RunEnds(subs: seq<Sub>, channel: Key)
    ensures var n := RunLength(subs, channel);
            && (forall i :: 0 <= i < n ==> subs[i].channel == channel)
            && (n < |subs| ==> subs[n].channel != channel)
  {
    if subs == [] || subs[0].channel != channel {
    } else {
      RunEnds(subs[1..], channel);
      var n := RunLength(subs, channel);
      forall i | 0 <= i < n ensures subs[i].channel == channel {
        if i > 0 {
          assert subs[1..][i - 1] == subs[i];
        }
      }
    }
  }

  function Stats(subs: seq<Sub>): seq<Stat>
    decreases |subs|
  {
    if subs == [] then []
    else
      var n := RunLength(subs, subs[0].channel);
      [StatOf(subs[0].channel, subs[..n])] + Stats(subs[n..])
  }

  lemma {:induction false} OfAll(subs: seq<Sub>, channel: Key)
    requires forall i :: 0 <= i < |subs| ==> subs[i].channel == channel
    ensures Of(subs, channel) == subs
  {
    if subs == [] {
    } else {
      OfAll(subs[1..], channel);
    }
  }

  lemma {:induction false} OfNone(subs: seq<Sub>, channel: Key)
    requires forall i :: 0 <= i < |subs| ==> subs[i].channel != channel
    ensures Of(subs, channel) == []
  {
    if subs == [] {
    } else {
      OfNone(subs[1..], channel);
    }
  }

  lemma {:induction false} OfAppend(a: seq<Sub>, b: seq<Sub>, channel: Key)
    ensures Of(a + b, channel) == Of(a, channel) + Of(b, channel)
  {
    if a == [] {
      assert a + b == b;
    } else {
      assert (a + b)[0] == a[0] && (a + b)[1..] == a[1..] + b;
      OfAppend(a[1..], b, channel);
    }
  }

  lemma GroupedTail(subs: seq<Sub>, n: nat)
    requires Grouped(subs) && n <= |subs|
    ensures Grouped(subs[n..])
  {
  }

  lemma GroupedAt(subs: seq<Sub>, i: nat, j: nat, k: nat)
    requires Grouped(subs) && i < j < k < |subs| && subs[i].channel == subs[k].channel
    ensures subs[j].channel == subs[i].channel
  {
  }

  lemma RunIsMaximal(subs: seq<Sub>, i: nat)
    requires subs != [] && Grouped(subs)
    requires RunLength(subs, subs[0].channel) <= i < |subs|
    ensures subs[i].channel != subs[0].channel
  {
    hide RunLength, Grouped;
    RunEnds(subs, subs[0].channel);
    var n := RunLength(subs, subs[0].channel);
    if n < i && subs[0].channel == subs[i].channel {
      GroupedAt(subs, 0, n, i);
    }
  }

  // In a grouped index, nothing after the run at the front is of its channel.
  lemma RunIsAll(subs: seq<Sub>)
    requires subs != [] && Grouped(subs)
    ensures var n := RunLength(subs, subs[0].channel);
            && n > 0 && Grouped(subs[n..])
            && (forall i :: 0 <= i < |subs[n..]| ==> subs[n..][i].channel != subs[0].channel)
            && Of(subs, subs[0].channel) == subs[..n]
  {
    hide RunLength, Grouped, Of;
    var c := subs[0].channel;
    var n := RunLength(subs, c);
    RunEnds(subs, c);
    GroupedTail(subs, n);
    forall i | 0 <= i < |subs[n..]| ensures subs[n..][i].channel != c {
      RunIsMaximal(subs, n + i);
    }
    var head, rest := subs[..n], subs[n..];
    OfAll(head, c);
    OfNone(rest, c);
    OfAppend(head, rest, c);
    assert subs == head + rest;
    assert head + [] == head;
  }

  ghost predicate Faithful(subs: seq<Sub>, stats: seq<Stat>) {
    forall s :: s in stats ==> s == StatOf(s.name, Of(subs, s.name)) && s.connections > 0
  }

  ghost predicate Distinct(stats: seq<Stat>) {
    forall i, j :: 0 <= i < j < |stats| ==> stats[i].name != stats[j].name
  }

  ghost predicate Covers(subs: seq<Sub>, stats: seq<Stat>) {
    forall i :: 0 <= i < |subs| ==> exists j :: 0 <= j < |stats| && stats[j].name == subs[i].channel
  }

  lemma FaithfulPrepend(head: seq<Sub>, rest: seq<Sub>, c: Key, stats: seq<Stat>)
    requires forall i :: 0 <= i < |head| ==> head[i].channel == c
    requires forall i :: 0 <= i < |rest| ==> rest[i].channel != c
    requires Faithful(rest, stats)
    ensures Faithful(head + rest, stats)
    ensures forall s :: s in stats ==> s.name != c
  {
    forall s | s in stats
      ensures s.name != c
      ensures s == StatOf(s.name, Of(head + rest, s.name)) && s.connections > 0
    {
      if s.name == c {
        OfNone(rest, c);
        assert false;
      } else {
        OfAppend(head, rest, s.name);
        OfNone(head, s.name);
        assert Of(head + rest, s.name) == Of(rest, s.name);
      }
    }
  }

  // One record per channel: the names are distinct, every subscribed channel has one, and
  // it sums exactly the subscriptions of that channel.
  lemma {:induction false} StatsAreTheChannels(subs: seq<Sub>)
    requires Grouped(subs)
    ensures Faithful(subs, Stats(subs)) && Distinct(Stats(subs)) && Covers(subs, Stats(subs))
    decreases |subs|
  {
    if subs == [] {
    } else {
      var c := subs[0].channel;
      var n := RunLength(subs, c);
      RunIsAll(subs);
      RunEnds(subs, c);
      hide Grouped, Faithful, Distinct, Covers, RunLength;
      var head, rest := subs[..n], subs[n..];
      StatsAreTheChannels(rest);
      assert subs == head + rest;
      FaithfulPrepend(head, rest, c, Stats(rest));
      StatsPrepend(head, rest, c, Stats(rest));
      assert Stats(subs) == [StatOf(c, head)] + Stats(rest);
    }
  }

  lemma StatsPrepend(head: seq<Sub>, rest: seq<Sub>, c: Key, stats: seq<Stat>)
    requires head != [] && forall i :: 0 <= i < |head| ==> head[i].channel == c
    requires Of(head + rest, c) == head
    requires Faithful(head + rest, stats) && Distinct(stats) && Covers(rest, stats)
    requires forall s :: s in stats ==> s.name != c
    ensures var all := [StatOf(c, head)] + stats;
            Faithful(head + rest, all) && Distinct(all) && Covers(head + rest, all)
  {
    var all := [StatOf(c, head)] + stats;
    forall i, j | 0 <= i < j < |all| ensures all[i].name != all[j].name {
      assert all[j] == stats[j - 1];
      if i > 0 {
        assert all[i] == stats[i - 1];
      }
    }
    forall i | 0 <= i < |head + rest|
      ensures exists j :: 0 <= j < |all| && all[j].name == (head + rest)[i].channel
    {
      if i < |head| {
        assert all[0].name == (head + rest)[i].channel;
      } else {
        assert (head + rest)[i] == rest[i - |head|];
        var j :| 0 <= j < |stats| && stats[j].name == rest[i - |head|].channel;
        assert all[j + 1] == stats[j];
      }
    }
  }

  lemma AddMod(a: nat, b: nat, m: nat)
    requires m > 0
    ensures (a % m + b) % m == (a + b) % m
  {
    var q, r := (a % m + b) / m, (a % m + b) % m;
    assert a == (a / m) * m + a % m;
    assert (a / m + q) * m == (a / m) * m + q * m;
    ModUnique(a + b, m, a / m + q, r);
  }

  lemma {:induction false} TotalsSnoc(subs: seq<Sub>, i: nat)
    requires i < |subs|
    ensures ReadTotal(subs[..i + 1]) == ReadTotal(subs[..i]) + subs[i].readBytes
    ensures WriteTotal(subs[..i + 1]) == WriteTotal(subs[..i]) + subs[i].writeBytes
  {
    if i == 0 {
      assert subs[..1][1..] == [];
      assert subs[..0] == [];
    } else {
      assert subs[..i + 1][1..] == subs[1..][..i];
      assert subs[..i][1..] == subs[1..][..i - 1];
      TotalsSnoc(subs[1..], i - 1);
    }
  }

  // The metrics summed so far over a range of subscriptions.
  ghost predicate SumsTo(subs: seq<Sub>, readSum: Word, writeSum: Word, count: nat) {
    readSum == ReadTotal(subs) % U64 && writeSum == WriteTotal(subs) % U64 && count == |subs|
  }

  lemma SumsStep(subs: seq<Sub>, i: nat, readSum: Word, writeSum: Word, count: nat)
    requires i < |subs| && SumsTo(subs[..i], readSum, writeSum, count)
    ensures SumsTo(subs[..i + 1], Add64(readSum, subs[i].readBytes), Add64(writeSum, subs[i].writeBytes), count + 1)
  {
    TotalsSnoc(subs, i);
    AddMod(ReadTotal(subs[..i]), subs[i].readBytes, U64);
    AddMod(WriteTotal(subs[..i]), subs[i].writeBytes, U64);
  }

  lemma RunStep(subs: seq<Sub>, i: nat, channel: Key)
    requires i < |subs|
    ensures RunLength(subs[i..], channel) ==
            if subs[i].channel == channel then 1 + RunLength(subs[i + 1..], channel) else 0
  {
  }

  // The inner loop over equal_range.
  method SumRange(subs: seq<Sub>, begin: nat) returns (end: nat, readSum: Word, writeSum: Word, count: nat)
    requires begin < |subs|
    ensures end == begin + RunLength(subs[begin..], subs[begin].channel)
    ensures SumsTo(subs[begin..end], readSum, writeSum, count)
  {
    hide SumsTo, RunLength;
    var channel := subs[begin].channel;
    ghost var rest := subs[begin..];
    readSum, writeSum, count := 0, 0, 0;
    end := begin;
    SumsNothing(rest);
    while end < |subs| && subs[end].channel == channel
      invariant begin <= end <= |subs|
      invariant end - begin + RunLength(subs[end..], channel) == RunLength(rest, channel)
      invariant SumsTo(rest[..end - begin], readSum, writeSum, count)
    {
      SumsStep(rest, end - begin, readSum, writeSum, count);
      RunStep(subs, end, channel);
      readSum := Add64(readSum, subs[end].readBytes);
      writeSum := Add64(writeSum, subs[end].writeBytes);
      count := count + 1;
      end := end + 1;
    }
    if end < |subs| {
      RunStep(subs, end, channel);
    } else {
      RunOfNothing(subs[end..], channel);
    }
    assert rest[..end - begin] == subs[begin..end];
  }

  lemma SumsNothing(subs: seq<Sub>)
    ensures SumsTo(subs[..0], 0, 0, 0)
  {
  }

  lemma RunOfNothing(subs: seq<Sub>, channel: Key)
    requires subs == []
    ensures RunLength(subs, channel) == 0
  {
  }

  function NamesOf(stats: seq<Stat>): seq<Key> {
    if stats == [] then [] else [stats[0].name] + NamesOf(stats[1..])
  }

  function NamesOfAll(groups: seq<seq<Stat>>): seq<seq<Key>> {
    if groups == [] then [] else [NamesOf(groups[0])] + NamesOfAll(groups[1..])
  }

  function ChannelSize(): Stat -> nat {
    (s: Stat) => CHANNEL
  }

  // What a channel takes in the buffer: its metadata and its name.
  function OwnSize(): Stat -> nat {
    (s: Stat) => CHANNEL + |s.name|
  }

  function Groups(subs: seq<Sub>): seq<seq<Stat>> {
    Fragments(ChannelSize(), MAX_FRAGMENT, Stats(subs))
  }

  lemma {:induction false} NamesSnoc(stats: seq<Stat>, s: Stat)
    ensures NamesOf(stats + [s]) == NamesOf(stats) + [s.name]
  {
    if stats == [] {
      assert [] + [s] == [s];
      assert NamesOf([s]) == [s.name] + NamesOf([]);
    } else {
      assert (stats + [s])[0] == stats[0] && (stats + [s])[1..] == stats[1..] + [s];
      NamesSnoc(stats[1..], s);
    }
  }

  // The totals are sums over the subscriptions, each counted once.
  lemma {:induction false} TotalsAre(a: seq<Sub>, b: seq<Sub>)
    ensures ReadTotal(a + b) == ReadTotal(a) + ReadTotal(b)
    ensures WriteTotal(a + b) == WriteTotal(a) + WriteTotal(b)
    ensures forall s :: ReadTotal([s]) == s.readBytes && WriteTotal([s]) == s.writeBytes
  {
    forall s ensures ReadTotal([s]) == s.readBytes && WriteTotal([s]) == s.writeBytes {
      assert [s][1..] == [];
    }
    if a == [] {
      assert a + b == b;
    } else {
      assert (a + b)[0] == a[0] && (a + b)[1..] == a[1..] + b;
      TotalsAre(a[1..], b);
    }
  }

  // The subscriptions of a channel are those that name it, each as often as it is there.
  lemma {:induction false} OfAre(subs: seq<Sub>, channel: Key)
    ensures forall s: Sub :: multiset(Of(subs, channel))[s] == if s.channel == channel then multiset(subs)[s] else 0
  {
    if subs == [] {
    } else {
      OfAre(subs[1..], channel);
      assert subs == [subs[0]] + subs[1..];
    }
  }

  // A record, field by field.
  lemma RecordSums(subs: seq<Sub>, i: nat)
    requires Grouped(subs) && i < |Stats(subs)|
    ensures var s := Stats(subs)[i];
            var mine := Of(subs, s.name);
            && s.readSum == ReadTotal(mine) % U64 && s.writeSum == WriteTotal(mine) % U64
            && s.connections == |mine| > 0
  {
    StatsAreTheChannels(subs);
    assert Stats(subs)[i] in Stats(subs);
    hide Stats, Of, ReadTotal, WriteTotal, Distinct, Covers, Grouped;
  }

  // The first record is that of the run at the front.
  lemma FirstRecord(subs: seq<Sub>)
    requires Grouped(subs) && subs != []
    ensures var c, stats := subs[0].channel, Stats(subs);
            var n := RunLength(subs, c);
            && Grouped(subs[n..]) && 0 < n
            && stats != [] && stats[0].name == c && stats[1..] == Stats(subs[n..])
            && (forall j :: 0 < j < |stats| ==> stats[j].name != c)
            && (forall b :: 0 <= b < |subs| ==> (subs[b].channel == c <==> b < n))
  {
    var c := subs[0].channel;
    var n := RunLength(subs, c);
    RunIsAll(subs);
    RunEnds(subs, c);
    StatsAreTheChannels(subs);
    hide Grouped, RunLength, Faithful, Covers, Of, StatOf;
    forall b | 0 <= b < |subs| ensures subs[b].channel == c <==> b < n {
      if b >= n {
        assert subs[b] == subs[n..][b - n];
      }
    }
  }

  lemma LaterRecord(subs: seq<Sub>, j: nat)
    requires Grouped(subs) && 0 < j < |Stats(subs)|
    ensures var rest := subs[RunLength(subs, subs[0].channel)..];
            && Grouped(rest) && |Stats(rest)| == |Stats(subs)| - 1 && Stats(rest)[j - 1] == Stats(subs)[j]
            && Stats(subs)[j].name != subs[0].channel
  {
    FirstRecord(subs);
    hide Grouped, RunLength, Stats;
    assert Stats(subs)[1..][j - 1] == Stats(subs)[j];
  }

  lemma LaterSub(subs: seq<Sub>, b: nat)
    requires Grouped(subs) && b < |subs|
    ensures var n := RunLength(subs, subs[0].channel);
            && n > 0 && (subs[b].channel == subs[0].channel <==> b < n)
            && (b >= n ==> subs[n..][b - n] == subs[b])
  {
    FirstRecord(subs);
    hide Grouped, RunLength, Stats;
  }

  // Records come in the order of the index.
  lemma {:induction false} StatsInOrder(subs: seq<Sub>, i: nat, j: nat, a: nat, b: nat)
    requires Grouped(subs) && i < j < |Stats(subs)| && a < |subs| && b < |subs|
    requires subs[a].channel == Stats(subs)[i].name && subs[b].channel == Stats(subs)[j].name
    ensures a < b
    decreases |subs|
  {
    hide Grouped, RunLength, Stats;
    LaterRecord(subs, j);
    LaterSub(subs, a);
    LaterSub(subs, b);
    var n := RunLength(subs, subs[0].channel);
    if i > 0 {
      LaterRecord(subs, i);
      StatsInOrder(subs[n..], i - 1, j - 1, a - n, b - n);
    } else {
      FirstName(subs);
    }
  }

  lemma FirstName(subs: seq<Sub>)
    requires Grouped(subs) && subs != []
    ensures Stats(subs) != [] && Stats(subs)[0].name == subs[0].channel
  {
  }

  // `_channel_stats`
  datatype Sums = Sums(readSum: Word, writeSum: Word, connections: nat)

  ghost predicate Tabulated(table: map<Key, Sums>, stats: seq<Stat>) {
    forall s :: s in stats ==>
      s.name in table && table[s.name] == Sums(s.readSum, s.writeSum, s.connections)
  }

  // The state of the measuring loop: `done` channels visited, `left` still to come.
  ghost predicate Measured(fragments: seq<seq<Key>>, fragment: seq<Key>, current: seq<Stat>, size: nat,
                           left: seq<Stat>, all: seq<Stat>) {
    && fragment == NamesOf(current)
    && (size > 0 ==> current != [])
    && fragments + NamesOfAll(Pack(ChannelSize(), MAX_FRAGMENT, left, current, size))
       == NamesOfAll(Fragments(ChannelSize(), MAX_FRAGMENT, all))
  }

  lemma MeasuredStep(fragments: seq<seq<Key>>, fragment: seq<Key>, current: seq<Stat>, size: nat,
                     s: Stat, left: seq<Stat>, all: seq<Stat>)
    requires Measured(fragments, fragment, current, size, [s] + left, all)
    ensures size + CHANNEL > MAX_FRAGMENT ==>
              Measured(fragments + [fragment], [s.name], [s], CHANNEL, left, all)
    ensures size + CHANNEL <= MAX_FRAGMENT ==>
              Measured(fragments, fragment + [s.name], current + [s], size + CHANNEL, left, all)
  {
    assert ([s] + left)[1..] == left;
    NamesSnoc(current, s);
    NamesSnoc([], s);
    assert [] + [s] == [s];
    var p := Pack(ChannelSize(), MAX_FRAGMENT, left, [s], CHANNEL);
    assert ([current] + p)[1..] == p;
    Assoc(fragments, [fragment], NamesOfAll(p));
  }

  lemma MeasuredEnd(fragments: seq<seq<Key>>, fragment: seq<Key>, current: seq<Stat>, size: nat, all: seq<Stat>)
    requires Measured(fragments, fragment, current, size, [], all)
    ensures NamesOfAll(Fragments(ChannelSize(), MAX_FRAGMENT, all)) ==
            if fragment != [] then fragments + [fragment] else fragments
  {
    if current == [] {
      assert fragments + [] == fragments;
    } else {
      assert NamesOfAll([current]) == [NamesOf(current)] + NamesOfAll([]);
      assert [fragment] + [] == [fragment];
    }
  }

  lemma StatsHead(subs: seq<Sub>, begin: nat, end: nat, readSum: Word, writeSum: Word, count: nat)
    requires begin < |subs| && end == begin + RunLength(subs[begin..], subs[begin].channel)
    requires SumsTo(subs[begin..end], readSum, writeSum, count)
    ensures begin < end
    ensures Stats(subs[begin..]) == [Stat(subs[begin].channel, readSum, writeSum, count)] + Stats(subs[end..])
  {
    var rest := subs[begin..];
    assert rest[0] == subs[begin];
    assert rest[..end - begin] == subs[begin..end];
    assert rest[end - begin..] == subs[end..];
  }

  lemma TabulatedStep(table: map<Key, Sums>, done: seq<Stat>, s: Stat)
    requires Tabulated(table, done)
    requires forall i :: 0 <= i < |done| ==> done[i].name != s.name
    ensures Tabulated(table[s.name := Sums(s.readSum, s.writeSum, s.connections)], done + [s])
  {
  }

  // ... together with the table of sums and the running buffer size.
  ghost predicate Progress(fragments: seq<seq<Key>>, fragment: seq<Key>, current: seq<Stat>, size: nat,
                           bufferSize: nat, table: map<Key, Sums>, done: seq<Stat>, left: seq<Stat>, all: seq<Stat>) {
    && Measured(fragments, fragment, current, size, left, all)
    && Tabulated(table, done) && done + left == all
    && bufferSize + Weight(OwnSize(), left) == Weight(OwnSize(), all) + 16 * |fragments|
  }

  lemma ProgressStep(fragments: seq<seq<Key>>, fragment: seq<Key>, current: seq<Stat>, size: nat,
                     bufferSize: nat, table: map<Key, Sums>, done: seq<Stat>,
                     s: Stat, left: seq<Stat>, all: seq<Stat>)
    requires Progress(fragments, fragment, current, size, bufferSize, table, done, [s] + left, all)
    requires Distinct(all)
    ensures var table' := table[s.name := Sums(s.readSum, s.writeSum, s.connections)];
            var bufferSize' := bufferSize + CHANNEL + |s.name|;
            if size + CHANNEL > MAX_FRAGMENT then
              Progress(fragments + [fragment], [s.name], [s], CHANNEL, bufferSize' + 16, table', done + [s], left, all)
            else
              Progress(fragments, fragment + [s.name], current + [s], size + CHANNEL, bufferSize', table',
                       done + [s], left, all)
  {
    WeightAppend(OwnSize(), [s], left);
    WeightOne(s);
    MeasuredStep(fragments, fragment, current, size, s, left, all);
    NewName(done, s, left, all);
    TabulatedStep(table, done, s);
    Assoc(done, [s], left);
    hide Measured, Tabulated, Distinct, Weight;
  }

  lemma ProgressStart(all: seq<Stat>)
    ensures Progress([], [], [], 0, 0, map[], [], all, all)
  {
  }

  lemma ProgressEnd(fragments: seq<seq<Key>>, fragment: seq<Key>, current: seq<Stat>, size: nat,
                    bufferSize: nat, table: map<Key, Sums>, done: seq<Stat>, all: seq<Stat>)
    requires Progress(fragments, fragment, current, size, bufferSize, table, done, [], all)
    ensures NamesOfAll(Fragments(ChannelSize(), MAX_FRAGMENT, all)) ==
            if fragment != [] then fragments + [fragment] else fragments
    ensures Tabulated(table, all)
    ensures bufferSize == Weight(OwnSize(), all) + 16 * |fragments|
  {
    MeasuredEnd(fragments, fragment, current, size, all);
    assert done + [] == done;
  }

  // Room for one more channel, in the current fragment or in a new one.
  method AddChannel(fragments0: seq<seq<Key>>, fragment0: seq<Key>, size0: nat, bufferSize0: nat,
                    table0: map<Key, Sums>, channel: Key, sums: Sums,
                    ghost current0: seq<Stat>, ghost done: seq<Stat>, ghost left: seq<Stat>, ghost all: seq<Stat>)
    returns (fragments: seq<seq<Key>>, fragment: seq<Key>, size: nat, bufferSize: nat, table: map<Key, Sums>,
             ghost current: seq<Stat>)
    requires Distinct(all)
    requires var s := Stat(channel, sums.readSum, sums.writeSum, sums.connections);
             Progress(fragments0, fragment0, current0, size0, bufferSize0, table0, done, [s] + left, all)
    ensures var s := Stat(channel, sums.readSum, sums.writeSum, sums.connections);
            Progress(fragments, fragment, current, size, bufferSize, table, done + [s], left, all)
  {
    hide Progress, Distinct;
    ghost var s := Stat(channel, sums.readSum, sums.writeSum, sums.connections);
    ProgressStep(fragments0, fragment0, current0, size0, bufferSize0, table0, done, s, left, all);
    fragments, fragment, size, current := fragments0, fragment0, size0, current0;
    bufferSize := bufferSize0 + 8 * 3 + 1 + |channel|;
    table := table0[channel := sums];
    if size + CHANNEL > MAX_FRAGMENT {
      fragments := fragments + [fragment];
      fragment, size, current := [], 0, [];
      bufferSize := bufferSize + 16;
      PushFirst(channel);
      PushFirst(s);
    }
    fragment := fragment + [channel];
    size := size + CHANNEL;
    current := current + [s];
  }

  // The measuring pass.
  method Measure(subs: seq<Sub>)
    returns (fragments: seq<seq<Key>>, table: map<Key, Sums>, bufferSize: nat)
    requires Grouped(subs)
    ensures fragments == NamesOfAll(Groups(subs))
    ensures Tabulated(table, Stats(subs))
    ensures bufferSize == Weight(OwnSize(), Stats(subs)) + 16 * |fragments|
  {
    StatsAreTheChannels(subs);
    ghost var all := Stats(subs);
    ghost var done: seq<Stat> := [];
    ghost var current: seq<Stat> := [];
    var fragment: seq<Key> := [];
    var fragmentSize: nat := 0;
    var it: nat := 0;
    fragments, table, bufferSize := [], map[], 0;
    ProgressStart(all);
    assert subs[0..] == subs;
    hide Progress, Stats, Weight, Tabulated, RunLength, SumsTo, Grouped, Faithful, Covers, Distinct;
    while it < |subs|
      invariant it <= |subs|
      invariant Progress(fragments, fragment, current, fragmentSize, bufferSize, table, done, Stats(subs[it..]), all)
      decreases |subs| - it
    {
      var end, readSum, writeSum, count := SumRange(subs, it);
      StatsHead(subs, it, end, readSum, writeSum, count);
      fragments, fragment, fragmentSize, bufferSize, table, current :=
        AddChannel(fragments, fragment, fragmentSize, bufferSize, table, subs[it].channel,
                   Sums(readSum, writeSum, count), current, done, Stats(subs[end..]), all);
      done := done + [Stat(subs[it].channel, readSum, writeSum, count)];
      it := end;
    }
    NoStats(subs);
    ProgressEnd(fragments, fragment, current, fragmentSize, bufferSize, table, done, all);
    if fragment != [] {
      fragments := fragments + [fragment];
      bufferSize := bufferSize + 16;
    }
  }

  lemma NoStats(subs: seq<Sub>)
    ensures Stats(subs[|subs|..]) == []
    ensures Weight(OwnSize(), Stats(subs[|subs|..])) == 0
  {
  }

  lemma WeightOne(s: Stat)
    ensures Weight(OwnSize(), [s]) == CHANNEL + |s.name|
  {
  }

  lemma NewName(done: seq<Stat>, s: Stat, left: seq<Stat>, all: seq<Stat>)
    requires done + ([s] + left) == all && Distinct(all)
    ensures forall i :: 0 <= i < |done| ==> done[i].name != s.name
  {
    forall i | 0 <= i < |done| ensures done[i].name != s.name {
      assert all[i] == done[i] && all[|done|] == s;
    }
  }

  // The metadata the client reads for a channel.
  function MetaOf(s: Stat): seq<Byte> {
    [|s.name|] + EncodeLE(s.readSum, 8) + EncodeLE(s.writeSum, 8) + EncodeLE(s.connections, 8)
  }

  function RecOf(s: Stat): Codec.Rec {
    Codec.Rec(MetaOf(s), s.name)
  }

  function RecsOf(stats: seq<Stat>): seq<Codec.Rec> {
    if stats == [] then [] else [RecOf(stats[0])] + RecsOf(stats[1..])
  }

  function AllRecs(groups: seq<seq<Stat>>): seq<seq<Codec.Rec>> {
    if groups == [] then [] else [RecsOf(groups[0])] + AllRecs(groups[1..])
  }

  function NameBytes(stats: seq<Stat>): nat {
    if stats == [] then 0 else |stats[0].name| + NameBytes(stats[1..])
  }

  lemma {:induction false} OwnSizeSum(stats: seq<Stat>)
    ensures Weight(OwnSize(), stats) == CHANNEL * |stats| + NameBytes(stats)
  {
    if stats == [] {
    } else {
      OwnSizeSum(stats[1..]);
    }
  }

  lemma MetaInSteps(out: seq<Byte>, s: Stat)
    ensures out + [|s.name|] + EncodeLE(s.readSum, 8) + EncodeLE(s.writeSum, 8) + EncodeLE(s.connections, 8)
         == out + MetaOf(s)
  {
  }

  lemma {:induction false} NamesAt(stats: seq<Stat>)
    ensures |NamesOf(stats)| == |stats| == |RecsOf(stats)|
    ensures forall i :: 0 <= i < |stats| ==> NamesOf(stats)[i] == stats[i].name
  {
    hide RecOf;
    if stats == [] {
    } else {
      NamesAt(stats[1..]);
    }
  }

  lemma RecsHead(stats: seq<Stat>, i: nat)
    requires i < |stats|
    ensures Codec.Metas(RecsOf(stats[i..])) == MetaOf(stats[i]) + Codec.Metas(RecsOf(stats[i + 1..]))
    ensures Codec.Names(RecsOf(stats[i..])) == stats[i].name + Codec.Names(RecsOf(stats[i + 1..]))
    ensures NameBytes(stats[i..]) == |stats[i].name| + NameBytes(stats[i + 1..])
  {
  }

  lemma NothingLeft(stats: seq<Stat>)
    ensures Codec.Metas(RecsOf(stats[|stats|..])) == []
    ensures Codec.Names(RecsOf(stats[|stats|..])) == []
    ensures NameBytes(stats[|stats|..]) == 0
  {
  }

  method WriteMeta(m: Message, ghost before: seq<Segment>, ghost own: seq<Byte>, ghost size: nat,
                   offset: nat, channel: Key, sums: Sums)
    returns (next: nat)
    requires Writing(m, before, own, size, offset) && offset + CHANNEL <= size
    modifies m`writeBuffer, m`buffers
    ensures next == offset + CHANNEL
    ensures Writing(m, before, own, size, next)
    ensures m.Out(|before|)
         == old(m.Out(|before|)) + MetaOf(Stat(channel, sums.readSum, sums.writeSum, sums.connections))
    ensures |m.buffers| == |old(m.buffers)| + 4
  {
    hide Writing, MetaOf, EncodeLE;
    MetaInSteps(m.Out(|before|), Stat(channel, sums.readSum, sums.writeSum, sums.connections));
    next := Put(m, before, own, size, offset, [|channel|]);
    next := Put(m, before, own, size, next, EncodeLE(sums.readSum, 8));
    next := Put(m, before, own, size, next, EncodeLE(sums.writeSum, 8));
    next := Put(m, before, own, size, next, EncodeLE(sums.connections, 8));
  }

  lemma Lookup(table: map<Key, Sums>, stats: seq<Stat>, i: nat)
    requires Tabulated(table, stats) && i < |stats|
    ensures stats[i].name in table
    ensures table[stats[i].name] == Sums(stats[i].readSum, stats[i].writeSum, stats[i].connections)
  {
  }

  method WriteMetas(m: Message, ghost before: seq<Segment>, ghost own: seq<Byte>, ghost size: nat,
                    offset: nat, table: map<Key, Sums>, channels: seq<Key>, ghost stats: seq<Stat>)
    returns (next: nat)
    requires channels == NamesOf(stats) && Tabulated(table, stats)
    requires Writing(m, before, own, size, offset) && offset + CHANNEL * |stats| <= size
    modifies m`writeBuffer, m`buffers
    ensures next == offset + CHANNEL * |stats|
    ensures Writing(m, before, own, size, next)
    ensures m.Out(|before|) == old(m.Out(|before|)) + Codec.Metas(RecsOf(stats))
    ensures |m.buffers| == |old(m.buffers)| + 4 * |stats|
  {
    NamesAt(stats);
    hide Writing, MetaOf, RecsOf, NamesOf, Tabulated, Codec.Metas, Codec.Names;
    next := offset;
    ghost var out := m.Out(|before|);
    ghost var done: seq<Byte> := [];
    ghost var all := Codec.Metas(RecsOf(stats));
    assert stats[0..] == stats;
    for i := 0 to |channels|
      invariant Writing(m, before, own, size, next)
      invariant next == offset + CHANNEL * i
      invariant m.Out(|before|) == out + done
      invariant done + Codec.Metas(RecsOf(stats[i..])) == all
      invariant |m.buffers| == |old(m.buffers)| + 4 * i
    {
      Lookup(table, stats, i);
      RecsHead(stats, i);
      Assoc(done, MetaOf(stats[i]), Codec.Metas(RecsOf(stats[i + 1..])));
      Assoc(out, done, MetaOf(stats[i]));
      next := WriteMeta(m, before, own, size, next, channels[i], table[channels[i]]);
      done := done + MetaOf(stats[i]);
    }
    NothingLeft(stats);
    assert done + [] == done;
  }

  method WriteNames(m: Message, ghost before: seq<Segment>, ghost own: seq<Byte>, ghost size: nat,
                    offset: nat, channels: seq<Key>, ghost stats: seq<Stat>)
    returns (next: nat)
    requires channels == NamesOf(stats)
    requires Writing(m, before, own, size, offset) && offset + NameBytes(stats) <= size
    modifies m`writeBuffer, m`buffers
    ensures next == offset + NameBytes(stats)
    ensures Writing(m, before, own, size, next)
    ensures m.Out(|before|) == old(m.Out(|before|)) + Codec.Names(RecsOf(stats))
    ensures |m.buffers| == |old(m.buffers)| + |stats|
  {
    NamesAt(stats);
    hide Writing, MetaOf, RecsOf, NamesOf, NameBytes, Codec.Metas, Codec.Names;
    next := offset;
    ghost var out := m.Out(|before|);
    ghost var done: seq<Byte> := [];
    ghost var all := Codec.Names(RecsOf(stats));
    assert stats[0..] == stats;
    for i := 0 to |channels|
      invariant Writing(m, before, own, size, next)
      invariant next + NameBytes(stats[i..]) == offset + NameBytes(stats)
      invariant m.Out(|before|) == out + done
      invariant done + Codec.Names(RecsOf(stats[i..])) == all
      invariant |m.buffers| == |old(m.buffers)| + i
    {
      RecsHead(stats, i);
      Assoc(done, stats[i].name, Codec.Names(RecsOf(stats[i + 1..])));
      Assoc(out, done, stats[i].name);
      next := Put(m, before, own, size, next, channels[i]);
      done := done + stats[i].name;
    }
    NothingLeft(stats);
    assert done + [] == done;
  }

  lemma FragmentInSteps(out: seq<Byte>, index: nat, stats: seq<Stat>)
    ensures out + EncodeLE(index, 8) + EncodeLE(|stats|, 8) + Codec.Metas(RecsOf(stats)) + Codec.Names(RecsOf(stats))
         == out + Codec.EncodeFragment(index, RecsOf(stats))
  {
    NamesAt(stats);
    hide EncodeLE, RecsOf, Codec.Metas, Codec.Names;
    var a, b := EncodeLE(index, 8), EncodeLE(|stats|, 8);
    var metas, names := Codec.Metas(RecsOf(stats)), Codec.Names(RecsOf(stats));
    Assoc(out, a, b);
    Assoc(out + (a + b), metas, names);
    Assoc(out, a + b, metas + names);
  }

  method WriteFragment(m: Message, ghost before: seq<Segment>, ghost own: seq<Byte>, ghost size: nat,
                       offset: nat, index: nat, table: map<Key, Sums>, channels: seq<Key>, ghost stats: seq<Stat>)
    returns (next: nat)
    requires channels == NamesOf(stats) && Tabulated(table, stats)
    requires Writing(m, before, own, size, offset) && offset + 16 + Weight(OwnSize(), stats) <= size
    modifies m`writeBuffer, m`buffers
    ensures next == offset + 16 + Weight(OwnSize(), stats)
    ensures Writing(m, before, own, size, next)
    ensures m.Out(|before|) == old(m.Out(|before|)) + Codec.EncodeFragment(index, RecsOf(stats))
    ensures |m.buffers| == |old(m.buffers)| + 2 + 5 * |stats|
  {
    NamesAt(stats);
    OwnSizeSum(stats);
    FragmentInSteps(m.Out(|before|), index, stats);
    hide Writing, RecsOf, NamesOf, Tabulated, EncodeLE, Weight, Codec.EncodeFragment, Codec.Metas, Codec.Names;
    next := Put(m, before, own, size, offset, EncodeLE(index, 8));
    next := Put(m, before, own, size, next, EncodeLE(|channels|, 8));
    next := WriteMetas(m, before, own, size, next, table, channels, stats);
    next := WriteNames(m, before, own, size, next, channels, stats);
  }

  function BodySize(groups: seq<seq<Stat>>): nat {
    if groups == [] then 0 else 16 + Weight(OwnSize(), groups[0]) + BodySize(groups[1..])
  }

  function BodySegments(groups: seq<seq<Stat>>): nat {
    if groups == [] then 0 else 2 + 5 * |groups[0]| + BodySegments(groups[1..])
  }

  lemma {:induction false} BodySums(groups: seq<seq<Stat>>)
    ensures BodySize(groups) == 16 * |groups| + Weight(OwnSize(), Flatten(groups))
    ensures BodySegments(groups) == 2 * |groups| + 5 * |Flatten(groups)|
  {
    if groups == [] {
    } else {
      BodySums(groups[1..]);
      WeightAppend(OwnSize(), groups[0], Flatten(groups[1..]));
    }
  }

  lemma BodyHead(groups: seq<seq<Stat>>, i: nat)
    requires i < |groups|
    ensures BodySize(groups[i..]) == 16 + Weight(OwnSize(), groups[i]) + BodySize(groups[i + 1..])
    ensures BodySegments(groups[i..]) == 2 + 5 * |groups[i]| + BodySegments(groups[i + 1..])
    ensures Codec.EncodeBody(i + 1, AllRecs(groups[i..]))
         == Codec.EncodeFragment(i + 1, RecsOf(groups[i])) + Codec.EncodeBody(i + 2, AllRecs(groups[i + 1..]))
  {
  }

  lemma BodyEnd(groups: seq<seq<Stat>>)
    ensures BodySize(groups[|groups|..]) == 0 == BodySegments(groups[|groups|..])
    ensures Codec.EncodeBody(|groups| + 1, AllRecs(groups[|groups|..])) == []
  {
  }

  lemma {:induction false} NamesOfAllAt(groups: seq<seq<Stat>>)
    ensures |NamesOfAll(groups)| == |groups| == |AllRecs(groups)|
    ensures forall i :: 0 <= i < |groups| ==> NamesOfAll(groups)[i] == NamesOf(groups[i])
    ensures forall i :: 0 <= i < |groups| ==> AllRecs(groups)[i] == RecsOf(groups[i])
  {
    hide NamesOf, RecsOf;
    if groups == [] {
    } else {
      NamesOfAllAt(groups[1..]);
    }
  }

  lemma {:induction false} TabulatedGroups(table: map<Key, Sums>, groups: seq<seq<Stat>>, i: nat)
    requires Tabulated(table, Flatten(groups)) && i < |groups|
    ensures Tabulated(table, groups[i])
  {
    forall s | s in groups[i]
      ensures s.name in table && table[s.name] == Sums(s.readSum, s.writeSum, s.connections)
    {
      assert groups[i] in groups;
      MemberOfFlatten(groups, s);
    }
  }

  method WriteBody(m: Message, ghost before: seq<Segment>, ghost own: seq<Byte>, ghost size: nat,
                   offset: nat, table: map<Key, Sums>, fragments: seq<seq<Key>>, ghost groups: seq<seq<Stat>>)
    returns (next: nat)
    requires fragments == NamesOfAll(groups) && Tabulated(table, Flatten(groups))
    requires Writing(m, before, own, size, offset) && offset + BodySize(groups) <= size
    modifies m`writeBuffer, m`buffers
    ensures next == offset + BodySize(groups)
    ensures Writing(m, before, own, size, next)
    ensures m.Out(|before|) == old(m.Out(|before|)) + Codec.EncodeBody(1, AllRecs(groups))
    ensures |m.buffers| == |old(m.buffers)| + BodySegments(groups)
  {
    hide Writing, RecsOf, AllRecs, NamesOf, NamesOfAll, Tabulated, BodySize, BodySegments, Weight,
         Codec.EncodeBody, Codec.EncodeFragment;
    next := offset;
    NamesOfAllAt(groups);
    ghost var out := m.Out(|before|);
    ghost var done: seq<Byte> := [];
    ghost var all := Codec.EncodeBody(1, AllRecs(groups));
    assert groups[0..] == groups;
    for i := 0 to |fragments|
      invariant Writing(m, before, own, size, next)
      invariant next + BodySize(groups[i..]) == offset + BodySize(groups)
      invariant m.Out(|before|) == out + done
      invariant done + Codec.EncodeBody(i + 1, AllRecs(groups[i..])) == all
      invariant |m.buffers| + BodySegments(groups[i..]) == |old(m.buffers)| + BodySegments(groups)
    {
      BodyHead(groups, i);
      TabulatedGroups(table, groups, i);
      ghost var bytes := Codec.EncodeFragment(i + 1, RecsOf(groups[i]));
      Assoc(done, bytes, Codec.EncodeBody(i + 2, AllRecs(groups[i + 1..])));
      Assoc(out, done, bytes);
      next := WriteFragment(m, before, own, size, next, i + 1, table, fragments[i], groups[i]);
      done := done + bytes;
    }
    BodyEnd(groups);
    assert done + [] == done;
  }

  // handle_fragmented_channels_response
  method HandleFragmentedChannels(m: Message, subs: seq<Sub>)
    requires Grouped(subs)
    modifies m
    ensures m.Out(|old(m.buffers)|) == Codec.Encode(AllRecs(Groups(subs)))
    ensures m.generation == old(m.generation) + 1
    ensures Writing(m, old(m.buffers), old(m.writeBuffer), |m.writeBuffer|, |m.writeBuffer|)
    ensures |m.writeBuffer| == |old(m.writeBuffer)| + 8 + BodySize(Groups(subs))
    ensures |m.buffers| == |old(m.buffers)| + 2 + BodySegments(Groups(subs))
    // the room reserved for segments counts subscriptions, so it is exact only when no
    // channel has two of them
    ensures m.reserved - |m.buffers| == 5 * (|subs| - |Stats(subs)|)
    ensures m.inUse == old(m.inUse) && m.recyclable == old(m.recyclable)
  {
    hide Groups, AllRecs, NamesOfAll, Tabulated, Writing, Stats, Grouped, Weight, BodySize, BodySegments,
         Codec.Encode, Codec.EncodeBody, EncodeLE;
    ghost var before, own := m.buffers, m.writeBuffer;
    var offset := |m.writeBuffer|;
    ghost var groups := Groups(subs);
    var fragments, table, bufferSize := Measure(subs);
    NamesOfAllAt(groups);
    GroupsConserve(subs);
    BodySums(groups);
    MakeRoom(m, 1 + 1 + 2 * |fragments| + 5 * |subs|, bufferSize + 8);
    ghost var size := |m.writeBuffer|;
    PutForeign(m, before, own, size, offset, [Codec.SUCCESS]);
    offset := Put(m, before, own, size, offset, EncodeLE(|fragments|, 8));
    offset := WriteBody(m, before, own, size, offset, table, fragments, groups);
    Codec.EncodeInSteps(AllRecs(groups));
    WritingSize(m, before, own, size, offset);
  }

  lemma GroupsConserve(subs: seq<Sub>)
    ensures Flatten(Groups(subs)) == Stats(subs)
  {
    FragmentsConserve(ChannelSize(), MAX_FRAGMENT, Stats(subs));
  }

  // Eighty-one channels fill a fragment, whatever their names measure.
  lemma FragmentCount(subs: seq<Sub>)
    ensures |Groups(subs)| == CeilDiv(|Stats(subs)|, PER_FRAGMENT)
  {
    UniformFragments(ChannelSize(), MAX_FRAGMENT, Stats(subs), CHANNEL, PER_FRAGMENT);
  }

  // Different names: at most one of them is empty.
  lemma {:induction false} DistinctNames(stats: seq<Stat>)
    requires Distinct(stats)
    ensures NameBytes(stats) + 1 >= |stats|
    ensures (forall s :: s in stats ==> s.name != []) ==> NameBytes(stats) >= |stats|
  {
    if stats == [] {
    } else {
      var rest := stats[1..];
      DistinctNames(rest);
      assert stats[0] in stats;
      if stats[0].name == [] {
        forall s | s in rest ensures s.name != [] {
          var i :| 0 <= i < |rest| && rest[i] == s;
          assert stats[i + 1] == s;
        }
      }
    }
  }

  // Up to eighty-one channels share one fragment.
  lemma OneGroup(subs: seq<Sub>)
    requires 0 < |Stats(subs)| <= PER_FRAGMENT
    ensures Groups(subs) == [Stats(subs)]
  {
    FragmentCount(subs);
    CeilDivOne(|Stats(subs)|, PER_FRAGMENT);
    GroupsConserve(subs);
    OneFragment(Groups(subs), Stats(subs));
  }

  lemma FirstGroup(subs: seq<Sub>)
    requires |Stats(subs)| >= PER_FRAGMENT
    ensures Groups(subs) != [] && Groups(subs)[0] == Stats(subs)[..PER_FRAGMENT]
  {
    hide Pack, Stats;
    UniformFirst(ChannelSize(), MAX_FRAGMENT, Stats(subs), [], CHANNEL, PER_FRAGMENT);
    assert [] + Stats(subs)[..PER_FRAGMENT] == Stats(subs)[..PER_FRAGMENT];
  }

  lemma DistinctPrefix(stats: seq<Stat>, n: nat)
    requires Distinct(stats) && n <= |stats|
    ensures Distinct(stats[..n])
  {
  }

  // A full fragment measures more than the limit, whatever the names are.
  lemma FullGroupOverflows(subs: seq<Sub>)
    requires Grouped(subs) && |Stats(subs)| >= PER_FRAGMENT
    ensures Groups(subs) != [] && Weight(OwnSize(), Groups(subs)[0]) > MAX_FRAGMENT
  {
    hide Weight, NameBytes, Stats, Faithful, Covers, Distinct, Grouped, Groups;
    StatsAreTheChannels(subs);
    FirstGroup(subs);
    DistinctPrefix(Stats(subs), PER_FRAGMENT);
    DistinctNames(Groups(subs)[0]);
    OwnSizeSum(Groups(subs)[0]);
  }

  // Names do not count when fragments are cut, so every fragment measures at most the
  // limit exactly when the whole response, names included, fits a single one; and never
  // with more than seventy-eight channels.
  lemma NamesAreNotLimited(subs: seq<Sub>)
    requires Grouped(subs)
    ensures (forall g :: g in Groups(subs) ==> Weight(OwnSize(), g) <= MAX_FRAGMENT) <==>
            CHANNEL * |Stats(subs)| + NameBytes(Stats(subs)) <= MAX_FRAGMENT
    ensures |Stats(subs)| > 78 ==> exists g :: g in Groups(subs) && Weight(OwnSize(), g) > MAX_FRAGMENT
  {
    var stats := Stats(subs);
    StatsAreTheChannels(subs);
    DistinctNames(stats);
    OwnSizeSum(stats);
    hide Distinct, NameBytes, Weight, Groups, Stats, Faithful, Covers;
    if stats == [] {
      GroupsConserve(subs);
      FragmentCount(subs);
      ModUnique(PER_FRAGMENT - 1, PER_FRAGMENT, 0, PER_FRAGMENT - 1);
    } else if |stats| < PER_FRAGMENT {
      OneGroup(subs);
    } else {
      FullGroupOverflows(subs);
      assert Groups(subs)[0] in Groups(subs);
    }
  }

  lemma {:induction false} OneByteNames(stats: seq<Stat>)
    requires forall s :: s in stats ==> |s.name| == 1
    ensures NameBytes(stats) == |stats|
  {
    if stats == [] {
    } else {
      assert stats[0] in stats;
      OneByteNames(stats[1..]);
    }
  }

  // Eighty-one channels with one-byte names: one fragment of 2106 bytes.
  lemma FullFragment()
    ensures var subs := seq(PER_FRAGMENT, (i: nat) requires i < PER_FRAGMENT => Sub([i], 0, 0));
            Grouped(subs) && |Groups(subs)| == 1 && Weight(OwnSize(), Groups(subs)[0]) == 2106
  {
    var subs := seq(PER_FRAGMENT, (i: nat) requires i < PER_FRAGMENT => Sub([i], 0, 0));
    var stats := Stats(subs);
    assert forall i :: 0 <= i < PER_FRAGMENT ==> subs[i].channel[0] == i;
    StatsAreTheChannels(subs);
    ChannelsAtMostSubs(subs);
    forall s | s in stats ensures |s.name| == 1 {
      if forall i :: 0 <= i < |subs| ==> subs[i].channel != s.name {
        OfNone(subs, s.name);
      }
    }
    OneByteNames(stats);
    OwnSizeSum(stats);
    OneGroup(subs);
  }

  // Two connections on the channel for everybody: one channel, and room reserved for two.
  lemma SharedChannel(a: Sub, b: Sub)
    requires a.channel == b.channel
    ensures Grouped([a, b]) && |Stats([a, b])| == 1
  {
    ChannelsAtMostSubs([a, b]);
    assert [a, b][0].channel == [a, b][1].channel;
  }

  // There are at most as many channels as subscriptions, and as many exactly when no
  // channel has two of them.
  lemma {:induction false} ChannelsAtMostSubs(subs: seq<Sub>)
    requires Grouped(subs)
    ensures |Stats(subs)| <= |subs|
    ensures |Stats(subs)| == |subs| <==> forall i, j :: 0 <= i < j < |subs| ==> subs[i].channel != subs[j].channel
    decreases |subs|
  {
    if subs == [] {
    } else {
      var c := subs[0].channel;
      var n := RunLength(subs, c);
      RunIsAll(subs);
      RunEnds(subs, c);
      hide Grouped, RunLength;
      var rest := subs[n..];
      ChannelsAtMostSubs(rest);
      assert |Stats(subs)| == 1 + |Stats(rest)|;
      if n > 1 {
        assert subs[0].channel == subs[1].channel;
      } else {
        assert forall i :: 1 <= i < |subs| ==> subs[i] == rest[i - 1];
        assert forall i :: 0 <= i < |rest| ==> rest[i] == subs[i + 1];
      }
    }
  }

  // What a client makes of a record.
  function ReadStat(r: Codec.Rec): Option<Stat> {
    if |r.meta| != CHANNEL || |r.name| > 255 then None
    else
      var a, b := DecodeLE(r.meta[1..9]), DecodeLE(r.meta[9..17]);
      if a >= U64 || b >= U64 then None else Some(Stat(r.name, a, b, DecodeLE(r.meta[17..25])))
  }

  // Where the fields of a record lie.
  lemma MetaLayout(s: Stat)
    ensures |MetaOf(s)| == CHANNEL
    ensures MetaOf(s)[0] == |s.name|
    ensures MetaOf(s)[1..9] == EncodeLE(s.readSum, 8)
    ensures MetaOf(s)[9..17] == EncodeLE(s.writeSum, 8)
    ensures MetaOf(s)[17..25] == EncodeLE(s.connections, 8)
  {
  }

  lemma RecReadsBack(s: Stat)
    requires s.connections < U64
    ensures Codec.WellFormed(Codec.Layout(CHANNEL, true), RecOf(s))
    ensures ReadStat(RecOf(s)) == Some(s)
  {
    DecodeEncodeWord(s.readSum);
    DecodeEncodeWord(s.writeSum);
    DecodeEncodeWord(s.connections);
    MetaLayout(s);
    hide EncodeLE, DecodeLE, MetaOf;
  }

  lemma {:induction false} RecsReadBack(stats: seq<Stat>)
    requires forall s :: s in stats ==> s.connections < U64
    ensures Codec.AllWellFormed(Codec.Layout(CHANNEL, true), RecsOf(stats))
    ensures |RecsOf(stats)| == |stats|
    ensures forall i :: 0 <= i < |stats| ==> ReadStat(RecsOf(stats)[i]) == Some(stats[i])
  {
    hide RecOf, ReadStat, Codec.WellFormed;
    if stats == [] {
    } else {
      RecReadsBack(stats[0]);
      RecsReadBack(stats[1..]);
    }
  }

  lemma {:induction false} OfLength(subs: seq<Sub>, channel: Key)
    ensures |Of(subs, channel)| <= |subs|
  {
    if subs == [] {
    } else {
      OfLength(subs[1..], channel);
    }
  }

  // Decoding the response yields every channel with its sums and its subscription count.
  lemma ChannelsRoundTrip(subs: seq<Sub>, next: seq<Byte>)
    requires Grouped(subs) && |subs| < U64
    ensures var groups := Groups(subs);
            var answer := Codec.Decode(Codec.Layout(CHANNEL, true), Codec.Encode(AllRecs(groups)) + next);
            && answer.Some? && answer.value.1 == next
            && |answer.value.0| == |groups| == CeilDiv(|Stats(subs)|, PER_FRAGMENT)
            && (forall i :: 0 <= i < |groups| ==>
                  && answer.value.0[i].index == i + 1
                  && |answer.value.0[i].records| == |groups[i]|
                  && forall j :: 0 <= j < |groups[i]| ==>
                       ReadStat(answer.value.0[i].records[j]) == Some(groups[i][j]))
            && Flatten(groups) == Stats(subs)
  {
    var groups, l := Groups(subs), Codec.Layout(CHANNEL, true);
    StatsAreTheChannels(subs);
    ChannelsAtMostSubs(subs);
    GroupsConserve(subs);
    FragmentCount(subs);
    assert (|Stats(subs)| + 80) / 81 <= |Stats(subs)|;
    NamesOfAllAt(groups);
    var recs := AllRecs(groups);
    hide Groups, AllRecs, RecsOf, Stats, ReadStat, Codec.Encode, Codec.Decode, Grouped;
    forall i | 0 <= i < |groups|
      ensures Codec.AllWellFormed(l, recs[i]) && |recs[i]| == |groups[i]| < U64
      ensures forall j :: 0 <= j < |groups[i]| ==> ReadStat(recs[i][j]) == Some(groups[i][j])
    {
      forall s: Stat | s in groups[i] ensures s.connections < U64 {
        assert groups[i] in groups;
        MemberOfFlatten(groups, s);
        OfLength(subs, s.name);
      }
      RecsReadBack(groups[i]);
      GroupLength(groups, i);
    }
    Codec.ResponseRoundTrip(l, recs, next);
    forall i | 0 <= i < |groups|
      ensures |Codec.Numbered(1, recs)| == |recs|
      ensures Codec.Numbered(1, recs)[i] == Codec.Fragment(i + 1, recs[i])
    {
      Codec.NumberedAt(1, recs, i);
    }
  }

  lemma {:induction false} GroupLength(groups: seq<seq<Stat>>, i: nat)
    requires i < |groups|
    ensures |groups[i]| <= |Flatten(groups)|
  {
    if i > 0 {
      GroupLength(groups[1..], i - 1);
    }
  }
}
