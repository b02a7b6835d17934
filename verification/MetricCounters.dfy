/** The counters that requests mark while a collector empties them once a minute. Every
    atomic operation is a step, so marks land between any two steps of the collector. */
module MetricCounters {
  import opened Bytes
  import opened Wrappers

  // ----- The read (or write) counters of a storage entry

  // The collector holds in a local variable what it took from the counter.
  datatype Collector = Idle | Took(n: Word) | Published(n: Word)

  datatype Cell = Cell(count: Word, collector: Collector, accumulator: Word, perMinute: Word)

  const FRESH: Cell := Cell(0, Idle, 0, 0)

  datatype Step =
    | MarkOne       // reads_.fetch_add(1)
    | Take          // reads_.exchange(0)
    | Publish       // reads_per_minute_.store
    | Accumulate    // reads_accumulator_.fetch_add

  predicate CanStep(c: Cell, s: Step) {
    match s
    case MarkOne => true
    case Take => c.collector.Idle?
    case Publish => c.collector.Took?
    case Accumulate => c.collector.Published?
  }

  function After(c: Cell, s: Step): Cell
    requires CanStep(c, s)
  {
    match s
    case MarkOne => c.(count := Add64(c.count, 1))
    case Take => c.(count := 0, collector := Took(c.count))
    case Publish => c.(perMinute := c.collector.n, collector := Published(c.collector.n))
    case Accumulate => c.(accumulator := Add64(c.accumulator, c.collector.n), collector := Idle)
  }

  function InFlight(c: Cell): Word {
    if c.collector.Idle? then 0 else c.collector.n
  }

  ghost predicate IsRun(cells: seq<Cell>, steps: seq<Step>) {
    && |cells| == |steps| + 1
    && forall i :: 0 <= i < |steps| ==> CanStep(cells[i], steps[i]) && After(cells[i], steps[i]) == cells[i + 1]
  }

  function Marks(steps: seq<Step>, n: nat): nat
    requires n <= |steps|
  {
    if n == 0 then 0 else Marks(steps, n - 1) + if steps[n - 1].MarkOne? then 1 else 0
  }

  // Sums of words, up to whole turns of the 64-bit counter.
  ghost predicate Same(a: nat, b: nat) {
    exists q: int :: a == b + q * U64
  }

  lemma SameFrom(a: nat, b: nat, q: int)
    requires a == b + q * U64
    ensures Same(a, b)
  {
  }

  lemma AddIsSame(a: Word, b: nat)
    ensures exists q: int :: Add64(a, b) + q * U64 == a + b
  {
    assert Add64(a, b) + ((a + b) / U64) * U64 == a + b;
  }

  lemma StepConserves(c: Cell, s: Step, marks: nat)
    requires CanStep(c, s)
    requires Same(c.count + InFlight(c) + c.accumulator, marks)
    ensures var c' := After(c, s);
            Same(c'.count + InFlight(c') + c'.accumulator, marks + if s.MarkOne? then 1 else 0)
  {
    var q: int :| c.count + InFlight(c) + c.accumulator == marks + q * U64;
    var c' := After(c, s);
    match s
    case MarkOne =>
      AddIsSame(c.count, 1);
      var k: int :| Add64(c.count, 1) + k * U64 == c.count + 1;
      SameFrom(c'.count + InFlight(c') + c'.accumulator, marks + 1, q - k);
    case Accumulate =>
      AddIsSame(c.accumulator, c.collector.n);
      var k: int :| Add64(c.accumulator, c.collector.n) + k * U64 == c.accumulator + c.collector.n;
      SameFrom(c'.count + InFlight(c') + c'.accumulator, marks, q - k);
    case _ =>
      SameFrom(c'.count + InFlight(c') + c'.accumulator, marks, q);
  }

  // However marks and the collector interleave, every mark is in the counter, in the
  // collector's hands or in the accumulator, and in only one of them.
  lemma {:induction false} MarksConserved(cells: seq<Cell>, steps: seq<Step>, n: nat)
    requires IsRun(cells, steps) && cells[0] == FRESH && n <= |steps|
    ensures Same(cells[n].count + InFlight(cells[n]) + cells[n].accumulator, Marks(steps, n))
  {
    if n == 0 {
      SameFrom(0, 0, 0);
    } else {
      MarksConserved(cells, steps, n - 1);
      assert After(cells[n - 1], steps[n - 1]) == cells[n];
      StepConserves(cells[n - 1], steps[n - 1], Marks(steps, n - 1));
    }
  }

  // The sum of the per-minute figures that the collector has stored.
  ghost function PerMinutes(cells: seq<Cell>, steps: seq<Step>, n: nat): nat
    requires n <= |steps| && IsRun(cells, steps)
  {
    if n == 0 then 0
    else PerMinutes(cells, steps, n - 1) + if steps[n - 1].Publish? then cells[n].perMinute else 0
  }

  // What the collector has taken and not yet shown.
  function Unshown(c: Cell): Word {
    if c.collector.Took? then c.collector.n else 0
  }

  // Every mark is shown in exactly one per-minute figure, or is still to be.
  lemma {:induction false} MinutesConserve(cells: seq<Cell>, steps: seq<Step>, n: nat)
    requires IsRun(cells, steps) && cells[0] == FRESH && n <= |steps|
    ensures Same(PerMinutes(cells, steps, n) + Unshown(cells[n]) + cells[n].count, Marks(steps, n))
  {
    if n == 0 {
      SameFrom(0, 0, 0);
    } else {
      MinutesConserve(cells, steps, n - 1);
      var c, s := cells[n - 1], steps[n - 1];
      assert After(c, s) == cells[n];
      var q: int :| PerMinutes(cells, steps, n - 1) + Unshown(c) + c.count == Marks(steps, n - 1) + q * U64;
      match s
      case MarkOne =>
        AddIsSame(c.count, 1);
        var k: int :| Add64(c.count, 1) + k * U64 == c.count + 1;
        SameFrom(PerMinutes(cells, steps, n) + Unshown(cells[n]) + cells[n].count, Marks(steps, n), q - k);
      case _ =>
    }
  }

  lemma StepConservesExactly(c: Cell, s: Step, marks: nat)
    requires CanStep(c, s)
    requires c.count + InFlight(c) + c.accumulator == marks < U64 - 1
    ensures var c' := After(c, s);
            c'.count + InFlight(c') + c'.accumulator == marks + if s.MarkOne? then 1 else 0
  {
  }

  // Short of 2^64 marks the equation is exact.
  lemma {:induction false} MarksConservedExactly(cells: seq<Cell>, steps: seq<Step>, n: nat)
    requires IsRun(cells, steps) && cells[0] == FRESH && n <= |steps| && n < U64
    ensures cells[n].count + InFlight(cells[n]) + cells[n].accumulator == Marks(steps, n)
  {
    if n == 0 {
    } else {
      MarksConservedExactly(cells, steps, n - 1);
      MarksAtMost(steps, n - 1);
      assert After(cells[n - 1], steps[n - 1]) == cells[n];
      StepConservesExactly(cells[n - 1], steps[n - 1], Marks(steps, n - 1));
    }
  }

  lemma {:induction false} MarksAtMost(steps: seq<Step>, n: nat)
    requires n <= |steps|
    ensures Marks(steps, n) <= n
  {
    if n > 0 {
      MarksAtMost(steps, n - 1);
    }
  }

  // ----- The per-command metric, operation by operation

  // `open` are the marks between their two additions, whichever threads they run on.
  datatype Gauge = Gauge(count: Word, taken: Option<Word>, accumulator: Word, perMinute: Word, open: seq<Word>)

  const UNMARKED: Gauge := Gauge(0, None, 0, 0, [])

  datatype Operation =
    | AddCount(n: Word)         // mark: count_.fetch_add
    | AddAccumulator(i: nat)    // mark: accumulator_.fetch_add, by the i-th open mark
    | Exchange                  // compute: count_.exchange(0)
    | Store                     // compute: per_minute_.store

  predicate CanDo(g: Gauge, o: Operation) {
    match o
    case AddCount(_) => true
    case AddAccumulator(i) => i < |g.open|
    case Exchange => g.taken.None?
    case Store => g.taken.Some?
  }

  function Do(g: Gauge, o: Operation): Gauge
    requires CanDo(g, o)
  {
    match o
    case AddCount(n) => g.(count := Add64(g.count, n), open := g.open + [n])
    case AddAccumulator(i) =>
      g.(accumulator := Add64(g.accumulator, g.open[i]), open := g.open[..i] + g.open[i + 1..])
    case Exchange => g.(count := 0, taken := Some(g.count))
    case Store => g.(perMinute := g.taken.value, taken := None)
  }

  ghost predicate Interleaves(gauges: seq<Gauge>, operations: seq<Operation>) {
    && |gauges| == |operations| + 1
    && forall i :: 0 <= i < |operations| ==>
         CanDo(gauges[i], operations[i]) && Do(gauges[i], operations[i]) == gauges[i + 1]
  }

  // The sum of the marks begun.
  function Marked(operations: seq<Operation>, n: nat): nat
    requires n <= |operations|
  {
    if n == 0 then 0
    else Marked(operations, n - 1) + if operations[n - 1].AddCount? then operations[n - 1].n else 0
  }

  // The sum of the figures that snapshots have stored.
  ghost function Shown(gauges: seq<Gauge>, operations: seq<Operation>, n: nat): nat
    requires n <= |operations| && Interleaves(gauges, operations)
  {
    if n == 0 then 0
    else Shown(gauges, operations, n - 1) + if operations[n - 1].Store? then gauges[n].perMinute else 0
  }

  function Taken(g: Gauge): Word {
    if g.taken.None? then 0 else g.taken.value
  }

  function Sum(ns: seq<Word>): nat {
    if ns == [] then 0 else ns[0] + Sum(ns[1..])
  }

  lemma {:induction false} SumAppend(a: seq<Word>, b: seq<Word>)
    ensures Sum(a + b) == Sum(a) + Sum(b)
  {
    if a == [] {
      assert a + b == b;
    } else {
      SumAppend(a[1..], b);
      assert (a + b)[1..] == a[1..] + b;
    }
  }

  lemma SumWithout(ns: seq<Word>, i: nat)
    requires i < |ns|
    ensures Sum(ns[..i] + ns[i + 1..]) + ns[i] == Sum(ns)
  {
    SumAppend(ns[..i], ns[i + 1..]);
    SumAppend(ns[..i], ns[i..]);
    assert ns[..i] + ns[i..] == ns;
  }

  // One operation, in terms of what is in the counters' hands.
  lemma OperationConserves(g: Gauge, o: Operation, shown: nat, marked: nat)
    requires CanDo(g, o)
    requires Same(shown + Taken(g) + g.count, marked)
    requires Same(g.accumulator + Sum(g.open), marked)
    ensures var g' := Do(g, o);
            var shown' := shown + if o.Store? then g'.perMinute else 0;
            var marked' := marked + if o.AddCount? then o.n else 0;
            && Same(shown' + Taken(g') + g'.count, marked')
            && Same(g'.accumulator + Sum(g'.open), marked')
  {
    var q: int :| shown + Taken(g) + g.count == marked + q * U64;
    var r: int :| g.accumulator + Sum(g.open) == marked + r * U64;
    match o
    case AddCount(n) =>
      AddIsSame(g.count, n);
      var k: int :| Add64(g.count, n) + k * U64 == g.count + n;
      SameFrom(shown + Taken(g) + Add64(g.count, n), marked + n, q - k);
      SumAppend(g.open, [n]);
      SameFrom(g.accumulator + Sum(g.open + [n]), marked + n, r);
    case AddAccumulator(i) =>
      var n := g.open[i];
      AddIsSame(g.accumulator, n);
      var k: int :| Add64(g.accumulator, n) + k * U64 == g.accumulator + n;
      SumWithout(g.open, i);
      SameFrom(Add64(g.accumulator, n) + Sum(g.open[..i] + g.open[i + 1..]), marked, r - k);
    case _ =>
  }

  // However marks and snapshots interleave, the sum of the snapshots, the one being taken
  // and the count make up what was marked; so does the accumulator together with the marks
  // between their two additions, and by itself when there are none.
  lemma {:induction false} SnapshotsConserve(gauges: seq<Gauge>, operations: seq<Operation>, n: nat)
    requires Interleaves(gauges, operations) && gauges[0] == UNMARKED && n <= |operations|
    ensures Same(Shown(gauges, operations, n) + Taken(gauges[n]) + gauges[n].count, Marked(operations, n))
    ensures Same(gauges[n].accumulator + Sum(gauges[n].open), Marked(operations, n))
    ensures gauges[n].open == [] ==> Same(gauges[n].accumulator, Marked(operations, n))
  {
    if n == 0 {
      SameFrom(0, 0, 0);
    } else {
      SnapshotsConserve(gauges, operations, n - 1);
      assert Do(gauges[n - 1], operations[n - 1]) == gauges[n];
      OperationConserves(gauges[n - 1], operations[n - 1], Shown(gauges, operations, n - 1), Marked(operations, n - 1));
    }
  }

  // ----- The object itself, whose calls are whole

  class Metric {
    var count: Word
    var accumulator: Word
    var perMinute: Word
    // everything ever marked, and everything the snapshots have shown
    ghost var marked: nat
    ghost var snapshots: nat

    // Up to turns of the counters, what was marked is what the snapshots showed plus what
    // the next one will show; and the accumulator has all of it.
    ghost predicate Valid()
      reads this
    {
      Same(count + snapshots, marked) && Same(accumulator, marked)
    }

    constructor ()
      ensures Valid() && marked == 0 && snapshots == 0
    {
      count, accumulator, perMinute := 0, 0, 0;
      marked, snapshots := 0, 0;
      new;
      SameFrom(0, 0, 0);
    }

    method Mark(step: Word)
      requires Valid()
      modifies this
      ensures Valid() && marked == old(marked) + step && snapshots == old(snapshots)
      ensures count == Add64(old(count), step) && accumulator == Add64(old(accumulator), step)
      ensures perMinute == old(perMinute)
    {
      ghost var q: int :| count + snapshots == marked + q * U64;
      ghost var r: int :| accumulator == marked + r * U64;
      AddIsSame(count, step);
      AddIsSame(accumulator, step);
      ghost var k: int :| Add64(count, step) + k * U64 == count + step;
      ghost var l: int :| Add64(accumulator, step) + l * U64 == accumulator + step;
      count := Add64(count, step);
      accumulator := Add64(accumulator, step);
      marked := marked + step;
      SameFrom(count + snapshots, marked, q - k);
      SameFrom(accumulator, marked, r - l);
    }

    method Compute()
      requires Valid()
      modifies this
      ensures Valid() && marked == old(marked) && snapshots == old(snapshots) + perMinute
      ensures perMinute == old(count) && count == 0 && accumulator == old(accumulator)
    {
      snapshots := snapshots + count;
      perMinute := count;
      count := 0;
    }
  }
}
