/** The rolling observer: rows once published are derived again, unchanged, by every later run. */
module Observer {
  import opened Wrappers
  import opened Texts
  import Funding

  type Symbol = Text

  datatype Bar = Bar(time: int, close: real)

  const HOURS_8: int := 28_800
  const WINDOW_SIZE: int := 500
  const REFERENCE := Lit("BTCUSDT")

  // ---- closed bars ----

  predicate IsClosed(b: Bar, now: int) {
    b.time + HOURS_8 <= now
  }

  /** One symbol's list in `filter_closed_bars`. */
  function ClosedBars(bars: seq<Bar>, now: int): seq<Bar> {
    if bars == [] then []
    else
      var before := ClosedBars(bars[..|bars| - 1], now);
      if IsClosed(bars[|bars| - 1], now) then before + [bars[|bars| - 1]] else before
  }

  predicate TimeOrdered(bars: seq<Bar>) {
    forall i, j :: 0 <= i < j < |bars| ==> bars[i].time < bars[j].time
  }

  lemma OneMoreBar(bars: seq<Bar>, now: int, n: nat)
    requires bars != [] && TimeOrdered(bars) && n <= |bars| - 1
    requires forall i :: 0 <= i < |bars| - 1 ==> (i < n <==> IsClosed(bars[i], now))
    ensures var m := |bars| - 1;
            if IsClosed(bars[m], now) then n == m && bars[..n] + [bars[m]] == bars[..|bars|]
            else bars[..m][..n] == bars[..n]
  {
    var m := |bars| - 1;
    assert n < m ==> bars[n].time < bars[m].time;
  }

  /** In time order the closed bars are the first n. */
  lemma {:induction false} ClosedIsPrefix(bars: seq<Bar>, now: int) returns (n: nat)
    requires TimeOrdered(bars)
    ensures n <= |bars| && ClosedBars(bars, now) == bars[..n]
    ensures forall i :: 0 <= i < |bars| ==> (i < n <==> IsClosed(bars[i], now))
  {
    n := 0;
    if bars != [] {
      var m := |bars| - 1;
      n := ClosedIsPrefix(bars[..m], now);
      assert forall i :: 0 <= i < m ==> bars[..m][i] == bars[i];
      hide IsClosed, TimeOrdered;
      OneMoreBar(bars, now, n);
      if IsClosed(bars[m], now) {
        n := |bars|;
      }
    }
  }

  /** Bars are appended in time order and a closed bar is final: what was closed at one time comes first among
      what is closed at any later time. */
  lemma ClosedBarsGrow(bars: seq<Bar>, bars': seq<Bar>, now: int, now': int)
    requires TimeOrdered(bars) && TimeOrdered(bars') && now <= now'
    requires ClosedBars(bars, now) <= bars'
    ensures ClosedBars(bars, now) <= ClosedBars(bars', now')
  {
    var n := ClosedIsPrefix(bars, now);
    var n' := ClosedIsPrefix(bars', now');
    if n > 0 {
      assert bars'[n - 1] == ClosedBars(bars, now)[n - 1] == bars[n - 1];
      assert IsClosed(bars'[n - 1], now');
    }
  }

  // ---- the strategy, as deterministic steps ----

  datatype Regime = LowVol | HighVol | Unknown

  /** The parts whose source is elsewhere: overlay O, volatility tracker V, weights and the logarithmic return. */
  datatype Engine<!O, !V> = Engine(
    overlay: Symbol -> O,
    onBar: (O, Bar) -> (O, bool, Regime),
    tracker: V,
    update: (V, real) -> V,
    volatility: V -> real,
    weights: (seq<Symbol>, map<Symbol, V>) -> (Symbol -> real),
    logReturn: (real, real) -> real,
    heatCap: real)

  /** What the loop remembers about one symbol. */
  datatype Memory<O, V> = Memory(previousClose: Option<real>, overlay: O, tracker: V)

  datatype Inputs = Inputs(bars: map<Symbol, seq<Bar>>, funding: Option<seq<Funding.FundingRow>>)

  /** A symbol whose signal is long on a bar, with its return after carry. */
  datatype Active = Active(symbol: Symbol, net: real)

  /** The code asks the dictionary for a time written as text, while its keys hold timestamps, so it always falls
      back to the scan; on a sorted table the dictionary would answer the same (`Funding.FastIsScan`). */
  function Carry(funding: Option<seq<Funding.FundingRow>>, symbol: Symbol, time: int): real {
    if funding.None? then 0.0
    else
      var rate := Funding.FundingFast(symbol, time, Funding.LookupOf(funding.value), funding.value);
      (if rate < 0.0 then -rate else rate) * 3.0
  }

  function Fresh<O, V>(e: Engine<O, V>, symbol: Symbol): Memory<O, V> {
    Memory(None, e.overlay(symbol), e.tracker)
  }

  /** One symbol on one bar; the first bar only sets the previous close. */
  function StepSymbol<O, V>(e: Engine<O, V>, funding: Option<seq<Funding.FundingRow>>, symbol: Symbol,
                            m: Memory<O, V>, b: Bar): (Memory<O, V>, seq<Active>)
  {
    if m.previousClose.None? then (m.(previousClose := Some(b.close)), [])
    else
      var (overlay, long, regime) := e.onBar(m.overlay, b);
      var ret := e.logReturn(m.previousClose.value, b.close);
      var net := ret - Carry(funding, symbol, b.time);
      var tracker := if regime.Unknown? then m.tracker else e.update(m.tracker, ret);
      (Memory(Some(b.close), overlay, tracker), if long then [Active(symbol, net)] else [])
  }

  /** The memory of one symbol after the bars `from .. i`, and whether it is active on the last of them. */
  function After<O, V>(e: Engine<O, V>, inputs: Inputs, symbol: Symbol, from: nat, i: nat): (Memory<O, V>, seq<Active>)
    decreases i
  {
    if i < from || symbol !in inputs.bars then (Fresh(e, symbol), [])
    else
      var before := if i == 0 then Fresh(e, symbol) else After(e, inputs, symbol, from, i - 1).0;
      if i >= |inputs.bars[symbol]| then (before, [])
      else StepSymbol(e, inputs.funding, symbol, before, inputs.bars[symbol][i])
  }

  function ActiveAt<O, V>(e: Engine<O, V>, inputs: Inputs, universe: seq<Symbol>, from: nat, i: nat): seq<Active> {
    if universe == [] then []
    else
      ActiveAt(e, inputs, universe[..|universe| - 1], from, i)
      + After(e, inputs, universe[|universe| - 1], from, i).1
  }

  function Symbols(active: seq<Active>): seq<Symbol> {
    seq(|active|, k requires 0 <= k < |active| => active[k].symbol)
  }

  function Heat<V>(active: seq<Active>, weight: Symbol -> real, volatility: V -> real, trackers: map<Symbol, V>): real {
    if active == [] then 0.0
    else
      var s := active[|active| - 1].symbol;
      Heat(active[..|active| - 1], weight, volatility, trackers)
      + if s in trackers then weight(s) * volatility(trackers[s]) else 0.0
  }

  function Weighted(active: seq<Active>, weight: Symbol -> real): real {
    if active == [] then 0.0
    else
      var a := active[|active| - 1];
      Weighted(active[..|active| - 1], weight) + a.net * weight(a.symbol)
  }

  datatype Row = Row(barIndex: nat, timestamp: int, activeSymbols: seq<Symbol>, heat: real, heatCapTriggered: bool,
                     weightedReturn: real)

  function MakeRow<O, V>(e: Engine<O, V>, i: nat, timestamp: int, active: seq<Active>, trackers: map<Symbol, V>): Row {
    if active == [] then Row(i, timestamp, [], 0.0, false, 0.0)
    else
      var weight := e.weights(Symbols(active), trackers);
      var heat := Heat(active, weight, e.volatility, trackers);
      Row(i, timestamp, Symbols(active), heat, heat > e.heatCap, Weighted(active, weight))
  }

  function Trackers<O, V>(e: Engine<O, V>, inputs: Inputs, universe: seq<Symbol>, from: nat, i: nat): map<Symbol, V> {
    map s | s in universe && s in inputs.bars :: After(e, inputs, s, from, i).0.tracker
  }

  /** The row that a run with these inputs publishes for a bar. */
  function RowAt<O, V>(e: Engine<O, V>, inputs: Inputs, universe: seq<Symbol>, from: nat, i: nat, timestamp: int): Row {
    MakeRow(e, i, timestamp, ActiveAt(e, inputs, universe, from, i), Trackers(e, inputs, universe, from, i))
  }

  // ---- the run ----

  /** The quarters by starting time, with the universe of each. */
  datatype Quarters = Quarters(dates: seq<int>, universes: map<int, seq<Symbol>>)

  const FALLBACK := [Lit("BTCUSDT"), Lit("ETHUSDT")]

  /** The last quarter that has started, or the first one. */
  function SelectQuarter(dates: seq<int>, time: int): int
    requires dates != []
  {
    if |dates| == 1 || time >= dates[|dates| - 1] then dates[|dates| - 1] else SelectQuarter(dates[..|dates| - 1], time)
  }

  /** The first bar at or after a time, or bar 0. */
  function FirstAtOrAfter(bars: seq<Bar>, time: int): nat {
    if exists i :: 0 <= i < |bars| && bars[i].time >= time then Earliest(bars, time) else 0
  }

  function Earliest(bars: seq<Bar>, time: int): (i: nat)
    requires exists i :: 0 <= i < |bars| && bars[i].time >= time
    ensures i < |bars| && bars[i].time >= time && forall k :: 0 <= k < i ==> bars[k].time < time
  {
    if bars[0].time >= time then 0
    else
      assert forall i :: 0 < i < |bars| ==> bars[1..][i - 1] == bars[i];
      var i := Earliest(bars[1..], time);
      assert forall k :: 0 < k <= i ==> bars[k] == bars[1..][k - 1];
      i + 1
  }

  function WindowStart(bars: seq<Bar>): nat {
    if |bars| <= WINDOW_SIZE then 0 else |bars| - WINDOW_SIZE
  }

  datatype Plan = Plan(universe: seq<Symbol>, warmupStart: nat, windowStart: nat, windowEnd: nat)

  function PlanOf(bars: seq<Bar>, quarters: Quarters): (p: Plan)
    requires bars != [] && quarters.dates != []
    ensures p.windowStart < p.windowEnd && p.warmupStart < p.windowEnd
  {
    var start := WindowStart(bars);
    var date := SelectQuarter(quarters.dates, bars[start].time);
    var universe := if date in quarters.universes then quarters.universes[date] else FALLBACK;
    Plan(universe, FirstAtOrAfter(bars, date), start, |bars|)
  }

  predicate Distinct(universe: seq<Symbol>) {
    forall i, j :: 0 <= i < j < |universe| ==> universe[i] != universe[j]
  }

  function FirstRow(p: Plan): nat {
    if p.warmupStart <= p.windowStart then p.windowStart else p.warmupStart
  }

  ghost predicate Remembers<O, V>(e: Engine<O, V>, inputs: Inputs, symbols: seq<Symbol>, from: nat, next: nat,
                                  memory: map<Symbol, Memory<O, V>>)
  {
    forall s :: s in symbols && s in inputs.bars ==>
      s in memory && memory[s] == if next == 0 then Fresh(e, s) else After(e, inputs, s, from, next - 1).0
  }

  /** The inner loop: every symbol of the universe on one bar. */
  method StepBar<O(0), V(0)>(e: Engine<O, V>, inputs: Inputs, universe: seq<Symbol>, from: nat, i: nat,
                             memory: map<Symbol, Memory<O, V>>)
    returns (memory': map<Symbol, Memory<O, V>>, active: seq<Active>)
    requires Distinct(universe) && from <= i && Remembers(e, inputs, universe, from, i, memory)
    ensures Remembers(e, inputs, universe, from, i + 1, memory')
    ensures active == ActiveAt(e, inputs, universe, from, i)
  {
    memory', active := memory, [];
    for k := 0 to |universe|
      invariant active == ActiveAt(e, inputs, universe[..k], from, i)
      invariant Remembers(e, inputs, universe[..k], from, i + 1, memory')
      invariant Remembers(e, inputs, universe[k..], from, i, memory')
    {
      var symbol := universe[k];
      assert symbol in universe[k..];
      assert universe[..k + 1][..k] == universe[..k];
      assert symbol !in universe[..k] && symbol !in universe[k + 1..];
      assert forall s :: s in universe[..k + 1] <==> s in universe[..k] || s == symbol;
      assert forall s :: s in universe[k + 1..] ==> s in universe[k..];
      if symbol in inputs.bars && i < |inputs.bars[symbol]| {
        var step := StepSymbol(e, inputs.funding, symbol, memory'[symbol], inputs.bars[symbol][i]);
        memory' := memory'[symbol := step.0];
        active := active + step.1;
      }
    }
    assert universe[..|universe|] == universe;
  }

  /** The outer loop, from the start of the state to the end of the window. */
  method PublishRows<O(0), V(0)>(e: Engine<O, V>, inputs: Inputs, plan: Plan) returns (rows: seq<Row>)
    requires PlanFits(inputs, plan) && Distinct(plan.universe)
    ensures rows == RowsOf(e, inputs, plan)
  {
    hide After, ActiveAt, MakeRow, StepSymbol, Published, Remembers, Trackers, RowsOf, RowAt, Distinct, FirstRow;
    var universe := plan.universe;
    var memory := map s | s in universe && s in inputs.bars :: Fresh(e, s);
    FreshStart(e, inputs, universe, plan.warmupStart, memory);
    rows := [];
    NothingPublished(e, inputs, plan);
    for i := plan.warmupStart to plan.windowEnd
      invariant Remembers(e, inputs, universe, plan.warmupStart, i, memory)
      invariant Published(e, inputs, plan, rows, i)
    {
      var active;
      memory, active := StepBar(e, inputs, universe, plan.warmupStart, i, memory);
      if i >= plan.windowStart {
        var time := inputs.bars[REFERENCE][i].time;
        RememberedRow(e, inputs, universe, plan.warmupStart, i, memory, time);
        var trackers := map s | s in universe && s in inputs.bars :: memory[s].tracker;
        rows := rows + [MakeRow(e, i, time, active, trackers)];
      }
      PublishStep(e, inputs, plan, rows, i);
    }
    AllPublished(e, inputs, plan, rows);
  }

  /** `run_validation_window`, up to the summary figures */
  method RunValidationWindow<O(0), V(0)>(e: Engine<O, V>, inputs: Inputs, quarters: Quarters)
    returns (r: Option<(Plan, seq<Row>)>)
    requires quarters.dates != [] && forall d :: d in quarters.universes ==> Distinct(quarters.universes[d])
    ensures r.Some? <==> REFERENCE in inputs.bars && inputs.bars[REFERENCE] != []
    ensures r.Some? ==> r.value == (PlanOf(inputs.bars[REFERENCE], quarters),
                                    RowsOf(e, inputs, PlanOf(inputs.bars[REFERENCE], quarters)))
  {
    if REFERENCE !in inputs.bars || inputs.bars[REFERENCE] == [] {
      return None;
    }
    FallbackDistinct();
    var plan := PlanOf(inputs.bars[REFERENCE], quarters);
    var rows := PublishRows(e, inputs, plan);
    return Some((plan, rows));
  }

  predicate PlanFits(inputs: Inputs, p: Plan) {
    && REFERENCE in inputs.bars && p.windowEnd == |inputs.bars[REFERENCE]|
    && p.warmupStart < p.windowEnd && p.windowStart < p.windowEnd
  }

  /** The rows published before bar i. */
  ghost predicate Published<O, V>(e: Engine<O, V>, inputs: Inputs, p: Plan, rows: seq<Row>, i: nat)
    requires PlanFits(inputs, p) && i <= p.windowEnd
  {
    && |rows| == (if i <= FirstRow(p) then 0 else i - FirstRow(p))
    && forall k :: 0 <= k < |rows| ==> rows[k] == RowsOf(e, inputs, p)[k]
  }

  lemma NothingPublished<O, V>(e: Engine<O, V>, inputs: Inputs, p: Plan)
    requires PlanFits(inputs, p)
    ensures Published(e, inputs, p, [], p.warmupStart)
  {
  }

  lemma PublishStep<O, V>(e: Engine<O, V>, inputs: Inputs, p: Plan, rows: seq<Row>, i: nat)
    requires PlanFits(inputs, p) && p.warmupStart <= i < p.windowEnd
    requires if i >= p.windowStart then
               && rows != [] && Published(e, inputs, p, rows[..|rows| - 1], i)
               && rows[|rows| - 1] == RowAt(e, inputs, p.universe, p.warmupStart, i, inputs.bars[REFERENCE][i].time)
             else Published(e, inputs, p, rows, i)
    ensures Published(e, inputs, p, rows, i + 1)
  {
    hide RowAt;
    if i >= p.windowStart {
      var n := |rows| - 1;
      assert FirstRow(p) <= i && n == i - FirstRow(p);
      forall k | 0 <= k < n
        ensures rows[k] == RowsOf(e, inputs, p)[k]
      {
        assert rows[k] == rows[..n][k];
      }
    }
  }

  lemma AllPublished<O, V>(e: Engine<O, V>, inputs: Inputs, p: Plan, rows: seq<Row>)
    requires PlanFits(inputs, p) && Published(e, inputs, p, rows, p.windowEnd)
    ensures rows == RowsOf(e, inputs, p)
  {
  }

  lemma RememberedRow<O, V>(e: Engine<O, V>, inputs: Inputs, universe: seq<Symbol>, from: nat, i: nat,
                            memory: map<Symbol, Memory<O, V>>, time: int)
    requires Remembers(e, inputs, universe, from, i + 1, memory)
    ensures forall s :: s in universe && s in inputs.bars ==> s in memory
    ensures MakeRow(e, i, time, ActiveAt(e, inputs, universe, from, i),
                    map s | s in universe && s in inputs.bars :: memory[s].tracker)
            == RowAt(e, inputs, universe, from, i, time)
  {
    hide After, MakeRow, ActiveAt;
    assert (map s | s in universe && s in inputs.bars :: memory[s].tracker) == Trackers(e, inputs, universe, from, i);
  }

  lemma FallbackDistinct()
    ensures Distinct(FALLBACK)
  {
    assert FALLBACK[0][0] != FALLBACK[1][0];
  }

  lemma FreshStart<O, V>(e: Engine<O, V>, inputs: Inputs, universe: seq<Symbol>, from: nat,
                         memory: map<Symbol, Memory<O, V>>)
    requires forall s :: s in universe && s in inputs.bars ==> s in memory && memory[s] == Fresh(e, s)
    ensures Remembers(e, inputs, universe, from, from, memory)
  {
  }

  /** The rows of a run: one for each bar from the first published one to the end. */
  function RowsOf<O, V>(e: Engine<O, V>, inputs: Inputs, p: Plan): (rows: seq<Row>)
    requires PlanFits(inputs, p)
    ensures |rows| == p.windowEnd - FirstRow(p)
  {
    seq(p.windowEnd - FirstRow(p), k requires 0 <= k < p.windowEnd - FirstRow(p) =>
      RowAt(e, inputs, p.universe, p.warmupStart, FirstRow(p) + k, inputs.bars[REFERENCE][FirstRow(p) + k].time))
  }

  // ---- published rows never change ----

  /** What `run_observer_window` passes on. */
  function ObserverInputs(bars: map<Symbol, seq<Bar>>, funding: Option<seq<Funding.FundingRow>>, now: int): Inputs {
    Inputs(map s | s in bars :: ClosedBars(bars[s], now), funding)
  }

  /** Funding is final up to every bar of the earlier run. */
  ghost predicate FundingFinal(a: Inputs, b: Inputs) {
    && (a.funding.Some? <==> b.funding.Some?)
    && (a.funding.Some? ==>
          && Funding.Sorted(a.funding.value) && Funding.Sorted(b.funding.value)
          && forall s, k :: s in a.bars && 0 <= k < |a.bars[s]| ==>
               Funding.Past(a.funding.value, s, a.bars[s][k].time) == Funding.Past(b.funding.value, s, a.bars[s][k].time))
  }

  /** Bars were only added. */
  ghost predicate BarsGrow(a: Inputs, b: Inputs) {
    a.bars.Keys == b.bars.Keys && forall s :: s in a.bars ==> a.bars[s] <= b.bars[s]
  }

  lemma CarrySame(a: Inputs, b: Inputs, s: Symbol, k: nat)
    requires FundingFinal(a, b) && s in a.bars && k < |a.bars[s]|
    ensures Carry(a.funding, s, a.bars[s][k].time) == Carry(b.funding, s, a.bars[s][k].time)
  {
    hide Funding.Sorted, Funding.Past, Funding.FundingAt, Funding.LookupOf, Funding.FundingFast;
    if a.funding.Some? {
      var t := a.bars[s][k].time;
      Funding.FastIsScan(a.funding.value, s, t);
      Funding.FastIsScan(b.funding.value, s, t);
      Funding.OnlyThePastMatters(a.funding.value, s, t);
      Funding.OnlyThePastMatters(b.funding.value, s, t);
    }
  }

  /** What the loop remembers of a symbol depends on the bars seen so far, and on nothing added since. */
  lemma {:induction false} AfterSame<O, V>(e: Engine<O, V>, a: Inputs, b: Inputs, s: Symbol, from: nat, i: nat)
    requires BarsGrow(a, b) && FundingFinal(a, b)
    requires s in a.bars ==> i < |a.bars[s]|
    ensures After(e, a, s, from, i) == After(e, b, s, from, i)
    decreases i
  {
    if s in a.bars && i >= from {
      CarrySame(a, b, s, i);
      assert a.bars[s][i] == b.bars[s][i];
      hide Carry, FundingFinal;
      if i > 0 {
        AfterSame(e, a, b, s, from, i - 1);
      }
    }
  }

  lemma {:induction false} ActiveSame<O, V>(e: Engine<O, V>, a: Inputs, b: Inputs, universe: seq<Symbol>, from: nat, i: nat)
    requires BarsGrow(a, b) && FundingFinal(a, b)
    requires forall s :: s in universe && s in a.bars ==> i < |a.bars[s]|
    ensures ActiveAt(e, a, universe, from, i) == ActiveAt(e, b, universe, from, i)
  {
    if universe != [] {
      hide After, BarsGrow, FundingFinal;
      var n := |universe| - 1;
      ActiveSame(e, a, b, universe[..n], from, i);
      AfterSame(e, a, b, universe[n], from, i);
    }
  }

  lemma RowSame<O, V>(e: Engine<O, V>, a: Inputs, b: Inputs, universe: seq<Symbol>, from: nat, i: nat, time: int)
    requires BarsGrow(a, b) && FundingFinal(a, b)
    requires forall s :: s in universe && s in a.bars ==> i < |a.bars[s]|
    ensures RowAt(e, a, universe, from, i, time) == RowAt(e, b, universe, from, i, time)
  {
    hide After, ActiveAt, MakeRow, FundingFinal;
    ActiveSame(e, a, b, universe, from, i);
    forall s | s in universe && s in a.bars
      ensures After(e, a, s, from, i) == After(e, b, s, from, i)
    {
      AfterSame(e, a, b, s, from, i);
    }
    assert Trackers(e, a, universe, from, i) == Trackers(e, b, universe, from, i);
  }

  /** The quarter chosen for a run, and that it starts no later than the window. */
  ghost predicate InQuarter(bars: seq<Bar>, quarters: Quarters, date: int)
    requires bars != [] && quarters.dates != []
  {
    var time := bars[WindowStart(bars)].time;
    SelectQuarter(quarters.dates, time) == date && date <= time
  }

  lemma SamePlan(a: seq<Bar>, b: seq<Bar>, quarters: Quarters, date: int)
    requires a != [] && a <= b && quarters.dates != []
    requires InQuarter(a, quarters, date) && InQuarter(b, quarters, date)
    ensures var (p, q) := (PlanOf(a, quarters), PlanOf(b, quarters));
            && p.universe == q.universe && p.warmupStart == q.warmupStart
            && p.warmupStart <= p.windowStart && q.warmupStart <= q.windowStart
            && p.windowStart <= q.windowStart
  {
    var i, j := FirstAtOrAfter(a, date), FirstAtOrAfter(b, date);
    assert a[WindowStart(a)].time >= date && b[WindowStart(b)].time >= date;
    assert b[i] == a[i];
    assert j <= i;
    assert a[j] == b[j];
  }

  /** Published rows never change: take a later run on the same bars and more, with funding final up to each bar of
      the earlier run, every symbol of the universe as long as the reference series, and the same quarter starting
      no later than either window. Both runs publish exactly one row for each bar of their windows, and the rows of
      shared bars are identical. */
  lemma PublishedRowsNeverChange<O, V>(e: Engine<O, V>, a: Inputs, b: Inputs, quarters: Quarters, date: int, i: nat)
    requires quarters.dates != [] && REFERENCE in a.bars && a.bars[REFERENCE] != []
    requires BarsGrow(a, b) && FundingFinal(a, b)
    requires InQuarter(a.bars[REFERENCE], quarters, date) && InQuarter(b.bars[REFERENCE], quarters, date)
    requires forall s :: s in PlanOf(a.bars[REFERENCE], quarters).universe && s in a.bars ==>
                           |a.bars[s]| >= |a.bars[REFERENCE]|
    ensures var (p, q) := (PlanOf(a.bars[REFERENCE], quarters), PlanOf(b.bars[REFERENCE], quarters));
            && |RowsOf(e, a, p)| == p.windowEnd - p.windowStart
            && |RowsOf(e, b, q)| == q.windowEnd - q.windowStart
            && (q.windowStart <= i < p.windowEnd ==>
                  && p.windowStart <= i < q.windowEnd
                  && RowsOf(e, a, p)[i - p.windowStart] == RowsOf(e, b, q)[i - q.windowStart])
  {
    hide RowAt, FundingFinal, InQuarter;
    var p, q := PlanOf(a.bars[REFERENCE], quarters), PlanOf(b.bars[REFERENCE], quarters);
    SamePlan(a.bars[REFERENCE], b.bars[REFERENCE], quarters, date);
    hide PlanOf;
    if q.windowStart <= i < p.windowEnd {
      assert a.bars[REFERENCE][i] == b.bars[REFERENCE][i];
      RowSame(e, a, b, p.universe, p.warmupStart, i, a.bars[REFERENCE][i].time);
    }
  }

  /** A run publishes one row for each bar of its window exactly when the state starts no later than the window. */
  lemma OneRowPerBar<O, V>(e: Engine<O, V>, inputs: Inputs, p: Plan)
    requires PlanFits(inputs, p)
    ensures |RowsOf(e, inputs, p)| == p.windowEnd - p.windowStart <==> p.warmupStart <= p.windowStart
    ensures forall k :: 0 <= k < |RowsOf(e, inputs, p)| ==> RowsOf(e, inputs, p)[k].barIndex == FirstRow(p) + k
  {
    hide ActiveAt, Trackers;
    var rows := RowsOf(e, inputs, p);
    forall k | 0 <= k < |rows|
      ensures rows[k].barIndex == FirstRow(p) + k
    {
      var i := FirstRow(p) + k;
      assert rows[k] == RowAt(e, inputs, p.universe, p.warmupStart, i, inputs.bars[REFERENCE][i].time);
    }
  }

  /** The same for two observer runs at two times, on growing lists of raw bars. */
  lemma ObserverInputsGrow(bars: map<Symbol, seq<Bar>>, bars': map<Symbol, seq<Bar>>,
                           funding: Option<seq<Funding.FundingRow>>, funding': Option<seq<Funding.FundingRow>>,
                           now: int, now': int)
    requires now <= now' && bars.Keys == bars'.Keys
    requires forall s :: s in bars ==>
               TimeOrdered(bars[s]) && TimeOrdered(bars'[s]) && ClosedBars(bars[s], now) <= bars'[s]
    ensures BarsGrow(ObserverInputs(bars, funding, now), ObserverInputs(bars', funding', now'))
  {
    hide ClosedBars, TimeOrdered;
    forall s | s in bars
      ensures ClosedBars(bars[s], now) <= ClosedBars(bars'[s], now')
    {
      ClosedBarsGrow(bars[s], bars'[s], now, now');
    }
  }

  /** Two observer runs at two times: bars are appended in time order, a closed bar is final, and so is funding up to
      it. Each run publishes one row for each bar of its window, and no row published by the first is different in
      the second. */
  lemma ObserverRowsNeverChange<O, V>(e: Engine<O, V>, bars: map<Symbol, seq<Bar>>, bars': map<Symbol, seq<Bar>>,
                                      funding: Option<seq<Funding.FundingRow>>,
                                      funding': Option<seq<Funding.FundingRow>>,
                                      now: int, now': int, quarters: Quarters, date: int, i: nat)
    requires now <= now' && bars.Keys == bars'.Keys
    requires forall s :: s in bars ==>
               TimeOrdered(bars[s]) && TimeOrdered(bars'[s]) && ClosedBars(bars[s], now) <= bars'[s]
    requires quarters.dates != [] && REFERENCE in bars && ClosedBars(bars[REFERENCE], now) != []
    requires ClosedBars(bars'[REFERENCE], now') != []
    requires FundingFinal(ObserverInputs(bars, funding, now), ObserverInputs(bars', funding', now'))
    requires InQuarter(ClosedBars(bars[REFERENCE], now), quarters, date)
    requires InQuarter(ClosedBars(bars'[REFERENCE], now'), quarters, date)
    requires forall s :: s in PlanOf(ClosedBars(bars[REFERENCE], now), quarters).universe && s in bars ==>
               |ClosedBars(bars[s], now)| >= |ClosedBars(bars[REFERENCE], now)|
    ensures var a, b := ObserverInputs(bars, funding, now), ObserverInputs(bars', funding', now');
            var (p, q) := (PlanOf(a.bars[REFERENCE], quarters), PlanOf(b.bars[REFERENCE], quarters));
            && |RowsOf(e, a, p)| == p.windowEnd - p.windowStart
            && |RowsOf(e, b, q)| == q.windowEnd - q.windowStart
            && (q.windowStart <= i < p.windowEnd ==>
                  && p.windowStart <= i < q.windowEnd
                  && RowsOf(e, a, p)[i - p.windowStart] == RowsOf(e, b, q)[i - q.windowStart])
  {
    hide ClosedBars, PlanOf, RowsOf, FundingFinal, InQuarter, TimeOrdered;
    var a, b := ObserverInputs(bars, funding, now), ObserverInputs(bars', funding', now');
    ObserverInputsGrow(bars, bars', funding, funding', now, now');
    PublishedRowsNeverChange(e, a, b, quarters, date, i);
  }
}
