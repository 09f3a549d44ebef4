/** What a published observer row holds, in terms of the bars, the funding table and the strategy alone. */
module ObserverRows {
  import opened Wrappers
  import opened Texts
  import opened Observer
  import Funding

  // ---- one symbol, from the bars it has seen ----

  /** The bars of a symbol from the start of the state to bar i. */
  function Seen(bars: seq<Bar>, from: nat, i: nat): seq<Bar> {
    if from >= |bars| || i < from then [] else bars[from..if i < |bars| then i + 1 else |bars|]
  }

  /** The overlay is fed every bar but the first. */
  function OverlayAfter<O, V>(e: Engine<O, V>, symbol: Symbol, seen: seq<Bar>): O {
    if |seen| <= 1 then e.overlay(symbol)
    else e.onBar(OverlayAfter(e, symbol, seen[..|seen| - 1]), seen[|seen| - 1]).0
  }

  predicate IsLong<O, V>(e: Engine<O, V>, symbol: Symbol, seen: seq<Bar>)
    requires |seen| >= 2
  {
    e.onBar(OverlayAfter(e, symbol, seen[..|seen| - 1]), seen[|seen| - 1]).1
  }

  function RegimeOn<O, V>(e: Engine<O, V>, symbol: Symbol, seen: seq<Bar>): Regime
    requires |seen| >= 2
  {
    e.onBar(OverlayAfter(e, symbol, seen[..|seen| - 1]), seen[|seen| - 1]).2
  }

  /** The return from the last bar but one to the last. */
  function RawReturn<O, V>(e: Engine<O, V>, seen: seq<Bar>): real
    requires |seen| >= 2
  {
    e.logReturn(seen[|seen| - 2].close, seen[|seen| - 1].close)
  }

  /** The tracker takes the raw return of each bar after the first whose regime is known. */
  function TrackerAfter<O, V>(e: Engine<O, V>, symbol: Symbol, seen: seq<Bar>): V {
    if |seen| <= 1 then e.tracker
    else
      var before := TrackerAfter(e, symbol, seen[..|seen| - 1]);
      if RegimeOn(e, symbol, seen).Unknown? then before else e.update(before, RawReturn(e, seen))
  }

  /** The rate that is charged: the last row at exactly this time if there is one, else the last row at or before it,
      else nothing. */
  ghost predicate IsRate(table: seq<Funding.FundingRow>, symbol: Symbol, time: int, rate: real) {
    if exists i :: 0 <= i < |table| && (table[i].symbol, table[i].dt) == (symbol, time) then
      exists i :: 0 <= i < |table| && (table[i].symbol, table[i].dt) == (symbol, time) && Funding.LastOfKey(table, i)
                  && rate == table[i].rate
    else if exists i :: 0 <= i < |table| && table[i].symbol == symbol && table[i].dt <= time then
      exists i :: 0 <= i < |table| && Funding.LastAtOrBefore(table, i, symbol, time) && rate == table[i].rate
    else rate == 0.0
  }

  /** Three times the absolute rate. */
  ghost predicate IsCarry(funding: Option<seq<Funding.FundingRow>>, symbol: Symbol, time: int, carry: real) {
    if funding.None? then carry == 0.0
    else exists rate: real :: IsRate(funding.value, symbol, time, rate) && carry == 3.0 * (if rate < 0.0 then 0.0 - rate else rate)
  }

  lemma {:induction false} LastExists(table: seq<Funding.FundingRow>, key: (Text, int))
    requires exists i :: 0 <= i < |table| && (table[i].symbol, table[i].dt) == key
    ensures exists i :: 0 <= i < |table| && (table[i].symbol, table[i].dt) == key && Funding.LastOfKey(table, i)
  {
    var n := |table| - 1;
    if (table[n].symbol, table[n].dt) == key {
      assert Funding.LastOfKey(table, n);
    } else {
      var k :| 0 <= k < |table| && (table[k].symbol, table[k].dt) == key;
      assert table[..n][k] == table[k];
      LastExists(table[..n], key);
      var i :| 0 <= i < n && (table[..n][i].symbol, table[..n][i].dt) == key && Funding.LastOfKey(table[..n], i);
      assert forall j :: i < j < n ==> table[j] == table[..n][j];
      assert Funding.LastOfKey(table, i);
    }
  }

  lemma FastIsRate(table: seq<Funding.FundingRow>, symbol: Symbol, time: int)
    ensures IsRate(table, symbol, time, Funding.FundingFast(symbol, time, Funding.LookupOf(table), table))
  {
    Funding.KeysAreRows(table, (symbol, time));
    Funding.ScanFindsLast(table, symbol, time);
    if exists i :: 0 <= i < |table| && (table[i].symbol, table[i].dt) == (symbol, time) {
      LastExists(table, (symbol, time));
      var i :| 0 <= i < |table| && (table[i].symbol, table[i].dt) == (symbol, time) && Funding.LastOfKey(table, i);
      Funding.LastRowWins(table, i);
    }
    hide Funding.LookupOf, Funding.FundingAt;
  }

  /** The carry charged is three times the absolute rate, and nothing without a table. */
  lemma CarryIs(funding: Option<seq<Funding.FundingRow>>, symbol: Symbol, time: int)
    ensures IsCarry(funding, symbol, time, Carry(funding, symbol, time))
  {
    if funding.Some? {
      FastIsRate(funding.value, symbol, time);
      hide Funding.LookupOf, Funding.FundingAt, IsRate, Funding.FundingFast;
    }
  }

  // ---- the loop's memory of one symbol ----

  lemma SeenStep(bars: seq<Bar>, from: nat, i: nat)
    requires from <= i
    ensures i >= |bars| && i > from ==> Seen(bars, from, i) == Seen(bars, from, i - 1)
    ensures i < |bars| ==> Seen(bars, from, i) != [] && |Seen(bars, from, i)| == i - from + 1
    ensures i < |bars| ==> Seen(bars, from, i)[|Seen(bars, from, i)| - 1] == bars[i]
    ensures from < i < |bars| ==> Seen(bars, from, i)[..|Seen(bars, from, i)| - 1] == Seen(bars, from, i - 1)
  {
  }

  /** The memory in terms of the bars seen. */
  function MemoryOf<O, V>(e: Engine<O, V>, symbol: Symbol, seen: seq<Bar>): Memory<O, V> {
    Memory(if seen == [] then None else Some(seen[|seen| - 1].close), OverlayAfter(e, symbol, seen),
           TrackerAfter(e, symbol, seen))
  }

  /** A symbol is active on bar i when it has one, has had one before, and the signal on it is long. */
  predicate IsActive<O, V>(e: Engine<O, V>, inputs: Inputs, symbol: Symbol, from: nat, i: nat) {
    && symbol in inputs.bars && from < i < |inputs.bars[symbol]|
    && IsLong(e, symbol, Seen(inputs.bars[symbol], from, i))
  }

  lemma {:induction false} AfterIsMemory<O, V>(e: Engine<O, V>, inputs: Inputs, symbol: Symbol, from: nat, i: nat)
    requires symbol in inputs.bars && from <= i
    ensures After(e, inputs, symbol, from, i).0 == MemoryOf(e, symbol, Seen(inputs.bars[symbol], from, i))
    ensures After(e, inputs, symbol, from, i).1 ==
            if IsActive(e, inputs, symbol, from, i) then
              [Active(symbol, RawReturn(e, Seen(inputs.bars[symbol], from, i))
                              - Carry(inputs.funding, symbol, inputs.bars[symbol][i].time))]
            else []
    decreases i
  {
    hide Carry;
    var bars := inputs.bars[symbol];
    SeenStep(bars, from, i);
    if i > from {
      AfterIsMemory(e, inputs, symbol, from, i - 1);
    } else if i > 0 {
      assert After(e, inputs, symbol, from, i - 1).0 == Fresh(e, symbol);
    }
    assert MemoryOf(e, symbol, []) == Fresh(e, symbol);
  }

  // ---- the row ----

  /** The active symbols on bar i, in the order of the universe. */
  function ActiveSymbols<O, V>(e: Engine<O, V>, inputs: Inputs, universe: seq<Symbol>, from: nat, i: nat): seq<Symbol> {
    if universe == [] then []
    else
      ActiveSymbols(e, inputs, universe[..|universe| - 1], from, i)
      + if IsActive(e, inputs, universe[|universe| - 1], from, i) then [universe[|universe| - 1]] else []
  }

  function Sum(symbols: seq<Symbol>, f: Symbol -> real): real {
    if symbols == [] then 0.0 else Sum(symbols[..|symbols| - 1], f) + f(symbols[|symbols| - 1])
  }

  /** A return after carry. */
  function NetReturn<O, V>(e: Engine<O, V>, inputs: Inputs, symbol: Symbol, from: nat, i: nat): real
    requires IsActive(e, inputs, symbol, from, i)
  {
    RawReturn(e, Seen(inputs.bars[symbol], from, i)) - Carry(inputs.funding, symbol, inputs.bars[symbol][i].time)
  }

  function ReturnOrZero<O, V>(e: Engine<O, V>, inputs: Inputs, symbol: Symbol, from: nat, i: nat): real {
    if IsActive(e, inputs, symbol, from, i) then NetReturn(e, inputs, symbol, from, i) else 0.0
  }

  /** The volatility trackers after bar i. */
  function TrackersAfter<O, V>(e: Engine<O, V>, inputs: Inputs, universe: seq<Symbol>, from: nat, i: nat): map<Symbol, V> {
    map s | s in universe && s in inputs.bars :: TrackerAfter(e, s, Seen(inputs.bars[s], from, i))
  }

  lemma OneSymbol<O, V>(e: Engine<O, V>, inputs: Inputs, symbol: Symbol, from: nat, i: nat)
    requires from <= i
    ensures After(e, inputs, symbol, from, i).1 ==
            if IsActive(e, inputs, symbol, from, i) then [Active(symbol, ReturnOrZero(e, inputs, symbol, from, i))] else []
  {
    if symbol in inputs.bars {
      AfterIsMemory(e, inputs, symbol, from, i);
    }
  }

  lemma {:induction false} ActiveIs<O, V>(e: Engine<O, V>, inputs: Inputs, universe: seq<Symbol>, from: nat, i: nat)
    requires from <= i
    ensures Symbols(ActiveAt(e, inputs, universe, from, i)) == ActiveSymbols(e, inputs, universe, from, i)
    ensures forall a :: a in ActiveAt(e, inputs, universe, from, i) ==>
              a.symbol in universe && IsActive(e, inputs, a.symbol, from, i)
              && a.net == ReturnOrZero(e, inputs, a.symbol, from, i)
  {
    if universe != [] {
      var n := |universe| - 1;
      OneSymbol(e, inputs, universe[n], from, i);
      hide After, IsActive, ReturnOrZero;
      ActiveIs(e, inputs, universe[..n], from, i);
    }
  }

  /** Who is active, and in which order. */
  lemma {:induction false} ActiveSymbolsIff<O, V>(e: Engine<O, V>, inputs: Inputs, universe: seq<Symbol>, from: nat, i: nat,
                                                  s: Symbol)
    ensures s in ActiveSymbols(e, inputs, universe, from, i) <==> s in universe && IsActive(e, inputs, s, from, i)
  {
    if universe != [] {
      hide IsActive;
      var n := |universe| - 1;
      assert universe == universe[..n] + [universe[n]];
      ActiveSymbolsIff(e, inputs, universe[..n], from, i, s);
    }
  }

  /** What each active symbol adds to the weighted return, and to the heat. */
  function ReturnParts<O, V>(e: Engine<O, V>, inputs: Inputs, from: nat, i: nat, weight: Symbol -> real): Symbol -> real {
    (s: Symbol) => ReturnOrZero(e, inputs, s, from, i) * weight(s)
  }

  function HeatParts<O, V>(e: Engine<O, V>, trackers: map<Symbol, V>, weight: Symbol -> real): Symbol -> real {
    (s: Symbol) => if s in trackers then weight(s) * e.volatility(trackers[s]) else 0.0
  }

  lemma {:induction false} WeightedIs<O, V>(e: Engine<O, V>, inputs: Inputs, from: nat, i: nat, active: seq<Active>,
                                            weight: Symbol -> real)
    requires forall a :: a in active ==> a.net == ReturnOrZero(e, inputs, a.symbol, from, i)
    ensures Weighted(active, weight) == Sum(Symbols(active), ReturnParts(e, inputs, from, i, weight))
  {
    hide ReturnOrZero;
    if active != [] {
      var n := |active| - 1;
      WeightedIs(e, inputs, from, i, active[..n], weight);
      assert Symbols(active)[..n] == Symbols(active[..n]);
    }
  }

  lemma {:induction false} HeatIs<O, V>(e: Engine<O, V>, active: seq<Active>, weight: Symbol -> real,
                                        trackers: map<Symbol, V>)
    ensures Heat(active, weight, e.volatility, trackers) == Sum(Symbols(active), HeatParts(e, trackers, weight))
  {
    if active != [] {
      var n := |active| - 1;
      HeatIs(e, active[..n], weight, trackers);
      assert Symbols(active)[..n] == Symbols(active[..n]);
    }
  }

  lemma TrackersAre<O, V>(e: Engine<O, V>, inputs: Inputs, universe: seq<Symbol>, from: nat, i: nat)
    requires from <= i
    ensures Trackers(e, inputs, universe, from, i) == TrackersAfter(e, inputs, universe, from, i)
  {
    forall s | s in universe && s in inputs.bars
      ensures After(e, inputs, s, from, i).0.tracker == TrackerAfter(e, s, Seen(inputs.bars[s], from, i))
    {
      AfterIsMemory(e, inputs, s, from, i);
    }
    hide After, TrackerAfter;
  }

  /** The row for bar i: the active symbols, the weighted sum of their returns after carry, and the heat, the weighted
      sum of their volatilities. */
  ghost predicate RowHolds<O, V>(e: Engine<O, V>, inputs: Inputs, universe: seq<Symbol>, from: nat, i: nat, row: Row) {
    var active := ActiveSymbols(e, inputs, universe, from, i);
    var trackers := TrackersAfter(e, inputs, universe, from, i);
    var weight := e.weights(active, trackers);
    && row.barIndex == i && row.activeSymbols == active
    && row.weightedReturn == (if active == [] then 0.0 else Sum(active, ReturnParts(e, inputs, from, i, weight)))
    && row.heat == (if active == [] then 0.0 else Sum(active, HeatParts(e, trackers, weight)))
    && (row.heatCapTriggered <==> active != [] && row.heat > e.heatCap)
  }

  lemma RowIs<O, V>(e: Engine<O, V>, inputs: Inputs, universe: seq<Symbol>, from: nat, i: nat, timestamp: int)
    requires from <= i
    ensures RowHolds(e, inputs, universe, from, i, RowAt(e, inputs, universe, from, i, timestamp))
    ensures RowAt(e, inputs, universe, from, i, timestamp).timestamp == timestamp
  {
    ActiveIs(e, inputs, universe, from, i);
    TrackersAre(e, inputs, universe, from, i);
    hide ActiveAt, ActiveSymbols, ReturnOrZero, Heat, Weighted, Trackers, TrackersAfter, IsActive, Sum, ReturnParts, HeatParts;
    var active := ActiveAt(e, inputs, universe, from, i);
    var trackers := TrackersAfter(e, inputs, universe, from, i);
    var weight := e.weights(Symbols(active), trackers);
    WeightedIs(e, inputs, from, i, active, weight);
    HeatIs(e, active, weight, trackers);
    assert |Symbols(active)| == |active|;
  }

  // ---- the plan and the run ----

  /** An observer run sees the bars whose eight hours are over. */
  lemma {:induction false} ClosedIff(bars: seq<Bar>, now: int, b: Bar)
    ensures b in ClosedBars(bars, now) <==> b in bars && b.time + 8 * 60 * 60 <= now
  {
    if bars != [] {
      ClosedIff(bars[..|bars| - 1], now, b);
      assert bars == bars[..|bars| - 1] + [bars[|bars| - 1]];
    }
  }

  /** The quarter of a time: the last one that has started, or the first of all. */
  lemma {:induction false} QuarterIs(dates: seq<int>, time: int) returns (k: nat)
    requires dates != []
    ensures k < |dates| && SelectQuarter(dates, time) == dates[k]
    ensures k == 0 || dates[k] <= time
    ensures forall j :: k < j < |dates| ==> dates[j] > time
  {
    k := |dates| - 1;
    if |dates| > 1 && time < dates[k] {
      k := QuarterIs(dates[..|dates| - 1], time);
      assert forall j :: 0 <= j < |dates| - 1 ==> dates[..|dates| - 1][j] == dates[j];
    }
  }

  /** The window is the last 500 bars, or all; its quarter is that of its first bar; the state starts at the first bar
      of the quarter, or at bar 0; the universe is the quarter's, or the fallback. */
  lemma PlanIs(bars: seq<Bar>, quarters: Quarters) returns (k: nat)
    requires bars != [] && quarters.dates != []
    ensures k < |quarters.dates|
    ensures var p := PlanOf(bars, quarters);
            var date := quarters.dates[k];
            && p.windowEnd == |bars| && p.windowStart <= |bars| - 1
            && |bars| - p.windowStart == (if |bars| <= 500 then |bars| else 500)
            && (k == 0 || date <= bars[p.windowStart].time)
            && (forall j :: k < j < |quarters.dates| ==> quarters.dates[j] > bars[p.windowStart].time)
            && p.universe == (if date in quarters.universes then quarters.universes[date] else FALLBACK)
            && p.warmupStart < |bars|
            && (if exists i :: 0 <= i < |bars| && bars[i].time >= date then
                  bars[p.warmupStart].time >= date && forall i :: 0 <= i < p.warmupStart ==> bars[i].time < date
                else p.warmupStart == 0)
  {
    k := QuarterIs(quarters.dates, bars[WindowStart(bars)].time);
    hide SelectQuarter;
  }

  /** Every published row is about its bar, in order, and holds what the bars, the funding and the strategy say. */
  lemma RowsHold<O, V>(e: Engine<O, V>, inputs: Inputs, p: Plan, k: nat)
    requires PlanFits(inputs, p) && k < |RowsOf(e, inputs, p)|
    ensures var i := (if p.warmupStart <= p.windowStart then p.windowStart else p.warmupStart) + k;
            && i < |inputs.bars[REFERENCE]|
            && RowHolds(e, inputs, p.universe, p.warmupStart, i, RowsOf(e, inputs, p)[k])
            && RowsOf(e, inputs, p)[k].timestamp == inputs.bars[REFERENCE][i].time
  {
    var i := FirstRow(p) + k;
    RowIs(e, inputs, p.universe, p.warmupStart, i, inputs.bars[REFERENCE][i].time);
    hide RowHolds, RowAt;
  }
}
