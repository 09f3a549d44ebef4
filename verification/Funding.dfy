/** Funding rates: the scan for the last rate at or before a time, and the dictionary that stands in for it. */
module Funding {
  import opened Wrappers
  import opened Texts

  /** A row of the funding table; `dt` counts from a fixed instant in UTC. */
  datatype FundingRow = FundingRow(symbol: Text, dt: int, rate: real)

  type Lookup = map<(Text, int), real>

  predicate Matches(r: FundingRow, symbol: Text, dt: int) {
    r.symbol == symbol && r.dt <= dt
  }

  /** `get_funding_at`: the last row of the table for the symbol at or before the time, or 0. */
  function FundingAt(table: seq<FundingRow>, symbol: Text, dt: int): real {
    if table == [] then 0.0
    else if Matches(table[|table| - 1], symbol, dt) then table[|table| - 1].rate
    else FundingAt(table[..|table| - 1], symbol, dt)
  }

  /** What filling the dictionary row by row leaves: the last row of a key wins. */
  function LookupOf(table: seq<FundingRow>): Lookup {
    if table == [] then map[]
    else
      var r := table[|table| - 1];
      LookupOf(table[..|table| - 1])[(r.symbol, r.dt) := r.rate]
  }

  /** No later row has the same symbol and time. */
  predicate LastOfKey(table: seq<FundingRow>, i: nat)
    requires i < |table|
  {
    forall j :: i < j < |table| ==> (table[j].symbol, table[j].dt) != (table[i].symbol, table[i].dt)
  }

  lemma {:induction false} LastRowWins(table: seq<FundingRow>, i: nat)
    requires i < |table| && LastOfKey(table, i)
    ensures (table[i].symbol, table[i].dt) in LookupOf(table)
    ensures LookupOf(table)[(table[i].symbol, table[i].dt)] == table[i].rate
  {
    var n := |table| - 1;
    if i < n {
      LastRowWins(table[..n], i);
    }
  }

  method BuildFundingLookup(table: seq<FundingRow>) returns (lookup: Lookup)
    ensures lookup == LookupOf(table)
    ensures forall key :: key in lookup <==> exists i :: 0 <= i < |table| && (table[i].symbol, table[i].dt) == key
    ensures forall i :: 0 <= i < |table| && LastOfKey(table, i) ==>
              (table[i].symbol, table[i].dt) in lookup && lookup[(table[i].symbol, table[i].dt)] == table[i].rate
  {
    lookup := map[];
    for i := 0 to |table|
      invariant lookup == LookupOf(table[..i])
    {
      assert table[..i + 1][..i] == table[..i];
      lookup := lookup[(table[i].symbol, table[i].dt) := table[i].rate];
    }
    assert table[..|table|] == table;
    forall key {
      KeysAreRows(table, key);
    }
    forall i | 0 <= i < |table| && LastOfKey(table, i)
      ensures (table[i].symbol, table[i].dt) in lookup && lookup[(table[i].symbol, table[i].dt)] == table[i].rate
    {
      LastRowWins(table, i);
    }
  }

  /** `get_funding_fast` */
  function FundingFast(symbol: Text, dt: int, lookup: Lookup, table: seq<FundingRow>): real {
    if (symbol, dt) in lookup then lookup[(symbol, dt)] else FundingAt(table, symbol, dt)
  }

  /** Sorted by symbol and time, repetitions allowed. */
  predicate Sorted(table: seq<FundingRow>) {
    forall i, j :: 0 <= i < j < |table| ==>
      Less(table[i].symbol, table[j].symbol) || (table[i].symbol == table[j].symbol && table[i].dt <= table[j].dt)
  }

  lemma {:induction false} KeysAreRows(table: seq<FundingRow>, key: (Text, int))
    ensures key in LookupOf(table) <==> exists i :: 0 <= i < |table| && (table[i].symbol, table[i].dt) == key
  {
    if table != [] {
      var n := |table| - 1;
      KeysAreRows(table[..n], key);
      if key in LookupOf(table[..n]) {
        var i :| 0 <= i < n && (table[..n][i].symbol, table[..n][i].dt) == key;
        assert (table[i].symbol, table[i].dt) == key;
      }
      if i :| 0 <= i < n && (table[i].symbol, table[i].dt) == key {
        assert (table[..n][i].symbol, table[..n][i].dt) == key;
      }
    }
  }

  /** On a sorted table the dictionary-backed lookup is the scan, for every symbol and every time. */
  lemma {:induction false} FastIsScan(table: seq<FundingRow>, symbol: Text, dt: int)
    requires Sorted(table)
    ensures FundingFast(symbol, dt, LookupOf(table), table) == FundingAt(table, symbol, dt)
  {
    if table != [] {
      var n := |table| - 1;
      FastIsScan(table[..n], symbol, dt);
      KeysAreRows(table[..n], (symbol, dt));
      if Matches(table[n], symbol, dt) && table[n].dt < dt {
        forall i | 0 <= i < n
          ensures (table[..n][i].symbol, table[..n][i].dt) != (symbol, dt)
        {
          assert Less(table[i].symbol, table[n].symbol)
                 || (table[i].symbol == table[n].symbol && table[i].dt <= table[n].dt);
          LessIrreflexive(symbol);
        }
      }
    }
  }

  /** Sorting is needed: on this table the two disagree. */
  lemma UnsortedDisagrees()
    ensures var table := [FundingRow([65], 2, 1.0), FundingRow([65], 1, 2.0)];
            FundingFast([65], 2, LookupOf(table), table) != FundingAt(table, [65], 2)
  {
    var table := [FundingRow([65], 2, 1.0), FundingRow([65], 1, 2.0)];
    assert table[..1] == [FundingRow([65], 2, 1.0)];
    assert table[..1][..0] == [];
    assert ([65], 2) in LookupOf(table[..1]);
  }

  /** The rows of a symbol at or before a time, in table order. */
  function Past(table: seq<FundingRow>, symbol: Text, dt: int): seq<FundingRow> {
    if table == [] then []
    else
      var before := Past(table[..|table| - 1], symbol, dt);
      if Matches(table[|table| - 1], symbol, dt) then before + [table[|table| - 1]] else before
  }

  /** The rate at a time depends on the past alone: other symbols and later rows leave no trace. */
  lemma {:induction false} OnlyThePastMatters(table: seq<FundingRow>, symbol: Text, dt: int)
    ensures var past := Past(table, symbol, dt);
            FundingAt(table, symbol, dt) == if past == [] then 0.0 else past[|past| - 1].rate
  {
    if table != [] && !Matches(table[|table| - 1], symbol, dt) {
      OnlyThePastMatters(table[..|table| - 1], symbol, dt);
    }
  }

  /** The last row of the symbol at or before the time. */
  predicate LastAtOrBefore(table: seq<FundingRow>, i: nat, symbol: Text, dt: int)
    requires i < |table|
  {
    && table[i].symbol == symbol && table[i].dt <= dt
    && forall j :: i < j < |table| ==> table[j].symbol != symbol || table[j].dt > dt
  }

  /** The scan returns the rate of that row, and 0 when the symbol has no row at or before the time. */
  lemma {:induction false} ScanFindsLast(table: seq<FundingRow>, symbol: Text, dt: int)
    ensures forall i :: 0 <= i < |table| && LastAtOrBefore(table, i, symbol, dt) ==>
              FundingAt(table, symbol, dt) == table[i].rate
    ensures (forall i :: 0 <= i < |table| ==> table[i].symbol != symbol || table[i].dt > dt) ==>
              FundingAt(table, symbol, dt) == 0.0
    ensures (exists i :: 0 <= i < |table| && table[i].symbol == symbol && table[i].dt <= dt) ==>
              exists i :: 0 <= i < |table| && LastAtOrBefore(table, i, symbol, dt)
  {
    if table != [] {
      var n := |table| - 1;
      ScanFindsLast(table[..n], symbol, dt);
      if table[n].symbol == symbol && table[n].dt <= dt {
        assert LastAtOrBefore(table, n, symbol, dt);
      } else {
        forall i | 0 <= i < n
          ensures LastAtOrBefore(table, i, symbol, dt) <==> LastAtOrBefore(table[..n], i, symbol, dt)
        {
        }
      }
    }
  }
}
