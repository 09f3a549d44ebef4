/** Paginated acquisition of hourly klines: local checks on every page give the exact global shape. */
module Klines {
  import opened Wrappers

  const HOUR: int := 3_600_000
  const FIRST: int := 1_625_097_600_000
  const LAST: int := 1_776_902_400_000
  const COUNT: int := (LAST - FIRST) / HOUR + 1

  /** The two times of a Binance kline list; prices are carried along unchanged. */
  datatype Raw = Raw(openTime: int, closeTime: int)

  datatype Kline = Kline(openTime: int, closeTime: int, timestamp: int)

  /** `_normalize_kline` */
  function Normalize(raw: Raw): Option<Kline> {
    var boundary := raw.openTime + HOUR;
    if raw.closeTime + 1 != boundary then None else Some(Kline(raw.openTime, raw.closeTime, boundary))
  }

  /** Every hour from the first bound to the last, once, in order. */
  predicate FullCoverage(ks: seq<Kline>) {
    && |ks| == COUNT
    && forall i :: 0 <= i < |ks| ==>
         && ks[i].openTime == FIRST + i * HOUR
         && ks[i].timestamp == ks[i].openTime + HOUR && ks[i].closeTime + 1 == ks[i].timestamp
  }

  /** `_validate_klines` accepts the full coverage and nothing else. */
  method ValidateKlines(ks: seq<Kline>) returns (ok: bool)
    ensures ok <==> FullCoverage(ks)
  {
    if |ks| != COUNT || ks[0].openTime != FIRST || ks[|ks| - 1].openTime != LAST {
      return false;
    }
    for i := 0 to |ks|
      invariant forall k :: 0 <= k < i ==>
                  ks[k].timestamp == ks[k].openTime + HOUR && ks[k].closeTime + 1 == ks[k].timestamp
    {
      var k := ks[i];
      if k.openTime < FIRST || k.openTime > LAST || k.timestamp != k.openTime + HOUR || k.closeTime + 1 != k.timestamp {
        return false;
      }
    }
    for i := 1 to |ks|
      invariant forall k :: 0 <= k < i ==> ks[k].openTime == FIRST + k * HOUR
    {
      var previous, current := ks[i - 1], ks[i];
      var openDelta, timestampDelta := current.openTime - previous.openTime, current.timestamp - previous.timestamp;
      if openDelta <= 0 || openDelta != HOUR || timestampDelta <= 0 || timestampDelta != HOUR {
        return false;
      }
    }
    return true;
  }

  // ---- pages ----

  /** What the server answers to the n-th request, for a start time; None is a failed or malformed answer. */
  type Server = (nat, int) -> Option<seq<Raw>>

  function NormalizeAll(raws: seq<Raw>): (r: Option<seq<Kline>>)
    ensures r.Some? ==> |r.value| == |raws| && forall i :: 0 <= i < |raws| ==> Normalize(raws[i]) == Some(r.value[i])
    ensures r.None? <==> exists i :: 0 <= i < |raws| && Normalize(raws[i]).None?
  {
    if raws == [] then Some([])
    else
      var n := |raws| - 1;
      assert forall i :: 0 <= i < n ==> raws[..n][i] == raws[i];
      var before := NormalizeAll(raws[..n]);
      var last := Normalize(raws[n]);
      if before.None? || last.None? then None else Some(before.value + [last.value])
  }

  /** The checks made on one page, before it is kept. */
  predicate PageOk(page: seq<Kline>, next: int) {
    && page != [] && page[0].openTime == next
    && (forall i :: 0 < i < |page| ==> page[i].openTime - page[i - 1].openTime == HOUR)
    && page[|page| - 1].openTime <= LAST
  }

  /** The page for a start time, when the answer passes its checks. */
  function PageFor(answer: Option<seq<Raw>>, next: int): (r: Option<seq<Kline>>)
    ensures r.Some? ==> PageOk(r.value, next)
  {
    if answer.None? then None
    else
      var page :- NormalizeAll(answer.value);
      if PageOk(page, next) then Some(page) else None
  }

  lemma {:induction false} PageTimes(page: seq<Kline>, next: int, i: nat)
    requires PageOk(page, next) && i < |page|
    ensures page[i].openTime == next + i * HOUR
  {
    if i > 0 {
      PageTimes(page, next, i - 1);
    }
  }

  /** All pages, without any check of the whole. */
  function Pages(server: Server, request: nat, next: int): Option<seq<Kline>>
    decreases if next <= LAST then LAST + 1 - next else 0
  {
    if next > LAST then Some([])
    else
      var page :- PageFor(server(request, next), next);
      PageTimes(page, next, |page| - 1);
      var rest :- Pages(server, request + 1, page[|page| - 1].openTime + HOUR);
      Some(page + rest)
  }

  /** The klines taken so far. */
  predicate Contiguous(ks: seq<Kline>) {
    forall i :: 0 <= i < |ks| ==>
      && ks[i].openTime == FIRST + i * HOUR
      && ks[i].timestamp == ks[i].openTime + HOUR && ks[i].closeTime + 1 == ks[i].timestamp
  }

  lemma PageExtends(ks: seq<Kline>, answer: Option<seq<Raw>>, next: int)
    requires Contiguous(ks) && next == FIRST + |ks| * HOUR && PageFor(answer, next).Some?
    ensures var page := PageFor(answer, next).value;
            Contiguous(ks + page) && page[|page| - 1].openTime + HOUR == FIRST + |ks + page| * HOUR
  {
    var page := PageFor(answer, next).value;
    forall i | 0 <= i < |page|
      ensures page[i].openTime == FIRST + (|ks| + i) * HOUR
      ensures page[i].timestamp == page[i].openTime + HOUR && page[i].closeTime + 1 == page[i].timestamp
    {
      PageTimes(page, next, i);
      assert Normalize(answer.value[i]) == Some(page[i]);
    }
  }

  /** `_fetch_klines`: whatever sizes the server picks, the loop stops, and the validation of the whole at its end
      never changes the outcome. */
  method FetchKlines(server: Server) returns (r: Option<seq<Kline>>)
    ensures r == Pages(server, 0, FIRST)
    ensures r.Some? ==> FullCoverage(r.value)
  {
    hide PageOk, Normalize, Pages, PageFor, Prepend;
    var ks: seq<Kline> := [];
    var next, request := FIRST, 0;
    NoPages(server);
    while next <= LAST
      invariant Contiguous(ks) && next == FIRST + |ks| * HOUR && next <= LAST + HOUR
      invariant Prepend(ks, Pages(server, request, next)) == Pages(server, 0, FIRST)
      decreases LAST + 1 - next
    {
      var answer := server(request, next);
      OnePage(ks, server, request, next);
      if PageFor(answer, next).None? {
        return None;
      }
      var page := PageFor(answer, next).value;
      PageExtends(ks, answer, next);
      PageNonEmpty(answer, next);
      ks := ks + page;
      next := page[|page| - 1].openTime + HOUR;
      request := request + 1;
    }
    NoMorePages(ks, server, request, next);
    assert |ks| == COUNT;
    var ok := ValidateKlines(ks);
    return if ok then Some(ks) else None;
  }

  function Prepend(ks: seq<Kline>, more: Option<seq<Kline>>): Option<seq<Kline>> {
    if more.None? then None else Some(ks + more.value)
  }

  lemma NoPages(server: Server)
    ensures Prepend([], Pages(server, 0, FIRST)) == Pages(server, 0, FIRST)
  {
    var all := Pages(server, 0, FIRST);
    if all.Some? {
      assert [] + all.value == all.value;
    }
  }

  lemma NoMorePages(ks: seq<Kline>, server: Server, request: nat, next: int)
    requires next > LAST
    ensures Prepend(ks, Pages(server, request, next)) == Some(ks)
  {
    assert ks + [] == ks;
  }

  lemma PageNonEmpty(answer: Option<seq<Raw>>, next: int)
    requires PageFor(answer, next).Some?
    ensures var page := PageFor(answer, next).value;
            page != [] && page[|page| - 1].openTime <= LAST && page[|page| - 1].openTime >= next
  {
    var page := PageFor(answer, next).value;
    PageTimes(page, next, |page| - 1);
  }

  lemma OnePage(ks: seq<Kline>, server: Server, request: nat, next: int)
    requires next <= LAST
    ensures var page := PageFor(server(request, next), next);
            Prepend(ks, Pages(server, request, next)) ==
            if page.None? then None
            else if page.value == [] then None
            else Prepend(ks + page.value, Pages(server, request + 1, page.value[|page.value| - 1].openTime + HOUR))
  {
    hide NormalizeAll;
    var page := PageFor(server(request, next), next);
    if page.Some? {
      var rest := Pages(server, request + 1, page.value[|page.value| - 1].openTime + HOUR);
      if rest.Some? {
        assert ks + (page.value + rest.value) == (ks + page.value) + rest.value;
      }
    }
  }

  /** An honest server: every answer starts where asked and holds at least one hour, and never passes the end. */
  ghost predicate Honest(server: Server) {
    forall request, next :: FIRST <= next <= LAST ==>
      && server(request, next).Some? && server(request, next).value != []
      && forall i :: 0 <= i < |server(request, next).value| ==>
           var raw := server(request, next).value[i];
           raw.openTime == next + i * HOUR && raw.closeTime == raw.openTime + HOUR - 1 && raw.openTime <= LAST
  }

  lemma HonestPage(raws: seq<Raw>, next: int)
    requires raws != [] && forall i :: 0 <= i < |raws| ==>
               && raws[i].openTime == next + i * HOUR && raws[i].closeTime == raws[i].openTime + HOUR - 1
               && raws[i].openTime <= LAST
    ensures PageFor(Some(raws), next).Some?
    ensures var page := PageFor(Some(raws), next).value; page != [] && page[|page| - 1].openTime >= next
  {
    assert forall i :: 0 <= i < |raws| ==> Normalize(raws[i]).Some?;
    var page := NormalizeAll(raws).value;
    forall i | 0 <= i < |page|
      ensures page[i].openTime == next + i * HOUR
    {
      assert Normalize(raws[i]) == Some(page[i]);
    }
  }

  /** Against an honest server the acquisition always succeeds, whatever page sizes it picks. */
  lemma {:induction false} HonestSucceeds(server: Server, request: nat, next: int)
    requires Honest(server) && FIRST <= next
    ensures Pages(server, request, next).Some?
    decreases if next <= LAST then LAST + 1 - next else 0
  {
    hide PageFor;
    if next <= LAST {
      var raws := server(request, next).value;
      HonestPage(raws, next);
      var page := PageFor(Some(raws), next).value;
      HonestSucceeds(server, request + 1, page[|page| - 1].openTime + HOUR);
    }
  }
}
