/** The holdout disclosure ledger: one document's entries, and what any run of accepted appends keeps. */
module Ledger {
  import opened Wrappers
  import opened Texts
  import opened Decimal
  import opened Json
  import opened JsonRoundTrip
  import opened Utf8
  import opened JsonStrings
  import opened Manifest
  import opened ManifestFacts

  // ---- fields ----

  /** `[a-z0-9][a-z0-9._:-]*` */
  predicate IsIdentifier(t: Text) {
    && t != [] && LowerOrDigit(t[0])
    && forall i :: 0 <= i < |t| ==> LowerOrDigit(t[i]) || t[i] == DOT || t[i] == 95 || t[i] == 58 || t[i] == 45
  }

  /** A JSON file under docs/control, without empty, `.` or `..` segments. */
  predicate IsControlReceiptPath(t: Text) {
    var parts := Split(t);
    && |parts| >= 3 && parts[0] == Lit("docs") && parts[1] == Lit("control")
    && (forall p :: p in parts ==> IsSegment(p))
    && var last := parts[|parts| - 1];
       |last| >= 6 && last[|last| - 5..] == Lit(".json")
  }

  const DISCLOSURE_KINDS := [
    Lit("DESIGNATED_DEVELOPMENT"), Lit("DESIGNATED_VALIDATION"), Lit("DESIGNATED_HOLDOUT"),
    Lit("VALIDATION_STATISTIC_EXPOSED"), Lit("HOLDOUT_UNSEALED"), Lit("HOLDOUT_STATISTIC_EXPOSED"),
    Lit("REGION_GLOBALLY_CONSUMED"), Lit("DESCRIPTIVE_REUSE_ONLY")]
  const RECORDED_APPEND_ONLY := Lit("RECORDED_APPEND_ONLY")

  // ---- timestamps ----

  /** `[0-9]{4}-[0-9]{2}-[0-9]{2}T[0-9]{2}:[0-9]{2}:[0-9]{2}Z` */
  predicate HasStampShape(t: Text) {
    && |t| == 20
    && (forall i :: 0 <= i < 20 && i !in {4, 7, 10, 13, 16, 19} ==> IsDigit(t[i]))
    && t[4] == 45 && t[7] == 45 && t[10] == 84 && t[13] == 58 && t[16] == 58 && t[19] == 90
  }

  function Two(t: Text, i: nat): int
    requires i + 2 <= |t|
  {
    var tens: int, units: int := t[i], t[i + 1];
    (tens - 48) * 10 + (units - 48)
  }

  predicate IsLeapYear(year: int) {
    year % 4 == 0 && (year % 100 != 0 || year % 400 == 0)
  }

  function DaysIn(year: int, month: int): int {
    if month == 2 then (if IsLeapYear(year) then 29 else 28)
    else if month in {4, 6, 9, 11} then 30 else 31
  }

  datatype Moment = Moment(year: int, month: int, day: int, hour: int, minute: int, second: int) {
    /** What `datetime` accepts. */
    predicate Valid() {
      && 1 <= year <= 9999 && 1 <= month <= 12 && 1 <= day <= DaysIn(year, month)
      && 0 <= hour < 24 && 0 <= minute < 60 && 0 <= second < 60
    }

    /** An order-preserving number: fields from the most to the least significant. */
    function Rank(): int {
      ((((year * 13 + month) * 32 + day) * 24 + hour) * 60 + minute) * 60 + second
    }
  }

  /** `_parse_canonical_utc_timestamp` */
  function ParseStamp(t: Text): Option<Moment> {
    if !HasStampShape(t) then None
    else
      var m := Moment(Two(t, 0) * 100 + Two(t, 2), Two(t, 5), Two(t, 8), Two(t, 11), Two(t, 14), Two(t, 17));
      if m.Valid() then Some(m) else None
  }

  lemma RankInjective(m: Moment, n: Moment)
    requires m.Valid() && n.Valid() && m.Rank() == n.Rank()
    ensures m == n
  {
  }

  lemma TwoInjective(t: Text, u: Text, i: nat)
    requires i + 2 <= |t| && i + 2 <= |u|
    requires IsDigit(t[i]) && IsDigit(t[i + 1]) && IsDigit(u[i]) && IsDigit(u[i + 1])
    requires Two(t, i) == Two(u, i)
    ensures t[i] == u[i] && t[i + 1] == u[i + 1]
  {
  }

  /** One moment, one spelling: two accepted timestamps are equal in time exactly when they are the same text. */
  lemma StampInjective(t: Text, u: Text)
    requires ParseStamp(t).Some? && ParseStamp(u).Some?
    ensures ParseStamp(t).value.Rank() == ParseStamp(u).value.Rank() <==> t == u
  {
    if ParseStamp(t).value.Rank() == ParseStamp(u).value.Rank() {
      var m := ParseStamp(t).value;
      RankInjective(m, ParseStamp(u).value);
      assert 0 <= Two(t, 2) < 100 && 0 <= Two(u, 2) < 100;
      assert Two(t, 0) == m.year / 100 == Two(u, 0);
      hide Two;
      TwoInjective(t, u, 0);
      TwoInjective(t, u, 2);
      TwoInjective(t, u, 5);
      TwoInjective(t, u, 8);
      TwoInjective(t, u, 11);
      TwoInjective(t, u, 14);
      TwoInjective(t, u, 17);
    }
  }

  // ---- the order of time ----

  /** Earlier by the first field, from year to second, in which the two differ. */
  predicate Earlier(m: Moment, n: Moment) {
    || m.year < n.year
    || (m.year == n.year
        && (|| m.month < n.month
            || (m.month == n.month
                && (|| m.day < n.day
                    || (m.day == n.day
                        && (|| m.hour < n.hour
                            || (m.hour == n.hour
                                && (m.minute < n.minute || (m.minute == n.minute && m.second < n.second)))))))))
  }

  lemma RankOrder(m: Moment, n: Moment)
    requires m.Valid() && n.Valid()
    ensures m.Rank() < n.Rank() <==> Earlier(m, n)
  {
  }

  lemma TwoOrder(t: Text, u: Text, i: nat)
    requires i + 2 <= |t| && i + 2 <= |u|
    requires IsDigit(t[i]) && IsDigit(t[i + 1]) && IsDigit(u[i]) && IsDigit(u[i + 1])
    ensures Two(t, i) < Two(u, i) <==> t[i] < u[i] || (t[i] == u[i] && t[i + 1] < u[i + 1])
    ensures 0 <= Two(t, i) < 100
  {
  }

  lemma {:induction false} FirstDifference(t: Text, u: Text) returns (k: nat)
    requires |t| == |u| && t != u
    ensures k < |t| && t[..k] == u[..k] && t[k] != u[k]
  {
    if t[0] != u[0] {
      k := 0;
    } else {
      k := FirstDifference(t[1..], u[1..]);
      assert t[..k + 1] == [t[0]] + t[1..][..k] && u[..k + 1] == [u[0]] + u[1..][..k];
      k := k + 1;
    }
  }

  /** The fields before the first difference agree, and the field it lies in is smaller. */
  lemma FieldsUpTo(t: Text, u: Text, k: nat, i: nat)
    requires HasStampShape(t) && HasStampShape(u) && i in {0, 2, 5, 8, 11, 14, 17}
    requires k < 20 && (forall j :: 0 <= j < k ==> t[j] == u[j]) && t[k] < u[k]
    ensures k > i + 1 ==> Two(t, i) == Two(u, i)
    ensures i <= k <= i + 1 ==> Two(t, i) < Two(u, i)
    ensures 0 <= Two(t, i) < 100 && 0 <= Two(u, i) < 100
  {
    TwoOrder(t, u, i);
    TwoOrder(u, t, i);
  }

  lemma EarlierAt(t: Text, u: Text, k: nat)
    requires ParseStamp(t).Some? && ParseStamp(u).Some?
    requires k < 20 && (forall i :: 0 <= i < k ==> t[i] == u[i]) && t[k] < u[k]
    ensures Earlier(ParseStamp(t).value, ParseStamp(u).value)
  {
    assert k !in {4, 7, 10, 13, 16, 19};
    hide Two, HasStampShape;
    FieldsUpTo(t, u, k, 0);
    FieldsUpTo(t, u, k, 2);
    FieldsUpTo(t, u, k, 5);
    FieldsUpTo(t, u, k, 8);
    FieldsUpTo(t, u, k, 11);
    FieldsUpTo(t, u, k, 14);
    FieldsUpTo(t, u, k, 17);
  }

  /** One accepted timestamp is earlier than another exactly when its text comes first. */
  lemma StampOrder(t: Text, u: Text)
    requires ParseStamp(t).Some? && ParseStamp(u).Some?
    ensures ParseStamp(t).value.Rank() < ParseStamp(u).value.Rank() <==> Less(t, u)
  {
    var m, n := ParseStamp(t).value, ParseStamp(u).value;
    RankOrder(m, n);
    RankOrder(n, m);
    if t == u {
      LessIrreflexive(t);
    } else {
      var k := FirstDifference(t, u);
      assert forall i :: 0 <= i < k ==> t[i] == t[..k][i] && u[i] == u[..k][i];
      if t[k] < u[k] {
        EarlierAt(t, u, k);
        LessAt(t, u, k);
      } else {
        EarlierAt(u, t, k);
        LessAt(u, t, k);
        LessAsymmetric(u, t);
      }
    }
  }

  function DaysInYear(year: int): int {
    MonthDays(year, 12)
  }

  function MonthDays(year: int, months: nat): int {
    if months == 0 then 0 else MonthDays(year, months - 1) + DaysIn(year, months)
  }

  function DaysBefore(year: nat): int {
    if year <= 1 then 0 else DaysBefore(year - 1) + DaysInYear(year - 1)
  }

  lemma OneYear(year: int)
    ensures DaysInYear(year) == if IsLeapYear(year) then 366 else 365
  {
    assert MonthDays(year, 0) == 0 && MonthDays(year, 1) == 31;
    assert MonthDays(year, 2) == 31 + DaysIn(year, 2);
    assert MonthDays(year, 4) == MonthDays(year, 2) + 61;
    assert MonthDays(year, 6) == MonthDays(year, 4) + 61;
    assert MonthDays(year, 8) == MonthDays(year, 6) + 62;
    assert MonthDays(year, 10) == MonthDays(year, 8) + 61;
    assert MonthDays(year, 12) == MonthDays(year, 10) + 61;
  }

  /** A year is a multiple of 4, of 100 or of 400 exactly when the quotient has grown. */
  lemma QuotientsGrow(y: nat)
    requires y >= 1
    ensures y / 4 == (y - 1) / 4 + if y % 4 == 0 then 1 else 0
    ensures y / 100 == (y - 1) / 100 + if y % 100 == 0 then 1 else 0
    ensures y / 400 == (y - 1) / 400 + if y % 400 == 0 then 1 else 0
    ensures y % 400 == 0 ==> y % 100 == 0
    ensures y % 100 == 0 ==> y % 4 == 0
  {
  }

  /** The calendar is the Gregorian one: the days before a year, in closed form. */
  lemma {:induction false} CalendarDays(year: nat)
    requires year >= 1
    ensures var y := year - 1; DaysBefore(year) == 365 * y + y / 4 - y / 100 + y / 400
  {
    if year > 1 {
      hide DaysInYear;
      CalendarDays(year - 1);
      OneYear(year - 1);
      QuotientsGrow(year - 1);
    }
  }

  // ---- entries ----

  datatype Entry = Entry(datasetRegionId: Text, disclosureKind: Text, disclosureStatus: Text, entryId: Text,
                         hypothesisId: Text, protocolId: Text, recordedAt: Text, regionEnd: Text, regionStart: Text,
                         receiptPath: Text, receiptSha256: Text)

  const ENTRY_KEYS := [
    Lit("dataset_region_id"), Lit("disclosure_kind"), Lit("disclosure_status"), Lit("entry_id"), Lit("hypothesis_id"),
    Lit("protocol_id"), Lit("recorded_at_utc"), Lit("region_end_utc"), Lit("region_start_utc"),
    Lit("source_control_receipt_path"), Lit("source_control_receipt_sha256")]

  predicate EntryOk(e: Entry) {
    && IsIdentifier(e.entryId) && IsIdentifier(e.protocolId) && IsIdentifier(e.hypothesisId)
    && IsIdentifier(e.datasetRegionId)
    && e.disclosureKind in DISCLOSURE_KINDS && e.disclosureStatus == RECORDED_APPEND_ONLY
    && IsControlReceiptPath(e.receiptPath) && IsDigest(e.receiptSha256)
    && ParseStamp(e.regionStart).Some? && ParseStamp(e.regionEnd).Some? && ParseStamp(e.recordedAt).Some?
    && ParseStamp(e.regionStart).value.Rank() < ParseStamp(e.regionEnd).value.Rank()
  }

  // ---- forbidden content ----

  /** `str.lower`, as far as it can lead to the words below: of all characters only these become ASCII letters. */
  function LowerChar(c: CodePoint): CodePoint {
    if 65 <= c <= 90 then c + 32 else if c == 0x212A then 107 else c
  }

  function LowerKey(t: Text): (r: Text)
    ensures |r| == |t|
  {
    seq(|t|, i requires 0 <= i < |t| => LowerChar(t[i]))
  }

  /** `SECRET_KEYS` and `FORBIDDEN_KEYS` */
  const FORBIDDEN_KEYS := {
    Lit("token"), Lit("secret"), Lit("password"), Lit("credential"), Lit("private_key"), Lit("cookie"),
    Lit("authorization"), Lit("api_key"), Lit("returns"), Lit("prices"), Lit("funding"), Lit("p_values"),
    Lit("p-values"), Lit("statistics"), Lit("performance"), Lit("strategy_ranking"), Lit("raw_data"),
    Lit("artifact_bytes"), Lit("store_roots"), Lit("store_uri"), Lit("credentials"), Lit("private_reasoning"),
    Lit("chain_of_thought"), Lit("scientific_claim"), Lit("result_payload")}

  predicate Harmless(t: Text) {
    !(Lit("/") <= t || Lit("http://") <= t || Lit("https://") <= t || Lit("qnty-artifact://") <= t)
  }

  /** What `_walk_forbidden` lets pass. */
  predicate Permitted(v: Json) {
    match v
    case Str(t) => Harmless(t)
    case Arr(items) => forall w | w in items :: Permitted(w)
    case Obj(members) => forall m | m in members :: LowerKey(m.key) !in FORBIDDEN_KEYS && Permitted(m.value)
    case _ => true
  }

  /** `_entry` */
  function ReadLedgerEntry(v: Json): (r: Option<Entry>)
    ensures r.Some? ==> EntryOk(r.value)
  {
    var e :- ReadEntryFields(v);
    if Permitted(v) then Some(e) else None
  }

  /** `_entry` without the scan for forbidden content */
  function ReadEntryFields(v: Json): (r: Option<Entry>)
    ensures r.Some? ==> EntryOk(r.value)
  {
    if !HasExactKeys(v, ENTRY_KEYS) then None
    else
      var f := v.members;
      assert |f| == |KeysOf(f)|;
      if exists i :: 0 <= i < |f| && !f[i].value.Str? then None
      else
        var e := Entry(f[0].value.s, f[1].value.s, f[2].value.s, f[3].value.s, f[4].value.s, f[5].value.s,
                       f[6].value.s, f[7].value.s, f[8].value.s, f[9].value.s, f[10].value.s);
        if EntryOk(e) then Some(e) else None
  }

  datatype SemanticKey = SemanticKey(protocolId: Text, hypothesisId: Text, datasetRegionId: Text,
                                     regionStart: Text, regionEnd: Text, disclosureKind: Text)

  function SemanticKeyOf(e: Entry): SemanticKey {
    SemanticKey(e.protocolId, e.hypothesisId, e.datasetRegionId, e.regionStart, e.regionEnd, e.disclosureKind)
  }

  function RecordedAt(e: Entry): int
    requires EntryOk(e)
  {
    ParseStamp(e.recordedAt).value.Rank()
  }

  predicate Readable(items: seq<Json>) {
    forall v :: v in items ==> ReadLedgerEntry(v).Some?
  }

  function Entries(items: seq<Json>): (r: seq<Entry>)
    requires Readable(items)
    ensures |r| == |items| && forall i :: 0 <= i < |r| ==> r[i] == ReadLedgerEntry(items[i]).value && EntryOk(r[i])
  {
    seq(|items|, i requires 0 <= i < |items| => ReadLedgerEntry(items[i]).value)
  }

  /** No id twice, no disclosure twice, recorded in order of time. */
  predicate WellKept(es: seq<Entry>) {
    && (forall e :: e in es ==> EntryOk(e))
    && (forall i, j :: 0 <= i < j < |es| ==>
          && es[i].entryId != es[j].entryId
          && SemanticKeyOf(es[i]) != SemanticKeyOf(es[j])
          && RecordedAt(es[i]) <= RecordedAt(es[j]))
  }

  predicate EntriesOk(items: seq<Json>) {
    Readable(items) && WellKept(Entries(items))
  }

  lemma EntriesStep(items: seq<Json>, i: nat)
    requires i < |items| && EntriesOk(items[..i])
    ensures EntriesOk(items[..i + 1]) <==>
            && ReadLedgerEntry(items[i]).Some?
            && var e := ReadLedgerEntry(items[i]).value;
               && e.entryId !in EntryIds(Entries(items[..i]))
               && SemanticKeyOf(e) !in SemanticKeys(Entries(items[..i]))
               && (i > 0 ==> RecordedAt(Entries(items[..i])[i - 1]) <= RecordedAt(e))
    ensures ReadLedgerEntry(items[i]).Some? ==>
              Readable(items[..i + 1]) && Entries(items[..i + 1]) == Entries(items[..i]) + [ReadLedgerEntry(items[i]).value]
  {
    hide ReadLedgerEntry, EntryOk, RecordedAt, SemanticKeyOf;
    var less, more := items[..i], items[..i + 1];
    assert forall v :: v in more <==> v in less || v == items[i];
    if ReadLedgerEntry(items[i]).Some? {
      var e := ReadLedgerEntry(items[i]).value;
      assert Entries(more) == Entries(less) + [e];
      EntryAdded(Entries(less), e);
    }
  }

  lemma EntryAdded(es: seq<Entry>, e: Entry)
    requires WellKept(es) && EntryOk(e)
    ensures WellKept(es + [e]) <==>
            && e.entryId !in EntryIds(es)
            && SemanticKeyOf(e) !in SemanticKeys(es)
            && (es != [] ==> RecordedAt(es[|es| - 1]) <= RecordedAt(e))
  {
    hide EntryOk, RecordedAt, SemanticKeyOf;
    var n := |es|;
    var all := es + [e];
    if WellKept(all) {
      forall x | x in es
        ensures x.entryId != e.entryId && SemanticKeyOf(x) != SemanticKeyOf(e)
      {
        var i :| 0 <= i < n && es[i] == x;
        assert all[i] == x && all[n] == e;
      }
      if n > 0 {
        assert all[n - 1] == es[n - 1] && all[n] == e;
      }
    }
  }

  lemma EntriesPrefix(items: seq<Json>, i: nat)
    requires i <= |items| && EntriesOk(items)
    ensures EntriesOk(items[..i])
  {
    hide ReadLedgerEntry, EntryOk, RecordedAt, SemanticKeyOf;
    assert forall v :: v in items[..i] ==> v in items;
    assert Entries(items[..i]) == Entries(items)[..i];
  }

  function EntryIds(es: seq<Entry>): set<Text> {
    set x | x in es :: x.entryId
  }

  function SemanticKeys(es: seq<Entry>): set<SemanticKey> {
    set x | x in es :: SemanticKeyOf(x)
  }

  /** `_validate_ledger_entries` */
  method ValidateLedgerEntries(items: seq<Json>) returns (ok: bool)
    ensures ok <==> EntriesOk(items)
  {
    hide ReadLedgerEntry, EntryOk, RecordedAt, SemanticKeyOf, WellKept, Readable;
    var seenIds: set<Text>, seenSemantics: set<SemanticKey>, previousRecordedAt: Option<int> := {}, {}, None;
    NoEntries(items);
    for i := 0 to |items|
      invariant EntriesOk(items[..i])
      invariant seenIds == EntryIds(Entries(items[..i])) && seenSemantics == SemanticKeys(Entries(items[..i]))
      invariant previousRecordedAt == if i == 0 then None else Some(RecordedAt(Entries(items[..i])[i - 1]))
    {
      EntriesStep(items, i);
      if EntriesOk(items) {
        EntriesPrefix(items, i + 1);
      }
      var entry := ReadLedgerEntry(items[i]);
      if entry.None? {
        return false;
      }
      var e := entry.value;
      if e.entryId in seenIds {
        return false;
      }
      seenIds := seenIds + {e.entryId};
      var semanticKey := SemanticKeyOf(e);
      if semanticKey in seenSemantics {
        return false;
      }
      seenSemantics := seenSemantics + {semanticKey};
      var recordedAt := RecordedAt(e);
      if previousRecordedAt.Some? && recordedAt < previousRecordedAt.value {
        return false;
      }
      previousRecordedAt := Some(recordedAt);
    }
    assert items[..|items|] == items;
    return true;
  }

  lemma NoEntries(items: seq<Json>)
    ensures EntriesOk(items[..0]) && Entries(items[..0]) == []
  {
  }

  // ---- the document ----

  const SCHEMA := Lit("0.1.0")
  const LEDGER_KIND := Lit("qnty_global_real") + Lit("_protocol_holdout_disclosure_ledger")
  const LEDGER_ID := Lit("global-real") + Lit("-protocol-holdout-disclosure-ledger-v001")
  const EMPTY_STATUS := Lit("SCHEMA_IMPLEMENTED_EMPTY_NO_BACKFILL")
  const POPULATED_STATUS := Lit("APPEND_ONLY_METADATA_DISCLOSURES")
  const LEDGER_KEYS := [Lit("document_id"), Lit("document_kind"), Lit("entries"), Lit("schema_version"), Lit("status")]

  datatype Ledger = Ledger(populated: bool, items: seq<Json>)

  /** `validate_holdout_disclosure_ledger` */
  function ReadLedger(v: Json): Option<Ledger> {
    var l :- ReadLedgerFields(v);
    if Permitted(v) then Some(l) else None
  }

  /** `validate_holdout_disclosure_ledger` without its own scan for forbidden content */
  function ReadLedgerFields(v: Json): Option<Ledger> {
    if !HasExactKeys(v, LEDGER_KEYS) then None
    else
      var f := v.members;
      assert |f| == |KeysOf(f)|;
      if f[3].value != Str(SCHEMA) || f[1].value != Str(LEDGER_KIND) || f[0].value != Str(LEDGER_ID) then None
      else if f[4].value != Str(EMPTY_STATUS) && f[4].value != Str(POPULATED_STATUS) then None
      else if !f[2].value.Arr? then None
      else
        var l := Ledger(f[4].value == Str(POPULATED_STATUS), f[2].value.items);
        if !l.populated && l.items != [] then None
        else if l.populated && l.items == [] then None
        else if EntriesOk(l.items) then Some(l) else None
  }

  function LoadLedger(data: Bytes): Option<Ledger> {
    var v :- LoadCanonical(data);
    ReadLedger(v)
  }

  /** `validate_ledger_append` */
  function ValidateLedgerAppend(previous: Bytes, candidate: Bytes): Option<Ledger> {
    var before :- LoadLedger(previous);
    var after :- LoadLedger(candidate);
    var old_, new_ := before.items, after.items;
    if |new_| < |old_| || exists i :: 0 <= i < |old_| && Dumps(new_[i]) != Dumps(old_[i]) then None
    else if !before.populated && old_ != [] then None
    else if |new_| > |old_| && !after.populated then None
    else Some(after)
  }

  // ---- the scan never fires ----

  /** Length, first and last character of each forbidden key. */
  const SHAPES: set<(int, int, int)> := {
    (5, 116, 110), (6, 115, 116), (8, 112, 100), (10, 99, 108), (11, 112, 121), (6, 99, 101), (13, 97, 110),
    (7, 97, 121), (7, 114, 115), (6, 112, 115), (7, 102, 103), (8, 112, 115), (10, 115, 115), (11, 112, 101),
    (16, 115, 103), (8, 114, 97), (14, 97, 115), (11, 115, 115), (9, 115, 105), (11, 99, 115), (17, 112, 103),
    (16, 99, 116), (16, 115, 109), (14, 114, 100)}

  lemma ForbiddenShape(k: Text)
    requires k in FORBIDDEN_KEYS
    ensures k != [] && (|k|, k[0] as int, k[|k| - 1] as int) in SHAPES
  {
  }

  lemma OtherShape(k: Text)
    requires k != [] && (|k|, LowerChar(k[0]) as int, LowerChar(k[|k| - 1]) as int) !in SHAPES
    ensures LowerKey(k) !in FORBIDDEN_KEYS
  {
    hide FORBIDDEN_KEYS, LowerChar;
    if LowerKey(k) in FORBIDDEN_KEYS {
      ForbiddenShape(LowerKey(k));
    }
  }

  /** The same of the ledger's keys. */
  const OWN_SHAPES: set<(int, int, int)> := {
    (17, 100, 100), (15, 100, 100), (17, 100, 115), (8, 101, 100), (13, 104, 100), (11, 112, 100), (15, 114, 99),
    (14, 114, 99), (16, 114, 99), (27, 115, 104), (29, 115, 54), (11, 100, 100), (13, 100, 100), (7, 101, 115),
    (14, 115, 110), (6, 115, 115)}

  lemma OwnShape(k: Text)
    requires k in ENTRY_KEYS || k in LEDGER_KEYS
    ensures k != [] && (|k|, k[0] as int, k[|k| - 1] as int) in OWN_SHAPES
  {
  }

  lemma ShapesApart(n: int, first: CodePoint, last: CodePoint)
    requires (n, first as int, last as int) in OWN_SHAPES
    ensures (n, first as int, last as int) !in SHAPES && LowerChar(first) == first && LowerChar(last) == last
  {
  }

  lemma KeysPermitted(k: Text)
    requires k in ENTRY_KEYS || k in LEDGER_KEYS
    ensures LowerKey(k) !in FORBIDDEN_KEYS
  {
    OwnShape(k);
    hide FORBIDDEN_KEYS, LowerKey, ENTRY_KEYS, LEDGER_KEYS, SHAPES, OWN_SHAPES;
    ShapesApart(|k|, k[0], k[|k| - 1]);
    OtherShape(k);
  }

  lemma PrefixHasSlash(t: Text, p: Text, i: nat)
    requires i < |p| && p[i] == SLASH && p[0] in {SLASH, 104, 113} && p <= t
    ensures SLASH in t && t[0] in {SLASH, 104, 113}
  {
    assert t[i] == p[i];
  }

  /** Without a slash, or starting with another letter. */
  lemma NoSlashHarmless(t: Text)
    requires SLASH !in t || (t != [] && t[0] !in {SLASH, 104, 113})
    ensures Harmless(t)
  {
    if Lit("/") <= t {
      PrefixHasSlash(t, Lit("/"), 0);
    }
    if Lit("http://") <= t {
      PrefixHasSlash(t, Lit("http://"), 5);
    }
    if Lit("https://") <= t {
      PrefixHasSlash(t, Lit("https://"), 6);
    }
    if Lit("qnty-artifact://") <= t {
      PrefixHasSlash(t, Lit("qnty-artifact://"), 14);
    }
  }

  lemma PatternsHarmless(t: Text)
    requires IsIdentifier(t) || IsDigest(t) || HasStampShape(t)
    ensures Harmless(t)
  {
    hide Harmless;
    NoSlashHarmless(t);
  }

  lemma NamesHarmless(t: Text)
    requires t in DISCLOSURE_KINDS || t in {RECORDED_APPEND_ONLY, SCHEMA, LEDGER_ID, EMPTY_STATUS, POPULATED_STATUS}
    ensures Harmless(t)
  {
    hide Harmless;
    assert t != [];
    assert t[0] !in {SLASH, 104, 113};
    NoSlashHarmless(t);
  }

  lemma KindHarmless()
    ensures Harmless(LEDGER_KIND)
  {
    assert LEDGER_KIND[0] == 113 && LEDGER_KIND[4] == 95;
    assert Lit("qnty-artifact://")[4] == 45;
    assert Lit("/")[0] != 113 && Lit("http://")[0] != 113 && Lit("https://")[0] != 113;
  }

  lemma ReceiptPathHarmless(t: Text)
    requires IsControlReceiptPath(t)
    ensures Harmless(t)
  {
    hide Harmless;
    assert Split(t)[0] == Lit("docs") && Lit("docs")[0] == 100;
    assert t != [];
    assert t[0] == 100;
    NoSlashHarmless(t);
  }

  lemma EntryPermitted(v: Json)
    requires ReadEntryFields(v).Some?
    ensures Permitted(v)
  {
    hide EntryOk, IsIdentifier, IsDigest, IsControlReceiptPath, ParseStamp, Harmless, FORBIDDEN_KEYS;
    var f := v.members;
    assert |f| == |KeysOf(f)|;
    var e := ReadEntryFields(v).value;
    EntryHarmless(e);
    forall m | m in f
      ensures LowerKey(m.key) !in FORBIDDEN_KEYS && Permitted(m.value)
    {
      var i :| 0 <= i < |f| && f[i] == m;
      assert KeysOf(f)[i] == ENTRY_KEYS[i];
      KeysPermitted(m.key);
    }
  }

  lemma EntryHarmless(e: Entry)
    requires EntryOk(e)
    ensures Harmless(e.datasetRegionId) && Harmless(e.disclosureKind) && Harmless(e.disclosureStatus)
    ensures Harmless(e.entryId) && Harmless(e.hypothesisId) && Harmless(e.protocolId) && Harmless(e.recordedAt)
    ensures Harmless(e.regionEnd) && Harmless(e.regionStart) && Harmless(e.receiptPath) && Harmless(e.receiptSha256)
  {
    hide IsIdentifier, IsDigest, IsControlReceiptPath, HasStampShape, Harmless, DISCLOSURE_KINDS;
    PatternsHarmless(e.datasetRegionId);
    PatternsHarmless(e.entryId);
    PatternsHarmless(e.hypothesisId);
    PatternsHarmless(e.protocolId);
    PatternsHarmless(e.recordedAt);
    PatternsHarmless(e.regionEnd);
    PatternsHarmless(e.regionStart);
    PatternsHarmless(e.receiptSha256);
    NamesHarmless(e.disclosureKind);
    NamesHarmless(e.disclosureStatus);
    ReceiptPathHarmless(e.receiptPath);
  }

  /** The scan for forbidden content never decides: the exact keys and field patterns leave it nothing to find. */
  lemma ScanNeverFires(v: Json)
    ensures ReadLedgerEntry(v) == ReadEntryFields(v)
    ensures ReadLedger(v) == ReadLedgerFields(v)
  {
    if ReadEntryFields(v).Some? {
      EntryPermitted(v);
    }
    if ReadLedgerFields(v).Some? {
      LedgerPermitted(v);
    }
  }

  lemma LedgerShape(v: Json)
    requires ReadLedgerFields(v).Some?
    ensures v.Obj? && |v.members| == 5
    ensures var f := v.members;
            && f[0].value == Str(LEDGER_ID) && f[1].value == Str(LEDGER_KIND) && f[3].value == Str(SCHEMA)
            && f[2].value.Arr? && EntriesOk(f[2].value.items)
            && (f[4].value == Str(EMPTY_STATUS) || f[4].value == Str(POPULATED_STATUS))
  {
    hide EntriesOk;
    assert |v.members| == |KeysOf(v.members)|;
  }

  lemma EntriesPermitted(items: seq<Json>)
    requires EntriesOk(items)
    ensures Permitted(Arr(items))
  {
    hide WellKept;
    forall w | w in items
      ensures Permitted(w)
    {
      assert ReadLedgerEntry(w).Some?;
      EntryScanned(w);
    }
  }

  lemma TextPermitted(t: Text)
    requires Harmless(t)
    ensures Permitted(Str(t))
  {
  }

  lemma LedgerValues(v: Json)
    requires ReadLedgerFields(v).Some?
    ensures forall m :: m in v.members ==> Permitted(m.value)
  {
    hide ReadLedgerFields, EntriesOk, Harmless, Permitted, DISCLOSURE_KINDS, RECORDED_APPEND_ONLY;
    hide LEDGER_KIND, LEDGER_ID, SCHEMA, EMPTY_STATUS, POPULATED_STATUS;
    KindHarmless();
    NamesHarmless(SCHEMA);
    NamesHarmless(LEDGER_ID);
    NamesHarmless(EMPTY_STATUS);
    NamesHarmless(POPULATED_STATUS);
    LedgerShape(v);
    var f := v.members;
    TextPermitted(LEDGER_ID);
    TextPermitted(LEDGER_KIND);
    TextPermitted(SCHEMA);
    TextPermitted(EMPTY_STATUS);
    TextPermitted(POPULATED_STATUS);
    EntriesPermitted(f[2].value.items);
    assert f[2].value == Arr(f[2].value.items);
  }

  lemma LedgerPermitted(v: Json)
    requires ReadLedgerFields(v).Some?
    ensures Permitted(v)
  {
    LedgerValues(v);
    hide EntriesOk, FORBIDDEN_KEYS, LEDGER_KIND, LEDGER_ID, SCHEMA, EMPTY_STATUS, POPULATED_STATUS, LowerKey;
    assert v.Obj? && |v.members| == |KeysOf(v.members)|;
    var f := v.members;
    forall m | m in f
      ensures LowerKey(m.key) !in FORBIDDEN_KEYS
    {
      var i :| 0 <= i < |f| && f[i] == m;
      assert KeysOf(f)[i] == LEDGER_KEYS[i];
      KeysPermitted(m.key);
    }
  }

  lemma EntryScanned(v: Json)
    requires ReadLedgerEntry(v).Some?
    ensures Permitted(v)
  {
  }

  // ---- laws ----

  lemma LoadedLedger(data: Bytes)
    requires LoadLedger(data).Some?
    ensures var l := LoadLedger(data).value;
            EntriesOk(l.items) && (l.populated <==> l.items != []) && Canonical(Arr(l.items)) && Spellable(Arr(l.items))
  {
    hide EntriesOk, Dumps, Permitted;
    var v := LoadCanonical(data).value;
    LoadCanonicalIff(data, v);
    var f := v.members;
    assert |f| == |KeysOf(f)|;
    assert f[2] in f;
  }

  /** The document of a ledger. */
  function DocumentOf(l: Ledger): Json {
    Obj([Member(LEDGER_KEYS[0], Str(LEDGER_ID)), Member(LEDGER_KEYS[1], Str(LEDGER_KIND)),
         Member(LEDGER_KEYS[2], Arr(l.items)), Member(LEDGER_KEYS[3], Str(SCHEMA)),
         Member(LEDGER_KEYS[4], Str(if l.populated then POPULATED_STATUS else EMPTY_STATUS))])
  }

  lemma ReadIsDocument(v: Json)
    requires ReadLedgerFields(v).Some?
    ensures v == DocumentOf(ReadLedgerFields(v).value)
  {
    hide EntriesOk, LEDGER_KIND, LEDGER_ID, SCHEMA, EMPTY_STATUS, POPULATED_STATUS;
    var f, k := v.members, KeysOf(v.members);
    assert |f| == |k| == 5;
    assert f[0].key == k[0] && f[1].key == k[1] && f[2].key == k[2] && f[3].key == k[3] && f[4].key == k[4];
    assert f == DocumentOf(ReadLedgerFields(v).value).members;
  }

  lemma DocumentReads(l: Ledger)
    requires EntriesOk(l.items) && (l.populated <==> l.items != [])
    ensures ReadLedgerFields(DocumentOf(l)) == Some(l)
  {
    assert |EMPTY_STATUS| != |POPULATED_STATUS|;
    hide EntriesOk, LEDGER_KIND, LEDGER_ID, SCHEMA, EMPTY_STATUS, POPULATED_STATUS;
    assert |LEDGER_KEYS| == 5;
    assert KeysOf(DocumentOf(l).members) == LEDGER_KEYS;
  }

  lemma LedgerKeysAscend()
    ensures Less(LEDGER_KEYS[0], LEDGER_KEYS[1]) && Less(LEDGER_KEYS[1], LEDGER_KEYS[2])
    ensures Less(LEDGER_KEYS[2], LEDGER_KEYS[3]) && Less(LEDGER_KEYS[3], LEDGER_KEYS[4])
  {
    LessAt(LEDGER_KEYS[0], LEDGER_KEYS[1], 9);
    LessAt(LEDGER_KEYS[1], LEDGER_KEYS[2], 0);
    LessAt(LEDGER_KEYS[2], LEDGER_KEYS[3], 0);
    LessAt(LEDGER_KEYS[3], LEDGER_KEYS[4], 1);
  }

  lemma LitsSpellable(s: string, t: string)
    ensures NoSplitPair(Lit(s)) && NoSplitPair(Lit(s) + Lit(t))
  {
    assert forall i :: 0 <= i < |s| ==> !High(Lit(s)[i]) && !Low(Lit(s)[i]);
    assert forall i :: 0 <= i < |t| ==> !High(Lit(t)[i]) && !Low(Lit(t)[i]);
  }

  lemma LedgerTextSpellable()
    ensures NoSplitPair(LEDGER_ID) && NoSplitPair(LEDGER_KIND) && NoSplitPair(SCHEMA)
    ensures NoSplitPair(EMPTY_STATUS) && NoSplitPair(POPULATED_STATUS)
    ensures forall i :: 0 <= i < 5 ==> NoSplitPair(LEDGER_KEYS[i])
  {
    hide NoSplitPair, Lit;
    LitsSpellable("global-real", "-protocol-holdout-disclosure-ledger-v001");
    LitsSpellable("qnty_global_real", "_protocol_holdout_disclosure_ledger");
    LitSpellable("0.1.0");
    LitSpellable("SCHEMA_IMPLEMENTED_EMPTY_NO_BACKFILL");
    LitSpellable("APPEND_ONLY_METADATA_DISCLOSURES");
    LitSpellable("document_id");
    LitSpellable("document_kind");
    LitSpellable("entries");
    LitSpellable("schema_version");
    LitSpellable("status");
  }

  lemma DocumentCanonical(l: Ledger)
    requires Canonical(Arr(l.items)) && Spellable(Arr(l.items))
    ensures Canonical(DocumentOf(l)) && Spellable(DocumentOf(l))
  {
    LedgerKeysAscend();
    LedgerTextSpellable();
    hide Lit, Less, NoSplitPair, LEDGER_KEYS, LEDGER_KIND, LEDGER_ID, SCHEMA, EMPTY_STATUS, POPULATED_STATUS;
    var ms := DocumentOf(l).members;
    SortedFromNeighbours(ms);
    assert forall x :: x in ms ==> x == ms[0] || x == ms[1] || x == ms[2] || x == ms[3] || x == ms[4];
  }

  /** The accepted documents are exactly the canonical bytes of the ledgers that are well kept and whose status says
      whether they have entries. */
  lemma LoadLedgerIff(data: Bytes, l: Ledger)
    ensures LoadLedger(data) == Some(l) <==>
            && EntriesOk(l.items) && (l.populated <==> l.items != [])
            && Canonical(Arr(l.items)) && Spellable(Arr(l.items)) && data == Dumps(DocumentOf(l))
  {
    if LoadLedger(data) == Some(l) {
      LoadedLedger(data);
      var v := LoadCanonical(data).value;
      LoadCanonicalIff(data, v);
      ReadIsDocument(v);
    }
    hide EntriesOk, Dumps, ReadLedgerFields, ReadLedger, Permitted, DocumentOf, LoadCanonical, Canonical, Spellable;
    if && EntriesOk(l.items) && (l.populated <==> l.items != [])
       && Canonical(Arr(l.items)) && Spellable(Arr(l.items)) && data == Dumps(DocumentOf(l)) {
      DocumentReads(l);
      ScanNeverFires(DocumentOf(l));
      DocumentCanonical(l);
      LoadCanonicalIff(data, DocumentOf(l));
    }
  }

  /** The document determines the ledger, and the ledger the document. */
  lemma LedgerDetermined(a: Bytes, b: Bytes)
    requires LoadLedger(a).Some? && LoadLedger(a) == LoadLedger(b)
    ensures a == b
  {
    hide LoadLedger, EntriesOk, Dumps, DocumentOf, Canonical, Spellable;
    LoadLedgerIff(a, LoadLedger(a).value);
    LoadLedgerIff(b, LoadLedger(b).value);
  }

  /** Accepted appends are exactly extensions: both ledgers are valid and the old entries come first, unchanged. */
  lemma AppendIff(previous: Bytes, candidate: Bytes)
    ensures ValidateLedgerAppend(previous, candidate).Some? <==>
            && LoadLedger(previous).Some? && LoadLedger(candidate).Some?
            && LoadLedger(previous).value.items <= LoadLedger(candidate).value.items
    ensures ValidateLedgerAppend(previous, candidate).Some? ==>
              ValidateLedgerAppend(previous, candidate) == LoadLedger(candidate)
  {
    hide LoadLedger, Dumps, EntriesOk;
    if LoadLedger(previous).Some? && LoadLedger(candidate).Some? {
      LoadedLedger(previous);
      LoadedLedger(candidate);
      var old_, new_ := LoadLedger(previous).value.items, LoadLedger(candidate).value.items;
      if ValidateLedgerAppend(previous, candidate).Some? {
        forall i | 0 <= i < |old_|
          ensures new_[i] == old_[i]
        {
          assert Dumps(new_[i]) == Dumps(old_[i]);
          assert new_[i] in new_ && old_[i] in old_;
          CanonFixed(new_[i]);
          CanonFixed(old_[i]);
          DumpsInjective(new_[i], old_[i]);
        }
      }
    }
  }

  /** Each document of the run was accepted as an append to the one before. */
  predicate AcceptedRun(docs: seq<Bytes>) {
    forall i :: 0 < i < |docs| ==> ValidateLedgerAppend(docs[i - 1], docs[i]).Some?
  }

  lemma {:induction false} RunKeepsEntries(docs: seq<Bytes>, i: nat)
    requires AcceptedRun(docs) && i < |docs| && |docs| > 1
    ensures LoadLedger(docs[0]).Some? && LoadLedger(docs[i]).Some?
    ensures LoadLedger(docs[0]).value.items <= LoadLedger(docs[i]).value.items
  {
    hide ValidateLedgerAppend, LoadLedger;
    AppendIff(docs[0], docs[1]);
    if i > 0 {
      RunKeepsEntries(docs, i - 1);
      AppendIff(docs[i - 1], docs[i]);
    }
  }

  // ---- entries, by the names of their fields ----

  function EntryJson(e: Entry): Json {
    Obj([Member(Lit("dataset_region_id"), Str(e.datasetRegionId)), Member(Lit("disclosure_kind"), Str(e.disclosureKind)),
         Member(Lit("disclosure_status"), Str(e.disclosureStatus)), Member(Lit("entry_id"), Str(e.entryId)),
         Member(Lit("hypothesis_id"), Str(e.hypothesisId)), Member(Lit("protocol_id"), Str(e.protocolId)),
         Member(Lit("recorded_at_utc"), Str(e.recordedAt)), Member(Lit("region_end_utc"), Str(e.regionEnd)),
         Member(Lit("region_start_utc"), Str(e.regionStart)),
         Member(Lit("source_control_receipt_path"), Str(e.receiptPath)),
         Member(Lit("source_control_receipt_sha256"), Str(e.receiptSha256))])
  }

  lemma EntryKeys(e: Entry)
    ensures KeysOf(EntryJson(e).members) == ENTRY_KEYS
  {
    hide Lit;
  }

  /** An entry reads from its own document and from no other. */
  lemma ReadEntryIff(v: Json, e: Entry)
    ensures ReadLedgerEntry(v) == Some(e) <==> EntryOk(e) && v == EntryJson(e)
  {
    ScanNeverFires(v);
    EntryKeys(e);
    hide EntryOk, Lit, Permitted;
    if ReadEntryFields(v) == Some(e) {
      var f, k := v.members, KeysOf(v.members);
      assert |f| == |k| == 11;
      assert forall i :: 0 <= i < 11 ==> f[i].key == k[i];
      assert f == EntryJson(e).members;
    }
  }

  /** Two entries disclose the same when they agree in protocol, hypothesis, region, its bounds and the kind. */
  predicate SameDisclosure(e: Entry, f: Entry) {
    && e.protocolId == f.protocolId && e.hypothesisId == f.hypothesisId && e.datasetRegionId == f.datasetRegionId
    && e.regionStart == f.regionStart && e.regionEnd == f.regionEnd && e.disclosureKind == f.disclosureKind
  }

  /** Regions have a beginning before their end; no id and no disclosure comes twice; times of recording, compared as
      texts, never fall back. */
  predicate InOrder(es: seq<Entry>) {
    && (forall i :: 0 <= i < |es| ==> Less(es[i].regionStart, es[i].regionEnd))
    && (forall i, j :: 0 <= i < j < |es| ==>
          && es[i].entryId != es[j].entryId && !SameDisclosure(es[i], es[j])
          && !Less(es[j].recordedAt, es[i].recordedAt))
  }

  lemma RegionOrder(e: Entry)
    requires EntryOk(e)
    ensures Less(e.regionStart, e.regionEnd)
  {
    hide ParseStamp, IsIdentifier, IsControlReceiptPath, IsDigest, DISCLOSURE_KINDS;
    StampOrder(e.regionStart, e.regionEnd);
  }

  /** Entries are well kept exactly when each is well formed and they are in order. */
  lemma WellKeptIff(es: seq<Entry>)
    ensures WellKept(es) <==> (forall e :: e in es ==> EntryOk(e)) && InOrder(es)
  {
    hide ParseStamp, IsIdentifier, IsControlReceiptPath, IsDigest, DISCLOSURE_KINDS, Less;
    if forall e :: e in es ==> EntryOk(e) {
      forall i | 0 <= i < |es|
        ensures Less(es[i].regionStart, es[i].regionEnd)
      {
        RegionOrder(es[i]);
      }
      forall i, j | 0 <= i < j < |es|
        ensures RecordedAt(es[i]) <= RecordedAt(es[j]) <==> !Less(es[j].recordedAt, es[i].recordedAt)
        ensures SemanticKeyOf(es[i]) == SemanticKeyOf(es[j]) <==> SameDisclosure(es[i], es[j])
      {
        assert EntryOk(es[i]) && EntryOk(es[j]);
        StampOrder(es[j].recordedAt, es[i].recordedAt);
      }
    }
  }

  /** Over any run of accepted appends nothing recorded is changed, dropped or reordered; ids and disclosures
      stay different, times never fall back, and a populated ledger stays populated. */
  lemma RunIsAppendOnly(docs: seq<Bytes>, i: nat, j: nat)
    requires AcceptedRun(docs) && i <= j < |docs| && |docs| > 1
    ensures LoadLedger(docs[i]).Some? && LoadLedger(docs[j]).Some?
    ensures var early, late := LoadLedger(docs[i]).value, LoadLedger(docs[j]).value;
            && early.items <= late.items
            && EntriesOk(late.items) && InOrder(Entries(late.items))
            && (late.populated <==> late.items != [])
            && (early.populated ==> late.populated)
  {
    hide ValidateLedgerAppend, LoadLedger, EntriesOk;
    RunKeepsEntries(docs, i);
    RunKeepsEntries(docs, j);
    if i < j {
      var late := docs[i..];
      forall k | 0 < k < |late|
        ensures ValidateLedgerAppend(late[k - 1], late[k]).Some?
      {
        assert late[k] == docs[i + k] && late[k - 1] == docs[i + k - 1];
      }
      RunKeepsEntries(late, j - i);
    }
    LoadedLedger(docs[i]);
    LoadedLedger(docs[j]);
    LoadedInOrder(LoadLedger(docs[j]).value.items);
  }

  lemma LoadedInOrder(items: seq<Json>)
    requires EntriesOk(items)
    ensures InOrder(Entries(items))
  {
    WellKeptIff(Entries(items));
    hide ReadLedgerEntry, WellKept, InOrder;
  }
}
