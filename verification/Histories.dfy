/** Which receipt histories are accepted: exactly the genuine ones. */
module Histories {
  import opened Wrappers
  import opened Texts
  import opened Decimal
  import opened Json
  import opened Utf8
  import opened Manifest
  import opened Digests
  import opened Receipts

  // ---- fields, paths and links ----

  /** In a dict a key has the value of its one member. */
  lemma {:induction false} FindIff(ms: seq<Member>, key: Text, v: Json)
    requires DistinctKeys(ms)
    ensures Find(ms, key) == Some(v) <==> Member(key, v) in ms
  {
    if ms != [] {
      var n := |ms| - 1;
      assert ms == ms[..n] + [ms[n]];
      FindIff(ms[..n], key, v);
      assert forall m :: m in ms[..n] ==> m.key != ms[n].key;
    }
  }

  /** `<directory>/handoff_vNNN.json` */
  function ReceiptPath(n: nat): Text
    requires n < 1000
  {
    Between(DIRECTORY + Lit("handoff_v"), n, Lit(".json"))
  }

  lemma ThreeDigits(a: int, b: int, c: int)
    requires 0 <= a < 10 && 0 <= b < 10 && 0 <= c < 10
    ensures var n := 100 * a + 10 * b + c; n / 100 == a && n / 10 % 10 == b && n % 10 == c
  {
  }

  function Between(front: Text, n: nat, end: Text): Text
    requires n < 1000
  {
    front + [48 + n / 100, 48 + n / 10 % 10, 48 + n % 10] + end
  }

  lemma BetweenParts(front: Text, n: nat, end: Text)
    requires n < 1000
    ensures var t, d := Between(front, n, end), |front|;
            && |t| == d + 3 + |end| && t[..d] == front && t[d + 3..] == end
            && t[d] == 48 + n / 100 && t[d + 1] == 48 + n / 10 % 10 && t[d + 2] == 48 + n % 10
  {
  }

  lemma Reassembled(front: Text, t: Text, n: nat, end: Text)
    requires n < 1000 && |t| == |front| + 3 + |end| && t[..|front|] == front && t[|front| + 3..] == end
    requires t[|front|] == 48 + n / 100 && t[|front| + 1] == 48 + n / 10 % 10 && t[|front| + 2] == 48 + n % 10
    ensures t == Between(front, n, end)
  {
    var d := |front|;
    BetweenParts(front, n, end);
    var u := Between(front, n, end);
    hide Between;
    assert forall i :: 0 <= i < d ==> t[i] == t[..d][i] == u[..d][i];
    assert forall i :: d + 3 <= i < |t| ==> t[i] == t[d + 3..][i - d - 3] == u[d + 3..][i - d - 3] == u[i];
  }

  /** Three digits between a fixed front and a fixed end. */
  lemma NumberBetween(front: Text, end: Text, t: Text)
    requires |t| == |front| + 3 + |end|
    ensures && front <= t && (forall i :: |front| <= i < |front| + 3 ==> IsDigit(t[i])) && t[|front| + 3..] == end
            <==>
            exists n: nat :: n < 1000 && t == Between(front, n, end)
  {
    var d := |front|;
    hide Between;
    if front <= t && (forall i :: d <= i < d + 3 ==> IsDigit(t[i])) && t[d + 3..] == end {
      var a, b, c := t[d] - 48, t[d + 1] - 48, t[d + 2] - 48;
      ThreeDigits(a, b, c);
      Reassembled(front, t, 100 * a + 10 * b + c, end);
    }
    if n: nat :| n < 1000 && t == Between(front, n, end) {
      BetweenParts(front, n, end);
    }
  }

  /** The paths of receipts are the numbered ones. */
  lemma ReceiptPathIff(t: Text)
    ensures IsReceiptPath(t) <==> exists n: nat :: n < 1000 && t == ReceiptPath(n)
  {
    var front, end := DIRECTORY + Lit("handoff_v"), Lit(".json");
    assert |front| == |DIRECTORY| + 9 && |end| == 5;
    if n: nat :| n < 1000 && t == ReceiptPath(n) {
      BetweenParts(front, n, end);
      NumberBetween(front, end, t);
      assert t == Between(front, n, end);
    }
    if IsReceiptPath(t) {
      NumberBetween(front, end, t);
      var n: nat :| n < 1000 && t == Between(front, n, end);
      assert t == ReceiptPath(n);
    }
  }

  /** A layer's fixed path is the receipt path of its number. */
  lemma HandoffIsReceipt(k: nat)
    requires 33 <= k <= 40
    ensures HandoffPath(k) == ReceiptPath(k) && IsReceiptPath(HandoffPath(k))
  {
    hide DIRECTORY, IsReceiptPath;
    assert Lit("handoff_v0") == Lit("handoff_v") + [48];
    hide Lit;
    ReceiptPathIff(HandoffPath(k));
  }

  function LinkJson(path: Text, h: Text): Json {
    Obj([Member(PATH, Str(path)), Member(SHA_KEY, Str(h))])
  }

  /** The walk reads exactly the links of two fields. */
  lemma ReadLinkIff(v: Json, path: Text, h: Text)
    ensures ReadLink(v) == Some(Link(path, h)) <==> IsReceiptPath(path) && IsDigest(h) && v == LinkJson(path, h)
  {
    hide IsReceiptPath, IsDigest;
    if ReadLink(v).Some? {
      var f, k := v.members, KeysOf(v.members);
      assert |f| == |k| && f[0].key == k[0] && f[1].key == k[1];
    }
    if v == LinkJson(path, h) {
      assert KeysOf(v.members) == [PATH, SHA_KEY];
    }
  }

  // ---- genuine histories ----

  /** The document before entry i of a list of paths. */
  function DocumentBefore(files: Files, current: Json, paths: seq<Text>, i: nat): Option<Json>
    requires i <= |paths|
  {
    if i == 0 then Some(current) else DocumentAt(files, paths[i - 1])
  }

  /** Receipt files at receipt paths, one for each index from `index - 1` down to 1, of the same task and protocol as
      `first`, each accepted by the body validator, and each named by path and hash in the one above it; receipt 1
      names GENESIS. */
  ghost predicate IsHistory(sha: Bytes -> Text, body: Json -> bool, files: Files, first: Json, current: Json, index: int,
                            paths: seq<Text>)
  {
    && index == |paths| + 1
    && (forall i :: 0 <= i < |paths| ==> IsReceiptPath(paths[i]) && IsReceipt(body, files, first, paths[i], index - 1 - i))
    && (forall i :: 0 <= i < |paths| ==> NamesNext(sha, files, current, paths, i))
    && DocumentBefore(files, current, paths, |paths|).Some?
    && Get(DocumentBefore(files, current, paths, |paths|).value, PREDECESSOR) == Some(Str(GENESIS))
  }

  /** A receipt of this index, task and protocol. */
  predicate IsReceipt(body: Json -> bool, files: Files, first: Json, path: Text, index: int) {
    && DocumentAt(files, path).Some?
    && var v := DocumentAt(files, path).value;
       && body(v) && Get(v, RECEIPT_INDEX) == Some(Int(index))
       && Get(v, TASK_ID).Some? && Get(v, TASK_ID) == Get(first, TASK_ID)
       && Get(v, PROTOCOL_ID).Some? && Get(v, PROTOCOL_ID) == Get(first, PROTOCOL_ID)
  }

  /** The document before entry i names the file of entry i, by path and by the hash of its bytes. */
  predicate NamesNext(sha: Bytes -> Text, files: Files, current: Json, paths: seq<Text>, i: nat)
    requires i < |paths|
  {
    && DocumentBefore(files, current, paths, i).Some? && paths[i] in files
    && Get(DocumentBefore(files, current, paths, i).value, PREDECESSOR)
       == Some(LinkJson(paths[i], sha(files[paths[i]])))
  }

  lemma Shifted(sha: Bytes -> Text, files: Files, current: Json, paths: seq<Text>, i: nat)
    requires paths != [] && DocumentAt(files, paths[0]).Some? && i < |paths|
    ensures var next := DocumentAt(files, paths[0]).value;
            && DocumentBefore(files, next, paths[1..], i) == DocumentBefore(files, current, paths, i + 1)
            && (i > 0 ==> NamesNext(sha, files, next, paths[1..], i - 1) == NamesNext(sha, files, current, paths, i))
  {
    hide DocumentAt, Get, LinkJson;
    if i > 0 {
      assert paths[1..][i - 1] == paths[i];
    }
  }

  ghost predicate HeadOk(sha: Bytes -> Text, body: Json -> bool, files: Files, first: Json, current: Json, index: int,
                         paths: seq<Text>)
    requires paths != []
  {
    && IsReceiptPath(paths[0]) && IsReceipt(body, files, first, paths[0], index - 1)
    && NamesNext(sha, files, current, paths, 0)
  }

  lemma HistoryConsAt(sha: Bytes -> Text, body: Json -> bool, files: Files, first: Json, current: Json, index: int,
                      paths: seq<Text>, i: nat)
    requires paths != [] && DocumentAt(files, paths[0]).Some? && i < |paths|
    requires HeadOk(sha, body, files, first, current, index, paths)
    requires IsHistory(sha, body, files, first, DocumentAt(files, paths[0]).value, index - 1, paths[1..])
    ensures IsReceiptPath(paths[i]) && IsReceipt(body, files, first, paths[i], index - 1 - i)
    ensures NamesNext(sha, files, current, paths, i)
  {
    hide IsReceiptPath, DocumentAt, Get, IsReceipt, NamesNext, DocumentBefore;
    Shifted(sha, files, current, paths, i);
    if i > 0 {
      var rest := paths[1..];
      assert rest[i - 1] == paths[i];
      assert IsReceiptPath(rest[i - 1]) && IsReceipt(body, files, first, rest[i - 1], index - 1 - 1 - (i - 1));
    }
  }

  lemma HistoryCons(sha: Bytes -> Text, body: Json -> bool, files: Files, first: Json, current: Json, index: int,
                    paths: seq<Text>)
    requires paths != [] && DocumentAt(files, paths[0]).Some?
    requires HeadOk(sha, body, files, first, current, index, paths)
    requires IsHistory(sha, body, files, first, DocumentAt(files, paths[0]).value, index - 1, paths[1..])
    ensures IsHistory(sha, body, files, first, current, index, paths)
  {
    Shifted(sha, files, current, paths, |paths| - 1);
    forall i | 0 <= i < |paths| {
      HistoryConsAt(sha, body, files, first, current, index, paths, i);
    }
    hide IsReceiptPath, DocumentAt, Get, IsReceipt, NamesNext, HeadOk;
  }

  lemma HistoryRestAt(sha: Bytes -> Text, body: Json -> bool, files: Files, first: Json, current: Json, index: int,
                      paths: seq<Text>, i: nat)
    requires paths != [] && DocumentAt(files, paths[0]).Some? && i < |paths| - 1
    requires IsHistory(sha, body, files, first, current, index, paths)
    ensures IsReceiptPath(paths[1..][i]) && IsReceipt(body, files, first, paths[1..][i], index - 1 - 1 - i)
    ensures NamesNext(sha, files, DocumentAt(files, paths[0]).value, paths[1..], i)
  {
    Shifted(sha, files, current, paths, i + 1);
    hide IsReceiptPath, DocumentAt, Get, IsReceipt, NamesNext, DocumentBefore;
    assert IsReceiptPath(paths[i + 1]) && IsReceipt(body, files, first, paths[i + 1], index - 1 - (i + 1));
    assert NamesNext(sha, files, current, paths, i + 1);
    assert paths[1..][i] == paths[i + 1];
  }

  lemma HistoryRest(sha: Bytes -> Text, body: Json -> bool, files: Files, first: Json, current: Json, index: int,
                    paths: seq<Text>)
    requires paths != [] && DocumentAt(files, paths[0]).Some?
    requires IsHistory(sha, body, files, first, current, index, paths)
    ensures HeadOk(sha, body, files, first, current, index, paths)
    ensures IsHistory(sha, body, files, first, DocumentAt(files, paths[0]).value, index - 1, paths[1..])
  {
    hide IsReceiptPath, DocumentAt, Get, IsReceipt, NamesNext, DocumentBefore;
    Shifted(sha, files, current, paths, |paths| - 1);
    var rest := paths[1..];
    forall i | 0 <= i < |rest|
      ensures IsReceiptPath(rest[i]) && IsReceipt(body, files, first, rest[i], index - 1 - 1 - i)
      ensures NamesNext(sha, files, DocumentAt(files, paths[0]).value, rest, i)
    {
      HistoryRestAt(sha, body, files, first, current, index, paths, i);
    }
    assert IsReceiptPath(paths[0]) && IsReceipt(body, files, first, paths[0], index - 1 - 0);
    assert NamesNext(sha, files, current, paths, 0);
  }

  // ---- the walk ----

  /** The checks the walk makes of a document. */
  lemma ReceiptIff(body: Json -> bool, files: Files, first: Json, path: Text, index: int)
    requires ChecksIndex(body)
    ensures IsReceipt(body, files, first, path, index) <==>
            && DocumentAt(files, path).Some?
            && var v := DocumentAt(files, path).value; body(v) && IndexOf(v) == Some(index) && SameTask(v, first)
  {
    hide Get, DocumentAt;
  }

  /** The checks the walk makes of a link. */
  lemma NamedIff(sha: Bytes -> Text, files: Files, current: Json, paths: seq<Text>)
    requires HexDigests(sha) && paths != []
    ensures IsReceiptPath(paths[0]) && NamesNext(sha, files, current, paths, 0) <==>
            && Get(current, PREDECESSOR).Some? && paths[0] in files
            && ReadLink(Get(current, PREDECESSOR).value) == Some(Link(paths[0], sha(files[paths[0]])))
  {
    hide Get, IsReceiptPath, ReadLink, LinkJson;
    if Get(current, PREDECESSOR).Some? && paths[0] in files {
      ReadLinkIff(Get(current, PREDECESSOR).value, paths[0], sha(files[paths[0]]));
    }
  }

  /** One step of the walk, when it goes on. */
  lemma WalkGoesOn(sha: Bytes -> Text, body: Json -> bool, files: Files, first: Json, current: Json, index: int,
                   link: Link, previous: Json)
    requires index > 1 && Get(current, PREDECESSOR).Some? && ReadLink(Get(current, PREDECESSOR).value) == Some(link)
    requires link.path in files && sha(files[link.path]) == link.sha256 && LoadObject(files[link.path]) == Some(previous)
    requires body(previous) && IndexOf(previous) == Some(index - 1) && SameTask(previous, first)
    ensures var rest := Walk(sha, body, files, first, previous, index - 1);
            Walk(sha, body, files, first, current, index) == if rest.None? then None else Some([link.path] + rest.value)
  {
    hide LoadObject, Get, ReadLink, IndexOf, SameTask;
  }

  /** What a step of the walk has seen when it returns a path. */
  lemma WalkSaw(sha: Bytes -> Text, body: Json -> bool, files: Files, first: Json, current: Json, index: int)
    requires Walk(sha, body, files, first, current, index).Some?
    requires Walk(sha, body, files, first, current, index).value != []
    ensures index > 1 && Get(current, PREDECESSOR).Some? && ReadLink(Get(current, PREDECESSOR).value).Some?
    ensures var link := ReadLink(Get(current, PREDECESSOR).value).value;
            && link.path in files && sha(files[link.path]) == link.sha256 && LoadObject(files[link.path]).Some?
            && var previous := LoadObject(files[link.path]).value;
               && body(previous) && IndexOf(previous) == Some(index - 1) && SameTask(previous, first)
               && Walk(sha, body, files, first, current, index).value[0] == link.path
  {
    hide LoadObject, Get, ReadLink, IndexOf, SameTask;
  }

  /** A walk that returns a path has checked the receipt there. */
  lemma WalkChecked(sha: Bytes -> Text, body: Json -> bool, files: Files, first: Json, current: Json, index: int,
                    paths: seq<Text>)
    requires HexDigests(sha) && ChecksIndex(body) && paths != [] && DocumentAt(files, paths[0]).Some?
    requires Walk(sha, body, files, first, current, index) == Some(paths)
    ensures index > 1 && HeadOk(sha, body, files, first, current, index, paths)
  {
    hide LoadObject, IsReceiptPath, Get, ReadLink, LinkJson, IsReceipt, NamesNext, IndexOf, SameTask, Walk, ChecksIndex,
      HexDigests;
    WalkSaw(sha, body, files, first, current, index);
    NamedIff(sha, files, current, paths);
    ReceiptIff(body, files, first, paths[0], index - 1);
  }

  /** A walk at a receipt that names the next goes on to it. */
  lemma WalkFollows(sha: Bytes -> Text, body: Json -> bool, files: Files, first: Json, current: Json, index: int,
                    paths: seq<Text>)
    requires HexDigests(sha) && ChecksIndex(body) && paths != [] && DocumentAt(files, paths[0]).Some?
    requires index > 1 && HeadOk(sha, body, files, first, current, index, paths)
    ensures var rest := Walk(sha, body, files, first, DocumentAt(files, paths[0]).value, index - 1);
            Walk(sha, body, files, first, current, index) == if rest.None? then None else Some([paths[0]] + rest.value)
  {
    hide LoadObject, IsReceiptPath, Get, ReadLink, LinkJson, IsReceipt, NamesNext, IndexOf, SameTask, Walk, ChecksIndex,
      HexDigests;
    NamedIff(sha, files, current, paths);
    ReceiptIff(body, files, first, paths[0], index - 1);
    WalkGoesOn(sha, body, files, first, current, index, Link(paths[0], sha(files[paths[0]])),
               DocumentAt(files, paths[0]).value);
  }

  /** One step of the walk. */
  lemma WalkStep(sha: Bytes -> Text, body: Json -> bool, files: Files, first: Json, current: Json, index: int,
                 paths: seq<Text>)
    requires HexDigests(sha) && ChecksIndex(body) && paths != [] && DocumentAt(files, paths[0]).Some?
    ensures Walk(sha, body, files, first, current, index) == Some(paths) <==>
            && index > 1
            && HeadOk(sha, body, files, first, current, index, paths)
            && Walk(sha, body, files, first, DocumentAt(files, paths[0]).value, index - 1) == Some(paths[1..])
  {
    hide Walk, DocumentAt, HeadOk, ChecksIndex, HexDigests;
    if Walk(sha, body, files, first, current, index) == Some(paths) {
      WalkChecked(sha, body, files, first, current, index, paths);
    }
    if index > 1 && HeadOk(sha, body, files, first, current, index, paths) {
      WalkFollows(sha, body, files, first, current, index, paths);
      var rest := Walk(sha, body, files, first, DocumentAt(files, paths[0]).value, index - 1);
      if rest.Some? {
        ConsIs(paths[0], rest.value, paths);
      }
    }
  }

  lemma WalkEnd(sha: Bytes -> Text, body: Json -> bool, files: Files, first: Json, current: Json, index: int)
    ensures Walk(sha, body, files, first, current, index) == Some([]) <==>
            index == 1 && Get(current, PREDECESSOR) == Some(Str(GENESIS))
  {
    hide LoadObject, Get, ReadLink;
  }

  lemma WalkLoads(sha: Bytes -> Text, body: Json -> bool, files: Files, first: Json, current: Json, index: int)
    requires Walk(sha, body, files, first, current, index).Some?
    requires Walk(sha, body, files, first, current, index).value != []
    ensures DocumentAt(files, Walk(sha, body, files, first, current, index).value[0]).Some?
  {
    hide LoadObject, Get, ReadLink;
  }

  /** The walk returns exactly the genuine history of a document, so it accepts a document exactly when it has one. */
  lemma {:induction false} WalkIff(sha: Bytes -> Text, body: Json -> bool, files: Files, first: Json, current: Json,
                                   index: int, paths: seq<Text>)
    requires HexDigests(sha) && ChecksIndex(body)
    ensures Walk(sha, body, files, first, current, index) == Some(paths) <==>
            IsHistory(sha, body, files, first, current, index, paths)
    decreases |paths|
  {
    hide Walk, DocumentAt, Get, ChecksIndex, HexDigests, HeadOk, NamesNext, IsReceipt, IsReceiptPath;
    if paths == [] {
      WalkEnd(sha, body, files, first, current, index);
    } else if DocumentAt(files, paths[0]).Some? {
      WalkStep(sha, body, files, first, current, index, paths);
      WalkIff(sha, body, files, first, DocumentAt(files, paths[0]).value, index - 1, paths[1..]);
      hide IsHistory;
      if IsHistory(sha, body, files, first, current, index, paths) {
        HistoryRest(sha, body, files, first, current, index, paths);
        HistoryLength(sha, body, files, first, current, index, paths);
      } else if Walk(sha, body, files, first, current, index) == Some(paths) {
        HistoryCons(sha, body, files, first, current, index, paths);
      }
    } else {
      if Walk(sha, body, files, first, current, index) == Some(paths) {
        WalkLoads(sha, body, files, first, current, index);
      }
      if IsHistory(sha, body, files, first, current, index, paths) {
        HistoryLoads(sha, body, files, first, current, index, paths);
      }
    }
  }

  lemma HistoryLength(sha: Bytes -> Text, body: Json -> bool, files: Files, first: Json, current: Json, index: int,
                      paths: seq<Text>)
    requires IsHistory(sha, body, files, first, current, index, paths)
    ensures index == |paths| + 1
  {
  }

  lemma HistoryLoads(sha: Bytes -> Text, body: Json -> bool, files: Files, first: Json, current: Json, index: int,
                     paths: seq<Text>)
    requires IsHistory(sha, body, files, first, current, index, paths) && paths != []
    ensures DocumentAt(files, paths[0]).Some?
  {
    hide DocumentAt, Get, NamesNext, IsReceiptPath;
    assert IsReceipt(body, files, first, paths[0], index - 1 - 0);
  }

  // ---- through the layers ----

  predicate Owned(layer: nat, v: Json) {
    IndexOf(v).Some? && FIRST_LAYER <= IndexOf(v).value <= layer
  }

  /** The layers peel the first `peeled` receipts, each at the fixed path below its own index; then no layer that is
      left owns the document, and the remaining paths are its genuine history. */
  ghost predicate IsLayered(sha: Bytes -> Text, body: Json -> bool, files: Files, layer: nat, v: Json, paths: seq<Text>,
                            peeled: nat)
    requires layer <= LAST_LAYER
    decreases peeled
  {
    if peeled == 0 then
      !Owned(layer, v) && IndexOf(v).Some? && IsHistory(sha, body, files, v, v, IndexOf(v).value, paths)
    else
      && Owned(layer, v) && paths != [] && paths[0] == ReceiptPath(IndexOf(v).value - 1)
      && Names(sha, files, v, paths[0]) && DocumentAt(files, paths[0]).Some?
      && IsLayered(sha, body, files, IndexOf(v).value - 1, DocumentAt(files, paths[0]).value, paths[1..], peeled - 1)
  }

  /** A document that no layer owns goes to the walk. */
  lemma {:induction false} UnownedWalks(sha: Bytes -> Text, body: Json -> bool, files: Files, layer: nat, v: Json)
    requires layer <= LAST_LAYER && !Owned(layer, v)
    ensures Chain(sha, body, files, layer, v)
            == if IndexOf(v).None? then None else Walk(sha, body, files, v, v, IndexOf(v).value)
    decreases layer
  {
    hide LoadObject, Get, Walk, HandoffPath, IndexOf;
    if layer >= FIRST_LAYER {
      UnownedWalks(sha, body, files, layer - 1, v);
    }
  }

  /** What the layer of the document's own index does. */
  lemma LayerPeels(sha: Bytes -> Text, body: Json -> bool, files: Files, k: nat, v: Json)
    requires FIRST_LAYER <= k <= LAST_LAYER && IndexOf(v) == Some(k)
    ensures Chain(sha, body, files, k, v)
            == if Names(sha, files, v, HandoffPath(k - 1)) && DocumentAt(files, HandoffPath(k - 1)).Some? then
                 var rest := Chain(sha, body, files, k - 1, DocumentAt(files, HandoffPath(k - 1)).value);
                 if rest.None? then None else Some([HandoffPath(k - 1)] + rest.value)
               else None
  {
    hide LoadObject, Get, Walk, HandoffPath, IndexOf;
  }

  lemma ConsIs(x: Text, rest: seq<Text>, paths: seq<Text>)
    ensures [x] + rest == paths <==> paths != [] && paths[0] == x && paths[1..] == rest
  {
    assert ([x] + rest)[1..] == rest;
    if paths != [] {
      assert paths == [paths[0]] + paths[1..];
    }
  }

  /** A layer that owns the document peels one receipt. */
  lemma OwnedPeels(sha: Bytes -> Text, body: Json -> bool, files: Files, layer: nat, v: Json, paths: seq<Text>)
    requires layer <= LAST_LAYER && Owned(layer, v)
    ensures Chain(sha, body, files, layer, v) == Some(paths) <==>
            && paths != [] && paths[0] == ReceiptPath(IndexOf(v).value - 1)
            && Names(sha, files, v, paths[0]) && DocumentAt(files, paths[0]).Some?
            && Chain(sha, body, files, IndexOf(v).value - 1, DocumentAt(files, paths[0]).value) == Some(paths[1..])
  {
    hide DocumentAt, Names, Chain, HandoffPath, IndexOf, ReceiptPath, IsReceiptPath;
    var k := IndexOf(v).value;
    FallsThrough(sha, body, files, layer, k, v);
    HandoffIsReceipt(k - 1);
    LayerPeels(sha, body, files, k, v);
    var path := HandoffPath(k - 1);
    if Names(sha, files, v, path) && DocumentAt(files, path).Some? {
      var rest := Chain(sha, body, files, k - 1, DocumentAt(files, path).value);
      if rest.Some? {
        ConsIs(path, rest.value, paths);
      }
    }
  }

  /** Acceptance through all layers: the receipts peeled at their fixed paths, and then a genuine history. */
  lemma {:induction false} ChainIff(sha: Bytes -> Text, body: Json -> bool, files: Files, layer: nat, v: Json,
                                    paths: seq<Text>)
    requires HexDigests(sha) && ChecksIndex(body) && layer <= LAST_LAYER
    ensures Chain(sha, body, files, layer, v) == Some(paths) <==>
            exists peeled: nat :: IsLayered(sha, body, files, layer, v, paths, peeled)
    decreases layer
  {
    hide Chain, HexDigests, ChecksIndex, DocumentAt, IndexOf, Names, IsHistory, ReceiptPath, Walk;
    if !Owned(layer, v) {
      UnownedWalks(sha, body, files, layer, v);
      if IndexOf(v).Some? {
        WalkIff(sha, body, files, v, v, IndexOf(v).value, paths);
      }
      LayeredUnowned(sha, body, files, layer, v, paths);
    } else {
      OwnedPeels(sha, body, files, layer, v, paths);
      if n: nat :| IsLayered(sha, body, files, layer, v, paths, n) {
        LayeredOwned(sha, body, files, layer, v, paths, n);
        ChainIff(sha, body, files, IndexOf(v).value - 1, DocumentAt(files, paths[0]).value, paths[1..]);
      }
      if Chain(sha, body, files, layer, v) == Some(paths) {
        var below := DocumentAt(files, paths[0]).value;
        ChainIff(sha, body, files, IndexOf(v).value - 1, below, paths[1..]);
        var n: nat :| IsLayered(sha, body, files, IndexOf(v).value - 1, below, paths[1..], n);
        assert IsLayered(sha, body, files, layer, v, paths, n + 1);
      }
    }
  }

  lemma LayeredUnowned(sha: Bytes -> Text, body: Json -> bool, files: Files, layer: nat, v: Json, paths: seq<Text>)
    requires layer <= LAST_LAYER && !Owned(layer, v)
    ensures (exists n: nat :: IsLayered(sha, body, files, layer, v, paths, n)) <==>
            IndexOf(v).Some? && IsHistory(sha, body, files, v, v, IndexOf(v).value, paths)
  {
    hide IndexOf, IsHistory, Names, DocumentAt, ReceiptPath;
    if n: nat :| IsLayered(sha, body, files, layer, v, paths, n) {
      assert n == 0;
    }
    if IndexOf(v).Some? && IsHistory(sha, body, files, v, v, IndexOf(v).value, paths) {
      SomeLayers(sha, body, files, layer, v, paths, 0);
    }
  }

  lemma SomeLayers(sha: Bytes -> Text, body: Json -> bool, files: Files, layer: nat, v: Json, paths: seq<Text>, n: nat)
    requires layer <= LAST_LAYER && IsLayered(sha, body, files, layer, v, paths, n)
    ensures exists k: nat :: IsLayered(sha, body, files, layer, v, paths, k)
  {
  }

  lemma LayeredOwned(sha: Bytes -> Text, body: Json -> bool, files: Files, layer: nat, v: Json, paths: seq<Text>, n: nat)
    requires layer <= LAST_LAYER && Owned(layer, v) && IsLayered(sha, body, files, layer, v, paths, n)
    ensures n > 0 && paths != [] && paths[0] == ReceiptPath(IndexOf(v).value - 1)
    ensures Names(sha, files, v, paths[0]) && DocumentAt(files, paths[0]).Some?
    ensures IsLayered(sha, body, files, IndexOf(v).value - 1, DocumentAt(files, paths[0]).value, paths[1..], n - 1)
  {
    hide DocumentAt, IndexOf, Names, ReceiptPath, IsHistory;
  }

  /** The fixed paths below an index, nearest first. */
  function Handoffs(index: nat): (paths: seq<Text>)
    requires FIRST_LAYER - 1 <= index <= LAST_LAYER
    ensures |paths| == index - (FIRST_LAYER - 1)
  {
    if index < FIRST_LAYER then [] else [ReceiptPath(index - 1)] + Handoffs(index - 1)
  }

  /** The document of an index: the one given, or the handoff file of that number. */
  function Numbering(files: Files, v: Json, index: nat, k: nat): Option<Json>
    requires FIRST_LAYER - 1 <= k <= index <= LAST_LAYER
  {
    if k == index then Some(v) else DocumentAt(files, ReceiptPath(k))
  }

  /** The document is there, carries its number, and names the handoff file below it. */
  predicate LinkedAt(sha: Bytes -> Text, files: Files, v: Json, index: nat, k: nat)
    requires FIRST_LAYER - 1 <= k <= index <= LAST_LAYER
  {
    && Numbering(files, v, index, k).Some? && IndexOf(Numbering(files, v, index, k).value) == Some(k)
    && (k >= FIRST_LAYER ==> Names(sha, files, Numbering(files, v, index, k).value, ReceiptPath(k - 1)))
  }

  ghost predicate HandoffsLinked(sha: Bytes -> Text, files: Files, v: Json, index: nat)
    requires FIRST_LAYER - 1 <= index <= LAST_LAYER
  {
    forall k: nat :: FIRST_LAYER - 1 <= k <= index ==> LinkedAt(sha, files, v, index, k)
  }

  /** A receipt above linked and numbered handoff files is accepted exactly when the lowest of them has a genuine
      history, and its own history is then the handoff files and that one. */
  lemma {:induction false} LinkedChainIff(sha: Bytes -> Text, body: Json -> bool, files: Files, v: Json, index: nat,
                                          paths: seq<Text>)
    requires HexDigests(sha) && ChecksIndex(body)
    requires FIRST_LAYER - 1 <= index <= LAST_LAYER && HandoffsLinked(sha, files, v, index)
    ensures Numbering(files, v, index, FIRST_LAYER - 1).Some?
    ensures var lowest := Numbering(files, v, index, FIRST_LAYER - 1).value;
            Chain(sha, body, files, index, v) == Some(Handoffs(index) + paths) <==>
            IsHistory(sha, body, files, lowest, lowest, FIRST_LAYER - 1, paths)
    decreases index
  {
    hide Chain, HexDigests, ChecksIndex, DocumentAt, IndexOf, Names, IsHistory, ReceiptPath, Walk;
    assert LinkedAt(sha, files, v, index, index) && LinkedAt(sha, files, v, index, FIRST_LAYER - 1);
    if index < FIRST_LAYER {
      UnownedWalks(sha, body, files, index, v);
      WalkIff(sha, body, files, v, v, index, paths);
      assert Handoffs(index) + paths == paths;
    } else {
      LinkedBelow(sha, files, v, index);
      var below := Numbering(files, v, index, index - 1).value;
      LinkedChainIff(sha, body, files, below, index - 1, paths);
      OwnedPeels(sha, body, files, index, v, Handoffs(index) + paths);
      assert (Handoffs(index) + paths)[1..] == Handoffs(index - 1) + paths;
    }
  }

  lemma LinkedBelow(sha: Bytes -> Text, files: Files, v: Json, index: nat)
    requires FIRST_LAYER <= index <= LAST_LAYER && HandoffsLinked(sha, files, v, index)
    ensures LinkedAt(sha, files, v, index, index) && LinkedAt(sha, files, v, index, index - 1)
    ensures LinkedAt(sha, files, v, index, FIRST_LAYER - 1)
    ensures var below := Numbering(files, v, index, index - 1).value;
            && HandoffsLinked(sha, files, below, index - 1)
            && Numbering(files, below, index - 1, FIRST_LAYER - 1) == Numbering(files, v, index, FIRST_LAYER - 1)
  {
    hide DocumentAt, IndexOf, Names, ReceiptPath;
    assert LinkedAt(sha, files, v, index, index - 1);
    var below, lower := Numbering(files, v, index, index - 1).value, index - 1;
    forall k: nat | FIRST_LAYER - 1 <= k <= lower
      ensures LinkedAt(sha, files, below, lower, k)
    {
      assert LinkedAt(sha, files, v, index, k);
      assert Numbering(files, below, lower, k) == Numbering(files, v, index, k);
    }
  }
}
