/** The hash-linked receipt history: the predecessor walk and the layers in front of it. */
module Receipts {
  import opened Wrappers
  import opened Texts
  import opened Decimal
  import opened Json
  import opened Utf8
  import opened Manifest
  import opened Digests
  import ManifestFacts

  const RECEIPT_INDEX := Lit("receipt_index")
  const PREDECESSOR := Lit("predecessor")
  const PATH := Lit("path")
  const SHA_KEY := Lit("sha256")
  const TASK_ID := Lit("task_id")
  const PROTOCOL_ID := Lit("protocol_id")
  const GENESIS := Lit("GENESIS")
  const DIRECTORY := Lit("docs/control/tasks/RECOVER_OR_RETIRE_CANDIDATE1_V0_FROZEN_INPUT/")

  /** The repository's files by path, as bytes. */
  type Files = map<Text, Bytes>

  /** `v[key]` or `v.get(key)` on a loaded document. */
  function Get(v: Json, key: Text): Option<Json> {
    if v.Obj? then Find(v.members, key) else None
  }

  function Find(ms: seq<Member>, key: Text): Option<Json> {
    if ms == [] then None
    else if ms[|ms| - 1].key == key then Some(ms[|ms| - 1].value)
    else Find(ms[..|ms| - 1], key)
  }

  /** `_load_canonical_document` */
  function LoadObject(data: Bytes): Option<Json> {
    var v :- LoadCanonical(data);
    if v.Obj? then Some(v) else None
  }

  /** The receipt index as `==` sees it: Python's `True` is 1 and `False` is 0. */
  function IndexOf(v: Json): Option<int> {
    match Get(v, RECEIPT_INDEX)
    case Some(Int(i)) => Some(i)
    case Some(Bool(b)) => Some(if b then 1 else 0)
    case _ => None
  }

  /** `docs/control/tasks/<task_id>/handoff_vNNN.json` */
  predicate IsReceiptPath(t: Text) {
    && |t| == |DIRECTORY| + 17
    && DIRECTORY + Lit("handoff_v") <= t
    && (forall i :: |DIRECTORY| + 9 <= i < |DIRECTORY| + 12 ==> IsDigit(t[i]))
    && t[|DIRECTORY| + 12..] == Lit(".json")
  }

  datatype Link = Link(path: Text, sha256: Text)

  /** A predecessor entry as the loop reads it: exactly a receipt path and a digest. */
  function ReadLink(v: Json): Option<Link> {
    if HasExactKeys(v, [PATH, SHA_KEY]) then
      var f := v.members;
      assert |f| == |KeysOf(f)|;
      if f[0].value.Str? && IsReceiptPath(f[0].value.s) && f[1].value.Str? && IsDigest(f[1].value.s) then
        Some(Link(f[0].value.s, f[1].value.s))
      else None
    else None
  }

  /** A validator of receipt bodies only accepts documents whose index is an integer of at least 1. */
  ghost predicate ChecksIndex(body: Json -> bool) {
    forall v :: body(v) ==> exists i :: i >= 1 && Get(v, RECEIPT_INDEX) == Some(Int(i))
  }

  predicate SameTask(v: Json, w: Json) {
    && Get(v, TASK_ID).Some? && Get(w, TASK_ID).Some? && Get(v, TASK_ID) == Get(w, TASK_ID)
    && Get(v, PROTOCOL_ID).Some? && Get(w, PROTOCOL_ID).Some? && Get(v, PROTOCOL_ID) == Get(w, PROTOCOL_ID)
  }

  // ---- the walk ----

  /** The receipts behind `current`, nearest first, when the links lead down to GENESIS at index 1; `first` is
      the document the walk started from. */
  function Walk(sha: Bytes -> Text, body: Json -> bool, files: Files, first: Json, current: Json, index: int)
    : Option<seq<Text>>
    decreases if index >= 1 then index else 0
  {
    var predecessor :- Get(current, PREDECESSOR);
    if index == 1 then (if predecessor == Str(GENESIS) then Some([]) else None)
    else
      var link :- ReadLink(predecessor);
      if link.path !in files || sha(files[link.path]) != link.sha256 then None
      else
        var previous :- LoadObject(files[link.path]);
        if body(previous) && IndexOf(previous) == Some(index - 1) && index - 1 >= 1 && SameTask(previous, first) then
          var rest :- Walk(sha, body, files, first, previous, index - 1);
          Some([link.path] + rest)
        else None
  }

  /** The document at a path. */
  function DocumentAt(files: Files, path: Text): Option<Json> {
    if path in files then LoadObject(files[path]) else None
  }

  /** The walk's while loop, with its set of visited paths. */
  method WalkPredecessors(sha: Bytes -> Text, body: Json -> bool, files: Files, parsed: Json, receiptPath: Text)
    returns (ok: bool)
    requires ChecksIndex(body) && DocumentAt(files, receiptPath) == Some(parsed)
    ensures ok <==> IndexOf(parsed).Some? && Walk(sha, body, files, parsed, parsed, IndexOf(parsed).value).Some?
  {
    hide LoadObject, Get, ReadLink, SameTask;
    if IndexOf(parsed).None? {
      return false;
    }
    var visited := {receiptPath};
    var current, index := parsed, IndexOf(parsed).value;
    while true
      invariant Walk(sha, body, files, parsed, parsed, IndexOf(parsed).value).Some?
                <==> Walk(sha, body, files, parsed, current, index).Some?
      invariant forall p :: p in visited ==> DocumentAt(files, p).Some? && IndexOf(DocumentAt(files, p).value).Some?
                                             && IndexOf(DocumentAt(files, p).value).value >= index
      decreases if index >= 1 then index else 0
    {
      var predecessor := Get(current, PREDECESSOR);
      if predecessor.None? {
        return false;
      }
      if index == 1 {
        return predecessor.value == Str(GENESIS);
      }
      var link := ReadLink(predecessor.value);
      if link.None? {
        return false;
      }
      var path := link.value.path;
      if path in visited {
        return false;
      }
      visited := visited + {path};
      if path !in files || sha(files[path]) != link.value.sha256 {
        return false;
      }
      var previous := LoadObject(files[path]);
      if previous.None? || !body(previous.value) {
        return false;
      }
      if IndexOf(previous.value) != Some(index - 1) || !SameTask(previous.value, parsed) {
        return false;
      }
      BodyIndex(body, previous.value);
      current, index := previous.value, index - 1;
    }
  }

  lemma BodyIndex(body: Json -> bool, v: Json)
    requires ChecksIndex(body) && body(v)
    ensures IndexOf(v).Some? && IndexOf(v).value >= 1
  {
  }

  // ---- the layers in front of the walk ----

  const FIRST_LAYER: nat := 34
  const LAST_LAYER: nat := 41

  /** The one predecessor path that the layer for `receipt_index` k accepts. */
  function HandoffPath(k: nat): Text
    requires 33 <= k <= 40
  {
    DIRECTORY + Lit("handoff_v0") + [48 + k / 10, 48 + k % 10] + Lit(".json")
  }

  /** A predecessor entry as a layer reads it: whatever else it holds, a path and a hash. */
  function ReadLayerLink(v: Json): Option<Link> {
    match (Get(v, PATH), Get(v, SHA_KEY))
    case (Some(Str(path)), Some(Str(h))) => Some(Link(path, h))
    case _ => None
  }

  /** `_validate_predecessor_chain` seen from a layer: peel one receipt when the index is the layer's own,
      else leave it to the layer below; the walk is at the bottom. */
  function Chain(sha: Bytes -> Text, body: Json -> bool, files: Files, layer: nat, parsed: Json): Option<seq<Text>>
    requires layer <= LAST_LAYER
    decreases layer
  {
    if layer < FIRST_LAYER then
      var index :- IndexOf(parsed);
      Walk(sha, body, files, parsed, parsed, index)
    else if IndexOf(parsed) != Some(layer) then Chain(sha, body, files, layer - 1, parsed)
    else
      var predecessor :- Get(parsed, PREDECESSOR);
      var link :- ReadLayerLink(predecessor);
      if link.path != HandoffPath(layer - 1) || link.path !in files || sha(files[link.path]) != link.sha256 then None
      else
        var previous :- LoadObject(files[link.path]);
        var rest :- Chain(sha, body, files, layer - 1, previous);
        Some([link.path] + rest)
  }

  /** One layer and everything below it. */
  method ValidatePredecessorChain(sha: Bytes -> Text, body: Json -> bool, files: Files, layer: nat,
                                  parsed: Json, receiptPath: Text) returns (ok: bool)
    requires ChecksIndex(body) && layer <= LAST_LAYER
    requires DocumentAt(files, receiptPath) == Some(parsed)
    ensures ok <==> Chain(sha, body, files, layer, parsed).Some?
    decreases layer
  {
    hide LoadObject, Get, Walk, HandoffPath;
    if layer < FIRST_LAYER {
      ok := WalkPredecessors(sha, body, files, parsed, receiptPath);
      return;
    }
    if IndexOf(parsed) != Some(layer) {
      ok := ValidatePredecessorChain(sha, body, files, layer - 1, parsed, receiptPath);
      return;
    }
    var predecessor := Get(parsed, PREDECESSOR);
    if predecessor.None? {
      return false;
    }
    var link := ReadLayerLink(predecessor.value);
    if link.None? || link.value.path != HandoffPath(layer - 1) {
      return false;
    }
    var path := link.value.path;
    if path !in files || sha(files[path]) != link.value.sha256 {
      return false;
    }
    var previous := LoadObject(files[path]);
    if previous.None? {
      return false;
    }
    ok := ValidatePredecessorChain(sha, body, files, layer - 1, previous.value, path);
  }

  // ---- what acceptance means ----

  /** A document names the file at a path, with the hash of its bytes, as its predecessor. */
  predicate Names(sha: Bytes -> Text, files: Files, v: Json, path: Text) {
    && path in files
    && Get(v, PREDECESSOR).Some?
    && Get(Get(v, PREDECESSOR).value, PATH) == Some(Str(path))
    && Get(Get(v, PREDECESSOR).value, SHA_KEY) == Some(Str(sha(files[path])))
  }

  /** Each receipt names the next one down by path and by hash of its bytes, and the last one, of index 1, is
      where history starts. */
  predicate HashLinked(sha: Bytes -> Text, files: Files, v: Json, paths: seq<Text>)
    decreases |paths|
  {
    if paths == [] then Get(v, PREDECESSOR) == Some(Str(GENESIS)) && IndexOf(v) == Some(1)
    else
      && Names(sha, files, v, paths[0])
      && DocumentAt(files, paths[0]).Some?
      && HashLinked(sha, files, DocumentAt(files, paths[0]).value, paths[1..])
  }

  lemma LinkNames(sha: Bytes -> Text, files: Files, v: Json, link: Link)
    requires Get(v, PREDECESSOR).Some? && ReadLink(Get(v, PREDECESSOR).value) == Some(link)
    ensures ReadLayerLink(Get(v, PREDECESSOR).value) == Some(link) && IsReceiptPath(link.path)
  {
    var p := Get(v, PREDECESSOR).value;
    assert |p.members| == |KeysOf(p.members)|;
    assert KeysOf(p.members)[0] == PATH && KeysOf(p.members)[1] == SHA_KEY;
    assert PATH[0] != SHA_KEY[0];
    assert p.members[..1] == [p.members[0]];
    assert Find(p.members[..1], PATH) == Some(p.members[0].value);
  }

  /** The walk accepts only chains of exactly `index - 1` linked receipts, with indexes falling by one to 1. */
  lemma {:induction false} WalkLinks(sha: Bytes -> Text, body: Json -> bool, files: Files,
                                     first: Json, current: Json, index: int)
    requires Walk(sha, body, files, first, current, index).Some? && IndexOf(current) == Some(index)
    ensures var paths := Walk(sha, body, files, first, current, index).value;
            && HashLinked(sha, files, current, paths)
            && |paths| == index - 1
            && forall i :: 0 <= i < |paths| ==>
                 && IsReceiptPath(paths[i]) && DocumentAt(files, paths[i]).Some?
                 && IndexOf(DocumentAt(files, paths[i]).value) == Some(index - 1 - i)
                 && body(DocumentAt(files, paths[i]).value) && SameTask(DocumentAt(files, paths[i]).value, first)
    decreases if index >= 1 then index else 0
  {
    hide LoadObject, Get, ReadLink, ReadLayerLink, SameTask, IndexOf, IsReceiptPath;
    if index != 1 {
      var link := ReadLink(Get(current, PREDECESSOR).value).value;
      LinkNamesPath(sha, files, current, link);
      var previous := LoadObject(files[link.path]).value;
      WalkLinks(sha, body, files, first, previous, index - 1);
      var paths := Walk(sha, body, files, first, current, index).value;
      var rest := Walk(sha, body, files, first, previous, index - 1).value;
      assert paths == [link.path] + rest && paths[1..] == rest;
      forall i | 0 <= i < |paths|
        ensures && IsReceiptPath(paths[i]) && DocumentAt(files, paths[i]).Some?
                && IndexOf(DocumentAt(files, paths[i]).value) == Some(index - 1 - i)
                && body(DocumentAt(files, paths[i]).value) && SameTask(DocumentAt(files, paths[i]).value, first)
      {
        if i > 0 {
          assert paths[i] == rest[i - 1];
        }
      }
    }
  }

  lemma LinkNamesPath(sha: Bytes -> Text, files: Files, v: Json, link: Link)
    requires Get(v, PREDECESSOR).Some? && ReadLink(Get(v, PREDECESSOR).value) == Some(link)
    requires link.path in files && sha(files[link.path]) == link.sha256
    ensures Names(sha, files, v, link.path) && IsReceiptPath(link.path)
  {
    LinkNames(sha, files, v, link);
  }

  /** Through any number of layers: an accepted receipt starts a hash-linked chain down to GENESIS. */
  lemma {:induction false} AcceptedIsHashLinked(sha: Bytes -> Text, body: Json -> bool, files: Files,
                                                layer: nat, parsed: Json)
    requires layer <= LAST_LAYER && Chain(sha, body, files, layer, parsed).Some?
    ensures HashLinked(sha, files, parsed, Chain(sha, body, files, layer, parsed).value)
    decreases layer
  {
    hide LoadObject, Get, Walk, HandoffPath, IndexOf;
    if layer < FIRST_LAYER {
      WalkLinks(sha, body, files, parsed, parsed, IndexOf(parsed).value);
    } else if IndexOf(parsed) != Some(layer) {
      AcceptedIsHashLinked(sha, body, files, layer - 1, parsed);
    } else {
      var link := ReadLayerLink(Get(parsed, PREDECESSOR).value).value;
      var previous := LoadObject(files[link.path]).value;
      AcceptedIsHashLinked(sha, body, files, layer - 1, previous);
      var paths := Chain(sha, body, files, layer, parsed).value;
      assert paths[1..] == Chain(sha, body, files, layer - 1, previous).value;
    }
  }

  // ---- one hash, one history ----

  /** Two repositories in which the same document starts a hash-linked chain hold the same chain, byte for byte. */
  lemma {:induction false} SameHistory(sha: Bytes -> Text, f: Files, g: Files, v: Json, p: seq<Text>, q: seq<Text>)
    requires CollisionFree(sha, Strings(f.Values + g.Values)) && HashLinked(sha, f, v, p) && HashLinked(sha, g, v, q)
    ensures p == q && forall path :: path in p ==> path in f && path in g && f[path] == g[path]
    decreases |p|
  {
    hide LoadObject, Get, IndexOf;
    if p != [] && q != [] {
      assert p[0] == q[0] && f[p[0]] == g[q[0]];
      SameHistory(sha, f, g, DocumentAt(f, p[0]).value, p[1..], q[1..]);
      assert p == [p[0]] + p[1..] && q == [q[0]] + q[1..];
    } else if p != q {
      GenesisHasNoPath();
    }
  }

  lemma GenesisHasNoPath()
    ensures Get(Str(GENESIS), PATH) == None
  {
  }

  /** The loaded state: the active receipt's bytes hash to the pinned value and its chain is accepted. */
  ghost predicate Verifies(sha: Bytes -> Text, body: Json -> bool, files: Files, path: Text, h: Text) {
    && path in files && sha(files[path]) == h
    && LoadObject(files[path]).Some?
    && Chain(sha, body, files, LAST_LAYER, LoadObject(files[path]).value).Some?
  }

  function History(sha: Bytes -> Text, body: Json -> bool, files: Files, path: Text): seq<Text>
    requires path in files && LoadObject(files[path]).Some?
    requires Chain(sha, body, files, LAST_LAYER, LoadObject(files[path]).value).Some?
  {
    Chain(sha, body, files, LAST_LAYER, LoadObject(files[path]).value).value
  }

  /** Two roots that verify with the same active receipt hash have byte-identical receipt histories. */
  lemma OneHashOneHistory(sha: Bytes -> Text, bodyF: Json -> bool, bodyG: Json -> bool, f: Files, g: Files,
                          pathF: Text, pathG: Text, h: Text)
    requires CollisionFree(sha, Strings(f.Values + g.Values))
    requires Verifies(sha, bodyF, f, pathF, h) && Verifies(sha, bodyG, g, pathG, h)
    ensures f[pathF] == g[pathG]
    ensures var history := History(sha, bodyF, f, pathF);
            && history == History(sha, bodyG, g, pathG)
            && forall path :: path in history ==> path in f && path in g && f[path] == g[path]
  {
    hide LoadObject, HashLinked;
    var v := LoadObject(f[pathF]).value;
    AcceptedIsHashLinked(sha, bodyF, f, LAST_LAYER, v);
    AcceptedIsHashLinked(sha, bodyG, g, LAST_LAYER, v);
    SameHistory(sha, f, g, v, History(sha, bodyF, f, pathF), History(sha, bodyG, g, pathG));
  }

  // ---- numbering across the layers ----

  /** Layers above the document's index let it through. */
  lemma {:induction false} FallsThrough(sha: Bytes -> Text, body: Json -> bool, files: Files,
                                        layer: nat, lower: nat, v: Json)
    requires lower <= layer <= LAST_LAYER && IndexOf(v).Some? && IndexOf(v).value <= lower && lower >= FIRST_LAYER - 1
    ensures Chain(sha, body, files, layer, v) == Chain(sha, body, files, lower, v)
    decreases layer
  {
    hide LoadObject, Get, Walk, HandoffPath, IndexOf;
    if layer > lower {
      FallsThrough(sha, body, files, layer - 1, lower, v);
    }
  }

  /** And so do layers below it, down to the walk. */
  lemma {:induction false} PassedOn(sha: Bytes -> Text, body: Json -> bool, files: Files, layer: nat, v: Json)
    requires FIRST_LAYER - 1 <= layer <= LAST_LAYER && IndexOf(v).Some? && IndexOf(v).value > layer
    ensures Chain(sha, body, files, layer, v) == Chain(sha, body, files, FIRST_LAYER - 1, v)
    decreases layer
  {
    hide LoadObject, Get, Walk, HandoffPath, IndexOf;
    if layer >= FIRST_LAYER {
      PassedOn(sha, body, files, layer - 1, v);
    }
  }

  lemma {:induction false} AcceptedHasIndex(sha: Bytes -> Text, body: Json -> bool, files: Files, layer: nat, v: Json)
    requires layer <= LAST_LAYER && Chain(sha, body, files, layer, v).Some?
    ensures IndexOf(v).Some?
    decreases layer
  {
    hide LoadObject, Get, Walk, HandoffPath, IndexOf;
    if layer >= FIRST_LAYER && IndexOf(v) != Some(layer) {
      AcceptedHasIndex(sha, body, files, layer - 1, v);
    }
  }

  /** The indexes of the history fall by one from receipt to receipt. */
  predicate InStep(files: Files, v: Json, paths: seq<Text>)
    requires IndexOf(v).Some?
  {
    forall i :: 0 <= i < |paths| ==>
      DocumentAt(files, paths[i]).Some? && IndexOf(DocumentAt(files, paths[i]).value) == Some(IndexOf(v).value - 1 - i)
  }

  predicate Numbered(files: Files, k: nat)
    requires 33 <= k <= 40
  {
    DocumentAt(files, HandoffPath(k)).Some? && IndexOf(DocumentAt(files, HandoffPath(k)).value) == Some(k)
  }

  /** Each fixed handoff file below an index carries the number in its name. */
  predicate HandoffsNumbered(files: Files, index: int)
    requires index <= LAST_LAYER
  {
    forall k: nat :: FIRST_LAYER - 1 <= k < index ==> Numbered(files, k)
  }

  lemma NumberedCons(files: Files, index: nat)
    requires FIRST_LAYER <= index <= LAST_LAYER
    ensures HandoffsNumbered(files, index) <==> HandoffsNumbered(files, index - 1) && Numbered(files, index - 1)
    ensures Numbered(files, index - 1) <==>
            DocumentAt(files, HandoffPath(index - 1)).Some?
            && IndexOf(DocumentAt(files, HandoffPath(index - 1)).value) == Some(index - 1)
  {
    hide DocumentAt, HandoffPath, IndexOf;
  }

  lemma InStepCons(files: Files, v: Json, paths: seq<Text>)
    requires IndexOf(v).Some? && paths != [] && DocumentAt(files, paths[0]).Some?
    ensures InStep(files, v, paths) <==>
            var w := DocumentAt(files, paths[0]).value;
            IndexOf(w) == Some(IndexOf(v).value - 1) && InStep(files, w, paths[1..])
  {
    hide IndexOf, DocumentAt;
    var w := DocumentAt(files, paths[0]).value;
    if IndexOf(w) == Some(IndexOf(v).value - 1) && InStep(files, w, paths[1..]) {
      forall i | 0 <= i < |paths|
        ensures DocumentAt(files, paths[i]).Some?
                && IndexOf(DocumentAt(files, paths[i]).value) == Some(IndexOf(v).value - 1 - i)
      {
        if i > 0 {
          assert paths[i] == paths[1..][i - 1];
        }
      }
    }
    if InStep(files, v, paths) {
      forall i | 0 <= i < |paths| - 1
        ensures DocumentAt(files, paths[1..][i]).Some?
                && IndexOf(DocumentAt(files, paths[1..][i]).value) == Some(IndexOf(w).value - 1 - i)
      {
        assert paths[1..][i] == paths[i + 1];
      }
    }
  }

  /** What a layer that owns the document's index does. */
  lemma PeelStep(sha: Bytes -> Text, body: Json -> bool, files: Files, layer: nat, v: Json)
    requires FIRST_LAYER <= layer <= LAST_LAYER && IndexOf(v) == Some(layer)
    requires Chain(sha, body, files, layer, v).Some?
    ensures DocumentAt(files, HandoffPath(layer - 1)).Some?
    ensures var previous := DocumentAt(files, HandoffPath(layer - 1)).value;
            && Chain(sha, body, files, layer - 1, previous).Some?
            && Chain(sha, body, files, layer, v).value
               == [HandoffPath(layer - 1)] + Chain(sha, body, files, layer - 1, previous).value
  {
    hide LoadObject, Get, Walk, HandoffPath, IndexOf, ReadLayerLink;
  }

  lemma WalkedInStep(sha: Bytes -> Text, body: Json -> bool, files: Files, v: Json)
    requires IndexOf(v).Some? && (IndexOf(v).value < FIRST_LAYER || IndexOf(v).value > LAST_LAYER)
    requires Chain(sha, body, files, LAST_LAYER, v).Some?
    ensures InStep(files, v, Chain(sha, body, files, LAST_LAYER, v).value)
    ensures IndexOf(v).value > LAST_LAYER || HandoffsNumbered(files, IndexOf(v).value)
  {
    hide LoadObject, Get, Walk, HandoffPath, IndexOf;
    if IndexOf(v).value > LAST_LAYER {
      PassedOn(sha, body, files, LAST_LAYER, v);
    } else {
      FallsThrough(sha, body, files, LAST_LAYER, FIRST_LAYER - 1, v);
    }
    WalkLinks(sha, body, files, v, v, IndexOf(v).value);
  }

  /** The link checks alone do not number the receipts behind the layers: an accepted history falls by one
      exactly when it starts above them, or the fixed handoff files carry their own numbers. */
  lemma {:induction false} NumberedIff(sha: Bytes -> Text, body: Json -> bool, files: Files, v: Json)
    requires Chain(sha, body, files, LAST_LAYER, v).Some?
    ensures IndexOf(v).Some?
    ensures var index := IndexOf(v).value;
            InStep(files, v, Chain(sha, body, files, LAST_LAYER, v).value)
            <==> index > LAST_LAYER || HandoffsNumbered(files, index)
    decreases if IndexOf(v).Some? && IndexOf(v).value >= 1 then IndexOf(v).value else 0
  {
    hide DocumentAt, HandoffPath, IndexOf, Chain, InStep, HandoffsNumbered, Numbered;
    AcceptedHasIndex(sha, body, files, LAST_LAYER, v);
    var index := IndexOf(v).value;
    if index < FIRST_LAYER || index > LAST_LAYER {
      WalkedInStep(sha, body, files, v);
    } else {
      NumberedCons(files, index);
      FallsThrough(sha, body, files, LAST_LAYER, index, v);
      PeelStep(sha, body, files, index, v);
      var previous := DocumentAt(files, HandoffPath(index - 1)).value;
      var paths := Chain(sha, body, files, index, v).value;
      assert paths[1..] == Chain(sha, body, files, index - 1, previous).value;
      InStepCons(files, v, paths);
      if IndexOf(previous) == Some(index - 1) {
        FallsThrough(sha, body, files, LAST_LAYER, index - 1, previous);
        NumberedIff(sha, body, files, previous);
      }
    }
  }

  const GENESIS_DOCUMENT := Obj([Member(PREDECESSOR, Str(GENESIS)), Member(RECEIPT_INDEX, Int(1))])

  lemma GenesisLoads()
    ensures LoadObject(Dumps(GENESIS_DOCUMENT)) == Some(GENESIS_DOCUMENT)
  {
    ManifestFacts.LessAt(PREDECESSOR, RECEIPT_INDEX, 0);
    ManifestFacts.SortedFromNeighbours(GENESIS_DOCUMENT.members);
    ManifestFacts.LitSpellable("predecessor");
    ManifestFacts.LitSpellable("receipt_index");
    ManifestFacts.LitSpellable("GENESIS");
    var ms := GENESIS_DOCUMENT.members;
    assert forall x :: x in ms ==> x == ms[0] || x == ms[1];
    assert Canonical(GENESIS_DOCUMENT) && Spellable(GENESIS_DOCUMENT);
    LoadCanonicalIff(Dumps(GENESIS_DOCUMENT), GENESIS_DOCUMENT);
  }

  lemma GenesisFields()
    ensures Get(GENESIS_DOCUMENT, PREDECESSOR) == Some(Str(GENESIS)) && IndexOf(GENESIS_DOCUMENT) == Some(1)
  {
    assert PREDECESSOR[0] != RECEIPT_INDEX[0];
    FindInPair(PREDECESSOR, Str(GENESIS), RECEIPT_INDEX, Int(1));
  }

  lemma FindInPair(k: Text, v: Json, l: Text, w: Json)
    requires k != l
    ensures Find([Member(k, v), Member(l, w)], k) == Some(v) && Find([Member(k, v), Member(l, w)], l) == Some(w)
  {
    var ms := [Member(k, v), Member(l, w)];
    assert ms[..1] == [Member(k, v)];
    assert Find(ms[..1], k) == Some(v);
  }

  const SKIP_FILES: Files := map[HandoffPath(40) := Dumps(GENESIS_DOCUMENT)]

  function SkipLink(sha: Bytes -> Text): Json {
    Obj([Member(PATH, Str(HandoffPath(40))), Member(SHA_KEY, Str(sha(Dumps(GENESIS_DOCUMENT))))])
  }

  function SkipReceipt(sha: Bytes -> Text): Json {
    Obj([Member(PREDECESSOR, SkipLink(sha)), Member(RECEIPT_INDEX, Int(41))])
  }

  lemma SkipFields(sha: Bytes -> Text)
    ensures IndexOf(SkipReceipt(sha)) == Some(41) && Get(SkipReceipt(sha), PREDECESSOR) == Some(SkipLink(sha))
    ensures ReadLayerLink(SkipLink(sha)) == Some(Link(HandoffPath(40), sha(Dumps(GENESIS_DOCUMENT))))
  {
    assert PREDECESSOR[0] != RECEIPT_INDEX[0] && PATH[0] != SHA_KEY[0];
    FindInPair(PREDECESSOR, SkipLink(sha), RECEIPT_INDEX, Int(41));
    FindInPair(PATH, Str(HandoffPath(40)), SHA_KEY, Str(sha(Dumps(GENESIS_DOCUMENT))));
  }

  /** The chain function taken by itself, on a concrete root: receipt 41 names a handoff_v040.json that calls itself
      receipt 1, and the chain is accepted with one receipt behind number 41, whatever the body validator is. The
      loader never gets that far with this root: the phase validator's pins rule it out (`PinsExcludeSkip`). */
  lemma NumbersMaySkip(sha: Bytes -> Text, body: Json -> bool)
    ensures IndexOf(SkipReceipt(sha)) == Some(41)
    ensures Chain(sha, body, SKIP_FILES, LAST_LAYER, SkipReceipt(sha)) == Some([HandoffPath(40)])
    ensures DocumentAt(SKIP_FILES, HandoffPath(40)) == Some(GENESIS_DOCUMENT) && IndexOf(GENESIS_DOCUMENT) == Some(1)
  {
    GenesisLoads();
    GenesisFields();
    SkipFields(sha);
    hide Dumps, HandoffPath, LoadObject, IndexOf, Get, ReadLayerLink, SkipReceipt, SkipLink;
    FallsThrough(sha, body, SKIP_FILES, 40, 33, GENESIS_DOCUMENT);
    assert Walk(sha, body, SKIP_FILES, GENESIS_DOCUMENT, GENESIS_DOCUMENT, 1) == Some([]);
    assert Chain(sha, body, SKIP_FILES, 40, GENESIS_DOCUMENT) == Some([]);
    assert [HandoffPath(40)] + [] == [HandoffPath(40)];
  }

  // ---- the pins of the phase validators ----

  /** Protected paths, with the one hash each of them must have. */
  type Pins = map<Text, Text>

  predicate PinsHold(sha: Bytes -> Text, files: Files, pins: Pins) {
    forall path :: path in pins ==> path in files && sha(files[path]) == pins[path]
  }

  /** The pins cover every fixed handoff file behind the layers. */
  predicate PinsHandoffs(pins: Pins) {
    forall k: nat :: FIRST_LAYER - 1 <= k < LAST_LAYER ==> HandoffPath(k) in pins
  }

  lemma PinnedNumbering(sha: Bytes -> Text, committed: Files, files: Files, pins: Pins, index: int)
    requires CollisionFree(sha, Strings(committed.Values + files.Values))
    requires PinsHold(sha, committed, pins) && PinsHold(sha, files, pins) && PinsHandoffs(pins)
    requires HandoffsNumbered(committed, LAST_LAYER) && index <= LAST_LAYER
    ensures HandoffsNumbered(files, index)
  {
    hide HandoffPath, LoadObject, IndexOf;
    forall k: nat | FIRST_LAYER - 1 <= k < index
      ensures Numbered(files, k)
    {
      assert Numbered(committed, k);
      assert files[HandoffPath(k)] == committed[HandoffPath(k)];
    }
  }

  /** With the pins that the phase validators add, taken from one root whose handoff files are numbered, every
      accepted history of every root falls by one from receipt to receipt. */
  lemma PinnedIsInStep(sha: Bytes -> Text, body: Json -> bool, committed: Files, files: Files, pins: Pins, v: Json)
    requires CollisionFree(sha, Strings(committed.Values + files.Values))
    requires PinsHold(sha, committed, pins) && PinsHold(sha, files, pins) && PinsHandoffs(pins)
    requires HandoffsNumbered(committed, LAST_LAYER)
    requires Chain(sha, body, files, LAST_LAYER, v).Some?
    ensures IndexOf(v).Some? && InStep(files, v, Chain(sha, body, files, LAST_LAYER, v).value)
  {
    hide Chain, InStep, HandoffsNumbered, IndexOf, PinsHold, PinsHandoffs;
    NumberedIff(sha, body, files, v);
    if IndexOf(v).value <= LAST_LAYER {
      PinnedNumbering(sha, committed, files, pins, IndexOf(v).value);
    }
  }

  /** The root of `NumbersMaySkip` satisfies no such pins. */
  lemma PinsExcludeSkip(sha: Bytes -> Text, committed: Files, pins: Pins)
    requires CollisionFree(sha, Strings(committed.Values + SKIP_FILES.Values))
    requires PinsHold(sha, committed, pins) && PinsHandoffs(pins)
    requires HandoffsNumbered(committed, LAST_LAYER)
    ensures !PinsHold(sha, SKIP_FILES, pins)
  {
    var body := (v: Json) => false;
    NumbersMaySkip(sha, body);
    hide Chain, HandoffsNumbered, IndexOf, HandoffPath, DocumentAt, PinsHandoffs, SkipReceipt;
    var paths := [HandoffPath(40)];
    assert paths[0] == HandoffPath(40) && !InStep(SKIP_FILES, SkipReceipt(sha), paths);
    if PinsHold(sha, SKIP_FILES, pins) {
      PinnedIsInStep(sha, body, committed, SKIP_FILES, pins, SkipReceipt(sha));
    }
  }

  // ---- loading ----

  /** `_load_canonical_document` accepts exactly the canonical bytes of a dict, and returns that dict. */
  lemma LoadObjectIff(data: Bytes, v: Json)
    ensures LoadObject(data) == Some(v) <==> v.Obj? && Canonical(v) && Spellable(v) && data == Dumps(v)
  {
    LoadCanonicalIff(data, v);
  }
}
