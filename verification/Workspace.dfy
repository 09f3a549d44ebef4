/** Filling a fresh directory with files that must not exist yet: when it succeeds and what is then in it. */
module Workspace {
  import opened Wrappers
  import opened Texts
  import opened Trees

  datatype Write = Write(path: Path, content: Bytes)

  /** Each file is created exclusively, after the directories above it. */
  function CreateAll(writes: seq<Write>): Option<Node> {
    if writes == [] then Some(EmptyDir)
    else
      var w := writes[|writes| - 1];
      var before :- CreateAll(writes[..|writes| - 1]);
      if NodeAt(before, w.path).Some? then None else Put(before, w.path, w.content)
  }

  /** Only plain files and directories. */
  ghost predicate Plain(root: Node) {
    forall p: Path :: NodeAt(root, p).Some? ==> NodeAt(root, p).value.File? || NodeAt(root, p).value.Dir?
  }

  /** The writes are the files of the tree. */
  ghost predicate HoldsFiles(writes: seq<Write>, tree: Node) {
    && (forall w :: w in writes ==> NodeAt(tree, w.path) == Some(File(w.content)))
    && (forall p: Path :: IsFileAt(tree, p) ==> exists w :: w in writes && p == w.path)
  }

  /** Every node is one of the files or above one. */
  ghost predicate HoldsNodes(writes: seq<Write>, tree: Node) {
    && Plain(tree)
    && (forall p: Path :: NodeAt(tree, p).Some? && p != [] ==> exists w :: w in writes && p <= w.path)
  }

  ghost predicate Holds(writes: seq<Write>, tree: Node) {
    tree.Dir? && HoldsFiles(writes, tree) && HoldsNodes(writes, tree)
  }

  /** No file's path runs through another file. */
  predicate PrefixFree(writes: seq<Write>) {
    forall i, j :: 0 <= i < |writes| && 0 <= j < |writes| && i != j ==> !(writes[i].path <= writes[j].path)
  }

  lemma {:induction false} NodeAtPrefix(root: Node, p: Path, k: nat)
    requires NodeAt(root, p).Some? && k < |p|
    ensures IsDirAt(root, p[..k])
    decreases |p|
  {
    if k > 0 {
      assert p[..k][1..] == p[1..][..k - 1];
      NodeAtPrefix(root.children[p[0]], p[1..], k - 1);
    }
  }

  /** Writing a new file fails exactly when a file is in the way of one of its directories. */
  lemma {:induction false} PutIff(root: Node, p: Path, content: Bytes)
    requires Plain(root) && NodeAt(root, p).None?
    ensures Put(root, p, content).Some? <==> forall k :: 0 <= k < |p| ==> !IsFileAt(root, p[..k])
    decreases |p|
  {
    assert NodeAt(root, p[..0]) == Some(root);
    assert NodeAt(root, []).Some? ==> root.File? || root.Dir?;
    if root.Dir? {
      var n := p[0];
      var child := if n in root.children then root.children[n] else EmptyDir;
      if n in root.children || |p| > 1 {
        PlainChild(root, n);
        assert n !in root.children ==> NodeAt(child, p[1..]).None?;
        PutIff(child, p[1..], content);
        forall k | 0 < k < |p|
          ensures IsFileAt(root, p[..k]) <==> IsFileAt(child, p[1..][..k - 1])
        {
          assert p[..k][1..] == p[1..][..k - 1];
        }
        assert forall k :: 0 <= k < |p| - 1 ==> p[1..][..k] == p[..k + 1][1..];
        if !(forall k :: 0 <= k < |p| - 1 ==> !IsFileAt(child, p[1..][..k])) {
          var k :| 0 <= k < |p| - 1 && IsFileAt(child, p[1..][..k]);
          assert IsFileAt(root, p[..k + 1]);
        }
      } else {
        assert forall k :: 0 <= k < |p| ==> p[..k] == [];
      }
    }
  }

  lemma PlainChild(root: Node, n: Segment)
    requires Plain(root) && root.Dir?
    ensures n in root.children ==> Plain(root.children[n])
    ensures Plain(EmptyDir)
  {
    if n in root.children {
      forall p: Path | NodeAt(root.children[n], p).Some?
        ensures NodeAt(root.children[n], p).value.File? || NodeAt(root.children[n], p).value.Dir?
      {
        assert ([n] + p)[1..] == p;
        assert NodeAt(root, [n] + p) == NodeAt(root.children[n], p);
      }
    }
  }

  /** A new file brings only itself and the directories above it. */
  lemma {:induction false} PutNode(root: Node, p: Path, content: Bytes, q: Path)
    requires Put(root, p, content).Some? && NodeAt(Put(root, p, content).value, q).Some?
    ensures q <= p || (NodeAt(root, q).Some? && !(NodeAt(root, q).value.Dir?)) || IsDirAt(root, q)
    ensures NodeAt(Put(root, p, content).value, q).value.File? || NodeAt(Put(root, p, content).value, q).value.Dir?
            || NodeAt(Put(root, p, content).value, q) == NodeAt(root, q)
    decreases |p|
  {
    if p != [] && q != [] {
      var n := p[0];
      if q[0] == n && !(n !in root.children && |p| == 1) {
        PutNode(if n in root.children then root.children[n] else EmptyDir, p[1..], content, q[1..]);
        assert q[1..] <= p[1..] ==> q <= p;
      }
    }
  }

  lemma FilesStep(writes: seq<Write>, w: Write, before: Node)
    requires HoldsFiles(writes, before) && NodeAt(before, w.path).None? && Put(before, w.path, w.content).Some?
    ensures HoldsFiles(writes + [w], Put(before, w.path, w.content).value)
  {
    hide NodeAt, Put;
    var after := Put(before, w.path, w.content).value;
    forall p: Path
      ensures IsFileAt(after, p) <==> p == w.path || IsFileAt(before, p)
      ensures p == w.path ==> NodeAt(after, p) == Some(File(w.content))
      ensures p != w.path && IsFileAt(before, p) ==> NodeAt(after, p) == NodeAt(before, p)
    {
      PutFile(before, w.path, w.content, p);
    }
    assert forall x :: x in writes + [w] <==> x in writes || x == w;
  }

  lemma NodesStep(writes: seq<Write>, w: Write, before: Node)
    requires HoldsNodes(writes, before) && Put(before, w.path, w.content).Some?
    ensures HoldsNodes(writes + [w], Put(before, w.path, w.content).value)
  {
    hide NodeAt, Put;
    var after := Put(before, w.path, w.content).value;
    assert forall x :: x in writes + [w] <==> x in writes || x == w;
    forall p: Path | NodeAt(after, p).Some?
      ensures NodeAt(after, p).value.File? || NodeAt(after, p).value.Dir?
      ensures p != [] ==> exists x :: x in writes + [w] && p <= x.path
    {
      PutNode(before, w.path, w.content, p);
      if !(p <= w.path) && p != [] {
        var x :| x in writes && p <= x.path;
        assert x in writes + [w];
      }
    }
  }

  lemma PutDir(root: Node, p: Path, content: Bytes)
    requires Put(root, p, content).Some? && root.Dir?
    ensures Put(root, p, content).value.Dir?
  {
  }

  lemma HoldsStep(writes: seq<Write>, w: Write, before: Node)
    requires Holds(writes, before) && NodeAt(before, w.path).None? && Put(before, w.path, w.content).Some?
    ensures Holds(writes + [w], Put(before, w.path, w.content).value)
  {
    hide HoldsFiles, HoldsNodes, NodeAt, Put;
    FilesStep(writes, w, before);
    NodesStep(writes, w, before);
    PutDir(before, w.path, w.content);
  }

  lemma CreatedLast(writes: seq<Write>)
    requires writes != [] && CreateAll(writes).Some?
    ensures var w := writes[|writes| - 1];
            var before := CreateAll(writes[..|writes| - 1]);
            && before.Some? && NodeAt(before.value, w.path).None?
            && CreateAll(writes) == Put(before.value, w.path, w.content)
  {
    hide NodeAt, Put;
  }

  lemma {:induction false} CreatedHolds(writes: seq<Write>)
    requires CreateAll(writes).Some?
    ensures Holds(writes, CreateAll(writes).value)
  {
    hide CreateAll, Holds, NodeAt, Put;
    if writes != [] {
      CreatedLast(writes);
      var n := |writes| - 1;
      CreatedHolds(writes[..n]);
      HoldsStep(writes[..n], writes[n], CreateAll(writes[..n]).value);
      assert writes == writes[..n] + [writes[n]];
    } else {
      EmptyHolds();
    }
  }

  lemma EmptyHolds()
    ensures CreateAll([]) == Some(EmptyDir) && Holds([], EmptyDir)
  {
  }

  lemma FileBlocks(tree: Node, p: Path, q: Path)
    requires IsFileAt(tree, p) && NodeAt(tree, q).Some? && p != q
    ensures !(p <= q)
  {
    if p <= q {
      assert q[..|p|] == p;
      NodeAtPrefix(tree, q, |p|);
    }
  }

  predicate Distinct(writes: seq<Write>) {
    forall i, j :: 0 <= i < j < |writes| ==> writes[i].path != writes[j].path
  }

  lemma HeldPrefixFree(writes: seq<Write>, tree: Node)
    requires Holds(writes, tree) && Distinct(writes)
    ensures PrefixFree(writes)
  {
    hide NodeAt;
    forall i, j | 0 <= i < |writes| && 0 <= j < |writes| && i != j
      ensures !(writes[i].path <= writes[j].path)
    {
      assert writes[i] in writes && writes[j] in writes;
      FileBlocks(tree, writes[i].path, writes[j].path);
    }
  }

  lemma LastFits(writes: seq<Write>, w: Write, before: Node)
    requires Holds(writes, before) && w.path != []
    requires forall x :: x in writes ==> !(x.path <= w.path) && !(w.path <= x.path)
    ensures NodeAt(before, w.path).None? && Put(before, w.path, w.content).Some?
  {
    hide NodeAt, Put, Plain;
    forall k | 0 <= k < |w.path|
      ensures !IsFileAt(before, w.path[..k])
    {
      assert w.path[..k] <= w.path;
    }
    PutIff(before, w.path, w.content);
  }

  lemma {:induction false} PrefixFreeCreates(writes: seq<Write>)
    requires PrefixFree(writes) && forall w :: w in writes ==> w.path != []
    ensures CreateAll(writes).Some?
  {
    if writes != [] {
      hide NodeAt, Put, Holds;
      var n := |writes| - 1;
      PrefixFreeCreates(writes[..n]);
      CreatedHolds(writes[..n]);
      LastFits(writes[..n], writes[n], CreateAll(writes[..n]).value);
    }
  }

  lemma HeldAt(writes: seq<Write>, tree: Node, i: nat)
    requires Holds(writes, tree) && i < |writes|
    ensures NodeAt(tree, writes[i].path) == Some(File(writes[i].content))
  {
    assert writes[i] in writes;
  }

  lemma {:induction false} CreatedDistinct(writes: seq<Write>)
    requires CreateAll(writes).Some?
    ensures Distinct(writes)
  {
    if writes != [] {
      CreatedLast(writes);
      hide CreateAll, Distinct, Holds, NodeAt, Put;
      var n := |writes| - 1;
      CreatedDistinct(writes[..n]);
      CreatedHolds(writes[..n]);
      LastDistinct(writes, CreateAll(writes[..n]).value);
    }
  }

  lemma LastDistinct(writes: seq<Write>, before: Node)
    requires writes != [] && Distinct(writes[..|writes| - 1]) && Holds(writes[..|writes| - 1], before)
    requires NodeAt(before, writes[|writes| - 1].path).None?
    ensures Distinct(writes)
  {
    hide NodeAt, Holds;
    var n := |writes| - 1;
    forall i | 0 <= i < n
      ensures writes[i].path != writes[n].path
    {
      HeldAt(writes[..n], before, i);
    }
    assert forall i, j :: 0 <= i < j < n ==> writes[..n][i].path != writes[..n][j].path;
  }

  /** Exclusive creation of all files succeeds exactly when no path runs through another, whatever is written. */
  lemma CreateAllIff(writes: seq<Write>)
    requires forall w :: w in writes ==> w.path != []
    ensures CreateAll(writes).Some? <==> PrefixFree(writes)
  {
    hide CreateAll, PrefixFree, Holds;
    if CreateAll(writes).Some? {
      CreatedHolds(writes);
      CreatedDistinct(writes);
      HeldPrefixFree(writes, CreateAll(writes).value);
    }
    if PrefixFree(writes) {
      PrefixFreeCreates(writes);
    }
  }
}
