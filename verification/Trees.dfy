/** Directory trees: the role roots that are scanned and the workspaces that are restored. */
module Trees {
  import opened Wrappers
  import opened Texts
  import opened Manifest

  /** A directory entry's name: never empty, never containing the separator. */
  type Segment = t: Text | t != [] && SLASH !in t witness [97]
  type Path = seq<Segment>

  datatype Node = File(content: Bytes) | Dir(children: map<Segment, Node>) | Symlink | Special

  function NodeAt(root: Node, p: Path): Option<Node>
    decreases |p|
  {
    if p == [] then Some(root)
    else if root.Dir? && p[0] in root.children then NodeAt(root.children[p[0]], p[1..])
    else None
  }

  predicate IsFileAt(root: Node, p: Path) {
    NodeAt(root, p).Some? && NodeAt(root, p).value.File?
  }

  predicate IsDirAt(root: Node, p: Path) {
    NodeAt(root, p).Some? && NodeAt(root, p).value.Dir?
  }

  /** Every path that leads somewhere, the root's own included. */
  ghost function AllPaths(root: Node): set<Path> {
    {[]} + if root.Dir? then set n, q | n in root.children && q in AllPaths(root.children[n]) :: [n] + q else {}
  }

  lemma {:induction false} AllPathsIff(root: Node, p: Path)
    ensures p in AllPaths(root) <==> NodeAt(root, p).Some?
    decreases |p|
  {
    if p != [] && root.Dir? {
      if p[0] in root.children {
        AllPathsIff(root.children[p[0]], p[1..]);
      }
      if p in AllPaths(root) {
        var n, q :| n in root.children && q in AllPaths(root.children[n]) && p == [n] + q;
        assert q == p[1..];
      } else if p[0] in root.children {
        assert p == [p[0]] + p[1..];
      }
    }
  }

  lemma {:induction false} NodeAtStep(root: Node, p: Path, n: Segment)
    ensures NodeAt(root, p + [n]) ==
            if IsDirAt(root, p) && n in NodeAt(root, p).value.children
            then Some(NodeAt(root, p).value.children[n]) else None
    decreases |p|
  {
    if p == [] {
      assert p + [n] == [n] && [n][1..] == [];
    } else if root.Dir? && p[0] in root.children {
      assert (p + [n])[1..] == p[1..] + [n];
      NodeAtStep(root.children[p[0]], p[1..], n);
    }
  }

  // ---- posix form ----

  /** `"/".join(segments)` */
  function Join(p: seq<Text>): Text
    requires p != []
  {
    if |p| == 1 then p[0] else p[0] + [SLASH] + Join(p[1..])
  }

  lemma {:induction false} SplitHead(n: Text, rest: Text)
    requires SLASH !in n
    ensures Split(n) == [n]
    ensures Split(n + [SLASH] + rest) == [n] + Split(rest)
  {
    var t := n + [SLASH] + rest;
    if n == [] {
      assert t[1..] == rest;
    } else {
      SplitHead(n[1..], rest);
      assert t[1..] == n[1..] + [SLASH] + rest;
      assert n == [n[0]] + n[1..];
    }
  }

  lemma {:induction false} SplitJoin(p: seq<Text>)
    requires p != [] && forall n :: n in p ==> SLASH !in n
    ensures Split(Join(p)) == p
  {
    if |p| == 1 {
      SplitHead(p[0], []);
    } else {
      SplitHead(p[0], Join(p[1..]));
      SplitJoin(p[1..]);
    }
  }

  lemma {:induction false} JoinSplit(t: Text)
    ensures Join(Split(t)) == t && forall n :: n in Split(t) ==> SLASH !in n
  {
    if t != [] {
      var rest := Split(t[1..]);
      JoinSplit(t[1..]);
      if t[0] == SLASH {
        assert ([[]] + rest)[1..] == rest;
      } else {
        var p := [[t[0]] + rest[0]] + rest[1..];
        assert p[1..] == rest[1..];
        forall n | n in p
          ensures SLASH !in n
        {
          assert n == p[0] || n in rest[1..];
          assert rest[0] in rest;
        }
      }
    }
  }

  /** The names along a relative path that passed the policy. */
  function SplitPath(t: Text): (p: Path)
    requires IsRelativePath(t)
    ensures p != [] && p == Split(t)
  {
    assert forall i :: 0 <= i < |Split(t)| ==> Split(t)[i] in Split(t) && IsSegment(Split(t)[i]);
    assert forall i :: 0 <= i < |Split(t)| ==> Split(t)[i] != [] && SLASH !in Split(t)[i];
    Split(t)
  }

  lemma JoinInjective(p: Path, q: Path)
    requires p != [] && q != [] && Join(p) == Join(q)
    ensures p == q
  {
    SplitJoin(p);
    SplitJoin(q);
  }

  // ---- writing into a tree ----

  const EmptyDir := Dir(map[])

  /** `mkdir(parents=True, exist_ok=True)` on the parent, then the file at `p` holding `content`;
      a file where a directory is needed, or the reverse, makes it fail. */
  function Put(root: Node, p: Path, content: Bytes): Option<Node>
    decreases |p|
  {
    if p == [] then (if root.File? then Some(File(content)) else None)
    else if !root.Dir? then None
    else
      var n := p[0];
      if n !in root.children && |p| == 1 then Some(Dir(root.children[n := File(content)]))
      else
        var child :- Put(if n in root.children then root.children[n] else EmptyDir, p[1..], content);
        Some(Dir(root.children[n := child]))
  }

  lemma {:induction false} PutFile(root: Node, p: Path, content: Bytes, q: Path)
    requires Put(root, p, content).Some?
    ensures IsFileAt(Put(root, p, content).value, q) <==> q == p || IsFileAt(root, q)
    ensures q == p ==> NodeAt(Put(root, p, content).value, q) == Some(File(content))
    ensures q != p && IsFileAt(root, q) ==> NodeAt(Put(root, p, content).value, q) == NodeAt(root, q)
    decreases |p|
  {
    if p != [] && q != [] {
      var n := p[0];
      var root' := Put(root, p, content).value;
      if q[0] == n {
        assert q == p <==> q[1..] == p[1..];
        if n !in root.children && |p| == 1 {
          assert NodeAt(root', q) == NodeAt(File(content), q[1..]);
        } else {
          var child := if n in root.children then root.children[n] else EmptyDir;
          PutFile(child, p[1..], content, q[1..]);
          assert n !in root.children ==> !IsFileAt(EmptyDir, q[1..]);
        }
      }
    }
  }
}
