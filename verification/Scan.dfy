/** `scan_role_root`: the explicit-stack walk over one role root. */
module Scan {
  import opened Wrappers
  import opened Texts
  import opened Manifest
  import opened Trees

  function EntryOf(sha: Bytes -> Text, role: Text, p: Path, content: Bytes): FileEntry
    requires p != []
  {
    FileEntry(Join(p), role, sha(content), |content|)
  }

  /** What the scan demands: plain files and directories only, every file path inside the policy, some file. */
  ghost predicate Scannable(role: Text, root: Node) {
    && IsRole(role)
    && root.Dir?
    && (forall p: Path :: NodeAt(root, p).Some? ==> NodeAt(root, p).value.File? || NodeAt(root, p).value.Dir?)
    && (forall p: Path :: IsFileAt(root, p) ==> IsRelativePath(Join(p)))
    && (exists p: Path :: IsFileAt(root, p))
  }

  /** One entry for each regular file under the root, and no other. */
  ghost predicate ListsFiles(sha: Bytes -> Text, role: Text, root: Node, entries: seq<FileEntry>) {
    && root.Dir?
    && (forall p: Path :: IsFileAt(root, p) ==> EntryOf(sha, role, p, NodeAt(root, p).value.content) in entries)
    && (forall e :: e in entries ==>
          exists p: Path :: IsFileAt(root, p) && e == EntryOf(sha, role, p, NodeAt(root, p).value.content))
    && (forall i, j :: 0 <= i < j < |entries| ==> entries[i].relativePath != entries[j].relativePath)
  }

  function Parent(p: Path): Path
    requires p != []
  {
    p[..|p| - 1]
  }

  /** A child is taken care of: a directory is or was on the stack, a file is listed. */
  ghost predicate Handled(root: Node, stack: seq<Path>, visited: seq<Path>, popped: set<Path>, child: Path) {
    && NodeAt(root, child).Some?
    && match NodeAt(root, child).value
       case Dir(_) => child in stack || child in popped
       case File(_) => child in visited
       case _ => false
  }

  /** The walk in progress: of the directory `current`, the children `waiting` are still to be looked at. */
  ghost predicate Walk(root: Node, stack: seq<Path>, visited: seq<Path>, popped: set<Path>,
                       current: Path, waiting: set<Segment>)
  {
    && (forall d :: d in stack ==> IsDirAt(root, d) && d !in popped)
    && (forall d :: d in popped ==> IsDirAt(root, d))
    && (forall i, j :: 0 <= i < j < |stack| ==> stack[i] != stack[j])
    && (forall i, j :: 0 <= i < j < |visited| ==> visited[i] != visited[j])
    && ([] in stack || [] in popped)
    && (forall d :: d in stack && d != [] ==> Parent(d) in popped)
    && (forall d :: d in popped && d != [] ==> Parent(d) in popped)
    && (forall f :: f in visited ==> IsFileAt(root, f) && f != [] && Parent(f) in popped)
    && (forall d, n :: d in popped && n in NodeAt(root, d).value.children && !(d == current && n in waiting) ==>
          Handled(root, stack, visited, popped, d + [n]))
    && (waiting != {} ==> current in popped && waiting <= NodeAt(root, current).value.children.Keys)
    && (forall n :: n in waiting ==>
          current + [n] !in stack && current + [n] !in popped && current + [n] !in visited)
  }

  ghost predicate Listed(sha: Bytes -> Text, role: Text, root: Node, visited: seq<Path>, entries: seq<FileEntry>) {
    && |visited| == |entries|
    && forall i :: 0 <= i < |visited| ==>
         && IsFileAt(root, visited[i]) && visited[i] != [] && IsRelativePath(Join(visited[i]))
         && entries[i] == EntryOf(sha, role, visited[i], NodeAt(root, visited[i]).value.content)
  }

  /** Taking a directory off the stack: none of its children has been met before. */
  lemma PopStep(root: Node, stack: seq<Path>, visited: seq<Path>, popped: set<Path>, old_: Path)
    requires stack != [] && Walk(root, stack, visited, popped, old_, {})
    ensures IsDirAt(root, stack[|stack| - 1])
    ensures var d := stack[|stack| - 1];
            d !in popped && d in AllPaths(root)
            && Walk(root, stack[..|stack| - 1], visited, popped + {d}, d, NodeAt(root, d).value.children.Keys)
  {
    hide NodeAt, AllPaths;
    var d := stack[|stack| - 1];
    var rest := stack[..|stack| - 1];
    assert d in stack;
    var kids := NodeAt(root, d).value.children.Keys;
    AllPathsIff(root, d);
    assert d !in rest;
    forall n | n in kids
      ensures d + [n] !in rest && d + [n] !in popped + {d} && d + [n] !in visited
    {
      assert Parent(d + [n]) == d;
    }
    forall e, n | e in popped + {d} && n in NodeAt(root, e).value.children && !(e == d && n in kids)
      ensures Handled(root, rest, visited, popped + {d}, e + [n])
    {
      assert Handled(root, stack, visited, popped, e + [n]);
    }
    assert forall q :: q in rest ==> q in stack;
  }

  lemma DirStep(root: Node, stack: seq<Path>, visited: seq<Path>, popped: set<Path>,
                d: Path, waiting: set<Segment>, n: Segment)
    requires Walk(root, stack, visited, popped, d, waiting) && n in waiting
    requires IsDirAt(root, d + [n])
    ensures Walk(root, stack + [d + [n]], visited, popped, d, waiting - {n})
  {
    var stack' := stack + [d + [n]];
    assert Parent(d + [n]) == d;
    forall e, k | e in popped && k in NodeAt(root, e).value.children && !(e == d && k in waiting - {n})
      ensures Handled(root, stack', visited, popped, e + [k])
    {
      if e == d && k == n {
        assert stack'[|stack|] == d + [n];
      } else {
        assert Handled(root, stack, visited, popped, e + [k]);
      }
    }
    forall k | k in waiting - {n}
      ensures d + [k] !in stack'
    {
      assert (d + [k])[|d|] != (d + [n])[|d|];
    }
  }

  lemma FileStep(root: Node, stack: seq<Path>, visited: seq<Path>, popped: set<Path>,
                 d: Path, waiting: set<Segment>, n: Segment)
    requires Walk(root, stack, visited, popped, d, waiting) && n in waiting
    requires IsFileAt(root, d + [n])
    ensures Walk(root, stack, visited + [d + [n]], popped, d, waiting - {n})
  {
    var visited' := visited + [d + [n]];
    assert Parent(d + [n]) == d;
    forall e, k | e in popped && k in NodeAt(root, e).value.children && !(e == d && k in waiting - {n})
      ensures Handled(root, stack, visited', popped, e + [k])
    {
      if e == d && k == n {
        assert visited'[|visited|] == d + [n];
      } else {
        assert Handled(root, stack, visited, popped, e + [k]);
      }
    }
    forall k | k in waiting - {n}
      ensures d + [k] !in visited'
    {
      assert (d + [k])[|d|] != (d + [n])[|d|];
    }
  }

  /** When the stack is empty, every node has been handled. */
  lemma {:induction false} WalkComplete(root: Node, visited: seq<Path>, popped: set<Path>, current: Path, p: Path)
    requires root.Dir? && Walk(root, [], visited, popped, current, {}) && NodeAt(root, p).Some?
    ensures IsDirAt(root, p) ==> p in popped
    ensures p != [] ==> Handled(root, [], visited, popped, p)
    decreases |p|
  {
    if p != [] {
      var d, n := Parent(p), p[|p| - 1];
      assert p == d + [n];
      NodeAtStep(root, d, n);
      WalkComplete(root, visited, popped, current, d);
    }
  }

  lemma CompleteListing(sha: Bytes -> Text, role: Text, root: Node, visited: seq<Path>, popped: set<Path>,
                        current: Path, entries: seq<FileEntry>)
    requires IsRole(role) && root.Dir?
    requires Walk(root, [], visited, popped, current, {}) && Listed(sha, role, root, visited, entries)
    ensures ListsFiles(sha, role, root, entries)
    ensures Scannable(role, root) <==> entries != []
  {
    forall p: Path | NodeAt(root, p).Some?
      ensures p != [] ==> Handled(root, [], visited, popped, p)
    {
      WalkComplete(root, visited, popped, current, p);
    }
    forall p: Path | IsFileAt(root, p)
      ensures EntryOf(sha, role, p, NodeAt(root, p).value.content) in entries
      ensures IsRelativePath(Join(p)) && entries != []
    {
      var i :| 0 <= i < |visited| && visited[i] == p;
      assert entries[i] in entries;
    }
    forall i, j | 0 <= i < j < |entries|
      ensures entries[i].relativePath != entries[j].relativePath
    {
      if entries[i].relativePath == entries[j].relativePath {
        JoinInjective(visited[i], visited[j]);
      }
    }
    if entries != [] {
      assert IsFileAt(root, visited[0]);
    }
  }

  lemma WalkStart(sha: Bytes -> Text, role: Text, root: Node)
    requires root.Dir?
    ensures Walk(root, [[]], [], {}, [], {}) && Listed(sha, role, root, [], [])
  {
  }

  lemma ListedStep(sha: Bytes -> Text, role: Text, root: Node, visited: seq<Path>, entries: seq<FileEntry>, f: Path)
    requires Listed(sha, role, root, visited, entries)
    requires f != [] && IsFileAt(root, f) && IsRelativePath(Join(f))
    ensures Listed(sha, role, root, visited + [f], entries + [EntryOf(sha, role, f, NodeAt(root, f).value.content)])
  {
  }

  lemma Refused(role: Text, root: Node, p: Path)
    requires p != [] && NodeAt(root, p).Some?
    requires NodeAt(root, p).value.Symlink? || NodeAt(root, p).value.Special?
             || (IsFileAt(root, p) && !IsRelativePath(Join(p)))
    ensures !Scannable(role, root)
  {
  }

  lemma WaitingIsChild(root: Node, stack: seq<Path>, visited: seq<Path>, popped: set<Path>,
                       d: Path, waiting: set<Segment>, n: Segment)
    requires Walk(root, stack, visited, popped, d, waiting) && n in waiting
    ensures IsDirAt(root, d) && n in NodeAt(root, d).value.children
    ensures NodeAt(root, d + [n]) == Some(NodeAt(root, d).value.children[n])
  {
    NodeAtStep(root, d, n);
  }

  method ScanRoleRoot(sha: Bytes -> Text, role: Text, root: Node) returns (r: Option<seq<FileEntry>>)
    ensures r.Some? <==> Scannable(role, root)
    ensures r.Some? ==> ListsFiles(sha, role, root, r.value)
  {
    if !IsRole(role) || !root.Dir? {
      return None;
    }
    hide Walk, Listed, ListsFiles, Scannable, AllPaths, IsRole, IsRelativePath;
    var entries: seq<FileEntry> := [];
    var stack: seq<Path> := [[]];
    ghost var visited: seq<Path> := [];
    ghost var popped: set<Path> := {};
    ghost var current: Path := [];
    WalkStart(sha, role, root);
    while stack != []
      invariant Walk(root, stack, visited, popped, current, {})
      invariant Listed(sha, role, root, visited, entries)
      decreases AllPaths(root) - popped
    {
      var directory := stack[|stack| - 1];
      PopStep(root, stack, visited, popped, current);
      stack := stack[..|stack| - 1];
      popped, current := popped + {directory}, directory;
      var names := NodeAt(root, directory).value.children.Keys;
      while names != {}
        invariant Walk(root, stack, visited, popped, directory, names)
        invariant Listed(sha, role, root, visited, entries)
        decreases names
      {
        var n :| n in names;
        var child := directory + [n];
        WaitingIsChild(root, stack, visited, popped, directory, names, n);
        match NodeAt(root, child).value {
        case Dir(_) =>
          DirStep(root, stack, visited, popped, directory, names, n);
          stack := stack + [child];
        case File(content) =>
          if !IsRelativePath(Join(child)) {
            Refused(role, root, child);
            return None;
          }
          FileStep(root, stack, visited, popped, directory, names, n);
          ListedStep(sha, role, root, visited, entries, child);
          entries := entries + [EntryOf(sha, role, child, content)];
          visited := visited + [child];
        case _ =>
          Refused(role, root, child);
          return None;
        }
        names := names - {n};
      }
    }
    CompleteListing(sha, role, root, visited, popped, current, entries);
    return if entries == [] then None else Some(entries);
  }
}
