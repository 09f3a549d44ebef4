/** Circular stationary-bootstrap index paths: their validation, their closed form, and the generator. */
module Bootstrap {
  import opened Texts
  import opened Json
  import opened JsonRoundTrip
  import opened Manifest
  import opened Digests

  const LENGTH: nat := 2193

  type Index = i: int | 0 <= i < LENGTH

  function Successor(i: Index): Index {
    (i + 1) % LENGTH
  }

  predicate StrictlyIncreasing(s: seq<int>) {
    forall i, j :: 0 <= i < j < |s| ==> s[i] < s[j]
  }

  predicate IsWrap(path: seq<int>, restarts: seq<int>, t: int)
    requires 1 <= t < |path|
  {
    t !in restarts && path[t] == 0 && path[t - 1] == LENGTH - 1
  }

  /** A path of indexes that moves to the circular successor except where it restarts. */
  predicate IsPath(path: seq<int>, restarts: seq<int>) {
    && |path| == LENGTH && (forall i :: 0 <= i < LENGTH ==> 0 <= path[i] < LENGTH)
    && StrictlyIncreasing(restarts) && (forall r :: r in restarts ==> 1 <= r < LENGTH)
    && (forall t :: 1 <= t < LENGTH && t !in restarts ==> path[t] == Successor(path[t - 1]))
  }

  ghost predicate ListsWraps(path: seq<int>, restarts: seq<int>, wraps: seq<int>)
    requires |path| == LENGTH
  {
    && StrictlyIncreasing(wraps)
    && (forall t :: t in wraps <==> 1 <= t < LENGTH && IsWrap(path, restarts, t))
  }

  function PathJson(path: seq<int>): Json {
    Arr(seq(|path|, i requires 0 <= i < |path| => Int(path[i])))
  }

  /** The canonical bytes a fixture's recorded hash is taken of. */
  function PathBytes(path: seq<int>): Bytes {
    Dumps(PathJson(path))
  }

  /** `_rng_path_fixture` */
  method CheckPath(sha: Bytes -> Text, sampleLength: int, path: seq<int>, recorded: Text, restarts: seq<int>,
                   restartCount: int, wraps: seq<int>, wrapRequired: bool)
    returns (ok: bool)
    ensures ok <==>
            && sampleLength == LENGTH && IsPath(path, restarts) && restartCount == |restarts|
            && ListsWraps(path, restarts, wraps) && (wrapRequired ==> wraps != [])
            && IsDigest(recorded) && recorded == sha(PathBytes(path))
  {
    if sampleLength != LENGTH {
      return false;
    }
    if |path| != LENGTH {
      return false;
    }
    for i := 0 to |path|
      invariant forall k :: 0 <= k < i ==> 0 <= path[k] < LENGTH
    {
      if path[i] < 0 || path[i] > LENGTH - 1 {
        return false;
      }
    }
    for i := 0 to |restarts|
      invariant StrictlyIncreasing(restarts[..i])
      invariant forall k :: 0 <= k < i ==> 1 <= restarts[k] < LENGTH
    {
      if restarts[i] < 1 || restarts[i] > LENGTH - 1 {
        assert restarts[i] in restarts;
        return false;
      }
      if i > 0 && restarts[i] <= restarts[i - 1] {
        return false;
      }
      assert forall k :: 0 <= k < i ==> restarts[..i][k] <= restarts[..i][i - 1];
    }
    assert restarts[..|restarts|] == restarts;
    if restartCount != |restarts| {
      return false;
    }
    for t := 1 to LENGTH
      invariant forall k :: 1 <= k < t && k !in restarts ==> path[k] == Successor(path[k - 1])
    {
      if t !in restarts && path[t] != Successor(path[t - 1]) {
        return false;
      }
    }
    var expected := ExpectedWraps(path, restarts);
    SameMembers(wraps, expected);
    if wraps != expected || (wrapRequired && wraps == []) {
      return false;
    }
    return IsDigest(recorded) && recorded == sha(PathBytes(path));
  }

  method ExpectedWraps(path: seq<int>, restarts: seq<int>) returns (wraps: seq<int>)
    requires |path| == LENGTH
    ensures ListsWraps(path, restarts, wraps)
  {
    wraps := [];
    for t := 1 to LENGTH
      invariant StrictlyIncreasing(wraps)
      invariant forall k :: k in wraps <==> 1 <= k < t && IsWrap(path, restarts, k)
    {
      assert forall k :: 0 <= k < |wraps| ==> wraps[k] in wraps;
      if IsWrap(path, restarts, t) {
        assert forall k :: k in wraps + [t] <==> k in wraps || k == t;
        wraps := wraps + [t];
      }
    }
  }

  /** The recorded hash pins the path. */
  lemma HashPinsPath(sha: Bytes -> Text, p: seq<int>, q: seq<int>)
    requires CollisionFree(sha, iset{PathBytes(p), PathBytes(q)}) && sha(PathBytes(p)) == sha(PathBytes(q))
    ensures p == q
  {
    CanonFixed(PathJson(p));
    CanonFixed(PathJson(q));
    DumpsInjective(PathJson(p), PathJson(q));
    hide Canon, Dumps;
    assert |PathJson(p).items| == |PathJson(q).items|;
    forall i | 0 <= i < |p|
      ensures p[i] == q[i]
    {
      assert PathJson(p).items[i] == PathJson(q).items[i];
    }
  }

  /** Increasing lists with the same members are equal. */
  lemma SameMembers(a: seq<int>, b: seq<int>)
    requires StrictlyIncreasing(b)
    ensures a == b <==> StrictlyIncreasing(a) && forall x :: x in a <==> x in b
  {
    if StrictlyIncreasing(a) && forall x :: x in a <==> x in b {
      SortedSame(a, b);
    }
  }

  lemma {:induction false} SortedSame(a: seq<int>, b: seq<int>)
    requires StrictlyIncreasing(a) && StrictlyIncreasing(b) && forall x :: x in a <==> x in b
    ensures a == b
  {
    if b != [] {
      assert b[0] in b;
    }
    if a != [] {
      assert a[0] in a && a[0] in b && b[0] in b;
      assert a[0] == b[0];
      forall x
        ensures x in a[1..] <==> x in b[1..]
      {
        assert x in a[1..] <==> x in a && x != a[0];
        assert x in b[1..] <==> x in b && x != b[0];
      }
      SortedSame(a[1..], b[1..]);
    }
  }

  // ---- closed form ----

  /** Where the block of a position starts: at the last restart, or at 0. */
  function BlockStart(restarts: seq<int>, t: nat): (s: nat)
    ensures s <= t && (s == 0 || s in restarts)
    ensures forall r :: r in restarts && r <= t ==> r <= s || r <= 0
  {
    if t == 0 || t in restarts then t else BlockStart(restarts, t - 1)
  }

  lemma OneFurther(v: Index, d: nat)
    ensures ((v + d) % LENGTH + 1) % LENGTH == (v + d + 1) % LENGTH && v % LENGTH == v
  {
  }

  /** Every accepted path is determined block by block: the value at the block's start plus the distance. */
  lemma {:induction false} ClosedForm(path: seq<int>, restarts: seq<int>, t: nat)
    requires IsPath(path, restarts) && t < LENGTH
    ensures var s := BlockStart(restarts, t); path[t] == (path[s] + (t - s)) % LENGTH
  {
    if t > 0 && t !in restarts {
      ClosedForm(path, restarts, t - 1);
      var s := BlockStart(restarts, t);
      OneFurther(path[s], t - 1 - s);
    } else {
      OneFurther(path[t], 0);
    }
  }

  /** Initial index, restart positions and restart values determine an accepted path. */
  lemma PathDetermined(p: seq<int>, q: seq<int>, restarts: seq<int>)
    requires IsPath(p, restarts) && IsPath(q, restarts)
    requires p[0] == q[0] && forall r :: r in restarts ==> p[r] == q[r]
    ensures p == q
  {
    forall t | 0 <= t < LENGTH
      ensures p[t] == q[t]
    {
      ClosedForm(p, restarts, t);
      ClosedForm(q, restarts, t);
    }
  }

  /** The blocks partition the positions: each position is in exactly one stretch from one start to the next. */
  lemma BlocksPartition(restarts: seq<int>, t: nat, s: nat)
    requires forall r :: r in restarts ==> 1 <= r < LENGTH
    ensures s == BlockStart(restarts, t) <==>
            (s == 0 || s in restarts) && s <= t && forall r :: r in restarts && s < r ==> t < r
  {
  }

  // ---- wraparounds ----

  /** A path wraps around exactly where it falls without a restart. */
  lemma WrapIffFalls(path: seq<int>, restarts: seq<int>, t: nat)
    requires IsPath(path, restarts) && 1 <= t < LENGTH
    ensures IsWrap(path, restarts, t) <==> t !in restarts && path[t] < path[t - 1]
  {
    assert t !in restarts ==> path[t] == Successor(path[t - 1]);
  }

  lemma OneWrapPerBlock(path: seq<int>, restarts: seq<int>, t: nat, u: nat)
    requires IsPath(path, restarts) && 1 <= t < LENGTH && 1 <= u < LENGTH
    requires IsWrap(path, restarts, t) && IsWrap(path, restarts, u)
    requires BlockStart(restarts, t) == BlockStart(restarts, u)
    ensures t == u
  {
    ClosedForm(path, restarts, t);
    ClosedForm(path, restarts, u);
  }

  lemma Pick<T>(s: set<T>) returns (x: T)
    requires s != {}
    ensures x in s
  {
    x :| x in s;
  }

  lemma {:induction false} Pigeonhole(wraps: set<int>, starts: set<int>, start: int -> int)
    requires forall w :: w in wraps ==> start(w) in starts
    requires forall v, w :: v in wraps && w in wraps && start(v) == start(w) ==> v == w
    ensures |wraps| <= |starts|
  {
    if wraps != {} {
      var w := Pick(wraps);
      Pigeonhole(wraps - {w}, starts - {start(w)}, start);
    }
  }

  lemma {:induction false} IncreasingSize(s: seq<int>)
    requires StrictlyIncreasing(s)
    ensures |set x | x in s| == |s|
  {
    if s != [] {
      var n := |s| - 1;
      IncreasingSize(s[..n]);
      assert (set x | x in s) == (set x | x in s[..n]) + {s[n]};
      assert s[n] !in s[..n];
    } else {
      assert (set x | x in s) == {};
    }
  }

  /** An accepted path wraps at most once in each block. */
  lemma FewWraps(path: seq<int>, restarts: seq<int>, wraps: seq<int>)
    requires IsPath(path, restarts) && ListsWraps(path, restarts, wraps)
    ensures |wraps| <= |restarts| + 1
  {
    var w := set t | t in wraps;
    var starts := {0} + set r | r in restarts;
    var start := (t: int) => if t >= 0 then BlockStart(restarts, t) else 0;
    forall t, u | t in w && u in w && start(t) == start(u)
      ensures t == u
    {
      OneWrapPerBlock(path, restarts, t, u);
    }
    Pigeonhole(w, starts, start);
    IncreasingSize(wraps);
    IncreasingSize(restarts);
    assert 0 !in restarts;
  }

  // ---- the generator ----

  /** The index drawn for position t: restart decisions and restart indexes come from the draws of that position. */
  function PathAt(initial: Index, restart: nat -> bool, index: nat -> Index, t: nat): Index {
    if t == 0 then initial
    else if restart(t) then index(t)
    else Successor(PathAt(initial, restart, index, t - 1))
  }

  lemma PathStep(initial: Index, restart: nat -> bool, index: nat -> Index, t: nat)
    requires t >= 1
    ensures PathAt(initial, restart, index, t)
            == if restart(t) then index(t) else Successor(PathAt(initial, restart, index, t - 1))
    ensures PathAt(initial, restart, index, 0) == initial
  {
  }

  /** The algorithm of the frozen logical order. */
  method GeneratePath(initial: Index, restart: nat -> bool, index: nat -> Index)
    returns (path: seq<int>, restarts: seq<int>)
    ensures IsPath(path, restarts) && forall t :: 0 <= t < LENGTH ==> path[t] == PathAt(initial, restart, index, t)
    ensures path[0] == initial && forall t :: 1 <= t < LENGTH && restart(t) ==> path[t] == index(t)
    ensures forall t :: t in restarts <==> 1 <= t < LENGTH && restart(t)
  {
    hide PathAt, Successor;
    PathStep(initial, restart, index, 1);
    path, restarts := [initial], [];
    for t := 1 to LENGTH
      invariant |path| == t && forall k :: 0 <= k < t ==> path[k] == PathAt(initial, restart, index, k)
      invariant path[0] == initial && forall k :: 1 <= k < t && restart(k) ==> path[k] == index(k)
      invariant StrictlyIncreasing(restarts)
      invariant forall k :: k in restarts <==> 1 <= k < t && restart(k)
      invariant forall k :: 1 <= k < t && !restart(k) ==> path[k] == Successor(path[k - 1])
    {
      assert forall k :: 0 <= k < |restarts| ==> restarts[k] in restarts;
      PathStep(initial, restart, index, t);
      if restart(t) {
        assert forall k :: k in restarts + [t] <==> k in restarts || k == t;
        path, restarts := path + [index(t)], restarts + [t];
      } else {
        path := path + [Successor(path[t - 1])];
      }
    }
  }

  /** The validation accepts nothing else: every accepted path is the generator's, from its own draws. */
  lemma {:induction false} AcceptedIsGenerated(path: seq<int>, restarts: seq<int>, t: nat)
    requires IsPath(path, restarts) && t < LENGTH
    ensures path[t] == PathAt(path[0], (k: nat) => k in restarts,
                              (k: nat) => if k < |path| && 0 <= path[k] < LENGTH then path[k] else 0, t)
  {
    if t > 0 {
      AcceptedIsGenerated(path, restarts, t - 1);
    }
  }
}
