/**
 * `clean_build_artifacts` in backend/utils/cleanup.py: for each name of a
 * fixed list, in order, every node below the root with that name is
 * deleted — a directory with everything in it, a file on its own — and
 * counted; a deletion that raises is logged and the walk goes on.
 *
 * `rglob(name)` lists a directory before what is inside it, so the pass
 * visits its hits shortest path first: a hit inside a hit deleted earlier
 * in the same pass is gone by the time it comes up and is neither deleted
 * nor counted again. `locked` are the paths whose deletion raises; such a
 * node stays where it is.
 */
module ArtifactCleanup {
  import opened Fs
  import opened PackageDirs

  const CleanupTargets: seq<string> :=
    ["build", ".gradle", ".idea", "outputs", ".externalNativeBuild", ".cxx", "captures", "local.properties"]

  /** The hits of `rglob(x)`: every node below the root named `x`. */
  function Matches(t: Tree, x: string): set<Path>
  {
    set p | p in t && p != [] && Name(p) == x
  }

  /** Some hit that can be deleted lies strictly above `p`. */
  predicate HasLiveAbove(t: Tree, x: string, locked: set<Path>, p: Path)
  {
    exists r :: r in Matches(t, x) && r !in locked && Below(r, p)
  }

  /** The hits the pass deletes: those that can be deleted and have no such hit above them. */
  function Top(t: Tree, x: string, locked: set<Path>): set<Path>
  {
    set p | p in Matches(t, x) && p !in locked && !HasLiveAbove(t, x, locked, p)
  }

  /** The tree less every node at or below a path of `s`. */
  function Without(t: Tree, s: set<Path>): Tree
  {
    map p | p in t && !(exists q :: q in s && AtOrBelow(q, p)) :: t[p]
  }

  /** The hits whose deletion raised: locked, and still there when visited. */
  function Failures(t: Tree, x: string, locked: set<Path>): set<Path>
  {
    set p | p in Matches(t, x) && p in locked && !(exists q :: q in Top(t, x, locked) && Below(q, p))
  }

  /** The result of one target's pass: the new tree, the deletions counted, the failures logged. */
  datatype PassResult = PassResult(tree: Tree, count: nat, failed: set<Path>)

  function Pass(t: Tree, x: string, locked: set<Path>): PassResult
  {
    PassResult(Without(t, Top(t, x, locked)), |Top(t, x, locked)|, Failures(t, x, locked))
  }

  /** The passes for `names`, one after the other, with the counts added up. */
  function CleanAll(t: Tree, locked: set<Path>, names: seq<string>): PassResult
    decreases |names|
  {
    if names == [] then PassResult(t, 0, {})
    else
      var prev := CleanAll(t, locked, names[..|names| - 1]);
      var r := Pass(prev.tree, names[|names| - 1], locked);
      PassResult(r.tree, prev.count + r.count, prev.failed + r.failed)
  }

  function Cleaned(t: Tree, locked: set<Path>): PassResult
  {
    CleanAll(t, locked, CleanupTargets)
  }

  /** The closing log line. */
  datatype Report = NothingFound | TotalDeleted(n: nat)

  function Summary(count: nat): (r: Report)
    ensures r == NothingFound <==> count == 0
    ensures r.TotalDeleted? ==> r.n == count
  {
    if count == 0 then NothingFound else TotalDeleted(count)
  }

  // ---------------------------------------------------------------------
  // The passes as the source runs them
  // ---------------------------------------------------------------------

  /** A shortest path of a non-empty set. */
  lemma ShortestExists(s: set<Path>) returns (p: Path)
    requires s != {}
    ensures p in s && forall q :: q in s ==> |p| <= |q|
  {
    var lengths := set q | q in s :: |q|;
    var q0 :| q0 in s;
    assert |q0| in lengths;
    var m := MinOf(lengths);
    p :| p in s && |p| == m;
    forall q | q in s ensures |p| <= |q| {
      assert |q| in lengths;
    }
  }

  lemma {:induction false} MinOf(s: set<nat>) returns (m: nat)
    requires s != {}
    ensures m in s && forall k :: k in s ==> m <= k
    decreases s
  {
    var k :| k in s;
    if s == {k} {
      m := k;
    } else {
      var rest := MinOf(s - {k});
      m := if k < rest then k else rest;
      forall j | j in s ensures m <= j {
        if j != k {
          assert j in s - {k};
        }
      }
    }
  }

  lemma AtOrBelowTrans(a: Path, b: Path, c: Path)
    requires AtOrBelow(a, b) && AtOrBelow(b, c)
    ensures AtOrBelow(a, c)
  {
    assert c[..|b|][..|a|] == c[..|a|];
  }

  /** Every hit that can be deleted is at or below one the pass deletes. */
  lemma {:induction false} CoveredByTop(t: Tree, x: string, locked: set<Path>, q: Path) returns (r: Path)
    requires q in Matches(t, x) && q !in locked
    ensures r in Top(t, x, locked) && AtOrBelow(r, q)
    decreases |q|
  {
    if HasLiveAbove(t, x, locked, q) {
      var r0 :| r0 in Matches(t, x) && r0 !in locked && Below(r0, q);
      r := CoveredByTop(t, x, locked, r0);
      AtOrBelowTrans(r, r0, q);
    } else {
      r := q;
    }
  }

  lemma RemoveOneMore(t: Tree, s: set<Path>, p: Path)
    ensures RemoveTree(Without(t, s), p) == Without(t, s + {p})
  {
    var a := RemoveTree(Without(t, s), p);
    var b := Without(t, s + {p});
    forall q ensures q in a <==> q in b {
    }
  }

  /** The state of a pass that deletes `top`, once the hits in `done` have been visited. */
  function Visited(t: Tree, top: set<Path>, locked: set<Path>, done: set<Path>): PassResult
  {
    PassResult(Without(t, top * done), |top * done|,
      set p | p in done && p in locked && !(exists q :: q in top && Below(q, p)))
  }

  /** One visit: a hit still there is deleted and counted, or logged when deleting it raises. */
  function VisitHit(s: PassResult, p: Path, locked: set<Path>): PassResult
  {
    if p !in s.tree then s
    else if p in locked then PassResult(s.tree, s.count, s.failed + {p})
    else PassResult(RemoveTree(s.tree, p), s.count + 1, s.failed)
  }

  /** What a visit needs to know about the hits the pass deletes. */
  predicate TopShape(top: set<Path>, locked: set<Path>)
  {
    && (forall q :: q in top ==> q !in locked)
    && (forall a, b :: a in top && b in top ==> !Below(a, b))
  }

  /**
   * Visiting a hit whose turn has come — every deleted hit above it visited
   * already, and a deleted hit at or above it when it can itself be deleted
   * — moves the pass one hit on.
   */
  lemma VisitStep(t: Tree, top: set<Path>, locked: set<Path>, done: set<Path>, p: Path, s: PassResult, done': set<Path>)
    requires TopShape(top, locked) && p in t && p !in done
    requires forall q :: q in top && Below(q, p) ==> q in done
    requires p !in locked ==> Covered(top, p)
    requires s == Visited(t, top, locked, done) && done' == done + {p}
    ensures VisitHit(s, p, locked) == Visited(t, top, locked, done')
  {
    if p in s.tree && p !in locked {
      VisitDeletes(t, top, locked, done, p, s, done');
    } else if p in s.tree {
      VisitLogs(t, top, locked, done, p, s, done');
    } else {
      VisitGone(t, top, locked, done, p, s, done');
    }
  }

  /** A hit still there that can be deleted is one the pass deletes. */
  lemma VisitDeletes(t: Tree, top: set<Path>, locked: set<Path>, done: set<Path>, p: Path, s: PassResult, done': set<Path>)
    requires TopShape(top, locked) && p in t && p !in done
    requires forall q :: q in top && Below(q, p) ==> q in done
    requires p !in locked ==> Covered(top, p)
    requires s == Visited(t, top, locked, done) && done' == done + {p}
    requires p in s.tree && p !in locked
    ensures VisitHit(s, p, locked) == Visited(t, top, locked, done')
  {
    var r :| r in top && AtOrBelow(r, p);
    if r != p {
      assert false;
    }
    RemoveOneMore(t, top * done, p);
    assert top * done' == top * done + {p};
  }

  /** A locked hit still there is logged. */
  lemma VisitLogs(t: Tree, top: set<Path>, locked: set<Path>, done: set<Path>, p: Path, s: PassResult, done': set<Path>)
    requires TopShape(top, locked) && p !in done
    requires forall q :: q in top && Below(q, p) ==> q in done
    requires s == Visited(t, top, locked, done) && done' == done + {p}
    requires p in s.tree && p in locked
    ensures VisitHit(s, p, locked) == Visited(t, top, locked, done')
  {
    assert top * done' == top * done;
    forall q | q in top && Below(q, p) ensures false {
      assert q in top * done && AtOrBelow(q, p);
    }
    LoggedOneMore(top, locked, done, p);
  }

  lemma LoggedOneMore(top: set<Path>, locked: set<Path>, done: set<Path>, p: Path)
    requires p in locked && !(exists q :: q in top && Below(q, p))
    ensures (set x | x in done + {p} && x in locked && !(exists q :: q in top && Below(q, x)))
      == (set x | x in done && x in locked && !(exists q :: q in top && Below(q, x))) + {p}
  {
  }

  /** A hit already deleted with one above it is passed over. */
  lemma VisitGone(t: Tree, top: set<Path>, locked: set<Path>, done: set<Path>, p: Path, s: PassResult, done': set<Path>)
    requires TopShape(top, locked) && p in t && p !in done
    requires s == Visited(t, top, locked, done) && done' == done + {p}
    requires p !in s.tree
    ensures VisitHit(s, p, locked) == Visited(t, top, locked, done')
  {
    var q :| q in top * done && AtOrBelow(q, p);
    assert q != p && Below(q, p);
    assert top * done' == top * done;
  }

  /**
   * One visit of a hit: deleted (`rmtree` for a directory, `unlink` for a
   * file — in a tree nothing lies below a file) and counted when it is still
   * there, logged instead when deleting it raises.
   */
  method VisitOne(t: Tree, count: nat, failed: set<Path>, p: Path, locked: set<Path>)
    returns (t': Tree, count': nat, failed': set<Path>)
    ensures PassResult(t', count', failed') == VisitHit(PassResult(t, count, failed), p, locked)
  {
    t', count', failed' := t, count, failed;
    if p in t {
      if p in locked {
        failed' := failed + {p};
      } else {
        t' := RemoveTree(t, p);
        count' := count + 1;
      }
    }
  }

  /** Some hit the pass deletes is at or above `p`. */
  predicate Covered(top: set<Path>, p: Path)
  {
    exists r :: r in top && AtOrBelow(r, p)
  }

  /** The state after visiting `hits` in order, from `t` with nothing counted or logged. */
  function Walk(t: Tree, hits: seq<Path>, locked: set<Path>): PassResult
  {
    if hits == [] then PassResult(t, 0, {})
    else VisitHit(Walk(t, hits[..|hits| - 1], locked), hits[|hits| - 1], locked)
  }

  /** A listing of `m` that yields every hit once and a directory before anything inside it. */
  predicate TopDown(hits: seq<Path>, m: set<Path>)
  {
    && Seen(hits, |hits|) == m
    && (forall i, j :: 0 <= i < j < |hits| ==> hits[i] != hits[j] && !Below(hits[j], hits[i]))
  }

  /** `rglob(x)`: the hits, listed shortest path first. */
  method Listing(t: Tree, x: string) returns (hits: seq<Path>)
    ensures TopDown(hits, Matches(t, x))
  {
    var todo := Matches(t, x);
    hits := [];
    while todo != {}
      invariant Seen(hits, |hits|) + todo == Matches(t, x)
      invariant forall k :: 0 <= k < |hits| ==> hits[k] !in todo
      invariant forall i, j :: 0 <= i < j < |hits| ==> hits[i] != hits[j] && |hits[i]| <= |hits[j]|
      invariant forall k, q :: 0 <= k < |hits| && q in todo ==> |hits[k]| <= |q|
      decreases todo
    {
      ghost var shortest := ShortestExists(todo);
      var p :| p in todo && forall q :: q in todo ==> |p| <= |q|;
      SeenAppend(hits, p);
      hits, todo := hits + [p], todo - {p};
    }
  }

  /**
   * Visit `hits` in order: a hit still there is deleted and counted, or
   * logged when deleting it raises.
   */
  method VisitAll(t: Tree, hits: seq<Path>, locked: set<Path>) returns (t': Tree, count: nat, failed: set<Path>)
    ensures PassResult(t', count, failed) == Walk(t, hits, locked)
  {
    t', count, failed := t, 0, {};
    for i := 0 to |hits|
      invariant PassResult(t', count, failed) == Walk(t, hits[..i], locked)
    {
      assert hits[..i + 1][..i] == hits[..i];
      t', count, failed := VisitOne(t', count, failed, hits[i], locked);
    }
    assert hits[..|hits|] == hits;
  }

  /**
   * One target's pass: list the hits, then visit them in that order.
   */
  method CleanPass(t: Tree, x: string, locked: set<Path>) returns (t': Tree, count: nat, failed: set<Path>)
    ensures PassResult(t', count, failed) == Pass(t, x, locked)
  {
    var hits := Listing(t, x);
    t', count, failed := VisitAll(t, hits, locked);
    WalkIsPass(t, x, locked, hits);
  }

  /** Any top-down walk over the hits ends in the pass's result. */
  lemma WalkIsPass(t: Tree, x: string, locked: set<Path>, hits: seq<Path>)
    requires TopDown(hits, Matches(t, x))
    ensures Walk(t, hits, locked) == Pass(t, x, locked)
  {
    PassReady(t, x, locked);
    WalkIsVisited(t, Matches(t, x), Top(t, x, locked), locked, hits, |hits|);
    assert hits[..|hits|] == hits;
    assert Seen(hits, |hits|) == Matches(t, x);
    PassIsVisited(t, x, locked);
  }

  lemma WalkPrefix(t: Tree, hits: seq<Path>, locked: set<Path>, i: nat)
    requires 0 < i <= |hits|
    ensures Walk(t, hits[..i], locked) == VisitHit(Walk(t, hits[..i - 1], locked), hits[i - 1], locked)
  {
    assert hits[..i][..i - 1] == hits[..i - 1];
  }

  /** Before the first visit nothing is deleted, counted or logged. */
  lemma VisitedNone(t: Tree, top: set<Path>, locked: set<Path>)
    ensures Visited(t, top, locked, {}) == PassResult(t, 0, {})
  {
    assert top * {} == {};
    assert Without(t, {}) == t;
  }

  /** The hits among the first `i` of a listing. */
  function Seen(hits: seq<Path>, i: nat): set<Path>
    requires i <= |hits|
  {
    set k | 0 <= k < i :: hits[k]
  }

  lemma SeenStep(hits: seq<Path>, i: nat)
    requires 0 < i <= |hits|
    ensures Seen(hits, i) == Seen(hits, i - 1) + {hits[i - 1]}
  {
  }

  lemma SeenAppend(hits: seq<Path>, p: Path)
    ensures Seen(hits + [p], |hits| + 1) == Seen(hits, |hits|) + {p}
  {
    var h := hits + [p];
    SeenStep(h, |h|);
    assert Seen(h, |hits|) == Seen(hits, |hits|) by {
      assert forall k :: 0 <= k < |hits| ==> h[k] == hits[k];
    }
  }

  /** In a top-down listing, the hit at `i` has every hit above it among the earlier ones. */
  lemma TopDownTurn(hits: seq<Path>, m: set<Path>, top: set<Path>, i: nat)
    requires TopDown(hits, m) && top <= m && i < |hits|
    ensures hits[i] in m && hits[i] !in Seen(hits, i)
    ensures forall q :: q in top && Below(q, hits[i]) ==> q in Seen(hits, i)
  {
    forall q | q in top && Below(q, hits[i]) ensures q in Seen(hits, i) {
      var j :| 0 <= j < |hits| && hits[j] == q;
    }
  }

  lemma {:induction false} WalkIsVisited(t: Tree, m: set<Path>, top: set<Path>, locked: set<Path>, hits: seq<Path>, i: nat)
    requires TopShape(top, locked) && top <= m && m <= t.Keys
    requires forall p :: p in m && p !in locked ==> Covered(top, p)
    requires TopDown(hits, m) && i <= |hits|
    ensures Walk(t, hits[..i], locked) == Visited(t, top, locked, Seen(hits, i))
  {
    if i == 0 {
      assert Seen(hits, i) == {};
      VisitedNone(t, top, locked);
    } else {
      WalkIsVisited(t, m, top, locked, hits, i - 1);
      WalkPrefix(t, hits, locked, i);
      VisitNext(t, m, top, locked, hits, i, Walk(t, hits[..i - 1], locked));
    }
  }

  lemma VisitNext(t: Tree, m: set<Path>, top: set<Path>, locked: set<Path>, hits: seq<Path>, i: nat, s: PassResult)
    requires TopShape(top, locked) && top <= m && m <= t.Keys
    requires forall p :: p in m && p !in locked ==> Covered(top, p)
    requires TopDown(hits, m) && 0 < i <= |hits|
    requires s == Visited(t, top, locked, Seen(hits, i - 1))
    ensures VisitHit(s, hits[i - 1], locked) == Visited(t, top, locked, Seen(hits, i))
  {
    NextReady(t, m, top, locked, hits, i);
    VisitStep(t, top, locked, Seen(hits, i - 1), hits[i - 1], s, Seen(hits, i));
  }

  /** The next hit of a top-down listing is ready to be visited. */
  lemma NextReady(t: Tree, m: set<Path>, top: set<Path>, locked: set<Path>, hits: seq<Path>, i: nat)
    requires top <= m && m <= t.Keys
    requires forall p :: p in m && p !in locked ==> Covered(top, p)
    requires TopDown(hits, m) && 0 < i <= |hits|
    ensures hits[i - 1] in t && hits[i - 1] !in Seen(hits, i - 1)
    ensures forall q :: q in top && Below(q, hits[i - 1]) ==> q in Seen(hits, i - 1)
    ensures hits[i - 1] !in locked ==> Covered(top, hits[i - 1])
    ensures Seen(hits, i) == Seen(hits, i - 1) + {hits[i - 1]}
  {
    SeenStep(hits, i);
    TopDownTurn(hits, m, top, i - 1);
  }

  lemma PassReady(t: Tree, x: string, locked: set<Path>)
    ensures TopShape(Top(t, x, locked), locked)
    ensures Top(t, x, locked) <= Matches(t, x) <= t.Keys
    ensures forall p :: p in Matches(t, x) && p !in locked ==> Covered(Top(t, x, locked), p)
  {
    forall p | p in Matches(t, x) && p !in locked ensures Covered(Top(t, x, locked), p) {
      var r := CoveredByTop(t, x, locked, p);
    }
  }

  lemma PassIsVisited(t: Tree, x: string, locked: set<Path>)
    ensures Pass(t, x, locked) == Visited(t, Top(t, x, locked), locked, Matches(t, x))
  {
    assert Top(t, x, locked) * Matches(t, x) == Top(t, x, locked);
  }

  /**
   * `clean_build_artifacts(root)`: the passes for every target name in the
   * list's order, the total count and the closing report.
   */
  method CleanBuildArtifacts(t: Tree, locked: set<Path>) returns (t': Tree, count: nat, failed: set<Path>, report: Report)
    ensures PassResult(t', count, failed) == Cleaned(t, locked)
    ensures report == Summary(count)
  {
    t', count, failed := t, 0, {};
    for i := 0 to |CleanupTargets|
      invariant PassResult(t', count, failed) == CleanAll(t, locked, CleanupTargets[..i])
    {
      assert CleanupTargets[..i + 1][..i] == CleanupTargets[..i];
      var c, f;
      t', c, f := CleanPass(t', CleanupTargets[i], locked);
      count, failed := count + c, failed + f;
    }
    assert CleanupTargets[..|CleanupTargets|] == CleanupTargets;
    report := Summary(count);
  }

  // ---------------------------------------------------------------------
  // What the cleanup leaves
  // ---------------------------------------------------------------------

  /** Some ancestor-or-self of `p` below the root is named in `names` and can be deleted. */
  ghost predicate Doomed(names: seq<string>, locked: set<Path>, p: Path)
  {
    exists q :: AtOrBelow(q, p) && q != [] && Name(q) in names && q !in locked
  }

  lemma WithoutValid(t: Tree, s: set<Path>)
    requires Valid(t)
    ensures Valid(Without(t, s))
  {
    var w := Without(t, s);
    forall p | p in w && |p| > 1 ensures Parent(p) in w && w[Parent(p)].Dir? {
      if exists q :: q in s && AtOrBelow(q, Parent(p)) {
        var q :| q in s && AtOrBelow(q, Parent(p));
        AtOrBelowTrans(q, Parent(p), p);
      }
    }
  }

  /** In a tree every ancestor of a node below the root is a node. */
  lemma AncestorIn(t: Tree, q: Path, p: Path)
    requires Valid(t) && p in t && AtOrBelow(q, p) && q != []
    ensures q in t
  {
    if |q| < |p| {
      AncestorIsDir(t, p, |q|);
    } else {
      assert q == p;
    }
  }

  /** A pass removes exactly the nodes with a deletable ancestor-or-self of the target name. */
  lemma PassKeeps(t: Tree, x: string, locked: set<Path>, p: Path)
    requires Valid(t)
    ensures p in Pass(t, x, locked).tree <==> p in t && !Doomed([x], locked, p)
  {
    var top := Top(t, x, locked);
    if p in t && exists q :: q in top && AtOrBelow(q, p) {
      var q :| q in top && AtOrBelow(q, p);
      assert Name(q) in [x];
    }
    if p in t && Doomed([x], locked, p) {
      var q :| AtOrBelow(q, p) && q != [] && Name(q) in [x] && q !in locked;
      AncestorIn(t, q, p);
      assert q in Matches(t, x);
      var r := CoveredByTop(t, x, locked, q);
      AtOrBelowTrans(r, q, p);
    }
  }

  lemma DoomedAppend(a: seq<string>, x: string, locked: set<Path>, p: Path)
    ensures Doomed(a + [x], locked, p) <==> Doomed(a, locked, p) || Doomed([x], locked, p)
  {
    if Doomed(a + [x], locked, p) {
      var q :| AtOrBelow(q, p) && q != [] && Name(q) in a + [x] && q !in locked;
      assert Name(q) in a || Name(q) in [x];
    }
    if Doomed(a, locked, p) {
      var q :| AtOrBelow(q, p) && q != [] && Name(q) in a && q !in locked;
      assert Name(q) in a + [x];
    }
    if Doomed([x], locked, p) {
      var q :| AtOrBelow(q, p) && q != [] && Name(q) in [x] && q !in locked;
      assert Name(q) in a + [x];
    }
  }

  /**
   * After the passes for `names` a node stays exactly when no
   * ancestor-or-self of it below the root has one of the names and could be
   * deleted; what stays is unchanged, and the tree is still a tree.
   */
  lemma {:induction false} CleanAllKeeps(t: Tree, locked: set<Path>, names: seq<string>)
    requires Valid(t)
    ensures Valid(CleanAll(t, locked, names).tree)
    ensures forall p :: p in CleanAll(t, locked, names).tree <==> p in t && !Doomed(names, locked, p)
    ensures forall p :: p in CleanAll(t, locked, names).tree ==> CleanAll(t, locked, names).tree[p] == t[p]
    decreases |names|
  {
    if names != [] {
      var init := names[..|names| - 1];
      var x := names[|names| - 1];
      CleanAllKeeps(t, locked, init);
      var prev := CleanAll(t, locked, init).tree;
      WithoutValid(prev, Top(prev, x, locked));
      assert names == init + [x];
      forall p ensures p in CleanAll(t, locked, names).tree <==> p in t && !Doomed(names, locked, p) {
        PassKeeps(prev, x, locked, p);
        DoomedAppend(init, x, locked, p);
      }
    } else {
      assert forall p :: !Doomed(names, locked, p);
    }
  }

  /** No node below the root with a target name survives the cleanup unless deleting it raised. */
  lemma CleanedLeavesNoTarget(t: Tree, locked: set<Path>, p: Path)
    requires Valid(t) && p in Cleaned(t, locked).tree && p != [] && Name(p) in CleanupTargets
    ensures p in locked
  {
    CleanAllKeeps(t, locked, CleanupTargets);
    assert AtOrBelow(p, p);
  }

  /** Where no node has one of the names, the passes delete nothing and count nothing. */
  lemma {:induction false} NothingToClean(t: Tree, locked: set<Path>, names: seq<string>)
    requires forall p :: p in t && p != [] ==> Name(p) !in names
    ensures CleanAll(t, locked, names) == PassResult(t, 0, {})
    decreases |names|
  {
    if names != [] {
      var init := names[..|names| - 1];
      var x := names[|names| - 1];
      forall p | p in t && p != [] ensures Name(p) !in init {
        assert Name(p) !in names;
        assert forall n :: n in init ==> n in names;
      }
      NothingToClean(t, locked, init);
      assert Matches(t, x) == {} by {
        forall p | p in t && p != [] ensures Name(p) != x {
          assert Name(p) !in names;
        }
      }
      assert Top(t, x, locked) == {};
      assert Failures(t, x, locked) == {};
      assert Without(t, {}) == t;
    }
  }

  /** A project with nothing to clean is left as it is, and the report says so. */
  lemma NothingToCleanReport(t: Tree, locked: set<Path>)
    requires forall p :: p in t && p != [] ==> Name(p) !in CleanupTargets
    ensures Cleaned(t, locked).tree == t && Summary(Cleaned(t, locked).count) == NothingFound
  {
    NothingToClean(t, locked, CleanupTargets);
  }
}
