/**
 * The directory side of the package rewrite in backend/utils/file_replace.py:
 * `_rename_package_directories` moves `<d>/old/segments` to
 * `<d>/new/segments` for every source directory `<d>` of a `src/main`
 * folder, and `_cleanup_empty_dirs` prunes the empty directories left
 * below `<d>`.
 *
 * The file-system primitives the source calls (`mkdir(parents=True,
 * exist_ok=True)`, `shutil.rmtree`, `shutil.move`, `rmdir`) are functions
 * on the tree; one that raises gives `None` or leaves the tree as it is.
 */
module PackageDirs {
  import opened Wrappers
  import opened Fs
  import opened ReplTemplate

  // ---------------------------------------------------------------------
  // Package names as paths
  // ---------------------------------------------------------------------

  /** `Path(*pkg.split('.'))`: the dot-separated parts, the empty ones dropped as `Path` drops them. */
  function Segments(pkg: string): (r: seq<string>)
    ensures forall k :: 0 <= k < |r| ==> r[k] != "" && '.' !in r[k]
    decreases |pkg|
  {
    if pkg == [] then []
    else
      var k := IndexOf(pkg, '.');
      assert '.' !in pkg[..k] by {
        forall c | c in pkg[..k] ensures c != '.' {
          var j :| 0 <= j < k && pkg[j] == c;
        }
      }
      (if k == 0 then [] else [pkg[..k]]) + (if k == |pkg| then [] else Segments(pkg[k + 1..]))
  }

  /** The parts joined with dots. */
  function JoinDots(parts: seq<string>): string
  {
    if parts == [] then ""
    else if |parts| == 1 then parts[0]
    else parts[0] + "." + JoinDots(parts[1..])
  }

  /** No empty part: no leading or trailing dot and no two dots in a row. */
  predicate NoEmptySegment(pkg: string)
  {
    && pkg != []
    && pkg[0] != '.' && pkg[|pkg| - 1] != '.'
    && forall k :: 0 <= k < |pkg| - 1 ==> !(pkg[k] == '.' && pkg[k + 1] == '.')
  }

  /** For a package without empty parts the directory path spells the package back. */
  lemma {:induction false} SegmentsJoin(pkg: string)
    requires NoEmptySegment(pkg)
    ensures JoinDots(Segments(pkg)) == pkg
    decreases |pkg|
  {
    var k := IndexOf(pkg, '.');
    assert k != 0;
    if k == |pkg| {
      assert pkg[..k] == pkg;
      assert Segments(pkg) == [pkg];
    } else {
      var rest := pkg[k + 1..];
      RestHasNoEmptySegment(pkg, k);
      SegmentsJoin(rest);
      assert Segments(rest) != [] by {
        assert JoinDots(Segments(rest)) == rest;
      }
      SegmentsSplit(pkg, k);
      DotSplit(pkg, k);
      JoinStep(pkg[..k], Segments(rest));
    }
  }

  /** A package cut at its first dot, not at either end. */
  lemma SegmentsSplit(pkg: string, k: nat)
    requires k == IndexOf(pkg, '.') && 0 < k < |pkg|
    ensures Segments(pkg) == [pkg[..k]] + Segments(pkg[k + 1..])
  {
  }

  lemma DotSplit(pkg: string, k: nat)
    requires k < |pkg| && pkg[k] == '.'
    ensures pkg == pkg[..k] + "." + pkg[k + 1..]
  {
    assert pkg == pkg[..k] + pkg[k..];
    assert pkg[k..] == "." + pkg[k + 1..];
  }

  lemma JoinStep(head: string, tail: seq<string>)
    requires tail != []
    ensures JoinDots([head] + tail) == head + "." + JoinDots(tail)
  {
    assert ([head] + tail)[1..] == tail;
  }

  /** What follows the first dot of a package without empty parts has none either. */
  lemma RestHasNoEmptySegment(pkg: string, k: nat)
    requires NoEmptySegment(pkg) && k == IndexOf(pkg, '.') && 0 < k < |pkg|
    ensures NoEmptySegment(pkg[k + 1..])
  {
    var rest := pkg[k + 1..];
    assert rest != [] && rest[0] != '.' by {
      assert k + 1 < |pkg| && pkg[k + 1] != '.';
    }
    assert rest[|rest| - 1] == pkg[|pkg| - 1];
    forall j | 0 <= j < |rest| - 1 ensures !(rest[j] == '.' && rest[j + 1] == '.') {
      assert rest[j] == pkg[k + 1 + j] && rest[j + 1] == pkg[k + 2 + j];
    }
  }

  // ---------------------------------------------------------------------
  // Tree shape and the primitives
  // ---------------------------------------------------------------------

  /** Every node below the top level sits in a directory of the tree. */
  predicate Valid(t: Tree)
  {
    forall p :: p in t && |p| > 1 ==> Parent(p) in t && t[Parent(p)].Dir?
  }

  /** Every proper ancestor of a node (other than the root) is a directory of the tree. */
  lemma {:induction false} AncestorIsDir(t: Tree, q: Path, k: nat)
    requires Valid(t) && q in t && 1 <= k < |q|
    ensures q[..k] in t && t[q[..k]].Dir?
    decreases |q| - k
  {
    if k == |q| - 1 {
      assert Parent(q) == q[..k];
    } else {
      AncestorIsDir(t, q, k + 1);
      var r := q[..k + 1];
      assert Parent(r) == q[..k];
    }
  }

  /** `shutil.rmtree(p)` of a directory: `p` and everything below it disappear. */
  function RemoveTree(t: Tree, p: Path): (r: Tree)
    ensures forall q :: q in r <==> q in t && !AtOrBelow(p, q)
    ensures forall q :: q in r ==> r[q] == t[q]
  {
    map q | q in t && !AtOrBelow(p, q) :: t[q]
  }

  /**
   * `p.mkdir(parents=True, exist_ok=True)`: every missing ancestor and `p`
   * itself become directories; a non-directory on the way makes it raise.
   */
  function MakeDirs(t: Tree, p: Path): (r: Option<Tree>)
    ensures r.Some? ==> forall k :: 1 <= k <= |p| ==> IsDirAt(r.value, p[..k])
    ensures r.Some? ==> forall q :: q in t ==> q in r.value && r.value[q] == t[q]
    ensures r.Some? ==> forall q :: q in r.value && q !in t ==> AtOrBelow(q, p) && r.value[q].Dir?
    decreases |p|
  {
    if p == [] then Some(t)
    else
      var up := MakeDirs(t, Parent(p));
      assert forall k :: 1 <= k < |p| ==> p[..k] == Parent(p)[..k];
      assert p[..|p|] == p;
      if up.None? then None
      else if p in up.value then (if up.value[p].Dir? then up else None)
      else
        Some(up.value[p := Dir])
  }

  /** Where `shutil.move(a, b)` puts the node at `q` below `a`. */
  function Rebase(a: Path, b: Path, q: Path): Path
    requires AtOrBelow(a, q)
  {
    b + q[|a|..]
  }

  lemma RebaseInjective(a: Path, b: Path, q1: Path, q2: Path)
    requires AtOrBelow(a, q1) && AtOrBelow(a, q2) && Rebase(a, b, q1) == Rebase(a, b, q2)
    ensures q1 == q2
  {
    assert q1[|a|..] == Rebase(a, b, q1)[|b|..];
    assert q2[|a|..] == Rebase(a, b, q2)[|b|..];
    assert q1 == a + q1[|a|..] && q2 == a + q2[|a|..];
  }

  /**
   * `shutil.move(a, b)` where `b` does not exist, its parent does, and `b`
   * is not inside `a`: the subtree at `a` is renamed to `b`.
   */
  function Move(t: Tree, a: Path, b: Path): (r: Tree)
    requires forall q :: q in t ==> !AtOrBelow(b, q)
    ensures forall q :: q in t && AtOrBelow(a, q) ==> Rebase(a, b, q) in r && r[Rebase(a, b, q)] == t[q]
    ensures forall q :: q in t && !AtOrBelow(a, q) ==> q in r && r[q] == t[q]
    ensures forall q :: q in r ==>
      || (q in t && !AtOrBelow(a, q) && r[q] == t[q])
      || (AtOrBelow(b, q) && a + q[|b|..] in t && r[q] == t[a + q[|b|..]])
  {
    var kept := map q | q in t && !AtOrBelow(a, q) :: t[q];
    forall q1, q2 | AtOrBelow(a, q1) && AtOrBelow(a, q2) && Rebase(a, b, q1) == Rebase(a, b, q2)
      ensures q1 == q2
    {
      RebaseInjective(a, b, q1, q2);
    }
    var moved := map q | q in t && AtOrBelow(a, q) :: Rebase(a, b, q) := t[q];
    assert forall q :: q in moved ==> AtOrBelow(b, q) && a + q[|b|..] in t && moved[q] == t[a + q[|b|..]] by {
      forall q | q in moved ensures AtOrBelow(b, q) && a + q[|b|..] in t && moved[q] == t[a + q[|b|..]] {
        var q0 :| q0 in t && AtOrBelow(a, q0) && q == Rebase(a, b, q0);
        assert q[|b|..] == q0[|a|..];
        assert a + q[|b|..] == q0;
      }
    }
    kept + moved
  }

  // ---------------------------------------------------------------------
  // Pruning empty directories (_cleanup_empty_dirs)
  // ---------------------------------------------------------------------

  /** Nothing but directories at or below `p`. */
  predicate NoFileBelow(t: Tree, p: Path)
  {
    forall q :: q in t && AtOrBelow(p, q) ==> t[q].Dir?
  }

  /** Every directory strictly below `start` that holds no file, however deep, is gone. */
  function Pruned(t: Tree, start: Path): (r: Tree)
    ensures forall q :: q in r <==> q in t && !(Below(start, q) && t[q].Dir? && NoFileBelow(t, q))
    ensures forall q :: q in r ==> r[q] == t[q]
  {
    map q | q in t && !(Below(start, q) && t[q].Dir? && NoFileBelow(t, q)) :: t[q]
  }

  /** `p` has no entry in `t`. */
  predicate IsEmptyDir(t: Tree, p: Path)
  {
    forall q :: q in t && |q| == |p| + 1 ==> q[..|p|] != p
  }

  /** A deepest path of a non-empty finite set. */
  lemma {:induction false} Deepest(s: set<Path>) returns (p: Path)
    requires s != {}
    ensures p in s && forall q :: q in s ==> |q| <= |p|
    decreases |s|
  {
    var x :| x in s;
    if s == {x} {
      p := x;
    } else {
      var y := Deepest(s - {x});
      p := if |x| > |y| then x else y;
    }
  }

  /**
   * A directory, all of whose sub-directories have already been decided, is
   * empty after their removal exactly when it holds no file at any depth.
   */
  lemma EmptyIffNoFile(t: Tree, cur: Tree, start: Path, p: Path)
    requires Valid(t) && p in t && t[p].Dir? && Below(start, p)
    requires forall q :: q in cur ==> q in t
    requires forall c :: c in t && |c| == |p| + 1 && c[..|p|] == p ==>
      (c in cur <==> !(t[c].Dir? && NoFileBelow(t, c)))
    ensures IsEmptyDir(cur, p) <==> NoFileBelow(t, p)
  {
    if IsEmptyDir(cur, p) {
      forall q | q in t && AtOrBelow(p, q) ensures t[q].Dir? {
        if q != p {
          var c := q[..|p| + 1];
          AncestorOrSelf(t, q, |p| + 1);
          assert c[..|p|] == p;
          assert c !in cur;
          assert AtOrBelow(c, q);
        }
      }
    }
    if NoFileBelow(t, p) {
      forall q | q in t && |q| == |p| + 1 && q[..|p|] == p ensures q !in cur {
        NoFileBelowInner(t, p, q);
      }
    }
  }

  /** The ancestor of `q` at depth `k`, or `q` itself, is in the tree. */
  lemma AncestorOrSelf(t: Tree, q: Path, k: nat)
    requires Valid(t) && q in t && 1 <= k <= |q|
    ensures q[..k] in t
  {
    if k < |q| {
      AncestorIsDir(t, q, k);
    } else {
      assert q[..k] == q;
    }
  }

  /**
   * `_cleanup_empty_dirs(start)`: a bottom-up walk (deepest first) that
   * removes each directory below `start` found empty at its turn.
   */
  method PruneEmpty(t: Tree, start: Path) returns (t': Tree)
    requires Valid(t)
    ensures t' == Pruned(t, start)
  {
    t' := t;
    var todo := set q | q in t && Below(start, q) && t[q].Dir?;
    ghost var all := todo;
    while todo != {}
      invariant PruneInv(t, t', all, todo)
      decreases |todo|
    {
      ghost var deepest := Deepest(todo);
      var p :| p in todo && forall q :: q in todo ==> |q| <= |p|;
      PruneStep(t, start, t', all, todo, p);
      if IsEmptyDir(t', p) {
        t' := map q | q in t' && q != p :: t'[q];
      }
      todo := todo - {p};
    }
    PruneDone(t, start, t', all);
  }

  /** The directories below `start`: the ones the walk visits. */
  function DirsBelow(t: Tree, start: Path): set<Path>
  {
    set q | q in t && Below(start, q) && t[q].Dir?
  }

  /**
   * What the walk keeps while `todo` is left of the directories `all`: it
   * only removes, each directory done is kept exactly when it holds a file,
   * and no directory left is deeper than one done.
   */
  ghost predicate PruneInv(t: Tree, cur: Tree, all: set<Path>, todo: set<Path>)
  {
    && todo <= all
    && (forall q :: q in cur ==> q in t && cur[q] == t[q])
    && (forall q :: q in t && q !in all ==> q in cur)
    && (forall q :: q in todo ==> q in cur)
    && (forall q :: q in all && q !in todo ==> (q in cur <==> !NoFileBelow(t, q)))
    && (forall q, r :: q in todo && r in all && r !in todo ==> |q| <= |r|)
  }

  /** One turn of the walk, at a deepest directory `p` left. */
  lemma PruneStep(t: Tree, start: Path, cur: Tree, all: set<Path>, todo: set<Path>, p: Path)
    requires Valid(t) && all == DirsBelow(t, start) && PruneInv(t, cur, all, todo)
    requires p in todo && forall q :: q in todo ==> |q| <= |p|
    ensures PruneInv(t, if IsEmptyDir(cur, p) then map q | q in cur && q != p :: cur[q] else cur, all, todo - {p})
  {
    PruneDecides(t, start, cur, all, todo, p);
    if IsEmptyDir(cur, p) {
      PruneRemoves(t, cur, all, todo, p);
    } else {
      PruneKeeps(t, cur, all, todo, p);
    }
  }

  /** At its turn, `p` is empty exactly when it holds no file at any depth. */
  lemma PruneDecides(t: Tree, start: Path, cur: Tree, all: set<Path>, todo: set<Path>, p: Path)
    requires Valid(t) && all == DirsBelow(t, start) && PruneInv(t, cur, all, todo)
    requires p in todo && forall q :: q in todo ==> |q| <= |p|
    ensures IsEmptyDir(cur, p) <==> NoFileBelow(t, p)
  {
    forall c | c in t && |c| == |p| + 1 && c[..|p|] == p
      ensures c in cur <==> !(t[c].Dir? && NoFileBelow(t, c))
    {
      if t[c].Dir? {
        assert Below(start, c);
        assert c in all && c !in todo;
      }
    }
    EmptyIffNoFile(t, cur, start, p);
  }

  lemma PruneRemoves(t: Tree, cur: Tree, all: set<Path>, todo: set<Path>, p: Path)
    requires PruneInv(t, cur, all, todo) && NoFileBelow(t, p)
    requires p in todo && forall q :: q in todo ==> |q| <= |p|
    ensures PruneInv(t, map q | q in cur && q != p :: cur[q], all, todo - {p})
  {
  }

  lemma PruneKeeps(t: Tree, cur: Tree, all: set<Path>, todo: set<Path>, p: Path)
    requires PruneInv(t, cur, all, todo) && !NoFileBelow(t, p)
    requires p in todo && forall q :: q in todo ==> |q| <= |p|
    ensures PruneInv(t, cur, all, todo - {p})
  {
  }

  /** When nothing is left, the walk has removed exactly what `Pruned` removes. */
  lemma PruneDone(t: Tree, start: Path, cur: Tree, all: set<Path>)
    requires all == DirsBelow(t, start) && PruneInv(t, cur, all, {})
    ensures cur == Pruned(t, start)
  {
    assert forall q :: q in t ==> (q in cur <==> !(Below(start, q) && t[q].Dir? && NoFileBelow(t, q)));
  }

  /** After pruning, no directory strictly below `start` is empty. */
  lemma PrunedLeavesNoEmptyDir(t: Tree, start: Path, p: Path)
    requires Valid(t)
    requires p in Pruned(t, start) && Below(start, p) && t[p].Dir?
    ensures !IsEmptyDir(Pruned(t, start), p)
  {
    var q :| q in t && AtOrBelow(p, q) && !t[q].Dir?;
    assert q != p;
    var c := q[..|p| + 1];
    AncestorOrSelf(t, q, |p| + 1);
    assert c[..|p|] == p && AtOrBelow(c, q);
    assert !NoFileBelow(t, c);
  }

  /** Pruning keeps every file and everything outside `start`. */
  lemma PrunedKeepsFiles(t: Tree, start: Path, q: Path)
    requires q in t && (!t[q].Dir? || !Below(start, q))
    ensures q in Pruned(t, start) && Pruned(t, start)[q] == t[q]
  {
    assert !NoFileBelow(t, q) || !Below(start, q) by {
      if !t[q].Dir? {
        assert AtOrBelow(q, q);
      }
    }
  }

  // ---------------------------------------------------------------------
  // Shape preservation
  // ---------------------------------------------------------------------

  lemma ParentAtOrBelow(p: Path, q: Path)
    requires |q| > 0 && AtOrBelow(p, Parent(q))
    ensures AtOrBelow(p, q)
  {
    assert q[..|p|] == Parent(q)[..|p|];
  }

  lemma RemoveTreeValid(t: Tree, p: Path)
    requires Valid(t)
    ensures Valid(RemoveTree(t, p))
  {
    forall q | q in RemoveTree(t, p) && |q| > 1 ensures Parent(q) in RemoveTree(t, p) {
      if AtOrBelow(p, Parent(q)) {
        ParentAtOrBelow(p, q);
      }
    }
  }

  lemma {:induction false} MakeDirsValid(t: Tree, p: Path)
    requires Valid(t) && MakeDirs(t, p).Some?
    ensures Valid(MakeDirs(t, p).value)
    decreases |p|
  {
    if p != [] {
      MakeDirsValid(t, Parent(p));
      if |p| > 1 {
        var up := Parent(p);
        assert up[..|up|] == up;
      }
    }
  }

  /** With `b` fresh, its parent a directory and `b` outside `a`, the moved tree keeps its shape. */
  lemma MoveValid(t: Tree, a: Path, b: Path)
    requires Valid(t) && |a| >= 1 && |b| >= 1
    requires |b| > 1 ==> IsDirAt(t, Parent(b))
    requires forall q :: q in t ==> !AtOrBelow(b, q)
    requires !AtOrBelow(a, b)
    ensures Valid(Move(t, a, b))
  {
    forall q | q in Move(t, a, b) && |q| > 1 ensures Parent(q) in Move(t, a, b) && Move(t, a, b)[Parent(q)].Dir? {
      if AtOrBelow(b, q) {
        MoveValidMoved(t, a, b, q);
      } else {
        MoveValidKept(t, a, b, q);
      }
    }
  }

  lemma MoveValidMoved(t: Tree, a: Path, b: Path, q: Path)
    requires Valid(t) && |a| >= 1 && |b| >= 1
    requires |b| > 1 ==> IsDirAt(t, Parent(b))
    requires forall q :: q in t ==> !AtOrBelow(b, q)
    requires !AtOrBelow(a, b)
    requires q in Move(t, a, b) && |q| > 1 && AtOrBelow(b, q)
    ensures Parent(q) in Move(t, a, b) && Move(t, a, b)[Parent(q)].Dir?
  {
    if q == b {
      if AtOrBelow(a, Parent(b)) {
        ParentAtOrBelow(a, b);
      }
    } else {
      MoveValidInner(t, a, b, q);
    }
  }

  lemma MoveValidInner(t: Tree, a: Path, b: Path, q: Path)
    requires Valid(t) && |a| >= 1
    requires forall q :: q in t ==> !AtOrBelow(b, q)
    requires q in Move(t, a, b) && Below(b, q)
    ensures Parent(q) in Move(t, a, b) && Move(t, a, b)[Parent(q)].Dir?
  {
    var q0 := a + q[|b|..];
    var p0 := a + Parent(q)[|b|..];
    assert q0 in t;
    ParentRebased(a, b, q);
    assert p0 in t && t[p0].Dir?;
  }

  /** The parent of a node moved from `a` to `b` is the moved parent. */
  lemma ParentRebased(a: Path, b: Path, q: Path)
    requires |a| >= 1 && Below(b, q)
    ensures |a + q[|b|..]| > 1
    ensures Parent(a + q[|b|..]) == a + Parent(q)[|b|..]
    ensures AtOrBelow(a, a + Parent(q)[|b|..])
    ensures Parent(q) == Rebase(a, b, a + Parent(q)[|b|..])
  {
    var pq := Parent(q);
    assert pq[|b|..] == q[|b|..|q| - 1];
    assert (a + pq[|b|..])[|a|..] == pq[|b|..];
    assert pq == b + pq[|b|..] by {
      assert pq[..|b|] == q[..|b|];
    }
  }

  lemma MoveValidKept(t: Tree, a: Path, b: Path, q: Path)
    requires Valid(t) && forall q :: q in t ==> !AtOrBelow(b, q)
    requires q in Move(t, a, b) && |q| > 1 && !AtOrBelow(b, q)
    ensures Parent(q) in Move(t, a, b) && Move(t, a, b)[Parent(q)].Dir?
  {
    var pq := Parent(q);
    assert q in t && !AtOrBelow(a, q);
    if AtOrBelow(a, pq) {
      ParentAtOrBelow(a, q);
    }
  }

  /** A node below a file-free directory is itself a file-free directory. */
  lemma NoFileBelowInner(t: Tree, p: Path, q: Path)
    requires NoFileBelow(t, p) && q in t && AtOrBelow(p, q)
    ensures t[q].Dir? && NoFileBelow(t, q)
  {
    forall f | f in t && AtOrBelow(q, f) ensures t[f].Dir? {
      assert f[..|p|] == q[..|p|];
    }
  }

  lemma PrunedValid(t: Tree, start: Path)
    requires Valid(t)
    ensures Valid(Pruned(t, start))
  {
    var r := Pruned(t, start);
    forall q | q in r && |q| > 1 ensures Parent(q) in r {
      PrunedParent(t, start, q);
    }
  }

  lemma PrunedParent(t: Tree, start: Path, q: Path)
    requires Valid(t) && q in t && |q| > 1
    requires !(Below(start, q) && t[q].Dir? && NoFileBelow(t, q))
    ensures !(Below(start, Parent(q)) && t[Parent(q)].Dir? && NoFileBelow(t, Parent(q)))
  {
    var pq := Parent(q);
    if Below(start, pq) && t[pq].Dir? && NoFileBelow(t, pq) {
      ParentAtOrBelow(pq, q);
      NoFileBelowInner(t, pq, q);
      assert false;
    }
  }

  lemma AbsentHasNothingBelow(t: Tree, p: Path)
    requires Valid(t) && |p| >= 1 && p !in t
    ensures forall q :: q in t ==> !AtOrBelow(p, q)
  {
    forall q | q in t && AtOrBelow(p, q) ensures false {
      assert q != p;
      AncestorIsDir(t, q, |p|);
    }
  }

  /** `mkdir(parents=True, exist_ok=True)` of a path whose every prefix is a directory changes nothing. */
  lemma {:induction false} MakeDirsExisting(t: Tree, p: Path)
    requires forall k :: 1 <= k <= |p| ==> IsDirAt(t, p[..k])
    ensures MakeDirs(t, p) == Some(t)
    decreases |p|
  {
    if p != [] {
      assert forall k :: 1 <= k <= |Parent(p)| ==> Parent(p)[..k] == p[..k];
      MakeDirsExisting(t, Parent(p));
      assert p[..|p|] == p;
    }
  }

  // ---------------------------------------------------------------------
  // Moving one package directory (_rename_package_directories)
  // ---------------------------------------------------------------------

  /** The tree after one source directory, and whether the move was counted. */
  datatype Outcome = Outcome(tree: Tree, moved: bool)

  /**
   * One source directory `src` as the source handles it: when
   * `src/old` is a directory, create the parent of `src/new`, delete an
   * existing `src/new`, move `src/old` there and prune the empty
   * directories below `src`. Whatever raises ends the attempt, with the
   * changes made up to that point kept and nothing counted.
   */
  function RenameStep(t: Tree, src: Path, oldSeg: seq<string>, newSeg: seq<string>): (r: Outcome)
    requires Valid(t) && src != []
    ensures Valid(r.tree)
  {
    var oldDir := src + oldSeg;
    var newDir := src + newSeg;
    if !IsDirAt(t, oldDir) then Outcome(t, false)
    else
      match MakeDirs(t, Parent(newDir))
      case None => Outcome(t, false)
      case Some(t1) =>
        MakeDirsValid(t, Parent(newDir));
        if newDir in t1 && !t1[newDir].Dir? then
          // rmtree of a file raises
          Outcome(t1, false)
        else
          var t2 := if newDir in t1 then RemoveTree(t1, newDir) else t1;
          if oldDir !in t2 || AtOrBelow(oldDir, newDir) then
            // the source is gone, or the target lies inside it: `shutil.move` raises
            (if newDir in t1 then RemoveTreeValid(t1, newDir); Outcome(t2, false) else Outcome(t2, false))
          else
            MoveStepValid(t, src, oldSeg, newSeg, t1);
            PrunedValid(Move(t2, oldDir, newDir), src);
            Outcome(Pruned(Move(t2, oldDir, newDir), src), true)
  }

  /** One package directory path lies at or below the other. */
  predicate Nested(a: Path, b: Path)
  {
    AtOrBelow(a, b) || AtOrBelow(b, a)
  }

  /**
   * The corrected step, with the guard the source lacks: when the old and
   * the new package directories are the same or one holds the other,
   * nothing is deleted or moved.
   */
  function GuardedStep(t: Tree, src: Path, oldSeg: seq<string>, newSeg: seq<string>): (r: Outcome)
    requires Valid(t) && src != []
    ensures Valid(r.tree)
  {
    if Nested(src + oldSeg, src + newSeg) then Outcome(t, false)
    else RenameStep(t, src, oldSeg, newSeg)
  }

  /** The intermediate trees of a successful move keep their shape. */
  lemma MoveStepValid(t: Tree, src: Path, oldSeg: seq<string>, newSeg: seq<string>, t1: Tree)
    requires Valid(t) && src != []
    requires MakeDirs(t, Parent(src + newSeg)) == Some(t1)
    requires !(src + newSeg in t1 && !t1[src + newSeg].Dir?)
    requires !AtOrBelow(src + oldSeg, src + newSeg)
    ensures var t2 := if src + newSeg in t1 then RemoveTree(t1, src + newSeg) else t1;
      && Valid(t2)
      && (forall q :: q in t2 ==> !AtOrBelow(src + newSeg, q))
      && Valid(Move(t2, src + oldSeg, src + newSeg))
  {
    var newDir := src + newSeg;
    MakeDirsValid(t, Parent(newDir));
    var t2 := if newDir in t1 then RemoveTree(t1, newDir) else t1;
    if newDir in t1 {
      RemoveTreeValid(t1, newDir);
    } else {
      AbsentHasNothingBelow(t1, newDir);
    }
    if |newDir| > 1 {
      var up := Parent(newDir);
      assert up[..|up|] == up;
      assert IsDirAt(t1, up);
      if AtOrBelow(newDir, up) {
        assert false;
      }
    }
    MoveValid(t2, src + oldSeg, newDir);
  }

  /** `_rename_package_directories` for one source directory, pruning with the bottom-up walk. */
  method RenameOne(t: Tree, src: Path, oldSeg: seq<string>, newSeg: seq<string>) returns (t': Tree, moved: bool)
    requires Valid(t) && src != []
    ensures Outcome(t', moved) == RenameStep(t, src, oldSeg, newSeg)
    ensures Valid(t')
  {
    var oldDir := src + oldSeg;
    var newDir := src + newSeg;
    t', moved := t, false;
    if !IsDirAt(t, oldDir) {
      return;
    }
    var made := MakeDirs(t, Parent(newDir));
    if made.None? {
      return;
    }
    t' := made.value;
    if newDir in t' {
      if !t'[newDir].Dir? {
        return;
      }
      t' := RemoveTree(t', newDir);
    }
    if oldDir !in t' || AtOrBelow(oldDir, newDir) {
      return;
    }
    MoveStepValid(t, src, oldSeg, newSeg, made.value);
    t' := Move(t', oldDir, newDir);
    moved := true;
    t' := PruneEmpty(t', src);
  }

  // ---------------------------------------------------------------------
  // What one step does
  // ---------------------------------------------------------------------

  /**
   * As written, when the old and new package directories are nested and
   * both exist (the same package, or one holding the other),
   * `shutil.rmtree` of the new one deletes the old one's content before
   * `shutil.move` raises: nothing is moved and nothing at or below the new
   * path is left.
   */
  lemma AsWrittenNestedLosesSources(t: Tree, src: Path, oldSeg: seq<string>, newSeg: seq<string>)
    requires Valid(t) && src != []
    requires IsDirAt(t, src + oldSeg) && IsDirAt(t, src + newSeg) && Nested(src + oldSeg, src + newSeg)
    ensures !RenameStep(t, src, oldSeg, newSeg).moved
    ensures forall q :: q in RenameStep(t, src, oldSeg, newSeg).tree ==> !AtOrBelow(src + newSeg, q)
  {
    var newDir := src + newSeg;
    var up := Parent(newDir);
    forall k | 1 <= k <= |up| ensures IsDirAt(t, up[..k]) {
      assert up[..k] == newDir[..k];
      AncestorIsDir(t, newDir, k);
    }
    MakeDirsExisting(t, up);
  }

  /** Two paths above a common node are nested. */
  lemma CommonDescendant(a: Path, b: Path, q: Path)
    requires AtOrBelow(a, q) && AtOrBelow(b, q)
    ensures Nested(a, b)
  {
    if |a| <= |b| {
      assert b[..|a|] == q[..|a|];
    } else {
      assert a[..|b|] == q[..|b|];
    }
  }

  /** The guarded step loses no file below the old package directory: each is moved, or stays where it was. */
  lemma GuardedStepKeepsSources(t: Tree, src: Path, oldSeg: seq<string>, newSeg: seq<string>, q: Path)
    requires Valid(t) && src != []
    requires q in t && AtOrBelow(src + oldSeg, q) && !t[q].Dir?
    ensures var r := GuardedStep(t, src, oldSeg, newSeg);
      if r.moved then Rebase(src + oldSeg, src + newSeg, q) in r.tree && r.tree[Rebase(src + oldSeg, src + newSeg, q)] == t[q]
      else q in r.tree && r.tree[q] == t[q]
  {
    var oldDir := src + oldSeg;
    var newDir := src + newSeg;
    if GuardedStep(t, src, oldSeg, newSeg).moved {
      var t1 := MakeDirs(t, Parent(newDir)).value;
      var t2 := if newDir in t1 then RemoveTree(t1, newDir) else t1;
      MoveStepValid(t, src, oldSeg, newSeg, t1);
      if AtOrBelow(newDir, q) {
        CommonDescendant(oldDir, newDir, q);
      }
      assert q in t2 && t2[q] == t[q];
      var m := Move(t2, oldDir, newDir);
      assert GuardedStep(t, src, oldSeg, newSeg).tree == Pruned(m, src);
      PrunedKeepsFiles(m, src, Rebase(oldDir, newDir, q));
    }
  }

  /**
   * A step counts a move exactly when the directory exists, the paths are
   * apart and nothing on the way raises. Nested paths never move: either
   * the target lies inside the source, or `rmtree` of the target has
   * already deleted the source.
   */
  lemma RenameStepMovedIff(t: Tree, src: Path, oldSeg: seq<string>, newSeg: seq<string>)
    requires Valid(t) && src != []
    ensures RenameStep(t, src, oldSeg, newSeg).moved <==>
      && IsDirAt(t, src + oldSeg)
      && !Nested(src + oldSeg, src + newSeg)
      && MakeDirs(t, Parent(src + newSeg)).Some?
      && !(src + newSeg in t && !t[src + newSeg].Dir?)
  {
    var oldDir := src + oldSeg;
    var newDir := src + newSeg;
    if IsDirAt(t, oldDir) && MakeDirs(t, Parent(newDir)).Some? {
      var t1 := MakeDirs(t, Parent(newDir)).value;
      assert newDir in t1 <==> newDir in t;
      if AtOrBelow(newDir, oldDir) && !AtOrBelow(oldDir, newDir) {
        assert |newDir| < |oldDir| && newDir == oldDir[..|newDir|];
        AncestorIsDir(t, oldDir, |newDir|);
        assert newDir in t1 && t1[newDir].Dir?;
        assert oldDir !in RemoveTree(t1, newDir);
      }
    }
  }

  /**
   * After a counted move: the old directory is gone, every node at or below
   * the new one came from the old one and every file below the old one
   * arrived there, every file elsewhere is untouched, and no directory
   * below `src` is left empty.
   */
  lemma RenameStepEffect(t: Tree, src: Path, oldSeg: seq<string>, newSeg: seq<string>)
    requires Valid(t) && src != []
    requires RenameStep(t, src, oldSeg, newSeg).moved
    ensures var r := RenameStep(t, src, oldSeg, newSeg).tree;
      && src + oldSeg !in r
      && (forall q :: q in r && AtOrBelow(src + newSeg, q) ==>
            src + oldSeg + q[|src + newSeg|..] in t && r[q] == t[src + oldSeg + q[|src + newSeg|..]])
      && (forall q :: q in t && !t[q].Dir? && !AtOrBelow(src + oldSeg, q) && !AtOrBelow(src + newSeg, q) ==>
            q in r && r[q] == t[q])
      && (forall p :: p in r && Below(src, p) && r[p].Dir? ==> !IsEmptyDir(r, p))
      && (forall q :: q in t && AtOrBelow(src + oldSeg, q) && !t[q].Dir? ==>
            Rebase(src + oldSeg, src + newSeg, q) in r && r[Rebase(src + oldSeg, src + newSeg, q)] == t[q])
  {
    var oldDir := src + oldSeg;
    var newDir := src + newSeg;
    var t1, t2 := MovedTree(t, src, oldSeg, newSeg);
    EffectFromOld(t, t1, t2, oldDir, newDir, src);
    EffectElsewhere(t, t1, t2, oldDir, newDir, src);
    EffectNoEmpty(t2, oldDir, newDir, src);
    MovedFilesArrive(t, src, oldSeg, newSeg);
  }

  /** After a counted move every file that stood below the old directory stands at its rebased path. */
  lemma MovedFilesArrive(t: Tree, src: Path, oldSeg: seq<string>, newSeg: seq<string>)
    requires Valid(t) && src != []
    requires RenameStep(t, src, oldSeg, newSeg).moved
    ensures var r := RenameStep(t, src, oldSeg, newSeg).tree;
      forall q :: q in t && AtOrBelow(src + oldSeg, q) && !t[q].Dir? ==>
        Rebase(src + oldSeg, src + newSeg, q) in r && r[Rebase(src + oldSeg, src + newSeg, q)] == t[q]
  {
    RenameStepMovedIff(t, src, oldSeg, newSeg);
    assert GuardedStep(t, src, oldSeg, newSeg) == RenameStep(t, src, oldSeg, newSeg);
    forall q | q in t && AtOrBelow(src + oldSeg, q) && !t[q].Dir?
      ensures var r := RenameStep(t, src, oldSeg, newSeg).tree;
        Rebase(src + oldSeg, src + newSeg, q) in r && r[Rebase(src + oldSeg, src + newSeg, q)] == t[q]
    {
      GuardedStepKeepsSources(t, src, oldSeg, newSeg, q);
    }
  }

  /** A counted move: the paths are apart, and the tree is the pruned move over the trees made on the way. */
  lemma MovedTree(t: Tree, src: Path, oldSeg: seq<string>, newSeg: seq<string>) returns (t1: Tree, t2: Tree)
    requires Valid(t) && src != []
    requires RenameStep(t, src, oldSeg, newSeg).moved
    ensures |src + newSeg| >= 1 && !Nested(src + oldSeg, src + newSeg)
    ensures forall q :: q in t1 && q !in t ==> AtOrBelow(q, Parent(src + newSeg))
    ensures forall q :: q in t ==> q in t1 && t1[q] == t[q]
    ensures forall q :: q in t2 <==> q in t1 && !AtOrBelow(src + newSeg, q)
    ensures forall q :: q in t2 ==> t2[q] == t1[q]
    ensures Valid(Move(t2, src + oldSeg, src + newSeg))
    ensures RenameStep(t, src, oldSeg, newSeg).tree == Pruned(Move(t2, src + oldSeg, src + newSeg), src)
  {
    var oldDir := src + oldSeg;
    var newDir := src + newSeg;
    RenameStepMovedIff(t, src, oldSeg, newSeg);
    t1 := MakeDirs(t, Parent(newDir)).value;
    MoveStepValid(t, src, oldSeg, newSeg, t1);
    if newDir in t1 {
      t2 := RemoveTree(t1, newDir);
    } else {
      t2 := t1;
      AbsentHasNothingBelow(t1, newDir) by {
        MakeDirsValid(t, Parent(newDir));
      }
    }
    assert oldDir in t2 && !AtOrBelow(oldDir, newDir);
  }

  lemma EffectFromOld(t: Tree, t1: Tree, t2: Tree, oldDir: Path, newDir: Path, src: Path)
    requires |newDir| >= 1 && !Nested(oldDir, newDir)
    requires forall q :: q in t1 && q !in t ==> AtOrBelow(q, Parent(newDir))
    requires forall q :: q in t2 ==> q in t1 && t2[q] == t1[q] && !AtOrBelow(newDir, q)
    requires forall q :: q in t ==> q in t1 && t1[q] == t[q]
    ensures var r := Pruned(Move(t2, oldDir, newDir), src);
      && oldDir !in r
      && forall q :: q in r && AtOrBelow(newDir, q) ==>
           oldDir + q[|newDir|..] in t && r[q] == t[oldDir + q[|newDir|..]]
  {
    var m := Move(t2, oldDir, newDir);
    var r := Pruned(m, src);
    forall q | q in r && AtOrBelow(newDir, q)
      ensures oldDir + q[|newDir|..] in t && r[q] == t[oldDir + q[|newDir|..]]
    {
      var q0 := oldDir + q[|newDir|..];
      assert q0 in t2 && m[q] == t2[q0];
      FromOldWasThere(t, t1, oldDir, newDir, q0);
    }
  }

  /** A node at or below the old directory is no directory the creation of the new one's parent added. */
  lemma FromOldWasThere(t: Tree, t1: Tree, oldDir: Path, newDir: Path, q0: Path)
    requires |newDir| >= 1 && !Nested(oldDir, newDir)
    requires forall q :: q in t1 && q !in t ==> AtOrBelow(q, Parent(newDir))
    requires forall q :: q in t ==> q in t1 && t1[q] == t[q]
    requires q0 in t1 && AtOrBelow(oldDir, q0)
    ensures q0 in t && t1[q0] == t[q0]
  {
  }

  lemma EffectElsewhere(t: Tree, t1: Tree, t2: Tree, oldDir: Path, newDir: Path, src: Path)
    requires forall q :: q in t ==> q in t1 && t1[q] == t[q]
    requires forall q :: q in t2 ==> !AtOrBelow(newDir, q)
    requires forall q :: q in t1 && !AtOrBelow(newDir, q) ==> q in t2 && t2[q] == t1[q]
    ensures var r := Pruned(Move(t2, oldDir, newDir), src);
      forall q :: q in t && !t[q].Dir? && !AtOrBelow(oldDir, q) && !AtOrBelow(newDir, q) ==>
        q in r && r[q] == t[q]
  {
    var m := Move(t2, oldDir, newDir);
    forall q | q in t && !t[q].Dir? && !AtOrBelow(oldDir, q) && !AtOrBelow(newDir, q)
      ensures q in Pruned(m, src) && Pruned(m, src)[q] == t[q]
    {
      PrunedKeepsFiles(m, src, q);
    }
  }

  lemma EffectNoEmpty(t2: Tree, oldDir: Path, newDir: Path, src: Path)
    requires forall q :: q in t2 ==> !AtOrBelow(newDir, q)
    requires Valid(Move(t2, oldDir, newDir))
    ensures var r := Pruned(Move(t2, oldDir, newDir), src);
      forall p :: p in r && Below(src, p) && r[p].Dir? ==> !IsEmptyDir(r, p)
  {
    var m := Move(t2, oldDir, newDir);
    forall p | p in Pruned(m, src) && Below(src, p) && Pruned(m, src)[p].Dir? ensures !IsEmptyDir(Pruned(m, src), p) {
      PrunedLeavesNoEmptyDir(m, src, p);
    }
  }

  // ---------------------------------------------------------------------
  // The walk over all source directories
  // ---------------------------------------------------------------------

  /** A child of a `src/main` directory: `java`, `kotlin` and the like. */
  predicate IsSourceDir(p: Path)
  {
    |p| >= 3 && p[|p| - 3] == "src" && p[|p| - 2] == "main"
  }

  /**
   * `srcs` is the walk's listing of the source directories, taken before the
   * walk starts changing the tree: each source directory of `t` once.
   */
  predicate SourceListing(t: Tree, srcs: seq<Path>)
  {
    && (forall k :: 0 <= k < |srcs| ==> IsSourceDir(srcs[k]))
    && (forall j, k :: 0 <= j < k < |srcs| ==> srcs[j] != srcs[k])
    && (forall p :: p in t && t[p].Dir? && IsSourceDir(p) ==> p in srcs)
  }

  /** The steps over `srcs` in order, each on a listed path that is still a directory; with the number of moves. */
  function RenameAll(t: Tree, srcs: seq<Path>, oldSeg: seq<string>, newSeg: seq<string>): (r: (Tree, nat))
    requires Valid(t) && forall k :: 0 <= k < |srcs| ==> srcs[k] != []
    ensures Valid(r.0) && r.1 <= |srcs|
    decreases |srcs|
  {
    if srcs == [] then (t, 0)
    else
      var prev := RenameAll(t, srcs[..|srcs| - 1], oldSeg, newSeg);
      Visit(prev.0, prev.1, srcs[|srcs| - 1], oldSeg, newSeg)
  }

  /** One listed source directory: skipped unless it is still a directory. */
  function Visit(t: Tree, count: nat, src: Path, oldSeg: seq<string>, newSeg: seq<string>): (r: (Tree, nat))
    requires Valid(t) && src != []
    ensures Valid(r.0) && count <= r.1 <= count + 1
  {
    if !IsDirAt(t, src) then (t, count)
    else
      var o := RenameStep(t, src, oldSeg, newSeg);
      (o.tree, count + if o.moved then 1 else 0)
  }

  /**
   * As written, renaming a package to itself deletes every package
   * directory the listed source directories held, with all its files,
   * counts no move, and adds or changes nothing: each `rmtree` of the new
   * directory removes the old one before `shutil.move` raises.
   */
  lemma {:induction false} RenameAllSamePackage(t: Tree, srcs: seq<Path>, seg: seq<string>)
    requires Valid(t) && forall k :: 0 <= k < |srcs| ==> srcs[k] != []
    ensures var r := RenameAll(t, srcs, seg, seg);
      && r.1 == 0
      && (forall q :: q in r.0 ==> q in t && r.0[q] == t[q])
      && (forall k, q :: 0 <= k < |srcs| && IsDirAt(t, srcs[k] + seg) && q in r.0 ==> !AtOrBelow(srcs[k] + seg, q))
    decreases |srcs|
  {
    if srcs != [] {
      var init := srcs[..|srcs| - 1];
      RenameAllSamePackage(t, init, seg);
      var prev := RenameAll(t, init, seg, seg);
      var src := srcs[|srcs| - 1];
      SameVisitDeletes(prev.0, src, seg);
      var r := RenameAll(t, srcs, seg, seg);
      assert r == Visit(prev.0, 0, src, seg, seg);
      forall k, q | 0 <= k < |srcs| && IsDirAt(t, srcs[k] + seg) && q in r.0
        ensures !AtOrBelow(srcs[k] + seg, q)
      {
        if k < |srcs| - 1 {
          assert srcs[k] == init[k];
        } else if src + seg !in prev.0 {
          AbsentHasNothingBelow(prev.0, src + seg);
        }
      }
    }
  }

  /** One visit of a rename to the same package only deletes, and deletes the package directory when it is one. */
  lemma SameVisitDeletes(t: Tree, src: Path, seg: seq<string>)
    requires Valid(t) && src != []
    ensures var r := Visit(t, 0, src, seg, seg);
      && r.1 == 0
      && (forall q :: q in r.0 ==> q in t && r.0[q] == t[q])
      && (IsDirAt(t, src + seg) ==> forall q :: q in r.0 ==> !AtOrBelow(src + seg, q))
  {
    var dir := src + seg;
    RenameStepMovedIff(t, src, seg, seg);
    assert Nested(dir, dir) by {
      assert dir[..|dir|] == dir;
    }
    if IsDirAt(t, dir) && seg != [] {
      assert dir[..|src|] == src;
      AncestorIsDir(t, dir, |src|);
    }
    if IsDirAt(t, src) && IsDirAt(t, dir) {
      AsWrittenNestedLosesSources(t, src, seg, seg);
    }
    if IsDirAt(t, src) {
      SameStepDeletes(t, src, seg);
    }
  }

  /** A step that renames a directory to itself removes nodes and changes nothing else. */
  lemma SameStepDeletes(t: Tree, src: Path, seg: seq<string>)
    requires Valid(t) && src != []
    ensures forall q :: q in RenameStep(t, src, seg, seg).tree ==> q in t && RenameStep(t, src, seg, seg).tree[q] == t[q]
  {
    var dir := src + seg;
    if IsDirAt(t, dir) {
      var up := Parent(dir);
      forall k | 1 <= k <= |up| ensures IsDirAt(t, up[..k]) {
        assert up[..k] == dir[..k];
        AncestorIsDir(t, dir, k);
      }
      MakeDirsExisting(t, up);
    }
  }

  method VisitOne(t: Tree, count: nat, src: Path, oldSeg: seq<string>, newSeg: seq<string>) returns (t': Tree, count': nat)
    requires Valid(t) && src != []
    ensures (t', count') == Visit(t, count, src, oldSeg, newSeg)
  {
    t', count' := t, count;
    if IsDirAt(t, src) {
      var moved;
      t', moved := RenameOne(t, src, oldSeg, newSeg);
      if moved {
        count' := count + 1;
      }
    }
  }

  /**
   * `_rename_package_directories(root, old, new)`: every listed source
   * directory in turn, with the number of directories moved.
   */
  method RenamePackageDirs(t: Tree, srcs: seq<Path>, oldPkg: string, newPkg: string) returns (t': Tree, count: nat)
    requires Valid(t) && SourceListing(t, srcs)
    ensures (t', count) == RenameAll(t, srcs, Segments(oldPkg), Segments(newPkg))
    ensures Valid(t') && count <= |srcs|
  {
    var oldSeg := Segments(oldPkg);
    var newSeg := Segments(newPkg);
    assert forall k :: 0 <= k < |srcs| ==> srcs[k] != [] by {
      forall k | 0 <= k < |srcs| ensures srcs[k] != [] {
        assert IsSourceDir(srcs[k]);
      }
    }
    t', count := t, 0;
    var i := 0;
    while i < |srcs|
      invariant 0 <= i <= |srcs|
      invariant (t', count) == RenameAll(t, srcs[..i], oldSeg, newSeg)
    {
      RenameAllNext(t, srcs, i, oldSeg, newSeg);
      t', count := VisitOne(t', count, srcs[i], oldSeg, newSeg);
      i := i + 1;
    }
    assert srcs[..|srcs|] == srcs;
  }

  /** The walk over one more listed path is one more visit. */
  lemma RenameAllNext(t: Tree, srcs: seq<Path>, i: nat, oldSeg: seq<string>, newSeg: seq<string>)
    requires Valid(t) && (forall k :: 0 <= k < |srcs| ==> srcs[k] != []) && i < |srcs|
    ensures var prev := RenameAll(t, srcs[..i], oldSeg, newSeg);
      RenameAll(t, srcs[..i + 1], oldSeg, newSeg) == Visit(prev.0, prev.1, srcs[i], oldSeg, newSeg)
  {
    assert srcs[..i + 1][..i] == srcs[..i];
  }
}
