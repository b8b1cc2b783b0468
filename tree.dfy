/**
 * The project tree that every pass of the rebuilder reads and rewrites.
 *
 * A tree maps paths, relative to the project root, to nodes. The root itself
 * is not a key. `base` (passed separately where it matters) is the list of
 * components of the root's own absolute path: the source tests membership of
 * a directory name in the ABSOLUTE `file_path.parts`, so `base` takes part in
 * those tests.
 */
module Fs {
  type Path = seq<string>

  /** A directory, a text file, or a file whose read raises. */
  datatype Node = Dir | File(text: string) | Unreadable

  type Tree = map<Path, Node>

  function Name(p: Path): string
  {
    if p == [] then "" else p[|p| - 1]
  }

  function Parent(p: Path): Path
    requires p != []
  {
    p[..|p| - 1]
  }

  /** `b` lies strictly below `a`. */
  predicate Below(a: Path, b: Path)
  {
    |a| < |b| && b[..|a|] == a
  }

  /** `b` is `a` or lies below it. */
  predicate AtOrBelow(a: Path, b: Path)
  {
    |a| <= |b| && b[..|a|] == a
  }

  /** Some component of the absolute path of `p` is `part`. */
  predicate HasPart(base: Path, p: Path, part: string)
  {
    part in base || part in p
  }

  predicate StartsWith(s: string, prefix: string)
  {
    |prefix| <= |s| && s[..|prefix|] == prefix
  }

  predicate EndsWith(s: string, suffix: string)
  {
    |suffix| <= |s| && s[|s| - |suffix|..] == suffix
  }

  predicate IsFileAt(t: Tree, p: Path)
  {
    p in t && t[p].File?
  }

  predicate IsDirAt(t: Tree, p: Path)
  {
    p in t && t[p].Dir?
  }

  /** Index of the last occurrence of `c` in `s`, or -1. */
  function LastIndexOf(s: string, c: char): (r: int)
    ensures -1 <= r < |s|
    ensures r >= 0 ==> s[r] == c
    ensures forall k :: r < k < |s| ==> s[k] != c
  {
    if s == [] then -1
    else if s[|s| - 1] == c then |s| - 1
    else LastIndexOf(s[..|s| - 1], c)
  }

  /** The suffix of a file name as pathlib computes it: from the last dot,
      provided that dot is neither the first nor the last character. */
  function Suffix(name: string): (r: string)
    ensures r == [] || (r[0] == '.' && |r| >= 2 && EndsWith(name, r))
  {
    var i := LastIndexOf(name, '.');
    if 0 < i < |name| - 1 then name[i..] else ""
  }

  /** ASCII lower-casing. */
  function Lower(s: string): (r: string)
    ensures |r| == |s|
    ensures forall k :: 0 <= k < |s| ==> r[k] == LowerChar(s[k])
  {
    if s == [] then [] else [LowerChar(s[0])] + Lower(s[1..])
  }

  function LowerChar(c: char): char
  {
    if 'A' <= c <= 'Z' then (c as int + 32) as char else c
  }

  /** What one visit of a pass does to a node: a selected text file is passed through `f`. */
  function Apply(n: Node, selected: bool, f: string -> string): Node
  {
    if selected && n.File? then File(f(n.text)) else n
  }

  /** The tree after every selected text file has been passed through `f`. */
  function Rewritten(t: Tree, sel: Path -> bool, f: string -> string): Tree
  {
    map p | p in t :: Apply(t[p], sel(p), f)
  }

  lemma RewrittenAt(t: Tree, sel: Path -> bool, f: string -> string, p: Path)
    requires p in t
    ensures p in Rewritten(t, sel, f) && Rewritten(t, sel, f)[p] == Apply(t[p], sel(p), f)
  {
  }

  /** Whether visiting `p` writes it: a selected text file whose content `f` changes. */
  predicate Changes(t: Tree, sel: Path -> bool, f: string -> string, p: Path)
  {
    p in t && sel(p) && t[p].File? && f(t[p].text) != t[p].text
  }

  /** The files a pass writes and counts. */
  function ChangedFiles(t: Tree, sel: Path -> bool, f: string -> string): set<Path>
  {
    set p | p in t && Changes(t, sel, f, p)
  }

  /**
   * One rewrite pass: visit every node (in an unspecified order), read each
   * selected text file, and write it back and count it only when its content
   * changed. An unreadable file is skipped, as the source's per-file
   * `except` does.
   */
  method RewriteFiles(t: Tree, sel: Path -> bool, f: string -> string) returns (t': Tree, count: nat)
    ensures t' == Rewritten(t, sel, f)
    ensures count == |ChangedFiles(t, sel, f)|
  {
    t', count := t, 0;
    var todo := t.Keys;
    ghost var done: set<Path> := {};
    while todo != {}
      invariant todo <= t.Keys && t'.Keys == t.Keys
      invariant forall p :: p in t && p !in todo ==> t'[p] == Apply(t[p], sel(p), f)
      invariant forall p :: p in todo ==> t'[p] == t[p]
      invariant done == set p | p in t && p !in todo && Changes(t, sel, f, p)
      invariant count == |done|
      decreases |todo|
    {
      var p :| p in todo;
      if sel(p) && t[p].File? {
        var c := f(t[p].text);
        if c != t[p].text {
          t' := t'[p := File(c)];
          count := count + 1;
          assert p !in done;
          done := done + {p};
        }
      }
      todo := todo - {p};
    }
    assert done == ChangedFiles(t, sel, f);
  }

  /** A pass counts zero exactly when it leaves the tree as it was. */
  lemma CountZeroIffUnchanged(t: Tree, sel: Path -> bool, f: string -> string)
    ensures |ChangedFiles(t, sel, f)| == 0 <==> Rewritten(t, sel, f) == t
  {
    if |ChangedFiles(t, sel, f)| == 0 {
      assert forall p :: p in t ==> !Changes(t, sel, f, p) by {
        forall p | p in t ensures !Changes(t, sel, f, p) {
          assert p !in ChangedFiles(t, sel, f);
        }
      }
      assert Rewritten(t, sel, f) == t;
    } else {
      var p :| p in ChangedFiles(t, sel, f);
      assert Rewritten(t, sel, f)[p] != t[p];
    }
  }

  /** A pass changes file contents only: the same paths, the same directories. */
  lemma RewrittenShape(t: Tree, sel: Path -> bool, f: string -> string)
    ensures Rewritten(t, sel, f).Keys == t.Keys
    ensures forall p :: p in t ==> (Rewritten(t, sel, f)[p].Dir? <==> t[p].Dir?)
  {
  }

  /** A pass whose function leaves every selected text alone leaves the tree alone. */
  lemma RewrittenIdentity(t: Tree, sel: Path -> bool, f: string -> string)
    requires forall p :: p in t && sel(p) && t[p].File? ==> f(t[p].text) == t[p].text
    ensures Rewritten(t, sel, f) == t
    ensures ChangedFiles(t, sel, f) == {}
  {
    assert forall p :: p in t ==> Rewritten(t, sel, f)[p] == t[p];
  }
}
