/**
 * backend/utils/zip_tools.py: where the project root of an unpacked upload
 * is, which entries the result archive gets and under which names, and
 * where the app module of a project is.
 *
 * The unpacked upload is a tree whose paths are relative to the extraction
 * directory; the path `[]` stands for that directory itself. Deflate, the
 * archive's byte format and the log lines are not modelled; the archive is
 * its list of entries.
 */
module ZipTools {
  import opened Fs
  import PackageText

  // ---------------------------------------------------------------------
  // Root resolution after unpacking
  // ---------------------------------------------------------------------

  /** The file names that mark a Gradle project root. */
  const Markers: seq<string> := ["build.gradle", "build.gradle.kts", "settings.gradle", "settings.gradle.kts"]

  /** Names that never count as a top-level project folder. */
  const TopIgnored: set<string> := {"__MACOSX", ".DS_Store", "Thumbs.db"}

  /** Names that never count as a nested project folder. */
  const NestedIgnored: set<string> := {"__MACOSX", ".DS_Store"}

  /** Something (of any kind) named like a Gradle root file sits directly in `d`. */
  predicate HasMarker(t: Tree, d: Path)
  {
    exists k :: 0 <= k < |Markers| && d + [Markers[k]] in t
  }

  /** The directories directly in `d` whose name is not in `ignored`. */
  function ChildDirs(t: Tree, d: Path, ignored: set<string>): set<Path>
  {
    set p | p in t && |p| == |d| + 1 && p[..|d|] == d && t[p].Dir? && p[|d|] !in ignored
  }

  /** The folders at the top of the upload that may hold the project. */
  function Candidates(t: Tree): set<Path>
  {
    ChildDirs(t, [], TopIgnored)
  }

  /** The folders directly in `c` that hold a Gradle root file. */
  function GradleChildren(t: Tree, c: Path): set<Path>
  {
    set p | p in ChildDirs(t, c, NestedIgnored) && HasMarker(t, p)
  }

  lemma SingletonHasOne<T>(s: set<T>, x: T, y: T)
    requires |s| == 1 && x in s && y in s
    ensures x == y
  {
    var rest := s - {x};
    assert |rest| == 0;
    assert y == x || y in rest;
  }

  /** The one element of a one-element set. */
  function TheOne(s: set<Path>): (r: Path)
    requires |s| == 1
    ensures s == {r}
  {
    var x :| x in s;
    assert forall y :: y in s ==> y == x by {
      forall y | y in s ensures y == x {
        SingletonHasOne(s, x, y);
      }
    }
    x
  }

  /**
   * The root `extract_zip` returns: a single top folder that is a Gradle
   * root; else the single Gradle root directly inside that folder; else the
   * folder; and the extraction directory when there is not exactly one top
   * folder.
   */
  function ProjectRoot(t: Tree): Path
  {
    if |Candidates(t)| != 1 then []
    else
      var c := TheOne(Candidates(t));
      if HasMarker(t, c) then c
      else if |GradleChildren(t, c)| == 1 then TheOne(GradleChildren(t, c))
      else c
  }

  /**
   * What the root is: the extraction directory exactly when there is not
   * one top folder; otherwise a directory of the upload at or one level
   * below that folder, a Gradle root unless it is the folder itself.
   */
  lemma ProjectRootShape(t: Tree)
    ensures ProjectRoot(t) == [] <==> |Candidates(t)| != 1
    ensures ProjectRoot(t) != [] ==> IsDirAt(t, ProjectRoot(t)) && ProjectRoot(t)[..1] in Candidates(t)
    ensures |ProjectRoot(t)| == 2 ==> HasMarker(t, ProjectRoot(t)) && !HasMarker(t, ProjectRoot(t)[..1])
    ensures |ProjectRoot(t)| <= 2
  {
    var r := ProjectRoot(t);
    if |Candidates(t)| == 1 {
      var c := TheOne(Candidates(t));
      assert |c| == 1 && c in t && t[c].Dir?;
      if !HasMarker(t, c) && |GradleChildren(t, c)| == 1 {
        var g := TheOne(GradleChildren(t, c));
        assert g in GradleChildren(t, c);
        assert |g| == 2 && g[..1] == c;
      } else {
        assert c[..1] == c;
      }
    }
  }

  /** A single top folder that is itself a Gradle root is the root. */
  lemma WrappedProjectRoot(t: Tree, c: Path)
    requires Candidates(t) == {c} && HasMarker(t, c)
    ensures ProjectRoot(t) == c
  {
  }

  /**
   * A single top folder without a Gradle root file of its own, holding
   * exactly one Gradle root `g`, hands the root on to `g`.
   */
  lemma NestedProjectRoot(t: Tree, c: Path, g: Path)
    requires Candidates(t) == {c} && !HasMarker(t, c) && GradleChildren(t, c) == {g}
    ensures ProjectRoot(t) == g
  {
  }

  /**
   * The root as the code reads, before any look at the extraction
   * directory itself: a flat upload with its Gradle files at the top and a
   * single module folder `app` gets `app` for a root.
   */
  lemma FlatSingleModuleMisplaced()
    ensures var t := map[["settings.gradle"] := File(""), ["app"] := Dir, ["app", "build.gradle"] := File("")];
      HasMarker(t, []) && ProjectRoot(t) == ["app"]
  {
    var t := map[["settings.gradle"] := File(""), ["app"] := Dir, ["app", "build.gradle"] := File("")];
    assert Markers[2] == "settings.gradle" && Markers[0] == "build.gradle";
    assert [] + [Markers[2]] == ["settings.gradle"];
    assert ["app"] + [Markers[0]] == ["app", "build.gradle"];
    assert ["app"] in Candidates(t);
    assert Candidates(t) == {["app"]} by {
      forall p | p in Candidates(t) ensures p == ["app"] {
        assert p in t && |p| == 1 && t[p].Dir?;
      }
    }
  }

  /** The intended resolution: an upload that is a Gradle root at its top is its own root. */
  function ProjectRootKept(t: Tree): (r: Path)
  {
    if HasMarker(t, []) then [] else ProjectRoot(t)
  }

  /**
   * The corrected root is never a folder strictly inside a directory that
   * holds a Gradle root file, and agrees with the code on every upload
   * without such files at its top.
   */
  lemma ProjectRootKeptSound(t: Tree)
    ensures HasMarker(t, []) ==> ProjectRootKept(t) == []
    ensures !HasMarker(t, []) ==> ProjectRootKept(t) == ProjectRoot(t)
    ensures ProjectRootKept(t) == [] || IsDirAt(t, ProjectRootKept(t))
    ensures forall k :: 0 <= k < |ProjectRootKept(t)| ==> !HasMarker(t, ProjectRootKept(t)[..k])
  {
    ProjectRootShape(t);
    var r := ProjectRootKept(t);
    assert r[..0] == [];
  }

  // ---------------------------------------------------------------------
  // The result archive
  // ---------------------------------------------------------------------

  const ExcludeDirs: set<string> := {"build", ".gradle", ".idea", "outputs", "__pycache__", ".git"}
  const ExcludeFiles: set<string> := {".DS_Store", "Thumbs.db"}
  const LogName: string := "ANDROID_REBUILDER_LOG.txt"

  /** One archive entry: its name, as path components, and its content. */
  datatype Entry = Entry(name: Path, content: string)

  /** The nodes `create_zip` puts in the archive: files outside excluded folders, not named like OS litter. */
  predicate Archived(t: Tree, base: Path, p: Path)
  {
    && p in t && !t[p].Dir?
    && (forall x :: x in ExcludeDirs ==> !HasPart(base, p, x))
    && Name(p) !in ExcludeFiles
  }

  function ArchivedSet(t: Tree, base: Path): set<Path>
  {
    set p | p in t && Archived(t, base, p)
  }

  /** `Path(new_folder_name) / rel`, or `rel` when no folder name (or an empty one) is given. */
  function ArchiveName(folder: string, p: Path): Path
  {
    if folder != "" then [folder] + p else p
  }

  /** The log entry, written first, and only for a non-empty log. */
  function LogEntries(log: string, folder: string): (r: seq<Entry>)
    ensures |r| <= 1
  {
    if log == "" then [] else [Entry(ArchiveName(folder, [LogName]), log)]
  }

  /** The entries of the archived files. */
  function FileEntries(t: Tree, base: Path, folder: string): set<Entry>
  {
    set p | p in ArchivedSet(t, base) && t[p].File? :: Entry(ArchiveName(folder, p), t[p].text)
  }

  /** Entry names of distinct files are distinct. */
  lemma ArchiveNameInjective(folder: string, p: Path, q: Path)
    requires ArchiveName(folder, p) == ArchiveName(folder, q)
    ensures p == q
  {
    if folder != "" {
      assert p == ([folder] + p)[1..];
      assert q == ([folder] + q)[1..];
    }
  }

  /**
   * `create_zip`: the log entry first, then one entry per archived file in
   * the walk's (unspecified) order, counted. A file that cannot be read
   * makes the whole call raise (`ok` false).
   */
  method CreateZip(t: Tree, base: Path, log: string, folder: string) returns (ok: bool, entries: seq<Entry>, count: nat)
    ensures ok <==> forall p :: p in t && Archived(t, base, p) ==> t[p].File?
    ensures ok ==> |entries| == |LogEntries(log, folder)| + count
    ensures ok ==> entries == LogEntries(log, folder) + entries[|LogEntries(log, folder)|..]
    ensures ok ==> count == |ArchivedSet(t, base)|
    ensures ok ==> ShipsFiles(entries[|LogEntries(log, folder)|..], t, base, folder)
  {
    var head := LogEntries(log, folder);
    var files;
    ok, files := ArchiveFiles(t, base, folder);
    entries, count := head + files, |files|;
    assert entries[|head|..] == files;
  }

  /** `files` are the entries of the archived files, each once and under distinct names. */
  predicate ShipsFiles(files: seq<Entry>, t: Tree, base: Path, folder: string)
  {
    && (set k | 0 <= k < |files| :: files[k]) == FileEntries(t, base, folder)
    && (forall i, j :: 0 <= i < j < |files| ==> files[i].name != files[j].name)
  }

  /** The walk of `create_zip`: one entry per archived file, in an unspecified order. */
  method ArchiveFiles(t: Tree, base: Path, folder: string) returns (ok: bool, files: seq<Entry>)
    ensures ok <==> forall p :: p in t && Archived(t, base, p) ==> t[p].File?
    ensures ok ==> |files| == |ArchivedSet(t, base)|
    ensures ok ==> ShipsFiles(files, t, base, folder)
  {
    var todo := t.Keys;
    files := [];
    ghost var walked: seq<Path> := [];
    while todo != {}
      invariant todo <= t.Keys
      invariant forall p :: p in walked <==> p in t && p !in todo && Archived(t, base, p)
      invariant forall k :: 0 <= k < |walked| ==> walked[k] !in todo && walked[k] in t && t[walked[k]].File?
      invariant Distinct(walked)
      invariant files == EntriesOf(t, folder, walked)
      decreases |todo|
    {
      var p :| p in todo;
      todo := todo - {p};
      if Archived(t, base, p) {
        if !t[p].File? {
          ok := false;
          return;
        }
        EntriesOfAppend(t, folder, walked, p);
        files := files + [Entry(ArchiveName(folder, p), t[p].text)];
        walked := walked + [p];
      }
    }
    ok := true;
    WalkedArchive(t, base, folder, walked);
  }

  predicate Distinct(ps: seq<Path>)
  {
    forall i, j :: 0 <= i < j < |ps| ==> ps[i] != ps[j]
  }

  /** The entries of the files `ps`, in that order. */
  function EntriesOf(t: Tree, folder: string, ps: seq<Path>): (r: seq<Entry>)
    requires forall k :: 0 <= k < |ps| ==> ps[k] in t && t[ps[k]].File?
    ensures |r| == |ps|
    ensures forall k :: 0 <= k < |ps| ==> r[k] == Entry(ArchiveName(folder, ps[k]), t[ps[k]].text)
  {
    if ps == [] then []
    else EntriesOf(t, folder, ps[..|ps| - 1]) + [Entry(ArchiveName(folder, ps[|ps| - 1]), t[ps[|ps| - 1]].text)]
  }

  lemma EntriesOfAppend(t: Tree, folder: string, ps: seq<Path>, p: Path)
    requires forall k :: 0 <= k < |ps| ==> ps[k] in t && t[ps[k]].File?
    requires p in t && t[p].File?
    ensures EntriesOf(t, folder, ps + [p]) == EntriesOf(t, folder, ps) + [Entry(ArchiveName(folder, p), t[p].text)]
  {
    assert (ps + [p])[..|ps|] == ps;
  }

  /** A walk that met every archived file once yields the file entries, under distinct names. */
  lemma WalkedArchive(t: Tree, base: Path, folder: string, walked: seq<Path>)
    requires forall p :: p in walked <==> p in t && Archived(t, base, p)
    requires forall k :: 0 <= k < |walked| ==> walked[k] in t && t[walked[k]].File?
    requires Distinct(walked)
    ensures |walked| == |ArchivedSet(t, base)|
    ensures (set k | 0 <= k < |walked| :: EntriesOf(t, folder, walked)[k]) == FileEntries(t, base, folder)
    ensures forall i, j :: 0 <= i < j < |walked| ==> EntriesOf(t, folder, walked)[i].name != EntriesOf(t, folder, walked)[j].name
  {
    var es := EntriesOf(t, folder, walked);
    assert (set k | 0 <= k < |walked| :: walked[k]) == ArchivedSet(t, base);
    DistinctCard(walked);
    forall i, j | 0 <= i < j < |walked| ensures es[i].name != es[j].name {
      if es[i].name == es[j].name {
        ArchiveNameInjective(folder, walked[i], walked[j]);
      }
    }
    assert (set k | 0 <= k < |walked| :: es[k]) == FileEntries(t, base, folder) by {
      forall e | e in FileEntries(t, base, folder) ensures e in (set k | 0 <= k < |walked| :: es[k]) {
        var p :| p in ArchivedSet(t, base) && t[p].File? && e == Entry(ArchiveName(folder, p), t[p].text);
        var k :| 0 <= k < |walked| && walked[k] == p;
        assert es[k] == e;
      }
    }
  }

  lemma {:induction false} DistinctCard(ps: seq<Path>)
    requires Distinct(ps)
    ensures |set k | 0 <= k < |ps| :: ps[k]| == |ps|
  {
    if ps != [] {
      var init := ps[..|ps| - 1];
      DistinctCard(init);
      assert (set k | 0 <= k < |ps| :: ps[k]) == (set k | 0 <= k < |init| :: init[k]) + {ps[|ps| - 1]};
    }
  }

  /** A project below a folder named like an excluded one ships no file at all. */
  lemma ExcludedBaseShipsNothing(t: Tree, base: Path)
    requires exists x :: x in ExcludeDirs && x in base
    ensures ArchivedSet(t, base) == {}
    ensures FileEntries(t, base, "") == {}
  {
  }

  /** No archived file lies in a build or VCS folder, and every archived file is shipped under its own content. */
  lemma ArchivedFilesClean(t: Tree, base: Path, folder: string, p: Path)
    requires p in ArchivedSet(t, base) && t[p].File?
    ensures "build" !in p && ".git" !in p && ".gradle" !in p
    ensures Entry(ArchiveName(folder, p), t[p].text) in FileEntries(t, base, folder)
    ensures folder != "" ==> ArchiveName(folder, p)[1..] == p && ArchiveName(folder, p)[0] == folder
  {
    assert "build" in ExcludeDirs && ".git" in ExcludeDirs && ".gradle" in ExcludeDirs;
  }

  // ---------------------------------------------------------------------
  // The app module
  // ---------------------------------------------------------------------

  /** `order` lists each path of `s` exactly once. */
  predicate Lists(order: seq<Path>, s: set<Path>)
  {
    && (forall k :: 0 <= k < |order| ==> order[k] in s)
    && (forall p :: p in s ==> p in order)
    && (forall i, j :: 0 <= i < j < |order| ==> order[i] != order[j])
  }

  /** The nodes `rglob('build.gradle*')` yields. */
  function GradleNodes(t: Tree): set<Path>
  {
    set p | p in t && p != [] && PackageText.IsGradleFile(p)
  }

  /** A directory with `src/main` inside it. */
  predicate HasMainSources(t: Tree, d: Path)
  {
    d + ["src", "main"] in t
  }

  /**
   * `get_app_module_path`: `app` when `app/src/main` exists; otherwise the
   * folder of the first `build.gradle*` of the walk `order` with `src/main`
   * beside it; otherwise the root.
   */
  method AppModule(t: Tree, order: seq<Path>) returns (m: Path)
    requires Lists(order, GradleNodes(t))
    ensures ["app"] in t && HasMainSources(t, ["app"]) ==> m == ["app"]
    ensures !(["app"] in t && HasMainSources(t, ["app"])) ==>
      (exists k :: 0 <= k < |order| && m == Parent(order[k]) && HasMainSources(t, m)
                   && forall j :: 0 <= j < k ==> !HasMainSources(t, Parent(order[j])))
      || (m == [] && forall j :: 0 <= j < |order| ==> !HasMainSources(t, Parent(order[j])))
    ensures m == ["app"] || m == [] || (HasMainSources(t, m) && exists g :: g in GradleNodes(t) && Parent(g) == m)
  {
    if ["app"] in t && HasMainSources(t, ["app"]) {
      return ["app"];
    }
    var i := 0;
    while i < |order|
      invariant i <= |order|
      invariant forall j :: 0 <= j < i ==> !HasMainSources(t, Parent(order[j]))
    {
      var d := Parent(order[i]);
      if HasMainSources(t, d) {
        assert order[i] in GradleNodes(t);
        return d;
      }
      i := i + 1;
    }
    return [];
  }

  /** The walk falls back on the root only when no `build.gradle*` in the tree has `src/main` beside it. */
  lemma FallbackMeansNoModule(t: Tree, order: seq<Path>)
    requires Lists(order, GradleNodes(t))
    requires forall j :: 0 <= j < |order| ==> !HasMainSources(t, Parent(order[j]))
    ensures forall g :: g in GradleNodes(t) ==> !HasMainSources(t, Parent(g))
  {
    forall g | g in GradleNodes(t) ensures !HasMainSources(t, Parent(g)) {
      var j :| 0 <= j < |order| && order[j] == g;
    }
  }
}
