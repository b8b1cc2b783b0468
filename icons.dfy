/**
 * `replace_app_icon` in backend/utils/icon_replace.py: the picture is
 * saved, once per density, into the `mipmap-*` directories of the first
 * `src/main/res` of the project; the manifests are pointed at the
 * launcher icons; and, when a splash picture is given, it is saved the
 * same way and the layouts are pointed at it.
 *
 * Paths of the tree are relative to the project root. The resized image
 * bytes are a parameter: `png(n)` is the picture scaled to `n` by `n`.
 */
module Icons {
  import opened Wrappers
  import opened Fs
  import opened PackageDirs
  import opened IconText
  import PackageText
  import ZipTools

  /** One entry of `ICON_SIZES`: a density and its icon edge in pixels. */
  datatype Density = Density(name: string, size: nat)

  const IconSizes: seq<Density> :=
    [Density("mdpi", 48), Density("hdpi", 72), Density("xhdpi", 96), Density("xxhdpi", 144), Density("xxxhdpi", 192)]

  const Launcher: string := "ic_launcher.png"
  const LauncherRound: string := "ic_launcher_round.png"

  /** `icon_targets`, in the source's order. */
  const IconTargets: seq<string> :=
    [Launcher, LauncherRound, "ic_launcher_background.png", "ic_launcher_foreground.png", "ic_launcher_monochrome.png"]

  /** The targets written whether or not they exist. */
  const AlwaysWritten: set<string> := {Launcher, LauncherRound}

  const SplashFile: string := "splash_screen.png"

  /** The directory a density's pictures go to. */
  function MipmapDir(res: Path, d: Density): (m: Path)
    ensures |m| == |res| + 1 && m[..|res|] == res && Parent(m) == res
  {
    assert (res + ["mipmap-" + d.name])[..|res|] == res;
    res + ["mipmap-" + d.name]
  }

  // ---------------------------------------------------------------------
  // Saving into one directory
  // ---------------------------------------------------------------------

  /** Whether a target is tried: it exists already, or it is one that is always written. */
  predicate Tried(t: Tree, m: Path, name: string, always: set<string>)
  {
    m + [name] in t || name in always
  }

  /** Whether `save` succeeds: the directory is one and the target is not a directory (nor unreadable). */
  predicate Saves(t: Tree, m: Path, name: string)
  {
    IsDirAt(t, m) && (m + [name] !in t || t[m + [name]].File?)
  }

  /** The loop over the targets of one density: each tried target is saved; a failed save is only logged. */
  function SaveTargets(t: Tree, m: Path, names: seq<string>, always: set<string>, png: string): (Tree, nat)
    decreases |names|
  {
    if names == [] then (t, 0)
    else
      var r := SaveTargets(t, m, names[..|names| - 1], always, png);
      var n := names[|names| - 1];
      if Tried(r.0, m, n, always) && Saves(r.0, m, n) then (r.0[m + [n] := File(png)], r.1 + 1)
      else r
  }

  /** The targets the loop writes. */
  function Written(t: Tree, m: Path, names: seq<string>, always: set<string>): set<string>
  {
    set n | n in names && Tried(t, m, n, always) && Saves(t, m, n)
  }

  predicate Distinct(names: seq<string>)
  {
    forall i, j :: 0 <= i < j < |names| ==> names[i] != names[j]
  }

  /**
   * What the loop over one density's targets does: exactly the targets
   * that are tried and can be saved now hold the picture, every other
   * node is as it was, and the count is the number of those targets.
   */
  lemma {:induction false} SaveTargetsEffect(t: Tree, m: Path, names: seq<string>, always: set<string>, png: string)
    requires Distinct(names)
    ensures var r := SaveTargets(t, m, names, always, png);
      && (forall n :: n in Written(t, m, names, always) ==> m + [n] in r.0 && r.0[m + [n]] == File(png))
      && (forall q :: q !in t && (forall n :: n in Written(t, m, names, always) ==> q != m + [n]) ==> q !in r.0)
      && (forall q :: q in t && (forall n :: n in Written(t, m, names, always) ==> q != m + [n]) ==> q in r.0 && r.0[q] == t[q])
      && r.1 == |Written(t, m, names, always)|
    decreases |names|
  {
    if names != [] {
      var init := names[..|names| - 1];
      assert Distinct(init);
      SaveTargetsEffect(t, m, init, always, png);
      SaveTargetsStep(t, m, names, always, png);
    }
  }

  /** `SaveTargetsEffect` for `names`, stated on the result. */
  ghost predicate SavedAsWritten(t: Tree, m: Path, names: seq<string>, always: set<string>, png: string, r: (Tree, nat))
  {
    var w := Written(t, m, names, always);
    && (forall n :: n in w ==> m + [n] in r.0 && r.0[m + [n]] == File(png))
    && (forall q :: q !in t && (forall n :: n in w ==> q != m + [n]) ==> q !in r.0)
    && (forall q :: q in t && (forall n :: n in w ==> q != m + [n]) ==> q in r.0 && r.0[q] == t[q])
    && r.1 == |w|
  }

  /** One more target: the effect for all but the last carries over to all. */
  lemma SaveTargetsStep(t: Tree, m: Path, names: seq<string>, always: set<string>, png: string)
    requires Distinct(names) && names != []
    requires SavedAsWritten(t, m, names[..|names| - 1], always, png, SaveTargets(t, m, names[..|names| - 1], always, png))
    ensures SavedAsWritten(t, m, names, always, png, SaveTargets(t, m, names, always, png))
  {
    var init := names[..|names| - 1];
    var n := names[|names| - 1];
    var r := SaveTargetsEffect1(t, m, init, always, png, n);
    var w := Written(t, m, init, always);
    WrittenSnoc(t, m, names, always);
    if Tried(t, m, n, always) && Saves(t, m, n) {
      SavedOneMore(t, m, w, png, r, n);
    }
  }

  /** The targets written for `names` are those for all but the last, and the last if it is written. */
  lemma WrittenSnoc(t: Tree, m: Path, names: seq<string>, always: set<string>)
    requires Distinct(names) && names != []
    ensures var n := names[|names| - 1];
      var w := Written(t, m, names[..|names| - 1], always);
      && n !in w
      && Written(t, m, names, always) == if Tried(t, m, n, always) && Saves(t, m, n) then w + {n} else w
  {
    var init := names[..|names| - 1];
    assert names == init + [names[|names| - 1]];
  }

  /** Writing target `n` after the targets `w`. */
  lemma SavedOneMore(t: Tree, m: Path, w: set<string>, png: string, r: (Tree, nat), n: string)
    requires n !in w
    requires forall k :: k in w ==> m + [k] in r.0 && r.0[m + [k]] == File(png)
    requires forall q :: q !in t && (forall k :: k in w ==> q != m + [k]) ==> q !in r.0
    requires forall q :: q in t && (forall k :: k in w ==> q != m + [k]) ==> q in r.0 && r.0[q] == t[q]
    requires r.1 == |w|
    ensures var r' := (r.0[m + [n] := File(png)], r.1 + 1);
      && (forall k :: k in w + {n} ==> m + [k] in r'.0 && r'.0[m + [k]] == File(png))
      && (forall q :: q !in t && (forall k :: k in w + {n} ==> q != m + [k]) ==> q !in r'.0)
      && (forall q :: q in t && (forall k :: k in w + {n} ==> q != m + [k]) ==> q in r'.0 && r'.0[q] == t[q])
      && r'.1 == |w + {n}|
  {
  }

  /** Saving earlier targets does not change whether `n` is tried or saved. */
  lemma SaveTargetsEffect1(t: Tree, m: Path, init: seq<string>, always: set<string>, png: string, n: string) returns (r: (Tree, nat))
    requires n !in init
    requires var r := SaveTargets(t, m, init, always, png);
      && (forall q :: q !in t && (forall k :: k in Written(t, m, init, always) ==> q != m + [k]) ==> q !in r.0)
      && (forall q :: q in t && (forall k :: k in Written(t, m, init, always) ==> q != m + [k]) ==> q in r.0 && r.0[q] == t[q])
    ensures r == SaveTargets(t, m, init, always, png)
    ensures Tried(r.0, m, n, always) == Tried(t, m, n, always) && Saves(r.0, m, n) == Saves(t, m, n)
  {
    r := SaveTargets(t, m, init, always, png);
    assert forall k :: k in Written(t, m, init, always) ==> m + [n] != m + [k] by {
      forall k | k in Written(t, m, init, always) ensures m + [n] != m + [k] {
        assert (m + [k])[|m|] == k;
        assert (m + [n])[|m|] == n;
      }
    }
    assert forall k :: k in Written(t, m, init, always) ==> m != m + [k] by {
      forall k | k in Written(t, m, init, always) ensures m != m + [k] {
        assert |m + [k]| == |m| + 1;
      }
    }
  }

  /**
   * The icon-target rule for a density directory that is a directory:
   * `ic_launcher.png` and `ic_launcher_round.png` are written unless a
   * directory or an unreadable node stands in their place; the other three are written only
   * where a file of that name is already there.
   */
  lemma LauncherTargets(t: Tree, m: Path, png: string)
    requires IsDirAt(t, m)
    ensures var r := SaveTargets(t, m, IconTargets, AlwaysWritten, png);
      && (forall n :: n in AlwaysWritten && (m + [n] !in t || t[m + [n]].File?) ==> m + [n] in r.0 && r.0[m + [n]] == File(png))
      && (forall n :: n in IconTargets && n !in AlwaysWritten && IsFileAt(t, m + [n]) ==> m + [n] in r.0 && r.0[m + [n]] == File(png))
      && (forall n :: n in IconTargets && n !in AlwaysWritten && m + [n] !in t ==> m + [n] !in r.0)
  {
    assert Distinct(IconTargets);
    SaveTargetsEffect(t, m, IconTargets, AlwaysWritten, png);
    var r := SaveTargets(t, m, IconTargets, AlwaysWritten, png);
    var w := Written(t, m, IconTargets, AlwaysWritten);
    forall n | n in IconTargets && n !in AlwaysWritten && m + [n] !in t
      ensures m + [n] !in r.0
    {
      forall k | k in w ensures m + [n] != m + [k] {
        assert (m + [k])[|m|] == k;
      }
    }
  }

  // ---------------------------------------------------------------------
  // The densities
  // ---------------------------------------------------------------------

  /** How far a loop over the densities got: the tree, the pictures saved, whether `mkdir` raised. */
  datatype Run = Run(tree: Tree, count: nat, raised: bool)

  /**
   * One density: a missing `mipmap-*` directory is made with its parents
   * (outside the source's `try`, so a failure escapes); then its targets
   * are saved.
   */
  function Step(run: Run, res: Path, d: Density, names: seq<string>, always: set<string>, png: nat -> string): Run
  {
    if run.raised then run
    else
      var m := MipmapDir(res, d);
      var made := if m in run.tree then Some(run.tree) else MakeDirs(run.tree, m);
      if made.None? then Run(run.tree, run.count, true)
      else
        var r := SaveTargets(made.value, m, names, always, png(d.size));
        Run(r.0, run.count + r.1, false)
  }

  /** The loop over `ICON_SIZES`, in order. */
  function Densities(t: Tree, res: Path, ds: seq<Density>, names: seq<string>, always: set<string>, png: nat -> string): Run
    decreases |ds|
  {
    if ds == [] then Run(t, 0, false)
    else Step(Densities(t, res, ds[..|ds| - 1], names, always, png), res, ds[|ds| - 1], names, always, png)
  }

  /** The targets loop of one density, with the existence test of the source. */
  method SaveDensity(t: Tree, m: Path, names: seq<string>, always: set<string>, png: string) returns (t': Tree, count: nat)
    ensures (t', count) == SaveTargets(t, m, names, always, png)
  {
    t', count := t, 0;
    for i := 0 to |names|
      invariant (t', count) == SaveTargets(t, m, names[..i], always, png)
    {
      assert names[..i + 1][..i] == names[..i];
      var target := m + [names[i]];
      if target !in t' && names[i] !in always {
        continue;
      }
      if IsDirAt(t', m) && (target !in t' || t'[target].File?) {
        t' := t'[target := File(png)];
        count := count + 1;
      }
    }
    assert names[..|names|] == names;
  }

  /** One density: make its directory when it is missing, then save its targets. */
  method SaveOneDensity(run: Run, res: Path, d: Density, names: seq<string>, always: set<string>, png: nat -> string) returns (run': Run)
    requires !run.raised
    ensures run' == Step(run, res, d, names, always, png)
  {
    var m := MipmapDir(res, d);
    var t := run.tree;
    if m !in t {
      var made := MakeDirs(t, m);
      if made.None? {
        return Run(t, run.count, true);
      }
      t := made.value;
    }
    var saved, n := SaveDensity(t, m, names, always, png(d.size));
    run' := Run(saved, run.count + n, false);
  }

  /** The loop over the densities with the targets loop inside it. */
  method SaveAllDensities(t: Tree, res: Path, names: seq<string>, always: set<string>, png: nat -> string) returns (run: Run)
    ensures run == Densities(t, res, IconSizes, names, always, png)
  {
    run := Run(t, 0, false);
    for i := 0 to |IconSizes|
      invariant run == Densities(t, res, IconSizes[..i], names, always, png) && !run.raised
    {
      assert IconSizes[..i + 1][..i] == IconSizes[..i];
      run := SaveOneDensity(run, res, IconSizes[i], names, always, png);
      if run.raised {
        RaisedStays(t, res, names, always, png, i + 1);
        return;
      }
    }
    assert IconSizes[..|IconSizes|] == IconSizes;
  }

  /** Once `mkdir` has raised, the later densities are not reached. */
  lemma {:induction false} RaisedStays(t: Tree, res: Path, names: seq<string>, always: set<string>, png: nat -> string, k: nat)
    requires k <= |IconSizes| && Densities(t, res, IconSizes[..k], names, always, png).raised
    ensures Densities(t, res, IconSizes, names, always, png) == Densities(t, res, IconSizes[..k], names, always, png)
    decreases |IconSizes| - k
  {
    if k < |IconSizes| {
      assert IconSizes[..k + 1][..k] == IconSizes[..k];
      RaisedStays(t, res, names, always, png, k + 1);
    } else {
      assert IconSizes[..k] == IconSizes;
    }
  }

  /** What a loop over the densities keeps: nodes keep their kind, and a new node is a directory or a picture. */
  predicate Grows(t: Tree, r: Tree, res: Path)
  {
    && (forall q :: q in t ==> q in r && (r[q].Dir? <==> t[q].Dir?))
    && (forall q :: q in r && q !in t ==> r[q].Dir? || |q| == |res| + 2)
  }

  /** No density directory of `ds` is taken by something that is not a directory. */
  predicate DensityDirsFree(t: Tree, res: Path, ds: seq<Density>)
  {
    forall k :: 0 <= k < |ds| && MipmapDir(res, ds[k]) in t ==> t[MipmapDir(res, ds[k])].Dir?
  }

  /**
   * In a well-formed tree whose `res` is a directory, and where no density
   * directory is taken by a file, nothing raises, the tree stays well
   * formed and every density directory is a directory afterwards.
   */
  lemma {:induction false} DensitiesInDirectory(t: Tree, res: Path, ds: seq<Density>, names: seq<string>, always: set<string>, png: nat -> string)
    requires Valid(t) && IsDirAt(t, res) && DensityDirsFree(t, res, ds)
    ensures var r := Densities(t, res, ds, names, always, png);
      && !r.raised && Valid(r.tree) && IsDirAt(r.tree, res) && Grows(t, r.tree, res)
      && forall k :: 0 <= k < |ds| ==> IsDirAt(r.tree, MipmapDir(res, ds[k]))
    decreases |ds|
  {
    if ds != [] {
      var init := ds[..|ds| - 1];
      var d := ds[|ds| - 1];
      DensityDirsFreeInit(t, res, ds);
      DensitiesInDirectory(t, res, init, names, always, png);
      var run := Densities(t, res, init, names, always, png);
      var m := MipmapDir(res, d);
      assert m in run.tree ==> run.tree[m].Dir? by {
        if m in run.tree && m in t {
          assert t[MipmapDir(res, ds[|ds| - 1])].Dir?;
        }
      }
      StepInDirectory(run, res, d, names, always, png);
      var r := Densities(t, res, ds, names, always, png);
      GrowsTrans(t, run.tree, r.tree, res);
      forall k | 0 <= k < |ds| ensures IsDirAt(r.tree, MipmapDir(res, ds[k])) {
        if k < |ds| - 1 {
          assert ds[k] == init[k];
        }
      }
    }
  }

  lemma DensityDirsFreeInit(t: Tree, res: Path, ds: seq<Density>)
    requires DensityDirsFree(t, res, ds) && ds != []
    ensures DensityDirsFree(t, res, ds[..|ds| - 1])
  {
    var init := ds[..|ds| - 1];
    forall k | 0 <= k < |init| ensures MipmapDir(res, init[k]) in t ==> t[MipmapDir(res, init[k])].Dir? {
      assert init[k] == ds[k];
    }
  }

  lemma GrowsTrans(t: Tree, u: Tree, r: Tree, res: Path)
    requires Grows(t, u, res) && Grows(u, r, res)
    ensures Grows(t, r, res)
  {
    forall q | q in r && q !in t ensures r[q].Dir? || |q| == |res| + 2 {
      if q in u {
        assert u[q].Dir? || |q| == |res| + 2;
      }
    }
  }

  /** One density in a well-formed tree whose `res` and density directory are directories or absent. */
  lemma StepInDirectory(run: Run, res: Path, d: Density, names: seq<string>, always: set<string>, png: nat -> string)
    requires !run.raised && Valid(run.tree) && IsDirAt(run.tree, res)
    requires MipmapDir(res, d) in run.tree ==> run.tree[MipmapDir(res, d)].Dir?
    ensures var r := Step(run, res, d, names, always, png);
      && !r.raised && Valid(r.tree) && IsDirAt(r.tree, res) && IsDirAt(r.tree, MipmapDir(res, d))
      && Grows(run.tree, r.tree, res)
  {
    var t := run.tree;
    var m := MipmapDir(res, d);
    var u := t;
    if m !in t {
      forall k | 1 <= k <= |res| ensures IsDirAt(t, res[..k]) {
        if k < |res| {
          AncestorIsDir(t, res, k);
        } else {
          assert res[..k] == res;
        }
      }
      MakeDirsExisting(t, res);
      assert MakeDirs(t, m) == Some(t[m := Dir]);
      MakeDirsValid(t, m);
      u := t[m := Dir];
    }
    SaveKeepsShape(u, m, names, always, png(d.size));
  }

  /** Saving into a directory writes pictures just below it: the tree keeps its shape. */
  lemma {:induction false} SaveKeepsShape(t: Tree, m: Path, names: seq<string>, always: set<string>, png: string)
    requires Valid(t) && IsDirAt(t, m)
    ensures var r := SaveTargets(t, m, names, always, png).0;
      && Valid(r) && IsDirAt(r, m)
      && (forall q :: q in t ==> q in r && (r[q].Dir? <==> t[q].Dir?))
      && (forall q :: q in r && q !in t ==> |q| == |m| + 1)
    decreases |names|
  {
    if names != [] {
      SaveKeepsShape(t, m, names[..|names| - 1], always, png);
    }
  }

  /**
   * A `res` that is a file makes the first `mkdir` raise: nothing has been
   * written by then.
   */
  lemma {:induction false} FileResRaises(t: Tree, res: Path, ds: seq<Density>, names: seq<string>, always: set<string>, png: nat -> string)
    requires Valid(t) && res != [] && res in t && !t[res].Dir? && ds != []
    ensures Densities(t, res, ds, names, always, png) == Run(t, 0, true)
    decreases |ds|
  {
    var init := ds[..|ds| - 1];
    if init != [] {
      FileResRaises(t, res, init, names, always, png);
    } else {
      var m := MipmapDir(res, ds[0]);
      assert m !in t;
      assert MakeDirs(t, res).None?;
      assert MakeDirs(t, m).None?;
    }
  }

  // ---------------------------------------------------------------------
  // The whole operation
  // ---------------------------------------------------------------------

  /** An uploaded picture: none given, one that does not open, or its scaled PNG bytes. */
  datatype Picture = Missing | Broken | Loaded(png: nat -> string)

  datatype SplashStatus = NoSplash | SplashBroken | SplashDone(pictures: nat, layouts: nat)

  datatype Status =
    | NoIcon          // no icon path, or it does not exist: nothing is done
    | IconBroken      // the icon does not open: nothing is done
    | NoResDirectory  // no `src/main/res` anywhere
    | Raised          // a `mkdir` of a density directory raised
    | Done(icons: nat, manifests: nat, splash: SplashStatus)

  /** `rglob('src/main/res')`: every node, of any kind, whose path ends in those three names. */
  predicate IsResPath(p: Path)
  {
    |p| >= 3 && p[|p| - 3..] == ["src", "main", "res"]
  }

  function ResNodes(t: Tree): set<Path>
  {
    set p | p in t && IsResPath(p)
  }

  /**
   * `rglob('src/main/res/layout*')` restricted to directories, then
   * `glob('*.xml')` in each: the nodes so found that are text files are
   * the layouts rewritten.
   */
  predicate IsLayoutXml(t: Tree, p: Path)
  {
    && |p| >= 5 && p[|p| - 5..|p| - 2] == ["src", "main", "res"]
    && StartsWith(p[|p| - 2], "layout") && IsDirAt(t, Parent(p))
    && EndsWith(Name(p), ".xml")
  }

  function ManifestEdit(): string -> string
  {
    s => ManifestText(s)
  }

  function SplashEdit(): string -> string
  {
    s => SplashText(s)
  }

  function LayoutsOf(t: Tree): Path -> bool
  {
    p => IsLayoutXml(t, p)
  }

  /** The manifests pass, the splash pictures and the layouts pass, after the icons were saved. */
  function AfterIcons(t: Tree, res: Path, icons: nat, splash: Picture): (Tree, Status)
  {
    var mt := Rewritten(t, PackageText.IsManifest, ManifestEdit());
    var mc := |ChangedFiles(t, PackageText.IsManifest, ManifestEdit())|;
    match splash
    case Missing => (mt, Done(icons, mc, NoSplash))
    case Broken => (mt, Done(icons, mc, SplashBroken))
    case Loaded(img) =>
      var sp := Densities(mt, res, IconSizes, [SplashFile], {SplashFile}, img);
      if sp.raised then (sp.tree, Raised)
      else
        var lt := Rewritten(sp.tree, LayoutsOf(sp.tree), SplashEdit());
        (lt, Done(icons, mc, SplashDone(sp.count, |ChangedFiles(sp.tree, LayoutsOf(sp.tree), SplashEdit())|)))
  }

  /** `replace_app_icon`: the project afterwards and how far the operation got. */
  function AppIcon(t: Tree, icon: Picture, splash: Picture, resOrder: seq<Path>): (Tree, Status)
  {
    match icon
    case Missing => (t, NoIcon)
    case Broken => (t, IconBroken)
    case Loaded(img) =>
      if resOrder == [] then (t, NoResDirectory)
      else
        var run := Densities(t, resOrder[0], IconSizes, IconTargets, AlwaysWritten, img);
        if run.raised then (run.tree, Raised)
        else AfterIcons(run.tree, resOrder[0], run.count, splash)
  }

  /** The manifests pass writes nothing in a project whose mipmap icon references already name the launcher icons. */
  lemma SettledManifestsUntouched(t: Tree)
    requires forall p :: p in t && PackageText.IsManifest(p) && t[p].File? ==> IconSettled(t[p].text) && RoundSettled(t[p].text)
    ensures Rewritten(t, PackageText.IsManifest, ManifestEdit()) == t
    ensures ChangedFiles(t, PackageText.IsManifest, ManifestEdit()) == {}
  {
    forall p | p in t && PackageText.IsManifest(p) && t[p].File? ensures ManifestEdit()(t[p].text) == t[p].text {
      SettledManifestUnchanged(t[p].text);
    }
    RewrittenIdentity(t, PackageText.IsManifest, ManifestEdit());
  }

  /** A second manifests pass writes nothing: the first leaves every mipmap icon reference settled. */
  lemma ManifestsPassIdempotent(t: Tree)
    ensures var t' := Rewritten(t, PackageText.IsManifest, ManifestEdit());
      Rewritten(t', PackageText.IsManifest, ManifestEdit()) == t' && ChangedFiles(t', PackageText.IsManifest, ManifestEdit()) == {}
  {
    var t' := Rewritten(t, PackageText.IsManifest, ManifestEdit());
    RewrittenShape(t, PackageText.IsManifest, ManifestEdit());
    forall p | p in t' && PackageText.IsManifest(p) && t'[p].File? ensures IconSettled(t'[p].text) && RoundSettled(t'[p].text) {
      RewrittenAt(t, PackageText.IsManifest, ManifestEdit(), p);
      ManifestTextSettled(t[p].text);
    }
    SettledManifestsUntouched(t');
  }

  /** The layouts pass writes nothing in a project whose splash views already show `splash_screen`. */
  lemma SettledLayoutsUntouched(t: Tree)
    requires forall p :: p in t && IsLayoutXml(t, p) && t[p].File? ==> SplashSettled(t[p].text)
    ensures Rewritten(t, LayoutsOf(t), SplashEdit()) == t
    ensures ChangedFiles(t, LayoutsOf(t), SplashEdit()) == {}
  {
    forall p | p in t && LayoutsOf(t)(p) && t[p].File? ensures SplashEdit()(t[p].text) == t[p].text {
      SettledLayoutUnchanged(t[p].text);
    }
    RewrittenIdentity(t, LayoutsOf(t), SplashEdit());
  }

  /**
   * `replace_app_icon`. `resOrder` is the order in which `rglob` lists the
   * `src/main/res` nodes; the splash step uses the same first one.
   */
  method ReplaceAppIcon(t: Tree, icon: Picture, splash: Picture, resOrder: seq<Path>) returns (t': Tree, status: Status)
    requires ZipTools.Lists(resOrder, ResNodes(t))
    ensures (t', status) == AppIcon(t, icon, splash, resOrder)
    ensures icon.Missing? ==> t' == t && status == NoIcon
    ensures icon.Loaded? && ResNodes(t) == {} ==> t' == t && status == NoResDirectory
  {
    if icon.Missing? {
      return t, NoIcon;
    }
    if icon.Broken? {
      return t, IconBroken;
    }
    if resOrder == [] {
      return t, NoResDirectory;
    }
    assert resOrder[0] in ResNodes(t);
    var res := resOrder[0];
    var run := SaveAllDensities(t, res, IconTargets, AlwaysWritten, icon.png);
    if run.raised {
      return run.tree, Raised;
    }
    var mt, mc := RewriteFiles(run.tree, PackageText.IsManifest, ManifestEdit());
    match splash
    case Missing =>
      t', status := mt, Done(run.count, mc, NoSplash);
    case Broken =>
      t', status := mt, Done(run.count, mc, SplashBroken);
    case Loaded(img) =>
      var sp := SaveAllDensities(mt, res, [SplashFile], {SplashFile}, img);
      if sp.raised {
        return sp.tree, Raised;
      }
      var lt, lc := RewriteFiles(sp.tree, LayoutsOf(sp.tree), SplashEdit());
      t', status := lt, Done(run.count, mc, SplashDone(sp.count, lc));
  }

  /**
   * In a well-formed project whose first `res` is a directory and whose
   * density directories are directories or absent, the operation runs to
   * the end: nothing raises.
   */
  lemma RunsToTheEnd(t: Tree, icon: Picture, splash: Picture, resOrder: seq<Path>)
    requires Valid(t) && resOrder != [] && IsDirAt(t, resOrder[0]) && DensityDirsFree(t, resOrder[0], IconSizes)
    requires icon.Loaded?
    ensures AppIcon(t, icon, splash, resOrder).1.Done?
  {
    var res := resOrder[0];
    DensitiesInDirectory(t, res, IconSizes, IconTargets, AlwaysWritten, icon.png);
    var run := Densities(t, res, IconSizes, IconTargets, AlwaysWritten, icon.png);
    if splash.Loaded? {
      var mt := Rewritten(run.tree, PackageText.IsManifest, ManifestEdit());
      RewrittenShape(run.tree, PackageText.IsManifest, ManifestEdit());
      assert Valid(mt);
      assert DensityDirsFree(mt, res, IconSizes);
      DensitiesInDirectory(mt, res, IconSizes, [SplashFile], {SplashFile}, splash.png);
    }
  }

  /** A first `res` that is a file makes the operation raise before it writes anything. */
  lemma FileResLeavesProject(t: Tree, icon: Picture, splash: Picture, resOrder: seq<Path>)
    requires ZipTools.Lists(resOrder, ResNodes(t))
    requires Valid(t) && resOrder != [] && !t[resOrder[0]].Dir?
    requires icon.Loaded?
    ensures AppIcon(t, icon, splash, resOrder) == (t, Raised)
  {
    assert resOrder[0] in ResNodes(t);
    FileResRaises(t, resOrder[0], IconSizes, IconTargets, AlwaysWritten, icon.png);
  }
}
