/**
 * `replace_package_name` in backend/utils/file_replace.py: the build-file,
 * manifest, source-declaration and bulk text passes over the project tree,
 * then the move of the package directories, with the total count.
 */
module PackageRename {
  import opened Fs
  import opened TextScan
  import opened ReplTemplate
  import opened PackageText
  import opened PackageDirs

  /** The two stages before the declaration passes' results are combined: text passes, then directories. */
  datatype Passes = Passes(
    gradle: Tree, manifest: Tree, source: Tree, bulk: Tree,
    gradleCount: nat, manifestCount: nat, sourceCount: nat, bulkCount: nat)

  function GradleEdit(from: string, to: string): string -> string
  {
    s => GradleText(from, to, s)
  }

  function ManifestEdit(from: string, to: string): string -> string
  {
    s => ManifestText(from, to, s)
  }

  function SourceEdit(from: string, to: string): string -> string
  {
    s => SourceText(from, to, s)
  }

  function BulkEdit(from: string, to: string): string -> string
    requires from != ""
  {
    s => BulkText(from, to, s)
  }

  function SourceSel(base: Path): Path -> bool
  {
    p => IsSourceFile(base, p)
  }

  function BulkSel(base: Path): Path -> bool
  {
    p => IsBulkFile(base, p)
  }

  /** The four text passes in the source's order, each on the tree the previous one left. */
  function TextPasses(t: Tree, base: Path, from: string, to: string): (r: Passes)
    requires from != ""
    ensures r.bulk.Keys == t.Keys
    ensures forall p :: p in t ==> (r.bulk[p].Dir? <==> t[p].Dir?)
  {
    var t1 := Rewritten(t, IsGradleFile, GradleEdit(from, to));
    var t2 := Rewritten(t1, IsManifest, ManifestEdit(from, to));
    var t3 := Rewritten(t2, SourceSel(base), SourceEdit(from, to));
    var t4 := Rewritten(t3, BulkSel(base), BulkEdit(from, to));
    RewrittenShape(t, IsGradleFile, GradleEdit(from, to));
    RewrittenShape(t1, IsManifest, ManifestEdit(from, to));
    RewrittenShape(t2, SourceSel(base), SourceEdit(from, to));
    RewrittenShape(t3, BulkSel(base), BulkEdit(from, to));
    Passes(t1, t2, t3, t4,
      |ChangedFiles(t, IsGradleFile, GradleEdit(from, to))|,
      |ChangedFiles(t1, IsManifest, ManifestEdit(from, to))|,
      |ChangedFiles(t2, SourceSel(base), SourceEdit(from, to))|,
      |ChangedFiles(t3, BulkSel(base), BulkEdit(from, to))|)
  }

  /** The text passes keep the tree's shape and its listing of source directories. */
  lemma TextPassesKeepShape(t: Tree, base: Path, srcs: seq<Path>, from: string, to: string)
    requires from != "" && Valid(t) && SourceListing(t, srcs)
    ensures Valid(TextPasses(t, base, from, to).bulk)
    ensures SourceListing(TextPasses(t, base, from, to).bulk, srcs)
  {
  }

  /** The four text passes, run one after the other. */
  method RunTextPasses(t: Tree, base: Path, from: string, to: string) returns (t': Tree, count: nat)
    requires from != ""
    ensures var p := TextPasses(t, base, from, to);
      t' == p.bulk && count == p.gradleCount + p.manifestCount + p.sourceCount + p.bulkCount
  {
    var t1, t2, t3, c1, c2, c3, c4;
    t1, c1 := RewriteFiles(t, IsGradleFile, GradleEdit(from, to));
    t2, c2 := RewriteFiles(t1, IsManifest, ManifestEdit(from, to));
    t3, c3 := RewriteFiles(t2, SourceSel(base), SourceEdit(from, to));
    t', c4 := RewriteFiles(t3, BulkSel(base), BulkEdit(from, to));
    count := c1 + c2 + c3 + c4;
  }

  /**
   * `replace_package_name(root, old, new)`: nothing when no old package was
   * detected; otherwise the text passes, then the directory moves, counting
   * every file written and every directory moved.
   */
  method ReplacePackageName(t: Tree, base: Path, srcs: seq<Path>, from: string, to: string) returns (t': Tree, count: nat)
    requires Valid(t) && SourceListing(t, srcs)
    ensures from == "" ==> t' == t && count == 0
    ensures from != "" ==> (TextPassesKeepShape(t, base, srcs, from, to);
      var p := TextPasses(t, base, from, to);
      var d := RenameAll(p.bulk, srcs, Segments(from), Segments(to));
      t' == d.0 && count == p.gradleCount + p.manifestCount + p.sourceCount + p.bulkCount + d.1)
    ensures Valid(t')
  {
    if from == "" {
      return t, 0;
    }
    var t4, c4 := RunTextPasses(t, base, from, to);
    TextPassesKeepShape(t, base, srcs, from, to);
    var c5;
    t', c5 := RenamePackageDirs(t4, srcs, from, to);
    count := c4 + c5;
  }

  /**
   * Renaming a package to itself: the build files, the manifests and the
   * bulk sweep write nothing (only the declaration pass can still write, as
   * it respells the declaration line); then no directory moves, nothing is
   * added or changed, and every package directory of a listed source
   * directory is deleted with all its files.
   */
  lemma SamePackageDeletesSources(t: Tree, base: Path, srcs: seq<Path>, v: string)
    requires v != "" && SpliceSafe(v) && Valid(t) && SourceListing(t, srcs)
    ensures var p := TextPasses(t, base, v, v);
      && p.gradle == t && p.manifest == t && p.bulk == p.source
      && p.gradleCount == 0 && p.manifestCount == 0 && p.bulkCount == 0
      && (TextPassesKeepShape(t, base, srcs, v, v);
          var d := RenameAll(p.bulk, srcs, Segments(v), Segments(v));
          && d.1 == 0
          && (forall q :: q in d.0 ==> q in p.bulk && d.0[q] == p.bulk[q])
          && (forall k, q :: 0 <= k < |srcs| && IsDirAt(t, srcs[k] + Segments(v)) && q in d.0 ==>
                !AtOrBelow(srcs[k] + Segments(v), q)))
  {
    forall s ensures GradleEdit(v, v)(s) == s && ManifestEdit(v, v)(s) == s && BulkEdit(v, v)(s) == s {
      GradleTextSame(v, s);
      ReplaceBySelf(s, v);
    }
    RewrittenIdentity(t, IsGradleFile, GradleEdit(v, v));
    RewrittenIdentity(t, IsManifest, ManifestEdit(v, v));
    var p := TextPasses(t, base, v, v);
    RewrittenIdentity(p.source, BulkSel(base), BulkEdit(v, v));
    TextPassesKeepShape(t, base, srcs, v, v);
    assert forall k :: 0 <= k < |srcs| ==> srcs[k] != [] by {
      forall k | 0 <= k < |srcs| ensures srcs[k] != [] {
        assert IsSourceDir(srcs[k]);
      }
    }
    RenameAllSamePackage(p.bulk, srcs, Segments(v));
  }

  /**
   * A project unpacked below a folder named `build` has every path excluded
   * from the source and bulk passes: only the build files and the manifest
   * are rewritten.
   */
  lemma BuildAboveRootSkipsSources(t: Tree, base: Path, from: string, to: string)
    requires from != "" && "build" in base
    ensures var p := TextPasses(t, base, from, to);
      p.bulk == p.manifest && p.sourceCount == 0 && p.bulkCount == 0
  {
    var p := TextPasses(t, base, from, to);
    forall q ensures !SourceSel(base)(q) && !BulkSel(base)(q) {
      BuildAboveRootExcludesAll(base, q);
    }
    RewrittenIdentity(p.manifest, SourceSel(base), SourceEdit(from, to));
    RewrittenIdentity(p.source, BulkSel(base), BulkEdit(from, to));
  }
}
