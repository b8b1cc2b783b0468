# Android project rebuilder: a Dafny model of its rewrites

The rebuilder takes an uploaded Android project and rebrands it. It:

- finds the project root of the upload;
- detects the old package and replaces it everywhere: in the build files, in the manifests, in `package` declarations, in the bulk of the text files and in the package directories;
- renames the app and resets its version;
- points the `BASE_URL` constants at a new server;
- places a `google-services.json` with the package rewritten inside it;
- saves a new launcher icon and splash picture, and points the manifests and layouts at them;
- deletes build artifacts and packs the result into an archive.

This project models those rewrites and proves what they do.

- **The project.** A project is a tree: a map from paths (relative to the project root) to nodes, which are directories or text files (module `Fs`). `base` is the absolute location of the root, because several exclusion tests look at absolute path parts.
- **Regular expressions.** Every regular expression the rebuilder uses is written as a token pattern for one backtracking matcher (`TextScan`). The matcher tries alternatives in Python's `re` priority order, and `Sub` is `re.sub`: leftmost matches, non-overlapping. `MatchSound` and `MatchComplete` tie the matcher to a declarative acceptance relation. `str.replace` is `ReplaceAll`.
- **Replacement templates.** Templates follow Python's template reader (`ReplTemplate`). The source splices a user-given value between `\1` and `\2`, and the passes use these templates as written and as `re` reads them. So an app name or URL that starts with a digit is misread (`AppName.DigitNameBreaksStrings`), and a malformed escape makes `re` reject the template, leaving the file as it was. Each such edit also has a corrected form that puts the value literally. For a value without a backslash and without a leading digit the two agree (`AppName.SafeNameSplices`, `BaseUrl.SafeUrlSplices`).
- **As written, and corrected.** The package rename also runs as written: the declaration template `package new\1` drops the semicolon, and the directory step has no guard against nested or identical package directories. The corrected definitions (`PackageText.SourceTextKept`, `PackageDirs.GuardedStep`, the `...Kept` edits of the app name) appear only as the corrected halves of the findings below.
- **File passes.** Every pass over files is a method with a loop over the tree's paths, in an unspecified order. It is proved equal to the function `Fs.Rewritten`, and its count equals the number of files whose content changed.
- **Directory operations.** Moves, deletes and prunes are methods whose results are characterised path by path.
- **JSON.** `Firebase.Json` models the JSON document.
- **Version entries.** `VersionEntries` describes each version entry by where its key, its separator and its value lie, proves that the four patterns match exactly these entries, and follows the entries through the four substitutions.

## Model

| member | source | states |
|---|---|---|
| Fs.RewriteFiles | backend/utils/file_replace.py:98-127 | one pass visits every node in any order; it rewrites a selected text file only when its content changed, and counts exactly those files |
| Fs.CountZeroIffUnchanged | backend/utils/file_replace.py:124-127 | a pass counts zero exactly when it leaves the tree as it was |
| Fs.RewrittenShape | backend/utils/file_replace.py:98-127 | a pass changes file contents only: the same paths and the same directories |
| Fs.RewrittenIdentity | backend/utils/baseurl_replace.py:52-55 | when the edit leaves every selected text alone, the pass writes nothing |
| TextScan.MatchSound | backend/utils/file_replace.py:37 | whatever the matcher returns is a match of the pattern |
| TextScan.MatchComplete | backend/utils/file_replace.py:37 | if a pattern matches at a position at all, the matcher finds a match there |
| TextScan.SubChangedHasMatch | backend/utils/file_replace.py:104-108 | where `re.sub` changed a text, the pattern matched somewhere in it |
| TextScan.SubStable | backend/utils/file_replace.py:104-108 | where every match would be replaced by the text it matched, `re.sub` changes nothing |
| TextScan.SearchThenSub | backend/utils/icon_replace.py:236-237 | `re.sub` guarded by `re.search` is `re.sub` alone |
| TextScan.ReplaceChangesIffOccurs | backend/utils/file_replace.py:236 | `str.replace` with a different replacement changes the text exactly when the target occurs in it |
| ReplTemplate.ParseLiteral | backend/utils/file_replace.py:365 | a template without a backslash is read as its own text |
| ReplTemplate.SurroundIsKeep | backend/utils/file_replace.py:346 | with a value that has no backslash and no leading digit, the template `\1` + value + `\2` keeps both groups of every match and puts the value between them |
| ReplTemplate.AttrFromHolds | backend/utils/icon_replace.py:286-297 | when the reset's replacement cannot overlap a site of another attribute pattern, every such site in the output holds its value, provided the sites in the input that the reset leaves alone did |
| ReplTemplate.AttrTextIdempotent | backend/utils/icon_replace.py:286-297 | when no site can begin inside or run into a replacement, a second reset of a quoted attribute changes nothing |
| PackageText.DetectOldPackage | backend/utils/file_replace.py:25-65 | only the first listed `build.gradle*` of the module is read; the result is `None` when there is none or it cannot be read, and otherwise is the value the patterns detect in its text |
| PackageText.DetectNoneIff | backend/utils/file_replace.py:36-60 | nothing is detected exactly when none of the three patterns matches anywhere |
| PackageText.DetectPriority | backend/utils/file_replace.py:36-55 | a detected value is the group of the leftmost match of the first pattern, in priority order, that matches anywhere |
| PackageText.GradleTextExact | backend/utils/file_replace.py:104-122 | the build-file and manifest substitutions change nothing where the old package never stands between two quotes, so a longer id that only shares its prefix is untouched |
| PackageText.GradleTextSame | backend/utils/file_replace.py:137-141 | rewriting a declaration to the package it already names leaves the text as it is |
| PackageText.SourceRewritesSite | backend/utils/file_replace.py:162-167 | as written, each rewritten declaration becomes `package new` plus the sub-package suffix, with the semicolon and trailing whitespace dropped |
| PackageText.SourceChangedHasDecl | backend/utils/file_replace.py:162-167 | a source file changes only where a line-initial `package old` declaration stands |
| PackageText.SourceKeptRewritesSite | backend/utils/file_replace.py:162-167 | with the correction, each rewritten declaration keeps everything after the old package up to the line end |
| PackageText.BulkChangesIffOccurs | backend/utils/file_replace.py:236-241 | the bulk sweep changes, and so writes and counts, a file exactly when the old package occurs in it |
| PackageText.BulkRewritesNewPackage | backend/utils/file_replace.py:178-181 | when the new package contains the old one, the sweep rewrites again the names the declaration passes just wrote |
| PackageText.BuildAboveRootExcludesAll | backend/utils/file_replace.py:155 | a project unpacked below a folder named `build` has no source file and no bulk file |
| PackageExamples.SourceSwallowsBlankLine | backend/utils/file_replace.py:163 | the trailing `\s*` takes a blank line after the declaration along with it |
| PackageExamples.SourceDropsSemicolon | backend/utils/file_replace.py:163-164 | as written, `package a;` becomes `package new` |
| PackageExamples.SourceKeptSemicolon | backend/utils/file_replace.py:163-164 | with the correction, `package a;` becomes `package new;` |
| PackageRename.RunTextPasses | backend/utils/file_replace.py:97-181 | the four text passes run as written and in the source's order; the declaration pass uses the template `package new\1`, and the total is the sum of the four counts |
| PackageRename.TextPassesKeepShape | backend/utils/file_replace.py:97-181 | the text passes keep the tree well formed, with the same source directories |
| PackageRename.ReplacePackageName | backend/utils/file_replace.py:87-189 | an empty old package changes nothing and counts 0; otherwise the text passes run as written, then the unguarded directory walk, and every file written and every directory moved is counted |
| PackageRename.SamePackageDeletesSources | backend/utils/file_replace.py:98-186 | renaming a package to itself: build files, manifests and the bulk sweep write nothing; then no directory moves, nothing is added or changed, and every package directory of a listed source directory is deleted with all its files |
| PackageRename.BuildAboveRootSkipsSources | backend/utils/file_replace.py:152-228 | below a `build` folder, only the build files and the manifests are rewritten |
| PackageDirs.SegmentsJoin | backend/utils/file_replace.py:264-265 | for a package without empty parts, the directory path spells the package back |
| PackageDirs.PruneEmpty | backend/utils/file_replace.py:304-314 | the bottom-up walk removes exactly the directories strictly below the start that hold no file however deep, and keeps every other node |
| PackageDirs.PrunedLeavesNoEmptyDir | backend/utils/file_replace.py:306-311 | after pruning, no directory strictly below the start is empty |
| PackageDirs.PrunedKeepsFiles | backend/utils/file_replace.py:306-311 | pruning keeps every file and everything outside the start directory |
| PackageDirs.RenameOne | backend/utils/file_replace.py:277-299 | one source directory is handled as the source does it, without a guard: make the parent, delete an existing target, move, prune; whatever raises ends the attempt with the changes so far kept and nothing counted |
| PackageDirs.RenameStepMovedIff | backend/utils/file_replace.py:277-292 | a move is counted exactly when the old directory exists, the two paths are apart, the parent can be made and no file stands at the new path; nested paths never move |
| PackageDirs.RenameStepEffect | backend/utils/file_replace.py:282-295 | after a counted move, the old directory is gone, everything at or below the new one came from the old one, every file below the old one stands at its rebased path with its content, other files are untouched, and no directory below the source directory is empty |
| PackageDirs.GuardedStepKeepsSources | backend/utils/file_replace.py:277-299 | the corrected step, guarded against nested paths, loses no file: each one is moved, or stays where it was |
| PackageDirs.AsWrittenNestedLosesSources | backend/utils/file_replace.py:285-290 | as written, with nested old and new directories that both exist, `rmtree` deletes the sources, nothing is moved, and nothing is left at or below the new path |
| PackageDirs.RenamePackageDirs | backend/utils/file_replace.py:255-301 | every listed source directory is handled in turn by the unguarded step; the tree stays well formed and the moves are counted |
| PackageDirs.RenameAllSamePackage | backend/utils/file_replace.py:255-301 | as written, renaming a package to itself counts no move, only deletes nodes, and deletes every package directory a listed source directory held |
| AppName.ReplaceAppName | backend/utils/file_replace.py:317-400 | the `strings.xml`, manifest-label and `settings.gradle*` passes run in order, with the name spliced into the templates as written; the count is the sum of the files each wrote |
| AppName.PassesTouchOnlyTargets | backend/utils/file_replace.py:338-378 | a node that is none of the three kinds of target is left as it is |
| AppName.TargetWritten | backend/utils/file_replace.py:338-390 | each target ends up with its own edit as written applied to its text; for a safe name, that is the name put literally between the kept groups |
| AppName.WrittenFileHadSite | backend/utils/file_replace.py:344-390 | a file the operation changed is a target and held a site of its pattern |
| AppName.LabelSettled | backend/utils/file_replace.py:363-367 | a manifest whose labels all read `@string/app_name` is not changed |
| AppName.LabelFirstSite | backend/utils/file_replace.py:363-367 | the leftmost `android:label="…"` becomes `android:label="@string/app_name"`, and the text before it is kept |
| AppName.SafeNameSplices | backend/utils/file_replace.py:344-388 | for a name without a backslash or a leading digit, the spliced template puts the name between the kept groups |
| AppName.DigitNameBreaksStrings | backend/utils/file_replace.py:344-348 | the name `2048` is misread: `\120` becomes the octal escape for `P`, so the result differs from the name between the two groups |
| AppName.DigitNameBreaksSettings | backend/utils/file_replace.py:384-388 | the same misreading in `settings.gradle` |
| VersionReset.ResetVersion | backend/utils/file_replace.py:422-458 | every `build.gradle*` goes through the four substitutions; only changed files are written and counted |
| VersionReset.ResetStepsWellFormed | backend/utils/file_replace.py:428-453 | the four replacement templates are literal text |
| VersionReset.SettledUnchanged | backend/utils/file_replace.py:428-453 | a text whose every version entry already reads as the reset value is not changed |
| VersionReset.NoEntryUnchanged | backend/utils/file_replace.py:428-453 | a text without any version entry is not changed |
| VersionReset.ChangedWasUnsettled | backend/utils/file_replace.py:428-455 | a changed text held a version entry other than the reset value |
| VersionReset.ResetOfSettledProject | backend/utils/file_replace.py:422-458 | a project whose build files are all reset already is not written at all |
| VersionEntries.MatchIsEntry | backend/utils/file_replace.py:428-453 | each of the four patterns matches at a position exactly when an entry of its form starts there (its key, then `\s+` or `\s*=\s*`, then digits or a quoted text), and the match ends where that entry ends |
| VersionEntries.InValue | backend/utils/file_replace.py:428-453 | an entry of any of the four forms that starts inside a freshly put replacement reads that form's reset value |
| VersionEntries.CopiedSite | backend/utils/file_replace.py:428-453 | an entry that starts in the text copied ahead of a replacement reads its form's reset value, when the entries of the input there that the substitution leaves alone did; a code substitution is followed only by code forms here |
| VersionEntries.StepAt | backend/utils/file_replace.py:428-453 | `re.sub` copies the text up to the first entry of its form, puts the value for that entry and goes on after it, and there is no entry of that form in the copied text |
| VersionEntries.StepNone | backend/utils/file_replace.py:428-453 | where no entry of the form is left, `re.sub` copies the rest of the text |
| VersionEntries.RestStart | backend/utils/file_replace.py:428-439 | after a replaced `versionCode` entry, the text the substitution goes on with does not begin with a digit, so the `1` it put is not extended |
| VersionEntries.Keeps | backend/utils/file_replace.py:428-453 | one substitution leaves every entry of a form reading that form's reset value, when each such entry of the input that the substitution does not replace already did, and the substitution rewrites a code entry only if the form is a code form |
| VersionEntries.Establishes | backend/utils/file_replace.py:428-453 | after a substitution, every entry of its own form reads its replacement |
| VersionEntries.Preserves | backend/utils/file_replace.py:428-453 | a later substitution keeps the entries an earlier one settled |
| VersionEntries.ResetSteps | backend/utils/file_replace.py:428-453 | the reset of a text is the four substitutions in the source's order |
| VersionEntries.ResetReads | backend/utils/file_replace.py:428-453 | after the reset, every entry of each of the four forms reads `versionCode 1`, `versionCode = 1`, `versionName "1.0.0"` or `versionName = "1.0.0"` |
| VersionEntries.ReadsSettled | backend/utils/file_replace.py:428-453 | a text whose entries of a form all read that form's value is settled for its substitution |
| VersionEntries.ResetTwice | backend/utils/file_replace.py:428-453 | resetting a text that has already been reset gives the same text |
| VersionEntries.ResetProjectTwice | backend/utils/file_replace.py:422-458 | a second reset of a project changes no file and counts none |
| BaseUrl.ReplaceBaseUrl | backend/utils/baseurl_replace.py:26-125 | an empty new URL changes nothing and reports a skip; otherwise the gradle, source and `strings.xml` passes run with the URL spliced as written; the report counts the changed files and warns on zero; the old URL plays no part |
| BaseUrl.SafeUrlSplices | backend/utils/baseurl_replace.py:40-113 | for a URL without a backslash or a leading digit, the spliced templates keep both groups of every site |
| BaseUrl.DigitUrlRejected | backend/utils/baseurl_replace.py:40-113 | the URL `192.168.0.10:8080/` turns every template into a reference to group 11, which `re` rejects, so no build file, source file or `strings.xml` changes |
| BaseUrl.GradleSettled | backend/utils/baseurl_replace.py:40-50 | a build file whose `buildConfigField` `BASE_URL`s already hold the URL is not changed by the literal edit, nor, for a safe URL, by the edit as written |
| BaseUrl.SourceSettled | backend/utils/baseurl_replace.py:69-85 | a source file whose three kinds of `BASE_URL` constant already hold the URL is not changed by the literal edit, nor, for a safe URL, by the edit as written |
| BaseUrl.StringsSettled | backend/utils/baseurl_replace.py:103-113 | a `strings.xml` whose `base_url` and `BASE_URL` strings already hold the URL is not changed by the literal edit, nor, for a safe URL, by the edit as written |
| BaseUrl.GradleChangedHasSite | backend/utils/baseurl_replace.py:40-52 | a build file changed by the edit as written, or by the literal one, held a `buildConfigField` site of the parenthesised or the Groovy form |
| BaseUrl.UntouchedOutsideTargets | backend/utils/baseurl_replace.py:33-96 | files outside the three categories are left alone |
| BaseUrl.BuildSourcesUntouched | backend/utils/baseurl_replace.py:62-63 | a source file with a `build` path part is skipped |
| BaseUrl.SettledProject | backend/utils/baseurl_replace.py:52-125 | a project whose files all hold the URL already is not written, and the count is zero |
| ArtifactCleanup.CleanBuildArtifacts | backend/utils/cleanup.py:23-55 | the nested loops over the eight names and their `rglob` hits give the cleanup result, and the closing report follows from the count |
| ArtifactCleanup.WalkIsPass | backend/utils/cleanup.py:37-48 | visiting the hits shortest path first deletes and counts exactly the hits that can be deleted and have no such hit above them, and logs the locked ones still present |
| ArtifactCleanup.CleanAllKeeps | backend/utils/cleanup.py:36-48 | a node survives exactly when no ancestor-or-self below the root has a target name and could be deleted; survivors are unchanged |
| ArtifactCleanup.CleanedLeavesNoTarget | backend/utils/cleanup.py:23-46 | no node with a target name, `local.properties` included, survives unless deleting it raised |
| ArtifactCleanup.NothingToCleanReport | backend/utils/cleanup.py:50-51 | a project with nothing to clean is left as it is, and the report says so |
| ArtifactCleanup.Summary | backend/utils/cleanup.py:50-53 | the report is "nothing found" exactly when the count is zero, and otherwise carries the count |
| ZipTools.ProjectRootShape | backend/utils/zip_tools.py:29-65 | the root is the extraction directory exactly when there is not one top candidate; otherwise it is a directory under that candidate; a nested root holds a marker while the candidate holds none |
| ZipTools.WrappedProjectRoot | backend/utils/zip_tools.py:33-43 | a single top folder that holds a Gradle root file is the root |
| ZipTools.NestedProjectRoot | backend/utils/zip_tools.py:44-58 | otherwise, the single sub-folder that holds a Gradle root file is the root |
| ZipTools.FlatSingleModuleMisplaced | backend/utils/zip_tools.py:29-43 | an upload with `settings.gradle` at its top and a single module folder `app` resolves to `app` |
| ZipTools.ProjectRootKeptSound | backend/utils/zip_tools.py:29-65 | the corrected root is never a folder strictly inside a directory that holds a Gradle root file, where the code's root can be (`FlatSingleModuleMisplaced`); it is the top when the top holds one, and otherwise agrees with the code |
| ZipTools.CreateZip | backend/utils/zip_tools.py:90-127 | the log entry comes first, only for a non-empty log; then one entry for each archived file, under distinct names; the count covers the files only |
| ZipTools.ArchiveFiles | backend/utils/zip_tools.py:102-121 | the walk yields the entries of exactly the archived files, each once |
| ZipTools.WalkedArchive | backend/utils/zip_tools.py:102-121 | the entries of a walk over the archived files are the archived entries, under pairwise distinct names |
| ZipTools.ArchiveNameInjective | backend/utils/zip_tools.py:112-118 | two files never share an archive name |
| ZipTools.ArchivedFilesClean | backend/utils/zip_tools.py:104-118 | an archived file has no excluded path part, and with a folder name its entry is `folder/rel` |
| ZipTools.ExcludedBaseShipsNothing | backend/utils/zip_tools.py:104 | a source directory below an excluded folder ships no file at all |
| ZipTools.AppModule | backend/utils/zip_tools.py:143-157 | the module is `app` when `app/src/main` exists; else the parent of the first listed `build.gradle*` that has `src/main`; else the project root; a result other than `app` or the root holds `src/main` and a `build.gradle*` |
| ZipTools.FallbackMeansNoModule | backend/utils/zip_tools.py:156-157 | the fallback is taken only when no `build.gradle*` sits beside a `src/main` |
| Firebase.UpdatePackage | backend/utils/firebase.py:109-141 | the in-place recursive rewrite gives `Updated`, and its flag is true exactly when the old package appears as a value at some depth |
| Firebase.UpdatedKeepsStructure | backend/utils/firebase.py:123-139 | keys, key order, list lengths and non-string values are kept |
| Firebase.UnmentionedUnchanged | backend/utils/firebase.py:121-141 | a document without the old package as a value is not changed |
| Firebase.ModifiedIffChanged | backend/utils/firebase.py:121-141 | with distinct names, the flag is true exactly when the document changes |
| Firebase.NoOldLeft | backend/utils/firebase.py:123-139 | with distinct names, no value equal to the old package is left at any depth |
| Firebase.UpdatedIdempotent | backend/utils/firebase.py:123-139 | a second rewrite changes nothing |
| Firebase.RenameBack | backend/utils/firebase.py:123-139 | when the new package was not a value already, renaming back restores the document |
| Firebase.Examples | backend/utils/firebase.py:123-139 | a whole-string value is replaced; a key, a longer string and a bare top-level string are not |
| Firebase.FirebaseModule | backend/utils/firebase.py:49-54 | the default module is `app` when it exists; else the folder of the first `build.gradle*` with `src` beside it, or of the last one when none has |
| Firebase.ModuleChoiceUnique | backend/utils/firebase.py:49-54 | that choice is determined by the tree and the walk order |
| Firebase.ReplaceGoogleServices | backend/utils/firebase.py:30-106 | without an upload, nothing is written and a skip is reported; the targets are the existing copies outside build output, or else the three defaults of the module; each target is placed in turn, and the report carries the count |
| Firebase.PlaceOne | backend/utils/firebase.py:68-99 | with both names given, a target gets the rewritten document; otherwise it gets a verbatim copy; a failed `mkdir` places nothing |
| Firebase.FreshTargetsPlaced | backend/utils/firebase.py:56-96 | fresh targets under existing directories are all placed and counted |
| Firebase.UnparsableUploadPlacesNothing | backend/utils/firebase.py:74-99 | an upload that does not parse as JSON places nothing when the package is renamed |
| PackageNameCheck.ValidateIff | backend/main.py:31-39 | a name is accepted exactly when it is lowercase dotted segments, optionally followed by one final line feed |
| PackageNameCheck.AcceptedHasSegments | backend/main.py:38 | an accepted name has at least two non-empty segments, each starting with a lowercase letter |
| PackageNameCheck.NewlineOnlyLast | backend/main.py:38-39 | a line feed anywhere but at the end rejects the name |
| PackageNameCheck.Admit | backend/main.py:60-64 | an invalid name is refused with status 400 before anything is processed |
| IconText.SettledManifestUnchanged | backend/utils/icon_replace.py:286-299 | a manifest whose mipmap icon references already name the launcher icons is not changed |
| IconText.NoMipmapReferenceUnchanged | backend/utils/icon_replace.py:286-297 | a manifest without mipmap icon references (for example, only `@drawable/…`) is not changed |
| IconText.ChangedManifestHadOther | backend/utils/icon_replace.py:286-299 | a changed manifest held an icon reference that named something else |
| IconText.FirstIconReference | backend/utils/icon_replace.py:286-290 | the leftmost `android:icon="@mipmap/…"` is set to `ic_launcher`, and the text before it is kept |
| IconText.IconTextSettled | backend/utils/icon_replace.py:286-290 | after the `android:icon` substitution, every `android:icon="@mipmap/…"` reference in the text names `ic_launcher`, including one the substitution itself could have formed |
| IconText.RoundTextSettled | backend/utils/icon_replace.py:292-297 | after the `android:roundIcon` substitution, every round-icon reference names `ic_launcher_round` |
| IconText.RoundTextKeepsIcon | backend/utils/icon_replace.py:286-297 | the round-icon substitution neither creates nor alters an `android:icon` reference, so settled icon references stay settled |
| IconText.ManifestTextSettled | backend/utils/icon_replace.py:286-297 | after both substitutions, every mipmap icon and round-icon reference names the launcher icons |
| IconText.ManifestTextIdempotent | backend/utils/icon_replace.py:286-299 | rewriting the icon references a second time changes nothing |
| IconText.SplashTextKept | backend/utils/icon_replace.py:235-242 | the guarded edits keep both groups of every site and put `@mipmap/splash_screen` between them, id-first rule first |
| IconText.SettledLayoutUnchanged | backend/utils/icon_replace.py:235-244 | a layout whose splash image already is `splash_screen` is not changed |
| IconText.NoSplashViewUnchanged | backend/utils/icon_replace.py:235-244 | a layout without a splash ImageView that has a mipmap source is not changed |
| IconText.FirstSplashView | backend/utils/icon_replace.py:235-237 | at the leftmost id-first splash ImageView, the source becomes `@mipmap/splash_screen` |
| Icons.MipmapDir | backend/utils/icon_replace.py:86 | a density directory sits directly in `res` |
| Icons.SaveTargetsEffect | backend/utils/icon_replace.py:97-111 | exactly the targets that are tried and can be saved hold the picture; every other node is as it was; the count is their number |
| Icons.LauncherTargets | backend/utils/icon_replace.py:74-103 | `ic_launcher.png` and `ic_launcher_round.png` are written unless a node other than a file (a directory, or a node that cannot be read) stands in their place; the other three are written only where such a file already exists |
| Icons.SaveDensity | backend/utils/icon_replace.py:97-111 | the targets loop of one density does what `SaveTargets` describes |
| Icons.SaveAllDensities | backend/utils/icon_replace.py:85-113 | the densities loop, in `ICON_SIZES` order, does what `Densities` describes |
| Icons.RaisedStays | backend/utils/icon_replace.py:88-91 | once a `mkdir` has raised, the later densities are not reached |
| Icons.DensitiesInDirectory | backend/utils/icon_replace.py:85-113 | in a well-formed tree, when `res` is a directory and no density directory is taken by a file, nothing raises, the tree stays well formed, and every density directory exists |
| Icons.FileResRaises | backend/utils/icon_replace.py:88-91 | a `res` that is a file makes the first `mkdir` raise before anything is written |
| Icons.ReplaceAppIcon | backend/utils/icon_replace.py:39-129 | a missing icon does nothing; with no `src/main/res`, nothing is done; otherwise icons, manifests and the splash are handled in order, as `AppIcon` describes |
| Icons.SettledManifestsUntouched | backend/utils/icon_replace.py:280-303 | the manifest pass writes nothing in a project whose icon references already name the launcher icons |
| Icons.ManifestsPassIdempotent | backend/utils/icon_replace.py:280-303 | a second manifest pass neither changes nor writes any file |
| Icons.SettledLayoutsUntouched | backend/utils/icon_replace.py:222-247 | the layout pass writes nothing in a project whose splash views already show `splash_screen` |
| Icons.RunsToTheEnd | backend/utils/icon_replace.py:65-129 | in a well-formed project whose first `res` is a directory, with density directories that are directories or absent, the operation runs to the end |
| Icons.FileResLeavesProject | backend/utils/icon_replace.py:65-91 | a first `res` that is a file makes the operation raise before it writes anything |

## Left out

- Reading, writing and walking the real filesystem. The project is a value, and the order in which `rglob` lists paths is a parameter wherever the result depends on it: the first `res` directory, the module search in `get_app_module_path` and `replace_google_services`, and the existing `google-services.json` files. Passes whose result does not depend on the order iterate over the path set in an unspecified order.
- Log lines. Logs are modelled as counts and small report values (`Report`, `UrlReport`, `Status`); the wording, emoji and tracebacks are not modelled.
- Decoding with `errors='ignore'`. Files are text already. A node that cannot be read as text (a directory hit by a glob) is skipped, as the per-file `except` does.
- Write failures and permission errors. The model captures them in three ways. First, a directory stands where a file is written, or a file stands where a directory is created (`mkdir` in the icon and Firebase code, and the move step). Second, the icon save refuses a target that is a node which cannot be read (`Unreadable`). Third, the cleanup pass has a set `locked` of paths whose deletion raises. Other failures are not modelled.
- ArtifactCleanup.CleanBuildArtifacts: a deletion that raises is modelled as deleting nothing, so a locked node stays with everything below it that no other deletion removes. In the source, `shutil.rmtree` deletes from the bottom up and can remove part of a directory before it raises (backend/utils/cleanup.py:40). Which part is gone then depends on the filesystem, so the model does not say.
- Pillow. Resizing and PNG encoding are a parameter `png(n)`: the picture scaled to `n` by `n`. An image that does not open is `Picture.Broken`. The branch for a missing Pillow is not modelled.
- `json.load` and `json.dump`. These are parameters: the upload's parsed document (or `None` when it does not parse), and a `dump` function from documents to text. `shutil.copy2` metadata is not modelled.
- Zip extraction, deflate and the archive's byte format. The archive is its list of entries.
- `TextScan` Digit: `\d` is modelled as the ASCII digits, while Python's `\d` on text also accepts other Unicode decimal digits. This affects `versionCode` values only.
- CreateZip: the output archive is not part of the walked tree, so the model assumes it lies outside the directory being archived. In the source the archive is opened before the walk (backend/utils/zip_tools.py:90, 102). When root resolution falls back to the extraction directory, the archive is written inside that directory (backend/processor.py:136-143), and the walk can pick up the partly written archive itself.
- The web endpoint, the standalone desktop app, the orchestration in the processor and the helper scripts are not part of this model. Of `backend/main.py`, only the name check and its HTTP 400 refusal are modelled.

## Findings

| source | as written | input that shows it | evidently intended | confidence | as-written member | corrected member |
|---|---|---|---|---|---|---|
| backend/utils/file_replace.py:277-292 | when the old and new package directories are nested (also when they are the same package), `rmtree(new)` deletes the old directory's content before `move` raises | old package `com.a.b`, new package `com.a`: `src/main/java/com/a` and everything below it are deleted, and nothing is moved | skip the delete and the move when the paths are nested, and keep the sources | medium (not executed) | PackageDirs.AsWrittenNestedLosesSources | PackageDirs.GuardedStepKeepsSources |
| backend/utils/file_replace.py:162-167 | the replacement `package new\1` keeps only the sub-package group of a declaration; the semicolon and the whitespace that follow are dropped, including a following blank line | `package a;` in a Java file becomes `package new`, which does not compile | keep whatever followed the old package on the line | high (not executed) | PackageExamples.SourceDropsSemicolon | PackageExamples.SourceKeptSemicolon |
| backend/utils/file_replace.py:344-348 | an app name that starts with a digit is spliced after `\1`, and Python reads the result as another group reference | the name `2048`: in the template `\12048\2`, `\120` is read as the octal escape for `P`, so the file gets `P48` and loses the opening `<string name="app_name">` | put the name literally between the two groups | high (not executed) | AppName.DigitNameBreaksStrings | AppName.SafeNameSplices |
| backend/utils/zip_tools.py:29-43 | an upload whose top already is a Gradle root, with a single module folder, resolves to the module folder | `settings.gradle` and `app/build.gradle` at the top of the upload: the root becomes `app` | check the extraction directory for a Gradle root file before descending | low (not executed) | ZipTools.FlatSingleModuleMisplaced | ZipTools.ProjectRootKeptSound |
