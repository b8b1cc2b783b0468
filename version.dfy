/**
 * `reset_version` in backend/utils/file_replace.py: every `build.gradle*`
 * file below the project root is passed through four substitutions, in
 * this order, and written back when its text changed.
 *
 *   `versionCode\s+\d+`                  becomes `versionCode 1`
 *   `versionCode\s*=\s*\d+`              becomes `versionCode = 1`
 *   `versionName\s+["'][^"']*["']`       becomes `versionName "1.0.0"`
 *   `versionName\s*=\s*["'][^"']*["']`   becomes `versionName = "1.0.0"`
 *
 * None of the four templates has a backslash, so `re` puts each one's
 * text as it is.
 */
module VersionReset {
  import opened Wrappers
  import opened Fs
  import opened TextScan
  import opened ReplTemplate
  import PackageText

  /** One substitution: a group-free pattern and the text that replaces each match. */
  datatype Step = Step(pattern: seq<Tok>, value: string)

  const CodeSpaced: seq<Tok> := [Lit(CodeKey), Star(Space, 1), Star(Digit, 1)]
  const CodeAssigned: seq<Tok> := [Lit(CodeKey), Star(Space, 0), Lit("="), Star(Space, 0), Star(Digit, 1)]
  const NameSpaced: seq<Tok> :=
    [Lit(NameKey), Star(Space, 1), One(AnyOf(PackageText.Quotes)), Star(NoneOf(PackageText.Quotes), 0), One(AnyOf(PackageText.Quotes))]
  const NameAssigned: seq<Tok> :=
    [Lit(NameKey), Star(Space, 0), Lit("="), Star(Space, 0),
     One(AnyOf(PackageText.Quotes)), Star(NoneOf(PackageText.Quotes), 0), One(AnyOf(PackageText.Quotes))]

  const CodeKey: string := "versionCode"
  const NameKey: string := "versionName"
  const CodeOne: string := CodeKey + " 1"
  const CodeAssignedOne: string := CodeKey + " = 1"
  const NameFirst: string := NameKey + " \"1.0.0\""
  const NameAssignedFirst: string := NameKey + " = \"1.0.0\""

  /** The four substitutions in the source's order. */
  function Steps(): seq<Step>
  {
    [Step(CodeSpaced, CodeOne), Step(CodeAssigned, CodeAssignedOne), Step(NameSpaced, NameFirst), Step(NameAssigned, NameAssignedFirst)]
  }

  predicate StepsWellFormed(steps: seq<Step>)
  {
    forall k :: 0 <= k < |steps| ==> MinWidth(steps[k].pattern) >= 1
  }

  /** Every pattern consumes at least one character and every template is read as its own text. */
  lemma ResetStepsWellFormed()
    ensures StepsWellFormed(Steps())
    ensures forall k :: 0 <= k < |Steps()| ==> ParseTemplate(Steps()[k].value, []) == Some(Chars(Steps()[k].value))
  {
    PatternsWide();
    TemplatesLiteral();
  }

  lemma PatternsWide()
    ensures MinWidth(CodeSpaced) >= 1 && MinWidth(CodeAssigned) >= 1
    ensures MinWidth(NameSpaced) >= 1 && MinWidth(NameAssigned) >= 1
  {
    assert CodeSpaced == [Lit(CodeKey)] + CodeSpaced[1..];
    assert CodeAssigned == [Lit(CodeKey)] + CodeAssigned[1..];
    assert NameSpaced == [Lit(NameKey)] + NameSpaced[1..];
    assert NameAssigned == [Lit(NameKey)] + NameAssigned[1..];
  }

  lemma TemplatesLiteral()
    ensures ParseTemplate(CodeOne, []) == Some(Chars(CodeOne))
    ensures ParseTemplate(CodeAssignedOne, []) == Some(Chars(CodeAssignedOne))
    ensures ParseTemplate(NameFirst, []) == Some(Chars(NameFirst))
    ensures ParseTemplate(NameAssignedFirst, []) == Some(Chars(NameAssignedFirst))
  {
    assert '\\' !in CodeKey && '\\' !in NameKey;
    assert '\\' !in " 1" && '\\' !in " = 1" && '\\' !in " \"1.0.0\"" && '\\' !in " = \"1.0.0\"";
    ParseLiteral(CodeOne, []);
    ParseLiteral(CodeAssignedOne, []);
    ParseLiteral(NameFirst, []);
    ParseLiteral(NameAssignedFirst, []);
  }

  /** The substitutions one after the other, each on the text the previous one left. */
  function ApplySteps(steps: seq<Step>, s: string): string
    requires StepsWellFormed(steps)
    decreases |steps|
  {
    if steps == [] then s
    else ApplySteps(steps[1..], Sub(steps[0].pattern, Chars(steps[0].value), s))
  }

  /** The text of one gradle file after the reset. */
  function ResetText(s: string): string
  {
    ResetStepsWellFormed();
    ApplySteps(Steps(), s)
  }

  /** Every match of the step's pattern in `s` already reads its replacement. */
  ghost predicate Settled(st: Step, s: string)
  {
    forall j :: 0 <= j < |s| && Match(st.pattern, s, j).Some? ==> s[j..Match(st.pattern, s, j).value.end] == st.value
  }

  /** The step's pattern matches nowhere in `s`. */
  ghost predicate NoSite(st: Step, s: string)
  {
    forall j :: 0 <= j < |s| ==> Match(st.pattern, s, j).None?
  }

  /** A text where every version entry already reads `1` / `1.0.0` is left alone. */
  lemma {:induction false} SettledUnchanged(steps: seq<Step>, s: string)
    requires StepsWellFormed(steps)
    requires forall k :: 0 <= k < |steps| ==> Settled(steps[k], s)
    ensures ApplySteps(steps, s) == s
    decreases |steps|
  {
    if steps != [] {
      assert Settled(steps[0], s);
      LiteralSettled(steps[0].pattern, steps[0].value, s);
      assert forall k :: 0 <= k < |steps[1..]| ==> Settled(steps[1..][k], s) by {
        forall k | 0 <= k < |steps[1..]| ensures Settled(steps[1..][k], s) {
          assert steps[1..][k] == steps[k + 1];
        }
      }
      assert StepsWellFormed(steps[1..]) by {
        forall k | 0 <= k < |steps[1..]| ensures MinWidth(steps[1..][k].pattern) >= 1 {
          assert steps[1..][k] == steps[k + 1];
        }
      }
      SettledUnchanged(steps[1..], s);
    }
  }

  /** A site-free step is settled: there is nothing to rewrite. */
  lemma NoSiteSettled(st: Step, s: string)
    requires NoSite(st, s)
    ensures Settled(st, s)
  {
  }

  /** A text with no version entry at all is left alone. */
  lemma NoEntryUnchanged(s: string)
    requires forall k :: 0 <= k < |Steps()| ==> NoSite(Steps()[k], s)
    ensures ResetText(s) == s
  {
    ResetStepsWellFormed();
    forall k | 0 <= k < |Steps()| ensures Settled(Steps()[k], s) {
      NoSiteSettled(Steps()[k], s);
    }
    SettledUnchanged(Steps(), s);
  }

  /** A text the reset changes held a version entry that did not already read its replacement. */
  lemma ChangedWasUnsettled(s: string)
    requires ResetText(s) != s
    ensures exists k :: 0 <= k < |Steps()| && !Settled(Steps()[k], s)
  {
    ResetStepsWellFormed();
    if forall k :: 0 <= k < |Steps()| ==> Settled(Steps()[k], s) {
      SettledUnchanged(Steps(), s);
    }
  }

  // ---------------------------------------------------------------------
  // The files
  // ---------------------------------------------------------------------

  function ResetEdit(): string -> string
  {
    s => ResetText(s)
  }

  /** `reset_version`: the project after the reset and the number of files written. */
  method ResetVersion(t: Tree) returns (t': Tree, count: nat)
    ensures t' == Rewritten(t, PackageText.IsGradleFile, ResetEdit())
    ensures count == |ChangedFiles(t, PackageText.IsGradleFile, ResetEdit())|
  {
    t', count := RewriteFiles(t, PackageText.IsGradleFile, ResetEdit());
  }

  /** A gradle build file ends up reset; every other node is left as it was. */
  lemma ResetAt(t: Tree, p: Path)
    requires p in t
    ensures var r := Rewritten(t, PackageText.IsGradleFile, ResetEdit());
      && p in r
      && (PackageText.IsGradleFile(p) && t[p].File? ==> r[p] == File(ResetText(t[p].text)))
      && (!PackageText.IsGradleFile(p) || !t[p].File? ==> r[p] == t[p])
  {
    RewrittenAt(t, PackageText.IsGradleFile, ResetEdit(), p);
  }

  /** No file is written, and none counted, when every gradle file is already reset. */
  lemma ResetOfSettledProject(t: Tree)
    requires forall p :: p in t && PackageText.IsGradleFile(p) && t[p].File? ==> ResetText(t[p].text) == t[p].text
    ensures Rewritten(t, PackageText.IsGradleFile, ResetEdit()) == t
    ensures |ChangedFiles(t, PackageText.IsGradleFile, ResetEdit())| == 0
  {
    RewrittenIdentity(t, PackageText.IsGradleFile, ResetEdit());
  }
}
