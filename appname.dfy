/**
 * `replace_app_name` in backend/utils/file_replace.py: the `app_name`
 * string resource, the manifest's `android:label`, and the
 * `rootProject.name` of the top-level settings files.
 *
 * The source splices the new name into the templates `\1` + name + `\2`.
 * `re` reads that text as a template, so a name that starts with a digit
 * turns `\1` into another escape and a name with a backslash may be
 * rejected. The passes use `StringsText` and `SettingsText`, the edits as
 * written; `StringsTextKept` and `SettingsTextKept` are the corrected
 * edits, which keep both groups and put the name literally.
 */
module AppName {
  import opened Wrappers
  import opened Fs
  import opened TextScan
  import opened ReplTemplate
  import opened PackageText

  // ---------------------------------------------------------------------
  // The three patterns
  // ---------------------------------------------------------------------

  /** `(<string\s+name="app_name">)[^<]+(</string>)` */
  function StringsRule(): Rule
  {
    Rule([Lit("<string"), Star(Space, 1), Lit("name=\"app_name\">")], [Star(NoneOf("<"), 1)], [Lit("</string>")])
  }

  /** `(rootProject\.name\s*=\s*["'])[^"']+(["'])` */
  function SettingsRule(): Rule
  {
    Assigned("rootProject.name", AnyValue)
  }

  /** `android:label="[^"]*"`, cut where the fixed replacement keeps text. */
  function LabelRule(): Rule
  {
    Rule([Lit(LabelOpen)], [Star(NoneOf(LabelClose), 0)], [Lit(LabelClose)])
  }

  const LabelOpen: string := "android:label=\""
  const LabelClose: string := "\""
  const LabelValue: string := "@string/app_name"

  /** The label template; it has no backslash, so `re` reads it literally. */
  const LabelTemplate: string := LabelOpen + LabelValue + LabelClose

  lemma RulesWellFormed()
    ensures WellFormed(StringsRule()) && WellFormed(SettingsRule()) && WellFormed(LabelRule())
  {
    var r := StringsRule();
    NoMarksFlat(r.pre);
    NoMarksFlat(r.mid);
    NoMarksFlat(r.post);
    PatternWidth(r);
    assert MinWidth(r.post) >= 1 by {
      assert r.post[1..] == [];
    }
    DeclWellFormed("rootProject.name", AnyValue);
    var l := LabelRule();
    NoMarksFlat(l.pre);
    NoMarksFlat(l.mid);
    NoMarksFlat(l.post);
    PatternWidth(l);
    assert MinWidth(l.post) >= 1 by {
      assert l.post[1..] == [];
    }
  }

  // ---------------------------------------------------------------------
  // The edits as written
  // ---------------------------------------------------------------------

  function StringsText(v: string, s: string): string
  {
    RulesWellFormed();
    SpliceText(StringsRule(), v, s)
  }

  function SettingsText(v: string, s: string): string
  {
    RulesWellFormed();
    SpliceText(SettingsRule(), v, s)
  }

  /** The manifest's label, whatever it was, becomes `@string/app_name`. */
  function LabelText(s: string): string
  {
    RulesWellFormed();
    Sub(Pattern(LabelRule()), Chars(LabelTemplate), s)
  }

  // ---------------------------------------------------------------------
  // The edits with the name put literally
  // ---------------------------------------------------------------------

  function StringsTextKept(v: string, s: string): string
  {
    RulesWellFormed();
    SubRule(StringsRule(), v, s)
  }

  function SettingsTextKept(v: string, s: string): string
  {
    RulesWellFormed();
    SubRule(SettingsRule(), v, s)
  }

  /** For a name without a backslash and without a leading digit the two agree. */
  lemma SafeNameSplices(v: string, s: string)
    requires SpliceSafe(v)
    ensures StringsText(v, s) == StringsTextKept(v, s)
    ensures SettingsText(v, s) == SettingsTextKept(v, s)
  {
    RulesWellFormed();
    SurroundIsKeep(StringsRule(), v, s);
    SurroundIsKeep(SettingsRule(), v, s);
  }

  /** The label template has no backslash: `re` reads it as its own text. */
  lemma LabelTemplateParse()
    ensures ParseTemplate(LabelTemplate, []) == Some(Chars(LabelTemplate))
  {
    assert '\\' !in LabelOpen && '\\' !in LabelValue && '\\' !in LabelClose;
    ParseLiteral(LabelTemplate, []);
  }

  /** At a label site the fixed template keeps the opening and the closing quote and puts `@string/app_name` between. */
  lemma LabelExpands(s: string, i: nat, a: nat, b: nat, e: nat)
    requires i <= a <= b <= e <= |s| && s[i..a] == LabelOpen && s[b..e] == LabelClose
    ensures Expand(Chars(LabelTemplate), s, Hit([i, a, a, b, b, e], e)) == s[i..a] + LabelValue + s[b..e]
  {
    var h := Hit([i, a, a, b, b, e], e);
    ExpandChars(LabelTemplate, [], s, h);
    assert Chars(LabelTemplate) + [] == Chars(LabelTemplate);
    assert Expand([], s, h) == "";
  }

  // ---------------------------------------------------------------------
  // What the edits do
  // ---------------------------------------------------------------------

  /** Where every label already reads `@string/app_name`, the manifest is left alone. */
  lemma LabelSettled(s: string)
    requires forall i: nat, a: nat, b: nat, e: nat :: RuleAccepts(LabelRule(), s, i, a, b, e) ==> s[a..b] == LabelValue
    ensures LabelText(s) == s
  {
    RulesWellFormed();
    var l := LabelRule();
    forall j | 0 <= j < |s| && Match(Pattern(l), s, j).Some?
      ensures Expand(Chars(LabelTemplate), s, Match(Pattern(l), s, j).value) == s[j..Match(Pattern(l), s, j).value.end]
    {
      var a, b, e := RuleHit(l, s, j);
      LabelParts(s, j, a, b, e);
      LabelExpands(s, j, a, b, e);
      ThreeParts(s, j, a, b, e);
    }
    SubStable(Pattern(l), Chars(LabelTemplate), s, 0);
  }

  /** A label site is `android:label="`, a body without quotes, and a quote. */
  lemma LabelParts(s: string, i: nat, a: nat, b: nat, e: nat)
    requires RuleAccepts(LabelRule(), s, i, a, b, e)
    ensures a == i + 15 && e == b + 1
    ensures s[i..a] == LabelOpen && s[b..e] == LabelClose
    ensures forall k :: a <= k < b ==> s[k] != '"'
  {
    AcceptsLit(LabelOpen, s, i, a);
    AcceptsLit(LabelClose, s, b, e);
    AcceptsStar(NoneOf(LabelClose), 0, s, a, b);
  }

  /** Every label the manifest edit finds is rewritten to `@string/app_name`, the quotes kept. */
  lemma LabelFirstSite(s: string) returns (i: nat, a: nat, b: nat, e: nat)
    requires (RulesWellFormed(); Search(Pattern(LabelRule()), s, 0).Some?)
    ensures RuleAccepts(LabelRule(), s, i, a, b, e) && forall j :: 0 <= j < i ==> !RuleAt(LabelRule(), s, j)
    ensures LabelText(s) == s[..a] + LabelValue + s[b..e] + SubFrom(Pattern(LabelRule()), Chars(LabelTemplate), s, e)
  {
    RulesWellFormed();
    i, a, b, e := FirstRuleSite(LabelRule(), s);
    LabelParts(s, i, a, b, e);
    SubAtFirst(Pattern(LabelRule()), Chars(LabelTemplate), s, i, Hit([i, a, a, b, b, e], e));
    LabelExpands(s, i, a, b, e);
    SpliceAt(s, i, a, LabelValue, s[b..e], SubFrom(Pattern(LabelRule()), Chars(LabelTemplate), s, e));
  }

  // ---------------------------------------------------------------------
  // The as-written template with a leading digit
  // ---------------------------------------------------------------------

  /**
   * With the name `2048` the template `\12048\2` reads as the octal escape
   * `\120` (the letter `P`), the text `48`, and group 2.
   */
  lemma DigitNameTemplate()
    ensures ParseTemplate(Surround("2048"), [1, 3]) == Some([Text("P"), Text("4"), Text("8"), Group(3)])
  {
    var t := Surround("2048");
    assert t == "\\12048\\2";
    var layout := [1, 3];
    var tail := "\\2";
    assert ParseTemplate(tail, layout) == Some([Group(3)]) by {
      assert tail[0] == '\\' && tail[1] == '2' && |tail| == 2 && tail[2..] == [];
      assert DigitValue('2') == 2 && layout[1] == 3;
      assert [Group(3)] + [] == [Group(3)];
    }
    assert t[4..] == "48" + tail;
    ParsePlain("48", tail, layout);
    assert Chars("48") == [Text("4"), Text("8")] by {
      assert "48"[1..] == "8" && "8"[1..] == [];
    }
    assert DigitValue('1') * 64 + DigitValue('2') * 8 + DigitValue('0') == 80;
    assert (80 as char) == 'P';
    assert [Text("P")] + ([Text("4"), Text("8")] + [Group(3)]) == [Text("P"), Text("4"), Text("8"), Group(3)];
  }

  /**
   * As written, the name `2048` never lands in an `app_name` entry: where
   * the file holds one, the leftmost entry loses its opening
   * `<string name="app_name">` and reads `P48</string>`, while the kept edit
   * writes the name between the two parts.
   */
  lemma DigitNameBreaksStrings(s: string)
    requires (RulesWellFormed(); Search(Pattern(StringsRule()), s, 0).Some?)
    ensures StringsText("2048", s) != StringsTextKept("2048", s)
  {
    RulesWellFormed();
    DigitNameBreaks(StringsRule(), s, "<string");
  }

  /** The same for `rootProject.name` in a settings file. */
  lemma DigitNameBreaksSettings(s: string)
    requires (RulesWellFormed(); Search(Pattern(SettingsRule()), s, 0).Some?)
    ensures SettingsText("2048", s) != SettingsTextKept("2048", s)
  {
    RulesWellFormed();
    DigitNameBreaks(SettingsRule(), s, "rootProject.name");
  }

  lemma DigitNameBreaks(r: Rule, s: string, key: string)
    requires WellFormed(r) && Search(Pattern(r), s, 0).Some?
    requires |key| >= 1 && key[0] != 'P' && r.pre != [] && r.pre[0] == Lit(key)
    ensures SpliceText(r, "2048", s) != SubRule(r, "2048", s)
  {
    var i, a, b, e := FirstRuleSite(r, s);
    var h := Hit([i, a, a, b, b, e], e);
    var tpl := [Text("P"), Text("4"), Text("8"), Group(3)];
    DigitNameTemplate();
    assert SpliceText(r, "2048", s) == Sub(Pattern(r), tpl, s);
    PatternWidth(r);
    SubAtFirst(Pattern(r), tpl, s, i, h);
    DigitExpandsToP(s, h);
    CharAfter(s[..i], Expand(tpl, s, h), SubFrom(Pattern(r), tpl, s, e));
    SiteOpensWithKey(r, s, key, i, a, b, e);
    SubRuleAtFirst(r, "2048", s, i, a, b, e);
    CharBefore(s[..a], "2048", s[b..e], SubFrom(Pattern(r), Keep("2048"), s, e), i);
  }

  /** The as-written expansion starts with the letter `P`. */
  lemma DigitExpandsToP(s: string, h: Hit)
    ensures var x := Expand([Text("P"), Text("4"), Text("8"), Group(3)], s, h); |x| >= 1 && x[0] == 'P'
  {
    var tpl := [Text("P"), Text("4"), Text("8"), Group(3)];
    assert Chars("P") + tpl[1..] == tpl;
    ExpandChars("P", tpl[1..], s, h);
  }

  /** A rule that opens with the literal `key` matches where `key` starts. */
  lemma SiteOpensWithKey(r: Rule, s: string, key: string, i: nat, a: nat, b: nat, e: nat)
    requires |key| >= 1 && r.pre != [] && r.pre[0] == Lit(key) && RuleAccepts(r, s, i, a, b, e)
    ensures i < a && s[i] == key[0]
  {
    assert r.pre == [Lit(key)] + r.pre[1..];
    LitHead(key, r.pre[1..], s, i, Hit([], a));
    AcceptsEnd(r.pre[1..], s, i + |key|, Hit([], a));
    assert s[i..i + |key|][0] == s[i];
  }

  lemma CharAfter(p: string, x: string, rest: string)
    requires |x| >= 1
    ensures (p + x + rest)[|p|] == x[0]
  {
  }

  lemma CharBefore(p: string, x: string, y: string, z: string, k: nat)
    requires k < |p|
    ensures (p + x + y + z)[k] == p[k]
  {
  }

  // ---------------------------------------------------------------------
  // The three passes
  // ---------------------------------------------------------------------

  /** Some part of the absolute path starts with `values`. */
  predicate InValues(base: Path, p: Path)
  {
    (exists k :: 0 <= k < |base| && StartsWith(base[k], "values")) || (exists k :: 0 <= k < |p| && StartsWith(p[k], "values"))
  }

  /** `rglob('strings.xml')`, less the paths without a `values*` part. */
  predicate IsStringsFile(base: Path, p: Path)
  {
    Name(p) == "strings.xml" && InValues(base, p)
  }

  /** `glob('settings.gradle*')` in the root only. */
  predicate IsSettingsFile(p: Path)
  {
    |p| == 1 && StartsWith(p[0], "settings.gradle")
  }

  function StringsSel(base: Path): Path -> bool
  {
    p => IsStringsFile(base, p)
  }

  function StringsEdit(v: string): string -> string
  {
    s => StringsText(v, s)
  }

  function LabelEdit(): string -> string
  {
    s => LabelText(s)
  }

  function SettingsEdit(v: string): string -> string
  {
    s => SettingsText(v, s)
  }

  datatype AppNamePasses = AppNamePasses(strings: Tree, manifest: Tree, settings: Tree, stringsCount: nat, manifestCount: nat, settingsCount: nat)

  /** The three passes in the source's order, each on the tree the previous one left. */
  function Passes(t: Tree, base: Path, v: string): (r: AppNamePasses)
    ensures r.settings.Keys == t.Keys
    ensures forall p :: p in t ==> (r.settings[p].Dir? <==> t[p].Dir?)
  {
    var t1 := Rewritten(t, StringsSel(base), StringsEdit(v));
    var t2 := Rewritten(t1, IsManifest, LabelEdit());
    var t3 := Rewritten(t2, IsSettingsFile, SettingsEdit(v));
    RewrittenShape(t, StringsSel(base), StringsEdit(v));
    RewrittenShape(t1, IsManifest, LabelEdit());
    RewrittenShape(t2, IsSettingsFile, SettingsEdit(v));
    AppNamePasses(t1, t2, t3,
      |ChangedFiles(t, StringsSel(base), StringsEdit(v))|,
      |ChangedFiles(t1, IsManifest, LabelEdit())|,
      |ChangedFiles(t2, IsSettingsFile, SettingsEdit(v))|)
  }

  /** `replace_app_name`: the three passes and the number of files written. */
  method ReplaceAppName(t: Tree, base: Path, v: string) returns (t': Tree, count: nat)
    ensures t' == Passes(t, base, v).settings
    ensures count == Passes(t, base, v).stringsCount + Passes(t, base, v).manifestCount + Passes(t, base, v).settingsCount
  {
    var t1, c1 := RewriteFiles(t, StringsSel(base), StringsEdit(v));
    var t2, c2 := RewriteFiles(t1, IsManifest, LabelEdit());
    var t3, c3 := RewriteFiles(t2, IsSettingsFile, SettingsEdit(v));
    t', count := t3, c1 + c2 + c3;
  }

  /** No node other than a `values*` strings file, a manifest or a top-level settings file is touched. */
  lemma PassesTouchOnlyTargets(t: Tree, base: Path, v: string, p: Path)
    requires p in t && !IsStringsFile(base, p) && !IsManifest(p) && !IsSettingsFile(p)
    ensures Passes(t, base, v).settings[p] == t[p]
  {
  }

  /** A file is a target of at most one of the three passes. */
  lemma TargetsDisjoint(base: Path, p: Path)
    ensures !(IsStringsFile(base, p) && IsManifest(p))
    ensures !(IsStringsFile(base, p) && IsSettingsFile(p))
    ensures !(IsManifest(p) && IsSettingsFile(p))
  {
    if IsSettingsFile(p) {
      assert Name(p) == p[0];
      assert !StartsWith("AndroidManifest.xml", "settings.gradle") by {
        assert "AndroidManifest.xml"[..15][0] == 'A';
      }
    }
  }

  /** The three passes seen from one file: the node after each, a text file's content edited by the pass that targets it. */
  lemma PassesAt(t: Tree, base: Path, v: string, p: Path)
    requires p in t
    ensures var r := Passes(t, base, v);
      && r.strings[p] == Apply(t[p], IsStringsFile(base, p), StringsEdit(v))
      && r.manifest[p] == Apply(r.strings[p], IsManifest(p), LabelEdit())
      && r.settings[p] == Apply(r.manifest[p], IsSettingsFile(p), SettingsEdit(v))
  {
    var r := Passes(t, base, v);
    RewrittenAt(t, StringsSel(base), StringsEdit(v), p);
    RewrittenAt(r.strings, IsManifest, LabelEdit(), p);
    RewrittenAt(r.manifest, IsSettingsFile, SettingsEdit(v), p);
  }

  /** A strings file ends up with its `app_name` entry rewritten, and so on for the other two targets. */
  lemma TargetWritten(t: Tree, base: Path, v: string, p: Path)
    requires p in t && t[p].File?
    ensures IsStringsFile(base, p) ==> Passes(t, base, v).settings[p] == File(StringsText(v, t[p].text))
    ensures IsManifest(p) ==> Passes(t, base, v).settings[p] == File(LabelText(t[p].text))
    ensures IsSettingsFile(p) ==> Passes(t, base, v).settings[p] == File(SettingsText(v, t[p].text))
    ensures SpliceSafe(v) && IsStringsFile(base, p) ==> Passes(t, base, v).settings[p] == File(StringsTextKept(v, t[p].text))
    ensures SpliceSafe(v) && IsSettingsFile(p) ==> Passes(t, base, v).settings[p] == File(SettingsTextKept(v, t[p].text))
  {
    TargetsDisjoint(base, p);
    PassesAt(t, base, v, p);
    if SpliceSafe(v) {
      SafeNameSplices(v, t[p].text);
    }
  }

  /** An edit that changed a text found a site in it. */
  lemma StringsChangedHasSite(v: string, s: string)
    requires StringsText(v, s) != s
    ensures exists i :: 0 <= i < |s| && RuleAt(StringsRule(), s, i)
  {
    RulesWellFormed();
    var i, a, b, e := ChangedHasSite(StringsRule(), v, s);
    SiteIsRuleAt(StringsRule(), s, i, a, b, e);
  }

  lemma SettingsChangedHasSite(v: string, s: string)
    requires SettingsText(v, s) != s
    ensures exists i :: 0 <= i < |s| && RuleAt(SettingsRule(), s, i)
  {
    RulesWellFormed();
    var i, a, b, e := ChangedHasSite(SettingsRule(), v, s);
    SiteIsRuleAt(SettingsRule(), s, i, a, b, e);
  }

  lemma LabelChangedHasSite(s: string)
    requires LabelText(s) != s
    ensures exists i :: 0 <= i < |s| && RuleAt(LabelRule(), s, i)
  {
    RulesWellFormed();
    var i, a, b, e := SubRuleChangedHasSite(LabelRule(), Chars(LabelTemplate), s);
    SiteIsRuleAt(LabelRule(), s, i, a, b, e);
  }

  /** Each strings file the passes write holds an `app_name` entry; likewise for labels and settings. */
  lemma WrittenFileHadSite(t: Tree, base: Path, v: string, p: Path)
    requires p in t && t[p].File? && Passes(t, base, v).settings[p] != t[p]
    ensures IsStringsFile(base, p) || IsManifest(p) || IsSettingsFile(p)
    ensures IsStringsFile(base, p) ==> exists i :: 0 <= i < |t[p].text| && RuleAt(StringsRule(), t[p].text, i)
    ensures IsManifest(p) ==> exists i :: 0 <= i < |t[p].text| && RuleAt(LabelRule(), t[p].text, i)
    ensures IsSettingsFile(p) ==> exists i :: 0 <= i < |t[p].text| && RuleAt(SettingsRule(), t[p].text, i)
  {
    TargetWritten(t, base, v, p);
    TargetsDisjoint(base, p);
    var s := t[p].text;
    if IsStringsFile(base, p) {
      StringsChangedHasSite(v, s);
    } else if IsManifest(p) {
      LabelChangedHasSite(s);
    } else if IsSettingsFile(p) {
      SettingsChangedHasSite(v, s);
    } else {
      PassesTouchOnlyTargets(t, base, v, p);
    }
  }
}
