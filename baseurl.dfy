/**
 * `replace_base_url` in backend/utils/baseurl_replace.py: the new URL is
 * put into three kinds of file.
 *
 *   every `build.gradle*`: the `buildConfigField` of String `BASE_URL`,
 *     in the parenthesised and in the Groovy form;
 *   every `*.kt` and `*.java` without a `build` part: `const val`,
 *     `static final String` and plain `val BASE_URL = "…"`;
 *   every `strings.xml` with a part exactly `values`: the `base_url` and
 *     `BASE_URL` string resources.
 *
 * A file is written, and counted, only when its text changed. Like the app
 * name, the URL is spliced into the template `\1` + url + `\2`; the
 * `...AsWritten` edits read it that way, and the passes use them. The
 * unsuffixed edits put the URL literally; `SafeUrlSplices` shows the two
 * agree for a URL without a backslash that does not start with a digit.
 */
module BaseUrl {
  import opened Wrappers
  import opened Fs
  import opened TextScan
  import opened ReplTemplate
  import opened PackageText

  // ---------------------------------------------------------------------
  // The seven patterns
  // ---------------------------------------------------------------------

  /** `["']` */
  function Quote(): Tok
  {
    One(AnyOf(Quotes))
  }

  /** `["']String["']\s*,\s*["']BASE_URL["']\s*,\s*["']`, the arguments after the opening. */
  function FieldArgs(): seq<Tok>
  {
    [Quote(), Lit("String"), Quote(), Star(Space, 0), Lit(","), Star(Space, 0),
     Quote(), Lit("BASE_URL"), Quote(), Star(Space, 0), Lit(","), Star(Space, 0), Quote()]
  }

  /** `(buildConfigField\s*\(\s*` args`)[^"']+(["'])` */
  function FieldCall(): Rule
  {
    Rule([Lit("buildConfigField"), Star(Space, 0), Lit("("), Star(Space, 0)] + FieldArgs(), AnyValue, [Quote()])
  }

  /** `(buildConfigField\s+` args`)[^"']+(["'])` */
  function FieldGroovy(): Rule
  {
    Rule([Lit("buildConfigField"), Star(Space, 1)] + FieldArgs(), AnyValue, [Quote()])
  }

  /** `\s*=\s*["']`, the assignment that ends every constant's first part. */
  function Assign(): seq<Tok>
  {
    [Lit("BASE_URL"), Star(Space, 0), Lit("="), Star(Space, 0), Quote()]
  }

  /** `(const\s+val\s+BASE_URL\s*=\s*["'])[^"']+(["'])` */
  function ConstVal(): Rule
  {
    Rule([Lit("const"), Star(Space, 1), Lit("val"), Star(Space, 1)] + Assign(), AnyValue, [Quote()])
  }

  /** `(static\s+final\s+String\s+BASE_URL\s*=\s*["'])[^"']+(["'])` */
  function StaticFinal(): Rule
  {
    Rule([Lit("static"), Star(Space, 1), Lit("final"), Star(Space, 1), Lit("String"), Star(Space, 1)] + Assign(), AnyValue, [Quote()])
  }

  /** `(val\s+BASE_URL\s*=\s*["'])[^"']+(["'])` */
  function PlainVal(): Rule
  {
    Rule([Lit("val"), Star(Space, 1)] + Assign(), AnyValue, [Quote()])
  }

  /** `(<string\s+name="` key `">)[^<]+(</string>)` */
  function Resource(key: string): Rule
  {
    Rule([Lit("<string"), Star(Space, 1), Lit("name=\"" + key + "\">")], [Star(NoneOf("<"), 1)], [Lit("</string>")])
  }

  /** A rule whose three parts are free of marks and whose closing part is one quote is well formed. */
  lemma QuotedWellFormed(r: Rule)
    requires NoMarks(r.pre) && r.mid == AnyValue && r.post == [Quote()]
    ensures WellFormed(r)
  {
    NoMarksFlat(r.mid);
    NoMarksFlat(r.post);
    PatternWidth(r);
    assert MinWidth(r.post) == 1 by {
      assert r.post[1..] == [];
    }
  }

  /** The pieces put in front of `FieldArgs` or `Assign` are free of marks. */
  lemma PlainPrefix(head: seq<Tok>, tail: seq<Tok>)
    requires forall k :: 0 <= k < |head| ==> !head[k].Mark? && !head[k].Opt?
    requires forall k :: 0 <= k < |tail| ==> !tail[k].Mark? && !tail[k].Opt?
    ensures NoMarks(head + tail)
  {
    NoMarksFlat(head);
    NoMarksFlat(tail);
    NoMarksAppend(head, tail);
  }

  lemma FieldRulesWellFormed()
    ensures WellFormed(FieldCall()) && WellFormed(FieldGroovy())
  {
    var args := FieldArgs();
    PlainPrefix([Lit("buildConfigField"), Star(Space, 0), Lit("("), Star(Space, 0)], args);
    PlainPrefix([Lit("buildConfigField"), Star(Space, 1)], args);
    QuotedWellFormed(FieldCall());
    QuotedWellFormed(FieldGroovy());
  }

  lemma ConstRulesWellFormed()
    ensures WellFormed(ConstVal()) && WellFormed(StaticFinal()) && WellFormed(PlainVal())
  {
    var tail := Assign();
    PlainPrefix([Lit("const"), Star(Space, 1), Lit("val"), Star(Space, 1)], tail);
    PlainPrefix([Lit("static"), Star(Space, 1), Lit("final"), Star(Space, 1), Lit("String"), Star(Space, 1)], tail);
    PlainPrefix([Lit("val"), Star(Space, 1)], tail);
    QuotedWellFormed(ConstVal());
    QuotedWellFormed(StaticFinal());
    QuotedWellFormed(PlainVal());
  }

  lemma ResourceWellFormed(key: string)
    ensures WellFormed(Resource(key))
  {
    assert [Lit("</string>")][1..] == [];
    FlatRule(Resource(key));
  }

  // ---------------------------------------------------------------------
  // The per-file edits
  // ---------------------------------------------------------------------

  /** The parenthesised `buildConfigField` substitution, the URL put literally. */
  function FieldCallText(v: string, s: string): string
  {
    FieldRulesWellFormed();
    SubRule(FieldCall(), v, s)
  }

  /** Both `buildConfigField` substitutions. */
  function GradleText(v: string, s: string): string
  {
    FieldRulesWellFormed();
    SubRule(FieldGroovy(), v, FieldCallText(v, s))
  }

  /** The three constant substitutions, in the source's order. */
  function SourceText(v: string, s: string): string
  {
    ConstRulesWellFormed();
    SubRule(PlainVal(), v, SubRule(StaticFinal(), v, SubRule(ConstVal(), v, s)))
  }

  /** The `base_url` and then the `BASE_URL` resource. */
  function StringsText(v: string, s: string): string
  {
    ResourceWellFormed("base_url");
    ResourceWellFormed("BASE_URL");
    SubRule(Resource("BASE_URL"), v, SubRule(Resource("base_url"), v, s))
  }

  function GradleTextAsWritten(v: string, s: string): string
  {
    FieldRulesWellFormed();
    SpliceText(FieldGroovy(), v, SpliceText(FieldCall(), v, s))
  }

  function SourceTextAsWritten(v: string, s: string): string
  {
    ConstRulesWellFormed();
    SpliceText(PlainVal(), v, SpliceText(StaticFinal(), v, SpliceText(ConstVal(), v, s)))
  }

  function StringsTextAsWritten(v: string, s: string): string
  {
    ResourceWellFormed("base_url");
    ResourceWellFormed("BASE_URL");
    SpliceText(Resource("BASE_URL"), v, SpliceText(Resource("base_url"), v, s))
  }

  /** One splice read by `re` as the source builds it equals the literal one for a safe URL. */
  lemma SafeSplice(r: Rule, v: string, s: string)
    requires WellFormed(r) && SpliceSafe(v)
    ensures SpliceText(r, v, s) == SubRule(r, v, s)
  {
    SurroundIsKeep(r, v, s);
  }

  /** For a URL without a backslash and without a leading digit, the edits as written are the literal ones. */
  lemma SafeUrlSplices(v: string, s: string)
    requires SpliceSafe(v)
    ensures GradleTextAsWritten(v, s) == GradleText(v, s)
    ensures SourceTextAsWritten(v, s) == SourceText(v, s)
    ensures StringsTextAsWritten(v, s) == StringsText(v, s)
  {
    FieldRulesWellFormed();
    ConstRulesWellFormed();
    ResourceWellFormed("base_url");
    ResourceWellFormed("BASE_URL");
    SafeSplice(FieldCall(), v, s);
    SafeSplice(FieldGroovy(), v, FieldCallText(v, s));
    SafeSplice(ConstVal(), v, s);
    SafeSplice(StaticFinal(), v, SubRule(ConstVal(), v, s));
    SafeSplice(PlainVal(), v, SubRule(StaticFinal(), v, SubRule(ConstVal(), v, s)));
    SafeSplice(Resource("base_url"), v, s);
    SafeSplice(Resource("BASE_URL"), v, SubRule(Resource("base_url"), v, s));
  }

  /**
   * A URL that starts with a digit after `1`, such as `192.168.0.10:8080/`,
   * makes the template open with `\11`: a reference to group 11, which the
   * patterns do not have. `re` rejects the template at every substitution,
   * so no file is changed.
   */
  lemma DigitUrlRejected(s: string)
    ensures GradleTextAsWritten("192.168.0.10:8080/", s) == s
    ensures SourceTextAsWritten("192.168.0.10:8080/", s) == s
    ensures StringsTextAsWritten("192.168.0.10:8080/", s) == s
  {
    var t := Surround("192.168.0.10:8080/");
    assert t[0] == '\\' && t[1] == '1' && t[2] == '1' && t[3] == '9' && |t| > 3;
    assert ParseTemplate(t, [1, 3]) == None by {
      assert DigitValue('1') * 10 + DigitValue('1') == 11;
    }
  }

  /** Every site of the rule in `s` already holds the URL. */
  ghost predicate HoldsUrl(r: Rule, v: string, s: string)
  {
    forall i: nat, a: nat, b: nat, e: nat :: RuleAccepts(r, s, i, a, b, e) ==> s[a..b] == v
  }

  /** A gradle file whose every `BASE_URL` field already holds the URL is left alone. */
  lemma GradleSettled(v: string, s: string)
    requires HoldsUrl(FieldCall(), v, s) && HoldsUrl(FieldGroovy(), v, s)
    ensures GradleText(v, s) == s
    ensures SpliceSafe(v) ==> GradleTextAsWritten(v, s) == s
  {
    if SpliceSafe(v) {
      SafeUrlSplices(v, s);
    }
    FieldRulesWellFormed();
    KeptSettled(FieldCall(), v, s);
    KeptSettled(FieldGroovy(), v, s);
  }

  lemma SourceSettled(v: string, s: string)
    requires HoldsUrl(ConstVal(), v, s) && HoldsUrl(StaticFinal(), v, s) && HoldsUrl(PlainVal(), v, s)
    ensures SourceText(v, s) == s
    ensures SpliceSafe(v) ==> SourceTextAsWritten(v, s) == s
  {
    if SpliceSafe(v) {
      SafeUrlSplices(v, s);
    }
    ConstRulesWellFormed();
    KeptSettled(ConstVal(), v, s);
    KeptSettled(StaticFinal(), v, s);
    KeptSettled(PlainVal(), v, s);
  }

  lemma StringsSettled(v: string, s: string)
    requires HoldsUrl(Resource("base_url"), v, s) && HoldsUrl(Resource("BASE_URL"), v, s)
    ensures StringsText(v, s) == s
    ensures SpliceSafe(v) ==> StringsTextAsWritten(v, s) == s
  {
    if SpliceSafe(v) {
      SafeUrlSplices(v, s);
    }
    ResourceWellFormed("base_url");
    ResourceWellFormed("BASE_URL");
    KeptSettled(Resource("base_url"), v, s);
    KeptSettled(Resource("BASE_URL"), v, s);
  }

  /** Some site of the rule occurs in `s`. */
  ghost predicate HasSite(r: Rule, s: string)
  {
    exists i :: 0 <= i < |s| && RuleAt(r, s, i)
  }

  /** Either edit of one rule changes a text only where the rule has a site. */
  lemma OneChangedHasSite(r: Rule, v: string, s: string)
    requires WellFormed(r) && (SpliceText(r, v, s) != s || SubRule(r, v, s) != s)
    ensures HasSite(r, s)
  {
    var i, a, b, e := ChangedHasSite(r, v, s);
    SiteIsRuleAt(r, s, i, a, b, e);
  }

  /** A gradle file that the edit as written, or the literal one, changes held a `BASE_URL` field of one of the two forms. */
  lemma GradleChangedHasSite(v: string, s: string)
    requires GradleTextAsWritten(v, s) != s || GradleText(v, s) != s
    ensures HasSite(FieldCall(), s) || HasSite(FieldGroovy(), s)
  {
    FieldRulesWellFormed();
    var s1 := SpliceText(FieldCall(), v, s);
    var k1 := FieldCallText(v, s);
    if s1 != s || k1 != s {
      OneChangedHasSite(FieldCall(), v, s);
    } else {
      OneChangedHasSite(FieldGroovy(), v, s);
    }
  }

  // ---------------------------------------------------------------------
  // The three loops
  // ---------------------------------------------------------------------

  /** `rglob('strings.xml')`, less the paths without a part exactly `values`. */
  predicate IsValuesStrings(base: Path, p: Path)
  {
    Name(p) == "strings.xml" && HasPart(base, p, "values")
  }

  function GradleEdit(v: string): string -> string
  {
    s => GradleTextAsWritten(v, s)
  }

  function SourceEdit(v: string): string -> string
  {
    s => SourceTextAsWritten(v, s)
  }

  function StringsEdit(v: string): string -> string
  {
    s => StringsTextAsWritten(v, s)
  }

  function SourceSel(base: Path): Path -> bool
  {
    p => IsSourceFile(base, p)
  }

  function StringsSel(base: Path): Path -> bool
  {
    p => IsValuesStrings(base, p)
  }

  datatype UrlPasses = UrlPasses(gradle: Tree, sources: Tree, strings: Tree, count: nat)

  /** The three loops in the source's order, each on the tree the previous one left. */
  function Passes(t: Tree, base: Path, v: string): UrlPasses
  {
    var t1 := Rewritten(t, IsGradleFile, GradleEdit(v));
    var t2 := Rewritten(t1, SourceSel(base), SourceEdit(v));
    var t3 := Rewritten(t2, StringsSel(base), StringsEdit(v));
    UrlPasses(t1, t2, t3,
      |ChangedFiles(t, IsGradleFile, GradleEdit(v))|
      + |ChangedFiles(t1, SourceSel(base), SourceEdit(v))|
      + |ChangedFiles(t2, StringsSel(base), StringsEdit(v))|)
  }

  /** What the call reports: skipped for an empty URL, a warning when nothing changed, or the number of files. */
  datatype UrlReport = Skipped | NothingFound | Replaced(files: nat)

  /** `replace_base_url`; `oldUrl` is taken and never looked at, as in the source. */
  method ReplaceBaseUrl(t: Tree, base: Path, oldUrl: string, v: string) returns (t': Tree, report: UrlReport)
    ensures v == [] ==> t' == t && report == Skipped
    ensures v != [] ==> t' == Passes(t, base, v).strings
    ensures v != [] ==> (report == NothingFound <==> Passes(t, base, v).count == 0)
    ensures v != [] && report.Replaced? ==> report.files == Passes(t, base, v).count
    ensures report == Skipped <==> v == []
  {
    if v == [] {
      return t, Skipped;
    }
    var t1, c1 := RewriteFiles(t, IsGradleFile, GradleEdit(v));
    var t2, c2 := RewriteFiles(t1, SourceSel(base), SourceEdit(v));
    var t3, c3 := RewriteFiles(t2, StringsSel(base), StringsEdit(v));
    t' := t3;
    var count := c1 + c2 + c3;
    if count == 0 {
      report := NothingFound;
    } else {
      report := Replaced(count);
    }
  }

  /** The three loops seen from one node: each applies its edit when it selects the node. */
  lemma PassesAt(t: Tree, base: Path, v: string, p: Path)
    requires p in t
    ensures var r := Passes(t, base, v);
      && p in r.gradle && p in r.sources && p in r.strings
      && r.gradle[p] == Apply(t[p], IsGradleFile(p), GradleEdit(v))
      && r.sources[p] == Apply(r.gradle[p], IsSourceFile(base, p), SourceEdit(v))
      && r.strings[p] == Apply(r.sources[p], IsValuesStrings(base, p), StringsEdit(v))
  {
    var r := Passes(t, base, v);
    RewrittenAt(t, IsGradleFile, GradleEdit(v), p);
    RewrittenAt(r.gradle, SourceSel(base), SourceEdit(v), p);
    RewrittenAt(r.sources, StringsSel(base), StringsEdit(v), p);
  }

  /** A node none of the three loops selects is left as it was. */
  lemma UntouchedOutsideTargets(t: Tree, base: Path, v: string, p: Path)
    requires p in t && !IsGradleFile(p) && !IsSourceFile(base, p) && !IsValuesStrings(base, p)
    ensures Passes(t, base, v).strings[p] == t[p]
  {
    PassesAt(t, base, v, p);
  }

  /** A source file below a `build` folder is never rewritten, whatever it holds. */
  lemma BuildSourcesUntouched(t: Tree, base: Path, v: string, p: Path)
    requires p in t && HasPart(base, p, "build") && !IsGradleFile(p) && !IsValuesStrings(base, p)
    ensures Passes(t, base, v).strings[p] == t[p]
  {
    PassesAt(t, base, v, p);
  }

  /** A project whose every target already holds the URL is left alone, and the call warns that it found nothing. */
  lemma SettledProject(t: Tree, base: Path, v: string)
    requires forall p :: p in t && IsGradleFile(p) && t[p].File? ==> GradleTextAsWritten(v, t[p].text) == t[p].text
    requires forall p :: p in t && IsSourceFile(base, p) && t[p].File? ==> SourceTextAsWritten(v, t[p].text) == t[p].text
    requires forall p :: p in t && IsValuesStrings(base, p) && t[p].File? ==> StringsTextAsWritten(v, t[p].text) == t[p].text
    ensures Passes(t, base, v).strings == t && Passes(t, base, v).count == 0
  {
    RewrittenIdentity(t, IsGradleFile, GradleEdit(v));
    RewrittenIdentity(t, SourceSel(base), SourceEdit(v));
    RewrittenIdentity(t, StringsSel(base), StringsEdit(v));
  }
}
