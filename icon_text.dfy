/**
 * The text edits of backend/utils/icon_replace.py: the launcher-icon
 * references of a manifest, and the image an ImageView with the id
 * `splash` shows in a layout.
 */
module IconText {
  import opened Wrappers
  import opened TextScan
  import opened ReplTemplate

  // ---------------------------------------------------------------------
  // Manifest icon references (_update_manifest_icon_references)
  // ---------------------------------------------------------------------

  const MipmapRef: string := "\"@mipmap/"
  const IconOpen: string := "android:icon=" + MipmapRef
  const RoundOpen: string := "android:roundIcon=" + MipmapRef
  const IconValue: string := "ic_launcher"
  const RoundValue: string := IconValue + "_round"

  /** `android:icon="@mipmap/[^"]*"` becomes `android:icon="@mipmap/ic_launcher"`. */
  function IconText(s: string): string
  {
    AttrText(IconOpen, IconValue, s)
  }

  /** `android:roundIcon="@mipmap/[^"]*"` becomes `android:roundIcon="@mipmap/ic_launcher_round"`. */
  function RoundText(s: string): string
  {
    AttrText(RoundOpen, RoundValue, s)
  }

  /** The two substitutions, in the source's order. */
  function ManifestText(s: string): string
  {
    RoundText(IconText(s))
  }

  /** Neither replacement has a backslash, so `re` puts each as it is. */
  lemma ManifestTemplatesLiteral()
    ensures ParseTemplate(IconOpen + IconValue + "\"", []) == Some(Chars(IconOpen + IconValue + "\""))
    ensures ParseTemplate(RoundOpen + RoundValue + "\"", []) == Some(Chars(RoundOpen + RoundValue + "\""))
  {
    assert '\\' !in MipmapRef;
    assert '\\' !in "android:icon=" && '\\' !in "android:roundIcon=";
    assert '\\' !in IconValue && '\\' !in "_round";
    AttrTemplateParse(IconOpen, IconValue);
    AttrTemplateParse(RoundOpen, RoundValue);
  }

  /** Every `android:icon="@mipmap/…"` in `s` already names `ic_launcher`. */
  ghost predicate IconSettled(s: string)
  {
    forall i: nat, a: nat, b: nat, e: nat :: RuleAccepts(AttrRule(IconOpen), s, i, a, b, e) ==> s[a..b] == IconValue
  }

  /** Every `android:roundIcon="@mipmap/…"` in `s` already names `ic_launcher_round`. */
  ghost predicate RoundSettled(s: string)
  {
    forall i: nat, a: nat, b: nat, e: nat :: RuleAccepts(AttrRule(RoundOpen), s, i, a, b, e) ==> s[a..b] == RoundValue
  }

  /** A manifest whose mipmap icon references already name the launcher icons is left alone. */
  lemma SettledManifestUnchanged(s: string)
    requires IconSettled(s) && RoundSettled(s)
    ensures ManifestText(s) == s
  {
    AttrSettled(IconOpen, IconValue, s);
    AttrSettled(RoundOpen, RoundValue, s);
  }

  /**
   * A manifest without any mipmap icon reference is left alone: a
   * reference such as `android:icon="@drawable/…"` is not a site.
   */
  lemma NoMipmapReferenceUnchanged(s: string)
    requires forall i :: 0 <= i < |s| ==> !RuleAt(AttrRule(IconOpen), s, i) && !RuleAt(AttrRule(RoundOpen), s, i)
    ensures ManifestText(s) == s
  {
    AttrWithoutSite(IconOpen, IconValue, s);
    AttrWithoutSite(RoundOpen, RoundValue, s);
  }

  /** A manifest the edit changes held an icon or round-icon reference naming something else. */
  lemma ChangedManifestHadOther(s: string)
    requires ManifestText(s) != s
    ensures !IconSettled(s) || !RoundSettled(s)
  {
    if IconSettled(s) && RoundSettled(s) {
      SettledManifestUnchanged(s);
    }
  }

  /** The leftmost `android:icon` reference is set to `ic_launcher`; the text before it is kept. */
  lemma FirstIconReference(s: string) returns (i: nat, a: nat, b: nat, e: nat)
    requires (AttrWellFormed(IconOpen); Search(Pattern(AttrRule(IconOpen)), s, 0).Some?)
    ensures RuleAccepts(AttrRule(IconOpen), s, i, a, b, e)
    ensures forall j :: 0 <= j < i ==> !RuleAt(AttrRule(IconOpen), s, j)
    ensures IconText(s) == s[..i] + (IconOpen + IconValue + "\"") + SubFrom(Pattern(AttrRule(IconOpen)), Chars(IconOpen + IconValue + "\""), s, e)
  {
    i, a, b, e := AttrFirstSite(IconOpen, IconValue, s);
  }

  /** No `android:icon` site of the output starts inside or runs into an `android:icon` replacement. */
  lemma IconApart()
    ensures AttrApart(IconOpen, IconValue, IconOpen, IconValue)
  {
    var o, r := IconOpen, IconOpen + IconValue + "\"";
    assert o[13] == '"';
    forall d | 0 < d < |r| ensures Clash(o, r, d) {
      if r[d] != o[0] { assert o[0] != r[d + 0]; } else { assert o[1] != r[d + 1]; }
    }
    forall d | 0 < d < |o| ensures Clash(r, o, d) {
      if o[d] != r[0] { assert r[0] != o[d + 0]; } else { assert r[1] != o[d + 1]; }
    }
    assert '"' !in IconValue;
  }

  /** The same for `android:roundIcon`. */
  lemma RoundApart()
    ensures AttrApart(RoundOpen, RoundValue, RoundOpen, RoundValue)
  {
    var o, r := RoundOpen, RoundOpen + RoundValue + "\"";
    assert o[18] == '"';
    forall d | 0 < d < |r| ensures Clash(o, r, d) {
      if r[d] != o[0] { assert o[0] != r[d + 0]; } else { assert o[1] != r[d + 1]; }
    }
    forall d | 0 < d < |o| ensures Clash(r, o, d) {
      if o[d] != r[0] { assert r[0] != o[d + 0]; } else { assert r[1] != o[d + 1]; }
    }
    assert '"' !in RoundValue;
  }

  /** No `android:icon` site starts inside or runs into an `android:roundIcon` replacement. */
  lemma IconRoundApart()
    ensures AttrApart(IconOpen, IconValue, RoundOpen, RoundValue)
  {
    var o, r := IconOpen, RoundOpen + RoundValue + "\"";
    assert RoundOpen[18] == '"';
    forall d | 0 < d < |r| ensures Clash(o, r, d) {
      if r[d] != o[0] { assert o[0] != r[d + 0]; } else { assert o[1] != r[d + 1]; }
    }
    forall d | 0 < d < |o| ensures Clash(r, o, d) {
      if o[d] != r[0] { assert r[0] != o[d + 0]; } else { assert r[1] != o[d + 1]; }
    }
    assert o[8] != r[0 + 8];
  }

  /** After the first substitution every `android:icon` reference names `ic_launcher`. */
  lemma IconTextSettled(s: string)
    ensures IconSettled(IconText(s))
  {
    IconApart();
    AttrTextHolds(IconOpen, IconValue, s);
    AttrHoldsSettled(IconOpen, IconValue, IconText(s));
  }

  /** The round-icon substitution keeps every settled `android:icon` reference settled. */
  lemma RoundTextKeepsIcon(s: string)
    requires IconSettled(s)
    ensures IconSettled(RoundText(s))
  {
    IconRoundApart();
    AttrHoldsSettled(IconOpen, IconValue, s);
    AttrTextKeeps(IconOpen, IconValue, RoundOpen, RoundValue, s);
    AttrHoldsSettled(IconOpen, IconValue, RoundText(s));
  }

  /** After the second substitution every `android:roundIcon` reference names `ic_launcher_round`. */
  lemma RoundTextSettled(s: string)
    ensures RoundSettled(RoundText(s))
  {
    RoundApart();
    AttrTextHolds(RoundOpen, RoundValue, s);
    AttrHoldsSettled(RoundOpen, RoundValue, RoundText(s));
  }

  /** The edited manifest names the launcher icons in every mipmap icon reference. */
  lemma ManifestTextSettled(s: string)
    ensures IconSettled(ManifestText(s)) && RoundSettled(ManifestText(s))
  {
    IconTextSettled(s);
    RoundTextKeepsIcon(IconText(s));
    RoundTextSettled(IconText(s));
  }

  /** Rewriting the icon references a second time changes nothing. */
  lemma ManifestTextIdempotent(s: string)
    ensures ManifestText(ManifestText(s)) == ManifestText(s)
  {
    ManifestTextSettled(s);
    SettledManifestUnchanged(ManifestText(s));
  }

  // ---------------------------------------------------------------------
  // Splash references in layouts (_update_splash_references_in_layouts)
  // ---------------------------------------------------------------------

  const SplashValue: string := "@mipmap/" + "splash_screen"

  lemma SplashValueSafe()
    ensures SpliceSafe(SplashValue)
  {
    assert '\\' !in "@mipmap/" && '\\' !in "splash_screen";
    assert SplashValue[0] == '@';
  }

  /** `[^>]*`: the rest of one tag. */
  function InTag(): Tok
  {
    Star(NoneOf(">"), 0)
  }

  /** `android:id="@\+?id/splash"`. */
  function SplashId(): seq<Tok>
  {
    [Lit("android:id=\"@"), Opt([Lit("+")]), Lit("id/splash\"")]
  }

  /** `@mipmap/[^"]*`: the reference that is replaced. */
  function MipmapValue(): seq<Tok>
  {
    [Lit("@mipmap/"), Star(NoneOf("\""), 0)]
  }

  /** `(<ImageView[^>]*android:id="@\+?id/splash"[^>]*android:src=")@mipmap/[^"]*(")`. */
  function IdFirst(): Rule
  {
    Rule([Lit("<ImageView"), InTag()] + SplashId() + [InTag(), Lit("android:src=\"")], MipmapValue(), [Lit("\"")])
  }

  /** `(<ImageView[^>]*android:src=")@mipmap/[^"]*("[^>]*android:id="@\+?id/splash")`. */
  function SrcFirst(): Rule
  {
    Rule([Lit("<ImageView"), InTag(), Lit("android:src=\"")], MipmapValue(), [Lit("\""), InTag()] + SplashId())
  }

  lemma SplashIdNoMarks()
    ensures NoMarks(SplashId())
  {
    var ids := SplashId();
    assert NoMarks([Lit("+")]) by { NoMarksFlat([Lit("+")]); }
    assert NoMarks(ids[1..][1..]) by {
      assert ids[1..][1..] == [Lit("id/splash\"")];
      NoMarksFlat([Lit("id/splash\"")]);
    }
  }

  lemma SplashRulesWellFormed()
    ensures WellFormed(IdFirst()) && WellFormed(SrcFirst())
  {
    SplashIdNoMarks();
    var head: seq<Tok> := [Lit("<ImageView"), InTag()];
    var tail: seq<Tok> := [InTag(), Lit("android:src=\"")];
    NoMarksFlat(head);
    NoMarksFlat(tail);
    NoMarksAppend(SplashId(), tail);
    NoMarksAppend(head, SplashId() + tail);
    assert IdFirst().pre == head + (SplashId() + tail);
    var close: seq<Tok> := [Lit("\""), InTag()];
    NoMarksFlat(close);
    NoMarksAppend(close, SplashId());
    NoMarksFlat(SrcFirst().pre);
    NoMarksFlat(MipmapValue());
    NoMarksFlat([Lit("\"")]);
    PatternWidth(IdFirst());
    PatternWidth(SrcFirst());
    assert MinWidth(MipmapValue()) >= 1;
  }

  /** `if re.search(pattern, s): s = re.sub(pattern, template, s)` with the template `\\1` + `v` + `\\2`. */
  function Guarded(r: Rule, v: string, s: string): string
    requires WellFormed(r)
  {
    if Search(Pattern(r), s, 0).Some? then SpliceText(r, v, s) else s
  }

  /** For a value without backslash or leading digit, the guarded edit keeps both groups of every site. */
  lemma GuardedKept(r: Rule, v: string, s: string)
    requires WellFormed(r) && SpliceSafe(v)
    ensures Guarded(r, v, s) == SubRule(r, v, s)
  {
    SurroundIsKeep(r, v, s);
    SearchThenSub(Pattern(r), Keep(v), s);
  }

  /** The two guarded edits, `r1` first. */
  function GuardedPair(r1: Rule, r2: Rule, v: string, s: string): string
    requires WellFormed(r1) && WellFormed(r2)
  {
    Guarded(r2, v, Guarded(r1, v, s))
  }

  /** The edit as written: the two patterns, each guarded by its own search, in the source's order. */
  function SplashText(s: string): string
  {
    SplashRulesWellFormed();
    GuardedPair(IdFirst(), SrcFirst(), SplashValue, s)
  }

  lemma BothGuardedKept(r1: Rule, r2: Rule, v: string, s: string)
    requires WellFormed(r1) && WellFormed(r2) && SpliceSafe(v)
    ensures GuardedPair(r1, r2, v, s) == SubRule(r2, v, SubRule(r1, v, s))
  {
    GuardedKept(r1, v, s);
    GuardedKept(r2, v, SubRule(r1, v, s));
  }

  /**
   * The guards and the template add nothing: the edit keeps both groups of
   * every site of the first rule and puts `@mipmap/splash_screen` between
   * them, then does the same for the second rule.
   */
  lemma SplashTextKept(s: string)
    ensures (SplashRulesWellFormed(); SplashText(s) == SubRule(SrcFirst(), SplashValue, SubRule(IdFirst(), SplashValue, s)))
  {
    SplashRulesWellFormed();
    SplashValueSafe();
    BothGuardedKept(IdFirst(), SrcFirst(), SplashValue, s);
  }

  /** Every splash ImageView of `s`, in either attribute order, already shows `@mipmap/splash_screen`. */
  ghost predicate SplashSettled(s: string)
  {
    && (forall i: nat, a: nat, b: nat, e: nat :: RuleAccepts(IdFirst(), s, i, a, b, e) ==> s[a..b] == SplashValue)
    && (forall i: nat, a: nat, b: nat, e: nat :: RuleAccepts(SrcFirst(), s, i, a, b, e) ==> s[a..b] == SplashValue)
  }

  /** A layout whose splash image already is `splash_screen` is not rewritten. */
  lemma SettledLayoutUnchanged(s: string)
    requires SplashSettled(s)
    ensures SplashText(s) == s
  {
    SplashRulesWellFormed();
    SplashTextKept(s);
    KeptSettled(IdFirst(), SplashValue, s);
    KeptSettled(SrcFirst(), SplashValue, s);
  }

  /** A layout without a splash ImageView holding a mipmap source is not rewritten. */
  lemma NoSplashViewUnchanged(s: string)
    requires forall i :: 0 <= i < |s| ==> !RuleAt(IdFirst(), s, i) && !RuleAt(SrcFirst(), s, i)
    ensures SplashText(s) == s
  {
    SplashRulesWellFormed();
    SplashTextKept(s);
    NoSiteUnchanged(IdFirst(), SplashValue, s);
    NoSiteUnchanged(SrcFirst(), SplashValue, s);
  }

  /**
   * At the leftmost ImageView whose id `splash` comes before its mipmap
   * source, the source becomes `@mipmap/splash_screen` and the rest of the
   * tag up to that point is kept.
   */
  lemma FirstSplashView(s: string) returns (i: nat, a: nat, b: nat, e: nat)
    requires (SplashRulesWellFormed(); Search(Pattern(IdFirst()), s, 0).Some?)
    ensures RuleAccepts(IdFirst(), s, i, a, b, e)
    ensures forall j :: 0 <= j < i ==> !RuleAt(IdFirst(), s, j)
    ensures SubRule(IdFirst(), SplashValue, s) == s[..a] + SplashValue + s[b..e] + SubFrom(Pattern(IdFirst()), Keep(SplashValue), s, e)
  {
    SplashRulesWellFormed();
    i, a, b, e := KeptFirstSite(IdFirst(), SplashValue, s);
  }
}
