/**
 * The text side of the package-identity rewrite in
 * backend/utils/file_replace.py: detecting the old package in a build
 * file, the three declaration rewrites (build files, manifest, Kotlin and
 * Java `package` lines), the literal bulk sweep, and the file selections
 * each pass applies.
 */
module PackageText {
  import opened Wrappers
  import opened Fs
  import opened TextScan
  import opened ReplTemplate

  const Quotes: string := "\"'"

  /** `key\s+["']` value `["']` */
  function Bare(key: string, value: seq<Tok>): Rule
  {
    Rule([Lit(key), Star(Space, 1), One(AnyOf(Quotes))], value, [One(AnyOf(Quotes))])
  }

  /** `key\s*=\s*["']` value `["']` */
  function Assigned(key: string, value: seq<Tok>): Rule
  {
    Rule([Lit(key), Star(Space, 0), Lit("="), Star(Space, 0), One(AnyOf(Quotes))], value, [One(AnyOf(Quotes))])
  }

  /** `[^"']+` */
  const AnyValue: seq<Tok> := [Star(NoneOf(Quotes), 1)]

  lemma DeclWellFormed(key: string, value: seq<Tok>)
    requires |key| > 0 && NoMarks(value)
    ensures WellFormed(Bare(key, value)) && WellFormed(Assigned(key, value))
  {
    var b := Bare(key, value);
    var a := Assigned(key, value);
    NoMarksFlat(b.pre);
    NoMarksFlat(a.pre);
    NoMarksFlat(b.post);
    PatternWidth(b);
    PatternWidth(a);
  }

  // ---------------------------------------------------------------------
  // Detection (detect_old_package_name)
  // ---------------------------------------------------------------------

  function DetectRule(k: nat): Rule
    requires k < 3
  {
    if k == 0 then Bare("applicationId", AnyValue)
    else if k == 1 then Assigned("applicationId", AnyValue)
    else Assigned("namespace", AnyValue)
  }

  lemma DetectRuleWellFormed(k: nat)
    requires k < 3
    ensures WellFormed(DetectRule(k))
  {
    DeclWellFormed("applicationId", AnyValue);
    DeclWellFormed("namespace", AnyValue);
  }

  /** `re.search(...).group(1)` of one detection pattern: the quoted value of its leftmost match. */
  function Capture(r: Rule, s: string): Option<string>
  {
    var f := Search(Pattern(r), s, 0);
    if f.Some? then Some(GroupText(s, f.value.hit, 2)) else None
  }

  /** The three patterns in turn; the first that matches anywhere gives the value. */
  function DetectInText(s: string): Option<string>
  {
    var c0 := Capture(DetectRule(0), s);
    if c0.Some? then c0
    else
      var c1 := Capture(DetectRule(1), s);
      if c1.Some? then c1 else Capture(DetectRule(2), s)
  }

  /** The rule has a match starting somewhere in `s`. */
  ghost predicate Somewhere(r: Rule, s: string)
  {
    exists i: nat :: i <= |s| && RuleAt(r, s, i)
  }

  /** A capture is the middle part of the leftmost match, and there is one exactly when the rule matches somewhere. */
  lemma CaptureSpec(r: Rule, s: string)
    requires WellFormed(r)
    ensures Capture(r, s).Some? <==> Somewhere(r, s)
    ensures Capture(r, s).Some? ==> exists i: nat, a: nat, b: nat, e: nat ::
      && RuleAccepts(r, s, i, a, b, e) && Capture(r, s).value == s[a..b]
      && forall j :: 0 <= j < i ==> !RuleAt(r, s, j)
  {
    var f := Search(Pattern(r), s, 0);
    if f.Some? {
      var i := f.value.pos;
      var a, b, e := RuleHit(r, s, i);
      var m := [i, a, a, b, b, e];
      assert m[2] == a && m[3] == b;
      forall j | 0 <= j < i ensures !RuleAt(r, s, j) {
        RuleMatchIff(r, s, j);
      }
      RuleMatchIff(r, s, i);
    } else {
      forall i: nat | i <= |s| ensures !RuleAt(r, s, i) {
        RuleMatchIff(r, s, i);
      }
    }
  }

  /** Nothing is detected exactly when none of the three patterns matches anywhere. */
  lemma DetectNoneIff(s: string)
    ensures DetectInText(s).None? <==> forall k :: 0 <= k < 3 ==> !Somewhere(DetectRule(k), s)
  {
    forall k | 0 <= k < 3 ensures Capture(DetectRule(k), s).Some? <==> Somewhere(DetectRule(k), s) {
      DetectRuleWellFormed(k);
      CaptureSpec(DetectRule(k), s);
    }
  }

  /**
   * A detected value comes from the first pattern, in priority order, that
   * matches anywhere, and from the leftmost match of that pattern.
   */
  lemma DetectPriority(s: string, v: string) returns (k: nat, i: nat, a: nat, b: nat, e: nat)
    requires DetectInText(s) == Some(v)
    ensures k < 3 && RuleAccepts(DetectRule(k), s, i, a, b, e) && v == s[a..b]
    ensures forall k' :: 0 <= k' < k ==> !Somewhere(DetectRule(k'), s)
    ensures forall j :: 0 <= j < i ==> !RuleAt(DetectRule(k), s, j)
  {
    DetectRuleWellFormed(0);
    DetectRuleWellFormed(1);
    DetectRuleWellFormed(2);
    CaptureSpec(DetectRule(0), s);
    CaptureSpec(DetectRule(1), s);
    CaptureSpec(DetectRule(2), s);
    if Capture(DetectRule(0), s).Some? {
      k := 0;
    } else if Capture(DetectRule(1), s).Some? {
      k := 1;
    } else {
      k := 2;
    }
    i, a, b, e :| && RuleAccepts(DetectRule(k), s, i, a, b, e) && Capture(DetectRule(k), s).value == s[a..b]
      && forall j :: 0 <= j < i ==> !RuleAt(DetectRule(k), s, j);
  }

  /** A detected package is non-empty and holds no quote. */
  lemma DetectedValueShape(s: string, v: string)
    requires DetectInText(s) == Some(v)
    ensures |v| >= 1 && forall c :: c in v ==> c !in Quotes
  {
    var k, i, a, b, e := DetectPriority(s, v);
    assert DetectRule(k).mid == AnyValue;
    AcceptsStar(NoneOf(Quotes), 1, s, a, b);
    forall c | c in v ensures c !in Quotes {
      var q :| 0 <= q < |v| && v[q] == c;
      assert s[a + q] == c;
    }
  }

  /**
   * `entries` lists, in the order a directory listing yields them, exactly
   * the `build.gradle*` entries directly inside the module directory.
   */
  predicate GradleListing(t: Tree, dir: Path, entries: seq<Path>)
  {
    && (forall k :: 0 <= k < |entries| ==>
         entries[k] in t && entries[k] != [] && Parent(entries[k]) == dir && StartsWith(Name(entries[k]), "build.gradle"))
    && (forall p :: p in t && p != [] && Parent(p) == dir && StartsWith(Name(p), "build.gradle") ==> p in entries)
  }

  /** The old package, read from the first listed build file only; `None` when there is none or it cannot be read. */
  function DetectOldPackage(t: Tree, dir: Path, entries: seq<Path>): (r: Option<string>)
    requires GradleListing(t, dir, entries)
    ensures r.Some? ==> entries != [] && t[entries[0]].File? && r == DetectInText(t[entries[0]].text)
  {
    if entries == [] then None
    else match t[entries[0]]
      case File(text) => DetectInText(text)
      case _ => None
  }

  /** Detection fails exactly when there is no build file, the first one cannot be read, or no pattern matches it. */
  lemma DetectNoneCases(t: Tree, dir: Path, entries: seq<Path>)
    requires GradleListing(t, dir, entries)
    ensures DetectOldPackage(t, dir, entries).None? <==>
      || (forall p :: p in t && p != [] && Parent(p) == dir ==> !StartsWith(Name(p), "build.gradle"))
      || !t[entries[0]].File?
      || forall k :: 0 <= k < 3 ==> !Somewhere(DetectRule(k), t[entries[0]].text)
  {
    if entries != [] {
      assert entries[0] in t && Parent(entries[0]) == dir && StartsWith(Name(entries[0]), "build.gradle");
      if t[entries[0]].File? {
        DetectNoneIff(t[entries[0]].text);
      }
    }
  }

  /** Only the first listed build file matters. */
  lemma DetectReadsFirstOnly(t1: Tree, t2: Tree, dir: Path, entries: seq<Path>)
    requires GradleListing(t1, dir, entries) && GradleListing(t2, dir, entries)
    requires entries != [] ==> t1[entries[0]] == t2[entries[0]]
    ensures DetectOldPackage(t1, dir, entries) == DetectOldPackage(t2, dir, entries)
  {
  }

  // ---------------------------------------------------------------------
  // Declaration rewrites (build files and manifests)
  // ---------------------------------------------------------------------

  function GradleRule(k: nat, from: string): Rule
    requires k < 3
  {
    if k == 0 then Bare("applicationId", [Lit(from)])
    else if k == 1 then Assigned("applicationId", [Lit(from)])
    else Assigned("namespace", [Lit(from)])
  }

  function ManifestRule(from: string): Rule
  {
    Assigned("package", [Lit(from)])
  }

  lemma LitNoMarks(w: string)
    ensures NoMarks([Lit(w)])
  {
    assert [Lit(w)][1..] == [];
  }

  lemma GradleRuleWellFormed(k: nat, from: string)
    requires k < 3
    ensures WellFormed(GradleRule(k, from)) && WellFormed(ManifestRule(from))
  {
    LitNoMarks(from);
    DeclWellFormed("applicationId", [Lit(from)]);
    DeclWellFormed("namespace", [Lit(from)]);
    DeclWellFormed("package", [Lit(from)]);
  }

  /**
   * A build file's text after the three substitutions with the template
   * `\1` + new + `\2`. When `re` rejects that template the first
   * substitution raises and the file is left as it was.
   */
  function GradleText(from: string, to: string, s: string): string
  {
    GradleRuleWellFormed(0, from);
    GradleRuleWellFormed(1, from);
    GradleRuleWellFormed(2, from);
    match ParseTemplate(Surround(to), [1, 3])
    case None => s
    case Some(tpl) =>
      var s1 := Sub(Pattern(GradleRule(0, from)), tpl, s);
      var s2 := Sub(Pattern(GradleRule(1, from)), tpl, s1);
      Sub(Pattern(GradleRule(2, from)), tpl, s2)
  }

  /** A manifest's text after the `package=` substitution. */
  function ManifestText(from: string, to: string, s: string): string
  {
    GradleRuleWellFormed(0, from);
    match ParseTemplate(Surround(to), [1, 3])
    case None => s
    case Some(tpl) => Sub(Pattern(ManifestRule(from)), tpl, s)
  }

  /** `w` stands in `s` at `k` between two quotes. */
  predicate QuotedAt(s: string, w: string, k: nat)
  {
    1 <= k && k + |w| < |s| && s[k - 1] in Quotes && s[k..k + |w|] == w && s[k + |w|] in Quotes
  }

  /** A declaration site is `key`, the separator, a quote, exactly the old value, and a quote. */
  lemma DeclSite(key: string, equalsSign: bool, from: string, s: string, i: nat, a: nat, b: nat, e: nat)
    requires RuleAccepts(if equalsSign then Assigned(key, [Lit(from)]) else Bare(key, [Lit(from)]), s, i, a, b, e)
    ensures i + |key| < a && s[i..i + |key|] == key && QuotedAt(s, from, a) && b == a + |from| && e == b + 1
  {
    AcceptsLit(from, s, a, b);
    AcceptsOne(AnyOf(Quotes), s, b, e);
    if equalsSign {
      AssignedPre(key, [Lit(from)], s, i, a);
    } else {
      BarePre(key, [Lit(from)], s, i, a);
    }
  }

  /** The opening of a bare declaration: `key`, whitespace, a quote. */
  lemma BarePre(key: string, value: seq<Tok>, s: string, i: nat, a: nat)
    requires i <= |s| && Accepts(Bare(key, value).pre, s, i, Hit([], a))
    ensures i + |key| < a <= |s| && s[i..i + |key|] == key && s[a - 1] in Quotes
  {
    var q: seq<Tok> := [One(AnyOf(Quotes))];
    var p1: seq<Tok> := [Star(Space, 1)] + q;
    assert Bare(key, value).pre[1..] == p1 && p1[1..] == q;
    assert Accepts(p1, s, i + |key|, Hit([], a));
    var j :| i + |key| + 1 <= j <= |s| && Accepts(q, s, j, Hit([], a));
    AcceptsOne(AnyOf(Quotes), s, j, a);
  }

  /** The opening of an assignment: `key`, whitespace, `=`, whitespace, a quote. */
  lemma AssignedPre(key: string, value: seq<Tok>, s: string, i: nat, a: nat)
    requires i <= |s| && Accepts(Assigned(key, value).pre, s, i, Hit([], a))
    ensures i + |key| < a <= |s| && s[i..i + |key|] == key && s[a - 1] in Quotes
  {
    var p1: seq<Tok> := [Star(Space, 0), Lit("="), Star(Space, 0), One(AnyOf(Quotes))];
    assert Assigned(key, value).pre == [Lit(key)] + p1;
    LitHead(key, p1, s, i, Hit([], a));
    EqualsQuote(s, i + |key|, a);
  }

  /** `\s*=\s*["']` from `i` to `a`: the last character is a quote. */
  lemma EqualsQuote(s: string, i: nat, a: nat)
    requires i <= |s| && Accepts([Star(Space, 0), Lit("="), Star(Space, 0), One(AnyOf(Quotes))], s, i, Hit([], a))
    ensures i < a <= |s| && s[a - 1] in Quotes
  {
    var q: seq<Tok> := [One(AnyOf(Quotes))];
    var p3: seq<Tok> := [Star(Space, 0)] + q;
    var p2: seq<Tok> := [Lit("=")] + p3;
    assert [Star(Space, 0), Lit("="), Star(Space, 0), One(AnyOf(Quotes))] == [Star(Space, 0)] + p2;
    var j1 := StarHead(Space, 0, p2, s, i, Hit([], a));
    LitHead("=", p3, s, j1, Hit([], a));
    var j2 := StarHead(Space, 0, q, s, j1 + 1, Hit([], a));
    AcceptsOne(AnyOf(Quotes), s, j2, a);
  }

  /**
   * The declaration passes rewrite only a quoted value equal to the old
   * package: where the old package never stands between two quotes (a longer
   * id that merely starts with it included), the text is unchanged.
   */
  lemma GradleTextExact(from: string, to: string, s: string)
    requires forall k: nat :: !QuotedAt(s, from, k)
    ensures GradleText(from, to, s) == s
    ensures ManifestText(from, to, s) == s
  {
    forall k | 0 <= k < 3 ensures forall i :: 0 <= i < |s| ==> !RuleAt(GradleRule(k, from), s, i) {
      forall i | 0 <= i < |s| ensures !RuleAt(GradleRule(k, from), s, i) {
        if RuleAt(GradleRule(k, from), s, i) {
          var a: nat, b: nat, e: nat :| RuleAccepts(GradleRule(k, from), s, i, a, b, e);
          DeclSite(if k == 2 then "namespace" else "applicationId", k != 0, from, s, i, a, b, e);
        }
      }
    }
    forall i | 0 <= i < |s| ensures !RuleAt(ManifestRule(from), s, i) {
      if RuleAt(ManifestRule(from), s, i) {
        var a: nat, b: nat, e: nat :| RuleAccepts(ManifestRule(from), s, i, a, b, e);
        DeclSite("package", true, from, s, i, a, b, e);
      }
    }
    GradleRuleWellFormed(0, from);
    GradleRuleWellFormed(1, from);
    GradleRuleWellFormed(2, from);
    var p := ParseTemplate(Surround(to), [1, 3]);
    if p.Some? {
      SubRuleWithoutSite(GradleRule(0, from), p.value, s);
      SubRuleWithoutSite(GradleRule(1, from), p.value, s);
      SubRuleWithoutSite(GradleRule(2, from), p.value, s);
      SubRuleWithoutSite(ManifestRule(from), p.value, s);
    }
  }

  /** Rewriting a declaration to the package it already has leaves it as it is. */
  lemma GradleTextSame(v: string, s: string)
    requires SpliceSafe(v)
    ensures GradleText(v, v, s) == s
    ensures ManifestText(v, v, s) == s
  {
    GradleRuleWellFormed(0, v);
    GradleRuleWellFormed(1, v);
    GradleRuleWellFormed(2, v);
    SurroundIsKeep(GradleRule(0, v), v, s);
    KeepSameValue(GradleRule(0, v), v, s);
    SurroundIsKeep(GradleRule(1, v), v, s);
    KeepSameValue(GradleRule(1, v), v, s);
    SurroundIsKeep(GradleRule(2, v), v, s);
    KeepSameValue(GradleRule(2, v), v, s);
    SurroundIsKeep(ManifestRule(v), v, s);
    KeepSameValue(ManifestRule(v), v, s);
  }

  // ---------------------------------------------------------------------
  // Source declarations (`package` lines of .kt and .java files)
  // ---------------------------------------------------------------------

  /** `^package\s+` old `(\.[a-zA-Z_][a-zA-Z0-9_.]*)?\s*;?\s*$` under MULTILINE. */
  function SourceRule(from: string): Rule
  {
    Rule(
      [LineStart, Lit("package"), Star(Space, 1), Lit(from)],
      [Opt([Lit("."), One(IdentHead), Star(IdentTail, 0)])],
      [Star(Space, 0), Opt([Lit(";")]), Star(Space, 0), LineEnd])
  }

  /** The template `package ` + new + `\1`, whose group 1 is the sub-package suffix. */
  function SourceTemplate(to: string): string
  {
    "package " + to + "\\1"
  }

  lemma SourceRuleWellFormed(from: string)
    ensures WellFormed(SourceRule(from))
  {
    var r := SourceRule(from);
    NoMarksFlat(r.pre);
    SourceMidNoMarks(from);
    SourcePostNoMarks(from);
    MinWidthAppend([LineStart, Lit("package")], [Star(Space, 1), Lit(from)]);
    assert MinWidth([LineStart, Lit("package")]) == 7 by {
      assert [LineStart, Lit("package")][1..] == [Lit("package")];
      assert [Lit("package")][1..] == [];
    }
    assert [LineStart, Lit("package")] + [Star(Space, 1), Lit(from)] == r.pre;
    PatternWidth(r);
  }

  lemma SourceMidNoMarks(from: string)
    ensures NoMarks(SourceRule(from).mid)
  {
    var r := SourceRule(from);
    var body: seq<Tok> := [Lit("."), One(IdentHead), Star(IdentTail, 0)];
    NoMarksFlat(body);
    NoMarksFlat(r.mid[1..]);
    assert Size(r.mid[0]) == 1 + SizeOf(body);
  }

  lemma SourcePostNoMarks(from: string)
    ensures NoMarks(SourceRule(from).post)
  {
    var r := SourceRule(from);
    var semi: seq<Tok> := [Lit(";")];
    NoMarksFlat(semi);
    NoMarksFlat(r.post[2..]);
    NoMarksFlat([r.post[0]]);
    assert r.post[1..][1..] == r.post[2..];
    assert Size(r.post[1]) == 1 + SizeOf(semi);
    assert NoMarks(r.post[1..]);
  }

  /** The source file's text after the substitution; unchanged when `re` rejects the template. */
  function SourceText(from: string, to: string, s: string): string
  {
    SourceRuleWellFormed(from);
    match ParseTemplate(SourceTemplate(to), [2])
    case None => s
    case Some(tpl) => Sub(Pattern(SourceRule(from)), tpl, s)
  }

  /** The `pre` part of a source declaration: line start, `package`, whitespace, the old package. */
  lemma SourcePre(from: string, s: string, i: nat, a: nat)
    requires i <= |s| && Accepts(SourceRule(from).pre, s, i, Hit([], a))
    ensures i == 0 || s[i - 1] == '\n'
    ensures i + 8 + |from| <= a <= |s| && s[i..i + 7] == "package" && s[a - |from|..a] == from
    ensures AllIn(s, i + 7, a - |from|, Space)
  {
    var p := SourceRule(from).pre;
    assert i == 0 || s[i - 1] == '\n';
    assert Accepts(p[1..], s, i, Hit([], a));
    assert p[1..][0] == Lit("package") && |"package"| == 7;
    assert i + 7 <= |s| && s[i..i + 7] == "package" && Accepts(p[1..][1..], s, i + 7, Hit([], a));
    var j :| i + 8 <= j <= |s| && AllIn(s, i + 7, j, Space) && Accepts(p[1..][1..][1..], s, j, Hit([], a));
    assert p[1..][1..][1..] == [Lit(from)];
    AcceptsLit(from, s, j, a);
  }

  /** The `mid` part: empty, or a dot, an identifier start and identifier characters. */
  lemma SourceMid(from: string, s: string, a: nat, b: nat)
    requires a <= |s| && Accepts(SourceRule(from).mid, s, a, Hit([], b))
    ensures a == b || (a + 2 <= b <= |s| && s[a] == '.' && InClass(s[a + 1], IdentHead) && AllIn(s, a + 2, b, IdentTail))
  {
    var m := SourceRule(from).mid;
    var body: seq<Tok> := [Lit("."), One(IdentHead), Star(IdentTail, 0)];
    assert m[0] == Opt(body) && m[1..] == [];
    assert body + [] == body;
    if Accepts(body, s, a, Hit([], b)) {
      assert body[0] == Lit(".") && |"."| == 1;
      assert a + 1 <= |s| && s[a..a + 1] == "." && Accepts(body[1..], s, a + 1, Hit([], b));
      assert s[a] == '.';
      assert body[1..][1..] == [Star(IdentTail, 0)];
      AcceptsStar(IdentTail, 0, s, a + 2, b);
    } else {
      assert a == b;
    }
  }

  /** The `post` part: whitespace and at most one semicolon, up to a line end. */
  lemma SourcePost(from: string, s: string, b: nat, e: nat)
    requires b <= |s| && Accepts(SourceRule(from).post, s, b, Hit([], e))
    ensures b <= e <= |s| && (e == |s| || s[e] == '\n')
    ensures forall q :: b <= q < e ==> IsSpace(s[q]) || s[q] == ';'
  {
    var semi: seq<Tok> := [Lit(";")];
    var end: seq<Tok> := [LineEnd];
    var rest: seq<Tok> := [Star(Space, 0)] + end;
    var q1: seq<Tok> := [Opt(semi)] + rest;
    assert SourceRule(from).post == [Star(Space, 0)] + q1 && SourceRule(from).post[1..] == q1;
    var k1 :| b <= k1 <= |s| && AllIn(s, b, k1, Space) && Accepts(q1, s, k1, Hit([], e));
    assert q1[0] == Opt(semi) && q1[1..] == rest;
    var k2 := SemiStep(s, k1, e, rest);
    assert rest[1..] == end;
    var k3 :| k2 <= k3 <= |s| && AllIn(s, k2, k3, Space) && Accepts(end, s, k3, Hit([], e));
    assert end[1..] == [];
    assert k3 == e;
  }

  /** `;?` followed by `rest`. */
  lemma SemiStep(s: string, k: nat, e: nat, rest: seq<Tok>) returns (k': nat)
    requires k <= |s| && Accepts([Opt([Lit(";")])] + rest, s, k, Hit([], e))
    ensures k <= k' <= |s| && Accepts(rest, s, k', Hit([], e))
    ensures forall q :: k <= q < k' ==> s[q] == ';'
  {
    var semi: seq<Tok> := [Lit(";")];
    var t := [Opt(semi)] + rest;
    assert t[0] == Opt(semi) && t[1..] == rest;
    if Accepts(semi + rest, s, k, Hit([], e)) {
      assert (semi + rest)[0] == Lit(";") && (semi + rest)[1..] == rest && |";"| == 1;
      k' := k + 1;
      assert s[k..k + 1] == ";";
      assert s[k] == ';';
    } else {
      k' := k;
    }
  }

  /**
   * A site of the source rule is a line that starts with `package`,
   * whitespace and the old package, then an optional `.suffix`, then only
   * whitespace and semicolons up to the end of a line.
   */
  lemma SourceSite(from: string, s: string, i: nat, a: nat, b: nat, e: nat)
    requires RuleAccepts(SourceRule(from), s, i, a, b, e)
    ensures i == 0 || s[i - 1] == '\n'
    ensures i + 8 + |from| <= a && s[i..i + 7] == "package" && s[a - |from|..a] == from
    ensures a == b || (a + 2 <= b && s[a] == '.' && InClass(s[a + 1], IdentHead) && AllIn(s, a + 2, b, IdentTail))
    ensures e == |s| || s[e] == '\n'
    ensures forall q :: b <= q < e ==> IsSpace(s[q]) || s[q] == ';'
  {
    SourcePre(from, s, i, a);
    SourceMid(from, s, a, b);
    SourcePost(from, s, b, e);
  }

  /** With a package free of backslashes, the source template is the text `package new`, then group 1. */
  lemma SourceTemplateParse(to: string)
    requires '\\' !in to
    ensures ParseTemplate(SourceTemplate(to), [2]) == Some(Chars("package " + to) + [Group(2)])
  {
    var tail := "\\1";
    var layout := [2];
    assert ParseTemplate(tail, layout) == Some([Group(2)]) by {
      assert tail[0] == '\\' && tail[1] == '1' && |tail| == 2 && tail[2..] == [];
      assert DigitValue('1') == 1 && layout[0] == 2;
      assert [Group(2)] + [] == [Group(2)];
    }
    var v := "package " + to;
    assert '\\' !in v by {
      assert forall c :: c in v ==> c in "package " || c in to;
    }
    assert SourceTemplate(to) == v + tail;
    ParsePlain(v, tail, layout);
  }

  /**
   * Each rewritten declaration becomes `package new` followed by the
   * sub-package suffix it had: the optional semicolon and the whitespace up
   * to the line end are dropped.
   */
  lemma SourceRewritesSite(from: string, to: string, s: string, i: nat)
    requires '\\' !in to && i <= |s| && Match(Pattern(SourceRule(from)), s, i).Some?
    ensures ParseTemplate(SourceTemplate(to), [2]).Some?
    ensures exists a: nat, b: nat, e: nat ::
      && RuleAccepts(SourceRule(from), s, i, a, b, e)
      && Match(Pattern(SourceRule(from)), s, i).value.end == e
      && Expand(ParseTemplate(SourceTemplate(to), [2]).value, s, Match(Pattern(SourceRule(from)), s, i).value)
         == "package " + to + s[a..b]
  {
    SourceRuleWellFormed(from);
    var a, b, e := RuleHit(SourceRule(from), s, i);
    SourceTemplateParse(to);
    var h := Hit([i, a, a, b, b, e], e);
    ExpandChars("package " + to, [Group(2)], s, h);
    assert [Group(2)][1..] == [];
    assert Expand([Group(2)], s, h) == GroupText(s, h, 2);
    assert h.marks[2] == a && h.marks[3] == b;
  }

  /** A source file changes only where a line-initial `package` declaration of the old package stands. */
  lemma SourceChangedHasDecl(from: string, to: string, s: string) returns (i: nat, a: nat, b: nat, e: nat)
    requires SourceText(from, to, s) != s
    ensures i < |s| && RuleAccepts(SourceRule(from), s, i, a, b, e) && i + 8 + |from| <= a
    ensures (i == 0 || s[i - 1] == '\n') && s[i..i + 7] == "package" && s[a - |from|..a] == from
  {
    SourceRuleWellFormed(from);
    var tpl := ParseTemplate(SourceTemplate(to), [2]).value;
    i, a, b, e := SubRuleChangedHasSite(SourceRule(from), tpl, s);
    SourceSite(from, s, i, a, b, e);
  }

  /**
   * The declaration pass with the text after the old package kept: the
   * template `package ` + new + `\1\2`, where group 2 is the closing
   * `\s*;?\s*` of the pattern.
   */
  function SourceKeptTemplate(to: string): string
  {
    "package " + to + "\\1\\2"
  }

  /** The source file's text after the corrected substitution. */
  function SourceTextKept(from: string, to: string, s: string): string
  {
    SourceRuleWellFormed(from);
    match ParseTemplate(SourceKeptTemplate(to), [2, 3])
    case None => s
    case Some(tpl) => Sub(Pattern(SourceRule(from)), tpl, s)
  }

  lemma SourceKeptTemplateParse(to: string)
    requires '\\' !in to
    ensures ParseTemplate(SourceKeptTemplate(to), [2, 3]) == Some(Chars("package " + to) + [Group(2), Group(3)])
  {
    var tail := "\\1\\2";
    var layout := [2, 3];
    assert ParseTemplate(tail[2..], layout) == Some([Group(3)]) by {
      var t2 := tail[2..];
      assert t2[0] == '\\' && t2[1] == '2' && |t2| == 2 && t2[2..] == [];
      assert DigitValue('2') == 2 && layout[1] == 3;
      assert [Group(3)] + [] == [Group(3)];
    }
    assert ParseTemplate(tail, layout) == Some([Group(2), Group(3)]) by {
      assert tail[0] == '\\' && tail[1] == '1' && |tail| == 4 && tail[2] == '\\';
      assert DigitValue('1') == 1 && layout[0] == 2;
      assert [Group(2)] + [Group(3)] == [Group(2), Group(3)];
    }
    var v := "package " + to;
    assert '\\' !in v by {
      assert forall c :: c in v ==> c in "package " || c in to;
    }
    assert SourceKeptTemplate(to) == v + tail;
    ParsePlain(v, tail, layout);
  }

  /**
   * With the correction each rewritten declaration becomes `package new`
   * followed by everything that stood after the old package up to the line
   * end: the sub-package suffix, the semicolon and the whitespace.
   */
  lemma SourceKeptRewritesSite(from: string, to: string, s: string, i: nat)
    requires '\\' !in to && i <= |s| && Match(Pattern(SourceRule(from)), s, i).Some?
    ensures ParseTemplate(SourceKeptTemplate(to), [2, 3]).Some?
    ensures exists a: nat, b: nat, e: nat ::
      && RuleAccepts(SourceRule(from), s, i, a, b, e)
      && Match(Pattern(SourceRule(from)), s, i).value.end == e
      && Expand(ParseTemplate(SourceKeptTemplate(to), [2, 3]).value, s, Match(Pattern(SourceRule(from)), s, i).value)
         == "package " + to + s[a..e]
  {
    SourceRuleWellFormed(from);
    var a, b, e := RuleHit(SourceRule(from), s, i);
    SourceKeptTemplateParse(to);
    var h := Hit([i, a, a, b, b, e], e);
    KeptExpand("package " + to, s, h);
  }

  lemma KeptExpand(v: string, s: string, h: Hit)
    requires |h.marks| == 6 && h.marks[2] <= h.marks[3] == h.marks[4] <= h.marks[5] <= |s|
    ensures Expand(Chars(v) + [Group(2), Group(3)], s, h) == v + s[h.marks[2]..h.marks[5]]
  {
    ExpandChars(v, [Group(2), Group(3)], s, h);
    GroupsExpand(s, h);
  }

  /** `\2\3` of adjacent groups is the text they span together. */
  lemma GroupsExpand(s: string, h: Hit)
    requires |h.marks| == 6 && h.marks[2] <= h.marks[3] == h.marks[4] <= h.marks[5] <= |s|
    ensures Expand([Group(2), Group(3)], s, h) == s[h.marks[2]..h.marks[5]]
  {
    var g2 := s[h.marks[2]..h.marks[3]];
    var g3 := s[h.marks[4]..h.marks[5]];
    var last: seq<Piece> := [Group(3)];
    assert Expand(last, s, h) == g3 by {
      assert last[1..] == [];
      assert GroupText(s, h, 3) == g3;
    }
    var both: seq<Piece> := [Group(2), Group(3)];
    assert Expand(both, s, h) == g2 + g3 by {
      assert both[0] == Group(2) && both[1..] == last;
      assert GroupText(s, h, 2) == g2;
    }
    assert g2 + g3 == s[h.marks[2]..h.marks[5]];
  }


  // ---------------------------------------------------------------------
  // The bulk sweep
  // ---------------------------------------------------------------------

  /** `content.replace(old, new)`; the old package is never empty here. */
  function BulkText(from: string, to: string, s: string): string
    requires |from| > 0
  {
    ReplaceAll(s, from, to)
  }

  /** The sweep changes a text exactly when the old package occurs in it. */
  lemma BulkChangesIffOccurs(from: string, to: string, s: string)
    requires |from| > 0 && from != to
    ensures BulkText(from, to, s) != s <==> Occurs(s, from)
  {
    ReplaceChangesIffOccurs(s, from, to);
  }

  /**
   * When the new package contains the old one, the sweep rewrites again
   * what the declaration passes already wrote: the new package itself is
   * not left alone.
   */
  lemma BulkRewritesNewPackage(from: string, to: string)
    requires |from| > 0 && from != to && Occurs(to, from)
    ensures BulkText(from, to, to) != to
  {
    ReplaceChangesIffOccurs(to, from, to);
  }

  // ---------------------------------------------------------------------
  // File selection
  // ---------------------------------------------------------------------

  /** `rglob('build.gradle*')` */
  predicate IsGradleFile(p: Path)
  {
    StartsWith(Name(p), "build.gradle")
  }

  /** `rglob('AndroidManifest.xml')` */
  predicate IsManifest(p: Path)
  {
    Name(p) == "AndroidManifest.xml"
  }

  /** `rglob('*.kt')` and `rglob('*.java')`, less the paths with a `build` part. */
  predicate IsSourceFile(base: Path, p: Path)
  {
    (EndsWith(Name(p), ".kt") || EndsWith(Name(p), ".java")) && !HasPart(base, p, "build")
  }

  const TextExtensions: set<string> :=
    {".xml", ".kt", ".java", ".gradle", ".kts", ".properties", ".json", ".txt", ".md", ".pro", ".cfg", ".config"}

  const BulkExcludedDirs: set<string> := {"build", ".gradle", ".idea", "outputs", "__pycache__", ".git"}

  /** The files the bulk sweep reads: no excluded part anywhere in the absolute path, a listed suffix. */
  predicate IsBulkFile(base: Path, p: Path)
  {
    (forall d :: d in BulkExcludedDirs ==> !HasPart(base, p, d)) && Lower(Suffix(Name(p))) in TextExtensions
  }

  /**
   * The exclusion looks at the root's own path too: a project unpacked
   * below a folder named `build` has no source file and no bulk file.
   */
  lemma BuildAboveRootExcludesAll(base: Path, p: Path)
    requires "build" in base
    ensures !IsSourceFile(base, p) && !IsBulkFile(base, p)
  {
    assert "build" in BulkExcludedDirs;
  }
}
