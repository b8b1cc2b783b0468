/**
 * Worked examples of the source-declaration pass on concrete texts.
 *
 * The matcher is evaluated one token at a time through the small step
 * lemmas below, with the text kept symbolic (only the facts each step needs
 * are known about it).
 */
module PackageExamples {
  import opened Wrappers
  import opened TextScan
  import opened ReplTemplate
  import opened PackageText

  // ---------------------------------------------------------------------
  // Matcher steps with known outcomes
  // ---------------------------------------------------------------------

  lemma MarkHit(x: seq<Tok>, s: string, i: nat, m: seq<nat>, e: nat)
    requires i <= |s| && Match(x, s, i) == Some(Hit(m, e))
    ensures Match([Mark] + x, s, i) == Some(Hit([i] + m, e))
  {
    MatchMarkStep(x, s, i);
  }

  lemma MarkMiss(x: seq<Tok>, s: string, i: nat)
    requires i <= |s| && Match(x, s, i) == None
    ensures Match([Mark] + x, s, i) == None
  {
    MatchMarkStep(x, s, i);
  }

  lemma LitHit(w: string, x: seq<Tok>, s: string, i: nat, h: Option<Hit>)
    requires i + |w| <= |s| && s[i..i + |w|] == w && Match(x, s, i + |w|) == h
    ensures Match([Lit(w)] + x, s, i) == h
  {
    MatchLitStep(w, x, s, i);
  }

  lemma LitMiss(w: string, x: seq<Tok>, s: string, i: nat)
    requires i <= |s| && |w| >= 1 && (i + |w| > |s| || s[i] != w[0])
    ensures Match([Lit(w)] + x, s, i) == None
  {
    MatchLitStep(w, x, s, i);
    if i + |w| <= |s| {
      assert s[i..i + |w|][0] == s[i];
    }
  }

  lemma OptSkip(b: seq<Tok>, x: seq<Tok>, s: string, i: nat, h: Option<Hit>)
    requires i <= |s| && Match(b + x, s, i) == None && Match(x, s, i) == h
    ensures Match([Opt(b)] + x, s, i) == h
  {
    MatchOptStep(b, x, s, i);
  }

  lemma OptTake(b: seq<Tok>, x: seq<Tok>, s: string, i: nat, h: Option<Hit>)
    requires i <= |s| && Match(b + x, s, i) == h && h.Some?
    ensures Match([Opt(b)] + x, s, i) == h
  {
    MatchOptStep(b, x, s, i);
  }

  lemma LineStartHit(x: seq<Tok>, s: string, i: nat, h: Option<Hit>)
    requires i <= |s| && (i == 0 || s[i - 1] == '\n') && Match(x, s, i) == h
    ensures Match([LineStart] + x, s, i) == h
  {
    MatchLineStartStep(x, s, i);
  }

  lemma LineEndHit(x: seq<Tok>, s: string, i: nat, h: Option<Hit>)
    requires i <= |s| && (i == |s| || s[i] == '\n') && Match(x, s, i) == h
    ensures Match([LineEnd] + x, s, i) == h
  {
    MatchLineEndStep(x, s, i);
  }

  lemma LineEndMiss(x: seq<Tok>, s: string, i: nat)
    requires i < |s| && s[i] != '\n'
    ensures Match([LineEnd] + x, s, i) == None
  {
    MatchLineEndStep(x, s, i);
  }

  /** The longest run of `k` from `i` ends at `j`. */
  lemma RunTo(k: CharClass, s: string, i: nat, j: nat)
    requires i <= j <= |s| && AllIn(s, i, j, k) && (j == |s| || !InClass(s[j], k))
    ensures RunEnd(k, s, i) == j
  {
    RunEndIsLongest(k, s, i, j);
  }

  /** A run whose longest end already lets the rest match. */
  lemma StarHit(k: CharClass, m: nat, x: seq<Tok>, s: string, i: nat, j: nat, h: Option<Hit>)
    requires i + m <= j <= |s| && RunEnd(k, s, i) == j && Match(x, s, j) == h && h.Some?
    ensures Match([Star(k, m)] + x, s, i) == h
  {
    MatchStarStep(k, m, x, s, i);
  }

  /** A run that gives back one character before the rest matches. */
  lemma StarBack(k: CharClass, m: nat, x: seq<Tok>, s: string, i: nat, j: nat, h: Option<Hit>)
    requires i + m < j <= |s| && RunEnd(k, s, i) == j && Match(x, s, j) == None
    requires Match(x, s, j - 1) == h && h.Some?
    ensures Match([Star(k, m)] + x, s, i) == h
  {
    MatchStarStep(k, m, x, s, i);
  }

  /** An empty run. */
  lemma StarEmpty(k: CharClass, x: seq<Tok>, s: string, i: nat, h: Option<Hit>)
    requires i <= |s| && (i == |s| || !InClass(s[i], k)) && Match(x, s, i) == h
    ensures Match([Star(k, 0)] + x, s, i) == h
  {
    MatchStarStep(k, 0, x, s, i);
    RunTo(k, s, i, i);
  }

  lemma EndOfPattern(s: string, i: nat)
    requires i <= |s|
    ensures Match([Mark], s, i) == Some(Hit([i], i))
  {
    assert [Mark] == [Mark] + [];
    MarkHit([], s, i, [], i);
    assert [i] + [] == [i];
  }

  /** The suffix group `(\.[a-zA-Z_][a-zA-Z0-9_.]*)?` where no dot follows, with its marks. */
  lemma EmptySuffix(body: seq<Tok>, t10: seq<Tok>, s: string, i: nat, e: nat)
    requires body == [Lit("."), One(IdentHead), Star(IdentTail, 0)]
    requires i < |s| && s[i] != '.' && Match(t10, s, i) == Some(Hit([e], e))
    ensures Match([Mark] + ([Mark] + ([Opt(body)] + ([Mark] + ([Mark] + t10)))), s, i) == Some(Hit([i, i, i, i, e], e))
  {
    var t8 := [Mark] + ([Mark] + t10);
    TwoMarks(t10, s, i, [e], e);
    assert [i, i] + [e] == [i, i, e];
    NoSuffix(body, t8, s, i);
    MarksBeforeSuffix([Opt(body)] + t8, s, i, e);
  }

  lemma MarksBeforeSuffix(x: seq<Tok>, s: string, i: nat, e: nat)
    requires i <= |s| && Match(x, s, i) == Some(Hit([i, i, e], e))
    ensures Match([Mark] + ([Mark] + x), s, i) == Some(Hit([i, i, i, i, e], e))
  {
    TwoMarks(x, s, i, [i, i, e], e);
    assert [i, i] + [i, i, e] == [i, i, i, i, e];
  }

  lemma TwoMarks(x: seq<Tok>, s: string, i: nat, m: seq<nat>, e: nat)
    requires i <= |s| && Match(x, s, i) == Some(Hit(m, e))
    ensures Match([Mark] + ([Mark] + x), s, i) == Some(Hit([i, i] + m, e))
  {
    MarkHit(x, s, i, m, e);
    MarkHit([Mark] + x, s, i, [i] + m, e);
    assert [i] + ([i] + m) == [i, i] + m;
  }

  lemma NoSuffix(body: seq<Tok>, x: seq<Tok>, s: string, i: nat)
    requires body == [Lit("."), One(IdentHead), Star(IdentTail, 0)]
    requires i < |s| && s[i] != '.'
    ensures Match([Opt(body)] + x, s, i) == Match(x, s, i)
  {
    assert body + x == [Lit(".")] + ([One(IdentHead), Star(IdentTail, 0)] + x);
    LitMiss(".", [One(IdentHead), Star(IdentTail, 0)] + x, s, i);
    OptSkip(body, x, s, i, Match(x, s, i));
  }

  /** The opening `^package\s+a` of a line of the text `package a...`. */
  lemma OpenDecl(t5: seq<Tok>, s: string)
    requires |s| >= 9 && s[0..7] == "package" && s[7] == ' ' && s[8..9] == "a" && !IsSpace(s[8])
    requires Match(t5, s, 9) == Some(Hit([9, 9, 9, 9, 10], 10))
    ensures Match([Mark] + ([LineStart] + ([Lit("package")] + ([Star(Space, 1)] + ([Lit("a")] + t5)))), s, 0)
      == Some(Hit([0, 9, 9, 9, 9, 10], 10))
  {
    var t4 := [Lit("a")] + t5;
    var t3 := [Star(Space, 1)] + t4;
    var t2 := [Lit("package")] + t3;
    var h := Some(Hit([9, 9, 9, 9, 10], 10));
    LitHit("a", t5, s, 8, h);
    RunTo(Space, s, 7, 8);
    StarHit(Space, 1, t4, s, 7, 8, h);
    LitHit("package", t3, s, 0, h);
    LineStartHit(t2, s, 0, h);
    MarkHit([LineStart] + t2, s, 0, [9, 9, 9, 9, 10], 10);
    assert [0] + [9, 9, 9, 9, 10] == [0, 9, 9, 9, 9, 10];
  }

  /** The pattern of `SourceRule("a")`, token by token. */
  lemma SourcePatternA(body: seq<Tok>, t12: seq<Tok>, t10: seq<Tok>, t5: seq<Tok>)
    requires body == [Lit("."), One(IdentHead), Star(IdentTail, 0)]
    requires t12 == [Star(Space, 0)] + ([LineEnd] + [Mark])
    requires t10 == [Star(Space, 0)] + ([Opt([Lit(";")])] + t12)
    requires t5 == [Mark] + ([Mark] + ([Opt(body)] + ([Mark] + ([Mark] + t10))))
    ensures Pattern(SourceRule("a")) == [Mark] + ([LineStart] + ([Lit("package")] + ([Star(Space, 1)] + ([Lit("a")] + t5))))
  {
  }

  // ---------------------------------------------------------------------
  // A declaration followed by a blank line
  // ---------------------------------------------------------------------

  /** A declaration of package `a`, a blank line, and a line `x`. */
  const Blank: string := "package a\n\nx"

  predicate BlankShape(s: string)
  {
    && |s| == 12 && s[0..7] == "package" && s[7] == ' ' && s[8] == 'a' && s[8..9] == "a"
    && s[9] == '\n' && s[10] == '\n' && s[11] == 'x'
  }

  lemma BlankFacts()
    ensures BlankShape(Blank)
  {
  }

  /** `\s*$` after the declaration: the run takes both line breaks, then gives one back. */
  lemma BlankEnd(last: seq<Tok>, s: string)
    requires |s| == 12 && s[10] == '\n' && s[11] == 'x' && Match(last, s, 10) == Some(Hit([10], 10))
    ensures Match([Star(Space, 0)] + ([LineEnd] + last), s, 10) == Some(Hit([10], 10))
    ensures Match([Star(Space, 0)] + ([LineEnd] + last), s, 11) == None
  {
    LineEndHit(last, s, 10, Some(Hit([10], 10)));
    LineEndMiss(last, s, 11);
    RunTo(Space, s, 10, 11);
    StarBack(Space, 0, [LineEnd] + last, s, 10, 11, Some(Hit([10], 10)));
    StarEmpty(Space, [LineEnd] + last, s, 11, None);
  }

  /** `\s*;?` then the rest, from the end of the declaration. */
  lemma BlankClosing(t12: seq<Tok>, s: string)
    requires |s| == 12 && s[9] == '\n' && s[10] == '\n' && s[11] == 'x'
    requires Match(t12, s, 10) == Some(Hit([10], 10)) && Match(t12, s, 11) == None
    ensures Match([Star(Space, 0)] + ([Opt([Lit(";")])] + t12), s, 9) == Some(Hit([10], 10))
  {
    BlankNoSemicolon(t12, s);
    RunTo(Space, s, 9, 11);
    StarBack(Space, 0, [Opt([Lit(";")])] + t12, s, 9, 11, Some(Hit([10], 10)));
  }

  lemma BlankNoSemicolon(t12: seq<Tok>, s: string)
    requires |s| == 12 && s[10] == '\n' && s[11] == 'x'
    requires Match(t12, s, 10) == Some(Hit([10], 10)) && Match(t12, s, 11) == None
    ensures Match([Opt([Lit(";")])] + t12, s, 10) == Some(Hit([10], 10))
    ensures Match([Opt([Lit(";")])] + t12, s, 11) == None
  {
    LitMiss(";", t12, s, 10);
    LitMiss(";", t12, s, 11);
    OptSkip([Lit(";")], t12, s, 10, Some(Hit([10], 10)));
    OptSkip([Lit(";")], t12, s, 11, None);
  }  /** No declaration starts at the line break or at the last line. */
  lemma BlankNoLaterDecl(s: string)
    requires BlankShape(s)
    ensures forall x: seq<Tok> :: Match([Mark] + ([LineStart] + ([Lit("package")] + x)), s, 10) == None
    ensures forall x: seq<Tok> :: Match([Mark] + ([LineStart] + ([Lit("package")] + x)), s, 11) == None
  {
    forall x: seq<Tok> ensures Match([Mark] + ([LineStart] + ([Lit("package")] + x)), s, 10) == None {
      LitMiss("package", x, s, 10);
      LineStartHit([Lit("package")] + x, s, 10, None);
      MarkMiss([LineStart] + ([Lit("package")] + x), s, 10);
    }
    forall x: seq<Tok> ensures Match([Mark] + ([LineStart] + ([Lit("package")] + x)), s, 11) == None {
      LitMiss("package", x, s, 11);
      LineStartHit([Lit("package")] + x, s, 11, None);
      MarkMiss([LineStart] + ([Lit("package")] + x), s, 11);
    }
  }

  lemma BlankMatch(s: string) returns (h: Hit)
    requires BlankShape(s)
    ensures h == Hit([0, 9, 9, 9, 9, 10], 10)
    ensures Match(Pattern(SourceRule("a")), s, 0) == Some(h)
    ensures Match(Pattern(SourceRule("a")), s, 10) == None
    ensures Match(Pattern(SourceRule("a")), s, 11) == None
  {
    h := BlankMatchAtStart(s);
    BlankNoLaterDecl(s);
    var x := Pattern(SourceRule("a"))[3..];
    assert Pattern(SourceRule("a")) == [Mark] + ([LineStart] + ([Lit("package")] + x));
  }

  lemma BlankMatchAtStart(s: string) returns (h: Hit)
    requires BlankShape(s)
    ensures h == Hit([0, 9, 9, 9, 9, 10], 10)
    ensures Match(Pattern(SourceRule("a")), s, 0) == Some(h)
  {
    var body: seq<Tok> := [Lit("."), One(IdentHead), Star(IdentTail, 0)];
    var t12 := [Star(Space, 0)] + ([LineEnd] + [Mark]);
    var t10 := [Star(Space, 0)] + ([Opt([Lit(";")])] + t12);
    var t5 := [Mark] + ([Mark] + ([Opt(body)] + ([Mark] + ([Mark] + t10))));
    EndOfPattern(s, 10);
    BlankEnd([Mark], s);
    BlankClosing(t12, s);
    EmptySuffix(body, t10, s, 9, 10);
    OpenDecl(t5, s);
    SourcePatternA(body, t12, t10, t5);
    h := Hit([0, 9, 9, 9, 9, 10], 10);
  }  /** The substitution over the example text, for any template that expands to `v` at the match. */
  lemma BlankSub(t0: seq<Tok>, tpl: seq<Piece>, h: Hit, v: string)
    requires MinWidth(t0) >= 1 && Match(t0, Blank, 0) == Some(h) && h.end == 10
    requires Match(t0, Blank, 10) == None && Match(t0, Blank, 11) == None
    requires Expand(tpl, Blank, h) == v
    ensures Sub(t0, tpl, Blank) == v + "\nx"
  {
    BlankFacts();
    var s := Blank;
    assert SubFrom(t0, tpl, s, 12) == "";
    assert SubFrom(t0, tpl, s, 11) == "x";
    assert SubFrom(t0, tpl, s, 10) == "\nx";
    assert SubFrom(t0, tpl, s, 0) == v + "\nx";
  }

  /** A template `v\1` expands at the example's match to `v`: the suffix group is empty there. */
  lemma BlankExpand(v: string, h: Hit)
    requires h == Hit([0, 9, 9, 9, 9, 10], 10)
    ensures Expand(Chars(v) + [Group(2)], Blank, h) == v
  {
    BlankFacts();
    EmptyGroupExpand(v, Blank, h);
  }

  /** `v\1` where the suffix group matched nothing. */
  lemma EmptyGroupExpand(v: string, s: string, h: Hit)
    requires |h.marks| >= 4 && h.marks[2] == h.marks[3] <= |s|
    ensures Expand(Chars(v) + [Group(2)], s, h) == v
  {
    ExpandChars(v, [Group(2)], s, h);
    assert [Group(2)][1..] == [];
    assert GroupText(s, h, 2) == "";
  }  /**
   * The trailing `\s*` of the source pattern also takes line breaks, so a
   * blank line after the declaration is swallowed with it: the two line
   * breaks of the example become one.
   */
  lemma SourceSwallowsBlankLine(to: string)
    requires '\\' !in to
    ensures SourceText("a", to, Blank) == "package " + to + "\nx"
  {
    BlankFacts();
    var h := BlankMatch(Blank);
    SourceRuleWellFormed("a");
    BlankExpand("package " + to, h);
    SourceTemplateParse(to);
    BlankSub(Pattern(SourceRule("a")), Chars("package " + to) + [Group(2)], h, "package " + to);
  }

  // ---------------------------------------------------------------------
  // A Java declaration
  // ---------------------------------------------------------------------

  /** A Java declaration of package `a`, with its semicolon. */
  const Semi: string := "package a;"

  predicate SemiShape(s: string)
  {
    |s| == 10 && s[0..7] == "package" && s[7] == ' ' && s[8] == 'a' && s[8..9] == "a" && s[9] == ';' && s[9..10] == ";"
  }

  lemma SemiFacts()
    ensures SemiShape(Semi)
  {
  }

  /** `\s*;?\s*$` at the semicolon. */
  lemma SemiClosing(last: seq<Tok>, s: string)
    requires |s| == 10 && s[9] == ';' && s[9..10] == ";" && Match(last, s, 10) == Some(Hit([10], 10))
    ensures Match([Star(Space, 0)] + ([Opt([Lit(";")])] + ([Star(Space, 0)] + ([LineEnd] + last))), s, 9) == Some(Hit([10], 10))
  {
    var h := Some(Hit([10], 10));
    var t12 := [Star(Space, 0)] + ([LineEnd] + last);
    LineEndHit(last, s, 10, h);
    StarEmpty(Space, [LineEnd] + last, s, 10, h);
    LitHit(";", t12, s, 9, h);
    OptTake([Lit(";")], t12, s, 9, h);
    StarEmpty(Space, [Opt([Lit(";")])] + t12, s, 9, h);
  }

  lemma SemiMatch(s: string) returns (h: Hit)
    requires SemiShape(s)
    ensures h == Hit([0, 9, 9, 9, 9, 10], 10)
    ensures Match(Pattern(SourceRule("a")), s, 0) == Some(h)
  {
    var body: seq<Tok> := [Lit("."), One(IdentHead), Star(IdentTail, 0)];
    var t12 := [Star(Space, 0)] + ([LineEnd] + [Mark]);
    var t10 := [Star(Space, 0)] + ([Opt([Lit(";")])] + t12);
    var t5 := [Mark] + ([Mark] + ([Opt(body)] + ([Mark] + ([Mark] + t10))));
    EndOfPattern(s, 10);
    SemiClosing([Mark], s);
    EmptySuffix(body, t10, s, 9, 10);
    OpenDecl(t5, s);
    SourcePatternA(body, t12, t10, t5);
    h := Hit([0, 9, 9, 9, 9, 10], 10);
  }

  /** The substitution over the whole example text, for any template that expands to `v` at the match. */
  lemma SemiSub(t0: seq<Tok>, tpl: seq<Piece>, h: Hit, v: string, s: string)
    requires SemiShape(s) && MinWidth(t0) >= 1 && Match(t0, s, 0) == Some(h) && h.end == 10
    requires Expand(tpl, s, h) == v
    ensures Sub(t0, tpl, s) == v
  {
    assert SubFrom(t0, tpl, s, 10) == "";
    assert SubFrom(t0, tpl, s, 0) == v + "";
  }

  /**
   * As written, the declaration pass drops the semicolon of a Java
   * declaration: `package a;` becomes `package new`.
   */
  lemma SourceDropsSemicolon(to: string)
    requires '\\' !in to
    ensures SourceText("a", to, Semi) == "package " + to
  {
    SemiFacts();
    DropsSemicolonAt(to, Semi);
  }

  lemma DropsSemicolonAt(to: string, s: string)
    requires '\\' !in to && SemiShape(s)
    ensures SourceText("a", to, s) == "package " + to
  {
    var h := SemiMatch(s);
    SourceRuleWellFormed("a");
    EmptyGroupExpand("package " + to, s, h);
    SourceTemplateParse(to);
    SemiSub(Pattern(SourceRule("a")), Chars("package " + to) + [Group(2)], h, "package " + to, s);
  }

  /** With the correction the semicolon stays: `package a;` becomes `package new;`. */
  lemma SourceKeptSemicolon(to: string)
    requires '\\' !in to
    ensures SourceTextKept("a", to, Semi) == "package " + to + ";"
  {
    SemiFacts();
    KeptSemicolonAt(to, Semi);
  }

  lemma KeptSemicolonAt(to: string, s: string)
    requires '\\' !in to && SemiShape(s)
    ensures SourceTextKept("a", to, s) == "package " + to + ";"
  {
    var h := SemiMatch(s);
    SourceRuleWellFormed("a");
    KeptExpand("package " + to, s, h);
    assert s[9..10] == ";";
    SourceKeptTemplateParse(to);
    SemiSub(Pattern(SourceRule("a")), Chars("package " + to) + [Group(2), Group(3)], h, "package " + to + ";", s);
  }
}
