/**
 * Replacement templates of Python's `re.sub`.
 *
 * A template string is read token by token: a backslash and the character
 * after it form one token, every other character is a token of its own.
 * `\n`-style escapes become characters, `\0` and three-digit `\1xx` forms
 * are octal escapes, `\<digit>` and `\<digit><digit>` are group
 * references, and `\g<number>` is a group reference too. A reference to a
 * group the pattern does not have, an escape of an unknown ASCII letter and
 * a trailing backslash make `re.sub` raise before it looks at the text.
 *
 * `layout` maps the source's group numbers to the groups of the marked
 * patterns of TextScan: the source's group `n` is group `layout[n - 1]`.
 */
module ReplTemplate {
  import opened Wrappers
  import opened TextScan

  predicate IsDigit(c: char)
  {
    '0' <= c <= '9'
  }

  predicate IsOctal(c: char)
  {
    '0' <= c <= '7'
  }

  predicate IsAsciiLetter(c: char)
  {
    ('a' <= c <= 'z') || ('A' <= c <= 'Z')
  }

  function DigitValue(c: char): nat
    requires IsDigit(c)
  {
    c as int - '0' as int
  }

  /** The escapes `re` knows in a template, other than group references. */
  function Escape(c: char): Option<char>
  {
    match c
    case 'a' => Some('\U{0007}')
    case 'b' => Some('\U{0008}')
    case 'f' => Some('\U{000C}')
    case 'n' => Some('\n')
    case 'r' => Some('\r')
    case 't' => Some('\t')
    case 'v' => Some('\U{000B}')
    case '\\' => Some('\\')
    case _ => None
  }

  function Cons(p: Piece, r: Option<seq<Piece>>): Option<seq<Piece>>
  {
    if r.Some? then Some([p] + r.value) else None
  }

  /** A reference to group `n` of the source's pattern, which has `|layout|` groups. */
  function GroupRef(n: nat, layout: seq<nat>, rest: Option<seq<Piece>>): Option<seq<Piece>>
  {
    if n == 0 then Cons(Whole, rest)
    else if n <= |layout| then Cons(Group(layout[n - 1]), rest)
    else None
  }

  /** Index of the first `c` in `s`, or `|s|` when there is none. */
  function IndexOf(s: string, c: char): (r: nat)
    ensures r <= |s|
    ensures r < |s| ==> s[r] == c
    ensures forall k :: 0 <= k < r ==> s[k] != c
  {
    if s == [] then 0
    else if s[0] == c then 0
    else 1 + IndexOf(s[1..], c)
  }

  predicate AllDigits(s: string)
  {
    forall k :: 0 <= k < |s| ==> IsDigit(s[k])
  }

  function Number(s: string): nat
    requires AllDigits(s)
  {
    if s == [] then 0 else Number(s[..|s| - 1]) * 10 + DigitValue(s[|s| - 1])
  }

  /** The pieces of a template, or `None` when `re` rejects it. */
  function ParseTemplate(t: string, layout: seq<nat>): Option<seq<Piece>>
    decreases |t|
  {
    if t == [] then Some([])
    else if t[0] != '\\' then Cons(Text([t[0]]), ParseTemplate(t[1..], layout))
    else if |t| == 1 then None
    else
      var c := t[1];
      if c == 'g' then
        // `\g<name>`: only a number is a valid name here, the patterns have no named groups
        if |t| < 4 || t[2] != '<' then None
        else
          var close := 3 + IndexOf(t[3..], '>');
          if close == |t| || close == 3 || !AllDigits(t[3..close]) then None
          else GroupRef(Number(t[3..close]), layout, ParseTemplate(t[close + 1..], layout))
      else if c == '0' then
        // `\0` with up to two more octal digits
        if |t| > 2 && IsOctal(t[2]) then
          if |t| > 3 && IsOctal(t[3]) then
            Cons(Text([(DigitValue(t[2]) * 8 + DigitValue(t[3])) as char]), ParseTemplate(t[4..], layout))
          else Cons(Text([DigitValue(t[2]) as char]), ParseTemplate(t[3..], layout))
        else Cons(Text(['\U{0000}']), ParseTemplate(t[2..], layout))
      else if IsDigit(c) then
        if |t| > 2 && IsDigit(t[2]) then
          if IsOctal(c) && IsOctal(t[2]) && |t| > 3 && IsOctal(t[3]) then
            var v := DigitValue(c) * 64 + DigitValue(t[2]) * 8 + DigitValue(t[3]);
            if v > 255 then None else Cons(Text([v as char]), ParseTemplate(t[4..], layout))
          else GroupRef(DigitValue(c) * 10 + DigitValue(t[2]), layout, ParseTemplate(t[3..], layout))
        else GroupRef(DigitValue(c), layout, ParseTemplate(t[2..], layout))
      else if Escape(c).Some? then Cons(Text([Escape(c).value]), ParseTemplate(t[2..], layout))
      else if IsAsciiLetter(c) then None
      else Cons(Text(['\\', c]), ParseTemplate(t[2..], layout))
  }

  /** One literal piece per character. */
  function Chars(v: string): (r: seq<Piece>)
    ensures |r| == |v|
  {
    if v == [] then [] else [Text([v[0]])] + Chars(v[1..])
  }

  /** Literal pieces read as their characters, followed by whatever the rest of the template reads as. */
  lemma ExpandChars(v: string, rest: seq<Piece>, s: string, h: Hit)
    ensures Expand(Chars(v) + rest, s, h) == v + Expand(rest, s, h)
  {
    ExpandAppend(Chars(v), rest, s, h);
    ExpandLiteral(v, s, h);
  }

  /** A template read in two parts. */
  lemma {:induction false} ExpandAppend(a: seq<Piece>, b: seq<Piece>, s: string, h: Hit)
    ensures Expand(a + b, s, h) == Expand(a, s, h) + Expand(b, s, h)
    decreases |a|
  {
    if a == [] {
      assert a + b == b;
    } else {
      assert (a + b)[0] == a[0] && (a + b)[1..] == a[1..] + b;
      ExpandAppend(a[1..], b, s, h);
    }
  }

  /** A template without a backslash is read as its own text. */
  lemma ParseLiteral(v: string, layout: seq<nat>)
    requires '\\' !in v
    ensures ParseTemplate(v, layout) == Some(Chars(v))
  {
    ParsePlain(v, "", layout);
    assert v + "" == v;
    assert Chars(v) + [] == Chars(v);
  }

  lemma {:induction false} ParsePlain(v: string, rest: string, layout: seq<nat>)
    requires '\\' !in v
    ensures ParseTemplate(v + rest, layout) ==
      (if ParseTemplate(rest, layout).Some? then Some(Chars(v) + ParseTemplate(rest, layout).value) else None)
    decreases |v|
  {
    if v == [] {
      assert v + rest == rest;
      if ParseTemplate(rest, layout).Some? {
        assert Chars(v) + ParseTemplate(rest, layout).value == ParseTemplate(rest, layout).value;
      }
    } else {
      assert (v + rest)[0] == v[0] && (v + rest)[1..] == v[1..] + rest;
      assert v[0] in v;
      assert forall c :: c in v[1..] ==> c in v;
      ParsePlain(v[1..], rest, layout);
      if ParseTemplate(rest, layout).Some? {
        assert [Text([v[0]])] + (Chars(v[1..]) + ParseTemplate(rest, layout).value)
          == Chars(v) + ParseTemplate(rest, layout).value;
      }
    }
  }

  /** The source's `\1` + value + `\2` template. */
  function Surround(v: string): string
  {
    "\\1" + v + "\\2"
  }

  /** A value is safe to splice after `\1` when it has no backslash and does not start with a digit. */
  predicate SpliceSafe(v: string)
  {
    '\\' !in v && (v == [] || !IsDigit(v[0]))
  }

  /**
   * With a safe value, `\1` + value + `\2` keeps group 1, puts the value,
   * and keeps group 2: it expands like `Keep`.
   */
  lemma SurroundSafe(v: string, s: string, h: Hit)
    requires SpliceSafe(v)
    ensures ParseTemplate(Surround(v), [1, 3]).Some?
    ensures Expand(ParseTemplate(Surround(v), [1, 3]).value, s, h) == Expand(Keep(v), s, h)
  {
    var layout := [1, 3];
    var tail := "\\2";
    assert ParseTemplate(tail, layout) == Some([Group(3)]) by {
      assert tail[0] == '\\' && tail[1] == '2' && |tail| == 2 && tail[2..] == [];
      assert DigitValue('2') == 2 && layout[1] == 3;
      assert [Group(3)] + [] == [Group(3)];
    }
    ParsePlain(v, tail, layout);
    var t := Surround(v);
    assert t[0] == '\\' && t[1] == '1' && t[2..] == v + tail;
    assert |t| > 2 ==> t[2] == (v + tail)[0];
    assert ParseTemplate(t, layout) == Some([Group(1)] + (Chars(v) + [Group(3)]));
    var pieces := [Group(1)] + (Chars(v) + [Group(3)]);
    assert pieces[0] == Group(1) && pieces[1..] == Chars(v) + [Group(3)];
    ExpandChars(v, [Group(3)], s, h);
    assert [Group(3)][0] == Group(3) && [Group(3)][1..] == [];
    ExpandKeep(v, s, h);
  }

  /**
   * A value that starts with a digit turns `\1` into a different escape: the
   * template either fails to parse or no longer refers to group 1.
   */
  lemma DigitLeadingLosesGroup(v: string)
    requires v != [] && IsDigit(v[0]) && '\\' !in v
    ensures ParseTemplate(Surround(v), [1, 3]).None? || Group(1) !in ParseTemplate(Surround(v), [1, 3]).value
  {
    var layout := [1, 3];
    var tail := "\\2";
    var t := Surround(v);
    assert t[0] == '\\' && t[1] == '1' && t[2] == v[0] && t[2..] == v + tail;
    assert ParseTemplate(tail, layout) == Some([Group(3)]) by {
      assert tail[0] == '\\' && tail[1] == '2' && |tail| == 2 && tail[2..] == [];
      assert DigitValue('2') == 2 && layout[1] == 3;
      assert [Group(3)] + [] == [Group(3)];
    }
    if |t| > 3 && IsOctal(v[0]) && IsOctal(t[3]) {
      assert t[4..] == v[2..] + tail;
      assert forall c :: c in v[2..] ==> c in v;
      ParsePlain(v[2..], tail, layout);
      assert Group(1) !in Chars(v[2..]) + [Group(3)] by {
        CharsHaveNoGroup(v[2..]);
      }
    } else {
      assert 10 <= DigitValue('1') * 10 + DigitValue(t[2]);
    }
  }

  lemma {:induction false} CharsHaveNoGroup(v: string)
    ensures forall n :: Group(n) !in Chars(v)
    decreases |v|
  {
    if v != [] {
      CharsHaveNoGroup(v[1..]);
      assert Chars(v) == [Text([v[0]])] + Chars(v[1..]);
    }
  }

  /**
   * `re.sub` of a rule with the template text `tpl`: `None` when `re`
   * rejects the template, which it does before it looks at `s`.
   */
  function SubWith(r: Rule, tpl: string, layout: seq<nat>, s: string): Option<string>
    requires WellFormed(r)
  {
    var pieces := ParseTemplate(tpl, layout);
    if pieces.None? then None else Some(Sub(Pattern(r), pieces.value, s))
  }

  /** Two templates that expand alike give the same substitution. */
  lemma {:induction false} SubSameExpansion(ts: seq<Tok>, t1: seq<Piece>, t2: seq<Piece>, s: string, i: nat)
    requires i <= |s| && MinWidth(ts) >= 1
    requires forall h :: Expand(t1, s, h) == Expand(t2, s, h)
    ensures SubFrom(ts, t1, s, i) == SubFrom(ts, t2, s, i)
    decreases |s| - i
  {
    if i < |s| {
      var r := Match(ts, s, i);
      if r.Some? {
        SubSameExpansion(ts, t1, t2, s, r.value.end);
      } else {
        SubSameExpansion(ts, t1, t2, s, i + 1);
      }
    }
  }

  /** With a safe value, the source's `\1` + value + `\2` substitution is `SubRule`. */
  lemma SurroundIsKeep(r: Rule, v: string, s: string)
    requires WellFormed(r) && SpliceSafe(v)
    ensures SubWith(r, Surround(v), [1, 3], s) == Some(SubRule(r, v, s))
  {
    SurroundSafe(v, s, Hit([], 0));
    var pieces := ParseTemplate(Surround(v), [1, 3]).value;
    forall h: Hit ensures Expand(pieces, s, h) == Expand(Keep(v), s, h) {
      SurroundSafe(v, s, h);
    }
    SubSameExpansion(Pattern(r), pieces, Keep(v), s, 0);
  }

  // ---------------------------------------------------------------------
  // Substitution with a template that has no backslash
  // ---------------------------------------------------------------------

  /** Literal pieces read as their characters. */
  lemma {:induction false} ExpandLiteral(v: string, s: string, h: Hit)
    ensures Expand(Chars(v), s, h) == v
    decreases |v|
  {
    if v != [] {
      ExpandLiteral(v[1..], s, h);
      assert Chars(v)[1..] == Chars(v[1..]);
      assert v == [v[0]] + v[1..];
    }
  }

  /** At the leftmost match a literal template puts its own text. */
  lemma LiteralAtFirst(ts: seq<Tok>, v: string, s: string, i: nat, h: Hit)
    requires MinWidth(ts) >= 1 && Search(ts, s, 0) == Some(Found(i, h))
    ensures i < h.end <= |s|
    ensures Sub(ts, Chars(v), s) == s[..i] + v + SubFrom(ts, Chars(v), s, h.end)
  {
    SubAtFirst(ts, Chars(v), s, i, h);
    ExpandLiteral(v, s, h);
  }

  /** Where every match already reads `v`, substituting `v` changes nothing. */
  lemma LiteralSettled(ts: seq<Tok>, v: string, s: string)
    requires MinWidth(ts) >= 1
    requires forall j :: 0 <= j < |s| && Match(ts, s, j).Some? ==> s[j..Match(ts, s, j).value.end] == v
    ensures Sub(ts, Chars(v), s) == s
  {
    forall j | 0 <= j < |s| && Match(ts, s, j).Some?
      ensures Expand(Chars(v), s, Match(ts, s, j).value) == s[j..Match(ts, s, j).value.end]
    {
      ExpandLiteral(v, s, Match(ts, s, j).value);
    }
    SubStable(ts, Chars(v), s, 0);
    assert s[0..] == s;
  }

  // ---------------------------------------------------------------------
  // A value spliced between the two kept groups of a rule
  // ---------------------------------------------------------------------

  /** `re.sub` with the template `\1` + name + `\2`; a template `re` rejects raises, and the file is left alone. */
  function SpliceText(r: Rule, v: string, s: string): string
    requires WellFormed(r)
  {
    match ParseTemplate(Surround(v), [1, 3])
    case None => s
    case Some(tpl) => Sub(Pattern(r), tpl, s)
  }

  /** A text the rule does not match anywhere is left alone by every edit of that rule. */
  lemma NoSiteUnchanged(r: Rule, v: string, s: string)
    requires WellFormed(r) && forall i :: 0 <= i < |s| ==> !RuleAt(r, s, i)
    ensures SpliceText(r, v, s) == s
    ensures SubRule(r, v, s) == s
  {
    var p := ParseTemplate(Surround(v), [1, 3]);
    if p.Some? {
      SubRuleWithoutSite(r, p.value, s);
    }
    SubRuleWithoutSite(r, Keep(v), s);
  }

  /**
   * At the leftmost site of a rule the kept edit puts the name between the
   * two parts it keeps: the text reads up to the end of the first part,
   * then the name, then the closing part, then the rest rewritten.
   */
  lemma KeptFirstSite(r: Rule, v: string, s: string) returns (i: nat, a: nat, b: nat, e: nat)
    requires WellFormed(r) && Search(Pattern(r), s, 0).Some?
    ensures RuleAccepts(r, s, i, a, b, e) && i < e
    ensures forall j :: 0 <= j < i ==> !RuleAt(r, s, j)
    ensures SubRule(r, v, s) == s[..a] + v + s[b..e] + SubFrom(Pattern(r), Keep(v), s, e)
  {
    i, a, b, e := FirstRuleSite(r, s);
    SubRuleAtFirst(r, v, s, i, a, b, e);
  }

  /** The edits change a text only where the rule matches. */
  lemma ChangedHasSite(r: Rule, v: string, s: string) returns (i: nat, a: nat, b: nat, e: nat)
    requires WellFormed(r) && (SpliceText(r, v, s) != s || SubRule(r, v, s) != s)
    ensures i < |s| && RuleAccepts(r, s, i, a, b, e)
  {
    if SubRule(r, v, s) != s {
      i, a, b, e := SubRuleChangedHasSite(r, Keep(v), s);
    } else {
      var p := ParseTemplate(Surround(v), [1, 3]).value;
      i, a, b, e := SubRuleChangedHasSite(r, p, s);
    }
  }

  /** Where every site already holds `v` between its kept parts, the kept edit changes nothing. */
  lemma KeptSettled(r: Rule, v: string, s: string)
    requires WellFormed(r)
    requires forall i: nat, a: nat, b: nat, e: nat :: RuleAccepts(r, s, i, a, b, e) ==> s[a..b] == v
    ensures SubRule(r, v, s) == s
  {
    forall j | 0 <= j < |s| && Match(Pattern(r), s, j).Some?
      ensures Expand(Keep(v), s, Match(Pattern(r), s, j).value) == s[j..Match(Pattern(r), s, j).value.end]
    {
      var a, b, e := RuleHit(r, s, j);
      KeepExpands(v, s, j, a, b, e);
      ThreeParts(s, j, a, b, e);
    }
    SubStable(Pattern(r), Keep(v), s, 0);
    assert s[0..] == s;
  }

  /** A rule made of plain tokens, closed by at least one character, is well formed. */
  lemma FlatRule(r: Rule)
    requires forall k :: 0 <= k < |r.pre| ==> !r.pre[k].Mark? && !r.pre[k].Opt?
    requires forall k :: 0 <= k < |r.mid| ==> !r.mid[k].Mark? && !r.mid[k].Opt?
    requires forall k :: 0 <= k < |r.post| ==> !r.post[k].Mark? && !r.post[k].Opt?
    requires MinWidth(r.post) >= 1
    ensures WellFormed(r)
  {
    NoMarksFlat(r.pre);
    NoMarksFlat(r.mid);
    NoMarksFlat(r.post);
    PatternWidth(r);
  }

  // ---------------------------------------------------------------------
  // A quoted attribute reset to a fixed value
  // ---------------------------------------------------------------------

  /**
   * `open[^"]*"` cut where a fixed replacement `open` + value + `"` keeps
   * text: the opening, the old value, the closing quote.
   */
  function AttrRule(open: string): Rule
  {
    Rule([Lit(open)], [Star(NoneOf("\""), 0)], [Lit("\"")])
  }

  lemma AttrWellFormed(open: string)
    ensures WellFormed(AttrRule(open))
  {
    var r := AttrRule(open);
    assert r.post[1..] == [];
    FlatRule(r);
  }

  /** `re.sub(open + '[^"]*"', open + value + '"', s)`. */
  function AttrText(open: string, value: string, s: string): string
  {
    AttrWellFormed(open);
    Sub(Pattern(AttrRule(open)), Chars(open + value + "\""), s)
  }

  /** With no backslash in it, `re` reads the fixed replacement as its own text. */
  lemma AttrTemplateParse(open: string, value: string)
    requires '\\' !in open && '\\' !in value
    ensures ParseTemplate(open + value + "\"", []) == Some(Chars(open + value + "\""))
  {
    assert '\\' !in "\"";
    ParseLiteral(open + value + "\"", []);
  }

  /** A site of the rule is the opening, a value without quotes, and a quote. */
  lemma AttrParts(open: string, s: string, i: nat, a: nat, b: nat, e: nat)
    requires RuleAccepts(AttrRule(open), s, i, a, b, e)
    ensures a == i + |open| && e == b + 1
    ensures s[i..a] == open && s[b] == '"'
    ensures forall k :: a <= k < b ==> s[k] != '"'
  {
    AcceptsLit(open, s, i, a);
    AcceptsLit("\"", s, b, e);
    AcceptsStar(NoneOf("\""), 0, s, a, b);
  }

  lemma AttrExpands(open: string, value: string, s: string, h: Hit)
    ensures Expand(Chars(open + value + "\""), s, h) == open + value + "\""
  {
    ExpandLiteral(open + value + "\"", s, h);
  }

  /** Where every site already holds `value`, the reset changes nothing. */
  lemma AttrSettled(open: string, value: string, s: string)
    requires forall i: nat, a: nat, b: nat, e: nat :: RuleAccepts(AttrRule(open), s, i, a, b, e) ==> s[a..b] == value
    ensures AttrText(open, value, s) == s
  {
    AttrWellFormed(open);
    var r := AttrRule(open);
    forall j | 0 <= j < |s| && Match(Pattern(r), s, j).Some?
      ensures Expand(Chars(open + value + "\""), s, Match(Pattern(r), s, j).value) == s[j..Match(Pattern(r), s, j).value.end]
    {
      var a, b, e := RuleHit(r, s, j);
      AttrParts(open, s, j, a, b, e);
      AttrExpands(open, value, s, Match(Pattern(r), s, j).value);
      ThreeParts(s, j, a, b, e);
      assert s[b..e] == "\"";
    }
    SubStable(Pattern(r), Chars(open + value + "\""), s, 0);
  }

  /** Where the rule has no site, the reset changes nothing. */
  lemma AttrWithoutSite(open: string, value: string, s: string)
    requires forall i :: 0 <= i < |s| ==> !RuleAt(AttrRule(open), s, i)
    ensures AttrText(open, value, s) == s
  {
    AttrWellFormed(open);
    SubRuleWithoutSite(AttrRule(open), Chars(open + value + "\""), s);
  }

  /** The leftmost site is rewritten to `open` + `value` + `"`, the text before it kept. */
  lemma AttrFirstSite(open: string, value: string, s: string) returns (i: nat, a: nat, b: nat, e: nat)
    requires (AttrWellFormed(open); Search(Pattern(AttrRule(open)), s, 0).Some?)
    ensures RuleAccepts(AttrRule(open), s, i, a, b, e) && forall j :: 0 <= j < i ==> !RuleAt(AttrRule(open), s, j)
    ensures AttrText(open, value, s) == s[..i] + (open + value + "\"") + SubFrom(Pattern(AttrRule(open)), Chars(open + value + "\""), s, e)
  {
    AttrWellFormed(open);
    var r := AttrRule(open);
    i, a, b, e := FirstRuleSite(r, s);
    var v := open + value + "\"";
    LiteralAtFirst(Pattern(r), v, s, i, Hit([i, a, a, b, b, e], e));
  }

  /** Where the reset changed the text, the rule has a site whose value was not `value`. */
  lemma AttrChangedHasSite(open: string, value: string, s: string) returns (i: nat, a: nat, b: nat, e: nat)
    requires AttrText(open, value, s) != s
    ensures RuleAccepts(AttrRule(open), s, i, a, b, e) && s[a..b] != value
  {
    if forall i: nat, a: nat, b: nat, e: nat :: RuleAccepts(AttrRule(open), s, i, a, b, e) ==> s[a..b] == value {
      AttrSettled(open, value, s);
      assert false;
    }
    i, a, b, e :| RuleAccepts(AttrRule(open), s, i, a, b, e) && s[a..b] != value;
  }

  // ---------------------------------------------------------------------
  // The sites of an attribute reset's output
  // ---------------------------------------------------------------------

  /** `re.sub` of an attribute reset from position `i` on. */
  function AttrFrom(open: string, value: string, s: string, i: nat): string
    requires i <= |s|
  {
    AttrWellFormed(open);
    SubFrom(Pattern(AttrRule(open)), Chars(open + value + "\""), s, i)
  }

  /** A site of `AttrRule(open)` at `j` whose value is closed by the quote at `b`, in plain characters. */
  ghost predicate AttrSite(open: string, t: string, j: nat, b: nat)
  {
    && j + |open| <= b < |t| && t[j..j + |open|] == open && t[b] == '"'
    && (forall k :: j + |open| <= k < b ==> t[k] != '"')
  }

  /** Every site of `AttrRule(open)` in `t` holds `value`. */
  ghost predicate AttrHolds(open: string, value: string, t: string)
  {
    forall j: nat, b: nat :: AttrSite(open, t, j, b) ==> t[j + |open|..b] == value
  }

  /** Placed at offset `d` of `y`, `x` differs from `y` somewhere they overlap. */
  ghost predicate Clash(x: string, y: string, d: nat)
  {
    exists k :: 0 <= k < |x| && d + k < |y| && x[k] != y[d + k]
  }

  /**
   * What keeps a reset to `open2` + `value2` from making or moving a site of
   * `open1`: the opening has a quote, no site of `open1` starts inside the
   * replacement or runs into it from the text before, except the
   * replacement's own site when the two resets are the same.
   */
  ghost predicate AttrApart(open1: string, value1: string, open2: string, value2: string)
  {
    var r := open2 + value2 + "\"";
    && '"' in open2
    && (forall d :: 0 < d < |r| ==> Clash(open1, r, d))
    && (forall d :: 0 < d < |open1| ==> Clash(r, open1, d))
    && (Clash(open1, r, 0) || (open1 == open2 && value1 == value2 && '"' !in value2))
  }

  lemma SiteAccepts(open: string, t: string, j: nat, b: nat)
    requires AttrSite(open, t, j, b)
    ensures RuleAccepts(AttrRule(open), t, j, j + |open|, b, b + 1)
  {
    var r := AttrRule(open);
    assert r.pre[1..] == [] && r.mid[1..] == [] && r.post[1..] == [];
    assert Accepts([], t, j + |open|, Hit([], j + |open|));
    assert Accepts(r.pre, t, j, Hit([], j + |open|));
    assert AllIn(t, j + |open|, b, NoneOf("\""));
    assert t[b..b + 1] == "\"";
  }

  lemma AcceptsSite(open: string, t: string, j: nat, a: nat, b: nat, e: nat)
    requires RuleAccepts(AttrRule(open), t, j, a, b, e)
    ensures AttrSite(open, t, j, b) && a == j + |open| && e == b + 1
  {
    AttrParts(open, t, j, a, b, e);
  }

  /** A site after a prefix `x` is a site of the rest, with the same value. */
  lemma SiteShift(open: string, x: string, y: string, j: nat, b: nat)
    ensures AttrSite(open, x + y, |x| + j, |x| + b) <==> AttrSite(open, y, j, b)
    ensures j + |open| <= b <= |y| ==> (x + y)[|x| + j + |open|..|x| + b] == y[j + |open|..b]
  {
    var t := x + y;
    if j + |open| <= b <= |y| {
      assert t[|x| + j..|x| + j + |open|] == y[j..j + |open|];
      assert t[|x| + j + |open|..|x| + b] == y[j + |open|..b];
    }
    if AttrSite(open, y, j, b) {
      assert forall k :: |x| + j + |open| <= k < |x| + b ==> t[k] == y[k - |x|];
    }
    if AttrSite(open, t, |x| + j, |x| + b) {
      forall k | j + |open| <= k < b ensures y[k] != '"' {
        assert t[|x| + k] == y[k];
      }
    }
  }

  /** A site at `m`: the reset puts the replacement for it and goes on after it. */
  lemma AttrAt(open: string, value: string, s: string, m: nat) returns (e: nat)
    requires m <= |s| && (AttrWellFormed(open); Match(Pattern(AttrRule(open)), s, m).Some?)
    ensures m + |open| < e <= |s| && s[m..m + |open|] == open
    ensures AttrFrom(open, value, s, m) == (open + value + "\"") + AttrFrom(open, value, s, e)
  {
    AttrWellFormed(open);
    var r := AttrRule(open);
    var h := Match(Pattern(r), s, m).value;
    var a, b;
    a, b, e := RuleHit(r, s, m);
    AttrParts(open, s, m, a, b, e);
    AttrExpands(open, value, s, h);
    assert m < |s|;
  }

  /** The leftmost site from `i` on: the text before it is copied, the site becomes the replacement. */
  lemma AttrStep(open: string, value: string, s: string, i: nat) returns (m: nat, e: nat)
    requires i <= |s| && (AttrWellFormed(open); Search(Pattern(AttrRule(open)), s, i).Some?)
    ensures i <= m && m + |open| < e <= |s| && s[m..m + |open|] == open
    ensures forall p :: i <= p < m ==> !RuleAt(AttrRule(open), s, p)
    ensures AttrFrom(open, value, s, i) == s[i..m] + (open + value + "\"") + AttrFrom(open, value, s, e)
  {
    AttrWellFormed(open);
    var r := AttrRule(open);
    m := Search(Pattern(r), s, i).value.pos;
    forall p | i <= p < m ensures !RuleAt(r, s, p) {
      RuleMatchIff(r, s, p);
    }
    SubCopies(Pattern(r), Chars(open + value + "\""), s, i);
    assert AttrFrom(open, value, s, i) == s[i..m] + AttrFrom(open, value, s, m);
    e := AttrAt(open, value, s, m);
  }

  /** Two texts placed in one text agree where they overlap. */
  lemma Overlap(x: string, y: string, t: string, j: nat, c: nat)
    requires j + |x| <= |t| && t[j..j + |x|] == x
    requires c + |y| <= |t| && t[c..c + |y|] == y
    ensures j <= c ==> !Clash(y, x, c - j)
    ensures c <= j ==> !Clash(x, y, j - c)
  {
    if j <= c {
      forall k | 0 <= k < |y| && c - j + k < |x| ensures y[k] == x[c - j + k] {
        assert t[c..c + |y|][k] == t[j..j + |x|][c - j + k];
      }
    }
    if c <= j {
      forall k | 0 <= k < |x| && j - c + k < |y| ensures x[k] == y[j - c + k] {
        assert t[j..j + |x|][k] == t[c..c + |y|][j - c + k];
      }
    }
  }

  /** A site in the copied text before a replacement lies wholly in that text, and is a site of the input. */
  lemma SiteBeforeReplacement(open1: string, open2: string, r: string, s: string, i: nat, m: nat, rest: string, j: nat, b: nat)
    requires i <= m && m + |open2| <= |s| && s[m..m + |open2|] == open2
    requires |open2| <= |r| && r[..|open2|] == open2 && '"' in open2
    requires forall d :: 0 < d < |open1| ==> Clash(r, open1, d)
    requires AttrSite(open1, s[i..m] + r + rest, j, b) && j < m - i
    ensures AttrSite(open1, s, i + j, i + b)
    ensures (s[i..m] + r + rest)[j + |open1|..b] == s[i + j + |open1|..i + b]
  {
    var out := s[i..m] + r + rest;
    var L := m - i;
    forall k | 0 <= k < L + |open2| ensures out[k] == s[i + k] {
      if L <= k {
        assert out[k] == r[k - L] == open2[k - L];
        assert s[m..m + |open2|][k - L] == s[i + k];
      }
    }
    assert out[L..L + |r|] == r;
    Overlap(open1, r, out, j, L);
    assert j + |open1| <= L;
    var q :| 0 <= q < |open2| && open2[q] == '"';
    assert out[L + q] == '"';
    assert b <= L + q;
    assert s[i + j..i + j + |open1|] == out[j..j + |open1|];
    assert out[j + |open1|..b] == s[i + j + |open1|..i + b];
    forall k | i + j + |open1| <= k < i + b ensures s[k] != '"' {
      assert out[k - i] == s[k];
    }
  }

  /** The site at the start of a replacement `open` + `value` + `"` holds `value`. */
  lemma ReplacementSite(open: string, value: string, pre: string, rest: string, b: nat)
    requires '"' !in value
    requires AttrSite(open, pre + (open + value + "\"") + rest, |pre|, b)
    ensures b == |pre| + |open| + |value|
    ensures (pre + (open + value + "\"") + rest)[|pre| + |open|..b] == value
  {
    var r := open + value + "\"";
    var out := pre + r + rest;
    var c := |pre| + |open| + |value|;
    assert out[c] == r[|open| + |value|];
    forall k | |pre| + |open| <= k < c ensures out[k] != '"' {
      assert out[k] == value[k - |pre| - |open|];
    }
    assert out[|pre| + |open|..c] == value;
  }

  /** A site that starts inside a replacement is the replacement's own, and holds its value. */
  lemma SiteInReplacement(open1: string, value1: string, open2: string, value2: string, pre: string, rest: string, j: nat, b: nat)
    requires AttrApart(open1, value1, open2, value2)
    requires |pre| <= j < |pre| + |open2 + value2 + "\""|
    requires AttrSite(open1, pre + (open2 + value2 + "\"") + rest, j, b)
    ensures (pre + (open2 + value2 + "\"") + rest)[j + |open1|..b] == value1
  {
    var r := open2 + value2 + "\"";
    var out := pre + r + rest;
    assert out[|pre|..|pre| + |r|] == r;
    Overlap(open1, r, out, j, |pre|);
    assert j == |pre| && open1 == open2 && value1 == value2 && '"' !in value2;
    ReplacementSite(open2, value2, pre, rest, b);
  }

  /** A site of a suffix `s[i..]` is a site of `s`, with the same value. */
  lemma SuffixSite(open: string, s: string, i: nat, j: nat, b: nat)
    requires i <= |s| && AttrSite(open, s[i..], j, b)
    ensures AttrSite(open, s, i + j, i + b) && s[i..][j + |open|..b] == s[i + j + |open|..i + b]
  {
    assert s == s[..i] + s[i..];
    SiteShift(open, s[..i], s[i..], j, b);
  }

  /** Where the reset finds no site from `i` on, the sites of its output are sites of the input. */
  lemma HoldsWithoutSite(open1: string, value1: string, open2: string, value2: string, s: string, i: nat)
    requires i <= |s| && (AttrWellFormed(open2); Search(Pattern(AttrRule(open2)), s, i).None?)
    requires forall p: nat, b: nat :: i <= p && AttrSite(open1, s, p, b) && !RuleAt(AttrRule(open2), s, p) ==> s[p + |open1|..b] == value1
    ensures AttrHolds(open1, value1, AttrFrom(open2, value2, s, i))
  {
    AttrWellFormed(open2);
    var rule := AttrRule(open2);
    SubWithoutMatch(Pattern(rule), Chars(open2 + value2 + "\""), s, i);
    assert AttrFrom(open2, value2, s, i) == s[i..];
    forall j: nat, b: nat | AttrSite(open1, s[i..], j, b) ensures s[i..][j + |open1|..b] == value1 {
      SuffixSite(open1, s, i, j, b);
      RuleMatchIff(rule, s, i + j);
    }
  }

  /** Copied text, then a replacement, then a rest whose sites hold `value1`. */
  lemma HoldsAfterStep(open1: string, value1: string, open2: string, value2: string, s: string, i: nat, m: nat, rest: string)
    requires AttrApart(open1, value1, open2, value2)
    requires i <= m && m + |open2| <= |s| && s[m..m + |open2|] == open2
    requires forall p: nat, b: nat :: i <= p < m && AttrSite(open1, s, p, b) ==> s[p + |open1|..b] == value1
    requires AttrHolds(open1, value1, rest)
    ensures AttrHolds(open1, value1, s[i..m] + (open2 + value2 + "\"") + rest)
  {
    var r := open2 + value2 + "\"";
    var out := s[i..m] + r + rest;
    forall j: nat, b: nat | AttrSite(open1, out, j, b) ensures out[j + |open1|..b] == value1 {
      if j < m - i {
        SiteBeforeReplacement(open1, open2, r, s, i, m, rest, j, b);
      } else if j < m - i + |r| {
        SiteInReplacement(open1, value1, open2, value2, s[i..m], rest, j, b);
      } else {
        var x := s[i..m] + r;
        assert out == x + rest;
        SiteShift(open1, x, rest, j - |x|, b - |x|);
      }
    }
  }

  /**
   * In the output of the reset to `open2` + `value2`, every site of
   * `open1` holds `value1`, given that every site of `open1` in the input
   * that the reset does not rewrite already held it.
   */
  lemma {:induction false} AttrFromHolds(open1: string, value1: string, open2: string, value2: string, s: string, i: nat)
    requires i <= |s| && AttrApart(open1, value1, open2, value2)
    requires forall p: nat, b: nat :: i <= p && AttrSite(open1, s, p, b) && !RuleAt(AttrRule(open2), s, p) ==> s[p + |open1|..b] == value1
    ensures AttrHolds(open1, value1, AttrFrom(open2, value2, s, i))
    decreases |s| - i
  {
    AttrWellFormed(open2);
    if Search(Pattern(AttrRule(open2)), s, i).None? {
      HoldsWithoutSite(open1, value1, open2, value2, s, i);
    } else {
      var m, e := AttrStep(open2, value2, s, i);
      AttrFromHolds(open1, value1, open2, value2, s, e);
      HoldsAfterStep(open1, value1, open2, value2, s, i, m, AttrFrom(open2, value2, s, e));
    }
  }

  /** The two ways of saying that every site holds `value`. */
  lemma AttrHoldsSettled(open: string, value: string, t: string)
    ensures AttrHolds(open, value, t) <==> forall i: nat, a: nat, b: nat, e: nat :: RuleAccepts(AttrRule(open), t, i, a, b, e) ==> t[a..b] == value
  {
    if AttrHolds(open, value, t) {
      forall i: nat, a: nat, b: nat, e: nat | RuleAccepts(AttrRule(open), t, i, a, b, e) ensures t[a..b] == value {
        AcceptsSite(open, t, i, a, b, e);
      }
    }
    if forall i: nat, a: nat, b: nat, e: nat :: RuleAccepts(AttrRule(open), t, i, a, b, e) ==> t[a..b] == value {
      forall j: nat, b: nat | AttrSite(open, t, j, b) ensures t[j + |open|..b] == value {
        SiteAccepts(open, t, j, b);
      }
    }
  }

  /** After the reset every site holds the new value. */
  lemma AttrTextHolds(open: string, value: string, s: string)
    requires AttrApart(open, value, open, value)
    ensures AttrHolds(open, value, AttrText(open, value, s))
  {
    forall p: nat, b: nat | AttrSite(open, s, p, b) ensures RuleAt(AttrRule(open), s, p) {
      SiteAccepts(open, s, p, b);
    }
    AttrFromHolds(open, value, open, value, s, 0);
  }

  /** A reset that no site of `open1` can overlap keeps those sites holding `value1`. */
  lemma AttrTextKeeps(open1: string, value1: string, open2: string, value2: string, s: string)
    requires AttrApart(open1, value1, open2, value2) && AttrHolds(open1, value1, s)
    ensures AttrHolds(open1, value1, AttrText(open2, value2, s))
  {
    AttrFromHolds(open1, value1, open2, value2, s, 0);
  }

  /** A second reset changes nothing. */
  lemma AttrTextIdempotent(open: string, value: string, s: string)
    requires AttrApart(open, value, open, value)
    ensures AttrText(open, value, AttrText(open, value, s)) == AttrText(open, value, s)
  {
    var t := AttrText(open, value, s);
    AttrTextHolds(open, value, s);
    AttrHoldsSettled(open, value, t);
    AttrSettled(open, value, t);
  }
}
