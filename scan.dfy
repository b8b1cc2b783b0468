/**
 * A small model of Python's `re` for the patterns the rebuilder uses.
 *
 * A pattern is a sequence of tokens. `Match` is the backtracking matcher in
 * Python's priority order (a greedy star first tries its longest run, an
 * optional part first tries to take its body), so the first success it
 * returns is the one `re` returns. `Accepts` says declaratively which texts
 * a pattern matches; `MatchSound` and `MatchComplete` tie the two together.
 * `Search` is `re.search`, `Sub` is `re.sub` (leftmost, non-overlapping),
 * and `ReplaceAll` is `str.replace`.
 */
module TextScan {
  import opened Wrappers

  /** Python's `\s` for text patterns: the characters `str.isspace` accepts. */
  predicate IsSpace(c: char)
  {
    || ('\t' <= c <= '\r')              // tab, line feed, vertical tab, form feed, carriage return
    || ('\U{1C}' <= c <= ' ')            // the four separator controls and space
    || c == '\U{85}' || c == '\U{A0}' || c == '\U{1680}'
    || ('\U{2000}' <= c <= '\U{200A}')
    || c == '\U{2028}' || c == '\U{2029}' || c == '\U{202F}' || c == '\U{205F}' || c == '\U{3000}'
  }

  datatype CharClass =
    | AnyOf(chars: string)     // [abc]
    | NoneOf(chars: string)    // [^abc]
    | Space                    // \s
    | Digit                    // \d, ASCII digits only
    | IdentHead                // [a-zA-Z_]
    | IdentTail                // [a-zA-Z0-9_.]

  predicate InClass(c: char, k: CharClass)
  {
    match k
    case AnyOf(cs) => c in cs
    case NoneOf(cs) => c !in cs
    case Space => IsSpace(c)
    case Digit => '0' <= c <= '9'
    case IdentHead => ('a' <= c <= 'z') || ('A' <= c <= 'Z') || c == '_'
    case IdentTail => ('a' <= c <= 'z') || ('A' <= c <= 'Z') || ('0' <= c <= '9') || c == '_' || c == '.'
  }

  datatype Tok =
    | Lit(text: string)              // literal text (also what re.escape produces)
    | One(cls: CharClass)            // one character of a class
    | Star(cls: CharClass, min: nat) // greedy run: min 0 is `*`, min 1 is `+`
    | Opt(body: seq<Tok>)            // greedy optional part `(...)?`
    | LineStart                      // `^` under MULTILINE
    | LineEnd                        // `$` under MULTILINE
    | Mark                           // a group boundary, recorded in the hit

  function Size(t: Tok): (r: nat)
    ensures r >= 1
    decreases t
  {
    match t
    case Opt(b) => 1 + SizeOf(b)
    case _ => 1
  }

  function SizeOf(ts: seq<Tok>): nat
    decreases ts
  {
    if ts == [] then 0 else Size(ts[0]) + SizeOf(ts[1..])
  }

  lemma {:induction false} SizeOfAppend(a: seq<Tok>, b: seq<Tok>)
    ensures SizeOf(a + b) == SizeOf(a) + SizeOf(b)
    decreases |a|
  {
    if a == [] {
      assert a + b == b;
    } else {
      assert (a + b)[0] == a[0] && (a + b)[1..] == a[1..] + b;
      SizeOfAppend(a[1..], b);
    }
  }

  /** The fewest characters any match of the pattern consumes. */
  function MinWidth(ts: seq<Tok>): nat
    decreases ts
  {
    if ts == [] then 0
    else
      (match ts[0]
       case Lit(w) => |w|
       case One(_) => 1
       case Star(_, m) => m
       case _ => 0) + MinWidth(ts[1..])
  }

  lemma {:induction false} MinWidthAppend(a: seq<Tok>, b: seq<Tok>)
    ensures MinWidth(a + b) == MinWidth(a) + MinWidth(b)
    decreases |a|
  {
    if a == [] {
      assert a + b == b;
    } else {
      assert (a + b)[0] == a[0] && (a + b)[1..] == a[1..] + b;
      MinWidthAppend(a[1..], b);
    }
  }

  /** A successful match: the positions of its marks, in order, and where it ends. */
  datatype Hit = Hit(marks: seq<nat>, end: nat)

  /** The marks of `h` lie in order between `lo` and the end, which lies within `s`. */
  predicate Placed(h: Hit, lo: nat, s: string)
  {
    && lo <= h.end <= |s|
    && (forall k :: 0 <= k < |h.marks| ==> lo <= h.marks[k] <= h.end)
    && (forall k, l :: 0 <= k < l < |h.marks| ==> h.marks[k] <= h.marks[l])
  }

  predicate AllIn(s: string, i: nat, j: nat, k: CharClass)
    requires i <= j <= |s|
  {
    forall p :: i <= p < j ==> InClass(s[p], k)
  }

  /** The end of the longest run of class `k` starting at `i`. */
  function RunEnd(k: CharClass, s: string, i: nat): (r: nat)
    requires i <= |s|
    ensures i <= r <= |s| && AllIn(s, i, r, k)
    ensures r == |s| || !InClass(s[r], k)
    decreases |s| - i
  {
    if i < |s| && InClass(s[i], k) then RunEnd(k, s, i + 1) else i
  }

  lemma {:induction false} RunEndIsLongest(k: CharClass, s: string, i: nat, j: nat)
    requires i <= j <= |s| && AllIn(s, i, j, k)
    ensures j <= RunEnd(k, s, i)
    decreases |s| - i
  {
    if i < j {
      RunEndIsLongest(k, s, i + 1, j);
    }
  }

  /** The first match of `ts` that starts at `i`, in Python's backtracking order. */
  function Match(ts: seq<Tok>, s: string, i: nat): (r: Option<Hit>)
    requires i <= |s|
    ensures r.Some? ==> Placed(r.value, i, s) && i + MinWidth(ts) <= r.value.end
    decreases SizeOf(ts), |s| + 1
  {
    if ts == [] then Some(Hit([], i))
    else
      var rest := ts[1..];
      match ts[0]
      case Lit(w) =>
        if i + |w| <= |s| && s[i..i + |w|] == w then Match(rest, s, i + |w|) else None
      case One(k) =>
        if i < |s| && InClass(s[i], k) then Match(rest, s, i + 1) else None
      case Star(k, m) =>
        MatchStar(k, m, rest, s, i, RunEnd(k, s, i))
      case Opt(b) =>
        SizeOfAppend(b, rest);
        assert Size(ts[0]) == 1 + SizeOf(b);
        MinWidthAppend(b, rest);
        var taken := Match(b + rest, s, i);
        if taken.Some? then taken else Match(rest, s, i)
      case LineStart =>
        if i == 0 || s[i - 1] == '\n' then Match(rest, s, i) else None
      case LineEnd =>
        if i == |s| || s[i] == '\n' then Match(rest, s, i) else None
      case Mark =>
        var r := Match(rest, s, i);
        if r.Some? then Some(Hit([i] + r.value.marks, r.value.end)) else None
  }

  /** A greedy run from `i`: try the ends `j`, `j - 1`, ..., `i + m` in turn. */
  function MatchStar(k: CharClass, m: nat, rest: seq<Tok>, s: string, i: nat, j: nat): (r: Option<Hit>)
    requires i <= j <= |s|
    ensures r.Some? ==> Placed(r.value, i + m, s) && i + m + MinWidth(rest) <= r.value.end
    decreases SizeOf(rest) + 1, j
  {
    if j < i + m then None
    else
      var r := Match(rest, s, j);
      if r.Some? then r
      else if j == i then None
      else MatchStar(k, m, rest, s, i, j - 1)
  }

  // One step of the matcher for each kind of leading token.

  lemma MatchMarkStep(x: seq<Tok>, s: string, i: nat)
    requires i <= |s|
    ensures Match([Mark] + x, s, i) ==
      (if Match(x, s, i).Some? then Some(Hit([i] + Match(x, s, i).value.marks, Match(x, s, i).value.end)) else None)
  {
    assert ([Mark] + x)[0] == Mark && ([Mark] + x)[1..] == x;
  }

  lemma MatchLitStep(w: string, x: seq<Tok>, s: string, i: nat)
    requires i <= |s|
    ensures Match([Lit(w)] + x, s, i) ==
      (if i + |w| <= |s| && s[i..i + |w|] == w then Match(x, s, i + |w|) else None)
  {
    assert ([Lit(w)] + x)[0] == Lit(w) && ([Lit(w)] + x)[1..] == x;
  }

  lemma MatchStarStep(k: CharClass, m: nat, x: seq<Tok>, s: string, i: nat)
    requires i <= |s|
    ensures Match([Star(k, m)] + x, s, i) == MatchStar(k, m, x, s, i, RunEnd(k, s, i))
  {
    assert ([Star(k, m)] + x)[0] == Star(k, m) && ([Star(k, m)] + x)[1..] == x;
  }

  lemma MatchOptStep(b: seq<Tok>, x: seq<Tok>, s: string, i: nat)
    requires i <= |s|
    ensures Match([Opt(b)] + x, s, i) == (if Match(b + x, s, i).Some? then Match(b + x, s, i) else Match(x, s, i))
  {
    assert ([Opt(b)] + x)[0] == Opt(b) && ([Opt(b)] + x)[1..] == x;
  }

  lemma MatchLineStartStep(x: seq<Tok>, s: string, i: nat)
    requires i <= |s|
    ensures Match([LineStart] + x, s, i) == (if i == 0 || s[i - 1] == '\n' then Match(x, s, i) else None)
  {
    assert ([LineStart] + x)[0] == LineStart && ([LineStart] + x)[1..] == x;
  }

  lemma MatchLineEndStep(x: seq<Tok>, s: string, i: nat)
    requires i <= |s|
    ensures Match([LineEnd] + x, s, i) == (if i == |s| || s[i] == '\n' then Match(x, s, i) else None)
  {
    assert ([LineEnd] + x)[0] == LineEnd && ([LineEnd] + x)[1..] == x;
  }

  lemma MatchOneStep(k: CharClass, x: seq<Tok>, s: string, i: nat)
    requires i <= |s|
    ensures Match([One(k)] + x, s, i) == (if i < |s| && InClass(s[i], k) then Match(x, s, i + 1) else None)
  {
    assert ([One(k)] + x)[0] == One(k) && ([One(k)] + x)[1..] == x;
  }

  /** The texts a pattern matches, and the marks such a match records. */
  ghost predicate Accepts(ts: seq<Tok>, s: string, i: nat, h: Hit)
    requires i <= |s|
    decreases SizeOf(ts)
  {
    if ts == [] then h == Hit([], i)
    else
      var rest := ts[1..];
      match ts[0]
      case Lit(w) => i + |w| <= |s| && s[i..i + |w|] == w && Accepts(rest, s, i + |w|, h)
      case One(k) => i < |s| && InClass(s[i], k) && Accepts(rest, s, i + 1, h)
      case Star(k, m) =>
        exists j :: i + m <= j <= |s| && AllIn(s, i, j, k) && Accepts(rest, s, j, h)
      case Opt(b) =>
        SizeOfAppend(b, rest);
        assert Size(ts[0]) == 1 + SizeOf(b);
        Accepts(b + rest, s, i, h) || Accepts(rest, s, i, h)
      case LineStart => (i == 0 || s[i - 1] == '\n') && Accepts(rest, s, i, h)
      case LineEnd => (i == |s| || s[i] == '\n') && Accepts(rest, s, i, h)
      case Mark => |h.marks| > 0 && h.marks[0] == i && Accepts(rest, s, i, Hit(h.marks[1..], h.end))
  }

  /** Whatever the matcher returns is a match of the pattern. */
  lemma {:induction false} MatchSound(ts: seq<Tok>, s: string, i: nat)
    requires i <= |s|
    ensures Match(ts, s, i).Some? ==> Accepts(ts, s, i, Match(ts, s, i).value)
    decreases SizeOf(ts), |s| + 1
  {
    if ts != [] {
      var rest := ts[1..];
      match ts[0]
      case Lit(w) =>
        if i + |w| <= |s| && s[i..i + |w|] == w { MatchSound(rest, s, i + |w|); }
      case One(k) =>
        if i < |s| && InClass(s[i], k) { MatchSound(rest, s, i + 1); }
      case Star(k, m) =>
        MatchStarSound(k, m, rest, s, i, RunEnd(k, s, i));
      case Opt(b) =>
        SizeOfAppend(b, rest);
        assert Size(ts[0]) == 1 + SizeOf(b);
        MatchSound(b + rest, s, i);
        MatchSound(rest, s, i);
      case LineStart =>
        MatchSound(rest, s, i);
      case LineEnd =>
        MatchSound(rest, s, i);
      case Mark =>
        MatchSound(rest, s, i);
        var r := Match(rest, s, i);
        if r.Some? {
          var h := Hit([i] + r.value.marks, r.value.end);
          assert h.marks[1..] == r.value.marks;
        }
    }
  }

  lemma {:induction false} MatchStarSound(k: CharClass, m: nat, rest: seq<Tok>, s: string, i: nat, j: nat)
    requires i <= j <= |s| && AllIn(s, i, j, k)
    ensures var r := MatchStar(k, m, rest, s, i, j);
      r.Some? ==> exists e :: i + m <= e <= |s| && AllIn(s, i, e, k) && Accepts(rest, s, e, r.value)
    decreases SizeOf(rest) + 1, j
  {
    if j >= i + m {
      MatchSound(rest, s, j);
      if Match(rest, s, j).None? && j > i {
        MatchStarSound(k, m, rest, s, i, j - 1);
      }
    }
  }

  /** If the pattern matches at `i` at all, the matcher finds a match there. */
  lemma {:induction false} MatchComplete(ts: seq<Tok>, s: string, i: nat, h: Hit)
    requires i <= |s| && Accepts(ts, s, i, h)
    ensures Match(ts, s, i).Some?
    decreases SizeOf(ts), |s| + 1
  {
    if ts != [] {
      var rest := ts[1..];
      match ts[0]
      case Lit(w) => MatchComplete(rest, s, i + |w|, h);
      case One(k) => MatchComplete(rest, s, i + 1, h);
      case Star(k, m) =>
        var j :| i + m <= j <= |s| && AllIn(s, i, j, k) && Accepts(rest, s, j, h);
        RunEndIsLongest(k, s, i, j);
        MatchStarComplete(k, m, rest, s, i, RunEnd(k, s, i), j, h);
      case Opt(b) =>
        SizeOfAppend(b, rest);
        assert Size(ts[0]) == 1 + SizeOf(b);
        if Accepts(b + rest, s, i, h) {
          MatchComplete(b + rest, s, i, h);
        } else {
          MatchComplete(rest, s, i, h);
        }
      case LineStart => MatchComplete(rest, s, i, h);
      case LineEnd => MatchComplete(rest, s, i, h);
      case Mark => MatchComplete(rest, s, i, Hit(h.marks[1..], h.end));
    }
  }

  lemma {:induction false} MatchStarComplete(k: CharClass, m: nat, rest: seq<Tok>, s: string, i: nat, top: nat, j: nat, h: Hit)
    requires i + m <= j <= top <= |s| && i <= top
    requires Accepts(rest, s, j, h)
    ensures MatchStar(k, m, rest, s, i, top).Some?
    decreases SizeOf(rest) + 1, top
  {
    if Match(rest, s, top).None? {
      if top == j {
        MatchComplete(rest, s, j, h);
      } else {
        MatchStarComplete(k, m, rest, s, i, top - 1, j, h);
      }
    }
  }

  /** The text of group `n` (numbered from 1) of a hit; empty when absent. */
  function GroupText(s: string, h: Hit, n: nat): string
  {
    if 1 <= n && n + n <= |h.marks| && h.marks[n + n - 2] <= h.marks[n + n - 1] <= |s|
    then s[h.marks[n + n - 2]..h.marks[n + n - 1]]
    else ""
  }

  /**
   * A replacement template: literal text, group references, and the whole
   * match (group 0; the marked patterns open with a mark where the match starts).
   */
  datatype Piece = Text(t: string) | Group(n: nat) | Whole

  function Expand(tpl: seq<Piece>, s: string, h: Hit): string
  {
    if tpl == [] then ""
    else
      (match tpl[0]
       case Text(t) => t
       case Group(n) => GroupText(s, h, n)
       case Whole => if |h.marks| > 0 && h.marks[0] <= h.end <= |s| then s[h.marks[0]..h.end] else "")
      + Expand(tpl[1..], s, h)
  }

  /** `re.sub` from position `i` on: leftmost, non-overlapping replacement. */
  function SubFrom(ts: seq<Tok>, tpl: seq<Piece>, s: string, i: nat): string
    requires i <= |s| && MinWidth(ts) >= 1
    decreases |s| - i
  {
    if i == |s| then []
    else
      var r := Match(ts, s, i);
      if r.Some? then Expand(tpl, s, r.value) + SubFrom(ts, tpl, s, r.value.end)
      else [s[i]] + SubFrom(ts, tpl, s, i + 1)
  }

  function Sub(ts: seq<Tok>, tpl: seq<Piece>, s: string): string
    requires MinWidth(ts) >= 1
  {
    SubFrom(ts, tpl, s, 0)
  }

  /** Where the pattern matches nowhere from `i` on, `re.sub` changes nothing. */
  lemma {:induction false} SubWithoutMatch(ts: seq<Tok>, tpl: seq<Piece>, s: string, i: nat)
    requires i <= |s| && MinWidth(ts) >= 1
    requires forall j :: i <= j < |s| ==> Match(ts, s, j).None?
    ensures SubFrom(ts, tpl, s, i) == s[i..]
    decreases |s| - i
  {
    if i < |s| {
      SubWithoutMatch(ts, tpl, s, i + 1);
      assert s[i..] == [s[i]] + s[i + 1..];
    }
  }

  /** Where every match would be replaced by the very text it matched, `re.sub` changes nothing. */
  lemma {:induction false} SubStable(ts: seq<Tok>, tpl: seq<Piece>, s: string, i: nat)
    requires i <= |s| && MinWidth(ts) >= 1
    requires forall j :: i <= j < |s| && Match(ts, s, j).Some? ==>
      Expand(tpl, s, Match(ts, s, j).value) == s[j..Match(ts, s, j).value.end]
    ensures SubFrom(ts, tpl, s, i) == s[i..]
    decreases |s| - i
  {
    if i < |s| {
      var r := Match(ts, s, i);
      if r.Some? {
        SubStable(ts, tpl, s, r.value.end);
        SliceSplit(s, i, r.value.end);
      } else {
        SubStable(ts, tpl, s, i + 1);
        SliceSplit(s, i, i + 1);
        assert s[i..i + 1] == [s[i]];
      }
    }
  }

  /** Up to the next match, `re.sub` copies the text. */
  lemma {:induction false} SubCopies(ts: seq<Tok>, tpl: seq<Piece>, s: string, j: nat)
    requires j <= |s| && MinWidth(ts) >= 1 && Search(ts, s, j).Some?
    ensures SubFrom(ts, tpl, s, j) == s[j..Search(ts, s, j).value.pos] + SubFrom(ts, tpl, s, Search(ts, s, j).value.pos)
    decreases |s| - j
  {
    var i := Search(ts, s, j).value.pos;
    if j < i {
      assert Search(ts, s, j) == Search(ts, s, j + 1);
      SubSkips(ts, tpl, s, j);
      SubCopies(ts, tpl, s, j + 1);
      ConsSlice(s, j, i, SubFrom(ts, tpl, s, i));
    }
  }

  lemma SliceSplit<T>(s: seq<T>, i: nat, k: nat)
    requires i <= k <= |s|
    ensures s[i..] == s[i..k] + s[k..]
  {
  }

  /** Cutting off the first element of a slice, with a tail appended. */
  lemma ConsSlice<T>(s: seq<T>, j: nat, i: nat, x: seq<T>)
    requires j < i <= |s|
    ensures [s[j]] + (s[j + 1..i] + x) == s[j..i] + x
  {
    assert s[j..i] == [s[j]] + s[j + 1..i];
  }

  /** Where the pattern does not match, `re.sub` copies one character and goes on. */
  lemma SubSkips(ts: seq<Tok>, tpl: seq<Piece>, s: string, j: nat)
    requires j < |s| && MinWidth(ts) >= 1 && Match(ts, s, j).None?
    ensures SubFrom(ts, tpl, s, j) == [s[j]] + SubFrom(ts, tpl, s, j + 1)
  {
  }

  /** `re.sub` copies the text before the leftmost match, then puts the expansion of that match. */
  lemma SubAtFirst(ts: seq<Tok>, tpl: seq<Piece>, s: string, i: nat, h: Hit)
    requires MinWidth(ts) >= 1 && Search(ts, s, 0) == Some(Found(i, h))
    ensures i < |s| && i < h.end <= |s|
    ensures Sub(ts, tpl, s) == s[..i] + Expand(tpl, s, h) + SubFrom(ts, tpl, s, h.end)
  {
    SubCopies(ts, tpl, s, 0);
    assert s[0..i] == s[..i];
  }

  /** Where `re.sub` changed something, the pattern matched somewhere. */
  lemma SubChangedHasMatch(ts: seq<Tok>, tpl: seq<Piece>, s: string)
    requires MinWidth(ts) >= 1
    requires Sub(ts, tpl, s) != s
    ensures exists j :: 0 <= j < |s| && Match(ts, s, j).Some?
  {
    if forall j :: 0 <= j < |s| ==> Match(ts, s, j).None? {
      SubWithoutMatch(ts, tpl, s, 0);
    }
  }

  datatype Found = Found(pos: nat, hit: Hit)

  /** `re.search` from position `i`: the leftmost position where the pattern matches. */
  function Search(ts: seq<Tok>, s: string, i: nat): (r: Option<Found>)
    requires i <= |s|
    ensures r.Some? ==> i <= r.value.pos <= |s| && Match(ts, s, r.value.pos) == Some(r.value.hit)
    ensures r.Some? ==> forall j :: i <= j < r.value.pos ==> Match(ts, s, j).None?
    ensures r.None? ==> forall j :: i <= j <= |s| ==> Match(ts, s, j).None?
    decreases |s| - i
  {
    var m := Match(ts, s, i);
    if m.Some? then Some(Found(i, m.value))
    else if i == |s| then None
    else Search(ts, s, i + 1)
  }

  /** `re.sub` guarded by `re.search` is `re.sub` alone. */
  lemma SearchThenSub(ts: seq<Tok>, tpl: seq<Piece>, s: string)
    requires MinWidth(ts) >= 1
    ensures (if Search(ts, s, 0).Some? then Sub(ts, tpl, s) else s) == Sub(ts, tpl, s)
  {
    if Search(ts, s, 0).None? {
      SubWithoutMatch(ts, tpl, s, 0);
    }
  }

  /** No group boundary anywhere in the tokens, optional parts included. */
  predicate NoMarks(ts: seq<Tok>)
    decreases SizeOf(ts)
  {
    ts == [] ||
    ((match ts[0]
      case Mark => false
      case Opt(b) => assert Size(ts[0]) == 1 + SizeOf(b); NoMarks(b)
      case _ => true) && NoMarks(ts[1..]))
  }

  /** Tokens without marks and without optional parts have no marks. */
  lemma {:induction false} NoMarksFlat(ts: seq<Tok>)
    requires forall k :: 0 <= k < |ts| ==> !ts[k].Mark? && !ts[k].Opt?
    ensures NoMarks(ts)
    decreases |ts|
  {
    if ts != [] {
      NoMarksFlat(ts[1..]);
    }
  }

  lemma {:induction false} NoMarksAppend(a: seq<Tok>, b: seq<Tok>)
    requires NoMarks(a) && NoMarks(b)
    ensures NoMarks(a + b)
    decreases |a|
  {
    if a != [] {
      assert (a + b)[0] == a[0] && (a + b)[1..] == a[1..] + b;
      NoMarksAppend(a[1..], b);
    } else {
      assert a + b == b;
    }
  }

  /**
   * A match of `a + b` where `a` has no marks splits into a mark-free match
   * of `a` followed by a match of `b` that records all the marks.
   */
  lemma {:induction false} SplitAccepts(a: seq<Tok>, b: seq<Tok>, s: string, i: nat, h: Hit) returns (j: nat)
    requires i <= |s| && NoMarks(a) && Accepts(a + b, s, i, h)
    ensures i <= j <= |s| && Accepts(a, s, i, Hit([], j)) && Accepts(b, s, j, h)
    decreases SizeOf(a), 1
  {
    if a == [] {
      assert a + b == b;
      j := i;
      assert Accepts(a, s, i, Hit([], i));
    } else {
      assert (a + b)[0] == a[0] && (a + b)[1..] == a[1..] + b;
      if a[0].Opt? {
        j := SplitOpt(a, b, a[0].body, s, i, h);
      } else if a[0].Star? {
        j := SplitStar(a, b, a[0].cls, a[0].min, s, i, h);
      } else {
        j := SplitStep(a, b, s, i, h);
      }
    }
  }

  lemma {:induction false} SplitStep(a: seq<Tok>, b: seq<Tok>, s: string, i: nat, h: Hit) returns (e: nat)
    requires i <= |s| && a != [] && NoMarks(a) && Accepts(a + b, s, i, h)
    requires (a + b)[0] == a[0] && (a + b)[1..] == a[1..] + b
    requires a[0].Lit? || a[0].One? || a[0].LineStart? || a[0].LineEnd?
    ensures i <= e <= |s| && Accepts(a, s, i, Hit([], e)) && Accepts(b, s, e, h)
    decreases SizeOf(a), 0
  {
    var i' := match a[0] case Lit(w) => i + |w| case One(_) => i + 1 case _ => i;
    assert i' <= |s| && Accepts(a[1..] + b, s, i', h);
    e := SplitAccepts(a[1..], b, s, i', h);
    assert Accepts(a, s, i, Hit([], e));
  }

  lemma {:induction false} SplitStar(a: seq<Tok>, b: seq<Tok>, k: CharClass, m: nat, s: string, i: nat, h: Hit)
    returns (e: nat)
    requires i <= |s| && a != [] && a[0] == Star(k, m) && NoMarks(a) && Accepts(a + b, s, i, h)
    requires (a + b)[0] == a[0] && (a + b)[1..] == a[1..] + b
    ensures i <= e <= |s| && Accepts(a, s, i, Hit([], e)) && Accepts(b, s, e, h)
    decreases SizeOf(a), 0
  {
    var j :| i + m <= j <= |s| && AllIn(s, i, j, k) && Accepts(a[1..] + b, s, j, h);
    e := SplitAccepts(a[1..], b, s, j, h);
    assert Accepts(a, s, i, Hit([], e));
  }

  lemma {:induction false} SplitOpt(a: seq<Tok>, b: seq<Tok>, body: seq<Tok>, s: string, i: nat, h: Hit)
    returns (e: nat)
    requires i <= |s| && a != [] && a[0] == Opt(body) && NoMarks(a) && Accepts(a + b, s, i, h)
    requires (a + b)[0] == a[0] && (a + b)[1..] == a[1..] + b
    ensures i <= e <= |s| && Accepts(a, s, i, Hit([], e)) && Accepts(b, s, e, h)
    decreases SizeOf(a), 0
  {
    var rest := a[1..];
    SizeOfAppend(body, rest);
    assert Size(a[0]) == 1 + SizeOf(body);
    assert NoMarks(body) && NoMarks(rest);
    NoMarksAppend(body, rest);
    if Accepts(body + (rest + b), s, i, h) {
      assert body + (rest + b) == (body + rest) + b;
      e := SplitAccepts(body + rest, b, s, i, h);
    } else {
      e := SplitAccepts(rest, b, s, i, h);
    }
    assert Accepts(a, s, i, Hit([], e));
  }

  /** A pattern that opens with a literal matches that literal, then the rest. */
  lemma LitHead(w: string, rest: seq<Tok>, s: string, i: nat, h: Hit)
    requires i <= |s| && Accepts([Lit(w)] + rest, s, i, h)
    ensures i + |w| <= |s| && s[i..i + |w|] == w && Accepts(rest, s, i + |w|, h)
  {
    assert ([Lit(w)] + rest)[0] == Lit(w) && ([Lit(w)] + rest)[1..] == rest;
  }

  /** A pattern that opens with a character class matches one such character, then the rest. */
  lemma OneHead(k: CharClass, rest: seq<Tok>, s: string, i: nat, h: Hit)
    requires i <= |s| && Accepts([One(k)] + rest, s, i, h)
    ensures i < |s| && InClass(s[i], k) && Accepts(rest, s, i + 1, h)
  {
    assert ([One(k)] + rest)[0] == One(k) && ([One(k)] + rest)[1..] == rest;
  }

  /** A pattern that opens with a run matches a run of at least `m` characters, then the rest. */
  lemma StarHead(k: CharClass, m: nat, rest: seq<Tok>, s: string, i: nat, h: Hit) returns (j: nat)
    requires i <= |s| && Accepts([Star(k, m)] + rest, s, i, h)
    ensures i + m <= j <= |s| && AllIn(s, i, j, k) && Accepts(rest, s, j, h)
  {
    assert ([Star(k, m)] + rest)[0] == Star(k, m) && ([Star(k, m)] + rest)[1..] == rest;
    j :| i + m <= j <= |s| && AllIn(s, i, j, k) && Accepts(rest, s, j, h);
  }

  /** A lone literal accepts exactly that literal. */
  lemma AcceptsLit(w: string, s: string, i: nat, e: nat)
    requires i <= |s| && Accepts([Lit(w)], s, i, Hit([], e))
    ensures e == i + |w| <= |s| && s[i..e] == w
  {
    assert [Lit(w)][1..] == [];
  }

  /** A lone character class accepts exactly one character of the class. */
  lemma AcceptsOne(k: CharClass, s: string, i: nat, e: nat)
    requires i <= |s| && Accepts([One(k)], s, i, Hit([], e))
    ensures e == i + 1 <= |s| && InClass(s[i], k)
  {
    assert [One(k)][1..] == [];
  }

  /** A lone run accepts a run of at least `m` characters of the class. */
  lemma AcceptsStar(k: CharClass, m: nat, s: string, i: nat, e: nat)
    requires i <= |s| && Accepts([Star(k, m)], s, i, Hit([], e))
    ensures i + m <= e <= |s| && AllIn(s, i, e, k)
  {
    assert [Star(k, m)][1..] == [];
  }

  /** The converse of `SplitAccepts`: a mark-free match of `a` followed by a match of `b`. */
  lemma {:induction false} JoinAccepts(a: seq<Tok>, b: seq<Tok>, s: string, i: nat, j: nat, h: Hit)
    requires i <= j <= |s| && Accepts(a, s, i, Hit([], j)) && Accepts(b, s, j, h)
    ensures Accepts(a + b, s, i, h)
    decreases SizeOf(a), 1
  {
    if a == [] {
      assert a + b == b;
    } else {
      assert (a + b)[0] == a[0] && (a + b)[1..] == a[1..] + b;
      if a[0].Opt? {
        JoinOpt(a, b, a[0].body, s, i, j, h);
      } else if a[0].Star? {
        JoinStar(a, b, a[0].cls, a[0].min, s, i, j, h);
      } else if a[0].Mark? {
        assert false;
      } else {
        JoinStep(a, b, s, i, j, h);
      }
    }
  }

  lemma {:induction false} JoinStep(a: seq<Tok>, b: seq<Tok>, s: string, i: nat, j: nat, h: Hit)
    requires i <= j <= |s| && a != [] && Accepts(a, s, i, Hit([], j)) && Accepts(b, s, j, h)
    requires (a + b)[0] == a[0] && (a + b)[1..] == a[1..] + b
    requires a[0].Lit? || a[0].One? || a[0].LineStart? || a[0].LineEnd?
    ensures Accepts(a + b, s, i, h)
    decreases SizeOf(a), 0
  {
    var i' := match a[0] case Lit(w) => i + |w| case One(_) => i + 1 case _ => i;
    assert i' <= |s| && Accepts(a[1..], s, i', Hit([], j));
    AcceptsEnd(a[1..], s, i', Hit([], j));
    JoinAccepts(a[1..], b, s, i', j, h);
  }

  lemma {:induction false} JoinStar(a: seq<Tok>, b: seq<Tok>, k: CharClass, m: nat, s: string, i: nat, j: nat, h: Hit)
    requires i <= j <= |s| && a != [] && a[0] == Star(k, m) && Accepts(a, s, i, Hit([], j)) && Accepts(b, s, j, h)
    requires (a + b)[0] == a[0] && (a + b)[1..] == a[1..] + b
    ensures Accepts(a + b, s, i, h)
    decreases SizeOf(a), 0
  {
    var x :| i + m <= x <= |s| && AllIn(s, i, x, k) && Accepts(a[1..], s, x, Hit([], j));
    AcceptsEnd(a[1..], s, x, Hit([], j));
    JoinAccepts(a[1..], b, s, x, j, h);
  }

  lemma {:induction false} JoinOpt(a: seq<Tok>, b: seq<Tok>, body: seq<Tok>, s: string, i: nat, j: nat, h: Hit)
    requires i <= j <= |s| && a != [] && a[0] == Opt(body) && Accepts(a, s, i, Hit([], j)) && Accepts(b, s, j, h)
    requires (a + b)[0] == a[0] && (a + b)[1..] == a[1..] + b
    ensures Accepts(a + b, s, i, h)
    decreases SizeOf(a), 0
  {
    var rest := a[1..];
    SizeOfAppend(body, rest);
    SizeOfAppend(body, rest + b);
    assert Size(a[0]) == 1 + SizeOf(body);
    if Accepts(body + rest, s, i, Hit([], j)) {
      JoinAccepts(body + rest, b, s, i, j, h);
      assert body + (rest + b) == (body + rest) + b;
    } else {
      JoinAccepts(rest, b, s, i, j, h);
    }
  }

  /** Every accepted match ends between its start and the end of the text. */
  lemma {:induction false} AcceptsEnd(ts: seq<Tok>, s: string, i: nat, h: Hit)
    requires i <= |s| && Accepts(ts, s, i, h)
    ensures i <= h.end <= |s|
    decreases SizeOf(ts)
  {
    if ts != [] {
      var rest := ts[1..];
      match ts[0]
      case Lit(w) => AcceptsEnd(rest, s, i + |w|, h);
      case One(k) => AcceptsEnd(rest, s, i + 1, h);
      case Star(k, m) =>
        var j :| i + m <= j <= |s| && AllIn(s, i, j, k) && Accepts(rest, s, j, h);
        AcceptsEnd(rest, s, j, h);
      case Opt(b) =>
        SizeOfAppend(b, rest);
        assert Size(ts[0]) == 1 + SizeOf(b);
        if Accepts(b + rest, s, i, h) {
          AcceptsEnd(b + rest, s, i, h);
        } else {
          AcceptsEnd(rest, s, i, h);
        }
      case LineStart => AcceptsEnd(rest, s, i, h);
      case LineEnd => AcceptsEnd(rest, s, i, h);
      case Mark => AcceptsEnd(rest, s, i, Hit(h.marks[1..], h.end));
    }
  }

  /**
   * A substitution rule: the pattern `pre mid post`, where `pre` and `post`
   * are the parts a template such as `\1NEW\2` keeps and `mid` is the part it
   * replaces. `Pattern` adds marks so that group 1 is `pre`, group 2 is
   * `mid` and group 3 is `post`.
   */
  datatype Rule = Rule(pre: seq<Tok>, mid: seq<Tok>, post: seq<Tok>)

  predicate WellFormed(r: Rule)
  {
    NoMarks(r.pre) && NoMarks(r.mid) && NoMarks(r.post) && MinWidth(Pattern(r)) >= 1
  }

  lemma PatternWidth(r: Rule)
    ensures MinWidth(Pattern(r)) == MinWidth(r.pre) + MinWidth(r.mid) + MinWidth(r.post)
  {
    var m: seq<Tok> := [Mark];
    assert MinWidth(m) == 0 by { assert m[1..] == []; }
    MinWidthAppend(r.post, m);
    MinWidthAppend(m, r.post + m);
    MinWidthAppend(m, m + (r.post + m));
    MinWidthAppend(r.mid, m + (m + (r.post + m)));
    MinWidthAppend(m, r.mid + (m + (m + (r.post + m))));
    MinWidthAppend(m, m + (r.mid + (m + (m + (r.post + m)))));
    MinWidthAppend(r.pre, m + (m + (r.mid + (m + (m + (r.post + m))))));
    MinWidthAppend(m, r.pre + (m + (m + (r.mid + (m + (m + (r.post + m)))))));
  }

  function Pattern(r: Rule): seq<Tok>
  {
    [Mark] + (r.pre + ([Mark] + ([Mark] + (r.mid + ([Mark] + ([Mark] + (r.post + [Mark])))))))
  }

  /** The three parts of a match of a rule, from `i` through `a` and `b` to `e`. */
  ghost predicate RuleAccepts(r: Rule, s: string, i: nat, a: nat, b: nat, e: nat)
  {
    && i <= a <= b <= e <= |s|
    && Accepts(r.pre, s, i, Hit([], a))
    && Accepts(r.mid, s, a, Hit([], b))
    && Accepts(r.post, s, b, Hit([], e))
  }

  lemma MarkStep(x: seq<Tok>, s: string, i: nat, h: Hit) returns (t: Hit)
    requires i <= |s| && Accepts([Mark] + x, s, i, h)
    ensures h == Hit([i] + t.marks, t.end) && Accepts(x, s, i, t)
  {
    assert ([Mark] + x)[0] == Mark && ([Mark] + x)[1..] == x;
    t := Hit(h.marks[1..], h.end);
    assert h.marks == [i] + t.marks;
  }

  lemma LastMark(s: string, e: nat, h: Hit)
    requires e <= |s| && Accepts([Mark], s, e, h)
    ensures h == Hit([e], e)
  {
    assert [Mark][1..] == [];
  }

  /** A mark followed by a mark-free part `pre`, then the rest of the pattern. */
  lemma MarkSplit(pre: seq<Tok>, rest: seq<Tok>, s: string, i: nat, h: Hit) returns (a: nat, t: Hit)
    requires i <= |s| && NoMarks(pre) && Accepts([Mark] + (pre + rest), s, i, h)
    ensures i <= a <= |s| && h == Hit([i] + t.marks, t.end)
    ensures Accepts(pre, s, i, Hit([], a)) && Accepts(rest, s, a, t)
  {
    t := MarkStep(pre + rest, s, i, h);
    a := SplitAccepts(pre, rest, s, i, t);
  }

  /** A match of a rule's pattern records the boundaries of its three parts. */
  lemma AcceptsRule(r: Rule, s: string, i: nat, h: Hit) returns (a: nat, b: nat)
    requires i <= |s| && NoMarks(r.pre) && NoMarks(r.mid) && NoMarks(r.post)
    requires Accepts(Pattern(r), s, i, h)
    ensures h.marks == [i, a, a, b, b, h.end] && RuleAccepts(r, s, i, a, b, h.end)
  {
    var t1;
    a, t1 := MarkSplit(r.pre, [Mark] + ([Mark] + (r.mid + ([Mark] + ([Mark] + (r.post + [Mark]))))), s, i, h);
    var t2 := MarkStep([Mark] + (r.mid + ([Mark] + ([Mark] + (r.post + [Mark])))), s, a, t1);
    b := AcceptsRuleTail(r, s, a, t2);
    assert h.marks == [i] + ([a] + [a, b, b, h.end]);
  }

  /** The second half of a rule's pattern, from the mark at `a`. */
  lemma AcceptsRuleTail(r: Rule, s: string, a: nat, t: Hit) returns (b: nat)
    requires a <= |s| && NoMarks(r.mid) && NoMarks(r.post)
    requires Accepts([Mark] + (r.mid + ([Mark] + ([Mark] + (r.post + [Mark])))), s, a, t)
    ensures t.marks == [a, b, b, t.end] && a <= b <= t.end <= |s|
    ensures Accepts(r.mid, s, a, Hit([], b)) && Accepts(r.post, s, b, Hit([], t.end))
  {
    var t3;
    b, t3 := MarkSplit(r.mid, [Mark] + ([Mark] + (r.post + [Mark])), s, a, t);
    var t4 := MarkStep([Mark] + (r.post + [Mark]), s, b, t3);
    var e, t5 := MarkSplit(r.post, [Mark], s, b, t4);
    LastMark(s, e, t5);
  }

  /** Every match of a rule records the boundaries `a` and `b` of its three parts. */
  lemma RuleHit(r: Rule, s: string, i: nat) returns (a: nat, b: nat, e: nat)
    requires i <= |s| && WellFormed(r) && Match(Pattern(r), s, i).Some?
    ensures Match(Pattern(r), s, i).value == Hit([i, a, a, b, b, e], e)
    ensures RuleAccepts(r, s, i, a, b, e)
  {
    MatchSound(Pattern(r), s, i);
    var h := Match(Pattern(r), s, i).value;
    a, b := AcceptsRule(r, s, i, h);
    e := h.end;
  }

  lemma MarkJoin(x: seq<Tok>, s: string, i: nat, t: Hit)
    requires i <= |s| && Accepts(x, s, i, t)
    ensures Accepts([Mark] + x, s, i, Hit([i] + t.marks, t.end))
  {
    assert ([Mark] + x)[0] == Mark && ([Mark] + x)[1..] == x;
    assert ([i] + t.marks)[1..] == t.marks;
  }

  /** A match of a rule's three parts is a match of its pattern. */
  lemma RuleAcceptsPattern(r: Rule, s: string, i: nat, a: nat, b: nat, e: nat)
    requires RuleAccepts(r, s, i, a, b, e)
    ensures Accepts(Pattern(r), s, i, Hit([i, a, a, b, b, e], e))
  {
    var m: seq<Tok> := [Mark];
    var p3 := m + (m + (r.post + m));
    PostAccepts(r, s, b, e);
    JoinAccepts(r.mid, p3, s, a, b, Hit([b, b, e], e));
    var p4 := r.mid + p3;
    MarkJoin(p4, s, a, Hit([b, b, e], e));
    assert [a] + [b, b, e] == [a, b, b, e];
    var p5 := m + p4;
    MarkJoin(p5, s, a, Hit([a, b, b, e], e));
    assert [a] + [a, b, b, e] == [a, a, b, b, e];
    var p6 := m + p5;
    JoinAccepts(r.pre, p6, s, i, a, Hit([a, a, b, b, e], e));
    MarkJoin(r.pre + p6, s, i, Hit([a, a, b, b, e], e));
    assert [i] + [a, a, b, b, e] == [i, a, a, b, b, e];
  }

  /** The two marks before `post`, `post` itself and the closing mark. */
  lemma PostAccepts(r: Rule, s: string, b: nat, e: nat)
    requires b <= e <= |s| && Accepts(r.post, s, b, Hit([], e))
    ensures Accepts([Mark] + ([Mark] + (r.post + [Mark])), s, b, Hit([b, b, e], e))
  {
    var m: seq<Tok> := [Mark];
    assert Accepts(m, s, e, Hit([e], e)) by {
      assert m[0] == Mark && m[1..] == [];
      assert [e][1..] == [];
    }
    var p1 := r.post + m;
    JoinAccepts(r.post, m, s, b, e, Hit([e], e));
    MarkJoin(p1, s, b, Hit([e], e));
    assert [b] + [e] == [b, e];
    var p2 := m + p1;
    MarkJoin(p2, s, b, Hit([b, e], e));
    assert [b] + [b, e] == [b, b, e];
  }

  /** Some match of the rule's three parts starts at `i`. */
  ghost predicate RuleAt(r: Rule, s: string, i: nat)
  {
    exists a: nat, b: nat, e: nat :: RuleAccepts(r, s, i, a, b, e)
  }

  lemma SiteIsRuleAt(r: Rule, s: string, i: nat, a: nat, b: nat, e: nat)
    requires RuleAccepts(r, s, i, a, b, e)
    ensures RuleAt(r, s, i)
  {
  }

  /** The matcher finds a rule at `i` exactly when its three parts match there. */
  lemma RuleMatchIff(r: Rule, s: string, i: nat)
    requires WellFormed(r) && i <= |s|
    ensures Match(Pattern(r), s, i).Some? <==> RuleAt(r, s, i)
  {
    if Match(Pattern(r), s, i).Some? {
      var a, b, e := RuleHit(r, s, i);
    }
    if RuleAt(r, s, i) {
      var a: nat, b: nat, e: nat :| RuleAccepts(r, s, i, a, b, e);
      RuleAcceptsPattern(r, s, i, a, b, e);
      MatchComplete(Pattern(r), s, i, Hit([i, a, a, b, b, e], e));
    }
  }

  /** A rule that matches nowhere leaves the text as it is, whatever the template. */
  lemma SubRuleWithoutSite(r: Rule, tpl: seq<Piece>, s: string)
    requires WellFormed(r)
    requires forall i :: 0 <= i < |s| ==> !RuleAt(r, s, i)
    ensures Sub(Pattern(r), tpl, s) == s
  {
    forall j | 0 <= j < |s| ensures Match(Pattern(r), s, j).None? {
      RuleMatchIff(r, s, j);
    }
    SubWithoutMatch(Pattern(r), tpl, s, 0);
  }

  /** The leftmost match of a rule, with the boundaries of its three parts. */
  lemma FirstRuleSite(r: Rule, s: string) returns (i: nat, a: nat, b: nat, e: nat)
    requires WellFormed(r) && Search(Pattern(r), s, 0).Some?
    ensures Search(Pattern(r), s, 0) == Some(Found(i, Hit([i, a, a, b, b, e], e)))
    ensures i < e <= |s| && RuleAccepts(r, s, i, a, b, e)
    ensures forall j :: 0 <= j < i ==> !RuleAt(r, s, j)
  {
    i := Search(Pattern(r), s, 0).value.pos;
    a, b, e := RuleHit(r, s, i);
    PatternWidth(r);
    forall j | 0 <= j < i ensures !RuleAt(r, s, j) {
      RuleMatchIff(r, s, j);
    }
  }

  /** Where a rule changed the text, it matched somewhere. */
  lemma SubRuleChangedHasSite(r: Rule, tpl: seq<Piece>, s: string) returns (i: nat, a: nat, b: nat, e: nat)
    requires WellFormed(r) && Sub(Pattern(r), tpl, s) != s
    ensures i < |s| && RuleAccepts(r, s, i, a, b, e)
  {
    SubChangedHasMatch(Pattern(r), tpl, s);
    var j :| 0 <= j < |s| && Match(Pattern(r), s, j).Some?;
    i := j;
    a, b, e := RuleHit(r, s, i);
  }

  /** `\1` + `x` + `\2` in the source's numbering: keep `pre` and `post`, put `x` for `mid`. */
  function Keep(x: string): seq<Piece>
  {
    [Group(1), Text(x), Group(3)]
  }

  lemma ExpandKeep(x: string, s: string, h: Hit)
    ensures Expand(Keep(x), s, h) == GroupText(s, h, 1) + x + GroupText(s, h, 3)
  {
    var t := Keep(x);
    assert t[1..] == [Text(x), Group(3)];
    assert t[1..][1..] == [Group(3)];
    assert t[1..][1..][1..] == [];
    assert Expand([Group(3)], s, h) == GroupText(s, h, 3);
  }

  /** A match of a rule is replaced by its `pre` text, then `x`, then its `post` text. */
  lemma KeepExpands(x: string, s: string, i: nat, a: nat, b: nat, e: nat)
    requires i <= a <= b <= e <= |s|
    ensures Expand(Keep(x), s, Hit([i, a, a, b, b, e], e)) == s[i..a] + x + s[b..e]
  {
    var m := [i, a, a, b, b, e];
    assert |m| == 6 && m[0] == i && m[1] == a && m[4] == b && m[5] == e;
    ExpandKeep(x, s, Hit(m, e));
  }

  /** `re.sub` of a rule with the template `\1` + `x` + `\2`. */
  function SubRule(r: Rule, x: string, s: string): string
    requires WellFormed(r)
  {
    Sub(Pattern(r), Keep(x), s)
  }

  /** A site's text is its three parts in a row. */
  lemma ThreeParts(s: string, i: nat, a: nat, b: nat, e: nat)
    requires i <= a <= b <= e <= |s|
    ensures s[i..e] == s[i..a] + s[a..b] + s[b..e]
  {
  }

  /** Splicing `x` after the first part of a site keeps the text before it. */
  lemma SpliceAt(s: string, i: nat, a: nat, x: string, w: string, rest: string)
    requires i <= a <= |s|
    ensures s[..i] + (s[i..a] + x + w) + rest == s[..a] + x + w + rest
  {
    assert s[..a] == s[..i] + s[i..a];
  }

  /**
   * At the leftmost site of a rule, `SubRule` reads up to the end of the
   * first part, then `x`, then the closing part, then the rest rewritten.
   */
  lemma SubRuleAtFirst(r: Rule, x: string, s: string, i: nat, a: nat, b: nat, e: nat)
    requires WellFormed(r) && Search(Pattern(r), s, 0) == Some(Found(i, Hit([i, a, a, b, b, e], e)))
    requires i <= a <= b <= e <= |s|
    ensures SubRule(r, x, s) == s[..a] + x + s[b..e] + SubFrom(Pattern(r), Keep(x), s, e)
  {
    PatternWidth(r);
    var h := Hit([i, a, a, b, b, e], e);
    SubAtFirst(Pattern(r), Keep(x), s, i, h);
    KeepExpands(x, s, i, a, b, e);
    SpliceAt(s, i, a, x, s[b..e], SubFrom(Pattern(r), Keep(x), s, e));
  }

  /** A rule whose middle part is the literal `x`, rewritten with `x` itself, changes nothing. */
  lemma KeepSameValue(r: Rule, x: string, s: string)
    requires WellFormed(r) && r.mid == [Lit(x)]
    ensures SubRule(r, x, s) == s
  {
    forall j | 0 <= j < |s| && Match(Pattern(r), s, j).Some?
      ensures Expand(Keep(x), s, Match(Pattern(r), s, j).value) == s[j..Match(Pattern(r), s, j).value.end]
    {
      KeepSameAt(r, x, s, j);
    }
    SubStable(Pattern(r), Keep(x), s, 0);
  }

  lemma KeepSameAt(r: Rule, x: string, s: string, j: nat)
    requires WellFormed(r) && r.mid == [Lit(x)]
    requires j <= |s| && Match(Pattern(r), s, j).Some?
    ensures Expand(Keep(x), s, Match(Pattern(r), s, j).value) == s[j..Match(Pattern(r), s, j).value.end]
  {
    var a, b, e := RuleHit(r, s, j);
    KeepExpands(x, s, j, a, b, e);
    AcceptsLit(x, s, a, b);
    assert s[j..e] == s[j..a] + s[a..b] + s[b..e];
  }

  /** `w` occurs in `s` at position `k`. */
  predicate OccursAt(s: string, w: string, k: nat)
  {
    k + |w| <= |s| && s[k..k + |w|] == w
  }

  /** `w` occurs somewhere in `s`. */
  predicate Occurs(s: string, w: string)
  {
    exists k: nat | k <= |s| :: OccursAt(s, w, k)
  }

  lemma OccursAtTail(s: string, w: string, k: nat)
    requires |s| > 0
    ensures OccursAt(s, w, k + 1) <==> OccursAt(s[1..], w, k)
  {
    if k + 1 + |w| <= |s| {
      assert s[1..][k..k + |w|] == s[k + 1..k + 1 + |w|];
    }
  }

  /** `str.replace`: every leftmost, non-overlapping occurrence of `target` becomes `repl`. */
  function ReplaceAll(s: string, target: string, repl: string): string
    requires |target| > 0
    decreases |s|
  {
    if |s| < |target| then s
    else if s[..|target|] == target then repl + ReplaceAll(s[|target|..], target, repl)
    else [s[0]] + ReplaceAll(s[1..], target, repl)
  }

  /** How many occurrences `ReplaceAll` replaces. */
  function ReplaceCount(s: string, target: string): nat
    requires |target| > 0
    decreases |s|
  {
    if |s| < |target| then 0
    else if s[..|target|] == target then 1 + ReplaceCount(s[|target|..], target)
    else ReplaceCount(s[1..], target)
  }

  /** Each replacement lengthens (or shortens) the text by at least one character when the lengths differ. */
  lemma {:induction false} ReplaceLength(s: string, target: string, repl: string)
    requires |target| > 0
    ensures |repl| == |target| ==> |ReplaceAll(s, target, repl)| == |s|
    ensures |repl| > |target| ==> |ReplaceAll(s, target, repl)| >= |s| + ReplaceCount(s, target)
    ensures |repl| < |target| ==> |ReplaceAll(s, target, repl)| + ReplaceCount(s, target) <= |s|
    decreases |s|
  {
    if |s| >= |target| {
      if s[..|target|] == target {
        ReplaceLength(s[|target|..], target, repl);
      } else {
        ReplaceLength(s[1..], target, repl);
      }
    }
  }

  lemma {:induction false} OccursIsCounted(s: string, target: string)
    requires |target| > 0 && Occurs(s, target)
    ensures ReplaceCount(s, target) >= 1
    decreases |s|
  {
    var k: nat :| OccursAt(s, target, k);
    if s[..|target|] != target {
      assert k > 0;
      OccursAtTail(s, target, k - 1);
      OccursIsCounted(s[1..], target);
    }
  }

  lemma {:induction false} UnchangedHasNoOccurrence(s: string, target: string, repl: string)
    requires |target| > 0 && target != repl
    requires ReplaceAll(s, target, repl) == s
    ensures !Occurs(s, target)
    decreases |s|
  {
    if |s| >= |target| {
      if s[..|target|] == target {
        if |repl| == |target| {
          assert false;
        } else {
          ReplaceLength(s, target, repl);
          assert false;
        }
      } else {
        UnchangedHasNoOccurrence(s[1..], target, repl);
        forall k: nat ensures !OccursAt(s, target, k) {
          if k > 0 {
            OccursAtTail(s, target, k - 1);
          } else {
            assert s[0..|target|] == s[..|target|];
          }
        }
      }
    }
  }

  lemma {:induction false} NoOccurrenceUnchanged(s: string, target: string, repl: string)
    requires |target| > 0 && !Occurs(s, target)
    ensures ReplaceAll(s, target, repl) == s
    decreases |s|
  {
    if |s| >= |target| {
      assert !OccursAt(s, target, 0);
      assert s[0..|target|] == s[..|target|];
      forall k: nat ensures !OccursAt(s[1..], target, k) {
        OccursAtTail(s, target, k);
      }
      NoOccurrenceUnchanged(s[1..], target, repl);
    }
  }

  /** For a real replacement, `str.replace` changes the text exactly when the target occurs in it. */
  lemma ReplaceChangesIffOccurs(s: string, target: string, repl: string)
    requires |target| > 0 && target != repl
    ensures ReplaceAll(s, target, repl) != s <==> Occurs(s, target)
  {
    if Occurs(s, target) && ReplaceAll(s, target, repl) == s {
      UnchangedHasNoOccurrence(s, target, repl);
    }
    if !Occurs(s, target) {
      NoOccurrenceUnchanged(s, target, repl);
    }
  }

  /** Replacing a text by itself is the identity. */
  lemma {:induction false} ReplaceBySelf(s: string, target: string)
    requires |target| > 0
    ensures ReplaceAll(s, target, target) == s
    decreases |s|
  {
    if |s| >= |target| {
      if s[..|target|] == target {
        ReplaceBySelf(s[|target|..], target);
        assert s == target + s[|target|..];
      } else {
        ReplaceBySelf(s[1..], target);
        assert s == [s[0]] + s[1..];
      }
    }
  }
}
