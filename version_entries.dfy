/**
 * The version entries `reset_version` rewrites, described by the positions
 * their parts occupy, and the proof that a second reset changes nothing.
 */
module VersionEntries {
  import opened Wrappers
  import opened TextScan
  import opened ReplTemplate
  import opened VersionReset
  import opened Fs
  import PackageText

  /** The four kinds of entry, one per substitution, in the source's order. */
  datatype Entry = SpacedCode | AssignedCode | SpacedName | AssignedName

  // Below, an entry is read through three things: its `key`; whether the
  // key is followed by `\s+` (`spaced`) or by `\s*=\s*`; and whether the
  // value is `\d+` (`code`) or a quoted text.


  predicate IsCode(e: Entry)
  {
    e.SpacedCode? || e.AssignedCode?
  }

  function Key(e: Entry): string
  {
    if IsCode(e) then CodeKey else NameKey
  }

  predicate IsSpaced(e: Entry)
  {
    e.SpacedCode? || e.SpacedName?
  }

  function Value(e: Entry): string
  {
    match e
    case SpacedCode => CodeOne
    case AssignedCode => CodeAssignedOne
    case SpacedName => NameFirst
    case AssignedName => NameAssignedFirst
  }

  function PatternOf(e: Entry): seq<Tok>
  {
    match e
    case SpacedCode => CodeSpaced
    case AssignedCode => CodeAssigned
    case SpacedName => NameSpaced
    case AssignedName => NameAssigned
  }

  function StepOf(e: Entry): Step
  {
    Step(PatternOf(e), Value(e))
  }

  lemma StepsAre()
    ensures Steps() == [StepOf(SpacedCode), StepOf(AssignedCode), StepOf(SpacedName), StepOf(AssignedName)]
  {
  }

  // ---------------------------------------------------------------------
  // Where the parts of an entry lie
  // ---------------------------------------------------------------------

  /** What follows the key: `\s+` or `\s*=\s*`; where the value starts. */
  function Head(spaced: bool, t: string, i: nat): (r: Option<nat>)
    requires i <= |t|
    ensures r.Some? ==> i <= r.value <= |t|
  {
    var a := RunEnd(Space, t, i);
    if spaced then (if a == i then None else Some(a))
    else if a == |t| || t[a] != '=' then None
    else Some(RunEnd(Space, t, a + 1))
  }

  /** Where the value of an entry of form `f` starting at `j` starts, if the key and what follows it are there. */
  function ValueStart(key: string, spaced: bool, t: string, j: nat): (r: Option<nat>)
    requires j <= |t|
    ensures r.Some? ==> j + |key| <= r.value <= |t|
  {
    if j + |key| <= |t| && t[j..j + |key|] == key then Head(spaced, t, j + |key|) else None
  }

  /** `\d+` from `b`: where the run of digits ends, if there is one. */
  function Digits(t: string, b: nat): Option<nat>
    requires b <= |t|
  {
    var d := RunEnd(Digit, t, b);
    if d == b then None else Some(d)
  }

  /** `["'][^"']*["']` from `a`: the end of the quoted value, if there is one. */
  function Quoted(t: string, a: nat): Option<nat>
    requires a <= |t|
  {
    if a == |t| || t[a] !in PackageText.Quotes then None
    else
      var c := RunEnd(NoneOf(PackageText.Quotes), t, a + 1);
      if c == |t| then None else Some(c + 1)
  }

  /** Where a value starting at `v` ends: digits for the code, a quoted text for the name. */
  function ValueEnd(code: bool, t: string, v: nat): (r: Option<nat>)
    requires v <= |t|
    ensures r.Some? ==> v < r.value <= |t|
  {
    if code then Digits(t, v) else Quoted(t, v)
  }

  /** Where the entry of form `f` starting at `j` ends, if `t` holds one there. */
  function EntryEnd(key: string, spaced: bool, code: bool, t: string, j: nat): (r: Option<nat>)
    requires j <= |t|
    ensures r.Some? ==> j < r.value <= |t|
  {
    var v := ValueStart(key, spaced, t, j);
    if v.None? then None else ValueEnd(code, t, v.value)
  }

  // ---------------------------------------------------------------------
  // The matcher finds exactly these entries
  // ---------------------------------------------------------------------

  function HeadToks(spaced: bool): seq<Tok>
  {
    if spaced then [Star(Space, 1)] else [Star(Space, 0), Lit("="), Star(Space, 0)]
  }

  function QuotedToks(): seq<Tok>
  {
    [One(AnyOf(PackageText.Quotes)), Star(NoneOf(PackageText.Quotes), 0), One(AnyOf(PackageText.Quotes))]
  }

  function ValueToks(code: bool): seq<Tok>
  {
    if code then [Star(Digit, 1)] else QuotedToks()
  }

  lemma PatternParts(e: Entry)
    ensures PatternOf(e) == [Lit(Key(e))] + (HeadToks(IsSpaced(e)) + ValueToks(IsCode(e)))
  {
  }

  /** A run is tried longest first; a rest that fails inside the run leaves only the longest. */
  lemma {:induction false} StarTop(k: CharClass, m: nat, rest: seq<Tok>, t: string, i: nat, j: nat)
    requires i <= j <= |t|
    requires forall x :: i + m <= x < j ==> Match(rest, t, x).None?
    ensures MatchStar(k, m, rest, t, i, j) == if j >= i + m then Match(rest, t, j) else None
    decreases j
  {
    if j >= i + m && Match(rest, t, j).None? && j > i {
      StarTop(k, m, rest, t, i, j - 1);
    }
  }

  /** A run followed by a rest that fails on every character of the run's class. */
  lemma StarRun(k: CharClass, m: nat, rest: seq<Tok>, t: string, i: nat)
    requires i <= |t|
    requires forall x :: i <= x < |t| && InClass(t[x], k) ==> Match(rest, t, x).None?
    ensures Match([Star(k, m)] + rest, t, i) == if RunEnd(k, t, i) >= i + m then Match(rest, t, RunEnd(k, t, i)) else None
  {
    MatchStarStep(k, m, rest, t, i);
    StarTop(k, m, rest, t, i, RunEnd(k, t, i));
  }

  /** `\d+` alone. */
  lemma DigitsMatch(t: string, b: nat)
    requires b <= |t|
    ensures Match([Star(Digit, 1)], t, b) == if Digits(t, b).Some? then Some(Hit([], Digits(t, b).value)) else None
  {
    var x: seq<Tok> := [];
    assert [Star(Digit, 1)] == [Star(Digit, 1)] + x;
    MatchStarStep(Digit, 1, x, t, b);
  }

  /** `["'][^"']*["']` alone. */
  lemma QuotedMatch(t: string, a: nat)
    requires a <= |t|
    ensures Match(QuotedToks(), t, a) == if Quoted(t, a).Some? then Some(Hit([], Quoted(t, a).value)) else None
  {
    var q := AnyOf(PackageText.Quotes);
    var close: seq<Tok> := [One(q)];
    var x: seq<Tok> := [];
    assert QuotedToks() == [One(q)] + ([Star(NoneOf(PackageText.Quotes), 0)] + close);
    assert close == [One(q)] + x;
    MatchOneStep(q, [Star(NoneOf(PackageText.Quotes), 0)] + close, t, a);
    if a < |t| && InClass(t[a], q) {
      forall y | a + 1 <= y < |t| && InClass(t[y], NoneOf(PackageText.Quotes)) ensures Match(close, t, y).None? {
        MatchOneStep(q, x, t, y);
      }
      StarRun(NoneOf(PackageText.Quotes), 0, close, t, a + 1);
      MatchOneStep(q, x, t, RunEnd(NoneOf(PackageText.Quotes), t, a + 1));
    }
  }

  /** The value's tokens fail on a space. */
  lemma ValueFails(key: string, spaced: bool, code: bool, t: string, x: nat)
    requires x < |t| && IsSpace(t[x])
    ensures Match(ValueToks(code), t, x).None?
  {
    if code {
      DigitsMatch(t, x);
    } else {
      QuotedMatch(t, x);
    }
  }

  /** `\s*=\s*` ahead of a rest that fails on a space. */
  /** `=` fails where a space stands. */
  lemma EqOnSpace(after: seq<Tok>, t: string, i: nat)
    requires i <= |t|
    ensures forall x :: i <= x < |t| && InClass(t[x], Space) ==> Match([Lit("=")] + after, t, x).None?
  {
    forall x | i <= x < |t| && InClass(t[x], Space) ensures Match([Lit("=")] + after, t, x).None? {
      MatchLitStep("=", after, t, x);
      assert x + 1 <= |t| ==> t[x..x + 1][0] == t[x];
    }
  }

  /** `=` ahead of a rest. */
  lemma EqAt(after: seq<Tok>, t: string, a: nat)
    requires a <= |t|
    ensures Match([Lit("=")] + after, t, a) == if a == |t| || t[a] != '=' then None else Match(after, t, a + 1)
  {
    MatchLitStep("=", after, t, a);
    if a < |t| {
      assert t[a..a + 1][0] == t[a];
      if t[a] == '=' {
        assert t[a..a + 1] == "=";
      }
    }
  }

  /** `=\s*` ahead of a rest that fails on a space. */
  lemma AfterEq(rest: seq<Tok>, t: string, a: nat)
    requires a <= |t|
    requires forall x :: a < x < |t| && IsSpace(t[x]) ==> Match(rest, t, x).None?
    ensures Match([Lit("=")] + ([Star(Space, 0)] + rest), t, a) ==
      if a == |t| || t[a] != '=' then None else Match(rest, t, RunEnd(Space, t, a + 1))
  {
    EqAt([Star(Space, 0)] + rest, t, a);
    if a < |t| && t[a] == '=' {
      StarRun(Space, 0, rest, t, a + 1);
    }
  }

  lemma AssignMatch(rest: seq<Tok>, t: string, i: nat)
    requires i <= |t|
    requires forall x :: i <= x < |t| && IsSpace(t[x]) ==> Match(rest, t, x).None?
    ensures Match([Star(Space, 0)] + ([Lit("=")] + ([Star(Space, 0)] + rest)), t, i) ==
      var a := RunEnd(Space, t, i);
      if a == |t| || t[a] != '=' then None else Match(rest, t, RunEnd(Space, t, a + 1))
  {
    var eq: seq<Tok> := [Lit("=")] + ([Star(Space, 0)] + rest);
    EqOnSpace([Star(Space, 0)] + rest, t, i);
    StarRun(Space, 0, eq, t, i);
    AfterEq(rest, t, RunEnd(Space, t, i));
  }

  /** `\s+`, or `\s*=\s*`, ahead of a rest that fails on a space. */
  lemma HeadMatch(key: string, spaced: bool, code: bool, rest: seq<Tok>, t: string, i: nat)
    requires i <= |t|
    requires forall x :: i <= x < |t| && IsSpace(t[x]) ==> Match(rest, t, x).None?
    ensures Match(HeadToks(spaced) + rest, t, i) == if Head(spaced, t, i).Some? then Match(rest, t, Head(spaced, t, i).value) else None
  {
    if spaced {
      StarRun(Space, 1, rest, t, i);
    } else {
      assert HeadToks(false) + rest == [Star(Space, 0)] + ([Lit("=")] + ([Star(Space, 0)] + rest));
      AssignMatch(rest, t, i);
    }
  }

  /** What the matcher returns for a read that ends at `r`, or fails. */
  function Matched(r: Option<nat>): Option<Hit>
  {
    if r.Some? then Some(Hit([], r.value)) else None
  }

  /** The value's tokens read the value `ValueEnd` describes. */
  lemma ValueMatch(key: string, spaced: bool, code: bool, t: string, v: nat)
    requires v <= |t|
    ensures Match(ValueToks(code), t, v) == Matched(ValueEnd(code, t, v))
  {
    if code {
      DigitsMatch(t, v);
    } else {
      QuotedMatch(t, v);
    }
  }

  /** Where the value after the key ends, when the key ends at `i`. */
  function HeadValueEnd(spaced: bool, code: bool, t: string, i: nat): Option<nat>
    requires i <= |t|
  {
    var h := Head(spaced, t, i);
    if h.None? then None else ValueEnd(code, t, h.value)
  }

  lemma HeadValueMatch(key: string, spaced: bool, code: bool, t: string, i: nat)
    requires i <= |t|
    ensures Match(HeadToks(spaced) + ValueToks(code), t, i) == Matched(HeadValueEnd(spaced, code, t, i))
  {
    forall x | i <= x < |t| && IsSpace(t[x]) ensures Match(ValueToks(code), t, x).None? {
      ValueFails(key, spaced, code, t, x);
    }
    HeadMatch(key, spaced, code, ValueToks(code), t, i);
    if Head(spaced, t, i).Some? {
      ValueMatch(key, spaced, code, t, Head(spaced, t, i).value);
    }
  }

  /** A literal key followed by tokens that read up to `after` when the key is there. */
  lemma KeyThenRest(key: string, rest: seq<Tok>, t: string, j: nat, after: Option<nat>)
    requires j <= |t|
    requires j + |key| <= |t| && t[j..j + |key|] == key ==> Match(rest, t, j + |key|) == Matched(after)
    requires !(j + |key| <= |t| && t[j..j + |key|] == key) ==> after.None?
    ensures Match([Lit(key)] + rest, t, j) == Matched(after)
  {
    MatchLitStep(key, rest, t, j);
  }

  lemma EntryAfterKey(key: string, spaced: bool, code: bool, t: string, j: nat)
    requires j + |key| <= |t| && t[j..j + |key|] == key
    ensures EntryEnd(key, spaced, code, t, j) == HeadValueEnd(spaced, code, t, j + |key|)
  {
  }

  lemma PartsMatch(key: string, spaced: bool, code: bool, t: string, j: nat)
    requires j <= |t|
    ensures Match([Lit(key)] + (HeadToks(spaced) + ValueToks(code)), t, j) == Matched(EntryEnd(key, spaced, code, t, j))
  {
    if j + |key| <= |t| && t[j..j + |key|] == key {
      HeadValueMatch(key, spaced, code, t, j + |key|);
      EntryAfterKey(key, spaced, code, t, j);
    }
    KeyThenRest(key, HeadToks(spaced) + ValueToks(code), t, j, EntryEnd(key, spaced, code, t, j));
  }

  /** The matcher finds the entry of kind `e` at `j` exactly when `t` holds one there, and ends it where `EntryEnd` says. */
  lemma MatchIsEntry(e: Entry, t: string, j: nat)
    requires j <= |t|
    ensures Match(PatternOf(e), t, j) == Matched(EntryEnd(Key(e), IsSpaced(e), IsCode(e), t, j))
  {
    PatternParts(e);
    PartsMatch(Key(e), IsSpaced(e), IsCode(e), t, j);
  }

  // ---------------------------------------------------------------------
  // Entries under a prefix, and in texts that agree
  // ---------------------------------------------------------------------

  function Shifted(o: Option<nat>, n: nat): Option<nat>
  {
    if o.Some? then Some(o.value + n) else None
  }

  lemma {:induction false} RunEndShift(k: CharClass, x: string, y: string, i: nat)
    requires i <= |y|
    ensures RunEnd(k, x + y, |x| + i) == |x| + RunEnd(k, y, i)
    decreases |y| - i
  {
    if i < |y| {
      assert (x + y)[|x| + i] == y[i];
      RunEndShift(k, x, y, i + 1);
    }
  }

  lemma HeadShift(key: string, spaced: bool, code: bool, x: string, y: string, i: nat)
    requires i <= |y|
    ensures Head(spaced, x + y, |x| + i) == Shifted(Head(spaced, y, i), |x|)
  {
    RunEndShift(Space, x, y, i);
    var a := RunEnd(Space, y, i);
    if a < |y| {
      assert (x + y)[|x| + a] == y[a];
      RunEndShift(Space, x, y, a + 1);
    }
  }

  lemma ValueStartShift(key: string, spaced: bool, code: bool, x: string, y: string, j: nat)
    requires j <= |y|
    ensures ValueStart(key, spaced, x + y, |x| + j) == Shifted(ValueStart(key, spaced, y, j), |x|)
  {
    if j + |key| <= |y| {
      assert (x + y)[|x| + j..|x| + j + |key|] == y[j..j + |key|];
      HeadShift(key, spaced, code, x, y, j + |key|);
    }
  }

  lemma DigitsShift(x: string, y: string, v: nat)
    requires v <= |y|
    ensures Digits(x + y, |x| + v) == Shifted(Digits(y, v), |x|)
  {
    RunEndShift(Digit, x, y, v);
  }

  lemma QuotedShift(x: string, y: string, v: nat)
    requires v <= |y|
    ensures Quoted(x + y, |x| + v) == Shifted(Quoted(y, v), |x|)
  {
    if v < |y| {
      assert (x + y)[|x| + v] == y[v];
      RunEndShift(NoneOf(PackageText.Quotes), x, y, v + 1);
    }
  }

  /** An entry is found the same way behind any prefix. */
  lemma EntryShift(key: string, spaced: bool, code: bool, x: string, y: string, j: nat)
    requires j <= |y|
    ensures EntryEnd(key, spaced, code, x + y, |x| + j) == Shifted(EntryEnd(key, spaced, code, y, j), |x|)
  {
    ValueStartShift(key, spaced, code, x, y, j);
    var v := ValueStart(key, spaced, y, j);
    if v.Some? {
      DigitsShift(x, y, v.value);
      QuotedShift(x, y, v.value);
    }
  }

  /** The character at `x`; quantifiers over texts below are written with it, so that they are instantiated only where a proof asks for one position. */
  function At(t: string, x: nat): (c: char)
    requires x < |t|
    ensures c == t[x]
  {
    t[x]
  }

  /** `t1` from `lo` to `hi` reads as `t2` does `off` characters further on. */
  ghost predicate Agree(t1: string, t2: string, lo: nat, hi: nat, off: nat)
  {
    lo <= hi <= |t1| && hi + off <= |t2| && forall x :: lo <= x < hi ==> At(t1, x) == At(t2, x + off)
  }

  lemma AgreeAt(t1: string, t2: string, lo: nat, hi: nat, off: nat, x: nat)
    requires Agree(t1, t2, lo, hi, off) && lo <= x < hi
    ensures t1[x] == t2[x + off]
  {
    assert At(t1, x) == At(t2, x + off);
  }

  lemma AgreeFrom(t1: string, t2: string, lo: nat, mid: nat, hi: nat, off: nat)
    requires Agree(t1, t2, lo, hi, off) && lo <= mid <= hi
    ensures Agree(t1, t2, mid, hi, off)
  {
    forall x | mid <= x < hi ensures At(t1, x) == At(t2, x + off) {
      AgreeAt(t1, t2, lo, hi, off, x);
    }
  }

  /** Texts that agree on a stretch have equal slices there. */
  lemma AgreeSlice(t1: string, t2: string, lo: nat, hi: nat, off: nat, a: nat, b: nat)
    requires Agree(t1, t2, lo, hi, off) && lo <= a <= b <= hi
    ensures t1[a..b] == t2[a + off..b + off]
  {
    forall k | 0 <= k < b - a ensures t1[a..b][k] == t2[a + off..b + off][k] {
      AgreeAt(t1, t2, lo, hi, off, a + k);
    }
  }

  lemma {:induction false} RunEndAgree(k: CharClass, t1: string, t2: string, i: nat, hi: nat, off: nat)
    requires Agree(t1, t2, i, hi, off)
    ensures RunEnd(k, t1, i) < hi ==> RunEnd(k, t2, i + off) == RunEnd(k, t1, i) + off
    ensures RunEnd(k, t1, i) >= hi ==> RunEnd(k, t2, i + off) >= hi + off
    decreases hi - i
  {
    if i < hi {
      AgreeAt(t1, t2, i, hi, off, i);
      if InClass(t1[i], k) {
        AgreeFrom(t1, t2, i, i + 1, hi, off);
        RunEndAgree(k, t1, t2, i + 1, hi, off);
      }
    }
  }

  lemma HeadAgree(key: string, spaced: bool, code: bool, t1: string, t2: string, i: nat, hi: nat, off: nat)
    requires Agree(t1, t2, i, hi, off)
    ensures Head(spaced, t1, i).Some? && Head(spaced, t1, i).value < hi ==> Head(spaced, t2, i + off) == Some(Head(spaced, t1, i).value + off)
  {
    RunEndAgree(Space, t1, t2, i, hi, off);
    var a := RunEnd(Space, t1, i);
    if a < hi {
      AgreeAt(t1, t2, i, hi, off, a);
      AgreeFrom(t1, t2, i, a + 1, hi, off);
      RunEndAgree(Space, t1, t2, a + 1, hi, off);
    }
  }

  lemma ValueStartAgree(key: string, spaced: bool, code: bool, t1: string, t2: string, j: nat, hi: nat, off: nat)
    requires Agree(t1, t2, j, hi, off)
    ensures ValueStart(key, spaced, t1, j).Some? && ValueStart(key, spaced, t1, j).value < hi ==> ValueStart(key, spaced, t2, j + off) == Some(ValueStart(key, spaced, t1, j).value + off)
  {
    var v := ValueStart(key, spaced, t1, j);
    if v.Some? && v.value < hi {
      var i := j + |key|;
      AgreeSlice(t1, t2, j, hi, off, j, i);
      AgreeFrom(t1, t2, j, i, hi, off);
      HeadAgree(key, spaced, code, t1, t2, i, hi, off);
    }
  }

  lemma DigitsAgree(t1: string, t2: string, v: nat, hi: nat, off: nat)
    requires Agree(t1, t2, v, hi, off)
    ensures Digits(t1, v).Some? && Digits(t1, v).value < hi ==> Digits(t2, v + off) == Some(Digits(t1, v).value + off)
  {
    RunEndAgree(Digit, t1, t2, v, hi, off);
  }

  lemma QuotedAgree(t1: string, t2: string, v: nat, hi: nat, off: nat)
    requires Agree(t1, t2, v, hi, off)
    ensures Quoted(t1, v).Some? && Quoted(t1, v).value < hi ==> Quoted(t2, v + off) == Some(Quoted(t1, v).value + off)
  {
    if Quoted(t1, v).Some? && Quoted(t1, v).value < hi {
      AgreeAt(t1, t2, v, hi, off, v);
      AgreeFrom(t1, t2, v, v + 1, hi, off);
      RunEndAgree(NoneOf(PackageText.Quotes), t1, t2, v + 1, hi, off);
    }
  }

  lemma ValueEndAgree(key: string, spaced: bool, code: bool, t1: string, t2: string, v: nat, hi: nat, off: nat)
    requires Agree(t1, t2, v, hi, off)
    ensures ValueEnd(code, t1, v).Some? && ValueEnd(code, t1, v).value < hi ==> ValueEnd(code, t2, v + off) == Some(ValueEnd(code, t1, v).value + off)
  {
    if code {
      DigitsAgree(t1, t2, v, hi, off);
    } else {
      QuotedAgree(t1, t2, v, hi, off);
    }
  }

  /** An entry that ends before the texts part is found in both. */
  lemma EntryAgree(key: string, spaced: bool, code: bool, t1: string, t2: string, j: nat, hi: nat, off: nat)
    requires Agree(t1, t2, j, hi, off)
    ensures EntryEnd(key, spaced, code, t1, j).Some? && EntryEnd(key, spaced, code, t1, j).value < hi ==> EntryEnd(key, spaced, code, t2, j + off) == Some(EntryEnd(key, spaced, code, t1, j).value + off)
  {
    ValueStartAgree(key, spaced, code, t1, t2, j, hi, off);
    var v := ValueStart(key, spaced, t1, j);
    if v.Some? && v.value < hi {
      AgreeFrom(t1, t2, j, v.value, hi, off);
      ValueEndAgree(key, spaced, code, t1, t2, v.value, hi, off);
    }
  }

  // ---------------------------------------------------------------------
  // The letters of keys and values
  // ---------------------------------------------------------------------

  /** Eleven characters that start with the only `v` they hold, and hold no quote, as both keys do. */
  ghost predicate KeyShape(key: string)
  {
    && |key| == 11 && key[0] == 'v'
    && (forall d :: 0 < d < 11 ==> At(key, d) != 'v')
    && (forall d :: 0 <= d < 11 ==> At(key, d) !in PackageText.Quotes)
  }

  lemma KeyFromTail(key: string, tail: string)
    requires key == ['v'] + tail && |tail| == 10 && 'v' !in tail && '"' !in tail && '\'' !in tail
    ensures KeyShape(key)
  {
    forall d | 0 < d < 11 ensures At(key, d) != 'v' && At(key, d) !in PackageText.Quotes {
      assert key[d] == tail[d - 1];
    }
  }

  lemma KeyLetters(e: Entry)
    ensures KeyShape(Key(e))
  {
    if IsCode(e) {
      assert CodeKey == ['v'] + "ersionCode";
      KeyFromTail(CodeKey, "ersionCode");
    } else {
      assert NameKey == ['v'] + "ersionName";
      KeyFromTail(NameKey, "ersionName");
    }
  }

  lemma KeyShapeAt(key: string, d: nat)
    requires KeyShape(key) && d < 11
    ensures key[d] !in PackageText.Quotes && (d > 0 ==> key[d] != 'v')
  {
    assert At(key, d) !in PackageText.Quotes;
    if d > 0 {
      assert At(key, d) != 'v';
    }
  }

  /** A value starts with its key, and with the only `v` it holds. */
  lemma ValueLetters(e: Entry)
    ensures 12 <= |Value(e)| <= 21 && Value(e)[..11] == Key(e)
    ensures forall d :: 0 < d < |Value(e)| ==> Value(e)[d] != 'v'
  {
    KeyLetters(e);
    var tail := Value(e)[11..];
    assert Value(e) == Key(e) + tail;
    assert 'v' !in tail;
    forall d | 0 < d < |Value(e)| ensures Value(e)[d] != 'v' {
      if d >= 11 {
        assert Value(e)[d] == tail[d - 11];
      } else {
        KeyShapeAt(Key(e), d);
      }
    }
  }

  /** A key placed at `j` fits before a `v` at `c`. */
  lemma KeyBefore(key: string, t: string, j: nat, c: nat)
    requires KeyShape(key) && j < c < |t| && t[c] == 'v'
    requires j + 11 <= |t| && t[j..j + 11] == key
    ensures j + 11 <= c
  {
    if c < j + 11 {
      assert t[j..j + 11][c - j] == t[c];
      KeyShapeAt(key, c - j);
    }
  }

  /** After its key, an entry holds only spaces, `=`, digits and, inside quotes, anything but a quote. */
  lemma EntryLetters(key: string, spaced: bool, code: bool, t: string, j: nat)
    requires j <= |t|
    ensures ValueStart(key, spaced, t, j).Some? ==> forall x :: j + |key| <= x < ValueStart(key, spaced, t, j).value ==> IsSpace(t[x]) || t[x] == '='
    ensures code && EntryEnd(key, spaced, code, t, j).Some? ==> forall x :: ValueStart(key, spaced, t, j).value <= x < EntryEnd(key, spaced, code, t, j).value ==> '0' <= t[x] <= '9'
  {
  }

  // ---------------------------------------------------------------------
  // Entries inside a replacement
  // ---------------------------------------------------------------------

  /** What follows a code replacement does not carry its digits on. */
  predicate EndsValue(sh: Entry, rest: string)
  {
    IsCode(sh) ==> rest == [] || !('0' <= rest[0] <= '9')
  }

  /** Where the replacement's key is read by an entry of another key, there is no entry. */
  lemma OtherKey(q: Entry, sh: Entry, rest: string)
    requires Key(q) != Key(sh)
    ensures EntryEnd(Key(q), IsSpaced(q), IsCode(q), Value(sh) + rest, 0).None?
  {
    ValueLetters(sh);
    var t := Value(sh) + rest;
    assert t[..11] == Key(sh);
  }

  lemma SpacedCodeSpaced(rest: string)
    requires EndsValue(SpacedCode, rest)
    ensures var t := CodeOne + rest; EntryEnd(CodeKey, true, true, t, 0) == Some(13) && t[..13] == CodeOne
  {
    var t := CodeOne + rest;
    assert t[..11] == CodeKey && t[11] == ' ' && t[12] == '1';
    assert RunEnd(Space, t, 11) == RunEnd(Space, t, 12) == 12;
    assert RunEnd(Digit, t, 12) == RunEnd(Digit, t, 13) == 13;
    assert t[..13] == CodeOne;
  }

  lemma SpacedCodeAssigned(rest: string)
    ensures EntryEnd(CodeKey, false, true, CodeOne + rest, 0).None?
  {
    var t := CodeOne + rest;
    assert t[..11] == CodeKey && t[11] == ' ' && t[12] == '1';
    assert RunEnd(Space, t, 11) == RunEnd(Space, t, 12) == 12;
  }

  lemma InSpacedCode(q: Entry, rest: string)
    requires EndsValue(SpacedCode, rest) && IsCode(q)
    ensures var t := CodeOne + rest; EntryEnd(Key(q), IsSpaced(q), IsCode(q), t, 0).Some? ==> t[..EntryEnd(Key(q), IsSpaced(q), IsCode(q), t, 0).value] == Value(q)
  {
    if IsSpaced(q) {
      SpacedCodeSpaced(rest);
    } else {
      SpacedCodeAssigned(rest);
    }
  }

  lemma AssignedCodeSpaced(rest: string)
    ensures EntryEnd(CodeKey, true, true, CodeAssignedOne + rest, 0).None?
  {
    var t := CodeAssignedOne + rest;
    assert t[..11] == CodeKey && t[11] == ' ' && t[12] == '=';
    assert RunEnd(Space, t, 11) == RunEnd(Space, t, 12) == 12;
    assert RunEnd(Digit, t, 12) == 12;
  }

  lemma AssignedCodeAssigned(rest: string)
    requires EndsValue(AssignedCode, rest)
    ensures var t := CodeAssignedOne + rest; EntryEnd(CodeKey, false, true, t, 0) == Some(15) && t[..15] == CodeAssignedOne
  {
    var t := CodeAssignedOne + rest;
    assert t[..11] == CodeKey && t[11] == ' ' && t[12] == '=' && t[13] == ' ' && t[14] == '1';
    assert RunEnd(Space, t, 11) == RunEnd(Space, t, 12) == 12;
    assert RunEnd(Space, t, 13) == RunEnd(Space, t, 14) == 14;
    assert RunEnd(Digit, t, 14) == RunEnd(Digit, t, 15) == 15;
    assert t[..15] == CodeAssignedOne;
  }

  lemma InAssignedCode(q: Entry, rest: string)
    requires EndsValue(AssignedCode, rest) && IsCode(q)
    ensures var t := CodeAssignedOne + rest; EntryEnd(Key(q), IsSpaced(q), IsCode(q), t, 0).Some? ==> t[..EntryEnd(Key(q), IsSpaced(q), IsCode(q), t, 0).value] == Value(q)
  {
    if IsSpaced(q) {
      AssignedCodeSpaced(rest);
    } else {
      AssignedCodeAssigned(rest);
    }
  }

  lemma SpacedNameChars(rest: string)
    ensures var t := NameFirst + rest;
      && t[..11] == NameKey && t[11] == ' ' && t[12] == '"'
      && t[13] == '1' && t[14] == '.' && t[15] == '0' && t[16] == '.' && t[17] == '0' && t[18] == '"'
  {
    var t := NameFirst + rest;
    assert t[..11] == NameKey;
  }

  lemma SpacedNameSpaced(rest: string)
    ensures var t := NameFirst + rest; EntryEnd(NameKey, true, false, t, 0) == Some(19) && t[..19] == NameFirst
  {
    var t := NameFirst + rest;
    var k := NoneOf(PackageText.Quotes);
    SpacedNameChars(rest);
    assert RunEnd(Space, t, 11) == RunEnd(Space, t, 12) == 12;
    assert RunEnd(k, t, 13) == RunEnd(k, t, 14) == RunEnd(k, t, 15) == RunEnd(k, t, 16) == RunEnd(k, t, 17) == RunEnd(k, t, 18) == 18;
    assert t[..19] == NameFirst;
  }

  lemma SpacedNameAssigned(rest: string)
    ensures EntryEnd(NameKey, false, false, NameFirst + rest, 0).None?
  {
    var t := NameFirst + rest;
    assert t[..11] == NameKey && t[11] == ' ' && t[12] == '"';
    assert RunEnd(Space, t, 11) == RunEnd(Space, t, 12) == 12;
  }

  lemma InSpacedName(q: Entry, rest: string)
    requires !IsCode(q)
    ensures var t := NameFirst + rest; EntryEnd(Key(q), IsSpaced(q), IsCode(q), t, 0).Some? ==> t[..EntryEnd(Key(q), IsSpaced(q), IsCode(q), t, 0).value] == Value(q)
  {
    if IsSpaced(q) {
      SpacedNameSpaced(rest);
    } else {
      SpacedNameAssigned(rest);
    }
  }

  lemma AssignedNameSpaced(rest: string)
    ensures EntryEnd(NameKey, true, false, NameAssignedFirst + rest, 0).None?
  {
    var t := NameAssignedFirst + rest;
    assert t[..11] == NameKey && t[11] == ' ' && t[12] == '=';
    assert RunEnd(Space, t, 11) == RunEnd(Space, t, 12) == 12;
  }

  lemma AssignedNameChars(rest: string)
    ensures var t := NameAssignedFirst + rest;
      && t[..11] == NameKey && t[11] == ' ' && t[12] == '=' && t[13] == ' ' && t[14] == '"'
      && t[15] == '1' && t[16] == '.' && t[17] == '0' && t[18] == '.' && t[19] == '0' && t[20] == '"'
  {
    var t := NameAssignedFirst + rest;
    assert t[..11] == NameKey;
  }

  lemma AssignedNameAssigned(rest: string)
    ensures var t := NameAssignedFirst + rest; EntryEnd(NameKey, false, false, t, 0) == Some(21) && t[..21] == NameAssignedFirst
  {
    var t := NameAssignedFirst + rest;
    var k := NoneOf(PackageText.Quotes);
    AssignedNameChars(rest);
    assert RunEnd(Space, t, 11) == RunEnd(Space, t, 12) == 12;
    assert RunEnd(Space, t, 13) == RunEnd(Space, t, 14) == 14;
    assert RunEnd(k, t, 15) == RunEnd(k, t, 16) == RunEnd(k, t, 17) == RunEnd(k, t, 18) == RunEnd(k, t, 19) == RunEnd(k, t, 20) == 20;
    assert t[..21] == NameAssignedFirst;
  }

  lemma InAssignedName(q: Entry, rest: string)
    requires !IsCode(q)
    ensures var t := NameAssignedFirst + rest; EntryEnd(Key(q), IsSpaced(q), IsCode(q), t, 0).Some? ==> t[..EntryEnd(Key(q), IsSpaced(q), IsCode(q), t, 0).value] == Value(q)
  {
    if IsSpaced(q) {
      AssignedNameSpaced(rest);
    } else {
      AssignedNameAssigned(rest);
    }
  }

  /** No entry starts where its key's first letter is missing. */
  lemma OffKey(key: string, spaced: bool, code: bool, t: string, d: nat)
    requires |key| == 11 && key[0] == 'v' && d < |t| && t[d] != 'v'
    ensures EntryEnd(key, spaced, code, t, d).None?
  {
    assert d + 11 <= |t| ==> t[d..d + 11][0] == t[d];
  }

  /** An entry that starts inside a replacement is that replacement, read whole. */
  lemma InValue(q: Entry, sh: Entry, rest: string, d: nat)
    requires d < |Value(sh)| && EndsValue(sh, rest)
    ensures HoldsAt(Key(q), IsSpaced(q), IsCode(q), Value(sh) + rest, d, Value(q))
  {
    var t := Value(sh) + rest;
    if d > 0 {
      ValueLetters(sh);
      KeyLetters(q);
      assert t[d] != 'v';
      OffKey(Key(q), IsSpaced(q), IsCode(q), t, d);
    } else if Key(q) != Key(sh) {
      OtherKey(q, sh, rest);
    } else {
      assert t[0..] == t;
      match sh
      case SpacedCode => InSpacedCode(q, rest);
      case AssignedCode => InAssignedCode(q, rest);
      case SpacedName => InSpacedName(q, rest);
      case AssignedName => InAssignedName(q, rest);
    }
  }

  // ---------------------------------------------------------------------
  // Entries in the text copied ahead of a replacement
  // ---------------------------------------------------------------------

  /** Every entry of form `q` from `i` on that is not also an entry of form `sh` reads `v`. */
  ghost predicate KeptFrom(key: string, spaced: bool, code: bool, rkey: string, rspaced: bool, rcode: bool, s: string, i: nat, v: string)
  {
    forall p :: i <= p <= |s| ==> KeptAt(key, spaced, code, rkey, rspaced, rcode, s, p, v)
  }

  /** The entry of form `q` at `p`, if there is one and it is not also an entry of form `sh`, reads `v`. */
  ghost predicate KeptAt(key: string, spaced: bool, code: bool, rkey: string, rspaced: bool, rcode: bool, s: string, p: nat, v: string)
    requires p <= |s|
  {
    EntryEnd(key, spaced, code, s, p).Some? && EntryEnd(rkey, rspaced, rcode, s, p).None? ==> s[p..EntryEnd(key, spaced, code, s, p).value] == v
  }

  /** A quoted name entry ends on a quote, past its key. */
  lemma QuoteAtEnd(key: string, spaced: bool, code: bool, s: string, m: nat)
    requires m <= |s| && |key| == 11 && !code
    ensures EntryEnd(key, spaced, code, s, m).Some? ==> EntryEnd(key, spaced, code, s, m).value - 1 >= m + 11 && s[EntryEnd(key, spaced, code, s, m).value - 1] in PackageText.Quotes
  {
  }

  /** A name entry placed before a `v` opens its quote before it. */
  lemma OpenBefore(key: string, spaced: bool, code: bool, t: string, j: nat, c: nat)
    requires !code && |key| == 11 && j + 11 <= c < |t| && t[c] == 'v'
    ensures EntryEnd(key, spaced, code, t, j).Some? ==> ValueStart(key, spaced, t, j).value < c
  {
    EntryLetters(key, spaced, code, t, j);
  }

  /** A code entry placed before a `v` ends before it. */
  lemma CodeBefore(key: string, spaced: bool, code: bool, t: string, j: nat, c: nat)
    requires code && |key| == 11 && j + 11 <= c < |t| && t[c] == 'v'
    ensures EntryEnd(key, spaced, code, t, j).Some? ==> EntryEnd(key, spaced, code, t, j).value <= c
  {
    EntryLetters(key, spaced, code, t, j);
  }

  /** A quoted value opened before `c` that closes past `c` runs through the quote-free stretch `[c, hi)`. */
  lemma PastStretch(t: string, a: nat, c: nat, hi: nat)
    requires a < c <= hi <= |t|
    requires forall x :: c <= x < hi ==> t[x] !in PackageText.Quotes
    ensures Quoted(t, a).Some? && Quoted(t, a).value > c ==> RunEnd(NoneOf(PackageText.Quotes), t, a + 1) >= hi
  {
  }

  /** A quoted value whose run reaches `lo`, with a quote further on at `z`, closes at or past `lo`. */
  lemma ClosesLate(s: string, a: nat, lo: nat, z: nat)
    requires a < lo <= z < |s| && s[a] in PackageText.Quotes && s[z] in PackageText.Quotes
    ensures RunEnd(NoneOf(PackageText.Quotes), s, a + 1) >= lo ==> Quoted(s, a).Some? && Quoted(s, a).value > lo
  {
    var cs := RunEnd(NoneOf(PackageText.Quotes), s, a + 1);
    assert cs <= z;
  }

  /** An 11-character stretch from `c` that opens with `v` and holds no quote, as a key does. */
  ghost predicate Stretch(t: string, c: nat)
  {
    c + 11 <= |t| && At(t, c) == 'v' && forall x :: c <= x < c + 11 ==> At(t, x) !in PackageText.Quotes
  }

  lemma StretchAt(t: string, c: nat, x: nat)
    requires Stretch(t, c) && c <= x < c + 11
    ensures t[c] == 'v' && t[x] !in PackageText.Quotes
  {
    assert At(t, x) !in PackageText.Quotes;
  }

  /** A key in the text makes a stretch. */
  lemma KeyStretch(key: string, t: string, c: nat)
    requires KeyShape(key) && c + 11 <= |t| && t[c..c + 11] == key
    ensures Stretch(t, c)
  {
    forall x | c <= x < c + 11 ensures At(t, x) !in PackageText.Quotes {
      assert t[x] == key[x - c];
      KeyShapeAt(key, x - c);
    }
    assert t[c] == key[0];
  }

  /** A name entry placed before a stretch, and closing past its start, runs through the stretch. */
  lemma ReachInCopy(key: string, spaced: bool, code: bool, t: string, j: nat, c: nat)
    requires !code && |key| == 11 && j + 11 <= c
    requires Stretch(t, c)
    ensures EntryEnd(key, spaced, code, t, j).Some? && EntryEnd(key, spaced, code, t, j).value > c ==>
      var a := ValueStart(key, spaced, t, j).value;
      a < c && t[a] in PackageText.Quotes && RunEnd(NoneOf(PackageText.Quotes), t, a + 1) >= c + 11
  {
    StretchAt(t, c, c);
    OpenBefore(key, spaced, code, t, j, c);
    if ValueStart(key, spaced, t, j).Some? && ValueStart(key, spaced, t, j).value < c {
      var a := ValueStart(key, spaced, t, j).value;
      forall x | c <= x < c + 11 ensures t[x] !in PackageText.Quotes {
        StretchAt(t, c, x);
      }
      PastStretch(t, a, c, c + 11);
    }
  }

  /** The same opening, and the same run, in the input. */
  lemma ReachInInput(key: string, spaced: bool, code: bool, t: string, s: string, j: nat, hi: nat, off: nat, a: nat)
    requires Agree(t, s, j, hi, off) && ValueStart(key, spaced, t, j) == Some(a) && a < hi
    requires t[a] in PackageText.Quotes && RunEnd(NoneOf(PackageText.Quotes), t, a + 1) >= hi
    ensures ValueStart(key, spaced, s, j + off) == Some(a + off) && EntryEnd(key, spaced, code, s, j + off) == ValueEnd(code, s, a + off)
    ensures s[a + off] in PackageText.Quotes && RunEnd(NoneOf(PackageText.Quotes), s, a + off + 1) >= hi + off
  {
    ValueStartAgree(key, spaced, code, t, s, j, hi, off);
    AgreeAt(t, s, j, hi, off, a);
    AgreeFrom(t, s, j, a + 1, hi, off);
    RunEndAgree(NoneOf(PackageText.Quotes), t, s, a + 1, hi, off);
  }

  /** A name entry in the copied text that reached into the replacement would be an entry of the input reaching past the replaced key, whose closing quote is at `z`. */
  lemma NameReach(key: string, spaced: bool, code: bool, s: string, i: nat, m: nat, z: nat, t: string, j: nat)
    requires !code && |key| == 11 && j + 11 <= m - i
    requires i <= m && m + 11 <= z < |s| && s[z] in PackageText.Quotes
    requires Agree(t, s, 0, m - i + 11, i)
    requires Stretch(t, m - i)
    ensures EntryEnd(key, spaced, code, t, j).Some? && EntryEnd(key, spaced, code, t, j).value > m - i ==>
      EntryEnd(key, spaced, code, s, j + i).Some? && EntryEnd(key, spaced, code, s, j + i).value > m + 11
  {
    ReachInCopy(key, spaced, code, t, j, m - i);
    if EntryEnd(key, spaced, code, t, j).Some? && EntryEnd(key, spaced, code, t, j).value > m - i {
      var a := ValueStart(key, spaced, t, j).value;
      AgreeFrom(t, s, 0, j, m - i + 11, i);
      ReachInInput(key, spaced, code, t, s, j, m - i + 11, i, a);
      ClosesLate(s, a + i, m + 11, z);
    }
  }

  /** An entry placed before a stretch leaves room for its key. */
  lemma KeyFits(key: string, spaced: bool, code: bool, t: string, j: nat, c: nat)
    requires KeyShape(key) && j < c && Stretch(t, c)
    ensures EntryEnd(key, spaced, code, t, j).Some? ==> j + 11 <= c
  {
    if EntryEnd(key, spaced, code, t, j).Some? {
      StretchAt(t, c, c);
      KeyBefore(key, t, j, c);
    }
  }

  /** Text copied from `i` to `m`, followed by the 11 characters found at `m`, reads as the input does. */
  lemma CopyAgree(s: string, i: nat, m: nat, w: string)
    requires i <= m && m + 11 <= |s| && 11 <= |w| && w[..11] == s[m..m + 11]
    ensures Agree(s[i..m] + w, s, 0, m - i + 11, i)
  {
    var t := s[i..m] + w;
    forall x | 0 <= x < m - i + 11 ensures At(t, x) == At(s, x + i) {
      if x < m - i {
        assert t[x] == s[i..m][x];
      } else {
        assert t[x] == w[..11][x - (m - i)] == s[m..m + 11][x - (m - i)];
      }
    }
  }

  /** The text copied ahead of a replacement, and the replacement's key, read as the input does. */
  lemma CopiedKeyAgree(key: string, w: string, s: string, i: nat, m: nat)
    requires KeyShape(key) && i <= m && m + 11 <= |s| && s[m..m + 11] == key
    requires 11 <= |w| && w[..11] == key
    ensures var t := s[i..m] + w;
      && Agree(t, s, 0, m - i + 11, i)
      && Stretch(t, m - i)
  {
    var t := s[i..m] + w;
    CopyAgree(s, i, m, w);
    assert t[m - i..m - i + 11] == w[..11];
    KeyStretch(key, t, m - i);
  }

  lemma CopiedAgree(sh: Entry, s: string, i: nat, m: nat, rest: string)
    requires i <= m <= |s| && EntryEnd(Key(sh), IsSpaced(sh), IsCode(sh), s, m).Some?
    ensures var t := s[i..m] + (Value(sh) + rest);
      && Agree(t, s, 0, m - i + 11, i)
      && Stretch(t, m - i)
  {
    var w := Value(sh) + rest;
    ValueLetters(sh);
    KeyLetters(sh);
    assert w[..11] == Value(sh)[..11];
    CopiedKeyAgree(Key(sh), w, s, i, m);
  }

  /** An entry that starts in the text copied ahead of a replacement ends before it. */
  lemma CopiedEnd(key: string, spaced: bool, code: bool, rkey: string, rspaced: bool, rcode: bool, s: string, i: nat, m: nat, e: nat, t: string, j: nat, v: string)
    requires KeyShape(key) && |rkey| == 11 && (rcode ==> code)
    requires i <= m <= |s| && j < m - i
    requires EntryEnd(rkey, rspaced, rcode, s, m) == Some(e) && EntryEnd(rkey, rspaced, rcode, s, j + i).None?
    requires KeptAt(key, spaced, code, rkey, rspaced, rcode, s, j + i, v) && |v| <= 21
    requires Agree(t, s, 0, m - i + 11, i)
    requires Stretch(t, m - i)
    ensures EntryEnd(key, spaced, code, t, j).Some? ==> EntryEnd(key, spaced, code, t, j).value <= m - i
  {
    KeyFits(key, spaced, code, t, j, m - i);
    if EntryEnd(key, spaced, code, t, j).Some? {
      if code {
        StretchAt(t, m - i, m - i);
        CodeBefore(key, spaced, code, t, j, m - i);
      } else {
        QuoteAtEnd(rkey, rspaced, rcode, s, m);
        NameReach(key, spaced, code, s, i, m, e - 1, t, j);
      }
    }
  }

  /** An entry of the input that is not one of the replaced kind reads its value, and so does its copy. */
  lemma CopyReads(key: string, spaced: bool, code: bool, rkey: string, rspaced: bool, rcode: bool, s: string, i: nat, t: string, j: nat, end: nat, v: string)
    requires j + i <= |s| && KeptAt(key, spaced, code, rkey, rspaced, rcode, s, j + i, v)
    requires EntryEnd(key, spaced, code, s, j + i) == Some(end + i) && EntryEnd(rkey, rspaced, rcode, s, j + i).None?
    requires j <= end <= |t| && t[j..end] == s[j + i..end + i]
    ensures t[j..end] == v
  {
  }

  /** An entry that starts and ends in the text copied ahead of a replacement is the input's entry there, so it reads the value already. */
  lemma CopiedWithin(key: string, spaced: bool, code: bool, rkey: string, rspaced: bool, rcode: bool, s: string, i: nat, t: string, j: nat, hi: nat, v: string)
    requires j < hi && Agree(t, s, 0, hi, i)
    requires EntryEnd(key, spaced, code, t, j).Some? ==> EntryEnd(key, spaced, code, t, j).value < hi
    requires j + i <= |s| && KeptAt(key, spaced, code, rkey, rspaced, rcode, s, j + i, v) && EntryEnd(rkey, rspaced, rcode, s, j + i).None?
    ensures EntryEnd(key, spaced, code, t, j).Some? ==> t[j..EntryEnd(key, spaced, code, t, j).value] == v
  {
    AgreeFrom(t, s, 0, j, hi, i);
    EntryAgree(key, spaced, code, t, s, j, hi, i);
    if EntryEnd(key, spaced, code, t, j).Some? {
      var end := EntryEnd(key, spaced, code, t, j).value;
      AgreeSlice(t, s, 0, hi, i, j, end);
      CopyReads(key, spaced, code, rkey, rspaced, rcode, s, i, t, j, end, v);
    }
  }

  /** An entry that starts in the text copied ahead of a replacement is an entry of the input, so it reads the value already. */
  lemma CopiedSite(key: string, spaced: bool, code: bool, rkey: string, rspaced: bool, rcode: bool, s: string, i: nat, m: nat, e: nat, t: string, j: nat, v: string)
    requires KeyShape(key) && |rkey| == 11 && (rcode ==> code)
    requires i <= m <= |s| && EntryEnd(rkey, rspaced, rcode, s, m) == Some(e)
    requires forall p :: i <= p < m ==> EntryEnd(rkey, rspaced, rcode, s, p).None?
    requires KeptFrom(key, spaced, code, rkey, rspaced, rcode, s, i, v) && |v| <= 21
    requires j < m - i
    requires Agree(t, s, 0, m - i + 11, i)
    requires Stretch(t, m - i)
    ensures EntryEnd(key, spaced, code, t, j).Some? ==> t[j..EntryEnd(key, spaced, code, t, j).value] == v
  {
    assert EntryEnd(rkey, rspaced, rcode, s, j + i).None?;
    assert KeptAt(key, spaced, code, rkey, rspaced, rcode, s, j + i, v);
    CopiedEnd(key, spaced, code, rkey, rspaced, rcode, s, i, m, e, t, j, v);
    CopiedWithin(key, spaced, code, rkey, rspaced, rcode, s, i, t, j, m - i + 11, v);
  }

  // ---------------------------------------------------------------------
  // One substitution keeps the entries that read their value
  // ---------------------------------------------------------------------

  /** What the substitution of form `sh` makes of the text from `i` on. */
  function StepFrom(sh: Entry, s: string, i: nat): string
    requires i <= |s|
  {
    PatternsWide();
    SubFrom(PatternOf(sh), Chars(Value(sh)), s, i)
  }

  /** At a match, the substitution puts the value and goes on after the match. */
  lemma LiteralAt(ts: seq<Tok>, v: string, s: string, m: nat, h: Hit)
    requires m <= |s| && MinWidth(ts) >= 1 && Match(ts, s, m) == Some(h)
    ensures SubFrom(ts, Chars(v), s, m) == v + SubFrom(ts, Chars(v), s, h.end)
  {
    SubAt(ts, Chars(v), s, m, h);
    ExpandLiteral(v, s, h);
  }

  lemma SubAt(ts: seq<Tok>, tpl: seq<Piece>, s: string, m: nat, h: Hit)
    requires m <= |s| && MinWidth(ts) >= 1 && Match(ts, s, m) == Some(h)
    ensures SubFrom(ts, tpl, s, m) == Expand(tpl, s, h) + SubFrom(ts, tpl, s, h.end)
  {
  }

  /** Where the pattern is found, the text up to the entry is copied and the entry becomes the value. */
  lemma StepAt(sh: Entry, s: string, i: nat) returns (m: nat, e: nat)
    requires i <= |s| && Search(PatternOf(sh), s, i).Some?
    ensures i <= m < e <= |s| && EntryEnd(Key(sh), IsSpaced(sh), IsCode(sh), s, m) == Some(e)
    ensures forall p :: i <= p < m ==> EntryEnd(Key(sh), IsSpaced(sh), IsCode(sh), s, p).None?
    ensures StepFrom(sh, s, i) == s[i..m] + (Value(sh) + StepFrom(sh, s, e))
  {
    PatternsWide();
    var ts := PatternOf(sh);
    var f := Search(ts, s, i).value;
    m := f.pos;
    e := f.hit.end;
    MatchIsEntry(sh, s, m);
    forall p | i <= p < m ensures EntryEnd(Key(sh), IsSpaced(sh), IsCode(sh), s, p).None? {
      MatchIsEntry(sh, s, p);
    }
    SubCopies(ts, Chars(Value(sh)), s, i);
    LiteralAt(ts, Value(sh), s, m, f.hit);
  }

  /** Where the pattern is found no more, the rest is copied, and no entry of form `sh` is left in it. */
  lemma StepNone(sh: Entry, s: string, i: nat)
    requires i <= |s| && Search(PatternOf(sh), s, i).None?
    ensures StepFrom(sh, s, i) == s[i..]
    ensures forall p :: i <= p <= |s| ==> EntryEnd(Key(sh), IsSpaced(sh), IsCode(sh), s, p).None?
  {
    PatternsWide();
    SubWithoutMatch(PatternOf(sh), Chars(Value(sh)), s, i);
    forall p | i <= p <= |s| ensures EntryEnd(Key(sh), IsSpaced(sh), IsCode(sh), s, p).None? {
      MatchIsEntry(sh, s, p);
    }
  }

  /** What the substitution makes of the text after a code entry does not carry its digits on. */
  lemma RestStart(sh: Entry, s: string, m: nat, e: nat)
    requires m <= |s| && EntryEnd(Key(sh), IsSpaced(sh), IsCode(sh), s, m) == Some(e)
    ensures EndsValue(sh, StepFrom(sh, s, e))
  {
    if IsCode(sh) && e < |s| {
      PatternsWide();
      var ts := PatternOf(sh);
      assert !('0' <= s[e] <= '9');
      var r := Match(ts, s, e);
      if r.Some? {
        LiteralAt(ts, Value(sh), s, e, r.value);
        assert Value(sh)[0] == 'v';
      } else {
        SubSkips(ts, Chars(Value(sh)), s, e);
      }
    }
  }

  /** Every entry of form `q` in `t` reads `v`. */
  ghost predicate Holds(key: string, spaced: bool, code: bool, t: string, v: string)
  {
    forall j :: 0 <= j <= |t| ==> HoldsAt(key, spaced, code, t, j, v)
  }

  /** The entry of form `q` at `j`, if there is one, reads `v`. */
  ghost predicate HoldsAt(key: string, spaced: bool, code: bool, t: string, j: nat, v: string)
    requires j <= |t|
  {
    EntryEnd(key, spaced, code, t, j).Some? ==> t[j..EntryEnd(key, spaced, code, t, j).value] == v
  }

  lemma SliceRight(x: string, y: string, a: nat, b: nat)
    requires a <= b <= |y|
    ensures (x + y)[|x| + a..|x| + b] == y[a..b]
  {
  }

  /** An entry read in `y` reads the same in `x + y`. */
  lemma ShiftHolds(key: string, spaced: bool, code: bool, x: string, y: string, d: nat, v: string)
    requires d <= |y| && HoldsAt(key, spaced, code, y, d, v)
    ensures HoldsAt(key, spaced, code, x + y, |x| + d, v)
  {
    EntryShift(key, spaced, code, x, y, d);
    if EntryEnd(key, spaced, code, y, d).Some? {
      SliceRight(x, y, d, EntryEnd(key, spaced, code, y, d).value);
    }
  }

  /** Text copied unchanged from `i` on keeps its entries. */
  lemma CopiedRest(key: string, spaced: bool, code: bool, rkey: string, rspaced: bool, rcode: bool, s: string, i: nat, v: string)
    requires i <= |s| && KeptFrom(key, spaced, code, rkey, rspaced, rcode, s, i, v)
    requires forall p :: i <= p <= |s| ==> EntryEnd(rkey, rspaced, rcode, s, p).None?
    ensures Holds(key, spaced, code, s[i..], v)
  {
    forall j | 0 <= j <= |s| - i ensures HoldsAt(key, spaced, code, s[i..], j, v) {
      assert KeptAt(key, spaced, code, rkey, rspaced, rcode, s, i + j, v);
      CopiedRestAt(key, spaced, code, rkey, rspaced, rcode, s, i, j, v);
    }
  }

  lemma CopiedRestAt(key: string, spaced: bool, code: bool, rkey: string, rspaced: bool, rcode: bool, s: string, i: nat, j: nat, v: string)
    requires i + j <= |s| && KeptAt(key, spaced, code, rkey, rspaced, rcode, s, i + j, v)
    requires EntryEnd(rkey, rspaced, rcode, s, i + j).None?
    ensures HoldsAt(key, spaced, code, s[i..], j, v)
  {
    assert HoldsAt(key, spaced, code, s, i + j, v);
    DropHolds(key, spaced, code, s, i, j, v);
  }

  /** An entry read in `s` past `i` reads the same in `s[i..]`. */
  lemma DropHolds(key: string, spaced: bool, code: bool, s: string, i: nat, j: nat, v: string)
    requires i + j <= |s| && HoldsAt(key, spaced, code, s, i + j, v)
    ensures HoldsAt(key, spaced, code, s[i..], j, v)
  {
    DropShift(key, spaced, code, s, i, j);
    if EntryEnd(key, spaced, code, s[i..], j).Some? {
      var end := EntryEnd(key, spaced, code, s[i..], j).value;
      assert s[i..][j..end] == s[i + j..i + end];
    }
  }

  lemma DropShift(key: string, spaced: bool, code: bool, s: string, i: nat, j: nat)
    requires i + j <= |s|
    ensures EntryEnd(key, spaced, code, s, i + j) == Shifted(EntryEnd(key, spaced, code, s[i..], j), i)
  {
    var x := s[..i];
    var y := s[i..];
    calc {
      EntryEnd(key, spaced, code, s, i + j);
      { assert s == x + y && i + j == |x| + j; }
      EntryEnd(key, spaced, code, x + y, |x| + j);
      { EntryShift(key, spaced, code, x, y, j); }
      Shifted(EntryEnd(key, spaced, code, y, j), |x|);
    }
  }

  /** An entry of form `q` starting inside a replacement reads its value. */
  lemma ValueHolds(q: Entry, sh: Entry, x: string, rest: string, d: nat)
    requires d < |Value(sh)| && EndsValue(sh, rest)
    ensures HoldsAt(Key(q), IsSpaced(q), IsCode(q), x + (Value(sh) + rest), |x| + d, Value(q))
  {
    InValue(q, sh, rest, d);
    ShiftHolds(Key(q), IsSpaced(q), IsCode(q), x, Value(sh) + rest, d, Value(q));
  }

  /** An entry starting in the rest reads what it read there. */
  lemma RestHolds(key: string, spaced: bool, code: bool, x: string, rest: string, j: nat, v: string)
    requires |x| <= j <= |x| + |rest| && Holds(key, spaced, code, rest, v)
    ensures HoldsAt(key, spaced, code, x + rest, j, v)
  {
    assert HoldsAt(key, spaced, code, rest, j - |x|, v);
    ShiftHolds(key, spaced, code, x, rest, j - |x|, v);
  }

  /** An entry starting in the copied text reads its value. */
  lemma CopyHolds(q: Entry, sh: Entry, s: string, i: nat, m: nat, e: nat, rest: string, j: nat)
    requires IsCode(sh) ==> IsCode(q)
    requires i <= m <= |s| && EntryEnd(Key(sh), IsSpaced(sh), IsCode(sh), s, m) == Some(e)
    requires forall p :: i <= p < m ==> EntryEnd(Key(sh), IsSpaced(sh), IsCode(sh), s, p).None?
    requires KeptFrom(Key(q), IsSpaced(q), IsCode(q), Key(sh), IsSpaced(sh), IsCode(sh), s, i, Value(q))
    requires j < m - i
    ensures HoldsAt(Key(q), IsSpaced(q), IsCode(q), s[i..m] + (Value(sh) + rest), j, Value(q))
  {
    CopiedAgree(sh, s, i, m, rest);
    KeyLetters(q);
    ValueLetters(q);
    CopiedSite(Key(q), IsSpaced(q), IsCode(q), Key(sh), IsSpaced(sh), IsCode(sh), s, i, m, e, s[i..m] + (Value(sh) + rest), j, Value(q));
  }

  /** The text the substitution puts for one entry and what follows it keeps the entries of form `q`. */
  lemma StepHolds(q: Entry, sh: Entry, s: string, i: nat, m: nat, e: nat, rest: string)
    requires IsCode(sh) ==> IsCode(q)
    requires i <= m <= |s| && EntryEnd(Key(sh), IsSpaced(sh), IsCode(sh), s, m) == Some(e)
    requires forall p :: i <= p < m ==> EntryEnd(Key(sh), IsSpaced(sh), IsCode(sh), s, p).None?
    requires KeptFrom(Key(q), IsSpaced(q), IsCode(q), Key(sh), IsSpaced(sh), IsCode(sh), s, i, Value(q))
    requires EndsValue(sh, rest) && Holds(Key(q), IsSpaced(q), IsCode(q), rest, Value(q))
    ensures Holds(Key(q), IsSpaced(q), IsCode(q), s[i..m] + (Value(sh) + rest), Value(q))
  {
    var x := s[i..m];
    var t := x + (Value(sh) + rest);
    CopyRegion(q, sh, s, i, m, e, rest);
    ValueRegion(q, sh, x, rest);
    RestRegion(Key(q), IsSpaced(q), IsCode(q), x, Value(sh), rest, Value(q));
    forall j | 0 <= j <= |t| ensures HoldsAt(Key(q), IsSpaced(q), IsCode(q), t, j, Value(q)) {
      if j < |x| {
        assert HoldsIn(Key(q), IsSpaced(q), IsCode(q), t, 0, |x|, Value(q));
      } else if j < |x| + |Value(sh)| {
        assert HoldsIn(Key(q), IsSpaced(q), IsCode(q), t, |x|, |x| + |Value(sh)|, Value(q));
      }
    }
  }

  /** Every entry of form `q` starting from `lo` to before `hi` reads `v`. */
  ghost predicate HoldsIn(key: string, spaced: bool, code: bool, t: string, lo: nat, hi: nat, v: string)
  {
    hi <= |t| + 1 && forall j :: lo <= j < hi ==> HoldsAt(key, spaced, code, t, j, v)
  }

  lemma CopyRegion(q: Entry, sh: Entry, s: string, i: nat, m: nat, e: nat, rest: string)
    requires IsCode(sh) ==> IsCode(q)
    requires i <= m <= |s| && EntryEnd(Key(sh), IsSpaced(sh), IsCode(sh), s, m) == Some(e)
    requires forall p :: i <= p < m ==> EntryEnd(Key(sh), IsSpaced(sh), IsCode(sh), s, p).None?
    requires KeptFrom(Key(q), IsSpaced(q), IsCode(q), Key(sh), IsSpaced(sh), IsCode(sh), s, i, Value(q))
    ensures HoldsIn(Key(q), IsSpaced(q), IsCode(q), s[i..m] + (Value(sh) + rest), 0, m - i, Value(q))
  {
    forall j | 0 <= j < m - i ensures HoldsAt(Key(q), IsSpaced(q), IsCode(q), s[i..m] + (Value(sh) + rest), j, Value(q)) {
      CopyHolds(q, sh, s, i, m, e, rest, j);
    }
  }

  lemma ValueRegion(q: Entry, sh: Entry, x: string, rest: string)
    requires EndsValue(sh, rest)
    ensures HoldsIn(Key(q), IsSpaced(q), IsCode(q), x + (Value(sh) + rest), |x|, |x| + |Value(sh)|, Value(q))
  {
    forall j | |x| <= j < |x| + |Value(sh)| ensures HoldsAt(Key(q), IsSpaced(q), IsCode(q), x + (Value(sh) + rest), j, Value(q)) {
      ValueHolds(q, sh, x, rest, j - |x|);
    }
  }

  lemma RestRegion(key: string, spaced: bool, code: bool, x: string, w: string, rest: string, v: string)
    requires Holds(key, spaced, code, rest, v)
    ensures forall j :: |x| + |w| <= j <= |x| + |w| + |rest| ==> HoldsAt(key, spaced, code, x + (w + rest), j, v)
  {
    assert x + (w + rest) == (x + w) + rest;
    forall j | |x| + |w| <= j <= |x| + |w| + |rest| ensures HoldsAt(key, spaced, code, (x + w) + rest, j, v) {
      RestHolds(key, spaced, code, x + w, rest, j, v);
    }
  }

  /** Entries of form `q` kept from `i` on stay kept past a later point. */
  lemma KeptLater(key: string, spaced: bool, code: bool, rkey: string, rspaced: bool, rcode: bool, s: string, i: nat, e: nat, v: string)
    requires i <= e && KeptFrom(key, spaced, code, rkey, rspaced, rcode, s, i, v)
    ensures KeptFrom(key, spaced, code, rkey, rspaced, rcode, s, e, v)
  {
    forall p | e <= p <= |s| ensures KeptAt(key, spaced, code, rkey, rspaced, rcode, s, p, v) {
      assert KeptAt(key, spaced, code, rkey, rspaced, rcode, s, p, v);
    }
  }

  /**
   * The substitution of form `sh` leaves every entry of form `q` reading
   * `q`'s value, when every such entry of the input that it does not
   * replace already did, and `sh` is a code entry only if `q` is.
   */
  lemma {:induction false} Keeps(q: Entry, sh: Entry, s: string, i: nat)
    requires i <= |s| && (IsCode(sh) ==> IsCode(q))
    requires KeptFrom(Key(q), IsSpaced(q), IsCode(q), Key(sh), IsSpaced(sh), IsCode(sh), s, i, Value(q))
    ensures Holds(Key(q), IsSpaced(q), IsCode(q), StepFrom(sh, s, i), Value(q))
    decreases |s| - i
  {
    if Search(PatternOf(sh), s, i).None? {
      StepNone(sh, s, i);
      CopiedRest(Key(q), IsSpaced(q), IsCode(q), Key(sh), IsSpaced(sh), IsCode(sh), s, i, Value(q));
    } else {
      var m, e := StepAt(sh, s, i);
      KeptLater(Key(q), IsSpaced(q), IsCode(q), Key(sh), IsSpaced(sh), IsCode(sh), s, i, e, Value(q));
      Keeps(q, sh, s, e);
      RestStart(sh, s, m, e);
      StepHolds(q, sh, s, i, m, e, StepFrom(sh, s, e));
    }
  }

  // ---------------------------------------------------------------------
  // The four substitutions
  // ---------------------------------------------------------------------

  /** Every entry of form `q` in `t` reads `q`'s value. */
  ghost predicate Reads(q: Entry, t: string)
  {
    Holds(Key(q), IsSpaced(q), IsCode(q), t, Value(q))
  }

  /** Four substitutions applied in order. */
  lemma ApplyFour(a: Step, b: Step, c: Step, d: Step, s: string)
    requires StepsWellFormed([a, b, c, d])
    ensures MinWidth(a.pattern) >= 1 && MinWidth(b.pattern) >= 1 && MinWidth(c.pattern) >= 1 && MinWidth(d.pattern) >= 1
    ensures ApplySteps([a, b, c, d], s) ==
      var t1 := Sub(a.pattern, Chars(a.value), s);
      var t2 := Sub(b.pattern, Chars(b.value), t1);
      var t3 := Sub(c.pattern, Chars(c.value), t2);
      Sub(d.pattern, Chars(d.value), t3)
  {
    var st := [a, b, c, d];
    assert st[0] == a && st[1] == b && st[2] == c && st[3] == d;
    assert st[1..] == [b, c, d] && [b, c, d][1..] == [c, d] && [c, d][1..] == [d] && [d][1..] == [];
    var t1 := Sub(a.pattern, Chars(a.value), s);
    var t2 := Sub(b.pattern, Chars(b.value), t1);
    var t3 := Sub(c.pattern, Chars(c.value), t2);
    var t4 := Sub(d.pattern, Chars(d.value), t3);
    assert StepsWellFormed([b, c, d]) && StepsWellFormed([c, d]) && StepsWellFormed([d]);
    assert ApplySteps([d], t3) == ApplySteps([], t4) == t4;
    assert ApplySteps([c, d], t2) == ApplySteps([d], t3);
    assert ApplySteps([b, c, d], t1) == ApplySteps([c, d], t2);
    assert ApplySteps(st, s) == ApplySteps([b, c, d], t1);
  }

  /** The substitution of form `e` over the whole text. */
  lemma StepWhole(e: Entry, s: string)
    ensures MinWidth(StepOf(e).pattern) >= 1
    ensures Sub(StepOf(e).pattern, Chars(StepOf(e).value), s) == StepFrom(e, s, 0)
  {
    PatternsWide();
  }

  /** The reset is the four substitutions in order. */
  lemma ResetSteps(s: string)
    ensures ResetText(s) == StepFrom(AssignedName, StepFrom(SpacedName, StepFrom(AssignedCode, StepFrom(SpacedCode, s, 0), 0), 0), 0)
  {
    ResetStepsWellFormed();
    StepsAre();
    ApplyFour(StepOf(SpacedCode), StepOf(AssignedCode), StepOf(SpacedName), StepOf(AssignedName), s);
    var t1 := StepFrom(SpacedCode, s, 0);
    var t2 := StepFrom(AssignedCode, t1, 0);
    var t3 := StepFrom(SpacedName, t2, 0);
    StepWhole(SpacedCode, s);
    StepWhole(AssignedCode, t1);
    StepWhole(SpacedName, t2);
    StepWhole(AssignedName, t3);
  }

  /** A substitution leaves its own entries reading its value. */
  lemma Establishes(sh: Entry, t: string)
    ensures Reads(sh, StepFrom(sh, t, 0))
  {
    forall p | 0 <= p <= |t| ensures KeptAt(Key(sh), IsSpaced(sh), IsCode(sh), Key(sh), IsSpaced(sh), IsCode(sh), t, p, Value(sh)) {
    }
    Keeps(sh, sh, t, 0);
  }

  /** A later substitution keeps the entries an earlier one settled. */
  lemma Preserves(q: Entry, sh: Entry, t: string)
    requires (IsCode(sh) ==> IsCode(q)) && Reads(q, t)
    ensures Reads(q, StepFrom(sh, t, 0))
  {
    forall p | 0 <= p <= |t| ensures KeptAt(Key(q), IsSpaced(q), IsCode(q), Key(sh), IsSpaced(sh), IsCode(sh), t, p, Value(q)) {
      assert HoldsAt(Key(q), IsSpaced(q), IsCode(q), t, p, Value(q));
    }
    Keeps(q, sh, t, 0);
  }

  /** After the reset, every version entry reads `1` or `1.0.0` in its own form. */
  lemma ResetReads(s: string)
    ensures var r := ResetText(s); Reads(SpacedCode, r) && Reads(AssignedCode, r) && Reads(SpacedName, r) && Reads(AssignedName, r)
  {
    ResetSteps(s);
    var t1 := StepFrom(SpacedCode, s, 0);
    Establishes(SpacedCode, s);
    var t2 := StepFrom(AssignedCode, t1, 0);
    Preserves(SpacedCode, AssignedCode, t1);
    Establishes(AssignedCode, t1);
    var t3 := StepFrom(SpacedName, t2, 0);
    Preserves(SpacedCode, SpacedName, t2);
    Preserves(AssignedCode, SpacedName, t2);
    Establishes(SpacedName, t2);
    Preserves(SpacedCode, AssignedName, t3);
    Preserves(AssignedCode, AssignedName, t3);
    Preserves(SpacedName, AssignedName, t3);
    Establishes(AssignedName, t3);
  }

  /** Entries that read their value are what settles a substitution. */
  lemma ReadsSettled(q: Entry, t: string)
    requires Reads(q, t)
    ensures Settled(StepOf(q), t)
  {
    forall j | 0 <= j < |t| && Match(PatternOf(q), t, j).Some? ensures t[j..Match(PatternOf(q), t, j).value.end] == Value(q) {
      MatchIsEntry(q, t, j);
      assert HoldsAt(Key(q), IsSpaced(q), IsCode(q), t, j, Value(q));
    }
  }

  /** A second reset changes nothing. */
  lemma ResetTwice(s: string)
    ensures ResetText(ResetText(s)) == ResetText(s)
  {
    var r := ResetText(s);
    ResetReads(s);
    ReadsSettled(SpacedCode, r);
    ReadsSettled(AssignedCode, r);
    ReadsSettled(SpacedName, r);
    ReadsSettled(AssignedName, r);
    ResetStepsWellFormed();
    StepsAre();
    SettledFour(StepOf(SpacedCode), StepOf(AssignedCode), StepOf(SpacedName), StepOf(AssignedName), r);
    SettledUnchanged(Steps(), r);
  }

  lemma SettledFour(a: Step, b: Step, c: Step, d: Step, r: string)
    requires Settled(a, r) && Settled(b, r) && Settled(c, r) && Settled(d, r)
    ensures forall k :: 0 <= k < |[a, b, c, d]| ==> Settled([a, b, c, d][k], r)
  {
  }

  /** Running the reset on a project it has already reset writes no file and changes nothing. */
  lemma ResetProjectTwice(t: Tree)
    ensures var r := Rewritten(t, PackageText.IsGradleFile, ResetEdit());
      && Rewritten(r, PackageText.IsGradleFile, ResetEdit()) == r
      && |ChangedFiles(r, PackageText.IsGradleFile, ResetEdit())| == 0
  {
    var r := Rewritten(t, PackageText.IsGradleFile, ResetEdit());
    forall p | p in r && PackageText.IsGradleFile(p) && r[p].File? ensures ResetText(r[p].text) == r[p].text {
      RewrittenShape(t, PackageText.IsGradleFile, ResetEdit());
      ResetAt(t, p);
      if t[p].File? {
        ResetTwice(t[p].text);
      }
    }
    ResetOfSettledProject(r);
  }
}
