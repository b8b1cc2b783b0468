/**
 * `validate_package_name` in backend/main.py: `re.match` of
 * `^[a-z][a-z0-9_]*(\.[a-z][a-z0-9_]*)+$`. The matcher below reads the name
 * left to right in the four positions the pattern can be in; `$` also
 * accepts a single newline at the very end.
 */
module PackageNameCheck {
  import opened ReplTemplate
  import opened PackageDirs

  predicate IsLower(c: char)
  {
    'a' <= c <= 'z'
  }

  /** `[a-z0-9_]` */
  predicate IsSegmentChar(c: char)
  {
    IsLower(c) || ('0' <= c <= '9') || c == '_'
  }

  /** Where the matcher stands: before a segment's first letter, or inside the first or a later segment. */
  datatype Phase = SegmentStart(first: bool) | InSegment(first: bool)

  /** The pattern can end here: inside a segment after the first. */
  predicate Final(p: Phase)
  {
    p == InSegment(false)
  }

  /** The rest of `s` from `i` on completes a match from phase `p`. */
  function MatchFrom(s: string, i: nat, p: Phase): bool
    requires i <= |s|
    decreases |s| - i
  {
    if i == |s| then Final(p)
    else if i == |s| - 1 && s[i] == '\n' then Final(p)
    else
      var c := s[i];
      match p
      case SegmentStart(first) => IsLower(c) && MatchFrom(s, i + 1, InSegment(first))
      case InSegment(first) =>
        if IsSegmentChar(c) then MatchFrom(s, i + 1, p)
        else c == '.' && MatchFrom(s, i + 1, SegmentStart(false))
  }

  function ValidatePackageName(name: string): bool
  {
    MatchFrom(name, 0, SegmentStart(true))
  }

  /**
   * The same language, stated on characters: a lower-case first letter,
   * only `[a-z0-9_.]`, at least one dot, and a lower-case letter right
   * after every dot.
   */
  predicate WellFormedName(b: string)
  {
    && b != [] && IsLower(b[0])
    && (forall k :: 0 <= k < |b| ==> IsSegmentChar(b[k]) || b[k] == '.')
    && (forall k :: 0 <= k < |b| && b[k] == '.' ==> k + 1 < |b| && IsLower(b[k + 1]))
    && '.' in b
  }

  /** What the rest of `s` from `i` must look like for a match from phase `p`. */
  predicate RestFits(b: string, i: nat, p: Phase)
    requires i <= |b|
  {
    && (forall k :: i <= k < |b| ==> IsSegmentChar(b[k]) || b[k] == '.')
    && (forall k :: i <= k < |b| && b[k] == '.' ==> k + 1 < |b| && IsLower(b[k + 1]))
    && (p.SegmentStart? ==> i < |b| && IsLower(b[i]))
    && (p.first ==> '.' in b[i..])
  }

  lemma {:induction false} MatchFromBody(b: string, i: nat, p: Phase)
    requires i <= |b| && '\n' !in b
    ensures MatchFrom(b, i, p) <==> RestFits(b, i, p)
    decreases |b| - i
  {
    if i == |b| {
    } else {
      assert b[i] in b;
      assert b[i..] == [b[i]] + b[i + 1..];
      match p
      case SegmentStart(first) =>
        MatchFromBody(b, i + 1, InSegment(first));
      case InSegment(first) =>
        if IsSegmentChar(b[i]) {
          MatchFromBody(b, i + 1, p);
        } else {
          MatchFromBody(b, i + 1, SegmentStart(false));
        }
    }
  }

  /** A trailing newline is read like the end of the text. */
  lemma {:induction false} MatchFromNewline(b: string, i: nat, p: Phase)
    requires i <= |b| && '\n' !in b
    ensures MatchFrom(b + "\n", i, p) == MatchFrom(b, i, p)
    decreases |b| - i
  {
    var s := b + "\n";
    assert s[|b|] == '\n';
    if i < |b| {
      assert s[i] == b[i] && b[i] in b;
      match p
      case SegmentStart(first) =>
        MatchFromNewline(b, i + 1, InSegment(first));
      case InSegment(first) =>
        MatchFromNewline(b, i + 1, p);
        MatchFromNewline(b, i + 1, SegmentStart(false));
    }
  }

  /**
   * The validator accepts exactly the well-formed names, and those followed
   * by one newline.
   */
  lemma ValidateIff(name: string)
    ensures ValidatePackageName(name) <==>
      (WellFormedName(name) || (name != [] && name[|name| - 1] == '\n' && WellFormedName(name[..|name| - 1])))
  {
    var n := |name|;
    if n > 0 && '\n' in name[..n - 1] {
      var k :| 0 <= k < n - 1 && name[k] == '\n';
      NewlineOnlyLast(name, 0, SegmentStart(true), k);
      assert name[..n - 1][k] == '\n';
    } else if n > 0 && name[n - 1] == '\n' {
      var b := name[..n - 1];
      assert name == b + "\n";
      MatchFromNewline(b, 0, SegmentStart(true));
      MatchFromBody(b, 0, SegmentStart(true));
      assert b[0..] == b;
    } else {
      assert '\n' !in name by {
        if n > 0 {
          assert name == name[..n - 1] + [name[n - 1]];
        }
      }
      MatchFromBody(name, 0, SegmentStart(true));
      assert name[0..] == name;
    }
  }

  /** A newline anywhere but at the very end stops every match. */
  lemma {:induction false} NewlineOnlyLast(s: string, i: nat, p: Phase, k: nat)
    requires i <= k < |s| && s[k] == '\n'
    ensures MatchFrom(s, i, p) ==> k == |s| - 1
    decreases |s| - i
  {
    if i < k {
      match p
      case SegmentStart(first) =>
        NewlineOnlyLast(s, i + 1, InSegment(first), k);
      case InSegment(first) =>
        NewlineOnlyLast(s, i + 1, p, k);
        NewlineOnlyLast(s, i + 1, SegmentStart(false), k);
    }
  }

  /** An accepted name has at least two dot-separated segments, each a lower-case identifier. */
  lemma AcceptedHasSegments(name: string)
    requires ValidatePackageName(name) && '\n' !in name
    ensures NoEmptySegment(name)
    ensures |Segments(name)| >= 2
    ensures forall k :: 0 <= k < |Segments(name)| ==> IsLower(Segments(name)[k][0])
  {
    ValidateIff(name);
    WellFormedSegments(name);
  }

  lemma {:induction false} WellFormedSegments(b: string)
    requires b != [] && IsLower(b[0])
    requires forall k :: 0 <= k < |b| && b[k] == '.' ==> k + 1 < |b| && IsLower(b[k + 1])
    ensures NoEmptySegment(b)
    ensures '.' in b ==> |Segments(b)| >= 2
    ensures |Segments(b)| >= 1
    ensures forall k :: 0 <= k < |Segments(b)| ==> IsLower(Segments(b)[k][0])
    decreases |b|
  {
    var k := IndexOf(b, '.');
    if k < |b| {
      var rest := b[k + 1..];
      assert rest[0] == b[k + 1];
      forall j | 0 <= j < |rest| && rest[j] == '.' ensures j + 1 < |rest| && IsLower(rest[j + 1]) {
        assert b[k + 1 + j] == '.';
      }
      WellFormedSegments(rest);
      assert Segments(b) == [b[..k]] + Segments(rest);
      assert b[..k][0] == b[0];
    } else {
      assert b[..k] == b;
    }
  }

  /**
   * The endpoint's gate: a name the validator refuses ends the request with
   * status 400 before anything is unpacked or rewritten.
   */
  datatype Admission = Rejected(status: int) | Admitted(pkg: string)

  function Admit(name: string): (r: Admission)
    ensures r.Rejected? <==> !ValidatePackageName(name)
    ensures r.Rejected? ==> r.status == 400
    ensures r.Admitted? ==> r.pkg == name
  {
    if !ValidatePackageName(name) then Rejected(400) else Admitted(name)
  }

  lemma Examples()
    ensures ValidatePackageName("co.app")
    ensures ValidatePackageName("a.b\n")
    ensures !ValidatePackageName("com")
    ensures !ValidatePackageName("Co.app")
    ensures !ValidatePackageName("co.a-b")
    ensures !ValidatePackageName("co.1a")
    ensures !ValidatePackageName("co..a")
    ensures !ValidatePackageName("co.a.")
  {
  }
}
