/**
 * backend/utils/firebase.py: the uploaded `google-services.json` is placed
 * wherever the project already has one (outside build output), or else in
 * the three default places of the app module; with both package names
 * given, each placed copy is the parsed JSON with every string value equal
 * to the old package replaced by the new one.
 *
 * Parsing and serialising JSON are not modelled: the upload carries its
 * parse (`None` when `json.load` raises) and `dump` stands for `json.dump`.
 */
module Firebase {
  import opened Wrappers
  import opened Fs
  import opened PackageDirs
  import PackageText
  import ZipTools

  // ---------------------------------------------------------------------
  // The JSON rewrite
  // ---------------------------------------------------------------------

  datatype Json =
    | JNull
    | JBool(b: bool)
    | JNum(literal: string)
    | JStr(s: string)
    | JArr(items: seq<Json>)
    | JObj(members: seq<Member>)

  datatype Member = Member(key: string, value: Json)

  /** What a container slot holds after the rewrite: the new package for the old one, the slot's own rewrite otherwise. */
  function Slot(v: Json, oldPkg: string, newPkg: string): Json
    decreases v, 1
  {
    if v == JStr(oldPkg) then JStr(newPkg) else Updated(v, oldPkg, newPkg)
  }

  /**
   * `_update_package_in_json`'s effect on `data`: every string held directly
   * by an object or an array, at any depth, that equals `oldPkg` becomes
   * `newPkg`. Keys, other scalars and strings that merely contain `oldPkg` stay;
   * a value that is not a container is left alone.
   */
  function Updated(j: Json, oldPkg: string, newPkg: string): Json
    decreases j, 0
  {
    match j
    case JArr(items) => JArr(UpdatedItems(items, oldPkg, newPkg))
    case JObj(ms) => JObj(UpdatedMembers(ms, oldPkg, newPkg))
    case _ => j
  }

  function UpdatedItems(items: seq<Json>, oldPkg: string, newPkg: string): (r: seq<Json>)
    decreases items
  {
    if items == [] then []
    else UpdatedItems(items[..|items| - 1], oldPkg, newPkg) + [Slot(items[|items| - 1], oldPkg, newPkg)]
  }

  function UpdatedMembers(ms: seq<Member>, oldPkg: string, newPkg: string): (r: seq<Member>)
    decreases ms
  {
    if ms == [] then []
    else
      var m := ms[|ms| - 1];
      UpdatedMembers(ms[..|ms| - 1], oldPkg, newPkg) + [Member(m.key, Slot(m.value, oldPkg, newPkg))]
  }

  /** Some container at some depth holds a string equal to `oldPkg` — the flag the function returns. */
  predicate Mentions(j: Json, oldPkg: string)
    decreases j, 0
  {
    match j
    case JArr(items) => exists k :: 0 <= k < |items| && SlotMentions(items[k], oldPkg)
    case JObj(ms) => exists k :: 0 <= k < |ms| && SlotMentions(ms[k].value, oldPkg)
    case _ => false
  }

  predicate SlotMentions(v: Json, oldPkg: string)
    decreases v, 1
  {
    v == JStr(oldPkg) || Mentions(v, oldPkg)
  }

  /**
   * `_update_package_in_json(data, old, new)`: walks each object's values
   * and each array's items, replacing the matching strings and recursing
   * into nested containers, and reports whether any string matched.
   */
  method UpdatePackage(j: Json, oldPkg: string, newPkg: string) returns (j': Json, modified: bool)
    ensures j' == Updated(j, oldPkg, newPkg)
    ensures modified == Mentions(j, oldPkg)
    decreases j, 0
  {
    match j
    case JArr(items) =>
      var out: seq<Json> := [];
      modified := false;
      for i := 0 to |items|
        invariant out == UpdatedItems(items[..i], oldPkg, newPkg)
        invariant modified <==> exists k :: 0 <= k < i && SlotMentions(items[k], oldPkg)
      {
        assert items[..i + 1][..i] == items[..i];
        var v := items[i];
        assert v in items;
        var v', hit := UpdateSlot(v, oldPkg, newPkg);
        out := out + [v'];
        modified := modified || hit;
      }
      assert items[..|items|] == items;
      j' := JArr(out);
    case JObj(ms) =>
      var out: seq<Member> := [];
      modified := false;
      for i := 0 to |ms|
        invariant out == UpdatedMembers(ms[..i], oldPkg, newPkg)
        invariant modified <==> exists k :: 0 <= k < i && SlotMentions(ms[k].value, oldPkg)
      {
        assert ms[..i + 1][..i] == ms[..i];
        var m := ms[i];
        assert m in ms;
        var v', hit := UpdateSlot(m.value, oldPkg, newPkg);
        out := out + [Member(m.key, v')];
        modified := modified || hit;
      }
      assert ms[..|ms|] == ms;
      j' := JObj(out);
    case _ =>
      j', modified := j, false;
  }

  /** One slot of a container: a matching string is replaced, a nested container rewritten. */
  method UpdateSlot(v: Json, oldPkg: string, newPkg: string) returns (v': Json, hit: bool)
    ensures v' == Slot(v, oldPkg, newPkg)
    ensures hit == SlotMentions(v, oldPkg)
    decreases v, 1
  {
    if v == JStr(oldPkg) {
      v', hit := JStr(newPkg), true;
    } else {
      v', hit := UpdatePackage(v, oldPkg, newPkg);
    }
  }

  /** The rewrite keeps every container's length and every key in its place. */
  lemma UpdatedItemsShape(items: seq<Json>, oldPkg: string, newPkg: string)
    ensures |UpdatedItems(items, oldPkg, newPkg)| == |items|
    ensures forall k :: 0 <= k < |items| ==> UpdatedItems(items, oldPkg, newPkg)[k] == Slot(items[k], oldPkg, newPkg)
  {
    if items != [] {
      UpdatedItemsShape(items[..|items| - 1], oldPkg, newPkg);
    }
  }

  lemma UpdatedMembersShape(ms: seq<Member>, oldPkg: string, newPkg: string)
    ensures |UpdatedMembers(ms, oldPkg, newPkg)| == |ms|
    ensures forall k :: 0 <= k < |ms| ==> UpdatedMembers(ms, oldPkg, newPkg)[k] == Member(ms[k].key, Slot(ms[k].value, oldPkg, newPkg))
  {
    if ms != [] {
      UpdatedMembersShape(ms[..|ms| - 1], oldPkg, newPkg);
    }
  }

  /** The JSON with every string blanked out, as a structure without text. */
  function Blank(j: Json): Json
    decreases j
  {
    match j
    case JStr(_) => JStr("")
    case JArr(items) => JArr(seq(|items|, k requires 0 <= k < |items| => Blank(items[k])))
    case JObj(ms) => JObj(seq(|ms|, k requires 0 <= k < |ms| => Member(ms[k].key, Blank(ms[k].value))))
    case _ => j
  }

  /** Only strings change: the keys, numbers, booleans, nulls and every container's shape are those of the input. */
  lemma {:induction false} UpdatedKeepsStructure(j: Json, oldPkg: string, newPkg: string)
    ensures Blank(Updated(j, oldPkg, newPkg)) == Blank(j)
    decreases j, 0
  {
    match j
    case JArr(items) =>
      UpdatedItemsShape(items, oldPkg, newPkg);
      var r := UpdatedItems(items, oldPkg, newPkg);
      forall k | 0 <= k < |items| ensures Blank(r[k]) == Blank(items[k]) {
        assert items[k] in items;
        SlotKeepsStructure(items[k], oldPkg, newPkg);
      }
    case JObj(ms) =>
      UpdatedMembersShape(ms, oldPkg, newPkg);
      var r := UpdatedMembers(ms, oldPkg, newPkg);
      forall k | 0 <= k < |ms| ensures Blank(r[k].value) == Blank(ms[k].value) {
        assert ms[k] in ms;
        SlotKeepsStructure(ms[k].value, oldPkg, newPkg);
      }
    case _ =>
  }

  lemma {:induction false} SlotKeepsStructure(v: Json, oldPkg: string, newPkg: string)
    ensures Blank(Slot(v, oldPkg, newPkg)) == Blank(v)
    decreases v, 1
  {
    if v != JStr(oldPkg) {
      UpdatedKeepsStructure(v, oldPkg, newPkg);
    }
  }

  /** With nothing to replace, the rewrite leaves the JSON as it is. */
  lemma {:induction false} UnmentionedUnchanged(j: Json, oldPkg: string, newPkg: string)
    requires !Mentions(j, oldPkg)
    ensures Updated(j, oldPkg, newPkg) == j
    decreases j, 0
  {
    match j
    case JArr(items) =>
      UpdatedItemsShape(items, oldPkg, newPkg);
      forall k | 0 <= k < |items| ensures Slot(items[k], oldPkg, newPkg) == items[k] {
        assert items[k] in items;
        assert !SlotMentions(items[k], oldPkg);
        SlotUnmentionedUnchanged(items[k], oldPkg, newPkg);
      }
      assert UpdatedItems(items, oldPkg, newPkg) == items;
    case JObj(ms) =>
      UpdatedMembersShape(ms, oldPkg, newPkg);
      forall k | 0 <= k < |ms| ensures Slot(ms[k].value, oldPkg, newPkg) == ms[k].value {
        assert ms[k] in ms;
        assert !SlotMentions(ms[k].value, oldPkg);
        SlotUnmentionedUnchanged(ms[k].value, oldPkg, newPkg);
      }
      assert UpdatedMembers(ms, oldPkg, newPkg) == ms;
    case _ =>
  }

  lemma {:induction false} SlotUnmentionedUnchanged(v: Json, oldPkg: string, newPkg: string)
    requires !SlotMentions(v, oldPkg)
    ensures Slot(v, oldPkg, newPkg) == v
    decreases v, 1
  {
    UnmentionedUnchanged(v, oldPkg, newPkg);
  }

  /** For a real change of name, the function reports a change exactly when the JSON comes out different. */
  lemma {:induction false} ModifiedIffChanged(j: Json, oldPkg: string, newPkg: string)
    requires oldPkg != newPkg
    ensures Mentions(j, oldPkg) <==> Updated(j, oldPkg, newPkg) != j
    decreases j, 0
  {
    if !Mentions(j, oldPkg) {
      UnmentionedUnchanged(j, oldPkg, newPkg);
    } else {
      match j
      case JArr(items) =>
        var k :| 0 <= k < |items| && SlotMentions(items[k], oldPkg);
        UpdatedItemsShape(items, oldPkg, newPkg);
        assert items[k] in items;
        SlotChanged(items[k], oldPkg, newPkg);
        assert UpdatedItems(items, oldPkg, newPkg)[k] != items[k];
      case JObj(ms) =>
        var k :| 0 <= k < |ms| && SlotMentions(ms[k].value, oldPkg);
        UpdatedMembersShape(ms, oldPkg, newPkg);
        assert ms[k] in ms;
        SlotChanged(ms[k].value, oldPkg, newPkg);
        assert UpdatedMembers(ms, oldPkg, newPkg)[k] != ms[k];
    }
  }

  lemma {:induction false} SlotChanged(v: Json, oldPkg: string, newPkg: string)
    requires oldPkg != newPkg && SlotMentions(v, oldPkg)
    ensures Slot(v, oldPkg, newPkg) != v
    decreases v, 1
  {
    if v != JStr(oldPkg) {
      ModifiedIffChanged(v, oldPkg, newPkg);
    }
  }

  /** For a real change of name, no string equal to the old package is left in any container. */
  lemma {:induction false} NoOldLeft(j: Json, oldPkg: string, newPkg: string)
    requires oldPkg != newPkg
    ensures !Mentions(Updated(j, oldPkg, newPkg), oldPkg)
    decreases j, 0
  {
    match j
    case JArr(items) =>
      UpdatedItemsShape(items, oldPkg, newPkg);
      var r := UpdatedItems(items, oldPkg, newPkg);
      forall k | 0 <= k < |r| ensures !SlotMentions(r[k], oldPkg) {
        assert items[k] in items;
        SlotNoOldLeft(items[k], oldPkg, newPkg);
      }
    case JObj(ms) =>
      UpdatedMembersShape(ms, oldPkg, newPkg);
      var r := UpdatedMembers(ms, oldPkg, newPkg);
      forall k | 0 <= k < |r| ensures !SlotMentions(r[k].value, oldPkg) {
        assert ms[k] in ms;
        SlotNoOldLeft(ms[k].value, oldPkg, newPkg);
      }
    case _ =>
  }

  lemma {:induction false} SlotNoOldLeft(v: Json, oldPkg: string, newPkg: string)
    requires oldPkg != newPkg
    ensures !SlotMentions(Slot(v, oldPkg, newPkg), oldPkg)
    decreases v, 1
  {
    if v != JStr(oldPkg) {
      NoOldLeft(v, oldPkg, newPkg);
    }
  }

  /** Rewriting a second time changes nothing. */
  lemma UpdatedIdempotent(j: Json, oldPkg: string, newPkg: string)
    ensures Updated(Updated(j, oldPkg, newPkg), oldPkg, newPkg) == Updated(j, oldPkg, newPkg)
  {
    if oldPkg != newPkg {
      NoOldLeft(j, oldPkg, newPkg);
      UnmentionedUnchanged(Updated(j, oldPkg, newPkg), oldPkg, newPkg);
    } else {
      SameNameUnchanged(j, oldPkg);
    }
  }

  /** Renaming a package to itself leaves the JSON as it is. */
  lemma {:induction false} SameNameUnchanged(j: Json, oldPkg: string)
    ensures Updated(j, oldPkg, oldPkg) == j
    decreases j, 0
  {
    match j
    case JArr(items) =>
      UpdatedItemsShape(items, oldPkg, oldPkg);
      forall k | 0 <= k < |items| ensures Slot(items[k], oldPkg, oldPkg) == items[k] {
        assert items[k] in items;
        if items[k] != JStr(oldPkg) {
          SameNameUnchanged(items[k], oldPkg);
        }
      }
      assert UpdatedItems(items, oldPkg, oldPkg) == items;
    case JObj(ms) =>
      UpdatedMembersShape(ms, oldPkg, oldPkg);
      forall k | 0 <= k < |ms| ensures Slot(ms[k].value, oldPkg, oldPkg) == ms[k].value {
        assert ms[k] in ms;
        if ms[k].value != JStr(oldPkg) {
          SameNameUnchanged(ms[k].value, oldPkg);
        }
      }
      assert UpdatedMembers(ms, oldPkg, oldPkg) == ms;
    case _ =>
  }

  /** Renaming back restores the JSON, as long as it did not already mention the new package. */
  lemma {:induction false} RenameBack(j: Json, oldPkg: string, newPkg: string)
    requires !Mentions(j, newPkg)
    ensures Updated(Updated(j, oldPkg, newPkg), newPkg, oldPkg) == j
    decreases j, 0
  {
    match j
    case JArr(items) =>
      UpdatedItemsShape(items, oldPkg, newPkg);
      var r := UpdatedItems(items, oldPkg, newPkg);
      UpdatedItemsShape(r, newPkg, oldPkg);
      forall k | 0 <= k < |items| ensures Slot(r[k], newPkg, oldPkg) == items[k] {
        assert items[k] in items;
        assert !SlotMentions(items[k], newPkg);
        SlotRenameBack(items[k], oldPkg, newPkg);
      }
      assert UpdatedItems(r, newPkg, oldPkg) == items;
    case JObj(ms) =>
      UpdatedMembersShape(ms, oldPkg, newPkg);
      var r := UpdatedMembers(ms, oldPkg, newPkg);
      UpdatedMembersShape(r, newPkg, oldPkg);
      forall k | 0 <= k < |ms| ensures Slot(r[k].value, newPkg, oldPkg) == ms[k].value {
        assert ms[k] in ms;
        assert !SlotMentions(ms[k].value, newPkg);
        SlotRenameBack(ms[k].value, oldPkg, newPkg);
      }
      assert UpdatedMembers(r, newPkg, oldPkg) == ms;
    case _ =>
  }

  lemma {:induction false} SlotRenameBack(v: Json, oldPkg: string, newPkg: string)
    requires !SlotMentions(v, newPkg)
    ensures Slot(Slot(v, oldPkg, newPkg), newPkg, oldPkg) == v
    decreases v, 1
  {
    if v != JStr(oldPkg) {
      RenameBack(v, oldPkg, newPkg);
      assert Updated(v, oldPkg, newPkg) != JStr(newPkg) by {
        if v.JStr? {
          assert Updated(v, oldPkg, newPkg) == v;
        }
      }
    }
  }

  /** A string that merely contains the old package is not touched, nor is a key equal to it. */
  lemma Examples()
    ensures Updated(JObj([Member("package_name", JStr("com.old.app"))]), "com.old.app", "com.new.app")
         == JObj([Member("package_name", JStr("com.new.app"))])
    ensures Updated(JObj([Member("com.old.app", JStr("com.old.app.debug"))]), "com.old.app", "com.new.app")
         == JObj([Member("com.old.app", JStr("com.old.app.debug"))])
    ensures Updated(JStr("com.old.app"), "com.old.app", "com.new.app") == JStr("com.old.app")
    ensures Updated(JArr([JArr([JStr("a")])]), "a", "b") == JArr([JArr([JStr("b")])])
  {
    var inner := [Member("com.old.app", JStr("com.old.app.debug"))];
    assert UpdatedMembers(inner[..0], "com.old.app", "com.new.app") == [];
    assert JStr("com.old.app.debug") != JStr("com.old.app");
    var leaf := [JStr("a")];
    assert leaf[..0] == [];
    assert UpdatedItems(leaf, "a", "b") == [JStr("b")];
    var outer := [JArr(leaf)];
    assert outer[..0] == [];
    assert Slot(JArr(leaf), "a", "b") == JArr([JStr("b")]);
    assert UpdatedItems(outer, "a", "b") == [JArr([JStr("b")])];
  }

  // ---------------------------------------------------------------------
  // Where the file goes
  // ---------------------------------------------------------------------

  const ConfigName: string := "google-services.json"
  const ConfigExcludedDirs: set<string> := {"build", ".gradle", "outputs"}

  /** The nodes `rglob('google-services.json')` yields. */
  function ConfigNodes(t: Tree): set<Path>
  {
    set p | p in t && p != [] && Name(p) == ConfigName
  }

  predicate OutsideBuildOutput(base: Path, p: Path)
  {
    forall x :: x in ConfigExcludedDirs ==> !HasPart(base, p, x)
  }

  /** The existing copies, in the walk's order, less those inside build output. */
  function KeptExisting(base: Path, order: seq<Path>): (r: seq<Path>)
    ensures forall k :: 0 <= k < |r| ==> r[k] in order && OutsideBuildOutput(base, r[k])
    ensures forall p :: p in order && OutsideBuildOutput(base, p) ==> p in r
  {
    if order == [] then []
    else
      var rest := KeptExisting(base, order[..|order| - 1]);
      var p := order[|order| - 1];
      assert forall q :: q in order ==> q in order[..|order| - 1] || q == p;
      if OutsideBuildOutput(base, p) then rest + [p] else rest
  }

  /** The three default places in a module. */
  function DefaultTargets(m: Path): seq<Path>
  {
    [m + [ConfigName], m + ["src", "debug", ConfigName], m + ["src", "release", ConfigName]]
  }

  /**
   * What the default placement uses for the app module: `app` when it
   * exists; otherwise the folder of the first `build.gradle*` of the walk
   * with `src` beside it, or of the last one when none has; `app` again
   * when there is no `build.gradle*` at all.
   */
  predicate ModuleChoice(t: Tree, order: seq<Path>, m: Path)
    requires forall k :: 0 <= k < |order| ==> order[k] != []
  {
    if ["app"] in t || order == [] then m == ["app"]
    else if exists k :: 0 <= k < |order| && Parent(order[k]) + ["src"] in t then
      exists k :: 0 <= k < |order| && m == Parent(order[k]) && m + ["src"] in t
        && forall j :: 0 <= j < k ==> Parent(order[j]) + ["src"] !in t
    else m == Parent(order[|order| - 1])
  }

  method FirebaseModule(t: Tree, order: seq<Path>) returns (m: Path)
    requires ZipTools.Lists(order, ZipTools.GradleNodes(t))
    ensures forall k :: 0 <= k < |order| ==> order[k] != []
    ensures ModuleChoice(t, order, m)
  {
    assert forall k :: 0 <= k < |order| ==> order[k] in ZipTools.GradleNodes(t);
    m := ["app"];
    if ["app"] !in t {
      var i := 0;
      while i < |order|
        invariant i <= |order|
        invariant forall j :: 0 <= j < i ==> Parent(order[j]) + ["src"] !in t
        invariant i > 0 ==> m == Parent(order[i - 1])
        invariant i == 0 ==> m == ["app"]
      {
        m := Parent(order[i]);
        if m + ["src"] in t {
          return;
        }
        i := i + 1;
      }
    }
  }

  /** The choice is a function of the tree and the walk. */
  lemma ModuleChoiceUnique(t: Tree, order: seq<Path>, m1: Path, m2: Path)
    requires forall k :: 0 <= k < |order| ==> order[k] != []
    requires ModuleChoice(t, order, m1) && ModuleChoice(t, order, m2)
    ensures m1 == m2
  {
    if !(["app"] in t || order == []) && exists k :: 0 <= k < |order| && Parent(order[k]) + ["src"] in t {
      var k1 :| 0 <= k1 < |order| && m1 == Parent(order[k1]) && m1 + ["src"] in t
        && forall j :: 0 <= j < k1 ==> Parent(order[j]) + ["src"] !in t;
      var k2 :| 0 <= k2 < |order| && m2 == Parent(order[k2]) && m2 + ["src"] in t
        && forall j :: 0 <= j < k2 ==> Parent(order[j]) + ["src"] !in t;
      assert !(k1 < k2) && !(k2 < k1);
    }
  }

  // ---------------------------------------------------------------------
  // Placing the file
  // ---------------------------------------------------------------------

  /** The uploaded file: its name, its text, and its parse (`None` when it is not JSON). */
  datatype Upload = Upload(name: string, text: string, parsed: Option<Json>)

  /** Both names given and non-empty: the placed copies are rewritten rather than copied. */
  predicate Renames(oldPkg: string, newPkg: string)
  {
    oldPkg != "" && newPkg != ""
  }

  /**
   * One target: create its folder and every missing ancestor; then either
   * write the rewritten parse, or copy the upload's text (into the target
   * when the target is a directory, as `shutil.copy2` does). The flag says
   * whether the target counts as placed.
   */
  function PlaceOne(t: Tree, target: Path, up: Upload, oldPkg: string, newPkg: string, dump: Json -> string): (r: (Tree, bool))
    requires target != []
    ensures MakeDirs(t, Parent(target)).None? ==> r == (t, false)
    ensures r.1 && Renames(oldPkg, newPkg) ==>
      up.parsed.Some? && r.0 == MakeDirs(t, Parent(target)).value[target := File(dump(Updated(up.parsed.value, oldPkg, newPkg)))]
    ensures r.1 && !Renames(oldPkg, newPkg) ==>
      exists dst :: AtOrBelow(target, dst) && r.0 == MakeDirs(t, Parent(target)).value[dst := File(up.text)]
    ensures !r.1 && MakeDirs(t, Parent(target)).Some? ==> r.0 == MakeDirs(t, Parent(target)).value
  {
    var made := MakeDirs(t, Parent(target));
    if made.None? then (t, false)
    else
      var t1 := made.value;
      if Renames(oldPkg, newPkg) then
        if up.parsed.None? || IsDirAt(t1, target) then (t1, false)
        else (t1[target := File(dump(Updated(up.parsed.value, oldPkg, newPkg)))], true)
      else
        var dst := if IsDirAt(t1, target) then target + [up.name] else target;
        if IsDirAt(t1, dst) then (t1, false)
        else
          assert AtOrBelow(target, dst);
          (t1[dst := File(up.text)], true)
  }

  /**
   * A target with its folder in place and nothing there yet is placed,
   * and holds the rewritten parse or the uploaded text.
   */
  lemma FreshTargetPlaced(t: Tree, target: Path, up: Upload, oldPkg: string, newPkg: string, dump: Json -> string)
    requires target != [] && target !in t
    requires Parent(target) == [] || IsDirAt(t, Parent(target))
    requires Valid(t)
    requires Renames(oldPkg, newPkg) ==> up.parsed.Some?
    ensures PlaceOne(t, target, up, oldPkg, newPkg, dump) == (t[target := File(Content(up, oldPkg, newPkg, dump))], true)
  {
    var d := Parent(target);
    forall k | 1 <= k <= |d| ensures IsDirAt(t, d[..k]) {
      if k < |d| {
        AncestorIsDir(t, d, k);
      } else {
        assert d[..k] == d;
      }
    }
    MakeDirsExisting(t, d);
  }

  /** What a placed copy holds. */
  function Content(up: Upload, oldPkg: string, newPkg: string, dump: Json -> string): string
    requires Renames(oldPkg, newPkg) ==> up.parsed.Some?
  {
    if Renames(oldPkg, newPkg) then dump(Updated(up.parsed.value, oldPkg, newPkg)) else up.text
  }

  /** The targets one after the other, with the placed ones counted. */
  function PlaceAll(t: Tree, targets: seq<Path>, up: Upload, oldPkg: string, newPkg: string, dump: Json -> string): (r: (Tree, nat))
    requires forall k :: 0 <= k < |targets| ==> targets[k] != []
    ensures r.1 <= |targets|
  {
    if targets == [] then (t, 0)
    else
      var prev := PlaceAll(t, targets[..|targets| - 1], up, oldPkg, newPkg, dump);
      var one := PlaceOne(prev.0, targets[|targets| - 1], up, oldPkg, newPkg, dump);
      (one.0, prev.1 + if one.1 then 1 else 0)
  }

  /** The closing log line. */
  datatype Report = Skipped | NothingPlaced | Placed(count: nat)

  /**
   * `replace_google_services`: nothing happens without an upload; the
   * targets are the existing copies outside build output, or the module's
   * three default places when there are none; each is placed in turn.
   */
  method ReplaceGoogleServices(t: Tree, base: Path, upload: Option<Upload>, oldPkg: string, newPkg: string,
                               dump: Json -> string, existing: seq<Path>, gradle: seq<Path>)
    returns (t': Tree, report: Report, targets: seq<Path>)
    requires ZipTools.Lists(existing, ConfigNodes(t))
    requires ZipTools.Lists(gradle, ZipTools.GradleNodes(t))
    ensures upload.None? ==> t' == t && report == Skipped && targets == []
    ensures forall k :: 0 <= k < |gradle| ==> gradle[k] != []
    ensures upload.Some? && KeptExisting(base, existing) != [] ==> targets == KeptExisting(base, existing)
    ensures upload.Some? && KeptExisting(base, existing) == [] ==> exists m :: ModuleChoice(t, gradle, m) && targets == DefaultTargets(m)
    ensures forall k :: 0 <= k < |targets| ==> targets[k] != []
    ensures upload.Some? ==> var r := PlaceAll(t, targets, upload.value, oldPkg, newPkg, dump);
      t' == r.0 && report == (if r.1 == 0 then NothingPlaced else Placed(r.1))
  {
    assert forall k :: 0 <= k < |gradle| ==> gradle[k] in ZipTools.GradleNodes(t);
    if upload.None? {
      return t, Skipped, [];
    }
    var up := upload.value;
    assert forall k :: 0 <= k < |existing| ==> existing[k] in ConfigNodes(t);
    targets := KeptExisting(base, existing);
    if targets == [] {
      var m := FirebaseModule(t, gradle);
      targets := DefaultTargets(m);
    }
    var count;
    t', count := PlaceTargets(t, targets, up, oldPkg, newPkg, dump);
    report := if count == 0 then NothingPlaced else Placed(count);
  }

  /** The loop over the targets, each placement inside its own `try`. */
  method PlaceTargets(t: Tree, targets: seq<Path>, up: Upload, oldPkg: string, newPkg: string, dump: Json -> string)
    returns (t': Tree, count: nat)
    requires forall k :: 0 <= k < |targets| ==> targets[k] != []
    ensures (t', count) == PlaceAll(t, targets, up, oldPkg, newPkg, dump)
  {
    t', count := t, 0;
    for i := 0 to |targets|
      invariant (t', count) == PlaceAll(t, targets[..i], up, oldPkg, newPkg, dump)
    {
      assert targets[..i + 1][..i] == targets[..i];
      var placed;
      t', placed := PlaceStep(t', targets[i], up, oldPkg, newPkg, dump);
      if placed {
        count := count + 1;
      }
    }
    assert targets[..|targets|] == targets;
  }

  /** The body of the `try`: create the folder, then write or copy. */
  method PlaceStep(t: Tree, target: Path, up: Upload, oldPkg: string, newPkg: string, dump: Json -> string)
    returns (t': Tree, placed: bool)
    requires target != []
    ensures (t', placed) == PlaceOne(t, target, up, oldPkg, newPkg, dump)
  {
    var made := MakeDirs(t, Parent(target));
    if made.None? {
      return t, false;
    }
    t' := made.value;
    placed := false;
    if Renames(oldPkg, newPkg) {
      if up.parsed.Some? {
        var data, modified := UpdatePackage(up.parsed.value, oldPkg, newPkg);
        if !IsDirAt(t', target) {
          t', placed := t'[target := File(dump(data))], true;
        }
      }
    } else {
      var dst := if IsDirAt(t', target) then target + [up.name] else target;
      if !IsDirAt(t', dst) {
        t', placed := t'[dst := File(up.text)], true;
      }
    }
  }

  /** A placement never removes or rewrites a directory. */
  lemma PlaceOneKeepsDirs(t: Tree, target: Path, up: Upload, oldPkg: string, newPkg: string, dump: Json -> string, p: Path)
    requires target != [] && IsDirAt(t, p)
    ensures IsDirAt(PlaceOne(t, target, up, oldPkg, newPkg, dump).0, p)
  {
  }

  /** Targets that do not exist yet, each in a folder that does, no two the same. */
  predicate FreshTargets(t: Tree, targets: seq<Path>)
  {
    && (forall k :: 0 <= k < |targets| ==> targets[k] != [] && targets[k] !in t)
    && (forall k :: 0 <= k < |targets| ==> Parent(targets[k]) == [] || IsDirAt(t, Parent(targets[k])))
    && (forall i, j :: 0 <= i < j < |targets| ==> targets[i] != targets[j])
  }

  /** The project with `c` written at every target. */
  ghost predicate WrittenAt(t: Tree, targets: seq<Path>, c: string, r: Tree)
  {
    && (forall p :: p in r <==> p in t || p in targets)
    && (forall p :: p in r ==> r[p] == if p in targets then File(c) else t[p])
  }

  /**
   * When every target is new and its folder exists, every placement
   * succeeds: all targets are counted and each holds the same content,
   * and nothing else changes.
   */
  lemma {:induction false} FreshTargetsPlaced(t: Tree, targets: seq<Path>, up: Upload, oldPkg: string, newPkg: string, dump: Json -> string)
    requires Valid(t) && FreshTargets(t, targets)
    requires Renames(oldPkg, newPkg) ==> up.parsed.Some?
    ensures PlaceAll(t, targets, up, oldPkg, newPkg, dump).1 == |targets|
    ensures WrittenAt(t, targets, Content(up, oldPkg, newPkg, dump), PlaceAll(t, targets, up, oldPkg, newPkg, dump).0)
    decreases |targets|
  {
    if targets != [] {
      var c := Content(up, oldPkg, newPkg, dump);
      var init := targets[..|targets| - 1];
      var x := targets[|targets| - 1];
      FreshPrefix(t, targets);
      FreshTargetsPlaced(t, init, up, oldPkg, newPkg, dump);
      var prev := PlaceAll(t, init, up, oldPkg, newPkg, dump).0;
      WrittenValid(t, init, c, prev);
      assert x !in prev && (Parent(x) == [] || IsDirAt(prev, Parent(x))) by {
        assert x !in init && Parent(x) !in init;
      }
      FreshTargetPlaced(prev, x, up, oldPkg, newPkg, dump);
      WrittenStep(t, targets, c, prev);
    }
  }

  lemma FreshPrefix(t: Tree, targets: seq<Path>)
    requires FreshTargets(t, targets) && targets != []
    ensures FreshTargets(t, targets[..|targets| - 1])
    ensures targets[|targets| - 1] !in targets[..|targets| - 1]
    ensures Parent(targets[|targets| - 1]) !in targets[..|targets| - 1]
  {
  }

  lemma WrittenStep(t: Tree, targets: seq<Path>, c: string, prev: Tree)
    requires targets != [] && WrittenAt(t, targets[..|targets| - 1], c, prev)
    ensures WrittenAt(t, targets, c, prev[targets[|targets| - 1] := File(c)])
  {
    assert forall p :: p in targets <==> p in targets[..|targets| - 1] || p == targets[|targets| - 1];
  }

  /** Files written at fresh targets keep the tree well formed. */
  lemma WrittenValid(t: Tree, targets: seq<Path>, c: string, r: Tree)
    requires Valid(t) && FreshTargets(t, targets) && WrittenAt(t, targets, c, r)
    ensures Valid(r)
  {
    forall p | p in r && |p| > 1 ensures Parent(p) in r && r[Parent(p)].Dir? {
      if p in targets {
        var k :| 0 <= k < |targets| && targets[k] == p;
      }
    }
  }

  /** A rewrite that cannot parse the upload places nothing. */
  lemma UnparsableUploadPlacesNothing(t: Tree, targets: seq<Path>, up: Upload, oldPkg: string, newPkg: string, dump: Json -> string)
    requires forall k :: 0 <= k < |targets| ==> targets[k] != []
    requires Renames(oldPkg, newPkg) && up.parsed.None?
    ensures PlaceAll(t, targets, up, oldPkg, newPkg, dump).1 == 0
    decreases |targets|
  {
    if targets != [] {
      UnparsableUploadPlacesNothing(t, targets[..|targets| - 1], up, oldPkg, newPkg, dump);
    }
  }
}
