/**
 * The dependency extraction loop: every attribute of every registered object, in registry
 * order, either names one reference verbatim or is tokenized with `ref_pattern`. A `Line_`
 * token names a line that the current object uses (a reversed edge), creating an implicit
 * line entry when the line is not registered.
 *
 * The loop is read over a snapshot of the registry. The implicit lines it would insert into
 * `objects_by_type['line']` are returned separately; inserting one while CPython iterates
 * that very dictionary (the current type is `line`), or creating the `line` entry of the
 * outer dictionary (no `line` was registered), makes the next step of the iteration raise
 * "dictionary changed size during iteration", modelled as `Failure(DictionaryChangedSize)`.
 */
module Extraction {
  import opened Wrappers
  import opened OrderedMaps
  import opened Elements
  import opened Tokenizer
  import opened Categorize

  /** `dependencies`: object to the references it makes, in order (a `defaultdict(list)`). */
  type Deps = OMap<seq<string>>

  /** One effect of the loop on `dependencies`. */
  datatype Reference =
    | Uses(owner: string, target: string)               // dependencies[key].append(target)
    | LineUse(line: string, user: string, userTag: string)  // dependencies[line].append(key)

  /** The list a reference appends to, and what it appends. */
  function Owner(a: Reference): string {
    if a.Uses? then a.owner else a.line
  }

  function Target(a: Reference): string {
    if a.Uses? then a.target else a.user
  }

  /** The point attributes that reference another object directly by id. */
  const PointRefAttrs: set<string> := {"firstPoint", "secondPoint", "basePoint", "center", "p1Line", "p2Line", "thirdPoint"}

  /** Attributes whose whole value is one reference rather than a formula to tokenize. */
  predicate IsVerbatim(tag: string, name: string) {
    (tag == "draftBlock" && name == "name") || (tag == "point" && name in PointRefAttrs)
  }

  /** What one match of `ref_pattern` contributes: nothing for a numeric literal, else one reference. */
  function RefAction(tag: string, key: string, ref: string): seq<Reference> {
    if AllDigitsDots(ref) then []
    else if StartsWith(ref, "Line_") then [LineUse(ref, key, tag)]
    else [Uses(key, ref)]
  }

  function RefActions(tag: string, key: string, refs: seq<string>): seq<Reference> {
    if refs == [] then [] else RefActions(tag, key, refs[..|refs| - 1]) + RefAction(tag, key, refs[|refs| - 1])
  }

  /** What one attribute of the object filed under `objects_by_type[tag][key]` contributes. */
  function AttrActions(tag: string, key: string, name: string, value: string): seq<Reference> {
    if name == "implicit" then []
    else if IsVerbatim(tag, name) then
      if value != "" && !AllDigitsDots(value) then [Uses(key, value)] else []
    else RefActions(tag, key, Tokens(value))
  }

  /** The first `n` attributes of an object, in document order. */
  function AttrsActions(tag: string, key: string, a: Attrs, n: nat): seq<Reference>
    requires n <= |a.keys|
  {
    if n == 0 then []
    else AttrsActions(tag, key, a, n - 1) + AttrActions(tag, key, a.keys[n - 1], GetOr(a, a.keys[n - 1], ""))
  }

  /** The first `n` objects of one type, in registration order. */
  function ObjsActions(tag: string, objs: OMap<Attrs>, n: nat): seq<Reference>
    requires n <= |objs.keys|
  {
    if n == 0 then []
    else
      var key := objs.keys[n - 1];
      var attrs := GetOr(objs, key, Empty());
      ObjsActions(tag, objs, n - 1) + AttrsActions(tag, key, attrs, |attrs.keys|)
  }

  /** The first `n` types of the registry, in order of first registration. */
  function TypesActions(reg: ByType, n: nat): seq<Reference>
    requires n <= |reg.keys|
  {
    if n == 0 then []
    else
      var tag := reg.keys[n - 1];
      var objs := Inner(reg, tag);
      TypesActions(reg, n - 1) + ObjsActions(tag, objs, |objs.keys|)
  }

  /** Everything the loop does, in order. */
  function RegActions(reg: ByType): seq<Reference> {
    TypesActions(reg, |reg.keys|)
  }

  /** The `line` entry of the snapshot: whether it exists, and its keys. */
  datatype LineTable = LineTable(present: bool, keys: set<string>)

  function LinesOf(reg: ByType): LineTable {
    if "line" in reg.m then LineTable(true, reg.m["line"].m.Keys) else LineTable(false, {})
  }

  /** What the loop has built so far. */
  datatype State = State(deps: Deps, implicitLines: seq<string>, failed: bool)

  function Init(): State {
    State(Empty(), [], false)
  }

  /** `dependencies[k].append(v)` */
  function Append(deps: Deps, k: string, v: string): (r: Deps)
    ensures GetOr(r, k, []) == GetOr(deps, k, []) + [v]
    ensures forall k' :: k' != k ==> GetOr(r, k', []) == GetOr(deps, k', [])
    ensures forall k' :: k' in r.m <==> k' in deps.m || k' == k
  {
    Put(deps, k, GetOr(deps, k, []) + [v])
  }

  /**
   * One reference. A `Line_` reference that is neither a registered line nor an implicit
   * line created earlier creates one; the iteration then fails if the current type is `line`.
   * Any `Line_` reference fails when the snapshot has no `line` entry, because reading
   * `objects_by_type['line']` from the `defaultdict` creates that entry.
   */
  function Step(lt: LineTable, st: State, a: Reference): State {
    match a
    case Uses(o, t) => st.(deps := Append(st.deps, o, t))
    case LineUse(l, u, tag) =>
      var isNew := l !in lt.keys && l !in st.implicitLines;
      State(Append(st.deps, l, u),
            if isNew then st.implicitLines + [l] else st.implicitLines,
            st.failed || !lt.present || (isNew && tag == "line"))
  }

  function Run(lt: LineTable, st: State, acts: seq<Reference>): State {
    if acts == [] then st else Step(lt, Run(lt, st, acts[..|acts| - 1]), acts[|acts| - 1])
  }

  /** The dependency dictionary stays well-formed. */
  lemma {:induction false} RunValid(lt: LineTable, st: State, acts: seq<Reference>)
    requires Valid(st.deps)
    ensures Valid(Run(lt, st, acts).deps)
  {
    if acts != [] {
      var before := Run(lt, st, acts[..|acts| - 1]);
      RunValid(lt, st, acts[..|acts| - 1]);
      var a := acts[|acts| - 1];
      PutValid(before.deps, Owner(a), GetOr(before.deps, Owner(a), []) + [Target(a)]);
    }
  }

  datatype ExtractError = DictionaryChangedSize

  /** The loop's outcome: the dependency lists and the implicit lines, in order of creation. */
  datatype Extraction = Extraction(deps: Deps, implicitLines: seq<string>)

  /**
   * The loop as written: the snapshot outcome, unless some step inserted into a dictionary
   * while it was being iterated.
   */
  function Extract(reg: ByType): Result<Extraction, ExtractError> {
    var st := Run(LinesOf(reg), Init(), RegActions(reg));
    if st.failed then Failure(DictionaryChangedSize) else Success(Extraction(st.deps, st.implicitLines))
  }

  /**
   * The loop as evidently intended: every reference recorded and the implicit lines collected
   * for insertion once the iteration is over, with no mutation of the dictionaries it iterates.
   */
  function Snapshot(reg: ByType): (r: Extraction)
    ensures Valid(r.deps)
  {
    RunValid(LinesOf(reg), Init(), RegActions(reg));
    var st := Run(LinesOf(reg), Init(), RegActions(reg));
    Extraction(st.deps, st.implicitLines)
  }

  // ---------------------------------------------------------------------------------------
  // Properties of the fold

  lemma {:induction false} RunAppend(lt: LineTable, st: State, a: seq<Reference>, b: seq<Reference>)
    ensures Run(lt, st, a + b) == Run(lt, Run(lt, st, a), b)
    decreases |b|
  {
    if b == [] {
      assert a + b == a;
    } else {
      var b' := b[..|b| - 1];
      assert (a + b)[..|a + b| - 1] == a + b';
      RunAppend(lt, st, a, b');
    }
  }

  /** Every reference appends to one list; only a new unregistered `Line_` reference adds an implicit line. */
  lemma StepParts(lt: LineTable, st: State, a: Reference)
    ensures Step(lt, st, a).deps == Append(st.deps, Owner(a), Target(a))
    ensures Step(lt, st, a).implicitLines ==
      if a.LineUse? && a.line !in lt.keys && a.line !in st.implicitLines then st.implicitLines + [a.line]
      else st.implicitLines
  {
  }

  /** The targets appended to the list of `k`, in order. */
  function TargetsOf(acts: seq<Reference>, k: string): seq<string> {
    if acts == [] then []
    else TargetsOf(acts[..|acts| - 1], k) + (if Owner(acts[|acts| - 1]) == k then [Target(acts[|acts| - 1])] else [])
  }

  predicate HasOwner(acts: seq<Reference>, k: string) {
    exists i :: 0 <= i < |acts| && Owner(acts[i]) == k
  }

  predicate UsesLine(acts: seq<Reference>, l: string) {
    exists i :: 0 <= i < |acts| && acts[i].LineUse? && acts[i].line == l
  }

  lemma HasOwnerSnoc(acts: seq<Reference>, k: string)
    requires acts != []
    ensures HasOwner(acts, k) <==> HasOwner(acts[..|acts| - 1], k) || Owner(acts[|acts| - 1]) == k
  {
    var init := acts[..|acts| - 1];
    if HasOwner(init, k) {
      var i :| 0 <= i < |init| && Owner(init[i]) == k;
      assert acts[i] == init[i];
    }
    if HasOwner(acts, k) && Owner(acts[|acts| - 1]) != k {
      var i :| 0 <= i < |acts| && Owner(acts[i]) == k;
      assert init[i] == acts[i];
    }
  }

  lemma UsesLineSnoc(acts: seq<Reference>, l: string)
    requires acts != []
    ensures UsesLine(acts, l) <==>
      UsesLine(acts[..|acts| - 1], l) || (acts[|acts| - 1].LineUse? && acts[|acts| - 1].line == l)
  {
    var init := acts[..|acts| - 1];
    if UsesLine(init, l) {
      var i :| 0 <= i < |init| && init[i].LineUse? && init[i].line == l;
      assert acts[i] == init[i];
    }
    if UsesLine(acts, l) && !(acts[|acts| - 1].LineUse? && acts[|acts| - 1].line == l) {
      var i :| 0 <= i < |acts| && acts[i].LineUse? && acts[i].line == l;
      assert init[i] == acts[i];
    }
  }

  /** The list of every key is what it was, followed by the targets of that key's references, in order. */
  lemma {:induction false} DepsAreTargets(lt: LineTable, st: State, acts: seq<Reference>, k: string)
    ensures GetOr(Run(lt, st, acts).deps, k, []) == GetOr(st.deps, k, []) + TargetsOf(acts, k)
  {
    if acts != [] {
      DepsAreTargets(lt, st, acts[..|acts| - 1], k);
    }
  }

  /** A key has a list exactly when it had one or some reference appends to it. */
  lemma {:induction false} DepsKeys(lt: LineTable, st: State, acts: seq<Reference>, k: string)
    ensures k in Run(lt, st, acts).deps.m <==> k in st.deps.m || HasOwner(acts, k)
  {
    if acts != [] {
      var init := acts[..|acts| - 1];
      DepsKeys(lt, st, init, k);
      StepParts(lt, Run(lt, st, init), acts[|acts| - 1]);
      HasOwnerSnoc(acts, k);
    }
  }

  /**
   * The implicit lines are the old ones followed by the `Line_` references that name no
   * registered line: each exactly once, and none of them a registered line.
   */
  lemma {:induction false} ImplicitLinesAre(lt: LineTable, st: State, acts: seq<Reference>, l: string)
    ensures l in Run(lt, st, acts).implicitLines <==> l in st.implicitLines || (l !in lt.keys && UsesLine(acts, l))
  {
    if acts != [] {
      var init := acts[..|acts| - 1];
      ImplicitLinesAre(lt, st, init, l);
      StepParts(lt, Run(lt, st, init), acts[|acts| - 1]);
      UsesLineSnoc(acts, l);
    }
  }

  lemma {:induction false} ImplicitLinesDistinct(lt: LineTable, st: State, acts: seq<Reference>)
    requires Distinct(st.implicitLines)
    ensures Distinct(Run(lt, st, acts).implicitLines)
  {
    if acts != [] {
      var init := acts[..|acts| - 1];
      ImplicitLinesDistinct(lt, st, init);
      var s := Run(lt, st, init).implicitLines;
      var a := acts[|acts| - 1];
      if a.LineUse? && a.line !in lt.keys && a.line !in s {
        assert (s + [a.line])[..|s|] == s;
      }
    }
  }

  lemma {:induction false} ImplicitLinesUnregistered(lt: LineTable, st: State, acts: seq<Reference>)
    requires forall i :: 0 <= i < |st.implicitLines| ==> st.implicitLines[i] !in lt.keys
    ensures forall i :: 0 <= i < |Run(lt, st, acts).implicitLines| ==> Run(lt, st, acts).implicitLines[i] !in lt.keys
  {
    if acts != [] {
      ImplicitLinesUnregistered(lt, st, acts[..|acts| - 1]);
    }
  }

  /**
   * Position `i` is where the iteration breaks: a `Line_` reference read from a registry without
   * a `line` entry, or one that creates an implicit line while the `line` objects are iterated.
   */
  predicate RaisesAt(lt: LineTable, st: State, acts: seq<Reference>, i: int) {
    && 0 <= i < |acts|
    && acts[i].LineUse?
    && (|| !lt.present
        || (&& acts[i].userTag == "line"
            && acts[i].line !in lt.keys
            && acts[i].line !in st.implicitLines
            && !UsesLine(acts[..i], acts[i].line)))
  }

  /** The run fails exactly when it had failed already or some reference breaks the iteration. */
  lemma {:induction false} FailsIff(lt: LineTable, st: State, acts: seq<Reference>)
    ensures Run(lt, st, acts).failed <==> st.failed || exists i :: RaisesAt(lt, st, acts, i)
  {
    if acts != [] {
      var init, a := acts[..|acts| - 1], acts[|acts| - 1];
      var n := |acts| - 1;
      FailsIff(lt, st, init);
      assert acts[..n] == init;
      forall i | 0 <= i < n
        ensures RaisesAt(lt, st, acts, i) <==> RaisesAt(lt, st, init, i)
      {
        assert acts[i] == init[i];
        assert acts[..i] == init[..i];
      }
      if a.LineUse? {
        ImplicitLinesAre(lt, st, init, a.line);
      }
      if !(exists i :: RaisesAt(lt, st, init, i)) && RaisesAt(lt, st, acts, n) {
        assert RaisesAt(lt, st, acts, n);
      }
    }
  }

  // ---------------------------------------------------------------------------------------
  // Properties of single attributes

  /** An `implicit` attribute never contributes a reference. */
  lemma ImplicitAttrIgnored(tag: string, key: string, value: string)
    ensures AttrActions(tag, key, "implicit", value) == []
  {
  }

  /**
   * A verbatim attribute contributes at most one reference: its whole value as a dependency
   * of the object, exactly when the value is non-empty and not all digits and dots.
   */
  lemma VerbatimAttr(tag: string, key: string, name: string, value: string)
    requires name != "implicit" && IsVerbatim(tag, name)
    ensures |AttrActions(tag, key, name, value)| <= 1
    ensures |AttrActions(tag, key, name, value)| == 1 <==> value != "" && !AllDigitsDots(value)
    ensures forall i :: 0 <= i < |AttrActions(tag, key, name, value)| ==>
      AttrActions(tag, key, name, value)[i] == Uses(key, value)
  {
  }

  /** The reference one match of `ref_pattern` makes, the numeric filter never firing. */
  function TokenRef(tag: string, key: string, t: string): Reference {
    if StartsWith(t, "Line_") then LineUse(t, key, tag) else Uses(key, t)
  }

  lemma {:induction false} RefActionsOfTokens(tag: string, key: string, refs: seq<string>)
    requires forall i :: 0 <= i < |refs| ==> !AllDigitsDots(refs[i])
    ensures |RefActions(tag, key, refs)| == |refs|
    ensures forall i :: 0 <= i < |refs| ==> RefActions(tag, key, refs)[i] == TokenRef(tag, key, refs[i])
  {
    if refs != [] {
      var init, last := refs[..|refs| - 1], refs[|refs| - 1];
      RefActionsOfTokens(tag, key, init);
      assert RefActions(tag, key, refs) == RefActions(tag, key, init) + [TokenRef(tag, key, last)];
      forall i | 0 <= i < |refs|
        ensures RefActions(tag, key, refs)[i] == TokenRef(tag, key, refs[i])
      {
        if i < |init| { assert init[i] == refs[i]; }
      }
    }
  }

  /**
   * Any other attribute contributes one reference per match, in order of appearance: a `Line_`
   * match makes the object a user of that line, every other match a dependency of the object.
   */
  lemma TokenizedAttr(tag: string, key: string, name: string, value: string)
    requires name != "implicit" && !IsVerbatim(tag, name)
    ensures |AttrActions(tag, key, name, value)| == |Tokens(value)|
    ensures forall i :: 0 <= i < |Tokens(value)| ==> AttrActions(tag, key, name, value)[i] == TokenRef(tag, key, Tokens(value)[i])
  {
    RefActionsOfTokens(tag, key, Tokens(value));
  }

  lemma {:induction false} ObjsActionsAgree(tag: string, a: OMap<Attrs>, b: OMap<Attrs>, n: nat)
    requires n <= |a.keys| && n <= |b.keys|
    requires a.keys[..n] == b.keys[..n]
    requires forall k :: k in a.keys[..n] ==> GetOr(a, k, Empty()) == GetOr(b, k, Empty())
    ensures ObjsActions(tag, a, n) == ObjsActions(tag, b, n)
  {
    if n > 0 {
      assert a.keys[..n - 1] == a.keys[..n][..n - 1] && b.keys[..n - 1] == b.keys[..n][..n - 1];
      ObjsActionsAgree(tag, a, b, n - 1);
      assert a.keys[n - 1] == a.keys[..n][n - 1];
    }
  }

  /**
   * Why the snapshot reading is faithful when CPython does not raise: an implicit line added
   * to a type's dictionary before the loop reaches it is iterated too, but its only attribute
   * is `implicit`, so it contributes no reference.
   */
  lemma ImplicitEntryContributesNothing(tag: string, objs: OMap<Attrs>, l: string)
    requires Valid(objs) && l !in objs.m
    ensures ObjsActions(tag, Put(objs, l, ImplicitAttrs()), |objs.keys| + 1) == ObjsActions(tag, objs, |objs.keys|)
  {
    var objs' := Put(objs, l, ImplicitAttrs());
    var n := |objs.keys|;
    KeysListed(objs);
    assert objs'.keys[..n] == objs.keys[..n];
    ObjsActionsAgree(tag, objs', objs, n);
    assert objs'.keys[n] == l;
    assert AttrsActions(tag, l, ImplicitAttrs(), 1) == [];
  }

  // ---------------------------------------------------------------------------------------
  // The whole loop

  /** Some reference of the loop over `reg` breaks the iteration. */
  predicate Raises(reg: ByType) {
    exists i :: 0 <= i < |RegActions(reg)| && RaisesAt(LinesOf(reg), Init(), RegActions(reg), i)
  }

  /**
   * The loop as written fails exactly when some reference breaks the iteration, and
   * otherwise delivers the snapshot outcome.
   */
  lemma ExtractFails(reg: ByType)
    ensures Extract(reg).Failure? <==> Raises(reg)
    ensures Extract(reg).Success? ==> Extract(reg).value == Snapshot(reg)
  {
    FailsIff(LinesOf(reg), Init(), RegActions(reg));
  }

  /**
   * Every object's dependency list holds the targets of its references in loop order, and
   * the keys with a list are exactly the owners of references.
   */
  lemma SnapshotDeps(reg: ByType, k: string)
    ensures GetOr(Snapshot(reg).deps, k, []) == TargetsOf(RegActions(reg), k)
    ensures k in Snapshot(reg).deps.m <==> HasOwner(RegActions(reg), k)
  {
    DepsAreTargets(LinesOf(reg), Init(), RegActions(reg), k);
    DepsKeys(LinesOf(reg), Init(), RegActions(reg), k);
  }

  /** The implicit lines are the `Line_` references that name no registered line, each once. */
  lemma SnapshotImplicitLines(reg: ByType, l: string)
    ensures Distinct(Snapshot(reg).implicitLines)
    ensures l in Snapshot(reg).implicitLines <==> l !in LinesOf(reg).keys && UsesLine(RegActions(reg), l)
  {
    ImplicitLinesDistinct(LinesOf(reg), Init(), RegActions(reg));
    ImplicitLinesAre(LinesOf(reg), Init(), RegActions(reg), l);
  }

  /** The attributes of a point named `A` whose `length` formula is the line name `Line_A_B`. */
  const LineReferencePoint: Attrs := OMap(["name", "length"], map["name" := "A", "length" := "Line_A_B"])

  /** A pattern document holding that one point and no line. */
  const LineReferencePattern: Element := Element("pattern", Empty(), [Element("point", LineReferencePoint, [])])

  /** The registry the walk builds from that document: the point filed under its name. */
  const LineReferenceRegistry: ByType := OMap(["point"], map["point" := OMap(["A"], map["A" := LineReferencePoint])])

  /** The root has neither `name` nor `id` and is not filed; the point is filed under `A`. */
  lemma LineReferencePatternRegistry()
    ensures Walk(Empty(), LineReferencePattern) == LineReferenceRegistry
  {
    var root := LineReferencePattern;
    var point := root.children[0];
    assert Lookup(root.attrs, "name") == None && Lookup(root.attrs, "id") == None;
    assert Register(Empty(), root) == Empty();
    assert root.children[..0] == [];
    assert WalkSeq(Empty(), root.children) == Walk(Empty(), point);
    assert ElementKey(Empty(), point) == Some("A");
    var inner := Put(Inner(Empty<OMap<Attrs>>(), "point"), "A", LineReferencePoint);
    assert inner.keys == ["A"] && inner.m == map["A" := LineReferencePoint];
    var reg := Put(Empty(), "point", inner);
    assert reg.keys == ["point"] && reg.m == map["point" := inner];
    assert Register(Empty(), point) == reg;
    assert Walk(Empty(), point) == reg;
  }

  /** A tokenized attribute whose whole value is one reference contributes exactly that reference. */
  lemma WholeReferenceAttr(tag: string, key: string, name: string, value: string)
    requires name != "implicit" && !IsVerbatim(tag, name) && IsRefToken(value)
    ensures AttrActions(tag, key, name, value) == [TokenRef(tag, key, value)]
  {
    WholeReference(value);
    assert !AllDigitsDots(Tokens(value)[0]);
    assert RefAction(tag, key, value) == [TokenRef(tag, key, value)];
    assert [value][..0] == [];
    assert RefActions(tag, key, [value]) == RefActions(tag, key, []) + RefAction(tag, key, value);
  }

  /** A `length` formula that is just a line name makes the point a user of that line. */
  lemma LengthNamesLine()
    ensures AttrActions("point", "A", "length", "Line_A_B") == [LineUse("Line_A_B", "A", "point")]
  {
    assert "length" !in PointRefAttrs;
    assert StartsWith("Line_A_B", "Line_");
    WholeReferenceAttr("point", "A", "length", "Line_A_B");
  }

  /** A point's `name` is tokenized like a formula, so a point named `A` records `A` as its own dependency. */
  lemma PointNameIsOwnDependency()
    ensures AttrActions("point", "A", "name", "A") == [Uses("A", "A")]
  {
    assert "name" !in PointRefAttrs;
    assert !StartsWith("A", "Line_");
    WholeReferenceAttr("point", "A", "name", "A");
  }

  /** The point's two attributes in document order: its `name`, then its `length`. */
  lemma LineReferencePointActions()
    ensures AttrsActions("point", "A", LineReferencePoint, 2) == [Uses("A", "A"), LineUse("Line_A_B", "A", "point")]
  {
    var a := LineReferencePoint;
    PointNameIsOwnDependency();
    LengthNamesLine();
    assert a.keys[0] == "name" && GetOr(a, "name", "") == "A";
    assert a.keys[1] == "length" && GetOr(a, "length", "") == "Line_A_B";
    assert AttrsActions("point", "A", a, 1) == [] + AttrActions("point", "A", "name", "A");
  }

  /** The references of that registry: `A` depends on itself, then uses `Line_A_B`. */
  lemma LineReferenceActions()
    ensures RegActions(LineReferenceRegistry) == [Uses("A", "A"), LineUse("Line_A_B", "A", "point")]
  {
    var reg := LineReferenceRegistry;
    var acts := [Uses("A", "A"), LineUse("Line_A_B", "A", "point")];
    LineReferencePointActions();
    var objs := Inner(reg, "point");
    assert objs.keys == ["A"] && GetOr(objs, "A", Empty()) == LineReferencePoint;
    assert |LineReferencePoint.keys| == 2;
    assert ObjsActions("point", objs, 1) == [] + acts;
    assert TypesActions(reg, 1) == [] + ObjsActions("point", objs, 1);
  }

  /** The fold over those two references with no `line` entry in the registry. */
  lemma LineReferenceRun()
    ensures Run(LineTable(false, {}), Init(), [Uses("A", "A"), LineUse("Line_A_B", "A", "point")]) ==
      State(OMap(["A", "Line_A_B"], map["A" := ["A"], "Line_A_B" := ["A"]]), ["Line_A_B"], true)
  {
    var lt := LineTable(false, {});
    var acts := [Uses("A", "A"), LineUse("Line_A_B", "A", "point")];
    assert acts[..1][..0] == [] && acts[..1] == [acts[0]] && acts[..2] == acts;
    var deps1 := Put(Empty(), "A", ["A"]);
    var deps2 := Put(deps1, "Line_A_B", ["A"]);
    assert [] + ["A"] == ["A"];
    assert Run(lt, Init(), acts[..1]) == State(deps1, [], false);
    assert GetOr(deps1, "Line_A_B", []) == [];
    assert Step(lt, State(deps1, [], false), acts[1]) == State(deps2, ["Line_A_B"], true);
    assert deps2 == OMap(["A", "Line_A_B"], map["A" := ["A"], "Line_A_B" := ["A"]]);
  }

  /**
   * Reading `objects_by_type['line']` from the `defaultdict` inserts the `line` entry into the
   * dictionary being iterated, so the loop as written breaks; the snapshot reading records
   * `A` as its own dependency and as a user of `Line_A_B`, and collects that line as implicit.
   */
  lemma LineReferenceWithoutLines()
    ensures Extract(LineReferenceRegistry).Failure?
    ensures Snapshot(LineReferenceRegistry) ==
      Extraction(OMap(["A", "Line_A_B"], map["A" := ["A"], "Line_A_B" := ["A"]]), ["Line_A_B"])
  {
    LineReferenceActions();
    assert LinesOf(LineReferenceRegistry) == LineTable(false, {});
    LineReferenceRun();
  }

  // ---------------------------------------------------------------------------------------
  // The loop itself

  /** `for ref in refs: ...`, the innermost loop. */
  method ExtractRefs(lt: LineTable, st: State, tag: string, key: string, refs: seq<string>) returns (st': State)
    ensures st' == Run(lt, st, RefActions(tag, key, refs))
  {
    var deps, implicitLines, failed := st.deps, st.implicitLines, st.failed;
    for l := 0 to |refs|
      invariant State(deps, implicitLines, failed) == Run(lt, st, RefActions(tag, key, refs[..l]))
    {
      var ref := refs[l];
      ghost var before := State(deps, implicitLines, failed);
      assert refs[..l + 1][..l] == refs[..l];
      RunAppend(lt, st, RefActions(tag, key, refs[..l]), RefAction(tag, key, ref));
      if !AllDigitsDots(ref) {
        if StartsWith(ref, "Line_") {
          if !lt.present {
            failed := true;
          }
          if ref !in lt.keys && ref !in implicitLines {
            implicitLines := implicitLines + [ref];
            if tag == "line" {
              failed := true;
            }
          }
          deps := Append(deps, ref, key);
          assert State(deps, implicitLines, failed) == Step(lt, before, LineUse(ref, key, tag));
        } else {
          deps := Append(deps, key, ref);
          assert State(deps, implicitLines, failed) == Step(lt, before, Uses(key, ref));
        }
      }
    }
    assert refs[..|refs|] == refs;
    st' := State(deps, implicitLines, failed);
  }

  /** One attribute: `implicit` is skipped, verbatim values are appended whole, the rest tokenized. */
  method ExtractAttr(lt: LineTable, st: State, tag: string, key: string, name: string, value: string)
    returns (st': State)
    ensures st' == Run(lt, st, AttrActions(tag, key, name, value))
  {
    if name == "implicit" {
      st' := st;
    } else if IsVerbatim(tag, name) {
      if value != "" && !AllDigitsDots(value) {
        st' := st.(deps := Append(st.deps, key, value));
        assert [Uses(key, value)][..0] == [];
      } else {
        st' := st;
      }
    } else {
      var refs := Tokens(value);
      st' := ExtractRefs(lt, st, tag, key, refs);
    }
  }

  /** `for attr_name, attr_value in attrs.items(): ...` */
  method ExtractObject(lt: LineTable, st: State, tag: string, key: string, attrs: Attrs) returns (st': State)
    ensures st' == Run(lt, st, AttrsActions(tag, key, attrs, |attrs.keys|))
  {
    st' := st;
    for i := 0 to |attrs.keys|
      invariant st' == Run(lt, st, AttrsActions(tag, key, attrs, i))
    {
      var attrName := attrs.keys[i];
      var attrValue := GetOr(attrs, attrName, "");
      RunAppend(lt, st, AttrsActions(tag, key, attrs, i), AttrActions(tag, key, attrName, attrValue));
      st' := ExtractAttr(lt, st', tag, key, attrName, attrValue);
    }
  }

  /** `for key, attrs in objs.items(): ...` */
  method ExtractType(lt: LineTable, st: State, tag: string, objs: OMap<Attrs>) returns (st': State)
    ensures st' == Run(lt, st, ObjsActions(tag, objs, |objs.keys|))
  {
    st' := st;
    for i := 0 to |objs.keys|
      invariant st' == Run(lt, st, ObjsActions(tag, objs, i))
    {
      var key := objs.keys[i];
      var attrs := GetOr(objs, key, Empty());
      RunAppend(lt, st, ObjsActions(tag, objs, i), AttrsActions(tag, key, attrs, |attrs.keys|));
      st' := ExtractObject(lt, st', tag, key, attrs);
    }
  }

  /** The extraction loop over `objects_by_type.items()`, read over the registry `reg`. */
  method ExtractDependencies(reg: ByType) returns (r: Result<Extraction, ExtractError>)
    ensures r == Extract(reg)
  {
    var st := ExtractTypes(reg);
    if st.failed {
      r := Failure(DictionaryChangedSize);
    } else {
      r := Success(Extraction(st.deps, st.implicitLines));
    }
  }

  lemma RunTypesStep(lt: LineTable, reg: ByType, i: nat)
    requires i < |reg.keys|
    ensures var objs := Inner(reg, reg.keys[i]);
      Run(lt, Init(), TypesActions(reg, i + 1)) ==
      Run(lt, Run(lt, Init(), TypesActions(reg, i)), ObjsActions(reg.keys[i], objs, |objs.keys|))
  {
    var objs := Inner(reg, reg.keys[i]);
    RunAppend(lt, Init(), TypesActions(reg, i), ObjsActions(reg.keys[i], objs, |objs.keys|));
  }

  /** The loop body over every type, before its outcome is inspected. */
  method ExtractTypes(reg: ByType) returns (st: State)
    ensures st == Run(LinesOf(reg), Init(), RegActions(reg))
  {
    var lt := LinesOf(reg);
    st := Init();
    for i := 0 to |reg.keys|
      invariant st == Run(lt, Init(), TypesActions(reg, i))
    {
      var objType := reg.keys[i];
      var objs := Inner(reg, objType);
      RunTypesStep(lt, reg, i);
      st := ExtractType(lt, st, objType, objs);
    }
  }
}
