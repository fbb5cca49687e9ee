/**
 * The registry builder: a pre-order walk over the element tree that files every element's
 * attribute map under `objects_by_type[tag][key]`.
 */
module Categorize {
  import opened Wrappers
  import opened OrderedMaps
  import opened Elements

  /** `objects_by_type`: tag to (key to attribute map), both levels insertion-ordered. */
  type ByType = OMap<OMap<Attrs>>

  /** Both levels are well-formed dictionaries (attribute maps are read only through their keys). */
  predicate ValidByType(r: ByType) {
    Valid(r) && forall t :: t in r.m ==> Valid(r.m[t])
  }

  /** `objects_by_type[tag][key]`, if both are present. */
  function Get2(r: ByType, tag: string, key: string): Option<Attrs> {
    if tag in r.m && key in r.m[tag].m then Some(r.m[tag].m[key]) else None
  }

  /** `objects_by_type[tag]`, or a fresh empty dictionary when `tag` has none yet. */
  function Inner(r: ByType, tag: string): OMap<Attrs> {
    GetOr(r, tag, Empty())
  }

  /**
   * `objects_by_type[tag][key] = a`, creating the inner dictionary on first use as
   * `defaultdict(dict)` does.
   */
  function Put2(r: ByType, tag: string, key: string, a: Attrs): ByType {
    Put(r, tag, Put(Inner(r, tag), key, a))
  }

  /** Both levels stay well-formed. */
  lemma Put2Valid(r: ByType, tag: string, key: string, a: Attrs)
    requires ValidByType(r)
    ensures ValidByType(Put2(r, tag, key, a))
  {
    var inner := Inner(r, tag);
    assert Valid(inner) by { if tag !in r.m { assert inner == Empty(); } }
    var inner' := Put(inner, key, a);
    PutValid(inner, key, a);
    PutValid(r, tag, inner');
    var r' := Put(r, tag, inner');
    forall t | t in r'.m
      ensures Valid(r'.m[t])
    {
      if t != tag {
        assert r'.m[t] == r.m[t];
      }
    }
  }

  /** The pair `(tag, key)` now holds `a`; every other pair keeps its entry. */
  lemma Put2Get(r: ByType, tag: string, key: string, a: Attrs, t: string, k: string)
    ensures Get2(Put2(r, tag, key, a), t, k) == if t == tag && k == key then Some(a) else Get2(r, t, k)
  {
    var inner := Inner(r, tag);
    var r' := Put2(r, tag, key, a);
    assert r'.m == r.m[tag := Put(inner, key, a)];
    if t == tag && tag !in r.m {
      assert inner.m == map[];
    }
  }

  lemma AppendExtends(s: seq<string>, x: string)
    ensures s <= s + [x]
  {
    assert (s + [x])[..|s|] == s;
  }

  /**
   * Tags and keys already present keep their positions: the old key lists are prefixes of
   * the new ones, a new tag or key going to the end.
   */
  lemma Put2KeepsPositions(r: ByType, tag: string, key: string, a: Attrs)
    ensures r.keys <= Put2(r, tag, key, a).keys
    ensures forall t :: t in r.m ==> t in Put2(r, tag, key, a).m && r.m[t].keys <= Put2(r, tag, key, a).m[t].keys
  {
    var inner := Inner(r, tag);
    var inner' := Put(inner, key, a);
    var r' := Put2(r, tag, key, a);
    assert r' == Put(r, tag, inner');
    AppendExtends(r.keys, tag);
    forall t | t in r.m
      ensures t in r'.m && r.m[t].keys <= r'.m[t].keys
    {
      if t == tag {
        AppendExtends(inner.keys, key);
      } else {
        assert r'.m[t] == r.m[t];
      }
    }
  }

  /** `objects_by_type.get('point', {})` */
  function Points(r: ByType): OMap<Attrs> {
    GetOr(r, "point", Empty())
  }

  /** The registered point attribute maps, in registration order. */
  function PointValues(points: OMap<Attrs>): seq<Attrs> {
    ValuesOr(points, Empty())
  }

  /** `point_attrs.get('name', default)`: a present name wins even when it is empty. */
  function NameOr(p: Attrs, default: string): string {
    if "name" in p.m then p.m["name"] else default
  }

  /**
   * The names the endpoint scan of a line holds after visiting `pts` in order: a point with
   * id `fid` sets the first name; otherwise (the `elif`) a point with id `sid` sets the second.
   */
  function EndpointNames(pts: seq<Attrs>, fid: string, sid: string): (Option<string>, Option<string>) {
    if pts == [] then (None, None)
    else
      var (n1, n2) := EndpointNames(pts[..|pts| - 1], fid, sid);
      var p := pts[|pts| - 1];
      if Lookup(p, "id") == Some(fid) then (Some(NameOr(p, fid)), n2)
      else if Lookup(p, "id") == Some(sid) then (n1, Some(NameOr(p, sid)))
      else (n1, n2)
  }

  /** `i` is the last position in `pts` of a point whose id is `id`. */
  predicate IsLastWithId(pts: seq<Attrs>, id: string, i: int) {
    && 0 <= i < |pts|
    && Lookup(pts[i], "id") == Some(id)
    && forall j :: i < j < |pts| ==> Lookup(pts[j], "id") != Some(id)
  }

  predicate HasId(pts: seq<Attrs>, id: string) {
    exists i :: 0 <= i < |pts| && Lookup(pts[i], "id") == Some(id)
  }

  /** The key of a line: `Line_<first>_<second>` when both endpoint names are truthy, else its id. */
  function LineKey(points: OMap<Attrs>, a: Attrs): Option<string>
  {
    var fid := Lookup(a, "firstPoint");
    var sid := Lookup(a, "secondPoint");
    if Truthy(fid) && Truthy(sid) then
      var (n1, n2) := EndpointNames(PointValues(points), fid.value, sid.value);
      if Truthy(n1) && Truthy(n2) then Some("Line_" + n1.value + "_" + n2.value)
      else Lookup(a, "id")
    else Lookup(a, "id")
  }

  /** The key `categorize_elements` files an element under, computed against the registry so far. */
  function ElementKey(r: ByType, e: Element): (k: Option<string>)
  {
    if e.tag == "line" then LineKey(Points(r), e.attrs)
    else if Truthy(Lookup(e.attrs, "name")) then Lookup(e.attrs, "name")
    else Lookup(e.attrs, "id")
  }

  /**
   * One element's own registration (not its children): filed under its key when the key is
   * truthy, replacing an earlier entry with the same tag and key; nothing else changes.
   */
  function Register(r: ByType, e: Element): (r': ByType)
  {
    var key := ElementKey(r, e);
    if Truthy(key) then Put2(r, e.tag, key.value, e.attrs) else r
  }

  /** Registration seen through lookups: only the element's own (tag, key) pair changes. */
  lemma RegisterGet(r: ByType, e: Element, t: string, k: string)
    ensures Get2(Register(r, e), t, k) ==
      if Truthy(ElementKey(r, e)) && t == e.tag && k == ElementKey(r, e).value then Some(e.attrs) else Get2(r, t, k)
  {
    var key := ElementKey(r, e);
    if Truthy(key) {
      Put2Get(r, e.tag, key.value, e.attrs, t, k);
    }
  }

  /**
   * A non-line element is filed under its `name` when that is non-empty, else under its `id`
   * when that is non-empty; with neither it is not registered at all.
   */
  lemma NonLineRegistration(r: ByType, e: Element)
    requires e.tag != "line"
    ensures Truthy(Lookup(e.attrs, "name")) ==>
      Get2(Register(r, e), e.tag, Lookup(e.attrs, "name").value) == Some(e.attrs)
    ensures !Truthy(Lookup(e.attrs, "name")) && Truthy(Lookup(e.attrs, "id")) ==>
      Get2(Register(r, e), e.tag, Lookup(e.attrs, "id").value) == Some(e.attrs)
    ensures !Truthy(Lookup(e.attrs, "name")) && !Truthy(Lookup(e.attrs, "id")) ==> Register(r, e) == r
  {
    var name, id := Lookup(e.attrs, "name"), Lookup(e.attrs, "id");
    if Truthy(name) {
      RegisterGet(r, e, e.tag, name.value);
    } else if Truthy(id) {
      RegisterGet(r, e, e.tag, id.value);
    }
  }

  lemma RegisterValid(r: ByType, e: Element)
    requires ValidByType(r)
    ensures ValidByType(Register(r, e))
  {
    var key := ElementKey(r, e);
    if Truthy(key) {
      Put2Valid(r, e.tag, key.value, e.attrs);
    }
  }

  /** `categorize_elements(e)`: register `e`, then walk its children in document order. */
  function Walk(r: ByType, e: Element): ByType
    decreases e
  {
    WalkSeq(Register(r, e), e.children)
  }

  function WalkSeq(r: ByType, cs: seq<Element>): ByType
    decreases cs
  {
    if cs == [] then r else Walk(WalkSeq(r, cs[..|cs| - 1]), cs[|cs| - 1])
  }

  /** The walk keeps the registry well-formed. */
  lemma {:induction false} WalkValid(r: ByType, e: Element)
    requires ValidByType(r)
    ensures ValidByType(Walk(r, e))
    decreases e
  {
    RegisterValid(r, e);
    WalkSeqValid(Register(r, e), e.children);
  }

  lemma {:induction false} WalkSeqValid(r: ByType, cs: seq<Element>)
    requires ValidByType(r)
    ensures ValidByType(WalkSeq(r, cs))
    decreases cs
  {
    if cs != [] {
      WalkSeqValid(r, cs[..|cs| - 1]);
      WalkValid(WalkSeq(r, cs[..|cs| - 1]), cs[|cs| - 1]);
    }
  }

  /** The elements of a tree in pre-order: each element before its children, children in document order. */
  function PreOrder(e: Element): (s: seq<Element>)
    decreases e
  {
    [e] + PreOrderSeq(e.children)
  }

  function PreOrderSeq(cs: seq<Element>): (s: seq<Element>)
    decreases cs
  {
    if cs == [] then [] else PreOrderSeq(cs[..|cs| - 1]) + PreOrder(cs[|cs| - 1])
  }

  /** Registering the elements of `s` one after another, in order. */
  function RegisterAll(r: ByType, s: seq<Element>): ByType {
    if s == [] then r else Register(RegisterAll(r, s[..|s| - 1]), s[|s| - 1])
  }

  lemma {:induction false} RegisterAllAppend(r: ByType, a: seq<Element>, b: seq<Element>)
    ensures RegisterAll(r, a + b) == RegisterAll(RegisterAll(r, a), b)
    decreases |b|
  {
    if b == [] {
      assert a + b == a;
    } else {
      var b' := b[..|b| - 1];
      assert (a + b)[..|a + b| - 1] == a + b';
      RegisterAllAppend(r, a, b');
    }
  }

  /** The recursive walk registers exactly the pre-order sequence of the tree, one element at a time. */
  lemma {:induction false} WalkIsPreOrder(r: ByType, e: Element)
    ensures Walk(r, e) == RegisterAll(r, PreOrder(e))
    decreases e
  {
    var pre := PreOrderSeq(e.children);
    WalkSeqIsPreOrder(Register(r, e), e.children);
    assert RegisterAll(r, [e]) == Register(r, e) by {
      assert [e][..0] == [];
    }
    RegisterAllAppend(r, [e], pre);
  }

  lemma {:induction false} WalkSeqIsPreOrder(r: ByType, cs: seq<Element>)
    ensures WalkSeq(r, cs) == RegisterAll(r, PreOrderSeq(cs))
    decreases cs
  {
    if cs != [] {
      var init, last := cs[..|cs| - 1], cs[|cs| - 1];
      WalkSeqIsPreOrder(r, init);
      WalkIsPreOrder(WalkSeq(r, init), last);
      RegisterAllAppend(r, PreOrderSeq(init), PreOrder(last));
    }
  }

  /** Some element of `s` is a `point` with attributes `a`. */
  predicate RegisteredPoint(s: seq<Element>, a: Attrs) {
    exists j :: 0 <= j < |s| && s[j].tag == "point" && s[j].attrs == a
  }

  /** A point entry after registering `s` was there before, or is the attributes of a point element of `s`. */
  lemma {:induction false} PointComesFrom(r: ByType, s: seq<Element>, k: string)
    requires Get2(RegisterAll(r, s), "point", k).Some?
    ensures Get2(RegisterAll(r, s), "point", k) == Get2(r, "point", k) ||
      RegisteredPoint(s, Get2(RegisterAll(r, s), "point", k).value)
  {
    if s != [] {
      var init, last := s[..|s| - 1], s[|s| - 1];
      var before := RegisterAll(r, init);
      var v := Get2(RegisterAll(r, s), "point", k).value;
      assert RegisterAll(r, s) == Register(before, last);
      RegisterGet(before, last, "point", k);
      if Get2(RegisterAll(r, s), "point", k) == Get2(before, "point", k) {
        PointComesFrom(r, init, k);
        if RegisteredPoint(init, v) {
          var j :| 0 <= j < |init| && init[j].tag == "point" && init[j].attrs == v;
          assert s[j] == init[j];
        }
      } else {
        assert s[|s| - 1].tag == "point" && s[|s| - 1].attrs == v;
      }
    }
  }

  /**
   * Pre-order consequence: the line at position `i` of a walk is keyed against the points
   * registered before it, so it can only resolve points that come earlier in pre-order.
   */
  lemma LineSeesOnlyEarlierPoints(r: ByType, s: seq<Element>, i: nat, k: string)
    requires i < |s| && s[i].tag == "line"
    ensures RegisterAll(r, s[..i + 1]) == Register(RegisterAll(r, s[..i]), s[i])
    ensures ElementKey(RegisterAll(r, s[..i]), s[i]) == LineKey(Points(RegisterAll(r, s[..i])), s[i].attrs)
    ensures Get2(RegisterAll(r, s[..i]), "point", k).Some? ==>
      Get2(RegisterAll(r, s[..i]), "point", k) == Get2(r, "point", k) ||
      RegisteredPoint(s[..i], Get2(RegisterAll(r, s[..i]), "point", k).value)
  {
    assert s[..i + 1][..i] == s[..i];
    if Get2(RegisterAll(r, s[..i]), "point", k).Some? {
      PointComesFrom(r, s[..i], k);
    }
  }

  /** The scan finds a first name exactly when some registered point has id `fid`. */
  lemma {:induction false} FirstNamePresence(pts: seq<Attrs>, fid: string, sid: string)
    ensures EndpointNames(pts, fid, sid).0.None? <==> !HasId(pts, fid)
  {
    if pts != [] {
      var init, last := pts[..|pts| - 1], pts[|pts| - 1];
      FirstNamePresence(init, fid, sid);
      assert EndpointNames(pts, fid, sid).0 ==
        if Lookup(last, "id") == Some(fid) then Some(NameOr(last, fid)) else EndpointNames(init, fid, sid).0;
      if HasId(init, fid) {
        var i :| 0 <= i < |init| && Lookup(init[i], "id") == Some(fid);
        assert pts[i] == init[i];
      }
      if HasId(pts, fid) && Lookup(last, "id") != Some(fid) {
        var i :| 0 <= i < |pts| && Lookup(pts[i], "id") == Some(fid);
        assert init[i] == pts[i];
      }
    }
  }

  /** Last match wins: the first name comes from the last point whose id is `fid`. */
  lemma {:induction false} FirstNameLastMatch(pts: seq<Attrs>, fid: string, sid: string)
    ensures forall i :: IsLastWithId(pts, fid, i) ==> EndpointNames(pts, fid, sid).0 == Some(NameOr(pts[i], fid))
  {
    if pts != [] {
      var init, last := pts[..|pts| - 1], pts[|pts| - 1];
      FirstNameLastMatch(init, fid, sid);
      assert EndpointNames(pts, fid, sid).0 ==
        if Lookup(last, "id") == Some(fid) then Some(NameOr(last, fid)) else EndpointNames(init, fid, sid).0;
      forall i | IsLastWithId(pts, fid, i) && i < |pts| - 1 ensures IsLastWithId(init, fid, i) {
        assert forall j :: i < j < |init| ==> init[j] == pts[j];
      }
    }
  }

  /**
   * The scan finds a second name exactly when the endpoint ids differ and some registered
   * point has id `sid`: with equal ids the first test of the `elif` claims every such point.
   */
  lemma {:induction false} SecondNamePresence(pts: seq<Attrs>, fid: string, sid: string)
    ensures EndpointNames(pts, fid, sid).1.None? <==> (fid == sid || !HasId(pts, sid))
  {
    if pts != [] {
      var init, last := pts[..|pts| - 1], pts[|pts| - 1];
      SecondNamePresence(init, fid, sid);
      assert EndpointNames(pts, fid, sid).1 ==
        if Lookup(last, "id") == Some(fid) then EndpointNames(init, fid, sid).1
        else if Lookup(last, "id") == Some(sid) then Some(NameOr(last, sid))
        else EndpointNames(init, fid, sid).1;
      if HasId(init, sid) {
        var i :| 0 <= i < |init| && Lookup(init[i], "id") == Some(sid);
        assert pts[i] == init[i];
      }
      if HasId(pts, sid) && Lookup(last, "id") != Some(sid) {
        var i :| 0 <= i < |pts| && Lookup(pts[i], "id") == Some(sid);
        assert init[i] == pts[i];
      }
    }
  }

  /** With distinct endpoint ids, the second name comes from the last point whose id is `sid`. */
  lemma {:induction false} SecondNameLastMatch(pts: seq<Attrs>, fid: string, sid: string)
    requires fid != sid
    ensures forall i :: IsLastWithId(pts, sid, i) ==> EndpointNames(pts, fid, sid).1 == Some(NameOr(pts[i], sid))
  {
    if pts != [] {
      var init, last := pts[..|pts| - 1], pts[|pts| - 1];
      SecondNameLastMatch(init, fid, sid);
      assert EndpointNames(pts, fid, sid).1 ==
        if Lookup(last, "id") == Some(fid) then EndpointNames(init, fid, sid).1
        else if Lookup(last, "id") == Some(sid) then Some(NameOr(last, sid))
        else EndpointNames(init, fid, sid).1;
      forall i | IsLastWithId(pts, sid, i) && i < |pts| - 1 ensures IsLastWithId(init, sid, i) {
        assert forall j :: i < j < |init| ==> init[j] == pts[j];
      }
    }
  }

  /**
   * A line whose two endpoint ids differ and resolve, as last matches among the registered
   * points, to truthy names `n1` and `n2` is keyed `Line_<n1>_<n2>`.
   */
  lemma LineKeyNamed(points: OMap<Attrs>, a: Attrs, i: int, j: int)
    requires Truthy(Lookup(a, "firstPoint")) && Truthy(Lookup(a, "secondPoint"))
    requires Lookup(a, "firstPoint") != Lookup(a, "secondPoint")
    requires IsLastWithId(PointValues(points), Lookup(a, "firstPoint").value, i)
    requires IsLastWithId(PointValues(points), Lookup(a, "secondPoint").value, j)
    requires NameOr(PointValues(points)[i], Lookup(a, "firstPoint").value) != ""
    requires NameOr(PointValues(points)[j], Lookup(a, "secondPoint").value) != ""
    ensures LineKey(points, a) == Some("Line_" + NameOr(PointValues(points)[i], Lookup(a, "firstPoint").value)
                                       + "_" + NameOr(PointValues(points)[j], Lookup(a, "secondPoint").value))
  {
    FirstNameLastMatch(PointValues(points), Lookup(a, "firstPoint").value, Lookup(a, "secondPoint").value);
    SecondNameLastMatch(PointValues(points), Lookup(a, "firstPoint").value, Lookup(a, "secondPoint").value);
  }

  /**
   * Every other line falls back to its `id` (possibly absent): a missing or empty endpoint
   * reference, equal endpoint ids, an endpoint id no registered point has, or a last match
   * whose name is empty.
   */
  lemma LineKeyFallsBack(points: OMap<Attrs>, a: Attrs)
    requires
      || !Truthy(Lookup(a, "firstPoint")) || !Truthy(Lookup(a, "secondPoint"))
      || Lookup(a, "firstPoint") == Lookup(a, "secondPoint")
      || !HasId(PointValues(points), Lookup(a, "firstPoint").value)
      || !HasId(PointValues(points), Lookup(a, "secondPoint").value)
      || (exists i :: IsLastWithId(PointValues(points), Lookup(a, "firstPoint").value, i) &&
                      NameOr(PointValues(points)[i], Lookup(a, "firstPoint").value) == "")
      || (exists i :: IsLastWithId(PointValues(points), Lookup(a, "secondPoint").value, i) &&
                      NameOr(PointValues(points)[i], Lookup(a, "secondPoint").value) == "")
    ensures LineKey(points, a) == Lookup(a, "id")
  {
    if Truthy(Lookup(a, "firstPoint")) && Truthy(Lookup(a, "secondPoint")) {
      var pts, fid, sid := PointValues(points), Lookup(a, "firstPoint").value, Lookup(a, "secondPoint").value;
      FirstNamePresence(pts, fid, sid);
      FirstNameLastMatch(pts, fid, sid);
      SecondNamePresence(pts, fid, sid);
      if fid != sid { SecondNameLastMatch(pts, fid, sid); }
    }
  }

  /** The endpoint scan of `categorize_elements`: one pass over the registered points. */
  method ResolveEndpointNames(points: OMap<Attrs>, fid: string, sid: string)
    returns (firstName: Option<string>, secondName: Option<string>)
    ensures (firstName, secondName) == EndpointNames(PointValues(points), fid, sid)
  {
    var pts := PointValues(points);
    firstName, secondName := None, None;
    for i := 0 to |points.keys|
      invariant (firstName, secondName) == EndpointNames(pts[..i], fid, sid)
    {
      var pointAttrs := GetOr(points, points.keys[i], Empty());
      assert pts[..i + 1][..i] == pts[..i];
      if Lookup(pointAttrs, "id") == Some(fid) {
        firstName := Some(NameOr(pointAttrs, fid));
      } else if Lookup(pointAttrs, "id") == Some(sid) {
        secondName := Some(NameOr(pointAttrs, sid));
      }
    }
    assert pts[..|points.keys|] == pts;
  }

  /** The key computation at the head of `categorize_elements`, against the registry so far. */
  method KeyOf(r: ByType, e: Element) returns (key: Option<string>)
    ensures key == ElementKey(r, e)
  {
    var objId := Lookup(e.attrs, "id");
    var objName := Lookup(e.attrs, "name");
    if e.tag == "line" {
      var firstPointId := Lookup(e.attrs, "firstPoint");
      var secondPointId := Lookup(e.attrs, "secondPoint");
      if Truthy(firstPointId) && Truthy(secondPointId) {
        var firstName, secondName := ResolveEndpointNames(Points(r), firstPointId.value, secondPointId.value);
        if Truthy(firstName) && Truthy(secondName) {
          key := Some("Line_" + firstName.value + "_" + secondName.value);
        } else {
          key := objId;
        }
      } else {
        key := objId;
      }
    } else {
      key := if Truthy(objName) then objName else objId;
    }
  }

  /** `{'implicit': True}`, the attribute map of a line known only from a `Line_` reference. */
  function ImplicitAttrs(): (a: Attrs)
    ensures a.keys == ["implicit"] && a.m == map["implicit" := "True"]
  {
    Put(Empty(), "implicit", "True")
  }

  /** Each of `ls`, in order, filed under `line` with the implicit attribute map. */
  function WithImplicitLines(r: ByType, ls: seq<string>): ByType {
    if ls == [] then r else Put2(WithImplicitLines(r, ls[..|ls| - 1]), "line", ls[|ls| - 1], ImplicitAttrs())
  }

  lemma {:induction false} WithImplicitLinesValid(r: ByType, ls: seq<string>)
    requires ValidByType(r)
    ensures ValidByType(WithImplicitLines(r, ls))
  {
    if ls != [] {
      WithImplicitLinesValid(r, ls[..|ls| - 1]);
      Put2Valid(WithImplicitLines(r, ls[..|ls| - 1]), "line", ls[|ls| - 1], ImplicitAttrs());
    }
  }

  lemma WithImplicitLinesStep(r: ByType, ls: seq<string>, i: nat)
    requires i < |ls|
    ensures WithImplicitLines(r, ls[..i + 1]) == Put2(WithImplicitLines(r, ls[..i]), "line", ls[i], ImplicitAttrs())
  {
    assert ls[..i + 1][..i] == ls[..i];
  }

  /** Membership in a non-empty sequence: in its front, or its last element. */
  lemma InSnoc(ls: seq<string>, k: string)
    requires ls != []
    ensures k in ls <==> k in ls[..|ls| - 1] || k == ls[|ls| - 1]
  {
    assert ls == ls[..|ls| - 1] + [ls[|ls| - 1]];
  }

  /** Every implicit line is a `line` entry with the implicit attribute map; nothing else changes. */
  lemma {:induction false} ImplicitLinesRegistered(r: ByType, ls: seq<string>, t: string, k: string)
    ensures Get2(WithImplicitLines(r, ls), t, k) == if t == "line" && k in ls then Some(ImplicitAttrs()) else Get2(r, t, k)
  {
    if ls != [] {
      var init, last := ls[..|ls| - 1], ls[|ls| - 1];
      Put2Get(WithImplicitLines(r, init), "line", last, ImplicitAttrs(), t, k);
      InSnoc(ls, k);
      if !(t == "line" && k == last) {
        ImplicitLinesRegistered(r, init, t, k);
      }
    }
  }

  /** The module-level `objects_by_type` dictionary and the walk that fills it. */
  class ObjectStore {
    var objectsByType: ByType

    predicate Valid()
      reads this
    {
      ValidByType(objectsByType)
    }

    constructor ()
      ensures Valid() && objectsByType == Empty()
    {
      objectsByType := Empty();
    }

    /** The head of `categorize_elements(e)`: file `e` itself under its key, when that is truthy. */
    method RegisterElement(e: Element)
      requires Valid()
      modifies this
      ensures Valid()
      ensures objectsByType == Register(old(objectsByType), e)
    {
      RegisterValid(objectsByType, e);
      var key := KeyOf(objectsByType, e);
      if Truthy(key) {
        objectsByType := Put2(objectsByType, e.tag, key.value, e.attrs);
      }
    }

    /** `objects_by_type['line'][ref] = {'implicit': True}` for each implicit line, in order of creation. */
    method AddImplicitLines(ls: seq<string>)
      requires Valid()
      modifies this
      ensures Valid()
      ensures objectsByType == WithImplicitLines(old(objectsByType), ls)
    {
      var start := objectsByType;
      WithImplicitLinesValid(start, ls);
      var lines := start;
      for i := 0 to |ls|
        invariant lines == WithImplicitLines(start, ls[..i])
      {
        WithImplicitLinesStep(start, ls, i);
        lines := Put2(lines, "line", ls[i], ImplicitAttrs());
      }
      assert ls[..|ls|] == ls;
      objectsByType := lines;
    }

    /** `categorize_elements(e)` */
    method Categorize(e: Element)
      requires Valid()
      modifies this
      ensures Valid()
      ensures objectsByType == Walk(old(objectsByType), e)
      decreases e
    {
      RegisterElement(e);
      CategorizeChildren(e.children);
    }

    /** `for child in element: categorize_elements(child)` */
    method CategorizeChildren(cs: seq<Element>)
      requires Valid()
      modifies this
      ensures Valid()
      ensures objectsByType == WalkSeq(old(objectsByType), cs)
      decreases cs
    {
      ghost var start := objectsByType;
      for i := 0 to |cs|
        invariant objectsByType == WalkSeq(start, cs[..i])
      {
        WalkSeqValid(start, cs[..i]);
        assert cs[..i + 1][..i] == cs[..i];
        Categorize(cs[i]);
      }
      assert cs[..|cs|] == cs;
      WalkSeqValid(start, cs);
    }
  }
}
