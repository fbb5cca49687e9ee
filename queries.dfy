/**
 * Queries over the dependency map: the transitive closure of one variable, the reverse
 * lookup of the variables that use it, and the scan for keys starting with `#`.
 */
module Queries {
  import opened OrderedMaps
  import opened Elements
  import opened Categorize
  import opened Extraction

  /** `dependencies.get(t, [])`, which never inserts. */
  function Direct(g: Deps, t: string): seq<string> {
    GetOr(g, t, [])
  }

  function Elems(s: seq<string>): set<string> {
    set x | x in s
  }

  /**
   * `find_variable_dependencies(t, g, visited)`: nothing when `t` was visited on the current
   * path; otherwise the direct dependencies of `t` and, for each of them, its closure with
   * `t` added to a copy of the visited set.
   */
  function ClosureFrom(g: Deps, visited: set<string>, t: string): (r: set<string>)
    ensures t in visited || t !in g.m ==> r == {}
    ensures t !in visited ==> Elems(Direct(g, t)) <= r
    decreases g.m.Keys - visited, 0
  {
    if t in visited || t !in g.m then {}
    else Elems(g.m[t]) + UnionClosures(g, visited + {t}, g.m[t])
  }

  /** The union of the closures of `ds`, all from the same visited set. */
  function UnionClosures(g: Deps, visited: set<string>, ds: seq<string>): set<string>
    decreases g.m.Keys - visited, 1, |ds|
  {
    if ds == [] then {}
    else UnionClosures(g, visited, ds[..|ds| - 1]) + ClosureFrom(g, visited, ds[|ds| - 1])
  }

  /** The top-level call, `visited=None`. */
  function Closure(g: Deps, t: string): set<string> {
    ClosureFrom(g, {}, t)
  }

  /** `find_variable_dependencies`, with its loop over the direct dependencies. */
  method FindVariableDependencies(target: string, deps: Deps, visited: set<string>) returns (allDeps: set<string>)
    ensures allDeps == ClosureFrom(deps, visited, target)
    decreases deps.m.Keys - visited
  {
    if target in visited {
      return {};
    }
    var visited' := visited + {target};
    var directDeps := GetOr(deps, target, []);
    allDeps := Elems(directDeps);
    for i := 0 to |directDeps|
      invariant allDeps == Elems(directDeps) + UnionClosures(deps, visited', directDeps[..i])
    {
      assert target in deps.m;
      assert directDeps[..i + 1][..i] == directDeps[..i];
      var indirectDeps := FindVariableDependencies(directDeps[i], deps, visited');
      allDeps := allDeps + indirectDeps;
    }
    assert directDeps[..|directDeps|] == directDeps;
  }

  lemma {:induction false} UnionClosuresHas(g: Deps, visited: set<string>, ds: seq<string>, y: string)
    ensures y in UnionClosures(g, visited, ds) <==> exists i :: 0 <= i < |ds| && y in ClosureFrom(g, visited, ds[i])
  {
    if ds != [] {
      var init := ds[..|ds| - 1];
      UnionClosuresHas(g, visited, init, y);
      if exists i :: 0 <= i < |init| && y in ClosureFrom(g, visited, init[i]) {
        var i :| 0 <= i < |init| && y in ClosureFrom(g, visited, init[i]);
        assert ds[i] == init[i];
      }
      if exists i :: 0 <= i < |ds| && y in ClosureFrom(g, visited, ds[i]) {
        var i :| 0 <= i < |ds| && y in ClosureFrom(g, visited, ds[i]);
        if i < |init| { assert init[i] == ds[i]; }
      }
    }
  }

  // ---------------------------------------------------------------------------------------
  // Reachability

  predicate Edge(g: Deps, a: string, b: string) {
    a in g.m && b in g.m[a]
  }

  /** A walk of one or more edges. */
  predicate IsPath(g: Deps, p: seq<string>) {
    |p| >= 2 && forall i :: 0 <= i < |p| - 1 ==> Edge(g, p[i], p[i + 1])
  }

  ghost predicate Reaches(g: Deps, x: string, y: string) {
    exists p :: IsPath(g, p) && p[0] == x && p[|p| - 1] == y
  }

  predicate NoRepeats(s: seq<string>) {
    forall i, j :: 0 <= i < j < |s| ==> s[i] != s[j]
  }

  /** All nodes of `p` but the last are distinct and outside `visited`. */
  predicate Avoids(p: seq<string>, visited: set<string>)
    requires |p| >= 1
  {
    NoRepeats(p[..|p| - 1]) && forall i :: 0 <= i < |p| - 1 ==> p[i] !in visited
  }

  /** `p` leads from `t` to `y`, and none of its nodes before the last is in `visited`. */
  predicate PathOutside(g: Deps, p: seq<string>, t: string, y: string, visited: set<string>) {
    IsPath(g, p) && p[0] == t && p[|p| - 1] == y && forall i :: 0 <= i < |p| - 1 ==> p[i] !in visited
  }

  /** An edge from an unvisited `t` in front of a path that avoids `visited + {t}`. */
  lemma PrependEdge(g: Deps, visited: set<string>, t: string, u: string, q: seq<string>, y: string)
    requires t !in visited && Edge(g, t, u) && PathOutside(g, q, u, y, visited + {t})
    ensures PathOutside(g, [t] + q, t, y, visited)
  {
    var p := [t] + q;
    assert forall j :: 1 <= j < |p| ==> p[j] == q[j - 1];
    assert Edge(g, p[0], p[1]);
  }

  /** Everything in the closure is reached by a path from `t` that stays out of `visited` until its end. */
  lemma {:induction false} ClosureSound(g: Deps, visited: set<string>, t: string, y: string)
    requires y in ClosureFrom(g, visited, t)
    ensures exists p :: PathOutside(g, p, t, y, visited)
    decreases g.m.Keys - visited, 0
  {
    var ds := g.m[t];
    if y in Elems(ds) {
      var p := [t, y];
      assert PathOutside(g, p, t, y, visited);
    } else {
      var visited' := visited + {t};
      assert y in UnionClosures(g, visited', ds);
      UnionClosuresHas(g, visited', ds, y);
      var i :| 0 <= i < |ds| && y in ClosureFrom(g, visited', ds[i]);
      ClosureSound(g, visited', ds[i], y);
      var q :| PathOutside(g, q, ds[i], y, visited');
      PrependEdge(g, visited, t, ds[i], q, y);
    }
  }

  /** A path from `t` whose nodes before the last are distinct and unvisited ends in the closure. */
  lemma {:induction false} ClosureComplete(g: Deps, visited: set<string>, p: seq<string>)
    requires IsPath(g, p) && Avoids(p, visited)
    ensures p[|p| - 1] in ClosureFrom(g, visited, p[0])
    decreases |p|
  {
    var t, y := p[0], p[|p| - 1];
    assert Edge(g, p[0], p[1]);
    if |p| == 2 {
      assert y in Elems(g.m[t]);
    } else {
      var q := p[1..];
      var visited' := visited + {t};
      assert forall j :: 0 <= j < |q| ==> q[j] == p[j + 1];
      assert IsPath(g, q) by {
        forall j | 0 <= j < |q| - 1 ensures Edge(g, q[j], q[j + 1]) {
          assert Edge(g, p[j + 1], p[j + 2]);
        }
      }
      assert Avoids(q, visited') by {
        var pp, qp := p[..|p| - 1], q[..|q| - 1];
        forall j | 0 <= j < |qp| ensures qp[j] !in visited' {
          assert qp[j] == pp[j + 1] && pp[0] != pp[j + 1];
        }
        forall i, j | 0 <= i < j < |qp| ensures qp[i] != qp[j] {
          assert qp[i] == pp[i + 1] && qp[j] == pp[j + 1];
        }
      }
      ClosureComplete(g, visited', q);
      UnionClosuresHas(g, visited', g.m[t], y);
      assert g.m[t][IndexOf(g.m[t], p[1])] == q[0];
    }
  }

  function IndexOf(s: seq<string>, x: string): (i: nat)
    requires x in s
    ensures i < |s| && s[i] == x
  {
    if s[0] == x then 0 else 1 + IndexOf(s[1..], x)
  }

  /** Cutting out a cycle: any path can be shortened to one whose nodes before the last are distinct. */
  lemma {:induction false} ShortestPath(g: Deps, p: seq<string>)
    requires IsPath(g, p)
    ensures exists q :: IsPath(g, q) && q[0] == p[0] && q[|q| - 1] == p[|p| - 1] && Avoids(q, {})
    decreases |p|
  {
    if !NoRepeats(p[..|p| - 1]) {
      var i, j :| 0 <= i < j < |p| - 1 && p[i] == p[j];
      CutCycle(g, p, i, j);
      ShortestPath(g, p[..i] + p[j..]);
    } else {
      assert Avoids(p, {});
    }
  }

  /** Removing the cycle `p[i..j]` between two visits of the same node leaves a path with the same ends. */
  lemma CutCycle(g: Deps, p: seq<string>, i: nat, j: nat)
    requires IsPath(g, p) && i < j < |p| - 1 && p[i] == p[j]
    ensures var q := p[..i] + p[j..]; IsPath(g, q) && |q| < |p| && q[0] == p[0] && q[|q| - 1] == p[|p| - 1]
  {
    var q := p[..i] + p[j..];
    assert |q| == |p| - (j - i);
    assert forall k :: 0 <= k < i ==> q[k] == p[k];
    assert forall k :: i <= k < |q| ==> q[k] == p[k + (j - i)];
    forall k | 0 <= k < |q| - 1 ensures Edge(g, q[k], q[k + 1]) {
      if k + 1 < i {
        assert Edge(g, p[k], p[k + 1]);
      } else if k + 1 == i {
        assert Edge(g, p[k], p[k + 1]);
      } else {
        assert Edge(g, p[k + (j - i)], p[k + (j - i) + 1]);
      }
    }
  }

  /**
   * With an empty visited set, the closure of `x` is exactly the set of nodes reachable from
   * `x` by a path of one or more edges.
   */
  lemma ClosureIsReachability(g: Deps, x: string, y: string)
    ensures y in Closure(g, x) <==> Reaches(g, x, y)
  {
    if y in Closure(g, x) {
      ClosureSound(g, {}, x, y);
      var p :| PathOutside(g, p, x, y, {});
    }
    if Reaches(g, x, y) {
      var p :| IsPath(g, p) && p[0] == x && p[|p| - 1] == y;
      ShortestPath(g, p);
      var q :| IsPath(g, q) && q[0] == x && q[|q| - 1] == y && Avoids(q, {});
      ClosureComplete(g, {}, q);
    }
  }

  /** A variable is in its own closure exactly when it lies on a cycle. */
  lemma SelfInClosureIffCycle(g: Deps, x: string)
    ensures x in Closure(g, x) <==> Reaches(g, x, x)
  {
    ClosureIsReachability(g, x, x);
  }

  /** Every direct dependency is in the closure. */
  lemma DirectInClosure(g: Deps, x: string, d: string)
    requires x in g.m && d in g.m[x]
    ensures d in Closure(g, x)
  {
    assert d in Elems(Direct(g, x));
  }

  /** Two variables that depend on each other: each closure holds both. */
  lemma MutualDependency()
    ensures Closure(OMap(["A", "B"], map["A" := ["B"], "B" := ["A"]]), "A") == {"A", "B"}
  {
    var g := OMap(["A", "B"], map["A" := ["B"], "B" := ["A"]]);
    assert ClosureFrom(g, {"A", "B"}, "A") == {};
    assert UnionClosures(g, {"A", "B"}, ["A"]) == {};
    assert ClosureFrom(g, {"A"}, "B") == {"A"};
    assert UnionClosures(g, {"A"}, ["B"]) == {"A"};
  }

  // ---------------------------------------------------------------------------------------
  // Reverse lookup

  /** The keys among the first `n` of `deps` whose list contains `target`, in iteration order. */
  function UsersOf(deps: Deps, target: string, n: nat): seq<string>
    requires n <= |deps.keys|
  {
    if n == 0 then []
    else
      var v := deps.keys[n - 1];
      UsersOf(deps, target, n - 1) + (if target in GetOr(deps, v, []) then [v] else [])
  }

  /** `a` is `b` with some elements left out, the rest in order. */
  predicate IsSubsequence(a: seq<string>, b: seq<string>) {
    if b == [] then a == []
    else IsSubsequence(a, b[..|b| - 1]) || (a != [] && a[|a| - 1] == b[|b| - 1] && IsSubsequence(a[..|a| - 1], b[..|b| - 1]))
  }

  /** `find_variables_using_target` */
  method FindVariablesUsingTarget(target: string, deps: Deps) returns (users: seq<string>)
    ensures users == UsersOf(deps, target, |deps.keys|)
  {
    users := [];
    for i := 0 to |deps.keys|
      invariant users == UsersOf(deps, target, i)
    {
      var v := deps.keys[i];
      if target in GetOr(deps, v, []) {
        users := users + [v];
      }
    }
  }

  /** A key is a user exactly when its list contains the target. */
  lemma {:induction false} UsersIff(deps: Deps, target: string, n: nat, v: string)
    requires n <= |deps.keys|
    ensures v in UsersOf(deps, target, n) <==> v in deps.keys[..n] && target in GetOr(deps, v, [])
  {
    if n > 0 {
      UsersIff(deps, target, n - 1, v);
      assert deps.keys[..n] == deps.keys[..n - 1] + [deps.keys[n - 1]];
    }
  }

  lemma {:induction false} UsersInOrder(deps: Deps, target: string, n: nat)
    requires n <= |deps.keys|
    ensures IsSubsequence(UsersOf(deps, target, n), deps.keys[..n])
  {
    if n > 0 {
      UsersInOrder(deps, target, n - 1);
      var u, u' := UsersOf(deps, target, n - 1), UsersOf(deps, target, n);
      var ks := deps.keys[..n];
      assert ks[..|ks| - 1] == deps.keys[..n - 1];
      if u' != u {
        assert u'[..|u'| - 1] == u;
      }
    } else {
      assert deps.keys[..0] == [];
    }
  }

  lemma {:induction false} UsersNoRepeats(deps: Deps, target: string, n: nat)
    requires Valid(deps) && n <= |deps.keys|
    ensures NoRepeats(UsersOf(deps, target, n))
  {
    KeysListed(deps);
    if n > 0 {
      UsersNoRepeats(deps, target, n - 1);
      var v := deps.keys[n - 1];
      UsersIff(deps, target, n - 1, v);
      assert v !in deps.keys[..n - 1];
    }
  }

  /**
   * The reverse lookup inverts the edge lists: `v` is listed exactly when `target` is among
   * its dependencies, each such key once, in the order of `deps`.
   */
  lemma UsersAreInverse(deps: Deps, target: string, v: string)
    requires Valid(deps)
    ensures v in UsersOf(deps, target, |deps.keys|) <==> v in deps.m && target in deps.m[v]
    ensures NoRepeats(UsersOf(deps, target, |deps.keys|))
    ensures IsSubsequence(UsersOf(deps, target, |deps.keys|), deps.keys)
  {
    KeysListed(deps);
    UsersIff(deps, target, |deps.keys|, v);
    UsersNoRepeats(deps, target, |deps.keys|);
    UsersInOrder(deps, target, |deps.keys|);
    assert deps.keys[..|deps.keys|] == deps.keys;
  }

  // ---------------------------------------------------------------------------------------
  // Keys starting with `#`

  /** The `#` keys of one type's first `n` objects, in order. */
  function HashKeysOf(objs: OMap<Attrs>, n: nat): seq<string>
    requires n <= |objs.keys|
  {
    if n == 0 then []
    else HashKeysOf(objs, n - 1) + (if StartsWith(objs.keys[n - 1], "#") then [objs.keys[n - 1]] else [])
  }

  /** The `#` keys of the first `n` types, type by type. */
  function HashKeys(reg: ByType, n: nat): seq<string>
    requires n <= |reg.keys|
  {
    if n == 0 then []
    else
      var objs := Inner(reg, reg.keys[n - 1]);
      HashKeys(reg, n - 1) + HashKeysOf(objs, |objs.keys|)
  }

  /** The scan for `#` variables over every type's keys. */
  method HashVariables(reg: ByType) returns (hashVariables: seq<string>)
    ensures hashVariables == HashKeys(reg, |reg.keys|)
  {
    hashVariables := [];
    for i := 0 to |reg.keys|
      invariant hashVariables == HashKeys(reg, i)
    {
      var objs := GetOr(reg, reg.keys[i], Empty());
      ghost var before := hashVariables;
      for j := 0 to |objs.keys|
        invariant hashVariables == before + HashKeysOf(objs, j)
      {
        var key := objs.keys[j];
        if StartsWith(key, "#") {
          hashVariables := hashVariables + [key];
        }
      }
    }
  }

  lemma {:induction false} HashKeysOfIff(objs: OMap<Attrs>, n: nat, v: string)
    requires n <= |objs.keys|
    ensures v in HashKeysOf(objs, n) <==> StartsWith(v, "#") && v in objs.keys[..n]
  {
    if n > 0 {
      HashKeysOfIff(objs, n - 1, v);
      assert objs.keys[..n] == objs.keys[..n - 1] + [objs.keys[n - 1]];
    }
  }

  /** `v` is a key of one of the first `n` types' dictionaries. */
  predicate KeyOfSomeType(reg: ByType, n: nat, v: string)
    requires n <= |reg.keys|
  {
    exists i :: 0 <= i < n && v in Inner(reg, reg.keys[i]).keys
  }

  /** A name is reported exactly when it starts with `#` and is the key of some registered object. */
  lemma {:induction false} HashKeysIff(reg: ByType, n: nat, v: string)
    requires n <= |reg.keys|
    ensures v in HashKeys(reg, n) <==> StartsWith(v, "#") && KeyOfSomeType(reg, n, v)
  {
    if n > 0 {
      HashKeysIff(reg, n - 1, v);
      var objs := Inner(reg, reg.keys[n - 1]);
      HashKeysOfIff(objs, |objs.keys|, v);
      assert objs.keys[..|objs.keys|] == objs.keys;
    }
  }

  lemma HashVariablesAreHashKeys(reg: ByType, v: string)
    requires ValidByType(reg)
    ensures v in HashKeys(reg, |reg.keys|) <==> StartsWith(v, "#") && exists t :: t in reg.m && v in reg.m[t].m
  {
    KeysListed(reg);
    HashKeysIff(reg, |reg.keys|, v);
    if exists t :: t in reg.m && v in reg.m[t].m {
      var t :| t in reg.m && v in reg.m[t].m;
      var i := IndexOf(reg.keys, t);
      KeysListed(reg.m[t]);
      assert v in Inner(reg, reg.keys[i]).keys;
    }
    if KeyOfSomeType(reg, |reg.keys|, v) {
      var i :| 0 <= i < |reg.keys| && v in Inner(reg, reg.keys[i]).keys;
      KeysListed(reg.m[reg.keys[i]]);
    }
  }
}
