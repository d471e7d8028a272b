/**
 `component_include_directories` of check_negative_consumer_fixtures.py: the memoised resolution of
 the include directories a component hands to its consumers.
 */
module ConsumerFixtures {
  import opened Common
  import opened ComponentGraphs
  import ModuleBoundaries

  datatype Directory = Directory(path: string)

  function Own(own: map<Name, Option<Directory>>, n: Name): Option<Directory> {
    if n in own then own[n] else None
  }

  /** `d` is the include directory of a component that `n` reaches. */
  ghost predicate IsReachable(own: map<Name, Option<Directory>>, g: Graph, n: Name, d: Directory) {
    exists m :: Reaches(g, n, m) && Own(own, m) == Some(d)
  }

  /** The complete answer for `n`: no duplicates, and exactly the reachable directories. */
  ghost predicate IsComplete(own: map<Name, Option<Directory>>, g: Graph, n: Name, r: seq<Directory>) {
    && NoDuplicates(r)
    && forall d :: d in r <==> IsReachable(own, g, n, d)
  }

  /** `b` can be reached from `a` along components outside `seen`. */
  ghost predicate ReachesAvoiding(g: Graph, a: Name, b: Name, seen: set<Name>) {
    exists p :: IsWalkFromTo(g, p, a, b) && SetOf(p) !! seen
  }

  /** `r` holds the directory of everything that `n` reaches outside `seen`. */
  ghost predicate Covers(own: map<Name, Option<Directory>>, g: Graph, n: Name, seen: set<Name>, r: seq<Directory>) {
    forall m :: ReachesAvoiding(g, n, m, seen) && Own(own, m).Some? ==> Own(own, m).value in r
  }

  /** What a call on a path of components `seen` guarantees: nothing that is not reachable, and
      everything that is reachable without coming back to the path. */
  ghost predicate IsPartial(own: map<Name, Option<Directory>>, g: Graph, n: Name, seen: set<Name>, r: seq<Directory>) {
    && NoDuplicates(r)
    && (forall d :: d in r ==> IsReachable(own, g, n, d))
    && Covers(own, g, n, seen, r)
  }

  /** The dictionaries that the nested function `resolve` shares. */
  class Resolver {
    const own: map<Name, Option<Directory>>
    const dependencies: Graph
    var resolved: map<Name, seq<Directory>>

    constructor (own: map<Name, Option<Directory>>, dependencies: Graph)
      ensures this.own == own && this.dependencies == dependencies && resolved == map[]
    {
      this.own, this.dependencies := own, dependencies;
      resolved := map[];
    }

    ghost predicate Valid()
      reads this
    {
      forall n :: n in resolved ==> IsComplete(own, dependencies, n, resolved[n])
    }

    method Resolve(name: Name, seen: set<Name>, ghost universe: set<Name>) returns (r: seq<Directory>)
      requires Valid() && name in universe && Names(dependencies) <= universe
      modifies this
      ensures Valid()
      ensures IsPartial(own, dependencies, name, seen, r)
      ensures seen != {} ==> resolved == old(resolved)
      ensures seen == {} ==> IsComplete(own, dependencies, name, r)
      ensures seen == {} ==> name in resolved && resolved.Keys == old(resolved.Keys) + {name}
      decreases universe - seen
    {
      if name in resolved {
        CompleteIsPartial(own, dependencies, name, seen, resolved[name]);
        return resolved[name];
      }
      if name in seen {
        NothingAvoids(dependencies, name, seen);
        return [];
      }
      var collected: seq<Directory> := [];
      var directory := Own(own, name);
      if directory.Some? {
        collected := [directory.value];
      }
      ReachesItself(dependencies, name);
      var successors := Successors(dependencies, name);
      SuccessorsAreNames(dependencies, name);
      for i := 0 to |successors|
        invariant Valid() && resolved == old(resolved)
        invariant NoDuplicates(collected)
        invariant forall d :: d in collected ==> IsReachable(own, dependencies, name, d)
        invariant directory.Some? ==> directory.value in collected
        invariant forall k :: 0 <= k < i ==> Covers(own, dependencies, successors[k], seen + {name}, collected)
      {
        assert successors[i] in SetOf(successors);
        var items := Resolve(successors[i], seen + {name}, universe);
        forall d | d in items
          ensures IsReachable(own, dependencies, name, d)
        {
          ReachableThrough(own, dependencies, name, successors[i], d);
        }
        collected := Merge(collected, items);
      }
      PartialFromSuccessors(own, dependencies, name, seen, collected);
      if seen == {} {
        PartialIsComplete(own, dependencies, name, collected);
        resolved := resolved[name := collected];
      }
      return collected;
    }
  }

  /** The inner loop: appends the items that are not there yet. */
  method Merge(collected: seq<Directory>, items: seq<Directory>) returns (r: seq<Directory>)
    requires NoDuplicates(collected)
    ensures NoDuplicates(r) && collected <= r
    ensures forall d :: d in r <==> d in collected || d in items
  {
    r := collected;
    for i := 0 to |items|
      invariant NoDuplicates(r) && collected <= r
      invariant forall d :: d in r <==> d in collected || d in items[..i]
    {
      assert items[..i + 1] == items[..i] + [items[i]];
      if items[i] !in r {
        r := r + [items[i]];
      }
    }
    assert items[..|items|] == items;
  }

  /** `component_include_directories` from the metadata on; `order` is the order of the top-level
      calls. */
  method ComponentIncludeDirectories(own: map<Name, Option<Directory>>, dependencies: Graph, order: seq<Name>)
    returns (resolved: map<Name, seq<Directory>>)
    ensures resolved.Keys == SetOf(order)
    ensures forall n :: n in resolved ==> IsComplete(own, dependencies, n, resolved[n])
  {
    var resolver := new Resolver(own, dependencies);
    ghost var universe := SetOf(order) + Names(dependencies);
    for i := 0 to |order|
      invariant resolver.own == own && resolver.dependencies == dependencies && resolver.Valid()
      invariant resolver.resolved.Keys == SetOf(order[..i])
    {
      assert SetOf(order[..i + 1]) == SetOf(order[..i]) + {order[i]};
      var _ := resolver.Resolve(order[i], {}, universe);
    }
    assert order[..|order|] == order;
    return resolver.resolved;
  }

  lemma CompleteIsPartial(own: map<Name, Option<Directory>>, g: Graph, n: Name, seen: set<Name>, r: seq<Directory>)
    requires IsComplete(own, g, n, r)
    ensures IsPartial(own, g, n, seen, r)
  {
    forall m | ReachesAvoiding(g, n, m, seen) && Own(own, m).Some?
      ensures Own(own, m).value in r
    {
      assert Reaches(g, n, m);
      assert IsReachable(own, g, n, Own(own, m).value);
    }
  }

  /** No component is behind one that is on the path itself. */
  lemma NothingAvoids(g: Graph, n: Name, seen: set<Name>)
    requires n in seen
    ensures forall m :: !ReachesAvoiding(g, n, m, seen)
  {
    assert forall p: seq<Name> :: |p| > 0 && p[0] == n ==> n in SetOf(p) * seen;
  }

  lemma ReachableThrough(own: map<Name, Option<Directory>>, g: Graph, n: Name, s: Name, d: Directory)
    requires s in Successors(g, n) && IsReachable(own, g, s, d)
    ensures IsReachable(own, g, n, d)
  {
    var m :| Reaches(g, s, m) && Own(own, m) == Some(d);
    ReachesThrough(g, n, s, m);
  }

  /** A walk that avoids `seen` can be shortened until it leaves `a` for good; behind its first step
      it then avoids `a` as well. */
  lemma {:induction false} LeaveForGood(g: Graph, p: seq<Name>, a: Name, b: Name, seen: set<Name>)
    requires IsWalkFromTo(g, p, a, b) && SetOf(p) !! seen && a != b
    ensures exists s :: s in Successors(g, a) && ReachesAvoiding(g, s, b, seen + {a})
  {
    var rest := p[1..];
    assert rest[0] in Successors(g, p[0]);
    if a in rest {
      var at :| 0 <= at < |rest| && rest[at] == a;
      TailAvoids(g, p, at + 1, b, seen);
      LeaveForGood(g, p[at + 1..], a, b, seen);
    } else {
      TailAvoids(g, p, 1, b, seen);
      assert SetOf(rest) !! seen + {a};
      assert ReachesAvoiding(g, rest[0], b, seen + {a});
    }
  }

  lemma TailAvoids(g: Graph, p: seq<Name>, at: nat, b: Name, seen: set<Name>)
    requires IsWalk(g, p) && p[|p| - 1] == b && SetOf(p) !! seen && at < |p|
    ensures IsWalkFromTo(g, p[at..], p[at], b) && SetOf(p[at..]) !! seen
  {
    assert forall x :: x in SetOf(p[at..]) ==> x in SetOf(p);
  }

  lemma PartialFromSuccessors(own: map<Name, Option<Directory>>, g: Graph, n: Name, seen: set<Name>, r: seq<Directory>)
    requires NoDuplicates(r) && forall d :: d in r ==> IsReachable(own, g, n, d)
    requires Own(own, n).Some? ==> Own(own, n).value in r
    requires forall s :: s in Successors(g, n) ==> Covers(own, g, s, seen + {n}, r)
    ensures IsPartial(own, g, n, seen, r)
  {
    forall m | ReachesAvoiding(g, n, m, seen) && Own(own, m).Some?
      ensures Own(own, m).value in r
    {
      if m != n {
        var p :| IsWalkFromTo(g, p, n, m) && SetOf(p) !! seen;
        LeaveForGood(g, p, n, m, seen);
        var s :| s in Successors(g, n) && ReachesAvoiding(g, s, m, seen + {n});
        assert Covers(own, g, s, seen + {n}, r);
      }
    }
  }

  lemma PartialIsComplete(own: map<Name, Option<Directory>>, g: Graph, n: Name, r: seq<Directory>)
    requires IsPartial(own, g, n, {}, r)
    ensures IsComplete(own, g, n, r)
  {
    forall d | IsReachable(own, g, n, d)
      ensures d in r
    {
      var m :| Reaches(g, n, m) && Own(own, m) == Some(d);
      var p :| IsWalkFromTo(g, p, n, m);
      assert SetOf(p) !! {};
      assert ReachesAvoiding(g, n, m, {});
    }
  }

  /** `d` is the include directory of the component or of a name in its public closure. */
  ghost predicate IsOfClosure(own: map<Name, Option<Directory>>, component: Name, closure: set<Name>, d: Directory) {
    exists n :: n in {component} + closure && Own(own, n) == Some(d)
  }

  /** Every directory behind a name of the closure that is not a module is one of the closure's anyway. */
  ghost predicate UnknownNamesAddNoDirectory(own: map<Name, Option<Directory>>, modules: map<Name, ModuleBoundaries.Module>,
                                             validator: Graph, resolver: Graph, component: Name, closure: set<Name>) {
    forall x, n :: ModuleBoundaries.IsBehindUnknown(modules, validator, resolver, component, x, n) && Own(own, n).Some? ==>
      IsOfClosure(own, component, closure, Own(own, n).value)
  }

  /** The two checkers: over modules that `_parse_module` accepts, a component resolves to the directories
      of itself and of its public closure, and to no other exactly if unknown names add none. */
  lemma ResolveMatchesPublicClosure(own: map<Name, Option<Directory>>, modules: map<Name, ModuleBoundaries.Module>,
                                    validator: Graph, resolver: Graph, component: Name, closure: set<Name>, r: seq<Directory>)
    requires ModuleBoundaries.AreParsed(modules)
    requires ModuleBoundaries.IsPublicGraph(validator, modules) && ModuleBoundaries.IsComponentGraph(resolver, modules)
    requires forall n :: n in closure <==> ModuleBoundaries.ReachesBeyond(validator, component, n)
    requires IsComplete(own, resolver, component, r)
    ensures forall d :: IsOfClosure(own, component, closure, d) ==> d in r
    ensures (forall d :: d in r ==> IsOfClosure(own, component, closure, d)) <==>
            UnknownNamesAddNoDirectory(own, modules, validator, resolver, component, closure)
  {
    forall d | IsOfClosure(own, component, closure, d)
      ensures d in r
    {
      var n :| n in {component} + closure && Own(own, n) == Some(d);
      ModuleBoundaries.ClosureIsReached(modules, validator, resolver, component, n);
      assert IsReachable(own, resolver, component, d);
    }
    forall x, n | ModuleBoundaries.IsBehindUnknown(modules, validator, resolver, component, x, n) && Own(own, n).Some?
      ensures Own(own, n).value in r
    {
      BehindUnknownIsReached(own, modules, validator, resolver, component, x, n);
    }
    if UnknownNamesAddNoDirectory(own, modules, validator, resolver, component, closure) {
      forall d | d in r
        ensures IsOfClosure(own, component, closure, d)
      {
        ResolvedIsOfClosure(own, modules, validator, resolver, component, closure, d);
      }
    }
  }

  lemma BehindUnknownIsReached(own: map<Name, Option<Directory>>, modules: map<Name, ModuleBoundaries.Module>,
                               validator: Graph, resolver: Graph, component: Name, x: Name, n: Name)
    requires ModuleBoundaries.AreParsed(modules)
    requires ModuleBoundaries.IsPublicGraph(validator, modules) && ModuleBoundaries.IsComponentGraph(resolver, modules)
    requires ModuleBoundaries.IsBehindUnknown(modules, validator, resolver, component, x, n) && Own(own, n).Some?
    ensures IsReachable(own, resolver, component, Own(own, n).value)
  {
    ModuleBoundaries.ClosureIsReached(modules, validator, resolver, component, x);
    ReachesJoin(resolver, component, x, n);
  }

  lemma ResolvedIsOfClosure(own: map<Name, Option<Directory>>, modules: map<Name, ModuleBoundaries.Module>,
                            validator: Graph, resolver: Graph, component: Name, closure: set<Name>, d: Directory)
    requires ModuleBoundaries.AreParsed(modules)
    requires ModuleBoundaries.IsPublicGraph(validator, modules) && ModuleBoundaries.IsComponentGraph(resolver, modules)
    requires forall n :: n in closure <==> ModuleBoundaries.ReachesBeyond(validator, component, n)
    requires UnknownNamesAddNoDirectory(own, modules, validator, resolver, component, closure)
    requires IsReachable(own, resolver, component, d)
    ensures IsOfClosure(own, component, closure, d)
  {
    var n :| Reaches(resolver, component, n) && Own(own, n) == Some(d);
    var p :| IsWalkFromTo(resolver, p, component, n);
    ModuleBoundaries.WalkLeavesAtUnknown(modules, validator, resolver, component, p);
    if ModuleBoundaries.IsWithClosure(validator, component, n) {
      assert n in {component} + closure;
    }
  }

  /** With the umbrella "All" as a dependency of `a`, the include directory of a module `b` that `a` does
      not depend on is resolved for `a`, and is not one of its public closure. */
  lemma UmbrellaAddsDirectories(r: seq<Directory>)
    requires var a, b, all := Name("a"), Name("b"), Name("All");
             var own := map[a := Some(Directory("a/include")), b := Some(Directory("b/include")), all := Some(Directory("core/include"))];
             IsComplete(own, map[a := [all], b := [], all := [a, b]], a, r)
    ensures var a, b, all := Name("a"), Name("b"), Name("All");
            var own := map[a := Some(Directory("a/include")), b := Some(Directory("b/include")), all := Some(Directory("core/include"))];
            && (forall n :: n in {all} <==> ModuleBoundaries.ReachesBeyond(map[a := [all], b := []], a, n))
            && Directory("b/include") in r && !IsOfClosure(own, a, {all}, Directory("b/include"))
  {
    var a, b, all := Name("a"), Name("b"), Name("All");
    var own := map[a := Some(Directory("a/include")), b := Some(Directory("b/include")), all := Some(Directory("core/include"))];
    var validator := map[a := [all], b := []];
    ModuleBoundaries.UmbrellaIsNotFollowed();
    assert IsReachable(own, map[a := [all], b := [], all := [a, b]], a, Directory("b/include"));
    ReachesItself(validator, all);
    assert IsClosed(validator, {all});
    forall n | ModuleBoundaries.ReachesBeyond(validator, a, n)
      ensures n == all
    {
      ModuleBoundaries.ReachesBeyondStaysInside(validator, a, n, {all});
    }
  }
}
