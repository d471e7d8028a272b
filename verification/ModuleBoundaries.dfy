/**
 The graph algorithms of validate_module_boundaries.py: the three-colour search for a dependency
 cycle and the worklist closure of the public dependencies.
 */
module ModuleBoundaries {
  import opened Common
  import opened ComponentGraphs

  /** An edge between two declared modules. */
  ghost predicate IsEdge(g: Graph, a: Name, b: Name) {
    a in g && b in g && b in g[a]
  }

  ghost predicate IsChain(g: Graph, p: seq<Name>) {
    forall i, j :: 0 <= i && j == i + 1 < |p| ==> IsEdge(g, p[i], p[j])
  }

  /** A closed walk over declared modules; a self-dependency is one of two entries. */
  ghost predicate IsCycle(g: Graph, c: seq<Name>) {
    |c| >= 2 && c[0] == c[|c| - 1] && IsChain(g, c)
  }

  ghost predicate IsAcyclic(g: Graph) {
    forall c :: !IsCycle(g, c)
  }

  // ---------------------------------------------------------------------------------------------
  // Cycle search
  // ---------------------------------------------------------------------------------------------

  const ON_STACK := 1
  const FINISHED := 2

  /** The `state` dictionary and the `stack` list that the nested function `visit` shares. */
  class CycleSearch {
    const graph: Graph
    var state: map<Name, int>
    var stack: seq<Name>
    /** The finished modules in the order they were finished. */
    ghost var finished: seq<Name>

    constructor (graph: Graph)
      ensures this.graph == graph && state == map[] && stack == [] && finished == []
    {
      this.graph := graph;
      state, stack, finished := map[], [], [];
    }

    ghost predicate Valid()
      reads this
    {
      IsSearchState(graph, state, stack, finished)
    }

    method Visit(node: Name) returns (cycle: Option<seq<Name>>)
      requires Valid() && node in graph && node !in state
      requires stack != [] ==> IsEdge(graph, stack[|stack| - 1], node)
      modifies this
      ensures cycle.Some? ==> IsSimpleCycle(graph, cycle.value)
      ensures cycle.None? ==> Valid() && stack == old(stack) && node in finished
      ensures cycle.None? ==> Extends(old(finished), finished) && old(state.Keys) <= state.Keys
      decreases graph.Keys - state.Keys, 0
    {
      Push(graph, state, stack, finished, node);
      state := state[node := ON_STACK];
      stack := stack + [node];
      for i := 0 to |graph[node]|
        invariant Valid() && stack == old(stack) + [node] && Extends(old(finished), finished)
        invariant old(state.Keys) + {node} <= state.Keys
        invariant AreFinished(graph, graph[node][..i], finished)
      {
        ghost var before := finished;
        cycle := Follow(node, graph[node][i]);
        if cycle.Some? {
          return;
        }
        OneMoreFinished(graph, graph[node], i, before, finished);
      }
      Pop(graph, state, stack, finished, node);
      stack := stack[..|stack| - 1];
      state := state[node := FINISHED];
      finished := finished + [node];
      cycle := None;
    }

    /** The body of the loop: one dependency of the module on top of the stack. */
    method Follow(node: Name, dependency: Name) returns (cycle: Option<seq<Name>>)
      requires Valid() && stack != [] && stack[|stack| - 1] == node && node in graph && dependency in graph[node]
      modifies this
      ensures cycle.Some? ==> IsSimpleCycle(graph, cycle.value)
      ensures cycle.None? ==> Valid() && stack == old(stack) && (dependency in graph ==> dependency in finished)
      ensures cycle.None? ==> Extends(old(finished), finished) && old(state.Keys) <= state.Keys
      decreases graph.Keys - state.Keys, 1
    {
      if dependency !in graph {
        return None;
      }
      if dependency !in state {
        cycle := Visit(dependency);
        return;
      }
      Seen(graph, state, stack, finished, dependency);
      if state[dependency] == ON_STACK {
        var start := IndexOf(stack, dependency);
        BackEdge(graph, stack, start, node, dependency);
        return Some(stack[start..] + [dependency]);
      }
      return None;
    }
  }

  /** A closed walk over declared modules that repeats none but the first. */
  ghost predicate IsSimpleCycle(g: Graph, c: seq<Name>) {
    IsCycle(g, c) && NoDuplicates(c[1..])
  }

  /** Those of the dependencies that are declared are finished. */
  ghost predicate AreFinished(g: Graph, dependencies: seq<Name>, finished: seq<Name>) {
    forall d :: d in dependencies && d in g ==> d in finished
  }

  lemma OneMoreFinished(g: Graph, dependencies: seq<Name>, i: nat, before: seq<Name>, finished: seq<Name>)
    requires i < |dependencies| && AreFinished(g, dependencies[..i], before) && Extends(before, finished)
    requires dependencies[i] in g ==> dependencies[i] in finished
    ensures AreFinished(g, dependencies[..i + 1], finished)
  {
    assert dependencies[..i + 1] == dependencies[..i] + [dependencies[i]];
  }

  /** A module that has been seen is on the stack or finished, as its mark says. */
  lemma Seen(g: Graph, state: map<Name, int>, stack: seq<Name>, finished: seq<Name>, n: Name)
    requires IsSearchState(g, state, stack, finished) && n in state
    ensures if state[n] == ON_STACK then n in stack else n in finished
  {
  }

  /** The invariant of the search: the modules on the stack are exactly the ones marked so, and they
      form a chain of dependencies; the finished ones are in an order that respects dependencies. */
  ghost predicate IsSearchState(g: Graph, state: map<Name, int>, stack: seq<Name>, finished: seq<Name>) {
    && state.Keys <= g.Keys
    && (forall n :: n in state ==> state[n] == if n in stack then ON_STACK else FINISHED)
    && (forall n :: n in state ==> n in stack || n in finished)
    && (forall n :: n in stack ==> n in state)
    && (forall n :: n in finished ==> n in state && n !in stack)
    && NoDuplicates(stack)
    && IsChain(g, stack)
    && IsFinishingOrder(g, finished)
  }

  ghost predicate Extends(before: seq<Name>, after: seq<Name>) {
    forall n :: n in before ==> n in after
  }

  lemma Push(g: Graph, state: map<Name, int>, stack: seq<Name>, finished: seq<Name>, node: Name)
    requires IsSearchState(g, state, stack, finished) && node in g && node !in state
    requires stack != [] ==> IsEdge(g, stack[|stack| - 1], node)
    ensures IsSearchState(g, state[node := ON_STACK], stack + [node], finished)
  {
  }

  lemma Pop(g: Graph, state: map<Name, int>, stack: seq<Name>, finished: seq<Name>, node: Name)
    requires IsSearchState(g, state, stack, finished)
    requires stack != [] && node == stack[|stack| - 1] && node in g
    requires AreFinished(g, g[node][..|g[node]|], finished)
    ensures IsSearchState(g, state[node := FINISHED], stack[..|stack| - 1], finished + [node])
  {
    var rest := stack[..|stack| - 1];
    TopOfStack(stack, node);
    FinishNext(g, finished, node);
    forall n | n in state[node := FINISHED]
      ensures state[node := FINISHED][n] == if n in rest then ON_STACK else FINISHED
      ensures n in rest || n in finished + [node]
    {
      assert n == node || n in state;
    }
    assert IsChain(g, rest);
  }

  lemma TopOfStack(stack: seq<Name>, node: Name)
    requires stack != [] && node == stack[|stack| - 1] && NoDuplicates(stack)
    ensures NoDuplicates(stack[..|stack| - 1])
    ensures forall n :: n in stack[..|stack| - 1] <==> n in stack && n != node
  {
    var rest := stack[..|stack| - 1];
    assert stack == rest + [node];
  }

  lemma FinishNext(g: Graph, finished: seq<Name>, node: Name)
    requires IsFinishingOrder(g, finished) && node in g && AreFinished(g, g[node][..|g[node]|], finished)
    ensures IsFinishingOrder(g, finished + [node])
  {
    var after := finished + [node];
    assert g[node][..|g[node]|] == g[node];
    forall i, d | 0 <= i < |after| && IsEdge(g, after[i], d)
      ensures d in after[..i]
    {
      assert after[..i] == finished[..i];
    }
  }

  /** A dependency on a module that is on the stack closes a cycle. */
  lemma BackEdge(g: Graph, stack: seq<Name>, start: nat, node: Name, dependency: Name)
    requires start < |stack| && stack[start] == dependency && stack[|stack| - 1] == node
    requires NoDuplicates(stack) && IsChain(g, stack)
    requires node in g && dependency in g && dependency in g[node]
    ensures IsSimpleCycle(g, stack[start..] + [dependency])
  {
  }

  /** `list.index`. */
  method IndexOf(s: seq<Name>, x: Name) returns (at: nat)
    requires x in s
    ensures at < |s| && s[at] == x && x !in s[..at]
  {
    at := 0;
    while s[at] != x
      invariant at < |s| && x in s[at..] && x !in s[..at]
      decreases |s| - at
    {
      at := at + 1;
    }
  }

  /** `_find_cycle`; `order` is the order in which the modules are tried. */
  method FindCycle(graph: Graph, order: seq<Name>) returns (cycle: Option<seq<Name>>)
    requires forall n :: n in order <==> n in graph
    ensures cycle.None? <==> IsAcyclic(graph)
    ensures cycle.Some? ==> IsSimpleCycle(graph, cycle.value)
  {
    var search := new CycleSearch(graph);
    for i := 0 to |order|
      invariant search.graph == graph && search.Valid() && search.stack == []
      invariant forall k :: 0 <= k < i ==> order[k] in search.finished
    {
      if order[i] !in search.state {
        cycle := search.Visit(order[i]);
        if cycle.Some? {
          return;
        }
      }
    }
    FinishedGraphIsAcyclic(graph, search.finished);
    cycle := None;
  }

  /** Every declared dependency of a finished module was finished before it. */
  ghost predicate IsFinishingOrder(g: Graph, finished: seq<Name>) {
    forall i, d :: 0 <= i < |finished| && IsEdge(g, finished[i], d) ==> d in finished[..i]
  }

  lemma {:induction false} ChainDescends(g: Graph, finished: seq<Name>, p: seq<Name>, i: nat)
    requires IsFinishingOrder(g, finished) && i < |finished|
    requires |p| >= 2 && IsChain(g, p) && p[0] == finished[i]
    ensures p[|p| - 1] in finished[..i]
  {
    assert IsEdge(g, p[0], p[1]);
    if |p| > 2 {
      var j: nat :| j < i && finished[j] == p[1];
      ChainDescends(g, finished, p[1..], j);
    }
  }

  lemma FinishedGraphIsAcyclic(g: Graph, finished: seq<Name>)
    requires IsFinishingOrder(g, finished)
    requires forall n :: n in g ==> n in finished
    ensures IsAcyclic(g)
  {
    forall c | IsCycle(g, c)
      ensures false
    {
      assert IsEdge(g, c[0], c[1]);
      var at := FirstIndex(finished, c[0]);
      ChainDescends(g, finished, c, at);
    }
  }

  lemma {:induction false} FirstIndex(s: seq<Name>, x: Name) returns (at: nat)
    requires x in s
    ensures at < |s| && s[at] == x && x !in s[..at]
  {
    var front, last := s[..|s| - 1], s[|s| - 1];
    assert s == front + [last];
    if x in front {
      at := FirstIndex(front, x);
      assert s[..at] == front[..at];
    } else {
      at := |s| - 1;
    }
  }

  // ---------------------------------------------------------------------------------------------
  // Public closure
  // ---------------------------------------------------------------------------------------------

  /** `b` can be reached from `a` in one or more steps. */
  ghost predicate ReachesBeyond(g: Graph, a: Name, b: Name) {
    exists d :: d in Successors(g, a) && Reaches(g, d, b)
  }

  lemma ReachesBeyondStep(g: Graph, a: Name, b: Name, c: Name)
    requires ReachesBeyond(g, a, b) && c in Successors(g, b)
    ensures ReachesBeyond(g, a, c)
  {
    var d :| d in Successors(g, a) && Reaches(g, d, b);
    ReachesSuccessor(g, d, b, c);
  }

  lemma ReachesBeyondStaysInside(g: Graph, a: Name, b: Name, names: set<Name>)
    requires ReachesBeyond(g, a, b) && IsClosed(g, names) && SetOf(Successors(g, a)) <= names
    ensures b in names
  {
    var d :| d in Successors(g, a) && Reaches(g, d, b);
    var p :| IsWalkFromTo(g, p, d, b);
    assert d in SetOf(Successors(g, a));
    WalkStaysInside(g, p, names);
  }

  /** The invariant of the worklist: `found` are the names in the closure or still pending. */
  ghost predicate IsWorklist(g: Graph, a: Name, closure: set<Name>, found: set<Name>) {
    && SetOf(Successors(g, a)) <= found
    && (forall n :: n in closure ==> SetOf(Successors(g, n)) <= found)
    && (forall n :: n in found ==> ReachesBeyond(g, a, n))
  }

  lemma StartClosure(g: Graph, a: Name)
    ensures IsWorklist(g, a, {}, SetOf(Successors(g, a)))
  {
    forall n | n in Successors(g, a)
      ensures ReachesBeyond(g, a, n)
    {
      ReachesItself(g, n);
    }
  }

  lemma Expand(g: Graph, a: Name, closure: set<Name>, found: set<Name>, dependency: Name)
    requires IsWorklist(g, a, closure, found) && dependency in found
    ensures IsWorklist(g, a, closure + {dependency}, found + SetOf(Successors(g, dependency)))
  {
    forall n | n in Successors(g, dependency)
      ensures ReachesBeyond(g, a, n)
    {
      ReachesBeyondStep(g, a, dependency, n);
    }
  }

  lemma ClosureComplete(g: Graph, a: Name, closure: set<Name>)
    requires IsWorklist(g, a, closure, closure)
    ensures forall n :: n in closure <==> ReachesBeyond(g, a, n)
  {
    forall n | ReachesBeyond(g, a, n)
      ensures n in closure
    {
      ReachesBeyondStaysInside(g, a, n, closure);
    }
  }

  /** `public_closure`; a name may be pushed many times before it is popped. */
  method PublicClosure(g: Graph, component: Name) returns (closure: set<Name>)
    ensures forall n :: n in closure <==> ReachesBeyond(g, component, n)
  {
    closure := {};
    var pending := Successors(g, component);
    StartClosure(g, component);
    SuccessorsAreNames(g, component);
    assert {} + SetOf(pending) == SetOf(pending);
    while pending != []
      invariant IsWorklist(g, component, closure, closure + SetOf(pending))
      invariant SetOf(pending) <= Names(g)
      decreases Names(g) - closure, |pending|
    {
      var dependency := pending[|pending| - 1];
      ghost var found := closure + SetOf(pending);
      pending := pending[..|pending| - 1];
      assert found == closure + SetOf(pending) + {dependency};
      if dependency in closure {
        assert closure + SetOf(pending) == found;
        continue;
      }
      Expand(g, component, closure, found, dependency);
      SuccessorsAreNames(g, dependency);
      closure := closure + {dependency};
      assert SetOf(pending + Successors(g, dependency)) == SetOf(pending) + SetOf(Successors(g, dependency));
      pending := pending + Successors(g, dependency);
      assert closure + SetOf(pending) == found + SetOf(Successors(g, dependency));
    }
    assert closure + SetOf(pending) == closure;
    ClosureComplete(g, component, closure);
  }

  /** The closure is the least set that holds the direct dependencies and is closed. */
  lemma ClosureIsLeast(g: Graph, component: Name, closure: set<Name>, names: set<Name>)
    requires forall n :: n in closure <==> ReachesBeyond(g, component, n)
    requires IsClosed(g, names) && SetOf(Successors(g, component)) <= names
    ensures IsClosed(g, closure) && SetOf(Successors(g, component)) <= closure <= names
  {
    forall n, d | n in closure && d in Successors(g, n)
      ensures d in closure
    {
      ReachesBeyondStep(g, component, n, d);
    }
    forall d | d in Successors(g, component)
      ensures d in closure
    {
      ReachesItself(g, d);
    }
    forall n | n in closure
      ensures n in names
    {
      ReachesBeyondStaysInside(g, component, n, names);
    }
  }

  // ---------------------------------------------------------------------------------------------
  // Visibility
  // ---------------------------------------------------------------------------------------------

  datatype Module = Module(publicDependencies: set<Name>, privateDependencies: set<Name>, legacyDependencies: set<Name>)
  {
    predicate UsesExplicitVisibility() {
      publicDependencies + privateDependencies != {}
    }

    /** `_parse_module` rejects a module that mixes the two ways of declaring dependencies. */
    predicate MixesVisibility() {
      legacyDependencies != {} && (publicDependencies != {} || privateDependencies != {})
    }

    /** The public dependencies as `validate_repository` reads them. */
    function PublicEdges(): set<Name> {
      if UsesExplicitVisibility() then publicDependencies else legacyDependencies
    }

    /** The public dependencies as `component_include_directories` reads them. */
    function ConsumerEdges(): set<Name> {
      publicDependencies + legacyDependencies
    }

    /** The two readings agree on a module exactly when its explicit declaration, if there is one,
        covers the legacy one; a module that does not mix them always meets this. */
    lemma ReadingsAgree()
      ensures PublicEdges() == ConsumerEdges() <==> UsesExplicitVisibility() ==> legacyDependencies <= publicDependencies
      ensures !MixesVisibility() ==> PublicEdges() == ConsumerEdges()
    {
      if UsesExplicitVisibility() && legacyDependencies <= publicDependencies {
        assert PublicEdges() == ConsumerEdges();
      }
    }
  }

  /** `g` lists, for every module, the given edges in some order. */
  ghost predicate Lists(g: Graph, modules: map<Name, Module>, edges: Module -> set<Name>) {
    forall n :: n in modules ==> n in g && SetOf(g[n]) == edges(modules[n])
  }

  /** The public graph of the validator: its keys are the modules and nothing else. */
  ghost predicate IsPublicGraph(g: Graph, modules: map<Name, Module>) {
    g.Keys == modules.Keys && Lists(g, modules, (m: Module) => m.PublicEdges())
  }

  /** The component graph of the other checker: the modules, and components of other kinds. */
  ghost predicate IsComponentGraph(g: Graph, modules: map<Name, Module>) {
    Lists(g, modules, (m: Module) => m.ConsumerEdges())
  }

  ghost predicate AreParsed(modules: map<Name, Module>) {
    forall m :: m in modules ==> !modules[m].MixesVisibility()
  }

  /** The component itself and its public closure. */
  ghost predicate IsWithClosure(g: Graph, component: Name, n: Name) {
    n == component || ReachesBeyond(g, component, n)
  }

  /** What the other checker finds behind a name of the closure that is not a module, is in the closure
      anyway. */
  ghost predicate UnknownNamesAddNothing(modules: map<Name, Module>, validator: Graph, resolver: Graph, component: Name) {
    forall x, d :: IsWithClosure(validator, component, x) && x !in modules && d in Successors(resolver, x) ==>
      IsWithClosure(validator, component, d)
  }

  lemma SameSuccessors(modules: map<Name, Module>, validator: Graph, resolver: Graph, n: Name)
    requires AreParsed(modules) && IsPublicGraph(validator, modules) && IsComponentGraph(resolver, modules)
    ensures n in modules ==> SetOf(Successors(validator, n)) == SetOf(Successors(resolver, n))
    ensures n !in modules ==> Successors(validator, n) == []
  {
    if n in modules {
      modules[n].ReadingsAgree();
    }
  }

  /** The other checker reaches all that the validator does. */
  lemma ClosureIsReached(modules: map<Name, Module>, validator: Graph, resolver: Graph, component: Name, n: Name)
    requires AreParsed(modules) && IsPublicGraph(validator, modules) && IsComponentGraph(resolver, modules)
    requires IsWithClosure(validator, component, n)
    ensures Reaches(resolver, component, n)
  {
    ReachesSplits(validator, component, n);
    var p :| IsWalkFromTo(validator, p, component, n);
    forall i, j | 0 <= i && j == i + 1 < |p|
      ensures p[j] in Successors(resolver, p[i])
    {
      SameSuccessors(modules, validator, resolver, p[i]);
      assert p[j] in SetOf(Successors(validator, p[i]));
    }
    assert IsWalkFromTo(resolver, p, component, n);
  }

  lemma ClosureStep(g: Graph, component: Name, n: Name, d: Name)
    requires IsWithClosure(g, component, n) && d in Successors(g, n)
    ensures IsWithClosure(g, component, d)
  {
    if n == component {
      ReachesItself(g, d);
    } else {
      ReachesBeyondStep(g, component, n, d);
    }
  }

  /** A walk of the other checker stays in the closure if unknown names add nothing. */
  lemma {:induction false} WalkStaysInClosure(modules: map<Name, Module>, validator: Graph, resolver: Graph, component: Name, p: seq<Name>)
    requires AreParsed(modules) && IsPublicGraph(validator, modules) && IsComponentGraph(resolver, modules)
    requires UnknownNamesAddNothing(modules, validator, resolver, component)
    requires IsWalk(resolver, p) && p[0] == component
    ensures IsWithClosure(validator, component, p[|p| - 1])
  {
    if |p| > 1 {
      var n, d := p[|p| - 2], p[|p| - 1];
      WalkStaysInClosure(modules, validator, resolver, component, p[..|p| - 1]);
      assert d in SetOf(Successors(resolver, n));
      SameSuccessors(modules, validator, resolver, n);
      if n in modules {
        ClosureStep(validator, component, n, d);
      }
    }
  }

  lemma ReachedIsInClosure(modules: map<Name, Module>, validator: Graph, resolver: Graph, component: Name, n: Name)
    requires AreParsed(modules) && IsPublicGraph(validator, modules) && IsComponentGraph(resolver, modules)
    requires UnknownNamesAddNothing(modules, validator, resolver, component)
    requires Reaches(resolver, component, n)
    ensures IsWithClosure(validator, component, n)
  {
    var p :| IsWalkFromTo(resolver, p, component, n);
    WalkStaysInClosure(modules, validator, resolver, component, p);
  }

  /** What the other checker reaches is in the closure, or behind a name of it that is not a module. */
  ghost predicate IsBehindUnknown(modules: map<Name, Module>, validator: Graph, resolver: Graph, component: Name, x: Name, n: Name) {
    IsWithClosure(validator, component, x) && x !in modules && Reaches(resolver, x, n)
  }

  lemma {:induction false} WalkLeavesAtUnknown(modules: map<Name, Module>, validator: Graph, resolver: Graph, component: Name, p: seq<Name>)
    requires AreParsed(modules) && IsPublicGraph(validator, modules) && IsComponentGraph(resolver, modules)
    requires IsWalk(resolver, p) && p[0] == component
    ensures var last := p[|p| - 1];
            IsWithClosure(validator, component, last) || exists x :: IsBehindUnknown(modules, validator, resolver, component, x, last)
  {
    if |p| > 1 {
      var n, d := p[|p| - 2], p[|p| - 1];
      WalkLeavesAtUnknown(modules, validator, resolver, component, p[..|p| - 1]);
      assert d in Successors(resolver, n);
      if x :| IsBehindUnknown(modules, validator, resolver, component, x, n) {
        ReachesSuccessor(resolver, x, n, d);
        assert IsBehindUnknown(modules, validator, resolver, component, x, d);
      } else {
        StepFromClosure(modules, validator, resolver, component, n, d);
      }
    }
  }

  lemma StepFromClosure(modules: map<Name, Module>, validator: Graph, resolver: Graph, component: Name, n: Name, d: Name)
    requires AreParsed(modules) && IsPublicGraph(validator, modules) && IsComponentGraph(resolver, modules)
    requires IsWithClosure(validator, component, n) && d in Successors(resolver, n)
    ensures IsWithClosure(validator, component, d) || IsBehindUnknown(modules, validator, resolver, component, n, d)
  {
    if n in modules {
      SameSuccessors(modules, validator, resolver, n);
      assert d in SetOf(Successors(resolver, n));
      ClosureStep(validator, component, n, d);
    } else {
      ReachesItself(resolver, d);
      ReachesThrough(resolver, n, d, d);
    }
  }

  /** The two checkers name the same components. */
  ghost predicate Agree(validator: Graph, resolver: Graph, component: Name) {
    forall n :: IsWithClosure(validator, component, n) <==> Reaches(resolver, component, n)
  }

  /** Over modules that `_parse_module` accepts, a component and its public closure are what the other
      checker resolves it to, exactly if unknown names add nothing. */
  lemma ClosureAgreesWithResolve(modules: map<Name, Module>, validator: Graph, resolver: Graph, component: Name)
    requires AreParsed(modules) && IsPublicGraph(validator, modules) && IsComponentGraph(resolver, modules)
    ensures Agree(validator, resolver, component) <==> UnknownNamesAddNothing(modules, validator, resolver, component)
  {
    if Agree(validator, resolver, component) {
      forall x, d | IsWithClosure(validator, component, x) && x !in modules && d in Successors(resolver, x)
        ensures IsWithClosure(validator, component, d)
      {
        ReachesSuccessor(resolver, component, x, d);
      }
    }
    if UnknownNamesAddNothing(modules, validator, resolver, component) {
      forall n
        ensures IsWithClosure(validator, component, n) <==> Reaches(resolver, component, n)
      {
        if IsWithClosure(validator, component, n) {
          ClosureIsReached(modules, validator, resolver, component, n);
        }
        if Reaches(resolver, component, n) {
          ReachedIsInClosure(modules, validator, resolver, component, n);
        }
      }
    }
  }

  /** So they agree wherever the closure holds no name that is only a component of another kind. */
  lemma AgreeWithoutOtherKinds(modules: map<Name, Module>, validator: Graph, resolver: Graph, component: Name)
    requires AreParsed(modules) && IsPublicGraph(validator, modules) && IsComponentGraph(resolver, modules)
    requires forall x :: IsWithClosure(validator, component, x) && x in resolver ==> x in modules
    ensures Agree(validator, resolver, component)
  {
    ClosureAgreesWithResolve(modules, validator, resolver, component);
  }

  /** They do not when a module depends on the umbrella "All", which the other checker always has and
      which lists every module: it reaches `b` from `a`, and the validator does not. */
  lemma UmbrellaIsNotFollowed()
    ensures var a, b, all := Name("a"), Name("b"), Name("All");
            var modules := map[a := Module({}, {}, {all}), b := Module({}, {}, {})];
            var validator := map[a := [all], b := []];
            var resolver := map[a := [all], b := [], all := [a, b]];
            && AreParsed(modules) && IsPublicGraph(validator, modules) && IsComponentGraph(resolver, modules)
            && Reaches(resolver, a, b) && !IsWithClosure(validator, a, b)
  {
    var a, b, all := Name("a"), Name("b"), Name("All");
    var validator := map[a := [all], b := []];
    var resolver := map[a := [all], b := [], all := [a, b]];
    assert IsWalkFromTo(resolver, [a, all, b], a, b);
    assert IsClosed(validator, {all});
    if ReachesBeyond(validator, a, b) {
      ReachesBeyondStaysInside(validator, a, b, {all});
    }
  }

  lemma ReachesSplits(g: Graph, a: Name, b: Name)
    ensures Reaches(g, a, b) <==> a == b || ReachesBeyond(g, a, b)
  {
    ReachesItself(g, a);
    if p :| IsWalkFromTo(g, p, a, b) {
      if |p| > 1 {
        assert IsWalkFromTo(g, p[1..], p[1], b);
      }
    }
    if d :| d in Successors(g, a) && Reaches(g, d, b) {
      ReachesThrough(g, a, d, b);
    }
  }
}
