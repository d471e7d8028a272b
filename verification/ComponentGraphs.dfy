/**
 Component graphs as the Python checkers hold them: a dictionary from a component's name to the
 names it depends on.  A dependency need not be a key of the dictionary.

 Adjacency is a sequence, the order in which a checker happens to visit it (`sorted`, `list(set)`):
 every result in this project holds for all orders.
 */
module ComponentGraphs {
  import opened Common

  datatype Name = Name(text: string)

  type Graph = map<Name, seq<Name>>

  function Successors(g: Graph, n: Name): seq<Name> {
    if n in g then g[n] else []
  }

  /** All names a graph mentions. */
  function Names(g: Graph): set<Name> {
    g.Keys + set n, d | n in g && d in g[n] :: d
  }

  /** A nonempty list of names, each a successor of the one in front of it. */
  ghost predicate IsWalk(g: Graph, p: seq<Name>) {
    && |p| > 0
    && forall i, j :: 0 <= i && j == i + 1 < |p| ==> p[j] in Successors(g, p[i])
  }

  ghost predicate IsWalkFromTo(g: Graph, p: seq<Name>, a: Name, b: Name) {
    IsWalk(g, p) && p[0] == a && p[|p| - 1] == b
  }

  /** `b` can be reached from `a` in zero or more steps. */
  ghost predicate Reaches(g: Graph, a: Name, b: Name) {
    exists p :: IsWalkFromTo(g, p, a, b)
  }

  ghost predicate NoDuplicates<T>(s: seq<T>) {
    forall i, j :: 0 <= i < j < |s| ==> s[i] != s[j]
  }

  ghost predicate IsClosed(g: Graph, names: set<Name>) {
    forall n :: n in names ==> SetOf(Successors(g, n)) <= names
  }

  lemma ReachesItself(g: Graph, a: Name)
    ensures Reaches(g, a, a)
  {
    assert IsWalkFromTo(g, [a], a, a);
  }

  lemma ReachesThrough(g: Graph, a: Name, d: Name, b: Name)
    requires d in Successors(g, a) && Reaches(g, d, b)
    ensures Reaches(g, a, b)
  {
    var p :| IsWalkFromTo(g, p, d, b);
    assert IsWalkFromTo(g, [a] + p, a, b);
  }

  lemma ReachesSuccessor(g: Graph, a: Name, b: Name, d: Name)
    requires Reaches(g, a, b) && d in Successors(g, b)
    ensures Reaches(g, a, d)
  {
    var p :| IsWalkFromTo(g, p, a, b);
    assert IsWalkFromTo(g, p + [d], a, d);
  }

  lemma ReachesJoin(g: Graph, a: Name, b: Name, c: Name)
    requires Reaches(g, a, b) && Reaches(g, b, c)
    ensures Reaches(g, a, c)
  {
    var p :| IsWalkFromTo(g, p, a, b);
    var q :| IsWalkFromTo(g, q, b, c);
    assert IsWalkFromTo(g, p + q[1..], a, c);
  }

  lemma SuccessorsAreNames(g: Graph, n: Name)
    ensures SetOf(Successors(g, n)) <= Names(g)
  {
  }

  /** A walk that starts inside a closed set never leaves it. */
  lemma {:induction false} WalkStaysInside(g: Graph, p: seq<Name>, names: set<Name>)
    requires IsWalk(g, p) && p[0] in names && IsClosed(g, names)
    ensures p[|p| - 1] in names
  {
    if |p| > 1 {
      var front := p[..|p| - 1];
      WalkStaysInside(g, front, names);
      assert p[|p| - 1] in Successors(g, p[|p| - 2]);
      assert p[|p| - 1] in SetOf(Successors(g, front[|front| - 1]));
    }
  }

  /** Reachability depends only on which names succeed which, not on the order they are listed in. */
  lemma ReachesSameEdges(g: Graph, h: Graph, a: Name, b: Name, names: set<Name>)
    requires a in names && IsClosed(g, names)
    requires forall n :: n in names ==> SetOf(Successors(g, n)) == SetOf(Successors(h, n))
    ensures Reaches(g, a, b) <==> Reaches(h, a, b)
  {
    assert IsClosed(h, names);
    if p :| IsWalkFromTo(g, p, a, b) {
      WalkIn(g, h, p, names);
      assert IsWalkFromTo(h, p, a, b);
    }
    if p :| IsWalkFromTo(h, p, a, b) {
      WalkIn(h, g, p, names);
      assert IsWalkFromTo(g, p, a, b);
    }
  }

  lemma {:induction false} WalkIn(g: Graph, h: Graph, p: seq<Name>, names: set<Name>)
    requires IsWalk(g, p) && p[0] in names && IsClosed(g, names)
    requires forall n :: n in names ==> SetOf(Successors(g, n)) == SetOf(Successors(h, n))
    ensures IsWalk(h, p)
  {
    if |p| > 1 {
      var front := p[..|p| - 1];
      WalkIn(g, h, front, names);
      WalkStaysInside(g, front, names);
      forall i, j | 0 <= i && j == i + 1 < |p|
        ensures p[j] in Successors(h, p[i])
      {
        if j < |p| - 1 {
          assert front[j] in Successors(h, front[i]);
        } else {
          assert p[j] in SetOf(Successors(g, front[i]));
        }
      }
    }
  }
}
