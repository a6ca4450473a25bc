/** The two graph algorithms behind causal navigation: a depth-first cycle check and a reachability fixpoint. */
module CausalGraph {
  import opened Texts

  type Id = Text

  datatype Edge = Edge(from: Id, to: Id)

  // ---------------------------------------------------------------- paths

  ghost predicate IsPath(edges: seq<Edge>, p: seq<Id>) {
    forall i :: 0 <= i < |p| - 1 ==> Edge(p[i], p[i + 1]) in edges
  }

  ghost predicate PathFrom(edges: seq<Edge>, p: seq<Id>, a: Id, b: Id) {
    |p| >= 2 && p[0] == a && p[|p| - 1] == b && IsPath(edges, p)
  }

  /** One can go from `a` to `b` along at least one edge. */
  ghost predicate Leads(edges: seq<Edge>, a: Id, b: Id) {
    exists p :: PathFrom(edges, p, a, b)
  }

  /** One can go from `a` to `b` along any number of edges, none included. */
  ghost predicate Reaches(edges: seq<Edge>, a: Id, b: Id) { a == b || Leads(edges, a, b) }

  ghost predicate OnCycle(edges: seq<Edge>, a: Id) { Leads(edges, a, a) }

  lemma EdgeLeads(edges: seq<Edge>, a: Id, b: Id)
    requires Edge(a, b) in edges
    ensures Leads(edges, a, b)
  {
    assert PathFrom(edges, [a, b], a, b);
  }

  lemma LeadsFurther(edges: seq<Edge>, a: Id, b: Id, c: Id)
    requires Reaches(edges, a, b) && Edge(b, c) in edges
    ensures Leads(edges, a, c)
  {
    if a == b {
      EdgeLeads(edges, a, c);
    } else {
      var p :| PathFrom(edges, p, a, b);
      assert PathFrom(edges, p + [c], a, c);
    }
  }

  lemma LeadsAfter(edges: seq<Edge>, a: Id, b: Id, c: Id)
    requires Edge(a, b) in edges && Reaches(edges, b, c)
    ensures Leads(edges, a, c)
  {
    if b == c {
      EdgeLeads(edges, a, c);
    } else {
      var p :| PathFrom(edges, p, b, c);
      assert PathFrom(edges, [a] + p, a, c);
    }
  }

  /** Every edge that leaves the set ends in it. */
  ghost predicate Closed(edges: seq<Edge>, s: set<Id>) {
    forall e <- edges :: e.from in s ==> e.to in s
  }

  lemma TailIsPath(edges: seq<Edge>, p: seq<Id>)
    requires p != [] && IsPath(edges, p)
    ensures IsPath(edges, p[1..])
  {
    forall i | 0 <= i < |p| - 2 ensures Edge(p[1..][i], p[1..][i + 1]) in edges {
      assert Edge(p[i + 1], p[i + 1 + 1]) in edges;
    }
  }

  lemma {:induction false} ClosedTrapsPath(edges: seq<Edge>, s: set<Id>, p: seq<Id>)
    requires Closed(edges, s) && p != [] && p[0] in s && IsPath(edges, p)
    ensures p[|p| - 1] in s
  {
    if |p| > 1 {
      assert Edge(p[0], p[1]) in edges;
      TailIsPath(edges, p);
      ClosedTrapsPath(edges, s, p[1..]);
    }
  }

  lemma ClosedTraps(edges: seq<Edge>, s: set<Id>, a: Id, b: Id)
    requires Closed(edges, s) && a in s && Reaches(edges, a, b)
    ensures b in s
  {
    if a != b {
      var p :| PathFrom(edges, p, a, b);
      ClosedTrapsPath(edges, s, p);
    }
  }

  /** A cycle through `a` leaves it by one of its edges. */
  lemma CycleLeaves(edges: seq<Edge>, a: Id) returns (b: Id)
    requires OnCycle(edges, a)
    ensures Edge(a, b) in edges && Reaches(edges, b, a)
  {
    var p :| PathFrom(edges, p, a, a);
    b := p[1];
    assert Edge(p[0], p[1]) in edges;
    if |p| > 2 {
      TailIsPath(edges, p);
      assert PathFrom(edges, p[1..], b, a);
    }
  }

  // ---------------------------------------------------------------- adjacency lists

  /** Where the edges of `id` lead, in the order of the edges. */
  function Successors(edges: seq<Edge>, id: Id): seq<Id> {
    if edges == [] then []
    else
      var last := edges[|edges| - 1];
      Successors(edges[..|edges| - 1], id) + (if last.from == id then [last.to] else [])
  }

  lemma {:induction false} SuccessorsAreEdges(edges: seq<Edge>, id: Id, to: Id)
    ensures to in Successors(edges, id) <==> Edge(id, to) in edges
  {
    if edges != [] {
      var init := edges[..|edges| - 1];
      SuccessorsAreEdges(init, id, to);
      assert edges == init + [edges[|edges| - 1]];
    }
  }

  function Listed(adjacency: map<Id, seq<Id>>, id: Id): seq<Id> {
    if id in adjacency then adjacency[id] else []
  }

  method Adjacency(edges: seq<Edge>) returns (adjacency: map<Id, seq<Id>>)
    ensures forall id :: Listed(adjacency, id) == Successors(edges, id)
  {
    adjacency := map[];
    for i := 0 to |edges|
      invariant forall id :: Listed(adjacency, id) == Successors(edges[..i], id)
    {
      assert edges[..i + 1][..i] == edges[..i];
      adjacency := adjacency[edges[i].from := Listed(adjacency, edges[i].from) + [edges[i].to]];
    }
    assert edges[..|edges|] == edges;
  }

  // ---------------------------------------------------------------- the cycle check

  ghost function Endpoints(edges: seq<Edge>): set<Id> {
    (set e <- edges :: e.from) + (set e <- edges :: e.to)
  }

  /** The sets that the recursive search shares between its calls. */
  class CycleSearch {
    const adjacency: map<Id, seq<Id>>
    ghost const edges: seq<Edge>
    ghost const universe: set<Id>
    var visiting: set<Id>
    var visited: set<Id>

    constructor (edges: seq<Edge>, adjacency: map<Id, seq<Id>>, ghost universe: set<Id>)
      requires forall id :: Listed(adjacency, id) == Successors(edges, id)
      requires Endpoints(edges) <= universe
      ensures this.edges == edges && this.universe == universe && Valid() && visiting == {} && visited == {}
    {
      this.adjacency, this.edges, this.universe := adjacency, edges, universe;
      visiting, visited := {}, {};
    }

    /** What has been left behind is closed under edges and lies on no cycle. */
    ghost predicate Valid()
      reads this
    {
      && (forall id :: Listed(adjacency, id) == Successors(edges, id))
      && Endpoints(edges) <= universe
      && visiting !! visited
      && Closed(edges, visited)
      && (forall id <- visited :: !OnCycle(edges, id))
    }

    /** Searches from `id`.  Unless a cycle turns up, everything reachable from `id` ends up visited. */
    method Visit(id: Id) returns (found: bool)
      requires Valid() && id in universe
      requires forall v <- visiting :: Leads(edges, v, id)
      modifies this
      ensures found ==> exists x :: Reaches(edges, id, x) && OnCycle(edges, x)
      ensures !found ==> Valid() && visiting == old(visiting) && id in visited && old(visited) <= visited
      decreases universe - visiting - visited
    {
      if id in visiting {
        assert Reaches(edges, id, id) && OnCycle(edges, id);
        return true;
      }
      if id in visited {
        return false;
      }
      visiting := visiting + {id};
      var next := Listed(adjacency, id);
      for i := 0 to |next|
        invariant Valid() && visiting == old(visiting) + {id} && old(visited) <= visited
        invariant forall j :: 0 <= j < i ==> next[j] in visited
      {
        SuccessorsAreEdges(edges, id, next[i]);
        assert Edge(id, next[i]) in edges;
        forall v <- visiting ensures Leads(edges, v, next[i]) {
          LeadsFurther(edges, v, id, next[i]);
        }
        assert id in universe - old(visiting) - old(visited) && id !in universe - visiting - visited;
        var cycle := Visit(next[i]);
        if cycle {
          ghost var x :| Reaches(edges, next[i], x) && OnCycle(edges, x);
          LeadsAfter(edges, id, next[i], x);
          return true;
        }
      }
      Leave(id, next);
      visiting := visiting - {id};
      visited := visited + {id};
      return false;
    }

    /** A node whose successors have all been left behind can be left behind as well. */
    lemma Leave(id: Id, next: seq<Id>)
      requires Valid() && id in visiting && next == Listed(adjacency, id)
      requires forall j :: 0 <= j < |next| ==> next[j] in visited
      ensures Closed(edges, visited + {id}) && !OnCycle(edges, id)
    {
      forall e <- edges | e.from == id ensures e.to in visited {
        SuccessorsAreEdges(edges, id, e.to);
      }
      if OnCycle(edges, id) {
        var b := CycleLeaves(edges, id);
        ClosedTraps(edges, visited, b, id);
        assert false;
      }
    }
  }

  /** The check finds a cycle exactly when one can be reached from a listed node. */
  method FindCycle(ids: seq<Id>, edges: seq<Edge>) returns (found: bool)
    ensures found <==> exists id, x :: id in ids && Reaches(edges, id, x) && OnCycle(edges, x)
  {
    var adjacency := Adjacency(edges);
    ghost var universe := Endpoints(edges) + set id <- ids;
    var search := new CycleSearch(edges, adjacency, universe);
    for i := 0 to |ids|
      invariant search.edges == edges && search.universe == universe
      invariant search.Valid() && search.visiting == {}
      invariant forall j :: 0 <= j < i ==> ids[j] in search.visited
    {
      var cycle := search.Visit(ids[i]);
      if cycle {
        ghost var x :| Reaches(edges, ids[i], x) && OnCycle(edges, x);
        assert ids[i] in ids;
        return true;
      }
    }
    forall id, x | id in ids && Reaches(edges, id, x) ensures !OnCycle(edges, x) {
      ClosedTraps(edges, search.visited, id, x);
    }
    return false;
  }

  /** When both ends of every edge are listed, a reachable cycle is just a cycle. */
  lemma CycleOfListedNodes(ids: seq<Id>, edges: seq<Edge>)
    requires forall e <- edges :: e.from in ids && e.to in ids
    ensures (exists id, x :: id in ids && Reaches(edges, id, x) && OnCycle(edges, x))
       <==> (exists x :: OnCycle(edges, x))
  {
    if x :| OnCycle(edges, x) {
      var b := CycleLeaves(edges, x);
      assert x in ids && Reaches(edges, x, x);
    }
  }

  // ---------------------------------------------------------------- reachability

  /** The fixpoint loop computes exactly the nodes that can be reached from the root. */
  method ReachableFrom(root: Id, edges: seq<Edge>) returns (reachable: set<Id>)
    ensures forall id :: id in reachable <==> Reaches(edges, root, id)
  {
    reachable := {root};
    var changed := true;
    ghost var universe := Endpoints(edges) + {root};
    while changed
      invariant root in reachable && reachable <= universe
      invariant forall id <- reachable :: Reaches(edges, root, id)
      invariant !changed ==> Closed(edges, reachable)
      decreases universe - reachable, changed
    {
      ghost var before := reachable;
      changed := false;
      for i := 0 to |edges|
        invariant before <= reachable <= universe
        invariant forall id <- reachable :: Reaches(edges, root, id)
        invariant !changed ==> reachable == before && Closed(edges[..i], reachable)
        invariant changed ==> before < reachable
      {
        if edges[i].from in reachable && edges[i].to !in reachable {
          assert edges[i] in edges && edges[i] == Edge(edges[i].from, edges[i].to);
          LeadsFurther(edges, root, edges[i].from, edges[i].to);
          reachable := reachable + {edges[i].to};
          changed := true;
        }
        assert edges[..i + 1] == edges[..i] + [edges[i]];
      }
      assert edges[..|edges|] == edges;
    }
    forall id | Reaches(edges, root, id) ensures id in reachable {
      ClosedTraps(edges, reachable, root, id);
    }
  }
}
