/** Causal navigation: the checks on an evidence graph and the timeline of what its root led to. */
module CausalNavigation {
  import opened Wrappers
  import opened Texts
  import opened CausalGraph
  import opened Sequences

  datatype Kind =
    ActionIntent | Decision | Event | Execution | Readback | Recovery | Release | Request | Trace

  /** `observedAt` is the parsed time, none if it does not parse; `collation` is the place of the node id in the
      locale's order, which distinct ids may share. */
  datatype Node = Node(
    nodeId: Id, tenant: Text, kind: Kind, authoritative: bool, readbackRef: Option<Text>,
    observedAt: Option<int>, collation: int)

  datatype Violation =
    | DuplicateNode(id: Id)
    | InvalidObservedAt(id: Id)
    | InvalidReadback(id: Id)
    | TraceClaimedAuthority(id: Id)
    | MissingEdgeNode(from: Id, to: Id)
    | CausalCycle

  // ---------------------------------------------------------------- violations

  predicate Names(s: seq<Node>, id: Id) { exists n <- s :: n.nodeId == id }

  predicate ReadbackHolds(n: Node) {
    n.kind == Readback ==> n.authoritative && n.readbackRef.Some? && n.readbackRef.value != []
  }

  function NodeFindings(earlier: seq<Node>, n: Node): seq<Violation> {
    (if Names(earlier, n.nodeId) then [DuplicateNode(n.nodeId)] else [])
    + (if n.observedAt.None? then [InvalidObservedAt(n.nodeId)] else [])
    + (if !ReadbackHolds(n) then [InvalidReadback(n.nodeId)] else [])
    + (if n.kind == Trace && n.authoritative then [TraceClaimedAuthority(n.nodeId)] else [])
  }

  function AllNodeFindings(nodes: seq<Node>): seq<Violation> {
    if nodes == [] then []
    else
      var init := nodes[..|nodes| - 1];
      AllNodeFindings(init) + NodeFindings(init, nodes[|nodes| - 1])
  }

  predicate EdgeListed(nodes: seq<Node>, e: Edge) { Names(nodes, e.from) && Names(nodes, e.to) }

  function EdgeFindings(nodes: seq<Node>, edges: seq<Edge>): seq<Violation> {
    if edges == [] then []
    else
      var e := edges[|edges| - 1];
      EdgeFindings(nodes, edges[..|edges| - 1])
      + (if EdgeListed(nodes, e) then [] else [MissingEdgeNode(e.from, e.to)])
  }

  ghost predicate CycleFromListed(nodes: seq<Node>, edges: seq<Edge>) {
    exists id, x :: Names(nodes, id) && Reaches(edges, id, x) && OnCycle(edges, x)
  }

  method NodeViolations(nodes: seq<Node>) returns (ids: seq<Id>, violations: seq<Violation>)
    ensures violations == AllNodeFindings(nodes)
    ensures forall id :: id in ids <==> Names(nodes, id)
  {
    hide Names;
    assert forall id :: !Names([], id) by { NothingNamed(); }
    violations, ids := [], [];
    for i := 0 to |nodes|
      invariant violations == AllNodeFindings(nodes[..i])
      invariant forall id :: id in ids <==> Names(nodes[..i], id)
    {
      var node := nodes[i];
      assert nodes[..i + 1][..i] == nodes[..i];
      NamesGrow(nodes, i);
      if node.nodeId in ids {
        violations := violations + [DuplicateNode(node.nodeId)];
      } else {
        ids := ids + [node.nodeId];
      }
      if node.observedAt.None? {
        violations := violations + [InvalidObservedAt(node.nodeId)];
      }
      if node.kind == Readback && (!node.authoritative || node.readbackRef.None? || node.readbackRef.value == []) {
        violations := violations + [InvalidReadback(node.nodeId)];
      }
      if node.kind == Trace && node.authoritative {
        violations := violations + [TraceClaimedAuthority(node.nodeId)];
      }
    }
    assert nodes[..|nodes|] == nodes;
  }

  method CausalGraphViolations(nodes: seq<Node>, edges: seq<Edge>) returns (violations: seq<Violation>)
    ensures violations == AllNodeFindings(nodes) + EdgeFindings(nodes, edges)
                          + if CycleFromListed(nodes, edges) then [CausalCycle] else []
  {
    hide AllNodeFindings, Names, CycleFromListed;
    var ids;
    ids, violations := NodeViolations(nodes);
    for i := 0 to |edges|
      invariant violations == AllNodeFindings(nodes) + EdgeFindings(nodes, edges[..i])
    {
      assert edges[..i + 1][..i] == edges[..i];
      if edges[i].from !in ids || edges[i].to !in ids {
        violations := violations + [MissingEdgeNode(edges[i].from, edges[i].to)];
      }
    }
    assert edges[..|edges|] == edges;
    var cyclic := FindCycle(ids, edges);
    CycleListed(ids, nodes, edges);
    if cyclic {
      violations := violations + [CausalCycle];
    }
  }

  lemma CycleListed(ids: seq<Id>, nodes: seq<Node>, edges: seq<Edge>)
    requires forall id :: id in ids <==> Names(nodes, id)
    ensures CycleFromListed(nodes, edges) <==>
            exists id, x :: id in ids && Reaches(edges, id, x) && OnCycle(edges, x)
  {
    hide Names, Reaches, OnCycle;
  }

  lemma NothingNamed()
    ensures forall id :: !Names([], id)
  {}

  lemma NamesGrow(nodes: seq<Node>, i: nat)
    requires i < |nodes|
    ensures forall id :: Names(nodes[..i + 1], id) <==> Names(nodes[..i], id) || nodes[i].nodeId == id
  {
    assert nodes[..i + 1] == nodes[..i] + [nodes[i]];
    assert nodes[i] in nodes[..i + 1];
  }

  ghost predicate DistinctIds(s: seq<Node>) {
    forall i, j :: 0 <= i < j < |s| ==> s[i].nodeId != s[j].nodeId
  }

  /** What a graph without violations satisfies. */
  ghost predicate Sound(nodes: seq<Node>, edges: seq<Edge>) {
    && DistinctIds(nodes)
    && (forall n <- nodes ::
          && n.observedAt.Some?
          && (n.kind == Readback ==> n.authoritative && n.readbackRef.Some? && n.readbackRef.value != [])
          && (n.kind == Trace ==> !n.authoritative))
    && (forall e <- edges :: (exists n <- nodes :: n.nodeId == e.from) && exists n <- nodes :: n.nodeId == e.to)
    && (forall x :: !OnCycle(edges, x))
  }

  lemma {:induction false} NodeFindingsExactly(nodes: seq<Node>)
    ensures AllNodeFindings(nodes) == [] <==>
            DistinctIds(nodes)
            && forall n <- nodes :: n.observedAt.Some? && ReadbackHolds(n) && (n.kind == Trace ==> !n.authoritative)
  {
    if nodes != [] {
      var init, last := nodes[..|nodes| - 1], nodes[|nodes| - 1];
      NodeFindingsExactly(init);
      assert nodes == init + [last];
      DistinctGrow(init, last);
    }
  }

  lemma DistinctGrow(init: seq<Node>, last: Node)
    ensures DistinctIds(init + [last]) <==> DistinctIds(init) && !Names(init, last.nodeId)
  {
    var all := init + [last];
    if DistinctIds(all) {
      assert forall i :: 0 <= i < |init| ==> init[i] == all[i] && all[i].nodeId != all[|init|].nodeId;
    }
  }

  lemma SameIdSameNode(nodes: seq<Node>, m: Node, n: Node)
    requires DistinctIds(nodes) && m in nodes && n in nodes && m.nodeId == n.nodeId
    ensures m == n
  {}

  lemma {:induction false} EdgeFindingsExactly(nodes: seq<Node>, edges: seq<Edge>)
    ensures EdgeFindings(nodes, edges) == [] <==> forall e <- edges :: EdgeListed(nodes, e)
  {
    if edges != [] {
      EdgeFindingsExactly(nodes, edges[..|edges| - 1]);
      assert edges == edges[..|edges| - 1] + [edges[|edges| - 1]];
    }
  }

  /** No violation is reported exactly for graphs with distinct nodes, valid evidence, both ends of every edge
      listed and no directed cycle. */
  lemma NoViolationExactly(nodes: seq<Node>, edges: seq<Edge>)
    ensures Sound(nodes, edges) <==>
            AllNodeFindings(nodes) == [] && EdgeFindings(nodes, edges) == [] && !CycleFromListed(nodes, edges)
  {
    NodeFindingsExactly(nodes);
    EdgeFindingsExactly(nodes, edges);
    if forall e <- edges :: EdgeListed(nodes, e) {
      forall x | OnCycle(edges, x) ensures CycleFromListed(nodes, edges) {
        var b := CycleLeaves(edges, x);
        assert EdgeListed(nodes, Edge(x, b)) && Reaches(edges, x, x);
      }
    }
  }

  /** What is wrong with a node after those before it: an id that one of them has, a time that does not parse, a
      readback without authority or reference, a trace that claims authority. */
  ghost predicate Faulty(earlier: seq<Node>, n: Node, v: Violation) {
    match v
    case DuplicateNode(id) => n.nodeId == id && exists m <- earlier :: m.nodeId == id
    case InvalidObservedAt(id) => n.nodeId == id && n.observedAt.None?
    case InvalidReadback(id) =>
      n.nodeId == id && n.kind == Readback && (!n.authoritative || n.readbackRef.None? || n.readbackRef.value == [])
    case TraceClaimedAuthority(id) => n.nodeId == id && n.kind == Trace && n.authoritative
    case _ => false
  }

  lemma LastFindings(earlier: seq<Node>, n: Node, v: Violation)
    ensures v in NodeFindings(earlier, n) <==> Faulty(earlier, n, v)
  {}

  /** A finding about nodes is made exactly when some node has that fault. */
  lemma {:induction false} FindingsExactly(nodes: seq<Node>, v: Violation)
    ensures v in AllNodeFindings(nodes) <==> exists k :: 0 <= k < |nodes| && Faulty(nodes[..k], nodes[k], v)
  {
    hide NodeFindings, Faulty;
    if nodes != [] {
      var last := |nodes| - 1;
      var init := nodes[..last];
      FindingsExactly(init, v);
      LastFindings(init, nodes[last], v);
      assert forall k :: 0 <= k < last ==> init[..k] == nodes[..k] && init[k] == nodes[k];
    }
  }

  lemma {:induction false} EdgeFindingsAre(nodes: seq<Node>, edges: seq<Edge>, v: Violation)
    ensures v in EdgeFindings(nodes, edges) <==>
              v.MissingEdgeNode? && Edge(v.from, v.to) in edges
              && ((forall n <- nodes :: n.nodeId != v.from) || forall n <- nodes :: n.nodeId != v.to)
  {
    if edges != [] {
      EdgeFindingsAre(nodes, edges[..|edges| - 1], v);
      assert edges == edges[..|edges| - 1] + [edges[|edges| - 1]];
    }
  }

  // ---------------------------------------------------------------- timeline

  predicate NotAfter(a: Node, b: Node)
    requires a.observedAt.Some? && b.observedAt.Some?
  {
    a.observedAt.value < b.observedAt.value
    || (a.observedAt == b.observedAt && a.collation <= b.collation)
  }

  predicate Timed(s: seq<Node>) { forall n <- s :: n.observedAt.Some? }

  function Chosen(nodes: seq<Node>, reachable: set<Id>): seq<Node> {
    if nodes == [] then []
    else (if nodes[0].nodeId in reachable then [nodes[0]] else []) + Chosen(nodes[1..], reachable)
  }

  /** Puts a node before everything that it is not after. */
  function Insert(n: Node, s: seq<Node>): (r: seq<Node>)
    requires Timed([n] + s)
    ensures multiset(r) == multiset([n] + s) && Timed(r)
  {
    assert forall m <- s :: m in [n] + s;
    assert n in [n] + s;
    if s == [] || NotAfter(n, s[0]) then [n] + s
    else
      assert s == [s[0]] + s[1..];
      [s[0]] + Insert(n, s[1..])
  }

  /** The stable sort by time, then by place in the locale's order. */
  function Sort(s: seq<Node>): (r: seq<Node>)
    requires Timed(s)
    ensures multiset(r) == multiset(s) && Timed(r)
  {
    if s == [] then []
    else
      assert s == [s[0]] + s[1..];
      Insert(s[0], Sort(s[1..]))
  }

  ghost predicate BeforeAll(n: Node, s: seq<Node>)
    requires n.observedAt.Some? && Timed(s)
  {
    forall m <- s :: NotAfter(n, m)
  }

  /** No node stands before an earlier one. */
  ghost predicate Ordered(s: seq<Node>)
    requires Timed(s)
  {
    s != [] ==>
      assert s == [s[0]] + s[1..];
      BeforeAll(s[0], s[1..]) && Ordered(s[1..])
  }

  /** Earlier, or at the same time and no later in the locale's order. */
  predicate Earlier(a: Node, b: Node)
    requires a.observedAt.Some? && b.observedAt.Some?
  {
    || a.observedAt.value < b.observedAt.value
    || (a.observedAt.value == b.observedAt.value && a.collation <= b.collation)
  }

  lemma BeforeAllExactly(n: Node, s: seq<Node>)
    requires n.observedAt.Some? && Timed(s)
    ensures BeforeAll(n, s) <==> forall j :: 0 <= j < |s| ==> s[j].observedAt.Some? && Earlier(n, s[j])
  {
    assert forall j :: 0 <= j < |s| ==> s[j] in s;
    assert forall m <- s :: exists j :: 0 <= j < |s| && s[j] == m;
  }

  /** In order means: times never fall, and at one time the places in the locale's order never fall. */
  lemma {:induction false} OrderedExactly(s: seq<Node>)
    requires Timed(s)
    ensures Ordered(s) <==> forall i, j :: 0 <= i < j < |s| ==>
              s[i].observedAt.Some? && s[j].observedAt.Some? && Earlier(s[i], s[j])
  {
    if s != [] {
      var rest := s[1..];
      assert s == [s[0]] + rest;
      BeforeAllExactly(s[0], rest);
      OrderedExactly(rest);
      hide Earlier, BeforeAll;
      assert forall j :: 0 <= j < |rest| ==> rest[j] == s[j + 1];
      if Ordered(s) {
        forall i, j | 0 <= i < j < |s|
          ensures s[i].observedAt.Some? && s[j].observedAt.Some? && Earlier(s[i], s[j])
        {
          assert s[j] == rest[j - 1];
          if i > 0 {
            assert s[i] == rest[i - 1];
          }
        }
      }
    }
  }

  lemma BeforeInserted(k: Node, n: Node, s: seq<Node>)
    requires k.observedAt.Some? && Timed([n] + s) && Timed(s) && BeforeAll(k, s) && NotAfter(k, n)
    ensures BeforeAll(k, Insert(n, s))
  {
    var r := Insert(n, s);
    forall m | m in r ensures NotAfter(k, m) {
      assert m in multiset(r);
      assert m == n || m in s;
    }
  }

  lemma {:induction false} InsertOrders(n: Node, s: seq<Node>)
    requires n.observedAt.Some? && Timed([n] + s) && Timed(s) && Ordered(s)
    ensures Ordered(Insert(n, s))
  {
    if s == [] {
    } else if NotAfter(n, s[0]) {
      assert Insert(n, s)[1..] == s;
      assert s == [s[0]] + s[1..];
    } else {
      hide BeforeAll;
      assert s == [s[0]] + s[1..];
      InsertOrders(n, s[1..]);
      BeforeInserted(s[0], n, s[1..]);
      assert Insert(n, s)[1..] == Insert(n, s[1..]);
    }
  }

  lemma {:induction false} SortOrders(s: seq<Node>)
    requires Timed(s)
    ensures Ordered(Sort(s))
  {
    if s != [] {
      assert s == [s[0]] + s[1..];
      SortOrders(s[1..]);
      InsertOrders(s[0], Sort(s[1..]));
    }
  }

  /** The nodes that the order cannot tell from `n`, in their order. */
  function Ties(n: Node, s: seq<Node>): seq<Node> {
    if s == [] then [] else Tie(n, s[0]) + Ties(n, s[1..])
  }

  function Tie(n: Node, m: Node): seq<Node> {
    if m.observedAt == n.observedAt && m.collation == n.collation then [m] else []
  }

  lemma TiesCons(k: Node, n: Node, s: seq<Node>)
    ensures Ties(k, [n] + s) == Tie(k, n) + Ties(k, s)
  {
    assert ([n] + s)[1..] == s;
  }

  lemma {:induction false} InsertKeepsTies(k: Node, n: Node, s: seq<Node>)
    requires Timed([n] + s)
    ensures Ties(k, Insert(n, s)) == Ties(k, [n] + s)
  {
    hide Ties;
    assert n in [n] + s;
    if s != [] && !NotAfter(n, s[0]) {
      assert s == [s[0]] + s[1..];
      InsertKeepsTies(k, n, s[1..]);
      TiesCons(k, n, s[1..]);
      TiesCons(k, n, s);
      TiesCons(k, s[0], s[1..]);
      TiesCons(k, s[0], Insert(n, s[1..]));
      assert Tie(k, n) == [] || Tie(k, s[0]) == [];
    }
  }

  /** Nodes that tie stay in the order in which the caller listed them. */
  lemma {:induction false} SortIsStable(k: Node, s: seq<Node>)
    requires Timed(s)
    ensures Ties(k, Sort(s)) == Ties(k, s)
  {
    if s != [] {
      assert s == [s[0]] + s[1..];
      SortIsStable(k, s[1..]);
      InsertKeepsTies(k, s[0], Sort(s[1..]));
      TiesCons(k, s[0], Sort(s[1..]));
    }
  }

  lemma {:induction false} ChosenExactly(nodes: seq<Node>, reachable: set<Id>)
    requires DistinctIds(nodes)
    ensures forall n :: n in Chosen(nodes, reachable) <==> n in nodes && n.nodeId in reachable
    ensures forall n :: multiset(Chosen(nodes, reachable))[n] <= 1
  {
    if nodes != [] {
      ChosenExactly(nodes[1..], reachable);
      assert nodes == [nodes[0]] + nodes[1..];
      assert nodes[0] !in nodes[1..];
      var rest := Chosen(nodes[1..], reachable);
      assert nodes[0] !in rest;
      assert multiset([nodes[0]] + rest) == multiset{nodes[0]} + multiset(rest);
    }
  }

  lemma OnceEachDistinct(s: seq<Node>, nodes: seq<Node>)
    requires DistinctIds(nodes) && (forall n <- s :: n in nodes) && forall n :: multiset(s)[n] <= 1
    ensures DistinctIds(s)
  {
    forall i, j | 0 <= i < j < |s| ensures s[i].nodeId != s[j].nodeId {
      if s[i].nodeId == s[j].nodeId {
        SameIdSameNode(nodes, s[i], s[j]);
        TwiceCounts(s, i, j);
      }
    }
  }

  function FirstReadback(s: seq<Node>): Option<Node> {
    if s == [] then None
    else if s[0].kind == Readback && s[0].authoritative then Some(s[0])
    else FirstReadback(s[1..])
  }

  // ---------------------------------------------------------------- navigation

  datatype Navigation = Navigation(root: Id, tenant: Text, timeline: seq<Node>, confirmedReadback: Option<Node>)

  datatype NavigationError =
    IdentityRequired | InvalidGraph(violations: seq<Violation>) | RootMissing | CrossTenant(id: Id)

  /** The timeline lists every reachable node, once, in order. */
  ghost predicate IsTimeline(timeline: seq<Node>, nodes: seq<Node>, edges: seq<Edge>, root: Id) {
    && Timed(timeline) && Ordered(timeline) && DistinctIds(timeline)
    && (forall n :: n in timeline <==> n in nodes && Reaches(edges, root, n.nodeId))
  }

  method BuildCausalNavigation(actor: Text, purpose: Text, tenant: Text, root: Id, nodes: seq<Node>, edges: seq<Edge>)
    returns (result: Result<Navigation, NavigationError>)
    ensures result.Ok? <==>
      && !Blank(actor) && !Blank(purpose) && !Blank(tenant)
      && Sound(nodes, edges) && Names(nodes, root) && forall n <- nodes :: n.tenant == tenant
    ensures result.Ok? ==>
      && result.value.root == root && result.value.tenant == tenant
      && IsTimeline(result.value.timeline, nodes, edges, root)
      && result.value.confirmedReadback == FirstReadback(result.value.timeline)
    ensures result.Err? && result.error.InvalidGraph? ==> result.error.violations != []
    ensures result.Err? && result.error.CrossTenant? ==>
      Sound(nodes, edges) && exists n <- nodes :: n.nodeId == result.error.id && n.tenant != tenant
  {
    if Blank(actor) || Blank(purpose) || Blank(tenant) {
      return Err(IdentityRequired);
    }
    var violations := CausalGraphViolations(nodes, edges);
    NoViolationExactly(nodes, edges);
    if violations != [] {
      return Err(InvalidGraph(violations));
    }
    if !Names(nodes, root) {
      return Err(RootMissing);
    }
    for i := 0 to |nodes|
      invariant forall j :: 0 <= j < i ==> nodes[j].tenant == tenant
    {
      if nodes[i].tenant != tenant {
        return Err(CrossTenant(nodes[i].nodeId));
      }
    }
    var reachable := ReachableFrom(root, edges);
    var timeline := Timeline(nodes, edges, root, reachable);
    return Ok(Navigation(root, tenant, timeline, FirstReadback(timeline)));
  }

  method Timeline(nodes: seq<Node>, edges: seq<Edge>, root: Id, reachable: set<Id>) returns (timeline: seq<Node>)
    requires Sound(nodes, edges) && forall id :: id in reachable <==> Reaches(edges, root, id)
    ensures IsTimeline(timeline, nodes, edges, root)
  {
    var chosen := Chosen(nodes, reachable);
    ChosenExactly(nodes, reachable);
    timeline := Sort(chosen);
    SortOrders(chosen);
    assert forall n :: n in timeline <==> n in multiset(timeline);
    assert forall n :: n in chosen <==> n in multiset(chosen);
    OnceEachDistinct(timeline, nodes);
  }

  /** An outcome counts as confirmed exactly when a readback can be reached from the root, and that readback then
      carries an authoritative source reference. */
  lemma {:induction false} ConfirmedExactly(timeline: seq<Node>, nodes: seq<Node>, edges: seq<Edge>, root: Id)
    requires Sound(nodes, edges) && IsTimeline(timeline, nodes, edges, root)
    ensures FirstReadback(timeline).Some? <==>
            exists n <- nodes :: n.kind == Readback && Reaches(edges, root, n.nodeId)
    ensures FirstReadback(timeline).Some? ==>
            var n := FirstReadback(timeline).value;
            && n in nodes && Reaches(edges, root, n.nodeId) && n.authoritative && n.readbackRef.Some?
            && forall m <- nodes :: m.kind == Readback && Reaches(edges, root, m.nodeId) ==> NotAfter(n, m)
  {
    FirstReadbackIsFirst(timeline);
    if FirstReadback(timeline).Some? {
      var n := FirstReadback(timeline).value;
      forall m | m in nodes && m.kind == Readback && Reaches(edges, root, m.nodeId) ensures NotAfter(n, m) {
        assert m in timeline && ReadbackHolds(m);
      }
    } else {
      forall m | m in nodes && Reaches(edges, root, m.nodeId) ensures m.kind != Readback {
        assert m in timeline && ReadbackHolds(m);
      }
    }
  }

  lemma {:induction false} FirstReadbackIsFirst(s: seq<Node>)
    requires Timed(s) && Ordered(s)
    ensures var r := FirstReadback(s);
            if r.None? then forall m <- s :: !(m.kind == Readback && m.authoritative)
            else && r.value in s && r.value.kind == Readback && r.value.authoritative
                 && forall m <- s :: m.kind == Readback && m.authoritative ==> NotAfter(r.value, m)
  {
    if s != [] {
      assert s == [s[0]] + s[1..];
      FirstReadbackIsFirst(s[1..]);
    }
  }
}
