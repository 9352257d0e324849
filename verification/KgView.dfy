/** The neighbourhood of a node in the knowledge graph: a level-by-level search over an undirected multigraph. */
module KgView {
  import opened Collections

  /** `caption` is the source's `label` field, `cls` its `class` field. */
  datatype KgNode = KgNode(id: string, caption: string, cls: string)

  datatype KgEdge = KgEdge(id: string, source: string, target: string)

  datatype GraphResponse = GraphResponse(root: string, nodes: seq<KgNode>, edges: seq<KgEdge>)

  // ---------- Node ids ----------

  predicate StartsWith(s: string, prefix: string) {
    prefix <= s
  }

  /** Long entity prefixes are shortened to the ones the graph uses. */
  function NormalizeKgNodeId(id: string): string {
    if StartsWith(id, "satellite:") then "sat:" + id[|"satellite:"|..]
    else if StartsWith(id, "operator:") then "op:" + id[|"operator:"|..]
    else if StartsWith(id, "orbit_regime:") then "regime:" + id[|"orbit_regime:"|..]
    else if StartsWith(id, "f:") then "finding:" + id[|"f:"|..]
    else id
  }

  /** Normalizing twice changes nothing more. */
  lemma NormalizeIdempotent(id: string)
    ensures NormalizeKgNodeId(NormalizeKgNodeId(id)) == NormalizeKgNodeId(id)
  {
    var n := NormalizeKgNodeId(id);
    if n != id {
      var c := n[0];
      assert "satellite:"[0] == 's' && "satellite:"[2] == 't' && "satellite:"[3] == 'e';
      assert "operator:"[1] == 'p' && "operator:"[2] == 'e' && "orbit_regime:"[0] == 'o' && "orbit_regime:"[1] == 'r';
      assert "f:"[1] == ':';
      assert StartsWith(n, "sat:") || StartsWith(n, "op:") || StartsWith(n, "regime:") || StartsWith(n, "finding:");
      assert "sat:"[3] == ':' && "op:"[2] == ':' && "regime:"[0] == 'r' && "finding:"[1] == 'i';
    }
  }

  /** The four long prefixes are replaced, the rest of the id is kept, and any other id is left as it is. */
  lemma NormalizeMeaning(rest: string)
    ensures NormalizeKgNodeId("satellite:" + rest) == "sat:" + rest
    ensures NormalizeKgNodeId("operator:" + rest) == "op:" + rest
    ensures NormalizeKgNodeId("orbit_regime:" + rest) == "regime:" + rest
    ensures NormalizeKgNodeId("f:" + rest) == "finding:" + rest
    ensures !("satellite:" <= rest) && !("operator:" <= rest) && !("orbit_regime:" <= rest) && !("f:" <= rest) ==>
              NormalizeKgNodeId(rest) == rest
  {
    ReplacedPrefix("satellite:", rest);
    ReplacedPrefix("operator:", rest);
    ReplacedPrefix("orbit_regime:", rest);
    ReplacedPrefix("f:", rest);
    OtherPrefixes(rest);
  }

  lemma ReplacedPrefix(prefix: string, rest: string)
    ensures StartsWith(prefix + rest, prefix) && (prefix + rest)[|prefix|..] == rest
  {
  }

  /** No long prefix is a prefix of an id that starts with another. */
  lemma OtherPrefixes(rest: string)
    ensures !StartsWith("operator:" + rest, "satellite:")
    ensures !StartsWith("orbit_regime:" + rest, "satellite:") && !StartsWith("orbit_regime:" + rest, "operator:")
    ensures !StartsWith("f:" + rest, "satellite:") && !StartsWith("f:" + rest, "operator:")
            && !StartsWith("f:" + rest, "orbit_regime:")
  {
    assert "satellite:"[0] == 's' && "operator:"[0] == 'o' && "operator:"[1] == 'p' && "orbit_regime:"[0] == 'o'
        && "orbit_regime:"[1] == 'r' && "f:"[0] == 'f';
    assert ("operator:" + rest)[0] == 'o' && ("orbit_regime:" + rest)[0] == 'o' && ("orbit_regime:" + rest)[1] == 'r'
        && ("f:" + rest)[0] == 'f';
  }

  // ---------- Distance ----------

  predicate Joins(e: KgEdge, u: string, v: string) {
    (e.source == u && e.target == v) || (e.source == v && e.target == u)
  }

  ghost predicate Adjacent(edges: seq<KgEdge>, u: string, v: string) {
    exists e :: e in edges && Joins(e, u, v)
  }

  /** A walk along edges. */
  ghost predicate IsPath(edges: seq<KgEdge>, path: seq<string>) {
    path != [] && forall i, j :: 0 <= i && j == i + 1 && j < |path| ==> Adjacent(edges, path[i], path[j])
  }

  ghost predicate PathTo(edges: seq<KgEdge>, root: string, d: nat, v: string, path: seq<string>) {
    IsPath(edges, path) && path[0] == root && path[|path| - 1] == v && |path| <= d + 1
  }

  /** `v` can be reached from `root` over at most `d` edges. */
  ghost predicate WithinDistance(edges: seq<KgEdge>, root: string, d: nat, v: string) {
    exists path :: PathTo(edges, root, d, v, path)
  }

  /** Some edge leads from the set to `v`. */
  ghost predicate Reaches(edges: seq<KgEdge>, us: set<string>, v: string) {
    exists e :: e in edges && ((e.source in us && e.target == v) || (e.target in us && e.source == v))
  }

  ghost function EndsAcross(e: KgEdge, us: set<string>): set<string> {
    (if e.source in us then {e.target} else {}) + (if e.target in us then {e.source} else {})
  }

  ghost function NeighboursOf(edges: seq<KgEdge>, us: set<string>): set<string> {
    if edges == [] then {}
    else NeighboursOf(edges[..|edges| - 1], us) + EndsAcross(edges[|edges| - 1], us)
  }

  lemma {:induction false} NeighboursReach(edges: seq<KgEdge>, us: set<string>, v: string)
    ensures v in NeighboursOf(edges, us) <==> Reaches(edges, us, v)
  {
    if edges != [] {
      var n := |edges| - 1;
      NeighboursReach(edges[..n], us, v);
      assert forall e :: e in edges <==> e in edges[..n] || e == edges[n];
    }
  }

  /** The ball of radius `d`. */
  ghost function Ball(edges: seq<KgEdge>, root: string, d: nat): set<string> {
    if d == 0 then {root} else Ball(edges, root, d - 1) + NeighboursOf(edges, Ball(edges, root, d - 1))
  }

  lemma PathSnoc(edges: seq<KgEdge>, path: seq<string>, v: string)
    requires IsPath(edges, path) && Adjacent(edges, path[|path| - 1], v)
    ensures IsPath(edges, path + [v])
  {
  }

  lemma ReachedFrom(edges: seq<KgEdge>, us: set<string>, v: string) returns (u: string)
    requires Reaches(edges, us, v)
    ensures u in us && Adjacent(edges, u, v)
  {
    var e :| e in edges && ((e.source in us && e.target == v) || (e.target in us && e.source == v));
    u := if e.source in us && e.target == v then e.source else e.target;
    assert Joins(e, u, v);
  }

  lemma {:induction false} BallHasPath(edges: seq<KgEdge>, root: string, d: nat, v: string) returns (path: seq<string>)
    requires v in Ball(edges, root, d)
    ensures PathTo(edges, root, d, v, path)
  {
    if d == 0 {
      path := [root];
    } else if v in Ball(edges, root, d - 1) {
      path := BallHasPath(edges, root, d - 1, v);
    } else {
      var inner := Ball(edges, root, d - 1);
      NeighboursReach(edges, inner, v);
      var u := ReachedFrom(edges, inner, v);
      path := BallHasPath(edges, root, d - 1, u);
      PathSnoc(edges, path, v);
      path := path + [v];
    }
  }

  lemma {:induction false} PathInBall(edges: seq<KgEdge>, root: string, path: seq<string>)
    requires IsPath(edges, path) && path[0] == root
    ensures path[|path| - 1] in Ball(edges, root, |path| - 1)
    decreases |path|
  {
    var n := |path| - 1;
    if n > 0 {
      var u, v := path[n - 1], path[n];
      PathInBall(edges, root, path[..n]);
      assert Adjacent(edges, u, v);
      var e :| e in edges && Joins(e, u, v);
      assert Reaches(edges, Ball(edges, root, n - 1), v);
      NeighboursReach(edges, Ball(edges, root, n - 1), v);
    }
  }

  lemma {:induction false} BallGrows(edges: seq<KgEdge>, root: string, c: nat, d: nat)
    requires c <= d
    ensures Ball(edges, root, c) <= Ball(edges, root, d)
    decreases d
  {
    if c < d {
      BallGrows(edges, root, c, d - 1);
    }
  }

  /** The ball is the set of nodes within that distance. */
  lemma BallIsDistance(edges: seq<KgEdge>, root: string, d: nat, v: string)
    ensures v in Ball(edges, root, d) <==> WithinDistance(edges, root, d, v)
  {
    if v in Ball(edges, root, d) {
      var path := BallHasPath(edges, root, d, v);
    }
    if WithinDistance(edges, root, d, v) {
      var path :| PathTo(edges, root, d, v, path);
      PathInBall(edges, root, path);
      BallGrows(edges, root, |path| - 1, d);
    }
  }

  /** Once a level adds nothing, no later level does: the early exit is sound. */
  lemma {:induction false} BallFixpoint(edges: seq<KgEdge>, root: string, c: nat, c': nat, d: nat)
    requires c' == c + 1 && c <= d && Ball(edges, root, c') == Ball(edges, root, c)
    ensures Ball(edges, root, d) == Ball(edges, root, c)
    decreases d
  {
    if c < d {
      BallFixpoint(edges, root, c, c', d - 1);
    }
  }

  // ---------- The edge index ----------

  function EdgesAt(index: map<string, seq<KgEdge>>, u: string): seq<KgEdge> {
    if u in index then index[u] else []
  }

  /** The edges entered for `u`; a self-loop is entered twice. */
  function IncidentEdges(edges: seq<KgEdge>, u: string): seq<KgEdge> {
    if edges == [] then []
    else
      var n := |edges| - 1;
      var e := edges[n];
      IncidentEdges(edges[..n], u) + (if e.source == u then [e] else []) + (if e.target == u then [e] else [])
  }

  lemma {:induction false} IncidentEdgesMembers(edges: seq<KgEdge>, u: string, e: KgEdge)
    ensures e in IncidentEdges(edges, u) <==> e in edges && (e.source == u || e.target == u)
  {
    if edges != [] {
      var n := |edges| - 1;
      IncidentEdgesMembers(edges[..n], u, e);
      assert e in edges <==> e in edges[..n] || e == edges[n];
    }
  }

  /** `addEdge` for the source and for the target. */
  function EnterEdge(index: map<string, seq<KgEdge>>, edge: KgEdge): map<string, seq<KgEdge>> {
    var atSource := index[edge.source := EdgesAt(index, edge.source) + [edge]];
    atSource[edge.target := EdgesAt(atSource, edge.target) + [edge]]
  }

  lemma EnterEdgeAt(index: map<string, seq<KgEdge>>, edge: KgEdge, u: string)
    ensures EdgesAt(EnterEdge(index, edge), u) ==
            EdgesAt(index, u) + (if edge.source == u then [edge] else []) + (if edge.target == u then [edge] else [])
  {
  }

  /** The index lists at every node the edges entered for it. */
  ghost predicate Indexes(index: map<string, seq<KgEdge>>, edges: seq<KgEdge>) {
    forall u :: EdgesAt(index, u) == IncidentEdges(edges, u)
  }

  method BuildEdgeIndex(edges: seq<KgEdge>) returns (index: map<string, seq<KgEdge>>)
    ensures Indexes(index, edges)
  {
    index := map[];
    for n := 0 to |edges|
      invariant Indexes(index, edges[..n])
    {
      ghost var before := index;
      index := EnterEdge(index, edges[n]);
      forall u ensures EdgesAt(index, u) == IncidentEdges(edges[..n + 1], u) {
        assert edges[..n + 1][..n] == edges[..n];
        EnterEdgeAt(before, edges[n], u);
      }
    }
    assert edges[..|edges|] == edges;
  }

  // ---------- Selected edges ----------

  /** `selectedEdges.set(edge.id, edge)` on a map that keeps its insertion order: an edge with a known id replaces
      the old one in place. */
  function PutEdge(selected: seq<KgEdge>, edge: KgEdge): seq<KgEdge> {
    if selected == [] then [edge]
    else if selected[0].id == edge.id then [edge] + selected[1..]
    else [selected[0]] + PutEdge(selected[1..], edge)
  }

  ghost predicate DistinctEdgeIds(edges: seq<KgEdge>) {
    forall i, j :: 0 <= i < j < |edges| ==> edges[i].id != edges[j].id
  }

  lemma {:induction false} PutEdgeFacts(selected: seq<KgEdge>, edge: KgEdge)
    requires DistinctEdgeIds(selected)
    ensures DistinctEdgeIds(PutEdge(selected, edge))
    ensures edge in PutEdge(selected, edge)
    ensures forall x :: x in PutEdge(selected, edge) ==> x == edge || x in selected
    ensures forall x :: x in selected ==> x in PutEdge(selected, edge) || x.id == edge.id
  {
    if selected != [] && selected[0].id != edge.id {
      var rest := selected[1..];
      PutEdgeFacts(rest, edge);
      forall x | x in PutEdge(rest, edge) ensures x.id != selected[0].id {
        assert x == edge || x in rest;
      }
    }
  }

  ghost predicate HasEdgeId(edges: seq<KgEdge>, id: string) {
    exists x :: x in edges && x.id == id
  }

  /** The selected edges are among `target`, with distinct ids, and no id of `target` is missing. */
  ghost predicate Selects(selected: seq<KgEdge>, target: set<KgEdge>) {
    && DistinctEdgeIds(selected)
    && (forall e :: e in selected ==> e in target)
    && (forall e :: e in target ==> HasEdgeId(selected, e.id))
  }

  lemma SelectsPut(selected: seq<KgEdge>, target: set<KgEdge>, edge: KgEdge)
    requires Selects(selected, target)
    ensures Selects(PutEdge(selected, edge), target + {edge})
  {
    PutEdgeFacts(selected, edge);
    forall e | e in target + {edge} ensures HasEdgeId(PutEdge(selected, edge), e.id) {
      if e.id != edge.id {
        assert HasEdgeId(selected, e.id);
        var x :| x in selected && x.id == e.id;
      }
    }
  }

  // ---------- One level ----------

  ghost function NodeSet(vs: seq<string>): set<string> {
    if vs == [] then {} else NodeSet(vs[..|vs| - 1]) + {vs[|vs| - 1]}
  }

  lemma {:induction false} NodeSetMembers(vs: seq<string>, v: string)
    ensures v in NodeSet(vs) <==> v in vs
  {
    if vs != [] {
      NodeSetMembers(vs[..|vs| - 1], v);
      assert v in vs <==> v in vs[..|vs| - 1] || v == vs[|vs| - 1];
    }
  }

  ghost function EdgeSet(es: seq<KgEdge>): set<KgEdge> {
    if es == [] then {} else EdgeSet(es[..|es| - 1]) + {es[|es| - 1]}
  }

  lemma {:induction false} EdgeSetMembers(es: seq<KgEdge>, e: KgEdge)
    ensures e in EdgeSet(es) <==> e in es
  {
    if es != [] {
      EdgeSetMembers(es[..|es| - 1], e);
      assert e in es <==> e in es[..|es| - 1] || e == es[|es| - 1];
    }
  }

  function OtherEnd(e: KgEdge, u: string): string {
    if e.source == u then e.target else e.source
  }

  /** The far ends of edges at `u`. */
  ghost function FarEnds(es: seq<KgEdge>, u: string): set<string> {
    if es == [] then {} else FarEnds(es[..|es| - 1], u) + {OtherEnd(es[|es| - 1], u)}
  }

  lemma {:induction false} FarEndsMembers(es: seq<KgEdge>, u: string, v: string)
    ensures v in FarEnds(es, u) <==> exists e :: e in es && OtherEnd(e, u) == v
  {
    if es != [] {
      var n := |es| - 1;
      FarEndsMembers(es[..n], u, v);
      assert es[n] in es;
      assert forall e :: e in es <==> e in es[..n] || e == es[n];
    }
  }

  /** What one level reaches and selects, node by node. */
  ghost function LevelEnds(edges: seq<KgEdge>, us: seq<string>): set<string> {
    if us == [] then {}
    else LevelEnds(edges, us[..|us| - 1]) + FarEnds(IncidentEdges(edges, us[|us| - 1]), us[|us| - 1])
  }

  ghost function LevelEdges(edges: seq<KgEdge>, us: seq<string>): set<KgEdge> {
    if us == [] then {}
    else LevelEdges(edges, us[..|us| - 1]) + EdgeSet(IncidentEdges(edges, us[|us| - 1]))
  }

  ghost predicate Incident(edges: seq<KgEdge>, us: set<string>, e: KgEdge) {
    e in edges && (e.source in us || e.target in us)
  }

  lemma {:induction false} LevelEndsReach(edges: seq<KgEdge>, us: seq<string>, v: string)
    ensures v in LevelEnds(edges, us) <==> Reaches(edges, NodeSet(us), v)
  {
    if us != [] {
      var n := |us| - 1;
      var u, init := us[n], NodeSet(us[..n]);
      LevelEndsReach(edges, us[..n], v);
      FarEndsMembers(IncidentEdges(edges, u), u, v);
      if v in FarEnds(IncidentEdges(edges, u), u) {
        var e :| e in IncidentEdges(edges, u) && OtherEnd(e, u) == v;
        IncidentEdgesMembers(edges, u, e);
        assert Reaches(edges, NodeSet(us), v);
      }
      if Reaches(edges, init, v) {
        var e :| e in edges && ((e.source in init && e.target == v) || (e.target in init && e.source == v));
        assert Reaches(edges, NodeSet(us), v);
      }
      if Reaches(edges, NodeSet(us), v) && !Reaches(edges, init, v) {
        var e :| e in edges && ((e.source in NodeSet(us) && e.target == v) ||
                                (e.target in NodeSet(us) && e.source == v));
        IncidentEdgesMembers(edges, u, e);
      }
    }
  }

  lemma {:induction false} LevelEdgesIncident(edges: seq<KgEdge>, us: seq<string>, e: KgEdge)
    ensures e in LevelEdges(edges, us) <==> Incident(edges, NodeSet(us), e)
  {
    if us != [] {
      var n := |us| - 1;
      LevelEdgesIncident(edges, us[..n], e);
      EdgeSetMembers(IncidentEdges(edges, us[n]), e);
      IncidentEdgesMembers(edges, us[n], e);
    }
  }

  lemma LevelSnoc(edges: seq<KgEdge>, us: seq<string>, n: nat, next: nat)
    requires n < |us| && next == n + 1
    ensures LevelEnds(edges, us[..next]) == LevelEnds(edges, us[..n]) + FarEnds(IncidentEdges(edges, us[n]), us[n])
    ensures LevelEdges(edges, us[..next]) == LevelEdges(edges, us[..n]) + EdgeSet(IncidentEdges(edges, us[n]))
  {
    assert us[..next][..n] == us[..n];
  }

  lemma FarEndsSnoc(es: seq<KgEdge>, u: string, n: nat, next: nat)
    requires n < |es| && next == n + 1
    ensures FarEnds(es[..next], u) == FarEnds(es[..n], u) + {OtherEnd(es[n], u)}
    ensures EdgeSet(es[..next]) == EdgeSet(es[..n]) + {es[n]}
  {
    assert es[..next][..n] == es[..n];
  }

  lemma UnionAssociates<T>(a: set<T>, b: set<T>, c: set<T>)
    ensures a + b + c == a + (b + c)
  {
  }

  lemma ConcatAssociates<T>(a: seq<T>, b: seq<T>, c: seq<T>)
    ensures a + b + c == a + (b + c)
  {
  }

  /** Seeing a node that was already seen changes nothing; a new one is appended once. */
  lemma NodeSetSnoc(vs: seq<string>, v: string)
    requires NoDuplicates(vs)
    ensures NodeSet(vs + [v]) == NodeSet(vs) + {v}
    ensures v in vs ==> NodeSet(vs) == NodeSet(vs) + {v}
    ensures v !in vs ==> NoDuplicates(vs + [v])
  {
    assert (vs + [v])[..|vs|] == vs;
    NodeSetMembers(vs, v);
  }

  /** The innermost loop: the edges at one node; `added` are the neighbours it pushes. */
  method ExpandNode(nodeId: string, incident: seq<KgEdge>, seen: seq<string>, selected: seq<KgEdge>,
                    ghost target: set<KgEdge>)
    returns (seen': seq<string>, selected': seq<KgEdge>, added: seq<string>)
    requires NoDuplicates(seen) && Selects(selected, target)
    ensures seen' == seen + added && NoDuplicates(seen')
    ensures NodeSet(seen') == NodeSet(seen) + FarEnds(incident, nodeId)
    ensures Selects(selected', target + EdgeSet(incident))
  {
    seen', selected', added := seen, selected, [];
    ghost var chosen := target;
    for m := 0 to |incident|
      invariant seen' == seen + added && NoDuplicates(seen')
      invariant NodeSet(seen') == NodeSet(seen) + FarEnds(incident[..m], nodeId)
      invariant chosen == target + EdgeSet(incident[..m]) && Selects(selected', chosen)
    {
      var edge := incident[m];
      FarEndsSnoc(incident, nodeId, m, m + 1);
      SelectsPut(selected', chosen, edge);
      selected' := PutEdge(selected', edge);
      UnionAssociates(target, EdgeSet(incident[..m]), {edge});
      chosen := chosen + {edge};
      var neighbor := if edge.source == nodeId then edge.target else edge.source;
      UnionAssociates(NodeSet(seen), FarEnds(incident[..m], nodeId), {neighbor});
      NodeSetSnoc(seen', neighbor);
      if neighbor !in seen' {
        ConcatAssociates(seen, added, [neighbor]);
        seen' := seen' + [neighbor];
        added := added + [neighbor];
      }
    }
    assert incident[..|incident|] == incident;
  }

  /** The inner loops over one frontier. `seen` and `selected` keep their insertion order. */
  method ExpandLevel(edges: seq<KgEdge>, index: map<string, seq<KgEdge>>, frontier: seq<string>,
                     seen: seq<string>, selected: seq<KgEdge>, ghost target: set<KgEdge>)
    returns (seen': seq<string>, selected': seq<KgEdge>, next: seq<string>)
    requires Indexes(index, edges)
    requires NoDuplicates(seen) && Selects(selected, target)
    ensures seen' == seen + next && NoDuplicates(seen')
    ensures NodeSet(seen') == NodeSet(seen) + LevelEnds(edges, frontier)
    ensures Selects(selected', target + LevelEdges(edges, frontier))
  {
    seen', selected', next := seen, selected, [];
    ghost var chosen := target;
    for n := 0 to |frontier|
      invariant seen' == seen + next && NoDuplicates(seen')
      invariant NodeSet(seen') == NodeSet(seen) + LevelEnds(edges, frontier[..n])
      invariant chosen == target + LevelEdges(edges, frontier[..n]) && Selects(selected', chosen)
    {
      var nodeId := frontier[n];
      var incident := EdgesAt(index, nodeId);
      LevelSnoc(edges, frontier, n, n + 1);
      UnionAssociates(NodeSet(seen), LevelEnds(edges, frontier[..n]), FarEnds(incident, nodeId));
      UnionAssociates(target, LevelEdges(edges, frontier[..n]), EdgeSet(incident));
      var added;
      seen', selected', added := ExpandNode(nodeId, incident, seen', selected', chosen);
      ConcatAssociates(seen, next, added);
      chosen := chosen + EdgeSet(incident);
      next := next + added;
    }
    assert frontier[..|frontier|] == frontier;
  }

  // ---------- The search ----------

  /** Is `e` to be selected up to level `d`: does it touch the ball one smaller? */
  ghost predicate Touched(edges: seq<KgEdge>, root: string, d: nat, e: KgEdge) {
    d > 0 && Incident(edges, Ball(edges, root, d - 1), e)
  }

  /** The nodes at distance exactly `d`. */
  ghost predicate InShell(edges: seq<KgEdge>, root: string, d: nat, v: string) {
    v in Ball(edges, root, d) && (d > 0 ==> v !in Ball(edges, root, d - 1))
  }

  /** After `d` levels: seen is the ball, the frontier the last shell, selected what touches the inner ball. */
  ghost predicate Level(edges: seq<KgEdge>, root: string, d: nat, seen: seq<string>, frontier: seq<string>,
                        target: set<KgEdge>) {
    && NodeSet(seen) == Ball(edges, root, d)
    && (forall v :: v in NodeSet(frontier) <==> InShell(edges, root, d, v))
    && (forall e :: e in target <==> Touched(edges, root, d, e))
  }

  lemma LevelStep(edges: seq<KgEdge>, root: string, d: nat, d': nat, seen: seq<string>, frontier: seq<string>,
                  target: set<KgEdge>, seen': seq<string>, next: seq<string>, target': set<KgEdge>)
    requires d' == d + 1 && seen' == seen + next && target' == target + LevelEdges(edges, frontier)
    requires Level(edges, root, d, seen, frontier, target)
    requires NoDuplicates(seen') && NodeSet(seen') == NodeSet(seen) + LevelEnds(edges, frontier)
    ensures Level(edges, root, d', seen', next, target')
  {
    forall v ensures v in NodeSet(seen') <==> v in Ball(edges, root, d + 1) {
      LevelEndsReach(edges, frontier, v);
      FrontierReaches(edges, root, d, NodeSet(frontier), v);
    }
    forall v ensures v in NodeSet(next) <==> InShell(edges, root, d + 1, v) {
      NodeSetMembers(next, v);
      NodeSetMembers(seen, v);
      NodeSetMembers(seen + next, v);
      NewNode(seen, next, v);
    }
    forall e ensures e in target' <==> Touched(edges, root, d + 1, e) {
      LevelEdgesIncident(edges, frontier, e);
      TouchedStep(edges, root, d, NodeSet(frontier), e);
      assert e in target <==> Touched(edges, root, d, e);
    }
  }

  lemma NewNode(seen: seq<string>, next: seq<string>, v: string)
    requires NoDuplicates(seen + next)
    ensures v in next <==> v in seen + next && v !in seen
  {
    var all := seen + next;
    forall i, j | 0 <= i < |seen| && 0 <= j < |next| ensures seen[i] != next[j] {
      assert all[i] == seen[i] && all[|seen| + j] == next[j];
    }
  }

  /** Only the last shell can reach anything new. */
  lemma FrontierReaches(edges: seq<KgEdge>, root: string, d: nat, frontier: set<string>, v: string)
    requires forall u :: u in frontier <==> InShell(edges, root, d, u)
    ensures v in Ball(edges, root, d + 1) <==> v in Ball(edges, root, d) || Reaches(edges, frontier, v)
  {
    var ball := Ball(edges, root, d);
    NeighboursReach(edges, ball, v);
    if Reaches(edges, frontier, v) {
      var e :| e in edges && ((e.source in frontier && e.target == v) || (e.target in frontier && e.source == v));
      assert InShell(edges, root, d, e.source) || InShell(edges, root, d, e.target);
      assert Reaches(edges, ball, v);
    }
    if Reaches(edges, ball, v) && !Reaches(edges, frontier, v) {
      var e :| e in edges && ((e.source in ball && e.target == v) || (e.target in ball && e.source == v));
      var u := if e.source in ball && e.target == v then e.source else e.target;
      assert u !in frontier && !InShell(edges, root, d, u);
      var inner := Ball(edges, root, d - 1);
      assert Reaches(edges, inner, v);
      NeighboursReach(edges, inner, v);
    }
  }

  lemma TouchedStep(edges: seq<KgEdge>, root: string, d: nat, frontier: set<string>, e: KgEdge)
    requires forall u :: u in frontier <==> InShell(edges, root, d, u)
    ensures Touched(edges, root, d + 1, e) <==> Touched(edges, root, d, e) || Incident(edges, frontier, e)
  {
    assert e.source in frontier <==> InShell(edges, root, d, e.source);
    assert e.target in frontier <==> InShell(edges, root, d, e.target);
    if d > 0 {
      BallGrows(edges, root, d - 1, d);
    }
  }

  /** The result of the search at distance `d`. */
  ghost predicate Found(edges: seq<KgEdge>, root: string, d: nat, seen: seq<string>, target: set<KgEdge>) {
    NodeSet(seen) == Ball(edges, root, d) && forall e :: e in target <==> Touched(edges, root, d, e)
  }

  /** Distances from the root never decrease along the list. */
  ghost predicate NearestFirst(edges: seq<KgEdge>, root: string, seen: seq<string>) {
    forall i, j, r: nat :: 0 <= i < j < |seen| && seen[j] in Ball(edges, root, r) ==> seen[i] in Ball(edges, root, r)
  }

  /** A node of the new shell is no nearer than any node seen so far. */
  lemma ShellIsFarthest(edges: seq<KgEdge>, root: string, d: nat, d': nat, u: string, v: string, r: nat)
    requires d' == d + 1 && u in Ball(edges, root, d') && InShell(edges, root, d', v) && v in Ball(edges, root, r)
    ensures u in Ball(edges, root, r)
  {
    if r <= d {
      BallGrows(edges, root, r, d);
    } else {
      BallGrows(edges, root, d', r);
    }
  }

  lemma NearestFirstStep(edges: seq<KgEdge>, root: string, d: nat, d': nat, seen: seq<string>, next: seq<string>)
    requires d' == d + 1 && NearestFirst(edges, root, seen) && NodeSet(seen) == Ball(edges, root, d)
    requires forall v :: v in NodeSet(next) <==> InShell(edges, root, d', v)
    ensures NearestFirst(edges, root, seen + next)
  {
    var all := seen + next;
    forall i, j, r: nat | 0 <= i < j < |all| && all[j] in Ball(edges, root, r) ensures all[i] in Ball(edges, root, r) {
      if j >= |seen| {
        NodeSetMembers(next, all[j]);
        NodeSetMembers(seen, all[i]);
        NodeSetMembers(next, all[i]);
        assert all[j] in next && (all[i] in seen || all[i] in next);
        BallGrows(edges, root, d, d');
        ShellIsFarthest(edges, root, d, d', all[i], all[j], r);
      } else {
        assert all[i] == seen[i] && all[j] == seen[j];
      }
    }
  }

  /** The loop over the levels with its early exit. */
  method Search(edges: seq<KgEdge>, root: string, depth: int)
    returns (seen: seq<string>, selected: seq<KgEdge>, ghost target: set<KgEdge>)
    ensures NoDuplicates(seen) && Selects(selected, target) && NearestFirst(edges, root, seen)
    ensures Found(edges, root, if depth < 0 then 0 else depth, seen, target)
  {
    var index := BuildEdgeIndex(edges);
    seen, selected, target := [root], [], {};
    var frontier := [root];
    ghost var level := 0;
    LevelZero(edges, root);
    var currentDepth := 1;
    while currentDepth <= depth
      invariant currentDepth == level + 1 && level <= (if depth < 0 then 0 else depth)
      invariant NoDuplicates(seen) && Selects(selected, target) && NearestFirst(edges, root, seen)
      invariant Level(edges, root, level, seen, frontier, target)
      decreases depth - currentDepth
    {
      var seen', selected', next := ExpandLevel(edges, index, frontier, seen, selected, target);
      ghost var target' := target + LevelEdges(edges, frontier);
      LevelStep(edges, root, level, currentDepth, seen, frontier, target, seen', next, target');
      NearestFirstStep(edges, root, level, currentDepth, seen, next);
      seen, selected, target := seen', selected', target';
      level := currentDepth;
      if |next| == 0 {
        StoppedEarly(edges, root, level, depth, seen, next, target);
        return;
      }
      frontier := next;
      currentDepth := currentDepth + 1;
    }
    LevelFound(edges, root, level, seen, frontier, target);
  }

  lemma LevelZero(edges: seq<KgEdge>, root: string)
    ensures Level(edges, root, 0, [root], [root], {}) && Selects([], {})
  {
    assert [root][..0] == [];
  }

  lemma LevelFound(edges: seq<KgEdge>, root: string, d: nat, seen: seq<string>, frontier: seq<string>,
                   target: set<KgEdge>)
    requires Level(edges, root, d, seen, frontier, target)
    ensures Found(edges, root, d, seen, target)
  {
  }

  lemma EmptyShell(edges: seq<KgEdge>, root: string, before: nat, level: nat)
    requires level == before + 1 && forall v :: !InShell(edges, root, level, v)
    ensures Ball(edges, root, level) == Ball(edges, root, before)
  {
    forall v | v in Ball(edges, root, level) ensures v in Ball(edges, root, before) {
      assert !InShell(edges, root, level, v);
    }
  }

  lemma SameTouched(edges: seq<KgEdge>, root: string, before: nat, level: nat, last: nat, depth: nat, e: KgEdge)
    requires level == before + 1 && depth == last + 1 && Ball(edges, root, last) == Ball(edges, root, before)
    ensures Touched(edges, root, level, e) <==> Touched(edges, root, depth, e)
  {
  }

  /** An empty shell means that neither the ball nor the touched edges change any more. */
  lemma StoppedEarly(edges: seq<KgEdge>, root: string, level: nat, depth: nat, seen: seq<string>, next: seq<string>,
                     target: set<KgEdge>)
    requires 1 <= level <= depth && next == [] && Level(edges, root, level, seen, next, target)
    ensures Found(edges, root, depth, seen, target)
  {
    var before: nat, last: nat := level - 1, depth - 1;
    EmptyShell(edges, root, before, level);
    BallFixpoint(edges, root, before, level, depth);
    BallFixpoint(edges, root, before, level, last);
    forall e ensures e in target <==> Touched(edges, root, depth, e) {
      SameTouched(edges, root, before, level, last, depth, e);
    }
  }

  // ---------- The response ----------

  /** `nodesById.get(id)`, where a later node with the same id wins, or the placeholder node. */
  function NodeFor(nodes: seq<KgNode>, id: string): KgNode {
    if nodes == [] then KgNode(id, id, "ConjunctionEvent")
    else if nodes[|nodes| - 1].id == id then nodes[|nodes| - 1]
    else NodeFor(nodes[..|nodes| - 1], id)
  }

  lemma {:induction false} NodeForHasId(nodes: seq<KgNode>, id: string)
    ensures NodeFor(nodes, id).id == id
    ensures NodeFor(nodes, id) in nodes || NodeFor(nodes, id) == KgNode(id, id, "ConjunctionEvent")
    ensures (exists n :: n in nodes && n.id == id) ==> NodeFor(nodes, id) in nodes
  {
    if nodes != [] {
      NodeForHasId(nodes[..|nodes| - 1], id);
    }
  }

  /** Among listed nodes with the same id the last one counts; an id that is not listed gets the placeholder. */
  lemma {:induction false} NodeForIsLast(nodes: seq<KgNode>, id: string, i: nat)
    requires i < |nodes| ==> nodes[i].id == id && forall j :: i < j < |nodes| ==> nodes[j].id != id
    requires i >= |nodes| ==> forall j :: 0 <= j < |nodes| ==> nodes[j].id != id
    ensures NodeFor(nodes, id) == if i < |nodes| then nodes[i] else KgNode(id, id, "ConjunctionEvent")
  {
    if nodes != [] && i != |nodes| - 1 {
      var n := |nodes| - 1;
      NodeForIsLast(nodes[..n], id, if i < n then i else n);
    }
  }

  function BothEndsSeen(seen: seq<string>): KgEdge -> bool {
    (e: KgEdge) => e.source in seen && e.target in seen
  }

  /** Touching the inner ball puts both ends in the ball, so the final filter keeps every selected edge. */
  lemma SelectedEndsAreSeen(edges: seq<KgEdge>, root: string, d: nat, seen: seq<string>, e: KgEdge)
    requires NodeSet(seen) == Ball(edges, root, d) && Touched(edges, root, d, e)
    ensures BothEndsSeen(seen)(e)
  {
    var inner := Ball(edges, root, d - 1);
    NodeSetMembers(seen, e.source);
    NodeSetMembers(seen, e.target);
    NeighboursReach(edges, inner, e.source);
    NeighboursReach(edges, inner, e.target);
    if e.source in inner {
      assert Reaches(edges, inner, e.target);
    }
    if e.target in inner {
      assert Reaches(edges, inner, e.source);
    }
  }

  ghost predicate HasNodeId(nodes: seq<KgNode>, id: string) {
    exists n :: n in nodes && n.id == id
  }

  /** The nodes of the response: one per id within the distance, as listed or as placeholder. */
  ghost predicate NodesWithin(listed: seq<KgNode>, edges: seq<KgEdge>, root: string, d: nat, nodes: seq<KgNode>) {
    && (forall n :: n in nodes ==> n == NodeFor(listed, n.id))
    && (forall i, j :: 0 <= i < j < |nodes| ==> nodes[i].id != nodes[j].id)
    && (forall v :: HasNodeId(nodes, v) <==> WithinDistance(edges, root, d, v))
  }

  /** The edges of the response touch a node at distance less than `d`; their ids are distinct and none is missing. */
  ghost predicate EdgesWithin(edges: seq<KgEdge>, root: string, d: nat, selected: seq<KgEdge>) {
    && DistinctEdgeIds(selected)
    && (forall e :: e in selected ==> Touched(edges, root, d, e))
    && (forall e :: Touched(edges, root, d, e) ==> HasEdgeId(selected, e.id))
  }

  function NodesFor(listed: seq<KgNode>, ids: seq<string>): seq<KgNode> {
    if ids == [] then [] else [NodeFor(listed, ids[0])] + NodesFor(listed, ids[1..])
  }

  lemma {:induction false} NodesForMembers(listed: seq<KgNode>, ids: seq<string>)
    ensures |NodesFor(listed, ids)| == |ids|
    ensures forall i :: 0 <= i < |ids| ==> NodesFor(listed, ids)[i] == NodeFor(listed, ids[i])
    ensures forall i :: 0 <= i < |ids| ==> NodesFor(listed, ids)[i].id == ids[i]
  {
    if ids != [] {
      NodeForHasId(listed, ids[0]);
      NodesForMembers(listed, ids[1..]);
    }
  }

  lemma NodesAreWithin(listed: seq<KgNode>, edges: seq<KgEdge>, root: string, d: nat, seen: seq<string>)
    requires NoDuplicates(seen) && NodeSet(seen) == Ball(edges, root, d)
    ensures NodesWithin(listed, edges, root, d, NodesFor(listed, seen))
  {
    var nodes := NodesFor(listed, seen);
    NodesForMembers(listed, seen);
    forall v ensures HasNodeId(nodes, v) <==> WithinDistance(edges, root, d, v) {
      BallIsDistance(edges, root, d, v);
      NodeSetMembers(seen, v);
      if v in seen {
        var i :| 0 <= i < |seen| && seen[i] == v;
        assert nodes[i] in nodes;
      }
      if HasNodeId(nodes, v) {
        var n :| n in nodes && n.id == v;
        var i :| 0 <= i < |nodes| && nodes[i] == n;
      }
    }
  }

  /** Distances from the root never decrease along the nodes. */
  ghost predicate NodesNearestFirst(edges: seq<KgEdge>, root: string, nodes: seq<KgNode>) {
    forall i, j, r: nat :: 0 <= i < j < |nodes| && WithinDistance(edges, root, r, nodes[j].id) ==>
      WithinDistance(edges, root, r, nodes[i].id)
  }

  lemma NodesStayNearestFirst(listed: seq<KgNode>, edges: seq<KgEdge>, root: string, seen: seq<string>)
    requires NearestFirst(edges, root, seen)
    ensures NodesNearestFirst(edges, root, NodesFor(listed, seen))
  {
    var nodes := NodesFor(listed, seen);
    NodesForMembers(listed, seen);
    forall i, j, r: nat | 0 <= i < j < |nodes| && WithinDistance(edges, root, r, nodes[j].id)
      ensures WithinDistance(edges, root, r, nodes[i].id)
    {
      BallIsDistance(edges, root, r, seen[j]);
      BallIsDistance(edges, root, r, seen[i]);
    }
  }

  method GetNeighbourhood(nodes: seq<KgNode>, edges: seq<KgEdge>, rootId: string, depth: int)
    returns (response: GraphResponse)
    ensures response.root == NormalizeKgNodeId(rootId)
    ensures NodesWithin(nodes, edges, response.root, if depth < 0 then 0 else depth, response.nodes)
    ensures NodesNearestFirst(edges, response.root, response.nodes)
    ensures EdgesWithin(edges, response.root, if depth < 0 then 0 else depth, response.edges)
  {
    var root := NormalizeKgNodeId(rootId);
    ghost var d := if depth < 0 then 0 else depth;
    var seen, selected;
    ghost var target;
    seen, selected, target := Search(edges, root, depth);
    NodesAreWithin(nodes, edges, root, d, seen);
    NodesStayNearestFirst(nodes, edges, root, seen);
    forall e | e in selected ensures BothEndsSeen(seen)(e) {
      SelectedEndsAreSeen(edges, root, d, seen, e);
    }
    FilterKeepsAll(selected, BothEndsSeen(seen));
    response := GraphResponse(root, NodesFor(nodes, seen), Filter(selected, BothEndsSeen(seen)));
  }

  /** With distinct edge ids the returned edges are exactly those touching a node at distance less than the depth. */
  lemma EdgesExactly(edges: seq<KgEdge>, root: string, d: nat, selected: seq<KgEdge>, e: KgEdge)
    requires DistinctEdgeIds(edges) && EdgesWithin(edges, root, d, selected)
    ensures e in selected <==>
            d > 0 && e in edges
            && (WithinDistance(edges, root, d - 1, e.source) || WithinDistance(edges, root, d - 1, e.target))
  {
    if d > 0 {
      BallIsDistance(edges, root, d - 1, e.source);
      BallIsDistance(edges, root, d - 1, e.target);
      if Touched(edges, root, d, e) {
        assert HasEdgeId(selected, e.id);
        var x :| x in selected && x.id == e.id;
        assert Touched(edges, root, d, x);
        var i :| 0 <= i < |edges| && edges[i] == x;
        var j :| 0 <= j < |edges| && edges[j] == e;
        assert i == j;
      }
    }
  }
}
