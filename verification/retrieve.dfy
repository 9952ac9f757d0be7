/** Top-k neighbour ranking, `retrieve_neighbors` of
    src/dialograph/traversal/retrieve.py.

    The graph's collaborators are not part of this model and become
    parameters: `graph.out_edges(source)` is the sequence `outEdges`,
    `graph.get_node` is a lookup in the map `nodes` (a missing target is
    reported as `MissingNode`), and `score_neighbor` is the function `score`. */
module Retrieve {
  import opened Wrappers
  import opened Nodes
  import opened StableSort

  /** The fields of an edge that retrieval reads; `targetNodeId` is the one
      it uses. */
  datatype Edge = Edge(edgeId: string, sourceNodeId: string, targetNodeId: string, relation: string)

  /** One `(score, neighbor, edge)` triple of the result. */
  datatype Scored = Scored(score: real, neighbor: Node, edge: Edge)

  datatype RetrieveError = MissingNode(nodeId: string)

  /** `score_neighbor(neighbor, edge, now, context_match)`. */
  type ScoreFn = (Node, Edge, real, real) -> real

  /** Default `top_k` of `retrieve_neighbors`. */
  const DefaultTopK: int := 5

  /** What the scoring loop reads besides the edges themselves. */
  datatype Scoring = Scoring(
    nodes: map<string, Node>,
    now: real,
    contextMatch: Option<Node -> real>,
    score: ScoreFn)

  function ScoreKey(x: Scored): real { x.score }

  /** `context_match_fn(neighbor) if context_match_fn else 1.0`. */
  function ContextMatch(contextMatch: Option<Node -> real>, neighbor: Node): (cm: real)
    ensures contextMatch.None? ==> cm == 1.0
    ensures contextMatch.Some? ==> cm == contextMatch.value(neighbor)
  {
    match contextMatch
    case None => 1.0
    case Some(f) => f(neighbor)
  }

  predicate TargetsKnown(edges: seq<Edge>, nodes: map<string, Node>) {
    forall i :: 0 <= i < |edges| ==> edges[i].targetNodeId in nodes
  }

  /** `edges[i]` is the first edge whose target the lookup does not know. */
  ghost predicate FirstMissing(edges: seq<Edge>, nodes: map<string, Node>, i: int) {
    && 0 <= i < |edges|
    && edges[i].targetNodeId !in nodes
    && TargetsKnown(edges[..i], nodes)
  }

  /** The triple one iteration of the loop appends for `edge`. */
  function ScoreEdge(sc: Scoring, edge: Edge): (r: Scored)
    requires edge.targetNodeId in sc.nodes
    ensures r.edge == edge && r.neighbor == sc.nodes[edge.targetNodeId]
    ensures r.score == sc.score(r.neighbor, edge, sc.now, ContextMatch(sc.contextMatch, r.neighbor))
  {
    var neighbor := sc.nodes[edge.targetNodeId];
    Scored(sc.score(neighbor, edge, sc.now, ContextMatch(sc.contextMatch, neighbor)), neighbor, edge)
  }

  /** Every edge scored, in `out_edges` order: the list `scored` after the loop. */
  ghost function AllScored(sc: Scoring, edges: seq<Edge>): (r: seq<Scored>)
    requires TargetsKnown(edges, sc.nodes)
  {
    seq(|edges|, i requires 0 <= i < |edges| => ScoreEdge(sc, edges[i]))
  }

  /** The scoring loop: one triple per outgoing edge, appended in order; the
      first edge whose target cannot be looked up ends it with an error. */
  function ScoreEdges(sc: Scoring, edges: seq<Edge>): (r: Result<seq<Scored>, RetrieveError>)
    ensures r.Success? <==> TargetsKnown(edges, sc.nodes)
    ensures r.Success? ==> |r.value| == |edges|
    ensures r.Success? ==> forall i :: 0 <= i < |edges| ==>
              r.value[i].edge == edges[i] && r.value[i] == ScoreEdge(sc, edges[i])
    ensures r.Success? ==> r.value == AllScored(sc, edges)
    ensures r.Failure? ==>
              exists i :: FirstMissing(edges, sc.nodes, i) && r.error == MissingNode(edges[i].targetNodeId)
    decreases |edges|
  {
    if |edges| == 0 then Success([])
    else if edges[0].targetNodeId !in sc.nodes then
      assert FirstMissing(edges, sc.nodes, 0);
      Failure(MissingNode(edges[0].targetNodeId))
    else
      match ScoreEdges(sc, edges[1..])
      case Success(rest) =>
        assert forall i :: 1 <= i < |edges| ==> edges[i] == edges[1..][i - 1];
        Success([ScoreEdge(sc, edges[0])] + rest)
      case Failure(err) =>
        assert exists i :: FirstMissing(edges, sc.nodes, i) && err == MissingNode(edges[i].targetNodeId) by {
          var i :| FirstMissing(edges[1..], sc.nodes, i) && err == MissingNode(edges[1..][i].targetNodeId);
          assert edges[..i + 1] == [edges[0]] + edges[1..][..i];
          assert FirstMissing(edges, sc.nodes, i + 1);
        }
        Failure(err)
  }

  /** `retrieve_neighbors(graph, source_node_id, now, top_k, context_match_fn)`
      where `outEdges` are the source's outgoing edges. The triples are
      sorted by score, highest first, equal scores keeping `out_edges` order,
      and cut to `top_k`. */
  function RetrieveNeighbors(
    outEdges: seq<Edge>, nodes: map<string, Node>, now: real, topK: Option<int>,
    contextMatch: Option<Node -> real>, score: ScoreFn): (r: Result<seq<Scored>, RetrieveError>)
    ensures r.Success? <==> TargetsKnown(outEdges, nodes)
    ensures r.Failure? ==>
              exists i :: FirstMissing(outEdges, nodes, i) && r.error == MissingNode(outEdges[i].targetNodeId)
    ensures |outEdges| == 0 ==> r == Success([])
    ensures r.Success? ==> |r.value| == |SlicePrefix(outEdges, topK)|
    ensures r.Success? && topK.Some? && topK.value >= 0 ==> |r.value| <= topK.value
    ensures r.Success? ==> SortedDesc(r.value, ScoreKey)
    ensures r.Success? ==> forall j :: 0 <= j < |r.value| ==>
              r.value[j].edge in outEdges &&
              r.value[j] == ScoreEdge(Scoring(nodes, now, contextMatch, score), r.value[j].edge)
    ensures r.Success? ==> forall j :: 0 <= j < |r.value| ==>
              var x := r.value[j];
              && x.edge.targetNodeId in nodes
              && x.neighbor == nodes[x.edge.targetNodeId]
              && x.score == score(x.neighbor, x.edge, now,
                                  if contextMatch.None? then 1.0 else contextMatch.value(x.neighbor))
    ensures r.Success? ==>
              multiset(r.value) <= multiset(AllScored(Scoring(nodes, now, contextMatch, score), outEdges))
    ensures r.Success? && topK.None? ==>
              multiset(r.value) == multiset(AllScored(Scoring(nodes, now, contextMatch, score), outEdges))
    ensures r.Success? ==> forall x, y ::
              (x in multiset(AllScored(Scoring(nodes, now, contextMatch, score), outEdges)) - multiset(r.value)
               && y in r.value) ==> x.score <= y.score
    ensures r.Success? ==> forall v ::
              FilterKey(r.value, ScoreKey, v) <=
              FilterKey(AllScored(Scoring(nodes, now, contextMatch, score), outEdges), ScoreKey, v)
  {
    var sc := Scoring(nodes, now, contextMatch, score);
    match ScoreEdges(sc, outEdges)
    case Failure(err) => Failure(err)
    case Success(scored) =>
      var r := TopK(scored, ScoreKey, topK);
      ScoredMembers(sc, outEdges, r);
      Success(r)
  }

  /** Triples drawn from the scored list are scored outgoing edges. */
  lemma ScoredMembers(sc: Scoring, edges: seq<Edge>, r: seq<Scored>)
    requires TargetsKnown(edges, sc.nodes)
    requires multiset(r) <= multiset(AllScored(sc, edges))
    ensures forall j :: 0 <= j < |r| ==> r[j].edge in edges && r[j] == ScoreEdge(sc, r[j].edge)
  {
    var scored := AllScored(sc, edges);
    forall j | 0 <= j < |r| ensures r[j].edge in edges && r[j] == ScoreEdge(sc, r[j].edge) {
      assert r[j] in multiset(r);
      assert r[j] in multiset(scored);
      var i :| 0 <= i < |scored| && scored[i] == r[j];
      assert scored[i].edge == edges[i];
    }
  }

  /** `retrieve_neighbors` with every optional argument at its default:
      `top_k = 5` and no context callback. */
  function RetrieveNeighborsDefault(outEdges: seq<Edge>, nodes: map<string, Node>, now: real, score: ScoreFn)
    : (r: Result<seq<Scored>, RetrieveError>)
    ensures r.Success? ==> |r.value| <= DefaultTopK
    ensures r.Success? ==> forall j :: 0 <= j < |r.value| ==>
              r.value[j].score == score(r.value[j].neighbor, r.value[j].edge, now, 1.0)
  {
    RetrieveNeighbors(outEdges, nodes, now, Some(DefaultTopK), None, score)
  }

  /** The result is the `top_k` prefix of the one stable descending order of
      the scored edges: any ordering that is sorted by score and keeps equal
      scores in `out_edges` order yields the same result. */
  lemma RetrieveNeighborsIsStableOrder(
    outEdges: seq<Edge>, nodes: map<string, Node>, now: real, topK: Option<int>,
    contextMatch: Option<Node -> real>, score: ScoreFn, ordered: seq<Scored>)
    requires TargetsKnown(outEdges, nodes)
    requires SortedDesc(ordered, ScoreKey)
    requires SameKeyOrder(ordered, AllScored(Scoring(nodes, now, contextMatch, score), outEdges), ScoreKey)
    ensures RetrieveNeighbors(outEdges, nodes, now, topK, contextMatch, score) == Success(SlicePrefix(ordered, topK))
  {
    var sc := Scoring(nodes, now, contextMatch, score);
    var scored := AllScored(sc, outEdges);
    SortDescUnique(scored, ordered, ScoreKey);
  }

  /** Distinct outgoing edges give distinct triples: no edge is returned twice. */
  lemma RetrieveNeighborsNoDuplicates(
    outEdges: seq<Edge>, nodes: map<string, Node>, now: real, topK: Option<int>,
    contextMatch: Option<Node -> real>, score: ScoreFn)
    requires forall p, q :: 0 <= p < q < |outEdges| ==> outEdges[p] != outEdges[q]
    ensures var r := RetrieveNeighbors(outEdges, nodes, now, topK, contextMatch, score);
            r.Success? ==> forall j, k :: 0 <= j < k < |r.value| ==> r.value[j].edge != r.value[k].edge
  {
    var sc := Scoring(nodes, now, contextMatch, score);
    var res := RetrieveNeighbors(outEdges, nodes, now, topK, contextMatch, score);
    if res.Success? {
      var r := res.value;
      forall j, k | 0 <= j < k < |r| ensures r[j].edge != r[k].edge {
        if r[j].edge == r[k].edge {
          assert r[j] == r[k];
          RepeatCountsTwice(r, j, k);
          DistinctEdgesOnce(sc, outEdges, r[j]);
        }
      }
    }
  }

  lemma RepeatCountsTwice<T>(s: seq<T>, j: int, k: int)
    requires 0 <= j < k < |s| && s[j] == s[k]
    ensures multiset(s)[s[j]] >= 2
  {
    assert s == s[..k] + s[k..];
    assert s[j] in s[..k];
    assert s[k..][0] == s[k];
    assert s[k] in s[k..];
  }

  lemma DistinctEdgesOnce(sc: Scoring, edges: seq<Edge>, x: Scored)
    requires TargetsKnown(edges, sc.nodes)
    requires forall p, q :: 0 <= p < q < |edges| ==> edges[p] != edges[q]
    ensures multiset(AllScored(sc, edges))[x] <= 1
  {
    var scored := AllScored(sc, edges);
    forall p, q | 0 <= p < q < |scored| ensures scored[p] != scored[q] {
      assert scored[p].edge == edges[p] && scored[q].edge == edges[q];
    }
    DistinctCountAtMostOne(scored, x);
  }

  lemma {:induction false} DistinctCountAtMostOne<T>(s: seq<T>, x: T)
    requires forall p, q :: 0 <= p < q < |s| ==> s[p] != s[q]
    ensures multiset(s)[x] <= 1
    decreases |s|
  {
    if |s| > 0 {
      assert s == [s[0]] + s[1..];
      DistinctCountAtMostOne(s[1..], x);
      if s[0] == x {
        assert x !in s[1..];
      }
    }
  }
}
