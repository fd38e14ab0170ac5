/**
 * The pure part of the RaMP pathway-analysis script: turning the pathway
 * records returned for one analyte into enrichment rows, and drawing those
 * rows as a star graph centred on the analyte.
 */
module RampAnalysis {
  import opened Wrappers
  import opened NxGraph

  /**
   * One entry of the RaMP response. A key the JSON object lacks is `None`.
   * The relevance score is kept opaque (type `V`): its arithmetic is floating point.
   */
  datatype RawPathway<V> = RawPathway(name: Option<string>, relevanceScore: Option<V>, source: Option<string>)

  /** One row of the enrichment table, with keys "Pathway", "Score" and "Source". */
  datatype EnrichedRow<S> = EnrichedRow(pathway: string, score: S, source: string)

  /** The `KeyError` a record lacking a key raises: the record's position and the key. */
  datatype KeyError = KeyError(index: nat, key: string)

  /** The record has every key `enrichment_analysis` reads. */
  predicate Complete<V>(r: RawPathway<V>) {
    r.name.Some? && r.relevanceScore.Some? && r.source.Some?
  }

  /** The first key looked up and not found, in the order the row literal reads them. */
  function MissingKey<V>(r: RawPathway<V>): (k: string)
    requires !Complete(r)
  {
    if r.name.None? then "name"
    else if r.relevanceScore.None? then "relevance_score"
    else "source"
  }

  /**
   * `enrichment_analysis`: one row per record, in order. `rescale` stands for
   * `round(relevance_score * 1.5, 2)`. The first incomplete record aborts the
   * whole call with a `KeyError`.
   */
  function EnrichmentAnalysis<V, S>(raws: seq<RawPathway<V>>, rescale: V -> S): (r: Result<seq<EnrichedRow<S>>, KeyError>)
    ensures r.Success? <==> forall i :: 0 <= i < |raws| ==> Complete(raws[i])
    ensures r.Success? ==> |r.value| == |raws|
    ensures r.Success? ==> forall i :: 0 <= i < |raws| ==>
      && Some(r.value[i].pathway) == raws[i].name
      && Some(r.value[i].source) == raws[i].source
      && r.value[i].score == rescale(raws[i].relevanceScore.value)
    ensures r.Failure? ==>
      && r.error.index < |raws|
      && (forall i :: 0 <= i < r.error.index ==> Complete(raws[i]))
      && !Complete(raws[r.error.index])
      && (r.error.key == "name" <==> raws[r.error.index].name.None?)
      && (r.error.key == "relevance_score" <==>
            raws[r.error.index].name.Some? && raws[r.error.index].relevanceScore.None?)
      && (r.error.key == "source" <==>
            raws[r.error.index].name.Some? && raws[r.error.index].relevanceScore.Some? && raws[r.error.index].source.None?)
  {
    if raws == [] then Success([])
    else if !Complete(raws[0]) then Failure(KeyError(0, MissingKey(raws[0])))
    else
      var head := EnrichedRow(raws[0].name.value, rescale(raws[0].relevanceScore.value), raws[0].source.value);
      match EnrichmentAnalysis(raws[1..], rescale)
      case Success(rows) => Success([head] + rows)
      case Failure(e) => Failure(KeyError(e.index + 1, e.key))
  }

  /** Attributes of the analyte node: `label="Analyte", color="red"`. */
  const AnalyteAttrs: Attrs := map["label" := "Analyte", "color" := "red"]

  /** Attributes of a pathway node: `label="Pathway", color="blue"`. */
  const PathwayAttrs: Attrs := map["label" := "Pathway", "color" := "blue"]

  /** The distinct "Pathway" values of the rows. */
  function PathwayNames<S>(rows: seq<EnrichedRow<S>>): (names: set<string>)
    ensures forall i :: 0 <= i < |rows| ==> rows[i].pathway in names
    ensures forall n :: n in names ==> exists i :: 0 <= i < |rows| && rows[i].pathway == n
  {
    set i | 0 <= i < |rows| :: rows[i].pathway
  }

  /**
   * The star graph on `analyteId` and `names`, written directly: one edge from
   * the analyte to each name; every name is a pathway node; the analyte keeps
   * its own attributes unless a pathway of the same name relabelled it.
   */
  function StarGraph(analyteId: string, names: set<string>): Graph {
    Graph(StarNodes(analyteId, names), StarEdges(analyteId, names))
  }

  function StarNodes(analyteId: string, names: set<string>): map<string, Attrs> {
    map n | n in names + {analyteId} :: if n in names then PathwayAttrs else AnalyteAttrs
  }

  function StarEdges(analyteId: string, names: set<string>): set<Edge> {
    set p | p in names :: Link(analyteId, p)
  }

  /**
   * `create_network_graph`: add the analyte node, then for each row in order
   * add its pathway node and the edge from the analyte to it. The result is
   * the star graph on the set of pathway names, whatever their order or
   * repetitions.
   */
  function CreateNetworkGraph<S>(rows: seq<EnrichedRow<S>>, analyteId: string): (g: Graph)
    ensures g == StarGraph(analyteId, PathwayNames(rows))
    decreases |rows|
  {
    if rows == [] then
      InitialGraph(analyteId);
      AddNode(Empty, analyteId, AnalyteAttrs)
    else
      var prefix := rows[..|rows| - 1];
      var last := rows[|rows| - 1];
      var p := last.pathway;
      assert rows == prefix + [last];
      PathwayNamesSnoc(prefix, last);
      var names := PathwayNames(prefix);
      assert PathwayNames(rows) == names + {p};
      var g := CreateNetworkGraph(prefix, analyteId);
      assert g == StarGraph(analyteId, names);
      AddPathwayStep(analyteId, names, p);
      AddEdge(AddNode(g, p, PathwayAttrs), analyteId, p)
  }

  /** The graph before the loop is the star graph with no pathways. */
  lemma InitialGraph(analyteId: string)
    ensures AddNode(Empty, analyteId, AnalyteAttrs) == StarGraph(analyteId, {})
  {
    var g := AddNode(Empty, analyteId, AnalyteAttrs);
    assert g.nodes == StarNodes(analyteId, {});
    assert g.edges == StarEdges(analyteId, {});
  }

  lemma PathwayNamesSnoc<S>(rows: seq<EnrichedRow<S>>, last: EnrichedRow<S>)
    ensures PathwayNames(rows + [last]) == PathwayNames(rows) + {last.pathway}
  {
    var all := rows + [last];
    forall n | n in PathwayNames(all) ensures n in PathwayNames(rows) + {last.pathway} {
      var i :| 0 <= i < |all| && all[i].pathway == n;
      if i < |rows| { assert rows[i] == all[i]; }
    }
    assert all[|rows|] == last;
    forall n | n in PathwayNames(rows) ensures n in PathwayNames(all) {
      var i :| 0 <= i < |rows| && rows[i].pathway == n;
      assert all[i] == rows[i];
    }
  }

  /** One loop iteration of `create_network_graph` extends the star graph by one name. */
  lemma AddPathwayStep(analyteId: string, names: set<string>, p: string)
    ensures AddEdge(AddNode(StarGraph(analyteId, names), p, PathwayAttrs), analyteId, p)
         == StarGraph(analyteId, names + {p})
  {
    var mid := AddNode(StarGraph(analyteId, names), p, PathwayAttrs);
    var after := AddEdge(mid, analyteId, p);
    StepNodes(analyteId, names, p);
    StepEdges(analyteId, names, p);
    assert after.nodes == StarNodes(analyteId, names + {p});
    assert after.edges == StarEdges(analyteId, names + {p});
  }

  lemma StepNodes(analyteId: string, names: set<string>, p: string)
    ensures AddEdge(AddNode(StarGraph(analyteId, names), p, PathwayAttrs), analyteId, p).nodes
         == StarNodes(analyteId, names + {p})
  {
    var before := StarGraph(analyteId, names);
    assert p in before.nodes ==> before.nodes[p].Keys <= PathwayAttrs.Keys;
    AddNodeReplaces(before, p, PathwayAttrs);
    var mid := AddNode(before, p, PathwayAttrs);
    assert mid.nodes == before.nodes[p := PathwayAttrs];
    AddEdgeKeepsNodes(mid, analyteId, p);
    StarNodesInsert(analyteId, names, p);
  }

  /** Adding a name to the star makes it a pathway node and changes no other node. */
  lemma StarNodesInsert(analyteId: string, names: set<string>, p: string)
    ensures StarNodes(analyteId, names + {p}) == StarNodes(analyteId, names)[p := PathwayAttrs]
  {
    var want := StarNodes(analyteId, names + {p});
    var got := StarNodes(analyteId, names)[p := PathwayAttrs];
    assert want.Keys == got.Keys;
    forall n | n in want ensures want[n] == got[n] {
    }
  }

  lemma StepEdges(analyteId: string, names: set<string>, p: string)
    ensures AddEdge(AddNode(StarGraph(analyteId, names), p, PathwayAttrs), analyteId, p).edges
         == StarEdges(analyteId, names + {p})
  {
  }

  /** The analyte is always a node; with no pathways it is the only node and there are no edges. */
  lemma AnalyteAlwaysPresent<S>(rows: seq<EnrichedRow<S>>, analyteId: string)
    ensures analyteId in CreateNetworkGraph(rows, analyteId).nodes
    ensures rows == [] ==> CreateNetworkGraph(rows, analyteId).nodes == map[analyteId := AnalyteAttrs]
    ensures rows == [] ==> CreateNetworkGraph(rows, analyteId).edges == {}
  {
    if rows == [] {
      assert CreateNetworkGraph(rows, analyteId).nodes == map[analyteId := AnalyteAttrs];
    }
  }

  /** Every "Pathway" value of the input is a node carrying the pathway attributes. */
  lemma PathwaysAreNodes<S>(rows: seq<EnrichedRow<S>>, analyteId: string)
    ensures forall i :: 0 <= i < |rows| ==>
      && rows[i].pathway in CreateNetworkGraph(rows, analyteId).nodes
      && CreateNetworkGraph(rows, analyteId).nodes[rows[i].pathway] == PathwayAttrs
  {
  }

  /** The spokes of a star: each name is joined to the centre, and nothing else is joined. */
  lemma StarSpokes(analyteId: string, names: set<string>)
    ensures WellFormed(StarGraph(analyteId, names))
    ensures forall e :: e in StarEdges(analyteId, names) ==> analyteId in e
    ensures forall u, v :: Link(u, v) in StarEdges(analyteId, names) ==> u == analyteId || v == analyteId
  {
    var edges := StarEdges(analyteId, names);
    forall u, v | Link(u, v) in edges ensures u == analyteId || v == analyteId {
      var p :| p in names && Link(u, v) == Link(analyteId, p);
      assert analyteId in Link(u, v);
    }
  }

  /**
   * Every edge joins the analyte to a pathway of the input, and every pathway
   * of the input is joined to the analyte; no edge joins two other nodes.
   */
  lemma EdgesAreSpokes<S>(rows: seq<EnrichedRow<S>>, analyteId: string)
    ensures var g := CreateNetworkGraph(rows, analyteId);
      && WellFormed(g)
      && (forall i :: 0 <= i < |rows| ==> Link(analyteId, rows[i].pathway) in g.edges)
      && (forall e :: e in g.edges ==> analyteId in e && exists i :: 0 <= i < |rows| && e == Link(analyteId, rows[i].pathway))
      && (forall u, v :: Link(u, v) in g.edges ==> u == analyteId || v == analyteId)
  {
    var names := PathwayNames(rows);
    var g := CreateNetworkGraph(rows, analyteId);
    StarSpokes(analyteId, names);
    forall e | e in g.edges ensures exists i :: 0 <= i < |rows| && e == Link(analyteId, rows[i].pathway) {
      var p :| p in names && e == Link(analyteId, p);
      var i :| 0 <= i < |rows| && rows[i].pathway == p;
    }
  }

  /** Distinct pathway names give distinct edges. */
  lemma {:induction false} StarEdgesCardinality(analyteId: string, names: set<string>)
    ensures |StarEdges(analyteId, names)| == |names|
    decreases |names|
  {
    if names != {} {
      var x :| x in names;
      var rest := names - {x};
      StarEdgesCardinality(analyteId, rest);
      assert StarEdges(analyteId, names) == StarEdges(analyteId, rest) + {Link(analyteId, x)};
    }
  }

  /** There are no more distinct names than rows. */
  lemma {:induction false} PathwayNamesBound<S>(rows: seq<EnrichedRow<S>>)
    ensures |PathwayNames(rows)| <= |rows|
    decreases |rows|
  {
    if rows != [] {
      var prefix := rows[..|rows| - 1];
      assert rows == prefix + [rows[|rows| - 1]];
      PathwayNamesSnoc(prefix, rows[|rows| - 1]);
      PathwayNamesBound(prefix);
    }
  }

  /**
   * Repeated names collapse: the edge count is the number of distinct pathway
   * names, and there are at most one node more than input rows.
   */
  lemma GraphCounts<S>(rows: seq<EnrichedRow<S>>, analyteId: string)
    ensures |CreateNetworkGraph(rows, analyteId).edges| == |PathwayNames(rows)| <= |rows|
    ensures |CreateNetworkGraph(rows, analyteId).nodes| <= 1 + |rows|
  {
    var names := PathwayNames(rows);
    StarEdgesCardinality(analyteId, names);
    PathwayNamesBound(rows);
    assert CreateNetworkGraph(rows, analyteId).nodes.Keys == names + {analyteId};
  }

  /** The centre of a star is a self-loop exactly when it is also one of the names. */
  lemma StarSelfLoop(analyteId: string, names: set<string>)
    ensures Link(analyteId, analyteId) in StarEdges(analyteId, names) <==> analyteId in names
    ensures StarNodes(analyteId, names).Keys == names + {analyteId}
    ensures analyteId in names ==> StarNodes(analyteId, names)[analyteId] == PathwayAttrs
    ensures analyteId !in names ==> StarNodes(analyteId, names)[analyteId] == AnalyteAttrs
    ensures analyteId !in names ==> |StarNodes(analyteId, names)| == |names| + 1
  {
    if Link(analyteId, analyteId) in StarEdges(analyteId, names) {
      var p :| p in names && Link(analyteId, p) == Link(analyteId, analyteId);
      assert p in Link(analyteId, p);
    }
    var nodes := StarNodes(analyteId, names);
    assert nodes.Keys == names + {analyteId};
    if analyteId !in names {
      assert |nodes| == |nodes.Keys| == |names + {analyteId}| == |names| + 1;
    }
  }

  /**
   * A pathway named like the analyte becomes a self-loop and relabels the
   * analyte node instead of adding a node; otherwise the analyte keeps its
   * attributes, has no self-loop, and is one node more than the pathways.
   */
  lemma SelfLoop<S>(rows: seq<EnrichedRow<S>>, analyteId: string)
    ensures var g := CreateNetworkGraph(rows, analyteId);
      && (analyteId in PathwayNames(rows) ==>
        && Link(analyteId, analyteId) in g.edges
        && g.nodes.Keys == PathwayNames(rows)
        && g.nodes[analyteId] == PathwayAttrs)
      && (analyteId !in PathwayNames(rows) ==>
        && Link(analyteId, analyteId) !in g.edges
        && |g.nodes| == |PathwayNames(rows)| + 1
        && g.nodes[analyteId] == AnalyteAttrs)
  {
    var names := PathwayNames(rows);
    var g := CreateNetworkGraph(rows, analyteId);
    assert g == StarGraph(analyteId, names);
    StarSelfLoop(analyteId, names);
  }

  /** Scores, sources, order and repetitions do not affect the graph: only the set of names does. */
  lemma OnlyNamesMatter<S, T>(rows: seq<EnrichedRow<S>>, others: seq<EnrichedRow<T>>, analyteId: string)
    requires forall i :: 0 <= i < |rows| ==> exists j :: 0 <= j < |others| && others[j].pathway == rows[i].pathway
    requires forall j :: 0 <= j < |others| ==> exists i :: 0 <= i < |rows| && rows[i].pathway == others[j].pathway
    ensures CreateNetworkGraph(rows, analyteId) == CreateNetworkGraph(others, analyteId)
  {
    assert PathwayNames(rows) == PathwayNames(others);
  }

  lemma PairNames<S>(a: EnrichedRow<S>, b: EnrichedRow<S>)
    ensures PathwayNames([a, b]) == {a.pathway, b.pathway}
  {
    assert [a, b] == [a] + [b];
    assert [a] == [] + [a];
    PathwayNamesSnoc([], a);
    PathwayNamesSnoc([a], b);
  }

  /** Two rows with different names, neither the analyte: three nodes, two edges at the analyte. */
  lemma TwoDistinctPathways<S>(a: EnrichedRow<S>, b: EnrichedRow<S>, analyteId: string)
    requires a.pathway != b.pathway && a.pathway != analyteId && b.pathway != analyteId
    ensures var g := CreateNetworkGraph([a, b], analyteId);
      && |g.nodes| == 3
      && g.edges == {Link(analyteId, a.pathway), Link(analyteId, b.pathway)}
      && |g.edges| == 2
  {
    PairNames(a, b);
    TwoNameStar(analyteId, a.pathway, b.pathway);
  }

  lemma TwoNameStar(analyteId: string, x: string, y: string)
    requires x != y && x != analyteId && y != analyteId
    ensures |StarNodes(analyteId, {x, y})| == 3
    ensures StarEdges(analyteId, {x, y}) == {Link(analyteId, x), Link(analyteId, y)}
    ensures |StarEdges(analyteId, {x, y})| == 2
  {
    var nodes := StarNodes(analyteId, {x, y});
    assert nodes.Keys == {analyteId, x, y};
    assert |nodes.Keys| == 3;
    assert |{x, y}| == 2;
    StarEdgesCardinality(analyteId, {x, y});
  }

  /** Two rows with the same name: two nodes and one edge. */
  lemma RepeatedPathway<S>(a: EnrichedRow<S>, b: EnrichedRow<S>, analyteId: string)
    requires a.pathway == b.pathway != analyteId
    ensures var g := CreateNetworkGraph([a, b], analyteId);
      && |g.nodes| == 2
      && g.edges == {Link(analyteId, a.pathway)}
  {
    var names := PathwayNames([a, b]);
    PairNames(a, b);
    var g := CreateNetworkGraph([a, b], analyteId);
    assert g == StarGraph(analyteId, names);
    assert g.nodes.Keys == {analyteId, a.pathway};
    assert g.edges == {Link(analyteId, a.pathway)};
  }

  /**
   * Enrichment followed by graph construction: every raw name is joined to
   * the analyte, and there are no more edges than records.
   */
  lemma EnrichedGraphEdges<V, S>(raws: seq<RawPathway<V>>, rescale: V -> S, analyteId: string)
    requires forall i :: 0 <= i < |raws| ==> Complete(raws[i])
    ensures EnrichmentAnalysis(raws, rescale).Success?
    ensures var g := CreateNetworkGraph(EnrichmentAnalysis(raws, rescale).value, analyteId);
      && (forall i :: 0 <= i < |raws| ==> Link(analyteId, raws[i].name.value) in g.edges)
      && |g.edges| <= |raws|
  {
    var rows := EnrichmentAnalysis(raws, rescale).value;
    var names := PathwayNames(rows);
    var g := CreateNetworkGraph(rows, analyteId);
    assert g == StarGraph(analyteId, names);
    GraphCounts(rows, analyteId);
    forall i | 0 <= i < |raws| ensures Link(analyteId, raws[i].name.value) in g.edges {
      assert rows[i].pathway == raws[i].name.value;
      assert rows[i].pathway in names;
    }
  }

  /** Enrichment followed by graph construction: every node besides the analyte is a raw name. */
  lemma EnrichedGraphNodes<V, S>(raws: seq<RawPathway<V>>, rescale: V -> S, analyteId: string)
    requires forall i :: 0 <= i < |raws| ==> Complete(raws[i])
    ensures EnrichmentAnalysis(raws, rescale).Success?
    ensures forall n :: n in CreateNetworkGraph(EnrichmentAnalysis(raws, rescale).value, analyteId).nodes && n != analyteId ==>
      exists i :: 0 <= i < |raws| && raws[i].name == Some(n)
  {
    var rows := EnrichmentAnalysis(raws, rescale).value;
    var names := PathwayNames(rows);
    var g := CreateNetworkGraph(rows, analyteId);
    assert g == StarGraph(analyteId, names);
    forall n | n in g.nodes && n != analyteId ensures exists i :: 0 <= i < |raws| && raws[i].name == Some(n) {
      assert n in names;
      var i :| 0 <= i < |rows| && rows[i].pathway == n;
      assert raws[i].name == Some(n);
    }
  }
}
