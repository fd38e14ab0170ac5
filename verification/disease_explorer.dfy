/**
 * The pure part of the multi-omics disease explorer: the built-in disease
 * table, the search filter over node names, the node table (names with aligned
 * type labels and colours) and the enumeration of protein-to-metabolite and
 * protein-to-pathway edges, lifted from module-level script code into
 * functions of the selected disease's lists and the search term.
 */
module DiseaseExplorer {
  import opened Text
  import opened Seqs

  /** The three name lists of one disease. */
  datatype Disease = Disease(proteins: seq<string>, metabolites: seq<string>, pathways: seq<string>)

  const Parkinsons: Disease := Disease(
    ["SNCA", "LRRK2", "PINK1"],
    ["Dopamine", "Alpha-synuclein", "Uric acid"],
    ["Dopaminergic synapse", "Oxidative phosphorylation"])

  const RenalCancer: Disease := Disease(
    ["VHL", "HIF1A", "VEGFA"],
    ["Succinate", "Fumarate", "Glutamine"],
    ["HIF-1 signaling", "Metabolic reprogramming"])

  const Type2Diabetes: Disease := Disease(
    ["INS", "IRS1", "GLUT4"],
    ["Glucose", "Insulin", "Lactate"],
    ["Insulin signaling", "Glycolysis"])

  /** The simulated data set, keyed by the names the disease selector offers. */
  const DiseaseData: map<string, Disease> := map[
    "Parkinson's Disease" := Parkinsons,
    "Renal Cancer" := RenalCancer,
    "Type 2 Diabetes" := Type2Diabetes]

  // ---------------------------------------------------------------- search

  /**
   * `search_term.lower() in node.lower()`: some window of the node spells the
   * term up to ASCII case.
   */
  predicate Matches(node: string, term: string): (r: bool)
    ensures r <==> exists i :: OccursIgnoringCaseAt(node, term, i)
  {
    ContainsLowered(node, term);
    Contains(Lower(node), Lower(term))
  }

  /** Lowering the node or the term first does not change whether they match. */
  lemma MatchesIgnoresCase(node: string, term: string)
    ensures Matches(Lower(node), term) == Matches(node, term)
    ensures Matches(node, Lower(term)) == Matches(node, term)
  {
    LowerIdempotent(node);
    LowerIdempotent(term);
  }

  /**
   * `filter_nodes`: the elements matching the search term, in their original
   * order, each kept as often as it occurs.
   */
  function FilterNodes(nodes: seq<string>, term: string): (r: seq<string>)
    ensures IsSubsequence(r, nodes)
    ensures forall i :: 0 <= i < |r| ==> Matches(r[i], term)
    ensures forall x :: multiset(r)[x] == if Matches(x, term) then multiset(nodes)[x] else 0
    ensures forall x :: x in r <==> x in nodes && Matches(x, term)
  {
    if nodes == [] then []
    else
      var rest := FilterNodes(nodes[1..], term);
      assert nodes == [nodes[0]] + nodes[1..];
      if Matches(nodes[0], term) then [nodes[0]] + rest
      else
        assert rest != [] ==> rest[0] != nodes[0];
        rest
  }

  /** A list whose every element matches is left as it is. */
  lemma {:induction false} FilterKeepsMatching(nodes: seq<string>, term: string)
    requires forall i :: 0 <= i < |nodes| ==> Matches(nodes[i], term)
    ensures FilterNodes(nodes, term) == nodes
    decreases |nodes|
  {
    if nodes != [] {
      FilterKeepsMatching(nodes[1..], term);
    }
  }

  /** Filtering twice with the same term is filtering once. */
  lemma FilterIdempotent(nodes: seq<string>, term: string)
    ensures FilterNodes(FilterNodes(nodes, term), term) == FilterNodes(nodes, term)
  {
    FilterKeepsMatching(FilterNodes(nodes, term), term);
  }

  /** The empty term matches every name, so filtering with it keeps every list whole. */
  lemma FilterEmptyTerm(nodes: seq<string>)
    ensures FilterNodes(nodes, "") == nodes
  {
    forall i | 0 <= i < |nodes| ensures Matches(nodes[i], "") {
      EmptyContained(Lower(nodes[i]));
    }
    FilterKeepsMatching(nodes, "");
  }

  /** The search gate: a non-empty term filters all three lists, an empty one leaves them alone. */
  function ApplySearch(d: Disease, term: string): (r: Disease)
    ensures term == "" ==> r == d
    ensures IsSubsequence(r.proteins, d.proteins)
    ensures IsSubsequence(r.metabolites, d.metabolites)
    ensures IsSubsequence(r.pathways, d.pathways)
  {
    if term == "" then
      SubsequenceRefl(d.proteins);
      SubsequenceRefl(d.metabolites);
      SubsequenceRefl(d.pathways);
      d
    else Disease(FilterNodes(d.proteins, term), FilterNodes(d.metabolites, term), FilterNodes(d.pathways, term))
  }

  /** The gate is invisible: with or without it, each list is its filtered self. */
  lemma SearchIsFilter(d: Disease, term: string)
    ensures ApplySearch(d, term) ==
      Disease(FilterNodes(d.proteins, term), FilterNodes(d.metabolites, term), FilterNodes(d.pathways, term))
  {
    if term == "" {
      FilterEmptyTerm(d.proteins);
      FilterEmptyTerm(d.metabolites);
      FilterEmptyTerm(d.pathways);
    }
  }

  // ------------------------------------------------------------ node table

  datatype NodeType = Protein | Metabolite | Pathway {
    /** The hover text of the node. */
    function Label(): string {
      match this
      case Protein => "Protein"
      case Metabolite => "Metabolite"
      case Pathway => "Pathway"
    }

    /** The marker colour of the node. */
    function Color(): string {
      match this
      case Protein => "skyblue"
      case Metabolite => "lightgreen"
      case Pathway => "orange"
    }
  }

  /** `nodes`, `node_types` and `node_colors`. */
  datatype NodeTable = NodeTable(nodes: seq<string>, types: seq<string>, colors: seq<string>)

  /** `proteins + metabolites + pathways`. */
  function AllNodes(d: Disease): seq<string> {
    d.proteins + d.metabolites + d.pathways
  }

  /** Which of the three lists position `i` of the node list comes from. */
  function SegmentOf(d: Disease, i: nat): NodeType {
    if i < |d.proteins| then Protein
    else if i < |d.proteins| + |d.metabolites| then Metabolite
    else Pathway
  }

  /**
   * The node table: the proteins, then the metabolites, then the pathways,
   * each position labelled and coloured after the list it comes from.
   */
  function BuildNodeTable(d: Disease): (t: NodeTable)
    ensures |t.nodes| == |t.types| == |t.colors| == |d.proteins| + |d.metabolites| + |d.pathways|
    ensures forall i :: 0 <= i < |d.proteins| ==> t.nodes[i] == d.proteins[i]
    ensures forall i :: 0 <= i < |d.metabolites| ==> t.nodes[|d.proteins| + i] == d.metabolites[i]
    ensures forall i :: 0 <= i < |d.pathways| ==> t.nodes[|d.proteins| + |d.metabolites| + i] == d.pathways[i]
    ensures forall i :: 0 <= i < |t.nodes| ==>
      t.types[i] == SegmentOf(d, i).Label() && t.colors[i] == SegmentOf(d, i).Color()
  {
    var p, m, w := |d.proteins|, |d.metabolites|, |d.pathways|;
    NodeTable(
      AllNodes(d),
      Repeat(Protein.Label(), p) + Repeat(Metabolite.Label(), m) + Repeat(Pathway.Label(), w),
      Repeat(Protein.Color(), p) + Repeat(Metabolite.Color(), m) + Repeat(Pathway.Color(), w))
  }

  // ----------------------------------------------------------------- edges

  /** The loop's test for the pair of positions `(i, j)` of `AllNodes(d)`. */
  predicate IsEdge(d: Disease, i: nat, j: nat): (r: bool)
    requires i < |AllNodes(d)| && j < |AllNodes(d)|
    ensures r ==> i != j
  {
    var nodes := AllNodes(d);
    nodes[i] != nodes[j] && nodes[i] in d.proteins && (nodes[j] in d.metabolites || nodes[j] in d.pathways)
  }

  /** Lexicographic order on position pairs, the order the nested loop visits them in. */
  predicate LexLess(a: (nat, nat), b: (nat, nat)) {
    a.0 < b.0 || (a.0 == b.0 && a.1 < b.1)
  }

  ghost predicate LexSorted(edges: seq<(nat, nat)>) {
    forall k, l :: 0 <= k < l < |edges| ==> LexLess(edges[k], edges[l])
  }

  /**
   * `edges` lists, in strictly increasing lexicographic order, exactly the
   * position pairs that pass the loop's test.
   */
  ghost predicate EdgeList(d: Disease, edges: seq<(nat, nat)>) {
    && (forall k :: 0 <= k < |edges| ==>
          edges[k].0 < |AllNodes(d)| && edges[k].1 < |AllNodes(d)| && IsEdge(d, edges[k].0, edges[k].1))
    && (forall i, j :: 0 <= i < |AllNodes(d)| && 0 <= j < |AllNodes(d)| && IsEdge(d, i, j) ==> (i, j) in edges)
    && LexSorted(edges)
  }

  /** The nested loop over `enumerate(nodes)` that collects the edges. */
  method EnumerateEdges(d: Disease) returns (edges: seq<(nat, nat)>)
    ensures EdgeList(d, edges)
  {
    var nodes := AllNodes(d);
    edges := [];
    var i := 0;
    while i < |nodes|
      invariant 0 <= i <= |nodes|
      invariant forall k :: 0 <= k < |edges| ==>
        edges[k].0 < i && edges[k].1 < |nodes| && IsEdge(d, edges[k].0, edges[k].1)
      invariant forall a, b :: 0 <= a < i && 0 <= b < |nodes| && IsEdge(d, a, b) ==> (a, b) in edges
      invariant LexSorted(edges)
    {
      var j := 0;
      while j < |nodes|
        invariant 0 <= j <= |nodes|
        invariant forall k :: 0 <= k < |edges| ==>
          (edges[k].0 < i || (edges[k].0 == i && edges[k].1 < j)) && edges[k].1 < |nodes| && IsEdge(d, edges[k].0, edges[k].1)
        invariant forall a, b :: 0 <= a < |nodes| && 0 <= b < |nodes| && (a < i || (a == i && b < j)) && IsEdge(d, a, b) ==> (a, b) in edges
        invariant LexSorted(edges)
      {
        var source, target := nodes[i], nodes[j];
        if source != target {
          if (source in d.proteins && target in d.metabolites) || (source in d.proteins && target in d.pathways) {
            edges := edges + [(i, j)];
          }
        }
        j := j + 1;
      }
      i := i + 1;
    }
  }

  // ---------------------------------------------------------------- counts

  /** All position pairs with the first in `[0, rows)` and the second in `[lo, hi)`. */
  function Grid(rows: nat, lo: nat, hi: nat): set<(nat, nat)> {
    set i: nat, j: nat | i < rows && lo <= j < hi :: (i, j)
  }

  function GridRow(i: nat, lo: nat, hi: nat): set<(nat, nat)> {
    set j: nat | lo <= j < hi :: (i, j)
  }

  lemma {:induction false} GridRowCardinality(i: nat, lo: nat, hi: nat)
    requires lo <= hi
    ensures |GridRow(i, lo, hi)| == hi - lo
    decreases hi - lo
  {
    if lo < hi {
      GridRowCardinality(i, lo, hi - 1);
      assert GridRow(i, lo, hi) == GridRow(i, lo, hi - 1) + {(i, hi - 1)};
    } else {
      assert GridRow(i, lo, hi) == {};
    }
  }

  lemma {:induction false} GridCardinality(rows: nat, lo: nat, hi: nat)
    requires lo <= hi
    ensures |Grid(rows, lo, hi)| == rows * (hi - lo)
    decreases rows
  {
    if rows == 0 {
      assert Grid(rows, lo, hi) == {};
    } else {
      GridCardinality(rows - 1, lo, hi);
      GridRowCardinality(rows - 1, lo, hi);
      var before, row := Grid(rows - 1, lo, hi), GridRow(rows - 1, lo, hi);
      GridSplit(rows, lo, hi);
      assert |before + row| == |before| + |row|;
      assert rows * (hi - lo) == (rows - 1) * (hi - lo) + (hi - lo) by {
        var w := hi - lo;
        assert rows * w == (rows - 1) * w + w;
      }
    }
  }

  /** The grid with one more row is the smaller grid plus that row, disjointly. */
  lemma GridSplit(rows: nat, lo: nat, hi: nat)
    requires rows > 0
    ensures Grid(rows, lo, hi) == Grid(rows - 1, lo, hi) + GridRow(rows - 1, lo, hi)
    ensures Grid(rows - 1, lo, hi) !! GridRow(rows - 1, lo, hi)
  {
    forall e | e in Grid(rows, lo, hi) ensures e in Grid(rows - 1, lo, hi) + GridRow(rows - 1, lo, hi) {
      if e.0 < rows - 1 {
        assert e in Grid(rows - 1, lo, hi);
      } else {
        assert e in GridRow(rows - 1, lo, hi);
      }
    }
  }

  /**
   * With no name repeated across the three lists, the loop's test holds
   * exactly for a protein position followed by a metabolite or pathway position.
   */
  lemma EdgeTestBySegment(d: Disease, i: nat, j: nat)
    requires Distinct(AllNodes(d))
    requires i < |AllNodes(d)| && j < |AllNodes(d)|
    ensures IsEdge(d, i, j) <==> i < |d.proteins| <= j
  {
    var nodes := AllNodes(d);
    var p, m := |d.proteins|, |d.metabolites|;
    if nodes[i] in d.proteins {
      var a :| 0 <= a < p && d.proteins[a] == nodes[i];
      assert nodes[a] == nodes[i];
    }
    if nodes[j] in d.metabolites {
      var b :| 0 <= b < m && d.metabolites[b] == nodes[j];
      assert nodes[p + b] == nodes[j];
    }
    if nodes[j] in d.pathways {
      var b :| 0 <= b < |d.pathways| && d.pathways[b] == nodes[j];
      assert nodes[p + m + b] == nodes[j];
    }
    if i < p <= j {
      assert nodes[i] == d.proteins[i];
      if j < p + m {
        assert nodes[j] == d.metabolites[j - p];
      } else {
        assert nodes[j] == d.pathways[j - p - m];
      }
    }
  }

  /** The number of protein-to-metabolite and protein-to-pathway pairs. */
  function CompleteBipartiteSize(d: Disease): nat {
    |d.proteins| * (|d.metabolites| + |d.pathways|)
  }

  /**
   * When no name repeats across the three lists (as in the built-in data),
   * every protein is joined to every metabolite and every pathway, once:
   * there are `|proteins| * (|metabolites| + |pathways|)` edges.
   */
  lemma EdgeCount(d: Disease, edges: seq<(nat, nat)>)
    requires Distinct(AllNodes(d))
    requires EdgeList(d, edges)
    ensures |edges| == CompleteBipartiteSize(d)
  {
    var n, p := |AllNodes(d)|, |d.proteins|;
    var listed := Elements(edges);
    forall e | e in listed ensures e in Grid(p, p, n) {
      var k :| 0 <= k < |edges| && edges[k] == e;
      EdgeTestBySegment(d, e.0, e.1);
    }
    forall e | e in Grid(p, p, n) ensures e in listed {
      EdgeTestBySegment(d, e.0, e.1);
      assert e in edges;
    }
    assert listed == Grid(p, p, n);
    assert Distinct(edges);
    DistinctCardinality(edges);
    GridCardinality(p, p, n);
  }

  /**
   * With no name repeated, the loop joins every protein position to every
   * metabolite and pathway position, and draws no other edge.
   */
  lemma CompleteJoin(d: Disease, edges: seq<(nat, nat)>)
    requires Distinct(AllNodes(d))
    requires EdgeList(d, edges)
    ensures forall i, j :: 0 <= i < |d.proteins| <= j < |AllNodes(d)| ==> (i, j) in edges
    ensures forall k :: 0 <= k < |edges| ==> edges[k].0 < |d.proteins| <= edges[k].1
  {
    forall i, j | 0 <= i < |d.proteins| <= j < |AllNodes(d)| ensures (i, j) in edges {
      EdgeTestBySegment(d, i, j);
    }
    forall k | 0 <= k < |edges| ensures edges[k].0 < |d.proteins| <= edges[k].1 {
      EdgeTestBySegment(d, edges[k].0, edges[k].1);
    }
  }

  /**
   * A protein that is also a metabolite shares its node name, so
   * `source != target` skips the pair: for proteins `["A"]` and metabolites
   * `["A"]` the loop draws no edge, while `|proteins| * (|metabolites| + |pathways|)` is 1.
   */
  lemma SharedNameLosesEdge()
    ensures EdgeList(Disease(["A"], ["A"], []), [])
    ensures CompleteBipartiteSize(Disease(["A"], ["A"], [])) == 1
  {
    var d := Disease(["A"], ["A"], []);
    assert AllNodes(d) == ["A", "A"];
    forall i: nat, j: nat | i < 2 && j < 2 ensures !IsEdge(d, i, j) {
      assert AllNodes(d)[i] == AllNodes(d)[j];
    }
  }

  /** Filtering never introduces a repeated name. */
  lemma SearchKeepsDistinct(d: Disease, term: string)
    requires Distinct(AllNodes(d))
    ensures Distinct(AllNodes(ApplySearch(d, term)))
  {
    var r := ApplySearch(d, term);
    SearchIsFilter(d, term);
    var p', m', w' := r.proteins, r.metabolites, r.pathways;
    assert p' == FilterNodes(d.proteins, term);
    assert m' == FilterNodes(d.metabolites, term);
    assert w' == FilterNodes(d.pathways, term);
    DistinctMultiset(AllNodes(d));
    forall x ensures multiset(AllNodes(r))[x] <= 1 {
      assert multiset(p')[x] <= multiset(d.proteins)[x];
      assert multiset(m')[x] <= multiset(d.metabolites)[x];
      assert multiset(w')[x] <= multiset(d.pathways)[x];
      FilterCountsBound(p', d.proteins, m', d.metabolites, w', d.pathways, x);
    }
    DistinctMultiset(AllNodes(r));
  }

  lemma FilterCountsBound(p': seq<string>, p: seq<string>, m': seq<string>, m: seq<string>, w': seq<string>, w: seq<string>, x: string)
    requires multiset(p')[x] <= multiset(p)[x]
    requires multiset(m')[x] <= multiset(m)[x]
    requires multiset(w')[x] <= multiset(w)[x]
    ensures multiset(p' + m' + w')[x] <= multiset(p + m + w)[x]
  {
    assert multiset(p' + m' + w') == multiset(p') + multiset(m') + multiset(w');
    assert multiset(p + m + w) == multiset(p) + multiset(m) + multiset(w);
  }

  /** A name is shown exactly when it belongs to the disease and matches the term. */
  lemma SearchMembership(d: Disease, term: string)
    ensures forall x :: x in AllNodes(ApplySearch(d, term)) <==> x in AllNodes(d) && Matches(x, term)
  {
    var r := ApplySearch(d, term);
    SearchIsFilter(d, term);
    forall x ensures x in AllNodes(r) <==> x in AllNodes(d) && Matches(x, term) {
      assert x in AllNodes(r) <==> x in r.proteins || x in r.metabolites || x in r.pathways;
      assert x in AllNodes(d) <==> x in d.proteins || x in d.metabolites || x in d.pathways;
    }
  }

  /** In the built-in data no name is repeated within or across a disease's lists. */
  lemma DemoDataDistinct(name: string)
    requires name in DiseaseData
    ensures Distinct(AllNodes(DiseaseData[name]))
    ensures |DiseaseData[name].proteins| == 3
    ensures |DiseaseData[name].metabolites| == 3
    ensures |DiseaseData[name].pathways| == 2
  {
    var d := DiseaseData[name];
    assert d == Parkinsons || d == RenalCancer || d == Type2Diabetes;
  }

  /** What the explorer displays for one disease and search term. */
  datatype View = View(shown: Disease, table: NodeTable, edges: seq<(nat, nat)>)

  /**
   * The script body from the search gate to the edge list, for one disease's
   * lists: filter, lay out the node table, enumerate the edges.
   */
  method ShowDisease(d: Disease, searchTerm: string) returns (v: View)
    ensures v.shown.proteins == FilterNodes(d.proteins, searchTerm)
    ensures v.shown.metabolites == FilterNodes(d.metabolites, searchTerm)
    ensures v.shown.pathways == FilterNodes(d.pathways, searchTerm)
    ensures forall x :: x in AllNodes(v.shown) <==> x in AllNodes(d) && Matches(x, searchTerm)
    ensures searchTerm == "" ==> v.shown == d
    ensures v.table.nodes == AllNodes(v.shown)
    ensures |v.table.types| == |v.table.colors| == |v.table.nodes|
    ensures forall i :: 0 <= i < |v.table.nodes| ==>
      v.table.types[i] == SegmentOf(v.shown, i).Label() && v.table.colors[i] == SegmentOf(v.shown, i).Color()
    ensures EdgeList(v.shown, v.edges)
    ensures Distinct(AllNodes(d)) ==> |v.edges| == CompleteBipartiteSize(v.shown)
    ensures Distinct(AllNodes(d)) ==>
      forall i, j :: 0 <= i < |v.shown.proteins| <= j < |AllNodes(v.shown)| ==> (i, j) in v.edges
  {
    var shown := ApplySearch(d, searchTerm);
    SearchIsFilter(d, searchTerm);
    SearchMembership(d, searchTerm);
    var table := BuildNodeTable(shown);
    var edges := EnumerateEdges(shown);
    if Distinct(AllNodes(d)) {
      SearchCount(d, searchTerm, edges);
      SearchKeepsDistinct(d, searchTerm);
      CompleteJoin(shown, edges);
    }
    v := View(shown, table, edges);
  }

  /** The edge count of the filtered lists, when the unfiltered ones repeat no name. */
  lemma SearchCount(d: Disease, searchTerm: string, edges: seq<(nat, nat)>)
    requires Distinct(AllNodes(d))
    requires EdgeList(ApplySearch(d, searchTerm), edges)
    ensures |edges| == CompleteBipartiteSize(ApplySearch(d, searchTerm))
  {
    var r := ApplySearch(d, searchTerm);
    SearchKeepsDistinct(d, searchTerm);
    EdgeCount(r, edges);
  }

  /**
   * The explorer for the disease chosen in the selector (which only offers
   * the keys of the data set). With the built-in data every protein is joined
   * to every shown metabolite and pathway; with no search term that is
   * 3 * (3 + 2) = 15 edges.
   */
  method Explore(selected: string, searchTerm: string) returns (v: View)
    requires selected in DiseaseData
    ensures v.shown.proteins == FilterNodes(DiseaseData[selected].proteins, searchTerm)
    ensures v.shown.metabolites == FilterNodes(DiseaseData[selected].metabolites, searchTerm)
    ensures v.shown.pathways == FilterNodes(DiseaseData[selected].pathways, searchTerm)
    ensures v.table.nodes == AllNodes(v.shown)
    ensures |v.table.types| == |v.table.colors| == |v.table.nodes|
    ensures forall i :: 0 <= i < |v.table.nodes| ==>
      v.table.types[i] == SegmentOf(v.shown, i).Label() && v.table.colors[i] == SegmentOf(v.shown, i).Color()
    ensures EdgeList(v.shown, v.edges)
    ensures forall i, j :: 0 <= i < |v.shown.proteins| <= j < |AllNodes(v.shown)| ==> (i, j) in v.edges
    ensures |v.edges| == CompleteBipartiteSize(v.shown)
    ensures searchTerm == "" ==> |v.edges| == 15
  {
    var d := DiseaseData[selected];
    DemoDataDistinct(selected);
    v := ShowDisease(d, searchTerm);
    if searchTerm == "" {
      assert |v.edges| == 3 * (3 + 2);
    }
  }

  /** A name with no letter A in either case does not match "a". */
  lemma NoLetterA(name: string)
    requires forall k :: 0 <= k < |name| ==> name[k] != 'a' && name[k] != 'A'
    ensures !Matches(name, "a")
  {
    forall i | 0 <= i < |name| ensures !OccursIgnoringCaseAt(name, "a", i) {
      assert Lower(name[i..i + 1]) == [LowerChar(name[i])];
    }
  }

  /**
   * Searching Parkinson's disease for "a" keeps only the protein SNCA and every
   * metabolite and pathway, so the explorer draws 1 * (3 + 2) = 5 edges.
   */
  lemma ParkinsonsSearchA()
    ensures ApplySearch(Parkinsons, "a") == Disease(["SNCA"], Parkinsons.metabolites, Parkinsons.pathways)
    ensures CompleteBipartiteSize(ApplySearch(Parkinsons, "a")) == 5
  {
    SearchIsFilter(Parkinsons, "a");
    ParkinsonsProteinsA();
    ParkinsonsMetabolitesA();
    ParkinsonsPathwaysA();
  }

  lemma ParkinsonsProteinsA()
    ensures FilterNodes(Parkinsons.proteins, "a") == ["SNCA"]
  {
    LetterA("SNCA", 3);
    NoLetterA("LRRK2");
    NoLetterA("PINK1");
  }

  lemma ParkinsonsMetabolitesA()
    ensures FilterNodes(Parkinsons.metabolites, "a") == Parkinsons.metabolites
  {
    LetterA("Dopamine", 3);
    LetterA("Alpha-synuclein", 0);
    LetterA("Uric acid", 5);
    FilterKeepsMatching(Parkinsons.metabolites, "a");
  }

  lemma ParkinsonsPathwaysA()
    ensures FilterNodes(Parkinsons.pathways, "a") == Parkinsons.pathways
  {
    LetterA("Dopaminergic synapse", 3);
    LetterA("Oxidative phosphorylation", 4);
    FilterKeepsMatching(Parkinsons.pathways, "a");
  }

  /** A name with the letter A, in either case, at position `k` matches "a". */
  lemma LetterA(name: string, k: nat)
    requires k < |name| && (name[k] == 'a' || name[k] == 'A')
    ensures Matches(name, "a")
  {
    assert Lower(name[k..k + 1]) == [LowerChar(name[k])];
    assert OccursIgnoringCaseAt(name, "a", k);
  }
}
