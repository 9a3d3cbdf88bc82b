/**
 * The result-annotation script of the kidney-exchange project
 * (code/results.py): it reads the weight file and the solver's match file,
 * builds a directed weighted graph, attaches the solver's match groups to
 * edges and source nodes, derives node colours and labels for the plot, and
 * rewrites every edge weight to one of two levels.
 *
 * The graph is a class over plain maps: edge -> weight, edge -> matching,
 * node -> matching, plus the node list in insertion order (the order in which
 * the graph library enumerates its nodes).
 */
module ResultAnalysis {
  import W = WeightGenerator

  datatype Option<T> = None | Some(value: T)

  /** One row of the match file: source pair, target pair, match group (0: not selected). */
  datatype MatchRecord = MatchRecord(source: int, target: int, group: int)

  /** One entry of the edge list: (source, target, weight). */
  datatype WeightedEdge = WeightedEdge(source: int, target: int, weight: real)

  /** A directed edge (source, target). */
  type Edge = (int, int)

  /** The two weight levels of the reweighted export. */
  const LargeWeight: real := 3.0
  const SmallWeight: real := 1.0

  function EdgeKey(e: WeightedEdge): Edge { (e.source, e.target) }
  function WeightOf(e: WeightedEdge): real { e.weight }
  function EdgeOf(m: MatchRecord): Edge { (m.source, m.target) }
  function SourceOf(m: MatchRecord): int { m.source }
  function GroupOf(m: MatchRecord): int { m.group }

  /** No node occurs twice in the list. */
  predicate Distinct(ns: seq<int>) {
    forall a, b :: 0 <= a < b < |ns| ==> NodeAt(ns, a) != NodeAt(ns, b)
  }

  /** The node at position a of a node list. */
  function NodeAt(ns: seq<int>, a: nat): int
    requires a < |ns|
  {
    ns[a]
  }

  predicate HasSource(ms: seq<MatchRecord>, u: int) {
    exists k :: 0 <= k < |ms| && ms[k].source == u
  }

  // ---------------------------------------------------------------------------
  // Reading the files
  // ---------------------------------------------------------------------------

  /**
   * csv_to_list: the rows of a file, without the first one when the file has
   * a header line. Rows are already typed values; the text parsing is not
   * part of this model.
   */
  function CsvToList<R>(rows: seq<R>, header: bool): (r: seq<R>)
    ensures !header ==> r == rows
    ensures header && rows != [] ==> [rows[0]] + r == rows
    ensures header && rows == [] ==> r == []
  {
    if header then (if rows == [] then [] else rows[1..]) else rows
  }

  /** The edge list of some weight rows: row k gives (source, target, weight), the index dropped. */
  function EdgeList(rows: seq<W.WeightRecord>): seq<WeightedEdge> {
    seq(|rows|, k requires 0 <= k < |rows| => WeightedEdge(rows[k].source, rows[k].target, rows[k].weight))
  }

  /** The edge list: one (source, target, weight) per weight row, the index column dropped. */
  method BuildEdgeList(rawWeights: seq<W.WeightRecord>) returns (edgelist: seq<WeightedEdge>)
    ensures |edgelist| == |rawWeights|
    ensures forall k :: 0 <= k < |rawWeights| ==>
      edgelist[k] == WeightedEdge(rawWeights[k].source, rawWeights[k].target, rawWeights[k].weight)
    ensures edgelist == EdgeList(rawWeights)
  {
    edgelist := [];
    var k := 0;
    while k < |rawWeights|
      invariant 0 <= k <= |rawWeights|
      invariant |edgelist| == k
      invariant forall i :: 0 <= i < k ==>
        edgelist[i] == WeightedEdge(rawWeights[i].source, rawWeights[i].target, rawWeights[i].weight)
    {
      var line := rawWeights[k];
      edgelist := edgelist + [WeightedEdge(line.source, line.target, line.weight)];
      k := k + 1;
    }
  }

  // ---------------------------------------------------------------------------
  // Specification functions: keyed overwrites, node insertion, match scans
  // ---------------------------------------------------------------------------

  /**
   * Writing the first n records of `rs` in order into `m`, each at key(r)
   * with value val(r): the shape shared by adding weighted edges and by
   * applying match records to edges and to source nodes.
   */
  function Overwrite<R, K(==), V>(m: map<K, V>, rs: seq<R>, n: nat, key: R -> K, val: R -> V): map<K, V>
    requires n <= |rs|
    decreases n
  {
    if n == 0 then m
    else Overwrite(m, rs, n - 1, key, val)[key(rs[n - 1]) := val(rs[n - 1])]
  }

  /** The map giving every key in `keys` the same value. */
  function Filled<K>(keys: set<K>, value: int): map<K, int> {
    map k | k in keys :: value
  }

  /** Adding a node that is already present changes nothing; a new node goes last. */
  function AddNode(ns: seq<int>, u: int): seq<int> {
    if u in ns then ns else ns + [u]
  }

  /** Adding the endpoints of one edge: source first, then target. */
  function AddEndpoints(ns: seq<int>, e: WeightedEdge): seq<int> {
    AddNode(AddNode(ns, e.source), e.target)
  }

  /** The node list after adding the first n edges of `el` in order. */
  function NodesAfter(ns: seq<int>, el: seq<WeightedEdge>, n: nat): seq<int>
    requires n <= |el|
    decreases n
  {
    if n == 0 then ns else AddEndpoints(NodesAfter(ns, el, n - 1), el[n - 1])
  }

  /**
   * The number of leading match records that name an existing edge: the
   * records the script applies before a lookup of a missing edge aborts it.
   */
  function MatchedPrefix(ms: seq<MatchRecord>, edges: set<Edge>): (b: nat)
    ensures b <= |ms|
    ensures forall k :: 0 <= k < b ==> EdgeOf(ms[k]) in edges
    ensures b < |ms| ==> EdgeOf(ms[b]) !in edges
    decreases |ms|
  {
    if ms == [] || EdgeOf(ms[0]) !in edges then 0
    else 1 + MatchedPrefix(ms[1..], edges)
  }

  /** The prefix length is the one position where the first missing edge is (or the end). */
  lemma MatchedPrefixIs(ms: seq<MatchRecord>, edges: set<Edge>, i: nat)
    requires i <= |ms|
    requires forall k :: 0 <= k < i ==> EdgeOf(ms[k]) in edges
    requires i < |ms| ==> EdgeOf(ms[i]) !in edges
    ensures MatchedPrefix(ms, edges) == i
  {
  }

  /** The group of the first record whose source is u, if any: u's plot colour. */
  function FirstGroup(ms: seq<MatchRecord>, u: int): Option<int>
    decreases |ms|
  {
    if ms == [] then None
    else if ms[0].source == u then Some(ms[0].group)
    else FirstGroup(ms[1..], u)
  }

  /** Every edge gets the large weight if it is matched (matching > 0), else the small one. */
  function Reweighted(w: map<Edge, real>, matching: map<Edge, int>, large: real, small: real): map<Edge, real>
    requires w.Keys <= matching.Keys
  {
    map e | e in w :: if matching[e] > 0 then large else small
  }

  // ---------------------------------------------------------------------------
  // The annotated graph
  // ---------------------------------------------------------------------------

  /** The state invariant of the graph, on the values of its four fields. */
  ghost predicate GraphValid(nodes: seq<int>, weight: map<Edge, real>, em: map<Edge, int>, nm: map<int, int>) {
    Distinct(nodes) &&
    (forall e :: e in weight ==> e.0 in nodes && e.1 in nodes) &&
    em.Keys <= weight.Keys &&
    (forall u :: u in nm ==> u in nodes)
  }

  /** The state after initialisation: every edge and every node carries a matching. */
  ghost predicate GraphAnnotated(nodes: seq<int>, weight: map<Edge, real>, em: map<Edge, int>, nm: map<int, int>) {
    GraphValid(nodes, weight, em, nm) &&
    em.Keys == weight.Keys &&
    (forall k :: 0 <= k < |nodes| ==> nodes[k] in nm)
  }

  /** The colour list: node k takes the group of the first record whose source it is. */
  ghost predicate ColouredByFirstRecord(nodes: seq<int>, matches: seq<MatchRecord>, nc: seq<Option<int>>) {
    |nc| == |nodes| && forall k :: 0 <= k < |nodes| ==> nc[k] == FirstGroup(matches, nodes[k])
  }

  /** The label map: exactly the nodes that are the source of a record, each labelled by itself. */
  ghost predicate LabelledSources(nodes: seq<int>, matches: seq<MatchRecord>, labels: map<int, int>) {
    (forall u :: u in labels <==> u in nodes && HasSource(matches, u)) &&
    (forall u :: u in labels ==> labels[u] == u)
  }

  /** Two-level weights: an edge with a positive matching weighs LargeWeight, any other SmallWeight. */
  ghost predicate TwoLevelWeighted(weight: map<Edge, real>, em: map<Edge, int>) {
    forall e :: e in weight ==> e in em && weight[e] == (if em[e] > 0 then LargeWeight else SmallWeight)
  }

  /** The nodes are exactly the sources and targets of the weight rows. */
  ghost predicate NodesFromRows(nodes: seq<int>, rows: seq<W.WeightRecord>) {
    forall u :: u in nodes <==> exists k :: 0 <= k < |rows| && (rows[k].source == u || rows[k].target == u)
  }

  /**
   * The edges are exactly the (source, target) pairs of the weight rows, and
   * an edge weighs what the last row naming it says.
   */
  ghost predicate EdgesFromRows(weight: map<Edge, real>, rows: seq<W.WeightRecord>) {
    (forall e :: e in weight <==> exists k :: 0 <= k < |rows| && (rows[k].source, rows[k].target) == e) &&
    (forall k ::
      (0 <= k < |rows| &&
       forall k' :: k < k' < |rows| ==> (rows[k'].source, rows[k'].target) != (rows[k].source, rows[k].target))
      ==> (rows[k].source, rows[k].target) in weight && weight[(rows[k].source, rows[k].target)] == rows[k].weight)
  }

  /** In an annotated graph the source of every edge carries a node matching. */
  lemma AnnotatedSources(nodes: seq<int>, weight: map<Edge, real>, em: map<Edge, int>, nm: map<int, int>)
    requires GraphAnnotated(nodes, weight, em, nm)
    ensures forall e :: e in weight ==> e.0 in nm
  {
  }

  /** Rewriting attribute values without changing any key set keeps the graph annotated. */
  lemma AnnotatedByKeys(nodes: seq<int>, w0: map<Edge, real>, em0: map<Edge, int>, nm0: map<int, int>,
                        w: map<Edge, real>, em: map<Edge, int>, nm: map<int, int>)
    requires GraphAnnotated(nodes, w0, em0, nm0)
    requires w.Keys == w0.Keys && em.Keys == em0.Keys && nm.Keys == nm0.Keys
    ensures GraphAnnotated(nodes, w, em, nm)
  {
  }

  class DiGraph {
    /** The nodes, in the order they were first added. */
    var nodes: seq<int>
    /** The 'weight' attribute of every edge; its keys are the edge set. */
    var weight: map<Edge, real>
    /** The 'matching' attribute of the edges that carry one. */
    var edgeMatching: map<Edge, int>
    /** The 'matching' attribute of the nodes that carry one. */
    var nodeMatching: map<int, int>

    /** A simple directed graph: distinct nodes, edges between nodes, attributes on existing items. */
    ghost predicate Valid()
      reads this
    {
      GraphValid(nodes, weight, edgeMatching, nodeMatching)
    }

    /** Every edge and every node carries a 'matching' attribute. */
    ghost predicate Annotated()
      reads this
    {
      GraphAnnotated(nodes, weight, edgeMatching, nodeMatching)
    }

    /** nx.DiGraph(): the empty graph. */
    constructor ()
      ensures Valid()
      ensures nodes == [] && weight == map[] && edgeMatching == map[] && nodeMatching == map[]
    {
      nodes := [];
      weight := map[];
      edgeMatching := map[];
      nodeMatching := map[];
    }

    /**
     * add_weighted_edges_from: each (u, v, w) adds u and v if they are new and
     * sets the weight of u -> v, a repeated edge keeping the last weight.
     */
    method AddWeightedEdgesFrom(edgelist: seq<WeightedEdge>)
      requires Valid()
      modifies this`nodes, this`weight
      ensures Valid()
      ensures nodes == NodesAfter(old(nodes), edgelist, |edgelist|)
      ensures weight == Overwrite(old(weight), edgelist, |edgelist|, EdgeKey, WeightOf)
    {
      var k := 0;
      while k < |edgelist|
        invariant 0 <= k <= |edgelist|
        invariant Valid()
        invariant nodes == NodesAfter(old(nodes), edgelist, k)
        invariant weight == Overwrite(old(weight), edgelist, k, EdgeKey, WeightOf)
      {
        var e := edgelist[k];
        AddEdge(e.source, e.target, e.weight);
        EdgeListStep(old(nodes), old(weight), edgelist, k);
        k := k + 1;
      }
    }

    /** add_edge(u, v, weight=w): adds u, then v, if new, and sets the weight of u -> v. */
    method AddEdge(u: int, v: int, w: real)
      requires Valid()
      modifies this`nodes, this`weight
      ensures Valid()
      ensures nodes == AddNode(AddNode(old(nodes), u), v)
      ensures weight == old(weight)[(u, v) := w]
    {
      AddNodeDistinct(nodes, u);
      if u !in nodes {
        nodes := nodes + [u];
      }
      AddNodeDistinct(nodes, v);
      if v !in nodes {
        nodes := nodes + [v];
      }
      weight := weight[(u, v) := w];
    }

    /** set_edge_attributes(G, 'matching', value): every edge carries `value`. */
    method SetEdgeMatching(value: int)
      requires Valid()
      modifies this`edgeMatching
      ensures Valid()
      ensures edgeMatching == Filled(weight.Keys, value)
    {
      edgeMatching := Filled(weight.Keys, value);
    }

    /** set_node_attributes(G, 'matching', value): every node carries `value`. */
    method SetNodeMatching(value: int)
      requires Valid()
      modifies this`nodeMatching
      ensures Valid()
      ensures nodeMatching == map u | u in nodes :: value
    {
      nodeMatching := map u | u in nodes :: value;
    }

    /**
     * The match loop run on the graph: the groups are written on the edges
     * and source nodes exactly as MatchLoop computes them, a missing edge
     * aborting the loop (ok == false) with the earlier records applied.
     */
    method ApplyMatches(rawMatches: seq<MatchRecord>) returns (matches: seq<MatchRecord>, ec: seq<int>, ok: bool)
      requires Annotated()
      modifies this`edgeMatching, this`nodeMatching
      ensures Annotated()
      ensures nodes == old(nodes) && weight == old(weight)
      ensures ok <==> forall k :: 0 <= k < |rawMatches| ==> EdgeOf(rawMatches[k]) in weight
      ensures var b := MatchedPrefix(rawMatches, weight.Keys);
        matches == rawMatches[..if ok then b else b + 1] &&
        edgeMatching == Overwrite(old(edgeMatching), rawMatches, b, EdgeOf, GroupOf) &&
        nodeMatching == Overwrite(old(nodeMatching), rawMatches, b, SourceOf, GroupOf)
      ensures ok ==> (matches == rawMatches &&
        edgeMatching == Overwrite(old(edgeMatching), rawMatches, |rawMatches|, EdgeOf, GroupOf) &&
        nodeMatching == Overwrite(old(nodeMatching), rawMatches, |rawMatches|, SourceOf, GroupOf))
      ensures |ec| == |matches| && forall k :: 0 <= k < |matches| ==> ec[k] == matches[k].group
    {
      var em, nm;
      AnnotatedSources(nodes, weight, edgeMatching, nodeMatching);
      matches, ec, em, nm, ok := MatchLoop(rawMatches, weight.Keys, edgeMatching, nodeMatching);
      MatchedKeys(rawMatches, weight.Keys, edgeMatching, nodeMatching);
      AnnotatedByKeys(nodes, weight, edgeMatching, nodeMatching, weight, em, nm);
      edgeMatching, nodeMatching := em, nm;
    }

    /**
     * The two-level reweighting: the 'weight' and 'matching' attributes are
     * read, the weights are rewritten by TwoLevelWeights and written back.
     */
    method Reweight(large: real, small: real)
      requires Annotated()
      modifies this`weight
      ensures Annotated()
      ensures nodes == old(nodes) && edgeMatching == old(edgeMatching) && nodeMatching == old(nodeMatching)
      ensures weight == Reweighted(old(weight), edgeMatching, large, small)
    {
      var weights := TwoLevelWeights(weight, edgeMatching, large, small);
      AnnotatedByKeys(nodes, weight, edgeMatching, nodeMatching, weights, edgeMatching, nodeMatching);
      weight := weights;
    }
  }

  /**
   * The reweighting loop: a copy of the weights is overwritten edge by edge,
   * the large level for a positive matching and the small one otherwise.
   * The edges are taken in an unspecified order.
   */
  method TwoLevelWeights(weights0: map<Edge, real>, matchings: map<Edge, int>, large: real, small: real)
    returns (weights: map<Edge, real>)
    requires weights0.Keys <= matchings.Keys
    ensures weights == Reweighted(weights0, matchings, large, small)
  {
    weights := weights0;
    var todo := weights.Keys;
    while todo != {}
      invariant todo <= weights.Keys == weights0.Keys
      invariant forall e :: e in weights && e !in todo ==>
        weights[e] == if matchings[e] > 0 then large else small
      decreases todo
    {
      var e :| e in todo;
      if matchings[e] > 0 {
        weights := weights[e := large];
      } else {
        weights := weights[e := small];
      }
      todo := todo - {e};
    }
  }

  // ---------------------------------------------------------------------------
  // The match loop
  // ---------------------------------------------------------------------------

  /**
   * The match loop of the script: each record is appended to `matches` and
   * its group to `ec`, then its group is written on the edge (in `em`) and on
   * the edge's source node (in `nm`). A record naming an edge outside `edges`
   * aborts the loop at the lookup (ok == false), after it was appended and
   * with the earlier records applied.
   */
  method MatchLoop(rawMatches: seq<MatchRecord>, edges: set<Edge>, em0: map<Edge, int>, nm0: map<int, int>)
    returns (matches: seq<MatchRecord>, ec: seq<int>, em: map<Edge, int>, nm: map<int, int>, ok: bool)
    ensures ok == (MatchedPrefix(rawMatches, edges) == |rawMatches|)
    ensures ok <==> forall k :: 0 <= k < |rawMatches| ==> EdgeOf(rawMatches[k]) in edges
    ensures var b := MatchedPrefix(rawMatches, edges);
      matches == rawMatches[..if ok then b else b + 1] &&
      em == Overwrite(em0, rawMatches, b, EdgeOf, GroupOf) &&
      nm == Overwrite(nm0, rawMatches, b, SourceOf, GroupOf)
    ensures ok ==> (matches == rawMatches &&
      em == Overwrite(em0, rawMatches, |rawMatches|, EdgeOf, GroupOf) &&
      nm == Overwrite(nm0, rawMatches, |rawMatches|, SourceOf, GroupOf))
    ensures |ec| == |matches| && forall k :: 0 <= k < |matches| ==> ec[k] == matches[k].group
  {
    em, nm := em0, nm0;
    matches, ec := [], [];
    ok := true;
    var i := 0;
    while i < |rawMatches|
      invariant 0 <= i <= |rawMatches| && ok
      invariant forall k :: 0 <= k < i ==> EdgeOf(rawMatches[k]) in edges
      invariant matches == rawMatches[..i]
      invariant |ec| == i && forall k :: 0 <= k < i ==> ec[k] == rawMatches[k].group
      invariant em == Overwrite(em0, rawMatches, i, EdgeOf, GroupOf)
      invariant nm == Overwrite(nm0, rawMatches, i, SourceOf, GroupOf)
    {
      var line := rawMatches[i];
      var u, v, m := line.source, line.target, line.group;
      matches := matches + [MatchRecord(u, v, m)];
      ec := ec + [m];
      if (u, v) !in edges {
        ok := false;
        break;
      }
      em, nm := em[(u, v) := m], nm[u := m];
      i := i + 1;
    }
    MatchedPrefixIs(rawMatches, edges, i);
  }

  // ---------------------------------------------------------------------------
  // Node colours and labels
  // ---------------------------------------------------------------------------

  /**
   * The colour scan: for every node, in node order, the group of the first
   * match record whose source is that node (None if there is none); every
   * node that is such a source is labelled with itself.
   */
  method NodeColours(nodes: seq<int>, matches: seq<MatchRecord>) returns (nc: seq<Option<int>>, labels: map<int, int>)
    ensures |nc| == |nodes|
    ensures forall k :: 0 <= k < |nodes| ==> nc[k] == FirstGroup(matches, nodes[k])
    ensures forall u :: u in labels <==> u in nodes && HasSource(matches, u)
    ensures forall u :: u in labels ==> labels[u] == u
  {
    nc := [];
    labels := map[];
    var i := 0;
    while i < |nodes|
      invariant 0 <= i <= |nodes|
      invariant |nc| == i
      invariant forall k :: 0 <= k < i ==> nc[k] == FirstGroup(matches, nodes[k])
      invariant forall u :: u in labels <==> u in nodes[..i] && HasSource(matches, u)
      invariant forall u :: u in labels ==> labels[u] == u
    {
      var n := nodes[i];
      var color: Option<int> := None;
      var j := 0;
      while j < |matches|
        invariant 0 <= j <= |matches|
        invariant forall k :: 0 <= k < j ==> matches[k].source != n
      {
        if matches[j].source == n {
          color := Some(matches[j].group);
          labels := labels[matches[j].source := matches[j].source];
          break;
        }
        j := j + 1;
      }
      FirstGroupFacts(matches, n);
      assert nodes[..i + 1] == nodes[..i] + [n];
      nc := nc + [color];
      i := i + 1;
    }
    assert nodes[..i] == nodes;
  }

  // ---------------------------------------------------------------------------
  // Lemmas
  // ---------------------------------------------------------------------------

  /**
   * Overwriting in order, seen from one key x: x is present exactly when it
   * was present or one of the first n records names it; if none names x it
   * keeps its value; otherwise it takes the value of the last one naming it.
   */
  lemma {:induction false} OverwriteAt<R, K, V>(m: map<K, V>, rs: seq<R>, n: nat, key: R -> K, val: R -> V, x: K)
    requires n <= |rs|
    ensures x in Overwrite(m, rs, n, key, val) <==> x in m || exists k :: 0 <= k < n && key(rs[k]) == x
    ensures x in m && (forall k :: 0 <= k < n ==> key(rs[k]) != x) ==> Overwrite(m, rs, n, key, val)[x] == m[x]
    ensures forall k :: 0 <= k < n && key(rs[k]) == x && (forall k' :: k < k' < n ==> key(rs[k']) != x) ==>
      Overwrite(m, rs, n, key, val)[x] == val(rs[k])
    decreases n
  {
    if n > 0 {
      OverwriteAt(m, rs, n - 1, key, val, x);
      if key(rs[n - 1]) == x {
        assert key(rs[n - 1]) == x;
      }
    }
  }

  /** Overwriting only at keys already present leaves the key set as it is. */
  lemma {:induction false} OverwriteKeys<R, K, V>(m: map<K, V>, rs: seq<R>, n: nat, key: R -> K, val: R -> V)
    requires n <= |rs|
    requires forall k :: 0 <= k < n ==> key(rs[k]) in m
    ensures Overwrite(m, rs, n, key, val).Keys == m.Keys
    decreases n
  {
    if n > 0 {
      OverwriteKeys(m, rs, n - 1, key, val);
    }
  }

  /**
   * The records the match loop applies name existing edges, so the edge and
   * node attribute maps keep their key sets.
   */
  lemma MatchedKeys(ms: seq<MatchRecord>, edges: set<Edge>, em0: map<Edge, int>, nm0: map<int, int>)
    requires em0.Keys == edges
    requires forall e :: e in edges ==> e.0 in nm0
    ensures Overwrite(em0, ms, MatchedPrefix(ms, edges), EdgeOf, GroupOf).Keys == edges
    ensures Overwrite(nm0, ms, MatchedPrefix(ms, edges), SourceOf, GroupOf).Keys == nm0.Keys
  {
    var b := MatchedPrefix(ms, edges);
    forall k | 0 <= k < b ensures SourceOf(ms[k]) in nm0 {
      assert EdgeOf(ms[k]) in edges;
    }
    OverwriteKeys(em0, ms, b, EdgeOf, GroupOf);
    OverwriteKeys(nm0, ms, b, SourceOf, GroupOf);
  }

  /** The facts of OverwriteAt for every key and every record at once. */
  lemma OverwriteLastWins<R, K, V>(m: map<K, V>, rs: seq<R>, n: nat, key: R -> K, val: R -> V)
    requires n <= |rs|
    ensures forall x :: x in Overwrite(m, rs, n, key, val) <==>
      x in m || exists k :: 0 <= k < n && key(rs[k]) == x
    ensures forall x :: x in m && (forall k :: 0 <= k < n ==> key(rs[k]) != x) ==>
      Overwrite(m, rs, n, key, val)[x] == m[x]
    ensures forall k :: 0 <= k < n && (forall k' :: k < k' < n ==> key(rs[k']) != key(rs[k])) ==>
      key(rs[k]) in Overwrite(m, rs, n, key, val) && Overwrite(m, rs, n, key, val)[key(rs[k])] == val(rs[k])
  {
    forall x {
      OverwriteAt(m, rs, n, key, val, x);
    }
  }

  /**
   * Adding edges keeps the nodes distinct, and the nodes are exactly the
   * earlier ones and the endpoints of the edges.
   */
  lemma NodesAfterFacts(ns: seq<int>, el: seq<WeightedEdge>, n: nat)
    requires Distinct(ns) && n <= |el|
    ensures Distinct(NodesAfter(ns, el, n))
    ensures forall u :: u in NodesAfter(ns, el, n) <==>
      u in ns || exists k :: 0 <= k < n && (el[k].source == u || el[k].target == u)
  {
    NodesAfterDistinct(ns, el, n);
    forall u ensures u in NodesAfter(ns, el, n) <==>
      u in ns || exists k :: 0 <= k < n && (el[k].source == u || el[k].target == u)
    {
      NodesAfterMember(ns, el, n, u);
    }
  }

  /** The node list stays distinct. */
  lemma {:induction false} NodesAfterDistinct(ns: seq<int>, el: seq<WeightedEdge>, n: nat)
    requires Distinct(ns) && n <= |el|
    ensures Distinct(NodesAfter(ns, el, n))
    decreases n
  {
    if n > 0 {
      NodesAfterDistinct(ns, el, n - 1);
      NodesAfterUnfold(ns, el, n);
      DistinctStep(NodesAfter(ns, el, n - 1), el[n - 1], NodesAfter(ns, el, n));
    }
  }

  /** u is an endpoint of one of the first n edges of `el`. */
  predicate IsEndpoint(el: seq<WeightedEdge>, n: nat, u: int)
    requires n <= |el|
  {
    exists k :: 0 <= k < n && (el[k].source == u || el[k].target == u)
  }

  /** Being an endpoint of the first n edges: of the first n - 1, or of edge n - 1. */
  lemma IsEndpointSnoc(el: seq<WeightedEdge>, n: nat, u: int)
    requires 0 < n <= |el|
    ensures IsEndpoint(el, n, u) <==> IsEndpoint(el, n - 1, u) || el[n - 1].source == u || el[n - 1].target == u
  {
    if IsEndpoint(el, n, u) && !(el[n - 1].source == u || el[n - 1].target == u) {
      var k :| 0 <= k < n && (el[k].source == u || el[k].target == u);
      assert k < n - 1;
    }
  }

  /** A node is in the list exactly when it was there before or is an endpoint of an added edge. */
  lemma {:induction false} NodesAfterMember(ns: seq<int>, el: seq<WeightedEdge>, n: nat, u: int)
    requires n <= |el|
    ensures u in NodesAfter(ns, el, n) <==> u in ns || IsEndpoint(el, n, u)
    decreases n
  {
    if n > 0 {
      NodesAfterMember(ns, el, n - 1, u);
      NodesAfterUnfold(ns, el, n);
      MemberStep(NodesAfter(ns, el, n - 1), el[n - 1], NodesAfter(ns, el, n), u);
      IsEndpointSnoc(el, n, u);
    }
  }

  /** Adding an edge's endpoints keeps the list distinct. */
  lemma AddEndpointsFacts(ns: seq<int>, e: WeightedEdge)
    requires Distinct(ns)
    ensures Distinct(AddEndpoints(ns, e))
  {
    AddNodeDistinct(ns, e.source);
    AddNodeDistinct(AddNode(ns, e.source), e.target);
  }

  /** A list obtained by adding an edge's endpoints to a distinct list is distinct. */
  lemma DistinctStep(prev: seq<int>, e: WeightedEdge, next: seq<int>)
    requires Distinct(prev) && next == AddEndpoints(prev, e)
    ensures Distinct(next)
  {
    AddEndpointsFacts(prev, e);
  }

  /** A list obtained by adding an edge's endpoints holds exactly those and the earlier nodes. */
  lemma MemberStep(prev: seq<int>, e: WeightedEdge, next: seq<int>, u: int)
    requires next == AddEndpoints(prev, e)
    ensures u in next <==> u in prev || u == e.source || u == e.target
  {
    AddEndpointsMember(prev, e, u);
  }

  /** Adding an edge's endpoints adds exactly its source and its target. */
  lemma AddEndpointsMember(ns: seq<int>, e: WeightedEdge, u: int)
    ensures u in AddEndpoints(ns, e) <==> u in ns || u == e.source || u == e.target
  {
    AddNodeMember(ns, e.source, u);
    AddNodeMember(AddNode(ns, e.source), e.target, u);
  }

  /** The last of n edges adds its endpoints to the list of the first n - 1. */
  lemma NodesAfterUnfold(ns: seq<int>, el: seq<WeightedEdge>, n: nat)
    requires 0 < n <= |el|
    ensures NodesAfter(ns, el, n) == AddEndpoints(NodesAfter(ns, el, n - 1), el[n - 1])
  {
  }

  /** Adding the next edge of the list: its endpoints join the nodes and its weight is written. */
  lemma EdgeListStep(ns: seq<int>, w: map<Edge, real>, el: seq<WeightedEdge>, k: nat)
    requires k < |el|
    ensures NodesAfter(ns, el, k + 1) == AddNode(AddNode(NodesAfter(ns, el, k), el[k].source), el[k].target)
    ensures Overwrite(w, el, k + 1, EdgeKey, WeightOf) ==
      Overwrite(w, el, k, EdgeKey, WeightOf)[(el[k].source, el[k].target) := el[k].weight]
  {
  }

  /** Adding one node keeps the list distinct. */
  lemma AddNodeDistinct(ns: seq<int>, u: int)
    requires Distinct(ns)
    ensures Distinct(AddNode(ns, u))
  {
    if u !in ns {
      forall a, b | 0 <= a < b < |ns| + 1 ensures NodeAt(ns + [u], a) != NodeAt(ns + [u], b) {
        assert NodeAt(ns + [u], a) == NodeAt(ns, a);
        if b < |ns| {
          assert NodeAt(ns + [u], b) == NodeAt(ns, b);
        }
      }
    }
  }

  /** Adding node v adds exactly v. */
  lemma AddNodeMember(ns: seq<int>, v: int, u: int)
    ensures u in AddNode(ns, v) <==> u in ns || u == v
  {
  }

  /** The first-record scan: None exactly when no record has source u, else the first one's group. */
  lemma {:induction false} FirstGroupFacts(ms: seq<MatchRecord>, u: int)
    ensures FirstGroup(ms, u) == None <==> !HasSource(ms, u)
    ensures forall j :: 0 <= j < |ms| && ms[j].source == u && (forall k :: 0 <= k < j ==> ms[k].source != u) ==>
      FirstGroup(ms, u) == Some(ms[j].group)
    decreases |ms|
  {
    if ms != [] {
      FirstGroupFacts(ms[1..], u);
      if ms[0].source != u {
        if HasSource(ms, u) {
          var k :| 0 <= k < |ms| && ms[k].source == u;
          assert ms[1..][k - 1].source == u;
        }
        if HasSource(ms[1..], u) {
          var k :| 0 <= k < |ms[1..]| && ms[1..][k].source == u;
          assert ms[k + 1].source == u;
        }
        forall j | 0 <= j < |ms| && ms[j].source == u && (forall k :: 0 <= k < j ==> ms[k].source != u)
          ensures FirstGroup(ms, u) == Some(ms[j].group)
        {
          assert ms[1..][j - 1] == ms[j];
          assert forall k :: 0 <= k < j - 1 ==> ms[1..][k].source != u by {
            forall k | 0 <= k < j - 1 ensures ms[1..][k].source != u {
              assert ms[1..][k] == ms[k + 1];
            }
          }
        }
      }
    }
  }

  /**
   * After initialisation and the match loop, an edge carries the group of the
   * last record naming it, and 0 if no record names it.
   */
  lemma AppliedEdgeMatching(edges: set<Edge>, ms: seq<MatchRecord>)
    ensures var em := Overwrite(Filled(edges, 0), ms, |ms|, EdgeOf, GroupOf);
      forall e :: e in edges && (forall k :: 0 <= k < |ms| ==> EdgeOf(ms[k]) != e) ==> e in em && em[e] == 0
    ensures var em := Overwrite(Filled(edges, 0), ms, |ms|, EdgeOf, GroupOf);
      forall k :: 0 <= k < |ms| && (forall k' :: k < k' < |ms| ==> EdgeOf(ms[k']) != EdgeOf(ms[k])) ==>
        EdgeOf(ms[k]) in em && em[EdgeOf(ms[k])] == ms[k].group
  {
    var em0 := Filled(edges, 0);
    forall e | e in edges && (forall k :: 0 <= k < |ms| ==> EdgeOf(ms[k]) != e)
      ensures e in Overwrite(em0, ms, |ms|, EdgeOf, GroupOf) && Overwrite(em0, ms, |ms|, EdgeOf, GroupOf)[e] == 0
    {
      OverwriteAt(em0, ms, |ms|, EdgeOf, GroupOf, e);
    }
    forall k | 0 <= k < |ms| && (forall k' :: k < k' < |ms| ==> EdgeOf(ms[k']) != EdgeOf(ms[k]))
      ensures EdgeOf(ms[k]) in Overwrite(em0, ms, |ms|, EdgeOf, GroupOf) &&
        Overwrite(em0, ms, |ms|, EdgeOf, GroupOf)[EdgeOf(ms[k])] == ms[k].group
    {
      OverwriteAt(em0, ms, |ms|, EdgeOf, GroupOf, EdgeOf(ms[k]));
    }
  }

  /**
   * After initialisation and the match loop, a node carries the group of the
   * last record with it as source, and 0 if there is none: a node that is
   * only ever a target keeps 0.
   */
  lemma AppliedNodeMatching(nodes: set<int>, ms: seq<MatchRecord>)
    ensures var nm := Overwrite(map u | u in nodes :: 0, ms, |ms|, SourceOf, GroupOf);
      forall u :: u in nodes && !HasSource(ms, u) ==> u in nm && nm[u] == 0
    ensures var nm := Overwrite(map u | u in nodes :: 0, ms, |ms|, SourceOf, GroupOf);
      forall k :: 0 <= k < |ms| && (forall k' :: k < k' < |ms| ==> ms[k'].source != ms[k].source) ==>
        ms[k].source in nm && nm[ms[k].source] == ms[k].group
  {
    var nm0 := map u | u in nodes :: 0;
    forall u | u in nodes && !HasSource(ms, u) ensures u in Overwrite(nm0, ms, |ms|, SourceOf, GroupOf) &&
      Overwrite(nm0, ms, |ms|, SourceOf, GroupOf)[u] == 0
    {
      OverwriteAt(nm0, ms, |ms|, SourceOf, GroupOf, u);
    }
    forall k | 0 <= k < |ms| && (forall k' :: k < k' < |ms| ==> ms[k'].source != ms[k].source)
      ensures ms[k].source in Overwrite(nm0, ms, |ms|, SourceOf, GroupOf) &&
        Overwrite(nm0, ms, |ms|, SourceOf, GroupOf)[ms[k].source] == ms[k].group
    {
      OverwriteAt(nm0, ms, |ms|, SourceOf, GroupOf, ms[k].source);
    }
  }

  /**
   * When a node is the source of exactly one match record (as in a solution
   * where every pair donates once), its plot colour and its 'matching'
   * attribute agree; in general the colour takes the first record and the
   * attribute the last.
   */
  lemma ColourAgreesWithMatching(nodes: set<int>, ms: seq<MatchRecord>, j: nat)
    requires j < |ms| && ms[j].source in nodes
    requires forall k :: 0 <= k < |ms| && k != j ==> ms[k].source != ms[j].source
    ensures var nm := Overwrite(map u | u in nodes :: 0, ms, |ms|, SourceOf, GroupOf);
      ms[j].source in nm && FirstGroup(ms, ms[j].source) == Some(nm[ms[j].source])
  {
    FirstGroupFacts(ms, ms[j].source);
    OverwriteAt(map u | u in nodes :: 0, ms, |ms|, SourceOf, GroupOf, ms[j].source);
  }

  /**
   * The edge set of a graph built from an edge list is exactly the (source,
   * target) pairs of the list; an edge named once keeps that weight.
   */
  lemma BuiltEdges(el: seq<WeightedEdge>)
    ensures forall e :: e in Overwrite(map[], el, |el|, EdgeKey, WeightOf) <==>
      exists k :: 0 <= k < |el| && (el[k].source, el[k].target) == e
    ensures forall k :: 0 <= k < |el| && (forall k' :: k < k' < |el| ==> EdgeKey(el[k']) != EdgeKey(el[k])) ==>
      EdgeKey(el[k]) in Overwrite(map[], el, |el|, EdgeKey, WeightOf) &&
      Overwrite(map[], el, |el|, EdgeKey, WeightOf)[EdgeKey(el[k])] == el[k].weight
  {
    var w := Overwrite(map[], el, |el|, EdgeKey, WeightOf);
    forall e ensures e in w <==> exists k :: 0 <= k < |el| && (el[k].source, el[k].target) == e {
      OverwriteAt(map[], el, |el|, EdgeKey, WeightOf, e);
      if e in w {
        var k :| 0 <= k < |el| && EdgeKey(el[k]) == e;
        assert (el[k].source, el[k].target) == e;
      }
    }
    forall k | 0 <= k < |el| && (forall k' :: k < k' < |el| ==> EdgeKey(el[k']) != EdgeKey(el[k]))
      ensures EdgeKey(el[k]) in w && w[EdgeKey(el[k])] == el[k].weight
    {
      OverwriteAt(map[], el, |el|, EdgeKey, WeightOf, EdgeKey(el[k]));
    }
  }

  /**
   * A graph built from generated weights has no self-loop, only nodes in 1..n,
   * and keeps every generated weight, since no ordered pair is generated twice.
   */
  lemma GeneratedGraph(n: int, p: real, rand: W.Oracle, el: seq<WeightedEdge>)
    requires |el| == |W.Generate(W.Enumeration(n), p, rand).records|
    requires forall k :: 0 <= k < |el| ==>
      var r := W.Generate(W.Enumeration(n), p, rand).records[k];
      el[k] == WeightedEdge(r.source, r.target, r.weight)
    ensures forall e :: e in Overwrite(map[], el, |el|, EdgeKey, WeightOf) ==>
      e.0 != e.1 && 1 <= e.0 <= n && 1 <= e.1 <= n
    ensures forall u :: u in NodesAfter([], el, |el|) ==> 1 <= u <= n
    ensures forall k :: 0 <= k < |el| ==>
      EdgeKey(el[k]) in Overwrite(map[], el, |el|, EdgeKey, WeightOf) &&
      Overwrite(map[], el, |el|, EdgeKey, WeightOf)[EdgeKey(el[k])] == el[k].weight
  {
    var ws := W.Generate(W.Enumeration(n), p, rand).records;
    var w := Overwrite(map[], el, |el|, EdgeKey, WeightOf);
    W.GeneratedRecords(n, p, rand);
    BuiltEdges(el);
    NodesAfterFacts([], el, |el|);
    forall u | u in NodesAfter([], el, |el|) ensures 1 <= u <= n {
      var k :| 0 <= k < |el| && (el[k].source == u || el[k].target == u);
      assert el[k].source == ws[k].source && el[k].target == ws[k].target;
    }
    forall e | e in w ensures e.0 != e.1 && 1 <= e.0 <= n && 1 <= e.1 <= n {
      var k :| 0 <= k < |el| && (el[k].source, el[k].target) == e;
      assert el[k].source == ws[k].source && el[k].target == ws[k].target;
    }
    forall k | 0 <= k < |el| ensures forall k' :: k < k' < |el| ==> EdgeKey(el[k']) != EdgeKey(el[k]) {
      forall k' | k < k' < |el| ensures EdgeKey(el[k']) != EdgeKey(el[k]) {
        assert W.LexLess(W.PairOf(ws[k]), W.PairOf(ws[k']));
      }
    }
  }

  /** The graph built from weight rows has the rows' endpoints as nodes and their pairs and weights as edges. */
  lemma LoadedFacts(rows: seq<W.WeightRecord>)
    ensures NodesFromRows(NodesAfter([], EdgeList(rows), |rows|), rows)
    ensures EdgesFromRows(Overwrite(map[], EdgeList(rows), |rows|, EdgeKey, WeightOf), rows)
  {
    LoadedNodes(rows, EdgeList(rows));
    LoadedEdges(rows, EdgeList(rows));
  }

  /** The nodes built from an edge list taken from weight rows are the rows' endpoints. */
  lemma LoadedNodes(rows: seq<W.WeightRecord>, el: seq<WeightedEdge>)
    requires |el| == |rows|
    requires forall k :: 0 <= k < |rows| ==> el[k].source == rows[k].source && el[k].target == rows[k].target
    ensures NodesFromRows(NodesAfter([], el, |el|), rows)
  {
    NodesAfterFacts([], el, |el|);
  }

  /** The edges built from an edge list taken from weight rows are the rows' pairs, with their last weights. */
  lemma LoadedEdges(rows: seq<W.WeightRecord>, el: seq<WeightedEdge>)
    requires |el| == |rows|
    requires forall k :: 0 <= k < |rows| ==> EdgeKey(el[k]) == (rows[k].source, rows[k].target) && el[k].weight == rows[k].weight
    ensures EdgesFromRows(Overwrite(map[], el, |el|, EdgeKey, WeightOf), rows)
  {
    BuiltEdges(el);
  }

  /** The reweighted map has the same edges and only the two levels, chosen by the matching. */
  lemma ReweightedLevels(w: map<Edge, real>, matching: map<Edge, int>, large: real, small: real)
    requires w.Keys <= matching.Keys
    ensures Reweighted(w, matching, large, small).Keys == w.Keys
    ensures forall e :: e in w && matching[e] > 0 ==> Reweighted(w, matching, large, small)[e] == large
    ensures forall e :: e in w && matching[e] <= 0 ==> Reweighted(w, matching, large, small)[e] == small
  {
  }

  /** Reweighting forgets the true weights, so applying it twice is applying it once. */
  lemma ReweightIdempotent(w: map<Edge, real>, matching: map<Edge, int>, large: real, small: real)
    requires w.Keys <= matching.Keys
    ensures Reweighted(Reweighted(w, matching, large, small), matching, large, small) ==
      Reweighted(w, matching, large, small)
  {
  }

  /**
   * One edge 1 -> 2 of weight 0.5 and one match record (1, 2, 3): the edge and
   * its source node 1 carry group 3, while the target node 2 keeps 0.
   */
  lemma MergeExample()
    ensures var el := [WeightedEdge(1, 2, 0.5)];
      var ms := [MatchRecord(1, 2, 3)];
      var w := Overwrite(map[], el, 1, EdgeKey, WeightOf);
      var nodes := NodesAfter([], el, 1);
      nodes == [1, 2] && w == map[(1, 2) := 0.5] &&
      Overwrite(Filled(w.Keys, 0), ms, 1, EdgeOf, GroupOf) == map[(1, 2) := 3] &&
      Overwrite(map u | u in nodes :: 0, ms, 1, SourceOf, GroupOf) == map[1 := 3, 2 := 0]
  {
  }

  // ---------------------------------------------------------------------------
  // The script
  // ---------------------------------------------------------------------------

  /**
   * Building and initialising the graph: the weighted edges of the list, then
   * a 'matching' attribute of 0 on every edge and every node.
   */
  method BuildGraph(edgelist: seq<WeightedEdge>) returns (g: DiGraph)
    ensures fresh(g) && g.Annotated()
    ensures g.nodes == NodesAfter([], edgelist, |edgelist|)
    ensures g.weight == Overwrite(map[], edgelist, |edgelist|, EdgeKey, WeightOf)
    ensures g.edgeMatching == Filled(g.weight.Keys, 0)
    ensures g.nodeMatching == map u | u in g.nodes :: 0
  {
    g := new DiGraph();
    g.AddWeightedEdgesFrom(edgelist);
    g.SetEdgeMatching(0);
    g.SetNodeMatching(0);
  }

  /** Reading the weight file (no header) and building the initialised graph from its rows. */
  method LoadGraph(weightRows: seq<W.WeightRecord>) returns (g: DiGraph)
    ensures fresh(g) && g.Annotated()
    ensures g.nodes == NodesAfter([], EdgeList(weightRows), |weightRows|)
    ensures g.weight == Overwrite(map[], EdgeList(weightRows), |weightRows|, EdgeKey, WeightOf)
    ensures NodesFromRows(g.nodes, weightRows)
    ensures EdgesFromRows(g.weight, weightRows)
    ensures g.edgeMatching == Filled(g.weight.Keys, 0)
    ensures g.nodeMatching == map u | u in g.nodes :: 0
  {
    var rawWeights := CsvToList(weightRows, false);
    var edgelist := BuildEdgeList(rawWeights);
    g := BuildGraph(edgelist);
    LoadedFacts(weightRows);
  }

  /** The steps after a complete match loop: the colour scan, then the two-level reweighting. */
  method ColourAndReweight(g: DiGraph, matches: seq<MatchRecord>) returns (nc: seq<Option<int>>, labels: map<int, int>)
    requires g.Annotated()
    modifies g`weight
    ensures g.Annotated()
    ensures g.weight.Keys == old(g.weight.Keys)
    ensures ColouredByFirstRecord(g.nodes, matches, nc)
    ensures LabelledSources(g.nodes, matches, labels)
    ensures TwoLevelWeighted(g.weight, g.edgeMatching)
  {
    nc, labels := NodeColours(g.nodes, matches);
    ghost var w0 := g.weight;
    g.Reweight(LargeWeight, SmallWeight);
    ReweightedLevels(w0, g.edgeMatching, LargeWeight, SmallWeight);
  }

  /**
   * The script after loading the graph: the match loop, then, when no
   * match named a missing edge, the colours, labels and reweighting. When a
   * match names a missing edge the script stops there (ok == false) and
   * nothing after the match loop happens.
   */
  method AnnotateLoaded(g: DiGraph, rawMatches: seq<MatchRecord>)
    returns (matches: seq<MatchRecord>, ec: seq<int>, nc: seq<Option<int>>, labels: map<int, int>, ok: bool)
    requires g.Annotated()
    modifies g
    ensures g.Annotated()
    ensures g.nodes == old(g.nodes) && g.weight.Keys == old(g.weight.Keys)
    ensures ok <==> forall k :: 0 <= k < |rawMatches| ==> EdgeOf(rawMatches[k]) in g.weight
    ensures ok ==> (matches == rawMatches &&
      g.edgeMatching == Overwrite(old(g.edgeMatching), rawMatches, |rawMatches|, EdgeOf, GroupOf) &&
      g.nodeMatching == Overwrite(old(g.nodeMatching), rawMatches, |rawMatches|, SourceOf, GroupOf))
    ensures ok ==> ColouredByFirstRecord(g.nodes, matches, nc)
    ensures ok ==> LabelledSources(g.nodes, matches, labels)
    ensures ok ==> TwoLevelWeighted(g.weight, g.edgeMatching)
    ensures |ec| == |matches| && forall k :: 0 <= k < |matches| ==> ec[k] == matches[k].group
  {
    matches, ec, ok := g.ApplyMatches(rawMatches);
    if !ok {
      nc, labels := [], map[];
      return;
    }
    nc, labels := ColourAndReweight(g, matches);
  }

  /**
   * The module-level script: read both files, build and initialise the graph,
   * then apply the matches and annotate the graph as AnnotateLoaded does.
   */
  method AnnotateResults(weightRows: seq<W.WeightRecord>, matchRows: seq<MatchRecord>)
    returns (g: DiGraph, matches: seq<MatchRecord>, ec: seq<int>, nc: seq<Option<int>>, labels: map<int, int>, ok: bool)
    ensures fresh(g) && g.Annotated()
    ensures g.nodes == NodesAfter([], EdgeList(weightRows), |weightRows|)
    ensures NodesFromRows(g.nodes, weightRows)
    ensures forall e :: e in g.weight <==>
      exists k :: 0 <= k < |weightRows| && (weightRows[k].source, weightRows[k].target) == e
    ensures |ec| == |matches| && forall k :: 0 <= k < |matches| ==> ec[k] == matches[k].group
    ensures var ms := CsvToList(matchRows, true);
      ok <==> forall k :: 0 <= k < |ms| ==> EdgeOf(ms[k]) in g.weight
    ensures var ms := CsvToList(matchRows, true);
      ok ==> (matches == ms &&
        g.edgeMatching == Overwrite(Filled(g.weight.Keys, 0), ms, |ms|, EdgeOf, GroupOf) &&
        g.nodeMatching == Overwrite(map u | u in g.nodes :: 0, ms, |ms|, SourceOf, GroupOf))
    ensures ok ==> ColouredByFirstRecord(g.nodes, matches, nc)
    ensures ok ==> LabelledSources(g.nodes, matches, labels)
    ensures ok ==> TwoLevelWeighted(g.weight, g.edgeMatching)
  {
    g := LoadGraph(weightRows);
    var rawMatches := CsvToList(matchRows, true);
    matches, ec, nc, labels, ok := AnnotateLoaded(g, rawMatches);
  }
}
