/** `nxrender` itself: the caller's rule lists, the graph copy that gets
    labelled in place, and the description handed to Graphviz. */
module Render {
  import opened Outcome
  import opened Attributes
  import opened Labels
  import opened Legend

  /** A Python list of rule elements, owned by the caller. */
  class RuleList {
    var items: seq<Rule>

    constructor (items: seq<Rule>)
      ensures this.items == items
    {
      this.items := items;
    }
  }

  /** A networkx graph: its nodes and edges with their attribute dicts, in
      iteration order. Distinct node ids and edge endpoints among the node
      ids are not required: no pass reads an endpoint, and ids are only
      compared with legend values. */
  class Graph {
    var nodes: seq<Node>
    var edges: seq<Edge>

    constructor (nodes: seq<Node>, edges: seq<Edge>)
      ensures this.nodes == nodes && this.edges == edges
    {
      this.nodes := nodes;
      this.edges := edges;
    }

    /** `graph.copy()` (line 43) */
    constructor Copy(g: Graph)
      ensures nodes == g.nodes && edges == g.edges
    {
      nodes := g.nodes;
      edges := g.edges;
    }

    /** The node loop (lines 45-75): writes every node's label in place and
        fills the legend table, stopping at the first error. */
    method LabelNodes(rules: seq<Rule>, fullMatch: Matcher) returns (r: Result<LegendTable>)
      modifies this
      ensures edges == old(edges)
      ensures var spec := NodePass(old(nodes), rules, fullMatch, map[]);
        && (r.Ok? <==> spec.Ok?)
        && (r.Err? ==> r.error == spec.error)
        && (r.Ok? ==> nodes == spec.value.0 && r.value == spec.value.1)
    {
      ghost var input := nodes;
      var table: LegendTable := map[];
      var i := 0;
      PrependNodesEmpty(NodePass(input, rules, fullMatch, map[]));
      while i < |nodes|
        invariant 0 <= i <= |nodes| == |input|
        invariant nodes[i..] == input[i..]
        invariant edges == old(edges)
        invariant NodePass(input, rules, fullMatch, map[])
          == PrependNodes(nodes[..i], NodePass(input[i..], rules, fullMatch, table))
      {
        var node := nodes[i];
        assert node == input[i..][0];
        assert input[i..][1..] == input[i + 1..];
        var text :- ComputeLabel(node.attrs, rules, fullMatch);
        node := Node(node.id, WithLabel(node.attrs, text));
        ghost var before := nodes[..i];
        ghost var tableBefore := table;
        nodes := nodes[i := node];
        assert nodes[..i + 1] == before + [node];
        assert nodes[i + 1..] == input[i + 1..];
        if HasKey(node.attrs, LegendKey) {
          var key := Get(node.attrs, LegendKey);
          var data := DotStyle(node.attrs);
          if key !in table {
            table := table[key := data];
          } else if table[key] != data {
            return Err(LegendConflict);
          }
        }
        assert LegendStep(tableBefore, node.attrs) == Ok(table);
        assert NodePass(input[i..], rules, fullMatch, tableBefore)
          == PrependNodes([node], NodePass(input[i + 1..], rules, fullMatch, table));
        PrependNodesAppend(before, [node], NodePass(input[i + 1..], rules, fullMatch, table));
        i := i + 1;
      }
      assert nodes[..i] == nodes;
      r := Ok(table);
    }

    /** The edge loop (lines 77-100): writes every edge's label in place,
        stopping at the first error. */
    method LabelEdges(rules: seq<Rule>, fullMatch: Matcher) returns (r: Result<()>)
      modifies this
      ensures nodes == old(nodes)
      ensures var spec := EdgePass(old(edges), rules, fullMatch);
        && (r.Ok? <==> spec.Ok?)
        && (r.Err? ==> r.error == spec.error)
        && (r.Ok? ==> edges == spec.value)
    {
      ghost var input := edges;
      var i := 0;
      PrependEdgesEmpty(EdgePass(input, rules, fullMatch));
      while i < |edges|
        invariant 0 <= i <= |edges| == |input|
        invariant edges[i..] == input[i..]
        invariant nodes == old(nodes)
        invariant EdgePass(input, rules, fullMatch) == PrependEdges(edges[..i], EdgePass(input[i..], rules, fullMatch))
      {
        var edge := edges[i];
        assert edge == input[i..][0];
        assert input[i..][1..] == input[i + 1..];
        var text :- ComputeLabel(edge.attrs, rules, fullMatch);
        edge := Edge(edge.source, edge.target, WithLabel(edge.attrs, text));
        ghost var before := edges[..i];
        edges := edges[i := edge];
        assert edges[..i + 1] == before + [edge];
        assert edges[i + 1..] == input[i + 1..];
        assert EdgePass(input[i..], rules, fullMatch) == PrependEdges([edge], EdgePass(input[i + 1..], rules, fullMatch));
        PrependEdgesAppend(before, [edge], EdgePass(input[i + 1..], rules, fullMatch));
        i := i + 1;
      }
      assert edges[..i] == edges;
      r := Ok(());
    }
  }

  /** The `legend` subgraph of line 107 with the table's entries as nodes. */
  datatype Cluster = Cluster(name: string, caption: string, rankDir: string, style: string, members: LegendTable)

  function LegendCluster(table: LegendTable): Cluster {
    Cluster("legend", "legend", "LR", "filled", table)
  }

  /** What `draw` is given: the labelled graph and, when built, the legend
      cluster that `nx.union` places beside it. */
  datatype Drawing = Drawing(nodes: seq<Node>, edges: seq<Edge>, legend: Option<Cluster>)

  /** The caller's node list after the call: line 42 extends it in place
      unless `"+dot"` made line 39 rebind the name to a fresh list. */
  function CallerNodeRulesAfter(items: seq<Rule>): (r: seq<Rule>)
    ensures items <= r
    ensures r == items <==> Exact(DotMarker) in items
    ensures r != items ==> r[|items|..] == [Exact(LegendKey)]
  {
    if Exact(DotMarker) in items then items else items + [Exact(LegendKey)]
  }

  /** The edge rules the edge loop reads. When the caller passed one list
      object for both parameters and it has no `"+dot"`, line 42 has
      appended `"legend"` to it before the edge loop runs. */
  function EdgeRulesUsed(edgeItems: seq<Rule>, shared: bool): (r: seq<Rule>)
    ensures Exact(DotMarker) !in r
    ensures forall x :: x in r <==>
      || (x in edgeItems && x != Exact(DotMarker))
      || (shared && Exact(DotMarker) !in edgeItems && x == Exact(LegendKey))
  {
    if Exact(DotMarker) in edgeItems then EdgeRulesInEffect(edgeItems)
    else if shared then edgeItems + [Exact(LegendKey)]
    else edgeItems
  }

  /** Some node of the graph is named like a legend value, which makes
      `nx.union` refuse the two graphs. */
  predicate Collides(nodes: seq<Node>, table: LegendTable) {
    exists i :: 0 <= i < |nodes| && nodes[i].id in table
  }

  /** The outcome of `nxrender` up to the call into Graphviz, given the rule
      lists the loops read. */
  function RenderSpec(nodes: seq<Node>, edges: seq<Edge>, nodeRules: seq<Rule>, edgeRules: seq<Rule>,
                      legend: bool, fullMatch: Matcher): (r: Result<Drawing>)
    ensures r.Err? ==> r.error == RuleTypeError || r.error == LegendConflict || r.error == NodeSetsNotDisjoint
    ensures r.Ok? ==> |r.value.nodes| == |nodes| && |r.value.edges| == |edges|
    ensures r.Ok? && r.value.legend.Some? ==> legend && |r.value.legend.value.members| > 0
  {
    var pass :- NodePass(nodes, nodeRules, fullMatch, map[]);
    var labelled :- EdgePass(edges, edgeRules, fullMatch);
    var table := pass.1;
    if legend && |table| > 0 then
      if Collides(nodes, table) then Err(NodeSetsNotDisjoint)
      else Ok(Drawing(pass.0, labelled, Some(LegendCluster(table))))
    else Ok(Drawing(pass.0, labelled, None))
  }

  /** Lines 36-42: the rule lists the two loops read. A list holding
      `"+dot"` is replaced by a fresh one; otherwise the caller's own node
      list object receives `"legend"`, and so does the edge list when it is
      that same object. */
  method PrepareRules(nodeRules: RuleList, edgeRules: RuleList) returns (nodeItems: seq<Rule>, edgeItems: seq<Rule>)
    modifies nodeRules
    ensures nodeRules.items == CallerNodeRulesAfter(old(nodeRules.items))
    ensures edgeRules != nodeRules ==> edgeRules.items == old(edgeRules.items)
    ensures nodeItems == NodeRulesInEffect(old(nodeRules.items))
    ensures edgeItems == EdgeRulesUsed(old(edgeRules.items), nodeRules == edgeRules)
  {
    var nodeList, edgeList := nodeRules, edgeRules;
    if Exact(DotMarker) in nodeList.items {
      nodeList := new RuleList(WithoutMarker(nodeList.items) + ExactRules(DotNodeKeys));
    }
    if Exact(DotMarker) in edgeList.items {
      edgeList := new RuleList(WithoutMarker(edgeList.items) + ExactRules(DotEdgeKeys));
    }
    nodeList.items := nodeList.items + [Exact(LegendKey)];
    nodeItems, edgeItems := nodeList.items, edgeList.items;
  }

  /** `nxrender(graph, nodeautolabel, edgeautolabel, legend)` up to `draw`.
      The caller's graph is only read; the caller's node list may grow. */
  method Render(graph: Graph, nodeRules: RuleList, edgeRules: RuleList, legend: bool, fullMatch: Matcher)
    returns (res: Result<Drawing>)
    modifies nodeRules
    ensures unchanged(graph)
    ensures nodeRules.items == CallerNodeRulesAfter(old(nodeRules.items))
    ensures edgeRules != nodeRules ==> edgeRules.items == old(edgeRules.items)
    ensures res == RenderSpec(graph.nodes, graph.edges, NodeRulesInEffect(old(nodeRules.items)),
                              EdgeRulesUsed(old(edgeRules.items), nodeRules == edgeRules),
                              legend, fullMatch)
  {
    var nodeItems, edgeItems := PrepareRules(nodeRules, edgeRules);
    var copy := new Graph.Copy(graph);
    var table :- copy.LabelNodes(nodeItems, fullMatch);
    ghost var pass := (copy.nodes, table);
    assert NodePass(graph.nodes, nodeItems, fullMatch, map[]) == Ok(pass);
    var edgesDone :- copy.LabelEdges(edgeItems, fullMatch);
    assert EdgePass(graph.edges, edgeItems, fullMatch) == Ok(copy.edges);
    assert copy.nodes == pass.0;
    if legend && |table| > 0 {
      NodePassLabels(graph.nodes, nodeItems, fullMatch, map[]);
      assert forall i :: 0 <= i < |copy.nodes| ==> copy.nodes[i].id == graph.nodes[i].id;
      if exists i :: 0 <= i < |copy.nodes| && copy.nodes[i].id in table {
        return Err(NodeSetsNotDisjoint);
      }
      assert !Collides(graph.nodes, table);
      res := Ok(Drawing(copy.nodes, copy.edges, Some(LegendCluster(table))));
    } else {
      res := Ok(Drawing(copy.nodes, copy.edges, None));
    }
  }

  /** Rendering succeeds exactly when no rule scan raises on a node or an
      edge, nodes sharing a legend value share their style, and, when the
      cluster is built, no node is named like a legend value. The legend
      check takes part whether or not the cluster is asked for. */
  lemma RenderSucceeds(nodes: seq<Node>, edges: seq<Edge>, nodeRules: seq<Rule>, edgeRules: seq<Rule>,
                       legend: bool, fullMatch: Matcher)
    ensures RenderSpec(nodes, edges, nodeRules, edgeRules, legend, fullMatch).Ok? <==>
      && AllLabelled(nodes, nodeRules, fullMatch)
      && Consistent(nodes)
      && (forall i :: 0 <= i < |edges| ==> !LabelFails(edges[i].attrs, edgeRules, fullMatch))
      && (legend ==> forall i :: 0 <= i < |nodes| ==> nodes[i].id !in LegendValues(nodes))
  {
    NodePassSucceeds(nodes, nodeRules, fullMatch, map[]);
    EdgePassSpec(edges, edgeRules, fullMatch);
    if NodePass(nodes, nodeRules, fullMatch, map[]).Ok? {
      var table := NodePass(nodes, nodeRules, fullMatch, map[]).value.1;
      CollidesByLegendValue(nodes, nodeRules, fullMatch);
      if |table| == 0 {
        assert table == map[];
      }
    }
  }

  /** After a successful node pass, a node collides with the legend table
      exactly when its id is the legend value of some node. */
  lemma CollidesByLegendValue(nodes: seq<Node>, rules: seq<Rule>, fullMatch: Matcher)
    requires NodePass(nodes, rules, fullMatch, map[]).Ok?
    ensures Collides(nodes, NodePass(nodes, rules, fullMatch, map[]).value.1) <==>
      exists i :: 0 <= i < |nodes| && nodes[i].id in LegendValues(nodes)
  {
    NodePassTable(nodes, rules, fullMatch, map[]);
  }

  /** Two nodes with one legend value and different styles make rendering
      fail with a legend conflict, also when no legend is drawn, provided
      no rule scan raises on node j or on a node before it. */
  lemma LegendConflictFails(nodes: seq<Node>, edges: seq<Edge>, nodeRules: seq<Rule>, edgeRules: seq<Rule>,
                            legend: bool, fullMatch: Matcher, i: nat, j: nat)
    requires i < j < |nodes| && AllLabelled(nodes[..j + 1], nodeRules, fullMatch)
    requires HasLegend(nodes[i]) && HasLegend(nodes[j])
    requires LegendOf(nodes[i]) == LegendOf(nodes[j]) && DotStyle(nodes[i].attrs) != DotStyle(nodes[j].attrs)
    ensures RenderSpec(nodes, edges, nodeRules, edgeRules, legend, fullMatch) == Err(LegendConflict)
  {
    NodePassConflict(nodes, nodeRules, fullMatch, i, j);
  }

  /** When rendering succeeds, node i and edge i of the drawing are node i
      and edge i of the caller's graph with their `label` written. */
  lemma RenderLabels(nodes: seq<Node>, edges: seq<Edge>, nodeRules: seq<Rule>, edgeRules: seq<Rule>,
                     legend: bool, fullMatch: Matcher)
    requires RenderSpec(nodes, edges, nodeRules, edgeRules, legend, fullMatch).Ok?
    ensures var d := RenderSpec(nodes, edges, nodeRules, edgeRules, legend, fullMatch).value;
      && |d.nodes| == |nodes| && |d.edges| == |edges|
      && (forall i :: 0 <= i < |nodes| ==>
            LabelOf(nodes[i].attrs, nodeRules, fullMatch).Ok? &&
            d.nodes[i] == Node(nodes[i].id, WithLabel(nodes[i].attrs, LabelOf(nodes[i].attrs, nodeRules, fullMatch).value)))
      && (forall i :: 0 <= i < |edges| ==>
            LabelOf(edges[i].attrs, edgeRules, fullMatch).Ok? &&
            d.edges[i] == Edge(edges[i].source, edges[i].target,
                               WithLabel(edges[i].attrs, LabelOf(edges[i].attrs, edgeRules, fullMatch).value)))
  {
    NodePassLabels(nodes, nodeRules, fullMatch, map[]);
    EdgePassSpec(edges, edgeRules, fullMatch);
  }

  /** The legend cluster is drawn exactly when asked for and some node has a
      legend value; it then has one member per legend value, carrying the
      style of every node with that value, and no node shares its name. */
  lemma RenderCluster(nodes: seq<Node>, edges: seq<Edge>, nodeRules: seq<Rule>, edgeRules: seq<Rule>,
                      legend: bool, fullMatch: Matcher)
    requires RenderSpec(nodes, edges, nodeRules, edgeRules, legend, fullMatch).Ok?
    ensures var d := RenderSpec(nodes, edges, nodeRules, edgeRules, legend, fullMatch).value;
      && (d.legend.Some? <==> legend && LegendValues(nodes) != {})
      && (d.legend.Some? ==>
            && d.legend.value.name == "legend"
            && d.legend.value.members.Keys == LegendValues(nodes)
            && (forall i :: 0 <= i < |nodes| ==> NodeAgrees(d.legend.value.members, nodes[i]))
            && (forall i :: 0 <= i < |nodes| ==> nodes[i].id !in d.legend.value.members))
  {
    NodePassTable(nodes, nodeRules, fullMatch, map[]);
    var pass := NodePass(nodes, nodeRules, fullMatch, map[]).value;
    var table := pass.1;
    var labelled := EdgePass(edges, edgeRules, fullMatch).value;
    var d := RenderSpec(nodes, edges, nodeRules, edgeRules, legend, fullMatch).value;
    assert table.Keys == LegendValues(nodes);
    assert |table| > 0 <==> LegendValues(nodes) != {} by {
      if |table| == 0 {
        assert table == map[];
      } else {
        var k :| k in table;
      }
    }
    if legend && |table| > 0 {
      assert !Collides(nodes, table);
      assert d.legend == Some(LegendCluster(table));
    } else {
      assert d.legend == None;
    }
  }

  /** A graph without nodes or edges renders without error and without a
      legend cluster, whatever the rules and the legend flag. */
  lemma EmptyGraphRenders(nodeRules: seq<Rule>, edgeRules: seq<Rule>, legend: bool, fullMatch: Matcher)
    ensures RenderSpec([], [], nodeRules, edgeRules, legend, fullMatch) == Ok(Drawing([], [], None))
  {
  }

  /** One list object without `"+dot"` passed for both parameters: the edge
      loop reads the very list the node loop reads, `"legend"` included. */
  lemma SharedRuleList(items: seq<Rule>)
    requires Exact(DotMarker) !in items
    ensures EdgeRulesUsed(items, true) == NodeRulesInEffect(items)
  {
  }

  /** Rule lists with the same verdicts render every graph the same way. */
  lemma RenderSameVerdicts(nodes: seq<Node>, edges: seq<Edge>, n1: seq<Rule>, n2: seq<Rule>,
                           e1: seq<Rule>, e2: seq<Rule>, legend: bool, fullMatch: Matcher)
    requires SameVerdicts(n1, n2, fullMatch) && SameVerdicts(e1, e2, fullMatch)
    ensures RenderSpec(nodes, edges, n1, e1, legend, fullMatch) == RenderSpec(nodes, edges, n2, e2, legend, fullMatch)
  {
    NodePassSameVerdicts(nodes, n1, n2, fullMatch, map[]);
    EdgePassSameVerdicts(edges, e1, e2, fullMatch);
  }

  /** A second call with the lists the first call left behind renders the
      graph the same way. A node list that grew by `"legend"` gives rules
      ending in `"legend"` twice, and the repeated exact rule changes no
      verdict; a list shared by both parameters grows once and is read by
      both loops. */
  lemma RenderAgain(nodes: seq<Node>, edges: seq<Edge>, nodeItems: seq<Rule>, edgeItems: seq<Rule>,
                    shared: bool, legend: bool, fullMatch: Matcher)
    requires shared ==> edgeItems == nodeItems
    ensures var nodeItems' := CallerNodeRulesAfter(nodeItems);
      var edgeItems' := if shared then nodeItems' else edgeItems;
      RenderSpec(nodes, edges, NodeRulesInEffect(nodeItems'), EdgeRulesUsed(edgeItems', shared), legend, fullMatch)
      == RenderSpec(nodes, edges, NodeRulesInEffect(nodeItems), EdgeRulesUsed(edgeItems, shared), legend, fullMatch)
  {
    if Exact(DotMarker) !in nodeItems {
      var grown := nodeItems + [Exact(LegendKey)];
      var e := EdgeRulesUsed(edgeItems, shared);
      var e' := EdgeRulesUsed(if shared then grown else edgeItems, shared);
      assert Exact(DotMarker) !in grown;
      assert NodeRulesInEffect(grown) == grown + [Exact(LegendKey)];
      AppendKnownRule(grown, Exact(LegendKey), fullMatch);
      if shared {
        assert e == grown && e' == grown + [Exact(LegendKey)];
        RenderSameVerdicts(nodes, edges, grown, grown + [Exact(LegendKey)], e, e', legend, fullMatch);
      } else {
        RenderSameVerdicts(nodes, edges, grown, grown + [Exact(LegendKey)], e, e, legend, fullMatch);
      }
    }
  }

  /** The caller's node list after k calls. */
  function AfterCalls(items: seq<Rule>, k: nat): seq<Rule> {
    if k == 0 then items else CallerNodeRulesAfter(AfterCalls(items, k - 1))
  }

  /** A caller's list without `"+dot"` (the same list object passed to every
      call) gains one `"legend"` per call. */
  lemma {:induction false} AfterCallsGrow(items: seq<Rule>, k: nat)
    requires Exact(DotMarker) !in items
    ensures AfterCalls(items, k) == items + seq(k, _ => Exact(LegendKey))
  {
    if k > 0 {
      AfterCallsGrow(items, k - 1);
      var legends := seq(k - 1, _ => Exact(LegendKey));
      assert Exact(DotMarker) !in items + legends;
      assert seq(k, _ => Exact(LegendKey)) == legends + [Exact(LegendKey)];
    }
  }

  /** Default-like lists hold `"+dot"`, so no call ever extends them. */
  lemma DefaultListsUntouched(items: seq<Rule>)
    requires DefaultLike(items)
    ensures CallerNodeRulesAfter(items) == items
  {
  }

  /** A database node of the legend class "store", drawn with `shape`. */
  function StoreNode(id: string, shape: string): Node {
    Node(id, [("type", "db"), ("shape", shape), (LegendKey, "store")])
  }

  /** A store node carries the legend value "store", the style `{shape: shape}`
      and no label yet. */
  lemma StoreNodeData(id: string, shape: string)
    ensures HasLegend(StoreNode(id, shape)) && LegendOf(StoreNode(id, shape)) == "store"
    ensures DotStyle(StoreNode(id, shape).attrs) == map["shape" := shape]
    ensures !HasKey(StoreNode(id, shape).attrs, LabelKey)
  {
    var a := StoreNode(id, shape).attrs;
    assert a[2].0 == LegendKey && a[1].0 == "shape";
    assert IndexOf(a, LegendKey) == 2;
    assert IndexOf(a, "shape") == 1;
    forall k | k in DotNodeKeys && k != "shape" ensures !HasKey(a, k) {
    }
  }

  /** Node rules that show `type` and hide `shape` and `legend` without
      raising, as the defaults do. */
  predicate StoreRules(rules: seq<Rule>, fullMatch: Matcher) {
    && !ScanFails(rules, "type", fullMatch) && Included(rules, "type", fullMatch)
    && !ScanFails(rules, "shape", fullMatch) && !Included(rules, "shape", fullMatch)
    && !ScanFails(rules, LegendKey, fullMatch) && !Included(rules, LegendKey, fullMatch)
  }

  /** Under such rules a store node is labelled `type=db`. */
  lemma StoreNodeLabel(id: string, shape: string, rules: seq<Rule>, fullMatch: Matcher)
    requires StoreRules(rules, fullMatch)
    ensures LabelOf(StoreNode(id, shape).attrs, rules, fullMatch) == Ok("type=db")
  {
    var a := StoreNode(id, shape).attrs;
    assert a[..2][..1] == [("type", "db")] && a[..2] == [("type", "db"), ("shape", shape)];
    assert [("type", "db")][..0] == [];
    assert Lines(a, rules, fullMatch) == Lines(a[..2], rules, fullMatch);
    assert Lines(a[..2], rules, fullMatch) == Lines(a[..2][..1], rules, fullMatch);
    assert Lines([("type", "db")], rules, fullMatch) == [Entry(("type", "db"))];
    assert Entry(("type", "db")) == "type=db";
    assert !LabelFails(a, rules, fullMatch) by {
      assert a[0].0 == "type" && a[1].0 == "shape" && a[2].0 == LegendKey;
    }
  }

  /** A store node with `label` written after its other attributes. */
  function LabelledStoreNode(id: string, shape: string): Node {
    Node(id, StoreNode(id, shape).attrs + [(LabelKey, "type=db")])
  }

  /** Under such rules two box-shaped store nodes are labelled `type=db`
      and recorded as one legend entry `store: {shape: box}`. */
  lemma StoreNodePass(rules: seq<Rule>, fullMatch: Matcher)
    requires StoreRules(rules, fullMatch)
    ensures NodePass([StoreNode("A", "box"), StoreNode("B", "box")], rules, fullMatch, map[])
         == Ok(([LabelledStoreNode("A", "box"), LabelledStoreNode("B", "box")], map["store" := map["shape" := "box"]]))
  {
    var style: Style := map["shape" := "box"];
    var a, b := StoreNode("A", "box"), StoreNode("B", "box");
    var a', b' := LabelledStoreNode("A", "box"), LabelledStoreNode("B", "box");
    StoreNodeData("A", "box");
    StoreNodeData("B", "box");
    StoreNodeLabel("A", "box", rules, fullMatch);
    StoreNodeLabel("B", "box", rules, fullMatch);
    assert WithLabel(a.attrs, "type=db") == a'.attrs && WithLabel(b.attrs, "type=db") == b'.attrs;
    LabelKeepsLegendStep(map[], a.attrs, "type=db");
    LabelKeepsLegendStep(map["store" := style], b.attrs, "type=db");
    assert LegendStep(map[], a'.attrs) == Ok(map["store" := style]);
    assert LegendStep(map["store" := style], b'.attrs) == Ok(map["store" := style]);
    NodePassCons(a, [b], rules, fullMatch, map[], "type=db", map["store" := style]);
    assert [b] == [b] + [];
    NodePassCons(b, [], rules, fullMatch, map["store" := style], "type=db", map["store" := style]);
    PrependNodesAppend([a'], [b'], NodePass([], rules, fullMatch, map["store" := style]));
    assert [a, b] == [a] + [b] && [a'] + [b'] + [] == [a', b'];
  }

  /** Under edge rules that show `weight` without raising, the edge of
      weight 3 is labelled `weight=3`. */
  lemma WeightEdgePass(rules: seq<Rule>, fullMatch: Matcher)
    requires !ScanFails(rules, "weight", fullMatch) && Included(rules, "weight", fullMatch)
    ensures EdgePass([Edge("A", "B", [("weight", "3")])], rules, fullMatch)
         == Ok([Edge("A", "B", [("weight", "3"), (LabelKey, "weight=3")])])
  {
    var e := Edge("A", "B", [("weight", "3")]);
    LabelOfOne(("weight", "3"), rules, fullMatch);
    assert Entry(("weight", "3")) == "weight=3";
    assert !HasKey(e.attrs, LabelKey) by { assert e.attrs[0].0 == "weight"; }
    assert WithLabel(e.attrs, "weight=3") == [("weight", "3"), (LabelKey, "weight=3")];
    assert [e] == [e] + [];
    EdgePassCons(e, [], rules, fullMatch, "weight=3");
    assert [Edge("A", "B", [("weight", "3"), (LabelKey, "weight=3")])] + []
        == [Edge("A", "B", [("weight", "3"), (LabelKey, "weight=3")])];
  }

  /** The store scenario under any rules that label it as the defaults do:
      two store nodes with one style and an edge of weight 3 render with
      labels `type=db` and `weight=3` and a one-member legend cluster. */
  lemma StoreScenarioUnder(nodeRules: seq<Rule>, edgeRules: seq<Rule>, fullMatch: Matcher)
    requires StoreRules(nodeRules, fullMatch)
    requires !ScanFails(edgeRules, "weight", fullMatch) && Included(edgeRules, "weight", fullMatch)
    ensures RenderSpec([StoreNode("A", "box"), StoreNode("B", "box")], [Edge("A", "B", [("weight", "3")])],
                       nodeRules, edgeRules, true, fullMatch)
      == Ok(Drawing([LabelledStoreNode("A", "box"), LabelledStoreNode("B", "box")],
                    [Edge("A", "B", [("weight", "3"), (LabelKey, "weight=3")])],
                    Some(LegendCluster(map["store" := map["shape" := "box"]]))))
  {
    var nodes := [StoreNode("A", "box"), StoreNode("B", "box")];
    var table: LegendTable := map["store" := map["shape" := "box"]];
    StoreNodePass(nodeRules, fullMatch);
    WeightEdgePass(edgeRules, fullMatch);
    assert !Collides(nodes, table);
    assert |table| == 1;
  }

  /** The store scenario with default-like rule lists. */
  lemma StoreScenario(nodeItems: seq<Rule>, edgeItems: seq<Rule>, fullMatch: Matcher)
    requires DefaultLike(nodeItems) && DefaultLike(edgeItems)
    ensures RenderSpec([StoreNode("A", "box"), StoreNode("B", "box")], [Edge("A", "B", [("weight", "3")])],
                       NodeRulesInEffect(nodeItems), EdgeRulesInEffect(edgeItems), true, fullMatch)
      == Ok(Drawing([LabelledStoreNode("A", "box"), LabelledStoreNode("B", "box")],
                    [Edge("A", "B", [("weight", "3"), (LabelKey, "weight=3")])],
                    Some(LegendCluster(map["store" := map["shape" := "box"]]))))
  {
    DefaultStoreRules(nodeItems, fullMatch);
    DefaultEdgeRules(edgeItems, "weight", fullMatch);
    StoreScenarioUnder(NodeRulesInEffect(nodeItems), EdgeRulesInEffect(edgeItems), fullMatch);
  }

  /** Default-like node rules label the store scenario. */
  lemma DefaultStoreRules(items: seq<Rule>, fullMatch: Matcher)
    requires DefaultLike(items)
    ensures StoreRules(NodeRulesInEffect(items), fullMatch)
  {
    DefaultNodeRules(items, "type", fullMatch);
    DefaultNodeRules(items, "shape", fullMatch);
    DefaultNodeRules(items, LegendKey, fullMatch);
  }

  /** The same scenario with B drawn as a circle fails with a legend
      conflict, with or without the legend cluster. */
  lemma StoreConflictScenario(nodeItems: seq<Rule>, edgeItems: seq<Rule>, legend: bool, fullMatch: Matcher)
    requires DefaultLike(nodeItems)
    ensures RenderSpec([StoreNode("A", "box"), StoreNode("B", "circle")], [Edge("A", "B", [("weight", "3")])],
                       NodeRulesInEffect(nodeItems), EdgeRulesInEffect(edgeItems), legend, fullMatch)
      == Err(LegendConflict)
  {
    var rules := NodeRulesInEffect(nodeItems);
    var nodes := [StoreNode("A", "box"), StoreNode("B", "circle")];
    DefaultStoreRules(nodeItems, fullMatch);
    StoreNodeLabel("A", "box", rules, fullMatch);
    StoreNodeLabel("B", "circle", rules, fullMatch);
    StoreNodeData("A", "box");
    StoreNodeData("B", "circle");
    assert map["shape" := "box"]["shape"] != map["shape" := "circle"]["shape"];
    LegendConflictFails(nodes, [Edge("A", "B", [("weight", "3")])], rules, EdgeRulesInEffect(edgeItems),
                        legend, fullMatch, 0, 1);
  }
}
