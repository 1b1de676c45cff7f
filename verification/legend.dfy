/** The node and edge passes of `nxrender`: every node gets its label and,
    when it carries a `legend` attribute, contributes to the legend table;
    every edge gets its label. */
module Legend {
  import opened Outcome
  import opened Attributes
  import opened Labels

  datatype Node = Node(id: string, attrs: Attrs)
  datatype Edge = Edge(source: string, target: string, attrs: Attrs)

  /** A node's attributes restricted to the Graphviz node keys. */
  type Style = map<string, string>
  /** `legend_data`: legend value -> recorded style. */
  type LegendTable = map<string, Style>

  /** `{k: v for k, v in attrs.items() if k in dotnodelabels}` (line 71);
      it ignores the rule lists. */
  function DotStyle(attrs: Attrs): Style {
    Restrict(attrs, DotNodeKeys)
  }

  predicate HasLegend(n: Node) {
    HasKey(n.attrs, LegendKey)
  }

  function LegendOf(n: Node): string
    requires HasLegend(n)
  {
    Get(n.attrs, LegendKey)
  }

  /** `attrs["label"] = text` (lines 68 and 100). */
  function WithLabel(attrs: Attrs, text: string): Attrs {
    Put(attrs, LabelKey, text)
  }

  /** Writing the label leaves the legend value and the style alone. */
  lemma LabelKeepsLegendData(attrs: Attrs, text: string)
    ensures HasKey(WithLabel(attrs, text), LegendKey) <==> HasKey(attrs, LegendKey)
    ensures HasKey(attrs, LegendKey) ==> Get(WithLabel(attrs, text), LegendKey) == Get(attrs, LegendKey)
    ensures DotStyle(WithLabel(attrs, text)) == DotStyle(attrs)
  {
    PutOther(attrs, LabelKey, text, LegendKey);
    PutOutsideRestrict(attrs, DotNodeKeys, LabelKey, text);
  }

  /** The legend bookkeeping for one node (lines 69-75): the first node
      with a legend value records its style, a later one must agree. */
  function LegendStep(table: LegendTable, attrs: Attrs): (r: Result<LegendTable>)
    ensures r.Err? ==> r.error == LegendConflict && HasKey(attrs, LegendKey)
    ensures r.Ok? ==> table.Keys <= r.value.Keys
  {
    if !HasKey(attrs, LegendKey) then Ok(table)
    else
      var key := Get(attrs, LegendKey);
      var data := DotStyle(attrs);
      if key !in table then Ok(table[key := data])
      else if table[key] != data then Err(LegendConflict)
      else Ok(table)
  }

  /** The node loop (lines 45-75) run from a table already holding `table`:
      the labelled nodes and the final table, or the first error raised. */
  function NodePass(nodes: seq<Node>, rules: seq<Rule>, fullMatch: Matcher, table: LegendTable)
    : (r: Result<(seq<Node>, LegendTable)>)
    ensures r.Err? ==> r.error == RuleTypeError || r.error == LegendConflict
    ensures r.Ok? ==> |r.value.0| == |nodes|
    decreases |nodes|
  {
    if nodes == [] then Ok(([], table))
    else
      var text :- LabelOf(nodes[0].attrs, rules, fullMatch);
      var node := Node(nodes[0].id, WithLabel(nodes[0].attrs, text));
      var table' :- LegendStep(table, node.attrs);
      var rest :- NodePass(nodes[1..], rules, fullMatch, table');
      Ok(([node] + rest.0, rest.1))
  }

  /** Puts already processed nodes in front of the outcome of the rest. */
  function PrependNodes(done: seq<Node>, r: Result<(seq<Node>, LegendTable)>): Result<(seq<Node>, LegendTable)> {
    match r
    case Ok(p) => Ok((done + p.0, p.1))
    case Err(e) => Err(e)
  }

  lemma PrependNodesEmpty(r: Result<(seq<Node>, LegendTable)>)
    ensures PrependNodes([], r) == r
  {
    if r.Ok? {
      assert [] + r.value.0 == r.value.0;
    }
  }

  lemma PrependNodesAppend(a: seq<Node>, b: seq<Node>, r: Result<(seq<Node>, LegendTable)>)
    ensures PrependNodes(a, PrependNodes(b, r)) == PrependNodes(a + b, r)
  {
    if r.Ok? {
      assert a + (b + r.value.0) == (a + b) + r.value.0;
    }
  }

  /** One node step: a node that labels and registers cleanly is put in
      front of the outcome for the rest. */
  lemma NodePassCons(n: Node, rest: seq<Node>, rules: seq<Rule>, fullMatch: Matcher,
                     table: LegendTable, text: string, table': LegendTable)
    requires LabelOf(n.attrs, rules, fullMatch) == Ok(text)
    requires LegendStep(table, WithLabel(n.attrs, text)) == Ok(table')
    ensures NodePass([n] + rest, rules, fullMatch, table)
         == PrependNodes([Node(n.id, WithLabel(n.attrs, text))], NodePass(rest, rules, fullMatch, table'))
  {
    assert ([n] + rest)[0] == n && ([n] + rest)[1..] == rest;
  }

  /** The edge loop (lines 77-100): the labelled edges, or the error raised. */
  function EdgePass(edges: seq<Edge>, rules: seq<Rule>, fullMatch: Matcher): (r: Result<seq<Edge>>)
    ensures r.Err? ==> r.error == RuleTypeError
    ensures r.Ok? ==> |r.value| == |edges|
    decreases |edges|
  {
    if edges == [] then Ok([])
    else
      var text :- LabelOf(edges[0].attrs, rules, fullMatch);
      var edge := Edge(edges[0].source, edges[0].target, WithLabel(edges[0].attrs, text));
      var rest :- EdgePass(edges[1..], rules, fullMatch);
      Ok([edge] + rest)
  }

  /** Puts already processed edges in front of the outcome of the rest. */
  function PrependEdges(done: seq<Edge>, r: Result<seq<Edge>>): Result<seq<Edge>> {
    match r
    case Ok(es) => Ok(done + es)
    case Err(e) => Err(e)
  }

  /** One edge step: an edge that labels cleanly is put in front of the
      outcome for the rest. */
  lemma EdgePassCons(e: Edge, rest: seq<Edge>, rules: seq<Rule>, fullMatch: Matcher, text: string)
    requires LabelOf(e.attrs, rules, fullMatch) == Ok(text)
    ensures EdgePass([e] + rest, rules, fullMatch)
         == PrependEdges([Edge(e.source, e.target, WithLabel(e.attrs, text))], EdgePass(rest, rules, fullMatch))
  {
    assert ([e] + rest)[0] == e && ([e] + rest)[1..] == rest;
  }

  lemma PrependEdgesEmpty(r: Result<seq<Edge>>)
    ensures PrependEdges([], r) == r
  {
    if r.Ok? {
      assert [] + r.value == r.value;
    }
  }

  lemma PrependEdgesAppend(a: seq<Edge>, b: seq<Edge>, r: Result<seq<Edge>>)
    ensures PrependEdges(a, PrependEdges(b, r)) == PrependEdges(a + b, r)
  {
    if r.Ok? {
      assert a + (b + r.value) == (a + b) + r.value;
    }
  }

  /** The recorded entry for the node's legend value, if any, is its style. */
  ghost predicate NodeAgrees(table: LegendTable, n: Node) {
    HasLegend(n) && LegendOf(n) in table ==> table[LegendOf(n)] == DotStyle(n.attrs)
  }

  /** Every recorded entry agrees with the style of each node carrying its value. */
  ghost predicate AgreesWith(table: LegendTable, nodes: seq<Node>) {
    forall i :: 0 <= i < |nodes| ==> NodeAgrees(table, nodes[i])
  }

  /** Two nodes with the same legend value have the same style. */
  ghost predicate SameClass(m: Node, n: Node) {
    (HasLegend(m) && HasLegend(n) && LegendOf(m) == LegendOf(n)) ==> DotStyle(m.attrs) == DotStyle(n.attrs)
  }

  /** Nodes that share a legend value share their style. */
  ghost predicate Consistent(nodes: seq<Node>) {
    forall i, j :: 0 <= i < j < |nodes| ==> SameClass(nodes[i], nodes[j])
  }

  /** No attribute of any node makes the rule scan raise. */
  ghost predicate AllLabelled(nodes: seq<Node>, rules: seq<Rule>, fullMatch: Matcher) {
    forall i :: 0 <= i < |nodes| ==> !LabelFails(nodes[i].attrs, rules, fullMatch)
  }

  /** The legend values that occur among the nodes. */
  ghost function LegendValues(nodes: seq<Node>): set<string> {
    set i | 0 <= i < |nodes| && HasLegend(nodes[i]) :: LegendOf(nodes[i])
  }

  /** The legend value of one node, as a set. */
  ghost function OwnLegend(n: Node): set<string> {
    if HasLegend(n) then {LegendOf(n)} else {}
  }

  lemma LegendValuesCons(nodes: seq<Node>)
    requires nodes != []
    ensures LegendValues(nodes) == OwnLegend(nodes[0]) + LegendValues(nodes[1..])
  {
    var rest := nodes[1..];
    forall v | v in LegendValues(nodes) ensures v in OwnLegend(nodes[0]) + LegendValues(rest) {
      var i :| 0 <= i < |nodes| && HasLegend(nodes[i]) && LegendOf(nodes[i]) == v;
      if i > 0 { assert rest[i - 1] == nodes[i]; }
    }
    forall v | v in LegendValues(rest) ensures v in LegendValues(nodes) {
      var i :| 0 <= i < |rest| && HasLegend(rest[i]) && LegendOf(rest[i]) == v;
      assert nodes[i + 1] == rest[i];
    }
  }

  /** The legend bookkeeping reads the same data before and after the label
      is written, so writing the label first (as the source does) changes
      nothing. */
  lemma LabelKeepsLegendStep(table: LegendTable, attrs: Attrs, text: string)
    ensures LegendStep(table, WithLabel(attrs, text)) == LegendStep(table, attrs)
  {
    LabelKeepsLegendData(attrs, text);
  }

  /** One step of the legend bookkeeping succeeds exactly when the table
      agrees with the node, and then extends the table by its value. */
  lemma LegendStepSpec(table: LegendTable, n: Node)
    ensures LegendStep(table, n.attrs).Ok? <==> NodeAgrees(table, n)
    ensures LegendStep(table, n.attrs).Ok? ==>
      var t := LegendStep(table, n.attrs).value;
      && t.Keys == table.Keys + OwnLegend(n)
      && (forall k :: k in table ==> t[k] == table[k])
      && (HasLegend(n) ==> t[LegendOf(n)] == DotStyle(n.attrs))
  {
  }

  /** Recording the first node keeps agreement with the later nodes exactly
      when the old table agreed with all of them and the first node's style
      matches every later node of its class. */
  lemma AgreementStep(table: LegendTable, nodes: seq<Node>)
    requires nodes != [] && NodeAgrees(table, nodes[0])
    ensures LegendStep(table, nodes[0].attrs).Ok?
    ensures var t' := LegendStep(table, nodes[0].attrs).value;
      AgreesWith(t', nodes[1..]) && Consistent(nodes[1..]) <==> AgreesWith(table, nodes) && Consistent(nodes)
  {
    var n0, rest := nodes[0], nodes[1..];
    LegendStepSpec(table, n0);
    var t' := LegendStep(table, n0.attrs).value;
    assert forall i :: 0 <= i < |rest| ==> rest[i] == nodes[i + 1];
    if AgreesWith(t', rest) && Consistent(rest) {
      forall i | 0 <= i < |nodes| ensures NodeAgrees(table, nodes[i]) {
        if i > 0 { assert NodeAgrees(t', rest[i - 1]); }
      }
      forall i, j | 0 <= i < j < |nodes| ensures SameClass(nodes[i], nodes[j]) {
        if i == 0 { assert NodeAgrees(t', rest[j - 1]); }
        else { assert SameClass(rest[i - 1], rest[j - 1]); }
      }
    }
    if AgreesWith(table, nodes) && Consistent(nodes) {
      forall i | 0 <= i < |rest| ensures NodeAgrees(t', rest[i]) {
        assert NodeAgrees(table, nodes[i + 1]);
        assert SameClass(nodes[0], nodes[i + 1]);
      }
      forall i, j | 0 <= i < j < |rest| ensures SameClass(rest[i], rest[j]) {
        assert SameClass(nodes[i + 1], nodes[j + 1]);
      }
    }
  }

  /** The node pass succeeds exactly when no rule scan raises, every entry
      already recorded agrees with the nodes, and nodes sharing a legend
      value share their style. */
  lemma {:induction false} NodePassSucceeds(nodes: seq<Node>, rules: seq<Rule>, fullMatch: Matcher, table: LegendTable)
    ensures NodePass(nodes, rules, fullMatch, table).Ok? <==>
      AllLabelled(nodes, rules, fullMatch) && AgreesWith(table, nodes) && Consistent(nodes)
    decreases |nodes|
  {
    if nodes != [] {
      var n0, rest := nodes[0], nodes[1..];
      assert forall i :: 0 <= i < |rest| ==> rest[i] == nodes[i + 1];
      if LabelOf(n0.attrs, rules, fullMatch).Ok? {
        var text := LabelOf(n0.attrs, rules, fullMatch).value;
        LabelKeepsLegendStep(table, n0.attrs, text);
        LegendStepSpec(table, n0);
        if LegendStep(table, n0.attrs).Ok? {
          var t' := LegendStep(table, n0.attrs).value;
          NodePassSucceeds(rest, rules, fullMatch, t');
          AgreementStep(table, nodes);
          assert AllLabelled(nodes, rules, fullMatch) <==> AllLabelled(rest, rules, fullMatch) by {
            if AllLabelled(rest, rules, fullMatch) {
              forall i | 0 <= i < |nodes| ensures !LabelFails(nodes[i].attrs, rules, fullMatch) {
                if i > 0 { assert nodes[i] == rest[i - 1]; }
              }
            }
          }
        } else {
          assert !NodeAgrees(table, nodes[0]);
        }
      } else {
        assert LabelFails(nodes[0].attrs, rules, fullMatch);
      }
    }
  }

  /** When the node pass succeeds, the table holds exactly the legend values
      of the nodes besides what it held, and each value is mapped to the
      style of every node carrying it, the first one included. */
  lemma {:induction false} NodePassTable(nodes: seq<Node>, rules: seq<Rule>, fullMatch: Matcher, table: LegendTable)
    requires NodePass(nodes, rules, fullMatch, table).Ok?
    ensures var t := NodePass(nodes, rules, fullMatch, table).value.1;
      && t.Keys == table.Keys + LegendValues(nodes)
      && (forall k :: k in table ==> t[k] == table[k])
      && (forall i :: 0 <= i < |nodes| ==> NodeAgrees(t, nodes[i]))
    decreases |nodes|
  {
    if nodes == [] {
      assert LegendValues(nodes) == {};
    } else {
      var n0, rest := nodes[0], nodes[1..];
      NodePassStep(nodes, rules, fullMatch, table);
      LegendStepSpec(table, n0);
      var t' := LegendStep(table, n0.attrs).value;
      NodePassTable(rest, rules, fullMatch, t');
      LegendValuesCons(nodes);
      var t := NodePass(nodes, rules, fullMatch, table).value.1;
      forall i | 0 <= i < |nodes| ensures NodeAgrees(t, nodes[i]) {
        if i > 0 {
          assert rest[i - 1] == nodes[i];
        }
      }
    }
  }

  /** A successful node pass over a non-empty sequence: the first node
      labels and registers cleanly, and the rest succeeds from the table
      that registration gives. */
  lemma NodePassStep(nodes: seq<Node>, rules: seq<Rule>, fullMatch: Matcher, table: LegendTable)
    requires nodes != [] && NodePass(nodes, rules, fullMatch, table).Ok?
    ensures LabelOf(nodes[0].attrs, rules, fullMatch).Ok? && LegendStep(table, nodes[0].attrs).Ok?
    ensures var text := LabelOf(nodes[0].attrs, rules, fullMatch).value;
      var rest := NodePass(nodes[1..], rules, fullMatch, LegendStep(table, nodes[0].attrs).value);
      && rest.Ok?
      && NodePass(nodes, rules, fullMatch, table).value
           == ([Node(nodes[0].id, WithLabel(nodes[0].attrs, text))] + rest.value.0, rest.value.1)
  {
    LabelKeepsLegendStep(table, nodes[0].attrs, LabelOf(nodes[0].attrs, rules, fullMatch).value);
  }

  /** When the node pass succeeds, node i of the result is node i of the
      input with its `label` attribute set to the label computed from the
      input's own attributes; ids and order are kept. */
  lemma {:induction false} NodePassLabels(nodes: seq<Node>, rules: seq<Rule>, fullMatch: Matcher, table: LegendTable)
    requires NodePass(nodes, rules, fullMatch, table).Ok?
    ensures var ns := NodePass(nodes, rules, fullMatch, table).value.0;
      && |ns| == |nodes|
      && forall i :: 0 <= i < |nodes| ==>
        LabelOf(nodes[i].attrs, rules, fullMatch).Ok? &&
        ns[i] == Node(nodes[i].id, WithLabel(nodes[i].attrs, LabelOf(nodes[i].attrs, rules, fullMatch).value))
    decreases |nodes|
  {
    if nodes != [] {
      var text := LabelOf(nodes[0].attrs, rules, fullMatch).value;
      var node := Node(nodes[0].id, WithLabel(nodes[0].attrs, text));
      var t' := LegendStep(table, node.attrs).value;
      NodePassLabels(nodes[1..], rules, fullMatch, t');
      var ns := NodePass(nodes, rules, fullMatch, table).value.0;
      assert ns == [node] + NodePass(nodes[1..], rules, fullMatch, t').value.0;
      forall i | 0 <= i < |nodes|
        ensures LabelOf(nodes[i].attrs, rules, fullMatch).Ok?
        ensures ns[i] == Node(nodes[i].id, WithLabel(nodes[i].attrs, LabelOf(nodes[i].attrs, rules, fullMatch).value))
      {
        if i > 0 {
          assert nodes[1..][i - 1] == nodes[i];
        }
      }
    }
  }

  /** The edge pass succeeds exactly when no rule scan raises, and then edge
      i of the result is edge i of the input with its label written. */
  lemma {:induction false} EdgePassSpec(edges: seq<Edge>, rules: seq<Rule>, fullMatch: Matcher)
    ensures EdgePass(edges, rules, fullMatch).Ok? <==>
      forall i :: 0 <= i < |edges| ==> !LabelFails(edges[i].attrs, rules, fullMatch)
    ensures EdgePass(edges, rules, fullMatch).Ok? ==>
      var es := EdgePass(edges, rules, fullMatch).value;
      && |es| == |edges|
      && forall i :: 0 <= i < |edges| ==>
        es[i] == Edge(edges[i].source, edges[i].target,
                      WithLabel(edges[i].attrs, LabelOf(edges[i].attrs, rules, fullMatch).value))
    decreases |edges|
  {
    if edges != [] {
      EdgePassSpec(edges[1..], rules, fullMatch);
      assert forall i :: 1 <= i < |edges| ==> edges[1..][i - 1] == edges[i];
      if EdgePass(edges, rules, fullMatch).Ok? {
        var es := EdgePass(edges, rules, fullMatch).value;
        forall i | 0 <= i < |edges|
          ensures es[i] == Edge(edges[i].source, edges[i].target,
                                WithLabel(edges[i].attrs, LabelOf(edges[i].attrs, rules, fullMatch).value))
        {
          if i > 0 {
            assert es[i] == EdgePass(edges[1..], rules, fullMatch).value[i - 1];
          }
        }
      }
    }
  }

  /** Once no rule scan can raise, the only error the node pass can report
      is a legend conflict. */
  lemma {:induction false} NodePassErrorKind(nodes: seq<Node>, rules: seq<Rule>, fullMatch: Matcher, table: LegendTable)
    requires AllLabelled(nodes, rules, fullMatch)
    requires NodePass(nodes, rules, fullMatch, table).Err?
    ensures NodePass(nodes, rules, fullMatch, table).error == LegendConflict
    decreases |nodes|
  {
    assert !LabelFails(nodes[0].attrs, rules, fullMatch);
    var text := LabelOf(nodes[0].attrs, rules, fullMatch).value;
    var node := Node(nodes[0].id, WithLabel(nodes[0].attrs, text));
    if LegendStep(table, node.attrs).Ok? {
      var rest := nodes[1..];
      assert AllLabelled(rest, rules, fullMatch) by {
        forall i | 0 <= i < |rest| ensures !LabelFails(rest[i].attrs, rules, fullMatch) {
          assert rest[i] == nodes[i + 1];
        }
      }
      NodePassErrorKind(rest, rules, fullMatch, LegendStep(table, node.attrs).value);
    }
  }

  /** An error raised within the first nodes is the error of the whole
      pass: the loop stops there and never reads the later nodes. */
  lemma {:induction false} NodePassPrefixErr(a: seq<Node>, b: seq<Node>, rules: seq<Rule>, fullMatch: Matcher,
                                            table: LegendTable)
    requires NodePass(a, rules, fullMatch, table).Err?
    ensures NodePass(a + b, rules, fullMatch, table) == NodePass(a, rules, fullMatch, table)
    decreases |a|
  {
    assert (a + b)[0] == a[0] && (a + b)[1..] == a[1..] + b;
    var text := LabelOf(a[0].attrs, rules, fullMatch);
    if text.Ok? {
      var step := LegendStep(table, WithLabel(a[0].attrs, text.value));
      if step.Ok? {
        NodePassPrefixErr(a[1..], b, rules, fullMatch, step.value);
      }
    }
  }

  /** Two nodes with one legend value and different styles make the node
      pass over labelled nodes fail with a legend conflict. */
  lemma {:induction false} NodePassConflictAll(nodes: seq<Node>, rules: seq<Rule>, fullMatch: Matcher, i: nat, j: nat)
    requires i < j < |nodes| && AllLabelled(nodes, rules, fullMatch)
    requires HasLegend(nodes[i]) && HasLegend(nodes[j])
    requires LegendOf(nodes[i]) == LegendOf(nodes[j]) && DotStyle(nodes[i].attrs) != DotStyle(nodes[j].attrs)
    ensures NodePass(nodes, rules, fullMatch, map[]) == Err(LegendConflict)
  {
    assert !SameClass(nodes[i], nodes[j]);
    NodePassSucceeds(nodes, rules, fullMatch, map[]);
    NodePassErrorKind(nodes, rules, fullMatch, map[]);
  }

  /** The same conflict fails the whole pass once no rule scan raises on the
      later node or on one before it: the pass stops there. */
  lemma {:induction false} NodePassConflict(nodes: seq<Node>, rules: seq<Rule>, fullMatch: Matcher, i: nat, j: nat)
    requires i < j < |nodes| && AllLabelled(nodes[..j + 1], rules, fullMatch)
    requires HasLegend(nodes[i]) && HasLegend(nodes[j])
    requires LegendOf(nodes[i]) == LegendOf(nodes[j]) && DotStyle(nodes[i].attrs) != DotStyle(nodes[j].attrs)
    ensures NodePass(nodes, rules, fullMatch, map[]) == Err(LegendConflict)
  {
    var prefix, rest := nodes[..j + 1], nodes[j + 1..];
    assert prefix[i] == nodes[i] && prefix[j] == nodes[j];
    assert prefix + rest == nodes;
    NodePassConflictAll(prefix, rules, fullMatch, i, j);
    NodePassPrefixErr(prefix, rest, rules, fullMatch, map[]);
  }

  /** Rule lists with the same verdicts give the same node pass. */
  lemma {:induction false} NodePassSameVerdicts(nodes: seq<Node>, r1: seq<Rule>, r2: seq<Rule>, fullMatch: Matcher,
                                               table: LegendTable)
    requires SameVerdicts(r1, r2, fullMatch)
    ensures NodePass(nodes, r1, fullMatch, table) == NodePass(nodes, r2, fullMatch, table)
    decreases |nodes|
  {
    if nodes != [] {
      LabelOfSameVerdicts(nodes[0].attrs, r1, r2, fullMatch);
      var text := LabelOf(nodes[0].attrs, r1, fullMatch);
      if text.Ok? {
        var step := LegendStep(table, WithLabel(nodes[0].attrs, text.value));
        if step.Ok? {
          NodePassSameVerdicts(nodes[1..], r1, r2, fullMatch, step.value);
        }
      }
    }
  }

  /** Rule lists with the same verdicts give the same edge pass. */
  lemma {:induction false} EdgePassSameVerdicts(edges: seq<Edge>, r1: seq<Rule>, r2: seq<Rule>, fullMatch: Matcher)
    requires SameVerdicts(r1, r2, fullMatch)
    ensures EdgePass(edges, r1, fullMatch) == EdgePass(edges, r2, fullMatch)
    decreases |edges|
  {
    if edges != [] {
      LabelOfSameVerdicts(edges[0].attrs, r1, r2, fullMatch);
      EdgePassSameVerdicts(edges[1..], r1, r2, fullMatch);
    }
  }

  /** Labelling is not idempotent: when `...` is present and no rule names
      `label`, a label already on the element shows up in the next label. */
  lemma RelabelShowsPreviousLabel(attrs: Attrs, rules: seq<Rule>, fullMatch: Matcher, previous: string)
    requires Wildcard in rules && !Matches(rules, LabelKey, fullMatch)
    ensures Entry((LabelKey, previous)) in Lines(WithLabel(attrs, previous), rules, fullMatch)
  {
    var a := WithLabel(attrs, previous);
    PutGet(attrs, LabelKey, previous);
    var k := IndexOf(a, LabelKey);
    assert a[k] == (LabelKey, previous);
    LinesMembership(a, rules, fullMatch, Entry((LabelKey, previous)));
  }

  /** The label of a one-entry dictionary whose attribute is shown. */
  lemma LabelOfOne(x: Attr, rules: seq<Rule>, fullMatch: Matcher)
    requires !ScanFails(rules, x.0, fullMatch) && Included(rules, x.0, fullMatch)
    ensures LabelOf([x], rules, fullMatch) == Ok(Entry(x))
  {
    assert [x][..0] == [] && [x][0] == x;
    assert Lines([x], rules, fullMatch) == Lines([], rules, fullMatch) + [Entry(x)];
    assert !LabelFails([x], rules, fullMatch);
  }

  /** The label of a two-entry dictionary whose attributes are both shown. */
  lemma LabelOfTwo(x: Attr, y: Attr, rules: seq<Rule>, fullMatch: Matcher)
    requires !ScanFails(rules, x.0, fullMatch) && Included(rules, x.0, fullMatch)
    requires !ScanFails(rules, y.0, fullMatch) && Included(rules, y.0, fullMatch)
    ensures LabelOf([x, y], rules, fullMatch) == Ok(Entry(x) + "\n" + Entry(y))
  {
    assert [x, y][..1] == [x] && [x][..0] == [] && [x][0] == x && [x, y][1] == y;
    assert Lines([x], rules, fullMatch) == Lines([], rules, fullMatch) + [Entry(x)];
    assert Lines([x, y], rules, fullMatch) == Lines([x], rules, fullMatch) + [Entry(y)];
    assert !LabelFails([x, y], rules, fullMatch);
    assert Join([Entry(x), Entry(y)]) == Entry(x) + "\n" + Join([Entry(y)]);
  }

  /** Under any rules that show both `type` and `label`, the node
      `{"type": "db"}` is labelled `type=db`, and labelling the result again
      gives `type=db\nlabel=type=db`. */
  lemma RelabelGrows(rules: seq<Rule>, fullMatch: Matcher)
    requires !ScanFails(rules, "type", fullMatch) && Included(rules, "type", fullMatch)
    requires !ScanFails(rules, LabelKey, fullMatch) && Included(rules, LabelKey, fullMatch)
    ensures LabelOf([("type", "db")], rules, fullMatch) == Ok("type=db")
    ensures LabelOf(WithLabel([("type", "db")], "type=db"), rules, fullMatch) == Ok("type=db\nlabel=type=db")
  {
    LabelOfOne(("type", "db"), rules, fullMatch);
    assert Entry(("type", "db")) == "type=db";
    assert !HasKey([("type", "db")], LabelKey);
    assert WithLabel([("type", "db")], "type=db") == [("type", "db"), (LabelKey, "type=db")];
    LabelOfTwo(("type", "db"), (LabelKey, "type=db"), rules, fullMatch);
    assert Entry(("type", "db")) + "\n" + Entry((LabelKey, "type=db")) == "type=db\nlabel=type=db";
  }

  /** The default node rules are such rules, so relabelling with them is
      not idempotent. */
  lemma RelabelNotIdempotent(items: seq<Rule>, fullMatch: Matcher)
    requires DefaultLike(items)
    ensures LabelOf([("type", "db")], NodeRulesInEffect(items), fullMatch) == Ok("type=db")
    ensures LabelOf(WithLabel([("type", "db")], "type=db"), NodeRulesInEffect(items), fullMatch)
      == Ok("type=db\nlabel=type=db")
  {
    DefaultNodeRules(items, "type", fullMatch);
    DefaultNodeRules(items, LabelKey, fullMatch);
    RelabelGrows(NodeRulesInEffect(items), fullMatch);
  }
}
