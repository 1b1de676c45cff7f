# Labelled graph rendering and deep merge, modelled in Dafny

This project models two parts of `src/helper/main.py`.

**`nxrender`** (lines 35-111) draws a networkx graph through Graphviz. It first:
- writes a `label` attribute on every node and edge;
- collects a legend that groups nodes by their `legend` attribute;
- adds that legend to the drawing as a cluster.

A label is the newline-joined list of `name=value` entries of the attributes the caller's rule list selects. A rule list holds:
- exact names;
- compiled regular expressions, matched against the whole name;
- the `...` wildcard, which inverts the selection;
- the `"+dot"` marker, which expands to the Graphviz node keys `shape`, `color`, `fillcolor` and `style`.

Any other element raises an error, but only when the scan reaches it before a match. An attribute is shown exactly when "some rule matches" differs from "`...` is in the list".

Nodes that share a legend value must carry the same Graphviz style, or rendering fails. The legend check runs even when no legend is drawn.

**`dict_merge`** (lines 132-154) deep-merges nested mappings:
- A missing-value placeholder gives way to the other side.
- Two mappings merge key by key. Merged values that come out as `{}` are dropped.
- Two other values that differ are resolved by the `incompatible` policy:
  - `"raise"` fails;
  - `"remove"` gives `{}`;
  - any other policy keeps the left value.

Modules:
- `Outcome` (`outcome.dfy`): the error kinds and the `Result`/`Option` wrappers. A Python exception becomes an `Err`.
- `Attributes` (`attributes.dfy`): a networkx attribute dict as an ordered sequence of (name, value) pairs. Provides lookup, assignment in place (`attrs[k] = v`) and restriction to a set of keys.
- `Labels` (`labels.dfy`): the rule elements, and the rule scan for one attribute as a method with a loop. Also the rule lists in effect after `"+dot"` expansion, and the attribute loop that builds one label, again as a method.
- `Legend` (`legend.dfy`): the node and edge passes as functions over the graph's nodes and edges, plus the legend bookkeeping. Proves when the passes succeed and what they produce.
- `Render` (`render.dfy`): the caller's rule lists and the graph as classes. The in-place node and edge loops are methods over the copied graph. `Render.Render` is the whole call up to Graphviz, and the lemmas relate its outcome to the legend and label specifications.
- `DictMerge` (`merge.dfy`): nested values, the pairwise merge, the left fold and its loop.

The regular-expression engine is a parameter, `fullMatch(source, name)`, so every result holds for any engine.

Three behaviours of the code are easy to misread; the model keeps them as written:
- **Relabelling is not always idempotent.** The attribute loop also reads an existing `label` attribute. Relabelling therefore adds a `label=...` line whenever the rules show `label`: under a list with `...` and no rule naming `label`, such as the defaults (`Legend.RelabelShowsPreviousLabel`, `Legend.RelabelNotIdempotent`). Under rules that hide `label`, for instance `["type"]`, relabelling gives the same label again.
- **A caller's node list without `"+dot"` grows by one `"legend"` per call.** Line 42 extends it in place. A second call still renders the same way, because a repeated `"legend"` rule changes no verdict (`Render.RenderAgain`).
- **The conflict error does not name the legend value.** The code's message omits it, so `LegendConflict` carries no payload.
- **Rule order matters for errors.** An unsupported element after a matching rule is never reached, so it raises nothing.

## Model

| member | source | states |
|---|---|---|
| Attributes.Put | src/helper/main.py:68 | assigning an existing key keeps every name in place; assigning a new key appends it |
| Attributes.PutGet | src/helper/main.py:68 | after `attrs[k] = v` the key is present and reads back `v` |
| Attributes.PutOther | src/helper/main.py:68 | writing `k` leaves the presence and value of every other key unchanged |
| Attributes.PutKeepsDistinct | src/helper/main.py:68 | writing a key keeps the dict's keys distinct |
| Attributes.Restrict | src/helper/main.py:71 | the style dict holds exactly the listed keys the node has |
| Attributes.PutOutsideRestrict | src/helper/main.py:68-71 | writing a key outside the style keys does not change the style dict |
| Labels.AttrIncluded | src/helper/main.py:49-66 | the scan raises exactly when an unsupported element precedes every matching rule; otherwise the attribute is shown iff (some exact or pattern rule matches) XOR (`...` is in the list) |
| Labels.WithoutMarker | src/helper/main.py:39 | the filtered list holds every element of the caller's list except `"+dot"` |
| Labels.WithoutMarkerAppend | src/helper/main.py:39 | filtering a concatenation filters each part, so the surviving elements keep their order |
| Labels.WithoutMarkerOne | src/helper/main.py:39 | one element survives the filter unless it is `"+dot"` |
| Labels.MatchesAppend | src/helper/main.py:51-59 | some rule of a concatenation selects a name iff some rule of one of the parts does |
| Labels.ScanFailsAppend | src/helper/main.py:51-63 | the scan over a concatenation raises iff it raises within the first part, or passes the first part without a match and raises within the second |
| Labels.WithoutMarkerVerdict | src/helper/main.py:39-63 | for every name but `"+dot"`, dropping `"+dot"` changes neither whether a rule selects the name nor whether the scan raises |
| Labels.ExactRules | src/helper/main.py:36-39 | one exact rule per Graphviz key and nothing else |
| Labels.NodeRulesInEffect | src/helper/main.py:38-42 | the node list the scan reads never holds `"+dot"`, ends with `"legend"` and has `...` exactly when the caller's list does |
| Labels.NodeRulesElements | src/helper/main.py:38-42 | an element is in the node list in effect iff it is a caller element other than `"+dot"`, `"legend"`, or (when `"+dot"` was given) an exact Graphviz key rule |
| Labels.EdgeRulesInEffect | src/helper/main.py:40-41 | the edge list in effect holds the caller's elements except `"+dot"` |
| Labels.NodeRulesVerdict | src/helper/main.py:38-66 | for every name but `"+dot"`, the node rules in effect raise iff the caller's list raises; a name that is neither a Graphviz key nor `legend` is shown iff the caller's list shows it |
| Labels.EdgeRulesVerdict | src/helper/main.py:40-41 | for every name but `"+dot"`, the edge rules in effect raise and show exactly as the caller's list does |
| Labels.AppendKnownRule | src/helper/main.py:42 | appending a rule the list already holds, other than an unsupported one, changes no name's verdict |
| Labels.LegendVisibility | src/helper/main.py:42-66 | the `legend` attribute is shown iff the caller's node list has no `...` |
| Labels.DotKeyVisibility | src/helper/main.py:36-66 | with `"+dot"`, each Graphviz key is shown iff the caller's node list has no `...` |
| Labels.DefaultRulesAreDefaultLike | src/helper/main.py:35 | the default rule list `[..., "+dot"]` holds only `...` and `"+dot"`, and both |
| Labels.DefaultNodeRules | src/helper/main.py:35-66 | a node list made of `...` and `"+dot"` (the default among them) never raises and shows every attribute except the Graphviz keys and `legend` |
| Labels.DefaultEdgeRules | src/helper/main.py:83-98 | an edge list made of `...` and `"+dot"` (the default among them) never raises and shows every attribute |
| Labels.LabelOf | src/helper/main.py:47-68 | labelling fails only with the rule-type error, and it succeeds iff the scan raises on no attribute name |
| Labels.ComputeLabel | src/helper/main.py:47-68 | the attribute loop returns the scan's error if any attribute raises, else the newline-joined entries of the shown attributes |
| Labels.LinesAppend | src/helper/main.py:48-67 | the lines of concatenated dicts are the lines of each part, in order |
| Labels.LinesMembership | src/helper/main.py:48-67 | a line is in the label iff it is `name=value` of some shown attribute |
| Labels.LinesSameVerdicts | src/helper/main.py:48-67 | rule lists with the same verdicts select the same lines |
| Labels.LabelOfSameVerdicts | src/helper/main.py:47-68 | rule lists with the same verdicts give every dict the same label or the same error |
| Labels.SplitPrefix | src/helper/main.py:68 | splitting text without a newline glues it to the first piece |
| Labels.SplitJoin | src/helper/main.py:68 | splitting the joined label at newlines gives back its lines when none contains a newline |
| Legend.LabelKeepsLegendData | src/helper/main.py:68-71 | writing `label` keeps the legend value and the style dict |
| Legend.LegendStep | src/helper/main.py:69-75 | the legend step fails only with a legend conflict, only for a node that has a legend value, and otherwise keeps every legend value already recorded |
| Legend.NodePass | src/helper/main.py:45-75 | the node loop fails only with a rule error or a legend conflict, and on success returns one node per input node |
| Legend.EdgePass | src/helper/main.py:77-100 | the edge loop fails only with a rule error, and on success returns one edge per input edge |
| Legend.NodePassCons | src/helper/main.py:45-75 | a node that labels and registers cleanly is put in front of the outcome for the rest |
| Legend.EdgePassCons | src/helper/main.py:77-100 | an edge that labels cleanly is put in front of the outcome for the rest |
| Legend.LabelKeepsLegendStep | src/helper/main.py:68-75 | the legend step gives the same outcome before and after the label is written |
| Legend.LegendStepSpec | src/helper/main.py:69-75 | one legend step succeeds iff the node's style agrees with the entry already recorded for its value; the new table adds the node's legend value, maps it to the node's style and keeps every old entry |
| Legend.AgreementStep | src/helper/main.py:69-75 | when the first node agrees with the table, its step succeeds; the new table then agrees with the remaining nodes, and they are pairwise consistent, iff the old table agreed with all nodes and all nodes are pairwise consistent |
| Legend.NodePassSucceeds | src/helper/main.py:45-75 | the node loop succeeds iff no rule scan raises on any node, the table agrees with every node, and nodes with one legend value share their style |
| Legend.NodePassStep | src/helper/main.py:45-75 | a successful node loop labels and registers its first node cleanly and then succeeds on the rest from the new table |
| Legend.NodePassTable | src/helper/main.py:69-75 | on success the table's keys are its old keys plus the nodes' legend values; old entries are kept; every node agrees with the table |
| Legend.NodePassLabels | src/helper/main.py:45-68 | on success node i of the result is node i of the input with its label written |
| Legend.EdgePassSpec | src/helper/main.py:77-100 | the edge loop succeeds iff no rule scan raises on an edge, and edge i is then edge i with its label written |
| Legend.NodePassErrorKind | src/helper/main.py:45-75 | when no rule scan raises, the only possible failure is a legend conflict |
| Legend.NodePassPrefixErr | src/helper/main.py:45-75 | once the loop fails on the first nodes, the whole loop fails with that error, whatever nodes follow |
| Legend.NodePassConflictAll | src/helper/main.py:69-75 | over nodes on which no scan raises, two nodes with one legend value and different styles make the node loop fail with a legend conflict |
| Legend.NodePassConflict | src/helper/main.py:45-75 | the same holds once no scan raises on the later node of the pair or on any node before it |
| Legend.NodePassSameVerdicts | src/helper/main.py:45-75 | rule lists with the same verdicts give the same node loop outcome |
| Legend.EdgePassSameVerdicts | src/helper/main.py:77-100 | rule lists with the same verdicts give the same edge loop outcome |
| Legend.RelabelShowsPreviousLabel | src/helper/main.py:48-68 | with `...` present and no rule naming `label`, relabelling shows the previous label as a line |
| Legend.LabelOfOne | src/helper/main.py:47-68 | a one-attribute dict whose attribute is shown is labelled with its single entry |
| Legend.LabelOfTwo | src/helper/main.py:47-68 | a two-attribute dict whose attributes are shown is labelled with both entries, joined by a newline |
| Legend.RelabelGrows | src/helper/main.py:47-68 | under rules showing `type` and `label`, `{type: db}` is labelled `type=db`, and relabelling gives `type=db\nlabel=type=db` |
| Legend.RelabelNotIdempotent | src/helper/main.py:35-68 | default-like node rules give `type=db`, then `type=db\nlabel=type=db` on the labelled node |
| Render.Graph.Copy | src/helper/main.py:43 | the copy has the same nodes and edges |
| Render.Graph.LabelNodes | src/helper/main.py:45-75 | the in-place node loop leaves edges alone and yields exactly the node pass's labelled nodes and legend table, or its error |
| Render.Graph.LabelEdges | src/helper/main.py:77-100 | the in-place edge loop leaves nodes alone and yields exactly the edge pass's labelled edges, or its error |
| Render.CallerNodeRulesAfter | src/helper/main.py:38-42 | after a call the caller's node list only grows at its end; it is unchanged iff it holds `"+dot"`, and otherwise gains exactly `"legend"` |
| Render.EdgeRulesUsed | src/helper/main.py:38-42 | the edge loop's list never holds `"+dot"`; it holds the caller's other edge elements, plus `"legend"` exactly when one list without `"+dot"` serves both parameters |
| Render.RenderSpec | src/helper/main.py:35-107 | rendering fails only with a rule error, a legend conflict or the union's refusal; on success it keeps the node and edge counts, and a legend cluster is drawn only when asked for and never empty |
| Render.PrepareRules | src/helper/main.py:36-42 | the caller's node list grows by `"legend"` unless it held `"+dot"`; a separate edge list is untouched; the loops read the lists in effect, including a list shared by both parameters |
| Render.Render | src/helper/main.py:35-110 | the caller's graph is untouched, the caller's lists change as lines 38-42 dictate, and the outcome is the rendering specification over the lists in effect |
| Render.RenderSucceeds | src/helper/main.py:45-107 | rendering succeeds iff no rule scan raises, nodes with one legend value share their style, and, when a legend is asked for, no node id is a legend value |
| Render.CollidesByLegendValue | src/helper/main.py:101-105 | after a successful node loop, the union refuses the graphs iff some node id is the legend value of some node |
| Render.LegendConflictFails | src/helper/main.py:45-75 | two nodes with one legend value and different styles make rendering fail with a legend conflict, with or without the legend, once no scan raises on the later node or on any node before it |
| Render.RenderLabels | src/helper/main.py:45-100 | on success every node and edge of the drawing is the input one with its label written |
| Render.RenderCluster | src/helper/main.py:101-107 | the cluster exists iff a legend is asked for and some node has a legend value; it is named `legend`, has one member per legend value carrying that value's style, and no node shares a member's name |
| Render.EmptyGraphRenders | src/helper/main.py:44-110 | an empty graph renders without error and without a cluster |
| Render.SharedRuleList | src/helper/main.py:40-42 | one list without `"+dot"` passed for both parameters makes the edge loop read the node list in effect |
| Render.RenderSameVerdicts | src/helper/main.py:45-107 | rule lists with the same verdicts render every graph the same way |
| Render.RenderAgain | src/helper/main.py:35-107 | a second call with the lists the first call left behind, a shared list included, gives the same outcome |
| Render.AfterCallsGrow | src/helper/main.py:38-42 | a caller's node list without `"+dot"` holds one extra `"legend"` per call made with it |
| Render.DefaultListsUntouched | src/helper/main.py:35-42 | default-like lists, the default among them, are never extended |
| Render.StoreNodeData | src/helper/main.py:69-71 | a store node has legend value `store`, style `{shape: ...}` and no label |
| Render.StoreNodeLabel | src/helper/main.py:47-68 | under rules that show `type` and hide `shape` and `legend`, a store node is labelled `type=db` |
| Render.StoreNodePass | src/helper/main.py:45-75 | under such rules two box-shaped store nodes are labelled `type=db` and give the legend table `{store: {shape: box}}` |
| Render.WeightEdgePass | src/helper/main.py:77-100 | under edge rules that show `weight`, the edge of weight 3 is labelled `weight=3` |
| Render.DefaultStoreRules | src/helper/main.py:35-66 | default-like node rules show `type` and hide `shape` and `legend` without raising |
| Render.StoreScenarioUnder | src/helper/main.py:35-107 | two box-shaped store nodes with an edge of weight 3 render with labels `type=db` and `weight=3` and a legend `{store: {shape: box}}` |
| Render.StoreScenario | src/helper/main.py:35-107 | the same outcome with default-like rule lists, the defaults among them |
| Render.StoreConflictScenario | src/helper/main.py:69-75 | with one node drawn as a circle, default-like node rules fail with a legend conflict, with or without the legend |
| DictMerge.MergeLeaves | src/helper/main.py:134-145 | equal values and missing placeholders resolve to the other side; otherwise it fails iff the policy is `"raise"`, gives `{}` under `"remove"` and keeps the left value under any other policy |
| DictMerge.Combine | src/helper/main.py:148 | the merged mapping holds the keys of either side, except common keys whose merged value is `{}` |
| DictMerge.Merge | src/helper/main.py:133-148 | a merge fails only under `"raise"`, and two mappings merge into a mapping over their keys |
| DictMerge.MergeEntry | src/helper/main.py:147-148 | a key on one side only keeps its value; a common key holds the merge of its two values unless that is `{}`; other keys are absent |
| DictMerge.MergeFailsIff | src/helper/main.py:134-148 | a merge fails iff the policy is `"raise"` and, along a path of common keys, two different non-missing values meet that are not both mappings |
| DictMerge.SelfMerge | src/helper/main.py:133-148 | merging a value without nested `{}` with itself gives it back under every policy |
| DictMerge.SelfMergeDropsEmpty | src/helper/main.py:148 | a nested `{}` disappears when a value is merged with itself |
| DictMerge.MissingUnit | src/helper/main.py:134-140 | the missing placeholder is a unit on both sides |
| DictMerge.EmptyUnit | src/helper/main.py:147-148 | `{}` is a unit on both sides for mappings |
| DictMerge.CombineSymmetric | src/helper/main.py:148 | the union of line 148 does not depend on which side is left |
| DictMerge.MergeSymmetric | src/helper/main.py:133-148 | under `"raise"` and `"remove"` the merge does not depend on argument order |
| DictMerge.MergeKeepsPruned | src/helper/main.py:147-148 | merging values without nested `{}` gives a value without nested `{}` |
| DictMerge.FoldMerge | src/helper/main.py:149-154 | merging any number of values fails only under `"raise"` |
| DictMerge.PairFold | src/helper/main.py:147 | the nested two-argument call is the pairwise merge |
| DictMerge.FoldKeepsPruned | src/helper/main.py:149-154 | merging any number of values without nested `{}` gives a value without nested `{}` |
| DictMerge.FoldPrefixFails | src/helper/main.py:152-153 | once a prefix fails, merging the whole sequence fails in the same way |
| DictMerge.DictMergeAll | src/helper/main.py:149-154 | the loop returns `{}` for no argument, the argument itself for one, and otherwise the left-to-right fold, or its error |

## Left out

- Logging setup and the interrupt hook (lines 8-22), `run` (lines 155-158): process configuration with no data to model.
- `singleglob` (lines 24-32) and `Step.exec_if_necessary` (lines 114-130): file-system lookup and script execution, outside the two utilities modelled here.
- The Graphviz conversion and drawing (`to_agraph`, `add_subgraph`, `draw`, lines 105-111): foreign code. `Drawing` stands for what would be drawn: the labelled graph plus the legend cluster's name, label, `rankdir`, style and members. The bytes Graphviz returns are not modelled.
- The legend graph's `size` attribute and `cluster=True` flag (lines 102, 107): Graphviz layout settings that Graphviz alone interprets.
- `nx.union` (line 105) is modelled only through its refusal of shared node names (`NodeSetsNotDisjoint`). The node order of the union is not modelled.
- The legend table is a map, so its insertion order (the order of the legend's members) is not modelled; nor is the key order of a merged mapping.
- Attribute names and values are strings. `str(attr)` on non-string names, and the formatting of non-string values in `f'{attr}={value}'`, are not modelled.
- Regular-expression matching is a parameter (`fullMatch`), not an implementation of `re.fullmatch`.
- The `is not None` guards (lines 46 and 78) are not modelled. A `None` rule list already raises a TypeError at line 38 or 40, so the guards never skip a loop.
- Multigraph edge keys are not modelled. An edge is a (source, target, attributes) triple.
- `pd.isna` is modelled as the `Missing` value. Merging leaves compares values as strings, so Python's cross-type equality (`1 == 1.0`) and NaN's self-inequality are not modelled. NaN's self-inequality cannot change a result: two missing values merge to a missing value either way.
- Node ids need not be distinct, and edge endpoints need not be node ids. networkx guarantees both, but no part of the model reads endpoints, and ids are only compared with legend values.
- The text of the error messages (lines 63, 75, 142) is not modelled; each error kind is an `Error` constructor.
