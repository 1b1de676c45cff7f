/** How `nxrender` turns one attribute dictionary into a `label` string:
    the rule list, its preprocessing, the per-attribute rule scan and the
    newline-joined label text. */
module Labels {
  import opened Outcome
  import opened Attributes

  /** The regular-expression engine: `fullMatch(source, s)` holds when the
      compiled pattern `source` full-matches `s`. */
  type Matcher = (string, string) -> bool

  /** One element of a rule list. The `"+dot"` marker is a plain string
      element, exactly as in the source. */
  datatype Rule =
    | Exact(name: string)      // a `str` element, compared with `==`
    | Pattern(source: string)  // an object with a `fullmatch` method
    | Wildcard                 // the `...` element
    | Unsupported              // any other object

  const DotMarker: string := "+dot"
  const LegendKey: string := "legend"
  const LabelKey: string := "label"
  /** The attributes Graphviz interprets itself on nodes and on edges. */
  const DotNodeKeys: seq<string> := ["shape", "color", "fillcolor", "style"]
  const DotEdgeKeys: seq<string> := []
  /** The default value of both rule-list parameters: `[..., "+dot"]`. */
  const DefaultRules: seq<Rule> := [Wildcard, Exact(DotMarker)]

  /** Does one rule element select the attribute name on its own? */
  predicate RuleMatches(r: Rule, name: string, fullMatch: Matcher) {
    match r
    case Exact(s) => s == name
    case Pattern(p) => fullMatch(p, name)
    case _ => false
  }

  /** Some exact or pattern rule selects the name, wherever it stands. */
  predicate Matches(rules: seq<Rule>, name: string, fullMatch: Matcher) {
    exists i :: 0 <= i < |rules| && RuleMatches(rules[i], name, fullMatch)
  }

  /** The inclusion law: matched XOR wildcard present. */
  predicate Included(rules: seq<Rule>, name: string, fullMatch: Matcher) {
    Matches(rules, name, fullMatch) != (Wildcard in rules)
  }

  /** The scan raises: an unsupported element comes before every rule that
      selects the name, so the scan reaches it before it can break. */
  predicate ScanFails(rules: seq<Rule>, name: string, fullMatch: Matcher) {
    exists i :: 0 <= i < |rules| && rules[i].Unsupported? &&
      forall j :: 0 <= j < i ==> !RuleMatches(rules[j], name, fullMatch)
  }

  /** The inner loop over the rules for one attribute (lines 49-66 for
      nodes, 81-98 for edges): scan in order, stop at the first selecting
      rule, raise on an unsupported element, then combine with `...`. */
  method AttrIncluded(rules: seq<Rule>, name: string, fullMatch: Matcher) returns (r: Result<bool>)
    ensures r.Err? <==> ScanFails(rules, name, fullMatch)
    ensures r.Err? ==> r.error == RuleTypeError
    ensures r.Ok? ==> r.value == Included(rules, name, fullMatch)
  {
    var matched, reverse := false, false;
    var i := 0;
    while i < |rules|
      invariant 0 <= i <= |rules|
      invariant !matched
      invariant forall j :: 0 <= j < i ==> !RuleMatches(rules[j], name, fullMatch) && !rules[j].Unsupported?
      invariant reverse ==> Wildcard in rules
    {
      match rules[i] {
        case Pattern(p) =>
          if fullMatch(p, name) {
            matched := true;
            break;
          }
        case Exact(s) =>
          if s == name {
            matched := true;
            break;
          }
        case Wildcard =>
          reverse := true;
        case Unsupported =>
          return Err(RuleTypeError);
      }
      i := i + 1;
    }
    if Wildcard in rules {
      reverse := true;
    }
    assert matched ==> RuleMatches(rules[i], name, fullMatch);
    r := Ok(matched != reverse);
  }

  /** `[k for k in rules if not k == "+dot"]` */
  function WithoutMarker(rules: seq<Rule>): (r: seq<Rule>)
    ensures forall x :: x in r <==> x in rules && x != Exact(DotMarker)
  {
    if rules == [] then []
    else (if rules[0] == Exact(DotMarker) then [] else [rules[0]]) + WithoutMarker(rules[1..])
  }

  /** One exact rule per key. */
  function ExactRules(keys: seq<string>): (r: seq<Rule>)
    ensures |r| == |keys| && forall i :: 0 <= i < |keys| ==> r[i] == Exact(keys[i])
    ensures forall x :: x in r <==> x.Exact? && x.name in keys
  {
    var r: seq<Rule> := seq(|keys|, i requires 0 <= i < |keys| => Exact(keys[i]));
    assert forall x: Rule | x.Exact? && x.name in keys :: x in r by {
      forall x: Rule | x.Exact? && x.name in keys ensures x in r {
        var i :| 0 <= i < |keys| && keys[i] == x.name;
        assert r[i] == x;
      }
    }
    r
  }

  /** The node rule list the scan uses (lines 38-39 and 42): `"+dot"` is
      replaced by the four Graphviz node keys, and `"legend"` goes last. */
  function NodeRulesInEffect(rules: seq<Rule>): (r: seq<Rule>)
    ensures Exact(DotMarker) !in r
    ensures |r| > 0 && r[|r| - 1] == Exact(LegendKey)
    ensures (Wildcard in r) == (Wildcard in rules)
  {
    (if Exact(DotMarker) in rules then WithoutMarker(rules) + ExactRules(DotNodeKeys) else rules)
      + [Exact(LegendKey)]
  }

  /** The elements of the node rules in effect: every caller element but
      `"+dot"`, the Graphviz keys when `"+dot"` was given, and `"legend"`. */
  lemma NodeRulesElements(rules: seq<Rule>, x: Rule)
    ensures x in NodeRulesInEffect(rules) <==>
      || (x in rules && x != Exact(DotMarker))
      || x == Exact(LegendKey)
      || (Exact(DotMarker) in rules && x.Exact? && x.name in DotNodeKeys)
  {
  }

  /** The edge rule list after lines 40-41: `"+dot"` is dropped and, the
      edge key list being empty, nothing replaces it. */
  function EdgeRulesInEffect(rules: seq<Rule>): (r: seq<Rule>)
    ensures forall x :: x in r <==> x in rules && x != Exact(DotMarker)
  {
    if Exact(DotMarker) in rules then WithoutMarker(rules) + ExactRules(DotEdgeKeys) else rules
  }

  /** The filter keeps the surviving elements in their order: filtering a
      concatenation filters each part. */
  lemma {:induction false} WithoutMarkerAppend(a: seq<Rule>, b: seq<Rule>)
    ensures WithoutMarker(a + b) == WithoutMarker(a) + WithoutMarker(b)
  {
    if a == [] {
      assert a + b == b;
    } else {
      assert (a + b)[0] == a[0] && (a + b)[1..] == a[1..] + b;
      WithoutMarkerAppend(a[1..], b);
    }
  }

  /** A single element survives the filter unless it is the marker. */
  lemma WithoutMarkerOne(x: Rule)
    ensures WithoutMarker([x]) == if x == Exact(DotMarker) then [] else [x]
  {
    assert [x][1..] == [];
  }

  /** Some rule of a concatenation selects the name iff one of the parts has one. */
  lemma MatchesAppend(a: seq<Rule>, b: seq<Rule>, name: string, fullMatch: Matcher)
    ensures Matches(a + b, name, fullMatch) <==> Matches(a, name, fullMatch) || Matches(b, name, fullMatch)
  {
    var ab := a + b;
    if Matches(ab, name, fullMatch) {
      var i :| 0 <= i < |ab| && RuleMatches(ab[i], name, fullMatch);
      if i < |a| { assert a[i] == ab[i]; } else { assert b[i - |a|] == ab[i]; }
    }
    if Matches(a, name, fullMatch) {
      var i :| 0 <= i < |a| && RuleMatches(a[i], name, fullMatch);
      assert ab[i] == a[i];
    }
    if Matches(b, name, fullMatch) {
      var i :| 0 <= i < |b| && RuleMatches(b[i], name, fullMatch);
      assert ab[|a| + i] == b[i];
    }
  }

  /** The scan over a concatenation raises iff it raises within the first
      part, or runs through the first part without a match and raises
      within the second. */
  lemma ScanFailsAppend(a: seq<Rule>, b: seq<Rule>, name: string, fullMatch: Matcher)
    ensures ScanFails(a + b, name, fullMatch) <==>
      ScanFails(a, name, fullMatch) || (!Matches(a, name, fullMatch) && ScanFails(b, name, fullMatch))
  {
    var ab := a + b;
    if ScanFails(ab, name, fullMatch) {
      var i :| 0 <= i < |ab| && ab[i].Unsupported? && forall j :: 0 <= j < i ==> !RuleMatches(ab[j], name, fullMatch);
      if i < |a| {
        assert a[i] == ab[i];
        assert forall j :: 0 <= j < i ==> a[j] == ab[j];
      } else {
        assert forall j :: 0 <= j < |a| ==> a[j] == ab[j];
        assert b[i - |a|] == ab[i];
        assert forall j :: 0 <= j < i - |a| ==> b[j] == ab[|a| + j];
      }
    }
    if ScanFails(a, name, fullMatch) {
      var i :| 0 <= i < |a| && a[i].Unsupported? && forall j :: 0 <= j < i ==> !RuleMatches(a[j], name, fullMatch);
      assert ab[i] == a[i];
      assert forall j :: 0 <= j < i ==> ab[j] == a[j];
    }
    if !Matches(a, name, fullMatch) && ScanFails(b, name, fullMatch) {
      var i :| 0 <= i < |b| && b[i].Unsupported? && forall j :: 0 <= j < i ==> !RuleMatches(b[j], name, fullMatch);
      assert ab[|a| + i] == b[i];
      forall j | 0 <= j < |a| + i ensures !RuleMatches(ab[j], name, fullMatch) {
        if j < |a| { assert ab[j] == a[j]; } else { assert ab[j] == b[j - |a|]; }
      }
    }
  }

  /** For every name but the marker itself, dropping the marker changes
      neither whether a rule selects the name nor whether the scan raises. */
  lemma {:induction false} WithoutMarkerVerdict(rules: seq<Rule>, name: string, fullMatch: Matcher)
    requires name != DotMarker
    ensures Matches(WithoutMarker(rules), name, fullMatch) <==> Matches(rules, name, fullMatch)
    ensures ScanFails(WithoutMarker(rules), name, fullMatch) <==> ScanFails(rules, name, fullMatch)
  {
    if rules != [] {
      var x, rest := rules[0], rules[1..];
      var head := if x == Exact(DotMarker) then [] else [x];
      assert rules == [x] + rest;
      assert WithoutMarker(rules) == head + WithoutMarker(rest);
      WithoutMarkerVerdict(rest, name, fullMatch);
      MatchesAppend([x], rest, name, fullMatch);
      MatchesAppend(head, WithoutMarker(rest), name, fullMatch);
      ScanFailsAppend([x], rest, name, fullMatch);
      ScanFailsAppend(head, WithoutMarker(rest), name, fullMatch);
      if x == Exact(DotMarker) {
        assert !RuleMatches([x][0], name, fullMatch);
      }
    }
  }

  /** The node rules in effect keep the caller's elements in their order,
      ahead of everything added: for every name but the marker the scan
      raises exactly when it raises on the caller's list, and a name that is
      neither a Graphviz key nor `legend` is shown exactly when the caller's
      list shows it. */
  lemma NodeRulesVerdict(rules: seq<Rule>, name: string, fullMatch: Matcher)
    requires name != DotMarker
    ensures ScanFails(NodeRulesInEffect(rules), name, fullMatch) <==> ScanFails(rules, name, fullMatch)
    ensures name !in DotNodeKeys && name != LegendKey ==>
      (Included(NodeRulesInEffect(rules), name, fullMatch) <==> Included(rules, name, fullMatch))
  {
    var tail := [Exact(LegendKey)];
    var keys := ExactRules(DotNodeKeys);
    var body := if Exact(DotMarker) in rules then WithoutMarker(rules) + keys else rules;
    assert NodeRulesInEffect(rules) == body + tail;
    ScanFailsAppend(body, tail, name, fullMatch);
    MatchesAppend(body, tail, name, fullMatch);
    assert !ScanFails(tail, name, fullMatch);
    if Exact(DotMarker) in rules {
      WithoutMarkerVerdict(rules, name, fullMatch);
      ScanFailsAppend(WithoutMarker(rules), keys, name, fullMatch);
      MatchesAppend(WithoutMarker(rules), keys, name, fullMatch);
      assert !ScanFails(keys, name, fullMatch);
      if name !in DotNodeKeys {
        assert !Matches(keys, name, fullMatch);
      }
    }
    if name != LegendKey {
      assert !Matches(tail, name, fullMatch);
    }
  }

  /** The edge rules in effect give the caller's verdict for every name but
      the marker: the same names raise and the same names are shown. */
  lemma EdgeRulesVerdict(rules: seq<Rule>, name: string, fullMatch: Matcher)
    requires name != DotMarker
    ensures ScanFails(EdgeRulesInEffect(rules), name, fullMatch) <==> ScanFails(rules, name, fullMatch)
    ensures Included(EdgeRulesInEffect(rules), name, fullMatch) <==> Included(rules, name, fullMatch)
  {
    if Exact(DotMarker) in rules {
      WithoutMarkerVerdict(rules, name, fullMatch);
      assert ExactRules(DotEdgeKeys) == [];
      assert EdgeRulesInEffect(rules) == WithoutMarker(rules);
    }
  }

  /** Two rule lists that raise on the same names and show the same names. */
  ghost predicate SameVerdicts(r1: seq<Rule>, r2: seq<Rule>, fullMatch: Matcher) {
    forall name :: && (ScanFails(r1, name, fullMatch) <==> ScanFails(r2, name, fullMatch))
                   && (Included(r1, name, fullMatch) <==> Included(r2, name, fullMatch))
  }

  /** Appending an element the list already holds, unless it is an
      unsupported one, changes no verdict: the scan stops at the earlier
      copy whenever it would stop at the new one. */
  lemma AppendKnownRule(rules: seq<Rule>, x: Rule, fullMatch: Matcher)
    requires x in rules && !x.Unsupported?
    ensures SameVerdicts(rules, rules + [x], fullMatch)
  {
    forall name
      ensures && (ScanFails(rules, name, fullMatch) <==> ScanFails(rules + [x], name, fullMatch))
              && (Included(rules, name, fullMatch) <==> Included(rules + [x], name, fullMatch))
    {
      ScanFailsAppend(rules, [x], name, fullMatch);
      MatchesAppend(rules, [x], name, fullMatch);
      var i :| 0 <= i < |rules| && rules[i] == x;
      assert RuleMatches(x, name, fullMatch) ==> RuleMatches(rules[i], name, fullMatch);
      assert !ScanFails([x], name, fullMatch);
    }
  }

  /** With the node rules in effect, the `legend` attribute is shown exactly
      when the caller's list has no `...`. */
  lemma LegendVisibility(rules: seq<Rule>, fullMatch: Matcher)
    ensures Included(NodeRulesInEffect(rules), LegendKey, fullMatch) <==> Wildcard !in rules
  {
    var r := NodeRulesInEffect(rules);
    assert RuleMatches(r[|r| - 1], LegendKey, fullMatch);
  }

  /** With `"+dot"` in the caller's node list, each Graphviz key is shown
      exactly when there is no `...`. */
  lemma DotKeyVisibility(rules: seq<Rule>, key: string, fullMatch: Matcher)
    requires Exact(DotMarker) in rules && key in DotNodeKeys
    ensures Included(NodeRulesInEffect(rules), key, fullMatch) <==> Wildcard !in rules
  {
    var r := NodeRulesInEffect(rules);
    NodeRulesElements(rules, Exact(key));
    var i :| 0 <= i < |r| && r[i] == Exact(key);
    assert RuleMatches(r[i], key, fullMatch);
  }

  /** A caller list made of `...` and `"+dot"` only, holding both: the
      default `[..., "+dot"]` and its reorderings and repetitions. */
  predicate DefaultLike(items: seq<Rule>) {
    && Wildcard in items && Exact(DotMarker) in items
    && forall i :: 0 <= i < |items| ==> items[i] == Wildcard || items[i] == Exact(DotMarker)
  }

  lemma DefaultRulesAreDefaultLike()
    ensures DefaultLike(DefaultRules)
  {
  }

  /** A default-like node list never raises and shows every attribute
      except the four Graphviz keys and `legend`. */
  lemma DefaultNodeRules(items: seq<Rule>, name: string, fullMatch: Matcher)
    requires DefaultLike(items)
    ensures !ScanFails(NodeRulesInEffect(items), name, fullMatch)
    ensures Included(NodeRulesInEffect(items), name, fullMatch) <==> name !in DotNodeKeys + [LegendKey]
  {
    var r := NodeRulesInEffect(items);
    NodeRulesElements(items, Unsupported);
    if name in DotNodeKeys {
      DotKeyVisibility(items, name, fullMatch);
    } else if name == LegendKey {
      LegendVisibility(items, fullMatch);
    } else {
      forall i | 0 <= i < |r| ensures !RuleMatches(r[i], name, fullMatch) {
        NodeRulesElements(items, r[i]);
      }
    }
  }

  /** A default-like edge list never raises and shows every attribute. */
  lemma DefaultEdgeRules(items: seq<Rule>, name: string, fullMatch: Matcher)
    requires DefaultLike(items)
    ensures !ScanFails(EdgeRulesInEffect(items), name, fullMatch)
    ensures Included(EdgeRulesInEffect(items), name, fullMatch)
  {
    var r := EdgeRulesInEffect(items);
    forall j | 0 <= j < |r| ensures r[j] == Wildcard {
      assert r[j] in r;
    }
    var i :| 0 <= i < |items| && items[i] == Wildcard;
    assert Wildcard in r;
  }

  /** `f'{attr}={value}'` */
  function Entry(a: Attr): string {
    a.0 + "=" + a.1
  }

  /** The `labels` list for one dictionary: the entries of the included
      attributes, in dictionary order. */
  function Lines(attrs: Attrs, rules: seq<Rule>, fullMatch: Matcher): seq<string> {
    if attrs == [] then []
    else
      var last := attrs[|attrs| - 1];
      Lines(attrs[..|attrs| - 1], rules, fullMatch)
        + (if Included(rules, last.0, fullMatch) then [Entry(last)] else [])
  }

  /** `"\n".join(parts)` */
  function Join(parts: seq<string>): string {
    if parts == [] then ""
    else if |parts| == 1 then parts[0]
    else parts[0] + "\n" + Join(parts[1..])
  }

  /** `s.split("\n")` */
  function Split(s: string): (r: seq<string>)
    ensures |r| > 0
  {
    if s == [] then [""]
    else
      var rest := Split(s[1..]);
      if s[0] == '\n' then [""] + rest else [[s[0]] + rest[0]] + rest[1..]
  }

  /** Some attribute of the dictionary makes the rule scan raise. */
  predicate LabelFails(attrs: Attrs, rules: seq<Rule>, fullMatch: Matcher) {
    exists k :: 0 <= k < |attrs| && ScanFails(rules, attrs[k].0, fullMatch)
  }

  /** The label of one node or edge, or the error the scan raises. */
  function LabelOf(attrs: Attrs, rules: seq<Rule>, fullMatch: Matcher): (r: Result<string>)
    ensures r.Err? ==> r.error == RuleTypeError
    ensures r.Ok? <==> forall k :: 0 <= k < |attrs| ==> !ScanFails(rules, attrs[k].0, fullMatch)
  {
    if LabelFails(attrs, rules, fullMatch) then Err(RuleTypeError)
    else Ok(Join(Lines(attrs, rules, fullMatch)))
  }

  /** The attribute loop for one node or edge (lines 47-68, 79-100). */
  method ComputeLabel(attrs: Attrs, rules: seq<Rule>, fullMatch: Matcher) returns (r: Result<string>)
    ensures r == LabelOf(attrs, rules, fullMatch)
  {
    var labels: seq<string> := [];
    var i := 0;
    while i < |attrs|
      invariant 0 <= i <= |attrs|
      invariant forall k :: 0 <= k < i ==> !ScanFails(rules, attrs[k].0, fullMatch)
      invariant labels == Lines(attrs[..i], rules, fullMatch)
    {
      var attr := attrs[i];
      var shown := AttrIncluded(rules, attr.0, fullMatch);
      if shown.Err? {
        return Err(RuleTypeError);
      }
      if shown.value {
        labels := labels + [Entry(attr)];
      }
      assert attrs[..i + 1][..i] == attrs[..i];
      i := i + 1;
    }
    assert attrs[..i] == attrs;
    r := Ok(Join(labels));
  }

  /** The lines of a concatenation are the lines of its parts, in order. */
  lemma {:induction false} LinesAppend(a: Attrs, b: Attrs, rules: seq<Rule>, fullMatch: Matcher)
    ensures Lines(a + b, rules, fullMatch) == Lines(a, rules, fullMatch) + Lines(b, rules, fullMatch)
    decreases |b|
  {
    if b == [] {
      assert a + b == a;
    } else {
      var b' := b[..|b| - 1];
      assert (a + b)[..|a + b| - 1] == a + b';
      LinesAppend(a, b', rules, fullMatch);
    }
  }

  /** A line is in the label exactly when it is the entry of an included
      attribute. */
  lemma {:induction false} LinesMembership(attrs: Attrs, rules: seq<Rule>, fullMatch: Matcher, line: string)
    ensures line in Lines(attrs, rules, fullMatch) <==>
      exists k :: 0 <= k < |attrs| && Included(rules, attrs[k].0, fullMatch) && line == Entry(attrs[k])
  {
    if attrs != [] {
      var init := attrs[..|attrs| - 1];
      LinesMembership(init, rules, fullMatch, line);
      if exists k :: 0 <= k < |attrs| && Included(rules, attrs[k].0, fullMatch) && line == Entry(attrs[k]) {
        var k :| 0 <= k < |attrs| && Included(rules, attrs[k].0, fullMatch) && line == Entry(attrs[k]);
        if k < |attrs| - 1 {
          assert init[k] == attrs[k];
        }
      }
      if line in Lines(init, rules, fullMatch) {
        var k :| 0 <= k < |init| && Included(rules, init[k].0, fullMatch) && line == Entry(init[k]);
        assert attrs[k] == init[k];
      }
    }
  }

  /** Rule lists with the same verdicts select the same lines. */
  lemma {:induction false} LinesSameVerdicts(attrs: Attrs, r1: seq<Rule>, r2: seq<Rule>, fullMatch: Matcher)
    requires SameVerdicts(r1, r2, fullMatch)
    ensures Lines(attrs, r1, fullMatch) == Lines(attrs, r2, fullMatch)
  {
    if attrs != [] {
      LinesSameVerdicts(attrs[..|attrs| - 1], r1, r2, fullMatch);
      var last := attrs[|attrs| - 1];
      assert Included(r1, last.0, fullMatch) <==> Included(r2, last.0, fullMatch);
    }
  }

  /** Rule lists with the same verdicts give every dictionary the same
      label, or the same error. */
  lemma LabelOfSameVerdicts(attrs: Attrs, r1: seq<Rule>, r2: seq<Rule>, fullMatch: Matcher)
    requires SameVerdicts(r1, r2, fullMatch)
    ensures LabelOf(attrs, r1, fullMatch) == LabelOf(attrs, r2, fullMatch)
  {
    LinesSameVerdicts(attrs, r1, r2, fullMatch);
    assert LabelFails(attrs, r1, fullMatch) <==> LabelFails(attrs, r2, fullMatch) by {
      assert forall k :: 0 <= k < |attrs| ==>
        (ScanFails(r1, attrs[k].0, fullMatch) <==> ScanFails(r2, attrs[k].0, fullMatch));
    }
  }

  /** Splitting text without a newline glues it onto the first piece. */
  lemma {:induction false} SplitPrefix(p: string, t: string)
    requires '\n' !in p
    ensures Split(p + t) == [p + Split(t)[0]] + Split(t)[1..]
  {
    if p != [] {
      assert (p + t)[1..] == p[1..] + t;
      SplitPrefix(p[1..], t);
      assert [p[0]] + (p[1..] + Split(t)[0]) == p + Split(t)[0];
    } else {
      assert p + t == t;
      assert p + Split(t)[0] == Split(t)[0];
      assert Split(t) == [Split(t)[0]] + Split(t)[1..];
    }
  }

  /** Splitting the joined label at its newlines gives back the lines,
      provided no line holds a newline itself. */
  lemma {:induction false} SplitJoin(parts: seq<string>)
    requires |parts| > 0
    requires forall i :: 0 <= i < |parts| ==> '\n' !in parts[i]
    ensures Split(Join(parts)) == parts
  {
    if |parts| == 1 {
      SplitPrefix(parts[0], "");
      assert parts[0] + "" == parts[0];
    } else {
      var rest := Join(parts[1..]);
      SplitJoin(parts[1..]);
      assert Join(parts) == parts[0] + ("\n" + rest);
      SplitPrefix(parts[0], "\n" + rest);
      assert ("\n" + rest)[1..] == rest;
      assert Split("\n" + rest) == [""] + Split(rest);
      assert Split(Join(parts)) == [parts[0] + ""] + Split(rest);
      assert parts[0] + "" == parts[0];
      assert parts == [parts[0]] + parts[1..];
    }
  }
}
