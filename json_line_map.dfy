/**
 * `useJsonLineMap` itself: one pass over the lines with a stack of open
 * objects and arrays and a running id counter, a final drain of the stack,
 * and the assembly of the flat node list into a tree through a map from
 * node id to the children collected for it.
 */
module JsonLineMap {
  import opened Strings
  import opened Optional
  import opened JsonLine
  import opened JsonBlock
  import opened JsonScan
  import opened JsonForest

  /** The body of the per-line callback for a member line: the value text
      and its type, the block end (the nested delimiter loops for objects
      and arrays, the value pattern otherwise), and the node's fields. */
  method MemberFields(lines: seq<string>, index: nat, key: string, rest: string) returns (e: LineEffect)
    requires index < |lines|
    ensures e == MemberEffect(lines, index, key, rest)
  {
    var line := lines[index];
    var text := ValueText(rest);
    var valueType := Classify(text);
    var value := ScalarValue(text, valueType);
    var valueStart := ValueStartColumn(line);
    var blockEnd := (index + 1, valueStart + |value|);
    if IsContainer(valueType) {
      blockEnd := FindBlockEnd(lines, index, Opener(valueType.value), Closer(valueType.value), blockEnd);
    } else {
      blockEnd := (index + 1, ScalarBlockEnd(line, valueStart, value));
    }
    e := MemberDeclares(lines, index, key, rest, blockEnd);
  }

  /** The children lists read off the map: every node's id is a key, and
      every child listed comes after the node. */
  predicate KidsAfter(nodes: seq<JsonNode>, kids: map<string, seq<nat>>) {
    forall k :: 0 <= k < |nodes| ==> KidsAfterAt(nodes, kids, k)
  }

  predicate KidsAfterAt(nodes: seq<JsonNode>, kids: map<string, seq<nat>>, k: nat)
    requires k < |nodes|
  {
    nodes[k].id in kids && forall i :: 0 <= i < |kids[nodes[k].id]| ==> k < kids[nodes[k].id][i] < |nodes|
  }

  /** The tree node the map holds for node `k`, with the children the map
      lists for its id. */
  function Grow(nodes: seq<JsonNode>, kids: map<string, seq<nat>>, k: nat): JsonTree
    requires k < |nodes| && KidsAfter(nodes, kids)
    decreases |nodes| - k
  {
    var n := nodes[k];
    assert KidsAfterAt(nodes, kids, k);
    var cs := kids[n.id];
    JsonTree(n.id, n.name, n.value, n.valueType, n.range, n.block, n.level,
             seq(|cs|, i requires 0 <= i < |cs| => Grow(nodes, kids, cs[i])),
             n.expanded, n.dependencies)
  }

  /** When the map lists, for every node, the later nodes whose parent it
      is, the tree read off the map is the tree of the specification. */
  lemma {:induction false} GrowIsSubtree(nodes: seq<JsonNode>, kids: map<string, seq<nat>>, k: nat)
    requires k < |nodes| && KidsAfter(nodes, kids)
    requires forall k :: 0 <= k < |nodes| ==> nodes[k].id in kids && kids[nodes[k].id] == Later(nodes, k, |nodes|)
    ensures Grow(nodes, kids, k) == Subtree(nodes, k)
    decreases |nodes| - k
  {
    var cs := kids[nodes[k].id];
    assert cs == Later(nodes, k, |nodes|);
    forall i | 0 <= i < |cs| ensures Grow(nodes, kids, cs[i]) == Subtree(nodes, cs[i]) {
      GrowIsSubtree(nodes, kids, cs[i]);
    }
  }

  /** The first `forEach` of the assembly: every node's id is entered in
      the map with an empty children list. */
  method EnterIds(nodes: seq<JsonNode>) returns (kids: map<string, seq<nat>>)
    ensures kids.Keys == Ids(nodes)
    ensures forall id :: id in kids ==> kids[id] == []
  {
    kids := map[];
    for k := 0 to |nodes|
      invariant kids.Keys == set j | 0 <= j < k :: nodes[j].id
      invariant forall id :: id in kids ==> kids[id] == []
    {
      kids := kids[nodes[k].id := []];
      assert (set j | 0 <= j < k + 1 :: nodes[j].id) == (set j | 0 <= j < k :: nodes[j].id) + {nodes[k].id};
    }
  }

  /** The second `forEach`: each node is appended to the children of its
      parent when the parent id is non-empty and names a node, and to the
      roots otherwise. */
  method PlaceNodes(nodes: seq<JsonNode>, empty: map<string, seq<nat>>)
    returns (kids: map<string, seq<nat>>, roots: seq<nat>)
    requires empty.Keys == Ids(nodes)
    requires forall id :: id in empty ==> empty[id] == []
    ensures kids.Keys == Ids(nodes)
    ensures forall id :: id in kids ==> kids[id] == KidsUpTo(nodes, id, |nodes|)
    ensures roots == RootsUpTo(nodes, |nodes|)
  {
    kids, roots := empty, [];
    for j := 0 to |nodes|
      invariant kids.Keys == Ids(nodes)
      invariant forall id :: id in kids ==> kids[id] == KidsUpTo(nodes, id, j)
      invariant roots == RootsUpTo(nodes, j)
    {
      var p := nodes[j].parent;
      var position: nat := j;
      if p.Some? && p.value != "" && p.value in kids {
        kids := kids[p.value := kids[p.value] + [position]];
      } else {
        roots := roots + [position];
      }
    }
  }

  /** The map the second loop leaves lists, for every node, exactly the
      later nodes whose parent it is; so every child comes after its parent. */
  lemma KidsMapIsLater(nodes: seq<JsonNode>, kids: map<string, seq<nat>>)
    requires NodesWf(nodes) && kids.Keys == Ids(nodes)
    requires forall id :: id in kids ==> kids[id] == KidsUpTo(nodes, id, |nodes|)
    ensures forall k :: 0 <= k < |nodes| ==> nodes[k].id in kids && kids[nodes[k].id] == Later(nodes, k, |nodes|)
    ensures KidsAfter(nodes, kids)
  {
    forall k | 0 <= k < |nodes| ensures nodes[k].id in kids && kids[nodes[k].id] == Later(nodes, k, |nodes|) {
      assert nodes[k].id in Ids(nodes);
      KidsAreLater(nodes, k, |nodes|);
    }
    forall k | 0 <= k < |nodes| ensures KidsAfterAt(nodes, kids, k) {
    }
  }

  /** The assembly: the two `forEach` loops, then the tree read off the map
      from the roots. */
  method AssembleTree(nodes: seq<JsonNode>) returns (tree: seq<JsonTree>)
    requires NodesWf(nodes)
    ensures tree == Forest(nodes)
  {
    var empty := EnterIds(nodes);
    var kids, roots := PlaceNodes(nodes, empty);
    KidsMapIsLater(nodes, kids);
    tree := seq(|roots|, i requires 0 <= i < |roots| => Grow(nodes, kids, roots[i]));
    forall i | 0 <= i < |roots| ensures tree[i] == Subtree(nodes, roots[i]) {
      GrowIsSubtree(nodes, kids, roots[i]);
    }
  }

  /** What the per-line callback makes of line `index`: a closing line
      (recognised on the trimmed line before anything else), a member line
      with the fields of its node, or a line it skips. */
  method LineEffectOf(lines: seq<string>, index: nat) returns (e: LineEffect)
    requires index < |lines|
    ensures e == Effect(lines, index)
  {
    var line := lines[index];
    var trimmed := Trim(line);
    if |trimmed| > 0 && (trimmed[0] == '}' || trimmed[0] == ']') {
      assert ClassifyLine(line) == Close;
      return Closes;
    }
    var m := MatchMember(trimmed);
    if m.None? {
      assert ClassifyLine(line) == Skip;
      return Ignored;
    }
    assert ClassifyLine(line) == Member(m.value.0, m.value.1);
    e := MemberFields(lines, index, m.value.0, m.value.1);
  }

  /** The rest of the callback: a closing line pops the innermost open
      container; a member line pushes a node with the next id, under the
      innermost open container, and opens it when it is an object or an
      array; any other line changes nothing. */
  method ScanLine(e: LineEffect, stack: seq<nat>, nodes: seq<JsonNode>, idCounter: nat)
    returns (stack': seq<nat>, nodes': seq<JsonNode>, idCounter': nat)
    requires StackInRange(ScanState(stack, nodes)) && idCounter == |nodes|
    ensures ScanState(stack', nodes') == Step(e, ScanState(stack, nodes))
    ensures idCounter' == |nodes'|
  {
    stack', nodes', idCounter' := stack, nodes, idCounter;
    match e
    case Closes =>
      if |stack'| > 0 {
        stack' := stack'[..|stack'| - 1];
      }
    case Ignored =>
    case Declares(name, value, valueType, range, block) =>
      var parent := if |stack'| > 0 then Some(nodes'[stack'[|stack'| - 1]].id) else None;
      var node := JsonNode(Id(idCounter'), name, value, valueType, range, block,
                           |stack'|, parent, value.None?, false);
      var position: nat := |nodes'|;
      idCounter' := idCounter' + 1;
      nodes' := nodes' + [node];
      if IsContainer(node.valueType) {
        stack' := stack' + [position];
      }
  }

  /** The hook: the per-line scan, the drain of the stack and the assembly.
      It returns the flat node list and the tree. */
  method UseJsonLineMap(lines: seq<string>) returns (nodes: seq<JsonNode>, tree: seq<JsonTree>)
    ensures nodes == ScanNodes(lines)
    ensures tree == Forest(nodes)
  {
    var stack: seq<nat> := [];
    nodes := [];
    var idCounter := 0;
    ghost var effects := Effects(lines);
    for index := 0 to |lines|
      invariant ScanState(stack, nodes) == ScanUpTo(effects, index)
      invariant idCounter == |nodes|
    {
      var e := LineEffectOf(lines, index);
      stack, nodes, idCounter := ScanLine(e, stack, nodes, idCounter);
    }
    // The drain assigns with `??=` to fields that always hold numbers, so
    // it changes no node.
    while |stack| > 0
      invariant nodes == ScanNodes(lines)
    {
      stack := stack[..|stack| - 1];
    }
    ScanUpToWf(effects, |lines|);
    tree := AssembleTree(nodes);
  }
}
