/**
 * The assembly step of `useJsonLineMap`: every node becomes a tree node
 * without its `parent` field; a node whose parent id names a node goes into
 * that node's `children`, in node order, and every other node is a root.
 */
module JsonForest {
  import opened Optional
  import opened JsonLine
  import opened JsonScan

  datatype JsonTree = JsonTree(
    id: string,
    name: string,
    value: Option<string>,
    valueType: Option<ValueType>,
    range: Range,
    block: Position,
    level: nat,
    children: seq<JsonTree>,
    expanded: bool,
    dependencies: bool)

  /** The keys of the id map after every node has been entered. */
  function Ids(nodes: seq<JsonNode>): set<string> {
    set k | 0 <= k < |nodes| :: nodes[k].id
  }

  /** `parentId && map.has(parentId)` for node `j`: the parent id is present,
      non-empty and names a node. */
  predicate Placed(nodes: seq<JsonNode>, j: nat)
    requires j < |nodes|
  {
    var p := nodes[j].parent;
    p.Some? && p.value != "" && p.value in Ids(nodes)
  }

  /** The positions before `n` that the assembly loop appends to the
      children of `id`. */
  function KidsUpTo(nodes: seq<JsonNode>, id: string, n: nat): (r: seq<nat>)
    requires n <= |nodes|
    ensures forall i :: 0 <= i < |r| ==> r[i] < n
  {
    if n == 0 then []
    else KidsUpTo(nodes, id, n - 1) + (if Placed(nodes, n - 1) && nodes[n - 1].parent == Some(id) then [n - 1] else [])
  }

  /** The positions before `n` that the assembly loop appends to the roots. */
  function RootsUpTo(nodes: seq<JsonNode>, n: nat): (r: seq<nat>)
    requires n <= |nodes|
    ensures forall i :: 0 <= i < |r| ==> r[i] < n
  {
    if n == 0 then [] else RootsUpTo(nodes, n - 1) + (if Placed(nodes, n - 1) then [] else [n - 1])
  }

  /** The positions after `k` and before `n` whose parent is node `k`. */
  function Later(nodes: seq<JsonNode>, k: nat, n: nat): (r: seq<nat>)
    requires k < |nodes| && n <= |nodes|
    ensures forall i :: 0 <= i < |r| ==> k < r[i] < n
  {
    if n == 0 then []
    else Later(nodes, k, n - 1) + (if n - 1 > k && nodes[n - 1].parent == Some(nodes[k].id) then [n - 1] else [])
  }

  /** Node `k` as a tree: its fields without `parent`, and the later nodes
      whose parent it is as children, in node order. */
  function Subtree(nodes: seq<JsonNode>, k: nat): JsonTree
    requires k < |nodes|
    decreases |nodes| - k
  {
    var n := nodes[k];
    var cs := Later(nodes, k, |nodes|);
    JsonTree(n.id, n.name, n.value, n.valueType, n.range, n.block, n.level,
             seq(|cs|, i requires 0 <= i < |cs| => Subtree(nodes, cs[i])),
             n.expanded, n.dependencies)
  }

  /** The `tree` the hook returns. */
  function Forest(nodes: seq<JsonNode>): seq<JsonTree> {
    var rs := RootsUpTo(nodes, |nodes|);
    seq(|rs|, i requires 0 <= i < |rs| => Subtree(nodes, rs[i]))
  }

  // ---------------------------------------------------------------------
  // Where each node ends up, for the nodes the scan produces

  /** What the scan guarantees about its nodes (see `JsonScan.ScanWf`). */
  predicate NodesWf(nodes: seq<JsonNode>) {
    IdsWf(nodes) && ParentsWf(nodes)
  }

  predicate Increasing(r: seq<nat>) {
    forall a, b :: 0 <= a < b < |r| ==> r[a] < r[b]
  }

  /** The position of node `j`'s parent: the last node before it one level up. */
  function ParentIndex(nodes: seq<JsonNode>, j: nat): (p: nat)
    requires j < |nodes| && NodesWf(nodes) && nodes[j].level > 0
    ensures p < j && nodes[p].level + 1 == nodes[j].level
    ensures IsContainer(nodes[p].valueType) && nodes[j].parent == Some(nodes[p].id)
  {
    assert ParentOk(nodes, j);
    var p := LastAtLevel(nodes, j, nodes[j].level - 1);
    assert IdOk(nodes, p);
    p
  }

  /** A parent id always names an earlier object or array one level up. */
  lemma ParentBefore(nodes: seq<JsonNode>, j: nat, k: nat)
    requires NodesWf(nodes) && j < |nodes| && k < |nodes| && nodes[j].parent == Some(nodes[k].id)
    ensures nodes[j].level > 0 && k == ParentIndex(nodes, j)
  {
    assert ParentOk(nodes, j);
    assert nodes[j].level > 0;
    var p := ParentIndex(nodes, j);
    assert IdOk(nodes, p);
    assert IdOk(nodes, k);
    IdInjective(p, k);
  }

  /** A node is placed under a parent exactly when it is not at level 0. */
  lemma PlacedIffNested(nodes: seq<JsonNode>, j: nat)
    requires NodesWf(nodes) && j < |nodes|
    ensures Placed(nodes, j) <==> nodes[j].level > 0
  {
    assert ParentOk(nodes, j);
    if nodes[j].level > 0 {
      var p := ParentIndex(nodes, j);
      assert IdOk(nodes, p);
      assert nodes[p].id in Ids(nodes);
    }
  }

  /** Appending a position larger than all others keeps a list increasing. */
  lemma IncreasingAppend(r: seq<nat>, x: seq<nat>, n: nat)
    requires Increasing(r) && (forall i :: 0 <= i < |r| ==> r[i] < n) && (x == [] || x == [n])
    ensures Increasing(r + x)
  {
  }

  lemma {:induction false} RootsIncreasing(nodes: seq<JsonNode>, n: nat)
    requires n <= |nodes|
    ensures Increasing(RootsUpTo(nodes, n))
  {
    if n > 0 {
      RootsIncreasing(nodes, n - 1);
      IncreasingAppend(RootsUpTo(nodes, n - 1), if Placed(nodes, n - 1) then [] else [n - 1], n - 1);
    }
  }

  /** The roots are exactly the level-0 nodes. */
  lemma {:induction false} RootsAreTopLevel(nodes: seq<JsonNode>, n: nat, j: nat)
    requires NodesWf(nodes) && n <= |nodes|
    ensures j in RootsUpTo(nodes, n) <==> j < n && nodes[j].level == 0
  {
    if n > 0 {
      RootsAreTopLevel(nodes, n - 1, j);
      PlacedIffNested(nodes, n - 1);
      var x: seq<nat> := if Placed(nodes, n - 1) then [] else [n - 1];
      assert RootsUpTo(nodes, n) == RootsUpTo(nodes, n - 1) + x;
    }
  }

  lemma {:induction false} LaterIncreasing(nodes: seq<JsonNode>, k: nat, n: nat)
    requires k < |nodes| && n <= |nodes|
    ensures Increasing(Later(nodes, k, n))
  {
    if n > 0 {
      LaterIncreasing(nodes, k, n - 1);
      IncreasingAppend(Later(nodes, k, n - 1),
                       if n - 1 > k && nodes[n - 1].parent == Some(nodes[k].id) then [n - 1] else [], n - 1);
    }
  }

  /** The children of node `k` are exactly the nodes whose parent id is
      node `k`'s id. */
  lemma {:induction false} LaterAreChildren(nodes: seq<JsonNode>, k: nat, n: nat, j: nat)
    requires NodesWf(nodes) && k < |nodes| && n <= |nodes|
    ensures j in Later(nodes, k, n) <==> j < n && nodes[j].parent == Some(nodes[k].id)
  {
    if n > 0 {
      LaterAreChildren(nodes, k, n - 1, j);
      if nodes[n - 1].parent == Some(nodes[k].id) {
        ParentBefore(nodes, n - 1, k);
      }
      var x: seq<nat> := if n - 1 > k && nodes[n - 1].parent == Some(nodes[k].id) then [n - 1] else [];
      assert Later(nodes, k, n) == Later(nodes, k, n - 1) + x;
    }
  }

  /** A node below level 0 is among its parent's children. */
  lemma UnderItsParent(nodes: seq<JsonNode>, j: nat)
    requires NodesWf(nodes) && j < |nodes| && nodes[j].level > 0
    ensures j in Later(nodes, ParentIndex(nodes, j), |nodes|)
  {
    LaterAreChildren(nodes, ParentIndex(nodes, j), |nodes|, j);
  }

  /** ... and among no other node's children. */
  lemma OnlyUnderItsParent(nodes: seq<JsonNode>, j: nat, k: nat)
    requires NodesWf(nodes) && k < |nodes| && j in Later(nodes, k, |nodes|)
    ensures j < |nodes| && nodes[j].level > 0 && k == ParentIndex(nodes, j)
  {
    LaterAreChildren(nodes, k, |nodes|, j);
    ParentBefore(nodes, j, k);
  }

  /** The children the assembly loop collects for node `k` are the later
      nodes whose parent it is. */
  lemma {:induction false} KidsAreLater(nodes: seq<JsonNode>, k: nat, n: nat)
    requires NodesWf(nodes) && k < |nodes| && n <= |nodes|
    ensures KidsUpTo(nodes, nodes[k].id, n) == Later(nodes, k, n)
  {
    if n > 0 {
      KidsAreLater(nodes, k, n - 1);
      var j := n - 1;
      if nodes[j].parent == Some(nodes[k].id) {
        ParentBefore(nodes, j, k);
        PlacedIffNested(nodes, j);
      }
    }
  }
}
