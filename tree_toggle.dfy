/**
 * The recursive `toggle(tree, id, expanded)` of the editor's open/close
 * handler: every level is rebuilt element by element, the first node met on
 * a path whose id is `id` gets the requested `expanded` flag (its subtree is
 * not visited), and a node is rebuilt with new children only when something
 * below it matched.  The flag says whether anything matched.
 */
module TreeToggle {
  import opened JsonForest

  /** One element of the `tree.map`: the node and whether it or something
      below it matched. */
  function ToggleNode(node: JsonTree, id: string, expanded: bool): (JsonTree, bool)
    decreases node, 1
  {
    if node.id == id then (node.(expanded := expanded), true)
    else if |node.children| > 0 then
      var (children, changed) := Toggle(node.children, id, expanded);
      if changed then (node.(children := children), true) else (node, false)
    else (node, false)
  }

  /** The whole level: each node toggled, and the "any matched" flag. */
  function Toggle(tree: seq<JsonTree>, id: string, expanded: bool): (seq<JsonTree>, bool)
    decreases tree, 0
  {
    if |tree| == 0 then ([], false)
    else
      var (head, a) := ToggleNode(tree[0], id, expanded);
      var (tail, b) := Toggle(tree[1..], id, expanded);
      ([head] + tail, a || b)
  }

  /** The state update of the handler: the toggled tree, the flag dropped. */
  function OnOpenChange(prev: seq<JsonTree>, itemId: string, open: bool): seq<JsonTree> {
    Toggle(prev, itemId, open).0
  }

  // ---------------------------------------------------------------------
  // Reference definitions

  /** `id` is the id of this node or of a node anywhere below it. */
  predicate OccursNode(node: JsonTree, id: string)
    decreases node, 1
  {
    node.id == id || Occurs(node.children, id)
  }

  predicate Occurs(tree: seq<JsonTree>, id: string)
    decreases tree, 0
  {
    exists i :: 0 <= i < |tree| && OccursNode(tree[i], id)
  }

  /** The tree with every `expanded` flag cleared: what a toggle must keep. */
  function ShapeNode(node: JsonTree): JsonTree
    decreases node, 1
  {
    node.(expanded := false, children := Shape(node.children))
  }

  function Shape(tree: seq<JsonTree>): (r: seq<JsonTree>)
    decreases tree, 0
  {
    seq(|tree|, i requires 0 <= i < |tree| => ShapeNode(tree[i]))
  }

  /** The tree with only the flags of nodes whose id is `id` cleared: what
      a toggle of `id` must keep, every other node's flag included. */
  function KeepNode(node: JsonTree, id: string): JsonTree
    decreases node, 1
  {
    node.(expanded := if node.id == id then false else node.expanded, children := Keep(node.children, id))
  }

  function Keep(tree: seq<JsonTree>, id: string): seq<JsonTree>
    decreases tree, 0
  {
    seq(|tree|, i requires 0 <= i < |tree| => KeepNode(tree[i], id))
  }

  // ---------------------------------------------------------------------
  // Properties

  /** The update is an element-wise `map`: same length, each element toggled
      on its own, and the flag is true when some element's flag is. */
  lemma {:induction false} ToggleIsMap(tree: seq<JsonTree>, id: string, expanded: bool)
    ensures |Toggle(tree, id, expanded).0| == |tree|
    ensures forall i :: 0 <= i < |tree| ==> Toggle(tree, id, expanded).0[i] == ToggleNode(tree[i], id, expanded).0
    ensures Toggle(tree, id, expanded).1 <==> exists i :: 0 <= i < |tree| && ToggleNode(tree[i], id, expanded).1
  {
    if |tree| > 0 {
      ToggleIsMap(tree[1..], id, expanded);
      var r := Toggle(tree, id, expanded);
      forall i | 1 <= i < |tree| ensures r.0[i] == ToggleNode(tree[i], id, expanded).0 {
        assert tree[1..][i - 1] == tree[i];
      }
      if r.1 && !ToggleNode(tree[0], id, expanded).1 {
        var j :| 0 <= j < |tree[1..]| && ToggleNode(tree[1..][j], id, expanded).1;
        assert tree[j + 1] == tree[1..][j];
      }
      if exists i :: 0 <= i < |tree| && ToggleNode(tree[i], id, expanded).1 {
        var i :| 0 <= i < |tree| && ToggleNode(tree[i], id, expanded).1;
        if i > 0 {
          assert tree[1..][i - 1] == tree[i];
        }
      }
    }
  }

  /** A node whose id is the target gets the requested flag and keeps every
      other field, its children included: nothing below it is visited. */
  lemma ToggleSetsMatch(tree: seq<JsonTree>, id: string, expanded: bool, i: nat)
    requires i < |tree| && tree[i].id == id
    ensures |Toggle(tree, id, expanded).0| == |tree|
    ensures Toggle(tree, id, expanded).0[i] == tree[i].(expanded := expanded)
  {
    ToggleIsMap(tree, id, expanded);
  }

  /** The returned flag is true exactly when the id occurs in the tree. */
  lemma {:induction false} ToggleFlag(tree: seq<JsonTree>, id: string, expanded: bool)
    ensures Toggle(tree, id, expanded).1 <==> Occurs(tree, id)
    decreases tree, 0
  {
    ToggleIsMap(tree, id, expanded);
    forall i | 0 <= i < |tree| ensures ToggleNode(tree[i], id, expanded).1 <==> OccursNode(tree[i], id) {
      ToggleNodeFlag(tree[i], id, expanded);
    }
  }

  lemma {:induction false} ToggleNodeFlag(node: JsonTree, id: string, expanded: bool)
    ensures ToggleNode(node, id, expanded).1 <==> OccursNode(node, id)
    decreases node, 1
  {
    if node.id != id {
      ToggleFlag(node.children, id, expanded);
    }
  }

  /** An id that occurs nowhere leaves the tree equal to the input. */
  lemma ToggleAbsent(tree: seq<JsonTree>, id: string, expanded: bool)
    requires !Occurs(tree, id)
    ensures Toggle(tree, id, expanded) == (tree, false)
  {
    ToggleIsMap(tree, id, expanded);
    ToggleFlag(tree, id, expanded);
    forall i | 0 <= i < |tree| ensures Toggle(tree, id, expanded).0[i] == tree[i] {
      ToggleNodeFlag(tree[i], id, expanded);
    }
    assert Toggle(tree, id, expanded).0 == tree;
  }

  /** Only `expanded` flags change: lengths, order, ids and every other field
      are kept at every level. */
  lemma {:induction false} ToggleKeepsShape(tree: seq<JsonTree>, id: string, expanded: bool)
    ensures Shape(Toggle(tree, id, expanded).0) == Shape(tree)
    decreases tree, 0
  {
    ToggleIsMap(tree, id, expanded);
    forall i | 0 <= i < |tree| ensures ShapeNode(Toggle(tree, id, expanded).0[i]) == ShapeNode(tree[i]) {
      ToggleNodeKeepsShape(tree[i], id, expanded);
    }
  }

  lemma {:induction false} ToggleNodeKeepsShape(node: JsonTree, id: string, expanded: bool)
    ensures ShapeNode(ToggleNode(node, id, expanded).0) == ShapeNode(node)
    decreases node, 1
  {
    if node.id != id && |node.children| > 0 {
      ToggleKeepsShape(node.children, id, expanded);
    }
  }

  /** Only the flags of nodes with the target id can change: the ancestors
      rebuilt on the way to a match, and every other node, keep their own
      `expanded` flag. */
  lemma {:induction false} ToggleKeepsOtherFlags(tree: seq<JsonTree>, id: string, expanded: bool)
    ensures Keep(Toggle(tree, id, expanded).0, id) == Keep(tree, id)
    decreases tree, 0
  {
    ToggleIsMap(tree, id, expanded);
    forall i | 0 <= i < |tree| ensures KeepNode(Toggle(tree, id, expanded).0[i], id) == KeepNode(tree[i], id) {
      ToggleNodeKeepsOtherFlags(tree[i], id, expanded);
    }
  }

  lemma {:induction false} ToggleNodeKeepsOtherFlags(node: JsonTree, id: string, expanded: bool)
    ensures KeepNode(ToggleNode(node, id, expanded).0, id) == KeepNode(node, id)
    decreases node, 1
  {
    if node.id != id && |node.children| > 0 {
      ToggleKeepsOtherFlags(node.children, id, expanded);
    }
  }

  /** Toggling twice with the same arguments gives the tree toggling once gives. */
  lemma {:induction false} ToggleIdempotent(tree: seq<JsonTree>, id: string, expanded: bool)
    ensures Toggle(Toggle(tree, id, expanded).0, id, expanded).0 == Toggle(tree, id, expanded).0
    decreases tree, 0
  {
    var once := Toggle(tree, id, expanded).0;
    ToggleIsMap(tree, id, expanded);
    ToggleIsMap(once, id, expanded);
    forall i | 0 <= i < |tree| ensures ToggleNode(once[i], id, expanded).0 == once[i] {
      ToggleNodeIdempotent(tree[i], id, expanded);
    }
  }

  lemma {:induction false} ToggleNodeIdempotent(node: JsonTree, id: string, expanded: bool)
    ensures var once := ToggleNode(node, id, expanded).0;
      ToggleNode(once, id, expanded).0 == once
    decreases node, 1
  {
    if node.id != id && |node.children| > 0 {
      var (children, changed) := Toggle(node.children, id, expanded);
      if changed {
        ToggleIdempotent(node.children, id, expanded);
        ToggleFlag(node.children, id, expanded);
        ToggleFlag(children, id, expanded);
        assert Occurs(children, id) by {
          OccursKept(node.children, id, expanded);
        }
      }
    }
  }

  /** When the id occurs in the input, it still occurs in the toggled tree. */
  lemma OccursKept(tree: seq<JsonTree>, id: string, expanded: bool)
    requires Toggle(tree, id, expanded).1
    ensures Occurs(Toggle(tree, id, expanded).0, id)
  {
    ToggleIsMap(tree, id, expanded);
    var i :| 0 <= i < |tree| && ToggleNode(tree[i], id, expanded).1;
    ToggleNodeFlag(tree[i], id, expanded);
    ToggleNodeKeepsOccurs(tree[i], id, expanded);
  }

  lemma {:induction false} ToggleNodeKeepsOccurs(node: JsonTree, id: string, expanded: bool)
    requires OccursNode(node, id)
    ensures OccursNode(ToggleNode(node, id, expanded).0, id)
    decreases node, 1
  {
    if node.id != id {
      ToggleFlag(node.children, id, expanded);
      OccursKept(node.children, id, expanded);
    }
  }
}
