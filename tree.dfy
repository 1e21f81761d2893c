/** The rooted tree shared by the jplace reader and the rerooting engine, as an
    arena: a node is addressed by its index in a sequence, owns an ordered list
    of child indices and points back to its parent by index. Each node has an
    optional name and an optional branch length, as a scikit-bio TreeNode. */
module Tree {
  import opened Wrappers

  type NodeId = nat

  datatype Node = Node(name: Option<string>, length: Option<real>, children: seq<NodeId>, parent: Option<NodeId>)

  /** `TreeNode()`: no name, no length, no children, no parent. */
  const Blank := Node(None, None, [], None)

  /** The node's child and parent references point into an arena of `size`
      nodes. */
  predicate NodeIndexed(n: Node, size: nat) {
    && (forall c <- n.children :: c < size)
    && (n.parent.Some? ==> n.parent.value < size)
  }

  /** Every child and parent reference points into the arena. */
  predicate Indexed(nodes: seq<Node>) {
    forall i | 0 <= i < |nodes| :: NodeIndexed(nodes[i], |nodes|)
  }

  function LengthOrZero(n: Node): real {
    if n.length.Some? then n.length.value else 0.0
  }

  /** `child.parent = parent` for every child in the list. */
  function SetParents(nodes: seq<Node>, children: seq<NodeId>, parent: NodeId): (r: seq<Node>)
    requires forall k :: 0 <= k < |children| ==> children[k] < |nodes|
    ensures |r| == |nodes|
    ensures forall i | 0 <= i < |nodes| ::
              r[i] == if i in children then nodes[i].(parent := Some(parent)) else nodes[i]
  {
    if children == [] then nodes
    else
      var c := children[|children| - 1];
      var r0 := SetParents(nodes, children[..|children| - 1], parent);
      assert forall i :: i in children <==> i in children[..|children| - 1] || i == c by {
        assert children == children[..|children| - 1] + [c];
      }
      r0[c := r0[c].(parent := Some(parent))]
  }

  /** `for child in children: child.parent = parent`, in place. */
  method LinkParents(nodes0: seq<Node>, children: seq<NodeId>, parent: NodeId) returns (nodes: seq<Node>)
    requires forall k :: 0 <= k < |children| ==> children[k] < |nodes0|
    ensures nodes == SetParents(nodes0, children, parent)
  {
    nodes := nodes0;
    for k := 0 to |children|
      invariant nodes == SetParents(nodes0, children[..k], parent)
    {
      assert children[..k + 1][..k] == children[..k];
      nodes := nodes[children[k] := nodes[children[k]].(parent := Some(parent))];
    }
    assert children[..|children|] == children;
  }
}
