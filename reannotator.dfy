/** Rerooting a placement tree so that it agrees with the root of the
    reference tree (graftm/reannotator.py). The trees are arenas of nodes
    (module Tree); a rerooting operation takes the arena and returns the
    rewritten one, so every in-place assignment of the source becomes an
    update of one index. */
module Reannotator {
  import opened Wrappers
  import opened Strings
  import opened Tree

  /** The exceptions the rerooting code raises, its own and those Python
      raises for it. */
  datatype RerootError =
    | NotBinary            // old root without exactly two children
    | NoTipsFound          // lowest_common_ancestor of no names
    | ParaphyleticCase1
    | ParaphyleticCase2
    | CurrentRoot          // rerooting at the current root
    | SistersNotOne
    | RootHasNoChildren    // `tree.children[0]` on a childless root
    | NoParent             // an attribute of a missing parent
    | MissingLength        // adding a missing branch length
    | OneChildNodesNotOne
    | GrandchildrenNotTwo
    | NoLongestBranch      // rerooting at the None the search returned

  /** A tree: the arena and the index of its root. */
  datatype Rooted = Rooted(nodes: seq<Node>, root: NodeId)

  /** Parent and child links agree in both directions and no node is listed
      twice as a child, as scikit-bio keeps them. */
  predicate Linked(nodes: seq<Node>)
    requires Indexed(nodes)
  {
    ChildrenPointUp(nodes) && ParentsList(nodes) && NoTwins(nodes)
  }

  /** Every child names its parent. */
  predicate ChildrenPointUp(nodes: seq<Node>)
    requires Indexed(nodes)
  {
    forall i, c :: 0 <= i < |nodes| && c in nodes[i].children ==> nodes[c].parent == Some(i)
  }

  /** Every node with a parent is among that parent's children. */
  predicate ParentsList(nodes: seq<Node>)
    requires Indexed(nodes)
  {
    forall c {:trigger nodes[c].parent} :: 0 <= c < |nodes| && nodes[c].parent.Some? ==>
      c in nodes[nodes[c].parent.value].children
  }

  /** No child list names a node twice. */
  predicate NoTwins(nodes: seq<Node>) {
    forall i :: 0 <= i < |nodes| ==> Distinct(nodes[i].children)
  }

  predicate WellFormed(t: Rooted) {
    && Indexed(t.nodes) && t.root < |t.nodes|
    && t.nodes[t.root].parent.None?
    && Linked(t.nodes)
  }

  // ---------------------------------------------------------------------------
  // Ancestors, tips and lowest common ancestors
  // ---------------------------------------------------------------------------

  /** A chain that follows parent links and stops at a node without one. */
  predicate ParentChain(nodes: seq<Node>, p: seq<NodeId>) {
    && p != []
    && (forall k :: 0 <= k < |p| ==> p[k] < |nodes|)
    && (forall k {:trigger nodes[p[k]]} :: 0 <= k < |p| - 1 ==> nodes[p[k]].parent == Some(p[k + 1]))
    && nodes[p[|p| - 1]].parent.None?
  }

  /** `x` and its ancestors, nearest first, when the walk up ends within
      `fuel` steps. */
  function Up(nodes: seq<Node>, x: NodeId, fuel: nat): (r: Option<seq<NodeId>>)
    requires Indexed(nodes) && x < |nodes|
    ensures r.Some? ==> ParentChain(nodes, r.value) && r.value[0] == x
    decreases fuel
  {
    if nodes[x].parent.None? then Some([x])
    else if fuel == 0 then None
    else
      var up := Up(nodes, nodes[x].parent.value, fuel - 1);
      if up.None? then None else Some([x] + up.value)
  }

  /** The walk up from `x`: a chain through distinct nodes is never longer
      than the arena, so this fuel suffices for every node that reaches a
      parentless one. */
  function Ancestors(nodes: seq<Node>, x: NodeId): (r: Option<seq<NodeId>>)
    requires Indexed(nodes) && x < |nodes|
    ensures r.Some? ==> ParentChain(nodes, r.value) && r.value[0] == x
  {
    Up(nodes, x, |nodes|)
  }

  lemma {:induction false} UpMonotone(nodes: seq<Node>, x: NodeId, f: nat, g: nat)
    requires Indexed(nodes) && x < |nodes| && f <= g && Up(nodes, x, f).Some?
    ensures Up(nodes, x, g) == Up(nodes, x, f)
    decreases f
  {
    if nodes[x].parent.Some? {
      UpMonotone(nodes, nodes[x].parent.value, f - 1, g - 1);
    }
  }

  /** Every node on a walk up has the rest of that walk as its own. */
  lemma {:induction false} UpSuffix(nodes: seq<Node>, x: NodeId, f: nat, k: nat)
    requires Indexed(nodes) && x < |nodes| && Up(nodes, x, f).Some? && k < |Up(nodes, x, f).value|
    ensures Up(nodes, Up(nodes, x, f).value[k], f) == Some(Up(nodes, x, f).value[k..])
    decreases k
  {
    if k > 0 {
      UpCons(nodes, x, f);
      UpSuffix(nodes, nodes[x].parent.value, f - 1, k - 1);
      UpSuffixStep(nodes, x, f, k);
    } else {
      assert Up(nodes, x, f).value[0..] == Up(nodes, x, f).value;
    }
  }

  /** A walk of more than one node is its start followed by the parent's
      walk. */
  lemma UpCons(nodes: seq<Node>, x: NodeId, f: nat)
    requires Indexed(nodes) && x < |nodes| && Up(nodes, x, f).Some? && |Up(nodes, x, f).value| > 1
    ensures nodes[x].parent.Some? && f > 0 && Up(nodes, nodes[x].parent.value, f - 1).Some?
    ensures Up(nodes, x, f).value == [x] + Up(nodes, nodes[x].parent.value, f - 1).value
  {
  }

  lemma UpSuffixStep(nodes: seq<Node>, x: NodeId, f: nat, k: nat)
    requires Indexed(nodes) && x < |nodes| && Up(nodes, x, f).Some? && 0 < k < |Up(nodes, x, f).value|
    requires nodes[x].parent.Some? && f > 0
    requires var q := Up(nodes, nodes[x].parent.value, f - 1);
             && q.Some? && Up(nodes, x, f).value == [x] + q.value
             && Up(nodes, q.value[k - 1], f - 1) == Some(q.value[k - 1..])
    ensures Up(nodes, Up(nodes, x, f).value[k], f) == Some(Up(nodes, x, f).value[k..])
  {
    var p := Up(nodes, x, f).value;
    var q := Up(nodes, nodes[x].parent.value, f - 1).value;
    assert p[k] == q[k - 1] && p[k..] == q[k - 1..];
    UpMonotone(nodes, p[k], f - 1, f);
  }

  /** A walk up cannot come back to where it started within two steps. */
  lemma NoShortCycle(nodes: seq<Node>, x: NodeId, f: nat)
    requires Indexed(nodes) && x < |nodes| && Up(nodes, x, f).Some?
    ensures nodes[x].parent != Some(x)
    ensures nodes[x].parent.Some? ==> nodes[nodes[x].parent.value].parent != Some(x)
  {
    var p := Up(nodes, x, f).value;
    if nodes[x].parent.Some? {
      var y := nodes[x].parent.value;
      UpSuffix(nodes, x, f, 1);
      if y == x || nodes[y].parent == Some(x) {
        NoReturn(nodes, x, f);
      }
    }
  }

  /** Following links from `x` that lead straight back to `x` never ends. */
  lemma {:induction false} NoReturn(nodes: seq<Node>, x: NodeId, f: nat)
    requires Indexed(nodes) && x < |nodes| && nodes[x].parent.Some?
    requires var y := nodes[x].parent.value; y == x || nodes[y].parent == Some(x)
    ensures Up(nodes, x, f).None?
    decreases f
  {
    var y := nodes[x].parent.value;
    if f >= 2 && y != x {
      NoReturn(nodes, x, f - 2);
      assert Up(nodes, y, f - 1).None?;
    } else if f >= 1 && y == x {
      NoReturn(nodes, x, f - 1);
    }
  }

  /** `a` is an ancestor of, or is, every node in `xs`. */
  predicate CommonAncestor(nodes: seq<Node>, a: NodeId, xs: seq<NodeId>)
    requires Indexed(nodes)
  {
    forall i :: 0 <= i < |xs| ==>
      xs[i] < |nodes| && Ancestors(nodes, xs[i]).Some? && a in Ancestors(nodes, xs[i]).value
  }

  function FirstCommon(nodes: seq<Node>, path: seq<NodeId>, xs: seq<NodeId>, k: nat): (r: nat)
    requires Indexed(nodes) && k < |path|
    requires exists j :: k <= j < |path| && CommonAncestor(nodes, path[j], xs)
    ensures k <= r < |path| && CommonAncestor(nodes, path[r], xs)
    ensures forall j :: k <= j < r ==> !CommonAncestor(nodes, path[j], xs)
    decreases |path| - k
  {
    if CommonAncestor(nodes, path[k], xs) then k else FirstCommon(nodes, path, xs, k + 1)
  }

  /** `lowest_common_ancestor` over nodes: the first node on the walk up from
      `xs[0]` that every other node of `xs` also passes. */
  function Lca(nodes: seq<Node>, xs: seq<NodeId>, root: NodeId): (r: NodeId)
    requires Indexed(nodes) && xs != [] && CommonAncestor(nodes, root, xs)
    ensures r < |nodes| && CommonAncestor(nodes, r, xs) && Ancestors(nodes, r).Some?
  {
    var path := Ancestors(nodes, xs[0]).value;
    var k := FirstCommon(nodes, path, xs, 0);
    UpSuffix(nodes, xs[0], |nodes|, k);
    path[k]
  }

  /** The common ancestor found is the lowest: every other common ancestor
      lies above it. */
  lemma LcaIsLowest(nodes: seq<Node>, xs: seq<NodeId>, root: NodeId, a: NodeId)
    requires Indexed(nodes) && xs != [] && CommonAncestor(nodes, root, xs)
    requires CommonAncestor(nodes, a, xs)
    ensures a in Ancestors(nodes, Lca(nodes, xs, root)).value
  {
    var path := Ancestors(nodes, xs[0]).value;
    var k := FirstCommon(nodes, path, xs, 0);
    var j :| 0 <= j < |path| && path[j] == a;
    UpSuffix(nodes, xs[0], |nodes|, k);
    assert path[k..][j - k] == a;
  }

  /** Lies at or below `a`. */
  predicate Under(nodes: seq<Node>, t: NodeId, a: NodeId)
    requires Indexed(nodes) && t < |nodes|
  {
    Ancestors(nodes, t).Some? && a in Ancestors(nodes, t).value
  }

  /** `{tip.name for tip in a.tips(include_self=False)}`. */
  function TipNames(nodes: seq<Node>, a: NodeId): set<Option<string>>
    requires Indexed(nodes)
  {
    set t | 0 <= t < |nodes| && t != a && nodes[t].children == [] && Under(nodes, t, a) :: nodes[t].name
  }

  /** `find` applied to each name: the tips under `root` carrying one of the
      names, in arena order. */
  function TipsNamed(nodes: seq<Node>, root: NodeId, names: set<Option<string>>, k: nat): (r: seq<NodeId>)
    requires Indexed(nodes) && k <= |nodes|
    ensures forall i :: 0 <= i < |r| ==>
              && k <= r[i] < |nodes| && nodes[r[i]].children == [] && nodes[r[i]].name in names
              && Under(nodes, r[i], root)
    ensures forall t :: (k <= t < |nodes| && nodes[t].children == [] && nodes[t].name in names
                         && Under(nodes, t, root)) ==> t in r
    decreases |nodes| - k
  {
    if k == |nodes| then []
    else
      var rest := TipsNamed(nodes, root, names, k + 1);
      if nodes[k].children == [] && nodes[k].name in names && Under(nodes, k, root) then [k] + rest
      else rest
  }

  /** `tree.lowest_common_ancestor(names)`, which raises for an empty list. */
  function LcaOfNames(t: Rooted, names: set<Option<string>>): (r: Result<NodeId, RerootError>)
    requires Indexed(t.nodes) && t.root < |t.nodes|
    ensures r.Err? <==> TipsNamed(t.nodes, t.root, names, 0) == []
    ensures r.Err? ==> r.error == NoTipsFound
    ensures r.Ok? ==> r.value < |t.nodes| && Ancestors(t.nodes, r.value).Some?
  {
    var xs := TipsNamed(t.nodes, t.root, names, 0);
    if xs == [] then Err(NoTipsFound) else Ok(Lca(t.nodes, xs, t.root))
  }

  // ---------------------------------------------------------------------------
  // The longest branch on the way up
  // ---------------------------------------------------------------------------

  /** The nodes from `x` up to, but not including, the
      root: the branches the search looks at. */
  function Branches(nodes: seq<Node>, x: NodeId): (r: seq<NodeId>)
    requires Indexed(nodes) && x < |nodes| && Ancestors(nodes, x).Some?
    ensures forall k :: 0 <= k < |r| ==> r[k] < |nodes| && nodes[r[k]].parent.Some?
    ensures r == [] <==> nodes[x].parent.None?
    ensures r != [] ==> r[0] == x
    ensures forall k :: 0 <= k < |r| - 1 ==> nodes[r[k]].parent == Some(r[k + 1])
    ensures r != [] ==> var top := nodes[r[|r| - 1]].parent.value; top < |nodes| && nodes[top].parent.None?
  {
    var p := Ancestors(nodes, x).value;
    p[..|p| - 1]
  }

  /** Python 2 orders None below every number, so a node without a length
      never beats the best so far. */
  predicate Beats(n: Node, best: real) {
    n.length.Some? && n.length.value > best
  }

  /** The search's fold over `path`, from the best node and length so far. */
  function LongestFrom(nodes: seq<Node>, path: seq<NodeId>, best: Option<NodeId>, bestLen: real): Option<NodeId>
    requires forall k :: 0 <= k < |path| ==> path[k] < |nodes|
  {
    if path == [] then best
    else if Beats(nodes[path[0]], bestLen) then
      LongestFrom(nodes, path[1..], Some(path[0]), nodes[path[0]].length.value)
    else LongestFrom(nodes, path[1..], best, bestLen)
  }

  /** `_find_longest_internal_branch_node` over an explicit path. */
  function Longest(nodes: seq<Node>, path: seq<NodeId>): Option<NodeId>
    requires forall k :: 0 <= k < |path| ==> path[k] < |nodes|
  {
    LongestFrom(nodes, path, None, -1.0)
  }

  predicate AtLeast(n: Node, x: real) {
    n.length.Some? && n.length.value >= x
  }

  /** `path[k]` beats `bestLen`, every earlier node is strictly shorter and
      no later node is longer: the strictly greatest length, ties going to
      the node nearest the start. */
  predicate WinsAt(nodes: seq<Node>, path: seq<NodeId>, k: nat, bestLen: real)
    requires forall i :: 0 <= i < |path| ==> path[i] < |nodes|
  {
    && k < |path| && Beats(nodes[path[k]], bestLen)
    && (forall j :: 0 <= j < k ==> !AtLeast(nodes[path[j]], nodes[path[k]].length.value))
    && (forall j :: k < j < |path| ==> !Beats(nodes[path[j]], nodes[path[k]].length.value))
  }

  /** The fold keeps the best so far when nothing on the path beats it, and
      otherwise returns the node that wins. */
  lemma {:induction false} LongestFromChoice(nodes: seq<Node>, path: seq<NodeId>, best: Option<NodeId>, bestLen: real)
    requires forall k :: 0 <= k < |path| ==> path[k] < |nodes|
    ensures var r := LongestFrom(nodes, path, best, bestLen);
            || (r == best && forall j :: 0 <= j < |path| ==> !Beats(nodes[path[j]], bestLen))
            || exists k: nat :: WinsAt(nodes, path, k, bestLen) && r == Some(path[k])
  {
    if path != [] {
      var h := nodes[path[0]];
      var tail := path[1..];
      if Beats(h, bestLen) {
        LongestFromChoice(nodes, tail, Some(path[0]), h.length.value);
        var r := LongestFrom(nodes, tail, Some(path[0]), h.length.value);
        if r == Some(path[0]) && forall j :: 0 <= j < |tail| ==> !Beats(nodes[tail[j]], h.length.value) {
          WinsFirst(nodes, path, bestLen);
        } else {
          var k: nat :| WinsAt(nodes, tail, k, h.length.value) && r == Some(tail[k]);
          WinsLater(nodes, path, k, bestLen, h.length.value);
        }
      } else {
        LongestFromChoice(nodes, tail, best, bestLen);
        var r := LongestFrom(nodes, tail, best, bestLen);
        if exists k: nat :: WinsAt(nodes, tail, k, bestLen) && r == Some(tail[k]) {
          var k: nat :| WinsAt(nodes, tail, k, bestLen) && r == Some(tail[k]);
          WinsLater(nodes, path, k, bestLen, bestLen);
        } else {
          assert forall j :: 0 < j < |path| ==> path[j] == tail[j - 1];
        }
      }
    }
  }

  /** The first node wins when it beats `bestLen` and nothing after beats it. */
  lemma WinsFirst(nodes: seq<Node>, path: seq<NodeId>, bestLen: real)
    requires forall k :: 0 <= k < |path| ==> path[k] < |nodes|
    requires path != [] && Beats(nodes[path[0]], bestLen)
    requires forall j :: 0 <= j < |path[1..]| ==> !Beats(nodes[path[1..][j]], nodes[path[0]].length.value)
    ensures WinsAt(nodes, path, 0, bestLen)
  {
    assert forall j :: 0 < j < |path| ==> path[j] == path[1..][j - 1];
  }

  /** A win in the tail against `bar` is a win in the whole path when the
      first node reaches `bar` and does not reach the winner. */
  lemma WinsLater(nodes: seq<Node>, path: seq<NodeId>, k: nat, bestLen: real, bar: real)
    requires forall i :: 0 <= i < |path| ==> path[i] < |nodes|
    requires path != [] && WinsAt(nodes, path[1..], k, bar)
    requires bar == bestLen || (Beats(nodes[path[0]], bestLen) && bar == nodes[path[0]].length.value)
    requires bar == bestLen ==> !Beats(nodes[path[0]], bestLen)
    ensures WinsAt(nodes, path, k + 1, bestLen)
  {
    assert forall j :: 0 < j < |path| ==> path[j] == path[1..][j - 1];
  }

  /** `_find_longest_internal_branch_node` returns None exactly when no node
      below the root on the way up has a length above -1, and otherwise the
      node of strictly greatest length, the nearest one on a tie. */
  lemma LongestIsNearestMaximum(nodes: seq<Node>, path: seq<NodeId>)
    requires forall k :: 0 <= k < |path| ==> path[k] < |nodes|
    ensures Longest(nodes, path).None? <==> forall j :: 0 <= j < |path| ==> !Beats(nodes[path[j]], -1.0)
    ensures Longest(nodes, path).Some? ==>
              exists k: nat :: WinsAt(nodes, path, k, -1.0) && Longest(nodes, path) == Some(path[k])
  {
    LongestFromChoice(nodes, path, None, -1.0);
  }

  /** The search as the source runs it: a loop up the parent links that
      remembers the longest branch seen. */
  method FindLongestInternalBranchNode(nodes: seq<Node>, start: NodeId) returns (maxNode: Option<NodeId>)
    requires Indexed(nodes) && start < |nodes| && Ancestors(nodes, start).Some?
    ensures maxNode == Longest(nodes, Branches(nodes, start))
  {
    var maxLength := -1.0;
    maxNode := None;
    var node: NodeId := start;
    ghost var fuel: nat := |nodes|;
    ghost var whole := Longest(nodes, Branches(nodes, start));
    while nodes[node].parent.Some?
      invariant node < |nodes| && Up(nodes, node, fuel).Some?
      invariant var p := Up(nodes, node, fuel).value;
                LongestFrom(nodes, p[..|p| - 1], maxNode, maxLength) == whole
      decreases fuel
    {
      ghost var p := Up(nodes, node, fuel).value;
      ghost var q := Up(nodes, nodes[node].parent.value, fuel - 1).value;
      assert p == [node] + q;
      assert p[..|p| - 1] == [node] + q[..|q| - 1];
      if nodes[node].length.Some? && nodes[node].length.value > maxLength {
        maxNode := Some(node);
        maxLength := nodes[node].length.value;
      }
      node := nodes[node].parent.value;
      fuel := fuel - 1;
    }
  }

  // ---------------------------------------------------------------------------
  // Branch-length bookkeeping
  // ---------------------------------------------------------------------------

  /** The branch above a node counts once the node hangs from a parent. */
  function Contribution(n: Node): real {
    if n.parent.Some? then LengthOrZero(n) else 0.0
  }

  /** The summed branch lengths of the first `n` nodes of the arena. */
  function SumTo(nodes: seq<Node>, n: nat): real
    requires n <= |nodes|
  {
    if n == 0 then 0.0 else SumTo(nodes, n - 1) + Contribution(nodes[n - 1])
  }

  /** The summed branch lengths of the arena. */
  function EdgeTotal(nodes: seq<Node>): real {
    SumTo(nodes, |nodes|)
  }

  /** The branch lengths together with the root's own length, which the
      collapse step grows when the surviving node is the root. */
  function Total(t: Rooted): real
    requires t.root < |t.nodes|
  {
    EdgeTotal(t.nodes) + LengthOrZero(t.nodes[t.root])
  }

  lemma {:induction false} SumToUpdate(nodes: seq<Node>, i: nat, x: Node, n: nat)
    requires i < |nodes| && n <= |nodes|
    ensures SumTo(nodes[i := x], n) ==
              if i < n then SumTo(nodes, n) - Contribution(nodes[i]) + Contribution(x) else SumTo(nodes, n)
  {
    if n > 0 {
      SumToUpdate(nodes, i, x, n - 1);
    }
  }

  lemma {:induction false} SumToAppend(nodes: seq<Node>, x: Node, n: nat)
    requires n <= |nodes|
    ensures SumTo(nodes + [x], n) == SumTo(nodes, n)
  {
    if n > 0 {
      SumToAppend(nodes, x, n - 1);
    }
  }

  /** Arenas whose first `n` nodes contribute alike have equal sums. */
  lemma {:induction false} SumToSame(a: seq<Node>, b: seq<Node>, n: nat)
    requires n <= |a| && n <= |b|
    requires forall i :: 0 <= i < n ==> Contribution(a[i]) == Contribution(b[i])
    ensures SumTo(a, n) == SumTo(b, n)
  {
    if n > 0 {
      SumToSame(a, b, n - 1);
    }
  }

  /** Overwriting one node changes the total by that node's contribution only. */
  lemma EdgeTotalUpdate(nodes: seq<Node>, i: nat, x: Node)
    requires i < |nodes|
    ensures EdgeTotal(nodes[i := x]) == EdgeTotal(nodes) - Contribution(nodes[i]) + Contribution(x)
  {
    SumToUpdate(nodes, i, x, |nodes|);
  }

  /** A node added at the end adds its own contribution. */
  lemma EdgeTotalAppend(nodes: seq<Node>, x: Node)
    ensures EdgeTotal(nodes + [x]) == EdgeTotal(nodes) + Contribution(x)
  {
    SumToAppend(nodes, x, |nodes|);
  }

  /** `[n for n in s if n != x]`. */
  function Without(s: seq<NodeId>, x: NodeId): (r: seq<NodeId>)
    ensures forall y :: y in r <==> y in s && y != x
    ensures Distinct(s) ==> Distinct(r)
  {
    if s == [] then []
    else
      var rest := Without(s[1..], x);
      assert Distinct(s) ==> s[0] !in s[1..];
      if s[0] == x then rest else [s[0]] + rest
  }

  // ---------------------------------------------------------------------------
  // `_reroot_workaround`
  // ---------------------------------------------------------------------------

  /** What rerooting hands back: the rerooted tree in the trivial case, or, in
      the general case, the tree with the new root node spliced in above
      `pivot` and the old root's first child renamed, ready for scikit-bio's
      `root_at(pivot)`. */
  datatype Outcome =
    | Rerooted(tree: Rooted)
    | Pivoted(tree: Rooted, pivot: NodeId, marked: NodeId)

  /** The name the general case gives the old root's first child, to find
      the dummy node again after `root_at`. */
  const OldChildName: string := "ochild"

  /** The trivial case: `node` hangs from the root, and a new root (appended
      to the arena) adopts `node` and its only sister, which takes over the
      length of `node`'s branch. Adopting both empties the old root's child
      list. */
  function TrivialReroot(t: Rooted, node: NodeId): (r: Result<Rooted, RerootError>)
    requires WellFormed(t) && node in t.nodes[t.root].children
    ensures r.Err? ==> r.error in {SistersNotOne, MissingLength}
    ensures var sisters := Without(t.nodes[t.root].children, node);
            && (|sisters| == 1 ==> sisters[0] in t.nodes[t.root].children && sisters[0] < |t.nodes|)
            && (r == Err(SistersNotOne) <==> |sisters| != 1)
            && (r == Err(MissingLength) <==>
                  |sisters| == 1 && (t.nodes[sisters[0]].length.None? || t.nodes[node].length.None?))
            && (r.Ok? ==> && |sisters| == 1 && sisters[0] != node
                          && sisters[0] != t.root && node != t.root
                          && t.nodes[sisters[0]].length.Some? && t.nodes[node].length.Some?
                          && r.value == Rooted(MoveRoot(t.nodes, t.root, node, sisters[0]), |t.nodes|))
  {
    var nodes := t.nodes;
    var sisters := Without(nodes[t.root].children, node);
    if |sisters| != 1 then Err(SistersNotOne)
    else
      var sister := sisters[0];
      assert sister in nodes[t.root].children && NodeIndexed(nodes[t.root], |nodes|);
      if nodes[sister].length.None? || nodes[node].length.None? then Err(MissingLength)
      else Ok(Rooted(MoveRoot(nodes, t.root, node, sister), |nodes|))
  }

  /** The arena after the trivial case, with the new root at index `|nodes|`. */
  function MoveRoot(nodes: seq<Node>, root: NodeId, node: NodeId, sister: NodeId): (r: seq<Node>)
    requires root < |nodes| && node < |nodes| && sister < |nodes|
    requires root != node && root != sister && node != sister
    requires nodes[node].length.Some? && nodes[sister].length.Some?
    ensures |r| == |nodes| + 1
    ensures r[|nodes|] == Node(None, None, [node, sister], None)
    ensures r[root] == nodes[root].(children := [])
    ensures r[sister] == nodes[sister].(length := Some(nodes[sister].length.value + nodes[node].length.value),
                                        parent := Some(|nodes|))
    ensures r[node] == nodes[node].(length := Some(0.0), parent := Some(|nodes|))
    ensures forall i :: 0 <= i < |nodes| && i != root && i != node && i != sister ==> r[i] == nodes[i]
  {
    var newRoot := |nodes|;
    var len := nodes[sister].length.value + nodes[node].length.value;
    var n1 := nodes[root := nodes[root].(children := [])];
    var n2 := n1[sister := n1[sister].(length := Some(len), parent := Some(newRoot))];
    var n3 := n2[node := n2[node].(length := Some(0.0), parent := Some(newRoot))];
    n3 + [Node(None, None, [node, sister], None)]
  }

  /** Moving the root across a branch keeps the summed branch lengths. */
  lemma MoveRootKeepsLength(nodes: seq<Node>, root: NodeId, node: NodeId, sister: NodeId)
    requires root < |nodes| && node < |nodes| && sister < |nodes|
    requires root != node && root != sister && node != sister
    requires nodes[node].length.Some? && nodes[sister].length.Some?
    requires nodes[root].parent.None? && nodes[node].parent.Some? && nodes[sister].parent.Some?
    ensures EdgeTotal(MoveRoot(nodes, root, node, sister)) == EdgeTotal(nodes)
  {
    var u := MoveRoot(nodes, root, node, sister);
    var n1 := nodes[root := u[root]];
    var n2 := n1[sister := u[sister]];
    var n3 := n2[node := u[node]];
    EdgeTotalUpdate(nodes, root, u[root]);
    EdgeTotalUpdate(n1, sister, u[sister]);
    EdgeTotalUpdate(n2, node, u[node]);
    assert u == n3 + [u[|nodes|]];
    EdgeTotalAppend(n3, u[|nodes|]);
  }

  /** The general case up to `root_at`: the old root's first child is
      renamed, `node` leaves its parent's child list, and a new node of
      length 0, appended to the arena, takes its place at the end of that
      list with `node` as its only child. */
  function InsertPivot(t: Rooted, node: NodeId): (r: Result<Outcome, RerootError>)
    requires WellFormed(t) && node < |t.nodes|
    ensures r.Err? ==> r.error in {RootHasNoChildren, NoParent}
    ensures r == Err(RootHasNoChildren) <==> t.nodes[t.root].children == []
    ensures r == Err(NoParent) <==> t.nodes[t.root].children != [] && t.nodes[node].parent.None?
    ensures r.Ok? ==> && t.nodes[t.root].children != [] && t.nodes[node].parent.Some?
                      && r == Ok(Pivoted(Rooted(Splice(t.nodes, t.nodes[t.root].children[0], node, t.nodes[node].parent.value), t.root),
                                         |t.nodes|, t.nodes[t.root].children[0]))
  {
    var nodes := t.nodes;
    var rootChildren := nodes[t.root].children;
    if rootChildren == [] then Err(RootHasNoChildren)
    else
      var marked := rootChildren[0];
      assert NodeIndexed(nodes[t.root], |nodes|) && marked in rootChildren;
      if nodes[node].parent.None? then Err(NoParent)
      else
        var p := nodes[node].parent.value;
        assert NodeIndexed(nodes[node], |nodes|);
        Ok(Pivoted(Rooted(Splice(nodes, marked, node, p), t.root), |nodes|, marked))
  }

  /** The arena after the general case: `marked` renamed, `node` replaced
      in `p`'s child list by the new node at index `|nodes|`, which has
      length 0 and `node` as its only child. The source assigns the fields
      one after the other; each field ends up as stated here whichever of
      the three indices coincide. */
  function Splice(nodes: seq<Node>, marked: NodeId, node: NodeId, p: NodeId): (r: seq<Node>)
    requires marked < |nodes| && node < |nodes| && p < |nodes|
    ensures |r| == |nodes| + 1
    ensures r[|nodes|] == Node(None, Some(0.0), [node], Some(p))
    ensures forall i :: 0 <= i < |nodes| ==>
              r[i] == Node(if i == marked then Some(OldChildName) else nodes[i].name,
                           nodes[i].length,
                           if i == p then Without(nodes[p].children, node) + [|nodes|] else nodes[i].children,
                           if i == node then Some(|nodes|) else nodes[i].parent)
  {
    var pivot := |nodes|;
    var n1 := nodes[marked := nodes[marked].(name := Some(OldChildName))];
    var n2 := n1[p := n1[p].(children := Without(n1[p].children, node) + [pivot])];
    var n3 := n2[node := n2[node].(parent := Some(pivot))];
    n3 + [Node(None, Some(0.0), [node], Some(p))]
  }

  /** `_reroot_workaround` up to `root_at`. */
  function Reroot(t: Rooted, node: NodeId): (r: Result<Outcome, RerootError>)
    requires WellFormed(t) && node < |t.nodes|
    ensures r == Err(CurrentRoot) <==> node == t.root
    ensures r.Ok? && r.value.Rerooted? <==> node in t.nodes[t.root].children && TrivialReroot(t, node).Ok?
    ensures node != t.root && node in t.nodes[t.root].children ==>
              match TrivialReroot(t, node)
              case Ok(u) => r == Ok(Rerooted(u))
              case Err(e) => r == Err(e)
    ensures node != t.root && node !in t.nodes[t.root].children ==> r == InsertPivot(t, node)
  {
    if node == t.root then Err(CurrentRoot)
    else if node in t.nodes[t.root].children then
      var r := TrivialReroot(t, node);
      if r.Err? then Err(r.error) else Ok(Rerooted(r.value))
    else InsertPivot(t, node)
  }

  /** A list that holds one node besides `x` holds nothing else. */
  lemma OnlySister(ch: seq<NodeId>, x: NodeId)
    requires |Without(ch, x)| == 1
    ensures Without(ch, x)[0] in ch && Without(ch, x)[0] != x
    ensures forall c :: c in ch ==> c == x || c == Without(ch, x)[0]
  {
    var w := Without(ch, x);
    assert w[0] in w;
    forall c | c in ch && c != x
      ensures c == w[0]
    {
      assert c in w;
    }
  }

  /** A child of `i` in a linked arena points back to `i` and lies within
      the arena. */
  lemma ChildLink(nodes: seq<Node>, i: NodeId, c: NodeId)
    requires Indexed(nodes) && Linked(nodes) && i < |nodes| && c in nodes[i].children
    ensures c < |nodes| && nodes[c].parent == Some(i)
  {
    assert NodeIndexed(nodes[i], |nodes|);
  }

  /** The trivial case moves length from `node`'s branch to its sister's, so
      the summed branch lengths do not change, and it leaves a well-formed
      tree rooted at the new node with children `node` and the sister. */
  lemma TrivialRerootKeepsTree(t: Rooted, node: NodeId)
    requires WellFormed(t) && node in t.nodes[t.root].children && TrivialReroot(t, node).Ok?
    ensures var u := TrivialReroot(t, node).value;
            var sister := Without(t.nodes[t.root].children, node)[0];
            && WellFormed(u)
            && EdgeTotal(u.nodes) == EdgeTotal(t.nodes)
            && u.nodes[u.root].children == [node, sister]
            && |u.nodes| == |t.nodes| + 1 && sister < |t.nodes|
            && LengthOrZero(u.nodes[sister]) == LengthOrZero(t.nodes[sister]) + LengthOrZero(t.nodes[node])
            && u.nodes[node].length == Some(0.0)
  {
    var nodes := t.nodes;
    var ch := nodes[t.root].children;
    var sister := Without(ch, node)[0];
    OnlySister(ch, node);
    ChildLink(t.nodes, t.root, node);
    ChildLink(t.nodes, t.root, sister);
    MoveRootKeepsLength(nodes, t.root, node, sister);
    TrivialRerootLinked(t, node, sister, MoveRoot(nodes, t.root, node, sister));
  }

  /** The links after the trivial case, stated from the nodes it touches. */
  lemma TrivialRerootLinked(t: Rooted, node: NodeId, sister: NodeId, u: seq<Node>)
    requires WellFormed(t) && node != sister
    requires node in t.nodes[t.root].children && sister in t.nodes[t.root].children
    requires forall c :: c in t.nodes[t.root].children ==> c == node || c == sister
    requires |u| == |t.nodes| + 1
    requires u[|t.nodes|] == Node(None, None, [node, sister], None)
    requires u[t.root] == t.nodes[t.root].(children := [])
    requires u[node].parent == Some(|t.nodes|) && u[node].children == t.nodes[node].children
    requires u[sister].parent == Some(|t.nodes|) && u[sister].children == t.nodes[sister].children
    requires forall i :: 0 <= i < |t.nodes| && i != node && i != sister && i != t.root ==> u[i] == t.nodes[i]
    ensures WellFormed(Rooted(u, |t.nodes|))
  {
    var nodes := t.nodes;
    assert nodes[node].parent == Some(t.root) && nodes[sister].parent == Some(t.root);
    forall i | 0 <= i < |u|
      ensures Local(u, i)
    {
      if i < |nodes| {
        assert NodeIndexed(nodes[i], |nodes|);
        forall c | c in u[i].children
          ensures c < |u| && u[c].parent == Some(i)
        {
          assert nodes[c].parent == Some(i);
        }
        if u[i].parent.Some? && i != node && i != sister {
          var q := nodes[i].parent.value;
          assert i in nodes[q].children;
        }
        assert Distinct(nodes[i].children);
      }
    }
    AllLocal(u);
  }


  /** The links at one node of the arena: its references point into the
      arena, its children name it as their parent, its parent lists it and
      it lists no child twice. */
  predicate Local(u: seq<Node>, i: nat)
    requires i < |u|
  {
    && NodeIndexed(u[i], |u|)
    && (forall c <- u[i].children :: c < |u| && u[c].parent == Some(i))
    && (u[i].parent.Some? ==> u[i].parent.value < |u| && i in u[u[i].parent.value].children)
    && Distinct(u[i].children)
  }

  /** `AllLocal` for an arena whose last node was proved on its own. */
  lemma AllLocalWithLast(u: seq<Node>, n: nat)
    requires |u| == n + 1
    requires forall i :: 0 <= i < n ==> Local(u, i)
    requires Local(u, n)
    ensures Indexed(u) && Linked(u)
  {
    AllLocal(u);
  }

  /** Links that hold at every node hold for the arena. */
  lemma AllLocal(u: seq<Node>)
    requires forall i :: 0 <= i < |u| ==> Local(u, i)
    ensures Indexed(u) && Linked(u)
  {
    forall i | 0 <= i < |u|
      ensures NodeIndexed(u[i], |u|)
    {
      assert Local(u, i);
    }
    assert ChildrenPointUp(u) by {
      forall i, c | 0 <= i < |u| && c in u[i].children
        ensures u[c].parent == Some(i)
      {
        assert Local(u, i);
      }
    }
    assert ParentsList(u) by {
      forall c | 0 <= c < |u| && u[c].parent.Some?
        ensures c in u[u[c].parent.value].children
      {
        assert Local(u, c);
      }
    }
    assert NoTwins(u) by {
      forall i | 0 <= i < |u|
        ensures Distinct(u[i].children)
      {
        assert Local(u, i);
      }
    }
  }


  lemma DistinctSnoc(s: seq<NodeId>, x: NodeId)
    requires Distinct(s) && x !in s
    ensures Distinct(s + [x])
  {
  }

  /** The links at every old node hold after the splice. */
  lemma SpliceLocal(nodes: seq<Node>, marked: NodeId, node: NodeId, p: NodeId, i: NodeId)
    requires Indexed(nodes) && Linked(nodes)
    requires marked < |nodes| && node < |nodes| && p < |nodes| && nodes[node].parent == Some(p)
    requires i < |nodes|
    ensures Local(Splice(nodes, marked, node, p), i)
  {
    var u := Splice(nodes, marked, node, p);
    assert NodeIndexed(nodes[i], |nodes|);
    forall c | c in u[i].children
      ensures c < |u| && u[c].parent == Some(i)
    {
      if c != |nodes| {
        assert c in nodes[i].children;
        ChildLink(nodes, i, c);
      }
    }
    if u[i].parent.Some? && i != node {
      var q := nodes[i].parent.value;
      assert i in nodes[q].children;
    }
    if i == p {
      assert NodeIndexed(nodes[p], |nodes|);
      assert Distinct(nodes[p].children);
      DistinctSnoc(Without(nodes[p].children, node), |nodes|);
    } else {
      assert Distinct(nodes[i].children);
    }
  }

  /** The general case keeps a well-formed tree with the same root and the
      same summed branch lengths: the new node, of length 0, sits between
      `node` and its old parent, and the old root's first child carries the
      marker name. */
  lemma InsertPivotKeepsTree(t: Rooted, node: NodeId)
    requires WellFormed(t) && node < |t.nodes| && InsertPivot(t, node).Ok?
    ensures var o := InsertPivot(t, node).value;
            && WellFormed(o.tree) && o.tree.root == t.root
            && EdgeTotal(o.tree.nodes) == EdgeTotal(t.nodes)
            && o.pivot == |t.nodes| && |o.tree.nodes| == |t.nodes| + 1
            && o.tree.nodes[o.pivot].children == [node]
            && o.tree.nodes[o.pivot].parent == t.nodes[node].parent
            && o.tree.nodes[node].parent == Some(o.pivot)
            && o.marked < |t.nodes| && o.tree.nodes[o.marked].name == Some(OldChildName)
  {
    var nodes := t.nodes;
    var marked := nodes[t.root].children[0];
    var p := nodes[node].parent.value;
    assert NodeIndexed(nodes[t.root], |nodes|) && marked in nodes[t.root].children;
    assert NodeIndexed(nodes[node], |nodes|);
    SpliceLinked(nodes, marked, node, p);
    SpliceKeepsLength(nodes, marked, node, p);
  }

  lemma SpliceLinked(nodes: seq<Node>, marked: NodeId, node: NodeId, p: NodeId)
    requires Indexed(nodes) && Linked(nodes)
    requires marked < |nodes| && node < |nodes| && p < |nodes| && nodes[node].parent == Some(p)
    ensures var u := Splice(nodes, marked, node, p); Indexed(u) && Linked(u)
  {
    var u := Splice(nodes, marked, node, p);
    forall i | 0 <= i < |nodes|
      ensures Local(u, i)
    {
      SpliceLocal(nodes, marked, node, p, i);
    }
    PivotLocal(nodes, marked, node, p);
    AllLocalWithLast(u, |nodes|);
  }

  /** The links at the new node hold after the splice. */
  lemma PivotLocal(nodes: seq<Node>, marked: NodeId, node: NodeId, p: NodeId)
    requires marked < |nodes| && node < |nodes| && p < |nodes|
    ensures Local(Splice(nodes, marked, node, p), |nodes|)
  {
    var u := Splice(nodes, marked, node, p);
    assert |nodes| in u[p].children;
  }

  lemma SpliceKeepsLength(nodes: seq<Node>, marked: NodeId, node: NodeId, p: NodeId)
    requires marked < |nodes| && node < |nodes| && p < |nodes| && nodes[node].parent == Some(p)
    ensures EdgeTotal(Splice(nodes, marked, node, p)) == EdgeTotal(nodes)
  {
    var u := Splice(nodes, marked, node, p);
    SumToSame(nodes, u, |nodes|);
  }

  // ---------------------------------------------------------------------------
  // Removing the dummy node left by `root_at`
  // ---------------------------------------------------------------------------

  /** The clean-up after `root_at`, given the node `m` that carries the
      marker name: of `m` and its parent, exactly one may have a single
      child; that child must have exactly two children, which the node
      adopts, and its branch length is added to the node's, whose name is
      cleared. */
  function CollapseDummy(t: Rooted, m: NodeId): (r: Result<Rooted, RerootError>)
    requires WellFormed(t) && m < |t.nodes|
    ensures r.Err? ==> r.error in {NoParent, OneChildNodesNotOne, GrandchildrenNotTwo, MissingLength}
    ensures r.Ok? ==> r.value.root == t.root && |r.value.nodes| == |t.nodes|
    ensures r == Err(NoParent) <==> t.nodes[m].parent.None?
    ensures t.nodes[m].parent.Some? ==>
              var single := OneChildNodes(t.nodes, m, t.nodes[m].parent.value);
              && (r == Err(OneChildNodesNotOne) <==> |single| != 1)
              && (|single| == 1 ==>
                    var n := single[0];
                    var child := t.nodes[n].children[0];
                    && child < |t.nodes|
                    && (r == Err(GrandchildrenNotTwo) <==> |t.nodes[child].children| != 2)
                    && (r == Err(MissingLength) <==>
                          |t.nodes[child].children| == 2 && (t.nodes[n].length.None? || t.nodes[child].length.None?))
                    && (r.Ok? ==> && n != child && t.nodes[n].length.Some? && t.nodes[child].length.Some?
                                  && r.value == Rooted(Collapse(t.nodes, n, child), t.root)))
  {
    var nodes := t.nodes;
    if nodes[m].parent.None? then Err(NoParent)
    else
      var q := nodes[m].parent.value;
      var single := OneChildNodes(nodes, m, q);
      if |single| != 1 then Err(OneChildNodesNotOne)
      else
        var n := single[0];
        assert NodeIndexed(nodes[n], |nodes|) && nodes[n].children[0] in nodes[n].children;
        var child := nodes[n].children[0];
        var grandchildren := nodes[child].children;
        if |grandchildren| != 2 then Err(GrandchildrenNotTwo)
        else if nodes[n].length.None? || nodes[child].length.None? then Err(MissingLength)
        else Ok(Rooted(Collapse(nodes, n, child), t.root))
  }

  /** Those of `m` and its parent `q` that have exactly one child, in that
      order. */
  function OneChildNodes(nodes: seq<Node>, m: NodeId, q: NodeId): (r: seq<NodeId>)
    requires m < |nodes| && q < |nodes|
    ensures forall x <- r :: x < |nodes| && |nodes[x].children| == 1
    ensures m in r <==> |nodes[m].children| == 1
    ensures q in r <==> |nodes[q].children| == 1
    ensures |r| <= 2 && (|r| == 2 ==> r == [m, q])
  {
    (if |nodes[m].children| == 1 then [m] else []) + (if |nodes[q].children| == 1 then [q] else [])
  }

  /** The arena after the collapse: `n` takes over the children and adds
      the branch length of its only child, which leaves the tree; its slot
      is cleared. */
  function Collapse(nodes: seq<Node>, n: NodeId, child: NodeId): (r: seq<Node>)
    requires Indexed(nodes) && n < |nodes| && child < |nodes| && n != child
    requires nodes[n].length.Some? && nodes[child].length.Some?
    ensures |r| == |nodes|
    ensures forall i :: 0 <= i < |nodes| ==>
              r[i] == if i == child then Blank
                      else Node(if i == n then None else nodes[i].name,
                                if i == n then Some(nodes[n].length.value + nodes[child].length.value) else nodes[i].length,
                                if i == n then nodes[child].children else nodes[i].children,
                                if i in nodes[child].children then Some(n) else nodes[i].parent)
  {
    var grandchildren := nodes[child].children;
    assert NodeIndexed(nodes[child], |nodes|);
    assert forall k :: 0 <= k < |grandchildren| ==> grandchildren[k] in grandchildren;
    var linked := SetParents(nodes, grandchildren, n);
    var len := nodes[n].length.value + nodes[child].length.value;
    var r := linked[n := linked[n].(length := Some(len), children := grandchildren, name := None)];
    r[child := Blank]
  }

  /** The links at every node hold after the collapse, provided `n`, its
      child and its parent form no cycle of length one or two. */
  lemma CollapseLocal(nodes: seq<Node>, n: NodeId, child: NodeId, i: NodeId)
    requires Indexed(nodes) && Linked(nodes)
    requires n < |nodes| && child < |nodes| && nodes[n].children == [child] && n != child
    requires nodes[n].length.Some? && nodes[child].length.Some?
    requires n !in nodes[child].children
    requires nodes[n].parent != Some(child) && nodes[n].parent != Some(n)
    requires i < |nodes|
    ensures Local(Collapse(nodes, n, child), i)
  {
    var u := Collapse(nodes, n, child);
    if i != child {
      CollapseChildrenUp(nodes, n, child, i);
      CollapseParentLists(nodes, n, child, i);
      assert NodeIndexed(nodes[child], |nodes|) && NodeIndexed(nodes[i], |nodes|);
      assert Distinct(nodes[i].children) && Distinct(nodes[child].children);
    }
  }

  /** After the collapse every child of `i` names `i` as its parent. */
  lemma CollapseChildrenUp(nodes: seq<Node>, n: NodeId, child: NodeId, i: NodeId)
    requires Indexed(nodes) && Linked(nodes)
    requires n < |nodes| && child < |nodes| && nodes[n].children == [child] && n != child
    requires nodes[n].length.Some? && nodes[child].length.Some?
    requires n !in nodes[child].children
    requires nodes[n].parent != Some(child) && nodes[n].parent != Some(n)
    requires i < |nodes|
    requires i != child
    ensures var u := Collapse(nodes, n, child);
            forall c <- u[i].children :: c < |u| && u[c].parent == Some(i)
  {
    ChildLink(nodes, n, child);
    var u := Collapse(nodes, n, child);
    forall c | c in u[i].children
      ensures c < |u| && u[c].parent == Some(i)
    {
      if i != n {
        ChildLink(nodes, i, c);
      } else {
        ChildLink(nodes, child, c);
      }
    }
  }

  /** After the collapse the parent of `i`, if any, lists `i`. */
  lemma CollapseParentLists(nodes: seq<Node>, n: NodeId, child: NodeId, i: NodeId)
    requires Indexed(nodes) && Linked(nodes)
    requires n < |nodes| && child < |nodes| && nodes[n].children == [child] && n != child
    requires nodes[n].length.Some? && nodes[child].length.Some?
    requires n !in nodes[child].children
    requires nodes[n].parent != Some(child) && nodes[n].parent != Some(n)
    requires i < |nodes|
    requires i != child
    ensures var u := Collapse(nodes, n, child);
            u[i].parent.Some? ==> u[i].parent.value < |u| && i in u[u[i].parent.value].children
  {
    ChildLink(nodes, n, child);
    var u := Collapse(nodes, n, child);
    var gc := nodes[child].children;
    if u[i].parent.Some? && i !in gc {
      assert NodeIndexed(nodes[i], |nodes|);
      var q := nodes[i].parent.value;
      assert i in nodes[q].children;
    }
  }

  /** Summed lengths of two arenas that differ in the contribution of at most
      two nodes. */
  lemma EdgeTotalTwo(a: seq<Node>, b: seq<Node>, x: NodeId, y: NodeId)
    requires |a| == |b| && x < |a| && y < |a| && x != y
    requires forall i :: 0 <= i < |a| && i != x && i != y ==> Contribution(a[i]) == Contribution(b[i])
    ensures EdgeTotal(b) == EdgeTotal(a) - Contribution(a[x]) - Contribution(a[y]) + Contribution(b[x]) + Contribution(b[y])
  {
    var a1 := a[x := b[x]];
    var a2 := a1[y := b[y]];
    EdgeTotalUpdate(a, x, b[x]);
    EdgeTotalUpdate(a1, y, b[y]);
    SumToSame(a2, b, |b|);
  }

  /** On a walk up, only the last node lacks a parent. */
  lemma ParentlessIsLast(nodes: seq<Node>, p: seq<NodeId>, k: nat)
    requires ParentChain(nodes, p) && k < |p| && nodes[p[k]].parent.None?
    ensures k == |p| - 1
  {
  }

  /** The collapse of the dummy node leaves a well-formed tree with the same
      root and the same total length: the removed branch's length moves
      onto the surviving node, whose children are the two grandchildren. */
  lemma CollapseKeepsTree(t: Rooted, m: NodeId)
    requires WellFormed(t) && m < |t.nodes| && Under(t.nodes, m, t.root)
    requires CollapseDummy(t, m).Ok?
    ensures var u := CollapseDummy(t, m).value;
            && WellFormed(u) && u.root == t.root
            && Total(u) == Total(t)
  {
    var nodes := t.nodes;
    var path := Ancestors(nodes, m).value;
    var q := nodes[m].parent.value;
    assert path[1] == q;
    UpSuffix(nodes, m, |nodes|, 1);
    var n := if |nodes[m].children| == 1 then m else q;
    assert NodeIndexed(nodes[n], |nodes|) && nodes[n].children[0] in nodes[n].children;
    var child := nodes[n].children[0];
    ChildLink(nodes, n, child);
    assert nodes[n].children == [child];
    var gc := nodes[child].children;
    NoShortCycle(nodes, n, |nodes|);
    assert n !in gc by {
      if n in gc {
        ChildLink(nodes, child, n);
      }
    }
    assert OneChildNodes(nodes, m, q) == [n];
    var u := Collapse(nodes, n, child);
    forall i | 0 <= i < |u|
      ensures Local(u, i)
    {
      CollapseLocal(nodes, n, child, i);
    }
    AllLocal(u);
    CollapseRoot(t, n, child, u);
    CollapseTotal(t, n, child, path);
  }

  lemma CollapseRoot(t: Rooted, n: NodeId, child: NodeId, u: seq<Node>)
    requires WellFormed(t) && n < |t.nodes| && child < |t.nodes| && t.nodes[n].children == [child] && n != child
    requires t.nodes[n].length.Some? && t.nodes[child].length.Some?
    requires n !in t.nodes[child].children
    requires u == Collapse(t.nodes, n, child)
    ensures u[t.root].parent.None?
  {
    ChildLink(t.nodes, n, child);
    if t.root in t.nodes[child].children {
      ChildLink(t.nodes, child, t.root);
    }
  }

  /** Nodes other than `n` and its child contribute what they did. */
  lemma CollapseOthers(nodes: seq<Node>, n: NodeId, child: NodeId)
    requires Indexed(nodes) && Linked(nodes)
    requires n < |nodes| && child < |nodes| && n != child
    requires nodes[n].length.Some? && nodes[child].length.Some?
    ensures var u := Collapse(nodes, n, child);
            forall i :: 0 <= i < |nodes| && i != n && i != child ==> Contribution(nodes[i]) == Contribution(u[i])
  {
    var u := Collapse(nodes, n, child);
    forall i | 0 <= i < |nodes| && i != n && i != child
      ensures Contribution(nodes[i]) == Contribution(u[i])
    {
      if i in nodes[child].children {
        ChildLink(nodes, child, i);
      }
    }
  }

  lemma CollapseTotal(t: Rooted, n: NodeId, child: NodeId, path: seq<NodeId>)
    requires WellFormed(t) && n < |t.nodes| && child < |t.nodes| && t.nodes[n].children == [child] && n != child
    requires t.nodes[n].length.Some? && t.nodes[child].length.Some?
    requires n !in t.nodes[child].children
    requires ParentChain(t.nodes, path) && |path| >= 2 && (n == path[0] || n == path[1]) && t.root in path
    ensures Total(Rooted(Collapse(t.nodes, n, child), t.root)) == Total(t)
  {
    var nodes := t.nodes;
    var u := Collapse(nodes, n, child);
    ChildLink(nodes, n, child);
    CollapseOthers(nodes, n, child);
    EdgeTotalTwo(nodes, u, n, child);
    var k :| 0 <= k < |path| && path[k] == t.root;
    ParentlessIsLast(nodes, path, k);
    if nodes[n].parent.None? {
      ParentlessIsLast(nodes, path, if n == path[0] then 0 else 1);
    } else {
      assert t.root != n && t.root != child;
      if t.root in nodes[child].children {
        ChildLink(nodes, child, t.root);
      }
    }
  }

  /** Whichever case applies, rerooting keeps a well-formed tree and the
      summed branch lengths. */
  lemma RerootKeepsLength(t: Rooted, node: NodeId)
    requires WellFormed(t) && node < |t.nodes| && Reroot(t, node).Ok?
    ensures WellFormed(Reroot(t, node).value.tree)
    ensures EdgeTotal(Reroot(t, node).value.tree.nodes) == EdgeTotal(t.nodes)
  {
    if node in t.nodes[t.root].children {
      TrivialRerootKeepsTree(t, node);
    } else {
      InsertPivotKeepsTree(t, node);
    }
  }

  // ---------------------------------------------------------------------------
  // `_reroot_tree_by_old_root`: choosing where to reroot
  // ---------------------------------------------------------------------------

  /** Where the first reroot goes (`at`, the lowest common ancestor of the
      names in `own`) and whose names are looked up again afterwards. */
  datatype Anchor = Anchor(at: NodeId, own: set<Option<string>>, others: set<Option<string>>)

  /** The names of the tips below one side of the old root that are also
      tip names of the new tree. */
  function SideNames(oldTree: Rooted, newTree: Rooted, side: NodeId): set<Option<string>>
    requires Indexed(oldTree.nodes) && Indexed(newTree.nodes)
  {
    TipNames(oldTree.nodes, side) * TipNames(newTree.nodes, newTree.root)
  }

  /** The decision before the first reroot: the old root must have two
      sides; both sides' LCAs are computed, left first; when both are the
      new root the tree is paraphyletic, and otherwise the reroot goes to
      the left LCA unless that is the root. */
  function ChooseAnchor(oldTree: Rooted, newTree: Rooted): (r: Result<Anchor, RerootError>)
    requires Indexed(oldTree.nodes) && oldTree.root < |oldTree.nodes|
    requires Indexed(newTree.nodes) && newTree.root < |newTree.nodes|
    ensures r == Err(NotBinary) <==> |oldTree.nodes[oldTree.root].children| != 2
    ensures |oldTree.nodes[oldTree.root].children| == 2 ==>
              var sides := oldTree.nodes[oldTree.root].children;
              var left := SideNames(oldTree, newTree, sides[0]);
              var right := SideNames(oldTree, newTree, sides[1]);
              var leftLca := LcaOfNames(newTree, left);
              var rightLca := LcaOfNames(newTree, right);
              && (r == Err(NoTipsFound) <==> leftLca.Err? || rightLca.Err?)
              && (r == Err(ParaphyleticCase1) <==> leftLca == Ok(newTree.root) && rightLca == Ok(newTree.root))
              && (leftLca.Ok? && leftLca.value != newTree.root && rightLca.Ok? ==>
                    r == Ok(Anchor(leftLca.value, left, right)))
              && (leftLca == Ok(newTree.root) && rightLca.Ok? && rightLca.value != newTree.root ==>
                    r == Ok(Anchor(rightLca.value, right, left)))
    ensures r.Ok? ==> r.value.at != newTree.root && LcaOfNames(newTree, r.value.own) == Ok(r.value.at)
  {
    var sides := oldTree.nodes[oldTree.root].children;
    if |sides| != 2 then Err(NotBinary)
    else
      assert NodeIndexed(oldTree.nodes[oldTree.root], |oldTree.nodes|) && sides[0] in sides && sides[1] in sides;
      var left := SideNames(oldTree, newTree, sides[0]);
      var right := SideNames(oldTree, newTree, sides[1]);
      var leftLca := LcaOfNames(newTree, left);
      var rightLca := LcaOfNames(newTree, right);
      if leftLca.Err? then Err(leftLca.error)
      else if rightLca.Err? then Err(rightLca.error)
      else if leftLca.value == newTree.root then
        if rightLca.value == newTree.root then Err(ParaphyleticCase1)
        else Ok(Anchor(rightLca.value, right, left))
      else Ok(Anchor(leftLca.value, left, right))
  }

  /** The LCA found for a set of names lies at or below every other node
      above all the tips carrying those names. */
  lemma LcaOfNamesIsLowest(t: Rooted, names: set<Option<string>>, a: NodeId)
    requires Indexed(t.nodes) && t.root < |t.nodes| && LcaOfNames(t, names).Ok?
    requires CommonAncestor(t.nodes, a, TipsNamed(t.nodes, t.root, names, 0))
    ensures CommonAncestor(t.nodes, LcaOfNames(t, names).value, TipsNamed(t.nodes, t.root, names, 0))
    ensures a in Ancestors(t.nodes, LcaOfNames(t, names).value).value
  {
    var xs := TipsNamed(t.nodes, t.root, names, 0);
    forall i | 0 <= i < |xs|
      ensures t.root in Ancestors(t.nodes, xs[i]).value
    {
      assert Under(t.nodes, xs[i], t.root);
    }
    LcaIsLowest(t.nodes, xs, t.root, a);
  }

  /** The decision after the first reroot: the LCA of the other side's
      names must have a parent, and the reroot then goes to the node of
      longest branch on the way from that LCA up to the root. */
  function FarNode(t: Rooted, names: set<Option<string>>): (r: Result<NodeId, RerootError>)
    requires Indexed(t.nodes) && t.root < |t.nodes|
    ensures r.Ok? ==> r.value < |t.nodes| && t.nodes[r.value].parent.Some?
    ensures r.Ok? ==> LcaOfNames(t, names).Ok?
    ensures r.Ok? ==> (var path := Branches(t.nodes, LcaOfNames(t, names).value);
                       exists k: nat :: WinsAt(t.nodes, path, k, -1.0) && path[k] == r.value)
    ensures r == Err(ParaphyleticCase2) <==>
              LcaOfNames(t, names).Ok? && t.nodes[LcaOfNames(t, names).value].parent.None?
  {
    var lca := LcaOfNames(t, names);
    if lca.Err? then Err(lca.error)
    else if t.nodes[lca.value].parent.None? then Err(ParaphyleticCase2)
    else
      var path := Branches(t.nodes, lca.value);
      var far := Longest(t.nodes, path);
      LongestIsNearestMaximum(t.nodes, path);
      if far.None? then Err(NoLongestBranch) else Ok(far.value)
  }

  /** When every branch on the way up carries a length, the search finds a
      node, so the second reroot has somewhere to go. */
  lemma FarNodeFound(t: Rooted, names: set<Option<string>>)
    requires Indexed(t.nodes) && t.root < |t.nodes|
    requires LcaOfNames(t, names).Ok? && t.nodes[LcaOfNames(t, names).value].parent.Some?
    requires forall x :: x in Branches(t.nodes, LcaOfNames(t, names).value) ==>
               t.nodes[x].length.Some? && t.nodes[x].length.value >= 0.0
    ensures FarNode(t, names).Ok?
  {
    var lca := LcaOfNames(t, names).value;
    var path := Branches(t.nodes, lca);
    var p := Ancestors(t.nodes, lca).value;
    assert |p| >= 2;
    assert path[0] in path;
    LongestIsNearestMaximum(t.nodes, path);
  }

  /** Neither reroot of `_reroot_tree_by_old_root` targets the current
      root: the anchor never is the root, and the far node has a parent. */
  lemma RerootsAvoidRoot(oldTree: Rooted, newTree: Rooted, t: Rooted, names: set<Option<string>>)
    requires Indexed(oldTree.nodes) && oldTree.root < |oldTree.nodes|
    requires WellFormed(newTree) && WellFormed(t)
    ensures ChooseAnchor(oldTree, newTree).Ok? ==>
              Reroot(newTree, ChooseAnchor(oldTree, newTree).value.at) != Err(CurrentRoot)
    ensures FarNode(t, names).Ok? ==> Reroot(t, FarNode(t, names).value) != Err(CurrentRoot)
  {
  }

  // ---------------------------------------------------------------------------
  // The surgery as the source performs it, one assignment at a time
  // ---------------------------------------------------------------------------

  /** `_reroot_workaround` up to `root_at`, updating the arena in place. */
  method RerootWorkaround(t: Rooted, node: NodeId) returns (r: Result<Outcome, RerootError>)
    requires WellFormed(t) && node < |t.nodes|
    ensures r == Reroot(t, node)
  {
    var nodes := t.nodes;
    if node == t.root {
      return Err(CurrentRoot);
    }
    assert NodeIndexed(nodes[t.root], |nodes|);
    if node in nodes[t.root].children {
      var sisters := Without(nodes[t.root].children, node);
      if |sisters| != 1 {
        return Err(SistersNotOne);
      }
      var sister := sisters[0];
      assert sister in nodes[t.root].children;
      ChildLink(nodes, t.root, node);
      ChildLink(nodes, t.root, sister);
      if nodes[sister].length.None? || nodes[node].length.None? {
        return Err(MissingLength);
      }
      nodes := MoveRootInPlace(nodes, t.root, node, sister);
      return Ok(Rerooted(Rooted(nodes, |t.nodes|)));
    }
    if nodes[t.root].children == [] {
      return Err(RootHasNoChildren);
    }
    var marked := nodes[t.root].children[0];
    assert marked in nodes[t.root].children;
    if nodes[node].parent.None? {
      return Err(NoParent);
    }
    var p := nodes[node].parent.value;
    assert NodeIndexed(nodes[node], |nodes|);
    nodes := SpliceInPlace(nodes, marked, node, p);
    return Ok(Pivoted(Rooted(nodes, t.root), |t.nodes|, marked));
  }

  /** The trivial case's assignments, in the source's order. */
  method MoveRootInPlace(nodes0: seq<Node>, root: NodeId, node: NodeId, sister: NodeId) returns (nodes: seq<Node>)
    requires root < |nodes0| && node < |nodes0| && sister < |nodes0|
    requires root != node && root != sister && node != sister
    requires nodes0[node].length.Some? && nodes0[sister].length.Some?
    ensures nodes == MoveRoot(nodes0, root, node, sister)
  {
    var newRoot := |nodes0|;
    nodes := nodes0[root := nodes0[root].(children := [])] + [Node(None, None, [node, sister], None)];
    nodes := nodes[sister := nodes[sister].(length := Some(nodes[sister].length.value + nodes[node].length.value))];
    nodes := nodes[sister := nodes[sister].(parent := Some(newRoot))];
    nodes := nodes[node := nodes[node].(length := Some(0.0))];
    nodes := nodes[node := nodes[node].(parent := Some(newRoot))];
  }

  /** The general case's assignments, in the source's order. */
  method SpliceInPlace(nodes0: seq<Node>, marked: NodeId, node: NodeId, p: NodeId) returns (nodes: seq<Node>)
    requires marked < |nodes0| && node < |nodes0| && p < |nodes0|
    ensures nodes == Splice(nodes0, marked, node, p)
  {
    nodes := nodes0[marked := nodes0[marked].(name := Some(OldChildName))];
    var pivot := |nodes|;
    nodes := nodes + [Node(None, Some(0.0), [node], Some(p))];
    nodes := nodes[p := nodes[p].(children := Without(nodes[p].children, node) + [pivot])];
    nodes := nodes[node := nodes[node].(parent := Some(pivot))];
  }

  /** The removal of the dummy node, updating the arena in place. */
  method RemoveDummyRoot(t: Rooted, m: NodeId) returns (r: Result<Rooted, RerootError>)
    requires WellFormed(t) && m < |t.nodes|
    ensures r == CollapseDummy(t, m)
  {
    var nodes := t.nodes;
    if nodes[m].parent.None? {
      return Err(NoParent);
    }
    var q := nodes[m].parent.value;
    var toRemove := [];
    if |nodes[m].children| == 1 {
      toRemove := toRemove + [m];
    }
    if |nodes[q].children| == 1 {
      toRemove := toRemove + [q];
    }
    if |toRemove| != 1 {
      return Err(OneChildNodesNotOne);
    }
    var n := toRemove[0];
    assert NodeIndexed(nodes[n], |nodes|) && nodes[n].children[0] in nodes[n].children;
    var child := nodes[n].children[0];
    if |nodes[child].children| != 2 {
      return Err(GrandchildrenNotTwo);
    }
    if nodes[n].length.None? || nodes[child].length.None? {
      return Err(MissingLength);
    }
    nodes := CollapseInPlace(nodes, n, child);
    return Ok(Rooted(nodes, t.root));
  }

  /** The collapse's assignments, in the source's order: the grandchildren
      are relinked one at a time, then the surviving node is updated. */
  method CollapseInPlace(nodes0: seq<Node>, n: NodeId, child: NodeId) returns (nodes: seq<Node>)
    requires Indexed(nodes0) && n < |nodes0| && child < |nodes0| && n != child
    requires nodes0[n].length.Some? && nodes0[child].length.Some?
    ensures nodes == Collapse(nodes0, n, child)
  {
    var grandchildren := nodes0[child].children;
    assert NodeIndexed(nodes0[child], |nodes0|);
    assert forall k :: 0 <= k < |grandchildren| ==> grandchildren[k] in grandchildren;
    nodes := LinkParents(nodes0, grandchildren, n);
    nodes := nodes[n := nodes[n].(length := Some(nodes[n].length.value + nodes[child].length.value))];
    nodes := nodes[n := nodes[n].(children := grandchildren)];
    nodes := nodes[n := nodes[n].(name := None)];
    nodes := nodes[child := Blank];
  }
}
