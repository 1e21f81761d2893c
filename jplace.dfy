/** The jplace tree reader (`JPlaceTree`): Newick text whose branch lengths
    carry an edge number in braces, `A:0.12{3}`, as in the jplace placement
    format of Matsen et al. (2012). A stack parser over the token stream
    builds the tree and a table from edge number to the node on the child
    side of that edge. */
module JPlace {
  import opened Wrappers
  import opened Strings
  import opened Tree
  import NewickTokenizer

  // ---------------------------------------------------------------------------
  // The edge annotation `<length>{<edge number>}`
  // ---------------------------------------------------------------------------

  predicate DigitsOrDots(s: string) { forall k :: 0 <= k < |s| ==> IsDigit(s[k]) || s[k] == '.' }

  /** The regular expression `^([\d\.]+)\{(\d+)\}$`: the two groups, or None.
      As in Python, `$` also matches just before a final newline. */
  function MatchEdge(token: string): (r: Option<(string, string)>)
    ensures r.Some? ==> var num, idx := r.value.0, r.value.1;
              && num != [] && DigitsOrDots(num) && idx != [] && AllDigits(idx)
              && (token == num + "{" + idx + "}" || token == num + "{" + idx + "}\n")
  {
    var t := if token != [] && token[|token| - 1] == '\n' then token[..|token| - 1] else token;
    var k := Find(t, '{');
    if k + 2 < |t| && t[|t| - 1] == '}' then
      var num, idx := t[..k], t[k + 1..|t| - 1];
      if num != [] && DigitsOrDots(num) && idx != [] && AllDigits(idx) then
        assert t == num + "{" + idx + "}";
        Some((num, idx))
      else None
    else None
  }

  /** Every well-formed annotation is recognised, with its two parts. */
  lemma MatchEdgeComplete(num: string, idx: string)
    requires num != [] && DigitsOrDots(num) && idx != [] && AllDigits(idx)
    ensures MatchEdge(num + "{" + idx + "}") == Some((num, idx))
  {
    var t := num + "{" + idx + "}";
    assert t[|t| - 1] == '}' && t[|num|] == '{';
    assert '{' !in num;
    assert t[..|num|] == num;
    FindPrefix(t, num, '{');
    assert t[|num| + 1..|t| - 1] == idx;
  }

  function Pow10(n: nat): (r: nat)
    ensures r >= 1
  {
    if n == 0 then 1 else 10 * Pow10(n - 1)
  }

  /** `float(s)` on a string of digits and dots: defined when there is at
      least one digit and at most one dot, and then never negative. */
  function ParseFloat(s: string): (r: Option<real>)
    requires DigitsOrDots(s)
    ensures r.Some? ==> r.value >= 0.0
    ensures r.Some? <==> (exists k :: 0 <= k < |s| && IsDigit(s[k])) && DotsAtMostOne(s)
  {
    var k := Find(s, '.');
    var ip, fp := s[..k], if k < |s| then s[k + 1..] else [];
    assert AllDigits(ip);
    DotsAtMostOneSplit(s, k);
    if '.' in fp || (ip == [] && fp == []) then
      assert ip == [] && fp == [] ==> |s| <= 1;
      None
    else
      assert AllDigits(fp);
      assert ip != [] ==> IsDigit(s[0]);
      assert ip == [] ==> IsDigit(s[k + 1]);
      Some(DigitsValue(ip) as real + DigitsValue(fp) as real / Pow10(|fp|) as real)
  }

  predicate DotsAtMostOne(s: string) {
    forall i, j :: 0 <= i < j < |s| && s[i] == '.' ==> s[j] != '.'
  }

  lemma DotsAtMostOneSplit(s: string, k: nat)
    requires k <= |s| && '.' !in s[..k] && (k < |s| ==> s[k] == '.')
    ensures DotsAtMostOne(s) <==> (k < |s| ==> '.' !in s[k + 1..])
  {
    if k < |s| && '.' in s[k + 1..] {
      var j :| k + 1 <= j < |s| && s[j] == '.';
      assert s[j - k - 1 + k + 1] == s[j];
    }
    if k < |s| && '.' !in s[k + 1..] {
      forall i | 0 <= i < k ensures s[i] != '.' {
        assert s[..k][i] == s[i];
      }
      forall i, j | 0 <= i < j < |s| && s[i] == '.' ensures s[j] != '.' {
        assert s[k + 1..][j - k - 1] == s[j];
      }
    }
    if k == |s| {
      assert s[..k] == s;
    }
  }

  // ---------------------------------------------------------------------------
  // The edge table
  // ---------------------------------------------------------------------------

  /** Storing the node on the child side of an edge: a slot may be filled only
      once. The table is a map from edge number to node, every slot not yet
      filled being absent. */
  function RecordEdge(edges: map<nat, NodeId>, index: nat, child: NodeId): (r: Result<map<nat, NodeId>, ParseError>)
    ensures r.Err? <==> index in edges
    ensures r.Err? ==> r.error == DuplicateEdge(index)
    ensures r.Ok? ==> r.value.Keys == edges.Keys + {index} && r.value[index] == child
                      && forall e <- edges :: r.value[e] == edges[e]
  {
    if index in edges then Err(DuplicateEdge(index)) else Ok(edges[index := child])
  }

  /** The same store as the source writes it: the table is a list that starts
      empty and is never extended, and `edge_indices[edge_index]` on a list
      too short for the index raises IndexError. */
  function RecordEdgeAsWritten(edges: seq<Option<NodeId>>, index: nat, child: NodeId): (r: Result<seq<Option<NodeId>>, ParseError>)
    ensures r.Err? <==> index >= |edges| || edges[index].Some?
    ensures index >= |edges| ==> r == Err(ListIndexError)
    ensures r.Ok? ==> r.value == edges[index := Some(child)]
  {
    if index >= |edges| then Err(ListIndexError)
    else if edges[index].Some? then Err(DuplicateEdge(index))
    else Ok(edges[index := Some(child)])
  }

  /** As written, the very first edge annotation of any tree fails: the list
      starts empty and nothing appends to it, so every jplace tree with an
      edge number is rejected. */
  lemma FirstEdgeFailsAsWritten(index: nat, child: NodeId)
    ensures RecordEdgeAsWritten([], index, child) == Err(ListIndexError)
    ensures RecordEdge(map[], index, child) == Ok(map[index := child])
  {
  }

  // ---------------------------------------------------------------------------
  // The stack parser
  // ---------------------------------------------------------------------------

  datatype ParseError =
    | UnescapedWhitespace     // raised by the tokenizer
    | Unbalanced              // `)` with fewer than two stack entries
    | UnnestedChildren        // `)` whose exposed parent already has children
    | MissingEdgeLabel(token: string)
    | BadLength(token: string)
    | DuplicateEdge(index: nat)
    | StackExhausted          // `tree_stack[-1]` on an emptied stack (IndexError)
    | ListIndexError          // the as-written edge list (IndexError)
    | Unparseable             // the stream ended, or `;` left more than the root

  datatype Frame = Frame(node: NodeId, depth: int)

  /** The parser's variables: the node arena, `tree_stack`, `current_depth`,
      `last_token`, `next_is_distance` and the edge table. */
  datatype PState = PState(
    nodes: seq<Node>,
    stack: seq<Frame>,
    depth: int,
    lastToken: string,
    nextIsDistance: bool,
    edges: map<nat, NodeId>)

  /** The parsed tree: the arena, the root's index and the edge table. */
  datatype Parsed = Parsed(nodes: seq<Node>, root: NodeId, edges: map<nat, NodeId>)

  datatype PStep = Next(st: PState) | Done(tree: Parsed) | Failed(error: ParseError)

  const StartState := PState([Blank], [Frame(0, 0)], 0, "", false, map[])

  /** Every frame's node is in the arena, and only the bottom frame holds the
      root. */
  predicate StackIn(stack: seq<Frame>, size: nat) {
    forall k :: 0 <= k < |stack| ==> stack[k].node < size && (k == 0 || stack[k].node != 0)
  }

  predicate EdgesIn(edges: map<nat, NodeId>, size: nat) {
    forall e <- edges :: edges[e] < size
  }

  /** What the parser keeps true between tokens: the root is node 0 at the
      bottom of the stack and has no parent, and every index in the stack,
      the edge table and the arena points into the arena. */
  predicate ValidState(st: PState) {
    && |st.nodes| >= 1 && Indexed(st.nodes)
    && st.nodes[0].parent.None?
    && st.stack != [] && st.stack[0] == Frame(0, 0)
    && StackIn(st.stack, |st.nodes|)
    && EdgesIn(st.edges, |st.nodes|)
  }

  predicate ValidParsed(t: Parsed) {
    && t.root == 0 && t.root < |t.nodes| && Indexed(t.nodes)
    && t.nodes[t.root].parent.None?
    && EdgesIn(t.edges, |t.nodes|)
  }

  /** `last_token in '(,):'` is substring membership, so the empty token and
      runs such as `(,` count as structural too. */
  predicate InStructuralRun(t: string) {
    t in {"", "(", ",", ")", ":", "(,", ",)", "):", "(,)", ",):", "(,):"}
  }

  /** Pops every frame at `depth` off the top of the stack; the popped nodes
      in the order they were pushed. None when the stack runs out. */
  function PopDepth(stack: seq<Frame>, depth: int): (r: Option<(seq<Frame>, seq<NodeId>)>)
    ensures r.Some? ==> var rest, popped := r.value.0, r.value.1;
              && |rest| + |popped| == |stack| && rest == stack[..|rest|]
              && rest != [] && rest[|rest| - 1].depth != depth
              && forall k :: 0 <= k < |popped| ==> stack[|rest| + k] == Frame(popped[k], depth)
    ensures r.None? <==> forall f <- stack :: f.depth == depth
  {
    if stack == [] then None
    else if stack[|stack| - 1].depth != depth then Some((stack, []))
    else
      var below := PopDepth(stack[..|stack| - 1], depth);
      if below.None? then None
      else Some((below.value.0, below.value.1 + [stack[|stack| - 1].node]))
  }

  /** The popped nodes and the frames left are nodes of the arena. */
  lemma PoppedInArena(stack: seq<Frame>, depth: int, size: nat)
    requires StackIn(stack, size) && PopDepth(stack, depth).Some?
    ensures StackIn(PopDepth(stack, depth).value.0, size)
    ensures forall k :: 0 <= k < |PopDepth(stack, depth).value.1| ==> 0 < PopDepth(stack, depth).value.1[k] < size
    ensures forall c <- PopDepth(stack, depth).value.1 :: 0 < c < size
  {
    var rest, popped := PopDepth(stack, depth).value.0, PopDepth(stack, depth).value.1;
    forall k | 0 <= k < |popped| ensures 0 < popped[k] < size {
      assert stack[|rest| + k].node == popped[k];
    }
    forall k | 0 <= k < |rest| ensures rest[k].node < size && (k == 0 || rest[k].node != 0) {
      assert rest[k] == stack[k];
    }
  }

  /** Setting parents inside the arena keeps every reference inside it. */
  lemma SetParentsIndexed(nodes: seq<Node>, children: seq<NodeId>, parent: NodeId)
    requires Indexed(nodes) && parent < |nodes|
    requires forall k :: 0 <= k < |children| ==> children[k] < |nodes|
    ensures Indexed(SetParents(nodes, children, parent))
  {
    var r := SetParents(nodes, children, parent);
    forall j | 0 <= j < |r| ensures NodeIndexed(r[j], |r|) {
      assert NodeIndexed(nodes[j], |nodes|);
    }
  }

  /** Naming the node on top of the stack from the previous token, as the
      first lines of the loop body do. */
  function ApplyLabel(st: PState): (r: PState)
    requires ValidState(st)
    ensures ValidState(r) && r.stack == st.stack && r.depth == st.depth && r.edges == st.edges
    ensures |r.nodes| == |st.nodes| && r.lastToken == st.lastToken
    // A structural run names nothing.
    ensures InStructuralRun(st.lastToken) ==> r == st
    // A token after `:` is a distance: only the pending flag is cleared.
    ensures !InStructuralRun(st.lastToken) && st.nextIsDistance ==> r == st.(nextIsDistance := false)
    // Any other token names the node on top of the stack, and only that.
    ensures !InStructuralRun(st.lastToken) && !st.nextIsDistance ==>
              var top := st.stack[|st.stack| - 1].node;
              && top < |st.nodes| && !r.nextIsDistance
              && r.nodes[top] == st.nodes[top].(name := Some(st.lastToken))
              && forall i :: 0 <= i < |st.nodes| && i != top ==> r.nodes[i] == st.nodes[i]
  {
    if InStructuralRun(st.lastToken) then st
    else if st.nextIsDistance then st.(nextIsDistance := false)
    else
      var top := st.stack[|st.stack| - 1].node;
      var name := if st.lastToken == "" then None else Some(st.lastToken);
      var nodes := st.nodes[top := st.nodes[top].(name := name)];
      IndexedUpdate(st.nodes, top, nodes[top]);
      st.(nodes := nodes)
  }

  lemma IndexedUpdate(nodes: seq<Node>, i: nat, n: Node)
    requires Indexed(nodes) && i < |nodes| && NodeIndexed(n, |nodes|)
    ensures Indexed(nodes[i := n])
  {
    var r := nodes[i := n];
    forall j | 0 <= j < |r| ensures NodeIndexed(r[j], |r|) {
      if j != i { assert r[j] == nodes[j]; }
    }
  }

  lemma IndexedAppendBlank(nodes: seq<Node>)
    requires Indexed(nodes)
    ensures Indexed(nodes + [Blank])
  {
    var r := nodes + [Blank];
    forall j | 0 <= j < |r| ensures NodeIndexed(r[j], |r|) {
      if j < |nodes| {
        assert r[j] == nodes[j] && NodeIndexed(nodes[j], |nodes|);
      }
    }
  }

  /** The token after `:`: the top node's length and its edge number. */
  function EdgeStep(st: PState, token: string): (r: PStep)
    requires ValidState(st)
    ensures !r.Done?
  {
    var child := st.stack[|st.stack| - 1].node;
    var m := MatchEdge(token);
    if m.None? then Failed(MissingEdgeLabel(token))
    else
      var num, idx := m.value.0, m.value.1;
      var len := ParseFloat(num);
      if len.None? then Failed(BadLength(token))
      else
        var recorded := RecordEdge(st.edges, DigitsValue(idx), child);
        if recorded.Err? then Failed(recorded.error)
        else Next(Annotated(st, child, len, recorded.value, token))
  }

  /** The state after an edge annotation: the child's length is set and the
      edge table replaced. */
  function Annotated(st: PState, child: NodeId, len: Option<real>, edges: map<nat, NodeId>, token: string): PState
    requires child < |st.nodes|
  {
    st.(nodes := st.nodes[child := st.nodes[child].(length := len)], edges := edges, lastToken := token)
  }

  /** `)`: the frames at the current depth become, in the order they were
      pushed, the children of the node exposed beneath them. */
  function CloseStep(st: PState): (r: PStep)
    requires ValidState(st)
    ensures !r.Done?
  {
    if |st.stack| < 2 then Failed(Unbalanced)
    else
      var popped := PopDepth(st.stack, st.depth);
      if popped.None? then Failed(StackExhausted)
      else
        PoppedInArena(st.stack, st.depth, |st.nodes|);
        Attach(st, popped.value.0, popped.value.1)
  }

  /** The popped frames go under the node on top of what is left, which
      must not have children yet. */
  function Attach(st: PState, rest: seq<Frame>, children: seq<NodeId>): (r: PStep)
    requires rest != [] && rest[|rest| - 1].node < |st.nodes|
    requires forall k :: 0 <= k < |children| ==> children[k] < |st.nodes|
    ensures !r.Done?
  {
    var parent := rest[|rest| - 1].node;
    if st.nodes[parent].children != [] then Failed(UnnestedChildren)
    else
      Next(st.(nodes := Adopt(st.nodes, children, parent),
               stack := rest, depth := st.depth - 1, lastToken := ")"))
  }

  /** Every popped node gets `parent` as its parent, and `parent` gets them
      as its children. */
  function Adopt(nodes: seq<Node>, children: seq<NodeId>, parent: NodeId): seq<Node>
    requires forall k :: 0 <= k < |children| ==> children[k] < |nodes|
    requires parent < |nodes|
  {
    var linked := SetParents(nodes, children, parent);
    linked[parent := linked[parent].(children := children)]
  }

  /** One iteration of the parser's loop. */
  function ParseStep(st: PState, token: string): (r: PStep)
    requires ValidState(st)
  {
    var s1 := ApplyLabel(st);
    if token == ":" then Next(s1.(nextIsDistance := true, lastToken := token))
    else if st.lastToken == ":" then EdgeStep(s1, token)
    else if token == "(" then
      Next(s1.(nodes := s1.nodes + [Blank], stack := s1.stack + [Frame(|s1.nodes|, s1.depth + 1)],
               depth := s1.depth + 1, lastToken := token))
    else if token == "," then
      Next(s1.(nodes := s1.nodes + [Blank], stack := s1.stack + [Frame(|s1.nodes|, s1.depth)],
               lastToken := token))
    else if token == ")" then CloseStep(s1)
    else if token == ";" then
      if |s1.stack| == 1 then Done(Parsed(s1.nodes, 0, s1.edges)) else Failed(Unparseable)
    else Next(s1.(lastToken := token))
  }

  /** Every step keeps the parser's invariant, and a finished tree is rooted
      at node 0 with its edge table pointing into the arena. */
  lemma ParseStepValid(st: PState, token: string)
    requires ValidState(st)
    ensures var r := ParseStep(st, token);
            && (r.Next? ==> ValidState(r.st))
            && (r.Done? ==> ValidParsed(r.tree))
  {
    var s1 := ApplyLabel(st);
    if token == ":" {
      assert ParseStep(st, token) == Next(s1.(nextIsDistance := true, lastToken := token));
    } else if st.lastToken == ":" {
      assert ParseStep(st, token) == EdgeStep(s1, token);
      EdgeStepValid(s1, token);
    } else if token == "(" {
      PushValid(s1, s1.depth + 1, token);
    } else if token == "," {
      PushValid(s1, s1.depth, token);
    } else if token == ")" {
      assert ParseStep(st, token) == CloseStep(s1);
      if CloseStep(s1).Next? { CloseStepValid(s1); }
    } else if token == ";" {
      assert |s1.stack| == 1 ==> ParseStep(st, token) == Done(Parsed(s1.nodes, 0, s1.edges));
    } else {
      assert ParseStep(st, token) == Next(s1.(lastToken := token));
    }
  }

  lemma EdgeStepValid(st: PState, token: string)
    requires ValidState(st)
    ensures EdgeStep(st, token).Next? ==> ValidState(EdgeStep(st, token).st)
  {
    var r := EdgeStep(st, token);
    if r.Next? {
      var child := st.stack[|st.stack| - 1].node;
      var m := MatchEdge(token).value;
      var len := ParseFloat(m.0);
      var recorded := RecordEdge(st.edges, DigitsValue(m.1), child);
      assert r.st == Annotated(st, child, len, recorded.value, token);
      RecordEdgeIn(st.edges, DigitsValue(m.1), child, |st.nodes|);
      AnnotatedValid(st, child, len, recorded.value, token);
    }
  }

  lemma AnnotatedValid(st: PState, child: NodeId, len: Option<real>, edges: map<nat, NodeId>, token: string)
    requires ValidState(st) && child < |st.nodes| && EdgesIn(edges, |st.nodes|)
    ensures ValidState(Annotated(st, child, len, edges, token))
  {
    IndexedUpdate(st.nodes, child, st.nodes[child].(length := len));
  }

  /** Storing an in-arena node keeps the edge table in the arena. */
  lemma RecordEdgeIn(edges: map<nat, NodeId>, index: nat, child: NodeId, size: nat)
    requires EdgesIn(edges, size) && child < size
    ensures RecordEdge(edges, index, child).Ok? ==> EdgesIn(RecordEdge(edges, index, child).value, size)
  {
  }

  /** `(` and `,` push a fresh node, so the arena and the stack grow together. */
  lemma PushValid(st: PState, depth: int, token: string)
    requires ValidState(st)
    ensures ValidState(st.(nodes := st.nodes + [Blank], stack := st.stack + [Frame(|st.nodes|, depth)],
                           depth := depth, lastToken := token))
  {
    IndexedAppendBlank(st.nodes);
    var stack := st.stack + [Frame(|st.nodes|, depth)];
    forall k | 0 <= k < |stack| ensures stack[k].node < |st.nodes| + 1 && (k == 0 || stack[k].node != 0) {
      if k < |st.stack| { assert stack[k] == st.stack[k]; }
    }
    forall e <- st.edges ensures st.edges[e] < |st.nodes| + 1 {
    }
  }

  lemma CloseStepValid(st: PState)
    requires ValidState(st) && CloseStep(st).Next?
    ensures ValidState(CloseStep(st).st)
  {
    var popped := PopDepth(st.stack, st.depth).value;
    PoppedInArena(st.stack, st.depth, |st.nodes|);
    assert CloseStep(st) == Attach(st, popped.0, popped.1);
    assert popped.0[0] == st.stack[0];
    AttachValid(st, popped.0, popped.1);
  }

  lemma AttachValid(st: PState, rest: seq<Frame>, children: seq<NodeId>)
    requires ValidState(st) && rest != [] && rest[0] == Frame(0, 0) && StackIn(rest, |st.nodes|)
    requires forall k :: 0 <= k < |children| ==> 0 < children[k] < |st.nodes|
    requires Attach(st, rest, children).Next?
    ensures ValidState(Attach(st, rest, children).st)
  {
    var parent := rest[|rest| - 1].node;
    AdoptValid(st.nodes, children, parent);
    var r := Attach(st, rest, children).st;
    assert r.nodes == Adopt(st.nodes, children, parent) && r.stack == rest && r.edges == st.edges;
  }

  /** Adopting keeps the arena indexed and leaves the root alone. */
  lemma AdoptValid(nodes: seq<Node>, children: seq<NodeId>, parent: NodeId)
    requires Indexed(nodes) && |nodes| >= 1 && nodes[0].parent.None? && parent < |nodes|
    requires forall k :: 0 <= k < |children| ==> 0 < children[k] < |nodes|
    ensures var r := Adopt(nodes, children, parent);
            |r| == |nodes| && Indexed(r) && r[0].parent.None?
  {
    var linked := SetParents(nodes, children, parent);
    SetParentsIndexed(nodes, children, parent);
    IndexedUpdate(linked, parent, linked[parent].(children := children));
    assert 0 !in children;
    assert linked[0] == nodes[0];
  }

  /** Feeds the tokens to the parser. When they run out without `;` having
      finished the tree, the stream either stopped at a tokenizer error or
      simply ended. */
  function RunParse(st: PState, tokens: seq<string>, tokenizerFailed: bool): (r: Result<Parsed, ParseError>)
    requires ValidState(st)
    ensures r.Ok? ==> ValidParsed(r.value)
    decreases |tokens|
  {
    if tokens == [] then Err(if tokenizerFailed then UnescapedWhitespace else Unparseable)
    else
      ParseStepValid(st, tokens[0]);
      match ParseStep(st, tokens[0])
      case Next(st') => RunParse(st', tokens[1..], tokenizerFailed)
      case Done(t) => Ok(t)
      case Failed(e) => Err(e)
  }

  /** One step of `RunParse` at position `i`, spelled out. */
  lemma UnfoldRunParse(st: PState, tokens: seq<string>, i: nat, tokenizerFailed: bool)
    requires ValidState(st) && i < |tokens|
    ensures var step := ParseStep(st, tokens[i]);
            && (step.Next? ==> ValidState(step.st))
            && (step.Next? ==> RunParse(step.st, tokens[i + 1..], tokenizerFailed) == RunParse(st, tokens[i..], tokenizerFailed))
            && (step.Done? ==> RunParse(st, tokens[i..], tokenizerFailed) == Ok(step.tree))
            && (step.Failed? ==> RunParse(st, tokens[i..], tokenizerFailed) == Err(step.error))
  {
    assert tokens[i..][0] == tokens[i] && tokens[i..][1..] == tokens[i + 1..];
    ParseStepValid(st, tokens[i]);
  }

  /** `_jplace_tree_to_tree_node` with `convert_underscores` left at its
      default. */
  function ParseJPlaceTree(text: string): (r: Result<Parsed, ParseError>)
    ensures r.Ok? ==> ValidParsed(r.value)
  {
    var toks := NewickTokenizer.Tokenize(text, true);
    RunParse(StartState, toks.tokens, toks.failed)
  }

  /** The parser as the source runs it: a loop over the tokens that pushes and
      pops the stack and writes the nodes and the edge table in place. */
  method JPlaceTreeToTreeNode(text: string) returns (r: Result<Parsed, ParseError>)
    ensures r == ParseJPlaceTree(text)
    ensures r.Ok? ==> ValidParsed(r.value)
  {
    var tokens, tokenizerFailed := NewickTokenizer.TokenizeNewick(text, true);
    r := ParseTokens(tokens, tokenizerFailed);
  }

  /** The loop over the tokens. */
  method ParseTokens(tokens: seq<string>, tokenizerFailed: bool) returns (r: Result<Parsed, ParseError>)
    ensures r == RunParse(StartState, tokens, tokenizerFailed)
  {
    ghost var whole := RunParse(StartState, tokens, tokenizerFailed);
    var st := StartState;
    var i := 0;
    assert tokens[0..] == tokens;
    while i < |tokens|
      invariant 0 <= i <= |tokens| && ValidState(st)
      invariant RunParse(st, tokens[i..], tokenizerFailed) == whole
    {
      UnfoldRunParse(st, tokens, i, tokenizerFailed);
      var step := ConsumeToken(st, tokens[i]);
      match step
      case Done(t) => return Ok(t);
      case Failed(e) => return Err(e);
      case Next(st') => st := st';
      i := i + 1;
    }
    r := Err(if tokenizerFailed then UnescapedWhitespace else Unparseable);
  }

  /** The body of the parser's loop for one token. */
  method ConsumeToken(st: PState, token: string) returns (r: PStep)
    requires ValidState(st)
    ensures r == ParseStep(st, token)
  {
    var s1 := LabelTop(st);
    if token == ":" {
      r := Next(s1.(nextIsDistance := true, lastToken := token));
    } else if st.lastToken == ":" {
      r := ReadEdge(s1, token);
    } else if token == "(" {
      var depth := s1.depth + 1;
      r := Next(s1.(nodes := s1.nodes + [Blank], stack := s1.stack + [Frame(|s1.nodes|, depth)],
                    depth := depth, lastToken := token));
    } else if token == "," {
      r := Next(s1.(nodes := s1.nodes + [Blank], stack := s1.stack + [Frame(|s1.nodes|, s1.depth)],
                    lastToken := token));
    } else if token == ")" {
      r := CloseChildren(s1);
    } else if token == ";" {
      if |s1.stack| == 1 {
        return Done(Parsed(s1.nodes, 0, s1.edges));
      }
      r := Failed(Unparseable);
    } else {
      r := Next(s1.(lastToken := token));
    }
  }

  /** Names the top node after the previous token, unless that token was
      structural or a branch length. */
  method LabelTop(st: PState) returns (r: PState)
    requires ValidState(st)
    ensures r == ApplyLabel(st)
  {
    r := st;
    if !InStructuralRun(st.lastToken) {
      if !st.nextIsDistance {
        var top := st.stack[|st.stack| - 1].node;
        var nodes := st.nodes;
        nodes := nodes[top := nodes[top].(name := if st.lastToken == "" then None else Some(st.lastToken))];
        r := st.(nodes := nodes);
      } else {
        r := st.(nextIsDistance := false);
      }
    }
  }

  /** The edge annotation after `:`. */
  method ReadEdge(st: PState, token: string) returns (r: PStep)
    requires ValidState(st)
    ensures r == EdgeStep(st, token)
  {
    var nodes, edges := st.nodes, st.edges;
    var child := st.stack[|st.stack| - 1].node;
    var er := MatchEdge(token);
    if er.None? {
      return Failed(MissingEdgeLabel(token));
    }
    var num, idx := er.value.0, er.value.1;
    var len := ParseFloat(num);
    if len.None? {
      return Failed(BadLength(token));
    }
    nodes := nodes[child := nodes[child].(length := len)];
    var recorded := RecordEdge(edges, DigitsValue(idx), child);
    if recorded.Err? {
      return Failed(recorded.error);
    }
    edges := recorded.value;
    r := Next(st.(nodes := nodes, edges := edges, lastToken := token));
  }

  /** `)`: pops the frames of the current depth and links them under the
      node beneath. */
  method CloseChildren(st: PState) returns (r: PStep)
    requires ValidState(st)
    ensures r == CloseStep(st)
  {
    if |st.stack| < 2 {
      return Failed(Unbalanced);
    }
    ghost var popped := PopDepth(st.stack, st.depth);
    var stack, children := PopFrames(st.stack, st.depth);
    if stack == [] {
      return Failed(StackExhausted);
    }
    assert popped.value.0 == stack && popped.value.1 == children;
    PoppedInArena(st.stack, st.depth, |st.nodes|);
    r := AttachChildren(st, stack, children);
  }

  /** The parent check and the linking under `)`. */
  method AttachChildren(st: PState, rest: seq<Frame>, children: seq<NodeId>) returns (r: PStep)
    requires rest != [] && rest[|rest| - 1].node < |st.nodes|
    requires forall k :: 0 <= k < |children| ==> children[k] < |st.nodes|
    ensures r == Attach(st, rest, children)
  {
    var parent := rest[|rest| - 1].node;
    if st.nodes[parent].children != [] {
      return Failed(UnnestedChildren);
    }
    var nodes := AdoptChildren(st.nodes, children, parent);
    r := Next(st.(nodes := nodes, stack := rest, depth := st.depth - 1, lastToken := ")"));
  }

  /** Links the popped nodes under `parent`, in place. */
  method AdoptChildren(nodes0: seq<Node>, children: seq<NodeId>, parent: NodeId) returns (nodes: seq<Node>)
    requires forall k :: 0 <= k < |children| ==> children[k] < |nodes0|
    requires parent < |nodes0|
    ensures nodes == Adopt(nodes0, children, parent)
  {
    nodes := LinkParents(nodes0, children, parent);
    nodes := nodes[parent := nodes[parent].(children := children)];
  }

  /** The `while` loop under `)`: pops frames while their depth is `depth`. An
      emptied stack stands for the popped-out case. */
  method PopFrames(stack0: seq<Frame>, depth: int) returns (stack: seq<Frame>, children: seq<NodeId>)
    ensures stack == [] <==> PopDepth(stack0, depth).None?
    ensures stack != [] ==> PopDepth(stack0, depth) == Some((stack, children))
  {
    stack, children := stack0, [];
    if PopDepth(stack, depth).Some? { AppendEmpty(PopDepth(stack, depth).value.1); }
    while stack != [] && depth == stack[|stack| - 1].depth
      invariant PopDepth(stack, depth).None? <==> PopDepth(stack0, depth).None?
      invariant PopDepth(stack, depth).Some? ==>
        PopDepth(stack0, depth).value == (PopDepth(stack, depth).value.0, PopDepth(stack, depth).value.1 + children)
      decreases |stack|
    {
      var top := stack[|stack| - 1].node;
      ghost var below := PopDepth(stack[..|stack| - 1], depth);
      if below.Some? {
        AppendAssoc(below.value.1, [top], children);
      }
      children := [top] + children;
      stack := stack[..|stack| - 1];
    }
    if stack != [] {
      AppendEmpty(children);
    }
  }

  // ---------------------------------------------------------------------------
  // Properties of the parser
  // ---------------------------------------------------------------------------

  /** The token after `:` must be `<digits and dots>{<digits>}` whose first
      part parses as a number. Then the top-of-stack node gets that length
      and is stored under that edge number, and a second use of the number
      is an error rather than an overwrite. */
  lemma EdgeAnnotation(st: PState, token: string)
    requires ValidState(st) && st.lastToken == ":" && token != ":"
    ensures var r := ParseStep(st, token);
            var child := st.stack[|st.stack| - 1].node;
            var m := MatchEdge(token);
            if m.None? then r == Failed(MissingEdgeLabel(token))
            else
              var num, idx := m.value.0, m.value.1;
              if ParseFloat(num).None? then r == Failed(BadLength(token))
              else if DigitsValue(idx) in st.edges then r == Failed(DuplicateEdge(DigitsValue(idx)))
              else && r.Next?
                   && r.st.nodes == st.nodes[child := st.nodes[child].(length := ParseFloat(num))]
                   && r.st.edges == st.edges[DigitsValue(idx) := child]
                   && r.st.stack == st.stack
  {
    assert ApplyLabel(st) == st;
    assert ParseStep(st, token) == EdgeStep(st, token);
  }

  /** `)` fails when fewer than two frames are stacked, or when the exposed
      parent already has children. Otherwise the frames at the current depth
      become that parent's children in the order they were pushed, each
      child's parent is set to it, and the depth drops by one. */
  lemma CloseParen(st: PState)
    requires ValidState(st) && st.lastToken != ":"
    ensures var r := ParseStep(st, ")");
            var nodes := ApplyLabel(st).nodes;
            if |st.stack| < 2 then r == Failed(Unbalanced)
            else match PopDepth(st.stack, st.depth)
              case None => r == Failed(StackExhausted)
              case Some(popped) =>
                var rest, children := popped.0, popped.1;
                var parent := rest[|rest| - 1].node;
                if nodes[parent].children != [] then r == Failed(UnnestedChildren)
                else
                  && r.Next? && r.st.stack == rest && r.st.depth == st.depth - 1
                  && |r.st.nodes| == |nodes|
                  && r.st.nodes[parent].children == children
                  && (forall c <- children :: r.st.nodes[c].parent == Some(parent))
                  && forall i | 0 <= i < |nodes| && i != parent && i !in children :: r.st.nodes[i] == nodes[i]
  {
    assert ParseStep(st, ")") == CloseStep(ApplyLabel(st));
    CloseStepShape(ApplyLabel(st));
  }

  lemma CloseStepShape(st: PState)
    requires ValidState(st)
    ensures var r := CloseStep(st);
            if |st.stack| < 2 then r == Failed(Unbalanced)
            else match PopDepth(st.stack, st.depth)
              case None => r == Failed(StackExhausted)
              case Some(popped) =>
                var rest, children := popped.0, popped.1;
                var parent := rest[|rest| - 1].node;
                if st.nodes[parent].children != [] then r == Failed(UnnestedChildren)
                else
                  && r.Next? && r.st.stack == rest && r.st.depth == st.depth - 1
                  && |r.st.nodes| == |st.nodes|
                  && r.st.nodes[parent].children == children
                  && (forall c <- children :: r.st.nodes[c].parent == Some(parent))
                  && forall i | 0 <= i < |st.nodes| && i != parent && i !in children :: r.st.nodes[i] == st.nodes[i]
  {
    if |st.stack| >= 2 && PopDepth(st.stack, st.depth).Some? {
      var popped := PopDepth(st.stack, st.depth).value;
      PoppedInArena(st.stack, st.depth, |st.nodes|);
      var parent := popped.0[|popped.0| - 1].node;
      assert CloseStep(st) == Attach(st, popped.0, popped.1);
      AdoptShape(st.nodes, popped.1, parent);
    }
  }

  /** After adopting, the parent lists the children, each child points to
      the parent, and every other node is as it was. */
  lemma AdoptShape(nodes: seq<Node>, children: seq<NodeId>, parent: NodeId)
    requires forall k :: 0 <= k < |children| ==> children[k] < |nodes|
    requires parent < |nodes|
    ensures var r := Adopt(nodes, children, parent);
            && |r| == |nodes|
            && r[parent].children == children
            && (forall c <- children :: r[c].parent == Some(parent))
            && forall i | 0 <= i < |nodes| && i != parent && i !in children :: r[i] == nodes[i]
  {
  }

  /** `;` finishes the tree exactly when the stack holds the root alone; every
      other way of ending is an error. */
  lemma Semicolon(st: PState)
    requires ValidState(st) && st.lastToken != ":"
    ensures var r := ParseStep(st, ";");
            && (r.Done? <==> |st.stack| == 1)
            && (r.Done? ==> r.tree.root == 0 && r.tree.edges == st.edges)
            && (!r.Done? ==> r == Failed(Unparseable))
  {
  }

  /** Tokens running out before `;` is always an error. */
  lemma EndWithoutSemicolon(st: PState, failed: bool)
    requires ValidState(st)
    ensures RunParse(st, [], failed).Err?
  {
  }

  // ---------------------------------------------------------------------------
  // The parsed tree and its edge lookup
  // ---------------------------------------------------------------------------

  /** A parsed jplace tree: the arena with its root and the edge table. */
  datatype JPlaceTree = JPlaceTree(tree: Parsed)

  /** `JPlaceTree(newickish_string)`. */
  function NewJPlaceTree(text: string): (r: Result<JPlaceTree, ParseError>)
    ensures r.Ok? ==> ValidParsed(r.value.tree)
  {
    match ParseJPlaceTree(text)
    case Ok(t) => Ok(JPlaceTree(t))
    case Err(e) => Err(e)
  }

  /** `child_node`: the node on the leaf side of an edge, when the edge has
      been numbered. */
  function ChildNode(t: JPlaceTree, edgeIndex: nat): (r: Option<NodeId>)
    requires ValidParsed(t.tree)
    ensures r.Some? <==> edgeIndex in t.tree.edges
    ensures r.Some? ==> r.value < |t.tree.nodes| && r.value == t.tree.edges[edgeIndex]
  {
    if edgeIndex in t.tree.edges then Some(t.tree.edges[edgeIndex]) else None
  }

  datatype LookupError = AttributeError

  /** `child_node` as written: it reads `self.edge_indices`, but the
      constructor stored the table as `self._edge_indices`, so the lookup
      raises AttributeError whatever the edge. */
  function ChildNodeAsWritten(t: JPlaceTree, edgeIndex: nat): (r: Result<NodeId, LookupError>)
    ensures r.Err?
  {
    Err(AttributeError)
  }

  /** For every numbered edge the intended lookup finds the child-side node,
      while the lookup as written fails. */
  lemma ChildNodeDiscrepancy(t: JPlaceTree, edgeIndex: nat)
    requires ValidParsed(t.tree) && edgeIndex in t.tree.edges
    ensures ChildNodeAsWritten(t, edgeIndex).Err?
    ensures ChildNode(t, edgeIndex) == Some(t.tree.edges[edgeIndex])
  {
  }
}
