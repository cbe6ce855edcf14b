/** The filter tree and the size check it must pass before anything recurses over it. */
module FilterAst {

  datatype Operator =
    | Eq | Neq | Lt | Lte | Gt | Gte
    | In | NotIn
    | Contains
    | IsEmpty | IsNotEmpty

  datatype FilterValue = Null | Str(text: string) | Num(number: real) | Bool(flag: bool)

  /** Absent for the nullary operators, a list for the list operators. */
  datatype Operand = Missing | Scalar(value: FilterValue) | ListOf(values: seq<FilterValue>)

  datatype Combinator = And | Or

  datatype Node =
    | Comparison(field: string, operator: Operator, operand: Operand)
    | Group(combinator: Combinator, children: seq<Node>)
    | Not(child: Node)

  const MAX_DEPTH := 12
  const MAX_NODES := 200

  /** How many nodes a tree has. */
  ghost function NodeCount(node: Node): (n: nat)
    ensures n >= 1
    decreases node, 0
  {
    match node
    case Comparison(_, _, _) => 1
    case Group(_, children) => 1 + TotalCount(children)
    case Not(child) => 1 + NodeCount(child)
  }

  ghost function TotalCount(nodes: seq<Node>): nat
    decreases nodes, 1
  {
    if nodes == [] then 0 else NodeCount(nodes[0]) + TotalCount(nodes[1..])
  }

  ghost function Max(a: nat, b: nat): nat {
    if a > b then a else b
  }

  /** How many levels a tree has. */
  ghost function Depth(node: Node): (d: nat)
    ensures d >= 1
    decreases node, 0
  {
    match node
    case Comparison(_, _, _) => 1
    case Group(_, children) => 1 + MaxDepth(children)
    case Not(child) => 1 + Depth(child)
  }

  ghost function MaxDepth(nodes: seq<Node>): nat
    decreases nodes, 1
  {
    if nodes == [] then 0 else Max(Depth(nodes[0]), MaxDepth(nodes[1..]))
  }

  datatype Pending = Pending(node: Node, level: nat)

  /** Nodes still reachable from a stack. */
  ghost function StackCount(stack: seq<Pending>): nat {
    if stack == [] then 0 else StackCount(stack[..|stack| - 1]) + NodeCount(stack[|stack| - 1].node)
  }

  /** The deepest level reachable from a stack. */
  ghost function StackDepth(stack: seq<Pending>): nat {
    if stack == [] then 0
    else Max(StackDepth(stack[..|stack| - 1]), stack[|stack| - 1].level + Depth(stack[|stack| - 1].node) - 1)
  }

  lemma Pushed(stack: seq<Pending>, p: Pending)
    ensures StackCount(stack + [p]) == StackCount(stack) + NodeCount(p.node)
    ensures StackDepth(stack + [p]) == Max(StackDepth(stack), p.level + Depth(p.node) - 1)
  {
  }

  lemma {:induction false} PrefixOfChildren(nodes: seq<Node>, i: nat)
    requires i < |nodes|
    ensures TotalCount(nodes[..i + 1]) == TotalCount(nodes[..i]) + NodeCount(nodes[i])
    ensures MaxDepth(nodes[..i + 1]) == Max(MaxDepth(nodes[..i]), Depth(nodes[i]))
  {
    if i > 0 {
      PrefixOfChildren(nodes[1..], i - 1);
      assert nodes[..i + 1][1..] == nodes[1..][..i] && nodes[..i][1..] == nodes[1..][..i - 1];
    } else {
      assert nodes[..1] == [nodes[0]] && nodes[..1][1..] == [];
    }
  }

  lemma Popped(stack: seq<Pending>)
    requires stack != []
    ensures var top, rest := stack[|stack| - 1], stack[..|stack| - 1];
            && StackCount(stack) == StackCount(rest) + NodeCount(top.node)
            && StackDepth(stack) == Max(StackDepth(rest), top.level + Depth(top.node) - 1)
  {
  }

  /** Pushes every child one level down. */
  method PushChildren(pending: seq<Pending>, children: seq<Node>, level: nat) returns (stack: seq<Pending>)
    ensures StackCount(stack) == StackCount(pending) + TotalCount(children)
    ensures StackDepth(stack) == Max(StackDepth(pending), if children == [] then 0 else level + MaxDepth(children))
  {
    stack := pending;
    for i := 0 to |children|
      invariant StackCount(stack) == StackCount(pending) + TotalCount(children[..i])
      invariant StackDepth(stack) == Max(StackDepth(pending), if i == 0 then 0 else level + MaxDepth(children[..i]))
    {
      hide StackCount, StackDepth, Depth, NodeCount;
      PrefixOfChildren(children, i);
      Pushed(stack, Pending(children[i], level + 1));
      stack := stack + [Pending(children[i], level + 1)];
    }
    assert children[..|children|] == children;
  }

  /**
   * The early-exit walk with an explicit stack accepts exactly the trees within both limits, and
   * then reports their true size, although it may stop before visiting everything.
   */
  method Measure(root: Node) returns (nodes: nat, depth: nat)
    ensures (nodes <= MAX_NODES && depth <= MAX_DEPTH) <==> (NodeCount(root) <= MAX_NODES && Depth(root) <= MAX_DEPTH)
    ensures nodes <= MAX_NODES && depth <= MAX_DEPTH ==> nodes == NodeCount(root) && depth == Depth(root)
    ensures nodes <= NodeCount(root) && depth <= Depth(root)
  {
    nodes, depth := 0, 0;
    var stack := [Pending(root, 1)];
    Pushed([], Pending(root, 1));
    assert [] + [Pending(root, 1)] == stack;
    while stack != []
      invariant nodes + StackCount(stack) == NodeCount(root)
      invariant Max(depth, StackDepth(stack)) == Depth(root)
      invariant nodes <= MAX_NODES && depth <= MAX_DEPTH
      decreases StackCount(stack)
    {
      hide StackCount, StackDepth, TotalCount, MaxDepth;
      Popped(stack);
      var current := stack[|stack| - 1];
      stack := stack[..|stack| - 1];
      nodes := nodes + 1;
      if current.level > depth {
        depth := current.level;
      }
      if nodes > MAX_NODES || depth > MAX_DEPTH {
        break;
      }
      match current.node {
        case Group(_, children) =>
          stack := PushChildren(stack, children, current.level);
        case Not(child) =>
          Pushed(stack, Pending(child, current.level + 1));
          stack := stack + [Pending(child, current.level + 1)];
        case Comparison(_, _, _) =>
      }
    }
  }
}
