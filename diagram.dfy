/**
 * Binary decision diagrams as values: a terminal holding a truth value, or a
 * decision node on a variable with a `low` child (variable = 0) and a `high`
 * child (variable = 1). Structural equality of these values is the equality
 * that BDDNode.__eq__ defines on nodes; `Terminal?` is BDDNode.is_terminal.
 */
module Diagram {
  import opened Wrappers
  import opened Formula

  datatype BDD =
    | Terminal(value: int)
    | Decision(variable: string, low: BDD, high: BDD)

  /** The value the diagram yields when every variable is read from env (missing means 0). */
  function Follow(t: BDD, env: Assignment): int
  {
    match t
    case Terminal(v) => v
    case Decision(x, l, h) => if Holds(env, x) then Follow(h, env) else Follow(l, env)
  }

  /** The subtree reached by taking, at each step, low for a 0 and high for anything else. */
  function SubtreeAt(t: BDD, path: seq<int>): Option<BDD>
    decreases |path|
  {
    if path == [] then Some(t)
    else match t
      case Terminal(_) => None
      case Decision(_, l, h) => SubtreeAt(if path[0] == 0 then l else h, path[1..])
  }

  /** The variables that the decision nodes of t branch on. */
  function Labels(t: BDD): set<string>
  {
    match t
    case Terminal(_) => {}
    case Decision(x, l, h) => {x} + Labels(l) + Labels(h)
  }

  /** All distinct subdiagrams of t, t included. */
  function Subtrees(t: BDD): set<BDD>
  {
    match t
    case Terminal(_) => {t}
    case Decision(_, l, h) => {t} + Subtrees(l) + Subtrees(h)
  }

  /** Every terminal of t holds 0 or 1. */
  predicate BitLeaves(t: BDD)
  {
    match t
    case Terminal(v) => v == 0 || v == 1
    case Decision(_, l, h) => BitLeaves(l) && BitLeaves(h)
  }

  function LeafCount(t: BDD): nat
  {
    match t
    case Terminal(_) => 1
    case Decision(_, l, h) => LeafCount(l) + LeafCount(h)
  }

  function Pow2(n: nat): nat
  {
    if n == 0 then 1 else 2 * Pow2(n - 1)
  }

  /**
   * The full decision tree shape over an order: depth |vars|, and every
   * decision node at depth i tests vars[i].
   */
  predicate Complete(t: BDD, vars: seq<string>)
    decreases |vars|
  {
    if vars == [] then t.Terminal?
    else t.Decision? && t.variable == vars[0] && Complete(t.low, vars[1..]) && Complete(t.high, vars[1..])
  }

  /**
   * Every root-to-leaf path of t tests its variables as a subsequence of vars.
   * A variable is matched against the first remaining position of the order
   * that carries it.
   */
  predicate Ordered(t: BDD, vars: seq<string>)
    decreases |vars|
  {
    match t
    case Terminal(_) => true
    case Decision(x, l, h) =>
      |vars| > 0 &&
      if vars[0] == x then Ordered(l, vars[1..]) && Ordered(h, vars[1..])
      else Ordered(t, vars[1..])
  }

  /** No decision node of t has two equal children. */
  predicate NoRedundant(t: BDD)
  {
    match t
    case Terminal(_) => true
    case Decision(_, l, h) => l != h && NoRedundant(l) && NoRedundant(h)
  }

  /** The 0/1 path that env selects through a tree complete over vars. */
  function BitsOf(env: Assignment, vars: seq<string>): (bits: seq<int>)
    ensures |bits| == |vars| && IsBits(bits)
    decreases |vars|
  {
    if vars == [] then [] else [Bit(Holds(env, vars[0]))] + BitsOf(env, vars[1..])
  }

  /** A complete tree of depth n has 2^n leaves. */
  lemma {:induction false} CompleteLeafCount(t: BDD, vars: seq<string>)
    requires Complete(t, vars)
    ensures LeafCount(t) == Pow2(|vars|)
    decreases |vars|
  {
    if vars != [] {
      CompleteLeafCount(t.low, vars[1..]);
      CompleteLeafCount(t.high, vars[1..]);
    }
  }

  /**
   * In a tree complete over vars, every 0/1 path of length at most |vars|
   * exists; it stops at a decision node on vars[|path|] while it is shorter
   * than the order, and at a terminal once it is as long.
   */
  lemma {:induction false} CompleteShape(t: BDD, vars: seq<string>, path: seq<int>)
    requires Complete(t, vars) && IsBits(path) && |path| <= |vars|
    ensures SubtreeAt(t, path).Some?
    ensures |path| < |vars| ==> SubtreeAt(t, path).value.Decision? && SubtreeAt(t, path).value.variable == vars[|path|]
    ensures |path| == |vars| ==> SubtreeAt(t, path).value.Terminal?
    decreases |path|
  {
    if path != [] {
      CompleteShape(if path[0] == 0 then t.low else t.high, vars[1..], path[1..]);
    }
  }

  /** Following a complete tree under env ends at the leaf of the path env selects. */
  lemma {:induction false} FollowComplete(t: BDD, vars: seq<string>, env: Assignment)
    requires Complete(t, vars)
    ensures SubtreeAt(t, BitsOf(env, vars)) == Some(Terminal(Follow(t, env)))
    decreases |vars|
  {
    if vars != [] {
      var bits := BitsOf(env, vars);
      assert bits[1..] == BitsOf(env, vars[1..]);
      FollowComplete(if Holds(env, vars[0]) then t.high else t.low, vars[1..], env);
    }
  }

  /** A complete tree is ordered by the same order. */
  lemma {:induction false} CompleteOrdered(t: BDD, vars: seq<string>)
    requires Complete(t, vars)
    ensures Ordered(t, vars)
    decreases |vars|
  {
    if vars != [] {
      CompleteOrdered(t.low, vars[1..]);
      CompleteOrdered(t.high, vars[1..]);
    }
  }

  /** An ordered diagram tests only variables of its order. */
  lemma {:induction false} OrderedLabels(t: BDD, vars: seq<string>)
    requires Ordered(t, vars)
    ensures forall y | y in Labels(t) :: y in vars
    decreases |vars|, t
  {
    match t
    case Terminal(_) =>
    case Decision(x, l, h) =>
      if vars[0] == x {
        OrderedLabels(l, vars[1..]);
        OrderedLabels(h, vars[1..]);
      } else {
        OrderedLabels(t, vars[1..]);
      }
  }

  /** Putting a variable in front of an order keeps a diagram ordered. */
  lemma {:induction false} OrderedWeaken(t: BDD, vars: seq<string>)
    requires |vars| > 0 && Ordered(t, vars[1..])
    ensures Ordered(t, vars)
    decreases |vars|, 1
  {
    match t
    case Terminal(_) =>
    case Decision(x, l, h) =>
      if vars[0] == x {
        OrderedChildren(t, vars[1..]);
      }
  }

  /** The children of an ordered decision node are ordered by the same order. */
  lemma {:induction false} OrderedChildren(t: BDD, vars: seq<string>)
    requires t.Decision? && Ordered(t, vars)
    ensures Ordered(t.low, vars) && Ordered(t.high, vars)
    decreases |vars|, 2
  {
    if vars[0] == t.variable {
      OrderedWeaken(t.low, vars);
      OrderedWeaken(t.high, vars);
    } else {
      OrderedChildren(t, vars[1..]);
      OrderedWeaken(t.low, vars);
      OrderedWeaken(t.high, vars);
    }
  }

  /** The value of a diagram does not depend on a variable it never tests. */
  lemma {:induction false} FollowIgnores(t: BDD, env: Assignment, y: string, b: int)
    requires y !in Labels(t)
    ensures Follow(t, env[y := b]) == Follow(t, env)
  {
    match t
    case Terminal(_) =>
    case Decision(x, l, h) =>
      FollowIgnores(l, env, y, b);
      FollowIgnores(h, env, y, b);
  }
}
