/**
 * The equivalence check of BDDGUI.check_equivalence: reset the cache and
 * reduce the first tree, reset it again and reduce the second, then compare
 * the two reduced diagrams with the nested compare_nodes.
 *
 * compare_nodes never looks at the variable a decision node tests, so two
 * diagrams of the same shape and leaves compare equal whatever they test
 * (LabelBlindFalsePositive). CompareLabelled also compares the variables;
 * for diagrams built under one duplicate-free order it decides exactly
 * whether the two formulas have the same truth table
 * (EquivalentIffSameTruthTable).
 */
module Equivalence {
  import opened Wrappers
  import opened Formula
  import opened Diagram
  import opened TreeBuilder
  import opened Reduction
  import opened UniqueTable

  /** A node's low field: a terminal's is None. */
  function LowOf(n: BDD): Option<BDD>
  {
    if n.Decision? then Some(n.low) else None
  }

  /** A node's high field: a terminal's is None. */
  function HighOf(n: BDD): Option<BDD>
  {
    if n.Decision? then Some(n.high) else None
  }

  /** A node's var field: a terminal's is None. */
  function VarOf(n: BDD): Option<string>
  {
    if n.Decision? then Some(n.variable) else None
  }

  function TreeSize(t: BDD): nat
  {
    match t
    case Terminal(_) => 1
    case Decision(_, l, h) => 1 + TreeSize(l) + TreeSize(h)
  }

  function Size(a: Option<BDD>): nat
  {
    if a.Some? then TreeSize(a.value) else 0
  }

  /** The diagram with every variable label replaced by the same empty name. */
  function Erase(a: Option<BDD>): Option<BDD>
    decreases Size(a)
  {
    match a
    case None => None
    case Some(Terminal(v)) => Some(Terminal(v))
    case Some(Decision(_, l, h)) => Some(Decision("", Erase(Some(l)).value, Erase(Some(h)).value))
  }

  /**
   * compare_nodes as written: true exactly when the two diagrams are equal
   * once their variable labels are erased, i.e. same shape and same leaves.
   */
  function CompareNodes(a: Option<BDD>, b: Option<BDD>): (r: bool)
    ensures r <==> Erase(a) == Erase(b)
    decreases Size(a) + Size(b)
  {
    match (a, b)
    case (None, None) => true
    case (None, _) => false
    case (_, None) => false
    case (Some(n1), Some(n2)) =>
      if n1.Terminal? && n2.Terminal? then n1.value == n2.value
      else CompareNodes(LowOf(n1), LowOf(n2)) && CompareNodes(HighOf(n1), HighOf(n2))
  }

  /**
   * compare_nodes with the variables compared as well: true exactly when the
   * two diagrams are structurally equal.
   */
  function CompareLabelled(a: Option<BDD>, b: Option<BDD>): (r: bool)
    ensures r <==> a == b
    decreases Size(a) + Size(b)
  {
    match (a, b)
    case (None, None) => true
    case (None, _) => false
    case (_, None) => false
    case (Some(n1), Some(n2)) =>
      if n1.Terminal? && n2.Terminal? then n1.value == n2.value
      else VarOf(n1) == VarOf(n2) && CompareLabelled(LowOf(n1), LowOf(n2)) && CompareLabelled(HighOf(n1), HighOf(n2))
  }

  /**
   * The comparator's laws: both absent compare equal, exactly one absent
   * compare unequal, terminals compare by value, a terminal never equals a
   * decision node, the relation is reflexive and symmetric, and relabelling
   * a diagram's variables never changes the verdict; the labelled comparator
   * only ever says yes where the label-blind one does.
   */
  lemma CompareNodesLaws(a: Option<BDD>, b: Option<BDD>, a': Option<BDD>)
    ensures CompareNodes(None, None) && (a.Some? ==> !CompareNodes(a, None) && !CompareNodes(None, a))
    ensures a.Some? && b.Some? && a.value.Terminal? && b.value.Terminal? ==>
              CompareNodes(a, b) == (a.value.value == b.value.value)
    ensures a.Some? && b.Some? && a.value.Terminal? && b.value.Decision? ==> !CompareNodes(a, b)
    ensures CompareNodes(a, a) && CompareNodes(a, b) == CompareNodes(b, a)
    ensures Erase(a') == Erase(a) ==> CompareNodes(a', b) == CompareNodes(a, b)
    ensures CompareLabelled(a, b) ==> CompareNodes(a, b)
  {
  }

  /** The two formulas agree on every 0/1 assignment of the order's variables. */
  ghost predicate SameTruthTable(f1: Expr, f2: Expr, vars: seq<string>)
  {
    forall p | IsBits(p) && |p| == |vars| :: Eval(f1, Extend(map[], vars, p)) == Eval(f2, Extend(map[], vars, p))
  }

  /** Reading back the bits of an assignment built from them gives those bits. */
  lemma {:induction false} BitsOfAt(env: Assignment, vars: seq<string>, i: nat)
    requires i < |vars|
    ensures BitsOf(env, vars)[i] == Bit(Holds(env, vars[i]))
    decreases i
  {
    if i > 0 {
      BitsOfAt(env, vars[1..], i - 1);
    }
  }

  lemma BitsOfExtend(vars: seq<string>, p: seq<int>)
    requires NoDup(vars) && IsBits(p) && |p| == |vars|
    ensures BitsOf(Extend(map[], vars, p), vars) == p
  {
    var env := Extend(map[], vars, p);
    ExtendBinds(map[], vars, p);
    forall i | 0 <= i < |vars| ensures BitsOf(env, vars)[i] == p[i] {
      BitsOfAt(env, vars, i);
    }
  }

  /**
   * The master property, for the corrected comparator: two formulas built
   * under the same duplicate-free order have reduced diagrams that compare
   * equal exactly when the formulas agree on all 2^n assignments.
   */
  lemma {:induction false} EquivalentIffSameTruthTable(f1: Expr, f2: Expr, vars: seq<string>, t1: BDD, t2: BDD)
    requires NoDup(vars)
    requires BuildBdd(f1, vars, map[]) == Ok(t1) && BuildBdd(f2, vars, map[]) == Ok(t2)
    ensures CompareLabelled(Some(ReduceTree(t1)), Some(ReduceTree(t2))) <==> SameTruthTable(f1, f2, vars)
  {
    CompleteOrdered(t1, vars);
    CompleteOrdered(t2, vars);
    ReduceCanonical(t1, t2, vars);
    if SameTruthTable(f1, f2, vars) {
      forall env ensures Follow(t1, env) == Follow(t2, env) {
        var p := BitsOf(env, vars);
        FollowComplete(t1, vars, env);
        FollowComplete(t2, vars, env);
        BuildBddLeaf(f1, vars, map[], p);
        BuildBddLeaf(f2, vars, map[], p);
      }
    } else {
      var p :| IsBits(p) && |p| == |vars| && Eval(f1, Extend(map[], vars, p)) != Eval(f2, Extend(map[], vars, p));
      var env := Extend(map[], vars, p);
      BitsOfExtend(vars, p);
      FollowComplete(t1, vars, env);
      FollowComplete(t2, vars, env);
      BuildBddLeaf(f1, vars, map[], p);
      BuildBddLeaf(f2, vars, map[], p);
      assert Follow(t1, env) != Follow(t2, env);
    }
  }

  /**
   * compare_nodes never misses an equivalence: formulas with the same truth
   * table under one duplicate-free order have reduced diagrams it accepts.
   */
  lemma CompareNodesAcceptsEquivalent(f1: Expr, f2: Expr, vars: seq<string>, t1: BDD, t2: BDD)
    requires NoDup(vars)
    requires BuildBdd(f1, vars, map[]) == Ok(t1) && BuildBdd(f2, vars, map[]) == Ok(t2)
    requires SameTruthTable(f1, f2, vars)
    ensures CompareNodes(Some(ReduceTree(t1)), Some(ReduceTree(t2)))
  {
    EquivalentIffSameTruthTable(f1, f2, vars, t1, t2);
  }

  /** The two formulas of LabelBlindFalsePositive under A = x, B = y. */
  lemma CounterexampleEval(x: int, y: int)
    ensures Eval(And(Var("A"), Or(Var("B"), Not(Var("B")))), map["A" := x]["B" := y]) == Ok(x != 0)
    ensures Eval(And(Var("B"), Or(Var("A"), Not(Var("A")))), map["A" := x]["B" := y]) == Ok(y != 0)
  {
    var env := map["A" := x]["B" := y];
    assert Eval(Var("A"), env) == Ok(x != 0);
    assert Eval(Var("B"), env) == Ok(y != 0);
    assert Eval(Or(Var("B"), Not(Var("B"))), env) == Ok(true);
    assert Eval(Or(Var("A"), Not(Var("A"))), env) == Ok(true);
  }

  /**
   * compare_nodes as written accepts inequivalent formulas: "A & (B | ~B)"
   * and "B & (A | ~A)" under the order A B reduce to a test of A and a test
   * of B over the same two leaves, yet A = 1, B = 0 tells them apart.
   */
  lemma LabelBlindFalsePositive()
    ensures var vars := ["A", "B"];
            var f1 := And(Var("A"), Or(Var("B"), Not(Var("B"))));
            var f2 := And(Var("B"), Or(Var("A"), Not(Var("A"))));
            BuildBdd(f1, vars, map[]).Ok? && BuildBdd(f2, vars, map[]).Ok? &&
            CompareNodes(Some(ReduceTree(BuildBdd(f1, vars, map[]).value)),
                         Some(ReduceTree(BuildBdd(f2, vars, map[]).value))) &&
            !SameTruthTable(f1, f2, vars)
  {
    var vars := ["A", "B"];
    var f1 := And(Var("A"), Or(Var("B"), Not(Var("B"))));
    var f2 := And(Var("B"), Or(Var("A"), Not(Var("A"))));
    var t0, t1 := Terminal(0), Terminal(1);
    var a0, a1 := map["A" := 0], map["A" := 1];
    assert map[]["A" := 0] == a0 && map[]["A" := 1] == a1;
    assert ["B"][1..] == [];
    CounterexampleEval(0, 0);
    CounterexampleEval(0, 1);
    CounterexampleEval(1, 0);
    CounterexampleEval(1, 1);
    assert BuildBdd(f1, ["B"], a0) == Ok(Decision("B", t0, t0));
    assert BuildBdd(f1, ["B"], a1) == Ok(Decision("B", t1, t1));
    assert BuildBdd(f2, ["B"], a0) == Ok(Decision("B", t0, t1));
    assert BuildBdd(f2, ["B"], a1) == Ok(Decision("B", t0, t1));
    assert vars[1..] == ["B"];
    assert BuildBdd(f1, vars, map[]) == Ok(Decision("A", Decision("B", t0, t0), Decision("B", t1, t1)));
    assert BuildBdd(f2, vars, map[]) == Ok(Decision("A", Decision("B", t0, t1), Decision("B", t0, t1)));
    assert ReduceTree(Decision("A", Decision("B", t0, t0), Decision("B", t1, t1))) == Decision("A", t0, t1);
    assert ReduceTree(Decision("A", Decision("B", t0, t1), Decision("B", t0, t1))) == Decision("B", t0, t1);
    var p := [1, 0];
    assert IsBits(p);
    assert Extend(map[], vars, p) == map["A" := 1, "B" := 0];
    assert Eval(f1, Extend(map[], vars, p)) != Eval(f2, Extend(map[], vars, p));
  }

  /** The verdict of the "Check Equivalence" action. */
  datatype Verdict = BuildFirst | Compared(equivalent: bool)

  /**
   * check_equivalence: without both full trees it asks for them to be built
   * and touches nothing. Otherwise it resets the cache and reduces the first
   * tree, resets it again and reduces the second, and shows the verdict of
   * compare_nodes on the two reduced diagrams. Each reduction starts from an
   * empty cache, so the arena grows by exactly one node per distinct
   * subdiagram of each result, and the cache ends up holding only the
   * second diagram's nodes.
   */
  method CheckEquivalence(b: Builder, bdd1: Option<BDD>, bdd2: Option<BDD>) returns (v: Verdict)
    requires b.Valid()
    modifies b
    ensures b.Valid() && old(b.heap) <= b.heap
    ensures bdd1.None? || bdd2.None? ==> v == BuildFirst && b.heap == old(b.heap) && b.cache == old(b.cache)
    ensures bdd1.Some? && bdd2.Some? ==>
              v == Compared(CompareNodes(Some(ReduceTree(bdd1.value)), Some(ReduceTree(bdd2.value))))
    ensures bdd1.Some? && bdd2.Some? ==>
              |b.heap| == |old(b.heap)| + |Subtrees(ReduceTree(bdd1.value))| + |Subtrees(ReduceTree(bdd2.value))| &&
              Denoted(b.heap, b.base) == Subtrees(ReduceTree(bdd2.value))
  {
    if bdd1.None? || bdd2.None? {
      return BuildFirst;
    }
    b.ResetCache();
    var r1 := b.BuildRobdd(bdd1);
    ghost var h1 := b.heap;
    b.ResetCache();
    var r2 := b.BuildRobdd(bdd2);
    UnfoldPrefix(h1, b.heap, r1.value);
    var same := CompareNodes(Some(Unfold(b.heap, r1.value)), Some(Unfold(b.heap, r2.value)));
    v := Compared(same);
  }
}
