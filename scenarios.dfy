/**
 * Worked examples, proved: the build-and-reduce pipeline on small formulas
 * over the variables A and B.
 */
module Scenarios {
  import opened Wrappers
  import opened Formula
  import opened Diagram
  import opened TreeBuilder
  import opened Reduction
  import opened Equivalence

  const T0: BDD := Terminal(0)
  const T1: BDD := Terminal(1)

  /** (A & B) | (A & ~B), which is A. */
  const Absorbed: Expr := Or(And(Var("A"), Var("B")), And(Var("A"), Not(Var("B"))))

  /** A & B. */
  const Both: Expr := And(Var("A"), Var("B"))

  /** The two formulas under A = x, B = y, bound in either order. */
  lemma EvalAB(x: int, y: int)
    ensures Eval(Absorbed, map["A" := x]["B" := y]) == Ok(x != 0)
    ensures Eval(Both, map["A" := x]["B" := y]) == Ok(x != 0 && y != 0)
    ensures Eval(Both, map["B" := y]["A" := x]) == Ok(x != 0 && y != 0)
  {
    var env, env' := map["A" := x]["B" := y], map["B" := y]["A" := x];
    assert Eval(Var("A"), env) == Ok(x != 0) && Eval(Var("B"), env) == Ok(y != 0);
    assert Eval(Var("A"), env') == Ok(x != 0) && Eval(Var("B"), env') == Ok(y != 0);
    assert Eval(And(Var("A"), Var("B")), env) == Ok(x != 0 && y != 0);
    assert Eval(And(Var("A"), Not(Var("B"))), env) == Ok(x != 0 && y == 0);
  }

  /**
   * Sharing: (A & B) | (A & ~B) under the order A B reduces to the single
   * test of A over the two terminals, the diagram of A alone under A.
   */
  lemma SharingExample()
    ensures BuildBdd(Absorbed, ["A", "B"], map[]).Ok?
    ensures ReduceTree(BuildBdd(Absorbed, ["A", "B"], map[]).value) == Decision("A", T0, T1)
    ensures BuildBdd(Var("A"), ["A"], map[]) == Ok(Decision("A", T0, T1))
    ensures |Subtrees(Decision("A", T0, T1))| == 3
  {
    EvalAB(0, 0);
    EvalAB(0, 1);
    EvalAB(1, 0);
    EvalAB(1, 1);
    var vars := ["A", "B"];
    assert vars[1..] == ["B"] && ["B"][1..] == [] && ["A"][1..] == [];
    assert map[]["A" := 0] == map["A" := 0] && map[]["A" := 1] == map["A" := 1];
    assert BuildBdd(Absorbed, ["B"], map["A" := 0]) == Ok(Decision("B", T0, T0));
    assert BuildBdd(Absorbed, ["B"], map["A" := 1]) == Ok(Decision("B", T1, T1));
    assert Eval(Var("A"), map["A" := 0]) == Ok(false) && Eval(Var("A"), map["A" := 1]) == Ok(true);
    assert T0 != T1;
  }

  /** A test of x over the 0 terminal and a test of y over both terminals: four distinct nodes. */
  lemma ChainSize(x: string, y: string)
    ensures |Subtrees(Decision(x, T0, Decision(y, T0, T1)))| == 4
  {
    var inner := Decision(y, T0, T1);
    var outer := Decision(x, T0, inner);
    assert Subtrees(T0) == {T0} && Subtrees(T1) == {T1};
    assert Subtrees(inner) == {inner, T0, T1};
    assert Subtrees(outer) == {outer, T0, inner, T1};
    assert T0 != T1 && T0 != inner && T0 != outer && T1 != inner && T1 != outer && inner != outer;
  }

  /**
   * A & B under either order of its two variables reduces to four nodes: a
   * test of the first variable whose low child is the 0 terminal and whose
   * high child tests the second variable over both terminals.
   */
  lemma ConjunctionExample(p: string, q: string)
    requires (p == "A" && q == "B") || (p == "B" && q == "A")
    ensures BuildBdd(Both, [p, q], map[]).Ok?
    ensures ReduceTree(BuildBdd(Both, [p, q], map[]).value) == Decision(p, T0, Decision(q, T0, T1))
    ensures |Subtrees(Decision(p, T0, Decision(q, T0, T1)))| == 4
  {
    EvalAB(0, 0);
    EvalAB(0, 1);
    EvalAB(1, 0);
    EvalAB(1, 1);
    assert [p, q][1..] == [q] && [q][1..] == [];
    assert map[][p := 0] == map[p := 0] && map[][p := 1] == map[p := 1];
    assert BuildBdd(Both, [q], map[p := 0]) == Ok(Decision(q, T0, T0));
    assert BuildBdd(Both, [q], map[p := 1]) == Ok(Decision(q, T0, T1));
    assert T0 != T1 && T0 != Decision(q, T0, T1);
    ChainSize(p, q);
  }

  /** A constant formula with the empty order is a single terminal, already reduced. */
  lemma ConstantExample()
    ensures BuildBdd(Const(true), [], map[]) == Ok(T1)
    ensures ReduceTree(T1) == T1
  {
  }

  /**
   * An order that leaves out a variable of the formula makes the build fail
   * on that variable: A & B under the order A fails on B.
   */
  lemma MissingVariableExample()
    ensures BuildBdd(Both, ["A"], map[]) == Err(UnboundVariable("B"))
  {
    assert ["A"][1..] == [];
    assert map[]["A" := 0] == map["A" := 0] && map[]["A" := 1] == map["A" := 1];
    assert Eval(Var("A"), map["A" := 1]) == Ok(true);
    assert Eval(Var("B"), map["A" := 1]) == Err(UnboundVariable("B"));
    assert Eval(Var("A"), map["A" := 0]) == Ok(false);
  }

  /**
   * Each formula may be built under its own order. A & B under A B and under
   * B A gives diagrams of one shape over different labels: compare_nodes
   * accepts them, which is right here, while comparing the labels as well
   * rejects the same formula built twice.
   */
  lemma DifferentOrdersExample()
    ensures var r1 := ReduceTree(BuildBdd(Both, ["A", "B"], map[]).value);
            var r2 := ReduceTree(BuildBdd(Both, ["B", "A"], map[]).value);
            CompareNodes(Some(r1), Some(r2)) && !CompareLabelled(Some(r1), Some(r2))
  {
    ConjunctionExample("A", "B");
    ConjunctionExample("B", "A");
  }
}
