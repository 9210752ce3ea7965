/**
 * What BDDBuilder.build_robdd computes, stated on diagram values: children are
 * reduced first, a node whose reduced children are equal is replaced by that
 * child, and any other node is kept over its reduced children. Sharing of
 * equal nodes is invisible on values; the unique-table module realises it.
 */
module Reduction {
  import opened Formula
  import opened Diagram

  /** The reduced diagram: no redundant test remains and no new variable appears. */
  function ReduceTree(t: BDD): (r: BDD)
    ensures NoRedundant(r)
    ensures Labels(r) <= Labels(t)
  {
    match t
    case Terminal(_) => t
    case Decision(x, l, h) =>
      var l', h' := ReduceTree(l), ReduceTree(h);
      if l' == h' then l' else Decision(x, l', h')
  }

  /** Reduction preserves the Boolean function: every assignment yields the same value. */
  lemma {:induction false} ReducePreservesFollow(t: BDD, env: Assignment)
    ensures Follow(ReduceTree(t), env) == Follow(t, env)
  {
    match t
    case Terminal(_) =>
    case Decision(x, l, h) =>
      ReducePreservesFollow(l, env);
      ReducePreservesFollow(h, env);
  }

  /** Reduction keeps a diagram ordered by the order it was built with. */
  lemma {:induction false} ReducePreservesOrder(t: BDD, vars: seq<string>)
    requires Ordered(t, vars)
    ensures Ordered(ReduceTree(t), vars)
    decreases |vars|, t
  {
    match t
    case Terminal(_) =>
    case Decision(x, l, h) =>
      if vars[0] == x {
        ReducePreservesOrder(l, vars[1..]);
        ReducePreservesOrder(h, vars[1..]);
        if ReduceTree(l) == ReduceTree(h) {
          OrderedWeaken(ReduceTree(l), vars);
        }
      } else {
        ReducePreservesOrder(t, vars[1..]);
        OrderedWeaken(ReduceTree(t), vars);
      }
  }

  /** Reduction only drops terminals, so 0/1 leaves stay 0/1 leaves. */
  lemma {:induction false} ReducePreservesBitLeaves(t: BDD)
    requires BitLeaves(t)
    ensures BitLeaves(ReduceTree(t))
  {
    match t
    case Terminal(_) =>
    case Decision(x, l, h) =>
      ReducePreservesBitLeaves(l);
      ReducePreservesBitLeaves(h);
  }

  /** A diagram without redundant nodes is left unchanged. */
  lemma {:induction false} ReduceFixesReduced(t: BDD)
    requires NoRedundant(t)
    ensures ReduceTree(t) == t
  {
    match t
    case Terminal(_) =>
    case Decision(x, l, h) =>
      ReduceFixesReduced(l);
      ReduceFixesReduced(h);
  }

  /** Reducing twice is reducing once. */
  lemma ReduceIdempotent(t: BDD)
    ensures ReduceTree(ReduceTree(t)) == ReduceTree(t)
  {
    ReduceFixesReduced(ReduceTree(t));
  }

  /**
   * The root node as build_robdd leaves it: a terminal is untouched, and a
   * decision node has had its low and high fields overwritten with the reduced
   * children, even when it was then discarded as redundant.
   */
  function Overwritten(t: BDD): BDD
  {
    match t
    case Terminal(_) => t
    case Decision(x, l, h) => Decision(x, ReduceTree(l), ReduceTree(h))
  }

  /** Reducing the overwritten root again gives the same diagram as the first reduction. */
  lemma ReduceOverwritten(t: BDD)
    ensures ReduceTree(Overwritten(t)) == ReduceTree(t)
  {
    match t
    case Terminal(_) =>
    case Decision(x, l, h) =>
      ReduceIdempotent(l);
      ReduceIdempotent(h);
  }

  /** The part of t that remains once variable y is fixed to b at the root. */
  function Cofactor(t: BDD, y: string, b: bool): BDD
  {
    if t.Decision? && t.variable == y then (if b then t.high else t.low) else t
  }

  /**
   * In a reduced diagram ordered by vars, fixing the first variable leaves a
   * reduced diagram ordered by the rest of vars that computes the same values.
   */
  lemma CofactorFacts(t: BDD, vars: seq<string>, b: bool)
    requires NoDup(vars) && |vars| > 0
    requires Ordered(t, vars) && NoRedundant(t)
    ensures Ordered(Cofactor(t, vars[0], b), vars[1..]) && NoRedundant(Cofactor(t, vars[0], b))
    ensures forall env :: Follow(t, env[vars[0] := Bit(b)]) == Follow(Cofactor(t, vars[0], b), env)
  {
    var y, c := vars[0], Cofactor(t, vars[0], b);
    assert Ordered(c, vars[1..]);
    assert y !in vars[1..] by {
      forall j | 0 <= j < |vars[1..]| ensures vars[1..][j] != y {
        assert vars[1..][j] == vars[j + 1];
      }
    }
    OrderedLabels(c, vars[1..]);
    forall env ensures Follow(t, env[y := Bit(b)]) == Follow(c, env) {
      FollowIgnores(c, env, y, Bit(b));
    }
  }

  /**
   * Canonicity: two reduced diagrams ordered by the same duplicate-free order
   * that compute the same function are the same diagram.
   */
  lemma {:induction false} Canonical(t1: BDD, t2: BDD, vars: seq<string>)
    requires NoDup(vars)
    requires Ordered(t1, vars) && Ordered(t2, vars) && NoRedundant(t1) && NoRedundant(t2)
    requires forall env :: Follow(t1, env) == Follow(t2, env)
    ensures t1 == t2
    decreases |vars|
  {
    if vars == [] {
      assert Follow(t1, map[]) == Follow(t2, map[]);
    } else {
      var y, rest := vars[0], vars[1..];
      assert NoDup(rest) by {
        forall i, j | 0 <= i < j < |rest| ensures rest[i] != rest[j] {
          assert rest[i] == vars[i + 1] && rest[j] == vars[j + 1];
        }
      }
      CofactorFacts(t1, vars, false);
      CofactorFacts(t1, vars, true);
      CofactorFacts(t2, vars, false);
      CofactorFacts(t2, vars, true);
      forall b: bool ensures Cofactor(t1, y, b) == Cofactor(t2, y, b) {
        forall env ensures Follow(Cofactor(t1, y, b), env) == Follow(Cofactor(t2, y, b), env) {
          assert Follow(t1, env[y := Bit(b)]) == Follow(t2, env[y := Bit(b)]);
        }
        Canonical(Cofactor(t1, y, b), Cofactor(t2, y, b), rest);
      }
      var tests1 := t1.Decision? && t1.variable == y;
      var tests2 := t2.Decision? && t2.variable == y;
      if tests1 != tests2 {
        assert false;
      }
    }
  }

  /**
   * For diagrams ordered by the same duplicate-free order, the reduced
   * diagrams are equal exactly when the diagrams compute the same function.
   */
  lemma ReduceCanonical(t1: BDD, t2: BDD, vars: seq<string>)
    requires NoDup(vars) && Ordered(t1, vars) && Ordered(t2, vars)
    ensures ReduceTree(t1) == ReduceTree(t2) <==> forall env :: Follow(t1, env) == Follow(t2, env)
  {
    if forall env :: Follow(t1, env) == Follow(t2, env) {
      forall env ensures Follow(ReduceTree(t1), env) == Follow(ReduceTree(t2), env) {
        ReducePreservesFollow(t1, env);
        ReducePreservesFollow(t2, env);
      }
      ReducePreservesOrder(t1, vars);
      ReducePreservesOrder(t2, vars);
      Canonical(ReduceTree(t1), ReduceTree(t2), vars);
    } else {
      var env :| Follow(t1, env) != Follow(t2, env);
      ReducePreservesFollow(t1, env);
      ReducePreservesFollow(t2, env);
    }
  }
}
