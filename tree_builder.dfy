/**
 * BDDBuilder.build_bdd: the full binary decision tree of a formula over an
 * ordered list of variables. Each branch extends its own copy of the
 * assignment with one binding; the formula is evaluated at the leaves. An
 * evaluation error at any leaf aborts the whole build (the low branch is
 * built, and can fail, first).
 */
module TreeBuilder {
  import opened Wrappers
  import opened Formula
  import opened Diagram

  /**
   * The full tree: complete over vars, so 2^|vars| leaves and every node at
   * depth i on vars[i], with 0/1 leaves.
   */
  function BuildBdd(f: Expr, vars: seq<string>, a: Assignment): (r: Result<BDD, EvalError>)
    ensures r.Ok? ==> Complete(r.value, vars) && BitLeaves(r.value)
    decreases |vars|
  {
    if vars == [] then
      match Eval(f, a)
      case Ok(b) => Ok(Terminal(Bit(b)))
      case Err(e) => Err(e)
    else
      var v := vars[0];
      match BuildBdd(f, vars[1..], a[v := 0])
      case Err(e) => Err(e)
      case Ok(low) =>
        match BuildBdd(f, vars[1..], a[v := 1])
        case Err(e) => Err(e)
        case Ok(high) => Ok(Decision(v, low, high))
  }

  /**
   * With an empty order the build is a single terminal holding the 0/1 value
   * of the formula under the accumulated assignment, or the evaluation error.
   */
  lemma BuildBddBase(f: Expr, a: Assignment)
    ensures Eval(f, a).Ok? ==> BuildBdd(f, [], a) == Ok(Terminal(Bit(Eval(f, a).value)))
    ensures Eval(f, a).Err? ==> BuildBdd(f, [], a) == Err(Eval(f, a).error)
  {
  }

  /** The built tree has exactly 2^n leaves for n = |vars|. */
  lemma BuildBddLeafCount(f: Expr, vars: seq<string>, a: Assignment)
    requires BuildBdd(f, vars, a).Ok?
    ensures LeafCount(BuildBdd(f, vars, a).value) == Pow2(|vars|)
  {
    CompleteLeafCount(BuildBdd(f, vars, a).value, vars);
  }

  /**
   * The leaf at the end of a 0/1 path is the formula's value under the
   * assignment that binds vars[i] to path[i]; that evaluation succeeds.
   */
  lemma {:induction false} BuildBddLeaf(f: Expr, vars: seq<string>, a: Assignment, path: seq<int>)
    requires BuildBdd(f, vars, a).Ok?
    requires IsBits(path) && |path| == |vars|
    ensures Eval(f, Extend(a, vars, path)).Ok?
    ensures SubtreeAt(BuildBdd(f, vars, a).value, path) == Some(Terminal(Bit(Eval(f, Extend(a, vars, path)).value)))
    decreases |vars|
  {
    if vars != [] {
      var t := BuildBdd(f, vars, a).value;
      var a' := a[vars[0] := path[0]];
      assert IsBits(path[1..]) by {
        forall i | 0 <= i < |path[1..]| ensures path[1..][i] == 0 || path[1..][i] == 1 {
          assert path[1..][i] == path[i + 1];
        }
      }
      assert BuildBdd(f, vars[1..], a').Ok? && (if path[0] == 0 then t.low else t.high) == BuildBdd(f, vars[1..], a').value;
      BuildBddLeaf(f, vars[1..], a', path[1..]);
    }
  }

  /**
   * The build succeeds whenever the accumulated assignment and the order
   * together bind every free variable of the formula.
   */
  lemma {:induction false} BuildBddSucceeds(f: Expr, vars: seq<string>, a: Assignment)
    requires forall x | x in FreeVars(f) :: x in a || x in vars
    ensures BuildBdd(f, vars, a).Ok?
    decreases |vars|
  {
    if vars != [] {
      forall x | x in FreeVars(f) ensures x in a || x == vars[0] || x in vars[1..] {
        if x !in a && x != vars[0] {
          var i :| 0 <= i < |vars| && vars[i] == x;
          assert vars[1..][i - 1] == x;
        }
      }
      BuildBddSucceeds(f, vars[1..], a[vars[0] := 0]);
      BuildBddSucceeds(f, vars[1..], a[vars[0] := 1]);
    }
  }

  /** A build that fails reports a free variable that neither the assignment nor the order binds. */
  lemma {:induction false} BuildBddFails(f: Expr, vars: seq<string>, a: Assignment)
    requires BuildBdd(f, vars, a).Err?
    ensures BuildBdd(f, vars, a).error.name in FreeVars(f)
    ensures BuildBdd(f, vars, a).error.name !in a && BuildBdd(f, vars, a).error.name !in vars
    decreases |vars|
  {
    if vars != [] {
      var a0, a1 := a[vars[0] := 0], a[vars[0] := 1];
      var name := BuildBdd(f, vars, a).error.name;
      if BuildBdd(f, vars[1..], a0).Err? {
        BuildBddFails(f, vars[1..], a0);
      } else {
        BuildBddFails(f, vars[1..], a1);
      }
      assert name != vars[0];
      assert name !in vars[1..];
    }
  }
}
