/**
 * Boolean formulas and their evaluation under a 0/1 assignment of variables.
 *
 * The source evaluates a formula by substituting the digits into its text and
 * calling Python's eval; here the formula is already parsed into an abstract
 * syntax tree and evaluated directly. `and` and `or` keep Python's
 * short-circuit order, which decides whether an unbound variable on the right
 * of an operator raises an error.
 */
module Formula {
  import opened Wrappers

  /** A mapping from variable names to 0 or 1, as the builder accumulates it. */
  type Assignment = map<string, int>

  datatype Expr =
    | Const(b: bool)
    | Var(name: string)
    | Not(e: Expr)
    | And(left: Expr, right: Expr)
    | Or(left: Expr, right: Expr)

  /** The failure of an evaluation: a variable the assignment does not bind. */
  datatype EvalError = UnboundVariable(name: string)

  /** The variables a formula mentions. */
  function FreeVars(e: Expr): set<string>
  {
    match e
    case Const(_) => {}
    case Var(x) => {x}
    case Not(e1) => FreeVars(e1)
    case And(l, r) => FreeVars(l) + FreeVars(r)
    case Or(l, r) => FreeVars(l) + FreeVars(r)
  }

  /** Python truthiness of the value bound to x; an unbound variable reads as false. */
  predicate Holds(a: Assignment, x: string)
  {
    x in a && a[x] != 0
  }

  /**
   * Evaluates e under a. An evaluation only fails on a variable that is not
   * bound, and it cannot fail when every free variable is bound.
   */
  function Eval(e: Expr, a: Assignment): (r: Result<bool, EvalError>)
    ensures FreeVars(e) <= a.Keys ==> r.Ok?
    ensures r.Err? ==> r.error.name in FreeVars(e) && r.error.name !in a
  {
    match e
    case Const(b) => Ok(b)
    case Var(x) => if x in a then Ok(a[x] != 0) else Err(UnboundVariable(x))
    case Not(e1) =>
      (match Eval(e1, a)
       case Ok(b) => Ok(!b)
       case Err(err) => Err(err))
    case And(l, r) =>
      (match Eval(l, a)
       case Err(err) => Err(err)
       case Ok(b) => if !b then Ok(false) else Eval(r, a))
    case Or(l, r) =>
      (match Eval(l, a)
       case Err(err) => Err(err)
       case Ok(b) => if b then Ok(true) else Eval(r, a))
  }

  /** int(bool(...)): the 0/1 value a leaf stores. */
  function Bit(b: bool): (n: int)
    ensures n == 0 || n == 1
    ensures (n == 1) == b
  {
    if b then 1 else 0
  }

  /** The assignment reached after binding vars[i] to bits[i], one variable after another. */
  function Extend(a: Assignment, vars: seq<string>, bits: seq<int>): Assignment
    requires |bits| == |vars|
    decreases |vars|
  {
    if vars == [] then a else Extend(a[vars[0] := bits[0]], vars[1..], bits[1..])
  }

  /** Every entry of bits is 0 or 1. */
  predicate IsBits(bits: seq<int>)
  {
    forall i | 0 <= i < |bits| :: bits[i] == 0 || bits[i] == 1
  }

  /** No variable occurs twice in an order. */
  predicate NoDup(vars: seq<string>)
  {
    forall i, j | 0 <= i < j < |vars| :: vars[i] != vars[j]
  }

  /**
   * Extending binds every variable of the order, and without duplicates each
   * variable gets its own bit; other variables keep their old binding.
   */
  lemma {:induction false} ExtendBinds(a: Assignment, vars: seq<string>, bits: seq<int>)
    requires |bits| == |vars| && NoDup(vars)
    ensures forall i | 0 <= i < |vars| :: vars[i] in Extend(a, vars, bits) && Extend(a, vars, bits)[vars[i]] == bits[i]
    ensures forall x | x in a && x !in vars :: x in Extend(a, vars, bits) && Extend(a, vars, bits)[x] == a[x]
    decreases |vars|
  {
    if vars != [] {
      var a' := a[vars[0] := bits[0]];
      assert NoDup(vars[1..]) by {
        forall i, j | 0 <= i < j < |vars[1..]| ensures vars[1..][i] != vars[1..][j] {
          assert vars[1..][i] == vars[i + 1] && vars[1..][j] == vars[j + 1];
        }
      }
      ExtendBinds(a', vars[1..], bits[1..]);
      var e := Extend(a, vars, bits);
      assert e == Extend(a', vars[1..], bits[1..]);
      assert vars[0] !in vars[1..] by {
        forall j | 0 <= j < |vars[1..]| ensures vars[1..][j] != vars[0] {
          assert vars[1..][j] == vars[j + 1];
        }
      }
      forall i | 0 <= i < |vars| ensures vars[i] in e && e[vars[i]] == bits[i] {
        if i > 0 {
          assert vars[i] == vars[1..][i - 1];
        }
      }
      forall x | x in a && x !in vars ensures x in e && e[x] == a[x] {
        assert x != vars[0];
        assert x !in vars[1..];
      }
    }
  }
}
