/**
 The removal of operands common to two expressions, and the equality test
 built on it (`expr_eliminate_yn`, `__expr_eliminate_eq`, `expr_eliminate_eq`
 and `expr_eq` of `expr.c`).
 */
module Elimination {
  import opened Expressions
  import T = Tristates

  /** What an eliminated operand is replaced with: `y` under AND, `n` under OR. */
  function Unit(op: BinOp): Symbol {
    if op.AND? then ConstYes else ConstNo
  }

  /** The constant that decides the value of an AND or an OR. */
  function Zero(op: BinOp): Symbol {
    if op.AND? then ConstNo else ConstYes
  }

  predicate IsYesNo(e: Expr) {
    e == Sym(ConstYes) || e == Sym(ConstNo)
  }

  // ----- expr_eliminate_yn

  function EliminateYn(e: Expr): (r: Expr)
    ensures Size(r) <= Size(e)
  {
    if !e.Bin? then e
    else
      var l, r := EliminateYn(e.left), EliminateYn(e.right);
      if l == Sym(Zero(e.op)) then Sym(Zero(e.op))
      else if l == Sym(Unit(e.op)) then r
      else if r == Sym(Zero(e.op)) then Sym(Zero(e.op))
      else if r == Sym(Unit(e.op)) then l
      else Bin(e.op, l, r)
  }

  /** Some AND or OR, not below a negation, has `y` or `n` as an operand. */
  predicate HasYesNo(e: Expr) {
    e.Bin? && (IsYesNo(e.left) || IsYesNo(e.right) || HasYesNo(e.left) || HasYesNo(e.right))
  }

  lemma {:induction false} EliminateYnKeepsValue(e: Expr, env: Env)
    requires ConstsFixed(env)
    ensures Calc(EliminateYn(e), env) == Calc(e, env)
  {
    if e.Bin? {
      EliminateYnKeepsValue(e.left, env);
      EliminateYnKeepsValue(e.right, env);
    }
  }

  /** No constant operand survives, and each one found makes the expression smaller. */
  lemma {:induction false} EliminateYnRemovesConstants(e: Expr)
    ensures !HasYesNo(EliminateYn(e))
    ensures HasYesNo(e) ==> Size(EliminateYn(e)) < Size(e)
    ensures !HasYesNo(e) ==> EliminateYn(e) == e
  {
    if e.Bin? {
      EliminateYnRemovesConstants(e.left);
      EliminateYnRemovesConstants(e.right);
    }
  }

  // ----- __expr_eliminate_eq, expr_eliminate_eq, expr_eq

  /**
   `__expr_eliminate_eq`: every leaf of e1 (a node that is not an `op`) is
   compared with every leaf of e2, and two equal leaves both become the unit.
   */
  function EliminateLeaves(op: BinOp, e1: Expr, e2: Expr): (r: (Expr, Expr))
    ensures Size(r.0) <= Size(e1) && Size(r.1) <= Size(e2)
    decreases Size(e1) + Size(e2), if IsOp(e1, op) || IsOp(e2, op) then 0 else 4
  {
    if IsOp(e1, op) then
      var (l, e2') := EliminateLeaves(op, e1.left, e2);
      var (r, e2'') := EliminateLeaves(op, e1.right, e2');
      (Bin(op, l, r), e2'')
    else if IsOp(e2, op) then
      var (e1', l) := EliminateLeaves(op, e1, e2.left);
      var (e1'', r) := EliminateLeaves(op, e1', e2.right);
      (e1'', Bin(op, l, r))
    else if e1 == e2 && IsYesNo(e1) then (e1, e2)
    else if !Equal(e1, e2) then (e1, e2)
    else (Sym(Unit(op)), Sym(Unit(op)))
  }

  /** The two eliminations of `expr_eliminate_eq`, before its constant folding. */
  function EliminateBoth(e1: Expr, e2: Expr): (r: (Expr, Expr))
    ensures Size(r.0) <= Size(e1) && Size(r.1) <= Size(e2)
    decreases Size(e1) + Size(e2), 1
  {
    var (a1, a2) := if e1.Bin? then EliminateLeaves(e1.op, e1, e2) else (e1, e2);
    if a2.Bin? && !IsOp(a1, a2.op) then EliminateLeaves(a2.op, a1, a2) else (a1, a2)
  }

  /** `expr_eliminate_eq`. */
  function EliminateEq(e1: Expr, e2: Expr): (r: (Expr, Expr))
    decreases Size(e1) + Size(e2), 2
  {
    var (b1, b2) := EliminateBoth(e1, e2);
    (EliminateYn(b1), EliminateYn(b2))
  }

  /** `expr_eq`. */
  predicate Equal(e1: Expr, e2: Expr)
    decreases Size(e1) + Size(e2), 3
  {
    match (e1, e2)
    case (Comp(_, _, _), Comp(_, _, _)) => e1 == e2
    case (Sym(s1), Sym(s2)) => s1 == s2
    case (Not(a1), Not(a2)) => Equal(a1, a2)
    case (Bin(op1, _, _), Bin(op2, _, _)) =>
      if op1 != op2 then false
      else var (r1, r2) := EliminateEq(e1, e2); r1.Sym? && r2.Sym? && r1.sym == r2.sym
    case _ => false
  }

  // ----- soundness

  lemma CombineRegroups(op: BinOp, a: T.Tristate, b: T.Tristate, c: T.Tristate, d: T.Tristate)
    ensures Combine(op, Combine(op, a, b), Combine(op, c, d)) == Combine(op, Combine(op, a, c), Combine(op, b, d))
    ensures Combine(op, a, Combine(op, b, c)) == Combine(op, Combine(op, a, b), c)
  {
  }

  /**
   One elimination takes the same operand v out of both sides.
   */
  lemma {:induction false} EliminateLeavesFactors(op: BinOp, e1: Expr, e2: Expr, env: Env) returns (v: T.Tristate)
    requires ConstsFixed(env)
    ensures var (r1, r2) := EliminateLeaves(op, e1, e2);
            && Calc(e1, env) == Combine(op, v, Calc(r1, env))
            && Calc(e2, env) == Combine(op, v, Calc(r2, env))
    decreases Size(e1) + Size(e2), if IsOp(e1, op) || IsOp(e2, op) then 0 else 4
  {
    if IsOp(e1, op) {
      var (l, e2') := EliminateLeaves(op, e1.left, e2);
      var (r, e2'') := EliminateLeaves(op, e1.right, e2');
      var v1 := EliminateLeavesFactors(op, e1.left, e2, env);
      var v2 := EliminateLeavesFactors(op, e1.right, e2', env);
      CombineRegroups(op, v1, Calc(l, env), v2, Calc(r, env));
      CombineRegroups(op, v1, v2, Calc(e2'', env), Calc(e2'', env));
      v := Combine(op, v1, v2);
    } else if IsOp(e2, op) {
      var (e1', l) := EliminateLeaves(op, e1, e2.left);
      var (e1'', r) := EliminateLeaves(op, e1', e2.right);
      var v1 := EliminateLeavesFactors(op, e1, e2.left, env);
      var v2 := EliminateLeavesFactors(op, e1', e2.right, env);
      CombineRegroups(op, v1, Calc(l, env), v2, Calc(r, env));
      CombineRegroups(op, v1, v2, Calc(e1'', env), Calc(e1'', env));
      v := Combine(op, v1, v2);
    } else if EliminateLeaves(op, e1, e2) == (e1, e2) {
      v := env.tri(Unit(op));
    } else {
      EqualIsSound(e1, e2, env);
      v := Calc(e1, env);
    }
  }

  /**
   `expr_eliminate_eq` applies one and the same function x -> p || (q && x) to
   both reduced expressions to give back the originals.
   */
  lemma {:induction false} EliminateEqFactors(e1: Expr, e2: Expr, env: Env) returns (p: T.Tristate, q: T.Tristate)
    requires ConstsFixed(env)
    ensures var (r1, r2) := EliminateEq(e1, e2);
            && Calc(e1, env) == T.Or(p, T.And(q, Calc(r1, env)))
            && Calc(e2, env) == T.Or(p, T.And(q, Calc(r2, env)))
    decreases Size(e1) + Size(e2), 2
  {
    var (a1, a2) := if e1.Bin? then EliminateLeaves(e1.op, e1, e2) else (e1, e2);
    var (b1, b2) := EliminateBoth(e1, e2);
    EliminateYnKeepsValue(b1, env);
    EliminateYnKeepsValue(b2, env);
    hide EliminateLeaves, EliminateYn, EliminateBoth, Calc, Combine;
    UnfoldBoth(e1, e2);
    var op1, v1, op2, v2 := OR, T.NO, OR, T.NO;
    if e1.Bin? {
      op1 := e1.op;
      v1 := EliminateLeavesFactors(op1, e1, e2, env);
    }
    if a2.Bin? && !IsOp(a1, a2.op) {
      op2 := a2.op;
      v2 := EliminateLeavesFactors(op2, a1, a2, env);
    }
    p, q := Factors(op1, v1, op2, v2, Calc(b1, env), Calc(b2, env));
    NoFactor(Calc(e1, env), Calc(a1, env));
    NoFactor(Calc(e2, env), Calc(a2, env));
  }

  lemma NoFactor(x: T.Tristate, y: T.Tristate)
    ensures Combine(OR, T.NO, x) == x && Combine(OR, T.NO, y) == y
  {
  }

  lemma UnfoldBoth(e1: Expr, e2: Expr)
    ensures var (a1, a2) := if e1.Bin? then EliminateLeaves(e1.op, e1, e2) else (e1, e2);
            EliminateBoth(e1, e2) == if a2.Bin? && !IsOp(a1, a2.op) then EliminateLeaves(a2.op, a1, a2) else (a1, a2)
  {
    hide EliminateLeaves;
  }

  /** Two operands taken out one after the other, as one OR and one AND. */
  lemma Factors(op1: BinOp, v1: T.Tristate, op2: BinOp, v2: T.Tristate, x: T.Tristate, y: T.Tristate)
    returns (p: T.Tristate, q: T.Tristate)
    ensures Combine(op1, v1, Combine(op2, v2, x)) == T.Or(p, T.And(q, x))
    ensures Combine(op1, v1, Combine(op2, v2, y)) == T.Or(p, T.And(q, y))
  {
    p := if op2.OR? then v2 else T.NO;
    q := if op2.OR? then T.YES else v2;
    if op1.OR? { p := T.Or(v1, p); } else { p, q := T.And(v1, p), T.And(v1, q); }
  }

  /** Expressions that `expr_eq` calls equal have the same value under every assignment. */
  lemma {:induction false} EqualIsSound(e1: Expr, e2: Expr, env: Env)
    requires ConstsFixed(env) && Equal(e1, e2)
    ensures Calc(e1, env) == Calc(e2, env)
    decreases Size(e1) + Size(e2), 3
  {
    if e1.Not? {
      EqualIsSound(e1.arg, e2.arg, env);
    } else if e1.Bin? {
      var p, q := EliminateEqFactors(e1, e2, env);
    }
  }

  /** When the second expression is used up, the first one implies it. */
  lemma {:induction false} UsedUpMeansImplied(e1: Expr, e2: Expr, env: Env)
    requires ConstsFixed(env) && EliminateEq(e1, e2).1 == Sym(ConstYes)
    ensures Calc(e1, env) <= Calc(e2, env)
  {
    var p, q := EliminateEqFactors(e1, e2, env);
  }
}
