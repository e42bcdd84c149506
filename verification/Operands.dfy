/**
 Which expressions `expr_eq` of `expr.c` accepts, and what `expr_eliminate_eq`
 leaves of two lists of operands.
 */
module Operands {
  import opened Expressions
  import opened Elimination

  // ----- expressions up to order and grouping

  /** An expression without the order and the grouping of the operands of an AND or OR. */
  datatype Shape =
    | SymShape(sym: Symbol)
    | NotShape(arg: Shape)
    | CompShape(rel: RelOp, lsym: Symbol, rsym: Symbol)
    | OpShape(op: BinOp, operands: multiset<Shape>)

  ghost function ShapeOf(e: Expr): Shape
    decreases Size(e), 0
  {
    match e
    case Sym(s) => SymShape(s)
    case Not(a) => NotShape(ShapeOf(a))
    case Comp(rel, l, r) => CompShape(rel, l, r)
    case Bin(op, l, r) => OpShape(op, OperandsOf(op, l) + OperandsOf(op, r))
  }

  /** The operands of e at one level of `op`. */
  ghost function OperandsOf(op: BinOp, e: Expr): multiset<Shape>
    decreases Size(e), 1
  {
    if IsOp(e, op) then OperandsOf(op, e.left) + OperandsOf(op, e.right) else multiset{ShapeOf(e)}
  }

  /** No AND or OR has `y` or `n` as an operand, at any depth. */
  predicate NoConstants(e: Expr) {
    match e
    case Not(a) => NoConstants(a)
    case Bin(_, l, r) => !IsYesNo(l) && !IsYesNo(r) && NoConstants(l) && NoConstants(r)
    case _ => true
  }

  lemma {:induction false} NothingToFold(e: Expr)
    requires NoConstants(e)
    ensures !HasYesNo(e) && EliminateYn(e) == e
  {
    if e.Bin? {
      NothingToFold(e.left);
      NothingToFold(e.right);
    }
  }

  // ----- what is left of two lists of operands

  /** An operand that is there, or the unit that has taken its place. */
  predicate Cleared(op: BinOp, e: Expr) {
    if IsOp(e, op) then Cleared(op, e.left) && Cleared(op, e.right)
    else e == Sym(Unit(op)) || (!IsYesNo(e) && NoConstants(e))
  }

  /** The operands that are still there. */
  ghost function Left(op: BinOp, e: Expr): multiset<Shape> {
    if IsOp(e, op) then Left(op, e.left) + Left(op, e.right)
    else if e == Sym(Unit(op)) then multiset{}
    else multiset{ShapeOf(e)}
  }

  lemma {:induction false} AllLeft(op: BinOp, e: Expr)
    requires NoConstants(e) && !IsYesNo(e)
    ensures Cleared(op, e) && Left(op, e) == OperandsOf(op, e)
  {
    if IsOp(e, op) {
      AllLeft(op, e.left);
      AllLeft(op, e.right);
    }
  }

  lemma TakeOutTwice(l: multiset<Shape>, r: multiset<Shape>, e: multiset<Shape>)
    ensures (l - e) + (r - (e - l)) == (l + r) - e && (e - l) - r == e - (l + r)
  {
    forall x: Shape ensures ((l - e) + (r - (e - l)))[x] == ((l + r) - e)[x] {
    }
  }

  /** An elimination goes through the operands of the first expression, */
  lemma FirstStep(op: BinOp, e1: Expr, e2: Expr)
    requires IsOp(e1, op)
    ensures var l := EliminateLeaves(op, e1.left, e2);
            var r := EliminateLeaves(op, e1.right, l.1);
            EliminateLeaves(op, e1, e2) == (Bin(op, l.0, r.0), r.1)
  {
  }

  /** and for each of them through those of the second one. */
  lemma SecondStep(op: BinOp, e1: Expr, e2: Expr)
    requires !IsOp(e1, op) && IsOp(e2, op)
    ensures var l := EliminateLeaves(op, e1, e2.left);
            var r := EliminateLeaves(op, l.0, e2.right);
            EliminateLeaves(op, e1, e2) == (r.0, Bin(op, l.1, r.1))
  {
  }

  /** Two operands that are equal are replaced, any other two stay. */
  lemma LastStep(op: BinOp, e1: Expr, e2: Expr)
    requires !IsOp(e1, op) && !IsOp(e2, op)
    ensures EliminateLeaves(op, e1, e2)
         == if Equal(e1, e2) && !IsYesNo(e1) then (Sym(Unit(op)), Sym(Unit(op))) else (e1, e2)
  {
  }

  /** What one elimination leaves, as a statement about the two lists of operands. */
  ghost predicate TakenOut(op: BinOp, e1: Expr, e2: Expr, r: (Expr, Expr)) {
    && Cleared(op, r.0) && Left(op, r.0) == Left(op, e1) - Left(op, e2)
    && Cleared(op, r.1) && Left(op, r.1) == Left(op, e2) - Left(op, e1)
    && (IsOp(e1, op) <==> IsOp(r.0, op)) && (IsOp(e2, op) <==> IsOp(r.1, op))
  }

  lemma TakenFirst(op: BinOp, e1: Expr, e2: Expr, l: (Expr, Expr), r: (Expr, Expr))
    requires IsOp(e1, op) && TakenOut(op, e1.left, e2, l) && TakenOut(op, e1.right, l.1, r)
    ensures TakenOut(op, e1, e2, (Bin(op, l.0, r.0), r.1))
  {
    hide ShapeOf;
    TakeOutTwice(Left(op, e1.left), Left(op, e1.right), Left(op, e2));
  }

  lemma TakenSecond(op: BinOp, e1: Expr, e2: Expr, l: (Expr, Expr), r: (Expr, Expr))
    requires IsOp(e2, op) && TakenOut(op, e1, e2.left, l) && TakenOut(op, l.0, e2.right, r)
    ensures TakenOut(op, e1, e2, (r.0, Bin(op, l.1, r.1)))
  {
    hide ShapeOf;
    TakeOutTwice(Left(op, e2.left), Left(op, e2.right), Left(op, e1));
  }

  lemma TakenLast(op: BinOp, e1: Expr, e2: Expr)
    requires Cleared(op, e1) && Cleared(op, e2) && !IsOp(e1, op) && !IsOp(e2, op)
    requires e1 == Sym(Unit(op)) || e2 == Sym(Unit(op)) || (Equal(e1, e2) <==> ShapeOf(e1) == ShapeOf(e2))
    ensures TakenOut(op, e1, e2, EliminateLeaves(op, e1, e2))
  {
    hide EliminateLeaves, Equal, ShapeOf, NoConstants;
    LastStep(op, e1, e2);
    OneFromOne(ShapeOf(e1), ShapeOf(e2));
    if e1 == Sym(Unit(op)) || e2 == Sym(Unit(op)) {
      UnitEqualsUnit(op, e1, e2);
    }
  }

  lemma OneFromOne(x: Shape, y: Shape)
    ensures multiset{x} - multiset{y} == if x == y then multiset{} else multiset{x}
    ensures multiset{y} - multiset{x} == if x == y then multiset{} else multiset{y}
    ensures multiset{x} - multiset{} == multiset{x} && multiset{} - multiset{x} == multiset{}
    ensures multiset{y} - multiset{} == multiset{y} && multiset{} - multiset{y} == multiset{}
  {
  }

  lemma ClearedParts(op: BinOp, e: Expr)
    requires Cleared(op, e)
    ensures if IsOp(e, op) then Cleared(op, e.left) && Cleared(op, e.right) else e == Sym(Unit(op)) || NoConstants(e)
  {
  }

  lemma TakenIsCleared(op: BinOp, e1: Expr, e2: Expr, r: (Expr, Expr))
    requires TakenOut(op, e1, e2, r)
    ensures Cleared(op, r.0) && Cleared(op, r.1) && (IsOp(e1, op) <==> IsOp(r.0, op))
  {
  }

  /** Each side loses the operands of the other, counted as often as they occur. */
  lemma {:induction false} LeavesTakeOut(op: BinOp, e1: Expr, e2: Expr)
    requires Cleared(op, e1) && Cleared(op, e2)
    ensures TakenOut(op, e1, e2, EliminateLeaves(op, e1, e2))
    decreases Size(e1) + Size(e2), if IsOp(e1, op) || IsOp(e2, op) then 0 else 4
  {
    hide EliminateLeaves, Equal, ShapeOf, Cleared, TakenOut, NoConstants;
    ClearedParts(op, e1);
    ClearedParts(op, e2);
    if IsOp(e1, op) {
      FirstStep(op, e1, e2);
      var l := EliminateLeaves(op, e1.left, e2);
      LeavesTakeOut(op, e1.left, e2);
      TakenIsCleared(op, e1.left, e2, l);
      LeavesTakeOut(op, e1.right, l.1);
      TakenFirst(op, e1, e2, l, EliminateLeaves(op, e1.right, l.1));
    } else if IsOp(e2, op) {
      SecondStep(op, e1, e2);
      var l := EliminateLeaves(op, e1, e2.left);
      LeavesTakeOut(op, e1, e2.left);
      TakenIsCleared(op, e1, e2.left, l);
      LeavesTakeOut(op, l.0, e2.right);
      TakenSecond(op, e1, e2, l, EliminateLeaves(op, l.0, e2.right));
    } else {
      if e1 != Sym(Unit(op)) && e2 != Sym(Unit(op)) {
        EqualExact(e1, e2);
      }
      TakenLast(op, e1, e2);
    }
  }

  lemma UnitEqualsUnit(op: BinOp, e1: Expr, e2: Expr)
    requires Cleared(op, e1) && Cleared(op, e2) && (e1 == Sym(Unit(op)) || e2 == Sym(Unit(op)))
    ensures Equal(e1, e2) ==> e1 == e2 == Sym(Unit(op))
  {
  }

  /** Nothing is left exactly if folding leaves the unit, and one operand alone stays what it is. */
  lemma {:induction false} FoldedLeft(op: BinOp, e: Expr)
    requires Cleared(op, e)
    ensures var r := EliminateYn(e);
            && (Left(op, e) == multiset{} <==> r == Sym(Unit(op)))
            && (r.Sym? && r != Sym(Unit(op)) ==> Left(op, e) == multiset{ShapeOf(r)})
            && !(r == Sym(Zero(op)))
  {
    if IsOp(e, op) {
      FoldedLeft(op, e.left);
      FoldedLeft(op, e.right);
    } else if e != Sym(Unit(op)) {
      NothingToFold(e);
    }
  }

  lemma {:induction false} StaysOp(op: BinOp, e1: Expr, e2: Expr)
    ensures IsOp(e1, op) ==> IsOp(EliminateLeaves(op, e1, e2).0, op)
    ensures IsOp(e2, op) ==> IsOp(EliminateLeaves(op, e1, e2).1, op)
    decreases Size(e1) + Size(e2)
  {
    if IsOp(e1, op) {
      hide EliminateLeaves;
      FirstStep(op, e1, e2);
      var l := EliminateLeaves(op, e1.left, e2);
      StaysOp(op, e1.left, e2);
      StaysOp(op, e1.right, l.1);
    } else if IsOp(e2, op) {
      hide EliminateLeaves;
      SecondStep(op, e1, e2);
    }
  }

  /** The two sides of `expr_eq` for the same operation. */
  lemma EqualByLeaves(e1: Expr, e2: Expr)
    requires e1.Bin? && e2.Bin? && e1.op == e2.op
    ensures var r := EliminateLeaves(e1.op, e1, e2);
            var f1, f2 := EliminateYn(r.0), EliminateYn(r.1);
            Equal(e1, e2) <==> f1.Sym? && f1 == f2
  {
    hide EliminateLeaves, EliminateYn, EliminateBoth;
    StaysOp(e1.op, e1, e2);
    UnfoldBoth(e1, e2);
  }

  lemma NothingInCommon(m1: multiset<Shape>, m2: multiset<Shape>, x: Shape)
    ensures !(m1 - m2 == multiset{x} && m2 - m1 == multiset{x})
    ensures m1 - m2 == multiset{} && m2 - m1 == multiset{} <==> m1 == m2
  {
    assert (m1 - m2)[x] == 0 || (m2 - m1)[x] == 0;
    if m1 - m2 == multiset{} && m2 - m1 == multiset{} {
      forall y: Shape ensures m1[y] == m2[y] {
        assert (m1 - m2)[y] == 0 && (m2 - m1)[y] == 0;
      }
    }
  }

  /**
   Without constants `expr_eq` accepts exactly what is the same but for the
   order and grouping of operands, at every depth.
   */
  lemma {:induction false} EqualExact(e1: Expr, e2: Expr)
    requires NoConstants(e1) && NoConstants(e2)
    ensures Equal(e1, e2) <==> ShapeOf(e1) == ShapeOf(e2)
    decreases Size(e1) + Size(e2), 3
  {
    if e1.Not? && e2.Not? {
      EqualExact(e1.arg, e2.arg);
    } else if e1.Bin? && e2.Bin? && e1.op == e2.op {
      hide Equal, EliminateLeaves, EliminateYn;
      EqualSameOp(e1, e2);
      ShapesSameOp(e1, e2);
    }
  }

  lemma ShapesSameOp(e1: Expr, e2: Expr)
    requires e1.Bin? && e2.Bin? && e1.op == e2.op
    ensures ShapeOf(e1) == ShapeOf(e2) <==> OperandsOf(e1.op, e1) == OperandsOf(e1.op, e2)
  {
  }

  lemma {:induction false} EqualSameOp(e1: Expr, e2: Expr)
    requires NoConstants(e1) && NoConstants(e2) && e1.Bin? && e2.Bin? && e1.op == e2.op
    ensures Equal(e1, e2) <==> OperandsOf(e1.op, e1) == OperandsOf(e1.op, e2)
    decreases Size(e1) + Size(e2), 2
  {
    hide Equal, EliminateLeaves, EliminateYn, Left, OperandsOf, ShapeOf, Cleared, NoConstants;
    var op := e1.op;
    AllLeft(op, e1);
    AllLeft(op, e2);
    LeavesTakeOut(op, e1, e2);
    EqualByLeaves(e1, e2);
    var r := EliminateLeaves(op, e1, e2);
    FoldedLeft(op, r.0);
    FoldedLeft(op, r.1);
    NothingInCommon(Left(op, e1), Left(op, e2), ShapeOf(EliminateYn(r.0)));
  }

  // ----- what expr_eliminate_eq leaves

  /** Folding away the units leaves what is left, or a unit. */
  lemma {:induction false} FoldKeepsLeft(op: BinOp, e: Expr)
    requires Cleared(op, e)
    ensures var f := EliminateYn(e);
            if Left(op, e) == multiset{} then f == Sym(Unit(op)) else OperandsOf(op, f) == Left(op, e)
  {
    FoldedLeft(op, e);
    if IsOp(e, op) {
      FoldedLeft(op, e.left);
      FoldedLeft(op, e.right);
      FoldKeepsLeft(op, e.left);
      FoldKeepsLeft(op, e.right);
    } else if e != Sym(Unit(op)) {
      NothingToFold(e);
    }
  }

  /** The operands are those of ms, or there are none. */
  ghost predicate HasLeft(op: BinOp, e: Expr, ms: multiset<Shape>) {
    if ms == multiset{} then e == Sym(Unit(op)) else OperandsOf(op, e) == ms
  }

  lemma TakenHasLeft(op: BinOp, e1: Expr, e2: Expr, r: (Expr, Expr))
    requires TakenOut(op, e1, e2, r)
    ensures HasLeft(op, EliminateYn(r.0), Left(op, e1) - Left(op, e2))
    ensures HasLeft(op, EliminateYn(r.1), Left(op, e2) - Left(op, e1))
  {
    hide ShapeOf, OperandsOf, Left, Cleared, EliminateYn;
    FoldKeepsLeft(op, r.0);
    FoldKeepsLeft(op, r.1);
  }

  /**
   Of two ANDs, or two ORs, `expr_eliminate_eq` leaves the operands of each that
   the other one does not have, counted as often as they occur.
   */
  lemma EliminateEqExact(e1: Expr, e2: Expr)
    requires e1.Bin? && e2.Bin? && e1.op == e2.op && NoConstants(e1) && NoConstants(e2)
    ensures var op, r := e1.op, EliminateEq(e1, e2);
            && HasLeft(op, r.0, OperandsOf(op, e1) - OperandsOf(op, e2))
            && HasLeft(op, r.1, OperandsOf(op, e2) - OperandsOf(op, e1))
  {
    hide EliminateLeaves, EliminateYn, EliminateBoth, HasLeft, TakenOut, NoConstants;
    var op := e1.op;
    AllLeft(op, e1);
    AllLeft(op, e2);
    LeavesTakeOut(op, e1, e2);
    StaysOp(op, e1, e2);
    UnfoldBoth(e1, e2);
    TakenHasLeft(op, e1, e2, EliminateLeaves(op, e1, e2));
  }

  /** An operand that does not occur changes nothing. */
  lemma {:induction false} NotAmongThem(op: BinOp, e1: Expr, e2: Expr)
    requires Cleared(op, e1) && !IsOp(e2, op) && !IsYesNo(e2) && NoConstants(e2) && ShapeOf(e2) !in Left(op, e1)
    ensures EliminateLeaves(op, e1, e2) == (e1, e2)
    decreases Size(e1)
  {
    hide EliminateLeaves, ShapeOf, Equal, NoConstants;
    if IsOp(e1, op) {
      FirstStep(op, e1, e2);
      NotAmongThem(op, e1.left, e2);
      NotAmongThem(op, e1.right, e2);
    } else {
      LastStep(op, e1, e2);
      if e1 == Sym(Unit(op)) {
        assert IsYesNo(e1);
      } else {
        assert NoConstants(e1) by { ClearedParts(op, e1); }
        EqualExact(e1, e2);
      }
    }
  }

  /** A `y` that remains of an OR would have been an operand. */
  lemma NeverDecided(op: BinOp, e: Expr)
    requires Cleared(op, e)
    ensures EliminateYn(e) != Sym(Zero(op))
  {
    FoldedLeft(op, e);
  }

  lemma {:induction false} NoConstantOperand(op: BinOp, e: Expr, s: Symbol)
    requires NoConstants(e) && !IsYesNo(e) && (s == ConstYes || s == ConstNo)
    ensures SymShape(s) !in OperandsOf(op, e)
  {
    if IsOp(e, op) {
      NoConstantOperand(op, e.left, s);
      NoConstantOperand(op, e.right, s);
    }
  }

  lemma NoneMissing(m1: multiset<Shape>, m2: multiset<Shape>)
    ensures m2 - m1 == multiset{} <==> m2 <= m1
  {
    if m2 - m1 == multiset{} {
      forall x: Shape ensures m2[x] <= m1[x] {
        assert (m2 - m1)[x] == 0;
      }
    }
  }

  /**
   An AND uses up a second expression exactly if it has all of its operands, as
   often as they occur.
   */
  lemma UsedUpExact(e1: Expr, e2: Expr)
    requires IsOp(e1, AND) && NoConstants(e1) && NoConstants(e2) && !IsYesNo(e2)
    ensures EliminateEq(e1, e2).1 == Sym(ConstYes) <==> OperandsOf(AND, e2) <= OperandsOf(AND, e1)
  {
    hide EliminateEq, NoConstants, OperandsOf;
    NoneMissing(OperandsOf(AND, e1), OperandsOf(AND, e2));
    if IsOp(e2, AND) {
      EliminateEqExact(e1, e2);
      HasLeftUnit(EliminateEq(e1, e2).1, e2, OperandsOf(AND, e1));
    } else {
      UsedUpOperand(e1, e2);
      OneOperand(e2);
    }
  }

  lemma OneOperand(e: Expr)
    requires !IsOp(e, AND)
    ensures OperandsOf(AND, e) == multiset{ShapeOf(e)}
  {
  }

  lemma HasLeftUnit(r: Expr, e2: Expr, m1: multiset<Shape>)
    requires NoConstants(e2) && !IsYesNo(e2) && HasLeft(AND, r, OperandsOf(AND, e2) - m1)
    ensures r == Sym(ConstYes) <==> OperandsOf(AND, e2) - m1 == multiset{}
  {
    NoConstantOperand(AND, e2, ConstYes);
    assert OperandsOf(AND, Sym(ConstYes))[SymShape(ConstYes)] == 1;
    assert (OperandsOf(AND, e2) - m1)[SymShape(ConstYes)] == 0;
  }

  /** The second expression is one operand. */
  lemma UsedUpOperand(e1: Expr, e2: Expr)
    requires IsOp(e1, AND) && NoConstants(e1) && NoConstants(e2) && !IsYesNo(e2) && !IsOp(e2, AND)
    ensures EliminateEq(e1, e2).1 == Sym(ConstYes) <==> ShapeOf(e2) in OperandsOf(AND, e1)
  {
    hide EliminateLeaves, EliminateYn, EliminateBoth, TakenOut, NoConstants, Left, ShapeOf, OperandsOf;
    AllLeft(AND, e1);
    UnfoldBoth(e1, e2);
    if ShapeOf(e2) in OperandsOf(AND, e1) {
      AllLeft(AND, e2);
      LeavesTakeOut(AND, e1, e2);
      OperandTaken(e1, e2, EliminateLeaves(AND, e1, e2));
    } else {
      NotAmongThem(AND, e1, e2);
      if e2.Bin? {
        AllLeft(OR, e1);
        AllLeft(OR, e2);
        LeavesTakeOut(OR, e1, e2);
        TakenIsCleared(OR, e1, e2, EliminateLeaves(OR, e1, e2));
        NeverDecided(OR, EliminateLeaves(OR, e1, e2).1);
      } else {
        NothingToFold(e2);
      }
    }
  }

  lemma OperandTaken(e1: Expr, e2: Expr, r: (Expr, Expr))
    requires Cleared(AND, e2) && !IsOp(e2, AND) && TakenOut(AND, e1, e2, r) && ShapeOf(e2) in Left(AND, e1)
    ensures r.1 == Sym(ConstYes) && EliminateYn(r.1) == r.1
  {
    assert Left(AND, e2) <= multiset{ShapeOf(e2)};
    assert Left(AND, e2) - Left(AND, e1) == multiset{};
  }

  // ----- with constants: operands in the same order

  /** The operands of e at one level of `op`, from left to right. */
  function OperandList(op: BinOp, e: Expr): seq<Expr> {
    if IsOp(e, op) then OperandList(op, e.left) + OperandList(op, e.right) else [e]
  }

  /** What an elimination makes of operands that it finds again. */
  function Emptied(op: BinOp, es: seq<Expr>): (r: seq<Expr>)
    ensures |r| == |es|
  {
    seq(|es|, i requires 0 <= i < |es| => if IsYesNo(es[i]) then es[i] else Sym(Unit(op)))
  }

  predicate AllYesNo(es: seq<Expr>) {
    forall i :: 0 <= i < |es| ==> IsYesNo(es[i])
  }

  /** A constant takes nothing out. */
  lemma {:induction false} ConstantTakesNothing(op: BinOp, e1: Expr, e2: Expr)
    requires IsYesNo(e1)
    ensures EliminateLeaves(op, e1, e2) == (e1, e2)
    decreases Size(e2)
  {
    hide EliminateLeaves;
    if IsOp(e2, op) {
      SecondStep(op, e1, e2);
      ConstantTakesNothing(op, e1, e2.left);
      ConstantTakesNothing(op, e1, e2.right);
    } else {
      LastStep(op, e1, e2);
    }
  }

  /** And nothing is taken out of constants. */
  lemma {:induction false} NothingTakenOut(op: BinOp, e1: Expr, e2: Expr)
    requires !IsOp(e1, op) && !IsYesNo(e1) && AllYesNo(OperandList(op, e2))
    ensures EliminateLeaves(op, e1, e2) == (e1, e2)
    decreases Size(e2)
  {
    hide EliminateLeaves;
    if IsOp(e2, op) {
      var l, r := OperandList(op, e2.left), OperandList(op, e2.right);
      PartsYesNo(l, r);
      SecondStep(op, e1, e2);
      NothingTakenOut(op, e1, e2.left);
      NothingTakenOut(op, e1, e2.right);
    } else {
      assert [e2][0] == e2;
      LastStep(op, e1, e2);
    }
  }

  lemma PartsYesNo(l: seq<Expr>, r: seq<Expr>)
    ensures AllYesNo(l + r) <==> AllYesNo(l) && AllYesNo(r)
  {
    if AllYesNo(l + r) {
      forall i | 0 <= i < |l| ensures IsYesNo(l[i]) { assert (l + r)[i] == l[i]; }
      forall i | 0 <= i < |r| ensures IsYesNo(r[i]) { assert (l + r)[|l| + i] == r[i]; }
    }
  }

  lemma EmptiedSplits(op: BinOp, l: seq<Expr>, r: seq<Expr>)
    ensures Emptied(op, l + r) == Emptied(op, l) + Emptied(op, r) && AllYesNo(Emptied(op, l))
  {
  }

  /** One operand finds itself behind constants. */
  lemma {:induction false} OneFound(op: BinOp, e1: Expr, e2: Expr, u: seq<Expr>, t: seq<Expr>)
    requires !IsOp(e1, op) && !IsYesNo(e1) && Equal(e1, e1)
    requires OperandList(op, e2) == u + [e1] + t && AllYesNo(u)
    ensures var r := EliminateLeaves(op, e1, e2);
            r.0 == Sym(Unit(op)) && OperandList(op, r.1) == u + [Sym(Unit(op))] + t
    decreases Size(e2)
  {
    hide EliminateLeaves, Equal;
    if IsOp(e2, op) {
      SecondStep(op, e1, e2);
      var l, r := OperandList(op, e2.left), OperandList(op, e2.right);
      if |u| < |l| {
        assert l == u + [e1] + t[..|l| - |u| - 1] && r == t[|l| - |u| - 1..] by { SplitAt(l, r, u, e1, t); }
        OneFound(op, e1, e2.left, u, t[..|l| - |u| - 1]);
        ConstantTakesNothing(op, Sym(Unit(op)), e2.right);
      } else {
        assert l == u[..|l|] && r == u[|l|..] + [e1] + t by { SplitAt(l, r, u, e1, t); }
        NothingTakenOut(op, e1, e2.left);
        OneFound(op, e1, e2.right, u[|l|..], t);
        assert l + (u[|l|..] + [Sym(Unit(op))] + t) == u + [Sym(Unit(op))] + t;
      }
    } else {
      assert |[e2]| == 1;
      assert u == [] && t == [];
      assert [e2][0] == e1;
      LastStep(op, e1, e2);
    }
  }

  lemma SplitAt(l: seq<Expr>, r: seq<Expr>, u: seq<Expr>, x: Expr, t: seq<Expr>)
    requires l + r == u + [x] + t
    ensures |u| < |l| ==> l == u + [x] + t[..|l| - |u| - 1] && r == t[|l| - |u| - 1..]
    ensures |u| >= |l| ==> l == u[..|l|] && r == u[|l|..] + [x] + t
  {
    var s := u + [x] + t;
    assert l == s[..|l|] && r == s[|l|..];
  }

  lemma Regrouped(u: seq<Expr>, l: seq<Expr>, r: seq<Expr>, t: seq<Expr>)
    ensures u + (l + r) + t == u + l + (r + t) == (u + l) + r + t
  {
  }

  ghost predicate SelfEquals(es: seq<Expr>) {
    forall x :: x in es ==> Equal(x, x)
  }

  lemma SelfEqualsParts(l: seq<Expr>, r: seq<Expr>)
    requires SelfEquals(l + r)
    ensures SelfEquals(l) && SelfEquals(r)
  {
    hide Equal;
    forall x | x in l || x in r ensures Equal(x, x) {
      assert x in l + r;
    }
  }

  /** Operands that come in the same order are all found, whatever they are. */
  lemma {:induction false} AllFound(op: BinOp, e1: Expr, e2: Expr, u: seq<Expr>, t: seq<Expr>)
    requires OperandList(op, e2) == u + OperandList(op, e1) + t && AllYesNo(u) && SelfEquals(OperandList(op, e1))
    ensures var r := EliminateLeaves(op, e1, e2);
            && OperandList(op, r.0) == Emptied(op, OperandList(op, e1))
            && OperandList(op, r.1) == u + Emptied(op, OperandList(op, e1)) + t
    decreases Size(e1)
  {
    if IsOp(e1, op) {
      hide EliminateLeaves, Equal, Emptied, AllYesNo, OperandList, SelfEquals;
      var l, r := OperandList(op, e1.left), OperandList(op, e1.right);
      OperandListParts(op, e1);
      SelfEqualsParts(l, r);
      Regrouped(u, l, r, t);
      AllFound(op, e1.left, e2, u, r + t);
      var s := EliminateLeaves(op, e1.left, e2);
      EmptiedSplits(op, l, r);
      PartsYesNo(u, Emptied(op, l));
      Regrouped(u, Emptied(op, l), r, t);
      AllFound(op, e1.right, s.1, u + Emptied(op, l), t);
      Regrouped(u, Emptied(op, l), Emptied(op, r), t);
      FirstStep(op, e1, e2);
      OperandListParts(op, Bin(op, s.0, EliminateLeaves(op, e1.right, s.1).0));
    } else {
      OneOrNoneFound(op, e1, e2, u, t);
    }
  }

  lemma OneOrNoneFound(op: BinOp, e1: Expr, e2: Expr, u: seq<Expr>, t: seq<Expr>)
    requires !IsOp(e1, op) && Equal(e1, e1) && OperandList(op, e2) == u + [e1] + t && AllYesNo(u)
    ensures var r := EliminateLeaves(op, e1, e2);
            && OperandList(op, r.0) == Emptied(op, [e1])
            && OperandList(op, r.1) == u + Emptied(op, [e1]) + t
  {
    hide EliminateLeaves, Equal, AllYesNo;
    if IsYesNo(e1) {
      ConstantTakesNothing(op, e1, e2);
    } else {
      OneFound(op, e1, e2, u, t);
    }
  }

  lemma OperandListParts(op: BinOp, e: Expr)
    requires IsOp(e, op)
    ensures OperandList(op, e) == OperandList(op, e.left) + OperandList(op, e.right)
  {
  }

  /** Folding constants. */
  lemma {:induction false} FoldedConstants(op: BinOp, e: Expr)
    requires AllYesNo(OperandList(op, e))
    ensures EliminateYn(e) == Sym(if Sym(Zero(op)) in OperandList(op, e) then Zero(op) else Unit(op))
  {
    if IsOp(e, op) {
      PartsYesNo(OperandList(op, e.left), OperandList(op, e.right));
      FoldedConstants(op, e.left);
      FoldedConstants(op, e.right);
    } else {
      assert [e][0] == e;
    }
  }

  lemma {:induction false} OperandsAreSmaller(op: BinOp, e: Expr)
    ensures forall x :: x in OperandList(op, e) ==> Size(x) <= Size(e) && (IsOp(e, op) ==> Size(x) < Size(e))
  {
    if IsOp(e, op) {
      OperandsAreSmaller(op, e.left);
      OperandsAreSmaller(op, e.right);
    }
  }

  /** With constants, too, two expressions with the same operands in the same order are equal. */
  lemma {:induction false} EqualInOrder(e1: Expr, e2: Expr)
    requires e1.Bin? && e2.Bin? && e1.op == e2.op && OperandList(e1.op, e1) == OperandList(e1.op, e2)
    ensures Equal(e1, e2)
    decreases Size(e1), 0
  {
    hide EliminateLeaves, Equal, EliminateYn;
    var op := e1.op;
    var list := OperandList(op, e1);
    OperandsAreSmaller(op, e1);
    forall x | x in list ensures Equal(x, x) {
      EqualToItself(x);
    }
    assert [] + list + [] == list;
    AllFound(op, e1, e2, [], []);
    var r := EliminateLeaves(op, e1, e2);
    EmptiedSplits(op, list, []);
    assert [] + Emptied(op, list) + [] == Emptied(op, list);
    FoldedConstants(op, r.0);
    FoldedConstants(op, r.1);
    EqualByLeaves(e1, e2);
  }

  /** Every expression is equal to itself. */
  lemma {:induction false} EqualToItself(e: Expr)
    ensures Equal(e, e)
    decreases Size(e), 1
  {
    if e.Not? {
      EqualToItself(e.arg);
    } else if e.Bin? {
      EqualInOrder(e, e);
    }
  }

  // ----- with constants: operands in another order

  /** An elimination of two operands with two others, pair by pair. */
  lemma TwoByTwo(op: BinOp, a: Expr, b: Expr, c: Expr, d: Expr)
    requires !IsOp(a, op) && !IsOp(b, op) && !IsOp(c, op) && !IsOp(d, op)
    requires (IsYesNo(a) || !Equal(a, c)) && !Equal(a, d) && !Equal(b, c)
    ensures EliminateLeaves(op, Bin(op, a, b), Bin(op, c, d))
         == if Equal(b, d) && !IsYesNo(b) then (Bin(op, a, Sym(Unit(op))), Bin(op, c, Sym(Unit(op))))
            else (Bin(op, a, b), Bin(op, c, d))
  {
    hide EliminateLeaves, Equal;
    var e2 := Bin(op, c, d);
    FirstStep(op, Bin(op, a, b), e2);
    SecondStep(op, a, e2);
    SecondStep(op, b, e2);
    LastStep(op, a, c);
    LastStep(op, a, d);
    LastStep(op, b, c);
    LastStep(op, b, d);
  }

  /** The same if the first two operands are equal. */
  lemma TwoByTwoFirst(op: BinOp, a: Expr, b: Expr, d: Expr)
    requires !IsOp(a, op) && !IsOp(b, op) && !IsOp(d, op) && !IsYesNo(a) && !IsYesNo(b)
    requires Equal(a, a) && !Equal(b, Sym(Unit(op))) && !Equal(b, d)
    ensures EliminateLeaves(op, Bin(op, a, b), Bin(op, a, d))
         == (Bin(op, Sym(Unit(op)), b), Bin(op, Sym(Unit(op)), d))
  {
    hide EliminateLeaves, Equal;
    var e2, rest := Bin(op, a, d), Bin(op, Sym(Unit(op)), d);
    FirstStep(op, Bin(op, a, b), e2);
    SecondStep(op, a, e2);
    LastStep(op, a, a);
    ConstantTakesNothing(op, Sym(Unit(op)), d);
    SecondStep(op, b, rest);
    LastStep(op, b, Sym(Unit(op)));
    LastStep(op, b, d);
  }

  function SymbolA(): Expr {
    Sym(Config("A", Boolean))
  }

  function SymbolB(): Expr {
    Sym(Config("B", Boolean))
  }

  function OrNo(e: Expr): Expr {
    Bin(OR, Sym(ConstNo), e)
  }

  /** Three ways to write `A && B`, two of them with an `n` that is not folded away. */
  function Ways(): (Expr, Expr, Expr) {
    var a, b := SymbolA(), SymbolB();
    (Bin(AND, OrNo(a), b), Bin(AND, a, b), Bin(AND, a, OrNo(b)))
  }

  /** The operands of two of them, pair by pair. */
  lemma WaysApart()
    ensures var (a, b, y, p, q) := (SymbolA(), SymbolB(), Sym(ConstYes), OrNo(SymbolA()), OrNo(SymbolB()));
            && !Equal(p, a) && !Equal(p, b) && !Equal(b, a) && Equal(b, b) && Equal(a, a)
            && !Equal(b, y) && !Equal(b, q) && !Equal(a, p) && !Equal(a, b) && !Equal(q, b) && !Equal(q, p)
            && EliminateYn(p) == a && EliminateYn(q) == b && EliminateYn(a) == a && EliminateYn(b) == b
  {
    assert !Equal(SymbolB(), SymbolA()) && !Equal(Sym(ConstNo), SymbolA()) && !Equal(SymbolB(), Sym(ConstNo));
    hide EliminateLeaves;
    TwoByTwo(OR, Sym(ConstNo), SymbolB(), Sym(ConstNo), SymbolA());
    EqualByLeaves(OrNo(SymbolB()), OrNo(SymbolA()));
  }

  /** Equality is not transitive among them. */
  lemma WaysAreNotTransitive()
    ensures Equal(Ways().0, Ways().1) && Equal(Ways().1, Ways().2) && !Equal(Ways().2, Ways().0)
  {
    hide EliminateLeaves, Equal;
    var a, b := SymbolA(), SymbolB();
    WaysApart();
    TwoByTwo(AND, OrNo(a), b, a, b);
    TwoByTwoFirst(AND, a, b, OrNo(b));
    TwoByTwo(AND, a, OrNo(b), OrNo(a), b);
    EqualByLeaves(Ways().0, Ways().1);
    EqualByLeaves(Ways().1, Ways().2);
    EqualByLeaves(Ways().2, Ways().0);
  }

  function InTurn(x: Expr, z: Expr, w: Expr): Expr {
    Bin(OR, x, Bin(OR, z, w))
  }

  /** Three operands are not found in another order if the first takes the place of the second. */
  lemma ThreeInTurn(x: Expr, z: Expr, w: Expr)
    requires IsOp(x, AND) && IsOp(z, AND) && IsOp(w, AND)
    requires Equal(x, z) && Equal(z, w) && !Equal(w, x)
    ensures var n := Sym(ConstNo);
            EliminateLeaves(OR, InTurn(x, z, w), InTurn(z, w, x)) == (InTurn(n, n, w), InTurn(n, n, x))
  {
    var n := Sym(ConstNo);
    assert !Equal(z, n) && !Equal(w, n);
    hide EliminateLeaves, Equal;
    var e2, rest := Bin(OR, z, Bin(OR, w, x)), Bin(OR, w, x);
    FirstStep(OR, Bin(OR, x, Bin(OR, z, w)), e2);
    SecondStep(OR, x, e2);
    LastStep(OR, x, z);
    ConstantTakesNothing(OR, n, rest);
    var e3 := Bin(OR, n, rest);
    FirstStep(OR, Bin(OR, z, w), e3);
    SecondStep(OR, z, e3);
    LastStep(OR, z, n);
    SecondStep(OR, z, rest);
    LastStep(OR, z, w);
    ConstantTakesNothing(OR, n, x);
    var e4 := Bin(OR, n, Bin(OR, n, x));
    SecondStep(OR, w, e4);
    LastStep(OR, w, n);
    SecondStep(OR, w, Bin(OR, n, x));
    LastStep(OR, w, x);
  }

  lemma FoldedNo(e: Expr)
    ensures EliminateYn(Bin(OR, Sym(ConstNo), e)) == EliminateYn(e)
  {
  }

  /** With constants two expressions can be different for `expr_eq` although only the order of their operands is. */
  lemma ConstantsBreakOrder()
    ensures var (x, z, w) := Ways(); ShapeOf(InTurn(x, z, w)) == ShapeOf(InTurn(z, w, x))
    ensures var (x, z, w) := Ways(); !Equal(InTurn(x, z, w), InTurn(z, w, x))
  {
    var x, z, w := Ways().0, Ways().1, Ways().2;
    assert EliminateYn(w) == Bin(AND, SymbolA(), SymbolB());
    WaysAreNotTransitive();
    SameThree(x, z, w);
    hide EliminateLeaves, Equal, ShapeOf, EliminateYn, Ways;
    ThreeInTurn(x, z, w);
    EqualByLeaves(InTurn(x, z, w), InTurn(z, w, x));
    FoldedNo(w);
    FoldedNo(Bin(OR, Sym(ConstNo), w));
  }

  lemma SameThree(x: Expr, z: Expr, w: Expr)
    requires IsOp(x, AND) && IsOp(z, AND) && IsOp(w, AND)
    ensures ShapeOf(InTurn(x, z, w)) == ShapeOf(InTurn(z, w, x))
  {
    var mx, mz, mw := OperandsOf(OR, x), OperandsOf(OR, z), OperandsOf(OR, w);
    assert OperandsOf(OR, Bin(OR, z, w)) == mz + mw && OperandsOf(OR, Bin(OR, w, x)) == mw + mx;
    assert mx + (mz + mw) == mz + (mw + mx);
  }
}
