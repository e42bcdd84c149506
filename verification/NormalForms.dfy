/**
 The normal form of `expr_transform` survives the removal of duplicates
 (`expr_eliminate_dups` of `expr.c`), also below an AND.
 */
module NormalForms {
  import opened Expressions
  import opened Elimination
  import opened Joining
  import opened Duplicates
  import opened Transforming

  lemma {:induction false} NormalAt(e: Expr, op: BinOp, p: Position, x: Expr)
    requires OnSpine(e, op, p) && Normal(e)
    ensures Normal(At(e, op, p))
    ensures Normal(x) ==> Normal(Put(e, op, p, x))
  {
    if p != [] {
      NormalAt(if p[0] then e.right else e.left, op, p[1..], x);
    }
  }

  /** Joining two operands compares no bool with a letter. */
  lemma JoinKeepsNormal(op: BinOp, e1: Expr, e2: Expr)
    requires Normal(e1) && Normal(e2)
    ensures JoinOperands(op, e1, e2).Some? ==> Normal(JoinOperands(op, e1, e2).value)
  {
    hide Equal;
  }

  lemma {:induction false} Dups1KeepsNormal(e: Expr, op: BinOp, p1: Position, p2: Position)
    requires OnSpine(e, op, p1) && OnSpine(e, op, p2) && Normal(e)
    ensures Normal(Dups1(e, op, p1, p2).tree)
    decreases Size(e), SpineSize(At(e, op, p1), op) + SpineSize(At(e, op, p2), op)
  {
    var e1, e2 := At(e, op, p1), At(e, op, p2);
    SpineSteps(e, op, p1);
    SpineSteps(e, op, p2);
    if IsOp(e1, op) {
      var a := Dups1(e, op, p1 + [false], p2);
      SpineKept(e, a.tree, op, p1 + [true]);
      SpineKept(e, a.tree, op, p2);
      Dups1KeepsNormal(e, op, p1 + [false], p2);
      Dups1KeepsNormal(a.tree, op, p1 + [true], p2);
    } else if IsOp(e2, op) {
      var a := Dups1(e, op, p1, p2 + [false]);
      SpineKept(e, a.tree, op, p1);
      SpineKept(e, a.tree, op, p2 + [true]);
      Dups1KeepsNormal(e, op, p1, p2 + [false]);
      Dups1KeepsNormal(a.tree, op, p1, p2 + [true]);
    } else if p1 != p2 {
      LeavesKeepNormal(e, op, p1, p2);
    }
  }

  lemma {:induction false} LeavesKeepNormal(e: Expr, op: BinOp, p1: Position, p2: Position)
    requires IsLeafAt(e, op, p1) && IsLeafAt(e, op, p2) && p1 != p2 && Normal(e)
    ensures Normal(Dups1(e, op, p1, p2).tree)
    decreases Size(e), 0
  {
    var e1, e2 := At(e, op, p1), At(e, op, p2);
    var inner := if e1.Bin? then Dups1(e1, e1.op, [], []) else Pass(e1, 0);
    LeavesAreDisjoint(e, op, p1, p2);
    AtIsSmaller(e, op, p1);
    NormalAt(e, op, p1, inner.tree);
    NormalAt(e, op, p2, e2);
    if e1.Bin? {
      Dups1KeepsNormal(e1, e1.op, [], []);
    }
    JoinKeepsNormal(op, inner.tree, e2);
    if JoinOperands(op, inner.tree, e2).Some? {
      var joined := JoinOperands(op, inner.tree, e2).value;
      JoinIsSmall(op, inner.tree, e2);
      PutPair(e, op, p1, p2, Sym(Unit(op)), joined);
      NormalAt(e, op, p1, Sym(Unit(op)));
      NormalAt(Put(e, op, p1, Sym(Unit(op))), op, p2, joined);
    }
  }

  lemma {:induction false} EliminateYnKeepsNormal(e: Expr)
    requires Normal(e)
    ensures Normal(EliminateYn(e))
  {
    if e.Bin? {
      EliminateYnKeepsNormal(e.left);
      EliminateYnKeepsNormal(e.right);
    }
  }

  /** `expr_eliminate_dups` keeps the normal form. */
  lemma {:induction false} DupsKeepsNormal(e: Expr)
    requires Normal(e)
    ensures Normal(Dups(e))
    decreases Size(e)
  {
    RoundShrinks(e);
    if !Settled(e) {
      if e.Bin? {
        Dups1KeepsNormal(e, e.op, [], []);
        EliminateYnKeepsNormal(DupsPass(e).tree);
      }
      DupsKeepsNormal(Round(e));
    }
  }
}
