/**
 The removal of duplicate operands (`expr_eliminate_dups1` and
 `expr_eliminate_dups` of `expr.c`).

 The C code walks one tree against itself through two pointers and rewrites
 the leaves they reach.  Here the tree is a value and the two pointers are two
 positions in it; "the same leaf" is the same position.
 */
module Duplicates {
  import opened Wrappers
  import opened Expressions
  import opened Elimination
  import opened Joining
  import opened Numbers
  import opened Operands
  import T = Tristates

  // ----- positions in a tree: false goes left, true goes right

  type Position = seq<bool>

  /** The position is reached through `op` nodes only. */
  predicate OnSpine(e: Expr, op: BinOp, p: Position) {
    p == [] || (IsOp(e, op) && OnSpine(if p[0] then e.right else e.left, op, p[1..]))
  }

  function At(e: Expr, op: BinOp, p: Position): Expr
    requires OnSpine(e, op, p)
  {
    if p == [] then e else At(if p[0] then e.right else e.left, op, p[1..])
  }

  function Put(e: Expr, op: BinOp, p: Position, x: Expr): Expr
    requires OnSpine(e, op, p)
  {
    if p == [] then x
    else if p[0] then Bin(op, e.left, Put(e.right, op, p[1..], x))
    else Bin(op, Put(e.left, op, p[1..], x), e.right)
  }

  /** The number of nodes of the `op` spine. */
  function SpineSize(e: Expr, op: BinOp): nat {
    if IsOp(e, op) then 1 + SpineSize(e.left, op) + SpineSize(e.right, op) else 1
  }

  /** Two trees with the same `op` nodes at the top; only their leaves differ. */
  predicate SameSpine(e: Expr, e': Expr, op: BinOp) {
    if IsOp(e, op) then IsOp(e', op) && SameSpine(e.left, e'.left, op) && SameSpine(e.right, e'.right, op)
    else !IsOp(e', op)
  }

  predicate IsLeafAt(e: Expr, op: BinOp, p: Position) {
    OnSpine(e, op, p) && !IsOp(At(e, op, p), op)
  }

  // ----- expr_eliminate_dups1

  /** The rewritten tree, and by how much `trans_count` went up. */
  datatype Pass = Pass(tree: Expr, count: nat)

  /**
   `expr_eliminate_dups1` for the pointers p1 and p2 into the tree e.  The
   inner call on a leaf that is an operation of the other kind works on that
   leaf alone.
   */
  function Dups1(e: Expr, op: BinOp, p1: Position, p2: Position): (r: Pass)
    requires OnSpine(e, op, p1) && OnSpine(e, op, p2)
    ensures SameSpine(e, r.tree, op) && Size(r.tree) <= Size(e)
    decreases Size(e), SpineSize(At(e, op, p1), op) + SpineSize(At(e, op, p2), op)
  {
    var e1, e2 := At(e, op, p1), At(e, op, p2);
    SpineSteps(e, op, p1);
    SpineSteps(e, op, p2);
    SameSpineRefl(e, op);
    if IsOp(e1, op) then
      var a := Dups1(e, op, p1 + [false], p2);
      SpineKept(e, a.tree, op, p1 + [true]);
      SpineKept(e, a.tree, op, p2);
      var b := Dups1(a.tree, op, p1 + [true], p2);
      SameSpineTrans(e, a.tree, b.tree, op);
      Pass(b.tree, a.count + b.count)
    else if IsOp(e2, op) then
      var a := Dups1(e, op, p1, p2 + [false]);
      SpineKept(e, a.tree, op, p1);
      SpineKept(e, a.tree, op, p2 + [true]);
      var b := Dups1(a.tree, op, p1, p2 + [true]);
      SameSpineTrans(e, a.tree, b.tree, op);
      Pass(b.tree, a.count + b.count)
    else if p1 == p2 then Pass(e, 0)
    else
      LeavesAreDisjoint(e, op, p1, p2);
      AtIsSmaller(e, op, p1);
      var inner := if e1.Bin? then Dups1(e1, e1.op, [], []) else Pass(e1, 0);
      PutLeaf(e, op, p1, inner.tree);
      match JoinOperands(op, inner.tree, e2)
      case None => Pass(Put(e, op, p1, inner.tree), inner.count)
      case Some(joined) =>
        JoinIsSmall(op, inner.tree, e2);
        PutPair(e, op, p1, p2, Sym(Unit(op)), joined);
        Pass(Put(Put(e, op, p1, Sym(Unit(op))), op, p2, joined), inner.count + 1)
  }

  /** One pass over the whole tree. */
  function DupsPass(e: Expr): Pass {
    if e.Bin? then Dups1(e, e.op, [], []) else Pass(e, 0)
  }

  // ----- how the spine behaves

  lemma {:induction false} SpineSteps(e: Expr, op: BinOp, p: Position)
    requires OnSpine(e, op, p)
    ensures IsOp(At(e, op, p), op) ==>
              && OnSpine(e, op, p + [false]) && At(e, op, p + [false]) == At(e, op, p).left
              && OnSpine(e, op, p + [true]) && At(e, op, p + [true]) == At(e, op, p).right
  {
    if p != [] {
      SpineSteps(if p[0] then e.right else e.left, op, p[1..]);
      assert (p + [false])[1..] == p[1..] + [false] && (p + [true])[1..] == p[1..] + [true];
    }
  }

  lemma SameSpineRefl(e: Expr, op: BinOp)
    ensures SameSpine(e, e, op)
  {
  }

  lemma SameSpineTrans(e: Expr, f: Expr, g: Expr, op: BinOp)
    requires SameSpine(e, f, op) && SameSpine(f, g, op)
    ensures SameSpine(e, g, op)
  {
  }

  lemma {:induction false} SpineKept(e: Expr, e': Expr, op: BinOp, p: Position)
    requires SameSpine(e, e', op) && OnSpine(e, op, p)
    ensures OnSpine(e', op, p)
    ensures SameSpine(At(e, op, p), At(e', op, p), op)
    ensures SpineSize(At(e', op, p), op) == SpineSize(At(e, op, p), op)
  {
    if p == [] {
      SameSpineSize(e, e', op);
    } else if p[0] {
      SpineKept(e.right, e'.right, op, p[1..]);
    } else {
      SpineKept(e.left, e'.left, op, p[1..]);
    }
  }

  lemma SameSpineSize(e: Expr, e': Expr, op: BinOp)
    requires SameSpine(e, e', op)
    ensures SpineSize(e', op) == SpineSize(e, op)
  {
  }

  lemma {:induction false} AtIsSmaller(e: Expr, op: BinOp, p: Position)
    requires OnSpine(e, op, p)
    ensures Size(At(e, op, p)) + |p| <= Size(e)
  {
    if p != [] {
      AtIsSmaller(if p[0] then e.right else e.left, op, p[1..]);
    }
  }

  /** Different leaves lie in different places: neither position is a prefix of the other. */
  lemma {:induction false} LeavesAreDisjoint(e: Expr, op: BinOp, p1: Position, p2: Position)
    requires IsLeafAt(e, op, p1) && IsLeafAt(e, op, p2) && p1 != p2
    ensures p1 != [] && p2 != []
    ensures p1[0] == p2[0] ==> p1[1..] != p2[1..]
  {
    if p1 != [] && p2 != [] && p1[0] == p2[0] {
      assert p1 == [p1[0]] + p1[1..] && p2 == [p2[0]] + p2[1..];
    }
  }

  lemma {:induction false} PutLeaf(e: Expr, op: BinOp, p: Position, x: Expr)
    requires IsLeafAt(e, op, p) && !IsOp(x, op)
    ensures SameSpine(e, Put(e, op, p, x), op)
    ensures Size(Put(e, op, p, x)) == Size(e) - Size(At(e, op, p)) + Size(x)
  {
    if p != [] {
      PutLeaf(if p[0] then e.right else e.left, op, p[1..], x);
      SameSpineRefl(e, op);
    }
  }

  lemma {:induction false} PutPair(e: Expr, op: BinOp, p1: Position, p2: Position, x1: Expr, x2: Expr)
    requires IsLeafAt(e, op, p1) && IsLeafAt(e, op, p2) && p1 != p2 && !IsOp(x1, op) && !IsOp(x2, op)
    ensures IsLeafAt(Put(e, op, p1, x1), op, p2)
    ensures At(Put(e, op, p1, x1), op, p2) == At(e, op, p2)
    ensures var e' := Put(Put(e, op, p1, x1), op, p2, x2);
            && SameSpine(e, e', op)
            && IsLeafAt(e', op, p1) && At(e', op, p1) == x1
            && Size(e') == Size(e) - Size(At(e, op, p1)) - Size(At(e, op, p2)) + Size(x1) + Size(x2)
  {
    var f := Put(e, op, p1, x1);
    PutLeaf(e, op, p1, x1);
    PutElsewhere(e, op, p1, p2, x1);
    PutLeaf(f, op, p2, x2);
    SameSpineTrans(e, f, Put(f, op, p2, x2), op);
    AtPut(e, op, p1, x1);
    PutElsewhere(f, op, p2, p1, x2);
  }

  lemma {:induction false} PutElsewhere(e: Expr, op: BinOp, p: Position, q: Position, x: Expr)
    requires IsLeafAt(e, op, p) && IsLeafAt(e, op, q) && p != q && !IsOp(x, op)
    ensures IsLeafAt(Put(e, op, p, x), op, q)
    ensures At(Put(e, op, p, x), op, q) == At(e, op, q)
  {
    LeavesAreDisjoint(e, op, p, q);
    if p[0] == q[0] {
      PutElsewhere(if p[0] then e.right else e.left, op, p[1..], q[1..], x);
    }
  }

  lemma {:induction false} AtPut(e: Expr, op: BinOp, p: Position, x: Expr)
    requires IsLeafAt(e, op, p) && !IsOp(x, op)
    ensures IsLeafAt(Put(e, op, p, x), op, p) && At(Put(e, op, p, x), op, p) == x
  {
    if p != [] {
      AtPut(if p[0] then e.right else e.left, op, p[1..], x);
    }
  }

  // ----- a pass that joined something leaves a constant operand behind

  lemma {:induction false} UnitAtLeaf(e: Expr, op: BinOp, p: Position)
    requires OnSpine(e, op, p) && p != [] && IsYesNo(At(e, op, p))
    ensures HasYesNo(e)
  {
    var c := if p[0] then e.right else e.left;
    if |p| > 1 {
      UnitAtLeaf(c, op, p[1..]);
    } else {
      assert At(c, op, p[1..]) == c;
    }
  }

  lemma {:induction false} PutKeepsConstants(e: Expr, op: BinOp, p: Position, x: Expr)
    requires OnSpine(e, op, p) && HasYesNo(e)
    requires HasYesNo(At(e, op, p)) ==> HasYesNo(x)
    requires IsYesNo(At(e, op, p)) ==> x == At(e, op, p)
    ensures HasYesNo(Put(e, op, p, x))
  {
    if p != [] {
      var c := if p[0] then e.right else e.left;
      if HasYesNo(c) {
        PutKeepsConstants(c, op, p[1..], x);
      }
      if IsYesNo(c) {
        assert At(c, op, p[1..]) == c;
      }
    }
  }

  lemma {:induction false} PutReveals(e: Expr, op: BinOp, p: Position, x: Expr)
    requires OnSpine(e, op, p) && HasYesNo(x)
    ensures HasYesNo(Put(e, op, p, x))
  {
    if p != [] {
      PutReveals(if p[0] then e.right else e.left, op, p[1..], x);
    }
  }

  lemma {:induction false} JoinLeavesConstant(e: Expr, op: BinOp, p1: Position, p2: Position)
    requires OnSpine(e, op, p1) && OnSpine(e, op, p2)
    ensures var r := Dups1(e, op, p1, p2);
            && (r.count > 0 || HasYesNo(e) ==> HasYesNo(r.tree))
            && (r.count == 0 ==> r.tree == e)
    decreases Size(e), SpineSize(At(e, op, p1), op) + SpineSize(At(e, op, p2), op)
  {
    var e1, e2 := At(e, op, p1), At(e, op, p2);
    SpineSteps(e, op, p1);
    SpineSteps(e, op, p2);
    if IsOp(e1, op) {
      var a := Dups1(e, op, p1 + [false], p2);
      SpineKept(e, a.tree, op, p1 + [true]);
      SpineKept(e, a.tree, op, p2);
      JoinLeavesConstant(e, op, p1 + [false], p2);
      JoinLeavesConstant(a.tree, op, p1 + [true], p2);
    } else if IsOp(e2, op) {
      var a := Dups1(e, op, p1, p2 + [false]);
      SpineKept(e, a.tree, op, p1);
      SpineKept(e, a.tree, op, p2 + [true]);
      JoinLeavesConstant(e, op, p1, p2 + [false]);
      JoinLeavesConstant(a.tree, op, p1, p2 + [true]);
    } else if p1 != p2 {
      JoinLeavesConstantAtLeaves(e, op, p1, p2);
    }
  }

  lemma {:induction false} PutBack(e: Expr, op: BinOp, p: Position)
    requires OnSpine(e, op, p)
    ensures Put(e, op, p, At(e, op, p)) == e
  {
    if p != [] {
      PutBack(if p[0] then e.right else e.left, op, p[1..]);
    }
  }

  lemma {:induction false} JoinLeavesConstantAtLeaves(e: Expr, op: BinOp, p1: Position, p2: Position)
    requires IsLeafAt(e, op, p1) && IsLeafAt(e, op, p2) && p1 != p2
    ensures var r := Dups1(e, op, p1, p2);
            && (r.count > 0 || HasYesNo(e) ==> HasYesNo(r.tree))
            && (r.count == 0 ==> r.tree == e)
    decreases Size(e), 0
  {
    var e1, e2 := At(e, op, p1), At(e, op, p2);
    var inner := if e1.Bin? then Dups1(e1, e1.op, [], []) else Pass(e1, 0);
    LeavesAreDisjoint(e, op, p1, p2);
    AtIsSmaller(e, op, p1);
    PutBack(e, op, p1);
    if e1.Bin? {
      JoinLeavesConstant(e1, e1.op, [], []);
    }
    match JoinOperands(op, inner.tree, e2) {
      case None =>
        if HasYesNo(inner.tree) {
          PutReveals(e, op, p1, inner.tree);
        } else if HasYesNo(e) {
          PutKeepsConstants(e, op, p1, inner.tree);
        }
      case Some(joined) =>
        JoinIsSmall(op, inner.tree, e2);
        PutPair(e, op, p1, p2, Sym(Unit(op)), joined);
        UnitAtLeaf(Dups1(e, op, p1, p2).tree, op, p1);
    }
  }

  // ----- a pass keeps the value

  /** The value of everything on the spine except the operand at p. */
  ghost function RestOf(e: Expr, op: BinOp, p: Position, env: Env): T.Tristate
    requires OnSpine(e, op, p) && ConstsFixed(env)
  {
    if p == [] then env.tri(Unit(op))
    else if p[0] then Combine(op, Calc(e.left, env), RestOf(e.right, op, p[1..], env))
    else Combine(op, Calc(e.right, env), RestOf(e.left, op, p[1..], env))
  }

  lemma {:induction false} CalcPut(e: Expr, op: BinOp, p: Position, x: Expr, env: Env)
    requires OnSpine(e, op, p) && ConstsFixed(env)
    ensures Calc(Put(e, op, p, x), env) == Combine(op, RestOf(e, op, p, env), Calc(x, env))
  {
    if p == [] {
      CombineUnit(op, Calc(x, env), env);
    } else if p[0] {
      hide Combine;
      CalcPut(e.right, op, p[1..], x, env);
      CombineRegroups(op, Calc(e.left, env), RestOf(e.right, op, p[1..], env), Calc(x, env), env.tri(Unit(op)));
    } else {
      hide Combine;
      CalcPut(e.left, op, p[1..], x, env);
      CombineSwaps(op, Calc(Put(e.left, op, p[1..], x), env), Calc(e.right, env));
      CombineRegroups(op, Calc(e.right, env), RestOf(e.left, op, p[1..], env), Calc(x, env), env.tri(Unit(op)));
    }
  }

  lemma CombineUnit(op: BinOp, v: T.Tristate, env: Env)
    requires ConstsFixed(env)
    ensures Combine(op, env.tri(Unit(op)), v) == v
  {
  }

  lemma {:induction false} CalcPutPair(e: Expr, op: BinOp, p1: Position, p2: Position, x1: Expr, x2: Expr, env: Env)
    requires IsLeafAt(e, op, p1) && IsLeafAt(e, op, p2) && p1 != p2 && !IsOp(x1, op) && ConstsFixed(env)
    requires OnSpine(Put(e, op, p1, x1), op, p2)
    requires Combine(op, Calc(x1, env), Calc(x2, env))
            == Combine(op, Calc(At(e, op, p1), env), Calc(At(e, op, p2), env))
    ensures Calc(Put(Put(e, op, p1, x1), op, p2, x2), env) == Calc(e, env)
  {
    LeavesAreDisjoint(e, op, p1, p2);
    var s1, s2 := if p1[0] then e.right else e.left, if p2[0] then e.right else e.left;
    if p1[0] == p2[0] {
      CalcPutPair(s1, op, p1[1..], p2[1..], x1, x2, env);
    } else {
      CalcPut(s1, op, p1[1..], x1, env);
      CalcPut(s1, op, p1[1..], At(e, op, p1), env);
      PutBack(s1, op, p1[1..]);
      CalcPut(s2, op, p2[1..], x2, env);
      CalcPut(s2, op, p2[1..], At(e, op, p2), env);
      PutBack(s2, op, p2[1..]);
      var r1, r2 := RestOf(s1, op, p1[1..], env), RestOf(s2, op, p2[1..], env);
      SwapOperands(op, r1, r2, Calc(x1, env), Calc(x2, env), Calc(At(e, op, p1), env), Calc(At(e, op, p2), env));
    }
  }

  lemma SwapOperands(op: BinOp, r1: T.Tristate, r2: T.Tristate, x1: T.Tristate, x2: T.Tristate, y1: T.Tristate,
      y2: T.Tristate)
    requires Combine(op, x1, x2) == Combine(op, y1, y2)
    ensures Combine(op, Combine(op, r1, x1), Combine(op, r2, x2))
            == Combine(op, Combine(op, r1, y1), Combine(op, r2, y2))
    ensures Combine(op, Combine(op, r2, x2), Combine(op, r1, x1))
            == Combine(op, Combine(op, r2, y2), Combine(op, r1, y1))
  {
    CombineSwaps(op, Combine(op, r1, x1), Combine(op, r2, x2));
    CombineSwaps(op, Combine(op, r1, y1), Combine(op, r2, y2));
    CombineRegroups(op, r1, x1, r2, x2);
    CombineRegroups(op, r1, y1, r2, y2);
    hide Combine;
  }

  lemma CombineSwaps(op: BinOp, a: T.Tristate, b: T.Tristate)
    ensures Combine(op, a, b) == Combine(op, b, a)
  {
  }

  lemma {:induction false} PlainAt(e: Expr, op: BinOp, p: Position, x: Expr)
    requires OnSpine(e, op, p) && PlainConstants(e)
    ensures PlainConstants(At(e, op, p))
    ensures PlainConstants(x) ==> PlainConstants(Put(e, op, p, x))
  {
    if p != [] {
      PlainAt(if p[0] then e.right else e.left, op, p[1..], x);
    }
  }

  /** Every rewrite of the pass keeps the value. */
  lemma {:induction false} Dups1KeepsValue(e: Expr, op: BinOp, p1: Position, p2: Position, env: Env)
    requires OnSpine(e, op, p1) && OnSpine(e, op, p2) && WellFormed(env) && PlainConstants(e)
    ensures Calc(Dups1(e, op, p1, p2).tree, env) == Calc(e, env)
    ensures PlainConstants(Dups1(e, op, p1, p2).tree)
    decreases Size(e), SpineSize(At(e, op, p1), op) + SpineSize(At(e, op, p2), op)
  {
    var e1, e2 := At(e, op, p1), At(e, op, p2);
    SpineSteps(e, op, p1);
    SpineSteps(e, op, p2);
    if IsOp(e1, op) {
      var a := Dups1(e, op, p1 + [false], p2);
      SpineKept(e, a.tree, op, p1 + [true]);
      SpineKept(e, a.tree, op, p2);
      Dups1KeepsValue(e, op, p1 + [false], p2, env);
      Dups1KeepsValue(a.tree, op, p1 + [true], p2, env);
    } else if IsOp(e2, op) {
      var a := Dups1(e, op, p1, p2 + [false]);
      SpineKept(e, a.tree, op, p1);
      SpineKept(e, a.tree, op, p2 + [true]);
      Dups1KeepsValue(e, op, p1, p2 + [false], env);
      Dups1KeepsValue(a.tree, op, p1, p2 + [true], env);
    } else if p1 != p2 {
      Dups1KeepsValueAtLeaves(e, op, p1, p2, env);
    }
  }

  lemma {:induction false} Dups1KeepsValueAtLeaves(e: Expr, op: BinOp, p1: Position, p2: Position, env: Env)
    requires IsLeafAt(e, op, p1) && IsLeafAt(e, op, p2) && p1 != p2 && WellFormed(env) && PlainConstants(e)
    ensures Calc(Dups1(e, op, p1, p2).tree, env) == Calc(e, env)
    ensures PlainConstants(Dups1(e, op, p1, p2).tree)
    decreases Size(e), 0
  {
    var e1, e2 := At(e, op, p1), At(e, op, p2);
    var inner := if e1.Bin? then Dups1(e1, e1.op, [], []) else Pass(e1, 0);
    LeavesAreDisjoint(e, op, p1, p2);
    AtIsSmaller(e, op, p1);
    PlainAt(e, op, p1, inner.tree);
    PlainAt(e, op, p2, e2);
    if e1.Bin? {
      Dups1KeepsValue(e1, e1.op, [], [], env);
    }
    match JoinOperands(op, inner.tree, e2) {
      case None =>
        PutBack(e, op, p1);
        CalcPut(e, op, p1, e1, env);
        CalcPut(e, op, p1, inner.tree, env);
      case Some(joined) =>
        JoinKeepsValue(op, inner.tree, e2, env);
        JoinKeepsPlain(op, inner.tree, e2);
        JoinIsSmall(op, inner.tree, e2);
        PutPair(e, op, p1, p2, Sym(Unit(op)), joined);
        CalcPutPair(e, op, p1, p2, Sym(Unit(op)), joined, env);
        PlainAt(e, op, p1, Sym(Unit(op)));
        PlainAt(Put(e, op, p1, Sym(Unit(op))), op, p2, joined);
    }
  }

  // ----- expr_eliminate_dups

  /** One round of the loop: a pass that joined something is followed by constant folding. */
  function Round(e: Expr): Expr {
    var p := DupsPass(e);
    if p.count == 0 then p.tree else EliminateYn(p.tree)
  }

  /** No operand is left to join. */
  predicate Settled(e: Expr) {
    DupsPass(e).count == 0
  }

  lemma RoundShrinks(e: Expr)
    ensures Settled(e) ==> Round(e) == e
    ensures !Settled(e) ==> Size(Round(e)) < Size(e)
  {
    if e.Bin? {
      JoinLeavesConstant(e, e.op, [], []);
      EliminateYnRemovesConstants(DupsPass(e).tree);
    }
  }

  lemma {:induction false} EliminateYnKeepsPlain(e: Expr)
    requires PlainConstants(e)
    ensures PlainConstants(EliminateYn(e))
  {
    if e.Bin? {
      EliminateYnKeepsPlain(e.left);
      EliminateYnKeepsPlain(e.right);
    }
  }

  lemma RoundKeepsValue(e: Expr, env: Env)
    requires WellFormed(env) && PlainConstants(e)
    ensures Calc(Round(e), env) == Calc(e, env)
    ensures PlainConstants(Round(e))
  {
    if e.Bin? {
      Dups1KeepsValue(e, e.op, [], [], env);
      EliminateYnKeepsValue(DupsPass(e).tree, env);
      EliminateYnKeepsPlain(DupsPass(e).tree);
    }
  }

  /** What the loop of `expr_eliminate_dups` computes: rounds until nothing is joined. */
  function Dups(e: Expr): (r: Expr)
    ensures Size(r) <= Size(e)
    decreases Size(e)
  {
    RoundShrinks(e);
    if Settled(e) then e else Dups(Round(e))
  }

  /** `expr_eliminate_dups`. */
  method EliminateDups(e: Expr) returns (r: Expr)
    ensures r == Dups(e)
  {
    r := e;
    while true
      invariant Dups(r) == Dups(e)
      decreases Size(r)
    {
      RoundShrinks(r);
      var pass := DupsPass(r);
      if pass.count == 0 {
        break;
      }
      r := EliminateYn(pass.tree);
    }
  }

  /** The result has the value of the original, is no larger, and has nothing left to join. */
  lemma {:induction false} DupsKeepsValue(e: Expr, env: Env)
    requires WellFormed(env) && PlainConstants(e)
    ensures Calc(Dups(e), env) == Calc(e, env)
    ensures PlainConstants(Dups(e))
    decreases Size(e)
  {
    RoundShrinks(e);
    if !Settled(e) {
      RoundKeepsValue(e, env);
      DupsKeepsValue(Round(e), env);
    }
  }

  lemma {:induction false} DupsIsSettled(e: Expr)
    ensures Settled(Dups(e)) && Dups(Dups(e)) == Dups(e)
    decreases Size(e)
  {
    RoundShrinks(e);
    if !Settled(e) {
      DupsIsSettled(Round(e));
    }
  }

  /** `s rel c` and `s rel d` with two different letters. */
  predicate TwoLetters(a: Expr, b: Expr, rel: RelOp) {
    && a.Comp? && b.Comp? && a.rel == b.rel == rel && a.lsym == b.lsym && a.lsym.Type() == Tri
    && IsLetter(a.rsym) && IsLetter(b.rsym) && a.rsym != b.rsym
  }

  /** Two operands of an OR that are one, or none. */
  predicate RedundantOr(a: Expr, b: Expr) {
    || TwoLetters(a, b, EQUAL)
    || (a.Sym? && a.sym.Type() == Boolean && b == Not(a))
  }

  /** Two operands of an AND that are one, or none. */
  predicate RedundantAnd(a: Expr, b: Expr) {
    || TwoLetters(a, b, UNEQUAL)
    || (a.Sym? && a.sym.Logical()
        && b in [Comp(EQUAL, a.sym, ConstYes), Comp(UNEQUAL, a.sym, ConstMod), Comp(UNEQUAL, a.sym, ConstNo)])
    || (a.Comp? && b.Comp? && a.lsym == b.lsym && a.lsym.Type() == Tri && a.rel == EQUAL && b.rel == UNEQUAL
        && a.rsym.IsConst() && b.rsym.IsConst())
  }

  /** The same operand twice, without constants in any order, or two operands that are one. */
  ghost predicate Redundant(op: BinOp, a: Expr, b: Expr) {
    || a == b
    || (NoConstants(a) && NoConstants(b) && ShapeOf(a) == ShapeOf(b))
    || (if op == OR then RedundantOr(a, b) else RedundantAnd(a, b))
  }

  /** Two operands are joined exactly if they are equal or one of the pairs, in either order. */
  lemma JoinedExact(op: BinOp, a: Expr, b: Expr)
    ensures JoinOperands(op, a, b).Some?
            <==> || Equal(a, b)
                 || (if op == OR then RedundantOr(a, b) || RedundantOr(b, a)
                     else RedundantAnd(a, b) || RedundantAnd(b, a))
  {
    hide Equal;
  }

  /** What is redundant is joined. */
  lemma RedundantIsJoined(op: BinOp, a: Expr, b: Expr)
    requires Redundant(op, a, b)
    ensures JoinOperands(op, a, b).Some?
  {
    hide Equal;
    if a == b {
      EqualToItself(a);
    } else if NoConstants(a) && NoConstants(b) && ShapeOf(a) == ShapeOf(b) {
      EqualExact(a, b);
    }
    hide ShapeOf, NoConstants;
  }

  /** No AND or OR, outside negations, has two operands of which one is redundant. */
  ghost predicate NoneRedundant(e: Expr)
    decreases Size(e)
  {
    e.Bin? ==>
      && (forall p, q :: IsLeafAt(e, e.op, p) && IsLeafAt(e, e.op, q) && p != q ==>
            !Redundant(e.op, At(e, e.op, p), At(e, e.op, q)))
      && (forall p :: IsLeafAt(e, e.op, p) ==> Size(At(e, e.op, p)) < Size(e) && NoneRedundant(At(e, e.op, p)))
  }

  /** The result has no redundant operands, at any level of ANDs and ORs. */
  lemma DupsLeavesNoDuplicates(e: Expr)
    ensures NoneRedundant(Dups(e))
  {
    DupsIsSettled(e);
    SettledHasNoneRedundant(Dups(e));
  }

  lemma {:induction false} SettledHasNoneRedundant(e: Expr)
    requires Settled(e)
    ensures NoneRedundant(e)
    decreases Size(e)
  {
    if e.Bin? {
      hide Dups1, Redundant, JoinOperands, OnSpine, Settled;
      forall p, q | IsLeafAt(e, e.op, p) && IsLeafAt(e, e.op, q) && p != q
        ensures !Redundant(e.op, At(e, e.op, p), At(e, e.op, q))
      {
        NothingJoined(e, e.op, [], [], p, q) by { SettledMeans(e); }
        if Redundant(e.op, At(e, e.op, p), At(e, e.op, q)) {
          RedundantIsJoined(e.op, At(e, e.op, p), At(e, e.op, q));
        }
      }
      forall p | IsLeafAt(e, e.op, p) ensures Size(At(e, e.op, p)) < Size(e) && NoneRedundant(At(e, e.op, p)) {
        var q := OtherLeaf(e, e.op, p);
        AtIsSmaller(e, e.op, p);
        LeafIsSettled(e, p, q);
        SettledHasNoneRedundant(At(e, e.op, p));
      }
    }
  }

  lemma SettledMeans(e: Expr)
    requires e.Bin? && Settled(e)
    ensures Dups1(e, e.op, [], []).count == 0
  {
    hide Dups1;
  }

  /** Besides an operand of an AND or OR there is another one. */
  lemma OtherLeaf(e: Expr, op: BinOp, p: Position) returns (q: Position)
    requires IsOp(e, op) && IsLeafAt(e, op, p)
    ensures IsLeafAt(e, op, q) && q != p && p != []
  {
    var rest := LeafBelow(if p[0] then e.left else e.right, op);
    q := [!p[0]] + rest;
    assert q[1..] == rest;
  }

  lemma {:induction false} LeafBelow(e: Expr, op: BinOp) returns (p: Position)
    ensures IsLeafAt(e, op, p)
  {
    if IsOp(e, op) {
      var rest := LeafBelow(e.left, op);
      p := [false] + rest;
      assert p[1..] == rest;
    } else {
      p := [];
    }
  }

  /** An operand that was compared with another one has been searched itself. */
  lemma LeafIsSettled(e: Expr, p: Position, q: Position)
    requires e.Bin? && Settled(e) && IsLeafAt(e, e.op, p) && IsLeafAt(e, e.op, q) && p != q
    ensures Settled(At(e, e.op, p))
  {
    SettledMeans(e);
    hide Dups1;
    NothingJoined(e, e.op, [], [], p, q);
  }

  /** A walk that counted nothing compared every pair of leaves below its two pointers. */
  lemma {:induction false} NothingJoined(e: Expr, op: BinOp, p1: Position, p2: Position, q1: Position, q2: Position)
    requires OnSpine(e, op, p1) && OnSpine(e, op, p2) && Dups1(e, op, p1, p2).count == 0
    requires p1 <= q1 && p2 <= q2 && IsLeafAt(e, op, q1) && IsLeafAt(e, op, q2) && q1 != q2
    ensures JoinOperands(op, At(e, op, q1), At(e, op, q2)).None? && Settled(At(e, op, q1))
    decreases SpineSize(At(e, op, p1), op) + SpineSize(At(e, op, p2), op)
  {
    SpineSteps(e, op, p1);
    SpineSteps(e, op, p2);
    if IsOp(At(e, op, p1), op) {
      JoinLeavesConstant(e, op, p1 + [false], p2);
      NextStep(p1, q1);
      if q1[|p1|] {
        NothingJoined(e, op, p1 + [true], p2, q1, q2);
      } else {
        NothingJoined(e, op, p1 + [false], p2, q1, q2);
      }
    } else if IsOp(At(e, op, p2), op) {
      JoinLeavesConstant(e, op, p1, p2 + [false]);
      NextStep(p2, q2);
      if q2[|p2|] {
        NothingJoined(e, op, p1, p2 + [true], q1, q2);
      } else {
        NothingJoined(e, op, p1, p2 + [false], q1, q2);
      }
    } else {
      NoSpineBelowLeaf(e, op, p1, q1);
      NoSpineBelowLeaf(e, op, p2, q2);
      var e1 := At(e, op, p1);
      if e1.Bin? {
        JoinLeavesConstant(e1, e1.op, [], []);
      }
    }
  }

  lemma NextStep(p: Position, q: Position)
    requires p <= q && p != q
    ensures |p| < |q| && p + [q[|p|]] <= q
  {
  }

  lemma {:induction false} NoSpineBelowLeaf(e: Expr, op: BinOp, p: Position, q: Position)
    requires IsLeafAt(e, op, p) && OnSpine(e, op, q) && p <= q
    ensures p == q
  {
    if p != [] {
      NoSpineBelowLeaf(if p[0] then e.right else e.left, op, p[1..], q[1..]);
      assert p == [p[0]] + p[1..] && q == [q[0]] + q[1..];
    }
  }

  /** A tristate compared with a number can change its value: `A = m && A != "1"` becomes `A = m`. */
  lemma NumbersBreakDups()
    ensures var a := Config("A", Tri);
            var e := Bin(AND, Comp(EQUAL, a, ConstMod), Comp(UNEQUAL, a, Const("1")));
            exists env :: WellFormed(env) && Calc(Dups(e), env) != Calc(e, env)
  {
    var a := Config("A", Tri);
    var e1, e2 := Comp(EQUAL, a, ConstMod), Comp(UNEQUAL, a, Const("1"));
    var env := UniformEnv(T.MOD);
    assert JoinAnd(e1, e2) == Some(e1);
    TwoJoined(e1, e2);
    NumbersAreEqual(a, e1, e2, env);
    hide Dups, UniformEnv, WellFormed, Calc;
  }

  /** Both constants are equal to a tristate that is `m`. */
  lemma NumbersAreEqual(a: Symbol, e1: Expr, e2: Expr, env: Env)
    requires a.Type() == Tri && e1 == Comp(EQUAL, a, ConstMod) && e2 == Comp(UNEQUAL, a, Const("1"))
    requires env == UniformEnv(T.MOD) && a.Config?
    ensures WellFormed(env) && Calc(e1, env) == T.YES && Calc(Bin(AND, e1, e2), env) == T.NO
  {
    UniformEnvIsWellFormed(T.MOD);
    assert env.tri(a) == T.MOD;
    hide WellFormed, UniformEnv, Ordering;
    MatchesIsEqual(a, ConstMod, EQUAL, env);
    MatchesIsEqual(a, Const("1"), UNEQUAL, env);
    LetterIsNoNumber(T.MOD);
    assert Digits("1", 10, 0) == Digits([], 10, 1);
  }

  /** Two comparisons of which the first is what remains of both. */
  lemma TwoJoined(left: Expr, right: Expr)
    requires left.Comp? && right.Comp? && JoinAnd(left, right) == Some(left)
    ensures Dups(Bin(AND, left, right)) == left
  {
    var e, t := Bin(AND, left, right), Bin(AND, Sym(ConstYes), left);
    TwoAt(left, right);
    TwoAt(Sym(ConstYes), left);
    assert Put(Put(e, AND, [false], Sym(ConstYes)), AND, [true], left) == t;
    PutBack(e, AND, [false]);
    PutBack(t, AND, [true]);
    YesJoinsNothing(left);
    hide JoinAnd, Put, At;
    assert Dups1(e, AND, [false], [true]) == Pass(t, 1);
    assert Dups1(e, AND, [false], []) == Pass(t, 1);
    assert Dups1(t, AND, [true], [false]) == Pass(t, 0) && Dups1(t, AND, [true], [true]) == Pass(t, 0);
    assert Dups1(t, AND, [true], []) == Pass(t, 0);
    assert DupsPass(e) == Pass(t, 1);
    hide Dups1;
    assert EliminateYn(Sym(ConstYes)) == Sym(ConstYes) && EliminateYn(left) == left;
    assert EliminateYn(t) == left;
    assert Round(e) == left;
  }

  lemma YesJoinsNothing(e: Expr)
    requires e.Comp?
    ensures JoinAnd(e, Sym(ConstYes)) == None
  {
  }

  /** Two comparisons that cannot be joined. */
  lemma NothingToJoin(left: Expr, right: Expr)
    requires left.Comp? && right.Comp? && JoinAnd(left, right) == None && JoinAnd(right, left) == None
    ensures Dups(Bin(AND, left, right)) == Bin(AND, left, right)
  {
    var e := Bin(AND, left, right);
    TwoAt(left, right);
    PutBack(e, AND, [false]);
    PutBack(e, AND, [true]);
    hide JoinAnd, Put, At;
    assert Dups1(e, AND, [false], [true]) == Pass(e, 0) && Dups1(e, AND, [true], [false]) == Pass(e, 0);
    assert Dups1(e, AND, [false], []) == Pass(e, 0) && Dups1(e, AND, [true], []) == Pass(e, 0);
    assert DupsPass(e) == Pass(e, 0);
  }

  /** The two operands, by their positions. */
  lemma TwoAt(left: Expr, right: Expr)
    ensures var e := Bin(AND, left, right);
            && [] + [false] == [false] && [] + [true] == [true] && At(e, AND, []) == e
            && At(e, AND, [false]) == left && At(e, AND, [true]) == right
  {
    assert [false][1..] == [] && [true][1..] == [];
  }
}
