/**
 The menu tree (`menu.c`): `menu_finalize` relinks it in place, and
 `conf_write` of `confdata.c` walks it through its `list`, `next` and `parent`
 pointers.
 */
module Menus {
  import opened Sequences
  import opened Wrappers
  import opened Expressions
  import opened NormalForms
  import opened Submenus
  import opened Duplicates
  import opened Transforming
  import opened Joining
  import T = Tristates

  /** A `struct menu`.  The prompt, if there is one, is represented by its condition. */
  class Menu {
    var next: Menu?
    var parent: Menu?
    var list: Menu?
    const sym: Option<Symbol>
    const isChoice: bool
    const hasPrompt: bool
    /** The prompt has a text. */
    const hasText: bool
    var dep: Option<Expr>
    var visible: Option<Expr>

    constructor (sym: Option<Symbol>, isChoice: bool, hasPrompt: bool, hasText: bool, dep: Option<Expr>,
        visible: Option<Expr>)
      ensures next == null && parent == null && list == null
      ensures this.sym == sym && this.isChoice == isChoice && this.hasPrompt == hasPrompt && this.hasText == hasText
      ensures this.dep == dep && this.visible == visible
    {
      next, parent, list := null, null, null;
      this.sym, this.isChoice, this.hasPrompt, this.hasText := sym, isChoice, hasPrompt, hasText;
      this.dep, this.visible := dep, visible;
    }
  }

  // ----- the tree that the pointers stand for

  /** A list of siblings, each with its children. */
  datatype Forest = Nil | Cons(node: Menu, kids: Forest, rest: Forest)

  /** The nodes from top to bottom. */
  ghost function Preorder(f: Forest): seq<Menu> {
    match f
    case Nil => []
    case Cons(n, k, r) => [n] + Preorder(k) + Preorder(r)
  }

  ghost function Nodes(f: Forest): set<Menu> {
    match f
    case Nil => {}
    case Cons(n, k, r) => {n} + Nodes(k) + Nodes(r)
  }

  /** No node occurs twice. */
  ghost predicate Distinct(f: Forest) {
    match f
    case Nil => true
    case Cons(n, k, r) =>
      n !in Nodes(k) && n !in Nodes(r) && Nodes(k) !! Nodes(r) && Distinct(k) && Distinct(r)
  }

  ghost function Append(f: Forest, g: Forest): Forest {
    match f
    case Nil => g
    case Cons(n, k, r) => Cons(n, k, Append(r, g))
  }

  /** The pointers from `first` on form the forest, below `par`, and end in `last`. */
  ghost predicate Segment(first: Menu?, par: Menu?, f: Forest, last: Menu?)
    reads Nodes(f)`next, Nodes(f)`parent, Nodes(f)`list
    decreases f
  {
    match f
    case Nil => first == last
    case Cons(n, k, r) =>
      first == n && n.parent == par && Segment(n.list, n, k, null) && Segment(n.next, par, r, last)
  }

  ghost predicate Linked(first: Menu?, par: Menu?, f: Forest)
    reads Nodes(f)`next, Nodes(f)`parent, Nodes(f)`list
  {
    Segment(first, par, f, null)
  }

  lemma {:induction false} AppendFacts(f: Forest, g: Forest)
    ensures Nodes(Append(f, g)) == Nodes(f) + Nodes(g)
    ensures Preorder(Append(f, g)) == Preorder(f) + Preorder(g)
    ensures Distinct(Append(f, g)) <==> Distinct(f) && Distinct(g) && Nodes(f) !! Nodes(g)
  {
    AppendPreorder(f, g);
    if f.Cons? {
      AppendFacts(f.rest, g);
    }
  }

  lemma {:induction false} AppendPreorder(f: Forest, g: Forest)
    ensures Preorder(Append(f, g)) == Preorder(f) + Preorder(g)
  {
    if f.Cons? {
      AppendPreorder(f.rest, g);
      SeqAssoc([f.node] + Preorder(f.kids), Preorder(f.rest), Preorder(g));
    } else {
      assert [] + Preorder(g) == Preorder(g);
    }
  }

  lemma {:induction false} AppendAssoc(f: Forest, g: Forest, h: Forest)
    ensures Append(Append(f, g), h) == Append(f, Append(g, h)) && Append(f, Nil) == f
  {
    if f.Cons? {
      AppendAssoc(f.rest, g, h);
    }
  }

  lemma {:induction false} SegmentAppend(first: Menu?, par: Menu?, f: Forest, mid: Menu?, g: Forest, last: Menu?)
    requires Segment(first, par, f, mid) && Segment(mid, par, g, last)
    ensures Segment(first, par, Append(f, g), last)
  {
    if f.Cons? {
      SegmentAppend(f.node.next, par, f.rest, mid, g, last);
    }
  }

  /** What is left of a list of siblings after some at its beginning. */
  ghost predicate IsTail(f: Forest, g: Forest) {
    f == g || (g.Cons? && IsTail(f, g.rest))
  }

  lemma TailRefl(f: Forest)
    ensures IsTail(f, f) && (f.Cons? ==> IsTail(f.rest, f))
  {
  }

  lemma {:induction false} TailTrans(f: Forest, g: Forest, h: Forest)
    requires IsTail(f, g) && IsTail(g, h)
    ensures IsTail(f, h)
  {
    if g != h {
      TailTrans(f, g, h.rest);
    }
  }

  ghost predicate NoDuplicates(s: seq<Menu>) {
    forall i, j :: 0 <= i < j < |s| ==> s[i] != s[j]
  }

  ghost function Elements(s: seq<Menu>): set<Menu> {
    set n | n in s
  }

  lemma {:induction false} NodesArePreorder(f: Forest)
    ensures Nodes(f) == Elements(Preorder(f))
  {
    if f.Cons? {
      NodesArePreorder(f.kids);
      NodesArePreorder(f.rest);
      assert Elements([f.node] + Preorder(f.kids) + Preorder(f.rest))
          == {f.node} + Elements(Preorder(f.kids)) + Elements(Preorder(f.rest));
    }
  }

  lemma {:induction false} DistinctIsNoDuplicates(f: Forest)
    ensures Distinct(f) <==> NoDuplicates(Preorder(f))
  {
    if f.Cons? {
      hide NoDuplicates, Elements;
      DistinctIsNoDuplicates(f.kids);
      DistinctIsNoDuplicates(f.rest);
      NodesArePreorder(f.kids);
      NodesArePreorder(f.rest);
      NoDuplicatesSingle(f.node);
      NoDuplicatesConcat([f.node], Preorder(f.kids));
      NoDuplicatesConcat([f.node] + Preorder(f.kids), Preorder(f.rest));
      ElementsConcat([f.node], Preorder(f.kids));
    }
  }

  lemma ElementsConcat(a: seq<Menu>, b: seq<Menu>)
    ensures Elements(a + b) == Elements(a) + Elements(b)
  {
  }

  lemma NoDuplicatesSingle(n: Menu)
    ensures NoDuplicates([n]) && Elements([n]) == {n}
  {
  }

  lemma NoDuplicatesConcat(a: seq<Menu>, b: seq<Menu>)
    ensures NoDuplicates(a + b) <==> NoDuplicates(a) && NoDuplicates(b) && Elements(a) !! Elements(b)
  {
    var c := a + b;
    if NoDuplicates(c) {
      assert forall i :: 0 <= i < |a| ==> a[i] == c[i];
      assert forall j :: 0 <= j < |b| ==> b[j] == c[|a| + j];
      assert Elements(a) * Elements(b) == {};
    }
    if NoDuplicates(a) && NoDuplicates(b) && Elements(a) !! Elements(b) {
      forall i, j | 0 <= i < j < |c| ensures c[i] != c[j] {
        if i < |a| <= j { assert c[i] in Elements(a) && c[j] in Elements(b); }
      }
    }
  }

  /** Two forests with the same preorder have the same nodes, and are distinct together. */
  lemma SamePreorder(f: Forest, g: Forest)
    requires Preorder(f) == Preorder(g)
    ensures Nodes(f) == Nodes(g) && (Distinct(f) <==> Distinct(g))
  {
    NodesArePreorder(f);
    NodesArePreorder(g);
    DistinctIsNoDuplicates(f);
    DistinctIsNoDuplicates(g);
  }

  // ----- the expressions of menu_finalize

  /**
   A child's dependency below a parent's: `m` rewritten, transformed, joined
   with the parent's, duplicates removed.
   */
  function Propagate(parentdep: Option<Expr>, dep: Option<Expr>, modules: Symbol): Option<Expr> {
    var own := if dep.Some? then Some(Transform(RewriteM(dep.value, modules))) else None;
    match (parentdep, own)
    case (Some(p), Some(d)) => Some(Dups(Bin(AND, p, d)))
    case (Some(p), None) => Some(Dups(p))
    case (None, Some(d)) => Some(Dups(d))
    case (None, None) => None
  }

  lemma {:induction false} RewriteMKeepsShape(e: Expr, modules: Symbol)
    requires PlainConstants(e) && Comparable(e)
    ensures PlainConstants(RewriteM(e, modules)) && Comparable(RewriteM(e, modules))
  {
    match e
    case Not(a) => RewriteMKeepsShape(a, modules);
    case Bin(_, l, r) =>
      RewriteMKeepsShape(l, modules);
      RewriteMKeepsShape(r, modules);
    case _ =>
  }

  predicate Rewritable(e: Option<Expr>) {
    e.Some? ==> PlainConstants(e.value) && Comparable(e.value)
  }

  predicate PlainOpt(e: Option<Expr>) {
    e.Some? ==> PlainConstants(e.value)
  }

  /**
   A child is available as far as its parent is and as far as its own
   dependency, in which `m` counts as `n` without modules, allows.
   */
  lemma PropagateValue(parentdep: Option<Expr>, dep: Option<Expr>, modules: Symbol, env: Env)
    requires WellFormed(env) && PlainOpt(parentdep) && Rewritable(dep)
    ensures CalcOpt(Propagate(parentdep, dep, modules), env)
         == T.And(CalcOpt(parentdep, env), CalcOpt(dep, WithModules(env, modules)))
    ensures PlainOpt(Propagate(parentdep, dep, modules))
  {
    if dep.Some? {
      var m := RewriteM(dep.value, modules);
      RewriteMKeepsShape(dep.value, modules);
      RewriteMValue(dep.value, modules, env);
      TransformKeepsValue(m, env);
      TransformKeepsPlain(m);
      DupsKeepsValue(if parentdep.Some? then Bin(AND, parentdep.value, Transform(m)) else Transform(m), env);
    } else if parentdep.Some? {
      DupsKeepsValue(parentdep.value, env);
    }
  }

  // ----- menu_finalize

  /** The innermost loop of the flattening: the children of a menu get a new parent. */
  method Reparent(menu: Menu, p: Menu, ghost kids: Forest) returns (last: Menu, ghost front: Forest, ghost k: Forest)
    requires kids.Cons? && Linked(menu.list, menu, kids) && Distinct(kids) && menu !in Nodes(kids)
    modifies Nodes(kids)`parent
    ensures kids == Append(front, Cons(last, k, Nil)) && Segment(menu.list, p, front, last)
    ensures last.parent == p && last.next == null && Linked(last.list, last, k)
  {
    hide Preorder;
    last := menu.list;
    ghost var todo := kids.rest;
    front, k := Nil, kids.kids;
    last.parent := p;
    while last.next != null
      invariant kids == Append(front, Cons(last, k, todo))
      invariant Segment(menu.list, p, front, last)
      invariant last.parent == p && Linked(last.list, last, k) && Linked(last.next, menu, todo)
      decreases todo
    {
      AppendFacts(front, Cons(last, k, todo));
      ghost var here := Cons(last, k, Nil);
      SegmentAppend(menu.list, p, front, last, here, last.next);
      AppendAssoc(front, here, todo);
      AppendFacts(front, here);
      front, k, todo := Append(front, here), todo.kids, todo.rest;
      last := last.next;
      last.parent := p;
    }
  }

  /** The flattening of one promptless menu: its children become siblings that follow it. */
  method Splice(menu: Menu, p: Menu, ghost kids: Forest, ghost rest: Forest, ghost all: set<Menu>)
    requires Nodes(Cons(menu, kids, rest)) <= all
    requires kids.Cons? && Linked(menu.list, menu, kids) && Linked(menu.next, p, rest)
    requires Distinct(Cons(menu, kids, rest))
    modifies menu`next, menu`list, Nodes(kids)`parent, Nodes(kids)`next
    ensures menu.list == null && Linked(menu.next, p, Append(kids, rest))
  {
    assert Nodes(kids) !! Nodes(rest);
    ghost var front, k;
    var last;
    last, front, k := Reparent(menu, p, kids);
    AppendFacts(front, Cons(last, k, Nil));
    LinkLast(menu, p, front, last, k, rest);
    AppendAssoc(front, Cons(last, k, Nil), rest);
  }

  /** The three assignments after the loop. */
  method LinkLast(menu: Menu, p: Menu, ghost front: Forest, last: Menu, ghost k: Forest, ghost rest: Forest)
    requires Segment(menu.list, p, front, last) && last.parent == p && Linked(last.list, last, k)
            && Linked(menu.next, p, rest)
    requires Distinct(Cons(menu, Append(front, Cons(last, k, Nil)), rest))
    modifies menu`next, menu`list, last`next
    ensures menu.list == null && Linked(menu.next, p, Append(front, Cons(last, k, rest)))
  {
    hide Preorder;
    AppendFacts(front, Cons(last, k, Nil));
    AppendFacts(front, Cons(last, k, rest));
    ghost var all := Append(front, Cons(last, k, rest));
    assert last !in Nodes(front) && last !in Nodes(k) && last !in Nodes(rest) && menu !in Nodes(all);
    last.next := menu.next;
    assert Segment(menu.list, p, front, last) && Linked(last.list, last, k) && Linked(last.next, p, rest);
    SegmentAppend(menu.list, p, front, last, Cons(last, k, rest), null);
    hide Segment, Distinct;
    menu.next := menu.list;
    menu.list := null;
  }

  ghost function Count(f: Forest): nat {
    |Preorder(f)|
  }

  /** The siblings after flattening: what is below a promptless menu or an `if` follows it instead. */
  ghost function Flattened(f: Forest): Forest
    decreases Count(f)
  {
    match f
    case Nil => Nil
    case Cons(n, k, r) =>
      AppendPreorder(k, r);
      MoveUp(n, k, r);
      if k.Cons? && !(n.hasPrompt && n.hasText) then Cons(n, Nil, Flattened(Append(k, r))) else Cons(n, k, Flattened(r))
  }

  /** Flattening keeps the order, and leaves children only below menus that have a prompt with a text. */
  lemma {:induction false} FlattenedFacts(f: Forest)
    ensures Preorder(Flattened(f)) == Preorder(f)
    ensures AllPrompted(Flattened(f))
    decreases Count(f)
  {
    if f.Cons? {
      var n, k, r := f.node, f.kids, f.rest;
      AppendPreorder(k, r);
      MoveUp(n, k, r);
      if k.Cons? && !(n.hasPrompt && n.hasText) {
        FlattenedFacts(Append(k, r));
        assert Preorder(Cons(n, Nil, Flattened(Append(k, r)))) == Preorder(Cons(n, Nil, Append(k, r)));
      } else {
        FlattenedFacts(r);
      }
    }
  }

  ghost predicate AllPrompted(f: Forest) {
    f.Cons? ==> (f.kids.Cons? ==> f.node.hasPrompt && f.node.hasText) && AllPrompted(f.rest)
  }

  /** The loop that flattens promptless menus and `if` blocks. */
  method Flatten(p: Menu, ghost kids: Forest, ghost all: set<Menu>) returns (ghost kids': Forest)
    requires Linked(p.list, p, kids) && Distinct(Cons(p, kids, Nil)) && Nodes(kids) <= all
    modifies Nodes(kids)`next, Nodes(kids)`list, Nodes(kids)`parent
    ensures Linked(p.list, p, kids') && kids' == Flattened(kids) && Preorder(kids') == Preorder(kids)
  {
    var menu := p.list;
    ghost var front, todo := Nil, kids;
    while menu != null
      invariant Segment(p.list, p, front, menu) && Linked(menu, p, todo) && p.list == old(p.list)
      invariant Preorder(Append(front, todo)) == Preorder(kids)
      invariant Append(front, Flattened(todo)) == Flattened(kids)
      decreases Count(todo)
    {
      FlattenedNext(front, menu, todo);
      DistinctNext(front, todo, kids);
      ghost var k, r := todo.kids, todo.rest;
      assert Segment(menu.list, menu, k, null);
      if menu.list != null && !(menu.hasPrompt && menu.hasText) {
        Splice(menu, p, k, r, all);
        FlattenedStep(front, menu, k, r);
        k, r := Nil, Append(k, r);
      }
      ghost var here := Cons(menu, k, Nil);
      SegmentAppend(p.list, p, front, menu, here, menu.next);
      AppendAssoc(front, here, r);
      AppendAssoc(front, here, Flattened(r));
      front, todo := Append(front, here), r;
      menu := menu.next;
    }
    AppendAssoc(front, todo, Nil);
    kids' := front;
  }

  /** One entry is flattened, and then what follows it. */
  lemma FlattenedNext(front: Forest, menu: Menu, todo: Forest)
    requires todo.Cons? && todo.node == menu
    ensures var moved := todo.kids.Cons? && !(menu.hasPrompt && menu.hasText);
            var k, r := if moved then Nil else todo.kids, if moved then Append(todo.kids, todo.rest) else todo.rest;
            && Flattened(todo) == Cons(menu, k, Flattened(r)) && Count(r) < Count(todo)
  {
    AppendPreorder(todo.kids, todo.rest);
    MoveUp(menu, todo.kids, todo.rest);
    hide Append;
  }

  lemma DistinctNext(front: Forest, todo: Forest, kids: Forest)
    requires Preorder(Append(front, todo)) == Preorder(kids) && Distinct(kids)
    ensures Distinct(front) && Distinct(todo)
    ensures Nodes(front) !! Nodes(todo) && Nodes(front) + Nodes(todo) == Nodes(kids)
  {
    AppendFacts(front, todo);
    SamePreorder(Append(front, todo), kids);
  }

  lemma FlattenedStep(front: Forest, menu: Menu, k: Forest, r: Forest)
    ensures Preorder(Append(front, Cons(menu, Nil, Append(k, r)))) == Preorder(Append(front, Cons(menu, k, r)))
    ensures Count(Append(k, r)) < Count(Cons(menu, k, r))
  {
    AppendFacts(front, Cons(menu, Nil, Append(k, r)));
    AppendFacts(front, Cons(menu, k, r));
    AppendFacts(k, r);
    MoveUp(menu, k, r);
    hide Preorder, Append, Nodes, Distinct;
  }

  lemma MoveUp(menu: Menu, k: Forest, r: Forest)
    requires Preorder(Append(k, r)) == Preorder(k) + Preorder(r)
    ensures Preorder(Cons(menu, Nil, Append(k, r))) == Preorder(Cons(menu, k, r))
    ensures Count(Append(k, r)) < Count(Cons(menu, k, r))
  {
    assert Preorder(Cons(menu, Nil, Append(k, r))) == [menu] + [] + Preorder(Append(k, r));
    assert Preorder(Cons(menu, k, r)) == [menu] + Preorder(k) + Preorder(r);
  }

  /** The dependency that the children of a menu inherit. */
  function ParentDep(p: Menu): Option<Expr>
    reads p
  {
    if p.sym.Some? && p.isChoice then Some(Sym(p.sym.value))
    else if p.hasPrompt then p.visible
    else p.dep
  }

  /** The siblings themselves, without what is below them. */
  ghost function Top(f: Forest): set<Menu> {
    if f.Nil? then {} else {f.node} + Top(f.rest)
  }

  /** The condition of a prompt below the dependency of its menu. */
  function PropagatePrompt(m: Menu, dep: Option<Expr>, visible: Option<Expr>, modules: Symbol): Option<Expr> {
    var v := Propagate(dep, visible, modules);
    if v.Some? && m.sym.Some? && m.sym.value.Type() != Tri then Some(TransBool(v.value)) else v
  }

  predicate NormalOpt(e: Option<Expr>) {
    e.Some? ==> Normal(e.value)
  }

  lemma {:induction false} TransBoolKeepsShape(e: Expr)
    requires Normal(e) && PlainConstants(e)
    ensures Normal(TransBool(e)) && PlainConstants(TransBool(e))
  {
    if e.Bin? {
      TransBoolKeepsShape(e.left);
      TransBoolKeepsShape(e.right);
    }
  }

  /** What is propagated below a dependency in normal form is in normal form again. */
  lemma PropagateKeepsNormal(parentdep: Option<Expr>, dep: Option<Expr>, modules: Symbol)
    requires NormalOpt(parentdep)
    ensures NormalOpt(Propagate(parentdep, dep, modules))
  {
    if dep.Some? {
      TransformIsNormal(RewriteM(dep.value, modules));
    }
    var own := if dep.Some? then Some(Transform(RewriteM(dep.value, modules))) else None;
    match (parentdep, own)
    case (Some(p), Some(d)) => DupsKeepsNormal(Bin(AND, p, d));
    case (Some(p), None) => DupsKeepsNormal(p);
    case (None, Some(d)) => DupsKeepsNormal(d);
    case (None, None) =>
  }

  /**
   The prompt of a child is hidden exactly when its parent's dependency, its
   own dependency or its own condition is `n`; for a tristate it is worth as
   much as the least of them, and for any other entry at most as much.
   */
  lemma ChildPromptValue(m: Menu, parentdep: Option<Expr>, dep: Option<Expr>, visible: Option<Expr>, modules: Symbol,
      env: Env)
    requires WellFormed(env) && PlainOpt(parentdep) && NormalOpt(parentdep) && Rewritable(dep) && Rewritable(visible)
    ensures var v := CalcOpt(PropagatePrompt(m, Propagate(parentdep, dep, modules), visible, modules), env);
            var w := T.And(T.And(CalcOpt(parentdep, env), CalcOpt(dep, WithModules(env, modules))),
                           CalcOpt(visible, WithModules(env, modules)));
            && (v == T.NO <==> w == T.NO) && v <= w
            && (m.sym.None? || m.sym.value.Type() == Tri ==> v == w)
    ensures var below := PropagatePrompt(m, Propagate(parentdep, dep, modules), visible, modules);
            && NormalOpt(below) && PlainOpt(below)
            && (below.Some? && m.sym.Some? && m.sym.value.Type() != Tri ==> NoTests(below.value))
  {
    var base := Propagate(parentdep, dep, modules);
    PropagateValue(parentdep, dep, modules, env);
    PropagateKeepsNormal(parentdep, dep, modules);
    var v := Propagate(base, visible, modules);
    PropagateValue(base, visible, modules, env);
    PropagateKeepsNormal(base, visible, modules);
    hide Propagate, WellFormed, WithModules;
    if v.Some? {
      TransBoolKeepsNo(v.value, env);
      TransBoolKeepsShape(v.value);
      TransBoolRemovesTests(v.value);
    }
  }

  /** What makes a menu hide its children: its mode, if it is a choice, its prompt, or else its dependency. */
  ghost predicate Hides(p: Menu, env: Env)
    reads p
  {
    var choice := p.sym.Some? && p.isChoice;
    || (choice && env.tri(p.sym.value) == T.NO)
    || (!choice && p.hasPrompt && CalcOpt(p.visible, env) == T.NO)
    || (!choice && !p.hasPrompt && CalcOpt(p.dep, env) == T.NO)
  }

  /** The prompt of a child is hidden if and only if its parent hides it, or its own dependency or condition does. */
  lemma ChildHiddenExact(p: Menu, m: Menu, modules: Symbol, env: Env)
    requires WellFormed(env) && PlainOpt(ParentDep(p)) && NormalOpt(ParentDep(p))
    requires Rewritable(m.dep) && Rewritable(m.visible)
    ensures CalcOpt(PropagatePrompt(m, Propagate(ParentDep(p), m.dep, modules), m.visible, modules), env) == T.NO
            <==> || Hides(p, env) || CalcOpt(m.dep, WithModules(env, modules)) == T.NO
                 || CalcOpt(m.visible, WithModules(env, modules)) == T.NO
  {
    ChildPromptValue(m, ParentDep(p), m.dep, m.visible, modules, env);
    hide Propagate, PropagatePrompt, WellFormed, WithModules, NormalOpt, PlainOpt, Rewritable;
  }

  /** The first loop over the children: dependencies only. */
  method PropagateToChildren(p: Menu, modules: Symbol, ghost kids: Forest, ghost all: set<Menu>)
    requires Linked(p.list, p, kids) && Distinct(kids) && p !in Nodes(kids) && Nodes(kids) <= all
    modifies Top(kids)`dep, Top(kids)`visible
    ensures Propagated(p, modules, kids, all)
  {
    hide Propagate, PropagatePrompt, Nodes, ParentDep;
    TopInNodes(kids);
    var parentdep := ParentDep(p);
    var menu := p.list;
    ghost var seen, todo := {}, kids;
    while menu != null
      invariant Linked(menu, p, todo) && Distinct(todo)
      invariant seen + Top(todo) == Top(kids) && seen !! Top(todo)
      invariant forall m :: m in all && m in seen ==> m.dep == Propagate(parentdep, old(m.dep), modules)
      invariant forall m :: m in all && m in seen ==>
                  m.visible ==
                    if m.hasPrompt then PropagatePrompt(m, m.dep, old(m.visible), modules) else old(m.visible)
      invariant forall m :: m in all && m in Top(todo) ==> m.dep == old(m.dep) && m.visible == old(m.visible)
      decreases todo
    {
      TopInNodes(todo.rest);
      seen := seen + {menu};
      menu.dep := Propagate(parentdep, menu.dep, modules);
      if menu.hasPrompt {
        menu.visible := PropagatePrompt(menu, menu.dep, menu.visible, modules);
      }
      todo := todo.rest;
      menu := menu.next;
    }
  }

  lemma {:induction false} TopInNodes(f: Forest)
    ensures Top(f) <= Nodes(f)
  {
    if f.Cons? {
      TopInNodes(f.rest);
    }
  }

  /** The condition by which a menu is judged: that of its prompt, or else its dependency. */
  function Condition(m: Menu): Option<Expr>
    reads m
  {
    if m.hasPrompt then m.visible else m.dep
  }

  /** The nodes below p and behind it are the same ones, each once. */
  lemma StillBelow(p: Menu, kids: Forest, rest: Forest, kids': Forest, rest': Forest)
    requires Preorder(kids') + Preorder(rest') == Preorder(kids) + Preorder(rest) && Distinct(Cons(p, kids, rest))
    ensures p !in Nodes(kids) + Nodes(rest) && Nodes(kids') + Nodes(rest') == Nodes(kids) + Nodes(rest)
    ensures Distinct(Cons(p, kids', Nil)) && Nodes(kids') !! Nodes(rest')
  {
    hide Preorder, Nodes, Append, Distinct;
    DistinctParts(p, kids, rest);
    AppendFacts(kids', rest');
    AppendFacts(kids, rest);
    SamePreorder(Append(kids', rest'), Append(kids, rest));
    DistinctBack(p, kids', rest');
  }

  /**
   `menu_finalize`.  The parameters say which trees hang below p and which
   follow it; afterwards some of the latter may have moved below p.  Nothing
   else changes: from top to bottom the nodes stay the same, every parent
   pointer fits, and each of the nodes now below p has been finalized exactly
   once, in that order.
   */
  method Finalize(p: Menu, modules: Symbol, ghost kids: Forest, ghost rest: Forest, ghost all: set<Menu>)
    returns (done: seq<Menu>, ghost kids': Forest, ghost rest': Forest)
    requires Linked(p.list, p, kids) && Linked(p.next, p.parent, rest)
    requires Distinct(Cons(p, kids, rest)) && Nodes(Cons(p, kids, rest)) <= all
    modifies Nodes(Cons(p, kids, rest))
    ensures p.parent == old(p.parent)
    ensures Linked(p.list, p, kids') && Linked(p.next, p.parent, rest') && IsTail(rest', rest)
    ensures Preorder(kids') + Preorder(rest') == Preorder(kids) + Preorder(rest)
    ensures done == [p] + Preorder(kids')
    ensures Untouched(Cons(p, kids, rest), all) && (kids.Cons? || p.sym.None? ==> rest' == rest)
    ensures kids.Cons? ==> Propagated(p, modules, kids, all)
    ensures AllPrompted(kids')
    decreases Count(kids) + Count(rest), 4
  {
    hide IsTail, Preorder, Segment, Linked, Propagate;
    done, kids', rest' := FinalizeBelow(p, modules, kids, rest, all);
    StillBelow(p, kids, rest, kids', rest');
    FlattenedFacts(kids');
    kids' := Flatten(p, kids', all);
    done := [p] + done;
  }

  lemma DistinctParts(p: Menu, k: Forest, r: Forest)
    requires Distinct(Cons(p, k, r))
    ensures p !in Nodes(k) && p !in Nodes(r) && Distinct(k) && Distinct(r) && Nodes(k) !! Nodes(r)
  {
  }

  lemma DistinctBack(p: Menu, k: Forest, r: Forest)
    requires p !in Nodes(k) && Distinct(k)
    ensures Distinct(Cons(p, k, Nil))
  {
  }

  lemma NoMore(f: Forest)
    ensures Preorder(Nil) == [] && [] + Preorder(f) == Preorder(f) && Preorder(f) + [] == Preorder(f)
  {
  }

  /** Both loops over the children of a menu that has some. */
  method FinalizeKids(p: Menu, modules: Symbol, ghost kids: Forest, ghost all: set<Menu>)
    returns (done: seq<Menu>, ghost kids': Forest)
    requires Linked(p.list, p, kids) && Distinct(kids) && p !in Nodes(kids) && Nodes(kids) <= all
    modifies Nodes(kids)
    ensures Linked(p.list, p, kids') && Preorder(kids') == Preorder(kids) && done == Preorder(kids')
    ensures Propagated(p, modules, kids, all)
    decreases Count(kids), 2
  {
    hide Propagate, PropagatePrompt, ParentDep, Preorder, Distinct;
    TopInNodes(kids);
    PropagateToChildren(p, modules, kids, all);
    done, kids' := FinalizeChildren(p, modules, kids, all);
  }

  /** The children of p, or the entries that follow it. */
  method FinalizeBelow(p: Menu, modules: Symbol, ghost kids: Forest, ghost rest: Forest, ghost all: set<Menu>)
    returns (done: seq<Menu>, ghost kids': Forest, ghost rest': Forest)
    requires Linked(p.list, p, kids) && Linked(p.next, p.parent, rest)
    requires Distinct(Cons(p, kids, rest)) && Nodes(Cons(p, kids, rest)) <= all
    modifies p`list, p`next, Nodes(kids), Nodes(rest)
    ensures Linked(p.list, p, kids') && Linked(p.next, p.parent, rest') && IsTail(rest', rest)
    ensures Preorder(kids') + Preorder(rest') == Preorder(kids) + Preorder(rest)
    ensures done == Preorder(kids')
    ensures Untouched(rest, all) && (kids.Cons? || p.sym.None? ==> rest' == rest)
    ensures kids.Cons? ==> Propagated(p, modules, kids, all)
    decreases Count(kids) + Count(rest), 3
  {
    hide IsTail, Propagate, PropagatePrompt, Top, ParentDep, BaseOf, Preorder;
    TailRefl(rest);
    TopInNodes(rest);
    NoMore(rest);
    done, kids', rest' := [], Nil, rest;
    if p.list != null {
      done, kids' := FinalizeKids(p, modules, kids, all);
    } else if p.sym.Some? {
      done, kids', rest' := Absorb(p, modules, rest, all);
    }
  }

  /** The second loop over the children. */
  method FinalizeChildren(p: Menu, modules: Symbol, ghost kids: Forest, ghost all: set<Menu>)
    returns (done: seq<Menu>, ghost kids': Forest)
    requires Linked(p.list, p, kids) && Distinct(kids) && p !in Nodes(kids) && Nodes(kids) <= all
    modifies Nodes(kids)
    ensures Linked(p.list, p, kids') && Preorder(kids') == Preorder(kids) && done == Preorder(kids')
    ensures Untouched(kids, all)
    decreases Count(kids), 1
  {
    hide IsTail, Nodes, Distinct, AllPrompted, Propagate;
    TailRefl(kids);
    done := [];
    var menu := p.list;
    ghost var front, todo := Nil, kids;
    while menu != null
      invariant Segment(p.list, p, front, menu) && Linked(menu, p, todo) && IsTail(todo, kids)
      invariant Preorder(front) + Preorder(todo) == Preorder(kids) && done == Preorder(front)
      invariant Untouched(kids, all)
      decreases Count(todo)
    {
      AppendFacts(front, todo);
      SamePreorder(Append(front, todo), kids);
      TailTops(todo, kids);
      ghost var k, r, before := todo.kids, todo.rest, todo;
      ghost var k', r';
      var d;
      d, k', r' := Finalize(menu, modules, k, r, all);
      ghost var here := Cons(menu, k', Nil);
      assert Segment(p.list, p, front, menu);
      SegmentAppend(p.list, p, front, menu, here, menu.next);
      AppendFacts(front, here);
      StepPreorder(Preorder(front), menu, Preorder(k), Preorder(r), Preorder(k'), Preorder(r'));
      TailRefl(before);
      TailTrans(r', r, before);
      TailTrans(r', before, kids);
      front, todo, done := Append(front, here), r', done + d;
      menu := menu.next;
    }
    kids' := front;
  }

  /** The siblings have the conditions they had before. */
  twostate predicate Untouched(f: Forest, all: set<Menu>)
    reads all
  {
    forall m :: m in all && m in Top(f) ==> m.dep == old(m.dep) && m.visible == old(m.visible)
  }

  /** The siblings have the conditions that follow from those of p. */
  twostate predicate Propagated(p: Menu, modules: Symbol, f: Forest, all: set<Menu>)
    reads all
  {
    forall m :: m in all && m in Top(f) ==>
      && m.dep == Propagate(old(ParentDep(p)), old(m.dep), modules)
      && m.visible == if m.hasPrompt then PropagatePrompt(m, m.dep, old(m.visible), modules) else old(m.visible)
  }

  /** A sibling that is anywhere in the rest of the list is a sibling there. */
  lemma {:induction false} TailTop(f: Forest, g: Forest, m: Menu)
    requires IsTail(f, g) && Distinct(g) && m in Top(g) && m in Nodes(f)
    ensures m in Top(f)
  {
    if f != g {
      TailNodes(f, g.rest);
      TopInNodes(g);
      TailTop(f, g.rest, m);
    }
  }

  lemma TailTops(f: Forest, g: Forest)
    requires IsTail(f, g) && Distinct(g)
    ensures Top(g) * Nodes(f) <= Top(f) <= Top(g)
  {
    forall m | m in Top(g) && m in Nodes(f) ensures m in Top(f) {
      TailTop(f, g, m);
    }
    TopTail(f, g);
  }

  lemma {:induction false} TopTail(f: Forest, g: Forest)
    requires IsTail(f, g)
    ensures Top(f) <= Top(g)
  {
    if f != g {
      TopTail(f, g.rest);
    }
  }

  lemma {:induction false} TailNodes(f: Forest, g: Forest)
    requires IsTail(f, g)
    ensures Nodes(f) <= Nodes(g)
  {
    if f != g {
      TailNodes(f, g.rest);
    }
  }

  lemma {:induction false} TopAppend(f: Forest, g: Forest)
    ensures Top(Append(f, g)) == Top(f) + Top(g)
  {
    if f.Cons? {
      TopAppend(f.rest, g);
    }
  }

  /** The condition under which the prompt of a symbol is visible. */
  function BaseOf(p: Menu): Option<Expr>
    reads p
  {
    if p.hasPrompt then p.visible else None
  }

  /** The entry passed the test for the automatic submenu of p. */
  predicate DependsOn(p: Menu, m: Menu)
    reads p, m
  {
    p.sym.Some? && Absorbs(p.sym.value, BaseOf(p), Condition(m))
  }

  /** An entry is shown: its prompt is, or what is below it if it has none. */
  ghost predicate Shown(m: Menu, env: Env)
    reads m
  {
    (m.hasPrompt && CalcOpt(m.visible, env) != T.NO) || (!m.hasPrompt && CalcOpt(m.dep, env) != T.NO)
  }

  /** An entry of the submenu is shown only while its symbol is set, or the prompt of the symbol is not hidden. */
  lemma TakenInIsDependent(p: Menu, m: Menu, env: Env)
    requires DependsOn(p, m) && WellFormed(env) && p.sym.value.Logical()
    requires var dep := if m.hasPrompt then m.visible else m.dep;
             var base := if p.hasPrompt then p.visible else None;
             var compared := ComparedOpt(dep) + ComparedOpt(base);
             Sound(dep, env, compared) && Sound(base, env, compared)
    ensures Shown(m, env) ==> env.tri(p.sym.value) != T.NO || !p.hasPrompt || CalcOpt(p.visible, env) != T.NO
  {
    hide Sound, Absorbs, WellFormed, ComparedOpt;
    AbsorbedIsDependent(p.sym.value, BaseOf(p), Condition(m), env);
  }

  twostate predicate AllDepend(p: Menu, new f: Forest, all: set<Menu>)
    reads {}
  {
    forall m :: m in all && m in Top(f) ==> old(DependsOn(p, m))
  }

  twostate predicate FirstDoesNotDepend(p: Menu, new f: Forest, all: set<Menu>)
    reads {}
  {
    forall m :: m in all && f.Cons? && m == f.node ==> !old(DependsOn(p, m))
  }

  /** The entries from p.next on already have the parent p, the last of them being `last`; `menu` comes next. */
  ghost predicate TakenIn(p: Menu, init: Forest, last: Menu, k: Forest, menu: Menu?)
    reads p`next, last, Nodes(init)`next, Nodes(init)`parent, Nodes(init)`list, Nodes(k)`next, Nodes(k)`parent,
      Nodes(k)`list
  {
    Segment(p.next, p, init, last) && last.parent == p && Linked(last.list, last, k) && last.next == menu
  }

  /**
   The automatic submenu of a symbol: the entries that follow it are finalized
   and taken in exactly as long as they depend on it.
   */
  method Absorb(p: Menu, modules: Symbol, ghost rest: Forest, ghost all: set<Menu>)
    returns (done: seq<Menu>, ghost kids': Forest, ghost rest': Forest)
    requires p.list == null && p.sym.Some? && Linked(p.next, p.parent, rest)
    requires Distinct(Cons(p, Nil, rest)) && Nodes(Cons(p, Nil, rest)) <= all
    modifies p`list, p`next, Nodes(rest)
    ensures Linked(p.list, p, kids') && Linked(p.next, p.parent, rest') && IsTail(rest', rest)
    ensures Preorder(kids') + Preorder(rest') == Preorder(rest) && done == Preorder(kids')
    ensures Untouched(rest, all)
    ensures AllDepend(p, kids', all)
    ensures FirstDoesNotDepend(p, rest', all)
    decreases Count(rest), 2
  {
    hide IsTail, DependsOn, Preorder, Count, Nodes, Top;
    ghost var init, k;
    var last;
    last, done, init, k, kids', rest' := TakeInAll(p, modules, rest, all);
    if last != null {
      StillDistinct(p, kids', rest', rest);
      hide Distinct, Nodes;
      SegmentLast(p.next, p, init, last, k, last.next);
      CutOff(p, init, last, k, rest', all);
    }
  }

  /** One more entry is taken in, with what hangs below it now. */
  lemma TakenOne(front: Forest, menu: Menu, k: Forest, before: Forest, todo: Forest, rest: Forest)
    requires before.Cons? && before.node == menu && IsTail(todo, before) && IsTail(before, rest)
    requires Preorder(front) + Preorder(before) == Preorder(rest)
    requires Preorder(k) + Preorder(todo) == Preorder(before.kids) + Preorder(before.rest)
    ensures var front' := Append(front, Cons(menu, k, Nil));
            && Preorder(front') == Preorder(front) + ([menu] + Preorder(k))
            && Preorder(front') + Preorder(todo) == Preorder(rest)
            && IsTail(todo, rest) && Top(front') == Top(front) + {menu}
  {
    hide Nodes, Append;
    StepPreorder(Preorder(front), menu, Preorder(before.kids), Preorder(before.rest), Preorder(k), Preorder(todo));
    TailTrans(todo, before, rest);
    TopAppend(front, Cons(menu, k, Nil));
    AppendFacts(front, Cons(menu, k, Nil));
    hide Nodes, Distinct, IsTail;
  }

  /** The loop of `Absorb`; the entries taken in still hang behind p. */
  method TakeInAll(p: Menu, modules: Symbol, ghost rest: Forest, ghost all: set<Menu>)
    returns (last: Menu?, done: seq<Menu>, ghost init: Forest, ghost k: Forest, ghost front: Forest, ghost todo: Forest)
    requires p.list == null && p.sym.Some? && Linked(p.next, p.parent, rest)
    requires Distinct(Cons(p, Nil, rest)) && Nodes(Cons(p, Nil, rest)) <= all
    modifies Nodes(rest)
    ensures last == null ==> front == Nil && Linked(p.next, p.parent, todo)
    ensures last != null ==> front == Append(init, Cons(last, k, Nil)) && last in Nodes(rest)
    ensures last != null ==> Segment(p.next, p, front, last.next) && Linked(last.next, p.parent, todo)
    ensures IsTail(todo, rest) && Preorder(front) + Preorder(todo) == Preorder(rest) && done == Preorder(front)
    ensures Untouched(rest, all)
    ensures AllDepend(p, front, all)
    ensures FirstDoesNotDepend(p, todo, all)
    decreases Count(rest), 1
  {
    hide Absorbs, IsTail, Distinct, BaseOf, Preorder;
    DistinctParts(p, Nil, rest);
    TailRefl(rest);
    NoMore(rest);
    var base := BaseOf(p);
    var menu := p.next;
    last, done := null, [];
    init, k, front, todo := Nil, Nil, Nil, rest;
    while menu != null && Absorbs(p.sym.value, base, Condition(menu))
      invariant menu == if last == null then p.next else last.next
      invariant IsTail(todo, rest) && Segment(p.next, p, front, menu) && Linked(menu, p.parent, todo)
      invariant Preorder(front) + Preorder(todo) == Preorder(rest) && done == Preorder(front)
      invariant if last == null then front == Nil else front == Append(init, Cons(last, k, Nil)) && last in Nodes(rest)
      invariant Untouched(rest, all)
      invariant AllDepend(p, front, all)
      decreases Count(todo)
    {
      ghost var before := todo;
      StillDistinct(p, front, todo, rest);
      TailTops(todo, rest);
      var d;
      d, k, todo := TakeInNext(menu, p, modules, front, todo, all);
      TakenOne(front, menu, k, before, todo, rest);
      init, front := front, Append(front, Cons(menu, k, Nil));
      done := done + d;
      last := menu;
      menu := menu.next;
    }
    TopTail(todo, rest);
  }

  lemma StillDistinct(p: Menu, front: Forest, todo: Forest, rest: Forest)
    requires Preorder(front) + Preorder(todo) == Preorder(rest) && Distinct(Cons(p, Nil, rest))
    ensures Distinct(Cons(p, front, todo)) && Nodes(Cons(p, front, todo)) == Nodes(Cons(p, Nil, rest))
    ensures Nodes(front) !! Nodes(todo)
  {
    AppendFacts(front, todo);
    SamePreorder(Append(front, todo), rest);
  }

  lemma {:induction false} SegmentLast(first: Menu?, par: Menu?, init: Forest, last: Menu, k: Forest, end: Menu?)
    requires Segment(first, par, Append(init, Cons(last, k, Nil)), end)
    ensures Segment(first, par, init, last) && last.parent == par && Linked(last.list, last, k) && last.next == end
  {
    if init.Cons? {
      SegmentLast(init.node.next, par, init.rest, last, k, end);
    }
  }

  /** One round of the loop of `Absorb`: the next entry joins those already taken in. */
  method TakeInNext(menu: Menu, p: Menu, modules: Symbol, ghost front: Forest, ghost todo: Forest, ghost all: set<Menu>)
    returns (done: seq<Menu>, ghost kids': Forest, ghost rest': Forest)
    requires Segment(p.next, p, front, menu) && Linked(menu, p.parent, todo)
    requires Distinct(Cons(p, front, todo)) && Nodes(Cons(p, front, todo)) <= all
    modifies Nodes(todo)
    ensures Segment(p.next, p, Append(front, Cons(menu, kids', Nil)), menu.next) && Linked(menu.next, p.parent, rest')
    ensures IsTail(rest', todo) && Preorder(kids') + Preorder(rest') == Preorder(todo.kids) + Preorder(todo.rest)
    ensures done == [menu] + Preorder(kids')
    ensures Untouched(todo, all)
    decreases Count(todo), 0
  {
    done, kids', rest' := TakeIn(menu, p, modules, todo.kids, todo.rest, all);
    TailRefl(todo);
    TailTrans(rest', todo.rest, todo);
    assert Segment(p.next, p, front, menu);
    SegmentAppend(p.next, p, front, menu, Cons(menu, kids', Nil), menu.next);
  }

  method TakeIn(menu: Menu, p: Menu, modules: Symbol, ghost kids: Forest, ghost rest: Forest, ghost all: set<Menu>)
    returns (done: seq<Menu>, ghost kids': Forest, ghost rest': Forest)
    requires menu.parent == p.parent && Linked(menu.list, menu, kids) && Linked(menu.next, p.parent, rest)
    requires Distinct(Cons(menu, kids, rest)) && Nodes(Cons(menu, kids, rest)) <= all
            && p !in Nodes(Cons(menu, kids, rest))
    modifies Nodes(Cons(menu, kids, rest))
    ensures menu.parent == p && Linked(menu.list, menu, kids') && Linked(menu.next, p.parent, rest')
            && IsTail(rest', rest)
    ensures Preorder(kids') + Preorder(rest') == Preorder(kids) + Preorder(rest)
    ensures done == [menu] + Preorder(kids')
    ensures Untouched(Cons(menu, kids, rest), all)
    decreases Count(kids) + Count(rest), 5
  {
    hide Preorder, Segment, Linked, Top, Propagate, PropagatePrompt;
    done, kids', rest' := Finalize(menu, modules, kids, rest, all);
    AppendFacts(kids', rest');
    AppendFacts(kids, rest);
    SamePreorder(Append(kids', rest'), Append(kids, rest));
    menu.parent := p;
  }

  /** The three assignments that hang the entries taken in below p. */
  method CutOff(p: Menu, ghost init: Forest, last: Menu, ghost k: Forest, ghost todo: Forest, ghost all: set<Menu>)
    requires p.list == null && TakenIn(p, init, last, k, last.next) && Linked(last.next, p.parent, todo)
    requires var front := Append(init, Cons(last, k, Nil));
             Distinct(Cons(p, front, todo)) && Nodes(Cons(p, front, todo)) <= all
    modifies p`list, p`next, last`next
    ensures Linked(p.list, p, Append(init, Cons(last, k, Nil))) && Linked(p.next, p.parent, todo)
  {
    hide Preorder;
    AppendFacts(init, Cons(last, k, Nil));
    p.list := p.next;
    p.next := last.next;
    last.next := null;
    assert Segment(p.list, p, init, last);
    SegmentAppend(p.list, p, init, last, Cons(last, k, Nil), null);
  }

  lemma StepPreorder(f: seq<Menu>, m: Menu, k: seq<Menu>, r: seq<Menu>, k': seq<Menu>, r': seq<Menu>)
    requires k' + r' == k + r
    ensures (f + ([m] + k')) + r' == f + ([m] + k + r)
    ensures |r'| < |[m] + k + r|
    ensures f + ([m] + k' + []) == f + ([m] + k')
  {
    assert (f + ([m] + k')) + r' == (f + [m]) + (k' + r');
    assert |k'| + |r'| == |k| + |r|;
  }

  // ----- the walk of conf_write

  /** Where the walk goes on after the current siblings: after `up`, with the siblings that follow it. */
  datatype Context = Root | Frame(up: Menu, rest: Forest, outer: Context)

  ghost function ContextNodes(c: Context): set<Menu> {
    if c.Root? then {} else {c.up} + Nodes(c.rest) + ContextNodes(c.outer)
  }

  ghost function Remaining(c: Context): seq<Menu> {
    if c.Root? then [] else Preorder(c.rest) + Remaining(c.outer)
  }

  /** The parent pointers lead through the context up to the root. */
  ghost predicate LeadsUp(root: Menu, par: Menu?, c: Context)
    reads root, ContextNodes(c)
    decreases c
  {
    match c
    case Root => par == root && root.next == null && root.parent == null
    case Frame(up, rest, outer) => par == up && Linked(up.next, up.parent, rest) && LeadsUp(root, up.parent, outer)
  }

  /** The loop that goes from menu to menu: it visits the nodes from top to bottom, each once, and ends. */
  method Walk(root: Menu, ghost kids: Forest) returns (visited: seq<Menu>)
    requires Linked(root.list, root, kids) && root.next == null && root.parent == null
    ensures visited == Preorder(kids)
  {
    visited := [];
    var menu := root.list;
    ghost var here, c := kids, Root;
    assert Remaining(Root) == [];
    assert StandsAt(root, menu, here, c);
    hide StandsAt, Linked, Preorder, Remaining;
    while menu != null
      invariant StandsAt(root, menu, here, c)
      invariant visited + (Preorder(here) + Remaining(c)) == Preorder(kids)
      decreases |Preorder(kids)| - |visited|
    {
      StandsAtNode(root, menu, here, c);
      ghost var k, r := here.kids, here.rest;
      VisitOne(visited, here, c);
      visited := visited + [menu];
      menu, here, c := Step(menu, root, k, r, c);
    }
    StandsAtNode(root, menu, here, c);
  }

  lemma VisitOne(visited: seq<Menu>, here: Forest, c: Context)
    requires here.Cons?
    ensures visited + (Preorder(here) + Remaining(c))
         == (visited + [here.node]) + (Preorder(here.kids) + (Preorder(here.rest) + Remaining(c)))
  {
    var m, k, r, w := here.node, Preorder(here.kids), Preorder(here.rest), Remaining(c);
    assert Preorder(here) == [m] + k + r;
    hide Preorder, Remaining;
    SeqAssoc([m] + k, r, w);
    SeqAssoc([m], k, r + w);
    SeqAssoc(visited, [m], k + (r + w));
  }

  /** The walk is at the first node of `here`, or at its end. */
  ghost predicate StandsAt(root: Menu, menu: Menu?, here: Forest, c: Context)
    reads root, if menu == null then {} else {menu}, Nodes(here), ContextNodes(c)
  {
    if menu == null then here == Nil && c == Root
    else Linked(menu, menu.parent, here) && LeadsUp(root, menu.parent, c)
  }

  lemma StandsAtNode(root: Menu, menu: Menu?, here: Forest, c: Context)
    requires StandsAt(root, menu, here, c)
    ensures menu != null ==> here.Cons? && here.node == menu
    ensures menu == null ==> Preorder(here) + Remaining(c) == []
  {
  }

  /** From one node to the next: down to its first child, or on to its next sibling, or up. */
  method Step(start: Menu, root: Menu, ghost k: Forest, ghost r: Forest, ghost c: Context)
    returns (menu: Menu?, ghost here: Forest, ghost c': Context)
    requires StandsAt(root, start, Cons(start, k, r), c)
    ensures StandsAt(root, menu, here, c')
    ensures Preorder(here) + Remaining(c') == Preorder(k) + (Preorder(r) + Remaining(c))
  {
    assert Segment(start.list, start, k, null) && Segment(start.next, start.parent, r, null);
    if start.list != null {
      menu, here, c' := start.list, k, Frame(start, r, c);
    } else if start.next != null {
      menu, here, c' := start.next, r, c;
    } else {
      menu, here, c' := ClimbFrom(start, root, c);
    }
  }

  /** The inner loop: up through the parents to the first one that has a next sibling. */
  method ClimbFrom(start: Menu, root: Menu, ghost c: Context)
    returns (menu: Menu?, ghost here: Forest, ghost c': Context)
    requires LeadsUp(root, start.parent, c)
    ensures StandsAt(root, menu, here, c') && Preorder(here) + Remaining(c') == Remaining(c)
  {
    menu, here, c' := start.parent, Nil, c;
    while menu != null
      invariant menu != null ==> LeadsUp(root, menu, c')
      invariant menu == null ==> c' == Root
      invariant here == Nil && Remaining(c') == Remaining(c)
      decreases menu != null, c'
    {
      if menu.next != null {
        here, c' := c'.rest, c'.outer;
        menu := menu.next;
        return;
      }
      if c'.Frame? {
        c' := c'.outer;
      }
      menu := menu.parent;
    }
  }

  /** Finalizing the whole tree and then walking it visits the menus in their original order. */
  method FinalizeAndWalk(root: Menu, modules: Symbol, ghost kids: Forest) returns (done: seq<Menu>, visited: seq<Menu>)
    requires Linked(root.list, root, kids) && root.next == null && root.parent == null
    requires Distinct(Cons(root, kids, Nil))
    modifies Nodes(Cons(root, kids, Nil))
    ensures visited == Preorder(kids) && done == [root] + visited
  {
    ghost var kids', rest';
    done, kids', rest' := Finalize(root, modules, kids, Nil, Nodes(Cons(root, kids, Nil)));
    assert rest' == Nil && Preorder(kids') + [] == Preorder(kids') && Preorder(kids) + [] == Preorder(kids);
    visited := Walk(root, kids');
  }
}
