/**
 The search for recursive dependencies (`sym_check_deps` of `symbol.c`), for
 symbols that are neither choices nor choice values.
 */
module DependencyCheck {
  import opened Wrappers
  import opened Expressions
  import V = SymbolValues

  datatype PropType = PROMPT | COMMENT | MENU | DEFAULT | CHOICE | SELECT | IMPLY | RANGE | ENV | SYMBOL

  /** A property with its condition; `expr` is the value of a default. */
  datatype Property = Property(kind: PropType, visible: Option<Expr>, expr: Option<Expr>)

  /** What the search looks at: `rev_dep.expr` and the list of properties. */
  datatype Definition = Definition(revDep: Option<Expr>, props: seq<Property>)

  type Table = map<Symbol, Definition>

  function Def(t: Table, s: Symbol): Definition {
    if s in t then t[s] else Definition(None, [])
  }

  // ----- the graph

  predicate Skipped(p: Property) {
    p.kind == CHOICE || p.kind == SELECT
  }

  function PropertySymbols(p: Property): set<Symbol> {
    if Skipped(p) then {}
    else V.OptSymbols(p.visible) + (if p.kind == DEFAULT then V.OptSymbols(p.expr) else {})
  }

  function PropsSymbols(ps: seq<Property>): set<Symbol> {
    if ps == [] then {} else PropsSymbols(ps[..|ps| - 1]) + PropertySymbols(ps[|ps| - 1])
  }

  /** The symbols a symbol depends on, as far as the search follows them. */
  function Successors(t: Table, s: Symbol): set<Symbol> {
    V.OptSymbols(Def(t, s).revDep) + PropsSymbols(Def(t, s).props)
  }

  predicate Edge(t: Table, s: Symbol, r: Symbol) {
    r in Successors(t, s)
  }

  predicate OccursIn(r: Symbol, e: Option<Expr>) {
    e.Some? && r in SymbolsOf(e.value)
  }

  lemma {:induction false} PropsExact(ps: seq<Property>, r: Symbol)
    ensures r in PropsSymbols(ps) <==> exists p :: p in ps && r in PropertySymbols(p)
  {
    if ps != [] {
      var init, last := ps[..|ps| - 1], ps[|ps| - 1];
      PropsExact(init, r);
      assert ps == init + [last];
      hide PropertySymbols;
    }
  }

  /**
   The search goes from a symbol of the table to what occurs in its reverse
   dependency, in the condition of a property other than a choice or a select,
   or in the value of a default.
   */
  lemma EdgeExact(t: Table, s: Symbol, r: Symbol)
    ensures Edge(t, s, r)
            <==> s in t && (|| OccursIn(r, t[s].revDep)
                            || exists p :: && p in t[s].props && p.kind != CHOICE && p.kind != SELECT
                                 && (OccursIn(r, p.visible) || (p.kind == DEFAULT && OccursIn(r, p.expr))))
  {
    PropsExact(Def(t, s).props, r);
    hide PropsSymbols, SymbolsOf;
  }

  /** Each symbol depends on the next. */
  predicate IsPath(t: Table, p: seq<Symbol>) {
    forall i :: 0 <= i < |p| - 1 ==> Edge(t, p[i], p[i + 1])
  }

  /** A path whose last symbol depends on the first. */
  predicate IsCycle(t: Table, p: seq<Symbol>) {
    |p| > 0 && IsPath(t, p) && Edge(t, p[|p| - 1], p[0])
  }

  ghost predicate HasCycle(t: Table) {
    exists p :: IsCycle(t, p)
  }

  // ----- orders without cycles

  /** The symbols of the order depend only on symbols before them. */
  ghost predicate Sorted(t: Table, order: seq<Symbol>) {
    forall i, r :: 0 <= i < |order| && Edge(t, order[i], r) ==> r in order[..i]
  }

  ghost function Position(order: seq<Symbol>, s: Symbol): nat
    ensures s in order ==> Position(order, s) < |order| && order[Position(order, s)] == s
    ensures s in order ==> s !in order[..Position(order, s)]
  {
    if order == [] then 0 else if order[0] == s then 0 else 1 + Position(order[1..], s)
  }

  lemma {:induction false} PathDescends(t: Table, order: seq<Symbol>, p: seq<Symbol>)
    requires Sorted(t, order) && |p| > 0 && IsPath(t, p) && p[0] in order
    ensures p[|p| - 1] in order
    ensures Position(order, p[|p| - 1]) + |p| - 1 <= Position(order, p[0])
  {
    if |p| > 1 {
      var i := Position(order, p[0]);
      assert Edge(t, p[0], p[1]) && p[1] in order[..i];
      var j :| 0 <= j < i && order[j] == p[1];
      PositionIsFirst(order, p[1], j);
      SubPath(t, p, 1);
      PathDescends(t, order, p[1..]);
    }
  }

  lemma SubPath(t: Table, p: seq<Symbol>, i: nat)
    requires IsPath(t, p) && i <= |p|
    ensures IsPath(t, p[i..])
  {
    forall k | 0 <= k < |p[i..]| - 1 ensures Edge(t, p[i..][k], p[i..][k + 1]) {
      assert Edge(t, p[i + k], p[i + k + 1]);
    }
  }

  lemma PushPop(t: Table, p: seq<Symbol>, s: Symbol)
    requires IsPath(t, p) && (p != [] ==> Edge(t, p[|p| - 1], s))
    ensures IsPath(t, p + [s]) && (p + [s])[..|p|] == p
  {
  }

  lemma AppendSorted(t: Table, order: seq<Symbol>, s: Symbol)
    requires Sorted(t, order) && forall x :: x in Successors(t, s) ==> x in order
    ensures Sorted(t, order + [s])
  {
    var order' := order + [s];
    forall i, r | 0 <= i < |order'| && Edge(t, order'[i], r) ensures r in order'[..i] {
      if i < |order| {
        assert order'[i] == order[i] && order'[..i] == order[..i];
      } else {
        assert order'[..i] == order;
      }
    }
  }

  lemma {:induction false} PositionIsFirst(order: seq<Symbol>, s: Symbol, j: nat)
    requires j < |order| && order[j] == s
    ensures Position(order, s) <= j
  {
    if order[0] != s {
      PositionIsFirst(order[1..], s, j - 1);
    }
  }

  /** No cycle goes through a sorted order. */
  lemma SortedHasNoCycle(t: Table, order: seq<Symbol>, p: seq<Symbol>)
    requires Sorted(t, order) && IsCycle(t, p)
    ensures p[0] !in order
  {
    if p[0] in order {
      var q := p + [p[0]];
      assert IsPath(t, q);
      PathDescends(t, order, q);
    }
  }

  // ----- the search

  class Checker {
    const table: Table
    /** SYMBOL_CHECK: the symbols that are being explored. */
    var check: set<Symbol>
    /** SYMBOL_CHECKED: the symbols whose exploration has begun. */
    var checked: set<Symbol>
    /** The list behind `check_top`, bottom first. */
    var stack: seq<Symbol>
    /** The chains that `sym_check_print_recursive` has printed. */
    var reports: seq<seq<Symbol>>

    /** The symbols of the table and of its expressions. */
    ghost const universe: set<Symbol>
    /** As long as nothing has been reported: the symbols that have been explored, in the order of completion. */
    ghost var order: seq<Symbol>

    ghost predicate Closed() {
      forall s, r :: s in universe && Edge(table, s, r) ==> r in universe
    }

    /** The state between two steps; the pending symbols are marked but not yet on the stack. */
    ghost predicate Valid(pending: set<Symbol>)
      reads this
    {
      && Closed() && checked <= universe
      && check == (set s | s in stack) + pending && check <= checked
      && (forall i, j :: 0 <= i < j < |stack| ==> stack[i] != stack[j])
      && IsPath(table, stack)
      && (forall r :: r in reports ==> IsCycle(table, r))
      && (reports == [] ==>
            Sorted(table, order) && checked == check + (set s | s in order) && check !! (set s | s in order))
    }

    /** What every call keeps: the stack and the marks of unfinished symbols; reports and explored symbols only grow. */
    twostate predicate Balanced()
      reads this
    {
      && stack == old(stack) && check == old(check) && old(checked) <= checked
      && old(reports) <= reports
      && (reports == [] ==> forall s :: s in old(order) ==> s in order)
    }

    /** A result is a symbol further down the stack, and comes with a report. */
    twostate predicate Result(new r: Option<Symbol>, visited: set<Symbol>)
      reads this
    {
      && (r.Some? ==> r.value in stack && |reports| > |old(reports)|)
      && (reports == [] ==> forall s :: s in visited ==> s in order)
    }

    constructor (table: Table, ghost universe: set<Symbol>)
      requires forall s, r :: s in universe && Edge(table, s, r) ==> r in universe
      ensures this.table == table && this.universe == universe && Valid({})
      ensures stack == [] && reports == [] && checked == {}
    {
      this.table, this.universe := table, universe;
      check, checked, stack, reports, order := {}, {}, [], [], [];
    }

    /** `sym_check_print_recursive`: the chain from the symbol up to the top of the stack. */
    method PrintRecursive(s: Symbol)
      requires Valid({}) && s in stack && Edge(table, stack[|stack| - 1], s)
      modifies this`reports
      ensures Valid({})
      ensures exists chain :: reports == old(reports) + [chain] && IsCycle(table, chain) && chain[0] == s
    {
      var i: int := |stack| - 1;
      while i >= 0 && stack[i] != s
        invariant -1 <= i < |stack|
        invariant s !in stack[i + 1..]
      {
        i := i - 1;
      }
      assert i >= 0;
      var chain := stack[i..];
      SubPath(table, stack, i);
      reports := reports + [chain];
    }

    /** `sym_check_expr_deps`. */
    method CheckExprDeps(e: Expr) returns (r: Option<Symbol>)
      requires Valid({}) && stack != [] && SymbolsOf(e) <= Successors(table, stack[|stack| - 1])
      modifies this
      ensures Valid({}) && Balanced() && Result(r, SymbolsOf(e))
      decreases universe - checked, 1, e
    {
      hide Valid, PropertySymbols, PropsSymbols, Def, Successors, Sorted, Edge;
      match e {
        case Sym(s) =>
          OnStack(s);
          r := CheckDeps(s);
        case Not(a) =>
          r := CheckExprDeps(a);
        case Bin(_, left, right) =>
          r := CheckExprDeps(left);
          if r.None? {
            r := CheckExprDeps(right);
          }
        case Comp(_, left, right) =>
          OnStack(left);
          r := CheckDeps(left);
          if r.None? {
            OnStack(right);
            r := CheckDeps(right);
          }
      }
    }

    method CheckOptDeps(e: Option<Expr>) returns (r: Option<Symbol>)
      requires Valid({}) && stack != [] && V.OptSymbols(e) <= Successors(table, stack[|stack| - 1])
      modifies this
      ensures Valid({}) && Balanced() && Result(r, V.OptSymbols(e))
      decreases universe - checked, 2
    {
      r := None;
      if e.Some? {
        r := CheckExprDeps(e.value);
      }
    }

    /** `sym_check_sym_deps`. */
    method CheckSymDeps(s: Symbol) returns (r: Option<Symbol>)
      requires Valid({s}) && s !in stack && (stack != [] ==> Edge(table, stack[|stack| - 1], s))
      modifies this
      ensures Valid({s}) && Balanced()
      ensures r.Some? ==> (r.value in stack || r.value == s) && |reports| > |old(reports)| && reports != []
      ensures reports == [] ==> forall x :: x in Successors(table, s) ==> x in order
      decreases universe - checked, 6
    {
      hide Successors, Sorted, IsCycle, IsPath;
      PushPop(table, stack, s);
      stack := stack + [s];
      r := CheckTop(s);
      stack := stack[..|stack| - 1];
    }

    /** Everything the symbol on top of the stack depends on. */
    method CheckTop(s: Symbol) returns (r: Option<Symbol>)
      requires Valid({}) && stack != [] && stack[|stack| - 1] == s
      modifies this
      ensures Valid({}) && Balanced() && Result(r, Successors(table, s))
      decreases universe - checked, 5
    {
      SuccessorParts(table, s);
      hide Successors, PropsSymbols, Sorted, IsCycle, IsPath, Valid;
      r := CheckOptDeps(Def(table, s).revDep);
      if r.None? {
        r := CheckProps(s);
      }
    }

    /** The loop over the properties of the symbol on top of the stack. */
    method CheckProps(s: Symbol) returns (r: Option<Symbol>)
      requires Valid({}) && stack != [] && stack[|stack| - 1] == s
      modifies this
      ensures Valid({}) && Balanced() && Result(r, PropsSymbols(Def(table, s).props))
      decreases universe - checked, 4
    {
      hide Successors, Sorted, IsCycle, IsPath, Valid, PropertySymbols, Def, V.OptSymbols;
      SuccessorParts(table, s);
      r := None;
      var props := Def(table, s).props;
      for i := 0 to |props|
        invariant Valid({}) && Balanced() && r.None?
        invariant reports == [] ==> forall x :: x in PropsSymbols(props[..i]) ==> x in order
      {
        PropertySymbolsAt(props, i);
        assert props[..i + 1][..i] == props[..i];
        r := CheckProperty(props[i]);
        if r.Some? {
          return;
        }
      }
      assert props[..|props|] == props;
    }

    method CheckProperty(p: Property) returns (r: Option<Symbol>)
      requires Valid({}) && stack != [] && PropertySymbols(p) <= Successors(table, stack[|stack| - 1])
      modifies this
      ensures Valid({}) && Balanced() && Result(r, PropertySymbols(p))
      decreases universe - checked, 3
    {
      hide Successors, Sorted, IsCycle, IsPath;
      r := None;
      if Skipped(p) {
        return;
      }
      r := CheckOptDeps(p.visible);
      if r.None? && p.kind == DEFAULT {
        r := CheckOptDeps(p.expr);
      }
    }

    lemma OnStack(s: Symbol)
      requires Valid({}) && stack != [] && s in Successors(table, stack[|stack| - 1])
      ensures Edge(table, stack[|stack| - 1], s) && s in universe
    {
      assert stack[|stack| - 1] in check;
    }

    /** What the marks of a symbol mean. */
    lemma Seen(s: Symbol)
      requires Valid({})
      ensures (s in check <==> s in stack) && (s in check ==> s in checked)
      ensures reports == [] && s in checked && s !in check ==> s in order
    {
      hide IsPath, IsCycle, Sorted;
    }

    twostate lemma Entered(s: Symbol)
      requires old(Valid({})) && s in universe && s !in old(checked)
      requires check == old(check) + {s} && checked == old(checked) + {s}
      requires stack == old(stack) && reports == old(reports) && order == old(order)
      ensures Valid({s})
    {
      hide IsPath, IsCycle, Sorted, Edge;
    }

    /** The symbol has been explored; without a report it comes last in the order. */
    twostate lemma Finished(s: Symbol)
      requires old(Valid({s})) && s !in stack && check == old(check) - {s} && checked == old(checked)
      requires stack == old(stack) && reports == old(reports)
      requires order == if reports == [] then old(order) + [s] else old(order)
      requires reports == [] ==> forall x :: x in Successors(table, s) ==> x in old(order)
      ensures Valid({})
    {
      hide IsPath, IsCycle, Sorted, Edge, Successors;
      if reports == [] {
        AppendSorted(table, old(order), s);
      }
    }

    /** `sym_check_deps`. */
    method CheckDeps(s: Symbol) returns (r: Option<Symbol>)
      requires Valid({}) && s in universe && (stack != [] ==> Edge(table, stack[|stack| - 1], s))
      modifies this
      ensures Valid({}) && Balanced() && Result(r, {s})
      ensures old(stack) == [] ==> r.None?
      decreases universe - checked, 0
    {
      hide Valid, Successors, Sorted, IsCycle, IsPath, Edge;
      Seen(s);
      if s in check {
        PrintRecursive(s);
        return Some(s);
      }
      if s in checked {
        return None;
      }
      check, checked := check + {s}, checked + {s};
      Entered(s);
      r := CheckSymDeps(s);
      label Explored:
      check := check - {s};
      if reports == [] {
        order := order + [s];
      }
      Finished@Explored(s);
      if r == Some(s) {
        r := None;
      }
    }

    /** Checking every symbol, as is done after parsing. */
    method CheckAll(ss: seq<Symbol>)
      requires Valid({}) && stack == [] && reports == [] && checked == {}
      requires (forall s :: s in ss ==> s in universe) && (forall s :: s in table ==> s in ss)
      modifies this
      ensures Valid({}) && stack == [] && check == {}
      ensures reports != [] <==> HasCycle(table)
      ensures reports == [] ==> Sorted(table, order) && forall s :: s in table ==> s in order
    {
      for i := 0 to |ss|
        invariant Valid({}) && stack == []
        invariant reports == [] ==> forall j :: 0 <= j < i ==> ss[j] in order
      {
        var r := CheckDeps(ss[i]);
      }
      if reports == [] {
        forall p | IsCycle(table, p) ensures false {
          SortedHasNoCycle(table, order, p);
        }
      } else {
        assert IsCycle(table, reports[0]);
      }
    }
  }

  lemma SuccessorParts(t: Table, s: Symbol)
    ensures V.OptSymbols(Def(t, s).revDep) <= Successors(t, s)
    ensures PropsSymbols(Def(t, s).props) <= Successors(t, s)
    ensures forall x :: x in Successors(t, s) ==>
              x in V.OptSymbols(Def(t, s).revDep) || x in PropsSymbols(Def(t, s).props)
  {
  }

  lemma {:induction false} PropertySymbolsAt(ps: seq<Property>, i: nat)
    requires i < |ps|
    ensures PropertySymbols(ps[i]) <= PropsSymbols(ps)
  {
    if i < |ps| - 1 {
      PropertySymbolsAt(ps[..|ps| - 1], i);
    }
  }

  // ----- what a clean search means for the calculation of values

  /** The search follows everything the calculation of the symbols reads. */
  ghost predicate FollowsReads(t: Table, vt: V.Table) {
    forall s :: V.Reads(V.Def(vt, s)) <= Successors(t, s)
  }

  ghost function RankOf(order: seq<Symbol>): V.Ranking {
    (s: Symbol) => if s in order then Position(order, s) + 1 else 0
  }

  /** If nothing was reported, the values of the symbols are well defined. */
  lemma SortedIsAcyclic(t: Table, vt: V.Table, order: seq<Symbol>)
    requires Sorted(t, order) && FollowsReads(t, vt) && forall s :: s in vt ==> s in order
    ensures V.Acyclic(vt, RankOf(order))
  {
    forall s, r | r in V.Reads(V.Def(vt, s)) ensures RankOf(order)(r) < RankOf(order)(s) {
      assert s in vt;
      var i := Position(order, s);
      assert Edge(t, order[i], r) && r in order[..i];
      var j :| 0 <= j < i && order[j] == r;
      PositionIsFirst(order, r, j);
    }
  }

  /** What the search sees of a symbol with the given definition. */
  function DefinitionOf(d: V.Definition): Definition {
    Definition(d.revDep,
      seq(|d.prompts|, i requires 0 <= i < |d.prompts| => Property(PROMPT, d.prompts[i], None))
      + seq(|d.defaults|, i requires 0 <= i < |d.defaults| =>
          Property(DEFAULT, d.defaults[i].cond, Some(d.defaults[i].expr)))
      + [Property(SYMBOL, d.dirDep, None)])
  }

  /** Without `imply` the search follows everything the calculation reads. */
  lemma DefinitionFollowed(d: V.Definition)
    requires d.implied == None
    ensures V.Reads(d) <= V.OptSymbols(DefinitionOf(d).revDep) + PropsSymbols(DefinitionOf(d).props)
  {
    var ps := DefinitionOf(d).props;
    PropertySymbolsAt(ps, |ps| - 1);
    forall s | s in V.PromptsSymbols(d.prompts) ensures s in PropsSymbols(ps) {
      var i := PromptIndex(d.prompts, s);
      PropertySymbolsAt(ps, i);
      assert ps[i] == Property(PROMPT, d.prompts[i], None);
    }
    forall s | s in V.DefaultsSymbols(d.defaults) ensures s in PropsSymbols(ps) {
      var i := DefaultIndex(d.defaults, s);
      PropertySymbolsAt(ps, |d.prompts| + i);
      assert ps[|d.prompts| + i] == Property(DEFAULT, d.defaults[i].cond, Some(d.defaults[i].expr));
    }
  }

  lemma {:induction false} PromptIndex(ps: seq<Option<Expr>>, s: Symbol) returns (i: nat)
    requires s in V.PromptsSymbols(ps)
    ensures i < |ps| && s in V.OptSymbols(ps[i])
  {
    i := |ps| - 1;
    if s !in V.OptSymbols(ps[i]) {
      i := PromptIndex(ps[..i], s);
    }
  }

  lemma {:induction false} DefaultIndex(ds: seq<V.Default>, s: Symbol) returns (i: nat)
    requires s in V.DefaultsSymbols(ds)
    ensures i < |ds| && s in SymbolsOf(ds[i].expr) + V.OptSymbols(ds[i].cond)
  {
    i := 0;
    if s !in SymbolsOf(ds[0].expr) + V.OptSymbols(ds[0].cond) {
      var j := DefaultIndex(ds[1..], s);
      i := j + 1;
    }
  }

  lemma SelfReadIsCyclic(vt: V.Table, s: Symbol, rank: V.Ranking)
    requires s in V.Reads(V.Def(vt, s))
    ensures !V.Acyclic(vt, rank)
  {
    var k: nat := rank(s);
    assert V.Acyclic(vt, rank) ==> rank(s) < k;
  }

  function ImplyOnly(s: Symbol): V.Definition {
    V.Definition([], [], None, None, Some(Sym(s)))
  }

  lemma ImplyNotFollowed(s: Symbol)
    ensures PropsSymbols(DefinitionOf(ImplyOnly(s)).props) == {} && DefinitionOf(ImplyOnly(s)).revDep == None
  {
    var ps := DefinitionOf(ImplyOnly(s)).props;
    assert ps == [Property(SYMBOL, None, None)];
    assert ps[..0] == [] && PropsSymbols(ps[..0]) == {};
  }

  /** Nothing to follow means no cycle. */
  lemma NothingFollowed(t: Table)
    requires forall x :: x in t ==> t[x].revDep == None && PropsSymbols(t[x].props) == {}
    ensures !HasCycle(t)
  {
    forall x, r ensures !Edge(t, x, r) {
    }
  }

  /** An `imply` is not followed: a symbol that implies itself goes unreported. */
  lemma ImplyUnseen(s: Symbol)
    ensures var d := V.Definition([], [], None, None, Some(Sym(s)));
            !HasCycle(map[s := DefinitionOf(d)]) && !exists rank :: V.Acyclic(map[s := d], rank)
  {
    hide HasCycle, PropsSymbols, DefinitionOf, V.Acyclic;
    var d := ImplyOnly(s);
    ImplyNotFollowed(s);
    NothingFollowed(map[s := DefinitionOf(d)]);
    forall rank: V.Ranking ensures !V.Acyclic(map[s := d], rank) {
      assert s in V.Reads(V.Def(map[s := d], s));
      SelfReadIsCyclic(map[s := d], s, rank);
    }
  }
}
