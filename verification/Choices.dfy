/**
 A choice of bool symbols (`sym_calc_choice`, `sym_choice_default` and the
 choice cases of `sym_calc_value` in `symbol.c`).

 The symbols outside the choice are calculated already.  The members'
 prompts depend on the choice, and calculating the choice calculates the
 visibility of the members, so the calls are re-entrant.
 */
module Choices {
  import opened Wrappers
  import opened Expressions
  import V = SymbolValues
  import Submenus
  import T = Tristates

  /** The state of a bool member. */
  datatype MemberState = MemberState(valid: bool, tri: Tristate, visible: Tristate)

  /** A bool symbol is never `m`. */
  function BoolTri(t: Tristate): Tristate {
    if t == T.MOD then T.YES else t
  }

  /** What is declared about a choice; the members in the order of their menu entries. */
  datatype ChoiceDef = ChoiceDef(
    choice: Symbol,
    prompts: seq<Option<Expr>>,
    revDep: Option<Expr>,
    defaults: seq<V.Default>,
    members: seq<Symbol>,
    conds: map<Symbol, Expr>)

  /** The user's settings: a mode and a member for the choice, and the members that have a value. */
  datatype UserChoice = UserChoice(mode: Option<Tristate>, member: Option<Symbol>, known: set<Symbol>)

  // ----- what the choice is worth

  /** The assignment in which the choice has the value c. */
  function EnvWith(d: ChoiceDef, outside: Env, c: Tristate): Env {
    Env((s: Symbol) => TriWith(d, outside, c, s), (s: Symbol) => StrWith(d, outside, c, s))
  }

  function TriWith(d: ChoiceDef, outside: Env, c: Tristate, s: Symbol): Tristate {
    if s == d.choice then c else outside.tri(s)
  }

  function StrWith(d: ChoiceDef, outside: Env, c: Tristate, s: Symbol): string {
    if s == d.choice then T.Letter(c) else outside.str(s)
  }

  /** The mode of the choice before a member is looked for. */
  function Mode(d: ChoiceDef, u: UserChoice, outside: Env): Tristate {
    var visible := BoolTri(V.BestPrompt(d.prompts, outside));
    var rev := BoolTri(if d.revDep.Some? then Calc(d.revDep.value, outside) else T.NO);
    var own := if u.mode.Some? && visible != T.NO then T.And(u.mode.value, visible) else T.NO;
    BoolTri(T.Or(own, rev))
  }

  /** A member is visible while the choice has the value c. */
  predicate Shows(d: ChoiceDef, outside: Env, c: Tristate, m: Symbol)
    requires m in d.conds
  {
    Calc(d.conds[m], EnvWith(d, outside, c)) != T.NO
  }

  function FirstShown(d: ChoiceDef, outside: Env, c: Tristate, ms: seq<Symbol>): Option<Symbol>
    requires forall m :: m in ms ==> m in d.conds
  {
    if ms == [] then None
    else if Shows(d, outside, c, ms[0]) then Some(ms[0])
    else FirstShown(d, outside, c, ms[1..])
  }

  /** The first default that applies and is visible. */
  function FirstDefault(d: ChoiceDef, outside: Env, c: Tristate, ds: seq<V.Default>): Option<Symbol>
    requires forall x :: x in ds ==> x.expr.Sym? && x.expr.sym in d.conds
  {
    if ds == [] then None
    else if CalcOpt(ds[0].cond, EnvWith(d, outside, c)) != T.NO
      && Shows(d, outside, c, ds[0].expr.sym) then Some(ds[0].expr.sym)
    else FirstDefault(d, outside, c, ds[1..])
  }

  /** The member a choice in mode `y` selects. */
  function Selected(d: ChoiceDef, u: UserChoice, outside: Env): Option<Symbol>
    requires Proper(d) && UserProper(d, u)
  {
    if u.member.Some? && Shows(d, outside, T.YES, u.member.value) then u.member
    else
      var def := FirstDefault(d, outside, T.YES, d.defaults);
      if def.Some? then def else FirstShown(d, outside, T.YES, d.members)
  }

  /** The value of the choice, and the member it points to. */
  function ChoiceTri(d: ChoiceDef, u: UserChoice, outside: Env): Tristate
    requires Proper(d) && UserProper(d, u)
  {
    if Mode(d, u, outside) == T.YES && Selected(d, u, outside).Some? then T.YES else T.NO
  }

  function ChoiceVal(d: ChoiceDef, u: UserChoice, outside: Env): Option<Symbol>
    requires Proper(d) && UserProper(d, u)
  {
    if Mode(d, u, outside) == T.YES then Selected(d, u, outside) else None
  }

  function MemberTri(d: ChoiceDef, u: UserChoice, outside: Env, m: Symbol): Tristate
    requires Proper(d) && UserProper(d, u) && m in d.conds
  {
    T.Truth(Shows(d, outside, ChoiceTri(d, u, outside), m) && ChoiceVal(d, u, outside) == Some(m))
  }

  // ----- what Kconfig guarantees about a choice

  /** No member is among the symbols. */
  predicate NoMember(d: ChoiceDef, ss: set<Symbol>) {
    forall s :: s in ss ==> s !in d.conds
  }

  /**
   The choice and its members are bools, every member has a prompt that
   depends on the choice, and the defaults are members.  The prompts of the
   choice do not depend on the choice, and no condition depends on a member:
   `sym_check_choice_deps` reports that as a recursive dependency.
   */
  predicate Proper(d: ChoiceDef) {
    && d.choice.Config? && d.choice.Type() == Boolean && d.choice !in d.members
    && (forall m :: m in d.members ==> m in d.conds) && (forall m :: m in d.conds ==> m in d.members)
    && (forall m :: m in d.conds ==> Submenus.Depends(d.conds[m], d.choice) && NoMember(d, SymbolsOf(d.conds[m])))
    && (forall x :: x in d.defaults ==> x.expr.Sym? && x.expr.sym in d.conds && NoMember(d, V.OptSymbols(x.cond)))
    && d.choice !in V.PromptsSymbols(d.prompts) && d.choice !in V.OptSymbols(d.revDep)
    && NoMember(d, V.PromptsSymbols(d.prompts)) && NoMember(d, V.OptSymbols(d.revDep))
  }

  predicate UserProper(d: ChoiceDef, u: UserChoice) {
    u.member.Some? ==> u.member.value in d.conds
  }

  lemma {:induction false} FirstShownIsShown(d: ChoiceDef, outside: Env, c: Tristate, ms: seq<Symbol>)
    requires forall m :: m in ms ==> m in d.conds
    ensures var r := FirstShown(d, outside, c, ms);
            && (r.Some? ==> r.value in ms && Shows(d, outside, c, r.value))
            && (r.None? ==> forall m :: m in ms ==> !Shows(d, outside, c, m))
  {
    if ms != [] {
      FirstShownIsShown(d, outside, c, ms[1..]);
    }
  }

  lemma {:induction false} FirstDefaultIsShown(d: ChoiceDef, outside: Env, c: Tristate, ds: seq<V.Default>)
    requires forall x :: x in ds ==> x.expr.Sym? && x.expr.sym in d.conds
    ensures var r := FirstDefault(d, outside, c, ds);
            r.Some? ==> r.value in d.conds && Shows(d, outside, c, r.value)
  {
    if ds != [] {
      FirstDefaultIsShown(d, outside, c, ds[1..]);
    }
  }

  /** The selected member is visible, and there is one exactly when some member is visible. */
  lemma SelectedIsShown(d: ChoiceDef, u: UserChoice, outside: Env)
    requires Proper(d) && UserProper(d, u)
    ensures var r := Selected(d, u, outside);
            && (r.Some? ==> r.value in d.conds && Shows(d, outside, T.YES, r.value))
            && (r.Some? <==> exists m :: m in d.members && Shows(d, outside, T.YES, m))
  {
    FirstDefaultIsShown(d, outside, T.YES, d.defaults);
    FirstShownIsShown(d, outside, T.YES, d.members);
  }

  /** While the choice is `n` no member is visible. */
  lemma NoChoiceNoMember(d: ChoiceDef, outside: Env, m: Symbol)
    requires Proper(d) && m in d.conds && WellFormed(outside)
    ensures !Shows(d, outside, T.NO, m)
  {
    var env := EnvWith(d, outside, T.NO);
    assert WellFormed(env);
    Submenus.DependsMeansImplies(d.conds[m], d.choice, env);
  }

  /**
   When the choice is `y`, exactly one member is `y`, and it is visible; when
   the choice is `n`, no member is `y`.
   */
  lemma ExactlyOneMember(d: ChoiceDef, u: UserChoice, outside: Env)
    requires Proper(d) && UserProper(d, u) && WellFormed(outside)
    ensures ChoiceTri(d, u, outside) == T.YES ==>
              exists m :: m in d.members && MemberTri(d, u, outside, m) == T.YES && Shows(d, outside, T.YES, m)
                && forall x :: x in d.members && x != m ==> MemberTri(d, u, outside, x) == T.NO
    ensures ChoiceTri(d, u, outside) == T.NO ==> forall x :: x in d.members ==> MemberTri(d, u, outside, x) == T.NO
    ensures ChoiceTri(d, u, outside) == T.YES <==>
              Mode(d, u, outside) == T.YES && exists m :: m in d.members && Shows(d, outside, T.YES, m)
  {
    SelectedIsShown(d, u, outside);
    hide Shows, Mode, Selected, Proper;
    if ChoiceTri(d, u, outside) == T.YES {
      var m := Selected(d, u, outside).value;
      assert m in d.conds && m in d.members by { ProperMembers(d); }
      assert MemberTri(d, u, outside, m) == T.YES;
    } else {
      forall x | x in d.members ensures MemberTri(d, u, outside, x) == T.NO {
        ProperMembers(d);
        NoChoiceNoMember(d, outside, x);
      }
    }
  }

  // ----- which member it is

  /** The default applies, and its member is visible. */
  predicate Applies(d: ChoiceDef, outside: Env, x: V.Default) {
    && x.expr.Sym? && x.expr.sym in d.conds
    && CalcOpt(x.cond, EnvWith(d, outside, T.YES)) != T.NO && Shows(d, outside, T.YES, x.expr.sym)
  }

  /** m is the member of the first default that applies. */
  predicate IsDefault(d: ChoiceDef, outside: Env, m: Symbol) {
    exists i :: 0 <= i < |d.defaults| && Applies(d, outside, d.defaults[i]) && d.defaults[i].expr.sym == m
      && forall j :: 0 <= j < i ==> !Applies(d, outside, d.defaults[j])
  }

  /** m is the first visible member. */
  predicate IsFirst(d: ChoiceDef, outside: Env, m: Symbol)
    requires forall x :: x in d.members ==> x in d.conds
  {
    exists i :: 0 <= i < |d.members| && d.members[i] == m && Shows(d, outside, T.YES, m)
      && forall j :: 0 <= j < i ==> !Shows(d, outside, T.YES, d.members[j])
  }

  /** The user's member if it is visible, or the first default that applies, or the first visible member. */
  predicate IsPicked(d: ChoiceDef, u: UserChoice, outside: Env, m: Symbol)
    requires Proper(d) && UserProper(d, u)
  {
    ProperMembers(d);
    if u.member.Some? && Shows(d, outside, T.YES, u.member.value) then m == u.member.value
    else if exists x :: x in d.defaults && Applies(d, outside, x) then IsDefault(d, outside, m)
    else IsFirst(d, outside, m)
  }

  lemma {:induction false} FirstShownAt(d: ChoiceDef, outside: Env, ms: seq<Symbol>) returns (i: nat)
    requires forall m :: m in ms ==> m in d.conds
    ensures i <= |ms| && forall j :: 0 <= j < i ==> !Shows(d, outside, T.YES, ms[j])
    ensures FirstShown(d, outside, T.YES, ms) == if i < |ms| then Some(ms[i]) else None
    ensures i < |ms| ==> Shows(d, outside, T.YES, ms[i])
  {
    i := 0;
    if ms != [] && !Shows(d, outside, T.YES, ms[0]) {
      var k := FirstShownAt(d, outside, ms[1..]);
      i := k + 1;
    }
  }

  lemma {:induction false} FirstDefaultAt(d: ChoiceDef, outside: Env, ds: seq<V.Default>) returns (i: nat)
    requires forall x :: x in ds ==> x.expr.Sym? && x.expr.sym in d.conds
    ensures i <= |ds| && forall j :: 0 <= j < i ==> !Applies(d, outside, ds[j])
    ensures FirstDefault(d, outside, T.YES, ds) == if i < |ds| then Some(ds[i].expr.sym) else None
    ensures i < |ds| ==> Applies(d, outside, ds[i])
  {
    i := 0;
    if ds != [] && !Applies(d, outside, ds[0]) {
      var k := FirstDefaultAt(d, outside, ds[1..]);
      i := k + 1;
    }
    hide Shows;
  }

  lemma ProperDefaults(d: ChoiceDef)
    requires Proper(d)
    ensures forall x :: x in d.defaults ==> x.expr.Sym? && x.expr.sym in d.conds
  {
  }

  /** The selected member is the one that is picked. */
  lemma SelectedIsPicked(d: ChoiceDef, u: UserChoice, outside: Env, m: Symbol)
    requires Proper(d) && UserProper(d, u)
    ensures Selected(d, u, outside) == Some(m) <==> IsPicked(d, u, outside, m)
  {
    hide Shows, Proper, Applies, IsDefault, IsFirst;
    ProperDefaults(d);
    ProperMembers(d);
    var i := FirstDefaultAt(d, outside, d.defaults);
    var k := FirstShownAt(d, outside, d.members);
    DefaultIsUnique(d, outside, i, m);
    FirstIsUnique(d, outside, k, m);
  }

  lemma DefaultIsUnique(d: ChoiceDef, outside: Env, i: nat, m: Symbol)
    requires i <= |d.defaults| && forall j :: 0 <= j < i ==> !Applies(d, outside, d.defaults[j])
    requires i < |d.defaults| ==> Applies(d, outside, d.defaults[i])
    ensures IsDefault(d, outside, m) <==> i < |d.defaults| && m == d.defaults[i].expr.sym
    ensures (exists x :: x in d.defaults && Applies(d, outside, x)) <==> i < |d.defaults|
  {
    hide Shows;
  }

  lemma FirstIsUnique(d: ChoiceDef, outside: Env, k: nat, m: Symbol)
    requires (forall x :: x in d.members ==> x in d.conds) && k <= |d.members|
    requires forall j :: 0 <= j < k ==> !Shows(d, outside, T.YES, d.members[j])
    requires k < |d.members| ==> Shows(d, outside, T.YES, d.members[k])
    ensures IsFirst(d, outside, m) <==> k < |d.members| && m == d.members[k]
  {
    hide Shows;
  }

  /** Exactly when the choice is `y` it points to a member, the one that is picked, and that one is `y`. */
  lemma PickedIsYes(d: ChoiceDef, u: UserChoice, outside: Env, m: Symbol)
    requires Proper(d) && UserProper(d, u) && m in d.conds
    ensures ChoiceVal(d, u, outside) == Some(m) <==> ChoiceTri(d, u, outside) == T.YES && IsPicked(d, u, outside, m)
    ensures MemberTri(d, u, outside, m) == T.YES <==> ChoiceTri(d, u, outside) == T.YES && IsPicked(d, u, outside, m)
  {
    SelectedIsPicked(d, u, outside, m);
    SelectedIsShown(d, u, outside);
    hide Shows, Proper, Selected, Mode, IsPicked;
  }

  /** The choice can be `y`: something selects it, or the user has set it and some prompt is visible. */
  lemma ModeExact(d: ChoiceDef, u: UserChoice, outside: Env)
    ensures Mode(d, u, outside) == T.YES
            <==> || (d.revDep.Some? && Calc(d.revDep.value, outside) != T.NO)
                 || (&& u.mode.Some? && u.mode.value != T.NO
                     && exists i :: 0 <= i < |d.prompts| && CalcOpt(d.prompts[i], outside) != T.NO)
    ensures Mode(d, u, outside) != T.MOD
  {
    V.BestPromptExact(d.prompts, outside);
    hide V.BestPrompt, CalcOpt, Calc;
  }

  lemma ProperMembers(d: ChoiceDef)
    requires Proper(d)
    ensures forall m :: m in d.members <==> m in d.conds
  {
  }

  // ----- the calculation, with its marks

  /** The expressions the choice itself depends on do not notice its value. */
  lemma ChoiceUnread(d: ChoiceDef, outside: Env, c: Tristate, e: Expr)
    requires d.choice !in SymbolsOf(e)
    ensures Calc(e, EnvWith(d, outside, c)) == Calc(e, outside)
  {
    CalcReadsItsSymbols(e, EnvWith(d, outside, c), outside);
  }

  // ----- the user's mode

  /** Some visible member has no value from the user. */
  predicate SomeUnknown(d: ChoiceDef, u: UserChoice, outside: Env)
    requires Proper(d)
  {
    exists m :: m in d.members && Shows(d, outside, T.YES, m) && m !in u.known
  }

  /** The settings after the choice has been calculated: the mode is forgotten if some visible member has no value. */
  function After(d: ChoiceDef, u: UserChoice, outside: Env): UserChoice
    requires Proper(d)
  {
    if Mode(d, u, outside) == T.YES && SomeUnknown(d, u, outside) then u.(mode := None) else u
  }

  /**
   Calculating a second time gives the choice the same value exactly when the
   mode was not forgotten, or was not needed because the choice is not optional.
   */
  lemma RecalculationExact(d: ChoiceDef, u: UserChoice, outside: Env)
    requires Proper(d) && UserProper(d, u)
    ensures ChoiceTri(d, After(d, u, outside), outside) == ChoiceTri(d, u, outside)
            <==> (ChoiceTri(d, u, outside) == T.YES && SomeUnknown(d, u, outside) ==>
                    d.revDep.Some? && Calc(d.revDep.value, outside) != T.NO)
  {
    SelectedIsShown(d, u, outside);
    hide Shows, Proper, FirstShown, FirstDefault;
  }

  /** A choice with one member, whose prompt depends on nothing else. */
  function LoneChoice(): ChoiceDef {
    var choice, member := Symbol.Config("CHOICE", Boolean), Symbol.Config("A", Boolean);
    ChoiceDef(choice, [None], None, [], [member], map[member := Sym(choice)])
  }

  /** The user has set the choice to `y`, which is optional, but has not set its member. */
  lemma RecalculationFails(outside: Env)
    requires WellFormed(outside)
    ensures var d, u := LoneChoice(), UserChoice(Some(T.YES), None, {});
            && Proper(d) && UserProper(d, u)
            && ChoiceTri(d, u, outside) == T.YES && ChoiceTri(d, After(d, u, outside), outside) == T.NO
  {
    var d, u := LoneChoice(), UserChoice(Some(T.YES), None, {});
    var m := d.members[0];
    assert V.PromptsSymbols(d.prompts) == {} by { assert V.PromptsSymbols(d.prompts[..0]) == {}; }
    assert V.BestPrompt(d.prompts, outside) == T.YES by { assert d.prompts[..0] == []; }
    assert Shows(d, outside, T.YES, m) && FirstShown(d, outside, T.YES, d.members) == Some(m);
    RecalculationExact(d, u, outside);
  }

  lemma ShowsIs(d: ChoiceDef, outside: Env, c: Tristate, m: Symbol)
    requires m in d.conds
    ensures Shows(d, outside, c, m) <==> Calc(d.conds[m], EnvWith(d, outside, c)) != T.NO
  {
  }

  /** A member's condition mentions the choice. */
  lemma DependsContains(d: ChoiceDef, m: Symbol)
    requires Proper(d) && m in d.conds
    ensures d.choice in SymbolsOf(d.conds[m])
  {
    DependsMentions(d.conds[m], d.choice);
  }

  lemma {:induction false} DependsMentions(e: Expr, s: Symbol)
    requires Submenus.Depends(e, s)
    ensures s in SymbolsOf(e)
  {
    if e.Bin? {
      DependsMentions(if Submenus.Depends(e.left, s) then e.left else e.right, s);
    }
  }

  class Choice {
    const d: ChoiceDef
    const outside: Env
    var user: UserChoice
    var valid: bool
    var tri: Tristate
    var val: Option<Symbol>
    var members: map<Symbol, MemberState>
    /** The settings the current values have been calculated from. */
    ghost var basis: UserChoice

    ghost predicate Setting()
      reads this
    {
      && Proper(d) && UserProper(d, user) && UserProper(d, basis) && WellFormed(outside)
      && members.Keys == d.conds.Keys
      && (!valid ==> basis == user)
    }

    ghost predicate ChoiceRight()
      reads this
    {
      && Setting()
      && (valid ==> tri == ChoiceTri(d, basis, outside) && val == ChoiceVal(d, basis, outside))
    }

    /** A valid choice has its value, and so have the valid members that are not busy. */
    ghost predicate Right(busy: set<Symbol>)
      reads this
    {
      && ChoiceRight()
      && (forall m :: m in members && m !in busy && members[m].valid ==>
            valid && members[m].tri == MemberTri(d, basis, outside, m))
    }

    /** No member has become valid or has changed its value. */
    twostate predicate SameMembers()
      reads this
    {
      && members.Keys == old(members).Keys
      && (forall m :: m in members ==>
            members[m].valid == old(members)[m].valid && members[m].tri == old(members)[m].tri)
      && basis == old(basis)
    }

    constructor (d: ChoiceDef, outside: Env, user: UserChoice)
      requires Proper(d) && UserProper(d, user) && WellFormed(outside)
      ensures this.d == d && this.outside == outside && this.user == user && basis == user && Right({}) && !valid
      ensures forall m :: m in members ==> !members[m].valid
    {
      this.d, this.outside, this.user, this.basis := d, outside, user, user;
      valid, tri, val := false, T.NO, None;
      members := map m | m in d.conds :: MemberState(false, T.NO, T.NO);
    }

    /** The first loop of `sym_calc_choice`: the choice is VALID already. */
    method CalcMembersVisibility() returns (keep: bool)
      requires Setting() && valid && tri == T.YES
      modifies this
      ensures Setting() && SameMembers() && ChoiceKept()
      ensures forall m :: m in members ==> (members[m].visible != T.NO <==> Shows(d, outside, T.YES, m))
      ensures keep <==> !SomeUnknown(d, user, outside)
      decreases !valid, 3
    {
      hide Shows, Proper, UserProper, WellFormed, ChoiceTri, ChoiceVal;
      ProperMembers(d);
      keep := true;
      for i := 0 to |d.members|
        invariant Setting() && SameMembers() && ChoiceKept()
        invariant forall j :: 0 <= j < i ==>
                    (members[d.members[j]].visible != T.NO <==> Shows(d, outside, T.YES, d.members[j]))
        invariant keep <==>
                    !exists j :: 0 <= j < i && Shows(d, outside, T.YES, d.members[j]) && d.members[j] !in user.known
      {
        var m := d.members[i];
        var v := CalcMemberVisibility(m);
        if v != T.NO && m !in user.known {
          keep := false;
        }
      }
    }

    /** `sym_calc_visibility` for a member. */
    method CalcMemberVisibility(m: Symbol) returns (v: Tristate)
      requires Setting() && valid && tri == T.YES && m in d.conds
      modifies this
      ensures Setting() && SameMembers() && ChoiceKept()
      ensures v != T.NO <==> Shows(d, outside, T.YES, m)
      ensures members == old(members)[m := members[m]] && members[m].visible == BoolTri(v)
      decreases !valid, 2, 1
    {
      hide Shows, Proper, EnvWith, Calc, SymbolsOf;
      v := CalcExpr(d.conds[m]);
      ShowsIs(d, outside, T.YES, m);
      members := members[m := members[m].(visible := BoolTri(v))];
    }

    /** `expr_calc_value`: a VALID choice is only looked at, any other is calculated on the way. */
    method CalcExpr(e: Expr) returns (r: Tristate)
      requires Setting()
      modifies this
      ensures Setting() && SameMembers() && (d.choice in SymbolsOf(e) ==> valid)
      ensures old(valid) ==> unchanged(this)
      ensures ChoiceKept() && (!old(valid) ==> ChoiceRight())
      ensures r == Calc(e, EnvWith(d, outside, tri))
      decreases !valid, 1, e
    {
      hide Proper, Selected, Mode;
      match e {
        case Sym(s) =>
          if s == d.choice {
            CalcChoice();
            r := tri;
          } else {
            r := outside.tri(s);
          }
        case Not(a) =>
          r := CalcExpr(a);
          r := T.Not(r);
        case Bin(op, left, right) =>
          var v1 := CalcExpr(left);
          ghost var c := tri;
          var v2 := CalcExpr(right);
          if d.choice !in SymbolsOf(left) {
            ChoiceUnread(d, outside, c, left);
            ChoiceUnread(d, outside, tri, left);
          }
          r := Combine(op, v1, v2);
        case Comp(_, left, right) =>
          if left == d.choice || right == d.choice {
            CalcChoice();
          }
          r := Calc(e, EnvWith(d, outside, tri));
      }
    }

    /** Once the choice is VALID, calculating an expression leaves it alone. */
    twostate predicate ChoiceKept()
      reads this
    {
      old(valid) ==> valid && tri == old(tri) && val == old(val) && user == old(user)
    }

    /** `sym_choice_default`. */
    method ChoiceDefault() returns (r: Option<Symbol>)
      requires Setting()
      requires forall m :: m in members ==> (members[m].visible != T.NO <==> Shows(d, outside, T.YES, m))
      ensures r == var def := FirstDefault(d, outside, T.YES, d.defaults);
                   if def.Some? then def else FirstShown(d, outside, T.YES, d.members)
    {
      hide Shows;
      var i := 0;
      while i < |d.defaults|
        invariant 0 <= i <= |d.defaults|
        invariant FirstDefault(d, outside, T.YES, d.defaults) == FirstDefault(d, outside, T.YES, d.defaults[i..])
      {
        var def := d.defaults[i];
        if CalcOpt(def.cond, EnvWith(d, outside, T.YES)) != T.NO && members[def.expr.sym].visible != T.NO {
          return Some(def.expr.sym);
        }
        i := i + 1;
      }
      i := 0;
      while i < |d.members|
        invariant 0 <= i <= |d.members|
        invariant FirstShown(d, outside, T.YES, d.members) == FirstShown(d, outside, T.YES, d.members[i..])
      {
        if members[d.members[i]].visible != T.NO {
          return Some(d.members[i]);
        }
        i := i + 1;
      }
      return None;
    }

    /** `sym_calc_choice`. */
    method CalcChoiceValue() returns (r: Option<Symbol>)
      requires Setting() && valid && tri == T.YES && basis == user
      modifies this
      ensures Setting() && SameMembers() && valid
      ensures r == Selected(d, basis, outside) && tri == T.Truth(r.Some?)
      ensures user == if SomeUnknown(d, basis, outside) then basis.(mode := None) else basis
      decreases !valid, 4
    {
      hide Proper, Shows, SomeUnknown, WellFormed, FirstShown, FirstDefault;
      var keep := CalcMembersVisibility();
      if !keep {
        user := user.(mode := None);
      }
      if user.member.Some? && members[user.member.value].visible != T.NO {
        return user.member;
      }
      r := ChoiceDefault();
      if r.None? {
        tri := T.NO;
      }
    }

    /** `sym_calc_value` for the choice. */
    method CalcChoice()
      requires Setting()
      modifies this
      ensures Setting() && SameMembers() && valid
      ensures old(valid) ==> unchanged(this)
      ensures !old(valid) ==> ChoiceRight() && user == After(d, basis, outside)
      decreases !valid, 0
    {
      hide Shows, Proper, FirstShown, FirstDefault, SomeUnknown, WellFormed, CalcOpt, Calc;
      if valid {
        return;
      }
      valid := true;
      var visible := T.NO;
      for i := 0 to |d.prompts|
        invariant visible == V.BestPrompt(d.prompts[..i], outside)
      {
        visible := T.Or(visible, CalcOpt(d.prompts[i], outside));
        assert d.prompts[..i + 1][..i] == d.prompts[..i];
      }
      assert d.prompts[..|d.prompts|] == d.prompts;
      visible := BoolTri(visible);
      var rev := BoolTri(if d.revDep.Some? then Calc(d.revDep.value, outside) else T.NO);
      var newval := if user.mode.Some? && visible != T.NO then T.And(user.mode.value, visible) else T.NO;
      newval := BoolTri(T.Or(newval, rev));
      tri, val := newval, None;
      if newval == T.YES {
        val := CalcChoiceValue();
      }
    }

    /** The last part of `sym_calc_value` for a member, its visibility calculated. */
    method FinishMember(m: Symbol, shown: Tristate)
      requires ChoiceRight() && valid && m in members && (shown != T.NO <==> Shows(d, outside, tri, m))
      modifies `members
      ensures ChoiceRight() && members == old(members)[m := members[m]]
      ensures members[m].valid && members[m].tri == MemberTri(d, basis, outside, m)
    {
      hide Shows, Proper, Mode, Selected, ChoiceVal, ChoiceTri;
      var visible := BoolTri(shown);
      var newtri := if visible == T.YES && val == Some(m) then T.YES else T.NO;
      members := members[m := MemberState(true, newtri, visible)];
    }

    /** `sym_calc_value` for a member: calculating its visibility calculates the choice first. */
    method CalcMember(m: Symbol)
      requires Right({}) && m in d.conds
      modifies this
      ensures Right({}) && basis == old(basis) && valid && members[m].valid
      ensures forall x :: x in old(members) && old(members)[x].valid ==> members[x].valid
    {
      hide Shows, Proper, UserProper, Mode, Selected, ChoiceVal, ChoiceTri, MemberTri, Calc, SymbolsOf, WellFormed,
        EnvWith;
      if members[m].valid {
        return;
      }
      DependsContains(d, m);
      members := members[m := members[m].(valid := true)];
      var v := CalcExpr(d.conds[m]);
      ShowsIs(d, outside, tri, m);
      FinishMember(m, v);
    }

    /**
     Whatever the order in which the members are calculated, with or without
     the choice itself: in the end the choice is `y` exactly when one member
     is, and never two.
     */
    method CalcAll(order: seq<Symbol>)
      requires Right({}) && forall m :: m in order ==> m in d.conds || m == d.choice
      modifies this
      ensures Right({}) && basis == old(basis)
      ensures forall m :: m in order && m in d.conds ==> valid && members[m].tri == MemberTri(d, basis, outside, m)
      ensures d.choice in order ==> valid && tri == ChoiceTri(d, basis, outside)
    {
      hide Shows, Proper, ChoiceTri, MemberTri, ChoiceVal;
      for i := 0 to |order|
        invariant Right({}) && basis == old(basis)
        invariant forall j :: 0 <= j < i && order[j] in d.conds ==> members[order[j]].valid
        invariant forall j :: 0 <= j < i && order[j] == d.choice ==> valid
      {
        if order[i] in d.conds {
          CalcMember(order[i]);
        } else {
          CalcChoice();
        }
      }
    }
  }
}
