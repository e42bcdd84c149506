/**
 What the symbols of a configuration are worth: the plain definition behind
 `sym_calc_value` of `symbol.c`, for tables without choices and ranges.
 */
module SymbolValues {
  import opened Wrappers
  import opened Expressions
  import Q = Equations
  import T = Tristates

  // ----- tables

  /** A `default` property: its value and its condition. */
  datatype Default = Default(expr: Expr, cond: Option<Expr>)

  /**
   The properties of a symbol and the dependencies `menu_finalize` has
   gathered for it.  A prompt is represented by its condition.
   */
  datatype Definition = Definition(
    prompts: seq<Option<Expr>>,
    defaults: seq<Default>,
    dirDep: Option<Expr>,
    revDep: Option<Expr>,
    implied: Option<Expr>)

  type Table = map<Symbol, Definition>

  /** The definition of a symbol; a symbol that is only mentioned has no properties. */
  function Def(t: Table, s: Symbol): Definition {
    if s in t then t[s] else Definition([], [], None, None, None)
  }

  /** A `struct symbol_value`: the `curr` field, or a value from a configuration file. */
  datatype Value = Value(tri: Tristate, val: string)

  /** The values for which SYMBOL_DEF_USER is set. */
  type UserValues = map<Symbol, Value>

  /**
   What a calculation starts from: the table, the user's values, and for every
   symbol the `modules_val` under which it is calculated.
   */
  datatype Setup = Setup(table: Table, user: UserValues, modules: Symbol -> Tristate)

  /** One `modules_val` for all symbols. */
  function Always(m: Tristate): Symbol -> Tristate {
    (s: Symbol) => m
  }

  // ----- the calculation for one symbol

  /** `sym_get_type` without choices: without modules a tristate is a bool. */
  function EffectiveType(s: Symbol, modules: Tristate): SymbolType {
    if s.Type() == Tri && modules == T.NO then Boolean else s.Type()
  }

  function RoundBool(t: Tristate, s: Symbol, modules: Tristate): Tristate {
    if t == T.MOD && EffectiveType(s, modules) == Boolean then T.YES else t
  }

  /** The best of the prompts' conditions. */
  function BestPrompt(prompts: seq<Option<Expr>>, env: Env): Tristate {
    if prompts == [] then T.NO
    else T.Or(BestPrompt(prompts[..|prompts| - 1], env), CalcOpt(prompts[|prompts| - 1], env))
  }

  function Visible(c: Setup, s: Symbol, env: Env): Tristate {
    var tri := BestPrompt(Def(c.table, s).prompts, env);
    if tri == T.MOD && (s.Type() != Tri || c.modules(s) == T.NO) then T.YES else tri
  }

  function DirDep(c: Setup, s: Symbol, env: Env): Tristate {
    RoundBool(CalcOpt(Def(c.table, s).dirDep, env), s, c.modules(s))
  }

  function RevDep(c: Setup, s: Symbol, env: Env): Tristate {
    var e := Def(c.table, s).revDep;
    RoundBool(if e.Some? then Calc(e.value, env) else T.NO, s, c.modules(s))
  }

  function Implied(c: Setup, s: Symbol, env: Env): Tristate {
    var e := Def(c.table, s).implied;
    RoundBool(if e.Some? && DirDep(c, s, env) != T.NO then Calc(e.value, env) else T.NO, s, c.modules(s))
  }

  /** `sym_get_default_prop`: the first default whose condition is not `n`. */
  function FirstDefault(defaults: seq<Default>, env: Env): Option<Default> {
    if defaults == [] then None
    else if CalcOpt(defaults[0].cond, env) != T.NO then Some(defaults[0])
    else FirstDefault(defaults[1..], env)
  }

  /** The tristate of the active default, limited by its condition. */
  function DefaultTri(c: Setup, s: Symbol, env: Env): Tristate {
    match FirstDefault(Def(c.table, s).defaults, env)
    case None => T.NO
    case Some(d) => T.And(Calc(d.expr, env), CalcOpt(d.cond, env))
  }

  /** The user's value counts: there is one and the symbol is visible. */
  predicate UserApplies(c: Setup, s: Symbol, env: Env) {
    s in c.user && Visible(c, s, env) != T.NO
  }

  function NewTri(c: Setup, s: Symbol, env: Env): Tristate {
    var own := if UserApplies(c, s, env) then T.And(c.user[s].tri, Visible(c, s, env))
               else T.Or(DefaultTri(c, s, env), Implied(c, s, env));
    var tri := T.Or(own, RevDep(c, s, env));
    if tri == T.MOD && (EffectiveType(s, c.modules(s)) == Boolean || Implied(c, s, env) == T.YES) then T.YES else tri
  }

  /** `prop_get_symbol` of a default: its expression if that is a symbol. */
  function DefaultSymbol(d: Option<Default>): Option<Symbol> {
    if d.Some? && d.value.expr.Sym? then Some(d.value.expr.sym) else None
  }

  function NewVal(c: Setup, s: Symbol, env: Env, val: Symbol -> string): string {
    if UserApplies(c, s, env) then c.user[s].val
    else match DefaultSymbol(FirstDefault(Def(c.table, s).defaults, env))
      case None => ""
      case Some(ds) => val(ds)
  }

  predicate Textual(s: Symbol) {
    s.Type() == Int || s.Type() == Hex || s.Type() == Str
  }

  /** The value of a symbol that is neither logical nor textual. */
  function FixedValue(s: Symbol): Value {
    match s
    case ConstYes => Value(T.YES, "y")
    case ConstMod => Value(T.MOD, "m")
    case ConstNo => Value(T.NO, "n")
    case Const(text) => Value(T.NO, text)
    case Config(name, _) => Value(T.NO, name)
  }

  /** `sym_get_string_value`. */
  function StringValue(s: Symbol, v: Value): string {
    if s.Logical() then T.Letter(v.tri) else v.val
  }

  /** The value without any properties. */
  function BareValue(s: Symbol): Value {
    if s.Logical() then Value(T.NO, "n") else if Textual(s) then Value(T.NO, "") else FixedValue(s)
  }

  predicate Calculated(s: Symbol) {
    s.Logical() || Textual(s)
  }

  /** SYMBOL_WRITE: there is something to say about the symbol in a configuration file. */
  predicate Writes(c: Setup, s: Symbol, env: Env) {
    || Visible(c, s, env) != T.NO
    || (s.Logical() && (RevDep(c, s, env) != T.NO || DefaultTri(c, s, env) != T.NO || Implied(c, s, env) != T.NO))
    || (!s.Logical() && DefaultSymbol(FirstDefault(Def(c.table, s).defaults, env)).Some?)
  }

  // ----- assignments that solve the table

  type Assignment = Symbol -> Value

  function EnvOf(a: Assignment): Env {
    Env((s: Symbol) => a(s).tri, (s: Symbol) => StringValue(s, a(s)))
  }

  /** The new `curr` of a symbol, given the values of the symbols it depends on. */
  function Compute(c: Setup, s: Symbol, a: Assignment): Value {
    if s.Logical() then Value(NewTri(c, s, EnvOf(a)), "n")
    else if Textual(s) then Value(T.NO, NewVal(c, s, EnvOf(a), (ds: Symbol) => a(ds).val))
    else FixedValue(s)
  }

  // ----- what prompts and defaults are worth

  /** The conditions of all prompts count, and the best one decides. */
  lemma {:induction false} BestPromptExact(prompts: seq<Option<Expr>>, env: Env)
    ensures forall i :: 0 <= i < |prompts| ==> CalcOpt(prompts[i], env) <= BestPrompt(prompts, env)
    ensures BestPrompt(prompts, env) != T.NO ==>
              exists i :: 0 <= i < |prompts| && CalcOpt(prompts[i], env) == BestPrompt(prompts, env)
  {
    if prompts != [] {
      var init := prompts[..|prompts| - 1];
      BestPromptExact(init, env);
      hide CalcOpt;
      forall i | 0 <= i < |init| ensures CalcOpt(prompts[i], env) <= BestPrompt(init, env) {
        assert init[i] == prompts[i];
      }
      if BestPrompt(init, env) != T.NO {
        var i :| 0 <= i < |init| && CalcOpt(init[i], env) == BestPrompt(init, env);
        assert prompts[i] == init[i];
      }
    }
  }

  /**
   A symbol is visible exactly if the condition of some prompt is not `n`; only
   a tristate with modules can be `m`.
   */
  lemma VisibleExact(c: Setup, s: Symbol, env: Env)
    ensures var ps := Def(c.table, s).prompts;
            Visible(c, s, env) != T.NO <==> exists i :: 0 <= i < |ps| && CalcOpt(ps[i], env) != T.NO
    ensures var ps, canBeMod := Def(c.table, s).prompts, s.Type() == Tri && c.modules(s) != T.NO;
            Visible(c, s, env) == T.YES
            <==> exists i :: 0 <= i < |ps| && CalcOpt(ps[i], env) >= if canBeMod then T.YES else T.MOD
  {
    BestPromptExact(Def(c.table, s).prompts, env);
    hide BestPrompt, CalcOpt, Def;
  }

  /** The first default whose condition is not `n`. */
  lemma {:induction false} FirstDefaultExact(ds: seq<Default>, env: Env) returns (i: nat)
    ensures i <= |ds| && forall j :: 0 <= j < i ==> CalcOpt(ds[j].cond, env) == T.NO
    ensures i < |ds| ==> CalcOpt(ds[i].cond, env) != T.NO
    ensures FirstDefault(ds, env) == if i < |ds| then Some(ds[i]) else None
  {
    i := 0;
    if ds != [] && CalcOpt(ds[0].cond, env) == T.NO {
      var k := FirstDefaultExact(ds[1..], env);
      i := k + 1;
    }
  }

  /** A value as a limit of the symbol: `m` only for a tristate with modules, and `y` instead otherwise. */
  predicate Limits(c: Setup, s: Symbol, limit: Tristate, value: Tristate) {
    if s.Type() == Boolean || (s.Type() == Tri && c.modules(s) == T.NO) then
      limit == if value == T.NO then T.NO else T.YES
    else limit == value
  }

  /** Direct dependency, selects and implies limit the symbol; an imply only where the dependency allows it. */
  lemma LimitsExact(c: Setup, s: Symbol, env: Env)
    ensures var d := Def(c.table, s);
            && Limits(c, s, DirDep(c, s, env), CalcOpt(d.dirDep, env))
            && Limits(c, s, RevDep(c, s, env), if d.revDep == None then T.NO else Calc(d.revDep.value, env))
            && Limits(c, s, Implied(c, s, env),
                 if d.implied == None || CalcOpt(d.dirDep, env) == T.NO then T.NO else Calc(d.implied.value, env))
  {
    hide Def, Calc, CalcOpt;
  }

  /**
   A string or number is what a visible user has set, or what the symbol in the
   first default that applies is worth.
   */
  lemma TextualExact(c: Setup, s: Symbol, a: Assignment) returns (i: nat)
    requires Textual(s)
    ensures var ds := Def(c.table, s).defaults;
            && i <= |ds| && (forall j :: 0 <= j < i ==> CalcOpt(ds[j].cond, EnvOf(a)) == T.NO)
            && (i < |ds| ==> CalcOpt(ds[i].cond, EnvOf(a)) != T.NO)
            && Compute(c, s, a).val == if s in c.user && Visible(c, s, EnvOf(a)) != T.NO then c.user[s].val
                                       else if i < |ds| && ds[i].expr.Sym? then a(ds[i].expr.sym).val
                                       else ""
  {
    hide Visible, Def, CalcOpt, FirstDefault, EnvOf;
    i := FirstDefaultExact(Def(c.table, s).defaults, EnvOf(a));
  }

  /** SYMBOL_WRITE of a bool or tristate: the user can see it, or it is not `n`. */
  lemma WritesExact(c: Setup, s: Symbol, a: Assignment)
    requires s.Logical()
    ensures Writes(c, s, EnvOf(a)) <==> Visible(c, s, EnvOf(a)) != T.NO || Compute(c, s, a).tri != T.NO
  {
    hide Visible, DefaultTri, RevDep, Implied, EnvOf;
  }

  // ----- sym_get_string_default

  /** The tristate of `sym_get_string_default`, from the default and the limits of the symbol. */
  function DefaultValue(default: Tristate, revDep: Tristate, implied: Tristate, s: Symbol,
      modules: Tristate): Tristate {
    var val := T.Or(default, revDep);
    var val' := if val == T.MOD && modules == T.NO then T.YES else val;
    var val'' := if s.Type() == Boolean && val' == T.MOD then T.YES else val';
    if val'' < implied then implied else val''
  }

  function StringDefault(c: Setup, s: Symbol, a: Assignment): string {
    var env := EnvOf(a);
    if s.Logical() then
      T.Letter(DefaultValue(DefaultTri(c, s, env), RevDep(c, s, env), Implied(c, s, env), s, c.modules(s)))
    else if Textual(s) then
      (match DefaultSymbol(FirstDefault(Def(c.table, s).defaults, env)) case None => "" case Some(ds) => a(ds).val)
    else ""
  }

  /** Every symbol has the value that is calculated from the others. */
  ghost predicate Solves(c: Setup, a: Assignment) {
    forall s: Symbol :: a(s) == Compute(c, s, a)
  }

  /**
   The values a table gives are assignments in the sense of the expression
   rewriting, and whatever is not a bool, a tristate or a letter is `n`.
   */
  lemma SolutionIsWellFormed(c: Setup, a: Assignment)
    requires Solves(c, a)
    ensures WellFormed(EnvOf(a))
    ensures forall s: Symbol :: (s.Config? && !s.Logical()) || s.Const? ==> EnvOf(a).tri(s) == T.NO
  {
    forall s: Symbol ensures a(s) == Compute(c, s, a) {}
  }

  // ----- dependencies

  function OptSymbols(e: Option<Expr>): set<Symbol> {
    if e.Some? then SymbolsOf(e.value) else {}
  }

  function DefaultsSymbols(ds: seq<Default>): set<Symbol> {
    if ds == [] then {} else SymbolsOf(ds[0].expr) + OptSymbols(ds[0].cond) + DefaultsSymbols(ds[1..])
  }

  function PromptsSymbols(ps: seq<Option<Expr>>): set<Symbol> {
    if ps == [] then {} else PromptsSymbols(ps[..|ps| - 1]) + OptSymbols(ps[|ps| - 1])
  }

  /** The symbols a calculation reads. */
  function Reads(d: Definition): set<Symbol> {
    PromptsSymbols(d.prompts) + DefaultsSymbols(d.defaults)
      + OptSymbols(d.dirDep) + OptSymbols(d.revDep) + OptSymbols(d.implied)
  }

  ghost predicate Agree(a: Assignment, b: Assignment, ss: set<Symbol>) {
    forall s :: s in ss ==> a(s) == b(s)
  }

  lemma AgreeOnExpr(e: Expr, a: Assignment, b: Assignment)
    requires Agree(a, b, SymbolsOf(e))
    ensures Calc(e, EnvOf(a)) == Calc(e, EnvOf(b))
  {
    CalcReadsItsSymbols(e, EnvOf(a), EnvOf(b));
  }

  lemma AgreeOnOpt(e: Option<Expr>, a: Assignment, b: Assignment)
    requires Agree(a, b, OptSymbols(e))
    ensures CalcOpt(e, EnvOf(a)) == CalcOpt(e, EnvOf(b))
  {
    if e.Some? { AgreeOnExpr(e.value, a, b); }
  }

  lemma {:induction false} AgreeOnPrompts(ps: seq<Option<Expr>>, a: Assignment, b: Assignment)
    requires Agree(a, b, PromptsSymbols(ps))
    ensures BestPrompt(ps, EnvOf(a)) == BestPrompt(ps, EnvOf(b))
  {
    if ps != [] {
      AgreeOnPrompts(ps[..|ps| - 1], a, b);
      AgreeOnOpt(ps[|ps| - 1], a, b);
    }
  }

  lemma {:induction false} AgreeOnDefaults(ds: seq<Default>, a: Assignment, b: Assignment)
    requires Agree(a, b, DefaultsSymbols(ds))
    ensures FirstDefault(ds, EnvOf(a)) == FirstDefault(ds, EnvOf(b))
    ensures var d := FirstDefault(ds, EnvOf(a));
            d.Some? ==> SymbolsOf(d.value.expr) + OptSymbols(d.value.cond) <= DefaultsSymbols(ds)
  {
    if ds != [] {
      AgreeOnOpt(ds[0].cond, a, b);
      AgreeOnDefaults(ds[1..], a, b);
    }
  }

  lemma AgreeOnLimits(c: Setup, s: Symbol, a: Assignment, b: Assignment)
    requires Agree(a, b, Reads(Def(c.table, s)))
    ensures Visible(c, s, EnvOf(a)) == Visible(c, s, EnvOf(b))
    ensures DirDep(c, s, EnvOf(a)) == DirDep(c, s, EnvOf(b))
    ensures RevDep(c, s, EnvOf(a)) == RevDep(c, s, EnvOf(b))
    ensures Implied(c, s, EnvOf(a)) == Implied(c, s, EnvOf(b))
  {
    var d := Def(c.table, s);
    AgreeOnPrompts(d.prompts, a, b);
    AgreeOnOpt(d.dirDep, a, b);
    AgreeOnOpt(d.revDep, a, b);
    AgreeOnOpt(d.implied, a, b);
  }

  lemma AgreeOnFirstDefault(c: Setup, s: Symbol, a: Assignment, b: Assignment)
    requires Agree(a, b, Reads(Def(c.table, s)))
    ensures DefaultTri(c, s, EnvOf(a)) == DefaultTri(c, s, EnvOf(b))
    ensures var first := FirstDefault(Def(c.table, s).defaults, EnvOf(a));
            && first == FirstDefault(Def(c.table, s).defaults, EnvOf(b))
            && var ds := DefaultSymbol(first); ds.Some? ==> a(ds.value) == b(ds.value)
  {
    var ds := Def(c.table, s).defaults;
    AgreeOnDefaults(ds, a, b);
    var first := FirstDefault(ds, EnvOf(a));
    if first.Some? {
      assert SymbolsOf(first.value.expr) <= DefaultsSymbols(ds) && OptSymbols(first.value.cond) <= DefaultsSymbols(ds);
      AgreeOnExpr(first.value.expr, a, b);
      AgreeOnOpt(first.value.cond, a, b);
    }
  }

  /** Two assignments that agree on what a symbol reads give it the same value. */
  lemma ComputeReads(c: Setup, s: Symbol, a: Assignment, b: Assignment)
    requires Agree(a, b, Reads(Def(c.table, s)))
    ensures Compute(c, s, a) == Compute(c, s, b)
  {
    hide Visible, DirDep, RevDep, Implied, FirstDefault, DefaultTri, Reads, Def;
    AgreeOnLimits(c, s, a, b);
    AgreeOnFirstDefault(c, s, a, b);
  }

  // ----- acyclic tables have exactly one solution

  type Ranking = Symbol -> nat

  /** No symbol depends on itself: whatever a symbol reads has a lower rank. */
  ghost predicate Acyclic(t: Table, rank: Ranking) {
    forall s, r :: r in Reads(Def(t, s)) ==> rank(r) < rank(s)
  }

  ghost function SystemOf(c: Setup, rank: Ranking): Q.System<Symbol, Value> {
    Q.System((s: Symbol, a: Assignment) => Compute(c, s, a), (s: Symbol) => Reads(Def(c.table, s)), rank)
  }

  lemma SystemIsLocal(c: Setup, rank: Ranking)
    ensures Q.Local(SystemOf(c, rank))
  {
    var sys := SystemOf(c, rank);
    forall s: Symbol, a: Assignment, b: Assignment | forall r :: r in sys.inputs(s) ==> a(r) == b(r)
      ensures sys.compute(s, a) == sys.compute(s, b)
    {
      ComputeReads(c, s, a, b);
    }
  }

  /** The plain recursive definition of the values. */
  ghost function Solution(c: Setup, rank: Ranking): Assignment {
    Q.Solution(SystemOf(c, rank), Value(T.NO, ""))
  }

  /** It gives every symbol the value calculated from the others. */
  lemma SolutionSolves(c: Setup, rank: Ranking)
    requires Acyclic(c.table, rank)
    ensures Solves(c, Solution(c, rank))
  {
    hide Compute, Reads;
    var sys := SystemOf(c, rank);
    SystemIsLocal(c, rank);
    Q.SolutionSolves(sys, Value(T.NO, ""));
    assert forall s :: sys.compute(s, Solution(c, rank)) == Compute(c, s, Solution(c, rank));
  }

  /** Any two solutions of a table without cycles are the same. */
  lemma SolutionIsUnique(c: Setup, rank: Ranking, a: Assignment, b: Assignment)
    requires Acyclic(c.table, rank) && Solves(c, a) && Solves(c, b)
    ensures forall s :: a(s) == b(s)
  {
    hide Compute, Reads;
    var sys := SystemOf(c, rank);
    SystemIsLocal(c, rank);
    assert forall s: Symbol, x: Assignment :: sys.compute(s, x) == Compute(c, s, x);
    Q.SolutionIsUnique(sys, a, b);
  }
}
