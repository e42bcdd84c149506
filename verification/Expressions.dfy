/**
 Dependency expressions of Kconfig and their value (`expr.h` and
 `expr_calc_value` of `expr.c`).
 */
module Expressions {
  import opened Wrappers
  import T = Tristates
  import opened Numbers

  type Tristate = T.Tristate

  // ----- symbols and expressions

  datatype SymbolType = Unknown | Boolean | Tri | Int | Hex | Str | Other

  /**
   A symbol is identified by its value.  The three constants `y`, `m` and `n`
   are `symbol_yes`, `symbol_mod` and `symbol_no`; any other constant carries
   the text that was written, and has the type Unknown.
   */
  datatype Symbol =
    | ConstYes
    | ConstMod
    | ConstNo
    | Const(text: string)
    | Config(name: string, declared: SymbolType)
  {
    function Type(): SymbolType {
      if Config? then declared else Unknown
    }

    /** A symbol whose value is a tristate. */
    predicate Logical() {
      Type() == Boolean || Type() == Tri
    }

    /** The SYMBOL_CONST flag. */
    predicate IsConst() {
      !Config?
    }
  }

  datatype BinOp = AND | OR

  datatype RelOp = EQUAL | UNEQUAL | LTH | LEQ | GTH | GEQ

  datatype Expr =
    | Sym(sym: Symbol)
    | Not(arg: Expr)
    | Bin(op: BinOp, left: Expr, right: Expr)
    | Comp(rel: RelOp, lsym: Symbol, rsym: Symbol)

  predicate IsOp(e: Expr, op: BinOp) {
    e.Bin? && e.op == op
  }

  /** The number of nodes of an expression. */
  function Size(e: Expr): (n: nat)
    ensures n >= 1
  {
    match e
    case Sym(_) => 1
    case Not(a) => 1 + Size(a)
    case Bin(_, l, r) => 1 + Size(l) + Size(r)
    case Comp(_, _, _) => 1
  }

  // ----- assignments

  /** What `sym_calc_value` leaves in every symbol: its tristate and its string value. */
  datatype Env = Env(tri: Symbol -> Tristate, str: Symbol -> string)

  /** The constants `y` and `n` have their own value. */
  ghost predicate ConstsFixed(env: Env) {
    && env.tri(ConstYes) == T.YES
    && env.tri(ConstNo) == T.NO
  }

  /**
   The assignments Kconfig can produce: constants stand for themselves, a bool
   is never `m`, and the string value of a bool or tristate is its letter.
   */
  ghost predicate WellFormed(env: Env) {
    && ConstsFixed(env)
    && env.tri(ConstMod) == T.MOD
    && env.str(ConstYes) == "y" && env.str(ConstMod) == "m" && env.str(ConstNo) == "n"
    && (forall t :: env.str(Const(t)) == t)
    && (forall n :: env.tri(Config(n, Boolean)) != T.MOD)
    && (forall s: Symbol :: s.Logical() ==> env.str(s) == T.Letter(env.tri(s)))
  }

  // ----- values

  function Combine(op: BinOp, a: Tristate, b: Tristate): Tristate {
    match op
    case AND => T.And(a, b)
    case OR => T.Or(a, b)
  }

  /** `expr_calc_value`. */
  function Calc(e: Expr, env: Env): Tristate {
    match e
    case Sym(s) => env.tri(s)
    case Not(a) => T.Not(Calc(a, env))
    case Bin(op, l, r) => Combine(op, Calc(l, env), Calc(r, env))
    case Comp(rel, l, r) =>
      match Ordering(rel, l, r, env)
      case None => T.NO
      case Some(res) => T.Truth(Holds(rel, res))
  }

  /** A NULL expression counts as `y`. */
  function CalcOpt(e: Option<Expr>, env: Env): Tristate {
    if e.None? then T.YES else Calc(e.value, env)
  }

  predicate Holds(rel: RelOp, res: int) {
    match rel
    case EQUAL => res == 0
    case UNEQUAL => res != 0
    case LTH => res < 0
    case LEQ => res <= 0
    case GTH => res > 0
    case GEQ => res >= 0
  }

  /** How a symbol's string is read for a comparison (`expr_parse_string`). */
  datatype Parsed = KString | KSigned(s: int) | KUnsigned(u: int) | KInvalid

  function ParseString(str: string, typ: SymbolType): Parsed {
    match typ
    case Boolean => KSigned(LetterValue(str))
    case Tri => KSigned(LetterValue(str))
    case Int => SignedOrString(str, 10)
    case Hex =>
      (match StrToULL(str, 16) case Some(v) => KUnsigned(v) case None => KString)
    case Str => SignedOrString(str, 0)
    case Unknown => SignedOrString(str, 0)
    case Other => KInvalid
  }

  function LetterValue(str: string): int {
    if str == "n" then 0 else if str == "m" then 1 else if str == "y" then 2 else -1
  }

  function SignedOrString(str: string, base: int): Parsed
    requires base == 0 || base == 10
  {
    match StrToLL(str, base) case Some(v) => KSigned(v) case None => KString
  }

  /**
   The sign of the comparison of two symbols, or None on the "Cannot compare"
   path, which only the ordered relations can take.
   */
  function Ordering(rel: RelOp, l: Symbol, r: Symbol, env: Env): Option<int> {
    var str1, str2 := env.str(l), env.str(r);
    var bothStr := l.Type() == Str && r.Type() == Str;
    var k1 := if bothStr then KString else ParseString(str1, l.Type());
    var k2 := if bothStr then KString else ParseString(str2, r.Type());
    if k1.KString? || k2.KString? then Some(StrCmp(str1, str2))
    else if k1.KInvalid? || k2.KInvalid? then
      if rel != EQUAL && rel != UNEQUAL then None else Some(StrCmp(str1, str2))
    else if k1.KUnsigned? || k2.KUnsigned? then Some(Sign(Bits(k1) - Bits(k2)))
    else Some(Sign(k1.s - k2.s))
  }

  /** The 64 bits of a parsed number, read as an unsigned number. */
  function Bits(k: Parsed): int
    requires k.KSigned? || k.KUnsigned?
  {
    if k.KSigned? then k.s % 0x1_0000_0000_0000_0000 else k.u
  }

  // ----- comparing a tristate with a constant

  /** `y`, `m` and `n` are not numbers, so they are compared as strings. */
  lemma LetterIsNoNumber(t: Tristate)
    ensures StrToLL(T.Letter(t), 0) == None
  {
    var s := T.Letter(t);
    assert !IsSpace(s[0]) && s[0] != '-' && s[0] != '+';
    assert SkipSpace(s) == s;
    assert DigitValue(s[0]) >= 10;
  }

  /** Comparing a bool or tristate with `y`, `m` or `n` compares their values. */
  lemma CompareWithLetter(rel: RelOp, s: Symbol, c: Symbol, env: Env)
    requires WellFormed(env) && s.Logical() && (c == ConstYes || c == ConstMod || c == ConstNo)
    requires rel == EQUAL || rel == UNEQUAL
    ensures Calc(Comp(rel, s, c), env) == T.Truth((env.tri(s) == env.tri(c)) == (rel == EQUAL))
  {
    LetterIsNoNumber(env.tri(c));
    assert env.str(c) == T.Letter(env.tri(c));
    StrCmpEqual(env.str(s), env.str(c));
  }

  // ----- which symbols an expression reads

  function SymbolsOf(e: Expr): set<Symbol> {
    match e
    case Sym(s) => {s}
    case Not(a) => SymbolsOf(a)
    case Bin(_, l, r) => SymbolsOf(l) + SymbolsOf(r)
    case Comp(_, l, r) => {l, r}
  }

  /** The value depends on nothing but the symbols that occur. */
  lemma {:induction false} CalcReadsItsSymbols(e: Expr, env: Env, env': Env)
    requires forall s :: s in SymbolsOf(e) ==> env.tri(s) == env'.tri(s) && env.str(s) == env'.str(s)
    ensures Calc(e, env) == Calc(e, env')
  {
    match e
    case Sym(_) =>
    case Comp(_, l, r) => assert l in SymbolsOf(e) && r in SymbolsOf(e);
    case Not(a) => CalcReadsItsSymbols(a, env, env');
    case Bin(_, l, r) =>
      CalcReadsItsSymbols(l, env, env');
      CalcReadsItsSymbols(r, env, env');
  }
}
