/** Dependency expressions of the configuration language and their three-valued meaning
    (scripts/config/expr.h, and expr_calc_value in scripts/config/expr.c). */
module Expressions {
  import opened Common

  /** The enum tristate: no = 0, mod = 1, yes = 2. */
  type Tristate = x: int | 0 <= x <= 2

  const NO: Tristate := 0
  const MOD: Tristate := 1
  const YES: Tristate := 2

  /** EXPR_OR, EXPR_AND and EXPR_NOT. */
  function TriOr(a: Tristate, b: Tristate): Tristate { if a > b then a else b }
  function TriAnd(a: Tristate, b: Tristate): Tristate { if a < b then a else b }
  function TriNot(a: Tristate): Tristate { 2 - a }

  datatype SymType = Unknown | Boolean | Tri | Int | Hex | Str | Other

  /** A symbol. sym_lookup keeps one for every name and one for every quoted constant, and gives
      out the three predefined constants for the names n, m and y; these and the quoted constants
      have type S_UNKNOWN. A choice is told apart by its place; its type is boolean or tristate. */
  datatype Sym =
    | ConstN | ConstM | ConstY
    | Constant(name: string)
    | Config(name: string, ty: SymType)
    | Choice(id: nat, tristate: bool)
  {
    function Type(): SymType
    {
      if Config? then ty else if Choice? then (if tristate then Tri else Boolean) else Unknown
    }

    /** SYMBOL_CONST. */
    predicate Const() { Literal() || Constant? }

    /** Symbols with a truth value of their own: booleans and tristates. */
    predicate Logical() { Type() == Boolean || Type() == Tri }

    /** y, m or n. */
    predicate Literal() { ConstN? || ConstM? || ConstY? }

    /** The truth value of y, m or n. */
    function Denotes(): Tristate
      requires Literal()
    {
      if ConstN? then NO else if ConstM? then MOD else YES
    }

    /** What a symbol without a type of its own prints as. */
    function Text(): string
    {
      if Literal() then TriString(Denotes()) else if Choice? then "" else name
    }
  }

  datatype CompOp = Equal | Unequal | Lth | Leq | Gth | Geq
  {
    predicate IsOrdering() { this != Equal && this != Unequal }
  }

  /** E_OR and E_AND. */
  datatype JoinType = OR | AND
  {
    /** The literal that an operand of this type can be without changing the value. */
    function Unit(): Sym { if this == OR then ConstN else ConstY }

    /** The literal that decides the value alone. */
    function Zero(): Sym { if this == OR then ConstY else ConstN }

    function Combine(a: Tristate, b: Tristate): Tristate { if this == OR then TriOr(a, b) else TriAnd(a, b) }
  }

  datatype Expr =
    | Join(ty: JoinType, left: Expr, right: Expr)
    | Not(arg: Expr)
    | Comp(op: CompOp, lhs: Sym, rhs: Sym)
    | Var(sym: Sym)

  /** A null expression pointer stands for "no condition". */
  type Dep = Option<Expr>

  // ----- values of symbols -----

  /** The current truth value and string value of every symbol. */
  datatype Env = Env(tri: Sym -> Tristate, str: Sym -> string)

  function TriString(v: Tristate): string
  {
    if v == NO then "n" else if v == MOD then "m" else "y"
  }

  /** The values that sym_calc_value can give a symbol: a logical symbol prints as its truth value,
      and a boolean never holds m; any other symbol has the truth value n, and prints as its own
      name if its type is S_UNKNOWN or S_OTHER. The literals have the values they stand for. */
  predicate Fits(s: Sym, v: Tristate, t: string)
  {
    if s.Literal() then v == s.Denotes() && t == TriString(v)
    else if s.Logical() then t == TriString(v) && (s.Type() == Boolean ==> v != MOD)
    else v == NO && (s.Type() == Unknown || s.Type() == Other ==> t == s.Text())
  }

  ghost predicate ValidEnv(env: Env)
  {
    forall s: Sym :: Fits(s, env.tri(s), env.str(s))
  }

  lemma LiteralValues(env: Env)
    requires ValidEnv(env)
    ensures env.tri(ConstN) == NO && env.tri(ConstM) == MOD && env.tri(ConstY) == YES
  {
    assert forall c: Sym :: c.Literal() ==> Fits(c, env.tri(c), env.str(c));
  }

  // ----- numerals -----

  predicate Space(c: char) { c == ' ' || '\t' <= c <= '\r' }

  function SkipSpace(s: string): string
  {
    if s != "" && Space(s[0]) then SkipSpace(s[1..]) else s
  }

  /** The value of a digit; 16 for any other character. */
  function DigitValue(c: char): (d: nat)
    ensures d <= 16
  {
    if '0' <= c <= '9' then (c - '0') as nat
    else if 'a' <= c <= 'f' then (c - 'a') as nat + 10
    else if 'A' <= c <= 'F' then (c - 'A') as nat + 10
    else 16
  }

  /** The value of a string of digits, the last one least significant. */
  function Magnitude(d: string, base: nat): Option<nat>
  {
    if d == "" then Some(0)
    else
      var front := Magnitude(d[..|d| - 1], base);
      var last := DigitValue(d[|d| - 1]);
      if front.Some? && last < base then Some(base * front.value + last) else None
  }

  predicate HexPrefix(d: string)
  {
    |d| > 2 && d[0] == '0' && (d[1] == 'x' || d[1] == 'X') && DigitValue(d[2]) < 16
  }

  const I63: int := 0x8000_0000_0000_0000

  /** strtoll and strtoull with one of the bases 0, 10 and 16, and the check that the whole string
      has been used up and the number is in range. */
  function Numeral(s: string, base: nat, unsigned: bool): Option<int>
  {
    var t := SkipSpace(s);
    var negative := t != "" && t[0] == '-';
    var d := if t != "" && (t[0] == '-' || t[0] == '+') then t[1..] else t;
    var hex := base != 10 && HexPrefix(d);
    var radix := if base != 0 then base else if hex then 16 else if d != "" && d[0] == '0' then 8 else 10;
    var m := Magnitude(if hex then d[2..] else d, radix);
    if d == "" || m.None? then None
    else
      var k: int := m.value;
      var v := if negative then -k else k;
      if unsigned then (if k < U64 then Some(v % U64) else None)
      else if -I63 <= v < I63 then Some(v) else None
  }

  // ----- comparisons -----

  /** The result of expr_parse_string: its kind together with the union it fills in. */
  datatype Parsed = KString | KSigned(s: int) | KUnsigned(u: int) | KInvalid

  function ParseString(str: string, ty: SymType): Parsed
  {
    match ty
    case Boolean | Tri =>
      KSigned(if str == "n" then 0 else if str == "m" then 1 else if str == "y" then 2 else -1)
    case Int => (match Numeral(str, 10, false) case Some(v) => KSigned(v) case None => KString)
    case Hex => (match Numeral(str, 16, true) case Some(v) => KUnsigned(v) case None => KString)
    case Str | Unknown => (match Numeral(str, 0, false) case Some(v) => KSigned(v) case None => KString)
    case Other => KInvalid
  }

  function StrCmp(a: string, b: string): int
  {
    if a == [] && b == [] then 0
    else if a == [] then -1
    else if b == [] then 1
    else if a[0] != b[0] then (if a[0] < b[0] then -1 else 1)
    else StrCmp(a[1..], b[1..])
  }

  /** The bits of a parsed number read through the unsigned member of the union. */
  function Unsigned(p: Parsed): int
  {
    match p case KSigned(s) => s % U64 case KUnsigned(u) => u % U64 case _ => 0
  }

  function Sign(a: int, b: int): int { if a > b then 1 else if a < b then -1 else 0 }

  /** Either a three-way result, or the note that the operands have no order. */
  datatype Comparison = Ordered(res: int) | Unordered(res: int)

  function Compare(env: Env, a: Sym, b: Sym): Comparison
  {
    var (s1, s2) := (env.str(a), env.str(b));
    var (k1, k2) :=
      if a.Type() != Str || b.Type() != Str
      then (ParseString(s1, a.Type()), ParseString(s2, b.Type()))
      else (KString, KString);
    if k1 == KString || k2 == KString then Ordered(StrCmp(s1, s2))
    else if k1 == KInvalid || k2 == KInvalid then Unordered(StrCmp(s1, s2))
    else if k1.KUnsigned? || k2.KUnsigned? then Ordered(Sign(Unsigned(k1), Unsigned(k2)))
    else Ordered(Sign(k1.s, k2.s))
  }

  function Truth(b: bool): Tristate { if b then YES else NO }

  function EvalComp(op: CompOp, c: Comparison): Tristate
  {
    if op.IsOrdering() && c.Unordered? then NO
    else
      match op
      case Equal => Truth(c.res == 0)
      case Unequal => Truth(c.res != 0)
      case Geq => Truth(c.res >= 0)
      case Gth => Truth(c.res > 0)
      case Leq => Truth(c.res <= 0)
      case Lth => Truth(c.res < 0)
  }

  /** expr_calc_value on a non-null expression. */
  function Eval(env: Env, e: Expr): Tristate
  {
    match e
    case Join(ty, l, r) => ty.Combine(Eval(env, l), Eval(env, r))
    case Not(a) => TriNot(Eval(env, a))
    case Comp(op, a, b) => EvalComp(op, Compare(env, a, b))
    case Var(s) => env.tri(s)
  }

  /** expr_calc_value. */
  function EvalDep(env: Env, d: Dep): Tristate
  {
    match d case None => YES case Some(e) => Eval(env, e)
  }

  /** expr_alloc_and. */
  function AllocAnd(a: Dep, b: Dep): Dep
  {
    if a.None? then b else if b.None? then a else Some(Join(AND, a.value, b.value))
  }

  /** Number of nodes. */
  function Size(e: Expr): (n: nat)
    ensures n >= 1
  {
    match e
    case Join(_, l, r) => 1 + Size(l) + Size(r)
    case Not(a) => 1 + Size(a)
    case Comp(_, _, _) => 1
    case Var(_) => 1
  }

  // ----- facts about comparisons -----

  lemma StrCmpZero(a: string, b: string)
    ensures StrCmp(a, b) == 0 <==> a == b
  {
    if a != [] && b != [] && a[0] == b[0] {
      StrCmpZero(a[1..], b[1..]);
      assert a == [a[0]] + a[1..] && b == [b[0]] + b[1..];
    }
  }

  /** n, m and y are not numerals. */
  lemma LiteralNoNumeral(v: Tristate)
    ensures Numeral(TriString(v), 0, false) == None
  {
    var s := TriString(v);
    assert SkipSpace(s) == s;
    assert s[..|s| - 1] == "";
    assert DigitValue(s[0]) == 16;
  }

  /** Comparing a logical symbol or a literal with y, m or n compares truth values. */
  lemma CompareLiteral(env: Env, s: Sym, c: Sym)
    requires ValidEnv(env)
    requires s.Logical() || s.Literal()
    requires c.Literal()
    ensures Compare(env, s, c).Ordered?
    ensures Compare(env, s, c).res == 0 <==> env.tri(s) == c.Denotes()
  {
    hide Numeral;
    var v := c.Denotes();
    LiteralNoNumeral(v);
    assert env.str(c) == TriString(v);
    StrCmpZero(env.str(s), env.str(c));
  }

  /** The truth value that a constant is equal to when it is compared with a logical symbol:
      y, m and n are, and so is a numeral 0, 1 or 2; any other constant equals none. */
  function Reading(c: Sym): Option<Tristate>
    requires c.Const()
  {
    var t := c.Text();
    var n := Numeral(t, 0, false);
    if n == Some(0) || (n.None? && t == "n") then Some(NO)
    else if n == Some(1) || (n.None? && t == "m") then Some(MOD)
    else if n == Some(2) || (n.None? && t == "y") then Some(YES)
    else None
  }

  lemma ReadingLiteral(c: Sym)
    requires c.Literal()
    ensures Reading(c) == Some(c.Denotes())
  {
    hide Numeral;
    LiteralNoNumeral(c.Denotes());
  }

  /** A comparison of a logical symbol with a constant is decided by what the constant reads as. */
  lemma CompareConst(env: Env, s: Sym, c: Sym)
    requires ValidEnv(env) && s.Logical() && c.Const()
    ensures Compare(env, s, c).Ordered?
    ensures Compare(env, s, c).res == 0 <==> Reading(c) == Some(env.tri(s))
  {
    hide Numeral;
    assert env.str(c) == c.Text() && env.str(s) == TriString(env.tri(s));
    StrCmpZero(env.str(s), env.str(c));
  }
}
