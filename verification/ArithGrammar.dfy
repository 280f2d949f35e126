/**
  The `$((...))` language: 64-bit values, expressions with explicit parentheses, the tokens they are
  written with and what they mean (section 2.6.4 of the POSIX Shell Command Language).
 */
module ArithGrammar {
  import opened Numerals
  import opened Text
  import opened Wrappers

  const I64_MIN: int := -0x8000_0000_0000_0000
  const I64_MAX: int := 0x7FFF_FFFF_FFFF_FFFF
  const MAX_DEPTH: nat := 32

  type Env = map<string, string>

  datatype Op = Eq | Ne | Le | Ge | Lt | Gt | Plus | Minus | Times | Over | Percent

  datatype Token = Num(value: int) | Name(name: string) | Sym(op: Op) | LParen | RParen

  // ---- 64-bit arithmetic ---------------------------------------------------------------------------

  function Wrapped(x: int): (r: int)
    ensures I64_MIN <= r <= I64_MAX
  {
    (x - I64_MIN) % 0x1_0000_0000_0000_0000 + I64_MIN
  }

  function TruncDiv(a: int, b: int): int
    requires b != 0
  {
    if a >= 0 then (if b > 0 then a / b else -(a / -b))
    else (if b > 0 then -(-a / b) else -a / -b)
  }

  function CheckedDiv(a: int, b: int): Option<int> {
    if b == 0 || (a == I64_MIN && b == -1) then None else Some(TruncDiv(a, b))
  }

  function CheckedRem(a: int, b: int): Option<int> {
    if b == 0 || (a == I64_MIN && b == -1) then None else Some(a - TruncDiv(a, b) * b)
  }

  function Truth(b: bool): int {
    if b then 1 else 0
  }

  function Apply(op: Op, a: int, b: int): Option<int> {
    match op
    case Eq => Some(Truth(a == b))
    case Ne => Some(Truth(a != b))
    case Le => Some(Truth(a <= b))
    case Ge => Some(Truth(a >= b))
    case Lt => Some(Truth(a < b))
    case Gt => Some(Truth(a > b))
    case Plus => Some(Wrapped(a + b))
    case Minus => Some(Wrapped(a - b))
    case Times => Some(Wrapped(a * b))
    case Over => CheckedDiv(a, b)
    case Percent => CheckedRem(a, b)
  }

  /** A variable that is unset or not a number counts as zero. */
  function Variable(env: Env, name: string): int {
    if name in env then ParseSigned(Trim(env[name]), 10, I64_MIN, I64_MAX).GetOr(0) else 0
  }

  // ---- Expressions ------------------------------------------------------------------------------------

  datatype Expr =
    | Lit(value: int)
    | Var(name: string)
    | Neg(e: Expr)
    | Pos(e: Expr)
    | Paren(e: Expr)
    | Bin(op: Op, l: Expr, r: Expr)

  type Level = n: nat | n <= 3

  /** Comparisons bind loosest, then sums, then products; signs and primaries are at level 3. */
  function LevelOf(op: Op): Level {
    match op
    case Plus => 1
    case Minus => 1
    case Times => 2
    case Over => 2
    case Percent => 2
    case _ => 0
  }

  /** `e` can stand, as it is, where the grammar wants something of level `l`: binary operators group to the
      left, so a right operand must bind tighter. */
  predicate Fits(e: Expr, l: Level) {
    match e
    case Lit(v) => 0 <= v <= I64_MAX
    case Var(_) => true
    case Neg(x) => Fits(x, 3)
    case Pos(x) => Fits(x, 3)
    case Paren(x) => Fits(x, 0)
    case Bin(op, x, y) => LevelOf(op) >= l && Fits(x, LevelOf(op)) && Fits(y, LevelOf(op) + 1)
  }

  // ---- The grammar, operator by operator --------------------------------------------------------------

  /** A comparison, or something that binds tighter. */
  predicate IsComparison(e: Expr)
    decreases e, 3
  {
    match e
    case Bin(Eq, x, y) => IsComparison(x) && IsSum(y)
    case Bin(Ne, x, y) => IsComparison(x) && IsSum(y)
    case Bin(Le, x, y) => IsComparison(x) && IsSum(y)
    case Bin(Ge, x, y) => IsComparison(x) && IsSum(y)
    case Bin(Lt, x, y) => IsComparison(x) && IsSum(y)
    case Bin(Gt, x, y) => IsComparison(x) && IsSum(y)
    case _ => IsSum(e)
  }

  predicate IsSum(e: Expr)
    decreases e, 2
  {
    match e
    case Bin(Plus, x, y) => IsSum(x) && IsProduct(y)
    case Bin(Minus, x, y) => IsSum(x) && IsProduct(y)
    case _ => IsProduct(e)
  }

  predicate IsProduct(e: Expr)
    decreases e, 1
  {
    match e
    case Bin(Times, x, y) => IsProduct(x) && IsSigned(y)
    case Bin(Over, x, y) => IsProduct(x) && IsSigned(y)
    case Bin(Percent, x, y) => IsProduct(x) && IsSigned(y)
    case _ => IsSigned(e)
  }

  predicate IsSigned(e: Expr)
    decreases e, 0
  {
    match e
    case Lit(v) => 0 <= v <= I64_MAX
    case Var(_) => true
    case Neg(x) => IsSigned(x)
    case Pos(x) => IsSigned(x)
    case Paren(x) => IsComparison(x)
    case Bin(_, _, _) => false
  }

  /** What binds tighter can stand where something looser can. */
  lemma LevelsNest(e: Expr)
    ensures IsProduct(e) == if e.Bin? && (e.op == Times || e.op == Over || e.op == Percent) then IsProduct(e.l) && IsSigned(e.r)
                            else IsSigned(e)
    ensures IsSum(e) == if e.Bin? && (e.op == Plus || e.op == Minus) then IsSum(e.l) && IsProduct(e.r) else IsProduct(e)
    ensures IsComparison(e) == if e.Bin? && (e.op == Eq || e.op == Ne || e.op == Le || e.op == Ge || e.op == Lt || e.op == Gt)
                               then IsComparison(e.l) && IsSum(e.r) else IsSum(e)
    ensures IsSigned(e) ==> !e.Bin?
  {
  }

  /** The levels are the grammar's. */
  lemma {:induction false} FitsIff(e: Expr)
    ensures Fits(e, 0) <==> IsComparison(e)
    ensures Fits(e, 1) <==> IsSum(e)
    ensures Fits(e, 2) <==> IsProduct(e)
    ensures Fits(e, 3) <==> IsSigned(e)
  {
    LevelsNest(e);
    hide IsComparison, IsSum, IsProduct;
    match e
    case Lit(v) =>
    case Var(_) =>
    case Neg(x) => FitsIff(x);
    case Pos(x) => FitsIff(x);
    case Paren(x) => FitsIff(x);
    case Bin(op, x, y) =>
      FitsIff(x);
      FitsIff(y);
  }

  function Tokens(e: Expr): (ts: seq<Token>)
    ensures |ts| > 0
  {
    match e
    case Lit(v) => [Num(v)]
    case Var(n) => [Name(n)]
    case Neg(x) => [Sym(Minus)] + Tokens(x)
    case Pos(x) => [Sym(Plus)] + Tokens(x)
    case Paren(x) => [LParen] + Tokens(x) + [RParen]
    case Bin(op, x, y) => Tokens(x) + [Sym(op)] + Tokens(y)
  }

  /** The value, or nothing if a division inside it has none. */
  function Meaning(env: Env, e: Expr): Option<int> {
    match e
    case Lit(v) => Some(v)
    case Var(n) => Some(Variable(env, n))
    case Neg(x) => (match Meaning(env, x) case Some(v) => Some(Wrapped(-v)) case None => None)
    case Pos(x) => Meaning(env, x)
    case Paren(x) => Meaning(env, x)
    case Bin(op, x, y) =>
      match (Meaning(env, x), Meaning(env, y))
      case (Some(a), Some(b)) => Apply(op, a, b)
      case _ => None
  }

  function Max(a: nat, b: nat): nat {
    if a >= b then a else b
  }

  /** How many parentheses are open at once. */
  function Nesting(e: Expr): nat {
    match e
    case Lit(_) => 0
    case Var(_) => 0
    case Neg(x) => Nesting(x)
    case Pos(x) => Nesting(x)
    case Paren(x) => 1 + Nesting(x)
    case Bin(_, x, y) => Max(Nesting(x), Nesting(y))
  }

  /** The value if the nesting is within `depth` more levels. */
  function Allowed(env: Env, e: Expr, depth: nat): Option<int> {
    if depth + Nesting(e) <= MAX_DEPTH then Meaning(env, e) else None
  }

  // ---- Expressions without parentheses, and the fewest they need --------------------------------------

  datatype Ast =
    | Constant(value: int)
    | Named(name: string)
    | Negate(t: Ast)
    | Keep(t: Ast)
    | Binary(op: Op, l: Ast, r: Ast)

  function Value(env: Env, t: Ast): Option<int> {
    match t
    case Constant(v) => Some(v)
    case Named(n) => Some(Variable(env, n))
    case Negate(x) => (match Value(env, x) case Some(v) => Some(Wrapped(-v)) case None => None)
    case Keep(x) => Value(env, x)
    case Binary(op, x, y) =>
      match (Value(env, x), Value(env, y))
      case (Some(a), Some(b)) => Apply(op, a, b)
      case _ => None
  }

  predicate LiteralsFit(t: Ast) {
    match t
    case Constant(v) => 0 <= v <= I64_MAX
    case Named(_) => true
    case Negate(x) => LiteralsFit(x)
    case Keep(x) => LiteralsFit(x)
    case Binary(_, x, y) => LiteralsFit(x) && LiteralsFit(y)
  }

  /** Parenthesised only where the place binds tighter than the operator. */
  function Written(t: Ast, l: Level): Expr {
    match t
    case Constant(v) => Lit(v)
    case Named(n) => Var(n)
    case Negate(x) => Neg(Written(x, 3))
    case Keep(x) => Pos(Written(x, 3))
    case Binary(op, x, y) =>
      var e := Bin(op, Written(x, LevelOf(op)), Written(y, LevelOf(op) + 1));
      if LevelOf(op) >= l then e else Paren(e)
  }

  lemma {:induction false} WrittenFits(env: Env, t: Ast, l: Level)
    requires LiteralsFit(t)
    ensures Fits(Written(t, l), l) && Meaning(env, Written(t, l)) == Value(env, t)
    ensures l == 0 ==> IsComparison(Written(t, 0))
  {
    hide Apply, IsComparison;
    FitsIff(Written(t, 0));
    match t
    case Constant(v) =>
    case Named(n) =>
    case Negate(x) => WrittenFits(env, x, 3);
    case Keep(x) => WrittenFits(env, x, 3);
    case Binary(op, x, y) =>
      WrittenFits(env, x, LevelOf(op));
      WrittenFits(env, y, LevelOf(op) + 1);
  }
}
