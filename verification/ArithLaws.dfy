/**
  What `$((...))` comes to, said without the evaluator's own tables: the arithmetic by laws, and precedence and
  grouping for every pair of operators as they stand in the text.
 */
module ArithLaws {
  import opened ArithGrammar
  import opened ArithLexer
  import opened ArithParser
  import opened Division
  import opened Numerals
  import opened Text
  import opened Wrappers

  const TWO_TO_64: int := 0x1_0000_0000_0000_0000

  predicate InRange(x: int) {
    I64_MIN <= x <= I64_MAX
  }

  // ---- Arithmetic ---------------------------------------------------------------------------------

  /** Wrapping gives the one value in range that differs by a multiple of 2^64. */
  lemma WrappedIs(x: int, r: int)
    ensures Wrapped(x) == r <==> InRange(r) && (x - r) % TWO_TO_64 == 0
  {
    QuotientAndRemainder(x - I64_MIN, TWO_TO_64);
    if InRange(r) && (x - r) % TWO_TO_64 == 0 {
      QuotientAndRemainder(x - r, TWO_TO_64);
      QuotientIsUnique(x - I64_MIN, TWO_TO_64, (x - r) / TWO_TO_64, r - I64_MIN);
    }
  }

  /** What is taken away can be put back, and the other way round. */
  lemma SumsUndo(a: int, b: int)
    requires InRange(a) && InRange(b)
    ensures var d := Apply(Minus, a, b); d.Some? && Apply(Plus, d.value, b) == Some(a)
    ensures var s := Apply(Plus, a, b); s.Some? && Apply(Minus, s.value, b) == Some(a)
    ensures Apply(Plus, a, b) == Apply(Plus, b, a) && Apply(Plus, a, 0) == Some(a)
    ensures InRange(a + b) ==> Apply(Plus, a, b) == Some(a + b)
    ensures InRange(a - b) ==> Apply(Minus, a, b) == Some(a - b)
  {
    hide Wrapped;
    WrapsBack(a - b, b);
    WrapsBack(a + b, -b);
    WrappedIs(a, a);
    WrappedIs(a + b, a + b);
    WrappedIs(a - b, a - b);
    assert a + b == b + a;
  }

  /** Wrapping on the way makes no difference. */
  lemma WrapsBack(x: int, b: int)
    ensures Wrapped(Wrapped(x) + b) == Wrapped(x + b)
  {
    var r := Wrapped(x);
    WrappedIs(x, r);
    WrappedIs(x + b, Wrapped(x + b));
    WrappedIs(r + b, Wrapped(r + b));
    QuotientAndRemainder(x - r, TWO_TO_64);
    QuotientAndRemainder(r + b - Wrapped(r + b), TWO_TO_64);
    var k, m := (x - r) / TWO_TO_64, (r + b - Wrapped(r + b)) / TWO_TO_64;
    QuotientIsUnique(x + b - Wrapped(r + b), TWO_TO_64, k + m, 0);
    WrappedIs(x + b, Wrapped(r + b));
  }

  lemma ProductWraps(a: int, b: int)
    ensures var p := Apply(Times, a, b); p.Some? && InRange(p.value) && (a * b - p.value) % TWO_TO_64 == 0
    ensures InRange(a * b) ==> Apply(Times, a, b) == Some(a * b)
  {
    WrappedIs(a * b, Wrapped(a * b));
    WrappedIs(a * b, a * b);
  }

  function Abs(x: int): nat {
    if x < 0 then -x else x
  }

  /** Division has a result exactly when the divisor is not zero and the quotient is in range; then quotient times
      divisor and remainder make up the dividend, and the remainder is smaller than the divisor and on the
      dividend's side of zero. */
  lemma DivisionIs(a: int, b: int)
    requires InRange(a) && InRange(b)
    ensures Apply(Over, a, b).Some? <==> b != 0 && !(a == I64_MIN && b == -1)
    ensures Apply(Percent, a, b).Some? <==> Apply(Over, a, b).Some?
    ensures Apply(Over, a, b).Some? ==>
      var q, r := Apply(Over, a, b).value, Apply(Percent, a, b).value;
      && q * b + r == a && Abs(r) < Abs(b) && (r > 0 ==> a > 0) && (r < 0 ==> a < 0)
  {
    if b != 0 {
      QuotientAndRemainder(Abs(a), Abs(b));
      Signs(a, b, Abs(a) / Abs(b), Abs(a) % Abs(b));
    }
  }

  lemma Signs(a: int, b: int, q: int, r: int)
    requires b != 0 && 0 <= r && Abs(a) == q * Abs(b) + r && r < Abs(b) && q == Abs(a) / Abs(b)
    ensures TruncDiv(a, b) == if (a >= 0) == (b > 0) then q else -q
    ensures TruncDiv(a, b) * b == if a >= 0 then q * Abs(b) else -(q * Abs(b))
  {
    assert (-q) * (-b) == q * b && (-q) * b == -(q * b) && q * (-b) == -(q * b);
  }

  /** Exactly one of less, equal and greater holds, and the other three say which do not. */
  lemma Trichotomy(a: int, b: int)
    ensures Apply(Lt, a, b) == Some(if a < b then 1 else 0)
    ensures Apply(Eq, a, b) == Some(if a == b then 1 else 0)
    ensures Apply(Gt, a, b) == Some(if a > b then 1 else 0)
    ensures Apply(Lt, a, b).value + Apply(Eq, a, b).value + Apply(Gt, a, b).value == 1
    ensures Apply(Le, a, b).value == 1 - Apply(Gt, a, b).value
    ensures Apply(Ge, a, b).value == 1 - Apply(Lt, a, b).value
    ensures Apply(Ne, a, b).value == 1 - Apply(Eq, a, b).value
  {
  }

  /** A sign is undone by another, and a variable that holds a number has its value. */
  lemma NegationUndoes(a: int)
    requires InRange(a)
    ensures Wrapped(-Wrapped(-a)) == a && Apply(Plus, a, Wrapped(-a)) == Some(0)
  {
  }

  lemma VariableReads(env: Env, name: string, v: nat)
    requires v <= I64_MAX
    ensures Variable(env[name := Printed(v, 10)], name) == v
    ensures name !in env ==> Variable(env, name) == 0
  {
    var s := Printed(v, 10);
    PrintedDigits(v);
    ParsePrinted(v, 10, I64_MAX);
    TrimNothing(s);
  }

  // ---- The operators as they are written ------------------------------------------------------------

  predicate IsProductText(w: string) {
    w == "*" || w == "/" || w == "%"
  }

  predicate IsSumText(w: string) {
    w == "+" || w == "-"
  }

  predicate IsComparisonText(w: string) {
    w == "==" || w == "!=" || w == "<=" || w == ">=" || w == "<" || w == ">"
  }

  predicate IsOpText(w: string) {
    IsProductText(w) || IsSumText(w) || IsComparisonText(w)
  }

  /** What the operator written `w` makes of two numbers; no operand, no result. */
  function Combined(w: string, x: Option<int>, y: Option<int>): Option<int>
    requires IsOpText(w)
  {
    match (x, y)
    case (Some(a), Some(b)) =>
      if w == "+" then Some(Wrapped(a + b))
      else if w == "-" then Some(Wrapped(a - b))
      else if w == "*" then Some(Wrapped(a * b))
      else if w == "/" then CheckedDiv(a, b)
      else if w == "%" then CheckedRem(a, b)
      else if w == "==" then Some(Truth(a == b))
      else if w == "!=" then Some(Truth(a != b))
      else if w == "<=" then Some(Truth(a <= b))
      else if w == ">=" then Some(Truth(a >= b))
      else if w == "<" then Some(Truth(a < b))
      else Some(Truth(a > b))
    case _ => None
  }

  /** The second operator takes the number between the two: it is a product after a sum or a comparison, or a sum
      after a comparison. */
  predicate BindsTighter(second: string, first: string) {
    (IsProductText(second) && (IsSumText(first) || IsComparisonText(first))) || (IsSumText(second) && IsComparisonText(first))
  }

  function OpOf(w: string): Op
    requires IsOpText(w)
  {
    if w == "+" then Plus else if w == "-" then Minus
    else if w == "*" then Times else if w == "/" then Over else if w == "%" then Percent
    else if w == "==" then Eq else if w == "!=" then Ne else if w == "<=" then Le
    else if w == ">=" then Ge else if w == "<" then Lt else Gt
  }

  lemma OpIsWritten(w: string, a: int, b: int)
    requires IsOpText(w)
    ensures OpText(OpOf(w)) == w && Apply(OpOf(w), a, b) == Combined(w, Some(a), Some(b))
  {
  }

  /** The expression that precedence and grouping to the left make of two operators between three operands. */
  function Grouped(a: Expr, first: string, b: Expr, second: string, c: Expr): Expr
    requires IsOpText(first) && IsOpText(second)
  {
    if BindsTighter(second, first) then Bin(OpOf(first), a, Bin(OpOf(second), b, c))
    else Bin(OpOf(second), Bin(OpOf(first), a, b), c)
  }

  lemma GroupedIsComparison(a: Expr, first: string, b: Expr, second: string, c: Expr)
    requires IsOpText(first) && IsOpText(second) && IsSigned(a) && IsSigned(b) && IsSigned(c)
    ensures IsComparison(Grouped(a, first, b, second, c))
    ensures Tokens(Grouped(a, first, b, second, c))
         == Tokens(a) + [Sym(OpOf(first))] + Tokens(b) + [Sym(OpOf(second))] + Tokens(c)
  {
    SignedIsEverything(a);
    SignedIsEverything(b);
    SignedIsEverything(c);
    hide Tokens, OpText, IsSigned, IsSum, IsProduct, IsComparison;
    GroupedLevels(a, first, b, second, c);
    GroupedTokens(a, first, b, second, c);
  }

  lemma OneOperator(w: string, x: Expr, y: Expr)
    requires IsOpText(w)
    ensures IsProductText(w) && IsProduct(x) && IsSigned(y) ==> IsProduct(Bin(OpOf(w), x, y))
    ensures IsSumText(w) && IsSum(x) && IsProduct(y) ==> IsSum(Bin(OpOf(w), x, y))
    ensures IsComparisonText(w) && IsComparison(x) && IsSum(y) ==> IsComparison(Bin(OpOf(w), x, y))
  {
  }

  lemma GroupedLevels(a: Expr, first: string, b: Expr, second: string, c: Expr)
    requires IsOpText(first) && IsOpText(second) && IsSigned(a) && IsSigned(b) && IsSigned(c)
    ensures IsComparison(Grouped(a, first, b, second, c))
  {
    hide IsSigned, IsSum, IsProduct, IsComparison, OpOf;
    SignedIsEverything(a);
    SignedIsEverything(b);
    SignedIsEverything(c);
    var ab, bc := Bin(OpOf(first), a, b), Bin(OpOf(second), b, c);
    OneOperator(first, a, b);
    OneOperator(second, b, c);
    OneOperator(first, a, bc);
    OneOperator(second, ab, c);
    LevelsNest(ab);
    LevelsNest(bc);
    LevelsNest(Bin(OpOf(first), a, bc));
    LevelsNest(Bin(OpOf(second), ab, c));
  }

  lemma SignedIsEverything(e: Expr)
    requires IsSigned(e)
    ensures IsProduct(e) && IsSum(e) && IsComparison(e) && !e.Bin?
  {
    LevelsNest(e);
  }

  lemma GroupedTokens(a: Expr, first: string, b: Expr, second: string, c: Expr)
    requires IsOpText(first) && IsOpText(second)
    ensures Tokens(Grouped(a, first, b, second, c))
         == Tokens(a) + [Sym(OpOf(first))] + Tokens(b) + [Sym(OpOf(second))] + Tokens(c)
  {
    hide OpOf, BindsTighter;
  }

  /** Three operands, which are names, numbers, signed or in parentheses, with any two operators between them. */
  lemma PairEvaluates(env: Env, a: Expr, first: string, b: Expr, second: string, c: Expr)
    requires IsOpText(first) && IsOpText(second) && IsSigned(a) && IsSigned(b) && IsSigned(c)
    requires Nesting(a) <= MAX_DEPTH && Nesting(b) <= MAX_DEPTH && Nesting(c) <= MAX_DEPTH
    ensures
      var x, y, z := EvalTokens(env, Tokens(a)), EvalTokens(env, Tokens(b)), EvalTokens(env, Tokens(c));
      EvalTokens(env, Tokens(a) + [Sym(OpOf(first))] + Tokens(b) + [Sym(OpOf(second))] + Tokens(c))
        == if BindsTighter(second, first) then Combined(first, x, Combined(second, y, z))
           else Combined(second, Combined(first, x, y), z)
  {
    var e := Grouped(a, first, b, second, c);
    GroupedIsComparison(a, first, b, second, c);
    FitsIff(a);
    FitsIff(b);
    FitsIff(c);
    FitsIff(e);
    SignedIsEverything(a);
    SignedIsEverything(b);
    SignedIsEverything(c);
    hide Tokens, IsComparison, IsSum, IsProduct, IsSigned, EvalTokens, OpText, BindsTighter;
    ExpressionEvaluates(env, a);
    ExpressionEvaluates(env, b);
    ExpressionEvaluates(env, c);
    ExpressionEvaluates(env, e);
    GroupedMeaning(env, a, first, b, second, c);
  }

  lemma BinMeaning(env: Env, w: string, x: Expr, y: Expr)
    requires IsOpText(w)
    ensures Meaning(env, Bin(OpOf(w), x, y)) == Combined(w, Meaning(env, x), Meaning(env, y))
  {
    if Meaning(env, x).Some? && Meaning(env, y).Some? {
      OpIsWritten(w, Meaning(env, x).value, Meaning(env, y).value);
    }
    hide Apply, OpOf, OpText;
  }

  lemma GroupedMeaning(env: Env, a: Expr, first: string, b: Expr, second: string, c: Expr)
    requires IsOpText(first) && IsOpText(second)
    requires Nesting(a) <= MAX_DEPTH && Nesting(b) <= MAX_DEPTH && Nesting(c) <= MAX_DEPTH
    ensures Nesting(Grouped(a, first, b, second, c)) <= MAX_DEPTH
    ensures
      var x, y, z := Meaning(env, a), Meaning(env, b), Meaning(env, c);
      Meaning(env, Grouped(a, first, b, second, c))
        == if BindsTighter(second, first) then Combined(first, x, Combined(second, y, z))
           else Combined(second, Combined(first, x, y), z)
  {
    hide Meaning, Apply, OpOf, Combined, BindsTighter;
    BinMeaning(env, first, a, b);
    BinMeaning(env, second, b, c);
    BinMeaning(env, first, a, Bin(OpOf(second), b, c));
    BinMeaning(env, second, Bin(OpOf(first), a, b), c);
  }

  // ---- As text ------------------------------------------------------------------------------------

  /** Three numbers with two operators between them, as they are typed: `1+7%4`. */
  lemma TextEvaluates(u: Unicode, env: Env, a: nat, first: string, b: nat, second: string, c: nat)
    requires IsOpText(first) && IsOpText(second) && a <= I64_MAX && b <= I64_MAX && c <= I64_MAX
    ensures
      Evaluated(u, env, Printed(a, 10) + (first + (Printed(b, 10) + (second + Printed(c, 10)))))
        == if BindsTighter(second, first) then Combined(first, Some(a), Combined(second, Some(b), Some(c)))
           else Combined(second, Combined(first, Some(a), Some(b)), Some(c))
  {
    var ts := [Num(a), Sym(OpOf(first)), Num(b), Sym(OpOf(second)), Num(c)];
    var e := Grouped(Lit(a), first, Lit(b), second, Lit(c));
    GroupedIsComparison(Lit(a), first, Lit(b), second, Lit(c));
    assert Tokens(e) == ts;
    TripleIsSpelled(u, a, first, b, second, c);
    FitsIff(e);
    hide Tokens, IsComparison, IsSum, IsProduct, EvalTokens, OpText, BindsTighter, Spells, TextOf, Combined;
    WrittenEvaluates(u, env, Printed(a, 10) + (first + (Printed(b, 10) + (second + Printed(c, 10)))), e);
    GroupedMeaning(env, Lit(a), first, Lit(b), second, Lit(c));
  }

  lemma TripleIsSpelled(u: Unicode, a: nat, first: string, b: nat, second: string, c: nat)
    requires IsOpText(first) && IsOpText(second) && a <= I64_MAX && b <= I64_MAX && c <= I64_MAX
    ensures
      var ts := [Num(a), Sym(OpOf(first)), Num(b), Sym(OpOf(second)), Num(c)];
      var s := Printed(a, 10) + (first + (Printed(b, 10) + (second + Printed(c, 10))));
      exists ps, tail :: Spells(u, ps, tail) && TextOf(ps, tail) == s && TokensOf(ps) == ts
  {
    hide Spells, TextOf, TokensOf, OpText, Denotes, Ends, Printed;
    EmptySpells(u);
    var ps5 := NumberInFront(u, c, []);
    var ps4 := OperatorInFront(u, second, c, ps5);
    var ps3 := NumberInFront(u, b, ps4);
    var ps2 := OperatorInFront(u, first, b, ps3);
    var ps1 := NumberInFront(u, a, ps2);
    assert Printed(c, 10) + "" == Printed(c, 10);
    assert TokensOf(ps1) == [Num(a), Sym(OpOf(first)), Num(b), Sym(OpOf(second)), Num(c)];
    assert Spells(u, ps1, "");
  }

  lemma EmptySpells(u: Unicode)
    ensures Spells(u, [], "") && TextOf([], "") == "" && TokensOf([]) == []
  {
  }

  lemma NumberInFront(u: Unicode, v: nat, ps: seq<Piece>) returns (qs: seq<Piece>)
    requires v <= I64_MAX && Spells(u, ps, "")
    requires TextOf(ps, "") == "" || !Member(u, Alnum, TextOf(ps, "")[0])
    ensures Spells(u, qs, "") && TextOf(qs, "") == Printed(v, 10) + TextOf(ps, "") && TokensOf(qs) == [Num(v)] + TokensOf(ps)
    ensures TextOf(qs, "") != "" && IsAsciiDigit(TextOf(qs, "")[0])
  {
    PrintedDigits(v);
    WordDenotes(u, Num(v));
    qs := Longer(u, Printed(v, 10), Num(v), ps, "");
  }

  lemma OperatorInFront(u: Unicode, w: string, v: nat, ps: seq<Piece>) returns (qs: seq<Piece>)
    requires IsOpText(w) && Spells(u, ps, "") && TextOf(ps, "") != "" && IsAsciiDigit(TextOf(ps, "")[0])
    ensures Spells(u, qs, "") && TextOf(qs, "") == w + TextOf(ps, "") && TokensOf(qs) == [Sym(OpOf(w))] + TokensOf(ps)
    ensures !Member(u, Alnum, TextOf(qs, "")[0])
  {
    OpIsWritten(w, 0, 0);
    qs := Longer(u, w, Sym(OpOf(w)), ps, "");
  }

  /** A number in hexadecimal. */
  lemma HexadecimalEvaluates(u: Unicode, env: Env, v: nat)
    requires v <= I64_MAX
    ensures Evaluated(u, env, "0x" + Printed(v, 16)) == Some(v)
  {
    hide Denotes, Evaluated, Spells, TextOf, TokensOf, Printed, Ends;
    var word := "0x" + Printed(v, 16);
    HexadecimalDenotes(u, v);
    EmptySpells(u);
    NothingAfter(u, Num(v));
    var ps := Longer(u, word, Num(v), [], "");
    assert word + "" == word;
    assert Tokens(Lit(v)) == TokensOf(ps) == [Num(v)];
    assert Writes(u, word, Lit(v));
    WrittenEvaluates(u, env, word, Lit(v));
  }

  lemma NothingAfter(u: Unicode, t: Token)
    ensures ArithLexer.Ends(u, t, "")
  {
  }

  lemma HexadecimalDenotes(u: Unicode, v: nat)
    requires v <= I64_MAX
    ensures Denotes(u, "0x" + Printed(v, 16), Num(v))
  {
    hide AllDigits, ValueOf, Printed;
    var digits, word := Printed(v, 16), "0x" + Printed(v, 16);
    ParsePrinted(v, 16, I64_MAX);
    PrintedReads(v, 16);
    DigitsAreMembers(u, digits);
    assert word[2..] == digits;
    assert ParseSigned(digits, 16, I64_MIN, I64_MAX) == Some(v);
    assert AllMembers(u, Alnum, word);
  }

  lemma DigitsAreMembers(u: Unicode, digits: string)
    requires AllDigits(digits, 16) && digits != ""
    ensures AllMembers(u, Alnum, digits) && digits[0] != '-'
  {
    assert IsDigit(digits[0], 16);
    forall i | 0 <= i < |digits| ensures Member(u, Alnum, digits[i]) {
      assert IsDigit(digits[i], 16);
    }
  }
}
