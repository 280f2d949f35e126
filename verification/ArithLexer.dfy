/**
  The text of a `$((...))` expression, and the whole evaluation from text to value.
 */
module ArithLexer {
  import opened ArithGrammar
  import opened ArithParser
  import opened Division
  import opened Numerals
  import opened Text
  import opened Wrappers

  // ---- Characters ---------------------------------------------------------------------------------

  /** The letters and numerals beyond ASCII. */
  datatype Unicode = Unicode(alphabetic: set<char>, numeric: set<char>)

  datatype Class = Alnum | NameChar

  predicate IsAsciiDigit(c: char) {
    '0' <= c <= '9'
  }

  predicate IsAsciiLetter(c: char) {
    'a' <= c <= 'z' || 'A' <= c <= 'Z'
  }

  predicate Beyond(c: char, cs: set<char>) {
    c >= '\U{80}' && !IsWhitespace(c) && c in cs
  }

  predicate StartsName(u: Unicode, c: char) {
    IsAsciiLetter(c) || Beyond(c, u.alphabetic) || c == '_'
  }

  predicate Member(u: Unicode, k: Class, c: char) {
    match k
    case Alnum => IsAsciiDigit(c) || IsAsciiLetter(c)
    case NameChar => StartsName(u, c) || IsAsciiDigit(c) || Beyond(c, u.numeric)
  }

  function RunLength(u: Unicode, k: Class, s: string): (n: nat)
    ensures n <= |s|
  {
    if s != "" && Member(u, k, s[0]) then 1 + RunLength(u, k, s[1..]) else 0
  }

  // ---- Words --------------------------------------------------------------------------------------

  function Number(word: string): Option<int> {
    if |word| >= 2 && word[0] == '0' && (word[1] == 'x' || word[1] == 'X') then
      ParseSigned(word[2..], 16, I64_MIN, I64_MAX)
    else
      ParseSigned(word, 10, I64_MIN, I64_MAX)
  }

  function Two(c: char, d: char): Option<Op> {
    if d != '=' then None
    else if c == '=' then Some(Eq)
    else if c == '!' then Some(Ne)
    else if c == '<' then Some(Le)
    else if c == '>' then Some(Ge)
    else None
  }

  function One(c: char): Option<Token> {
    match c
    case '+' => Some(Sym(Plus))
    case '-' => Some(Sym(Minus))
    case '*' => Some(Sym(Times))
    case '/' => Some(Sym(Over))
    case '%' => Some(Sym(Percent))
    case '(' => Some(LParen)
    case ')' => Some(RParen)
    case '<' => Some(Sym(Lt))
    case '>' => Some(Sym(Gt))
    case _ => None
  }

  datatype Lexeme = Lexeme(token: Token, length: nat)

  function Next(u: Unicode, s: string): (r: Option<Lexeme>)
    requires s != ""
    ensures r.Some? ==> 0 < r.value.length <= |s|
  {
    if IsAsciiDigit(s[0]) then
      var n := RunLength(u, Alnum, s);
      match Number(s[..n])
      case Some(v) => Some(Lexeme(Num(v), n))
      case None => None
    else if StartsName(u, s[0]) then
      var n := RunLength(u, NameChar, s);
      Some(Lexeme(Name(s[..n]), n))
    else if |s| >= 2 && Two(s[0], s[1]).Some? then
      Some(Lexeme(Sym(Two(s[0], s[1]).value), 2))
    else
      match One(s[0])
      case Some(t) => Some(Lexeme(t, 1))
      case None => None
  }

  function Prefixed(ts: seq<Token>, r: Option<seq<Token>>): Option<seq<Token>> {
    match r
    case Some(more) => Some(ts + more)
    case None => None
  }

  function Lex(u: Unicode, s: string): Option<seq<Token>> {
    if s == "" then Some([])
    else if IsWhitespace(s[0]) then Lex(u, s[1..])
    else
      match Next(u, s)
      case Some(x) => Prefixed([x.token], Lex(u, s[x.length..]))
      case None => None
  }

  // ---- The tokenizer ------------------------------------------------------------------------------

  method Run(u: Unicode, k: Class, s: string, start: nat) returns (end: nat)
    requires start <= |s|
    ensures end == start + RunLength(u, k, s[start..])
  {
    end := start;
    while end < |s| && Member(u, k, s[end])
      invariant start <= end <= |s|
      invariant RunLength(u, k, s[start..]) == end - start + RunLength(u, k, s[end..])
    {
      assert s[end..][1..] == s[end + 1..];
      end := end + 1;
    }
  }

  /** The lexeme at `i`, where no white space stands. */
  method TokenAt(u: Unicode, s: string, i: nat) returns (r: Option<Lexeme>)
    requires i < |s|
    ensures r == Next(u, s[i..])
  {
    var c := s[i];
    if IsAsciiDigit(c) {
      var end := Run(u, Alnum, s, i);
      assert s[i..][..end - i] == s[i..end];
      var value := Number(s[i..end]);
      return if value.Some? then Some(Lexeme(Num(value.value), end - i)) else None;
    }
    if StartsName(u, c) {
      var end := Run(u, NameChar, s, i);
      assert s[i..][..end - i] == s[i..end];
      return Some(Lexeme(Name(s[i..end]), end - i));
    }
    var two := if i + 1 < |s| then Two(c, s[i + 1]) else None;
    if two.Some? {
      return Some(Lexeme(Sym(two.value), 2));
    }
    var one := One(c);
    return if one.Some? then Some(Lexeme(one.value, 1)) else None;
  }

  lemma PrefixedTwice(ts: seq<Token>, t: Token, r: Option<seq<Token>>)
    ensures Prefixed(ts, Prefixed([t], r)) == Prefixed(ts + [t], r)
    ensures Prefixed([], r) == r && Prefixed(ts, Some([])) == Some(ts)
  {
    assert ts + [] == ts;
    if r.Some? {
      ConcatAssoc(ts, [t], r.value);
      assert [] + r.value == r.value;
    }
  }

  lemma PrefixedNothing(ts: seq<Token>)
    ensures Prefixed(ts, None) == None
  {
  }

  method Tokenize(u: Unicode, s: string) returns (r: Option<seq<Token>>)
    ensures r == Lex(u, s)
  {
    hide Next, IsWhitespace, Prefixed;
    var i := 0;
    var tokens: seq<Token> := [];
    assert s[0..] == s;
    PrefixedTwice([], LParen, Lex(u, s));
    while i < |s|
      invariant i <= |s|
      invariant Lex(u, s) == Prefixed(tokens, Lex(u, s[i..]))
    {
      if IsWhitespace(s[i]) {
        assert s[i..][1..] == s[i + 1..];
        i := i + 1;
        continue;
      }
      var next := TokenAt(u, s, i);
      if next.None? {
        PrefixedNothing(tokens);
        return None;
      }
      var x := next.value;
      assert s[i..][x.length..] == s[i + x.length..];
      PrefixedTwice(tokens, x.token, Lex(u, s[i + x.length..]));
      tokens := tokens + [x.token];
      i := i + x.length;
    }
    PrefixedTwice(tokens, LParen, None);
    assert s[i..] == "";
    return Some(tokens);
  }

  // ---- What the tokenizer accepts -----------------------------------------------------------------

  /** A token as it stands in the text: white space in front of it, and the word it is written with. */
  datatype Piece = Piece(gap: string, word: string, token: Token)

  predicate AllWhite(s: string) {
    forall k :: 0 <= k < |s| ==> IsWhitespace(s[k])
  }

  predicate AllMembers(u: Unicode, k: Class, s: string) {
    forall i :: 0 <= i < |s| ==> Member(u, k, s[i])
  }

  function OpText(op: Op): string {
    match op
    case Eq => "=="
    case Ne => "!="
    case Le => "<="
    case Ge => ">="
    case Lt => "<"
    case Gt => ">"
    case Plus => "+"
    case Minus => "-"
    case Times => "*"
    case Over => "/"
    case Percent => "%"
  }

  /** The words a token may be written with: numbers in decimal or, after `0x`, in hexadecimal. */
  predicate Denotes(u: Unicode, word: string, t: Token) {
    match t
    case Num(v) => word != "" && IsAsciiDigit(word[0]) && AllMembers(u, Alnum, word) && Number(word) == Some(v)
    case Name(n) => word == n && n != "" && StartsName(u, n[0]) && AllMembers(u, NameChar, n)
    case Sym(op) => word == OpText(op)
    case LParen => word == "("
    case RParen => word == ")"
  }

  /** The text after a word does not make the word longer. */
  predicate Ends(u: Unicode, t: Token, after: string) {
    after == "" ||
    match t
    case Num(_) => !Member(u, Alnum, after[0])
    case Name(_) => !Member(u, NameChar, after[0])
    case Sym(op) => op == Lt || op == Gt ==> after[0] != '='
    case _ => true
  }

  function TextOf(ps: seq<Piece>, tail: string): string {
    if ps == [] then tail else ps[0].gap + (ps[0].word + TextOf(ps[1..], tail))
  }

  function TokensOf(ps: seq<Piece>): seq<Token> {
    if ps == [] then [] else [ps[0].token] + TokensOf(ps[1..])
  }

  predicate Spells(u: Unicode, ps: seq<Piece>, tail: string) {
    if ps == [] then AllWhite(tail)
    else
      && AllWhite(ps[0].gap)
      && Denotes(u, ps[0].word, ps[0].token)
      && Ends(u, ps[0].token, TextOf(ps[1..], tail))
      && Spells(u, ps[1..], tail)
  }

  lemma {:induction false} RunIsMaximal(u: Unicode, k: Class, s: string)
    ensures AllMembers(u, k, s[..RunLength(u, k, s)])
    ensures var n := RunLength(u, k, s); n < |s| ==> !Member(u, k, s[n])
  {
    hide Member;
    if s != "" && Member(u, k, s[0]) {
      RunIsMaximal(u, k, s[1..]);
      var n := RunLength(u, k, s[1..]);
      assert s[..1 + n] == [s[0]] + s[1..][..n];
    }
  }

  lemma {:induction false} RunOfMembers(u: Unicode, k: Class, word: string, after: string)
    requires AllMembers(u, k, word) && (after == "" || !Member(u, k, after[0]))
    ensures RunLength(u, k, word + after) == |word|
  {
    hide Member;
    if word == "" {
      assert word + after == after;
    } else {
      assert (word + after)[1..] == word[1..] + after;
      assert AllMembers(u, k, word[1..]);
      RunOfMembers(u, k, word[1..], after);
    }
  }

  lemma SkipGap(u: Unicode, gap: string, after: string)
    requires AllWhite(gap)
    ensures Lex(u, gap + after) == Lex(u, after)
  {
    if gap == "" {
      assert gap + after == after;
    } else {
      assert (gap + after)[1..] == gap[1..] + after;
      SkipGap(u, gap[1..], after);
    }
  }

  lemma NextIsDenoted(u: Unicode, word: string, t: Token, after: string)
    requires Denotes(u, word, t) && Ends(u, t, after)
    ensures word != "" && !IsWhitespace(word[0])
    ensures Next(u, word + after) == Some(Lexeme(t, |word|))
  {
    var s := word + after;
    assert s[..|word|] == word;
    match t
    case Num(v) => RunOfMembers(u, Alnum, word, after);
    case Name(n) => RunOfMembers(u, NameChar, word, after);
    case _ =>
  }

  lemma DenotesNext(u: Unicode, s: string)
    requires s != "" && !IsWhitespace(s[0]) && Next(u, s).Some?
    ensures var x := Next(u, s).value; Denotes(u, s[..x.length], x.token) && Ends(u, x.token, s[x.length..])
  {
    if IsAsciiDigit(s[0]) {
      RunIsMaximal(u, Alnum, s);
    } else if StartsName(u, s[0]) {
      RunIsMaximal(u, NameChar, s);
    }
  }

  lemma {:induction false} SpelledIsLexed(u: Unicode, ps: seq<Piece>, tail: string)
    requires Spells(u, ps, tail)
    ensures Lex(u, TextOf(ps, tail)) == Some(TokensOf(ps))
    decreases |ps|
  {
    if ps == [] {
      SkipGap(u, tail, "");
      assert tail + "" == tail;
    } else {
      var p, after := ps[0], TextOf(ps[1..], tail);
      SpelledIsLexed(u, ps[1..], tail);
      SkipGap(u, p.gap, p.word + after);
      NextIsDenoted(u, p.word, p.token, after);
      assert (p.word + after)[|p.word|..] == after;
      hide Denotes, Ends, Next, IsWhitespace, AllWhite;
    }
  }

  lemma {:induction false} LexedIsSpelled(u: Unicode, s: string) returns (ps: seq<Piece>, tail: string)
    requires Lex(u, s).Some?
    ensures Spells(u, ps, tail) && TextOf(ps, tail) == s && Some(TokensOf(ps)) == Lex(u, s)
  {
    if s == "" {
      ps, tail := [], "";
    } else if IsWhitespace(s[0]) {
      ps, tail := LexedIsSpelled(u, s[1..]);
      assert s == [s[0]] + s[1..];
      ps, tail := Wider(u, s[0], ps, tail);
    } else {
      var x := Next(u, s).value;
      DenotesNext(u, s);
      hide Denotes, Ends, Next, IsWhitespace, Spells, TextOf, TokensOf;
      ps, tail := LexedIsSpelled(u, s[x.length..]);
      assert s == s[..x.length] + s[x.length..];
      ps := Longer(u, s[..x.length], x.token, ps, tail);
    }
  }

  lemma Wider(u: Unicode, c: char, ps: seq<Piece>, tail: string) returns (qs: seq<Piece>, rest: string)
    requires IsWhitespace(c) && Spells(u, ps, tail)
    ensures Spells(u, qs, rest) && TextOf(qs, rest) == [c] + TextOf(ps, tail) && TokensOf(qs) == TokensOf(ps)
  {
    hide Denotes, Ends, IsWhitespace;
    if ps == [] {
      qs, rest := [], [c] + tail;
    } else {
      ConcatAssoc([c], ps[0].gap, ps[0].word + TextOf(ps[1..], tail));
      qs, rest := [ps[0].(gap := [c] + ps[0].gap)] + ps[1..], tail;
      assert qs[1..] == ps[1..];
    }
  }

  lemma Longer(u: Unicode, word: string, t: Token, ps: seq<Piece>, tail: string) returns (qs: seq<Piece>)
    requires Denotes(u, word, t) && Ends(u, t, TextOf(ps, tail)) && Spells(u, ps, tail)
    ensures Spells(u, qs, tail) && TextOf(qs, tail) == word + TextOf(ps, tail) && TokensOf(qs) == [t] + TokensOf(ps)
  {
    hide Denotes, Ends, IsWhitespace;
    qs := [Piece("", word, t)] + ps;
    assert qs[1..] == ps;
    assert "" + (word + TextOf(ps, tail)) == word + TextOf(ps, tail);
  }

  lemma LexIsExact(u: Unicode, s: string, ts: seq<Token>)
    ensures Lex(u, s) == Some(ts) <==>
      exists ps, tail :: Spells(u, ps, tail) && TextOf(ps, tail) == s && TokensOf(ps) == ts
  {
    if Lex(u, s) == Some(ts) {
      var ps, tail := LexedIsSpelled(u, s);
      assert Spells(u, ps, tail) && TextOf(ps, tail) == s && TokensOf(ps) == ts;
    }
    forall ps, tail | Spells(u, ps, tail) && TextOf(ps, tail) == s && TokensOf(ps) == ts
      ensures Lex(u, s) == Some(ts)
    {
      SpelledIsLexed(u, ps, tail);
    }
  }

  // ---- From text to value -------------------------------------------------------------------------

  function Evaluated(u: Unicode, env: Env, s: string): Option<int> {
    match Lex(u, s)
    case Some(ts) => EvalTokens(env, ts)
    case None => None
  }

  method Eval(u: Unicode, env: Env, s: string) returns (r: Option<int>)
    ensures r == Evaluated(u, env, s)
  {
    var tokens := Tokenize(u, s);
    if tokens.None? {
      return None;
    }
    r := EvalList(env, tokens.value);
  }

  lemma {:induction false} SpelledNumbersFit(u: Unicode, ps: seq<Piece>, tail: string)
    requires Spells(u, ps, tail)
    ensures NumbersFit(TokensOf(ps))
    decreases |ps|
  {
    if ps != [] {
      SpelledNumbersFit(u, ps[1..], tail);
    }
  }

  /** `s` is a way to write the expression `e`. */
  ghost predicate Writes(u: Unicode, s: string, e: Expr) {
    exists ps, tail :: Spells(u, ps, tail) && TextOf(ps, tail) == s && TokensOf(ps) == Tokens(e)
  }

  /** The evaluator answers exactly the texts of expressions that nest at most 32 parentheses deep and divide
      only where division has a result, and it answers with the value of the expression. */
  lemma EvalIsExact(u: Unicode, env: Env, s: string, v: int)
    ensures Evaluated(u, env, s) == Some(v) <==>
      exists e :: Writes(u, s, e) && IsComparison(e) && Nesting(e) <= MAX_DEPTH && Meaning(env, e) == Some(v)
  {
    hide IsComparison, Fits;
    if Evaluated(u, env, s) == Some(v) {
      var ts := Lex(u, s).value;
      var ps, tail := LexedIsSpelled(u, s);
      SpelledNumbersFit(u, ps, tail);
      EvalIsGrammar(env, ts, v);
      var e :| IsComparison(e) && Tokens(e) == ts && Nesting(e) <= MAX_DEPTH && Meaning(env, e) == Some(v);
      assert Spells(u, ps, tail) && TextOf(ps, tail) == s && TokensOf(ps) == Tokens(e);
      assert Writes(u, s, e);
    }
    forall e | Writes(u, s, e) && IsComparison(e) && Nesting(e) <= MAX_DEPTH && Meaning(env, e) == Some(v)
      ensures Evaluated(u, env, s) == Some(v)
    {
      FitsIff(e);
      WrittenEvaluates(u, env, s, e);
    }
  }

  lemma WrittenEvaluates(u: Unicode, env: Env, s: string, e: Expr)
    requires Writes(u, s, e) && Fits(e, 0)
    ensures Evaluated(u, env, s) == Allowed(env, e, 0)
  {
    var ps, tail :| Spells(u, ps, tail) && TextOf(ps, tail) == s && TokensOf(ps) == Tokens(e);
    SpelledIsLexed(u, ps, tail);
    ExpressionEvaluates(env, e);
  }

  /** However a tree is written down with no more parentheses than it needs, its text evaluates to its
      value. */
  lemma TreeEvaluates(u: Unicode, env: Env, t: Ast, s: string)
    requires LiteralsFit(t) && Writes(u, s, Written(t, 0)) && Nesting(Written(t, 0)) <= MAX_DEPTH
    ensures Evaluated(u, env, s) == Value(env, t)
  {
    WrittenFits(env, t, 0);
    WrittenEvaluates(u, env, s, Written(t, 0));
  }

  // ---- One way to write it ------------------------------------------------------------------------

  function WordOf(t: Token): string
    requires t.Num? ==> t.value >= 0
  {
    match t
    case Num(v) => Printed(v, 10)
    case Name(n) => n
    case Sym(op) => OpText(op)
    case LParen => "("
    case RParen => ")"
  }

  predicate Printable(u: Unicode, t: Token) {
    match t
    case Num(v) => 0 <= v <= I64_MAX
    case Name(n) => n != "" && StartsName(u, n[0]) && AllMembers(u, NameChar, n)
    case _ => true
  }

  predicate AllPrintable(u: Unicode, ts: seq<Token>) {
    forall k :: 0 <= k < |ts| ==> Printable(u, ts[k])
  }

  /** Every token behind a single space. */
  function Spaced(u: Unicode, ts: seq<Token>): seq<Piece>
    requires AllPrintable(u, ts)
  {
    if ts == [] then [] else [Piece(" ", WordOf(ts[0]), ts[0])] + Spaced(u, ts[1..])
  }

  lemma WordDenotes(u: Unicode, t: Token)
    requires Printable(u, t)
    ensures Denotes(u, WordOf(t), t)
  {
    if t.Num? {
      PrintedDigits(t.value);
      PrintedReads(t.value, 10);
      assert Number(WordOf(t)) == Some(t.value);
    }
  }

  lemma {:induction false} PrintedDigits(n: nat)
    ensures forall k :: 0 <= k < |Printed(n, 10)| ==> IsAsciiDigit(Printed(n, 10)[k])
  {
    if n >= 10 {
      PrintedDigits(n / 10);
    }
  }

  lemma {:induction false} SpacedSpells(u: Unicode, ts: seq<Token>)
    requires AllPrintable(u, ts)
    ensures Spells(u, Spaced(u, ts), "") && TokensOf(Spaced(u, ts)) == ts
    decreases |ts|
  {
    if ts != [] {
      SpacedSpells(u, ts[1..]);
      WordDenotes(u, ts[0]);
    }
  }

  /** Any printable expression has a text, so any printable tree within the nesting cap does. */
  lemma ExpressionIsWritten(u: Unicode, e: Expr)
    requires AllPrintable(u, Tokens(e))
    ensures Writes(u, TextOf(Spaced(u, Tokens(e)), ""), e)
  {
    SpacedSpells(u, Tokens(e));
  }
}
