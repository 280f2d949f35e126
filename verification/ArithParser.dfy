/**
  The evaluating parser: precedence climbing over a token list, with a cap on open parentheses.
 */
module ArithParser {
  import opened ArithGrammar
  import opened Wrappers

  /** What a parsing function makes of the tokens in front of it. */
  datatype Parse = Fail | Done(value: int, rest: seq<Token>)

  function PrimaryAt(env: Env, ts: seq<Token>, depth: nat): (r: Parse)
    ensures r.Done? ==> |r.rest| < |ts|
    decreases |ts|, 0
  {
    if ts == [] then Fail
    else
      match ts[0]
      case LParen =>
        if depth >= MAX_DEPTH then Fail
        else
          (match At(env, 0, ts[1..], depth + 1)
           case Done(v, rest) => if rest != [] && rest[0] == RParen then Done(v, rest[1..]) else Fail
           case Fail => Fail)
      case Num(v) => Done(v, ts[1..])
      case Name(n) => Done(Variable(env, n), ts[1..])
      case _ => Fail
  }

  /** Something of level `l`: an operand of the next level, and as many operators of this level with operands
      as follow. */
  function At(env: Env, l: Level, ts: seq<Token>, depth: nat): (r: Parse)
    ensures r.Done? ==> |r.rest| < |ts|
    decreases |ts|, 4 - l
  {
    if l < 3 then
      match At(env, l + 1, ts, depth)
      case Done(v, rest) => Loop(env, l, v, rest, depth)
      case Fail => Fail
    else if ts != [] && ts[0] == Sym(Minus) then
      match At(env, 3, ts[1..], depth)
      case Done(v, rest) => Done(Wrapped(-v), rest)
      case Fail => Fail
    else if ts != [] && ts[0] == Sym(Plus) then At(env, 3, ts[1..], depth)
    else PrimaryAt(env, ts, depth)
  }

  function Loop(env: Env, l: Level, left: int, ts: seq<Token>, depth: nat): (r: Parse)
    requires l < 3
    ensures r.Done? ==> |r.rest| <= |ts|
    decreases |ts|, 4
  {
    if ts == [] || !ts[0].Sym? || LevelOf(ts[0].op) != l then Done(left, ts)
    else
      match At(env, l + 1, ts[1..], depth)
      case Fail => Fail
      case Done(right, rest) =>
        match Apply(ts[0].op, left, right)
        case Some(v) => Loop(env, l, v, rest, depth)
        case None => Fail
  }

  function EvalTokens(env: Env, ts: seq<Token>): Option<int> {
    match At(env, 0, ts, 0)
    case Done(v, rest) => if rest == [] then Some(v) else None
    case Fail => None
  }

  // ---- What is parsed is an expression -------------------------------------------------------------

  predicate NumbersFit(ts: seq<Token>) {
    forall k :: 0 <= k < |ts| && ts[k].Num? ==> 0 <= ts[k].value <= I64_MAX
  }

  lemma NumbersFitAfter(ts: seq<Token>, rest: seq<Token>)
    requires NumbersFit(ts + rest)
    ensures NumbersFit(rest)
  {
    forall k | 0 <= k < |rest|
      ensures rest[k] == (ts + rest)[|ts| + k]
    {
    }
  }

  lemma {:induction false} AtIsSound(env: Env, l: Level, ts: seq<Token>, depth: nat) returns (e: Expr)
    requires At(env, l, ts, depth).Done? && depth <= MAX_DEPTH
    requires NumbersFit(ts)
    ensures Fits(e, l) && ts == Tokens(e) + At(env, l, ts, depth).rest
    ensures Allowed(env, e, depth) == Some(At(env, l, ts, depth).value)
    decreases |ts|, 4 - l
  {
    hide Apply, NumbersFit, PrimaryAt, Fits, Tokens, Allowed;
    if l < 3 {
      var first := AtIsSound(env, l + 1, ts, depth);
      FitsLower(first, l);
      var p := At(env, l + 1, ts, depth);
      NumbersFitAfter(Tokens(first), p.rest);
      e := LoopIsSound(env, l, first, p.value, p.rest, depth);
    } else {
      e := SignIsSound(env, ts, depth);
    }
  }

  lemma {:induction false} SignIsSound(env: Env, ts: seq<Token>, depth: nat) returns (e: Expr)
    requires At(env, 3, ts, depth).Done? && depth <= MAX_DEPTH && NumbersFit(ts)
    ensures Fits(e, 3) && ts == Tokens(e) + At(env, 3, ts, depth).rest
    ensures Allowed(env, e, depth) == Some(At(env, 3, ts, depth).value)
    decreases |ts|, 0, 1
  {
    hide Apply, NumbersFit, PrimaryAt, Allowed;
    if ts[0] == Sym(Minus) || ts[0] == Sym(Plus) {
      assert ts == [ts[0]] + ts[1..];
      NumbersFitAfter([ts[0]], ts[1..]);
      var x := AtIsSound(env, 3, ts[1..], depth);
      AllowedSign(env, x, depth);
      e := if ts[0] == Sym(Minus) then Neg(x) else Pos(x);
    } else {
      e := PrimaryIsSound(env, ts, depth);
    }
  }

  lemma AllowedSign(env: Env, x: Expr, depth: nat)
    ensures Allowed(env, Pos(x), depth) == Allowed(env, x, depth)
    ensures Allowed(env, Neg(x), depth)
         == match Allowed(env, x, depth) case Some(v) => Some(Wrapped(-v)) case None => None
  {
  }

  lemma {:induction false} PrimaryIsSound(env: Env, ts: seq<Token>, depth: nat) returns (e: Expr)
    requires PrimaryAt(env, ts, depth).Done? && depth <= MAX_DEPTH
    requires NumbersFit(ts)
    ensures Fits(e, 3) && ts == Tokens(e) + PrimaryAt(env, ts, depth).rest
    ensures Allowed(env, e, depth) == Some(PrimaryAt(env, ts, depth).value)
    decreases |ts|, 0, 0
  {
    assert ts == [ts[0]] + ts[1..];
    if ts[0].LParen? {
      NumbersFitAfter([LParen], ts[1..]);
      hide NumbersFit, Fits, Tokens, Allowed, At;
      var x := AtIsSound(env, 0, ts[1..], depth + 1);
      var p := At(env, 0, ts[1..], depth + 1);
      e := Enclosed(env, x, depth, ts, p.value, p.rest[1..]);
    } else {
      e := if ts[0].Num? then Lit(ts[0].value) else Var(ts[0].name);
    }
  }

  lemma Enclosed(env: Env, x: Expr, depth: nat, ts: seq<Token>, v: int, rest: seq<Token>) returns (e: Expr)
    requires Fits(x, 0) && Allowed(env, x, depth + 1) == Some(v)
    requires ts != [] && ts[0] == LParen && ts[1..] == Tokens(x) + ([RParen] + rest)
    ensures Fits(e, 3) && ts == Tokens(e) + rest && Allowed(env, e, depth) == Some(v)
  {
    e := Paren(x);
    assert ts == [ts[0]] + ts[1..];
  }

  lemma BinAllowed(env: Env, op: Op, x: Expr, y: Expr, depth: nat, a: int, b: int)
    requires Fits(x, LevelOf(op)) && Allowed(env, x, depth) == Some(a)
    requires Fits(y, LevelOf(op) + 1) && Allowed(env, y, depth) == Some(b)
    ensures Fits(Bin(op, x, y), LevelOf(op)) && Allowed(env, Bin(op, x, y), depth) == Apply(op, a, b)
    ensures forall ts, rest :: ts == [Sym(op)] + (Tokens(y) + rest) ==> Tokens(x) + ts == Tokens(Bin(op, x, y)) + rest
  {
    hide Apply;
  }

  lemma {:induction false} LoopIsSound(env: Env, l: Level, e0: Expr, left: int, ts: seq<Token>, depth: nat) returns (e: Expr)
    requires l < 3 && Fits(e0, l) && Allowed(env, e0, depth) == Some(left) && depth <= MAX_DEPTH
    requires Loop(env, l, left, ts, depth).Done?
    requires NumbersFit(ts)
    ensures Fits(e, l) && Tokens(e0) + ts == Tokens(e) + Loop(env, l, left, ts, depth).rest
    ensures Allowed(env, e, depth) == Some(Loop(env, l, left, ts, depth).value)
    decreases |ts|, 4
  {
    hide Apply, Fits, Tokens, Allowed, At, LevelOf, NumbersFit;
    if ts == [] || !ts[0].Sym? || LevelOf(ts[0].op) != l {
      e := e0;
    } else {
      var op := ts[0].op;
      assert ts == [ts[0]] + ts[1..];
      NumbersFitAfter([ts[0]], ts[1..]);
      var y := AtIsSound(env, l + 1, ts[1..], depth);
      var p := At(env, l + 1, ts[1..], depth);
      NumbersFitAfter(Tokens(y), p.rest);
      BinAllowed(env, op, e0, y, depth, left, p.value);
      e := LoopIsSound(env, l, Bin(op, e0, y), Apply(op, left, p.value).value, p.rest, depth);
      assert ts == [Sym(op)] + (Tokens(y) + p.rest);
    }
  }

  lemma {:induction false} FitsLower(e: Expr, l: Level)
    requires l < 3 && Fits(e, l + 1)
    ensures Fits(e, l)
  {
  }

  // ---- Every expression is parsed ------------------------------------------------------------------------

  /** What follows does not continue an expression of level `l`. */
  predicate Stops(l: nat, rest: seq<Token>) {
    rest == [] || !rest[0].Sym? || LevelOf(rest[0].op) < l
  }

  /** From here the operators of level `l` are next. */
  function Continued(env: Env, l: Level, v: Option<int>, rest: seq<Token>, depth: nat): Parse
    requires l < 3
  {
    match v
    case Some(left) => Loop(env, l, left, rest, depth)
    case None => Fail
  }

  function Answer(v: Option<int>, rest: seq<Token>): Parse {
    match v
    case Some(x) => Done(x, rest)
    case None => Fail
  }

  lemma {:induction false} AtIsComplete(env: Env, l: Level, e: Expr, rest: seq<Token>, depth: nat)
    requires Fits(e, l) && Stops(l, rest) && depth <= MAX_DEPTH
    ensures At(env, l, Tokens(e) + rest, depth) == Answer(Allowed(env, e, depth), rest)
    decreases e, 4 - l, 1
  {
    if l < 3 {
      LoopIsReached(env, l, e, rest, depth);
    } else {
      SignIsComplete(env, e, rest, depth);
    }
  }

  lemma AllowedBin(env: Env, op: Op, x: Expr, y: Expr, depth: nat)
    ensures Allowed(env, Bin(op, x, y), depth) ==
      match Allowed(env, x, depth)
      case None => None
      case Some(a) =>
        match Allowed(env, y, depth)
        case None => None
        case Some(b) => Apply(op, a, b)
  {
    hide Apply;
  }

  lemma {:induction false} LoopIsReached(env: Env, l: Level, e: Expr, rest: seq<Token>, depth: nat)
    requires l < 3 && Fits(e, l) && Stops(l + 1, rest) && depth <= MAX_DEPTH
    ensures At(env, l, Tokens(e) + rest, depth) == Continued(env, l, Allowed(env, e, depth), rest, depth)
    decreases e, 4 - l, 0
  {
    if e.Bin? && LevelOf(e.op) == l {
      hide Apply, Allowed;
      AllowedBin(env, e.op, e.l, e.r, depth);
      var tail := [Sym(e.op)] + (Tokens(e.r) + rest);
      assert Tokens(e) + rest == Tokens(e.l) + tail;
      LoopIsReached(env, l, e.l, tail, depth);
      AtIsComplete(env, l + 1, e.r, rest, depth);
      assert tail[1..] == Tokens(e.r) + rest;
    } else {
      AtIsComplete(env, l + 1, e, rest, depth);
    }
  }

  lemma {:induction false} SignIsComplete(env: Env, e: Expr, rest: seq<Token>, depth: nat)
    requires Fits(e, 3) && depth <= MAX_DEPTH
    ensures At(env, 3, Tokens(e) + rest, depth) == Answer(Allowed(env, e, depth), rest)
    decreases e, 0, 0
  {
    var ts := Tokens(e) + rest;
    match e
    case Lit(v) => assert ts[1..] == rest;
    case Var(n) => assert ts[1..] == rest;
    case Neg(x) =>
      assert ts[1..] == Tokens(x) + rest;
      AtIsComplete(env, 3, x, rest, depth);
    case Pos(x) =>
      assert ts[1..] == Tokens(x) + rest;
      AtIsComplete(env, 3, x, rest, depth);
    case Paren(x) => ParenIsComplete(env, x, rest, depth);
  }

  lemma {:induction false} ParenIsComplete(env: Env, x: Expr, rest: seq<Token>, depth: nat)
    requires Fits(x, 0) && depth <= MAX_DEPTH
    ensures At(env, 3, Tokens(Paren(x)) + rest, depth) == Answer(Allowed(env, Paren(x), depth), rest)
    decreases x, 5, 0
  {
    var ts := Tokens(Paren(x)) + rest;
    assert ts[1..] == Tokens(x) + ([RParen] + rest);
    if depth < MAX_DEPTH {
      AtIsComplete(env, 0, x, [RParen] + rest, depth + 1);
      assert ([RParen] + rest)[1..] == rest;
    }
  }

  // ---- The evaluator and the grammar --------------------------------------------------------------------

  /** The tokens of an expression evaluate to its meaning, or to nothing when a division in it has none or it
      nests too deep. */
  lemma ExpressionEvaluates(env: Env, e: Expr)
    requires Fits(e, 0)
    ensures EvalTokens(env, Tokens(e)) == Allowed(env, e, 0)
  {
    AtIsComplete(env, 0, e, [], 0);
    assert Tokens(e) + [] == Tokens(e);
  }

  /** A value is returned exactly for the tokens of an expression within the nesting cap, and it is the
      expression's. */
  lemma EvalIsGrammar(env: Env, ts: seq<Token>, v: int)
    requires NumbersFit(ts)
    ensures EvalTokens(env, ts) == Some(v) <==>
      exists e :: IsComparison(e) && Tokens(e) == ts && Nesting(e) <= MAX_DEPTH && Meaning(env, e) == Some(v)
  {
    hide IsComparison;
    if EvalTokens(env, ts) == Some(v) {
      var e := AtIsSound(env, 0, ts, 0);
      assert Tokens(e) + [] == Tokens(e);
      FitsIff(e);
      assert IsComparison(e) && Tokens(e) == ts && Nesting(e) <= MAX_DEPTH && Meaning(env, e) == Some(v);
    }
    forall e | IsComparison(e) && Tokens(e) == ts && Nesting(e) <= MAX_DEPTH && Meaning(env, e) == Some(v)
      ensures EvalTokens(env, ts) == Some(v)
    {
      FitsIff(e);
      ExpressionEvaluates(env, e);
    }
  }

  // ---- The parser object --------------------------------------------------------------------------------

  class Parser {
    const tokens: seq<Token>
    const env: Env
    var pos: nat
    var depth: nat

    constructor (tokens: seq<Token>, env: Env)
      ensures this.tokens == tokens && this.env == env && pos == 0 && depth == 0
    {
      this.tokens, this.env := tokens, env;
      pos, depth := 0, 0;
    }

    /** The method returned what the function says, and on success stopped where the function does. */
    ghost predicate Agrees(p: Parse, r: Option<int>)
      reads this
    {
      && pos <= |tokens|
      && (match p
          case Done(v, rest) => r == Some(v) && tokens[pos..] == rest
          case Fail => r == None)
    }

    method EatAny(l: Level) returns (op: Option<Op>)
      requires pos <= |tokens|
      modifies this`pos
      ensures pos <= |tokens|
      ensures
        var ts := tokens[old(pos)..];
        if ts == [] || !ts[0].Sym? || LevelOf(ts[0].op) != l then op == None && pos == old(pos)
        else op == Some(ts[0].op) && pos == old(pos) + 1 && tokens[pos..] == ts[1..]
    {
      if pos < |tokens| && tokens[pos].Sym? && LevelOf(tokens[pos].op) == l {
        op := Some(tokens[pos].op);
        pos := pos + 1;
      } else {
        op := None;
      }
    }

    method Eat(t: Token) returns (ok: bool)
      requires pos <= |tokens|
      modifies this`pos
      ensures pos <= |tokens|
      ensures
        var ts := tokens[old(pos)..];
        if ts != [] && ts[0] == t then ok && pos == old(pos) + 1 && tokens[pos..] == ts[1..]
        else !ok && pos == old(pos)
    {
      ok := pos < |tokens| && tokens[pos] == t;
      if ok {
        pos := pos + 1;
      }
    }

    method Comparison() returns (r: Option<int>)
      requires pos <= |tokens|
      modifies this`pos, this`depth
      ensures Agrees(At(env, 0, tokens[old(pos)..], old(depth)), r) && depth == old(depth) && old(pos) <= pos
      decreases |tokens| - pos, 4
    {
      ghost var whole := At(env, 0, tokens[pos..], depth);
      var left := Additive();
      if left.None? {
        return None;
      }
      while true
        invariant old(pos) < pos <= |tokens| && depth == old(depth) && left.Some?
        invariant Loop(env, 0, left.value, tokens[pos..], depth) == whole
        decreases |tokens| - pos
      {
        var op := EatAny(0);
        if op.None? {
          return left;
        }
        var right := Additive();
        if right.None? {
          return None;
        }
        left := Apply(op.value, left.value, right.value);
        if left.None? {
          return None;
        }
      }
    }

    method Additive() returns (r: Option<int>)
      requires pos <= |tokens|
      modifies this`pos, this`depth
      ensures Agrees(At(env, 1, tokens[old(pos)..], old(depth)), r) && depth == old(depth) && old(pos) <= pos
      decreases |tokens| - pos, 3
    {
      ghost var whole := At(env, 1, tokens[pos..], depth);
      var left := Multiplicative();
      if left.None? {
        return None;
      }
      while true
        invariant old(pos) < pos <= |tokens| && depth == old(depth) && left.Some?
        invariant Loop(env, 1, left.value, tokens[pos..], depth) == whole
        decreases |tokens| - pos
      {
        var op := EatAny(1);
        if op.None? {
          return left;
        }
        var right := Multiplicative();
        if right.None? {
          return None;
        }
        left := Apply(op.value, left.value, right.value);
        if left.None? {
          return None;
        }
      }
    }

    method Multiplicative() returns (r: Option<int>)
      requires pos <= |tokens|
      modifies this`pos, this`depth
      ensures Agrees(At(env, 2, tokens[old(pos)..], old(depth)), r) && depth == old(depth) && old(pos) <= pos
      decreases |tokens| - pos, 2
    {
      ghost var whole := At(env, 2, tokens[pos..], depth);
      var left := Unary();
      if left.None? {
        return None;
      }
      while true
        invariant old(pos) < pos <= |tokens| && depth == old(depth) && left.Some?
        invariant Loop(env, 2, left.value, tokens[pos..], depth) == whole
        decreases |tokens| - pos
      {
        var op := EatAny(2);
        if op.None? {
          return left;
        }
        var right := Unary();
        if right.None? {
          return None;
        }
        left := Apply(op.value, left.value, right.value);
        if left.None? {
          return None;
        }
      }
    }

    method Unary() returns (r: Option<int>)
      requires pos <= |tokens|
      modifies this`pos, this`depth
      ensures Agrees(At(env, 3, tokens[old(pos)..], old(depth)), r) && depth == old(depth) && old(pos) <= pos
      decreases |tokens| - pos, 1
    {
      var minus := Eat(Sym(Minus));
      if minus {
        r := Unary();
        return if r.Some? then Some(Wrapped(-r.value)) else None;
      }
      var plus := Eat(Sym(Plus));
      if plus {
        r := Unary();
        return;
      }
      r := Primary();
    }

    method Primary() returns (r: Option<int>)
      requires pos <= |tokens|
      modifies this`pos, this`depth
      ensures Agrees(PrimaryAt(env, tokens[old(pos)..], old(depth)), r)
      ensures depth == old(depth) && old(pos) <= pos
      decreases |tokens| - pos, 0
    {
      var open := Eat(LParen);
      if open {
        if depth >= MAX_DEPTH {
          return None;
        }
        depth := depth + 1;
        var value := Comparison();
        depth := depth - 1;
        if value.None? {
          return None;
        }
        var closed := Eat(RParen);
        return if closed then value else None;
      }
      if pos == |tokens| {
        return None;
      }
      var token := tokens[pos];
      pos := pos + 1;
      match token {
        case Num(v) => r := Some(v);
        case Name(n) => r := Some(Variable(env, n));
        case _ => r := None;
      }
    }
  }

  method EvalList(env: Env, tokens: seq<Token>) returns (r: Option<int>)
    ensures r == EvalTokens(env, tokens)
  {
    var parser := new Parser(tokens, env);
    var value := parser.Comparison();
    r := if parser.pos == |tokens| then value else None;
  }
}
