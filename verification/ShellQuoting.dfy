/**
  What quoting, escapes and substitutions hide from the scanners of a raw command line (section 2.2 of the
  POSIX Shell Command Language), as one walk over the line shared by all of them.
 */
module ShellQuoting {
  import opened Text
  import opened Wrappers

  datatype Quote = Bare | InSingle | InDouble

  /** What a scanner looks for: `#` comments, the operators between commands, pipes, `>`, the end of a word,
      `<<`. */
  datatype Kind = Comment | Sequence | Pipe | Redirection | Word | HereDocument

  // ---- Substitutions ------------------------------------------------------------------------------

  /** A substitution at the head of a text: its width, and where its body is. */
  datatype Span = Span(width: nat, from: nat, to: nat, arithmetic: bool)

  function Shifted(n: nat, r: Option<nat>): Option<nat> {
    match r
    case Some(k) => Some(n + k)
    case None => None
  }

  /** Where the closing backtick is. */
  function Backtick(s: string): (r: Option<nat>)
    ensures r.Some? ==> r.value < |s|
  {
    if s == "" then None
    else if s[0] == '`' then Some(0)
    else if s[0] == '\\' then (if |s| == 1 then None else Shifted(2, Backtick(s[2..])))
    else Shifted(1, Backtick(s[1..]))
  }

  function Toggled(q: Quote, c: char): Quote {
    if c == '\'' then (if q == Bare then InSingle else if q == InSingle then Bare else q)
    else if c == '"' then (if q == Bare then InDouble else if q == InDouble then Bare else q)
    else q
  }

  /** Where the parenthesis is that closes the outermost of `depth` open ones. */
  function Closing(s: string, depth: nat, q: Quote): (r: Option<nat>)
    requires depth > 0
    ensures r.Some? ==> depth - 1 <= r.value < |s|
    decreases |s|
  {
    if s == "" then None
    else if s[0] == '\\' && q != InSingle then (if |s| == 1 then None else Shifted(2, Closing(s[2..], depth, q)))
    else if s[0] == '(' && q == Bare then Shifted(1, Closing(s[1..], depth + 1, q))
    else if s[0] == ')' && q == Bare then (if depth == 1 then Some(0) else Shifted(1, Closing(s[1..], depth - 1, q)))
    else Shifted(1, Closing(s[1..], depth, Toggled(q, s[0])))
  }

  function Substituted(s: string): (r: Option<Span>)
    ensures r.Some? ==> 0 < r.value.from <= r.value.to < r.value.width <= |s|
  {
    if s != "" && s[0] == '`' then
      match Backtick(s[1..])
      case Some(k) => Some(Span(k + 2, 1, k + 1, false))
      case None => None
    else if |s| >= 2 && s[0] == '$' && s[1] == '(' then
      match Closing(s[2..], 1, Bare)
      case Some(k) =>
        if |s| > 2 && s[2] == '(' then (ClosingTwice(s[2..]); Some(Span(k + 3, 3, k + 1, true)))
        else Some(Span(k + 3, 2, k + 2, false))
      case None => None
    else None
  }

  /** After `$((` the second closing parenthesis is past the first. */
  lemma ClosingTwice(s: string)
    requires s != "" && s[0] == '('
    ensures Closing(s, 1, Bare).Some? ==> Closing(s, 1, Bare).value >= 2
  {
    assert Closing(s, 1, Bare) == Shifted(1, Closing(s[1..], 2, Bare));
  }

  // ---- One step of a scan -------------------------------------------------------------------------

  /** How far a step goes, the quoting after it, and whether a word may start there. */
  datatype Step = Step(width: nat, quote: Quote, edge: bool)

  predicate IsQuoting(c: char) {
    c == '\\' || c == '\'' || c == '"'
  }

  predicate Starts(s: string, c: char, n: nat) {
    |s| >= n && forall k :: 0 <= k < n ==> s[k] == c
  }

  /** The head of `s` means itself. */
  predicate Live(s: string, q: Quote)
    requires s != ""
  {
    q == Bare && Substituted(s).None? && !IsQuoting(s[0])
  }

  function Head(k: Kind, s: string, q: Quote): (r: Step)
    requires s != ""
    ensures 0 < r.width <= |s|
  {
    if q != InSingle && Substituted(s).Some? then Step(Substituted(s).value.width, q, false)
    else if s[0] == '\\' && q != InSingle then Step(if |s| > 1 then 2 else 1, q, false)
    else if k == HereDocument && q == Bare && Starts(s, '<', 3) then Step(3, q, false)
    else Step(1, Toggled(q, s[0]), q == Bare && (s[0] == ';' || s[0] == '&' || s[0] == '|' || IsAsciiWhitespace(s[0])))
  }

  /** The scanner finds here what it looks for. */
  predicate Stops(k: Kind, s: string, q: Quote, edge: bool)
    requires s != ""
  {
    Live(s, q) &&
    match k
    case Comment => s[0] == '#' && edge
    case Sequence => s[0] == ';' || Starts(s, '&', 2) || Starts(s, '|', 2)
    case Pipe => s[0] == '|'
    case Redirection => s[0] == '>'
    case Word => s[0] == '>' || s[0] == '<' || IsAsciiWhitespace(s[0])
    case HereDocument => Starts(s, '<', 2) && !Starts(s, '<', 3)
  }

  /** How much of `s` comes before the first place the scanner stops at. */
  function Cut(k: Kind, s: string, q: Quote, edge: bool): (n: nat)
    ensures n <= |s|
    decreases |s|
  {
    if s == "" || Stops(k, s, q, edge) then 0
    else
      var h := Head(k, s, q);
      h.width + Cut(k, s[h.width..], h.quote, h.edge)
  }

  lemma CutUnfolds(k: Kind, s: string, q: Quote, edge: bool)
    requires s != ""
    ensures Cut(k, s, q, edge) ==
      if Stops(k, s, q, edge) then 0
      else Head(k, s, q).width + Cut(k, s[Head(k, s, q).width..], Head(k, s, q).quote, Head(k, s, q).edge)
  {
  }

  // ---- A scan of a prefix -------------------------------------------------------------------------

  function Within(r: Option<nat>, n: nat): Option<nat> {
    if r.Some? && r.value < n then r else None
  }

  lemma {:induction false} BacktickOfPrefix(p: string, t: string)
    ensures Backtick(p) == Within(Backtick(p + t), |p|)
  {
    var s := p + t;
    if p != "" && p[0] != '`' {
      var n := if p[0] == '\\' then 2 else 1;
      if n <= |p| {
        assert s[n..] == p[n..] + t;
        BacktickOfPrefix(p[n..], t);
      }
    }
  }

  lemma {:induction false} ClosingOfPrefix(p: string, t: string, depth: nat, q: Quote)
    requires depth > 0
    ensures Closing(p, depth, q) == Within(Closing(p + t, depth, q), |p|)
    decreases |p|
  {
    var s := p + t;
    if p == "" {
    } else if p[0] == '\\' && q != InSingle {
      if |p| > 1 {
        assert s[2..] == p[2..] + t;
        ClosingOfPrefix(p[2..], t, depth, q);
      }
    } else {
      assert s[1..] == p[1..] + t;
      if p[0] == '(' && q == Bare {
        ClosingOfPrefix(p[1..], t, depth + 1, q);
      } else if p[0] == ')' && q == Bare {
        if depth > 1 {
          ClosingOfPrefix(p[1..], t, depth - 1, q);
        }
      } else {
        ClosingOfPrefix(p[1..], t, depth, Toggled(q, p[0]));
      }
    }
  }

  /** Cutting a text short loses a substitution only when the cut goes through it. */
  lemma SubstitutedOfPrefix(p: string, t: string)
    ensures var r := Substituted(p + t); Substituted(p) == if r.Some? && r.value.width <= |p| then r else None
  {
    hide Backtick, Closing;
    var s := p + t;
    if p == "" {
    } else if p[0] == '`' {
      assert s[1..] == p[1..] + t;
      BacktickOfPrefix(p[1..], t);
    } else if p[0] == '$' && |p| >= 2 && p[1] == '(' {
      assert s[2..] == p[2..] + t;
      ClosingOfPrefix(p[2..], t, 1, Bare);
    }
  }

  lemma HeadOfPrefix(k: Kind, p: string, t: string, q: Quote, edge: bool)
    requires k != HereDocument && p != "" && !Stops(k, p + t, q, edge) && Head(k, p + t, q).width <= |p|
    ensures !Stops(k, p, q, edge) && Head(k, p, q) == Head(k, p + t, q)
  {
    hide Substituted;
    SubstitutedOfPrefix(p, t);
  }

  lemma CutNothing(k: Kind, q: Quote, edge: bool)
    ensures Cut(k, "", q, edge) == 0
  {
  }

  /** What comes before the first stop has no stop in it when it is scanned alone. */
  lemma {:induction false} CutAgain(k: Kind, s: string, q: Quote, edge: bool)
    requires k != HereDocument
    ensures var n := Cut(k, s, q, edge); Cut(k, s[..n], q, edge) == n
    decreases |s|
  {
    hide Stops, Head, Cut;
    if s == "" {
      CutNothing(k, q, edge);
    } else {
      CutUnfolds(k, s, q, edge);
      var n := Cut(k, s, q, edge);
      if Stops(k, s, q, edge) {
        CutNothing(k, q, edge);
        assert s[..n] == "";
      } else {
        var h := Head(k, s, q);
        CutAgain(k, s[h.width..], h.quote, h.edge);
        assert s == s[..n] + s[n..];
        HeadOfPrefix(k, s[..n], s[n..], q, edge);
        CutUnfolds(k, s[..n], q, edge);
        assert s[..n][h.width..] == s[h.width..][..n - h.width];
      }
    }
  }
}
