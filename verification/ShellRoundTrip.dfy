/**
  Quoted words are data to every scanner of a command line, and the pieces a line is split into are what was
  written.
 */
module ShellRoundTrip {
  import opened Division
  import opened ShellQuoting
  import opened ShellScanners
  import opened Text
  import opened Wrappers

  // ---- Pieces rejoin and split no further ---------------------------------------------------------

  function Rejoined(segments: seq<Segment>): string {
    if segments == [] then ""
    else if |segments| == 1 then segments[0].text
    else segments[0].text + (OperatorText(segments[1].runIf) + Rejoined(segments[1..]))
  }

  lemma OperatorSplits(s: string)
    requires s != "" && Stops(Sequence, s, Bare, false)
    ensures s == OperatorText(Operator(s)) + AfterOperator(s)
  {
    hide Substituted;
  }

  lemma {:induction false} SegmentsRejoin(s: string, runIf: Separator)
    ensures var segments := Segments(s, runIf);
            segments != [] && segments[0].runIf == runIf && Rejoined(segments) == s
    decreases |s|
  {
    hide Cut, AfterOperator, Stops, OperatorText, Operator;
    var n := Cut(Sequence, s, Bare, false);
    CutStops(Sequence, s, Bare, false);
    if n < |s| {
      OperatorSplits(s[n..]);
      var rest := Segments(AfterOperator(s[n..]), Operator(s[n..]));
      SegmentsRejoin(AfterOperator(s[n..]), Operator(s[n..]));
      assert Segments(s, runIf)[1..] == rest;
      assert s == s[..n] + s[n..];
    }
  }

  lemma {:induction false} SegmentsResplit(s: string, runIf: Separator)
    ensures forall g :: g in Segments(s, runIf) ==> Segments(g.text, Always) == [Segment(Always, g.text)]
    decreases |s|
  {
    hide Cut, AfterOperator, Stops, Operator;
    var n := Cut(Sequence, s, Bare, false);
    CutStops(Sequence, s, Bare, false);
    CutAgain(Sequence, s, Bare, false);
    LastSegment(s[..n], Always);
    if n < |s| {
      SegmentsResplit(AfterOperator(s[n..]), Operator(s[n..]));
    } else {
      assert s[..n] == s;
    }
  }

  function Piped(stages: seq<string>): string {
    if stages == [] then ""
    else if |stages| == 1 then stages[0]
    else stages[0] + ("|" + Piped(stages[1..]))
  }

  lemma {:induction false} StagesRejoin(s: string)
    ensures Stages(s) != [] && Piped(Stages(s)) == s
    decreases |s|
  {
    hide Cut, Substituted;
    var n := Cut(Pipe, s, Bare, false);
    CutStops(Pipe, s, Bare, false);
    if n < |s| {
      StagesRejoin(s[n + 1..]);
      assert Stages(s)[1..] == Stages(s[n + 1..]);
      assert s[n..][0] == '|';
      assert s == s[..n] + ("|" + s[n + 1..]);
    }
  }

  lemma {:induction false} StagesResplit(s: string)
    ensures forall t :: t in Stages(s) ==> Stages(t) == [t]
    decreases |s|
  {
    hide Cut;
    var n := Cut(Pipe, s, Bare, false);
    CutAgain(Pipe, s, Bare, false);
    LastStage(s[..n]);
    if n < |s| {
      StagesResplit(s[n + 1..]);
    } else {
      assert s[..n] == s;
    }
  }

  /** A line whose comment was cut off has none. */
  lemma CommentIsGone(line: string)
    ensures var kept := line[..Cut(Comment, line, Bare, true)]; Cut(Comment, kept, Bare, true) == |kept|
  {
    CutAgain(Comment, line, Bare, true);
  }

  // ---- Quoted words -------------------------------------------------------------------------------

  /** The three ways to quote. */
  datatype Style = Single | Double | Backslash

  /** A word, and how it is written. */
  datatype Spelling = Spelling(word: string, style: Style)

  /** `w` with each single quote closed, escaped and opened again. */
  function Escaped(w: string): string {
    if w == "" then "" else (if w[0] == '\'' then "'\\''" else [w[0]]) + Escaped(w[1..])
  }

  /** `w` with a backslash before what double quotes leave special: dollar, backtick, double quote, backslash. */
  function DoubleEscaped(w: string): string {
    if w == "" then ""
    else (if w[0] == '$' || w[0] == '`' || w[0] == '"' || w[0] == '\\' then ['\\', w[0]] else [w[0]]) + DoubleEscaped(w[1..])
  }

  /** `w` with a backslash before every character. */
  function Backslashed(w: string): string {
    if w == "" then "" else ['\\', w[0]] + Backslashed(w[1..])
  }

  function Quoted(x: Spelling): (s: string)
    ensures s != "" && IsQuoting(s[0])
  {
    match x.style
    case Single => "'" + (Escaped(x.word) + "'")
    case Double => "\"" + (DoubleEscaped(x.word) + "\"")
    case Backslash => if x.word == "" then "''" else Backslashed(x.word)
  }

  function Line(ws: seq<Spelling>): string {
    if ws == [] then "" else if |ws| == 1 then Quoted(ws[0]) else Quoted(ws[0]) + (" " + Line(ws[1..]))
  }

  /** The words themselves. */
  function Plain(ws: seq<Spelling>): seq<string> {
    if ws == [] then [] else [ws[0].word] + Plain(ws[1..])
  }

  /** Inside single quotes nothing is special. */
  lemma CutSingle(k: Kind, c: char, rest: string, edge: bool)
    requires c != '\''
    ensures Cut(k, [c] + rest, InSingle, edge) == 1 + Cut(k, rest, InSingle, false)
  {
    assert ([c] + rest)[1..] == rest;
    CutUnfolds(k, [c] + rest, InSingle, edge);
    hide Cut, Substituted;
  }

  lemma CutEscapedQuote(k: Kind, rest: string, edge: bool)
    ensures Cut(k, "'\\''" + rest, InSingle, edge) == 4 + Cut(k, rest, InSingle, false)
  {
    hide Cut;
    var s := "'\\''" + rest;
    CutUnfolds(k, s, InSingle, edge);
    assert s[1..] == "\\''" + rest && s[1..][2..] == "'" + rest && s[1..][2..][1..] == rest;
    CutUnfolds(k, s[1..], Bare, false);
    CutUnfolds(k, s[1..][2..], Bare, false);
  }

  lemma {:induction false} EscapedPassed(k: Kind, w: string, rest: string, edge: bool)
    ensures Cut(k, Escaped(w) + ("'" + rest), InSingle, edge) == |Escaped(w)| + 1 + Cut(k, rest, Bare, false)
    decreases |w|
  {
    hide Cut;
    var end := "'" + rest;
    if w == "" {
      assert Escaped(w) + end == end && end[1..] == rest;
      CutUnfolds(k, end, InSingle, edge);
    } else {
      var head := if w[0] == '\'' then "'\\''" else [w[0]];
      ConcatAssoc(head, Escaped(w[1..]), end);
      if w[0] == '\'' {
        CutEscapedQuote(k, Escaped(w[1..]) + end, edge);
      } else {
        CutSingle(k, w[0], Escaped(w[1..]) + end, edge);
      }
      EscapedPassed(k, w[1..], rest, false);
    }
  }

  /** Inside double quotes an escaped character is passed as two, and any other as one. */
  lemma CutDouble(k: Kind, c: char, rest: string, edge: bool)
    ensures Cut(k, ['\\', c] + rest, InDouble, edge) == 2 + Cut(k, rest, InDouble, false)
    ensures c != '$' && c != '`' && c != '"' && c != '\\' ==> Cut(k, [c] + rest, InDouble, edge) == 1 + Cut(k, rest, InDouble, false)
  {
    hide Cut, Backtick, Closing;
    assert (['\\', c] + rest)[2..] == rest && ([c] + rest)[1..] == rest;
    CutUnfolds(k, ['\\', c] + rest, InDouble, edge);
    CutUnfolds(k, [c] + rest, InDouble, edge);
  }

  lemma {:induction false} DoublePassed(k: Kind, w: string, rest: string, edge: bool)
    ensures Cut(k, DoubleEscaped(w) + ("\"" + rest), InDouble, edge) == |DoubleEscaped(w)| + 1 + Cut(k, rest, Bare, false)
    decreases |w|
  {
    hide Cut;
    var end := "\"" + rest;
    if w == "" {
      assert DoubleEscaped(w) + end == end && end[1..] == rest;
      CutUnfolds(k, end, InDouble, edge);
    } else {
      var tail := DoubleEscaped(w[1..]) + end;
      ConcatAssoc(['\\', w[0]], DoubleEscaped(w[1..]), end);
      ConcatAssoc([w[0]], DoubleEscaped(w[1..]), end);
      CutDouble(k, w[0], tail, edge);
      DoublePassed(k, w[1..], rest, false);
    }
  }

  lemma {:induction false} BackslashPassed(k: Kind, w: string, rest: string, edge: bool)
    ensures Cut(k, Backslashed(w) + rest, Bare, edge) == |Backslashed(w)| + Cut(k, rest, Bare, if w == "" then edge else false)
    decreases |w|
  {
    hide Cut;
    if w == "" {
      assert Backslashed(w) + rest == rest;
    } else {
      var tail := Backslashed(w[1..]) + rest;
      ConcatAssoc(['\\', w[0]], Backslashed(w[1..]), rest);
      CutBackslash(k, w[0], tail, edge);
      BackslashPassed(k, w[1..], rest, false);
    }
  }

  lemma CutBackslash(k: Kind, c: char, rest: string, edge: bool)
    ensures Cut(k, ['\\', c] + rest, Bare, edge) == 2 + Cut(k, rest, Bare, false)
  {
    hide Cut;
    assert (['\\', c] + rest)[2..] == rest;
    CutUnfolds(k, ['\\', c] + rest, Bare, edge);
  }

  lemma SinglePassed(k: Kind, w: string, rest: string, edge: bool)
    ensures var s := "'" + (Escaped(w) + "'"); Cut(k, s + rest, Bare, edge) == |s| + Cut(k, rest, Bare, false)
  {
    hide Cut;
    var s := "'" + (Escaped(w) + "'") + rest;
    assert s == "'" + (Escaped(w) + ("'" + rest));
    assert s[1..] == Escaped(w) + ("'" + rest);
    CutUnfolds(k, s, Bare, edge);
    EscapedPassed(k, w, rest, false);
  }

  /** A scanner steps over a quoted word, and no word may start right behind it. */
  lemma QuotedPassed(k: Kind, x: Spelling, rest: string, edge: bool)
    ensures Cut(k, Quoted(x) + rest, Bare, edge) == |Quoted(x)| + Cut(k, rest, Bare, false)
  {
    hide Cut, Escaped, DoubleEscaped, Backslashed;
    match x.style
    case Single => SinglePassed(k, x.word, rest, edge);
    case Double =>
      var s := Quoted(x) + rest;
      assert s == "\"" + (DoubleEscaped(x.word) + ("\"" + rest));
      assert s[1..] == DoubleEscaped(x.word) + ("\"" + rest);
      CutUnfolds(k, s, Bare, edge);
      DoublePassed(k, x.word, rest, false);
    case Backslash =>
      if x.word == "" {
        NothingEscaped();
        SinglePassed(k, "", rest, edge);
      } else {
        BackslashPassed(k, x.word, rest, edge);
      }
  }

  lemma NothingEscaped()
    ensures "'" + (Escaped("") + "'") == "''"
  {
  }

  /** Only a `#` cares whether a word starts. */
  lemma EdgeOnlyAtHash(k: Kind, s: string, edge: bool)
    requires s == "" || s[0] != '#'
    ensures Cut(k, s, Bare, edge) == Cut(k, s, Bare, false)
  {
  }

  lemma {:induction false} LinePassed(k: Kind, ws: seq<Spelling>, rest: string, edge: bool)
    requires k != Word && ws != []
    ensures Cut(k, Line(ws) + rest, Bare, edge) == |Line(ws)| + Cut(k, rest, Bare, false)
    decreases |ws|
  {
    hide Cut, Quoted, Substituted;
    if |ws| == 1 {
      QuotedPassed(k, ws[0], rest, edge);
    } else {
      var tail := Line(ws[1..]) + rest;
      assert Line(ws) + rest == Quoted(ws[0]) + (" " + tail);
      QuotedPassed(k, ws[0], " " + tail, edge);
      LineBegins(ws[1..]);
      SpacePassed(k, tail);
      LinePassed(k, ws[1..], rest, false);
    }
  }

  lemma SpacePassed(k: Kind, tail: string)
    requires k != Word && (tail == "" || tail[0] != '#')
    ensures Cut(k, " " + tail, Bare, false) == 1 + Cut(k, tail, Bare, false)
  {
    hide Cut;
    CutUnfolds(k, " " + tail, Bare, false);
    assert (" " + tail)[1..] == tail;
    EdgeOnlyAtHash(k, tail, true);
  }

  lemma LineBegins(ws: seq<Spelling>)
    requires ws != []
    ensures Line(ws) != "" && IsQuoting(Line(ws)[0])
  {
    hide Escaped;
  }

  // ---- Words come back ----------------------------------------------------------------------------

  lemma {:induction false} EscapedReads(w: string, rest: string, cur: string)
    ensures Words(Escaped(w) + ("'" + rest), cur, true, InSingle) == Words(rest, cur + w, true, Bare)
    decreases |w|
  {
    hide Words, IsWhitespace;
    var end := "'" + rest;
    if w == "" {
      assert Escaped(w) + end == end && end[1..] == rest && cur + w == cur;
      WordsTurn(end, cur, true, InSingle);
    } else {
      var tail := Escaped(w[1..]) + end;
      EscapedReads(w[1..], rest, cur + [w[0]]);
      ConcatAssoc(cur, [w[0]], w[1..]);
      assert [w[0]] + w[1..] == w;
      if w[0] == '\'' {
        ConcatAssoc("'\\''", Escaped(w[1..]), end);
        WordsOfEscapedQuote(tail, cur);
      } else {
        ConcatAssoc([w[0]], Escaped(w[1..]), end);
        assert ([w[0]] + tail)[1..] == tail;
        WordsTurn([w[0]] + tail, cur, true, InSingle);
      }
    }
  }

  lemma WordsOfEscapedQuote(tail: string, cur: string)
    ensures Words("'\\''" + tail, cur, true, InSingle) == Words(tail, cur + ['\''], true, InSingle)
  {
    hide Words, IsWhitespace;
    var s := "'\\''" + tail;
    assert s[1..] == "\\''" + tail && s[1..][2..] == "'" + tail && s[1..][2..][1..] == tail;
    WordsTurn(s, cur, true, InSingle);
    WordsTurn(s[1..], cur, true, Bare);
    WordsTurn(s[1..][2..], cur + ['\''], true, Bare);
  }

  lemma SingleReads(w: string, rest: string)
    ensures Words("'" + (Escaped(w) + "'") + rest, "", false, Bare) == Words(rest, w, true, Bare)
  {
    hide Words, IsWhitespace;
    var s := "'" + (Escaped(w) + "'") + rest;
    assert s == "'" + (Escaped(w) + ("'" + rest));
    assert s[1..] == Escaped(w) + ("'" + rest);
    WordsTurn(s, "", false, Bare);
    EscapedReads(w, rest, "");
    assert "" + w == w;
  }

  lemma {:induction false} DoubleReads(w: string, rest: string, cur: string)
    ensures Words(DoubleEscaped(w) + ("\"" + rest), cur, true, InDouble) == Words(rest, cur + w, true, Bare)
    decreases |w|
  {
    hide Words, IsWhitespace;
    var end := "\"" + rest;
    if w == "" {
      assert DoubleEscaped(w) + end == end && end[1..] == rest && cur + w == cur;
      WordsTurn(end, cur, true, InDouble);
    } else {
      var tail := DoubleEscaped(w[1..]) + end;
      DoubleReads(w[1..], rest, cur + [w[0]]);
      ConcatAssoc(cur, [w[0]], w[1..]);
      assert [w[0]] + w[1..] == w;
      ConcatAssoc(['\\', w[0]], DoubleEscaped(w[1..]), end);
      ConcatAssoc([w[0]], DoubleEscaped(w[1..]), end);
      assert (['\\', w[0]] + tail)[2..] == tail && ([w[0]] + tail)[1..] == tail;
      WordsTurn(['\\', w[0]] + tail, cur, true, InDouble);
      WordsTurn([w[0]] + tail, cur, true, InDouble);
    }
  }

  lemma {:induction false} BackslashReads(w: string, rest: string, cur: string, has: bool)
    requires w != "" || has
    ensures Words(Backslashed(w) + rest, cur, has, Bare) == Words(rest, cur + w, true, Bare)
    decreases |w|
  {
    hide Words, IsWhitespace;
    if w == "" {
      assert Backslashed(w) + rest == rest && cur + w == cur;
    } else {
      var tail := Backslashed(w[1..]) + rest;
      ConcatAssoc(['\\', w[0]], Backslashed(w[1..]), rest);
      assert (['\\', w[0]] + tail)[2..] == tail;
      WordsTurn(['\\', w[0]] + tail, cur, has, Bare);
      BackslashReads(w[1..], rest, cur + [w[0]], true);
      ConcatAssoc(cur, [w[0]], w[1..]);
      assert [w[0]] + w[1..] == w;
    }
  }

  lemma QuotedReads(x: Spelling, rest: string)
    ensures Words(Quoted(x) + rest, "", false, Bare) == Words(rest, x.word, true, Bare)
  {
    hide Words, IsWhitespace, Escaped, DoubleEscaped, Backslashed;
    assert "" + x.word == x.word;
    match x.style
    case Single => SingleReads(x.word, rest);
    case Double =>
      var s := Quoted(x) + rest;
      assert s == "\"" + (DoubleEscaped(x.word) + ("\"" + rest));
      assert s[1..] == DoubleEscaped(x.word) + ("\"" + rest);
      WordsTurn(s, "", false, Bare);
      DoubleReads(x.word, rest, "");
    case Backslash =>
      if x.word == "" {
        NothingEscaped();
        SingleReads("", rest);
      } else {
        BackslashReads(x.word, rest, "", false);
      }
  }

  lemma {:induction false} LineReads(ws: seq<Spelling>)
    ensures Words(Line(ws), "", false, Bare) == Plain(ws)
    decreases |ws|
  {
    hide Words, Quoted;
    if ws == [] {
      WordsNothing("", false, Bare);
    } else if |ws| == 1 {
      QuotedReads(ws[0], "");
      assert Quoted(ws[0]) + "" == Quoted(ws[0]);
      WordsNothing(ws[0].word, true, Bare);
      assert Plain(ws[1..]) == [];
    } else {
      var tail := Line(ws[1..]);
      QuotedReads(ws[0], " " + tail);
      assert (" " + tail)[1..] == tail;
      WordsTurn(" " + tail, ws[0].word, true, Bare);
      LineReads(ws[1..]);
    }
  }

  // ---- Redirections and here-documents ------------------------------------------------------------

  /** A step of the redirection scan over text that stays in the word it is in. */
  lemma RedirectStep(kept: string, word: string, plain: bool, s: string, q: Quote)
    requires s != "" && !Stops(Redirection, s, q, false)
    requires q != Bare || IsQuoting(s[0])
    ensures var h := Head(Redirection, s, q);
            Redirects(kept, word, plain, s, q) == Redirects(kept, word + s[..h.width], false, s[h.width..], h.quote)
  {
    hide Substituted, Starts, IsAsciiWhitespace;
  }

  lemma RedirectEscapedQuote(kept: string, word: string, plain: bool, rest: string)
    ensures Redirects(kept, word, plain, "'\\''" + rest, InSingle) == Redirects(kept, word + "'\\''", false, rest, InSingle)
  {
    hide Redirects;
    var s := "'\\''" + rest;
    assert s[1..] == "\\''" + rest && s[1..][2..] == "'" + rest && s[1..][2..][1..] == rest;
    RedirectStep(kept, word, plain, s, InSingle);
    RedirectStep(kept, word + s[..1], false, s[1..], Bare);
    RedirectStep(kept, word + s[..1] + s[1..][..2], false, s[1..][2..], Bare);
    assert word + s[..1] + s[1..][..2] + s[1..][2..][..1] == word + "'\\''";
  }

  lemma {:induction false} RedirectEscapedText(kept: string, word: string, plain: bool, w: string, rest: string)
    ensures Redirects(kept, word, plain, Escaped(w) + ("'" + rest), InSingle)
         == Redirects(kept, word + (Escaped(w) + "'"), false, rest, Bare)
    decreases |w|
  {
    hide Redirects;
    var end := "'" + rest;
    if w == "" {
      assert Escaped(w) + end == end && end[1..] == rest && Escaped(w) + "'" == "'";
      RedirectStep(kept, word, plain, end, InSingle);
      assert end[..1] == "'";
    } else {
      var head := if w[0] == '\'' then "'\\''" else [w[0]];
      var tail := Escaped(w[1..]) + end;
      ConcatAssoc(head, Escaped(w[1..]), end);
      ConcatAssoc(head, Escaped(w[1..]), "'");
      ConcatAssoc(word, head, Escaped(w[1..]) + "'");
      if w[0] == '\'' {
        RedirectEscapedQuote(kept, word, plain, tail);
      } else {
        assert ([w[0]] + tail)[..1] == [w[0]] && ([w[0]] + tail)[1..] == tail;
        RedirectStep(kept, word, plain, [w[0]] + tail, InSingle);
      }
      RedirectEscapedText(kept, word + head, false, w[1..], rest);
    }
  }

  lemma RedirectSingle(kept: string, word: string, plain: bool, w: string, rest: string)
    ensures var s := "'" + (Escaped(w) + "'");
      Redirects(kept, word, plain, s + rest, Bare) == Redirects(kept, word + s, false, rest, Bare)
  {
    hide Redirects;
    var s := "'" + (Escaped(w) + "'") + rest;
    assert s == "'" + (Escaped(w) + ("'" + rest)) && s[..1] == "'" && s[1..] == Escaped(w) + ("'" + rest);
    RedirectStep(kept, word, plain, s, Bare);
    RedirectEscapedText(kept, word + "'", false, w, rest);
    ConcatAssoc(word, "'", Escaped(w) + "'");
  }

  /** Two characters at once: a backslash and what it escapes. */
  lemma RedirectBackslash(kept: string, word: string, plain: bool, c: char, rest: string, q: Quote)
    requires q != InSingle
    ensures Redirects(kept, word, plain, ['\\', c] + rest, q) == Redirects(kept, word + ['\\', c], false, rest, q)
  {
    hide Redirects;
    var s := ['\\', c] + rest;
    assert s[..2] == ['\\', c] && s[2..] == rest;
    RedirectStep(kept, word, plain, s, q);
  }

  lemma {:induction false} RedirectDoubleText(kept: string, word: string, plain: bool, w: string, rest: string)
    ensures Redirects(kept, word, plain, DoubleEscaped(w) + ("\"" + rest), InDouble)
         == Redirects(kept, word + (DoubleEscaped(w) + "\""), false, rest, Bare)
    decreases |w|
  {
    hide Redirects;
    var end := "\"" + rest;
    if w == "" {
      assert DoubleEscaped(w) + end == end && end[1..] == rest && DoubleEscaped(w) + "\"" == "\"" && end[..1] == "\"";
      RedirectStep(kept, word, plain, end, InDouble);
    } else {
      var head := if w[0] == '$' || w[0] == '`' || w[0] == '"' || w[0] == '\\' then ['\\', w[0]] else [w[0]];
      var tail := DoubleEscaped(w[1..]) + end;
      ConcatAssoc(head, DoubleEscaped(w[1..]), end);
      ConcatAssoc(head, DoubleEscaped(w[1..]), "\"");
      ConcatAssoc(word, head, DoubleEscaped(w[1..]) + "\"");
      if |head| == 2 {
        RedirectBackslash(kept, word, plain, w[0], tail, InDouble);
      } else {
        RedirectDoubleChar(kept, word, plain, w[0], tail);
      }
      RedirectDoubleText(kept, word + head, false, w[1..], rest);
    }
  }

  lemma RedirectDoubleChar(kept: string, word: string, plain: bool, c: char, rest: string)
    requires c != '$' && c != '`' && c != '"' && c != '\\'
    ensures Redirects(kept, word, plain, [c] + rest, InDouble) == Redirects(kept, word + [c], false, rest, InDouble)
  {
    hide Redirects, Backtick, Closing;
    var s := [c] + rest;
    assert s[..1] == [c] && s[1..] == rest;
    RedirectStep(kept, word, plain, s, InDouble);
  }

  lemma {:induction false} RedirectBackslashText(kept: string, word: string, plain: bool, w: string, rest: string)
    requires w != "" || !plain
    ensures Redirects(kept, word, plain, Backslashed(w) + rest, Bare) == Redirects(kept, word + Backslashed(w), false, rest, Bare)
    decreases |w|
  {
    hide Redirects;
    if w == "" {
      assert Backslashed(w) + rest == rest && word + Backslashed(w) == word;
    } else {
      var tail := Backslashed(w[1..]) + rest;
      ConcatAssoc(['\\', w[0]], Backslashed(w[1..]), rest);
      ConcatAssoc(word, ['\\', w[0]], Backslashed(w[1..]));
      RedirectBackslash(kept, word, plain, w[0], tail, Bare);
      RedirectBackslashText(kept, word + ['\\', w[0]], false, w[1..], rest);
    }
  }

  lemma RedirectQuoted(kept: string, word: string, plain: bool, x: Spelling, rest: string)
    ensures Redirects(kept, word, plain, Quoted(x) + rest, Bare) == Redirects(kept, word + Quoted(x), false, rest, Bare)
  {
    hide Redirects, Escaped, DoubleEscaped, Backslashed;
    match x.style
    case Single => RedirectSingle(kept, word, plain, x.word, rest);
    case Double =>
      var s := Quoted(x) + rest;
      assert s == "\"" + (DoubleEscaped(x.word) + ("\"" + rest)) && s[..1] == "\"" && s[1..] == DoubleEscaped(x.word) + ("\"" + rest);
      RedirectStep(kept, word, plain, s, Bare);
      RedirectDoubleText(kept, word + "\"", false, x.word, rest);
      ConcatAssoc(word, "\"", DoubleEscaped(x.word) + "\"");
    case Backslash =>
      if x.word == "" {
        NothingEscaped();
        RedirectSingle(kept, word, plain, "", rest);
      } else {
        RedirectBackslashText(kept, word, plain, x.word, rest);
      }
  }

  /** Behind quoted words the scan has them in its command text, and is in a word with quoting in it. */
  lemma {:induction false} RedirectLine(kept: string, ws: seq<Spelling>, rest: string) returns (before: string, word: string)
    requires ws != []
    ensures before + word == kept + Line(ws)
    ensures Redirects(kept, "", true, Line(ws) + rest, Bare) == Redirects(before, word, false, rest, Bare)
    decreases |ws|
  {
    hide Redirects, Quoted;
    assert "" + Quoted(ws[0]) == Quoted(ws[0]);
    if |ws| == 1 {
      RedirectQuoted(kept, "", true, ws[0], rest);
      before, word := kept, Quoted(ws[0]);
    } else {
      var tail := Line(ws[1..]) + rest;
      ConcatAssoc(Quoted(ws[0]), " " + Line(ws[1..]), rest);
      ConcatAssoc(" ", Line(ws[1..]), rest);
      RedirectQuoted(kept, "", true, ws[0], " " + tail);
      RedirectSpace(kept, Quoted(ws[0]), tail);
      before, word := RedirectLine(kept + Quoted(ws[0]) + " ", ws[1..], rest);
      ConcatAssoc(kept + Quoted(ws[0]), " ", Line(ws[1..]));
      ConcatAssoc(kept, Quoted(ws[0]), " " + Line(ws[1..]));
    }
  }

  lemma RedirectSpace(kept: string, word: string, tail: string)
    ensures Redirects(kept, word, false, " " + tail, Bare) == Redirects(kept + word + " ", "", true, tail, Bare)
  {
    assert (" " + tail)[1..] == tail && (" " + tail)[..1] == " ";
  }

  /** Quoted words are all command text. */
  lemma LineHasNoRedirects(ws: seq<Spelling>)
    ensures Redirects("", "", true, Line(ws), Bare) == Redirected(Line(ws), [])
  {
    if ws != [] {
      var before, word := RedirectLine("", ws, "");
      assert Line(ws) + "" == Line(ws) && "" + Line(ws) == Line(ws);
    }
  }

  function Arrow(append: bool): string {
    if append then ">>" else ">"
  }

  /** A redirection to a quoted file, behind quoted words. */
  lemma RedirectReads(ws: seq<Spelling>, file: Spelling, append: bool)
    ensures Redirects("", "", true, Line(ws) + (Arrow(append) + Quoted(file)), Bare)
         == Redirected(Line(ws), [Redirect(Stdout, File(Quoted(file), append))])
  {
    hide Redirects, Quoted, Arrow;
    var rest := Arrow(append) + Quoted(file);
    assert "" + Line(ws) == Line(ws);
    if ws == [] {
      assert Line(ws) + rest == rest;
      RedirectHere("", "", true, file, append);
    } else {
      var before, word := RedirectLine("", ws, rest);
      RedirectHere(before, word, false, file, append);
    }
  }

  lemma RedirectHere(before: string, word: string, plain: bool, file: Spelling, append: bool)
    requires plain ==> Descriptor(word).None?
    ensures Redirects(before, word, plain, Arrow(append) + Quoted(file), Bare)
         == Redirected(before + word, [Redirect(Stdout, File(Quoted(file), append))])
  {
    hide Quoted, Aimed;
    var rest := Arrow(append) + Quoted(file);
    var s := rest[1..];
    assert s == (if append then ">" else "") + Quoted(file);
    QuotedIsAimedAt(file, append);
    assert rest[1 + |s|..] == "" && before + word + "" == before + word;
    assert Stops(Redirection, rest, Bare, false);
  }

  lemma NoBlank(s: string)
    requires s != "" && IsQuoting(s[0])
    ensures BlankRun(s) == 0
  {
  }

  lemma QuotedIsAimedAt(file: Spelling, append: bool)
    ensures var s := (if append then ">" else "") + Quoted(file);
            Aimed(s) == Aim(File(Quoted(file), append), |s|)
  {
    hide Cut, Aimed, Quoted;
    QuotedIsOneWord(file);
    assert Quoted(file) + "" == Quoted(file);
    AimedFile((if append then ">" else "") + Quoted(file), append, Quoted(file), "");
  }

  /** A quoted file right behind the arrow, with something else after it. */
  lemma AimedFile(s: string, append: bool, word: string, rest: string)
    requires word != "" && IsQuoting(word[0]) && Cut(Word, word + rest, Bare, false) == |word|
    requires s == (if append then ">" else "") + (word + rest)
    ensures Aimed(s) == Aim(File(word, append), (if append then 1 else 0) + |word|)
  {
    hide Cut, BlankRun, DigitRun;
    var j := if append then 1 else 0;
    NoBlank(word + rest);
    assert s[j..] == word + rest && s[j + 0..] == word + rest && s[j..j + |word|] == word;
    assert s[0] != '&' && (s[0] == '>' <==> append);
  }

  lemma QuotedIsOneWord(x: Spelling)
    ensures Cut(Word, Quoted(x), Bare, false) == |Quoted(x)|
  {
    hide Cut;
    assert Quoted(x) + "" == Quoted(x);
    QuotedPassed(Word, x, "", false);
    CutNothing(Word, Bare, false);
  }

  lemma {:induction false} EscapedUnquotes(w: string)
    ensures Unquoted(Escaped(w) + "'", InSingle) == w
    decreases |w|
  {
    hide Unquoted;
    if w == "" {
      assert Escaped(w) + "'" == "'" && "'"[1..] == "";
      UnquotedTurn("'", InSingle);
      UnquotedNothing(Bare);
    } else {
      var tail := Escaped(w[1..]) + "'";
      EscapedUnquotes(w[1..]);
      assert w == [w[0]] + w[1..];
      if w[0] == '\'' {
        var s := "'\\''" + tail;
        ConcatAssoc("'\\''", Escaped(w[1..]), "'");
        assert s[1..] == "\\''" + tail && s[1..][2..] == "'" + tail && s[1..][2..][1..] == tail;
        UnquotedTurn(s, InSingle);
        UnquotedTurn(s[1..], Bare);
        UnquotedTurn(s[1..][2..], Bare);
      } else {
        ConcatAssoc([w[0]], Escaped(w[1..]), "'");
        assert ([w[0]] + tail)[1..] == tail;
        UnquotedTurn([w[0]] + tail, InSingle);
      }
    }
  }

  lemma {:induction false} DoubleUnquotes(w: string)
    ensures Unquoted(DoubleEscaped(w) + "\"", InDouble) == w
    decreases |w|
  {
    hide Unquoted;
    if w == "" {
      assert DoubleEscaped(w) + "\"" == "\"" && "\""[1..] == "";
      UnquotedTurn("\"", InDouble);
      UnquotedNothing(Bare);
    } else {
      var tail := DoubleEscaped(w[1..]) + "\"";
      DoubleUnquotes(w[1..]);
      assert w == [w[0]] + w[1..];
      ConcatAssoc(['\\', w[0]], DoubleEscaped(w[1..]), "\"");
      ConcatAssoc([w[0]], DoubleEscaped(w[1..]), "\"");
      assert (['\\', w[0]] + tail)[2..] == tail && ([w[0]] + tail)[1..] == tail;
      UnquotedTurn(['\\', w[0]] + tail, InDouble);
      UnquotedTurn([w[0]] + tail, InDouble);
    }
  }

  lemma {:induction false} BackslashUnquotes(w: string)
    ensures Unquoted(Backslashed(w), Bare) == w
    decreases |w|
  {
    hide Unquoted;
    if w == "" {
      UnquotedNothing(Bare);
    } else {
      var tail := Backslashed(w[1..]);
      BackslashUnquotes(w[1..]);
      assert (['\\', w[0]] + tail)[2..] == tail && w == [w[0]] + w[1..];
      UnquotedTurn(['\\', w[0]] + tail, Bare);
    }
  }

  lemma SingleUnquotes(w: string)
    ensures Unquoted("'" + (Escaped(w) + "'"), Bare) == w
  {
    hide Unquoted;
    var s := "'" + (Escaped(w) + "'");
    EscapedUnquotes(w);
    assert s[1..] == Escaped(w) + "'";
    UnquotedTurn(s, Bare);
  }

  lemma QuotedUnquotes(x: Spelling)
    ensures Unquoted(Quoted(x), Bare) == x.word
  {
    hide Unquoted, Escaped, DoubleEscaped, Backslashed;
    match x.style
    case Single => SingleUnquotes(x.word);
    case Double =>
      DoubleUnquotes(x.word);
      assert Quoted(x)[1..] == DoubleEscaped(x.word) + "\"";
      UnquotedTurn(Quoted(x), Bare);
    case Backslash =>
      if x.word == "" {
        NothingEscaped();
        SingleUnquotes("");
      } else {
        BackslashUnquotes(x.word);
      }
  }

  function HereArrow(tabs: bool): string {
    if tabs then "<<-" else "<<"
  }

  /** A here-document with a quoted delimiter, behind quoted words: the delimiter is the word itself, and the
      body is taken literally. */
  lemma HeredocReads(ws: seq<Spelling>, delimiter: Spelling, tabs: bool)
    ensures HeredocOf(Line(ws) + (HereArrow(tabs) + Quoted(delimiter)))
         == Some(Opened(Heredoc(delimiter.word, tabs, false), Line(ws)))
  {
    hide Cut, Quoted, Opening, Stops, HeredocOf;
    var rest := HereArrow(tabs) + Quoted(delimiter);
    if ws == [] {
      assert Line(ws) + rest == rest;
    } else {
      LinePassed(HereDocument, ws, rest, false);
    }
    OpensHere(rest);
    DelimiterReads(delimiter, tabs);
    HereArrowRest(tabs, Quoted(delimiter));
    HeredocAt(Line(ws), rest, Heredoc(delimiter.word, tabs, false));
  }

  lemma HereArrowRest(tabs: bool, word: string)
    ensures (HereArrow(tabs) + word)[2..] == (if tabs then "-" else "") + word
  {
  }

  /** The scan stopped at `rest`, of which all but the operator is the delimiter. */
  lemma HeredocAt(before: string, rest: string, doc: Heredoc)
    requires |rest| > 2 && Cut(HereDocument, before + rest, Bare, false) == |before|
    requires Opening(rest[2..]) == Delimiter(doc, |rest| - 2)
    ensures HeredocOf(before + rest) == Some(Opened(doc, before))
  {
    hide Cut, Opening, Stops;
    var line, n := before + rest, |before|;
    assert line[n + 2..] == rest[2..] && line[..n] == before;
    assert line[n + 2 + (|rest| - 2)..] == "" && before + "" == before;
  }

  lemma OpensHere(rest: string)
    requires |rest| > 2 && rest[0] == '<' && rest[1] == '<' && rest[2] != '<'
    ensures Cut(HereDocument, rest, Bare, false) == 0
  {
  }

  lemma DelimiterReads(delimiter: Spelling, tabs: bool)
    ensures var s := (if tabs then "-" else "") + Quoted(delimiter);
            Opening(s) == Delimiter(Heredoc(delimiter.word, tabs, false), |s|)
  {
    hide Cut, Opening, Escaped, Unquoted;
    QuotedIsOneWord(delimiter);
    QuotedUnquotes(delimiter);
    WordIsDelimiter(Quoted(delimiter), tabs);
  }

  lemma WordIsDelimiter(word: string, tabs: bool)
    requires word != "" && IsQuoting(word[0]) && Cut(Word, word, Bare, false) == |word|
    ensures var s := (if tabs then "-" else "") + word;
            Opening(s) == Delimiter(Heredoc(Unquoted(word, Bare), tabs, false), |s|)
  {
    hide Cut, BlankRun, Unquoted, Opening;
    NoBlank(word);
    var s := (if tabs then "-" else "") + word;
    assert s[if tabs then 1 else 0..] == word;
    OpensAt(s, tabs, word);
  }

  /** The rest of the line is the delimiter. */
  lemma OpensAt(s: string, tabs: bool, word: string)
    requires Starts(s, '-', 1) == tabs && |s| == (if tabs then 1 else 0) + |word| && s[if tabs then 1 else 0..] == word
    requires word != "" && BlankRun(word) == 0 && Cut(Word, word, Bare, false) == |word|
    ensures Opening(s)
         == Delimiter(Heredoc(Unquoted(word, Bare), tabs, word[0] != '\'' && word[0] != '"' && '\\' !in word), |s|)
  {
    hide Cut, BlankRun, Unquoted, Starts;
    var j := if tabs then 1 else 0;
    assert s[j..j + |word|] == word && s[j + 0..] == word;
  }

  // ---- Whole scripts ------------------------------------------------------------------------------

  /** One pipeline of a compound line: the commands it is made of, each a list of words. */
  datatype Pipeline = Pipeline(runIf: Separator, commands: seq<seq<string>>)

  /** The same as it is typed. */
  datatype Typed = Typed(runIf: Separator, commands: seq<seq<Spelling>>)

  function PlainCommands(commands: seq<seq<Spelling>>): seq<seq<string>> {
    if commands == [] then [] else [Plain(commands[0])] + PlainCommands(commands[1..])
  }

  function PlainScript(script: seq<Typed>): seq<Pipeline> {
    if script == [] then [] else [Pipeline(script[0].runIf, PlainCommands(script[0].commands))] + PlainScript(script[1..])
  }

  predicate Written(commands: seq<seq<Spelling>>) {
    commands != [] && forall k :: 0 <= k < |commands| ==> commands[k] != []
  }

  predicate AllWritten(script: seq<Typed>) {
    forall k :: 0 <= k < |script| ==> Written(script[k].commands)
  }

  function Lines(commands: seq<seq<Spelling>>): seq<string> {
    if commands == [] then [] else [Line(commands[0])] + Lines(commands[1..])
  }

  function PipelineText(commands: seq<seq<Spelling>>): string {
    Piped(Lines(commands))
  }

  /** The script as a line; the operator of the first pipeline is left out. */
  function ScriptText(script: seq<Typed>): string {
    if script == [] then ""
    else if |script| == 1 then PipelineText(script[0].commands)
    else PipelineText(script[0].commands) + (OperatorText(script[1].runIf) + ScriptText(script[1..]))
  }

  /** What the scanners make of a line: comment, segments, stages, redirections, words. */
  function StageWords(stages: seq<string>): Option<seq<seq<string>>> {
    if stages == [] then Some([])
    else
      var r, rest := Redirects("", "", true, stages[0], Bare), StageWords(stages[1..]);
      if r.Redirected? && r.redirects == [] && rest.Some? then Some([Words(r.command, "", false, Bare)] + rest.value)
      else None
  }

  function SegmentPipelines(segments: seq<Segment>): Option<seq<Pipeline>> {
    if segments == [] then Some([])
    else
      var commands, rest := StageWords(Stages(segments[0].text)), SegmentPipelines(segments[1..]);
      if commands.Some? && rest.Some? then Some([Pipeline(segments[0].runIf, commands.value)] + rest.value) else None
  }

  function FrontEnd(line: string): Option<seq<Pipeline>> {
    SegmentPipelines(Segments(line[..Cut(Comment, line, Bare, true)], Always))
  }

  lemma {:induction false} LinesRead(commands: seq<seq<Spelling>>)
    ensures StageWords(Lines(commands)) == Some(PlainCommands(commands))
    decreases |commands|
  {
    hide Redirects, Words, Line;
    if commands != [] {
      LineHasNoRedirects(commands[0]);
      LineReads(commands[0]);
      LinesRead(commands[1..]);
      assert Lines(commands)[1..] == Lines(commands[1..]);
    }
  }

  lemma PipelineBegins(commands: seq<seq<Spelling>>)
    requires Written(commands)
    ensures PipelineText(commands) != "" && IsQuoting(PipelineText(commands)[0])
    ensures PipelineText(commands) == if |commands| == 1 then Line(commands[0]) else Line(commands[0]) + ("|" + PipelineText(commands[1..]))
  {
    hide Line;
    LineBegins(commands[0]);
    assert |commands| > 1 ==> |Lines(commands[1..])| > 0 && Lines(commands)[1..] == Lines(commands[1..]);
  }

  /** A single `|` before a quoted word stops a scan for pipes and no other. */
  lemma PipePassed(k: Kind, rest: string)
    requires k != Word && rest != "" && IsQuoting(rest[0])
    ensures Cut(k, "|" + rest, Bare, false) == if k == Pipe then 0 else 1 + Cut(k, rest, Bare, false)
  {
    hide Cut;
    var s := "|" + rest;
    assert s[1..] == rest;
    CutUnfolds(k, s, Bare, false);
    EdgeOnlyAtHash(k, rest, true);
  }

  lemma {:induction false} PipelinePassed(k: Kind, commands: seq<seq<Spelling>>, rest: string, edge: bool)
    requires k != Word && k != Pipe && Written(commands)
    ensures Cut(k, PipelineText(commands) + rest, Bare, edge) == |PipelineText(commands)| + Cut(k, rest, Bare, false)
    decreases |commands|
  {
    hide Cut, Line, PipelineText;
    PipelineBegins(commands);
    if |commands| == 1 {
      LinePassed(k, commands[0], rest, edge);
    } else {
      var tail := PipelineText(commands[1..]) + rest;
      assert PipelineText(commands) + rest == Line(commands[0]) + ("|" + tail);
      PipelineBegins(commands[1..]);
      LinePassed(k, commands[0], "|" + tail, edge);
      PipePassed(k, tail);
      PipelinePassed(k, commands[1..], rest, false);
    }
  }

  lemma {:induction false} PipelineReads(commands: seq<seq<Spelling>>)
    requires Written(commands)
    ensures Stages(PipelineText(commands)) == Lines(commands)
    decreases |commands|
  {
    hide Cut, Line, PipelineText, Stages;
    PipelineBegins(commands);
    if |commands| == 1 {
      LineIsWhole(Pipe, commands[0], false);
      LastStage(Line(commands[0]));
      assert Lines(commands[1..]) == [];
    } else {
      var tail := PipelineText(commands[1..]);
      var s := PipelineText(commands);
      PipelineBegins(commands[1..]);
      LinePassed(Pipe, commands[0], "|" + tail, false);
      PipePassed(Pipe, tail);
      var n := |Line(commands[0])|;
      assert s[0..] == s && s[0..n] == Line(commands[0]) && s[n + 1..] == tail;
      StageEnds(s, 0, n);
      PipelineReads(commands[1..]);
    }
  }

  lemma LineIsWhole(k: Kind, ws: seq<Spelling>, edge: bool)
    requires k != Word
    ensures Cut(k, Line(ws), Bare, edge) == |Line(ws)|
  {
    hide Cut;
    CutNothing(k, Bare, edge);
    CutNothing(k, Bare, false);
    assert Line(ws) + "" == Line(ws);
    if ws != [] {
      LinePassed(k, ws, "", edge);
    }
  }

  /** An operator before a quoted word stops a scan for operators, and no scan for comments or here-documents. */
  lemma OperatorPassed(k: Kind, op: Separator, rest: string)
    requires k == Comment || k == HereDocument || k == Sequence
    requires rest != "" && IsQuoting(rest[0])
    ensures var s := OperatorText(op) + rest;
            Cut(k, s, Bare, false) == if k == Sequence then 0 else |OperatorText(op)| + Cut(k, rest, Bare, false)
    ensures var s := OperatorText(op) + rest; Operator(s) == op && s[|OperatorText(op)|..] == rest
  {
    hide Cut;
    var s := OperatorText(op) + rest;
    CutUnfolds(k, s, Bare, false);
    EdgeOnlyAtHash(k, rest, true);
    if op != Always {
      assert s[1..][1..] == rest;
      CutUnfolds(k, s[1..], Bare, true);
      EdgeOnlyAtHash(k, s[1..], true);
    }
  }

  lemma ScriptBegins(script: seq<Typed>)
    requires script != [] && AllWritten(script)
    ensures ScriptText(script) != "" && IsQuoting(ScriptText(script)[0])
  {
    hide PipelineText;
    assert Written(script[0].commands);
    PipelineBegins(script[0].commands);
  }

  /** No comment starts in a script of quoted words, and no here-document. */
  lemma {:induction false} ScriptIsWhole(k: Kind, script: seq<Typed>, edge: bool)
    requires (k == Comment || k == HereDocument) && AllWritten(script)
    ensures Cut(k, ScriptText(script), Bare, edge) == |ScriptText(script)|
    decreases |script|
  {
    hide Cut, PipelineText, OperatorText;
    CutNothing(k, Bare, edge);
    CutNothing(k, Bare, false);
    if script != [] {
      assert Written(script[0].commands);
      var text := PipelineText(script[0].commands);
      if |script| == 1 {
        assert text + "" == text;
        PipelinePassed(k, script[0].commands, "", edge);
      } else {
        var op, tail := script[1].runIf, ScriptText(script[1..]);
        PipelinePassed(k, script[0].commands, OperatorText(op) + tail, edge);
        ScriptBegins(script[1..]);
        OperatorPassed(k, op, tail);
        ScriptIsWhole(k, script[1..], false);
      }
    }
  }

  lemma {:induction false} SegmentsRead(script: seq<Typed>)
    requires script != [] && AllWritten(script)
    ensures SegmentPipelines(Segments(ScriptText(script), script[0].runIf)) == Some(PlainScript(script))
    decreases |script|
  {
    hide Cut, PipelineText, OperatorText, Segments, Stages, StageWords, Operator;
    assert Written(script[0].commands);
    var s, text := ScriptText(script), PipelineText(script[0].commands);
    PipelineReads(script[0].commands);
    LinesRead(script[0].commands);
    assert s[0..] == s;
    if |script| == 1 {
      assert text + "" == text;
      PipelinePassed(Sequence, script[0].commands, "", false);
      CutNothing(Sequence, Bare, false);
      LastSegment(s, script[0].runIf);
      assert [Segment(script[0].runIf, s)][1..] == [] && SegmentPipelines([]) == Some([]);
      assert PlainScript(script[1..]) == [];
    } else {
      var op, tail := script[1].runIf, ScriptText(script[1..]);
      PipelinePassed(Sequence, script[0].commands, OperatorText(op) + tail, false);
      ScriptBegins(script[1..]);
      OperatorPassed(Sequence, op, tail);
      var n := |text|;
      assert s[0..n] == text && s[n..] == OperatorText(op) + tail;
      SegmentEnds(s, 0, n, script[0].runIf);
      SliceTwice(s, n, |OperatorText(op)|, |OperatorText(op)|);
      SegmentsRead(script[1..]);
      SegmentsFirst(script[0], tail, op, PlainScript(script[1..]));
    }
  }

  lemma SegmentsFirst(p: Typed, tail: string, op: Separator, rest: seq<Pipeline>)
    requires SegmentPipelines(Segments(tail, op)) == Some(rest)
    requires StageWords(Stages(PipelineText(p.commands))) == Some(PlainCommands(p.commands))
    ensures SegmentPipelines([Segment(p.runIf, PipelineText(p.commands))] + Segments(tail, op))
         == Some([Pipeline(p.runIf, PlainCommands(p.commands))] + rest)
  {
    hide PipelineText, Segments, Stages, StageWords;
    var segments := [Segment(p.runIf, PipelineText(p.commands))] + Segments(tail, op);
    assert segments[1..] == Segments(tail, op);
  }

  /** A script written out with every word quoted in one of the three ways is read back as it was: the same pipelines on the
      same conditions, the same commands, the same words, whatever is in the words. */
  lemma ScriptRoundTrip(script: seq<Typed>)
    requires script != [] && AllWritten(script) && script[0].runIf == Always
    ensures FrontEnd(ScriptText(script)) == Some(PlainScript(script))
    ensures HeredocOf(ScriptText(script)) == None
  {
    hide Cut, ScriptText, Opening;
    var s := ScriptText(script);
    ScriptIsWhole(Comment, script, true);
    ScriptIsWhole(HereDocument, script, false);
    assert s[..|s|] == s;
    SegmentsRead(script);
  }

  /** A list of words, quoted, is one word list to every scanner. */
  lemma WordsRoundTrip(ws: seq<Spelling>)
    ensures var s := Line(ws);
            && s[..Cut(Comment, s, Bare, true)] == s && HeredocOf(s) == None
            && Segments(s, Always) == [Segment(Always, s)] && Stages(s) == [s]
            && Redirects("", "", true, s, Bare) == Redirected(s, []) && Words(s, "", false, Bare) == Plain(ws)
  {
    hide Cut, Line, Opening, Redirects, Words;
    var s := Line(ws);
    LineIsWhole(Comment, ws, true);
    LineIsWhole(HereDocument, ws, false);
    LineIsWhole(Sequence, ws, false);
    LineIsWhole(Pipe, ws, false);
    LastSegment(s, Always);
    LastStage(s);
    LineHasNoRedirects(ws);
    LineReads(ws);
    assert s[..|s|] == s;
  }
}
