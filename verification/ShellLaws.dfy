/**
  What the scanners make of the rest of the language: backslashes in double quotes, operators and redirections as
  they are typed, comments, here-documents, and substitutions with anything nested in them.
 */
module ShellLaws {
  import opened Division
  import opened ShellQuoting
  import opened ShellRoundTrip
  import opened ShellScanners
  import opened Text
  import opened Wrappers

  // ---- Backslashes in double quotes -----------------------------------------------------------------

  /** Text that double quotes take as it is: a backslash may stand before anything but dollar, backtick, double quote
      and backslash. */
  predicate Verbatim(w: string) {
    w == "" ||
    (w[0] != '$' && w[0] != '`' && w[0] != '"' && (w[0] == '\\' ==> |w| > 1 && w[1] != '\\') && Verbatim(w[1..]))
  }

  lemma {:induction false} VerbatimReads(w: string, rest: string, cur: string)
    requires Verbatim(w)
    ensures Words(w + ("\"" + rest), cur, true, InDouble) == Words(rest, cur + w, true, Bare)
    decreases |w|
  {
    hide Words, IsWhitespace, Verbatim;
    var end := "\"" + rest;
    if w == "" {
      assert w + end == end && end[1..] == rest && cur + w == cur;
      WordsTurn(end, cur, true, InDouble);
    } else {
      VerbatimHead(w);
      var s := w + end;
      assert s[1..] == w[1..] + end && s[0] == w[0];
      assert |w| > 1 ==> s[1] == w[1];
      WordsTurn(s, cur, true, InDouble);
      VerbatimReads(w[1..], rest, cur + [w[0]]);
      ConcatAssoc(cur, [w[0]], w[1..]);
      assert [w[0]] + w[1..] == w;
    }
  }

  lemma VerbatimHead(w: string)
    requires Verbatim(w) && w != ""
    ensures w[0] != '$' && w[0] != '`' && w[0] != '"'
    ensures w[0] == '\\' ==> |w| > 1 && w[1] != '$' && w[1] != '`' && w[1] != '"' && w[1] != '\\'
    ensures Verbatim(w[1..]) && (|w| > 1 ==> Verbatim(w[2..]))
  {
    assert |w| > 1 ==> w[1..][0] == w[1] && w[1..][1..] == w[2..];
  }

  lemma {:induction false} VerbatimPassed(k: Kind, w: string, rest: string, edge: bool)
    requires Verbatim(w)
    ensures Cut(k, w + ("\"" + rest), InDouble, edge) == |w| + 1 + Cut(k, rest, Bare, false)
    decreases |w|
  {
    hide Cut, Verbatim;
    var end := "\"" + rest;
    if w == "" {
      assert w + end == end && end[1..] == rest;
      CutUnfolds(k, end, InDouble, edge);
    } else {
      VerbatimHead(w);
      if w[0] == '\\' {
        assert w + end == ['\\', w[1]] + (w[2..] + end);
        CutDouble(k, w[1], w[2..] + end, edge);
        VerbatimPassed(k, w[2..], rest, false);
      } else {
        assert w + end == [w[0]] + (w[1..] + end);
        CutDouble(k, w[0], w[1..] + end, edge);
        VerbatimPassed(k, w[1..], rest, false);
      }
    }
  }

  /** Such text between double quotes is one word, backslashes and all, and every scanner steps over it. */
  lemma DoubleQuotesKeepBackslashes(k: Kind, w: string, rest: string, edge: bool)
    requires Verbatim(w)
    ensures Cut(k, "\"" + (w + ("\"" + rest)), Bare, edge) == |w| + 2 + Cut(k, rest, Bare, false)
    ensures Words("\"" + (w + "\""), "", false, Bare) == [w]
  {
    hide Cut, Words, Verbatim, IsWhitespace;
    var s := "\"" + (w + ("\"" + rest));
    assert s[1..] == w + ("\"" + rest);
    CutUnfolds(k, s, Bare, edge);
    VerbatimPassed(k, w, rest, false);
    var alone := "\"" + (w + "\"");
    assert alone[1..] == w + ("\"" + "");
    WordsTurn(alone, "", false, Bare);
    VerbatimReads(w, "", "");
    assert "" + w == w;
    WordsNothing(w, true, Bare);
  }

  // ---- Operators as they are typed --------------------------------------------------------------------

  /** Two commands with `;`, `&&` or `||` between them are two segments, the second gated as the operator says. */
  lemma OperatorsSplit(a: seq<Spelling>, b: seq<Spelling>)
    requires a != [] && b != []
    ensures Segments(Line(a) + (";" + Line(b)), Always) == [Segment(Always, Line(a)), Segment(Always, Line(b))]
    ensures Segments(Line(a) + ("&&" + Line(b)), Always) == [Segment(Always, Line(a)), Segment(AndIf, Line(b))]
    ensures Segments(Line(a) + ("||" + Line(b)), Always) == [Segment(Always, Line(a)), Segment(OrIf, Line(b))]
  {
    hide Segments, Line;
    OperatorSplitsAt(a, Always, b);
    OperatorSplitsAt(a, AndIf, b);
    OperatorSplitsAt(a, OrIf, b);
  }

  lemma OperatorSplitsAt(a: seq<Spelling>, op: Separator, b: seq<Spelling>)
    requires a != [] && b != []
    ensures Segments(Line(a) + (OperatorText(op) + Line(b)), Always) == [Segment(Always, Line(a)), Segment(op, Line(b))]
  {
    hide Cut, Line, OperatorText, Segments, Operator;
    var s, n := Line(a) + (OperatorText(op) + Line(b)), |Line(a)|;
    LineBegins(b);
    LinePassed(Sequence, a, OperatorText(op) + Line(b), false);
    OperatorPassed(Sequence, op, Line(b));
    assert s[0..] == s && s[0..n] == Line(a) && s[n..] == OperatorText(op) + Line(b);
    SegmentEnds(s, 0, n, Always);
    SliceTwice(s, n, |OperatorText(op)|, |OperatorText(op)|);
    LineIsWhole(Sequence, b, false);
    LastSegment(Line(b), op);
  }

  /** With a `|` between them they are one segment of two stages. */
  lemma PipeSplits(a: seq<Spelling>, b: seq<Spelling>)
    requires a != [] && b != []
    ensures var s := Line(a) + ("|" + Line(b)); Segments(s, Always) == [Segment(Always, s)] && Stages(s) == [Line(a), Line(b)]
  {
    hide Cut, Line, Segments, Stages;
    var s, n := Line(a) + ("|" + Line(b)), |Line(a)|;
    LineBegins(b);
    LinePassed(Sequence, a, "|" + Line(b), false);
    PipePassed(Sequence, Line(b));
    LineIsWhole(Sequence, b, false);
    LastSegment(s, Always);
    LinePassed(Pipe, a, "|" + Line(b), false);
    PipePassed(Pipe, Line(b));
    assert s[0..] == s && s[0..n] == Line(a) && s[n + 1..] == Line(b);
    StageEnds(s, 0, n);
    LineIsWhole(Pipe, b, false);
    LastStage(Line(b));
  }

  // ---- Comments -----------------------------------------------------------------------------------------

  /** A hash behind a blank starts a comment, whatever comes after it; one at the end of a word does not. */
  lemma HashStartsComment(ws: seq<Spelling>, rest: string)
    requires ws != []
    ensures Cut(Comment, Line(ws) + (" #" + rest), Bare, true) == |Line(ws)| + 1
    ensures Cut(Comment, Line(ws) + ("#" + rest), Bare, true) == |Line(ws)| + 1 + Cut(Comment, rest, Bare, false)
    ensures Cut(Comment, "#" + rest, Bare, true) == 0
  {
    hide Cut, Line;
    LinePassed(Comment, ws, " #" + rest, true);
    LinePassed(Comment, ws, "#" + rest, true);
    assert (" #" + rest)[1..] == "#" + rest && ("#" + rest)[1..] == rest;
    CutUnfolds(Comment, " #" + rest, Bare, false);
    CutUnfolds(Comment, "#" + rest, Bare, true);
    CutUnfolds(Comment, "#" + rest, Bare, false);
  }

  /** One ampersand is data: it does not end a command. */
  lemma AmpersandIsData(a: seq<Spelling>, b: seq<Spelling>)
    requires a != [] && b != []
    ensures var s := Line(a) + ("&" + Line(b)); Segments(s, Always) == [Segment(Always, s)] && Stages(s) == [s]
  {
    hide Cut, Line, Segments, Stages;
    var s := Line(a) + ("&" + Line(b));
    LineBegins(b);
    LinePassed(Sequence, a, "&" + Line(b), false);
    AmpersandPassed(Sequence, Line(b));
    LineIsWhole(Sequence, b, false);
    LastSegment(s, Always);
    LinePassed(Pipe, a, "&" + Line(b), false);
    AmpersandPassed(Pipe, Line(b));
    LineIsWhole(Pipe, b, false);
    LastStage(s);
  }

  lemma AmpersandPassed(k: Kind, rest: string)
    requires (k == Sequence || k == Pipe) && rest != "" && IsQuoting(rest[0])
    ensures Cut(k, "&" + rest, Bare, false) == 1 + Cut(k, rest, Bare, false)
  {
    hide Cut;
    var s := "&" + rest;
    assert s[1..] == rest && s[1] == rest[0];
    CutUnfolds(k, s, Bare, false);
    EdgeOnlyAtHash(k, rest, true);
  }

  /** A hash behind an operator or a pipe starts a comment too. */
  lemma HashBehindOperator(ws: seq<Spelling>, c: char, rest: string)
    requires ws != [] && (c == ';' || c == '&' || c == '|')
    ensures Cut(Comment, Line(ws) + ([c] + ("#" + rest)), Bare, true) == |Line(ws)| + 1
  {
    hide Cut, Line;
    var hash := "#" + rest;
    var s := [c] + hash;
    LinePassed(Comment, ws, s, true);
    assert s[1..] == hash;
    CutUnfolds(Comment, s, Bare, false);
    CutUnfolds(Comment, hash, Bare, true);
  }

  // ---- Redirections as they are typed -----------------------------------------------------------------

  /** A redirection: `1>`, `2>` or `&>` to a quoted file, or `>>` for the end of it, or `1>&` or `2>&` with the number of
      the stream to follow. */
  datatype Redirection =
    | ToFile(stream: Stream, file: Spelling, append: bool)
    | ToStream(stream: Stream, followed: Stream)

  function Number(stream: Stream): string {
    match stream
    case Stdout => "1"
    case Stderr => "2"
    case Both => "&"
  }

  /** Both streams at once cannot be followed. */
  predicate Possible(r: Redirection) {
    r.ToStream? ==> r.followed != Both
  }

  function Typing(r: Redirection): string {
    match r
    case ToFile(stream, file, append) => Number(stream) + ((if append then ">>" else ">") + Quoted(file))
    case ToStream(stream, followed) => Number(stream) + (">&" + Number(followed))
  }

  function Meant(r: Redirection): Redirect {
    match r
    case ToFile(stream, file, append) => Redirect(stream, File(Quoted(file), append))
    case ToStream(stream, followed) => Redirect(stream, Dup(followed))
  }

  predicate AllPossible(rs: seq<Redirection>) {
    forall k :: 0 <= k < |rs| ==> Possible(rs[k])
  }

  /** Each behind a blank. */
  function TypedAll(rs: seq<Redirection>): string {
    if rs == [] then "" else " " + (Typing(rs[0]) + TypedAll(rs[1..]))
  }

  function MeantAll(rs: seq<Redirection>): seq<Redirect> {
    if rs == [] then [] else [Meant(rs[0])] + MeantAll(rs[1..])
  }

  function Blanks(n: nat): string {
    if n == 0 then "" else " " + Blanks(n - 1)
  }

  /** What follows a redirection ends its target. */
  predicate Ends(rest: string) {
    rest == "" || rest[0] == ' '
  }

  lemma BlankEndsWord(rest: string)
    requires Ends(rest)
    ensures Cut(Word, rest, Bare, false) == 0
  {
  }

  lemma FileReads(stream: Stream, file: Spelling, append: bool, rest: string)
    requires Ends(rest)
    ensures var s := Typing(ToFile(stream, file, append)) + rest;
      && |s| >= 2 && s[1] == '>' && s[..1] == Number(stream)
      && s[2..] == (if append then ">" else "") + (Quoted(file) + rest)
      && Aimed(s[2..]) == Aim(File(Quoted(file), append), (if append then 1 else 0) + |Quoted(file)|)
  {
    hide Cut, Aimed, Quoted;
    QuotedPassed(Word, file, rest, false);
    BlankEndsWord(rest);
    FileText(stream, Quoted(file), append, rest);
    hide Number;
    AimedFile((if append then ">" else "") + (Quoted(file) + rest), append, Quoted(file), rest);
  }

  lemma FileText(stream: Stream, q: string, append: bool, rest: string)
    ensures var s := Number(stream) + ((if append then ">>" else ">") + q) + rest;
      |s| >= 2 && s[1] == '>' && s[..1] == Number(stream) && s[2..] == (if append then ">" else "") + (q + rest)
  {
    var d := Number(stream);
    assert |d| == 1;
    if append {
      assert (d + (">>" + q) + rest)[2..] == ">" + (q + rest);
    } else {
      assert (d + (">" + q) + rest)[2..] == "" + (q + rest);
    }
  }

  lemma StreamReads(stream: Stream, followed: Stream, rest: string)
    requires followed != Both && Ends(rest)
    ensures var s := Typing(ToStream(stream, followed)) + rest;
      && |s| >= 2 && s[1] == '>' && s[..1] == Number(stream)
      && s[2..] == "&" + (Number(followed) + rest)
      && Aimed(s[2..]) == Aim(Dup(followed), 2)
  {
    hide Aimed;
    var s := Typing(ToStream(stream, followed)) + rest;
    assert s == Number(stream) + (">" + ("&" + (Number(followed) + rest)));
    AimedStream(followed, rest);
  }

  /** The target is read up to what follows. */
  lemma TargetReads(r: Redirection, rest: string)
    requires Possible(r) && Ends(rest)
    ensures var s := Typing(r) + rest;
      && Aimed(s[2..]) == Aim(Meant(r).target, |Typing(r)| - 2) && |Typing(r)| >= 2
      && s[2..][|Typing(r)| - 2..] == rest && s[1] == '>' && s[..1] == Number(r.stream)
  {
    hide Cut, Aimed, Quoted;
    match r
    case ToFile(stream, file, append) => FileReads(stream, file, append, rest);
    case ToStream(stream, followed) => StreamReads(stream, followed, rest);
  }

  lemma AimedStream(followed: Stream, rest: string)
    requires followed != Both && Ends(rest)
    ensures Aimed("&" + (Number(followed) + rest)) == Aim(Dup(followed), 2)
  {
    hide Cut, BlankRun;
    var s := "&" + (Number(followed) + rest);
    assert s[1..] == Number(followed) + rest && s[1..][1..] == rest;
    assert DigitRun(rest) == 0;
    assert DigitRun(s[1..]) == 1;
    assert s[1..2] == Number(followed);
  }

  /** One redirection behind a blank, wherever the scan is outside quotes. */
  lemma OneRedirects(kept: string, word: string, plain: bool, r: Redirection, rest: string)
    requires Possible(r) && Ends(rest)
    ensures Redirects(kept, word, plain, " " + (Typing(r) + rest), Bare)
         == Cons(Meant(r), Redirects(kept + word + " ", "", true, rest, Bare))
  {
    hide Redirects, Aimed, Typing, Meant;
    var s := Typing(r) + rest;
    TargetReads(r, rest);
    BlankStep(kept, word, plain, s);
    var d := s[..1];
    assert s == d + s[1..] && s[1..][1..] == s[2..];
    NumberStep(kept + word + " ", r.stream, s[1..]);
    ArrowStep(kept + word + " ", r.stream, s[1..], Meant(r).target, |Typing(r)| - 2);
    assert s[1..][1 + (|Typing(r)| - 2)..] == rest;
    assert Meant(r) == Redirect(r.stream, Meant(r).target) by {
      MeantStream(r);
    }
  }

  lemma MeantStream(r: Redirection)
    ensures Meant(r).stream == r.stream
  {
  }

  lemma BlankStep(kept: string, word: string, plain: bool, tail: string)
    ensures Redirects(kept, word, plain, " " + tail, Bare) == Redirects(kept + word + " ", "", true, tail, Bare)
  {
    assert (" " + tail)[1..] == tail && (" " + tail)[..1] == " ";
  }

  lemma NumberStep(kept: string, stream: Stream, tail: string)
    requires tail != "" && tail[0] == '>'
    ensures Redirects(kept, "", true, Number(stream) + tail, Bare) == Redirects(kept, Number(stream), true, tail, Bare)
  {
    hide Redirects;
    var s := Number(stream) + tail;
    assert s[1..] == tail && s[..1] == Number(stream) && "" + Number(stream) == Number(stream);
    NumberIsLive(stream, tail);
    RedirectsUnfolds(kept, "", true, s, Bare);
  }

  lemma NumberIsLive(stream: Stream, tail: string)
    ensures var s := Number(stream) + tail;
      && !Stops(Redirection, s, Bare, false) && Live(s, Bare) && !IsAsciiWhitespace(s[0])
      && Head(Redirection, s, Bare).width == 1 && Head(Redirection, s, Bare).quote == Bare
  {
  }

  lemma ArrowStep(kept: string, stream: Stream, s: string, target: Target, n: nat)
    requires s != "" && s[0] == '>' && Aimed(s[1..]) == Aim(target, n) && n <= |s| - 1
    ensures Redirects(kept, Number(stream), true, s, Bare) == Cons(Redirect(stream, target), Redirects(kept, "", true, s[1 + n..], Bare))
  {
    hide Aimed;
    assert Descriptor(Number(stream)) == Some(stream);
    assert Stops(Redirection, s, Bare, false);
  }

  lemma {:induction false} AllRedirect(kept: string, word: string, plain: bool, rs: seq<Redirection>)
    requires AllPossible(rs)
    ensures Redirects(kept, word, plain, TypedAll(rs), Bare) == Redirected(kept + word + Blanks(|rs|), MeantAll(rs))
    decreases |rs|
  {
    hide Redirects, Typing, Meant;
    if rs == [] {
      RedirectsNothing(kept, word, plain);
      assert kept + word + "" == kept + word;
    } else {
      OneRedirects(kept, word, plain, rs[0], TypedAll(rs[1..]));
      AllRedirect(kept + word + " ", "", true, rs[1..]);
      ConcatAssoc(kept + word, " ", Blanks(|rs| - 1));
      assert kept + word + " " + "" == kept + word + " ";
    }
  }

  lemma RedirectsNothing(kept: string, word: string, plain: bool)
    ensures Redirects(kept, word, plain, "", Bare) == Redirected(kept + word, [])
  {
  }

  /** Any list of redirections behind quoted words: the words stay, and the redirections are read in order, each on its
      own stream. */
  lemma RedirectionsRead(ws: seq<Spelling>, rs: seq<Redirection>)
    requires AllPossible(rs)
    ensures Redirects("", "", true, Line(ws) + TypedAll(rs), Bare) == Redirected(Line(ws) + Blanks(|rs|), MeantAll(rs))
  {
    hide Redirects, Line;
    if ws == [] {
      NoWords(ws);
      assert "" + TypedAll(rs) == TypedAll(rs);
      AllRedirect("", "", true, rs);
      assert "" + "" + Blanks(|rs|) == Blanks(|rs|) == "" + Blanks(|rs|);
    } else {
      var before, word := RedirectLine("", ws, TypedAll(rs));
      AllRedirect(before, word, false, rs);
      assert "" + Line(ws) == Line(ws);
    }
  }

  lemma NoWords(ws: seq<Spelling>)
    requires ws == []
    ensures Line(ws) == ""
  {
  }

  /** A stream that is neither the first nor the second cannot be followed, and an arrow needs a target. */
  lemma BadTargets(fd: string)
    requires fd != "1" && fd != "2" && forall k :: 0 <= k < |fd| ==> '0' <= fd[k] <= '9'
    ensures Redirects("", "", true, ">&" + fd, Bare) == Refused(BadDescriptor(fd))
    ensures Redirects("", "", true, ">", Bare) == Refused(NoTarget)
  {
    hide Redirects, Aimed;
    AimedAtNobody(fd);
    assert (">&" + fd)[1..] == "&" + fd && ">"[1..] == "";
    RefusedHere(">&" + fd, BadDescriptor(fd));
    RefusedHere(">", NoTarget);
  }

  lemma AimedAtNobody(fd: string)
    requires fd != "1" && fd != "2" && forall k :: 0 <= k < |fd| ==> '0' <= fd[k] <= '9'
    ensures Aimed("&" + fd) == Astray(BadDescriptor(fd)) && Aimed("") == Astray(NoTarget)
  {
    hide Cut;
    AllDigits(fd);
    assert ("&" + fd)[1..] == fd && ("&" + fd)[1..1 + |fd|] == fd;
    CutNothing(Word, Bare, false);
  }

  lemma RefusedHere(s: string, error: RedirectError)
    requires s != "" && s[0] == '>' && Aimed(s[1..]) == Astray(error)
    ensures Redirects("", "", true, s, Bare) == Refused(error)
  {
    hide Aimed;
    assert Stops(Redirection, s, Bare, false);
  }

  lemma {:induction false} AllDigits(fd: string)
    requires forall k :: 0 <= k < |fd| ==> '0' <= fd[k] <= '9'
    ensures DigitRun(fd) == |fd|
  {
    if fd != "" {
      AllDigits(fd[1..]);
    }
  }

  // ---- Here-documents -----------------------------------------------------------------------------------

  predicate IsLetter(c: char) {
    'a' <= c <= 'z' || 'A' <= c <= 'Z'
  }

  lemma {:induction false} LettersAreOneWord(w: string)
    requires forall k :: 0 <= k < |w| ==> IsLetter(w[k])
    ensures Cut(Word, w, Bare, false) == |w| && Cut(Word, w, Bare, true) == |w| && Unquoted(w, Bare) == w && '\\' !in w
  {
    if w != "" {
      LettersAreOneWord(w[1..]);
      CutUnfolds(Word, w, Bare, false);
      CutUnfolds(Word, w, Bare, true);
      assert w == [w[0]] + w[1..];
    }
  }

  /** A delimiter without quotes leaves expansion on; any quoting of it turns it off. */
  lemma PlainDelimiterExpands(ws: seq<Spelling>, delimiter: string)
    requires delimiter != "" && forall k :: 0 <= k < |delimiter| ==> IsLetter(delimiter[k])
    ensures HeredocOf(Line(ws) + ("<<" + delimiter)) == Some(Opened(Heredoc(delimiter, false, true), Line(ws)))
  {
    hide Cut, Quoted, Opening, Stops, HeredocOf, Line;
    var rest := "<<" + delimiter;
    if ws == [] {
      NoWords(ws);
      assert "" + rest == rest;
    } else {
      LinePassed(HereDocument, ws, rest, false);
    }
    OpensHere(rest);
    assert rest[2..] == delimiter;
    LettersOpen(delimiter);
    HeredocAt(Line(ws), rest, Heredoc(delimiter, false, true));
  }

  lemma LettersOpen(w: string)
    requires w != "" && forall k :: 0 <= k < |w| ==> IsLetter(w[k])
    ensures Opening(w) == Delimiter(Heredoc(w, false, true), |w|)
  {
    hide Cut, Unquoted;
    LettersAreOneWord(w);
    assert BlankRun(w) == 0 && w[0..] == w && w[0..|w|] == w;
  }

  /** `<<<` opens nothing. */
  lemma HereStringOpensNothing(ws: seq<Spelling>, w: string)
    requires w != "" && forall k :: 0 <= k < |w| ==> IsLetter(w[k])
    ensures HeredocOf(Line(ws) + ("<<<" + w)) == None
  {
    hide Cut, Line, Opening;
    var rest := "<<<" + w;
    ArrowsPassed(w);
    if ws == [] {
      NoWords(ws);
      assert "" + rest == rest;
    } else {
      LinePassed(HereDocument, ws, rest, false);
    }
  }

  lemma ArrowsPassed(w: string)
    requires w != "" && forall k :: 0 <= k < |w| ==> IsLetter(w[k])
    ensures Cut(HereDocument, "<<<" + w, Bare, false) == |w| + 3
  {
    hide Cut;
    assert ("<<<" + w)[3..] == w;
    CutUnfolds(HereDocument, "<<<" + w, Bare, false);
    LettersPassed(w);
  }

  lemma {:induction false} LettersPassed(w: string)
    requires forall k :: 0 <= k < |w| ==> IsLetter(w[k])
    ensures Cut(HereDocument, w, Bare, false) == |w| && Cut(HereDocument, w, Bare, true) == |w|
  {
    if w != "" {
      LettersPassed(w[1..]);
      CutUnfolds(HereDocument, w, Bare, false);
      CutUnfolds(HereDocument, w, Bare, true);
    }
  }

  // ---- Substitutions --------------------------------------------------------------------------------------

  /** What may stand in `$(...)`: quoted words, operators and blanks, and parentheses with the same in them. */
  datatype Part =
    | Text(x: Spelling)
    | Mark(c: char)
    | Group(parts: seq<Part>)

  function PartText(ps: seq<Part>): string
    decreases ps
  {
    if ps == [] then "" else OnePart(ps[0]) + PartText(ps[1..])
  }

  function OnePart(p: Part): string
    decreases p
  {
    match p
    case Text(x) => Quoted(x)
    case Mark(c) => [c]
    case Group(inner) => "(" + (PartText(inner) + ")")
  }

  predicate MarksAreMarks(ps: seq<Part>)
    decreases ps
  {
    ps == [] || (IsPart(ps[0]) && MarksAreMarks(ps[1..]))
  }

  predicate IsPart(p: Part)
    decreases p
  {
    match p
    case Text(_) => true
    case Mark(c) => !IsQuoting(c) && c != '(' && c != ')'
    case Group(inner) => MarksAreMarks(inner)
  }

  lemma {:induction false} ClosingEscaped(w: string, rest: string, depth: nat)
    requires depth > 0
    ensures Closing(Escaped(w) + ("'" + rest), depth, InSingle) == Shifted(|Escaped(w)| + 1, Closing(rest, depth, Bare))
    decreases |w|
  {
    hide Closing;
    var end := "'" + rest;
    if w == "" {
      assert Escaped(w) + end == end && end[1..] == rest;
      ClosingTurn(end, depth, InSingle);
    } else {
      var tail := Escaped(w[1..]) + end;
      ClosingEscaped(w[1..], rest, depth);
      if w[0] == '\'' {
        var s := "'\\''" + tail;
        ConcatAssoc("'\\''", Escaped(w[1..]), end);
        assert s[1..] == "\\''" + tail && s[1..][2..] == "'" + tail && s[1..][2..][1..] == tail;
        ClosingTurn(s, depth, InSingle);
        ClosingTurn(s[1..], depth, Bare);
        ClosingTurn(s[1..][2..], depth, Bare);
      } else {
        ConcatAssoc([w[0]], Escaped(w[1..]), end);
        assert ([w[0]] + tail)[1..] == tail;
        ClosingTurn([w[0]] + tail, depth, InSingle);
      }
    }
  }

  /** One step of the search for the closing parenthesis. */
  lemma ClosingTurn(s: string, depth: nat, q: Quote)
    requires depth > 0 && s != "" && !(s[0] == '\\' && q != InSingle && |s| == 1)
    ensures Closing(s, depth, q) ==
      if s[0] == '\\' && q != InSingle then Shifted(2, Closing(s[2..], depth, q))
      else if s[0] == '(' && q == Bare then Shifted(1, Closing(s[1..], depth + 1, q))
      else if s[0] == ')' && q == Bare then (if depth == 1 then Some(0) else Shifted(1, Closing(s[1..], depth - 1, q)))
      else Shifted(1, Closing(s[1..], depth, Toggled(q, s[0])))
  {
  }

  lemma {:induction false} ClosingDouble(w: string, rest: string, depth: nat)
    requires depth > 0
    ensures Closing(DoubleEscaped(w) + ("\"" + rest), depth, InDouble) == Shifted(|DoubleEscaped(w)| + 1, Closing(rest, depth, Bare))
    decreases |w|
  {
    hide Closing;
    var end := "\"" + rest;
    if w == "" {
      assert DoubleEscaped(w) + end == end && end[1..] == rest;
      ClosingTurn(end, depth, InDouble);
    } else {
      var tail := DoubleEscaped(w[1..]) + end;
      ClosingDouble(w[1..], rest, depth);
      ConcatAssoc(['\\', w[0]], DoubleEscaped(w[1..]), end);
      ConcatAssoc([w[0]], DoubleEscaped(w[1..]), end);
      assert (['\\', w[0]] + tail)[2..] == tail && ([w[0]] + tail)[1..] == tail;
      ClosingTurn(['\\', w[0]] + tail, depth, InDouble);
      if w[0] != '\\' {
        ClosingTurn([w[0]] + tail, depth, InDouble);
      }
    }
  }

  lemma {:induction false} ClosingBackslashed(w: string, rest: string, depth: nat)
    requires depth > 0
    ensures Closing(Backslashed(w) + rest, depth, Bare) == Shifted(|Backslashed(w)|, Closing(rest, depth, Bare))
    decreases |w|
  {
    hide Closing;
    if w == "" {
      assert Backslashed(w) + rest == rest;
    } else {
      var tail := Backslashed(w[1..]) + rest;
      ClosingBackslashed(w[1..], rest, depth);
      ConcatAssoc(['\\', w[0]], Backslashed(w[1..]), rest);
      assert (['\\', w[0]] + tail)[2..] == tail;
      ClosingTurn(['\\', w[0]] + tail, depth, Bare);
    }
  }

  lemma ClosingSingle(w: string, rest: string, depth: nat)
    requires depth > 0
    ensures var s := "'" + (Escaped(w) + "'"); Closing(s + rest, depth, Bare) == Shifted(|s|, Closing(rest, depth, Bare))
  {
    hide Closing;
    var s := "'" + (Escaped(w) + "'") + rest;
    assert s[1..] == Escaped(w) + ("'" + rest);
    ClosingTurn(s, depth, Bare);
    ClosingEscaped(w, rest, depth);
  }

  lemma ClosingQuoted(x: Spelling, rest: string, depth: nat)
    requires depth > 0
    ensures Closing(Quoted(x) + rest, depth, Bare) == Shifted(|Quoted(x)|, Closing(rest, depth, Bare))
  {
    hide Closing, Escaped, DoubleEscaped, Backslashed;
    match x.style
    case Single => ClosingSingle(x.word, rest, depth);
    case Double =>
      var s := Quoted(x) + rest;
      assert s[1..] == DoubleEscaped(x.word) + ("\"" + rest);
      ClosingTurn(s, depth, Bare);
      ClosingDouble(x.word, rest, depth);
    case Backslash =>
      if x.word == "" {
        NothingEscaped();
        ClosingSingle("", rest, depth);
      } else {
        ClosingBackslashed(x.word, rest, depth);
      }
  }

  /** Quoted parentheses do not count, and nested ones are matched. */
  lemma {:induction false} ClosingParts(ps: seq<Part>, rest: string, depth: nat)
    requires depth > 0 && MarksAreMarks(ps)
    ensures Closing(PartText(ps) + rest, depth, Bare) == Shifted(|PartText(ps)|, Closing(rest, depth, Bare))
    decreases ps
  {
    hide Closing, OnePart;
    if ps == [] {
      assert PartText(ps) + rest == rest;
    } else {
      ConcatAssoc(OnePart(ps[0]), PartText(ps[1..]), rest);
      ClosingPart(ps[0], PartText(ps[1..]) + rest, depth);
      ClosingParts(ps[1..], rest, depth);
    }
  }

  lemma {:induction false} ClosingPart(p: Part, tail: string, depth: nat)
    requires depth > 0 && IsPart(p)
    ensures Closing(OnePart(p) + tail, depth, Bare) == Shifted(|OnePart(p)|, Closing(tail, depth, Bare))
    decreases p
  {
    hide Closing, Quoted, PartText;
    match p
    case Text(x) => ClosingQuoted(x, tail, depth);
    case Mark(c) =>
      assert ([c] + tail)[1..] == tail;
      ClosingTurn([c] + tail, depth, Bare);
    case Group(inner) =>
      ClosingParts(inner, ")" + tail, depth + 1);
      ClosingGroup(PartText(inner), tail, depth);
      assert OnePart(p) + tail == "(" + (PartText(inner) + (")" + tail));
  }

  lemma ClosingGroup(inner: string, tail: string, depth: nat)
    requires depth > 0 && Closing(inner + (")" + tail), depth + 1, Bare) == Shifted(|inner|, Closing(")" + tail, depth + 1, Bare))
    ensures Closing("(" + (inner + (")" + tail)), depth, Bare) == Shifted(|inner| + 2, Closing(tail, depth, Bare))
  {
    hide Closing;
    var s := "(" + (inner + (")" + tail));
    assert s[1..] == inner + (")" + tail) && (")" + tail)[1..] == tail;
    ClosingTurn(s, depth, Bare);
    ClosingTurn(")" + tail, depth + 1, Bare);
  }

  /** `$(...)`, whatever is quoted or nested in it, is one piece to every scanner, in double quotes too; its body is what
      is between the parentheses, and `$((...))` is arithmetic. */
  lemma SubstitutionIsPassed(k: Kind, ps: seq<Part>, rest: string, edge: bool)
    requires MarksAreMarks(ps) && (PartText(ps) == "" || PartText(ps)[0] != '(')
    ensures var s := "$(" + (PartText(ps) + (")" + rest));
      var n := |PartText(ps)|;
      && Substituted(s) == Some(Span(n + 3, 2, n + 2, false)) && s[2..n + 2] == PartText(ps) && s[n + 3..] == rest
      && Cut(k, s, Bare, edge) == n + 3 + Cut(k, rest, Bare, false)
      && Cut(k, s, InDouble, edge) == n + 3 + Cut(k, rest, InDouble, false)
  {
    hide Cut, PartText, Closing;
    var s, n := "$(" + (PartText(ps) + (")" + rest)), |PartText(ps)|;
    assert s[2..] == PartText(ps) + (")" + rest);
    ClosingParts(ps, ")" + rest, 1);
    ClosingTurn(")" + rest, 1, Bare);
    assert |s| > 2 && s[2] != '(' by {
      assert s[2..][0] == s[2];
    }
    assert s[n + 3..] == rest && s[2..n + 2] == PartText(ps);
    CutUnfolds(k, s, Bare, edge);
    CutUnfolds(k, s, InDouble, edge);
  }

  lemma ArithmeticIsPassed(k: Kind, ps: seq<Part>, rest: string, edge: bool)
    requires MarksAreMarks(ps)
    ensures var s := "$((" + (PartText(ps) + ("))" + rest));
      var n := |PartText(ps)|;
      && Substituted(s) == Some(Span(n + 5, 3, n + 3, true)) && s[3..n + 3] == PartText(ps)
      && Cut(k, s, Bare, edge) == n + 5 + Cut(k, rest, Bare, false)
      && Cut(k, s, InDouble, edge) == n + 5 + Cut(k, rest, InDouble, false)
  {
    hide Cut, PartText, Closing;
    var s, n := "$((" + (PartText(ps) + ("))" + rest)), |PartText(ps)|;
    assert s[2..] == "(" + (PartText(ps) + ("))" + rest));
    assert s[2..][1..] == PartText(ps) + ("))" + rest) && ("))" + rest)[1..] == ")" + rest;
    ClosingTurn(s[2..], 1, Bare);
    ClosingParts(ps, "))" + rest, 2);
    ClosingTurn("))" + rest, 2, Bare);
    ClosingTurn(")" + rest, 1, Bare);
    assert s[n + 5..] == rest && s[3..n + 3] == PartText(ps);
    CutUnfolds(k, s, Bare, edge);
    CutUnfolds(k, s, InDouble, edge);
  }

  lemma {:induction false} BacktickIs(w: string, rest: string)
    requires '`' !in w && '\\' !in w
    ensures Backtick(w + ("`" + rest)) == Some(|w|)
  {
    if w == "" {
      assert w + ("`" + rest) == "`" + rest;
    } else {
      assert (w + ("`" + rest))[1..] == w[1..] + ("`" + rest);
      BacktickIs(w[1..], rest);
    }
  }

  /** Backticks the same, up to the next one. */
  lemma BackticksArePassed(k: Kind, w: string, rest: string, edge: bool)
    requires '`' !in w && '\\' !in w
    ensures var s := "`" + (w + ("`" + rest));
      && Substituted(s) == Some(Span(|w| + 2, 1, |w| + 1, false)) && s[1..|w| + 1] == w
      && Cut(k, s, Bare, edge) == |w| + 2 + Cut(k, rest, Bare, false)
      && Cut(k, s, InDouble, edge) == |w| + 2 + Cut(k, rest, InDouble, false)
  {
    hide Cut, Backtick;
    var s := "`" + (w + ("`" + rest));
    assert s[1..] == w + ("`" + rest) && s[|w| + 2..] == rest && s[1..|w| + 1] == w;
    BacktickIs(w, rest);
    CutUnfolds(k, s, Bare, edge);
    CutUnfolds(k, s, InDouble, edge);
  }

  // ---- Words without quotes -------------------------------------------------------------------------------

  predicate Letters(w: string) {
    w != "" && forall k :: 0 <= k < |w| ==> IsLetter(w[k])
  }

  predicate AllLetters(ws: seq<string>) {
    forall k :: 0 <= k < |ws| ==> Letters(ws[k])
  }

  lemma {:induction false} LettersAppend(w: string, rest: string, cur: string, has: bool)
    requires forall k :: 0 <= k < |w| ==> IsLetter(w[k])
    requires w != "" || has
    ensures Words(w + rest, cur, has, Bare) == Words(rest, cur + w, true, Bare)
    decreases |w|
  {
    hide Words;
    if w == "" {
      assert w + rest == rest && cur + w == cur;
    } else {
      var s := w + rest;
      assert s[1..] == w[1..] + rest && s[0] == w[0];
      WordsTurn(s, cur, has, Bare);
      LettersAppend(w[1..], rest, cur + [w[0]], true);
      assert cur + [w[0]] + w[1..] == cur + w;
    }
  }

  /** The words with some blanks, one at least, before each. */
  function Apart(ws: seq<string>, gap: nat): string
    requires gap > 0
  {
    if ws == [] then "" else Blanks(gap) + (ws[0] + Apart(ws[1..], gap))
  }

  lemma {:induction false} BlanksRead(n: nat, rest: string, cur: string, has: bool)
    requires n > 0
    ensures Words(Blanks(n) + rest, cur, has, Bare) == Taken(cur, has) + Words(rest, if has then "" else cur, false, Bare)
  {
    hide Words;
    var s, tail := Blanks(n) + rest, Blanks(n - 1) + rest;
    assert s == " " + tail && s[1..] == tail;
    WordsTurn(s, cur, has, Bare);
    if n == 1 {
      assert tail == rest;
    } else {
      BlanksRead(n - 1, rest, if has then "" else cur, false);
      assert [] + Words(rest, if has then "" else cur, false, Bare) == Words(rest, if has then "" else cur, false, Bare);
    }
  }

  /** Words of letters are split at the blanks between them, however many there are. */
  lemma {:induction false} LettersRead(ws: seq<string>, gap: nat)
    requires AllLetters(ws) && gap > 0
    ensures Words(Apart(ws, gap), "", false, Bare) == ws
    decreases |ws|
  {
    hide Words, Taken;
    if ws == [] {
      WordsNothing("", false, Bare);
      TakenIs("");
    } else {
      LettersReadOn(ws, gap, "");
    }
  }

  lemma TakenIs(w: string)
    ensures Taken(w, true) == [w] && Taken(w, false) == []
  {
  }

  lemma {:induction false} LettersReadOn(ws: seq<string>, gap: nat, before: string)
    requires AllLetters(ws) && gap > 0 && ws != []
    ensures Words(Apart(ws, gap), "", false, Bare) == ws
    ensures Words(Apart(ws, gap), before, true, Bare) == [before] + ws
    decreases |ws|
  {
    hide Words, Taken, Blanks;
    var tail := ws[0] + Apart(ws[1..], gap);
    assert Letters(ws[0]) && ws == [ws[0]] + ws[1..];
    TakenIs("");
    TakenIs(before);
    BlanksRead(gap, tail, "", false);
    BlanksRead(gap, tail, before, true);
    LettersAppend(ws[0], Apart(ws[1..], gap), "", false);
    assert "" + ws[0] == ws[0];
    if |ws| == 1 {
      WordsNothing(ws[0], true, Bare);
      TakenIs(ws[0]);
    } else {
      assert AllLetters(ws[1..]) by {
        forall k | 0 <= k < |ws[1..]| ensures Letters(ws[1..][k]) {
          assert ws[1..][k] == ws[k + 1];
        }
      }
      LettersReadOn(ws[1..], gap, ws[0]);
    }
    assert [] + ws == ws;
  }
}
