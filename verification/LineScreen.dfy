/**
  The bytes the line editor sends, seen from the terminal: the row under the cursor always shows the prompt
  and the line, with the cursor where the editor has it.
 */
module LineScreen {
  import opened LineModel
  import opened Terminal
  import opened Text
  import opened Wrappers

  predicate AllPlain(ss: seq<string>) {
    forall k :: 0 <= k < |ss| ==> Plain(ss[k])
  }

  predicate Clean(e: Editor) {
    && Indexed(e)
    && Plain(e.prompt) && Plain(e.left) && Plain(e.right) && Plain(e.kill) && Plain(e.stash) && AllPlain(e.history)
    && (e.search.Some? ==> Plain(e.search.value.query))
  }

  /** The row shows `text`, and the cursor is `back` columns before its end. */
  predicate Shows(t: Term, text: string, back: nat) {
    t.mode.Ground? && t.row == text && back <= |text| && t.col == |text| - back
  }

  predicate Faithful(e: Editor, t: Term)
    requires Indexed(e)
  {
    if e.search.Some? then Shows(t, SearchRow(e), 0) else Shows(t, e.prompt + e.left + e.right, |e.right|)
  }

  predicate SameRows(t: Term, u: Term) {
    t.above == u.above && t.below == u.below
  }

  // ---- Text stays printable -----------------------------------------------------------------------

  lemma {:induction false} TrimStartIsPlain(s: string)
    requires Plain(s)
    ensures Plain(TrimStart(s)) && |TrimStart(s)| <= |s|
  {
    if s != "" && IsWhitespace(s[0]) {
      TrimStartIsPlain(s[1..]);
    }
  }

  lemma {:induction false} TrimEndIsPlain(s: string)
    requires Plain(s)
    ensures Plain(TrimEnd(s)) && |TrimEnd(s)| <= |s|
  {
    if s != "" && IsWhitespace(s[|s| - 1]) {
      TrimEndIsPlain(s[..|s| - 1]);
    }
  }

  lemma EntryIsPlain(cfg: Config, line: string)
    requires Plain(line)
    ensures Plain(Entry(cfg, line)) && |Entry(cfg, line)| <= |line|
  {
    TrimStartIsPlain(line);
    TrimEndIsPlain(TrimStart(line));
  }

  lemma RememberedIsPlain(cfg: Config, history: seq<string>, line: string)
    requires AllPlain(history) && Plain(line)
    ensures AllPlain(Remembered(cfg, history, line))
  {
    hide Entry, Plain;
    EntryIsPlain(cfg, line);
  }

  lemma PlainColumns(s: string)
    requires Plain(s)
    ensures Columns(s) == |s|
  {
    if s != "" {
      PlainColumns(s[1..]);
    }
  }

  lemma PlainConcat(a: string, b: string)
    requires Plain(a) && Plain(b)
    ensures Plain(a + b)
  {
  }

  lemma PlainSlice(s: string, i: nat, j: nat)
    requires i <= j <= |s| && Plain(s)
    ensures Plain(s[i..j])
  {
  }

  lemma PlainPieces(s: string, i: nat)
    requires i <= |s| && Plain(s)
    ensures Plain(s[..i]) && Plain(s[i..])
  {
  }

  // ---- What is drawn ------------------------------------------------------------------------------

  /** A redraw makes the row right whatever it showed before. */
  lemma RedrawResyncs(e: Editor, t: Term)
    requires Clean(e) && t.mode.Ground?
    ensures Play(t, Redraw(e)) == t.(row := e.prompt + e.left + e.right, col := |e.prompt| + |e.left|)
  {
    hide Play;
    PlainColumns(e.right);
    PlayLine(t, e.prompt + e.left + e.right, |e.right|);
  }

  lemma SearchDraws(e: Editor, t: Term)
    requires Clean(e) && e.search.Some? && t.mode.Ground?
    ensures Faithful(e, Play(t, RenderSearch(e))) && SameRows(t, Play(t, RenderSearch(e)))
  {
    hide Play;
    var s := e.search.value;
    assert Plain("(reverse-i-search)`") && Plain("': ");
    assert CLEAR_LINE + Back(0) == CLEAR_LINE;
    PlayLine(t, SearchRow(e), 0);
  }

  /** The outcome of a key that is drawn in full. */
  lemma DrawnShows(e: Editor, t: Term)
    requires Clean(e) && e.search.None? && t.mode.Ground?
    ensures Faithful(e, Play(t, Redraw(e))) && SameRows(t, Play(t, Redraw(e)))
  {
    hide Play, Redraw;
    RedrawResyncs(e, t);
  }

  /** What a key does to the screen is what it does to the line. */
  ghost predicate Follows(o: Outcome, t: Term) {
    && Clean(o.editor)
    && match o.reaction
       case Ignore => Faithful(o.editor, t)
       case Write(bytes) => Faithful(o.editor, Play(t, bytes)) && SameRows(t, Play(t, bytes))
       case _ => o.editor.search.None?
  }

  lemma DrawnFollows(e: Editor, t: Term)
    requires Clean(e) && e.search.None? && t.mode.Ground?
    ensures Follows(Drawn(e), t)
  {
    hide Clean, Faithful, Redraw;
    DrawnShows(e, t);
  }

  lemma InsertFollows(cfg: Config, e: Editor, c: char, t: Term)
    requires Clean(e) && e.search.None? && Faithful(e, t) && IsPrintable(c)
    ensures Follows(Insert(cfg, e, c), t)
  {
    hide Play, Redraw;
    var typed := e.(left := e.left + [c], browsing := None);
    DrawnFollows(typed, t);
    if e.right == "" {
      PlayText(t, [c]);
      assert e.prompt + e.left + "" == e.prompt + e.left;
      assert typed.prompt + typed.left + "" == t.row + [c];
    }
  }

  lemma LeftFollows(e: Editor, t: Term)
    requires Clean(e) && e.search.None? && Faithful(e, t)
    ensures Follows(Left(e), t)
  {
    hide Play;
    if e.left != "" {
      var i := |e.left| - 1;
      assert CharStart(e.left, i) == i;
      PlayMove(t, 'D');
      PlainPieces(e.left, i);
      PlainConcat(e.left[i..], e.right);
      assert e.prompt + e.left + e.right == e.prompt + e.left[..i] + (e.left[i..] + e.right);
    }
  }

  lemma RightFollows(e: Editor, t: Term)
    requires Clean(e) && e.search.None? && Faithful(e, t)
    ensures Follows(Right(e), t)
  {
    hide Play;
    if e.right != "" {
      assert CharEnd(e.right, 1) == 1;
      PlayMove(t, 'C');
      PlainPieces(e.right, 1);
      PlainConcat(e.left, e.right[..1]);
      assert e.prompt + e.left + e.right == e.prompt + (e.left + e.right[..1]) + e.right[1..];
    }
  }

  lemma PlayMove(t: Term, c: char)
    requires t.mode.Ground? && (c == 'C' || c == 'D')
    ensures Play(t, [ESC, '[', c]) == t.(col := if c == 'C' then t.col + 1 else if t.col > 0 then t.col - 1 else 0)
  {
    PlayThree(t, ESC, '[', c);
  }

  lemma EditFollows(cfg: Config, e: Editor, t: Term)
    requires Clean(e) && e.search.None? && Faithful(e, t)
    ensures Follows(EraseLeft(e), t) && Follows(EraseRight(e), t) && Follows(Home(e), t) && Follows(End(e), t)
    ensures Follows(KillLeft(e), t) && Follows(KillRight(e), t) && Follows(KillWord(e), t) && Follows(Yank(cfg, e), t)
  {
    assert t.mode.Ground?;
    hide Follows, Faithful, Plain;
    assert Plain("") by {
      PlainSlice(e.prompt, 0, 0);
    }
    PlainConcat(e.left, e.right);
    PlainConcat(e.left, e.kill);
    UnchangedFollows(e, t);
    DrawnFollows(Home(e).editor, t);
    DrawnFollows(End(e).editor, t);
    if e.left != "" {
      PlainPieces(e.left, CharStart(e.left, |e.left| - 1));
      PlainPieces(e.left, SkipBack(e.left, false, SkipBack(e.left, true, |e.left|)));
      DrawnFollows(EraseLeft(e).editor, t);
      DrawnFollows(KillLeft(e).editor, t);
      DrawnFollows(KillWord(e).editor, t);
    }
    if e.right != "" {
      PlainPieces(e.right, CharEnd(e.right, 1));
      DrawnFollows(EraseRight(e).editor, t);
      DrawnFollows(KillRight(e).editor, t);
    }
    DrawnFollows(e.(left := e.left + e.kill, browsing := None), t);
  }

  lemma UnchangedFollows(e: Editor, t: Term)
    requires Clean(e) && Faithful(e, t)
    ensures Follows(Unchanged(e), t)
  {
  }

  lemma HistoryFollows(e: Editor, t: Term)
    requires Clean(e) && e.search.None? && Faithful(e, t)
    ensures Follows(Older(e), t) && Follows(Newer(e), t)
  {
    assert t.mode.Ground?;
    hide Follows, Faithful, Plain;
    PlainConcat(e.left, e.right);
    PlainSlice(e.prompt, 0, 0);
    UnchangedFollows(e, t);
    if Older(e).reaction.Write? {
      DrawnFollows(Older(e).editor, t);
    }
    if Newer(e).reaction.Write? {
      DrawnFollows(Newer(e).editor, t);
    }
  }

  /** Clearing the screen, and a new line: the terminal is between sequences afterwards. */
  lemma PlayClear(t: Term)
    requires t.mode.Ground?
    ensures Play(Play(t, [ESC, '[', 'H']), [ESC, '[', '2', 'J']).mode.Ground?
  {
    hide Play;
    PlayThree(t, ESC, '[', 'H');
    var u := Play(t, [ESC, '[', 'H']);
    assert [ESC, '[', '2', 'J'] == [ESC, '[', '2'] + ['J'];
    PlayConcat(u, [ESC, '[', '2'], ['J']);
    PlayThree(u, ESC, '[', '2');
    PlayOne(Play(u, [ESC, '[', '2']), 'J');
  }

  lemma PlayNewLine(t: Term)
    requires t.mode.Ground?
    ensures Play(t, NEW_LINE).mode.Ground?
  {
    hide Play;
    PlayTwo(t, '\r', '\n');
  }

  lemma PlayCaret(t: Term)
    requires t.mode.Ground?
    ensures Play(t, "^C" + NEW_LINE).mode.Ground?
  {
    hide Play;
    PlayConcat(t, "^C", NEW_LINE);
    PlayTwo(t, '^', 'C');
    PlayNewLine(Play(t, "^C"));
  }

  /** Ctrl-L and Ctrl-C touch other rows too. */
  ghost predicate FollowsBelow(o: Outcome, t: Term) {
    && Clean(o.editor)
    && o.reaction.Write?
    && Faithful(o.editor, Play(t, o.reaction.bytes))
  }

  lemma ClearFollows(e: Editor, t: Term)
    requires Clean(e) && e.search.None? && t.mode.Ground?
    ensures FollowsBelow(ClearScreen(e), t)
  {
    hide Play, Redraw, Clean, Faithful;
    PlayConcat(t, [ESC, '[', 'H'], [ESC, '[', '2', 'J'] + Redraw(e));
    PlayConcat(Play(t, [ESC, '[', 'H']), [ESC, '[', '2', 'J'], Redraw(e));
    PlayClear(t);
    DrawnShows(e, Play(Play(t, [ESC, '[', 'H']), [ESC, '[', '2', 'J']));
  }

  lemma InterruptFollows(e: Editor, t: Term)
    requires Clean(e) && e.search.None? && t.mode.Ground?
    ensures FollowsBelow(Interrupt(e), t)
  {
    hide Play, Redraw, Faithful;
    PlayConcat(t, "^C" + NEW_LINE, Redraw(Emptied(e)));
    PlayCaret(t);
    DrawnShows(Emptied(e), Play(t, "^C" + NEW_LINE));
  }

  /** The keys that clear the screen or leave the row: Ctrl-L and Ctrl-C. */
  predicate LeavesRow(c: char) {
    c == '\U{0C}' || c == '\U{03}'
  }

  ghost predicate KeyFollows(o: Outcome, c: char, t: Term) {
    if LeavesRow(c) then Follows(o, t) || FollowsBelow(o, t) else Follows(o, t)
  }

  lemma SubmitFollows(cfg: Config, e: Editor, t: Term)
    requires Clean(e) && e.search.None?
    ensures Follows(Submitted(cfg, e), t)
  {
    PlainConcat(e.left, e.right);
    RememberedIsPlain(cfg, e.history, e.left + e.right);
  }

  lemma PlainlyFollows(cfg: Config, e: Editor, c: char, t: Term)
    requires Clean(e) && e.esc == NoEsc && e.search.None? && Faithful(e, t) && c < '\U{80}'
    ensures KeyFollows(Plainly(cfg, e, c), c, t)
  {
    hide KeyFollows, Clean, Faithful, Indexed, Plainly;
    if c >= ' ' {
      CharacterFollows(cfg, e, c, t);
    } else if c == '\U{02}' || c == '\U{06}' || c == '\U{10}' || c == '\U{0E}' {
      MoveFollows(cfg, e, c, t);
    } else if c == '\r' || c == '\n' || c == ESC || c == '\t' || c == '\U{0C}' || c == '\U{03}' || c == '\U{12}' {
      CommandFollows(cfg, e, c, t);
    } else {
      EditKeyFollows(cfg, e, c, t);
    }
  }

  lemma CharacterFollows(cfg: Config, e: Editor, c: char, t: Term)
    requires Clean(e) && e.esc == NoEsc && e.search.None? && Faithful(e, t) && ' ' <= c < '\U{80}'
    ensures KeyFollows(Plainly(cfg, e, c), c, t)
  {
    hide Follows, FollowsBelow, Clean, Faithful, Indexed, Redraw, Submitted, EraseLeft, EraseRight, Home, End, Left, Right,
      KillLeft, KillRight, KillWord, Yank, Older, Newer, ClearScreen, Interrupt, StartSearch, Insert;
    if c == '\U{7F}' {
      EditFollows(cfg, e, t);
    } else {
      InsertFollows(cfg, e, c, t);
    }
  }

  lemma MoveFollows(cfg: Config, e: Editor, c: char, t: Term)
    requires Clean(e) && e.esc == NoEsc && e.search.None? && Faithful(e, t)
    requires c == '\U{02}' || c == '\U{06}' || c == '\U{10}' || c == '\U{0E}'
    ensures KeyFollows(Plainly(cfg, e, c), c, t)
  {
    hide Follows, FollowsBelow, Clean, Faithful, Indexed, Redraw, Submitted, EraseLeft, EraseRight, Home, End, Left, Right,
      KillLeft, KillRight, KillWord, Yank, Older, Newer, ClearScreen, Interrupt, StartSearch, Insert;
    LeftFollows(e, t);
    RightFollows(e, t);
    HistoryFollows(e, t);
  }

  lemma CommandFollows(cfg: Config, e: Editor, c: char, t: Term)
    requires Clean(e) && e.esc == NoEsc && e.search.None? && Faithful(e, t)
    requires c == '\r' || c == '\n' || c == ESC || c == '\t' || c == '\U{0C}' || c == '\U{03}' || c == '\U{12}'
    ensures KeyFollows(Plainly(cfg, e, c), c, t)
  {
    assert t.mode.Ground?;
    hide Follows, FollowsBelow, Clean, Faithful, Indexed, Redraw, Submitted, EraseLeft, EraseRight, Home, End, Left, Right,
      KillLeft, KillRight, KillWord, Yank, Older, Newer, ClearScreen, Interrupt, StartSearch, Insert;
    if c == '\r' || c == '\n' {
      SubmitFollows(cfg, e, t);
    } else if c == ESC {
      EscFollows(e, e.(esc := GotEsc), t);
    } else if c == '\t' {
      TabFollows(e, t);
    } else if c == '\U{0C}' {
      ClearFollows(e, t);
    } else if c == '\U{03}' {
      InterruptFollows(e, t);
    } else {
      SearchStarts(e, t);
    }
  }

  lemma EditKeyFollows(cfg: Config, e: Editor, c: char, t: Term)
    requires Clean(e) && e.esc == NoEsc && e.search.None? && Faithful(e, t) && c < ' '
    requires c != '\U{02}' && c != '\U{06}' && c != '\U{10}' && c != '\U{0E}' && c != '\U{12}'
    requires c != '\r' && c != '\n' && c != ESC && c != '\t' && c != '\U{0C}' && c != '\U{03}'
    ensures KeyFollows(Plainly(cfg, e, c), c, t)
  {
    hide Follows, FollowsBelow, Clean, Faithful, Indexed, Redraw, Submitted, EraseLeft, EraseRight, Home, End, Left, Right,
      KillLeft, KillRight, KillWord, Yank, Older, Newer, ClearScreen, Interrupt, StartSearch, Insert;
    UnchangedFollows(e, t);
    TabFollows(e, t);
    EditFollows(cfg, e, t);
  }

  lemma TabFollows(e: Editor, t: Term)
    requires Clean(e) && e.search.None?
    ensures Follows(Outcome(e, Complete), t) && Follows(Outcome(e, Eof), t)
  {
  }

  /** Keys that only move the decoder of escape sequences on. */
  lemma EscFollows(e: Editor, f: Editor, t: Term)
    requires Clean(e) && e.search.None? && Faithful(e, t) && f == e.(esc := f.esc, params := f.params)
    ensures Clean(f) && Faithful(f, t) && Follows(Unchanged(f), t)
  {
  }

  lemma SearchStarts(e: Editor, t: Term)
    requires Clean(e) && e.esc == NoEsc && e.search.None? && t.mode.Ground?
    ensures Follows(StartSearch(e), t)
  {
    var s := e.(search := Some(Search("", None)));
    hide Faithful, RenderSearch;
    SearchDraws(s, t);
  }

  lemma CsiFollows(e: Editor, c: char, t: Term)
    requires Clean(e) && e.search.None? && Faithful(e, t)
    ensures Follows(InCsiKey(e, c), t)
  {
    hide Follows, Clean, Faithful;
    var d := e.(esc := NoEsc, params := "");
    EscFollows(e, d, t);
    EscFollows(e, e.(params := e.params + [c]), t);
    EscFollows(e, e, t);
    EditFollows(Config(0, 0, s => s), d, t);
    LeftFollows(d, t);
    RightFollows(d, t);
    HistoryFollows(d, t);
  }

  // ---- In a search --------------------------------------------------------------------------------

  lemma AcceptedIsClean(cfg: Config, e: Editor)
    requires Clean(e) && e.search.Some?
    ensures Clean(Accepted(cfg, e))
  {
    hide Plain;
    PlainConcat(e.left, e.right);
    PlainSlice(e.prompt, 0, 0);
    if e.search.value.matched.Some? {
      var text := e.history[e.search.value.matched.value];
      if |text| > cfg.maxLine {
        PlainPieces(text, cfg.maxLine);
      }
    }
  }

  lemma ObeyedFollows(cfg: Config, e: Editor, c: char, t: Term)
    requires Clean(e) && e.search.Some? && t.mode.Ground? && c < '\U{80}'
    ensures KeyFollows(Obeyed(cfg, e, c), c, t)
  {
    var accepted := Accepted(cfg, e);
    AcceptedIsClean(cfg, e);
    AcceptedLeaves(cfg, e);
    hide Play, Clean, Redraw, Plainly, Faithful, Accepted;
    DrawnShows(accepted, t);
    var u := Play(t, Redraw(accepted));
    PlainlyFollows(cfg, accepted, c, u);
    var o := Plainly(cfg, accepted, c);
    if o.reaction.Write? {
      PlayConcat(t, Redraw(accepted), o.reaction.bytes);
    }
  }

  lemma AcceptedLeaves(cfg: Config, e: Editor)
    requires Indexed(e) && e.search.Some?
    ensures Accepted(cfg, e).search.None? && Accepted(cfg, e).esc == NoEsc && Indexed(Accepted(cfg, e))
  {
  }

  lemma SearchingFollows(e: Editor, query: string, t: Term)
    requires Clean(e) && e.search.Some? && t.mode.Ground? && Plain(query)
    ensures Follows(Searching(e, query), t) && Follows(SearchOlder(e), t)
  {
    hide Play, RenderSearch, Faithful, Plain, IsNewestMatch;
    MatchIsIndexed(e.history, |e.history|, query);
    var s := e.search.value;
    MatchIsIndexed(e.history, s.matched.GetOr(|e.history|), s.query);
    SearchDraws(Searching(e, query).editor, t);
    SearchDraws(SearchOlder(e).editor, t);
  }

  lemma MatchIsIndexed(history: seq<string>, before: nat, query: string)
    requires before <= |history|
    ensures var m := NewestMatch(history, before, query); m.Some? ==> m.value < |history|
  {
  }

  lemma SearchedFollows(cfg: Config, e: Editor, c: char, t: Term)
    requires Clean(e) && e.search.Some? && t.mode.Ground? && c < '\U{80}'
    ensures KeyFollows(Searched(cfg, e, c), c, t)
  {
    hide Follows, FollowsBelow, Faithful, Submitted, Accepted, Searching, SearchOlder, Obeyed;
    var query := e.search.value.query;
    if c == '\r' || c == '\n' {
      AcceptedIsClean(cfg, e);
      AcceptedLeaves(cfg, e);
      SubmitFollows(cfg, Accepted(cfg, e), t);
    } else if c == '\U{12}' {
      SearchingFollows(e, query, t);
    } else if c == '\U{07}' || c == '\U{03}' || c == ESC {
      DrawnFollows(e.(search := None), t);
    } else if c == '\U{08}' || c == '\U{7F}' {
      SearchingFollows(e, if query == "" then "" else query[..|query| - 1], t);
    } else if c >= ' ' {
      SearchingFollows(e, if |query| < cfg.maxLine then query + [c] else query, t);
    } else {
      ObeyedFollows(cfg, e, c, t);
    }
  }

  /** The line handed on is the one on the screen: all of it behind the prompt, wherever the cursor is; in a search
      the match that is shown, cut to the line cap, or with no match the line the search was started on. */
  ghost predicate SubmitsShown(cfg: Config, e: Editor, o: Outcome, t: Term)
    requires Indexed(e)
  {
    o.reaction.Submit? ==>
      var line := o.reaction.line;
      match e.search
      case None => t.row == e.prompt + line
      case Some(s) =>
        match s.matched
        case Some(i) =>
          && t.row == "(reverse-i-search)`" + s.query + "': " + e.history[i]
          && line <= e.history[i] && |line| == if |e.history[i]| <= cfg.maxLine then |e.history[i]| else cfg.maxLine
        case None => line == e.left + e.right
  }

  lemma OnlyEnterSubmits(cfg: Config, e: Editor, c: char)
    requires Indexed(e)
    ensures Pressed(cfg, e, c).reaction.Submit? <==> e.esc == NoEsc && (c == '\r' || c == '\n')
  {
    hide Redraw, RenderSearch, NewestMatch;
  }

  lemma PressSubmitsShown(cfg: Config, e: Editor, c: char, t: Term)
    requires Indexed(e) && Faithful(e, t)
    ensures SubmitsShown(cfg, e, Pressed(cfg, e, c), t)
  {
    OnlyEnterSubmits(cfg, e, c);
    hide Redraw, RenderSearch, NewestMatch, Plainly, Searched;
    if e.esc == NoEsc && (c == '\r' || c == '\n') {
      EnterIs(cfg, e, c);
    }
  }

  lemma EnterIs(cfg: Config, e: Editor, c: char)
    requires Indexed(e) && e.esc == NoEsc && (c == '\r' || c == '\n')
    ensures Pressed(cfg, e, c) == Submitted(cfg, if e.search.Some? then Accepted(cfg, e) else e)
  {
    hide Redraw, RenderSearch, NewestMatch;
  }

  /** Every key. */
  lemma PressFollows(cfg: Config, e: Editor, c: char, t: Term)
    requires Clean(e) && Faithful(e, t) && c < '\U{80}'
    ensures KeyFollows(Pressed(cfg, e, c), c, t) && SubmitsShown(cfg, e, Pressed(cfg, e, c), t)
  {
    hide Follows, FollowsBelow, Plainly, Searched, InCsiKey, Plain, SearchRow, SubmitsShown;
    PressSubmitsShown(cfg, e, c, t);
    match e.esc
    case GotEsc => EscFollows(e, Pressed(cfg, e, c).editor, t);
    case InCsi => CsiFollows(e, c, t);
    case NoEsc =>
      if e.search.Some? {
        SearchedFollows(cfg, e, c, t);
      } else {
        PlainlyFollows(cfg, e, c, t);
      }
  }

  /** A key that ends a search and whose outcome takes the place of the redraw. */
  ghost predicate DropsRedraw(cfg: Config, e: Editor, c: char)
    requires Indexed(e) && e.search.Some?
  {
    Pressed(cfg, e, c).reaction == Complete || Pressed(cfg, e, c).reaction == Eof
  }

  /** These keys are Tab, and Ctrl-D when the accepted line is empty. */
  lemma RedrawIsDroppedIff(cfg: Config, e: Editor, c: char)
    requires Indexed(e) && e.search.Some?
    ensures DropsRedraw(cfg, e, c) <==> c == '\t' || (c == '\U{04}' && Accepted(cfg, e).left == "")
  {
    hide Redraw, RenderSearch, NewestMatch;
    AcceptedLeaves(cfg, e);
    assert Accepted(cfg, e).left + "" == Accepted(cfg, e).left;
  }

  /** Tab in a search leaves a wrong row behind, unless the search row reads like the prompt followed by the
      accepted line. */
  lemma TabInSearch(cfg: Config, e: Editor, t: Term)
    requires Indexed(e) && e.search.Some? && Faithful(e, t)
    ensures Pressed(cfg, e, '\t') == Outcome(Accepted(cfg, e), Complete)
    ensures Faithful(Accepted(cfg, e), t) <==> SearchRow(e) == e.prompt + Accepted(cfg, e).left
  {
    var accepted := Accepted(cfg, e);
    assert accepted.prompt + accepted.left + "" == e.prompt + accepted.left;
  }

  /** It always does when the prompt is not empty and starts with anything but a parenthesis. */
  lemma TabLeavesStaleRow(cfg: Config, e: Editor, t: Term)
    requires Indexed(e) && e.search.Some? && Faithful(e, t) && e.prompt != "" && e.prompt[0] != '('
    ensures !Faithful(Pressed(cfg, e, '\t').editor, t)
  {
    TabInSearch(cfg, e, t);
    assert SearchRow(e)[0] == '(';
  }

  lemma TabInSearchIsStale(cfg: Config, t: Term)
    requires Shows(t, "(reverse-i-search)`': ", 0)
    ensures var e := Editor("$ ", "", "", "", [], None, "", NoEsc, "", Some(Search("", None)));
            Clean(e) && Faithful(e, t) && !Faithful(Pressed(cfg, e, '\t').editor, t)
  {
    var e := Editor("$ ", "", "", "", [], None, "", NoEsc, "", Some(Search("", None)));
    assert SearchRow(e) == "(reverse-i-search)`': ";
    TabLeavesStaleRow(cfg, e, t);
  }

  // ---- Whole sessions -----------------------------------------------------------------------------

  /** A key typed, or the caller's part: after a submitted line its output and a new prompt are written, and
      after Tab a completion or a listing may be. */
  datatype Event =
    | Key(c: char)
    | Render(output: string, prompt: string)
    | Completion(replacement: string, space: bool)
    | Candidates(text: string)

  /** The bytes draw the whole row anew, whatever it showed. */
  predicate DrawsAnew(o: Outcome)
    requires Indexed(o.editor)
  {
    o.reaction.Write? &&
    if o.editor.search.Some? then o.reaction.bytes == RenderSearch(o.editor)
    else
      || o.reaction.bytes == Redraw(o.editor)
      || o.reaction.bytes == ClearScreen(o.editor).reaction.bytes
      || (o.editor == Emptied(o.editor) && o.reaction.bytes == Interrupt(o.editor).reaction.bytes)
  }

  /** `due`: the line is yet to be drawn, by the caller or by a key that draws it anew. */
  datatype Session = Session(e: Editor, t: Term, due: bool)

  ghost function Advance(cfg: Config, s: Session, ev: Event): Session
    requires Indexed(s.e)
  {
    match ev
    case Key(c) =>
      var o := Pressed(cfg, s.e, c);
      (match o.reaction
       case Ignore => Session(o.editor, s.t, s.due)
       case Write(bytes) => Session(o.editor, Play(s.t, bytes), s.due && !DrawsAnew(o))
       case Submit(echo, _) => Session(o.editor, Play(s.t, echo), true)
       case _ => Session(o.editor, s.t, s.due || s.e.search.Some?))
    case Render(output, prompt) =>
      var e := s.e.(prompt := prompt);
      Session(e, Play(Play(s.t, output), Redraw(e)), false)
    case Completion(replacement, space) =>
      var e := Completed(cfg, s.e, replacement, space);
      Session(e, Play(s.t, Redraw(e)), false)
    case Candidates(text) => Session(s.e, Play(s.t, Listing(s.e, text)), false)
  }

  /** Keys are ASCII; what the caller writes is printable or a whole number of control sequences, and it writes
      outside searches. */
  predicate Orderly(s: Session, ev: Event) {
    match ev
    case Key(c) => c < '\U{80}'
    case Render(output, prompt) => s.e.search.None? && Plain(prompt) && Play(s.t, output).mode.Ground?
    case Completion(replacement, _) => s.e.search.None? && Plain(replacement)
    case Candidates(text) => s.e.search.None? && forall k :: 0 <= k < |text| ==> IsPrintable(text[k]) || text[k] == '\n'
  }

  ghost predicate Sound(s: Session) {
    Clean(s.e) && s.t.mode.Ground? && (!s.due ==> Faithful(s.e, s.t))
  }

  ghost function Run(cfg: Config, s: Session, evs: seq<Event>): Session
    requires Indexed(s.e)
    decreases |evs|
  {
    if evs == [] then s else Run(cfg, Advance(cfg, s, evs[0]), evs[1..])
  }

  ghost predicate AllOrderly(cfg: Config, s: Session, evs: seq<Event>)
    requires Indexed(s.e)
    decreases |evs|
  {
    evs == [] || (Orderly(s, evs[0]) && AllOrderly(cfg, Advance(cfg, s, evs[0]), evs[1..]))
  }

  /** Whether the terminal is inside a control sequence does not depend on what it shows. */
  lemma {:induction false} ModeAlone(t: Term, u: Term, bytes: string)
    requires t.mode == u.mode
    ensures Play(t, bytes).mode == Play(u, bytes).mode
    decreases |bytes|
  {
    if bytes != "" {
      ModeAlone(Step(t, bytes[0]), Step(u, bytes[0]), bytes[1..]);
    }
  }

  lemma AnewShows(o: Outcome, t: Term)
    requires Clean(o.editor) && DrawsAnew(o) && t.mode.Ground?
    ensures Faithful(o.editor, Play(t, o.reaction.bytes))
  {
    hide Redraw, RenderSearch, Play, Faithful, Plain;
    if o.editor.search.Some? {
      SearchDraws(o.editor, t);
    } else {
      DrawnShows(o.editor, t);
      ClearFollows(o.editor, t);
      InterruptFollows(o.editor, t);
    }
  }

  /** Going to either end of the line, clearing the screen, starting a search and giving the line up always
      draw it anew. */
  lemma SomeKeysDrawAnew(cfg: Config, e: Editor, c: char)
    requires Indexed(e) && e.esc == NoEsc && e.search.None?
    requires c == '\U{01}' || c == '\U{05}' || c == '\U{0C}' || c == '\U{12}' || c == '\U{03}'
    ensures DrawsAnew(Pressed(cfg, e, c))
  {
    hide Redraw, RenderSearch;
  }

  lemma SubmitEchoes(cfg: Config, e: Editor, c: char)
    requires Indexed(e)
    ensures Pressed(cfg, e, c).reaction.Submit? ==> Pressed(cfg, e, c).reaction.echo == NEW_LINE
  {
    hide Redraw, RenderSearch, NewestMatch;
  }

  lemma KeyIsSound(cfg: Config, s: Session, c: char)
    requires Sound(s) && c < '\U{80}'
    ensures Sound(Advance(cfg, s, Key(c)))
  {
    var row := if s.e.search.Some? then SearchRow(s.e) else s.e.prompt + s.e.left + s.e.right;
    var ideal := Term(Ground, [], row, if s.e.search.Some? then |row| else |row| - |s.e.right|, []);
    assert Faithful(s.e, ideal);
    PressFollows(cfg, s.e, c, ideal);
    if !s.due {
      PressFollows(cfg, s.e, c, s.t);
    }
    var o := Pressed(cfg, s.e, c);
    hide Clean, SearchRow, Pressed, Play, Indexed;
    SubmitEchoes(cfg, s.e, c);
    match o.reaction
    case Write(bytes) =>
      ModeAlone(s.t, ideal, bytes);
      if DrawsAnew(o) {
        AnewShows(o, s.t);
      }
    case Submit(echo, _) => PlayNewLine(s.t);
    case _ =>
  }

  /** Text and line breaks. */
  predicate Lines(s: string) {
    forall k :: 0 <= k < |s| ==> IsPrintable(s[k]) || s[k] == '\n' || s[k] == '\r'
  }

  lemma {:induction false} LinesStayGround(t: Term, s: string)
    requires t.mode.Ground? && Lines(s)
    ensures Play(t, s).mode.Ground?
    decreases |s|
  {
    if s != "" {
      LinesStayGround(Step(t, s[0]), s[1..]);
    }
  }

  lemma {:induction false} CrlfIsLines(text: string)
    requires Lines(text)
    ensures Lines(Crlf(text))
  {
    if text != "" {
      CrlfIsLines(text[1..]);
    }
  }

  lemma ListingShows(e: Editor, text: string, t: Term)
    requires Clean(e) && e.search.None? && t.mode.Ground? && Lines(text)
    ensures Faithful(e, Play(t, Listing(e, text))) && Play(t, Listing(e, text)).mode.Ground?
  {
    hide Play, Redraw, Clean;
    CrlfIsLines(text);
    var head := NEW_LINE + Crlf(text) + (if text != "" && text[|text| - 1] == '\n' then "" else NEW_LINE);
    PlayConcat(t, head, Redraw(e));
    LinesStayGround(t, head);
    DrawnShows(e, Play(t, head));
  }

  lemma CompletedIsClean(cfg: Config, e: Editor, replacement: string, space: bool)
    requires Clean(e) && Plain(replacement)
    ensures Clean(Completed(cfg, e, replacement, space))
  {
    var head := e.left[..WordStart(e.left)];
    PlainPieces(e.left, WordStart(e.left));
    PlainConcat(head, replacement);
    PlainConcat(head + replacement, if space then " " else "");
    var left := |Completed(cfg, e, replacement, space).left|;
    var room := if left <= cfg.maxLine then cfg.maxLine - left else 0;
    if |e.right| > room {
      PlainPieces(e.right, CharStart(e.right, room));
    }
  }

  lemma CallerIsSound(cfg: Config, s: Session, ev: Event)
    requires Sound(s) && Orderly(s, ev) && !ev.Key?
    ensures Sound(Advance(cfg, s, ev))
  {
    assert Indexed(s.e);
    hide Play, Clean, Redraw, Faithful, Completed, Listing, Indexed;
    match ev
    case Render(output, prompt) =>
      PromptIsClean(s.e, prompt);
      DrawnShows(s.e.(prompt := prompt), Play(s.t, output));
      FaithfulIsGround(s.e.(prompt := prompt), Advance(cfg, s, ev).t);
    case Completion(replacement, space) =>
      CompletedIsClean(cfg, s.e, replacement, space);
      CompletedLeaves(cfg, s.e, replacement, space);
      DrawnShows(Completed(cfg, s.e, replacement, space), s.t);
      FaithfulIsGround(Completed(cfg, s.e, replacement, space), Advance(cfg, s, ev).t);
    case Candidates(text) => ListingShows(s.e, text, s.t);
  }

  lemma PromptIsClean(e: Editor, prompt: string)
    requires Clean(e) && Plain(prompt)
    ensures Clean(e.(prompt := prompt))
  {
  }

  lemma FaithfulIsGround(e: Editor, t: Term)
    requires Indexed(e) && Faithful(e, t)
    ensures t.mode.Ground?
  {
  }

  lemma CompletedLeaves(cfg: Config, e: Editor, replacement: string, space: bool)
    requires e.search.None?
    ensures Completed(cfg, e, replacement, space).search.None?
  {
  }

  /** Whatever is submitted along the way is what the screen shows at that moment. */
  ghost predicate AllShown(cfg: Config, s: Session, evs: seq<Event>)
    requires Indexed(s.e)
    decreases |evs|
  {
    evs == [] ||
    ((evs[0].Key? && !s.due ==> SubmitsShown(cfg, s.e, Pressed(cfg, s.e, evs[0].c), s.t)) && AllShown(cfg, Advance(cfg, s, evs[0]), evs[1..]))
  }

  /** Over every run of keys and renderings, whenever the caller has nothing to draw the row under the cursor
      shows the prompt and the line with the cursor in its place, or the search, and Enter hands on what it
      shows. */
  lemma {:induction false} RunIsFaithful(cfg: Config, s: Session, evs: seq<Event>)
    requires Sound(s) && AllOrderly(cfg, s, evs)
    ensures Sound(Run(cfg, s, evs)) && AllShown(cfg, s, evs)
    decreases |evs|
  {
    assert Indexed(s.e);
    hide Sound, Advance, Indexed, SubmitsShown;
    if evs != [] {
      ShownIfSound(cfg, s, evs[0]);
      StepIsSound(cfg, s, evs[0]);
      RunIsFaithful(cfg, Advance(cfg, s, evs[0]), evs[1..]);
    }
  }

  lemma ShownIfSound(cfg: Config, s: Session, ev: Event)
    requires Sound(s)
    ensures ev.Key? && !s.due ==> SubmitsShown(cfg, s.e, Pressed(cfg, s.e, ev.c), s.t)
  {
    hide SubmitsShown, Pressed, Faithful, Plain;
    if ev.Key? && !s.due {
      PressSubmitsShown(cfg, s.e, ev.c, s.t);
    }
  }

  lemma StepIsSound(cfg: Config, s: Session, ev: Event)
    requires Sound(s) && Orderly(s, ev)
    ensures Sound(Advance(cfg, s, ev))
  {
    hide Sound, Advance;
    if ev.Key? {
      KeyIsSound(cfg, s, ev.c);
    } else {
      CallerIsSound(cfg, s, ev);
    }
  }

  /** A new editor has drawn nothing yet; the first rendering does. */
  lemma FreshIsSound(t: Term)
    requires t.mode.Ground?
    ensures Sound(Session(Fresh(), t, true))
  {
  }
}
