/**
  What the keys do to the line, said of the keys themselves and of the whole text: what they leave alone, what
  undoes them, and what comes back.
 */
module LineLaws {
  import opened LineModel
  import opened Terminal
  import opened Text
  import opened Wrappers

  const CTRL_A: char := '\U{01}'
  const CTRL_B: char := '\U{02}'
  const CTRL_C: char := '\U{03}'
  const CTRL_D: char := '\U{04}'
  const CTRL_E: char := '\U{05}'
  const CTRL_F: char := '\U{06}'
  const CTRL_K: char := '\U{0B}'
  const CTRL_N: char := '\U{0E}'
  const CTRL_P: char := '\U{10}'
  const CTRL_R: char := '\U{12}'
  const CTRL_U: char := '\U{15}'
  const CTRL_W: char := '\U{17}'
  const CTRL_Y: char := '\U{19}'
  const DELETE: char := '\U{7F}'

  /** Neither in an escape sequence nor in a search. */
  predicate AtEase(e: Editor) {
    Indexed(e) && e.esc == NoEsc && e.search.None?
  }

  function Line(e: Editor): string {
    e.left + e.right
  }

  ghost function After(cfg: Config, e: Editor, keys: string): (r: Editor)
    requires Indexed(e)
    ensures Indexed(r)
    decreases |keys|
  {
    if keys == "" then e else After(cfg, Pressed(cfg, e, keys[0]).editor, keys[1..])
  }

  lemma AfterTwo(cfg: Config, e: Editor, c: char, d: char)
    requires Indexed(e)
    ensures After(cfg, e, [c]) == Pressed(cfg, e, c).editor
    ensures After(cfg, e, [c, d]) == Pressed(cfg, Pressed(cfg, e, c).editor, d).editor
  {
    hide Pressed;
    var f := Pressed(cfg, e, c).editor;
    assert [c][1..] == "" && [c, d][1..] == [d] && [d][1..] == "";
    assert After(cfg, f, [d]) == After(cfg, Pressed(cfg, f, d).editor, "");
  }

  // ---- Moving -------------------------------------------------------------------------------------

  /** One character: its first byte, and the continuation bytes after it. */
  predicate OneChar(s: string) {
    s != "" && forall k :: 0 < k < |s| ==> IsContinuation(s[k])
  }

  lemma {:induction false} CharStartIs(s: string, i: nat)
    requires i < |s|
    ensures var j := CharStart(s, i);
      j <= i && (j == 0 || !IsContinuation(s[j])) && forall k :: j < k <= i ==> IsContinuation(s[k])
  {
    if i > 0 && IsContinuation(s[i]) {
      CharStartIs(s, i - 1);
    }
  }

  lemma {:induction false} CharEndIs(s: string, i: nat)
    requires i <= |s|
    ensures var j := CharEnd(s, i);
      i <= j <= |s| && (j == |s| || !IsContinuation(s[j])) && forall k :: i <= k < j ==> IsContinuation(s[k])
    decreases |s| - i
  {
    if i < |s| && IsContinuation(s[i]) {
      CharEndIs(s, i + 1);
    }
  }

  /** Going to either end changes where the cursor is and nothing of the line. */
  lemma EndsKeepLine(cfg: Config, e: Editor)
    requires AtEase(e)
    ensures var f := Pressed(cfg, e, CTRL_A).editor; f == e.(left := "", right := f.right) && Line(f) == Line(e)
    ensures var f := Pressed(cfg, e, CTRL_E).editor; f == e.(left := f.left, right := "") && Line(f) == Line(e)
  {
    hide Redraw;
    assert "" + (e.left + e.right) == e.left + e.right && (e.left + e.right) + "" == e.left + e.right;
  }

  /** Ctrl-B goes back over one character, if there is one, and changes nothing of the line. */
  lemma BackKeepsLine(cfg: Config, e: Editor)
    requires AtEase(e)
    ensures var f := Pressed(cfg, e, CTRL_B).editor;
      && f == e.(left := f.left, right := f.right) && Line(f) == Line(e)
      && (e.left == "" ==> f == e)
      && (e.left != "" ==> |f.left| < |e.left| && OneChar(e.left[|f.left|..]) && (f.left == "" || !IsContinuation(e.left[|f.left|])))
  {
    hide Redraw, CharStart;
    if e.left != "" {
      CharStartIs(e.left, |e.left| - 1);
      var i := CharStart(e.left, |e.left| - 1);
      assert e.left[..i] + (e.left[i..] + e.right) == e.left + e.right;
      assert Pressed(cfg, e, CTRL_B).editor == e.(left := e.left[..i], right := e.left[i..] + e.right);
    }
  }

  /** Ctrl-F the same forwards. */
  lemma ForwardKeepsLine(cfg: Config, e: Editor)
    requires AtEase(e)
    ensures var f := Pressed(cfg, e, CTRL_F).editor;
      && f == e.(left := f.left, right := f.right) && Line(f) == Line(e)
      && (e.right == "" ==> f == e)
      && (e.right != "" ==>
            |f.right| < |e.right| && OneChar(e.right[..|e.right| - |f.right|]) && (f.right == "" || !IsContinuation(f.right[0])))
  {
    hide Redraw, CharEnd;
    if e.right != "" {
      CharEndIs(e.right, 1);
      var i := CharEnd(e.right, 1);
      assert (e.left + e.right[..i]) + e.right[i..] == e.left + e.right;
      assert Pressed(cfg, e, CTRL_F).editor == e.(left := e.left + e.right[..i], right := e.right[i..]);
    }
  }

  predicate IsMove(c: char) {
    c == CTRL_A || c == CTRL_E || c == CTRL_B || c == CTRL_F
  }

  lemma MovesKeepLine(cfg: Config, e: Editor, c: char)
    requires AtEase(e) && IsMove(c)
    ensures var f := Pressed(cfg, e, c).editor; AtEase(f) && Line(f) == Line(e)
  {
    hide Pressed;
    EndsKeepLine(cfg, e);
    BackKeepsLine(cfg, e);
    ForwardKeepsLine(cfg, e);
  }

  /** The keys of the keypad do what the control keys do: `ESC [` and a letter. */
  lemma ArrowsAreKeys(cfg: Config, e: Editor)
    requires AtEase(e) && e.params == ""
    ensures After(cfg, e, [ESC, '[', 'A']) == Pressed(cfg, e, CTRL_P).editor
    ensures After(cfg, e, [ESC, '[', 'B']) == Pressed(cfg, e, CTRL_N).editor
    ensures After(cfg, e, [ESC, '[', 'C']) == Pressed(cfg, e, CTRL_F).editor
    ensures After(cfg, e, [ESC, '[', 'D']) == Pressed(cfg, e, CTRL_B).editor
    ensures After(cfg, e, [ESC, '[', 'H']) == Pressed(cfg, e, CTRL_A).editor
    ensures After(cfg, e, [ESC, '[', 'F']) == Pressed(cfg, e, CTRL_E).editor
  {
    hide Redraw, Older, Newer, Left, Right, Home, End;
    ArrowIs(cfg, e, 'A');
    ArrowIs(cfg, e, 'B');
    ArrowIs(cfg, e, 'C');
    ArrowIs(cfg, e, 'D');
    ArrowIs(cfg, e, 'H');
    ArrowIs(cfg, e, 'F');
  }

  lemma ArrowIs(cfg: Config, e: Editor, c: char)
    requires AtEase(e) && e.params == ""
    ensures After(cfg, e, [ESC, '[', c]) == InCsiKey(e.(esc := InCsi), c).editor
  {
    hide InCsiKey;
    var f := Pressed(cfg, e, ESC).editor;
    assert f == e.(esc := GotEsc);
    var g := Pressed(cfg, f, '[').editor;
    assert g == e.(esc := InCsi);
    assert [ESC, '[', c][1..] == ['[', c] && ['[', c][0] == '[';
    AfterTwo(cfg, f, '[', c);
  }

  /** The keys that send `ESC [`, a number and a tilde; and `ESC O` is as good as `ESC [`. */
  lemma KeypadIs(cfg: Config, e: Editor, digit: char, c: char)
    requires AtEase(e) && e.params == ""
    ensures digit == '1' || digit == '7' ==> After(cfg, e, [ESC, '[', digit, '~']) == Pressed(cfg, e, CTRL_A).editor
    ensures digit == '4' || digit == '8' ==> After(cfg, e, [ESC, '[', digit, '~']) == Pressed(cfg, e, CTRL_E).editor
    ensures digit == '3' && Line(e) != "" ==> After(cfg, e, [ESC, '[', digit, '~']) == Pressed(cfg, e, CTRL_D).editor
    ensures After(cfg, e, [ESC, 'O', c]) == After(cfg, e, [ESC, '[', c])
  {
    hide Redraw, InCsiKey;
    if '0' <= digit <= '9' {
      TildeIs(cfg, e, digit);
      TildeKey(e.(esc := InCsi), digit);
    }
    ArrowIs(cfg, e, c);
    AfterTwo(cfg, e.(esc := GotEsc), 'O', c);
    assert [ESC, 'O', c][1..] == ['O', c] && ['O', c][0] == 'O';
  }

  lemma TildeKey(e: Editor, digit: char)
    requires Indexed(e) && '0' <= digit <= '9' && e.params == ""
    ensures InCsiKey(e, digit).editor == e.(params := [digit])
    ensures var f := e.(params := [digit]);
      InCsiKey(f, '~') ==
        if digit == '1' || digit == '7' then Home(e.(esc := NoEsc))
        else if digit == '4' || digit == '8' then End(e.(esc := NoEsc))
        else if digit == '3' then EraseRight(e.(esc := NoEsc))
        else Unchanged(e.(esc := NoEsc))
  {
    hide Home, End, EraseRight;
    assert e.(params := "") == e;
  }

  lemma TildeIs(cfg: Config, e: Editor, digit: char)
    requires AtEase(e) && e.params == "" && '0' <= digit <= '9'
    ensures var f := InCsiKey(e.(esc := InCsi), digit).editor;
      After(cfg, e, [ESC, '[', digit, '~']) == InCsiKey(f, '~').editor
  {
    var f := e.(esc := GotEsc);
    var g := e.(esc := InCsi);
    assert Pressed(cfg, e, ESC).editor == f && Pressed(cfg, f, '[').editor == g;
    var keys := [ESC, '[', digit, '~'];
    assert keys[1..] == ['[', digit, '~'] && ['[', digit, '~'][1..] == [digit, '~'];
    AfterTwo(cfg, g, digit, '~');
    hide InCsiKey;
  }

  /** Ctrl-C gives the line up and keeps the history; on an empty line Ctrl-D ends the session. */
  lemma InterruptClears(cfg: Config, e: Editor)
    requires AtEase(e)
    ensures var f := Pressed(cfg, e, CTRL_C).editor;
      Line(f) == "" && f.history == e.history && f.kill == e.kill && f.browsing.None? && AtEase(f)
    ensures Pressed(cfg, e, CTRL_D).reaction == Eof <==> Line(e) == ""
    ensures Pressed(cfg, e, '\t') == Outcome(e, Complete)
  {
    hide Redraw;
  }

  // ---- Typing and erasing -------------------------------------------------------------------------

  /** A printable byte goes in at the cursor, and erasing takes it out again. */
  lemma TypedIsErased(cfg: Config, e: Editor, c: char)
    requires AtEase(e) && |Line(e)| < cfg.maxLine && c >= ' ' && c != DELETE && !IsContinuation(c)
    ensures var f := Pressed(cfg, e, c).editor;
      && f == e.(left := e.left + [c], browsing := None)
      && Line(f) == e.left + [c] + e.right
      && Pressed(cfg, f, DELETE).editor == e.(browsing := None)
      && Pressed(cfg, f, '\U{08}').editor == e.(browsing := None)
  {
    hide Redraw;
    var f := e.(left := e.left + [c], browsing := None);
    assert (e.left + [c])[..|e.left|] == e.left;
    assert Pressed(cfg, e, c).editor == f;
  }

  /** A full line takes no more. */
  lemma FullTakesNothing(cfg: Config, e: Editor, c: char)
    requires AtEase(e) && |Line(e)| >= cfg.maxLine && c >= ' ' && c != DELETE
    ensures Pressed(cfg, e, c) == Outcome(e, Ignore)
  {
  }

  /** Backspace erases the character Ctrl-B would go back over, Ctrl-D the one Ctrl-F would go over. */
  lemma ErasesWhatIsPassed(cfg: Config, e: Editor)
    requires AtEase(e)
    ensures Pressed(cfg, e, DELETE).editor == e.(left := Pressed(cfg, e, CTRL_B).editor.left)
    ensures Line(e) != "" ==> Pressed(cfg, e, CTRL_D).editor == e.(right := Pressed(cfg, e, CTRL_F).editor.right)
  {
    hide Redraw;
  }

  lemma {:induction false} TypingAppends(cfg: Config, e: Editor, text: string)
    requires AtEase(e) && e.right == "" && |e.left| + |text| <= cfg.maxLine
    requires forall k :: 0 <= k < |text| ==> text[k] >= ' ' && text[k] != DELETE
    ensures var f := After(cfg, e, text);
      AtEase(f) && f.left == e.left + text && f.right == "" && f.history == e.history && f.prompt == e.prompt && f.kill == e.kill
    decreases |text|
  {
    hide Redraw;
    if text != "" {
      var f := Pressed(cfg, e, text[0]).editor;
      assert f == e.(left := e.left + [text[0]], browsing := None);
      TypingAppends(cfg, f, text[1..]);
      assert e.left + [text[0]] + text[1..] == e.left + text;
    } else {
      assert e.left + "" == e.left;
    }
  }

  /** What is typed on an empty line and entered is handed on as it was typed, also when the cursor was moved away
      from its end. */
  lemma TypedIsSubmitted(cfg: Config, e: Editor, text: string, move: char)
    requires AtEase(e) && Line(e) == "" && |text| <= cfg.maxLine
    requires forall k :: 0 <= k < |text| ==> text[k] >= ' ' && text[k] != DELETE
    requires IsMove(move)
    ensures var f := After(cfg, e, text);
      && Pressed(cfg, f, '\r').reaction == Submit("\r\n", text)
      && Pressed(cfg, Pressed(cfg, f, move).editor, '\r').reaction == Submit("\r\n", text)
  {
    TypingAppends(cfg, e, text);
    var f := After(cfg, e, text);
    MovesKeepLine(cfg, f, move);
    hide Pressed, After;
    assert "" + text == text && text + "" == text;
    EntersLine(cfg, f);
    EntersLine(cfg, Pressed(cfg, f, move).editor);
  }

  lemma EntersLine(cfg: Config, e: Editor)
    requires AtEase(e)
    ensures Pressed(cfg, e, '\r').reaction == Submit("\r\n", Line(e)) && Pressed(cfg, e, '\n') == Pressed(cfg, e, '\r')
    ensures Line(Pressed(cfg, e, '\r').editor) == ""
  {
  }

  // ---- Killing ------------------------------------------------------------------------------------

  /** What is killed before the cursor comes back at the same place: the line and the cursor are as they were. */
  lemma KilledLeftComesBack(cfg: Config, e: Editor, c: char)
    requires AtEase(e) && |Line(e)| <= cfg.maxLine && (c == CTRL_U || c == CTRL_W) && e.left != ""
    ensures var f := Pressed(cfg, e, c).editor;
      && |f.left| < |e.left| && f.right == e.right && f.left + f.kill == e.left
      && var g := Pressed(cfg, f, CTRL_Y).editor; g.left == e.left && g.right == e.right
  {
    hide Redraw, SkipBack;
    WordIsKilled(e.left);
    var i := if c == CTRL_U then 0 else SkipBack(e.left, false, SkipBack(e.left, true, |e.left|));
    assert e.left[..i] + e.left[i..] == e.left;
    KilledAt(cfg, e, c, i);
    YanksBack(cfg, Pressed(cfg, e, c).editor);
  }

  lemma KilledAt(cfg: Config, e: Editor, c: char, i: nat)
    requires AtEase(e) && e.left != "" && (c == CTRL_U || c == CTRL_W)
    requires i == if c == CTRL_U then 0 else SkipBack(e.left, false, SkipBack(e.left, true, |e.left|))
    ensures i <= |e.left| && Pressed(cfg, e, c).editor == e.(left := e.left[..i], kill := e.left[i..])
  {
    hide Redraw, SkipBack;
    assert e.left[0..] == e.left && e.left[..0] == "";
  }

  lemma YanksBack(cfg: Config, e: Editor)
    requires AtEase(e) && |Line(e)| + |e.kill| <= cfg.maxLine
    ensures var f := Pressed(cfg, e, CTRL_Y).editor; f.left == e.left + e.kill && f.right == e.right && f.kill == e.kill
  {
    hide Redraw;
    assert e.left + "" == e.left;
  }

  /** What is killed after the cursor comes back before it: the line is as it was. */
  lemma KilledRightComesBack(cfg: Config, e: Editor)
    requires AtEase(e) && |Line(e)| <= cfg.maxLine && e.right != ""
    ensures var f := Pressed(cfg, e, CTRL_K).editor;
      && Line(f) == e.left && f.kill == e.right
      && Line(Pressed(cfg, f, CTRL_Y).editor) == Line(e)
  {
    hide Redraw;
    assert e.left + e.right + "" == e.left + e.right;
    assert e.left + "" == e.left;
  }

  lemma {:induction false} SkipBackIs(s: string, blanks: bool, i: nat)
    requires i <= |s|
    ensures var j := SkipBack(s, blanks, i);
      && j <= i && (forall k :: j <= k < i ==> IsAsciiWhitespace(s[k]) == blanks)
      && (j == 0 || IsAsciiWhitespace(s[j - 1]) != blanks)
  {
    if i > 0 && IsAsciiWhitespace(s[i - 1]) == blanks {
      SkipBackIs(s, blanks, i - 1);
    }
  }

  /** Ctrl-W kills one word and the blanks after it. */
  lemma WordIsKilled(left: string)
    requires left != ""
    ensures var j := SkipBack(left, true, |left|);
      var i := SkipBack(left, false, j);
      && i < |left| && i <= j
      && (i == 0 || IsAsciiWhitespace(left[i - 1]))
      && (forall k :: i <= k < j ==> !IsAsciiWhitespace(left[k])) && (forall k :: j <= k < |left| ==> IsAsciiWhitespace(left[k]))
  {
    SkipBackIs(left, true, |left|);
    SkipBackIs(left, false, SkipBack(left, true, |left|));
  }

  // ---- History ------------------------------------------------------------------------------------

  /** Going up and down again brings the line in progress back. */
  lemma UpAndDownComesBack(cfg: Config, e: Editor)
    requires AtEase(e) && e.browsing.None? && e.history != []
    ensures var f := Pressed(cfg, e, CTRL_P).editor;
      && Line(f) == e.history[|e.history| - 1] && f.right == ""
      && Line(Pressed(cfg, f, CTRL_N).editor) == Line(e)
      && Pressed(cfg, f, CTRL_N).editor.browsing.None?
  {
    hide Redraw;
    var last := e.history[|e.history| - 1];
    assert last + "" == last && Line(e) + "" == Line(e);
  }

  /** While browsing, one key goes to the entry before and the other to the one after. */
  lemma BrowsingSteps(cfg: Config, e: Editor)
    requires AtEase(e) && e.browsing.Some?
    ensures var i := e.browsing.value;
      && (i > 0 ==> Line(Pressed(cfg, e, CTRL_P).editor) == e.history[i - 1])
      && (i == 0 ==> Pressed(cfg, e, CTRL_P).editor == e)
      && (i + 1 < |e.history| ==> Line(Pressed(cfg, e, CTRL_N).editor) == e.history[i + 1])
  {
    hide Redraw;
    var i := e.browsing.value;
    if i > 0 {
      assert e.history[i - 1] + "" == e.history[i - 1];
    }
    if i + 1 < |e.history| {
      assert e.history[i + 1] + "" == e.history[i + 1];
    }
  }

  /** A line that was entered comes up again, without the blanks around it. */
  lemma EnteredComesUp(cfg: Config, e: Editor)
    requires AtEase(e) && cfg.maxHistory > 0 && IsAscii(Line(e)) && Trim(Line(e)) != ""
    ensures var f := Pressed(cfg, e, '\r').editor;
      AtEase(f) && Line(Pressed(cfg, f, CTRL_P).editor) == Trim(Line(e))
  {
    hide Redraw, Trim;
    var f := Pressed(cfg, e, '\r').editor;
    assert f.history != [] && f.history[|f.history| - 1] == Trim(Line(e));
    UpAndDownComesBack(cfg, f);
  }

  // ---- Searching ----------------------------------------------------------------------------------

  /** Opening a search and typing in it leave the line alone, whatever is found. */
  lemma SearchKeepsLine(cfg: Config, e: Editor, c: char)
    requires Indexed(e) && (e.search.Some? || (AtEase(e) && c == CTRL_R))
    ensures Pressed(cfg, e, c).editor.search.Some? ==>
      var f := Pressed(cfg, e, c).editor; f.left == e.left && f.right == e.right && f.history == e.history
  {
    hide Redraw, RenderSearch, NewestMatch, SearchRow;
    if e.search.Some? && c != CTRL_R {
      ObeyedOpensNothing(cfg, e, c);
    }
  }

  lemma ObeyedOpensNothing(cfg: Config, e: Editor, c: char)
    requires Indexed(e) && e.search.Some? && c != CTRL_R
    ensures Obeyed(cfg, e, c).editor.search.None?
  {
    hide Redraw, RenderSearch, NewestMatch, SearchRow;
  }

  /** The search stays open over all of `keys`. */
  ghost predicate StaysOpen(cfg: Config, e: Editor, keys: string)
    requires Indexed(e)
    decreases |keys|
  {
    e.search.Some? && (keys == "" || StaysOpen(cfg, Pressed(cfg, e, keys[0]).editor, keys[1..]))
  }

  lemma {:induction false} OpenSearchKeepsLine(cfg: Config, e: Editor, keys: string)
    requires Indexed(e) && StaysOpen(cfg, e, keys)
    ensures var f := After(cfg, e, keys); f.search.Some? && f.left == e.left && f.right == e.right && f.history == e.history
    decreases |keys|
  {
    hide Pressed;
    if keys != "" {
      SearchKeepsLine(cfg, e, keys[0]);
      OpenSearchKeepsLine(cfg, Pressed(cfg, e, keys[0]).editor, keys[1..]);
    }
  }

  /** Enter in a search: the match, cut to the cap; or, where nothing has been found, the line the search was started
      on. */
  lemma SearchSubmits(cfg: Config, e: Editor, keys: string)
    requires AtEase(e) && StaysOpen(cfg, Pressed(cfg, e, CTRL_R).editor, keys)
    ensures var f := After(cfg, Pressed(cfg, e, CTRL_R).editor, keys);
      && f.search.Some? && f.history == e.history
      && Pressed(cfg, f, '\r').reaction ==
           match f.search.value.matched
           case None => Submit("\r\n", Line(e))
           case Some(i) => Submit("\r\n", if |f.history[i]| > cfg.maxLine then f.history[i][..cfg.maxLine] else f.history[i])
  {
    SearchKeepsLine(cfg, e, CTRL_R);
    OpenSearchKeepsLine(cfg, Pressed(cfg, e, CTRL_R).editor, keys);
    var f := After(cfg, Pressed(cfg, e, CTRL_R).editor, keys);
    hide After, StaysOpen;
    EnterAccepts(cfg, f);
  }

  lemma EnterAccepts(cfg: Config, e: Editor)
    requires Indexed(e) && e.search.Some?
    ensures Pressed(cfg, e, '\r').reaction ==
      match e.search.value.matched
      case None => Submit("\r\n", Line(e))
      case Some(i) => Submit("\r\n", if |e.history[i]| > cfg.maxLine then e.history[i][..cfg.maxLine] else e.history[i])
  {
    hide NewestMatch;
    var d := Accepted(cfg, e);
    assert d.left + "" == d.left;
    assert Pressed(cfg, e, '\r') == Submitted(cfg, d);
  }

  // ---- Completing ---------------------------------------------------------------------------------

  /** A completion takes the place of the word before the cursor; what is before that word stays, and so does what is
      after the cursor as far as it fits. */
  lemma CompletionReplacesWord(cfg: Config, e: Editor, replacement: string, space: bool)
    ensures var f := Completed(cfg, e, replacement, space);
      var i := WordStart(e.left);
      && (i == 0 || IsAsciiWhitespace(e.left[i - 1])) && (forall k :: i <= k < |e.left| ==> !IsAsciiWhitespace(e.left[k]))
      && f.left == e.left[..i] + replacement + (if space then " " else "")
      && f.right <= e.right && (|f.left| + |e.right| <= cfg.maxLine ==> f.right == e.right)
      && f == e.(left := f.left, right := f.right)
  {
    SkipBackIs(e.left, false, |e.left|);
  }

  /** Entering the line that was entered last changes nothing in the history; entering another puts it at the end, and
      keeps as many of the older ones as there is room for. */
  lemma HistoryIs(cfg: Config, e: Editor)
    requires AtEase(e) && IsAscii(Line(e))
    ensures var h, entry := Pressed(cfg, e, '\r').editor.history, Trim(Line(e));
      && (entry == "" || (e.history != [] && e.history[|e.history| - 1] == entry) ==> h == e.history)
      && (entry != "" && (e.history == [] || e.history[|e.history| - 1] != entry) && |e.history| < cfg.maxHistory ==>
            h == e.history + [entry])
      && (entry != "" && (e.history == [] || e.history[|e.history| - 1] != entry) && |e.history| == cfg.maxHistory > 0 ==>
            h == e.history[1..] + [entry])
  {
    hide Trim;
    var entry := Trim(Line(e));
    if |e.history| == cfg.maxHistory > 0 {
      assert (e.history + [entry])[1..] == e.history[1..] + [entry];
    }
  }

  /** What is typed in a search goes into the query, and the newest entry that has the query in it is shown; Ctrl-R goes
      on to the next older one; giving up leaves the search with the line as it was. */
  lemma SearchKeys(cfg: Config, e: Editor, c: char)
    requires Indexed(e) && e.search.Some?
    ensures var q, f := e.search.value.query, Pressed(cfg, e, c).editor;
      && (c >= ' ' && c != DELETE && |q| < cfg.maxLine ==>
            f.search.Some? && f.search.value.query == q + [c] && IsNewestMatch(e.history, |e.history|, q + [c], f.search.value.matched))
      && ((c == DELETE || c == '\U{08}') && q != "" ==>
            f.search.Some? && f.search.value.query == q[..|q| - 1]
            && IsNewestMatch(e.history, |e.history|, q[..|q| - 1], f.search.value.matched))
      && (c == CTRL_C || c == ESC || c == '\U{07}' ==> f == e.(search := None))
    ensures var s, f := e.search.value, Pressed(cfg, e, CTRL_R).editor;
      && f.search.Some? && f.search.value.query == s.query
      && (f.search.value.matched != s.matched ==>
            f.search.value.matched.Some? && IsNewestMatch(e.history, s.matched.GetOr(|e.history|), s.query, f.search.value.matched))
      && (f.search.value.matched == s.matched ==>
            s.query == "" || forall j :: 0 <= j < s.matched.GetOr(|e.history|) ==> !Contains(e.history[j], s.query))
  {
    hide Redraw, RenderSearch, Contains;
    OlderMatch(e);
    assert Pressed(cfg, e, CTRL_R) == SearchOlder(e);
  }

  lemma OlderMatch(e: Editor)
    requires Indexed(e) && e.search.Some?
    ensures var s, f := e.search.value, SearchOlder(e).editor;
      && f.search.Some? && f.search.value.query == s.query
      && (f.search.value.matched != s.matched ==>
            f.search.value.matched.Some? && IsNewestMatch(e.history, s.matched.GetOr(|e.history|), s.query, f.search.value.matched))
      && (f.search.value.matched == s.matched ==>
            s.query == "" || forall j :: 0 <= j < s.matched.GetOr(|e.history|) ==> !Contains(e.history[j], s.query))
  {
    hide RenderSearch, Contains;
  }
}
