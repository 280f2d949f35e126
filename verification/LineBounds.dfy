/**
  How long the editor's texts can get, over every byte that can be typed. A history entry is a submitted line
  decoded as UTF-8 and encoded again, which can be longer than the line: each stray byte becomes the three
  bytes of U+FFFD.
 */
module LineBounds {
  import opened Division
  import opened LineModel
  import opened Terminal
  import opened Text
  import opened Wrappers

  // ---- UTF-8 (section 4 of RFC 3629) --------------------------------------------------------------

  /** The second byte of a character goes with the first. */
  predicate SecondFits(c: char, d: char) {
    && IsContinuation(d)
    && (c == '\U{E0}' ==> d >= '\U{A0}') && (c == '\U{ED}' ==> d < '\U{A0}')
    && (c == '\U{F0}' ==> d >= '\U{90}') && (c == '\U{F4}' ==> d < '\U{90}')
  }

  /** The length of the character at the head of `s`, or zero if there is none. */
  function CharLength(s: string): (n: nat)
    ensures n <= |s|
  {
    if s == "" then 0
    else if s[0] < '\U{80}' then 1
    else if '\U{C2}' <= s[0] <= '\U{DF}' then (if |s| >= 2 && SecondFits(s[0], s[1]) then 2 else 0)
    else if '\U{E0}' <= s[0] <= '\U{EF}' then (if |s| >= 3 && SecondFits(s[0], s[1]) && IsContinuation(s[2]) then 3 else 0)
    else if '\U{F0}' <= s[0] <= '\U{F4}' then
      (if |s| >= 4 && SecondFits(s[0], s[1]) && IsContinuation(s[2]) && IsContinuation(s[3]) then 4 else 0)
    else 0
  }

  predicate Whole(s: string) {
    s == "" || (CharLength(s) > 0 && Whole(s[CharLength(s)..]))
  }

  lemma CharLengthConcat(a: string, b: string)
    requires CharLength(a) > 0
    ensures CharLength(a + b) == CharLength(a)
  {
  }

  lemma {:induction false} WholeConcat(a: string, b: string)
    requires Whole(a) && Whole(b)
    ensures Whole(a + b)
  {
    if a == "" {
      assert a + b == b;
    } else {
      hide CharLength;
      var n := CharLength(a);
      CharLengthConcat(a, b);
      WholeConcat(a[n..], b);
      assert (a + b)[n..] == a[n..] + b;
    }
  }

  /** A place where a character may start. */
  predicate Boundary(s: string, i: nat) {
    i <= |s| && (i == |s| || !IsContinuation(s[i]))
  }

  lemma InsideIsContinuation(s: string, i: nat)
    requires 0 < i < CharLength(s)
    ensures IsContinuation(s[i])
  {
  }

  lemma CharLengthPrefix(s: string, i: nat)
    requires CharLength(s) > 0 && CharLength(s) <= i <= |s|
    ensures CharLength(s[..i]) == CharLength(s)
  {
  }

  lemma {:induction false} WholeSplits(s: string, i: nat)
    requires Whole(s) && Boundary(s, i)
    ensures Whole(s[..i]) && Whole(s[i..])
    decreases |s|
  {
    if i == 0 {
      assert s[i..] == s;
    } else {
      hide CharLength, IsContinuation;
      var n := CharLength(s);
      if i < n {
        InsideIsContinuation(s, i);
      } else {
        assert Boundary(s[n..], i - n);
        WholeSplits(s[n..], i - n);
        CharLengthPrefix(s, i);
        assert s[..i][n..] == s[n..][..i - n] && s[i..] == s[n..][i - n..];
      }
    }
  }

  lemma StartIsNoContinuation(s: string)
    requires Whole(s) && s != ""
    ensures !IsContinuation(s[0])
  {
  }

  lemma CharIsAsciiOnce(s: string, i: nat)
    requires 0 <= i < CharLength(s) && s[i] < '\U{80}'
    ensures i == 0 && CharLength(s) == 1
  {
  }

  /** Behind an ASCII character a character starts. */
  lemma {:induction false} BehindAscii(s: string, i: nat)
    requires Whole(s) && 0 < i <= |s| && s[i - 1] < '\U{80}'
    ensures Boundary(s, i)
    decreases |s|
  {
    hide CharLength;
    var n := CharLength(s);
    if i - 1 < n {
      CharIsAsciiOnce(s, i - 1);
      if i < |s| {
        StartIsNoContinuation(s[n..]);
      }
    } else {
      BehindAscii(s[n..], i - n);
    }
  }

  lemma {:induction false} AsciiIsWhole(s: string)
    requires IsAscii(s)
    ensures Whole(s)
  {
    if s != "" {
      AsciiIsWhole(s[1..]);
    }
  }

  // ---- Where the editor cuts ----------------------------------------------------------------------

  lemma {:induction false} CharStartIsBoundary(s: string, i: nat)
    requires i < |s|
    ensures var j := CharStart(s, i); j <= i && (j == 0 || !IsContinuation(s[j]))
  {
    if i > 0 && IsContinuation(s[i]) {
      CharStartIsBoundary(s, i - 1);
    }
  }

  lemma {:induction false} CharEndIsBoundary(s: string, i: nat)
    requires i <= |s|
    ensures Boundary(s, CharEnd(s, i))
    decreases |s| - i
  {
    if i < |s| && IsContinuation(s[i]) {
      CharEndIsBoundary(s, i + 1);
    }
  }

  lemma {:induction false} SkipBackStops(s: string, i: nat)
    requires i <= |s|
    ensures var j := SkipBack(s, false, i); j == 0 || IsAsciiWhitespace(s[j - 1])
  {
    if i > 0 && !IsAsciiWhitespace(s[i - 1]) {
      SkipBackStops(s, i - 1);
    }
  }

  /** In well-formed text the character keys and the word key cut between characters. */
  lemma CutsAreWhole(s: string)
    requires Whole(s) && s != ""
    ensures var i := CharStart(s, |s| - 1); Whole(s[..i]) && Whole(s[i..])
    ensures var i := CharEnd(s, 1); Whole(s[..i]) && Whole(s[i..])
    ensures Whole(s[..WordCut(s)]) && Whole(s[WordCut(s)..])
  {
    hide Whole, CharStart, CharEnd, SkipBack;
    StartIsNoContinuation(s);
    CharStartIsBoundary(s, |s| - 1);
    WholeSplits(s, CharStart(s, |s| - 1));
    CharEndIsBoundary(s, 1);
    WholeSplits(s, CharEnd(s, 1));
    var i := WordCut(s);
    SkipBackStops(s, SkipBack(s, true, |s|));
    if i > 0 {
      BehindAscii(s, i);
    }
    WholeSplits(s, i);
  }

  /** Where the word key cuts. */
  function WordCut(s: string): (i: nat)
    ensures i <= |s|
  {
    SkipBack(s, false, SkipBack(s, true, |s|))
  }

  lemma {:induction false} TrimStartShrinks(s: string)
    ensures |TrimStart(s)| <= |s| && (IsAscii(s) ==> IsAscii(TrimStart(s)))
  {
    if s != "" && IsWhitespace(s[0]) {
      TrimStartShrinks(s[1..]);
    }
  }

  lemma {:induction false} TrimEndShrinks(s: string)
    ensures |TrimEnd(s)| <= |s| && (IsAscii(s) ==> IsAscii(TrimEnd(s)))
  {
    if s != "" && IsWhitespace(s[|s| - 1]) {
      TrimEndShrinks(s[..|s| - 1]);
    }
  }

  lemma TrimShrinks(s: string)
    ensures |Trim(s)| <= |s| && (IsAscii(s) ==> IsAscii(Trim(s)))
  {
    TrimStartShrinks(s);
    TrimEndShrinks(TrimStart(s));
  }

  // ---- Texts within a cap -------------------------------------------------------------------------

  /** A text in two parts is within the line cap, or it is well formed and within `cap`. */
  predicate Fits(cfg: Config, cap: nat, left: string, right: string) {
    |left| + |right| <= cfg.maxLine || (Whole(left) && Whole(right) && |left| + |right| <= cap)
  }

  predicate AllFit(cfg: Config, cap: nat, history: seq<string>) {
    forall k :: 0 <= k < |history| ==> Fits(cfg, cap, history[k], "")
  }

  predicate Within(cfg: Config, cap: nat, e: Editor) {
    && Fits(cfg, cap, e.left, e.right) && Fits(cfg, cap, e.stash, "") && |e.kill| <= cap
    && (e.search.Some? ==> |e.search.value.query| <= cfg.maxLine)
    && |e.params| <= 8
    && |e.history| <= cfg.maxHistory && AllFit(cfg, cap, e.history)
  }

  lemma FitsWhole(cfg: Config, cap: nat, left: string, right: string)
    requires Fits(cfg, cap, left, right)
    ensures Fits(cfg, cap, left + right, "") && Fits(cfg, cap, "", left + right)
  {
    hide Whole;
    EmptyIsWhole();
    if Whole(left) && Whole(right) {
      WholeConcat(left, right);
    }
  }

  lemma EmptyIsWhole()
    ensures Whole("")
  {
  }

  /** Part of a text that fits still fits, when it is cut between characters or short enough. */
  lemma FitsLess(cfg: Config, cap: nat, left: string, right: string, left': string, right': string)
    requires Fits(cfg, cap, left, right) && |left'| + |right'| <= |left| + |right|
    requires Whole(left) && Whole(right) ==> Whole(left') && Whole(right')
    ensures Fits(cfg, cap, left', right')
  {
  }

  lemma ErasesFit(cfg: Config, cap: nat, e: Editor)
    requires cap >= cfg.maxLine && Within(cfg, cap, e)
    ensures Within(cfg, cap, EraseLeft(e).editor) && Within(cfg, cap, EraseRight(e).editor)
    ensures Within(cfg, cap, KillLeft(e).editor) && Within(cfg, cap, KillRight(e).editor) && Within(cfg, cap, KillWord(e).editor)
  {
    hide Whole, CharStart, CharEnd, SkipBack, AllFit, Redraw;
    EmptyIsWhole();
    if Whole(e.left) && e.left != "" {
      CutsAreWhole(e.left);
    }
    if Whole(e.right) && e.right != "" {
      CutsAreWhole(e.right);
    }
    FitsLess(cfg, cap, e.left, e.right, EraseLeft(e).editor.left, e.right);
    FitsLess(cfg, cap, e.left, e.right, e.left, EraseRight(e).editor.right);
    FitsLess(cfg, cap, e.left, e.right, "", e.right);
    FitsLess(cfg, cap, e.left, e.right, e.left, "");
    FitsLess(cfg, cap, e.left, e.right, KillWord(e).editor.left, e.right);
  }

  lemma MovesFit(cfg: Config, cap: nat, e: Editor)
    requires cap >= cfg.maxLine && Within(cfg, cap, e)
    ensures Within(cfg, cap, Home(e).editor) && Within(cfg, cap, End(e).editor)
    ensures Within(cfg, cap, Left(e).editor) && Within(cfg, cap, Right(e).editor)
  {
    hide Whole, CharStart, CharEnd, AllFit, Redraw;
    FitsWhole(cfg, cap, e.left, e.right);
    if e.left != "" {
      var i := CharStart(e.left, |e.left| - 1);
      if Whole(e.left) && Whole(e.right) {
        CutsAreWhole(e.left);
        WholeConcat(e.left[i..], e.right);
      }
      FitsLess(cfg, cap, e.left, e.right, e.left[..i], e.left[i..] + e.right);
    }
    if e.right != "" {
      var i := CharEnd(e.right, 1);
      if Whole(e.left) && Whole(e.right) {
        CutsAreWhole(e.right);
        WholeConcat(e.left, e.right[..i]);
      }
      FitsLess(cfg, cap, e.left, e.right, e.left + e.right[..i], e.right[i..]);
    }
  }

  lemma InsertsFit(cfg: Config, cap: nat, e: Editor, c: char)
    requires cap >= cfg.maxLine && Within(cfg, cap, e)
    ensures Within(cfg, cap, Insert(cfg, e, c).editor) && Within(cfg, cap, Yank(cfg, e).editor)
  {
    hide Whole, AllFit, Redraw;
  }

  lemma RecallsFit(cfg: Config, cap: nat, e: Editor)
    requires cap >= cfg.maxLine && Indexed(e) && Within(cfg, cap, e)
    ensures Within(cfg, cap, Older(e).editor) && Within(cfg, cap, Newer(e).editor)
  {
    hide Whole, Redraw;
    FitsWhole(cfg, cap, e.left, e.right);
    EmptyFits(cfg, cap);
  }

  lemma EmptyFits(cfg: Config, cap: nat)
    ensures Fits(cfg, cap, "", "")
  {
  }

  lemma CommandsFit(cfg: Config, cap: nat, e: Editor)
    requires Indexed(e) && e.esc == NoEsc && Within(cfg, cap, e)
    ensures Within(cfg, cap, Interrupt(e).editor) && Within(cfg, cap, StartSearch(e).editor)
    ensures Within(cfg, cap, ClearScreen(e).editor) && Within(cfg, cap, e.(esc := GotEsc))
  {
    hide Whole, AllFit, Redraw, RenderSearch;
    EmptyFits(cfg, cap);
  }

  // ---- Submitting ---------------------------------------------------------------------------------

  /** Submitting `line` would put an entry past the cap into the history. */
  predicate Overgrows(cfg: Config, cap: nat, line: string) {
    cfg.maxHistory > 0 && !Fits(cfg, cap, Entry(cfg, line), "")
  }

  lemma SubmitFitsIff(cfg: Config, cap: nat, e: Editor)
    requires Within(cfg, cap, e)
    ensures Within(cfg, cap, Submitted(cfg, e).editor) <==> !Overgrows(cfg, cap, e.left + e.right)
  {
    hide Fits, Entry;
    EmptyFits(cfg, cap);
    var line := e.left + e.right;
    var entry, h := Entry(cfg, line), Remembered(cfg, e.history, line);
    if entry == "" || (e.history != [] && e.history[|e.history| - 1] == entry) {
    } else if cfg.maxHistory > 0 {
      assert h[|h| - 1] == entry;
    }
  }

  /** The line Enter would submit, outside escape sequences. */
  function EnteredLine(cfg: Config, e: Editor): string
    requires Indexed(e)
  {
    var d := if e.search.Some? then Accepted(cfg, e) else e;
    d.left + d.right
  }

  predicate IsEnter(e: Editor, c: char) {
    e.esc == NoEsc && (c == '\r' || c == '\n')
  }

  lemma AcceptedFits(cfg: Config, cap: nat, e: Editor)
    requires cap >= cfg.maxLine && Indexed(e) && e.search.Some? && Within(cfg, cap, e)
    ensures Within(cfg, cap, Accepted(cfg, e)) && Indexed(Accepted(cfg, e))
  {
    hide Whole;
    FitsWhole(cfg, cap, e.left, e.right);
  }

  lemma PlainlyFits(cfg: Config, cap: nat, e: Editor, c: char)
    requires cap >= cfg.maxLine && Indexed(e) && e.esc == NoEsc && e.search.None? && Within(cfg, cap, e)
    requires c != '\r' && c != '\n'
    ensures Within(cfg, cap, Plainly(cfg, e, c).editor)
  {
    hide Within, Redraw, Submitted, EraseLeft, EraseRight, Home, End, Left, Right, KillLeft, KillRight, KillWord, Yank, Older,
      Newer, Insert, Interrupt, StartSearch, ClearScreen, RenderSearch;
    if c == ESC || c == '\U{0C}' || c == '\U{12}' || c == '\U{03}' {
      CommandsFit(cfg, cap, e);
    } else if c == '\U{01}' || c == '\U{05}' || c == '\U{02}' || c == '\U{06}' {
      MovesFit(cfg, cap, e);
    } else if c == '\U{10}' || c == '\U{0E}' {
      RecallsFit(cfg, cap, e);
    } else {
      OtherKeysFit(cfg, cap, e, c);
    }
  }

  lemma OtherKeysFit(cfg: Config, cap: nat, e: Editor, c: char)
    requires cap >= cfg.maxLine && Indexed(e) && e.esc == NoEsc && e.search.None? && Within(cfg, cap, e)
    requires c != '\r' && c != '\n' && c != ESC && c != '\U{0C}' && c != '\U{12}' && c != '\U{03}'
    requires c != '\U{01}' && c != '\U{05}' && c != '\U{02}' && c != '\U{06}' && c != '\U{10}' && c != '\U{0E}'
    ensures Within(cfg, cap, Plainly(cfg, e, c).editor)
  {
    hide Within, Redraw, Submitted, EraseLeft, EraseRight, Home, End, Left, Right, KillLeft, KillRight, KillWord, Yank, Older,
      Newer, Insert, Interrupt, StartSearch, ClearScreen, RenderSearch;
    ErasesFit(cfg, cap, e);
    InsertsFit(cfg, cap, e, c);
  }

  lemma ModeFits(cfg: Config, cap: nat, e: Editor, d: Editor)
    requires Within(cfg, cap, e) && d == e.(esc := d.esc, params := d.params) && |d.params| <= 8
    ensures Within(cfg, cap, d)
  {
  }

  lemma CsiFits(cfg: Config, cap: nat, e: Editor, c: char)
    requires cap >= cfg.maxLine && Indexed(e) && e.search.None? && Within(cfg, cap, e)
    ensures Within(cfg, cap, InCsiKey(e, c).editor)
  {
    hide Within, Redraw, EraseRight, Home, End, Left, Right, Older, Newer;
    WithinParams(cfg, cap, e);
    var d := e.(esc := NoEsc, params := "");
    ModeFits(cfg, cap, e, d);
    ErasesFit(cfg, cap, d);
    MovesFit(cfg, cap, d);
    RecallsFit(cfg, cap, d);
    if |e.params| < 8 {
      ModeFits(cfg, cap, e, e.(params := e.params + [c]));
    }
  }

  lemma WithinParams(cfg: Config, cap: nat, e: Editor)
    requires Within(cfg, cap, e)
    ensures |e.params| <= 8
  {
  }

  lemma QueryFits(cfg: Config, cap: nat, e: Editor, query: string)
    requires Indexed(e) && e.search.Some? && Within(cfg, cap, e) && |query| <= cfg.maxLine
    ensures Within(cfg, cap, Searching(e, query).editor) && Within(cfg, cap, SearchOlder(e).editor)
    ensures Within(cfg, cap, e.(search := None))
  {
    hide RenderSearch, NewestMatch, Fits, AllFit;
  }

  lemma SearchedFits(cfg: Config, cap: nat, e: Editor, c: char)
    requires cap >= cfg.maxLine && Indexed(e) && e.search.Some? && Within(cfg, cap, e) && c != '\r' && c != '\n'
    ensures Within(cfg, cap, Searched(cfg, e, c).editor)
  {
    hide Redraw, RenderSearch, Submitted, Plainly, Searching, SearchOlder, Accepted, Fits, AllFit;
    var query := e.search.value.query;
    QueryFits(cfg, cap, e, query);
    QueryFits(cfg, cap, e, if query == "" then "" else query[..|query| - 1]);
    QueryFits(cfg, cap, e, if |query| < cfg.maxLine then query + [c] else query);
    AcceptedFits(cfg, cap, e);
    AcceptedIsPlain(cfg, e);
    PlainlyFits(cfg, cap, Accepted(cfg, e), c);
  }

  lemma AcceptedIsPlain(cfg: Config, e: Editor)
    requires Indexed(e) && e.search.Some?
    ensures Accepted(cfg, e).search.None? && Accepted(cfg, e).esc == NoEsc
  {
  }

  /** Any byte: the texts stay within the cap exactly when the key does not submit a line whose entry is past
      it. */
  lemma PressFitsIff(cfg: Config, cap: nat, e: Editor, c: char)
    requires cap >= cfg.maxLine && Indexed(e) && Within(cfg, cap, e)
    ensures Within(cfg, cap, Pressed(cfg, e, c).editor) <==> !(IsEnter(e, c) && Overgrows(cfg, cap, EnteredLine(cfg, e)))
  {
    hide Within, Plainly, Searched, InCsiKey, Overgrows, Submitted, Accepted;
    match e.esc
    case GotEsc =>
      WithinParams(cfg, cap, e);
      ModeFits(cfg, cap, e, Pressed(cfg, e, c).editor);
    case InCsi => CsiFits(cfg, cap, e, c);
    case NoEsc =>
      if c == '\r' || c == '\n' {
        EnterSubmits(cfg, e, c);
        if e.search.Some? {
          AcceptedFits(cfg, cap, e);
          SubmitFitsIff(cfg, cap, Accepted(cfg, e));
        } else {
          SubmitFitsIff(cfg, cap, e);
        }
      } else if e.search.Some? {
        SearchedFits(cfg, cap, e, c);
      } else {
        PlainlyFits(cfg, cap, e, c);
      }
  }

  lemma EnterSubmits(cfg: Config, e: Editor, c: char)
    requires Indexed(e) && IsEnter(e, c)
    ensures Pressed(cfg, e, c) == Submitted(cfg, if e.search.Some? then Accepted(cfg, e) else e)
  {
    hide Submitted, Accepted;
  }

  // ---- The line cap -------------------------------------------------------------------------------

  /** Line, kill slot, stash, query and history are all within their caps. */
  predicate Bounded(cfg: Config, e: Editor) {
    Within(cfg, cfg.maxLine, e)
  }

  /** No key but Enter takes anything past its cap, and Enter does exactly when the line has bytes beyond ASCII
      and what the history makes of it is longer than a line may be. */
  lemma PressStaysBounded(cfg: Config, e: Editor, c: char)
    requires Indexed(e) && Bounded(cfg, e)
    ensures Bounded(cfg, Pressed(cfg, e, c).editor) <==>
      !(IsEnter(e, c) && cfg.maxHistory > 0 && !IsAscii(EnteredLine(cfg, e)) && |cfg.foreign(EnteredLine(cfg, e))| > cfg.maxLine)
  {
    hide Pressed, Accepted, Whole;
    PressFitsIff(cfg, cfg.maxLine, e, c);
    if e.search.Some? {
      AcceptedFits(cfg, cfg.maxLine, e);
    }
    TrimShrinks(EnteredLine(cfg, e));
  }

  // ---- Three times the line cap -------------------------------------------------------------------

  /** What decoding, trimming and encoding again do to the length of a line: the result is well formed, at most
      three bytes for one, and no longer than text that was well formed. */
  ghost predicate DecodesLossily(cfg: Config) {
    forall s {:trigger cfg.foreign(s)} ::
      Whole(cfg.foreign(s)) && |cfg.foreign(s)| <= 3 * |s| && (Whole(s) ==> |cfg.foreign(s)| <= |s|)
  }

  lemma NothingOvergrows(cfg: Config, e: Editor)
    requires DecodesLossily(cfg) && Fits(cfg, 3 * cfg.maxLine, e.left, e.right)
    ensures !Overgrows(cfg, 3 * cfg.maxLine, e.left + e.right)
  {
    hide Whole;
    var line := e.left + e.right;
    FitsWhole(cfg, 3 * cfg.maxLine, e.left, e.right);
    EmptyIsWhole();
    TrimShrinks(line);
    if IsAscii(line) {
      AsciiIsWhole(Trim(line));
    }
  }

  /** The editor after a run of keys. */
  ghost function AfterKeys(cfg: Config, e: Editor, keys: string): (r: Editor)
    requires Indexed(e)
    ensures Indexed(r)
    decreases |keys|
  {
    if keys == "" then e else AfterKeys(cfg, Pressed(cfg, e, keys[0]).editor, keys[1..])
  }

  /** Over every run of bytes typed, no text of the editor gets past three times the line cap. */
  lemma {:induction false} KeysStayWithinThrice(cfg: Config, e: Editor, keys: string)
    requires DecodesLossily(cfg) && Indexed(e) && Within(cfg, 3 * cfg.maxLine, e)
    ensures var r := AfterKeys(cfg, e, keys);
      && Within(cfg, 3 * cfg.maxLine, r)
      && |r.left| + |r.right| <= 3 * cfg.maxLine && |r.stash| <= 3 * cfg.maxLine && |r.kill| <= 3 * cfg.maxLine
      && |r.history| <= cfg.maxHistory && forall k :: 0 <= k < |r.history| ==> |r.history[k]| <= 3 * cfg.maxLine
    decreases |keys|
  {
    hide Whole, Pressed, DecodesLossily, Accepted;
    if keys != "" {
      if e.search.Some? {
        AcceptedFits(cfg, 3 * cfg.maxLine, e);
        NothingOvergrows(cfg, Accepted(cfg, e));
      } else {
        NothingOvergrows(cfg, e);
      }
      PressFitsIff(cfg, 3 * cfg.maxLine, e, keys[0]);
      KeysStayWithinThrice(cfg, Pressed(cfg, e, keys[0]).editor, keys[1..]);
    } else {
      assert forall k :: 0 <= k < |e.history| ==> Fits(cfg, 3 * cfg.maxLine, e.history[k], "");
    }
  }

  /** A completion that leaves the text up to the cursor within the line cap keeps everything within. */
  lemma CompletionStaysWithin(cfg: Config, cap: nat, e: Editor, replacement: string, space: bool)
    requires Within(cfg, cap, e) && |Completed(cfg, e, replacement, space).left| <= cfg.maxLine
    ensures Within(cfg, cap, Completed(cfg, e, replacement, space))
  {
    hide Whole;
  }

  /** A completion stays within the cap exactly when the text up to the cursor does: what follows is cut, the
      replacement never. */
  lemma CompletionFits(cfg: Config, e: Editor, replacement: string, space: bool)
    ensures var d := Completed(cfg, e, replacement, space);
            |d.left| + |d.right| <= cfg.maxLine <==> WordStart(e.left) + |replacement| + (if space then 1 else 0) <= cfg.maxLine
  {
  }

  // ---- Two runs that get past the line cap --------------------------------------------------------

  /** A completion one longer than the line may be. */
  lemma LongCompletion(cfg: Config)
    ensures var replacement := seq(cfg.maxLine + 1, _ => 'x');
      var d := Completed(cfg, Fresh(), replacement, false);
      Bounded(cfg, Fresh()) && !Bounded(cfg, d) && d.left + d.right == replacement
  {
    CompletionFits(cfg, Fresh(), seq(cfg.maxLine + 1, _ => 'x'), false);
  }

  /** `n` stray bytes, and what decoding makes of them. */
  function Stray(n: nat): (s: string)
    ensures |s| == n && forall k :: 0 <= k < n ==> s[k] == '\U{FF}'
  {
    seq(n, _ => '\U{FF}')
  }

  /** A full line of stray bytes, entered and called back up, is three times as long as a line may be. */
  lemma EnterThenUp(cfg: Config)
    requires cfg.maxLine > 0 && cfg.maxHistory > 0 && |cfg.foreign(Stray(cfg.maxLine))| == 3 * cfg.maxLine
    ensures var e := Fresh().(left := Stray(cfg.maxLine));
      var up := Pressed(cfg, Pressed(cfg, e, '\r').editor, '\U{10}').editor;
      && Bounded(cfg, e) && !Bounded(cfg, Pressed(cfg, e, '\r').editor)
      && |up.left| + |up.right| == 3 * cfg.maxLine > cfg.maxLine
  {
    var e := Fresh().(left := Stray(cfg.maxLine));
    assert e.left + e.right == e.left && e.left[0] == '\U{FF}';
    PressStaysBounded(cfg, e, '\r');
    var entered := Pressed(cfg, e, '\r').editor;
    assert entered == Submitted(cfg, e).editor;
    assert entered.history == [cfg.foreign(e.left)];
  }
}
