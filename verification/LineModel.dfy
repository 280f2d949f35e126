/**
  Readline-style editing of one line, as a transformation of the text before and after the cursor: what each
  key makes of the line and what it sends to the terminal. Every `char` below `'\U{100}'` stands for one
  byte.
 */
module LineModel {
  import opened Terminal
  import opened Text
  import opened Wrappers

  datatype Esc = NoEsc | GotEsc | InCsi

  datatype Search = Search(query: string, matched: Option<nat>)

  datatype Editor = Editor(
    prompt: string, left: string, right: string, kill: string,
    history: seq<string>, browsing: Option<nat>, stash: string,
    esc: Esc, params: string, search: Option<Search>)

  /** An editor as it is made. */
  function Fresh(): Editor {
    Editor("", "", "", "", [], None, "", NoEsc, "", None)
  }

  datatype Reaction = Ignore | Write(bytes: string) | Submit(echo: string, line: string) | Eof | Complete

  datatype Outcome = Outcome(editor: Editor, reaction: Reaction)

  /** The caps, and what the history makes of a line with bytes beyond ASCII. */
  datatype Config = Config(maxLine: nat, maxHistory: nat, foreign: string -> string)

  predicate Indexed(e: Editor) {
    && (e.browsing.Some? ==> e.browsing.value < |e.history|)
    && (e.search.Some? ==> e.esc == NoEsc)
    && (e.search.Some? && e.search.value.matched.Some? ==> e.search.value.matched.value < |e.history|)
  }

  // ---- Characters and words -----------------------------------------------------------------------

  predicate IsContinuation(c: char) {
    '\U{80}' <= c <= '\U{BF}'
  }

  /** Where the character that holds byte `i` starts. */
  function CharStart(s: string, i: nat): (r: nat)
    requires i < |s|
    ensures r <= i
  {
    if i > 0 && IsContinuation(s[i]) then CharStart(s, i - 1) else i
  }

  function CharEnd(s: string, i: nat): (r: nat)
    requires i <= |s|
    ensures i <= r <= |s|
    decreases |s| - i
  {
    if i < |s| && IsContinuation(s[i]) then CharEnd(s, i + 1) else i
  }

  /** From `i` leftwards over white space, or over anything else. */
  function SkipBack(s: string, blanks: bool, i: nat): (r: nat)
    requires i <= |s|
    ensures r <= i
  {
    if i > 0 && IsAsciiWhitespace(s[i - 1]) == blanks then SkipBack(s, blanks, i - 1) else i
  }

  function WordStart(left: string): (r: nat)
    ensures r <= |left|
  {
    SkipBack(left, false, |left|)
  }

  function Columns(s: string): (n: nat)
    ensures n <= |s|
  {
    if s == "" then 0 else (if IsContinuation(s[0]) then 0 else 1) + Columns(s[1..])
  }

  // ---- What is drawn ------------------------------------------------------------------------------

  const CLEAR_LINE: string := [ESC, '[', 'K']
  const NEW_LINE: string := "\r\n"

  function Redraw(e: Editor): string {
    "\r" + ((e.prompt + e.left + e.right) + (CLEAR_LINE + Back(Columns(e.right))))
  }

  function Drawn(e: Editor): Outcome {
    Outcome(e, Write(Redraw(e)))
  }

  function Unchanged(e: Editor): Outcome {
    Outcome(e, Ignore)
  }

  function SearchRow(e: Editor): string
    requires Indexed(e) && e.search.Some?
  {
    var s := e.search.value;
    "(reverse-i-search)`" + s.query + "': " + (if s.matched.Some? then e.history[s.matched.value] else "")
  }

  function RenderSearch(e: Editor): string
    requires Indexed(e) && e.search.Some?
  {
    "\r" + (SearchRow(e) + CLEAR_LINE)
  }

  function Crlf(text: string): string {
    if text == "" then "" else (if text[0] == '\n' then NEW_LINE else [text[0]]) + Crlf(text[1..])
  }

  function Listing(e: Editor, text: string): string {
    NEW_LINE + Crlf(text) + (if text != "" && text[|text| - 1] == '\n' then "" else NEW_LINE) + Redraw(e)
  }

  // ---- History and search -------------------------------------------------------------------------

  predicate IsAscii(s: string) {
    forall k :: 0 <= k < |s| ==> s[k] < '\U{80}'
  }

  function Entry(cfg: Config, line: string): string {
    if IsAscii(line) then Trim(line) else cfg.foreign(line)
  }

  function Newest(history: seq<string>, n: nat): seq<string> {
    if |history| > n then history[|history| - n..] else history
  }

  function Remembered(cfg: Config, history: seq<string>, line: string): seq<string> {
    var entry := Entry(cfg, line);
    if entry == "" || (history != [] && history[|history| - 1] == entry) then history
    else Newest(history + [entry], cfg.maxHistory)
  }

  ghost predicate Contains(text: string, part: string) {
    exists i :: 0 <= i <= |text| - |part| && text[i..][..|part|] == part
  }

  /** `m` is the newest entry before `before` that has `query` in it. */
  ghost predicate IsNewestMatch(history: seq<string>, before: nat, query: string, m: Option<nat>)
    requires before <= |history|
  {
    match m
    case Some(i) => query != "" && i < before && Contains(history[i], query) && forall j :: i < j < before ==> !Contains(history[j], query)
    case None => query == "" || forall j :: 0 <= j < before ==> !Contains(history[j], query)
  }

  ghost function NewestMatch(history: seq<string>, before: nat, query: string): (m: Option<nat>)
    requires before <= |history|
    ensures IsNewestMatch(history, before, query, m)
  {
    if query == "" || before == 0 then None
    else if Contains(history[before - 1], query) then Some(before - 1)
    else NewestMatch(history, before - 1, query)
  }

  // ---- Keys ---------------------------------------------------------------------------------------

  function Insert(cfg: Config, e: Editor, c: char): Outcome {
    if |e.left| + |e.right| >= cfg.maxLine then Unchanged(e)
    else
      var typed := e.(left := e.left + [c], browsing := None);
      if e.right == "" then Outcome(typed, Write([c])) else Drawn(typed)
  }

  function EraseLeft(e: Editor): Outcome {
    if e.left == "" then Unchanged(e) else Drawn(e.(left := e.left[..CharStart(e.left, |e.left| - 1)]))
  }

  function EraseRight(e: Editor): Outcome {
    if e.right == "" then Unchanged(e) else Drawn(e.(right := e.right[CharEnd(e.right, 1)..]))
  }

  function Home(e: Editor): Outcome {
    Drawn(e.(left := "", right := e.left + e.right))
  }

  function End(e: Editor): Outcome {
    Drawn(e.(left := e.left + e.right, right := ""))
  }

  function Left(e: Editor): Outcome {
    if e.left == "" then Unchanged(e)
    else
      var i := CharStart(e.left, |e.left| - 1);
      Outcome(e.(left := e.left[..i], right := e.left[i..] + e.right), Write([ESC, '[', 'D']))
  }

  function Right(e: Editor): Outcome {
    if e.right == "" then Unchanged(e)
    else
      var i := CharEnd(e.right, 1);
      Outcome(e.(left := e.left + e.right[..i], right := e.right[i..]), Write([ESC, '[', 'C']))
  }

  function KillLeft(e: Editor): Outcome {
    if e.left == "" then Unchanged(e) else Drawn(e.(left := "", kill := e.left))
  }

  function KillRight(e: Editor): Outcome {
    if e.right == "" then Unchanged(e) else Drawn(e.(right := "", kill := e.right))
  }

  function KillWord(e: Editor): Outcome {
    if e.left == "" then Unchanged(e)
    else
      var i := SkipBack(e.left, false, SkipBack(e.left, true, |e.left|));
      Drawn(e.(left := e.left[..i], kill := e.left[i..]))
  }

  function Yank(cfg: Config, e: Editor): Outcome {
    if e.kill == "" || |e.left| + |e.right| + |e.kill| > cfg.maxLine then Unchanged(e)
    else Drawn(e.(left := e.left + e.kill, browsing := None))
  }

  function ClearScreen(e: Editor): Outcome {
    Outcome(e, Write([ESC, '[', 'H'] + ([ESC, '[', '2', 'J'] + Redraw(e))))
  }

  function Emptied(e: Editor): Editor {
    e.(left := "", right := "", browsing := None, stash := "")
  }

  function Interrupt(e: Editor): Outcome {
    Outcome(Emptied(e), Write(("^C" + NEW_LINE) + Redraw(Emptied(e))))
  }

  function Submitted(cfg: Config, e: Editor): Outcome {
    var line := e.left + e.right;
    Outcome(Emptied(e).(history := Remembered(cfg, e.history, line)), Submit(NEW_LINE, line))
  }

  function Recall(e: Editor, text: string, browsing: Option<nat>): Editor {
    e.(left := text, right := "", browsing := browsing)
  }

  function Older(e: Editor): Outcome
    requires Indexed(e)
  {
    if e.history == [] then Unchanged(e)
    else
      match e.browsing
      case None => Drawn(Recall(e.(stash := e.left + e.right), e.history[|e.history| - 1], Some(|e.history| - 1)))
      case Some(i) => if i == 0 then Unchanged(e) else Drawn(Recall(e, e.history[i - 1], Some(i - 1)))
  }

  function Newer(e: Editor): Outcome
    requires Indexed(e)
  {
    match e.browsing
    case None => Unchanged(e)
    case Some(i) =>
      if i + 1 < |e.history| then Drawn(Recall(e, e.history[i + 1], Some(i + 1)))
      else Drawn(Recall(e, e.stash, None).(stash := ""))
  }

  function StartSearch(e: Editor): Outcome
    requires e.esc == NoEsc && Indexed(e)
  {
    var s := e.(search := Some(Search("", None)));
    Outcome(s, Write(RenderSearch(s)))
  }

  /** A key outside escape sequences and searches. */
  function Plainly(cfg: Config, e: Editor, c: char): (o: Outcome)
    requires Indexed(e) && e.esc == NoEsc && e.search.None?
    ensures Indexed(o.editor)
  {
    if c == '\r' || c == '\n' then Submitted(cfg, e)
    else if c == ESC then Unchanged(e.(esc := GotEsc))
    else if c == '\t' then Outcome(e, Complete)
    else if c == '\U{08}' || c == '\U{7F}' then EraseLeft(e)
    else if c == '\U{01}' then Home(e)
    else if c == '\U{05}' then End(e)
    else if c == '\U{02}' then Left(e)
    else if c == '\U{06}' then Right(e)
    else if c == '\U{10}' then Older(e)
    else if c == '\U{0E}' then Newer(e)
    else if c == '\U{15}' then KillLeft(e)
    else if c == '\U{0B}' then KillRight(e)
    else if c == '\U{17}' then KillWord(e)
    else if c == '\U{19}' then Yank(cfg, e)
    else if c == '\U{0C}' then ClearScreen(e)
    else if c == '\U{12}' then StartSearch(e)
    else if c == '\U{03}' then Interrupt(e)
    else if c == '\U{04}' then (if e.left + e.right == "" then Outcome(e, Eof) else EraseRight(e))
    else if c >= ' ' then Insert(cfg, e, c)
    else Unchanged(e)
  }

  function InCsiKey(e: Editor, c: char): (o: Outcome)
    requires Indexed(e)
    ensures Indexed(o.editor)
  {
    if '0' <= c <= '9' || c == ';' then Unchanged(if |e.params| < 8 then e.(params := e.params + [c]) else e)
    else
      var d := e.(esc := NoEsc, params := "");
      if c == 'A' then Older(d)
      else if c == 'B' then Newer(d)
      else if c == 'C' then Right(d)
      else if c == 'D' then Left(d)
      else if c == 'H' || (c == '~' && (e.params == "1" || e.params == "7")) then Home(d)
      else if c == 'F' || (c == '~' && (e.params == "4" || e.params == "8")) then End(d)
      else if c == '~' && e.params == "3" then EraseRight(d)
      else Unchanged(d)
  }

  function Accepted(cfg: Config, e: Editor): Editor
    requires Indexed(e) && e.search.Some?
  {
    var text := match e.search.value.matched
                case Some(i) => Truncated(e.history[i], cfg.maxLine)
                case None => e.left + e.right;
    e.(left := text, right := "", browsing := None, search := None)
  }

  /** The first `n` bytes. */
  function Truncated(s: string, n: nat): string {
    if |s| > n then s[..n] else s
  }

  ghost function Searching(e: Editor, query: string): (o: Outcome)
    requires Indexed(e) && e.search.Some?
    ensures Indexed(o.editor)
  {
    var s := e.(search := Some(Search(query, NewestMatch(e.history, |e.history|, query))));
    Outcome(s, Write(RenderSearch(s)))
  }

  ghost function SearchOlder(e: Editor): (o: Outcome)
    requires Indexed(e) && e.search.Some?
    ensures Indexed(o.editor)
  {
    var s := e.search.value;
    var m := NewestMatch(e.history, s.matched.GetOr(|e.history|), s.query);
    var found := if m.Some? then e.(search := Some(s.(matched := m))) else e;
    Outcome(found, Write(RenderSearch(found)))
  }

  /** A key that ends a search and is then obeyed: what it draws goes out after the accepted line, unless it is
      neither drawn nor ignored. */
  function Obeyed(cfg: Config, e: Editor, c: char): (o: Outcome)
    requires Indexed(e) && e.search.Some?
    ensures Indexed(o.editor)
  {
    var accepted := Accepted(cfg, e);
    var p := Plainly(cfg, accepted, c);
    match p.reaction
    case Write(more) => p.(reaction := Write(Redraw(accepted) + more))
    case Ignore => p.(reaction := Write(Redraw(accepted)))
    case _ => p
  }

  ghost function Searched(cfg: Config, e: Editor, c: char): (o: Outcome)
    requires Indexed(e) && e.search.Some?
    ensures Indexed(o.editor)
  {
    var query := e.search.value.query;
    if c == '\r' || c == '\n' then Submitted(cfg, Accepted(cfg, e))
    else if c == '\U{12}' then SearchOlder(e)
    else if c == '\U{07}' || c == '\U{03}' || c == ESC then Drawn(e.(search := None))
    else if c == '\U{08}' || c == '\U{7F}' then Searching(e, if query == "" then "" else query[..|query| - 1])
    else if c >= ' ' then Searching(e, if |query| < cfg.maxLine then query + [c] else query)
    else Obeyed(cfg, e, c)
  }

  ghost function Pressed(cfg: Config, e: Editor, c: char): (o: Outcome)
    requires Indexed(e)
    ensures Indexed(o.editor)
  {
    match e.esc
    case GotEsc => Unchanged(if c == '[' || c == 'O' then e.(esc := InCsi, params := "") else e.(esc := NoEsc))
    case InCsi => InCsiKey(e, c)
    case NoEsc => if e.search.Some? then Searched(cfg, e, c) else Plainly(cfg, e, c)
  }

  function Completed(cfg: Config, e: Editor, replacement: string, space: bool): Editor {
    var left := e.left[..WordStart(e.left)] + replacement + (if space then " " else "");
    var room := if |left| <= cfg.maxLine then cfg.maxLine - |left| else 0;
    e.(left := left, right := if |e.right| > room then e.right[..CharStart(e.right, room)] else e.right)
  }
}
