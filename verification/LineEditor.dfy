/**
  The line editor itself: a buffer with a cursor in it, edited in place one byte at a time.
 */
module LineEditing {
  import opened LineModel
  import opened Terminal
  import opened Text
  import opened Wrappers

  method Windows(haystack: string, needle: string) returns (found: bool)
    ensures found <==> Contains(haystack, needle)
  {
    if needle == "" || |needle| > |haystack| {
      assert needle == "" ==> haystack[0..][..|needle|] == needle;
      return needle == "";
    }
    var i := 0;
    while i + |needle| <= |haystack|
      invariant 0 <= i <= |haystack| - |needle| + 1
      invariant forall j :: 0 <= j < i ==> haystack[j..][..|needle|] != needle
    {
      if haystack[i..][..|needle|] == needle {
        return true;
      }
      i := i + 1;
    }
    return false;
  }

  class LineEditor {
    const cfg: Config
    var prompt: string
    var buf: string
    var cursor: nat
    var kill: string
    var history: seq<string>
    var histPos: Option<nat>
    var stash: string
    var esc: Esc
    var csiParams: string
    var search: Option<Search>

    ghost predicate Valid()
      reads this
    {
      cursor <= |buf| && Indexed(View())
    }

    ghost function View(): Editor
      reads this
      requires cursor <= |buf|
    {
      Editor(prompt, buf[..cursor], buf[cursor..], kill, history, histPos, stash, esc, csiParams, search)
    }

    constructor (cfg: Config)
      ensures Valid() && this.cfg == cfg
      ensures View() == Fresh()
    {
      this.cfg := cfg;
      prompt, buf, cursor, kill, history, histPos := "", "", 0, "", [], None;
      stash, esc, csiParams, search := "", NoEsc, "", None;
    }

    method SetPrompt(text: string)
      requires Valid()
      modifies this`prompt
      ensures Valid() && View() == old(View()).(prompt := text)
    {
      prompt := text;
    }

    // ---- Drawing ----------------------------------------------------------------------------------

    method Redraw() returns (bytes: string)
      requires Valid()
      ensures bytes == LineModel.Redraw(View())
    {
      var back := Columns(buf[cursor..]);
      bytes := "\r" + ((prompt + buf) + (CLEAR_LINE + Back(back)));
      assert prompt + buf[..cursor] + buf[cursor..] == prompt + buf;
    }

    method RenderSearch() returns (bytes: string)
      requires Valid()
      ensures bytes == if search.Some? then LineModel.RenderSearch(View()) else LineModel.Redraw(View())
    {
      if search.None? {
        bytes := Redraw();
        return;
      }
      var s := search.value;
      var matched := if s.matched.Some? then history[s.matched.value] else "";
      bytes := "\r" + (("(reverse-i-search)`" + s.query + "': " + matched) + CLEAR_LINE);
    }

    method ShowListing(listing: string) returns (bytes: string)
      requires Valid()
      ensures bytes == Listing(View(), listing)
    {
      var redraw := Redraw();
      bytes := NEW_LINE + Crlf(listing);
      if listing == "" || listing[|listing| - 1] != '\n' {
        bytes := bytes + NEW_LINE;
      } else {
        assert bytes + "" == bytes;
      }
      bytes := bytes + redraw;
    }

    // ---- Places in the buffer ---------------------------------------------------------------------

    method PrevChar(i: nat) returns (start: nat)
      requires 0 < i <= |buf|
      ensures start < i && start == CharStart(buf[..i], i - 1)
    {
      start := i - 1;
      while start > 0 && IsContinuation(buf[start])
        invariant start < i
        invariant CharStart(buf[..i], start) == CharStart(buf[..i], i - 1)
      {
        start := start - 1;
      }
    }

    method NextChar(i: nat) returns (end: nat)
      requires i < |buf|
      ensures i < end <= |buf| && end == i + CharEnd(buf[i..], 1)
    {
      end := i + 1;
      while end < |buf| && IsContinuation(buf[end])
        invariant i < end <= |buf|
        invariant CharEnd(buf[i..], end - i) == CharEnd(buf[i..], 1)
      {
        end := end + 1;
      }
    }

    /** Leftwards from `from` over white space, or over anything else. */
    method SkipBackFrom(blanks: bool, from: nat) returns (start: nat)
      requires from <= cursor <= |buf|
      ensures start <= from && start == SkipBack(buf[..cursor], blanks, from)
    {
      start := from;
      while start > 0 && IsAsciiWhitespace(buf[start - 1]) == blanks
        invariant start <= from
        invariant SkipBack(buf[..cursor], blanks, start) == SkipBack(buf[..cursor], blanks, from)
      {
        start := start - 1;
      }
    }

    // ---- Editing ----------------------------------------------------------------------------------

    method Insert(c: char) returns (r: Reaction)
      requires Valid()
      modifies this
      ensures Valid() && Outcome(View(), r) == LineModel.Insert(cfg, old(View()), c)
    {
      if |buf| >= cfg.maxLine {
        return Ignore;
      }
      ghost var left, right := buf[..cursor], buf[cursor..];
      buf := buf[..cursor] + [c] + buf[cursor..];
      cursor := cursor + 1;
      assert buf[..cursor] == left + [c] && buf[cursor..] == right;
      histPos := None;
      if cursor == |buf| {
        return Write([c]);
      }
      var bytes := Redraw();
      return Write(bytes);
    }

    method Backspace() returns (r: Reaction)
      requires Valid()
      modifies this
      ensures Valid() && Outcome(View(), r) == EraseLeft(old(View()))
    {
      if cursor == 0 {
        return Ignore;
      }
      ghost var left, right := buf[..cursor], buf[cursor..];
      var start := PrevChar(cursor);
      buf := buf[..start] + buf[cursor..];
      cursor := start;
      assert buf[..cursor] == left[..start] && buf[cursor..] == right;
      var bytes := Redraw();
      return Write(bytes);
    }

    method DeleteForward() returns (r: Reaction)
      requires Valid()
      modifies this
      ensures Valid() && Outcome(View(), r) == EraseRight(old(View()))
    {
      if cursor >= |buf| {
        return Ignore;
      }
      ghost var left, right := buf[..cursor], buf[cursor..];
      var end := NextChar(cursor);
      buf := buf[..cursor] + buf[end..];
      assert buf[..cursor] == left && buf[cursor..] == right[end - cursor..];
      var bytes := Redraw();
      return Write(bytes);
    }

    method MoveHome() returns (r: Reaction)
      requires Valid()
      modifies this
      ensures Valid() && Outcome(View(), r) == Home(old(View()))
    {
      assert buf[..cursor] + buf[cursor..] == buf;
      cursor := 0;
      assert buf[..cursor] == "" && buf[cursor..] == buf;
      var bytes := Redraw();
      return Write(bytes);
    }

    method MoveEnd() returns (r: Reaction)
      requires Valid()
      modifies this
      ensures Valid() && Outcome(View(), r) == End(old(View()))
    {
      assert buf[..cursor] + buf[cursor..] == buf;
      cursor := |buf|;
      assert buf[..cursor] == buf && buf[cursor..] == "";
      var bytes := Redraw();
      return Write(bytes);
    }

    method MoveLeft() returns (r: Reaction)
      requires Valid()
      modifies this
      ensures Valid() && Outcome(View(), r) == Left(old(View()))
    {
      if cursor == 0 {
        return Ignore;
      }
      ghost var was := cursor;
      cursor := PrevChar(cursor);
      assert buf[cursor..] == buf[..was][cursor..] + buf[was..];
      return Write([ESC, '[', 'D']);
    }

    method MoveRight() returns (r: Reaction)
      requires Valid()
      modifies this
      ensures Valid() && Outcome(View(), r) == Right(old(View()))
    {
      if cursor >= |buf| {
        return Ignore;
      }
      ghost var was := cursor;
      cursor := NextChar(cursor);
      assert buf[..cursor] == buf[..was] + buf[was..][..cursor - was];
      return Write([ESC, '[', 'C']);
    }

    method KillToStart() returns (r: Reaction)
      requires Valid()
      modifies this
      ensures Valid() && Outcome(View(), r) == KillLeft(old(View()))
    {
      if cursor == 0 {
        return Ignore;
      }
      kill := buf[..cursor];
      buf := buf[cursor..];
      cursor := 0;
      assert buf[..cursor] == "" && buf[cursor..] == buf;
      var bytes := Redraw();
      return Write(bytes);
    }

    method KillToEnd() returns (r: Reaction)
      requires Valid()
      modifies this
      ensures Valid() && Outcome(View(), r) == KillRight(old(View()))
    {
      if cursor >= |buf| {
        return Ignore;
      }
      kill := buf[cursor..];
      buf := buf[..cursor];
      assert buf[..cursor] == buf && buf[cursor..] == "";
      var bytes := Redraw();
      return Write(bytes);
    }

    method KillWord() returns (r: Reaction)
      requires Valid()
      modifies this
      ensures Valid() && Outcome(View(), r) == LineModel.KillWord(old(View()))
    {
      if cursor == 0 {
        return Ignore;
      }
      var start := SkipBackFrom(true, cursor);
      start := SkipBackFrom(false, start);
      assert buf[..cursor][start..] == buf[start..cursor] && buf[..cursor][..start] == buf[..start];
      kill := buf[start..cursor];
      ghost var left, right := buf[..cursor], buf[cursor..];
      buf := buf[..start] + buf[cursor..];
      cursor := start;
      assert buf[..cursor] == left[..start] && buf[cursor..] == right;
      var bytes := Redraw();
      return Write(bytes);
    }

    method Yank() returns (r: Reaction)
      requires Valid()
      modifies this
      ensures Valid() && Outcome(View(), r) == LineModel.Yank(cfg, old(View()))
    {
      if kill == "" || |buf| + |kill| > cfg.maxLine {
        return Ignore;
      }
      ghost var left, right := buf[..cursor], buf[cursor..];
      buf := buf[..cursor] + kill + buf[cursor..];
      cursor := cursor + |kill|;
      assert buf[..cursor] == left + kill && buf[cursor..] == right;
      histPos := None;
      var bytes := Redraw();
      return Write(bytes);
    }

    method ClearScreen() returns (r: Reaction)
      requires Valid()
      ensures Outcome(View(), r) == LineModel.ClearScreen(View())
    {
      var bytes := Redraw();
      return Write([ESC, '[', 'H'] + ([ESC, '[', '2', 'J'] + bytes));
    }

    method Interrupt() returns (r: Reaction)
      requires Valid()
      modifies this
      ensures Valid() && Outcome(View(), r) == LineModel.Interrupt(old(View()))
    {
      buf, cursor, histPos, stash := "", 0, None, "";
      assert buf[..cursor] == "" && buf[cursor..] == "";
      var bytes := Redraw();
      return Write(("^C" + NEW_LINE) + bytes);
    }

    method CtrlD() returns (r: Reaction)
      requires Valid()
      modifies this
      ensures Valid()
      ensures Outcome(View(), r) == if old(buf) == "" then Outcome(old(View()), Eof) else EraseRight(old(View()))
    {
      if buf == "" {
        return Eof;
      }
      r := DeleteForward();
    }

    /** What is kept of the text after the cursor when there is room for `room` bytes of it. */
    static method Trimmed(tail: string, room: nat) returns (kept: string)
      ensures kept == if |tail| > room then tail[..CharStart(tail, room)] else tail
    {
      if |tail| <= room {
        return tail;
      }
      var keep: nat := room;
      while keep > 0 && IsContinuation(tail[keep])
        invariant keep <= room && CharStart(tail, keep) == CharStart(tail, room)
      {
        keep := keep - 1;
      }
      return tail[..keep];
    }

    method ApplyCompletion(replacement: string, space: bool) returns (bytes: string)
      requires Valid()
      modifies this
      ensures Valid() && View() == Completed(cfg, old(View()), replacement, space)
      ensures bytes == LineModel.Redraw(View())
    {
      hide CharStart, SkipBack, LineModel.Redraw;
      var start := SkipBackFrom(false, cursor);
      assert buf[..cursor][..start] == buf[..start];
      var tail := buf[cursor..];
      buf := buf[..start] + replacement + (if space then " " else "");
      tail := Trimmed(tail, if |buf| <= cfg.maxLine then cfg.maxLine - |buf| else 0);
      cursor := |buf|;
      buf := buf + tail;
      assert buf[cursor..] == tail;
      bytes := Redraw();
    }

    // ---- History ----------------------------------------------------------------------------------

    method PushHistory(line: string)
      requires cursor <= |buf|
      modifies this`history
      ensures history == Remembered(cfg, old(history), line)
    {
      var entry := Entry(cfg, line);
      if entry == "" || (history != [] && history[|history| - 1] == entry) {
        return;
      }
      history := history + [entry];
      ghost var all := history;
      while |history| > cfg.maxHistory
        invariant |history| <= |all| && history == all[|all| - |history|..]
        invariant |history| >= cfg.maxHistory || history == all
      {
        history := history[1..];
      }
    }

    method Submit() returns (r: Reaction)
      requires Valid() && search.None?
      modifies this
      ensures Valid() && Outcome(View(), r) == Submitted(cfg, old(View()))
    {
      assert buf[..cursor] + buf[cursor..] == buf;
      var line := buf;
      PushHistory(line);
      buf, cursor, histPos, stash := "", 0, None, "";
      return Reaction.Submit(NEW_LINE, line);
    }

    method HistoryPrev() returns (r: Reaction)
      requires Valid()
      modifies this
      ensures Valid() && Outcome(View(), r) == Older(old(View()))
    {
      if history == [] {
        return Ignore;
      }
      if histPos == Some(0) {
        return Ignore;
      }
      var next: nat;
      if histPos.None? {
        assert buf[..cursor] + buf[cursor..] == buf;
        stash := buf;
        next := |history| - 1;
      } else {
        next := histPos.value - 1;
      }
      histPos := Some(next);
      buf := history[next];
      cursor := |buf|;
      assert buf[..cursor] == buf && buf[cursor..] == "";
      var bytes := Redraw();
      return Write(bytes);
    }

    method HistoryNext() returns (r: Reaction)
      requires Valid()
      modifies this
      ensures Valid() && Outcome(View(), r) == Newer(old(View()))
    {
      if histPos.None? {
        return Ignore;
      }
      var i := histPos.value;
      if i + 1 < |history| {
        histPos := Some(i + 1);
        buf := history[i + 1];
      } else {
        histPos := None;
        buf := stash;
        stash := "";
      }
      cursor := |buf|;
      assert buf[..cursor] == buf && buf[cursor..] == "";
      var bytes := Redraw();
      return Write(bytes);
    }

    // ---- Reverse search ---------------------------------------------------------------------------

    method FindMatch(before: nat, query: string) returns (m: Option<nat>)
      requires before <= |history|
      ensures m == NewestMatch(history, before, query)
    {
      if query == "" {
        return None;
      }
      var i: nat := before;
      while i > 0
        invariant i <= before
        invariant NewestMatch(history, before, query) == NewestMatch(history, i, query)
      {
        var found := Windows(history[i - 1], query);
        if found {
          return Some(i - 1);
        }
        i := i - 1;
      }
      return None;
    }

    method StartSearch() returns (r: Reaction)
      requires Valid() && esc == NoEsc
      modifies this
      ensures Valid() && Outcome(View(), r) == LineModel.StartSearch(old(View()))
    {
      search := Some(Search("", None));
      var bytes := RenderSearch();
      return Write(bytes);
    }

    /** Search again from the newest entry for `query`. */
    method SearchRecompute(query: string) returns (r: Reaction)
      requires Valid() && search.Some?
      modifies this
      ensures Valid() && Outcome(View(), r) == Searching(old(View()), query)
    {
      var matched := FindMatch(|history|, query);
      search := Some(Search(query, matched));
      var bytes := RenderSearch();
      return Write(bytes);
    }

    method SearchStep() returns (r: Reaction)
      requires Valid() && search.Some?
      modifies this
      ensures Valid() && Outcome(View(), r) == SearchOlder(old(View()))
    {
      var s := search.value;
      var from := if s.matched.Some? then s.matched.value else |history|;
      var matched := FindMatch(from, s.query);
      if matched.Some? {
        search := Some(s.(matched := matched));
      }
      var bytes := RenderSearch();
      return Write(bytes);
    }

    method AcceptSearch()
      requires Valid() && search.Some?
      modifies this
      ensures Valid() && View() == Accepted(cfg, old(View())) && search.None? && esc == old(esc)
    {
      assert buf[..cursor] + buf[cursor..] == buf;
      var matched := search.value.matched;
      search := None;
      if matched.Some? {
        buf := history[matched.value];
        if |buf| > cfg.maxLine {
          buf := buf[..cfg.maxLine];
        }
      }
      cursor := |buf|;
      histPos := None;
    }

    method InputSearch(c: char) returns (r: Reaction)
      requires Valid() && search.Some?
      modifies this
      ensures Valid() && Outcome(View(), r) == Searched(cfg, old(View()), c)
    {
      hide Submitted, Searching, SearchOlder, Accepted, LineModel.Redraw, Plainly;
      var query := search.value.query;
      if c == '\r' || c == '\n' {
        AcceptSearch();
        r := Submit();
      } else if c == '\U{12}' {
        r := SearchStep();
      } else if c == '\U{07}' || c == '\U{03}' || c == ESC {
        search := None;
        var bytes := Redraw();
        r := Write(bytes);
      } else if c == '\U{08}' || c == '\U{7F}' {
        r := SearchRecompute(if query == "" then "" else query[..|query| - 1]);
      } else if c >= ' ' {
        r := SearchRecompute(if |query| < cfg.maxLine then query + [c] else query);
      } else {
        AcceptSearch();
        var redraw := Redraw();
        r := InputPlain(c);
        match r {
          case Write(more) => r := Write(redraw + more);
          case Ignore => r := Write(redraw);
          case _ =>
        }
      }
    }

    // ---- Keys -------------------------------------------------------------------------------------

    method InputPlain(c: char) returns (r: Reaction)
      requires Valid() && esc == NoEsc && search.None?
      modifies this
      ensures Valid() && Outcome(View(), r) == Plainly(cfg, old(View()), c)
    {
      hide Submitted, EraseLeft, Home, End, Left, Right, Older, Newer, KillLeft, KillRight, LineModel.KillWord,
        LineModel.Yank, LineModel.ClearScreen, LineModel.StartSearch, LineModel.Interrupt, EraseRight, LineModel.Insert;
      if c == '\r' || c == '\n' {
        r := Submit();
      } else if c == ESC {
        esc := GotEsc;
        r := Ignore;
      } else if c == '\t' {
        r := Complete;
      } else if c == '\U{08}' || c == '\U{7F}' {
        r := Backspace();
      } else if c == '\U{01}' {
        r := MoveHome();
      } else if c == '\U{05}' {
        r := MoveEnd();
      } else if c == '\U{02}' {
        r := MoveLeft();
      } else if c == '\U{06}' {
        r := MoveRight();
      } else if c == '\U{10}' {
        r := HistoryPrev();
      } else if c == '\U{0E}' {
        r := HistoryNext();
      } else if c == '\U{15}' {
        r := KillToStart();
      } else if c == '\U{0B}' {
        r := KillToEnd();
      } else if c == '\U{17}' {
        r := KillWord();
      } else if c == '\U{19}' {
        r := Yank();
      } else if c == '\U{0C}' {
        r := ClearScreen();
      } else if c == '\U{12}' {
        r := StartSearch();
      } else if c == '\U{03}' {
        r := Interrupt();
      } else if c == '\U{04}' {
        assert buf[..cursor] + buf[cursor..] == buf;
        r := CtrlD();
      } else if c >= ' ' {
        r := Insert(c);
      } else {
        r := Ignore;
      }
    }

    method InputCsi(c: char) returns (r: Reaction)
      requires Valid() && esc == InCsi
      modifies this
      ensures Valid() && Outcome(View(), r) == InCsiKey(old(View()), c)
    {
      hide Home, End, Left, Right, Older, Newer, EraseRight;
      if '0' <= c <= '9' || c == ';' {
        if |csiParams| < 8 {
          csiParams := csiParams + [c];
        }
        return Ignore;
      }
      esc := NoEsc;
      var params := csiParams;
      csiParams := "";
      if c == 'A' {
        r := HistoryPrev();
      } else if c == 'B' {
        r := HistoryNext();
      } else if c == 'C' {
        r := MoveRight();
      } else if c == 'D' {
        r := MoveLeft();
      } else if c == 'H' {
        r := MoveHome();
      } else if c == 'F' {
        r := MoveEnd();
      } else if c == '~' && (params == "1" || params == "7") {
        r := MoveHome();
      } else if c == '~' && (params == "4" || params == "8") {
        r := MoveEnd();
      } else if c == '~' && params == "3" {
        r := DeleteForward();
      } else {
        r := Ignore;
      }
    }

    method Input(c: char) returns (r: Reaction)
      requires Valid()
      modifies this
      ensures Valid() && Outcome(View(), r) == Pressed(cfg, old(View()), c)
    {
      hide Plainly, InCsiKey, Searched;
      match esc {
        case GotEsc =>
          if c == '[' || c == 'O' {
            esc, csiParams := InCsi, "";
          } else {
            esc := NoEsc;
          }
          r := Ignore;
        case InCsi => r := InputCsi(c);
        case NoEsc =>
          if search.Some? {
            r := InputSearch(c);
          } else {
            r := InputPlain(c);
          }
      }
    }
  }
}
