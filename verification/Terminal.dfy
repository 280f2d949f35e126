/**
  The part of a terminal that a line editor drives (ECMA-48): rows of characters without a right margin, a
  cursor, carriage return and line feed, overwriting, and the control sequences to erase and to move.
 */
module Terminal {
  import opened Division
  import opened Numerals

  const ESC: char := '\U{1B}'

  datatype Mode = Ground | Escape | Control(params: string)

  datatype Term = Term(mode: Mode, above: seq<string>, row: string, col: nat, below: seq<string>)

  predicate IsPrintable(c: char) {
    ' ' <= c <= '~'
  }

  predicate Plain(s: string) {
    forall k :: 0 <= k < |s| ==> IsPrintable(s[k])
  }

  function Spaces(n: nat): string {
    seq(n, _ => ' ')
  }

  function Put(row: string, col: nat, c: char): string {
    if col < |row| then row[..col] + [c] + row[col + 1..] else row + Spaces(col - |row|) + [c]
  }

  function NextRow(t: Term): Term {
    if t.below == [] then t.(above := t.above + [t.row], row := "")
    else t.(above := t.above + [t.row], row := t.below[0], below := t.below[1..])
  }

  /** The count a control sequence was given; none, or zero, means one. */
  function Count(params: string): nat {
    if params == "" || !AllDigits(params, 10) || ValueOf(params, 10) == 0 then 1 else ValueOf(params, 10)
  }

  function Blank(rows: seq<string>): seq<string> {
    seq(|rows|, _ => "")
  }

  function Obey(t: Term, params: string, final: char): Term {
    if final == 'C' then t.(col := t.col + Count(params))
    else if final == 'D' then t.(col := if Count(params) <= t.col then t.col - Count(params) else 0)
    else if final == 'K' && params == "" then t.(row := if t.col < |t.row| then t.row[..t.col] else t.row)
    else if final == 'J' && params == "2" then t.(above := Blank(t.above), row := "", below := Blank(t.below))
    else if final == 'H' && params == "" then
      var rows := t.above + [t.row] + t.below;
      t.(above := [], row := rows[0], col := 0, below := rows[1..])
    else t
  }

  function Step(t: Term, c: char): Term {
    match t.mode
    case Ground =>
      if c == ESC then t.(mode := Escape)
      else if c == '\r' then t.(col := 0)
      else if c == '\n' then NextRow(t)
      else if IsPrintable(c) then t.(row := Put(t.row, t.col, c), col := t.col + 1)
      else t
    case Escape => if c == '[' then t.(mode := Control("")) else t.(mode := Ground)
    case Control(params) =>
      if IsDigit(c, 10) || c == ';' then t.(mode := Control(params + [c]))
      else Obey(t, params, c).(mode := Ground)
  }

  function Play(t: Term, bytes: string): Term
    decreases |bytes|
  {
    if bytes == "" then t else Play(Step(t, bytes[0]), bytes[1..])
  }

  lemma {:induction false} PlayConcat(t: Term, a: string, b: string)
    ensures Play(t, a + b) == Play(Play(t, a), b)
    decreases |a|
  {
    hide Step;
    if a == "" {
      assert a + b == b;
    } else {
      assert (a + b)[1..] == a[1..] + b;
      PlayConcat(Step(t, a[0]), a[1..], b);
    }
  }

  lemma PlayOne(t: Term, c: char)
    ensures Play(t, [c]) == Step(t, c)
  {
    hide Step;
    assert [c][1..] == "";
  }

  lemma PlayTwo(t: Term, c: char, d: char)
    ensures Play(t, [c, d]) == Step(Step(t, c), d)
  {
    hide Step;
    assert [c, d] == [c] + [d];
    PlayConcat(t, [c], [d]);
    PlayOne(t, c);
    PlayOne(Step(t, c), d);
  }

  lemma PlayThree(t: Term, c: char, d: char, e: char)
    ensures Play(t, [c, d, e]) == Step(Step(Step(t, c), d), e)
  {
    hide Step;
    assert [c, d, e] == [c, d] + [e];
    PlayConcat(t, [c, d], [e]);
    PlayTwo(t, c, d);
    PlayOne(Step(Step(t, c), d), e);
  }

  /** What `s` leaves of a row it is written over from column `col` on. */
  function Over(row: string, col: nat, s: string): string
    requires col <= |row|
  {
    row[..col] + s + (if col + |s| < |row| then row[col + |s|..] else "")
  }

  lemma StepText(t: Term, c: char)
    requires t.mode.Ground? && t.col <= |t.row| && IsPrintable(c)
    ensures Step(t, c) == t.(row := Over(t.row, t.col, [c]), col := t.col + 1)
  {
    assert Spaces(0) == "";
  }

  lemma OverTwice(row: string, col: nat, c: char, s: string)
    requires col <= |row|
    ensures Over(Over(row, col, [c]), col + 1, s) == Over(row, col, [c] + s)
  {
  }

  lemma {:induction false} PlayText(t: Term, s: string)
    requires t.mode.Ground? && t.col <= |t.row| && Plain(s)
    ensures Play(t, s) == t.(row := Over(t.row, t.col, s), col := t.col + |s|)
    decreases |s|
  {
    if s == "" {
      assert Over(t.row, t.col, s) == t.row;
    } else {
      StepText(t, s[0]);
      hide Step, IsPrintable;
      PlayText(Step(t, s[0]), s[1..]);
      OverTwice(t.row, t.col, s[0], s[1..]);
      assert [s[0]] + s[1..] == s;
    }
  }

  lemma PlayErase(t: Term)
    requires t.mode.Ground?
    ensures Play(t, [ESC, '[', 'K']) == t.(row := if t.col < |t.row| then t.row[..t.col] else t.row)
  {
    PlayThree(t, ESC, '[', 'K');
  }

  lemma {:induction false} PlayDigits(t: Term, ds: string)
    requires t.mode.Control? && AllDigits(ds, 10)
    ensures Play(t, ds) == t.(mode := Control(t.mode.params + ds))
    decreases |ds|
  {
    if ds == "" {
      assert t.mode.params + ds == t.mode.params;
    } else {
      ConcatAssoc(t.mode.params, [ds[0]], ds[1..]);
      assert [ds[0]] + ds[1..] == ds;
      PlayDigits(Step(t, ds[0]), ds[1..]);
    }
  }

  /** Move the cursor `n` columns to the left, if `n` is not zero. */
  function Back(n: nat): string {
    if n == 0 then "" else [ESC, '['] + (Printed(n, 10) + ['D'])
  }

  lemma PlayBack(t: Term, n: nat)
    requires t.mode.Ground? && n <= t.col
    ensures Play(t, Back(n)) == t.(col := t.col - n)
  {
    hide AllDigits, ValueOf, Printed, Play;
    if n > 0 {
      PrintedReads(n, 10);
      PlayCount(t, Printed(n, 10), n);
    } else {
      PlayNothing(t);
    }
  }

  lemma PlayNothing(t: Term)
    ensures Play(t, "") == t
  {
  }

  lemma PlayCount(t: Term, ds: string, n: nat)
    requires t.mode.Ground? && ds != "" && AllDigits(ds, 10) && ValueOf(ds, 10) == n && 0 < n <= t.col
    ensures Play(t, [ESC, '['] + (ds + ['D'])) == t.(col := t.col - n)
  {
    hide AllDigits, ValueOf, IsDigit, Play, Step;
    PlayConcat(t, [ESC, '['], ds + ['D']);
    PlayIntro(t);
    var u := t.(mode := Control(""));
    PlayConcat(u, ds, ['D']);
    PlayDigits(u, ds);
    assert "" + ds == ds;
    PlayLeft(u.(mode := Control(ds)), n);
  }

  lemma PlayIntro(t: Term)
    requires t.mode.Ground?
    ensures Play(t, [ESC, '[']) == t.(mode := Control(""))
  {
    PlayTwo(t, ESC, '[');
  }

  lemma PlayLeft(t: Term, n: nat)
    requires t.mode.Control? && t.mode.params != "" && AllDigits(t.mode.params, 10) && ValueOf(t.mode.params, 10) == n
    requires 0 < n <= t.col
    ensures Play(t, ['D']) == t.(mode := Ground, col := t.col - n)
  {
    hide AllDigits, ValueOf;
    PlayOne(t, 'D');
  }

  /** Redrawing one line: back to the first column, the text over whatever was there, the rest erased, and
      the cursor moved back. */
  lemma PlayLine(t: Term, text: string, back: nat)
    requires t.mode.Ground? && Plain(text) && back <= |text|
    ensures Play(t, "\r" + (text + ([ESC, '[', 'K'] + Back(back)))) == t.(row := text, col := |text| - back)
  {
    hide Play, Step, Plain;
    PlayConcat(t, "\r", text + ([ESC, '[', 'K'] + Back(back)));
    PlayReturn(t);
    var u := t.(col := 0);
    PlayConcat(u, text, [ESC, '[', 'K'] + Back(back));
    PlayText(u, text);
    var v := t.(row := Over(t.row, 0, text), col := |text|);
    PlayConcat(v, [ESC, '[', 'K'], Back(back));
    PlayErase(v);
    assert t.row[..0] + text == text;
    assert (if v.col < |v.row| then v.row[..v.col] else v.row) == text;
    PlayBack(v.(row := text), back);
  }

  lemma PlayReturn(t: Term)
    requires t.mode.Ground?
    ensures Play(t, "\r") == t.(col := 0)
  {
    PlayOne(t, '\r');
  }
}
