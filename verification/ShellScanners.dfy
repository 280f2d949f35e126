/**
  The scanners of a raw command line: comments, here-documents, the operators between commands, pipes,
  redirections and words.
 */
module ShellScanners {
  import opened Division
  import opened ShellQuoting
  import opened Text
  import opened Wrappers

  // ---- Where a scan stops -------------------------------------------------------------------------

  /** Where the scan that is at `i` stops; `escaped` if the character there is. */
  function Stop(k: Kind, line: string, i: nat, q: Quote, escaped: bool, edge: bool): (n: nat)
    requires i <= |line|
    ensures i <= n <= |line|
  {
    if escaped && i < |line| then i + 1 + Cut(k, line[i + 1..], q, false)
    else i + Cut(k, line[i..], q, edge)
  }

  /** One turn of a scanning loop. */
  lemma Turn(k: Kind, line: string, i: nat, q: Quote, edge: bool)
    requires i < |line|
    ensures
      var s := line[i..];
      var r := Substituted(s);
      Stop(k, line, i, q, false, edge) ==
        if Stops(k, s, q, edge) then i
        else if q != InSingle && r.Some? then Stop(k, line, i + r.value.width, q, false, false)
        else if s[0] == '\\' && q != InSingle then Stop(k, line, i + 1, q, true, false)
        else Stop(k, line, i + Head(k, s, q).width, Head(k, s, q).quote, false, Head(k, s, q).edge)
  {
    hide Cut, Stops, Substituted, Starts, IsAsciiWhitespace;
    StopUnfolds(k, line, i, q, edge);
    if i + 1 == |line| {
      CutNothing(k, q, false);
    }
  }

  lemma StopUnfolds(k: Kind, line: string, i: nat, q: Quote, edge: bool)
    requires i < |line|
    ensures
      var s := line[i..];
      var h := Head(k, s, q);
      Stop(k, line, i, q, false, edge) == if Stops(k, s, q, edge) then i else Stop(k, line, i + h.width, h.quote, false, h.edge)
  {
    hide Cut, Stops, Head;
    var s := line[i..];
    var h := Head(k, s, q);
    assert s[h.width..] == line[i + h.width..];
    CutUnfolds(k, s, q, edge);
  }

  // ---- Substitutions ------------------------------------------------------------------------------

  datatype Substitution = Substitution(end: nat, from: nat, to: nat, arithmetic: bool)

  function Placed(r: Option<Span>, i: nat): Option<Substitution> {
    match r
    case Some(s) => Some(Substitution(i + s.width, i + s.from, i + s.to, s.arithmetic))
    case None => None
  }

  method SubstitutionAt(line: string, i: nat) returns (r: Option<Substitution>)
    ensures r == if i < |line| then Placed(Substituted(line[i..]), i) else None
  {
    if i >= |line| {
      return None;
    }
    if line[i] == '`' {
      var close := FindBacktick(line, i + 1);
      assert line[i..][1..] == line[i + 1..];
      return if close.Some? then Some(Substitution(close.value + 1, i + 1, close.value, false)) else None;
    }
    if line[i] == '$' && i + 1 < |line| && line[i + 1] == '(' {
      var arithmetic := i + 2 < |line| && line[i + 2] == '(';
      var close := FindClosing(line, i + 2);
      assert line[i..][2..] == line[i + 2..];
      if close.None? {
        return None;
      }
      return Some(Substitution(close.value + 1, if arithmetic then i + 3 else i + 2,
                               if arithmetic then close.value - 1 else close.value, arithmetic));
    }
    return None;
  }

  lemma BacktickTurn(s: string)
    ensures Backtick(s) ==
      if s == "" then None
      else if s[0] == '`' then Some(0)
      else if s[0] == '\\' then (if |s| == 1 then None else Shifted(2, Backtick(s[2..])))
      else Shifted(1, Backtick(s[1..]))
  {
  }

  method FindBacktick(line: string, start: nat) returns (r: Option<nat>)
    requires start <= |line|
    ensures r == Shifted(start, Backtick(line[start..]))
  {
    hide Backtick;
    BacktickTurn("");
    var j := start;
    while j < |line|
      invariant start <= j <= |line| + 1
      invariant Shifted(start, Backtick(line[start..])) == if j <= |line| then Shifted(j, Backtick(line[j..])) else None
    {
      BacktickTurn(line[j..]);
      if line[j] == '`' {
        return Some(j);
      }
      var n := if line[j] == '\\' then 2 else 1;
      assert j + n <= |line| ==> line[j..][n..] == line[j + n..];
      j := j + n;
    }
    return None;
  }

  /** The parenthesis before `start` is open. */
  method FindClosing(line: string, start: nat) returns (r: Option<nat>)
    requires start <= |line|
    ensures r == Shifted(start, Closing(line[start..], 1, Bare))
  {
    hide Closing;
    var depth: nat := 1;
    var q := Bare;
    var j := start;
    while j < |line|
      invariant start <= j <= |line| + 1 && depth > 0
      invariant Shifted(start, Closing(line[start..], 1, Bare))
             == if j <= |line| then Shifted(j, Closing(line[j..], depth, q)) else None
    {
      var c := line[j];
      var n := if c == '\\' && q != InSingle then 2 else 1;
      assert j + n <= |line| ==> line[j..][n..] == line[j + n..];
      ClosingUnfolds(line[j..], depth, q);
      if n == 2 {
      } else if c == '(' && q == Bare {
        depth := depth + 1;
      } else if c == ')' && q == Bare {
        if depth == 1 {
          return Some(j);
        }
        depth := depth - 1;
      } else {
        q := Toggled(q, c);
      }
      j := j + n;
    }
    ClosingNothing(depth, q);
    return None;
  }

  lemma ClosingNothing(depth: nat, q: Quote)
    requires depth > 0
    ensures Closing("", depth, q) == None
  {
  }

  lemma ClosingUnfolds(s: string, depth: nat, q: Quote)
    requires s != "" && depth > 0
    ensures
      var c := s[0];
      Closing(s, depth, q) ==
        if c == '\\' && q != InSingle then (if |s| == 1 then None else Shifted(2, Closing(s[2..], depth, q)))
        else if c == '(' && q == Bare then Shifted(1, Closing(s[1..], depth + 1, q))
        else if c == ')' && q == Bare then (if depth == 1 then Some(0) else Shifted(1, Closing(s[1..], depth - 1, q)))
        else Shifted(1, Closing(s[1..], depth, Toggled(q, c)))
  {
  }

  // ---- Comments and word ends ---------------------------------------------------------------------

  method StripComment(line: string) returns (kept: string)
    ensures kept == line[..Cut(Comment, line, Bare, true)]
  {
    hide Cut, Substituted;
    var q, escaped, wordStart := Bare, false, true;
    var i := 0;
    assert line[0..] == line;
    while i < |line|
      invariant i <= |line|
      invariant Stop(Comment, line, i, q, escaped, wordStart) == Cut(Comment, line, Bare, true)
      decreases |line| - i
    {
      var c := line[i];
      if escaped {
        escaped, wordStart := false, false;
        i := i + 1;
        continue;
      }
      Turn(Comment, line, i, q, wordStart);
      if q != InSingle {
        var subst := SubstitutionAt(line, i);
        if subst.Some? {
          i, wordStart := subst.value.end, false;
          continue;
        }
      }
      if c == '\\' && q != InSingle {
        escaped := true;
      } else if c == '\'' || c == '"' {
        q := Toggled(q, c);
      } else if c == '#' && wordStart && q == Bare {
        return line[..i];
      } else if (c == ';' || c == '&' || c == '|' || IsAsciiWhitespace(c)) && q == Bare {
        wordStart := true;
        i := i + 1;
        continue;
      }
      wordStart := false;
      i := i + 1;
    }
    CutNothing(Comment, q, wordStart);
    return line;
  }

  method WordEnd(s: string, start: nat) returns (end: nat)
    requires start <= |s|
    ensures end == start + Cut(Word, s[start..], Bare, false)
  {
    hide Cut, Substituted, IsAsciiWhitespace;
    var q, escaped := Bare, false;
    end := start;
    ghost var edge := false;
    while end < |s|
      invariant start <= end <= |s|
      invariant Stop(Word, s, end, q, escaped, edge) == start + Cut(Word, s[start..], Bare, false)
      decreases |s| - end
    {
      var c := s[end];
      if escaped {
        escaped := false;
        end := end + 1;
        edge := false;
        continue;
      }
      Turn(Word, s, end, q, edge);
      edge := Head(Word, s[end..], q).edge;
      if q != InSingle {
        var subst := SubstitutionAt(s, end);
        if subst.Some? {
          end := subst.value.end;
          edge := false;
          continue;
        }
      }
      if c == '\\' && q != InSingle {
        escaped := true;
      } else if c == '\'' || c == '"' {
        q := Toggled(q, c);
      } else if (c == '>' || c == '<' || IsAsciiWhitespace(c)) && q == Bare {
        break;
      }
      end := end + 1;
    }
    CutNothing(Word, q, edge);
  }

  // ---- Segments and stages ------------------------------------------------------------------------

  datatype Separator = Always | AndIf | OrIf

  datatype Segment = Segment(runIf: Separator, text: string)

  /** The operator at the head of `s`, where a scan for operators stopped. */
  function Operator(s: string): Separator {
    if Starts(s, '&', 1) then AndIf else if Starts(s, '|', 1) then OrIf else Always
  }

  function OperatorText(sep: Separator): string {
    match sep
    case Always => ";"
    case AndIf => "&&"
    case OrIf => "||"
  }

  /** What follows the operator. */
  function AfterOperator(s: string): (r: string)
    requires s != "" && Stops(Sequence, s, Bare, false)
    ensures |r| < |s|
  {
    s[|OperatorText(Operator(s))|..]
  }

  function Segments(s: string, runIf: Separator): seq<Segment>
    decreases |s|
  {
    var n := Cut(Sequence, s, Bare, false);
    CutStops(Sequence, s, Bare, false);
    if n == |s| then [Segment(runIf, s)]
    else [Segment(runIf, s[..n])] + Segments(AfterOperator(s[n..]), Operator(s[n..]))
  }

  /** A scan ends at the end of the text or where the scanner stops, outside quotes. */
  lemma {:induction false} CutStops(k: Kind, s: string, q: Quote, edge: bool)
    ensures var n := Cut(k, s, q, edge);
            n < |s| ==> Stops(k, s[n..], Bare, true) && (k != Comment ==> Stops(k, s[n..], Bare, false))
    decreases |s|
  {
    hide Substituted, Starts, IsAsciiWhitespace;
    if s != "" && !Stops(k, s, q, edge) {
      hide Stops, Head;
      CutUnfolds(k, s, q, edge);
      var h := Head(k, s, q);
      CutStops(k, s[h.width..], h.quote, h.edge);
      var n := Cut(k, s[h.width..], h.quote, h.edge);
      assert s[h.width..][n..] == s[h.width + n..];
    } else {
      assert s[0..] == s;
    }
  }

  method SplitSegments(line: string) returns (segments: seq<Segment>)
    ensures segments == Segments(line, Always)
  {
    hide Cut, Substituted, IsAsciiWhitespace, Segments, Starts, Stops, Head;
    segments := [];
    var runIf, q, escaped := Always, Bare, false;
    ghost var edge := false;
    var start, i := 0, 0;
    assert line[0..] == line;
    while i < |line|
      invariant start <= i <= |line|
      invariant segments + Segments(line[start..], runIf) == Segments(line, Always)
      invariant Stop(Sequence, line, i, q, escaped, edge) == start + Cut(Sequence, line[start..], Bare, false)
      decreases |line| - i
    {
      var c := line[i];
      if escaped {
        escaped, edge := false, false;
        i := i + 1;
        continue;
      }
      SequenceTurn(line, i, q, edge);
      if q != InSingle {
        var subst := SubstitutionAt(line, i);
        if subst.Some? {
          i, edge := subst.value.end, false;
          continue;
        }
      }
      edge := Head(Sequence, line[i..], q).edge;
      if c == '\\' && q != InSingle {
        escaped := true;
      } else if c == '\'' || c == '"' {
        q := Toggled(q, c);
      } else if (c == ';' || c == '&' || c == '|') && q == Bare {
        if c == ';' || (i + 1 < |line| && line[i + 1] == c) {
          PairAt(line, i);
          SegmentEnds(line, start, i, runIf);
          var next := if c == ';' then Always else if c == '&' then AndIf else OrIf;
          var width := if c == ';' then 1 else 2;
          ConcatAssoc(segments, [Segment(runIf, line[start..i])], Segments(line[i + width..], next));
          segments := segments + [Segment(runIf, line[start..i])];
          runIf := next;
          i := i + width;
          start, edge := i, false;
          continue;
        }
      }
      i := i + 1;
    }
    CutNothing(Sequence, q, edge);
    LastSegment(line[start..], runIf);
    segments := segments + [Segment(runIf, line[start..])];
  }

  /** One turn of the scan for operators. */
  lemma SequenceTurn(line: string, i: nat, q: Quote, edge: bool)
    requires i < |line|
    ensures
      var s, c := line[i..], line[i];
      var next := Head(Sequence, s, q).edge;
      Stop(Sequence, line, i, q, false, edge) ==
        if q != InSingle && Substituted(s).Some? then Stop(Sequence, line, i + Substituted(s).value.width, q, false, false)
        else if c == '\\' && q != InSingle then Stop(Sequence, line, i + 1, q, true, next)
        else if c == '\'' || c == '"' then Stop(Sequence, line, i + 1, Toggled(q, c), false, next)
        else if q == Bare && (c == ';' || ((c == '&' || c == '|') && i + 1 < |line| && line[i + 1] == c)) then i
        else Stop(Sequence, line, i + 1, q, false, next)
  {
    hide Substituted, Starts, IsAsciiWhitespace, Cut, Stop;
    Turn(Sequence, line, i, q, edge);
    PairAt(line, i);
  }

  lemma PairAt(line: string, i: nat)
    requires i < |line|
    ensures Starts(line[i..], '&', 2) <==> line[i] == '&' && i + 1 < |line| && line[i + 1] == '&'
    ensures Starts(line[i..], '|', 2) <==> line[i] == '|' && i + 1 < |line| && line[i + 1] == '|'
    ensures Starts(line[i..], '&', 1) <==> line[i] == '&'
    ensures Starts(line[i..], '|', 1) <==> line[i] == '|'
  {
  }

  lemma LastSegment(s: string, runIf: Separator)
    requires Cut(Sequence, s, Bare, false) == |s|
    ensures Segments(s, runIf) == [Segment(runIf, s)]
  {
  }

  lemma SegmentEnds(line: string, start: nat, i: nat, runIf: Separator)
    requires start <= i < |line| && i == start + Cut(Sequence, line[start..], Bare, false)
    ensures
      var sep := Operator(line[i..]);
      i + |OperatorText(sep)| <= |line|
      && Segments(line[start..], runIf) == [Segment(runIf, line[start..i])] + Segments(line[i + |OperatorText(sep)|..], sep)
  {
    hide Cut, Stops, Operator, OperatorText, Segments;
    var s, n := line[start..], i - start;
    CutStops(Sequence, s, Bare, false);
    SliceTwice(line, start, n, n);
    SliceTwice(line, start, 0, n);
    assert s[0..n] == s[..n];
    SegmentsUnfold(s, n, runIf);
    var w := |OperatorText(Operator(line[i..]))|;
    OperatorFits(line[i..]);
    SliceTwice(line, i, w, w);
  }

  lemma OperatorFits(s: string)
    requires s != "" && Stops(Sequence, s, Bare, false)
    ensures |OperatorText(Operator(s))| <= |s|
  {
  }

  lemma SegmentsUnfold(s: string, n: nat, runIf: Separator)
    requires n == Cut(Sequence, s, Bare, false) < |s| && Stops(Sequence, s[n..], Bare, false)
    ensures Segments(s, runIf) == [Segment(runIf, s[..n])] + Segments(AfterOperator(s[n..]), Operator(s[n..]))
  {
    hide Cut, Stops, AfterOperator, Operator;
  }

  function Stages(s: string): seq<string>
    decreases |s|
  {
    var n := Cut(Pipe, s, Bare, false);
    if n == |s| then [s] else [s[..n]] + Stages(s[n + 1..])
  }

  method SplitPipeline(segment: string) returns (stages: seq<string>)
    ensures stages == Stages(segment)
  {
    hide Cut, Substituted, IsAsciiWhitespace, Stages;
    stages := [];
    var q, escaped := Bare, false;
    ghost var edge := false;
    var start, i := 0, 0;
    assert segment[0..] == segment;
    while i < |segment|
      invariant start <= i <= |segment|
      invariant stages + Stages(segment[start..]) == Stages(segment)
      invariant Stop(Pipe, segment, i, q, escaped, edge) == start + Cut(Pipe, segment[start..], Bare, false)
      decreases |segment| - i
    {
      var c := segment[i];
      if escaped {
        escaped, edge := false, false;
        i := i + 1;
        continue;
      }
      Turn(Pipe, segment, i, q, edge);
      if q != InSingle {
        var subst := SubstitutionAt(segment, i);
        if subst.Some? {
          i, edge := subst.value.end, false;
          continue;
        }
      }
      edge := Head(Pipe, segment[i..], q).edge;
      if c == '\\' && q != InSingle {
        escaped := true;
      } else if c == '\'' || c == '"' {
        q := Toggled(q, c);
      } else if c == '|' && q == Bare {
        StageEnds(segment, start, i);
        ConcatAssoc(stages, [segment[start..i]], Stages(segment[i + 1..]));
        stages := stages + [segment[start..i]];
        start, edge := i + 1, false;
      }
      i := i + 1;
    }
    CutNothing(Pipe, q, edge);
    LastStage(segment[start..]);
    stages := stages + [segment[start..]];
  }

  lemma LastStage(s: string)
    requires Cut(Pipe, s, Bare, false) == |s|
    ensures Stages(s) == [s]
  {
  }

  lemma StageEnds(segment: string, start: nat, i: nat)
    requires start <= i < |segment| && i == start + Cut(Pipe, segment[start..], Bare, false)
    ensures Stages(segment[start..]) == [segment[start..i]] + Stages(segment[i + 1..])
  {
    hide Cut, Substituted;
    var s := segment[start..];
    assert s[i - start + 1..] == segment[i + 1..] && s[..i - start] == segment[start..i];
  }

  // ---- Redirections -------------------------------------------------------------------------------

  datatype Stream = Stdout | Stderr | Both

  datatype Target = File(path: string, append: bool) | Dup(stream: Stream)

  datatype Redirect = Redirect(stream: Stream, target: Target)

  datatype RedirectError = BadDescriptor(fd: string) | NoTarget

  datatype Redirected = Redirected(command: string, redirects: seq<Redirect>) | Refused(error: RedirectError)

  function DigitRun(s: string): (n: nat)
    ensures n <= |s|
  {
    if s != "" && '0' <= s[0] <= '9' then 1 + DigitRun(s[1..]) else 0
  }

  function BlankRun(s: string): (n: nat)
    ensures n <= |s|
  {
    if s != "" && IsAsciiWhitespace(s[0]) then 1 + BlankRun(s[1..]) else 0
  }

  /** What follows a `>`: the target and its width, or what is wrong with it. */
  datatype Aim = Aim(target: Target, width: nat) | Astray(error: RedirectError)

  function Aimed(s: string): (r: Aim)
    ensures r.Aim? ==> r.width <= |s|
  {
    if s != "" && s[0] == '&' then
      var n := DigitRun(s[1..]);
      var fd := s[1..1 + n];
      if fd == "1" then Aim(Dup(Stdout), 1 + n)
      else if fd == "2" then Aim(Dup(Stderr), 1 + n)
      else Astray(BadDescriptor(fd))
    else
      var append := s != "" && s[0] == '>';
      var j := if append then 1 else 0;
      var k := j + BlankRun(s[j..]);
      var n := Cut(Word, s[k..], Bare, false);
      if n == 0 then Astray(NoTarget) else Aim(File(s[k..k + n], append), k + n)
  }

  /** The descriptor a word names when it stands right before `>`. */
  function Descriptor(word: string): Option<Stream> {
    if word == "1" then Some(Stdout) else if word == "2" then Some(Stderr) else if word == "&" then Some(Both) else None
  }

  function Cons(r: Redirect, rest: Redirected): Redirected {
    match rest
    case Redirected(command, rs) => Redirected(command, [r] + rs)
    case Refused(e) => Refused(e)
  }

  /** The command text is everything but the redirections. `kept` has been read before the word `word`, which
      has no quoting in it if it is `plain`. */
  function Redirects(kept: string, word: string, plain: bool, s: string, q: Quote): Redirected
    decreases |s|
  {
    if s == "" then Redirected(kept + word, [])
    else if Stops(Redirection, s, q, false) then
      var fd := if plain then Descriptor(word) else None;
      match Aimed(s[1..])
      case Aim(target, n) =>
        Cons(Redirect(fd.GetOr(Stdout), target),
             Redirects(if fd.Some? then kept else kept + word, "", true, s[1 + n..], Bare))
      case Astray(e) => Refused(e)
    else
      var h := Head(Redirection, s, q);
      if Live(s, q) && IsAsciiWhitespace(s[0]) then Redirects(kept + word + s[..1], "", true, s[1..], q)
      else Redirects(kept, word + s[..h.width], plain && Live(s, q), s[h.width..], h.quote)
  }

  method SkipDigits(s: string, start: nat) returns (end: nat)
    requires start <= |s|
    ensures end == start + DigitRun(s[start..])
  {
    end := start;
    while end < |s| && '0' <= s[end] <= '9'
      invariant start <= end <= |s|
      invariant DigitRun(s[start..]) == end - start + DigitRun(s[end..])
    {
      assert s[end..][1..] == s[end + 1..];
      end := end + 1;
    }
  }

  method SkipBlanks(s: string, start: nat) returns (end: nat)
    requires start <= |s|
    ensures end == start + BlankRun(s[start..])
  {
    end := start;
    while end < |s| && IsAsciiWhitespace(s[end])
      invariant start <= end <= |s|
      invariant BlankRun(s[start..]) == end - start + BlankRun(s[end..])
    {
      assert s[end..][1..] == s[end + 1..];
      end := end + 1;
    }
  }

  lemma SliceTwice(s: string, i: nat, j: nat, k: nat)
    requires i + j <= i + k <= |s|
    ensures s[i..][j..] == s[i + j..] && s[i..][j..k] == s[i + j..i + k]
  {
  }

  method ReadTarget(stage: string, start: nat) returns (r: Aim)
    requires start <= |stage|
    ensures r == Aimed(stage[start..])
  {
    hide Cut, DigitRun, BlankRun;
    if start < |stage| && stage[start] == '&' {
      var k := SkipDigits(stage, start + 1);
      var fd := stage[start + 1..k];
      SliceTwice(stage, start, 1, k - start);
      return if fd == "1" then Aim(Dup(Stdout), k - start)
             else if fd == "2" then Aim(Dup(Stderr), k - start)
             else Astray(BadDescriptor(fd));
    }
    r := ReadPath(stage, start);
  }

  method ReadPath(stage: string, start: nat) returns (r: Aim)
    requires start <= |stage| && (start < |stage| ==> stage[start] != '&')
    ensures r == Aimed(stage[start..])
  {
    hide Cut, BlankRun, Aimed;
    var append := start < |stage| && stage[start] == '>';
    var j := if append then start + 1 else start;
    var k := SkipBlanks(stage, j);
    var end := WordEnd(stage, k);
    SliceTwice(stage, start, j - start, k - start);
    SliceTwice(stage, start, k - start, end - start);
    AimedAtPath(stage[start..], append, k - start, end - k);
    return if end == k then Astray(NoTarget) else Aim(File(stage[k..end], append), end - start);
  }

  lemma AimedAtPath(s: string, append: bool, k: nat, n: nat)
    requires (s != "" ==> s[0] != '&') && append == (s != "" && s[0] == '>')
    requires var j := if append then 1 else 0; k == j + BlankRun(s[j..])
    requires k <= |s| && n == Cut(Word, s[k..], Bare, false)
    ensures Aimed(s) == if n == 0 then Astray(NoTarget) else Aim(File(s[k..k + n], append), k + n)
  {
    hide Cut, BlankRun;
  }

  function Prepended(rs: seq<Redirect>, rest: Redirected): Redirected {
    match rest
    case Redirected(command, more) => Redirected(command, rs + more)
    case Refused(e) => Refused(e)
  }

  lemma PrependedOnce(rs: seq<Redirect>, r: Redirect, rest: Redirected)
    ensures Prepended(rs, Cons(r, rest)) == Prepended(rs + [r], rest)
    ensures Prepended([], rest) == rest
  {
    if rest.Redirected? {
      assert rs + ([r] + rest.redirects) == rs + [r] + rest.redirects;
      assert [] + rest.redirects == rest.redirects;
    }
  }

  /** What is left of the scan at `i`, when the text of the word so far starts at `wordStart`. */
  ghost function RedirectsFrom(stage: string, i: nat, wordStart: nat, kept: string, plain: bool, q: Quote, escaped: bool): Redirected
    requires wordStart <= i <= |stage|
  {
    var j := if escaped && i < |stage| then i + 1 else i;
    Redirects(kept, stage[wordStart..j], plain && !escaped, stage[j..], q)
  }

  lemma RedirectsUnfolds(kept: string, word: string, plain: bool, s: string, q: Quote)
    requires s != "" && !Stops(Redirection, s, q, false)
    ensures var h := Head(Redirection, s, q);
            Redirects(kept, word, plain, s, q) ==
              if Live(s, q) && IsAsciiWhitespace(s[0]) then Redirects(kept + word + s[..1], "", true, s[1..], q)
              else Redirects(kept, word + s[..h.width], plain && Live(s, q), s[h.width..], h.quote)
  {
  }

  /** One turn of the loop where no redirection starts. */
  lemma RedirectTurn(stage: string, i: nat, wordStart: nat, kept: string, plain: bool, q: Quote)
    requires wordStart <= i < |stage| && !Stops(Redirection, stage[i..], q, false)
    ensures
      var s := stage[i..];
      var r := Substituted(s);
      RedirectsFrom(stage, i, wordStart, kept, plain, q, false) ==
        if q != InSingle && r.Some? then RedirectsFrom(stage, i + r.value.width, wordStart, kept, false, q, false)
        else if s[0] == '\\' && q != InSingle then RedirectsFrom(stage, i + 1, wordStart, kept, false, q, true)
        else if q == Bare && IsAsciiWhitespace(s[0]) then
          RedirectsFrom(stage, i + 1, i + 1, kept + stage[wordStart..i + 1], true, q, false)
        else RedirectsFrom(stage, i + 1, wordStart, kept, plain && Live(s, q), Toggled(q, s[0]), false)
  {
    hide Substituted, Redirects, Stops, Starts;
    var s := stage[i..];
    var h := Head(Redirection, s, q);
    RedirectsUnfolds(kept, stage[wordStart..i], plain, s, q);
    SliceTwice(stage, i, h.width, h.width);
    WordGrows(stage, wordStart, i, h.width);
    WordGrows(stage, wordStart, i, 1);
    ConcatAssoc(kept, stage[wordStart..i], s[..1]);
    assert stage[i + 1..i + 1] == "";
  }

  lemma WordGrows(stage: string, wordStart: nat, i: nat, n: nat)
    requires wordStart <= i && i + n <= |stage|
    ensures stage[wordStart..i] + stage[i..][..n] == stage[wordStart..i + n]
  {
  }

  /** The turn where one does. */
  lemma RedirectFound(stage: string, i: nat, wordStart: nat, kept: string, plain: bool, q: Quote)
    requires wordStart <= i < |stage| && Stops(Redirection, stage[i..], q, false)
    ensures
      var word := stage[wordStart..i];
      var fd := if plain then Descriptor(word) else None;
      RedirectsFrom(stage, i, wordStart, kept, plain, q, false) ==
        match Aimed(stage[i + 1..])
        case Aim(target, n) =>
          Cons(Redirect(fd.GetOr(Stdout), target),
               RedirectsFrom(stage, i + 1 + n, i + 1 + n, if fd.Some? then kept else kept + word, true, Bare, false))
        case Astray(e) => Refused(e)
  {
    hide Substituted, Aimed, Stops;
    assert stage[i..][1..] == stage[i + 1..];
    var aim := Aimed(stage[i + 1..]);
    if aim.Aim? {
      SliceTwice(stage, i, 1 + aim.width, 1 + aim.width);
      assert stage[i + 1 + aim.width..i + 1 + aim.width] == "";
    }
  }

  method SplitRedirects(stage: string) returns (r: Redirected)
    ensures r == Redirects("", "", true, stage, Bare)
  {
    hide Cut, Substituted, Redirects, RedirectsFrom, Aimed, Starts;
    var command, redirects: seq<Redirect> := "", [];
    var q, escaped, plainWord := Bare, false, true;
    var copyFrom: nat, wordStart: nat, i: nat := 0, 0, 0;
    RedirectsStart(stage);
    PrependedOnce([], Redirect(Stdout, Dup(Stdout)), Redirects("", "", true, stage, Bare));
    while i < |stage|
      invariant copyFrom <= wordStart <= i <= |stage|
      invariant q != Bare || escaped ==> !plainWord
      invariant Redirects("", "", true, stage, Bare)
             == Prepended(redirects, RedirectsFrom(stage, i, wordStart, command + stage[copyFrom..wordStart], plainWord, q, escaped))
      decreases |stage| - i
    {
      var c := stage[i];
      ghost var kept := command + stage[copyFrom..wordStart];
      if escaped {
        RedirectEscaped(stage, i, wordStart, kept, plainWord, q);
        escaped := false;
        i := i + 1;
        continue;
      }
      if !Stops(Redirection, stage[i..], q, false) {
        RedirectTurn(stage, i, wordStart, kept, plainWord, q);
      }
      if q != InSingle {
        var subst := SubstitutionAt(stage, i);
        if subst.Some? {
          i, plainWord := subst.value.end, false;
          continue;
        }
      }
      if c == '\\' && q != InSingle {
        escaped, plainWord := true, false;
      } else if c == '\'' || c == '"' {
        q, plainWord := Toggled(q, c), false;
      } else if c == '>' && q == Bare {
        RedirectFound(stage, i, wordStart, kept, plainWord, q);
        var fd := if plainWord then Descriptor(stage[wordStart..i]) else None;
        var opStart := if fd.Some? then wordStart else i;
        var aim := ReadTarget(stage, i + 1);
        if aim.Astray? {
          return Refused(aim.error);
        }
        var end := i + 1 + aim.width;
        command := command + stage[copyFrom..opStart];
        assert command == if fd.Some? then kept else kept + stage[wordStart..i];
        assert command + stage[end..end] == command;
        PrependedOnce(redirects, Redirect(fd.GetOr(Stdout), aim.target),
                      RedirectsFrom(stage, end, end, command, true, Bare, false));
        redirects := redirects + [Redirect(fd.GetOr(Stdout), aim.target)];
        copyFrom, wordStart, i, plainWord := end, end, end, true;
        continue;
      } else if IsAsciiWhitespace(c) && q == Bare {
        assert kept + stage[wordStart..i + 1] == command + stage[copyFrom..i + 1];
        wordStart, plainWord := i + 1, true;
      }
      i := i + 1;
    }
    ghost var kept := command + stage[copyFrom..wordStart];
    RedirectsEnd(stage, wordStart, kept, plainWord, q, escaped);
    command := command + stage[copyFrom..];
    assert command == kept + stage[wordStart..];
    assert redirects + [] == redirects;
    return Redirected(command, redirects);
  }

  lemma RedirectsStart(stage: string)
    ensures RedirectsFrom(stage, 0, 0, "" + stage[0..0], true, Bare, false) == Redirects("", "", true, stage, Bare)
  {
    assert stage[0..] == stage && stage[0..0] == "" && "" + stage[0..0] == "";
  }

  lemma RedirectsEnd(stage: string, wordStart: nat, kept: string, plain: bool, q: Quote, escaped: bool)
    requires wordStart <= |stage|
    ensures RedirectsFrom(stage, |stage|, wordStart, kept, plain, q, escaped) == Redirected(kept + stage[wordStart..], [])
  {
  }

  lemma RedirectEscaped(stage: string, i: nat, wordStart: nat, kept: string, plain: bool, q: Quote)
    requires wordStart <= i < |stage|
    ensures RedirectsFrom(stage, i, wordStart, kept, plain, q, true) == RedirectsFrom(stage, i + 1, wordStart, kept, false, q, false)
  {
  }

  // ---- Here-documents -----------------------------------------------------------------------------

  datatype Heredoc = Heredoc(delimiter: string, stripTabs: bool, expand: bool)

  /** A here-document and the line without its operator and delimiter. */
  datatype Opened = Opened(doc: Heredoc, rest: string)

  /** The text of a word without its quoting. */
  function Unquoted(s: string, q: Quote): string
    decreases |s|
  {
    if s == "" then ""
    else if s[0] == '\\' && q != InSingle then (if |s| == 1 then "" else [s[1]] + Unquoted(s[2..], q))
    else if Toggled(q, s[0]) != q then Unquoted(s[1..], Toggled(q, s[0]))
    else [s[0]] + Unquoted(s[1..], q)
  }

  /** The here-document a `<<` opens, and the width of its delimiter with the blanks before it. */
  datatype Delimiter = Delimiter(doc: Heredoc, width: nat) | NoDelimiter

  /** What a `<<` opens, `s` being what follows it. */
  function Opening(s: string): (r: Delimiter)
    ensures r.Delimiter? ==> r.width <= |s|
  {
    var tabs := Starts(s, '-', 1);
    var j := if tabs then 1 else 0;
    var k := j + BlankRun(s[j..]);
    var n := Cut(Word, s[k..], Bare, false);
    var raw := s[k..k + n];
    if n == 0 then NoDelimiter
    else Delimiter(Heredoc(Unquoted(raw, Bare), tabs, raw[0] != '\'' && raw[0] != '"' && '\\' !in raw), k + n)
  }

  function HeredocOf(line: string): Option<Opened> {
    var n := Cut(HereDocument, line, Bare, false);
    CutStops(HereDocument, line, Bare, false);
    if n == |line| then None
    else
      match Opening(line[n + 2..])
      case Delimiter(doc, width) => Some(Opened(doc, line[..n] + line[n + 2 + width..]))
      case NoDelimiter => None
  }

  method Unquote(word: string) returns (out: string)
    ensures out == Unquoted(word, Bare)
  {
    hide Unquoted;
    out := "";
    var q, escaped := Bare, false;
    var i := 0;
    assert word[0..] == word;
    while i < |word|
      invariant i <= |word|
      invariant Unquoted(word, Bare) == out + (if escaped then (if i < |word| then [word[i]] + Unquoted(word[i + 1..], q) else "")
                                                else Unquoted(word[i..], q))
    {
      var c := word[i];
      if escaped {
        out := out + [c];
        escaped := false;
      } else {
        UnquotedTurn(word[i..], q);
        assert word[i..][1..] == word[i + 1..];
        assert i + 1 < |word| ==> word[i..][2..] == word[i + 2..];
        if c == '\\' && q != InSingle {
          escaped := true;
        } else if Toggled(q, c) != q {
          q := Toggled(q, c);
        } else {
          out := out + [c];
        }
      }
      i := i + 1;
    }
    UnquotedNothing(q);
    assert word[i..] == "" && out + "" == out;
  }

  lemma UnquotedNothing(q: Quote)
    ensures Unquoted("", q) == ""
  {
  }

  lemma UnquotedTurn(s: string, q: Quote)
    requires s != ""
    ensures Unquoted(s, q) ==
      if s[0] == '\\' && q != InSingle then (if |s| == 1 then "" else [s[1]] + Unquoted(s[2..], q))
      else if Toggled(q, s[0]) != q then Unquoted(s[1..], Toggled(q, s[0]))
      else [s[0]] + Unquoted(s[1..], q)
  {
  }

  method ReadDelimiter(line: string, start: nat) returns (r: Delimiter)
    requires start <= |line|
    ensures r == Opening(line[start..])
  {
    hide Cut, Unquoted, BlankRun;
    var tabs := start < |line| && line[start] == '-';
    var j := SkipBlanks(line, if tabs then start + 1 else start);
    var end := WordEnd(line, j);
    SliceTwice(line, start, if tabs then 1 else 0, j - start);
    SliceTwice(line, start, j - start, end - start);
    if end == j {
      return NoDelimiter;
    }
    var raw := line[j..end];
    var delimiter := Unquote(raw);
    var quoted := raw[0] == '\'' || raw[0] == '"' || '\\' in raw;
    return Delimiter(Heredoc(delimiter, tabs, !quoted), end - start);
  }

  method SplitHeredoc(line: string) returns (r: Option<Opened>)
    ensures r == HeredocOf(line)
  {
    hide Cut, Substituted, IsAsciiWhitespace, Opening;
    var q, escaped := Bare, false;
    ghost var edge := false;
    var i := 0;
    assert line[0..] == line;
    while i < |line|
      invariant i <= |line|
      invariant Stop(HereDocument, line, i, q, escaped, edge) == Cut(HereDocument, line, Bare, false)
      decreases |line| - i
    {
      var c := line[i];
      if escaped {
        escaped, edge := false, false;
        i := i + 1;
        continue;
      }
      Turn(HereDocument, line, i, q, edge);
      if q != InSingle {
        var subst := SubstitutionAt(line, i);
        if subst.Some? {
          i, edge := subst.value.end, false;
          continue;
        }
      }
      edge := Head(HereDocument, line[i..], q).edge;
      if c == '\\' && q != InSingle {
        escaped := true;
      } else if c == '\'' || c == '"' {
        q := Toggled(q, c);
      } else if c == '<' && q == Bare && i + 1 < |line| && line[i + 1] == '<' {
        if i + 2 < |line| && line[i + 2] == '<' {
          i := i + 3;
          continue;
        }
        var found := ReadDelimiter(line, i + 2);
        return if found.Delimiter? then Some(Opened(found.doc, line[..i] + line[i + 2 + found.width..])) else None;
      }
      i := i + 1;
    }
    CutNothing(HereDocument, q, edge);
    return None;
  }

  // ---- Words --------------------------------------------------------------------------------------

  function Taken(cur: string, has: bool): seq<string> {
    if has then [cur] else []
  }

  /** What a backslash may escape inside double quotes. */
  predicate Escapable(c: char) {
    c == '$' || c == '`' || c == '"' || c == '\\'
  }

  /** The words of `s`, of which the first goes on from `cur` if there is one. */
  function Words(s: string, cur: string, has: bool, q: Quote): seq<string>
    decreases |s|
  {
    if s == "" then Taken(cur, has)
    else if Toggled(q, s[0]) != q then Words(s[1..], cur, true, Toggled(q, s[0]))
    else if s[0] == '\\' && q != InSingle then
      if |s| == 1 then Taken(cur, has)
      else if q != InDouble || Escapable(s[1]) then Words(s[2..], cur + [s[1]], true, q)
      else Words(s[1..], cur + ['\\'], true, q)
    else if IsWhitespace(s[0]) && q == Bare then Taken(cur, has) + Words(s[1..], if has then "" else cur, false, q)
    else Words(s[1..], cur + [s[0]], true, q)
  }

  method Tokenize(line: string) returns (tokens: seq<string>)
    ensures tokens == Words(line, "", false, Bare)
  {
    hide Words, IsWhitespace;
    tokens := [];
    var cur, hasToken, q := "", false, Bare;
    var i := 0;
    assert line[0..] == line;
    while i < |line|
      invariant i <= |line|
      invariant tokens + Words(line[i..], cur, hasToken, q) == Words(line, "", false, Bare)
    {
      var c := line[i];
      WordsTurn(line[i..], cur, hasToken, q);
      SliceTwice(line, i, 1, 1);
      i := i + 1;
      if Toggled(q, c) != q {
        q, hasToken := Toggled(q, c), true;
      } else if c == '\\' && q != InSingle {
        if i < |line| {
          SliceTwice(line, i - 1, 2, 2);
          if q != InDouble || Escapable(line[i]) {
            cur, hasToken := cur + [line[i]], true;
            i := i + 1;
          } else {
            cur, hasToken := cur + ['\\'], true;
          }
        } else {
          WordsNothing(cur, hasToken, q);
        }
      } else if IsWhitespace(c) && q == Bare {
        if hasToken {
          ConcatAssoc(tokens, [cur], Words(line[i..], "", false, q));
          tokens := tokens + [cur];
          cur, hasToken := "", false;
        } else {
          assert [] + Words(line[i..], cur, false, q) == Words(line[i..], cur, false, q);
        }
      } else {
        cur, hasToken := cur + [c], true;
      }
    }
    WordsNothing(cur, hasToken, q);
    assert line[i..] == "";
    if hasToken {
      tokens := tokens + [cur];
    } else {
      assert tokens + [] == tokens;
    }
  }

  lemma WordsNothing(cur: string, has: bool, q: Quote)
    ensures Words("", cur, has, q) == Taken(cur, has)
  {
  }

  lemma WordsTurn(s: string, cur: string, has: bool, q: Quote)
    requires s != ""
    ensures Words(s, cur, has, q) ==
      if Toggled(q, s[0]) != q then Words(s[1..], cur, true, Toggled(q, s[0]))
      else if s[0] == '\\' && q != InSingle then
        if |s| == 1 then Taken(cur, has)
        else if q != InDouble || Escapable(s[1]) then Words(s[2..], cur + [s[1]], true, q)
        else Words(s[1..], cur + ['\\'], true, q)
      else if IsWhitespace(s[0]) && q == Bare then Taken(cur, has) + Words(s[1..], if has then "" else cur, false, q)
      else Words(s[1..], cur + [s[0]], true, q)
  {
  }
}
