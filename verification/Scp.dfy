/**
  The sink side of the scp protocol: a byte-driven state machine that collects uploaded files.

  Control lines reach it as bytes; `lossy` is the decoding of a line to text, a parameter here. The
  body's digest is modelled by the bytes fed to it.
 */
module Scp {
  import opened Bits
  import opened Division
  import opened Numerals
  import opened Text
  import opened Wrappers

  const MAX_CONTROL_LINE: nat := 8192
  const MAX_SCP_DEPTH: nat := 32
  const U32_MAX: nat := 0xFFFF_FFFF
  const U64_MAX: nat := 0xFFFF_FFFF_FFFF_FFFF

  // ---- Control lines ----------------------------------------------------------------------------

  /** The text before the first space, and the text after it if there is one. */
  function Cut(s: string): (string, Option<string>) {
    if s == "" then ("", None)
    else if s[0] == ' ' then ("", Some(s[1..]))
    else
      var r := Cut(s[1..]);
      ([s[0]] + r.0, r.1)
  }

  function DropControls(s: string): string {
    if s == "" then "" else (if IsControl(s[0]) then "" else [s[0]]) + DropControls(s[1..])
  }

  function FlattenSeparators(s: string): string {
    if s == "" then ""
    else [if s[0] == '/' || s[0] == '\\' then '_' else s[0]] + FlattenSeparators(s[1..])
  }

  /** `replace("..", "_")`: left to right, without overlap. */
  function CollapseDots(s: string): string {
    if |s| >= 2 && s[0] == '.' && s[1] == '.' then "_" + CollapseDots(s[2..])
    else if s == "" then ""
    else [s[0]] + CollapseDots(s[1..])
  }

  /** Control characters go before the dots are collapsed, and separators before the dots too. */
  function SafeName(raw: string): string {
    var name := CollapseDots(FlattenSeparators(DropControls(raw)));
    if name == "" then "unnamed" else name
  }

  datatype Control = Control(mode: nat, size: nat, name: string)

  /** `parse_cd` on `<kind><mode> <size> <name>`. */
  function ParseCd(line: string): Option<Control> {
    var (modeField, afterMode) := Cut(line);
    if afterMode.None? then None
    else
      var (sizeField, afterSize) := Cut(afterMode.value);
      if afterSize.None? || modeField == "" then None
      else
        match (ParseUnsigned(modeField[1..], 8, U32_MAX), ParseUnsigned(sizeField, 10, U64_MAX))
        case (Some(mode), Some(size)) => Some(Control(mode, size, SafeName(Trim(afterSize.value))))
        case _ => None
  }

  /** A name that cannot leave its directory or disturb a log line. */
  predicate Harmless(name: string) {
    && name != ""
    && (forall k :: 0 <= k < |name| ==> name[k] != '/' && name[k] != '\\' && !IsControl(name[k]))
    && NoDotDot(name)
  }

  predicate NoDotDot(s: string) {
    forall k :: 0 <= k < |s| - 1 ==> !(s[k] == '.' && s[k + 1] == '.')
  }

  predicate NoneOf(s: string, bad: char -> bool) {
    forall k :: 0 <= k < |s| ==> !bad(s[k])
  }

  lemma {:induction false} ControlsDropped(s: string)
    ensures NoneOf(DropControls(s), IsControl)
  {
    if s != "" {
      ControlsDropped(s[1..]);
    }
  }

  predicate Unsafe(c: char) {
    c == '/' || c == '\\' || IsControl(c)
  }

  lemma {:induction false} SeparatorsFlattened(s: string)
    requires NoneOf(s, IsControl)
    ensures NoneOf(FlattenSeparators(s), Unsafe)
  {
    if s != "" {
      SeparatorsFlattened(s[1..]);
    }
  }

  lemma {:induction false} DotsCollapsed(s: string)
    requires NoneOf(s, Unsafe)
    ensures NoneOf(CollapseDots(s), Unsafe) && NoDotDot(CollapseDots(s))
    ensures CollapseDots(s) != "" && CollapseDots(s)[0] == '.' ==> s[0] == '.' && (|s| > 1 ==> s[1] != '.')
  {
    if |s| >= 2 && s[0] == '.' && s[1] == '.' {
      DotsCollapsed(s[2..]);
    } else if s != "" {
      DotsCollapsed(s[1..]);
    }
  }

  /** Whatever the sender wrote, the name that reaches the filesystem and the log is harmless. */
  lemma SafeNameIsHarmless(raw: string)
    ensures Harmless(SafeName(raw))
  {
    ControlsDropped(raw);
    SeparatorsFlattened(DropControls(raw));
    DotsCollapsed(FlattenSeparators(DropControls(raw)));
  }

  lemma {:induction false} CutAtSpace(a: string, b: string)
    requires ' ' !in a
    ensures Cut(a + " " + b) == (a, Some(b))
  {
    if a == "" {
      assert ("" + " " + b)[1..] == b;
    } else {
      CutAtSpace(a[1..], b);
      assert (a + " " + b)[1..] == a[1..] + " " + b;
      assert [a[0]] + a[1..] == a;
    }
  }

  lemma {:induction false} KeepsHarmless(s: string)
    requires NoneOf(s, Unsafe) && NoDotDot(s)
    ensures DropControls(s) == s && FlattenSeparators(s) == s && CollapseDots(s) == s
  {
    if s != "" {
      assert NoDotDot(s[1..]) by {
        forall k | 0 <= k < |s[1..]| - 1 ensures !(s[1..][k] == '.' && s[1..][k + 1] == '.') {
          assert s[1..][k] == s[k + 1] && s[1..][k + 1] == s[k + 2];
        }
      }
      KeepsHarmless(s[1..]);
      assert [s[0]] + s[1..] == s && "" + s[1..] == s[1..];
      assert |s| > 1 ==> !(s[0] == '.' && s[0 + 1] == '.');
    }
  }

  /** The line an honest sender writes announces what it says: a harmless name comes through as it is. */
  lemma HonestLineReads(kind: char, mode: nat, size: nat, name: string)
    requires kind != ' ' && mode <= U32_MAX && size <= U64_MAX && Harmless(name)
    requires !IsWhitespace(name[0]) && !IsWhitespace(name[|name| - 1])
    ensures ParseCd([kind] + Printed(mode, 8) + " " + (Printed(size, 10) + " " + name)) == Some(Control(mode, size, name))
  {
    hide Printed, ParseUnsigned, Cut, Trim, SafeName, Harmless, IsWhitespace;
    PrintedHasNoSpace(mode, 8);
    PrintedHasNoSpace(size, 10);
    ParsePrinted(mode, 8, U32_MAX);
    ParsePrinted(size, 10, U64_MAX);
    CutAtSpace([kind] + Printed(mode, 8), Printed(size, 10) + " " + name);
    CutAtSpace(Printed(size, 10), name);
    HarmlessIsKept(name);
    assert ([kind] + Printed(mode, 8))[1..] == Printed(mode, 8);
  }

  lemma HarmlessIsKept(name: string)
    requires Harmless(name) && !IsWhitespace(name[0]) && !IsWhitespace(name[|name| - 1])
    ensures SafeName(Trim(name)) == name
  {
    TrimNothing(name);
    KeepsHarmless(name);
  }

  lemma OneChar(c: char, b: string)
    ensures DropControls([c] + b) == if IsControl(c) then DropControls(b) else [c] + DropControls(b)
    ensures FlattenSeparators([c] + b) == [if c == '/' || c == '\\' then '_' else c] + FlattenSeparators(b)
  {
    assert ([c] + b)[0] == c && ([c] + b)[1..] == b;
  }

  lemma {:induction false} ControlsInParts(a: string, b: string)
    ensures DropControls(a + b) == DropControls(a) + DropControls(b)
  {
    if a == "" {
      assert a + b == b;
    } else {
      hide DropControls, IsControl;
      var c, rest := a[0], a[1..];
      ControlsInParts(rest, b);
      assert a == [c] + rest;
      ConcatAssoc([c], rest, b);
      OneChar(c, rest + b);
      OneChar(c, rest);
      ConcatAssoc([c], DropControls(rest), DropControls(b));
    }
  }

  lemma {:induction false} SeparatorsInParts(a: string, b: string)
    ensures FlattenSeparators(a + b) == FlattenSeparators(a) + FlattenSeparators(b)
  {
    if a == "" {
      assert a + b == b;
    } else {
      hide FlattenSeparators;
      var c, rest := a[0], a[1..];
      SeparatorsInParts(rest, b);
      assert a == [c] + rest;
      ConcatAssoc([c], rest, b);
      OneChar(c, rest + b);
      OneChar(c, rest);
      ConcatAssoc([if c == '/' || c == '\\' then '_' else c], FlattenSeparators(rest), FlattenSeparators(b));
    }
  }

  lemma DotStep(s: string)
    ensures |s| >= 2 && s[0] == '.' && s[1] == '.' ==> CollapseDots(s) == "_" + CollapseDots(s[2..])
    ensures s != "" && !(|s| >= 2 && s[0] == '.' && s[1] == '.') ==> CollapseDots(s) == [s[0]] + CollapseDots(s[1..])
    ensures CollapseDots("") == ""
  {
  }

  lemma {:induction false} DotsInParts(a: string, b: string)
    requires b == "" || b[0] != '.' || a == "" || a[|a| - 1] != '.'
    ensures CollapseDots(a + b) == CollapseDots(a) + CollapseDots(b)
    decreases |a|
  {
    hide CollapseDots;
    DotStep(a);
    DotStep(a + b);
    if a == "" {
      assert a + b == b;
    } else if |a| >= 2 && a[0] == '.' && a[1] == '.' {
      assert (a + b)[2..] == a[2..] + b;
      DotsInParts(a[2..], b);
    } else {
      assert (a + b)[1..] == a[1..] + b && (a + b)[0] == a[0];
      assert |a| >= 2 ==> (a + b)[1] == a[1];
      assert |a| == 1 && b != "" ==> (a + b)[1] == b[0];
      DotsInParts(a[1..], b);
    }
  }

  /** What becomes of a name that is not harmless: a control character goes, a separator becomes an underscore, and so
      do two dots behind anything but a dot; and there is always a name. */
  lemma SafeNameIs(a: string, c: char, b: string)
    ensures IsControl(c) ==> SafeName(a + ([c] + b)) == SafeName(a + b)
    ensures c == '/' || c == '\\' ==> SafeName(a + ([c] + b)) == SafeName(a + ("_" + b))
    ensures NoneOf(a, Unsafe) && (a == "" || a[|a| - 1] != '.') ==> SafeName(a + (".." + b)) == SafeName(a + ("_" + b))
    ensures SafeName("") == "unnamed"
  {
    if IsControl(c) {
      ControlGoes(a, c, b);
    }
    if c == '/' || c == '\\' {
      SeparatorBecomes(a, c, b);
    }
    if NoneOf(a, Unsafe) && (a == "" || a[|a| - 1] != '.') {
      DotsBecome(a, b);
    }
  }

  lemma ControlGoes(a: string, c: char, b: string)
    requires IsControl(c)
    ensures SafeName(a + ([c] + b)) == SafeName(a + b)
  {
    hide DropControls, FlattenSeparators, CollapseDots;
    OneChar(c, b);
    ControlsInParts(a, [c] + b);
    ControlsInParts(a, b);
  }

  lemma SeparatorBecomes(a: string, c: char, b: string)
    requires c == '/' || c == '\\'
    ensures SafeName(a + ([c] + b)) == SafeName(a + ("_" + b))
  {
    hide DropControls, FlattenSeparators, CollapseDots;
    OneChar(c, b);
    OneChar('_', b);
    ControlsInParts(a, [c] + b);
    ControlsInParts(a, "_" + b);
    OneChar(c, DropControls(b));
    OneChar('_', DropControls(b));
    SeparatorsInParts(DropControls(a), [c] + DropControls(b));
    SeparatorsInParts(DropControls(a), "_" + DropControls(b));
  }

  lemma DotsBecome(a: string, b: string)
    requires NoneOf(a, Unsafe) && (a == "" || a[|a| - 1] != '.')
    ensures SafeName(a + (".." + b)) == SafeName(a + ("_" + b))
  {
    hide DropControls, FlattenSeparators, CollapseDots;
    var kept := DropControls(b);
    var rest := FlattenSeparators(kept);
    NothingUnsafe(a);
    TwoDots(b);
    ControlsInParts(a, ".." + b);
    ControlsInParts(a, "_" + b);
    SeparatorsInParts(a, ".." + kept);
    SeparatorsInParts(a, "_" + kept);
    DotsInParts(a, ".." + rest);
    DotsInParts(a, "_" + rest);
    DotStep(".." + rest);
    DotStep("_" + rest);
    assert (".." + rest)[2..] == rest && ("_" + rest)[1..] == rest;
  }

  lemma {:induction false} NothingUnsafe(a: string)
    requires NoneOf(a, Unsafe)
    ensures DropControls(a) == a && FlattenSeparators(a) == a
  {
    if a != "" {
      NothingUnsafe(a[1..]);
      assert [a[0]] + a[1..] == a;
    }
  }

  lemma TwoDots(b: string)
    ensures DropControls(".." + b) == ".." + DropControls(b) && DropControls("_" + b) == "_" + DropControls(b)
    ensures FlattenSeparators(".." + DropControls(b)) == ".." + FlattenSeparators(DropControls(b))
    ensures FlattenSeparators("_" + DropControls(b)) == "_" + FlattenSeparators(DropControls(b))
  {
    NothingUnsafe("..");
    NothingUnsafe("_");
    hide DropControls, FlattenSeparators;
    ControlsInParts("..", b);
    ControlsInParts("_", b);
    SeparatorsInParts("..", DropControls(b));
    SeparatorsInParts("_", DropControls(b));
  }

  lemma PrintedHasNoSpace(n: nat, radix: Radix)
    ensures ' ' !in Printed(n, radix)
  {
    PrintedReads(n, radix);
    assert forall k :: 0 <= k < |Printed(n, radix)| ==> IsDigit(Printed(n, radix)[k], radix);
  }

  // ---- The state machine ----------------------------------------------------------------------------

  datatype Incoming = Incoming(name: string, mode: nat, size: nat, remaining: nat, data: seq<Byte>, hashed: seq<Byte>, truncated: bool)

  datatype CompletedFile = CompletedFile(name: string, relDir: string, mode: nat, data: seq<Byte>, size: nat, hashed: seq<Byte>, truncated: bool)

  datatype Sink = Sink(dirs: seq<string>, buf: seq<Byte>, file: Option<Incoming>)

  /** What a run of bytes leaves behind: the sink, how many acknowledgements, and the files. */
  datatype Outcome = Outcome(sink: Sink, acks: nat, done: seq<CompletedFile>)

  datatype Config = Config(maxBytes: nat, lossy: seq<Byte> -> string)

  function JoinDirs(dirs: seq<string>): string {
    if dirs == [] then "" else if |dirs| == 1 then dirs[0] else dirs[0] + "/" + JoinDirs(dirs[1..])
  }

  function HandleControl(cfg: Config, s: Sink, line: seq<Byte>): Sink {
    var text := cfg.lossy(line);
    if text == "" then s
    else if text[0] == 'C' then
      (match ParseCd(text)
       case Some(c) => s.(file := Some(Incoming(c.name, c.mode, c.size, c.size, [], [], false)))
       case None => s)
    else if text[0] == 'D' then
      (match ParseCd(text)
       case Some(c) => if |s.dirs| < MAX_SCP_DEPTH then s.(dirs := s.dirs + [c.name]) else s
       case None => s)
    else if text[0] == 'E' then s.(dirs := if s.dirs == [] then [] else s.dirs[..|s.dirs| - 1])
    else s
  }

  /** One body byte. */
  function Store(cfg: Config, f: Incoming, b: Byte): Incoming
    requires f.remaining > 0
  {
    var f1 := f.(hashed := f.hashed + [b], remaining := f.remaining - 1);
    if |f.data| < cfg.maxBytes then f1.(data := f.data + [b]) else f1.(truncated := true)
  }

  function Complete(f: Incoming, dirs: seq<string>): CompletedFile {
    CompletedFile(f.name, JoinDirs(dirs), f.mode, f.data, f.size, f.hashed, f.truncated)
  }

  function FedByte(cfg: Config, s: Sink, b: Byte): Outcome {
    match s.file
    case Some(f) =>
      if f.remaining > 0 then Outcome(s.(file := Some(Store(cfg, f, b))), 0, [])
      else Outcome(s.(file := None), 1, [Complete(f, s.dirs)])
    case None =>
      if b == 10 then Outcome(HandleControl(cfg, s.(buf := []), s.buf), 1, [])
      else if b == 13 then Outcome(s, 0, [])
      else if |s.buf| < MAX_CONTROL_LINE then Outcome(s.(buf := s.buf + [b]), 0, [])
      else Outcome(Sink([], [], None), 0, [])
  }

  function Fed(cfg: Config, s: Sink, data: seq<Byte>): Outcome {
    if data == [] then Outcome(s, 0, [])
    else
      var o := Fed(cfg, s, data[..|data| - 1]);
      var o1 := FedByte(cfg, o.sink, data[|data| - 1]);
      Outcome(o1.sink, o.acks + o1.acks, o.done + o1.done)
  }

  lemma FedNothing(cfg: Config, s: Sink)
    ensures Fed(cfg, s, []) == Outcome(s, 0, [])
  {
  }

  lemma FedOneMore(cfg: Config, s: Sink, data: seq<Byte>, k: nat)
    requires k < |data|
    ensures var o := Fed(cfg, s, data[..k]);
      var o1 := FedByte(cfg, o.sink, data[k]);
      Fed(cfg, s, data[..k + 1]) == Outcome(o1.sink, o.acks + o1.acks, o.done + o1.done)
  {
    hide FedByte;
    assert data[..k + 1][..k] == data[..k];
  }

  class ScpSink {
    const cfg: Config
    var dirs: seq<string>
    var buf: seq<Byte>
    var file: Option<Incoming>

    function Value(): Sink
      reads this
    {
      Sink(dirs, buf, file)
    }

    constructor (cfg: Config)
      ensures this.cfg == cfg && Value() == Sink([], [], None)
    {
      this.cfg := cfg;
      dirs, buf, file := [], [], None;
    }

    method Feed(data: seq<Byte>) returns (acks: seq<Byte>, done: seq<CompletedFile>)
      modifies this
      ensures var o := Fed(cfg, old(Value()), data);
        Value() == o.sink && |acks| == o.acks && done == o.done
      ensures forall k :: 0 <= k < |acks| ==> acks[k] == 0
    {
      hide HandleControl, JoinDirs, Fed;
      FedNothing(cfg, Value());
      assert data[..0] == [];
      acks, done := [], [];
      for k := 0 to |data|
        invariant Outcome(Value(), |acks|, done) == Fed(cfg, old(Value()), data[..k])
        invariant forall k :: 0 <= k < |acks| ==> acks[k] == 0
      {
        var b := data[k];
        FedOneMore(cfg, old(Value()), data, k);
        if file.Some? {
          var f := file.value;
          if f.remaining > 0 {
            f := f.(hashed := f.hashed + [b]);
            if |f.data| < cfg.maxBytes {
              f := f.(data := f.data + [b]);
            } else {
              f := f.(truncated := true);
            }
            f := f.(remaining := f.remaining - 1);
            file := Some(f);
            continue;
          }
          file := None;
          done := done + [CompletedFile(f.name, JoinDirs(dirs), f.mode, f.data, f.size, f.hashed, f.truncated)];
          acks := acks + [0];
          continue;
        }
        if b == 10 {
          var line := buf;
          buf := [];
          Control(line);
          acks := acks + [0];
        } else if b != 13 {
          if |buf| < MAX_CONTROL_LINE {
            buf := buf + [b];
          } else {
            buf := [];
            file := None;
            dirs := [];
          }
        }
      }
      assert data[..|data|] == data;
    }

    method Control(line: seq<Byte>)
      modifies this
      ensures Value() == HandleControl(cfg, old(Value()), line)
    {
      var text := cfg.lossy(line);
      if text == "" {
        return;
      }
      if text[0] == 'C' {
        var c := ParseCd(text);
        if c.Some? {
          file := Some(Incoming(c.value.name, c.value.mode, c.value.size, c.value.size, [], [], false));
        }
      } else if text[0] == 'D' {
        var c := ParseCd(text);
        if c.Some? && |dirs| < MAX_SCP_DEPTH {
          dirs := dirs + [c.value.name];
        }
      } else if text[0] == 'E' {
        if dirs != [] {
          dirs := dirs[..|dirs| - 1];
        }
      }
    }
  }

  // ---- Any chunking ------------------------------------------------------------------------------------

  /** Feeding two chunks is feeding their concatenation. */
  lemma {:induction false} ChunkingIsIrrelevant(cfg: Config, s: Sink, a: seq<Byte>, b: seq<Byte>)
    ensures var o := Fed(cfg, s, a);
      var o1 := Fed(cfg, o.sink, b);
      Fed(cfg, s, a + b) == Outcome(o1.sink, o.acks + o1.acks, o.done + o1.done)
  {
    hide FedByte;
    if b == [] {
      assert a + b == a;
    } else {
      var last := |b| - 1;
      ChunkingIsIrrelevant(cfg, s, a, b[..last]);
      assert (a + b)[..|a + b| - 1] == a + b[..last];
      var o := Fed(cfg, s, a);
      var o1 := Fed(cfg, o.sink, b[..last]);
      var o2 := FedByte(cfg, o1.sink, b[last]);
      assert o.done + (o1.done + o2.done) == (o.done + o1.done) + o2.done;
    }
  }

  /** The whole conversation, however it is cut into chunks. */
  function FedAll(cfg: Config, s: Sink, chunks: seq<seq<Byte>>): Outcome
    decreases |chunks|
  {
    if chunks == [] then Outcome(s, 0, [])
    else
      var o := Fed(cfg, s, chunks[0]);
      var o1 := FedAll(cfg, o.sink, chunks[1..]);
      Outcome(o1.sink, o.acks + o1.acks, o.done + o1.done)
  }

  function Flatten(chunks: seq<seq<Byte>>): seq<Byte>
    decreases |chunks|
  {
    if chunks == [] then [] else chunks[0] + Flatten(chunks[1..])
  }

  lemma {:induction false} FedAllIsFed(cfg: Config, s: Sink, chunks: seq<seq<Byte>>)
    ensures FedAll(cfg, s, chunks) == Fed(cfg, s, Flatten(chunks))
    decreases |chunks|
  {
    if chunks != [] {
      FedAllIsFed(cfg, Fed(cfg, s, chunks[0]).sink, chunks[1..]);
      ChunkingIsIrrelevant(cfg, s, chunks[0], Flatten(chunks[1..]));
    }
  }

  // ---- Transfers ------------------------------------------------------------------------------------------

  /** What a sender sends: a file's control line with its body and trailing byte, or another line. */
  datatype Item =
    | FileItem(line: seq<Byte>, body: seq<Byte>, trailer: Byte)
    | LineItem(line: seq<Byte>)

  ghost predicate LineOk(line: seq<Byte>) {
    |line| <= MAX_CONTROL_LINE && 10 !in line && 13 !in line
  }

  /** The announcement in a file's control line. */
  function Announced(cfg: Config, line: seq<Byte>): Option<Control> {
    var text := cfg.lossy(line);
    if text != "" && text[0] == 'C' then ParseCd(text) else None
  }

  ghost predicate ItemOk(cfg: Config, item: Item) {
    && LineOk(item.line)
    && match item
       case FileItem(line, body, _) => Announced(cfg, line).Some? && Announced(cfg, line).value.size == |body|
       case LineItem(line) => Announced(cfg, line).None?
  }

  function Sent(item: Item): seq<Byte> {
    match item
    case FileItem(line, body, trailer) => line + [10] + body + [trailer]
    case LineItem(line) => line + [10]
  }

  function SentAll(items: seq<Item>): seq<Byte> {
    if items == [] then [] else Sent(items[0]) + SentAll(items[1..])
  }

  /** The directory stack after a line. */
  function Moved(cfg: Config, dirs: seq<string>, line: seq<Byte>): seq<string> {
    var text := cfg.lossy(line);
    if text != "" && text[0] == 'D' && ParseCd(text).Some? then
      if |dirs| < MAX_SCP_DEPTH then dirs + [ParseCd(text).value.name] else dirs
    else if text != "" && text[0] == 'E' && dirs != [] then dirs[..|dirs| - 1]
    else dirs
  }

  /** The file an upload should become: its first bytes up to the cap, and the digest of all of it. */
  function Upload(cfg: Config, dirs: seq<string>, line: seq<Byte>, body: seq<Byte>): CompletedFile
    requires Announced(cfg, line).Some?
  {
    var c := Announced(cfg, line).value;
    var kept := if |body| <= cfg.maxBytes then body else body[..cfg.maxBytes];
    CompletedFile(c.name, JoinDirs(dirs), c.mode, kept, c.size, body, |body| > cfg.maxBytes)
  }

  /** What the transfer means. */
  ghost function Meaning(cfg: Config, dirs: seq<string>, items: seq<Item>): seq<CompletedFile>
    requires forall i :: i in items ==> ItemOk(cfg, i)
    decreases |items|
  {
    if items == [] then []
    else
      assert ItemOk(cfg, items[0]);
      match items[0]
      case FileItem(line, body, _) => [Upload(cfg, dirs, line, body)] + Meaning(cfg, dirs, items[1..])
      case LineItem(line) => Meaning(cfg, Moved(cfg, dirs, line), items[1..])
  }

  ghost function Acks(items: seq<Item>): nat {
    if items == [] then 0 else (if items[0].FileItem? then 2 else 1) + Acks(items[1..])
  }

  lemma {:induction false} LineFills(cfg: Config, dirs: seq<string>, line: seq<Byte>)
    requires LineOk(line)
    ensures Fed(cfg, Sink(dirs, [], None), line) == Outcome(Sink(dirs, line, None), 0, [])
  {
    hide HandleControl, Store, Complete;
    if line != [] {
      LineFills(cfg, dirs, line[..|line| - 1]);
    }
  }

  lemma LineHandled(cfg: Config, dirs: seq<string>, line: seq<Byte>)
    requires LineOk(line)
    ensures Fed(cfg, Sink(dirs, [], None), line + [10]) == Outcome(HandleControl(cfg, Sink(dirs, [], None), line), 1, [])
  {
    LineFills(cfg, dirs, line);
    assert (line + [10])[..|line|] == line;
  }

  /** A body in progress: what is kept and what is hashed after `body` has come in. */
  function Partial(cfg: Config, c: Control, body: seq<Byte>): Incoming
    requires |body| <= c.size
  {
    Incoming(c.name, c.mode, c.size, c.size - |body|,
             if |body| <= cfg.maxBytes then body else body[..cfg.maxBytes], body, |body| > cfg.maxBytes)
  }

  lemma {:induction false} BodyStored(cfg: Config, dirs: seq<string>, c: Control, body: seq<Byte>)
    requires |body| <= c.size
    ensures Fed(cfg, Sink(dirs, [], Some(Partial(cfg, c, []))), body) == Outcome(Sink(dirs, [], Some(Partial(cfg, c, body))), 0, [])
  {
    hide Partial, FedByte;
    if body != [] {
      var last := |body| - 1;
      BodyStored(cfg, dirs, c, body[..last]);
      BodyByte(cfg, dirs, c, body[..last], body[last]);
      assert body[..last] + [body[last]] == body;
    }
  }

  lemma BodyByte(cfg: Config, dirs: seq<string>, c: Control, body: seq<Byte>, b: Byte)
    requires |body| < c.size
    ensures FedByte(cfg, Sink(dirs, [], Some(Partial(cfg, c, body))), b) ==
      Outcome(Sink(dirs, [], Some(Partial(cfg, c, body + [b]))), 0, [])
  {
    assert |body| >= cfg.maxBytes ==> (body + [b])[..cfg.maxBytes] == body[..cfg.maxBytes];
  }

  lemma FileReceived(cfg: Config, dirs: seq<string>, item: Item)
    requires item.FileItem? && ItemOk(cfg, item)
    ensures Fed(cfg, Sink(dirs, [], None), Sent(item)) ==
      Outcome(Sink(dirs, [], None), 2, [Upload(cfg, dirs, item.line, item.body)])
  {
    hide ParseCd;
    var s0 := Sink(dirs, [], None);
    var c := Announced(cfg, item.line).value;
    LineHandled(cfg, dirs, item.line);
    var s1 := HandleControl(cfg, s0, item.line);
    assert s1 == Sink(dirs, [], Some(Partial(cfg, c, [])));
    hide *;
    BodyDelivered(cfg, dirs, c, item.body, item.trailer);
    ChunkingIsIrrelevant(cfg, s0, item.line + [10], item.body + [item.trailer]);
    SentFile(item);
    UploadIs(cfg, dirs, item.line, item.body, c);
  }

  lemma SentFile(item: Item)
    requires item.FileItem?
    ensures Sent(item) == (item.line + [10]) + (item.body + [item.trailer])
  {
  }

  lemma UploadIs(cfg: Config, dirs: seq<string>, line: seq<Byte>, body: seq<Byte>, c: Control)
    requires Announced(cfg, line) == Some(c) && c.size == |body|
    ensures Upload(cfg, dirs, line, body) == Complete(Partial(cfg, c, body), dirs)
    ensures [] + [Upload(cfg, dirs, line, body)] == [Upload(cfg, dirs, line, body)]
  {
  }

  lemma BodyDelivered(cfg: Config, dirs: seq<string>, c: Control, body: seq<Byte>, trailer: Byte)
    requires |body| == c.size
    ensures Fed(cfg, Sink(dirs, [], Some(Partial(cfg, c, []))), body + [trailer]) ==
      Outcome(Sink(dirs, [], None), 1, [Complete(Partial(cfg, c, body), dirs)])
  {
    BodyStored(cfg, dirs, c, body);
    assert (body + [trailer])[..|body|] == body;
  }

  lemma LineReceived(cfg: Config, dirs: seq<string>, line: seq<Byte>)
    requires ItemOk(cfg, LineItem(line))
    ensures Fed(cfg, Sink(dirs, [], None), Sent(LineItem(line))) == Outcome(Sink(Moved(cfg, dirs, line), [], None), 1, [])
  {
    hide ParseCd;
    LineHandled(cfg, dirs, line);
  }

  /** A transfer of well-formed items, in whatever chunks it arrives: every file comes out once, in order,
      with its first bytes up to the cap, marked truncated exactly when there were more, and with the digest
      of all of it; every control line and every file is acknowledged once. */
  lemma {:induction false} TransferIsReceived(cfg: Config, dirs: seq<string>, items: seq<Item>, chunks: seq<seq<Byte>>)
    requires forall i :: i in items ==> ItemOk(cfg, i)
    requires Flatten(chunks) == SentAll(items)
    ensures var o := FedAll(cfg, Sink(dirs, [], None), chunks);
      && o.done == Meaning(cfg, dirs, items)
      && o.acks == Acks(items)
      && o.sink.buf == [] && o.sink.file == None
  {
    FedAllIsFed(cfg, Sink(dirs, [], None), chunks);
    ItemsReceived(cfg, dirs, items);
  }

  lemma {:induction false} ItemsReceived(cfg: Config, dirs: seq<string>, items: seq<Item>)
    requires forall i :: i in items ==> ItemOk(cfg, i)
    ensures var o := Fed(cfg, Sink(dirs, [], None), SentAll(items));
      && o.done == Meaning(cfg, dirs, items)
      && o.acks == Acks(items)
      && o.sink.buf == [] && o.sink.file == None
    decreases |items|
  {
    hide Sent, Upload, ItemOk, Moved;
    if items != [] {
      var item := items[0];
      assert ItemOk(cfg, item);
      var dirs' := if item.FileItem? then dirs else Moved(cfg, dirs, item.line);
      if item.FileItem? {
        FileReceived(cfg, dirs, item);
      } else {
        LineReceived(cfg, dirs, item.line);
      }
      ItemsReceived(cfg, dirs', items[1..]);
      ChunkingIsIrrelevant(cfg, Sink(dirs, [], None), Sent(item), SentAll(items[1..]));
    }
  }

  // ---- Any input -----------------------------------------------------------------------------------------

  ghost predicate FileFits(cfg: Config, f: Incoming) {
    && Harmless(f.name)
    && f.remaining <= f.size && |f.hashed| == f.size - f.remaining
    && f.data == (if |f.hashed| <= cfg.maxBytes then f.hashed else f.hashed[..cfg.maxBytes])
    && (f.truncated <==> |f.hashed| > cfg.maxBytes)
  }

  ghost predicate SinkOk(cfg: Config, s: Sink) {
    && |s.dirs| <= MAX_SCP_DEPTH && (forall k :: 0 <= k < |s.dirs| ==> Harmless(s.dirs[k]))
    && |s.buf| <= MAX_CONTROL_LINE
    && (s.file.Some? ==> FileFits(cfg, s.file.value))
  }

  /** A directory below the target, named by harmless components only. */
  ghost predicate HarmlessDir(relDir: string) {
    exists dirs: seq<string> :: |dirs| <= MAX_SCP_DEPTH && JoinDirs(dirs) == relDir && forall k :: 0 <= k < |dirs| ==> Harmless(dirs[k])
  }

  ghost predicate FileOk(cfg: Config, f: CompletedFile) {
    && Harmless(f.name) && HarmlessDir(f.relDir)
    && |f.hashed| == f.size
    && f.data == (if f.size <= cfg.maxBytes then f.hashed else f.hashed[..cfg.maxBytes])
    && (f.truncated <==> f.size > cfg.maxBytes)
  }

  lemma ParsedNameIsHarmless(line: string)
    ensures ParseCd(line).Some? ==> Harmless(ParseCd(line).value.name)
  {
    hide SafeName, Harmless, ParseUnsigned, Trim;
    var (modeField, afterMode) := Cut(line);
    if afterMode.Some? {
      var (sizeField, afterSize) := Cut(afterMode.value);
      if afterSize.Some? {
        SafeNameIsHarmless(Trim(afterSize.value));
      }
    }
  }

  lemma ByteKeepsSink(cfg: Config, s: Sink, b: Byte)
    requires SinkOk(cfg, s)
    ensures SinkOk(cfg, FedByte(cfg, s, b).sink)
    ensures forall f :: f in FedByte(cfg, s, b).done ==> FileOk(cfg, f)
  {
    hide Harmless, ParseCd, JoinDirs, HarmlessDir;
    if s.file.None? && b == 10 {
      ParsedNameIsHarmless(cfg.lossy(s.buf));
    }
    SinkDirIsHarmless(cfg, s);
  }

  lemma SinkDirIsHarmless(cfg: Config, s: Sink)
    requires SinkOk(cfg, s)
    ensures HarmlessDir(JoinDirs(s.dirs))
  {
    hide Harmless, JoinDirs;
  }

  /** On any bytes at all, well formed or not: each emitted name and directory is harmless, each file's stored
      data is the first part of what was announced, and what the sink holds between calls is bounded. */
  lemma {:induction false} AnyInputIsSafe(cfg: Config, s: Sink, data: seq<Byte>)
    requires SinkOk(cfg, s)
    ensures SinkOk(cfg, Fed(cfg, s, data).sink)
    ensures forall f :: f in Fed(cfg, s, data).done ==> FileOk(cfg, f)
  {
    hide SinkOk, FileOk, FedByte;
    if data != [] {
      AnyInputIsSafe(cfg, s, data[..|data| - 1]);
      ByteKeepsSink(cfg, Fed(cfg, s, data[..|data| - 1]).sink, data[|data| - 1]);
    }
  }
}
