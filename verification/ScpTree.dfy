/**
  A recursive transfer as the tree of directories the sender walks, and where the sink puts its files.
 */
module ScpTree {
  import opened Bits
  import opened Division
  import opened Scp
  import opened Wrappers

  /** What a sender sends: a file, a line that is neither a file nor a directory, or a directory with what is in it
      between the line that opens it and the one that closes it. */
  datatype Entry =
    | FileEntry(line: seq<Byte>, body: seq<Byte>, trailer: Byte)
    | NoteEntry(line: seq<Byte>)
    | DirEntry(open: seq<Byte>, entries: seq<Entry>, close: seq<Byte>)

  predicate Opens(cfg: Config, line: seq<Byte>) {
    var text := cfg.lossy(line);
    text != "" && text[0] == 'D' && ParseCd(text).Some?
  }

  predicate Closes(cfg: Config, line: seq<Byte>) {
    var text := cfg.lossy(line);
    text != "" && text[0] == 'E'
  }

  function NameOf(cfg: Config, line: seq<Byte>): string
    requires Opens(cfg, line)
  {
    ParseCd(cfg.lossy(line)).value.name
  }

  ghost predicate Ok(cfg: Config, es: seq<Entry>)
    decreases es
  {
    es == [] ||
    (Ok(cfg, es[1..]) &&
     match es[0]
     case FileEntry(line, body, trailer) => ItemOk(cfg, FileItem(line, body, trailer))
     case NoteEntry(line) => LineOk(line) && Announced(cfg, line).None? && !Opens(cfg, line) && !Closes(cfg, line)
     case DirEntry(open, entries, close) =>
       LineOk(open) && Opens(cfg, open) && Ok(cfg, entries) && LineOk(close) && Closes(cfg, close))
  }

  function Items(es: seq<Entry>): seq<Item>
    decreases es
  {
    if es == [] then []
    else
      match es[0]
      case FileEntry(line, body, trailer) => [FileItem(line, body, trailer)] + Items(es[1..])
      case NoteEntry(line) => [LineItem(line)] + Items(es[1..])
      case DirEntry(open, entries, close) => ([LineItem(open)] + Items(entries)) + ([LineItem(close)] + Items(es[1..]))
  }

  /** The files of the tree, each in the directories it is in. */
  ghost function Placed(cfg: Config, path: seq<string>, es: seq<Entry>): seq<CompletedFile>
    requires Ok(cfg, es)
    decreases es
  {
    if es == [] then []
    else
      match es[0]
      case FileEntry(line, body, _) => [Upload(cfg, path, line, body)] + Placed(cfg, path, es[1..])
      case NoteEntry(_) => Placed(cfg, path, es[1..])
      case DirEntry(open, entries, _) => Placed(cfg, path + [NameOf(cfg, open)], entries) + Placed(cfg, path, es[1..])
  }

  /** Some directory is opened below `MAX_SCP_DEPTH` others. */
  predicate Exceeds(es: seq<Entry>, depth: nat)
    decreases es
  {
    es != [] &&
    (Exceeds(es[1..], depth) || (es[0].DirEntry? && (depth >= MAX_SCP_DEPTH || Exceeds(es[0].entries, depth + 1))))
  }

  /** For each file, whether it is sent in or after a directory too deep, before the walk is back at the top;
      `over`: such a directory has been opened already. */
  function Astray(es: seq<Entry>, depth: nat, over: bool): seq<bool>
    decreases es
  {
    if es == [] then []
    else
      match es[0]
      case FileEntry(_, _, _) => [over] + Astray(es[1..], depth, over)
      case NoteEntry(_) => Astray(es[1..], depth, over)
      case DirEntry(_, entries, _) =>
        var inside := over || depth >= MAX_SCP_DEPTH;
        Astray(entries, depth + 1, inside) + Astray(es[1..], depth, depth > 0 && (inside || Exceeds(entries, depth + 1)))
  }

  // ---- The stack after a run of items -----------------------------------------------------------

  ghost predicate AllOk(cfg: Config, items: seq<Item>) {
    forall i :: i in items ==> ItemOk(cfg, i)
  }

  function Stack(cfg: Config, dirs: seq<string>, items: seq<Item>): seq<string>
    decreases |items|
  {
    if items == [] then dirs
    else Stack(cfg, if items[0].LineItem? then Moved(cfg, dirs, items[0].line) else dirs, items[1..])
  }

  lemma {:induction false} MeaningConcat(cfg: Config, dirs: seq<string>, a: seq<Item>, b: seq<Item>)
    requires AllOk(cfg, a) && AllOk(cfg, b)
    ensures AllOk(cfg, a + b)
    ensures Meaning(cfg, dirs, a + b) == Meaning(cfg, dirs, a) + Meaning(cfg, Stack(cfg, dirs, a), b)
    ensures Stack(cfg, dirs, a + b) == Stack(cfg, Stack(cfg, dirs, a), b)
    decreases |a|
  {
    hide ItemOk, Moved, Upload;
    if a == [] {
      assert a + b == b;
    } else {
      assert (a + b)[1..] == a[1..] + b;
      MeaningConcat(cfg, if a[0].LineItem? then Moved(cfg, dirs, a[0].line) else dirs, a[1..], b);
    }
  }

  lemma LinesAreOk(cfg: Config, es: seq<Entry>)
    requires Ok(cfg, es) && es != []
    ensures es[0].FileEntry? ==> ItemOk(cfg, FileItem(es[0].line, es[0].body, es[0].trailer))
    ensures es[0].NoteEntry? ==> ItemOk(cfg, LineItem(es[0].line))
    ensures es[0].DirEntry? ==> ItemOk(cfg, LineItem(es[0].open)) && ItemOk(cfg, LineItem(es[0].close)) && Ok(cfg, es[0].entries)
  {
  }

  lemma {:induction false} ItemsAreOk(cfg: Config, es: seq<Entry>)
    requires Ok(cfg, es)
    ensures AllOk(cfg, Items(es))
    decreases es
  {
    hide ItemOk, Announced, LineOk;
    if es != [] {
      ItemsAreOk(cfg, es[1..]);
      LinesAreOk(cfg, es);
      match es[0]
      case FileEntry(line, body, trailer) =>
      case NoteEntry(line) =>
      case DirEntry(open, entries, close) => ItemsAreOk(cfg, entries);
    }
  }

  // ---- Telling directories apart ----------------------------------------------------------------

  ghost predicate AllHarmless(dirs: seq<string>) {
    forall k :: 0 <= k < |dirs| ==> Harmless(dirs[k])
  }

  function Slashes(s: string): nat {
    if s == "" then 0 else (if s[0] == '/' then 1 else 0) + Slashes(s[1..])
  }

  lemma {:induction false} SlashesConcat(a: string, b: string)
    ensures Slashes(a + b) == Slashes(a) + Slashes(b)
  {
    if a == "" {
      assert a + b == b;
    } else {
      assert (a + b)[1..] == a[1..] + b;
      SlashesConcat(a[1..], b);
    }
  }

  lemma {:induction false} NoSlash(s: string)
    requires '/' !in s
    ensures Slashes(s) == 0
  {
    if s != "" {
      NoSlash(s[1..]);
    }
  }

  /** The joined path has a slash between every two names. */
  lemma {:induction false} JoinedSlashes(dirs: seq<string>)
    requires AllHarmless(dirs) && dirs != []
    ensures JoinDirs(dirs) != "" && Slashes(JoinDirs(dirs)) == |dirs| - 1
    decreases |dirs|
  {
    assert Harmless(dirs[0]);
    NoSlash(dirs[0]);
    if |dirs| > 1 {
      JoinedSlashes(dirs[1..]);
      SlashesConcat(dirs[0] + "/", JoinDirs(dirs[1..]));
      SlashesConcat(dirs[0], "/");
      assert "/"[1..] == "";
    }
  }

  lemma OtherDepthOtherPath(a: seq<string>, b: seq<string>)
    requires AllHarmless(a) && AllHarmless(b) && |a| != |b|
    ensures JoinDirs(a) != JoinDirs(b)
  {
    if a != [] {
      JoinedSlashes(a);
    }
    if b != [] {
      JoinedSlashes(b);
    }
  }

  // ---- Where the files come out -----------------------------------------------------------------

  /** The sink's stack is the path, or it has lost a directory. */
  ghost predicate On(dirs: seq<string>, path: seq<string>, over: bool) {
    AllHarmless(dirs) && AllHarmless(path) && if over then |dirs| < |path| else dirs == path && |path| <= MAX_SCP_DEPTH
  }

  /** The same files but for the directories they are in. */
  ghost predicate Alike(a: seq<CompletedFile>, b: seq<CompletedFile>) {
    |a| == |b| && forall k :: 0 <= k < |a| ==> a[k] == b[k].(relDir := a[k].relDir)
  }

  /** Each file is the right one exactly when it has not gone astray. */
  ghost predicate RightUnless(astray: seq<bool>, a: seq<CompletedFile>, b: seq<CompletedFile>) {
    |astray| == |a| == |b| && forall k :: 0 <= k < |a| ==> (a[k] == b[k] <==> !astray[k])
  }

  /** With `dirs` on its stack the sink makes these files of `es`. */
  ghost function Made(cfg: Config, dirs: seq<string>, es: seq<Entry>): seq<CompletedFile>
    requires Ok(cfg, es)
  {
    ItemsAreOk(cfg, es);
    Meaning(cfg, dirs, Items(es))
  }

  /** What the sink makes of `es` below `path`: the right files, in the right directories exactly when none goes
      astray; and a lost directory is missed until the walk is back at the top. */
  ghost predicate Follows(cfg: Config, dirs: seq<string>, path: seq<string>, es: seq<Entry>, over: bool)
    requires Ok(cfg, es)
  {
    && Alike(Made(cfg, dirs, es), Placed(cfg, path, es))
    && RightUnless(Astray(es, |path|, over), Made(cfg, dirs, es), Placed(cfg, path, es))
    && On(Stack(cfg, dirs, Items(es)), path, path != [] && (over || Exceeds(es, |path|)))
  }

  lemma {:induction false} Walk(cfg: Config, dirs: seq<string>, path: seq<string>, es: seq<Entry>, over: bool)
    requires Ok(cfg, es) && On(dirs, path, over)
    ensures Follows(cfg, dirs, path, es, over)
    decreases es
  {
    hide Follows, On;
    if es == [] {
      WalkNothing(cfg, dirs, path, over);
    } else {
      match es[0]
      case FileEntry(line, body, trailer) =>
        Walk(cfg, dirs, path, es[1..], over);
        WalkFile(cfg, dirs, path, es, over);
      case NoteEntry(line) =>
        Walk(cfg, dirs, path, es[1..], over);
        WalkNote(cfg, dirs, path, es, over);
      case DirEntry(open, entries, close) =>
        var inside := over || |path| >= MAX_SCP_DEPTH;
        OpenedOn(cfg, dirs, path, open, over);
        Walk(cfg, Moved(cfg, dirs, open), path + [NameOf(cfg, open)], entries, inside);
        var after := Stack(cfg, Moved(cfg, dirs, open), Items(entries));
        ClosedOn(cfg, dirs, path, es, over);
        Walk(cfg, Moved(cfg, after, close), path, es[1..], path != [] && (inside || Exceeds(entries, |path| + 1)));
        WalkDirectory(cfg, dirs, path, es, over);
    }
  }

  lemma WalkNothing(cfg: Config, dirs: seq<string>, path: seq<string>, over: bool)
    requires On(dirs, path, over)
    ensures Follows(cfg, dirs, path, [], over)
  {
  }

  lemma WalkFile(cfg: Config, dirs: seq<string>, path: seq<string>, es: seq<Entry>, over: bool)
    requires Ok(cfg, es) && es != [] && es[0].FileEntry? && On(dirs, path, over) && Follows(cfg, dirs, path, es[1..], over)
    ensures Follows(cfg, dirs, path, es, over)
  {
    hide ItemOk, Announced, Harmless, LineOk, Alike, On, Upload, Made, Placed, Stack;
    FileItems(cfg, dirs, path, es);
    var was, should := Upload(cfg, dirs, es[0].line, es[0].body), Upload(cfg, path, es[0].line, es[0].body);
    FileIsRightIff(cfg, dirs, path, es[0].line, es[0].body, over);
    SameHeads([over], Astray(es[1..], |path|, over), [was], Made(cfg, dirs, es[1..]), [should], Placed(cfg, path, es[1..]));
  }

  lemma FileItems(cfg: Config, dirs: seq<string>, path: seq<string>, es: seq<Entry>)
    requires Ok(cfg, es) && es != [] && es[0].FileEntry?
    ensures Announced(cfg, es[0].line).Some?
    ensures Made(cfg, dirs, es) == [Upload(cfg, dirs, es[0].line, es[0].body)] + Made(cfg, dirs, es[1..])
    ensures Placed(cfg, path, es) == [Upload(cfg, path, es[0].line, es[0].body)] + Placed(cfg, path, es[1..])
    ensures Stack(cfg, dirs, Items(es)) == Stack(cfg, dirs, Items(es[1..]))
  {
    hide ItemOk, Announced, LineOk, Upload;
    LinesAreOk(cfg, es);
    ItemsAreOk(cfg, es);
    AnnouncedIs(cfg, FileItem(es[0].line, es[0].body, es[0].trailer));
    assert Items(es)[1..] == Items(es[1..]);
  }

  lemma FileIsRightIff(cfg: Config, dirs: seq<string>, path: seq<string>, line: seq<Byte>, body: seq<Byte>, over: bool)
    requires Announced(cfg, line).Some? && On(dirs, path, over)
    ensures var was, should := Upload(cfg, dirs, line, body), Upload(cfg, path, line, body);
      Alike([was], [should]) && RightUnless([over], [was], [should])
  {
    hide Announced, JoinDirs, Harmless;
    if over {
      OtherDepthOtherPath(dirs, path);
    }
  }

  lemma AnnouncedIs(cfg: Config, item: Item)
    requires item.FileItem? && ItemOk(cfg, item)
    ensures Announced(cfg, item.line).Some?
  {
  }

  lemma SameHeads(p: seq<bool>, q: seq<bool>, a: seq<CompletedFile>, x: seq<CompletedFile>, b: seq<CompletedFile>, y: seq<CompletedFile>)
    requires Alike(a, b) && Alike(x, y) && RightUnless(p, a, b) && RightUnless(q, x, y)
    ensures Alike(a + x, b + y) && RightUnless(p + q, a + x, b + y)
  {
  }

  lemma WalkNote(cfg: Config, dirs: seq<string>, path: seq<string>, es: seq<Entry>, over: bool)
    requires Ok(cfg, es) && es != [] && es[0].NoteEntry? && On(dirs, path, over) && Follows(cfg, dirs, path, es[1..], over)
    ensures Follows(cfg, dirs, path, es, over)
  {
    hide ItemOk, Announced, Harmless, LineOk, Alike, On, ParseCd;
    ItemsAreOk(cfg, es);
    assert Items(es)[1..] == Items(es[1..]);
    assert Moved(cfg, dirs, es[0].line) == dirs;
  }

  /** Opening a directory goes down one, unless there are too many already. */
  lemma OpenedOn(cfg: Config, dirs: seq<string>, path: seq<string>, open: seq<Byte>, over: bool)
    requires Opens(cfg, open) && On(dirs, path, over)
    ensures On(Moved(cfg, dirs, open), path + [NameOf(cfg, open)], over || |path| >= MAX_SCP_DEPTH)
  {
    hide Harmless, ParseCd;
    ParsedNameIsHarmless(cfg.lossy(open));
  }

  /** Closing it goes back up; at the top nothing is missing any more. */
  lemma ClosedOn(cfg: Config, dirs: seq<string>, path: seq<string>, es: seq<Entry>, over: bool)
    requires Ok(cfg, es) && es != [] && es[0].DirEntry? && On(dirs, path, over)
    requires Opens(cfg, es[0].open)
      && Follows(cfg, Moved(cfg, dirs, es[0].open), path + [NameOf(cfg, es[0].open)], es[0].entries, over || |path| >= MAX_SCP_DEPTH)
    ensures
      var after := Stack(cfg, Moved(cfg, dirs, es[0].open), Items(es[0].entries));
      On(Moved(cfg, after, es[0].close), path,
         path != [] && (over || |path| >= MAX_SCP_DEPTH || Exceeds(es[0].entries, |path| + 1)))
  {
    hide Harmless, ParseCd, Alike, ItemOk, LineOk, Announced, Astray, Placed, Made;
    var name := NameOf(cfg, es[0].open);
    assert (path + [name])[..|path|] == path;
    assert Closes(cfg, es[0].close);
  }

  lemma WalkDirectory(cfg: Config, dirs: seq<string>, path: seq<string>, es: seq<Entry>, over: bool)
    requires Ok(cfg, es) && es != [] && es[0].DirEntry? && Opens(cfg, es[0].open)
    requires
      var inside := over || |path| >= MAX_SCP_DEPTH;
      var down := Moved(cfg, dirs, es[0].open);
      var up := Moved(cfg, Stack(cfg, down, Items(es[0].entries)), es[0].close);
      && Follows(cfg, down, path + [NameOf(cfg, es[0].open)], es[0].entries, inside)
      && Follows(cfg, up, path, es[1..], path != [] && (inside || Exceeds(es[0].entries, |path| + 1)))
    ensures Follows(cfg, dirs, path, es, over)
  {
    hide ItemOk, Announced, Harmless, LineOk, Alike, On, ParseCd, Moved, Upload;
    var open, entries, close := es[0].open, es[0].entries, es[0].close;
    var down := Moved(cfg, dirs, open);
    var up := Moved(cfg, Stack(cfg, down, Items(entries)), close);
    DirectoryItems(cfg, dirs, es);
    var inside := over || |path| >= MAX_SCP_DEPTH;
    SameHeads(Astray(entries, |path| + 1, inside), Astray(es[1..], |path|, path != [] && (inside || Exceeds(entries, |path| + 1))),
              Made(cfg, down, entries), Made(cfg, up, es[1..]),
              Placed(cfg, path + [NameOf(cfg, open)], entries), Placed(cfg, path, es[1..]));
  }

  /** A directory's items are its opening line, what is in it, and its closing line. */
  lemma DirectoryItems(cfg: Config, dirs: seq<string>, es: seq<Entry>)
    requires Ok(cfg, es) && es != [] && es[0].DirEntry?
    ensures
      var down := Moved(cfg, dirs, es[0].open);
      var up := Moved(cfg, Stack(cfg, down, Items(es[0].entries)), es[0].close);
      && Made(cfg, dirs, es) == Made(cfg, down, es[0].entries) + Made(cfg, up, es[1..])
      && Stack(cfg, dirs, Items(es)) == Stack(cfg, up, Items(es[1..]))
  {
    hide ItemOk, Announced, Harmless, LineOk, ParseCd, Moved, Upload;
    var open, entries, close := es[0].open, es[0].entries, es[0].close;
    LinesAreOk(cfg, es);
    ItemsAreOk(cfg, es);
    ItemsAreOk(cfg, entries);
    ItemsAreOk(cfg, es[1..]);
    var first, second := [LineItem(open)] + Items(entries), [LineItem(close)] + Items(es[1..]);
    assert first[1..] == Items(entries) && second[1..] == Items(es[1..]);
    MeaningConcat(cfg, dirs, first, second);
  }

  // ---- Whole transfers --------------------------------------------------------------------------

  /** A recursive transfer, in whatever chunks it arrives: every file of the tree comes out once, in order, with its
      own name, mode and data; and each in the directories it was sent in exactly when it is not sent in, or later
      below the same top directory than, one nested more than 32 deep. */
  lemma TreeIsReceived(cfg: Config, tree: seq<Entry>, chunks: seq<seq<Byte>>)
    requires Ok(cfg, tree) && Flatten(chunks) == SentAll(Items(tree))
    ensures var done := FedAll(cfg, Sink([], [], None), chunks).done;
      Alike(done, Placed(cfg, [], tree)) && RightUnless(Astray(tree, 0, false), done, Placed(cfg, [], tree))
  {
    ItemsAreOk(cfg, tree);
    TransferIsReceived(cfg, [], Items(tree), chunks);
    Walk(cfg, [], [], tree, false);
  }

  /** Nothing goes astray where nothing is nested too deep. */
  lemma {:induction false} ShallowIsNotAstray(es: seq<Entry>, depth: nat)
    requires !Exceeds(es, depth)
    ensures true !in Astray(es, depth, false)
    decreases es
  {
    if es != [] {
      ShallowIsNotAstray(es[1..], depth);
      if es[0].DirEntry? {
        ShallowIsNotAstray(es[0].entries, depth + 1);
      }
    }
  }

  /** `k` directories, each in the one before, with `e` in the last. */
  function Nested(k: nat, open: seq<Byte>, close: seq<Byte>, e: Entry): seq<Entry> {
    if k == 0 then [e] else [DirEntry(open, Nested(k - 1, open, close, e), close)]
  }

  /** A file goes astray exactly when it is below more than 32. */
  lemma DeepFileGoesAstray(k: nat, open: seq<Byte>, close: seq<Byte>, e: Entry)
    requires e.FileEntry?
    ensures Astray(Nested(k, open, close, e), 0, false) == [k > MAX_SCP_DEPTH]
  {
    NestedAstray(k, open, close, e, 0, false);
  }

  lemma {:induction false} NestedAstray(k: nat, open: seq<Byte>, close: seq<Byte>, e: Entry, depth: nat, over: bool)
    requires e.FileEntry?
    ensures Astray(Nested(k, open, close, e), depth, over) == [over || (k > 0 && depth + k > MAX_SCP_DEPTH)]
    decreases k
  {
    if k > 0 {
      NestedAstray(k - 1, open, close, e, depth + 1, over || depth >= MAX_SCP_DEPTH);
      assert [DirEntry(open, Nested(k - 1, open, close, e), close)][1..] == [];
    } else {
      assert [e][1..] == [];
    }
  }
}
