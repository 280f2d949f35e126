# MIMIC, verified

MIMIC is a honeypot: an SSH server that shows an emulated machine. This project models the layers of it that
are state machines and algorithms over memory, and proves what they promise for every input, every run and,
where several sessions share state, every interleaving.

Each component has its own modules:

| files | component |
|---|---|
| `VfsTree`, `VfsEdits`, `VfsHeight`, `VfsResolve`, `VfsMkdirP`, `VfsMove`, `VfsPaths`, `VfsLinks`, `VfsCopy`, `VfsMerge`, `VfsReplace`, `VfsRuns`, `Vfs`, `VfsWitness` | the in-memory filesystem: an arena of nodes with parent indices and child maps |
| `Paths` | lexical path normalisation |
| `Calendar`, `Glob`, `Tar`, `TarNames`, `Base64` | algorithms behind shell commands |
| `ArithGrammar`, `ArithParser`, `ArithLexer`, `ArithLaws` | the evaluator of `$((...))` |
| `Terminal`, `LineModel`, `LineEditor`, `LineScreen`, `LineBounds`, `LineLaws` | the line editor, and the terminal it draws on |
| `ShellQuoting`, `ShellScanners`, `ShellRoundTrip`, `ShellLaws` | the scanners that split a raw command line |
| `SftpWire`, `SftpHandles`, `SftpUploads`, `Sftp`, `Scp`, `ScpTree` | the file transfer protocols |
| `Limiter`, `Quarantine` | limits shared by concurrent sessions |
| `Wrappers`, `Division`, `Text`, `Bits`, `Numerals` | shared vocabulary |

`dafny verify dfyconfig.toml` checks everything.

Code that changes state is modelled by classes and loops with the same fields and the same branches. Each is
proved against a specification on values, and the promises are proved of the specification: the byte sums of
the filesystem, the text left and right of the cursor, the bytes seen as frames, the expression a token list
stands for. The filesystem's `depth` field is ghost: it counts the steps from each node to the root, and it
exists exactly because no parent chain is cyclic.

## Where the code falls short

These properties do not hold of the code as it is. Each is proved with its exact condition and shown at an
input, or at the end of a run, where it fails.

- The glob matcher decides the pattern language on a text exactly when the text has no `*` in it
  (`Glob.GlobExactIff`, which gives the pattern that fails on any other text).
- `add_dynamic_file` over a regular file leaves the file's bytes on the counter, so the counter is an upper
  bound of the bytes held, and the slack grows by exactly that file (`Vfs.Vfs.AddDynamicFile`,
  `VfsWitness.ChargeOutlivesFile`).
- `mkdir_p` returns the node its path resolves to exactly when no component is `..`, every existing one but the
  last is a directory, and the last, if it exists, is not a symlink (`Vfs.Vfs.MkdirP`,
  `VfsWitness.MakeBelowFile`).
- A node's path resolves back to it exactly when the node is reachable, is no symlink, and the names above it
  are plain: `mkdir` and `touch` also take `.`, `..` and the empty name (`VfsResolve.PathRoundTrip`,
  `VfsWitness.DotDotLosesItsPath`).
- Normalising a path twice differs from once exactly when a component of the working directory with a backslash
  or a control character in it is left standing by the request (`Paths.NormalizeTwice`,
  `Paths.TabIsStripped`).
- A member name of 101 bytes that starts with a slash loses it in an archive (`Tar.NameComesBackIff`,
  `Tar.SlashIsLost`).
- Tab in a reverse search leaves the search on the screen, because the redraw is dropped when the key asks
  for a completion and there is none to draw (`LineScreen.RedrawIsDroppedIff`, `LineScreen.TabLeavesStaleRow`,
  `LineScreen.TabInSearchIsStale`).
- A history entry may be longer than a line may be, and so may a line called back up: a submitted line with
  bytes beyond ASCII is decoded, each stray byte into three, and is cut neither then nor when it is recalled
  (`LineBounds.PressStaysBounded`, `LineBounds.EnterThenUp`). It gets no longer than three times the line cap
  (`LineBounds.KeysStayWithinThrice`).
- A completion may take the line past its cap: what follows the cursor is cut, the replacement is not
  (`LineBounds.CompletionFits`, `LineBounds.LongCompletion`). The module documentation calls the buffer bounded.
- A refused peer may leave an entry behind exactly when the per-peer cap is zero and the global one is not
  (`Limiter.NoZeroEntryIff`, `Limiter.ZeroCapLeavesEntry`); configuration loading rejects that cap.
- After 2^32 opens a handle number may be given out again while in use, and the bytes of the handle it had
  stay on the counter. The counter is exact at the end of a run exactly when that has not happened to a handle
  that held any (`SftpHandles.CounterIsExactIff`, `SftpHandles.LiveNumberIsReused`).
- `deep_copy` is documented to replace what has the destination's name. A file does exactly when its bytes fit, a
  generated file always, and a symlink exactly when there is room for a node: otherwise the old entry is gone and
  nothing takes its place (`Vfs.Vfs.DeepCopy`, `VfsReplace.LinkOutcome`, `VfsWitness.CopyLinkAtCap`). A directory
  is merged into a directory: where no cap gets in the way it replaces that exactly when that has the same owner
  and mode, no other names, and gives way in the same way below each, and in any case only if it has the same
  owner and mode and no other names (`VfsReplace.ReplacesIff`, `VfsReplace.ReplacesOnlyIf`,
  `VfsWitness.CopyOntoDirectory`); onto a file or symlink it changes nothing, and what it makes cannot be reached
  (`VfsReplace.CopyBelowFileIsUnlinked`).
- `deep_copy` puts a directory's children into a node of that name exactly when the name is taken or there is room
  for a node: otherwise they are copied into the destination itself, over whatever has their names there
  (`Vfs.Vfs.DeepCopy`, `VfsWitness.CopySpills`). `cp` checks for room only at the top of a copy.
- A file in a recursive upload is put into the directories it was sent in exactly when it is not in, and does not
  come later below the same top directory than, one nested more than 32 deep: the sink does not enter that one,
  and leaves its parent when it ends (`ScpTree.TreeIsReceived`, `ScpTree.DeepFileGoesAstray`).
- The global quarantine cap is loaded, checked and added to in separate steps, so n sessions can exceed it by
  n - 1 uploads, and by no more (`Quarantine.BudgetsHold`, `Quarantine.BudgetIsExact`). It is respected by every
  interleaving exactly when no two sessions can race for the last byte below it
  (`Quarantine.GlobalCapHoldsIff`).

Where documentation and code differ, the model follows the code. The parser's module documentation calls
here-documents unsupported, and the code splits them off.

## Model

| member | source | states |
|---|---|---|
| VfsRuns.RunKeepsInvariants | src/vfs/mod.rs:188-556 | over every run of edits behind the code's own checks, writes to unlinked files included, from any sound arena: every parent chain, tombstones included, ends at the root; a node is listed at most once, by its recorded parent under its recorded name; reachable nodes are within 128 levels; at most 2000 nodes; the bytes held never exceed the counter, nor the counter 8 MiB |
| VfsRuns.ReachedIsSane | src/vfs/mod.rs:188-556 | the same for what any sequence of operations reaches: every operation below that changes the arena states that its result is reached by such a run from its start |
| VfsRuns.RechargeDoesNotWrap | src/vfs/mod.rs:284-295 | the bytes taken off the counter when a file is overwritten were on it, so the unsigned subtraction cannot wrap |
| VfsRuns.EditKeepsSane | src/vfs/mod.rs:225-556 | each kind of edit (push, replace of any node but the root, stamp, drop, move) keeps the arena a capped tree with its bytes paid for |
| VfsRuns.EntryIsListedOnce | src/vfs/mod.rs:225-240 | no node is listed by two directories, or twice by one |
| VfsTree.ChainFitsArena | src/vfs/mod.rs:148-167 | a parent chain is shorter than the arena, and one as long as the arena passes through every node: the bounded walks never stop early |
| VfsTree.RankUnique | src/vfs/mod.rs:193-205 | the depth of every node is determined by the parent pointers alone |
| VfsTree.RankIsClimb | src/vfs/mod.rs:193-205 | the ghost depth is the number of parent steps to the root |
| VfsEdits.PushKeepsShape | src/vfs/mod.rs:225-240 | pushing a node under the caps keeps the tree, also when it takes a name over or lands unlinked under a non-directory |
| VfsEdits.ReplaceKeepsShape | src/vfs/mod.rs:284-291 | turning any node but the root, unlinked ones and directories with children included, into another kind keeps the tree and changes the bytes by the difference |
| VfsEdits.DropKeepsShape | src/vfs/mod.rs:438-443 | dropping an entry keeps the tree and the bytes |
| VfsEdits.MoveKeepsShape | src/vfs/mod.rs:484-501 | moving a subtree to a directory outside it keeps the tree and the depth cap |
| VfsEdits.MovedInSteps | src/vfs/mod.rs:484-501 | the four writes of a move (detach, displace, rename, re-link) add up to the move as one function |
| Vfs.Vfs.constructor | src/vfs/mod.rs:55-69 | a new arena is sound and holds the root directory alone |
| Vfs.Vfs.Child | src/vfs/mod.rs:129-134 | an entry found agrees with the child's own parent and name |
| Vfs.Vfs.Entries | src/vfs/mod.rs:138-145 | the listing has each child exactly once, in the order of their names |
| Vfs.Vfs.PathOfNode | src/vfs/mod.rs:148-167 | the bounded climb returns the path made of all names on the parent chain |
| Vfs.Vfs.DepthOf | src/vfs/mod.rs:193-205 | the loop returns the exact depth; its guard against cycles never fires |
| Vfs.Vfs.HeightOf | src/vfs/mod.rs:209-219 | the stack walk returns the greatest distance to a reachable descendant, meeting each once |
| Vfs.Vfs.IsAncestorOf | src/vfs/mod.rs:450-463 | true exactly when the node is the other or above it; the loop bound makes no difference |
| Vfs.Vfs.ResolveInner | src/vfs/mod.rs:88-113 | the loop over components computes the recursive resolution, within the symlink depth |
| Vfs.Vfs.Follow | src/vfs/mod.rs:117-125 | a symlink resolves relative to its own parent, one link deeper |
| Vfs.Vfs.IsFull | src/vfs/mod.rs:188-190 | full exactly at the node cap or below a node at the depth cap |
| Vfs.Vfs.Insert | src/vfs/mod.rs:225-240 | nothing happens under a full parent; otherwise the new arena is the old one with one node pushed |
| Vfs.Vfs.Mkdir | src/vfs/mod.rs:244-252 | an existing name is returned as it is, whatever it is; otherwise a directory is pushed or refused, with the permissions, owner and time it was given |
| Vfs.Vfs.AddFile | src/vfs/mod.rs:258-296 | exact new arena and counter in every case: refused whole past a cap, overwritten in place with the old bytes given back, or pushed; what changes has the permissions, owner and time given |
| Vfs.Vfs.AddDynamicFile | src/vfs/mod.rs:299-316 | exact new arena; replacing a file leaves its bytes on the counter, so the slack grows by exactly their number; what changes has the permissions, owner and time given |
| VfsWitness.ChargeOutlivesFile | src/vfs/mod.rs:299-316 | reached from an empty arena: no node holds a byte and the counter is at one |
| Vfs.Vfs.WriteFile | src/vfs/mod.rs:323-348 | succeeds exactly on a regular file within the byte cap, and then holds the old contents (when appending) followed by the data |
| Vfs.Vfs.AddSymlink | src/vfs/mod.rs:351-359 | exact new arena; an existing name wins; a new one belongs to root and is dated now |
| Vfs.Vfs.MkdirP | src/vfs/mod.rs:368-384 | the names recorded above the node returned are the steps of the path; the path resolves to it exactly when, before the call, no component was `..`, every existing component but the last was a directory, and the last, if it existed, was not a symlink; nothing is returned only when the node that the components so far lead to lacks the next one and a cap refuses it; and nothing that was there changes, but that directories list new directories, made as it was asked, under names they did not have |
| VfsWitness.MakeBelowFile | src/vfs/mod.rs:368-384 | below a regular file: a node comes back, and the path does not resolve to it |
| Vfs.Vfs.Touch | src/vfs/mod.rs:389-398 | the returned node is stamped, be it the existing one, a new empty file, or the parent when a cap refused it |
| Vfs.Vfs.SetAllMtimes | src/vfs/mod.rs:403-407 | every node is stamped and nothing else changes |
| Vfs.Vfs.Chmod | src/vfs/mod.rs:410-413 | permissions change and the file type bits stay those of the node's kind |
| Vfs.Vfs.Unlink | src/vfs/mod.rs:438-443 | the entry goes, the node stays as a tombstone, and its bytes stay on the counter |
| Vfs.Vfs.Rename | src/vfs/mod.rs:469-502 | succeeds exactly when the target is a directory, is not inside the moved subtree, and target depth + 1 + height is at most 128; then the arena is the moved one, otherwise it is unchanged |
| Vfs.Vfs.DeepCopy | src/vfs/mod.rs:504-509 | terminates and keeps the invariant for every source and destination. Always: only what is reached from the destination changes, and no more than the entry itself unless its name was free and the destination full. A file or symlink arrives exactly when the caps let it, and a symlink refused has cost the entry that had its name. A directory goes to a node of its name exactly when that was taken or there was room. With a free name outside the source and room under every cap, the copy equals the source in names, kinds, contents, modes and owners, and every other edge is unchanged; with a taken name apart from the source, the entry becomes the merge of the two. Whatever is copied is dated now, and every record keeps its date or has this one |
| Vfs.Vfs.DeepCopyInner | src/vfs/mod.rs:511-556 | the same at every level of the recursion, up to 64, past which nothing is copied |
| Vfs.Vfs.CopyDirectory | src/vfs/mod.rs:546-554 | the listing taken after the directory is made, copied child by child, into what has the name, into a new directory, or, where there was no room for one, into the destination |
| Vfs.Vfs.PutSymlink | src/vfs/mod.rs:542-545 | what has the name goes first; the symlink comes only if there is room for a node |
| VfsReplace.FileOutcome | src/vfs/mod.rs:522-529 | a file arrives, as its value, exactly when its bytes fit with those it overwrites given back, and the name is taken or there is room for a node |
| VfsReplace.DynamicOutcome | src/vfs/mod.rs:530-541 | a generated file arrives exactly when the name is taken or there is room for a node |
| VfsReplace.LinkOutcome | src/vfs/mod.rs:542-545 | a symlink arrives exactly when there is room for a node, and otherwise nothing has the name afterwards |
| VfsReplace.DirectoryOutcome | src/vfs/mod.rs:546-554 | from the loop over the children: what a directory comes to in each of the three cases |
| VfsReplace.ReplacesIff | src/vfs/mod.rs:504-509 | where no cap gets in the way and neither is inside the other, what has the name equals the source afterwards exactly when the source is a file or symlink, or both are directories with the same owner and mode, the source has every name, and the same holds below each name |
| VfsReplace.ReplacesOnlyIf | src/vfs/mod.rs:504-509 | whatever the caps do, a directory replaces what has its name only if that is a directory with its own owner and mode and no name it lacks |
| VfsReplace.CopyBelowFileIsUnlinked | src/vfs/mod.rs:546-554 | a directory copied onto a file or symlink changes nothing that was there, and no node it makes can be reached |
| VfsMerge.MergedIsSourceIff | src/vfs/mod.rs:504-509 | as values: the merge is the source exactly when what is there gives way |
| VfsMerge.MergeAdvances | src/vfs/mod.rs:549-552 | copying one child merges it into what has its name, and leaves the other entries as they were |
| VfsMerge.MergeEnds | src/vfs/mod.rs:546-554 | with every child copied, what has the name is the merge |
| VfsMerge.SpreadStep | src/vfs/mod.rs:549-552 | whatever the caps do, the children go below one node, which keeps every entry under another name unless one of theirs found no room |
| VfsMerge.ConfinedTrans | src/vfs/mod.rs:511-556 | one copy after another below the same node stays below it |
| VfsWitness.CopyOntoDirectory | src/vfs/mod.rs:546-554 | an empty directory copied onto one with a child: the child stays |
| VfsWitness.CopyLinkAtCap | src/vfs/mod.rs:542-545 | with every node used up, a symlink copied onto a file: the entry goes, and nothing has the name |
| VfsWitness.CopySpills | src/vfs/mod.rs:546-554 | with every node used up, a directory copied under a free name: its file overwrites the one of that name in the destination |
| VfsMove.RenameMovesPaths | src/vfs/mod.rs:469-502 | as a map from paths to nodes: every path into the destination leads into what was at the source, every other path into the source leads nowhere, and every other path leads where it led |
| VfsPaths.UnlinkLosesPaths | src/vfs/mod.rs:438-443 | as a map from paths to nodes: after an unlink the path of the entry and every path through it lead nowhere, and every other path leads where it led |
| VfsPaths.PushAddsPath | src/vfs/mod.rs:225-240 | after an insertion the new name leads to the new node with the record it was given, nothing is below it, and every other path leads where it led |
| VfsPaths.FileCutsPaths | src/vfs/mod.rs:284-291 | when a record becomes a file, its path still leads to it, what was below it is lost, and every other path leads where it led |
| VfsCopy.CopyEnds | src/vfs/mod.rs:538-554 | when every child has its copy, the copy is the source as a value |
| VfsCopy.CopyAdvances | src/vfs/mod.rs:538-554 | copying one child extends the partial copy by that child and nothing else |
| VfsResolve.ResolveReachable | src/vfs/mod.rs:84-113 | from a reachable non-symlink, resolution only returns reachable non-symlinks |
| VfsResolve.ResolveAddressable | src/vfs/mod.rs:84-113 | an absolute path never resolves to a node that plain names cannot address |
| VfsResolve.PathRoundTrip | src/vfs/mod.rs:84-167 | a node's path resolves back to it exactly when it is reachable, is no symlink and has only plain names above it |
| VfsWitness.DotDotLosesItsPath | src/vfs/mod.rs:84-167 | reached from an empty arena: a directory called `..`, whose path leads to the root |
| VfsResolve.TreadCollapses | src/vfs/mod.rs:88-113 | a walk through no symlink, `..` included, ends at the node whose names are the lexically collapsed ones |
| VfsLinks.LinkIsItsTarget | src/vfs/mod.rs:88-125 | a symlink stands for its target: where a walk through no symlink takes the target to a node, from the directory of the link, or from the root for an absolute one, resolving the link and a rest is resolving the rest from that node |
| VfsLinks.PathThroughLink | src/vfs/mod.rs:84-125 | the same of paths: the link resolves to where its target leads, and `link/rest` is `rest` from there |
| VfsLinks.SiblingLink | src/vfs/mod.rs:117-125 | a link whose target is one name resolves to its sibling of that name |
| VfsLinks.ChainResolves | src/vfs/mod.rs:88-125 | links that lead to one another, each target ending at the next, are followed to the end of the chain exactly when there are at most 40 |
| VfsLinks.LoopIsLost | src/vfs/mod.rs:88-125 | a link whose target leads back to it resolves to nothing |
| VfsMkdirP.OnPathEnd | src/vfs/mod.rs:368-384 | at the end of the loop the current node is the one the path resolves to exactly when the path was open at the start |
| VfsResolve.NormalizationAgrees | src/network/sftp.rs:851-879 | from a working directory that plain names address: if a request resolves through no symlink and has no backslash or control character, resolving its normalised form from the root finds the same node, and the normalised form is that node's path |
| Paths.NormalizePath | src/network/sftp.rs:851-879 | the loop that pushes and pops components computes the normal form |
| Paths.NormalizedIsCanonical | src/network/sftp.rs:851-879 | the result is absolute, with no empty, `.` or `..` component |
| Paths.NormalizeTwice | src/network/sftp.rs:851-879 | normalising again, from any directory, changes nothing exactly when no component of the working directory that the request leaves standing holds a backslash or control character |
| Paths.TabIsStripped | src/network/sftp.rs:851-879 | a working directory with a tab in its name and an empty request: the second normalising strips the tab |
| Paths.NormalFormParts | src/network/sftp.rs:851-879 | the normal form is what the request leaves standing of the working directory, followed by sanitised components of the request |
| Paths.BackslashSeparates | src/network/sftp.rs:852-856 | a backslash in the request is as good as a slash, and a control character as good as nothing |
| Paths.CleanInputsNormalizeClean | src/network/sftp.rs:851-879 | clean inputs normalise to clean results, on which normalising is idempotent |
| Calendar.GmtimeIsExact | src/clock.rs:116-153 | for every second count: a valid date, a time of day that makes up the rest, and the weekday and day of the year of that date |
| Calendar.CivilIsTheCalendar | src/clock.rs:125-136 | day zero is the epoch, and the day after day n is the calendar's next day, for every n before and after |
| Calendar.DayCountInverts | src/clock.rs:125-136 | the date of a day counts back to that day |
| Calendar.CivilOfDayCount | src/commands/fs.rs:280-291 | every valid date is the date of its day count: dates and days correspond one to one, for the second copy of the algorithm too |
| Calendar.EraIsFloor | src/clock.rs:125-127 | truncating division with the negative offset is floor division |
| Glob.GlobMatch | src/commands/fs.rs:1200-1230 | the loop with one remembered star terminates; a true answer is right on every text, and on a text without `*` the answer is exact |
| Glob.GlobIsSound | src/commands/fs.rs:1200-1230 | whenever the matcher says yes, the pattern language matches |
| Glob.GlobIsExact | src/commands/fs.rs:1200-1230 | on a text without `*` the matcher decides the pattern language |
| Glob.GlobExactIff | src/commands/fs.rs:1208-1214 | the matcher decides every pattern on a text exactly when the text has no `*`: the literal comparison comes before the star |
| Glob.AnswerIsComplete | src/commands/fs.rs:1216-1223 | backtracking to the last star loses no match |
| Tar.ArchiveRoundTrip | src/commands/fs.rs:1268-1479 | reading a written archive gives back every member with its fields and body, for names, links and numbers that fit; an empty archive is not recognised |
| Tar.NameComesBackIff | src/commands/fs.rs:1295-1306 | a name comes back exactly when it has no NUL and either at most 100 bytes or a slash, not the first byte, at the first place that leaves at most 100 bytes behind it and has at most 155 before it: a name of 101 bytes with a leading slash does not, whatever other slashes it has |
| Tar.SlashIsLost | src/commands/fs.rs:1295-1306 | a slash and a hundred letters come back without the slash |
| Tar.HeaderReads | src/commands/fs.rs:1309-1337 | each field of a written header is read back |
| Tar.HeaderLayout | src/commands/fs.rs:1309-1337 | where a header has name, mode, owner, group, size and time, byte for byte |
| Tar.HeaderLayoutBehind | src/commands/fs.rs:1309-1337 | and where it has type, link, magic, owner names and prefix |
| Tar.ChecksumIs | src/commands/fs.rs:1330-1336 | the checksum field spells the sum of the header with eight spaces for the field, as six octal digits, a NUL and a space |
| Tar.RecordIs | src/commands/fs.rs:1361-1427 | a member is its header, its body and fewer than 512 zeros, a multiple of 512 bytes |
| Tar.ChecksumFits | src/commands/fs.rs:1330-1336 | the sum of any header fits its six octal digits |
| Tar.ReadOctalOf | src/commands/fs.rs:1274-1283 | a number that fits an octal field is read back from it |
| Tar.ArchiveIsBlocked | src/commands/fs.rs:1738-1739 | a written archive is a whole number of 10240-byte units |
| Tar.Put | src/commands/fs.rs:1268-1271 | a field is the bytes cut to its width, and nothing else in the header changes |
| Tar.WriteHeader | src/commands/fs.rs:1309-1337 | the record appended is the header of the member, checksum included |
| Tar.Write | src/commands/fs.rs:1361-1427 | headers, bodies and padding in order |
| Tar.Parse | src/commands/fs.rs:1445-1479 | the loop over records computes the recursive reading |
| TarNames.StripLeading | src/commands/fs.rs:1546-1572 | what is left of a member name is relative and has no `..` component; no more than the run through the last `..` and its slashes is dropped, and nothing exactly when the name is relative and free of `..` |
| TarNames.DotDotIsSomewhere | src/commands/fs.rs:1536-1538 | looking for `..` among the components is looking for it in the characters |
| ArithLexer.EvalIsExact | src/shell/arith.rs:23-38 | a value is returned exactly for the texts of expressions of the grammar (comparisons `== != <= >= < >` of sums, sums `+ -` of products, products `* / %` of signed operands, each grouping to the left) that nest at most 32 parentheses deep and divide only where division has a result, and it is the value of the expression |
| ArithLexer.TreeEvaluates | src/shell/arith.rs:23-38 | any text of a tree written with no more parentheses than needed evaluates to the tree's left-associative, wrapping 64-bit value |
| ArithLexer.LexIsExact | src/shell/arith.rs:51-113 | the tokens of a text are what it spells, and every spelling (white space, decimal or hexadecimal, words that end where the next begins) is accepted |
| ArithLexer.Tokenize | src/shell/arith.rs:51-113 | the loop computes the tokens |
| ArithLexer.TokenAt | src/shell/arith.rs:61-109 | one turn of the loop reads the longest word there |
| ArithLexer.Eval | src/shell/arith.rs:23-38 | tokenizing and parsing compute the evaluation |
| ArithLexer.ExpressionIsWritten | src/shell/arith.rs:51-113 | every printable expression has a text |
| ArithParser.EvalIsGrammar | src/shell/arith.rs:145-223 | over token lists: a value exactly for an expression of that grammar within the cap |
| ArithParser.AtIsSound | src/shell/arith.rs:145-223 | what a level of the parser consumes is an expression of that level with that value |
| ArithParser.AtIsComplete | src/shell/arith.rs:145-223 | in front of anything that does not continue it, an expression is parsed whole, or fails exactly where it has no value or nests too deep |
| ArithParser.Parser.Comparison | src/shell/arith.rs:145-160 | the loop leaves the position and the value the specification gives, and restores the nesting depth |
| ArithParser.Parser.Additive | src/shell/arith.rs:162-173 | the same for sums |
| ArithParser.Parser.Multiplicative | src/shell/arith.rs:175-187 | the same for products, where a division may have no result |
| ArithParser.Parser.Unary | src/shell/arith.rs:189-197 | the same for signs |
| ArithParser.Parser.Primary | src/shell/arith.rs:199-223 | the same for numbers, names and parentheses |
| ArithGrammar.WrittenFits | src/shell/arith.rs:144-223 | minimal parenthesising is in the grammar and keeps the value |
| ArithGrammar.FitsIff | src/shell/arith.rs:144-197 | an expression fits a level of the parser exactly when the grammar with its operators named has it at that level |
| ArithLaws.PairEvaluates | src/shell/arith.rs:145-197 | two operators between three operands, for every pair of the eleven: the tighter one first, and of two alike the left one |
| ArithLaws.TextEvaluates | src/shell/arith.rs:23-113 | the same of the text, as in `1+7%4` |
| ArithLaws.WrappedIs | src/shell/arith.rs:162-197 | wrapping gives the one 64-bit value that differs by a multiple of 2^64 |
| ArithLaws.SumsUndo | src/shell/arith.rs:162-173 | a difference plus what was taken away, and a sum less what was added, are what they started from, also where they wrap |
| ArithLaws.ProductWraps | src/shell/arith.rs:175-187 | a product differs from the exact one by a multiple of 2^64, and by nothing when that fits |
| ArithLaws.DivisionIs | src/shell/arith.rs:175-187 | division has a result exactly when the divisor is not zero and the quotient fits; quotient times divisor plus remainder is the dividend, the remainder smaller than the divisor and on the dividend's side of zero |
| ArithLaws.Trichotomy | src/shell/arith.rs:145-160 | exactly one of less, equal and greater is 1, and the other three comparisons are their negations |
| ArithLaws.VariableReads | src/shell/arith.rs:199-223 | a name that stands for a written number has its value, and an unset one zero |
| ArithLaws.NegationUndoes | src/shell/arith.rs:189-197 | a sign undoes a sign, also where it wraps |
| ArithLaws.HexadecimalEvaluates | src/shell/arith.rs:61-81 | a number behind `0x` evaluates to itself |
| LineScreen.RunIsFaithful | src/shell/line.rs:160-623 | over every run of ASCII keys and renderings, the row under the cursor shows exactly the prompt and the line with the cursor in its place, or the search; and whatever Enter submits along the way is what the row shows behind the prompt, or the match it shows. Only between a submitted line, or a key in a search whose redraw was dropped, and the next rendering or key that draws the line anew is nothing said |
| LineScreen.PressFollows | src/shell/line.rs:160-303 | each key keeps the screen faithful and submits only what it shows, and all but Ctrl-L and Ctrl-C touch no other row |
| LineScreen.PressSubmitsShown | src/shell/line.rs:377-388 | of any key and any bytes: what is submitted is the whole line behind the prompt, wherever the cursor is; in a search it is the match shown, cut to the cap, or without one the line the search was started on |
| LineScreen.OnlyEnterSubmits | src/shell/line.rs:160-303 | only Enter submits, and outside an escape sequence it always does |
| LineLaws.TypedIsSubmitted | src/shell/line.rs:160-198 | what is typed on an empty line and entered is submitted as it was typed, also when the cursor was moved |
| LineLaws.EntersLine | src/shell/line.rs:377-388 | Enter submits the line, whole, and leaves an empty one |
| LineLaws.MovesKeepLine | src/shell/line.rs:426-450 | the four moves change nothing of the line |
| LineLaws.BackKeepsLine | src/shell/line.rs:436-442 | Ctrl-B goes back over one character, continuation bytes and all, and changes nothing else |
| LineLaws.ForwardKeepsLine | src/shell/line.rs:444-450 | Ctrl-F the same forwards |
| LineLaws.ArrowsAreKeys | src/shell/line.rs:202-235 | the arrows, Home and End do what the control keys do |
| LineLaws.KeypadIs | src/shell/line.rs:202-241 | the keys that send a number and a tilde too |
| LineLaws.TypedIsErased | src/shell/line.rs:390-415 | a byte typed goes in at the cursor, and erasing it leaves the line and the cursor as they were |
| LineLaws.FullTakesNothing | src/shell/line.rs:390-394 | a full line takes no more |
| LineLaws.ErasesWhatIsPassed | src/shell/line.rs:407-424 | Backspace erases the character Ctrl-B goes over, Ctrl-D the one Ctrl-F goes over |
| LineLaws.KilledLeftComesBack | src/shell/line.rs:452-497 | what Ctrl-U or Ctrl-W kills comes back with Ctrl-Y at the same place: line and cursor are as they were |
| LineLaws.KilledRightComesBack | src/shell/line.rs:461-497 | what Ctrl-K kills comes back: the line is as it was |
| LineLaws.WordIsKilled | src/shell/line.rs:469-484 | Ctrl-W kills one word and the blanks behind it |
| LineLaws.InterruptClears | src/shell/line.rs:505-521 | Ctrl-C gives the line up and keeps the history; Ctrl-D ends the session exactly on an empty line |
| LineLaws.UpAndDownComesBack | src/shell/line.rs:539-574 | going up and down again brings the line in progress back |
| LineLaws.BrowsingSteps | src/shell/line.rs:539-574 | while browsing, each key goes one entry further |
| LineLaws.EnteredComesUp | src/shell/line.rs:377-388 | a line that was entered comes up again, without the blanks around it |
| LineLaws.HistoryIs | src/shell/line.rs:525-537 | the history after Enter: unchanged by a blank or repeated line, otherwise longer by it, or with it in place of the oldest |
| LineLaws.SearchKeys | src/shell/line.rs:254-332 | what each key does to an open search: the query, and the newest entry that has it, or the next older one |
| LineLaws.SearchSubmits | src/shell/line.rs:346-355 | over any run of keys that leaves the search open, Enter submits the match, cut to the cap, or without one the line as it was |
| LineLaws.CompletionReplacesWord | src/shell/line.rs:124-144 | a completion takes the place of the word before the cursor, and what is before and behind stays as far as it fits |
| LineScreen.RedrawResyncs | src/shell/line.rs:606-623 | a redraw makes the row right whatever it showed before |
| LineScreen.SomeKeysDrawAnew | src/shell/line.rs:160-198 | Ctrl-A, Ctrl-E, Ctrl-L, Ctrl-R and Ctrl-C draw the line anew whatever the row showed |
| LineScreen.RedrawIsDroppedIff | src/shell/line.rs:287-301 | a key in a search accepts the match and loses its redraw exactly when it is Tab, or Ctrl-D on an empty accepted line |
| LineScreen.TabInSearch | src/shell/line.rs:287-301 | Tab in a search accepts the match and asks for a completion; the screen is right afterwards exactly when the search row happens to read like the prompt and the accepted line |
| LineScreen.TabLeavesStaleRow | src/shell/line.rs:287-301 | it never does when the prompt is not empty and does not start with a parenthesis |
| LineScreen.TabInSearchIsStale | src/shell/line.rs:287-301 | a concrete search in which it is not |
| LineBounds.PressStaysBounded | src/shell/line.rs:160-573 | for every key on any bytes: line, kill slot, stash, query and history stay within their caps exactly unless Enter submits a line with bytes beyond ASCII whose decoded form is longer than a line may be, into a history that keeps anything |
| LineBounds.KeysStayWithinThrice | src/shell/line.rs:160-573 | over every run of bytes typed, line, kill slot, stash and history entries stay within three times the line cap |
| LineBounds.EnterThenUp | src/shell/line.rs:525-555 | a full line of stray bytes, entered and called back up, is three times as long as a line may be |
| LineBounds.CompletionFits | src/shell/line.rs:124-144 | a completion keeps the line within its cap exactly when the text up to the cursor is: the replacement is never cut |
| LineBounds.CompletionStaysWithin | src/shell/line.rs:124-144 | a completion that keeps the text up to the cursor within the line cap keeps every text within the cap it was in, the line cap or a larger one |
| LineBounds.LongCompletion | src/shell/line.rs:124-144 | under any cap: a completion one longer than the line may be, on an empty line |
| LineScreen.ListingShows | src/shell/line.rs:149-157 | after a listing the line is drawn right below it |
| LineEditing.LineEditor.Input | src/shell/line.rs:160-198 | one byte does to the line, the history and the modes what the specification on the text left and right of the cursor says, and returns its reaction |
| LineEditing.LineEditor.InputCsi | src/shell/line.rs:217-242 | the same inside escape sequences |
| LineEditing.LineEditor.InputSearch | src/shell/line.rs:254-303 | the same in a reverse search |
| LineEditing.LineEditor.FindMatch | src/shell/line.rs:334-342 | the newest older entry that contains the query, if any |
| LineEditing.LineEditor.AcceptSearch | src/shell/line.rs:346-355 | the match, cut to the cap, becomes the line |
| LineEditing.LineEditor.Insert | src/shell/line.rs:390-405 | a byte goes in at the cursor unless the line is full; the fast path is taken exactly at the end |
| LineEditing.LineEditor.Backspace | src/shell/line.rs:407-415 | the whole character left of the cursor goes |
| LineEditing.LineEditor.DeleteForward | src/shell/line.rs:417-424 | the whole character right of the cursor goes |
| LineEditing.LineEditor.MoveLeft | src/shell/line.rs:436-442 | one character moves from the left text to the right |
| LineEditing.LineEditor.MoveRight | src/shell/line.rs:444-450 | one character moves from the right text to the left |
| LineEditing.LineEditor.KillWord | src/shell/line.rs:469-483 | the word left of the cursor and the blanks after it are cut into the kill slot |
| LineEditing.LineEditor.Yank | src/shell/line.rs:486-497 | the kill slot goes in at the cursor if it fits, and is kept |
| LineEditing.LineEditor.ApplyCompletion | src/shell/line.rs:124-144 | the word is replaced and the tail cut at a character boundary to fit |
| LineEditing.LineEditor.PushHistory | src/shell/line.rs:525-537 | a non-empty line that differs from the last is remembered, the oldest dropped past the cap |
| LineEditing.LineEditor.HistoryPrev | src/shell/line.rs:539-555 | the line in progress is stashed once and older entries come up |
| LineEditing.LineEditor.HistoryNext | src/shell/line.rs:557-573 | newer entries come up and then the stashed line |
| LineEditing.LineEditor.Redraw | src/shell/line.rs:606-623 | the bytes are a carriage return, prompt, line, erase, and the move back by the columns right of the cursor |
| LineEditing.Windows | src/shell/line.rs:632-637 | the sliding window finds a substring exactly when there is one |
| Terminal.PlayLine | src/shell/line.rs:606-623 | on any terminal between sequences, such bytes leave the row equal to the text and the cursor that many columns before its end |
| ShellRoundTrip.ScriptRoundTrip | src/shell/parser.rs:116-654 | a script is read back as it was written, each word in single quotes, in double quotes or with backslashes, as one likes: the same pipelines on the same conditions, the same commands, the same words; and no here-document opens |
| ShellRoundTrip.WordsRoundTrip | src/shell/parser.rs:116-654 | a line of words, each quoted in any of the three ways, is left whole by the comment, here-document, segment, pipeline and redirect scanners and tokenizes back to the words |
| ShellRoundTrip.QuotedPassed | src/shell/parser.rs:218-595 | every scanner steps over a word quoted in any of the three ways as one |
| ShellRoundTrip.SegmentsRejoin | src/shell/parser.rs:295-353 | the segments with their operators are the line |
| ShellRoundTrip.SegmentsResplit | src/shell/parser.rs:295-353 | no segment splits further |
| ShellRoundTrip.StagesRejoin | src/shell/parser.rs:358-393 | the stages joined with pipe characters are the segment |
| ShellRoundTrip.StagesResplit | src/shell/parser.rs:358-393 | no stage splits further |
| ShellRoundTrip.CommentIsGone | src/shell/parser.rs:218-266 | what is left of a line has no comment to strip |
| ShellRoundTrip.RedirectReads | src/shell/parser.rs:444-559 | a redirection to a quoted file behind quoted words is read as that, and the words stay |
| ShellRoundTrip.HeredocReads | src/shell/parser.rs:116-183 | a delimiter quoted in any of the three ways, behind quoted words, is read as the word itself, with expansion off |
| ShellRoundTrip.QuotedUnquotes | src/shell/parser.rs:188-207 | unquoting a word quoted in any of the three ways gives the word |
| ShellLaws.DoubleQuotesKeepBackslashes | src/shell/parser.rs:602-654 | in double quotes a backslash before anything but dollar, backtick, double quote and backslash stays, and the whole is one word to every scanner |
| ShellLaws.OperatorsSplit | src/shell/parser.rs:295-353 | two commands with `;`, `&&` or `&#124;&#124;` between them are two segments, the second on the condition of the operator |
| ShellLaws.PipeSplits | src/shell/parser.rs:295-393 | with a pipe between them they are one segment of two stages |
| ShellLaws.AmpersandIsData | src/shell/parser.rs:295-393 | with one ampersand between them they are one segment of one stage |
| ShellLaws.HashStartsComment | src/shell/parser.rs:218-266 | a hash behind a blank or at the start begins a comment, and one at the end of a word does not |
| ShellLaws.HashBehindOperator | src/shell/parser.rs:218-266 | and so does one right behind an operator or a pipe |
| ShellLaws.RedirectionsRead | src/shell/parser.rs:444-559 | any list of redirections (`1>`, `2>` or `&>`, to the start or the end of a quoted file, or after another stream) is read in order, each on its own stream, and the words before it stay |
| ShellLaws.BadTargets | src/shell/parser.rs:444-559 | another number to follow, or no target, is refused with the error for it |
| ShellLaws.PlainDelimiterExpands | src/shell/parser.rs:116-183 | a delimiter without quotes leaves expansion on |
| ShellLaws.HereStringOpensNothing | src/shell/parser.rs:116-183 | three arrows open no here-document |
| ShellLaws.SubstitutionIsPassed | src/shell/parser.rs:32-93 | `$(...)`, with anything quoted and any parentheses matched in it, is one piece to every scanner, in double quotes too, and its body is what is between the parentheses |
| ShellLaws.ArithmeticIsPassed | src/shell/parser.rs:32-93 | `$((...))` the same, marked as arithmetic |
| ShellLaws.BackticksArePassed | src/shell/parser.rs:32-93 | backticks the same, up to the next one |
| ShellLaws.LettersRead | src/shell/parser.rs:602-654 | plain words are split at the blanks between them, however many there are |
| ShellQuoting.CutAgain | src/shell/parser.rs:218-595 | what comes before the first stop of a scanner has no stop in it when scanned alone |
| ShellQuoting.SubstitutedOfPrefix | src/shell/parser.rs:32-93 | cutting a text short loses a substitution only when the cut goes through it |
| ShellQuoting.Substituted | src/shell/parser.rs:32-93 | the body of a substitution lies inside it: an arithmetic body never runs past its own start |
| ShellScanners.SubstitutionAt | src/shell/parser.rs:32-93 | the two scanning loops find the closing delimiter; the depth never drops below zero |
| ShellScanners.StripComment | src/shell/parser.rs:218-266 | the line up to the first unquoted `#` that begins a word |
| ShellScanners.SplitSegments | src/shell/parser.rs:295-353 | the pieces between unquoted semicolons, double ampersands and double bars, with what gates each |
| ShellScanners.SplitPipeline | src/shell/parser.rs:358-393 | the pieces between unquoted pipe characters |
| ShellScanners.SplitRedirects | src/shell/parser.rs:444-559 | the command text without the redirections, and these in order, or the error |
| ShellScanners.WordEnd | src/shell/parser.rs:563-595 | the first unquoted blank, `<` or `>` |
| ShellScanners.SplitHeredoc | src/shell/parser.rs:116-183 | the first unquoted `<<` that is no `<<<`, its delimiter, and the line without them |
| ShellScanners.Unquote | src/shell/parser.rs:188-207 | the word without its quoting |
| ShellScanners.Tokenize | src/shell/parser.rs:602-654 | the words of a line |
| Sftp.ConversationConserves | src/network/sftp.rs:155-203 | over every conversation without an oversized prefix, the frames handled, re-prefixed, and the bytes still buffered are all the bytes received, in order |
| Sftp.ChunkingIsIrrelevant | src/network/sftp.rs:155-203 | however the bytes are cut into calls, the same frames are handled |
| Sftp.SftpSession.Feed | src/network/sftp.rs:155-203 | every whole frame is handled once and in order; the replies and the uploads handed on are those that the handled requests make, in order; bytes are lost only to a prefix over 256 KiB; a whole frame is left only when the response cap stopped the call |
| Sftp.SftpSession.HandlePacket | src/network/sftp.rs:253-622 | one packet changes the handles and the counter as the specification of its request says |
| Sftp.SftpSession.WriteArm | src/network/sftp.rs:495-564 | what is stored, counted and hashed of a write, under the per-file and the session budget |
| Sftp.SftpSession.OpenArm | src/network/sftp.rs:406-471 | handles are refused at 64 or over budget, and otherwise given the next number |
| Sftp.SftpSession.CloseArm | src/network/sftp.rs:565-622 | the handle goes, its bytes come off the counter, and an upload is handed on |
| Sftp.SftpSession.IntoPendingUploads | src/network/sftp.rs:206-245 | when the channel closes, every open write handle that has received anything is handed on once, and each upload is bounded, hashed in full, and the replay of its writes unless truncated |
| Sftp.IdleIsEmpty | src/network/sftp.rs:222-222 | a write handle dropped at that point has been sent no bytes |
| SftpHandles.RunIsBounded | src/network/sftp.rs:406-622 | over every run: bytes held <= counter <= twice the cap; at most 64 handles; every upload is within its cap, counts and hashes every byte received, and unless marked truncated holds the zero-filled replay of its writes |
| SftpHandles.CounterIsExact | src/network/sftp.rs:142-151 | with fewer than 2^32 opens the counter is exactly the sum of what the open handles hold |
| SftpHandles.CounterBalances | src/network/sftp.rs:406-622 | over every run, however long: the counter is what the open handles hold and the bytes that opens have displaced by taking over a number in use |
| SftpHandles.CounterIsExactIff | src/network/sftp.rs:406-622 | at the end of any run the counter is exactly the sum of what the open handles hold exactly when no open took over the number of a handle that held bytes |
| SftpHandles.ReuseLosesCount | src/network/sftp.rs:247-251 | the counter stays exact over an open exactly when the number is free or its old handle holds nothing |
| SftpHandles.LiveNumberIsReused | src/network/sftp.rs:247-251 | a run: with one file open, 2^32 - 1 directories are opened and closed; the next open takes the file's number, and its byte stays on the counter with no handle that holds it |
| SftpHandles.ClosedUploadIsFaithful | src/network/sftp.rs:565-622 | a finished upload is bounded, hashed in full, and the replay of its writes unless truncated |
| SftpHandles.StoredReplays | src/network/sftp.rs:495-564 | a stored write extends the replay by that write |
| SftpUploads.TruncatedIff | src/network/sftp.rs:495-564 | over every run: an upload is marked truncated exactly when one of its writes since it was opened ended past the cap, or needed more growth than twice the cap less the counter at that time |
| SftpUploads.FinishedIffWhole | src/network/sftp.rs:565-622 | so is a finished one, and one that lost no write is the replay of its writes |
| SftpUploads.FittingUploadIsWhole | src/network/sftp.rs:495-564 | where the writes to a number end within the cap, and the extents of all that is open stay within twice the cap, the upload is not truncated and is the replay of its writes |
| SftpUploads.UploadRoundTrip | src/network/sftp.rs:406-622 | a file opened, written in any pieces one behind the other and closed is handed on under its path with all its bytes, and nothing of it is left |
| SftpUploads.UploadKeepsPath | src/network/sftp.rs:406-471 | over every run an upload has the path it was opened for writing with |
| SftpUploads.OpenSucceedsIff | src/network/sftp.rs:406-471 | exactly which opens get a handle, and which refusal the others get |
| SftpUploads.DirectoryOpens | src/network/sftp.rs:330-383 | a directory opened for listing holds nothing and hands nothing on |
| SftpUploads.DownloadIsTheFile | src/network/sftp.rs:472-494 | reading on from the start, however much at a time, gives the whole file |
| SftpUploads.ReadToTheEnd | src/network/sftp.rs:472-494 | reading on from anywhere gives the rest, then the end of the file, and changes nothing |
| SftpUploads.OpenedIsReadable | src/network/sftp.rs:433-471 | a file opened for reading that fits the session gets a handle from which it is read back |
| SftpUploads.WrongHandleFails | src/network/sftp.rs:472-622 | a number that is not open, or not for that, gets a failure and changes nothing |
| SftpUploads.OthersStay | src/network/sftp.rs:406-622 | a request leaves every handle as it is but the one it names or is given |
| SftpWire.DecodeInvertsEncode | src/network/sftp.rs:901-1021 | every request written with the codecs is decoded back, whatever follows it |
| SftpWire.GetPutU32 | src/network/sftp.rs:910-995 | a 32-bit number is read back, and the cursor is behind it |
| SftpWire.GetPutU64 | src/network/sftp.rs:914-1006 | the same for 64 bits |
| SftpWire.GetPutBytes | src/network/sftp.rs:918-1016 | the same for byte strings |
| SftpWire.SendPacket | src/network/sftp.rs:901-908 | a packet is one frame: length, type, payload |
| SftpWire.BigEndian | src/network/sftp.rs:910-916 | a number is sent with the most significant byte first |
| SftpWire.BigEndian64 | src/network/sftp.rs:910-916 | and so is a 64-bit one, high half first |
| SftpWire.RequestsAreNumbered | src/network/sftp.rs:14-24 | the type byte of each request |
| SftpWire.FramesUnique | src/network/sftp.rs:155-203 | a byte stream cuts into frames in one way |
| Scp.TransferIsReceived | src/network/scp.rs:136-219 | a transfer of well-formed lines, bodies and trailers, in any chunks: every file comes out once, in order, with its first bytes up to the cap, truncated exactly when there were more; one acknowledgement per line and per file |
| ScpTree.TreeIsReceived | src/network/scp.rs:136-219 | a recursive transfer of a tree of directories, in any chunks: every file comes out once, in order, with its own name, mode and data, and in the directories it was sent in exactly when it is not sent in, or later below the same top directory than, a directory nested more than 32 deep |
| ScpTree.Walk | src/network/scp.rs:188-219 | at every point of the walk the stack is the path, or it has lost a directory and stays behind until the walk is back at the top |
| ScpTree.ShallowIsNotAstray | src/network/scp.rs:200-205 | no file goes astray where nothing is nested too deep |
| ScpTree.DeepFileGoesAstray | src/network/scp.rs:200-210 | a file below a chain of directories goes astray exactly when there are more than 32 |
| Scp.AnyInputIsSafe | src/network/scp.rs:136-254 | on any bytes: every name emitted is harmless, every directory emitted is made of at most the depth cap of harmless names, every stored body is a bounded prefix, and what the sink holds is bounded |
| Scp.SafeNameIsHarmless | src/network/scp.rs:223-254 | whatever was announced, the name is non-empty and has no separator, control character or `..` |
| Scp.SafeNameIs | src/network/scp.rs:223-254 | what becomes of a name that is not harmless: a control character goes, a separator becomes an underscore, and so do two dots |
| Scp.HonestLineReads | src/network/scp.rs:223-254 | an honestly written control line is read as what it says |
| Scp.ChunkingIsIrrelevant | src/network/scp.rs:136-185 | feeding two chunks is feeding their concatenation |
| Scp.FedAllIsFed | src/network/scp.rs:136-185 | feeding any list of chunks is feeding their concatenation |
| Scp.ScpSink.Feed | src/network/scp.rs:136-185 | the loop over bytes computes the fold of single bytes |
| Scp.ScpSink.Control | src/network/scp.rs:188-219 | a control line moves the directory stack or opens a file |
| Limiter.BooksBalance | src/network/limiter.rs:63-108 | in every interleaving the counter is the sum of the per-peer counts, plus threads between the halves of acquiring, plus threads between the halves of releasing |
| Limiter.RunRespectsCaps | src/network/limiter.rs:63-108 | in every interleaving: the counter is within its cap; each peer's count is its live guards and within its cap; no decrement underflows; a peer is refused only with its cap's worth of live guards |
| Limiter.NoZeroEntryIff | src/network/limiter.rs:63-108 | every interleaving leaves no zero entry with a free mutex exactly when the per-peer cap is positive or the global one is zero |
| Limiter.NoZeroEntry | src/network/limiter.rs:63-108 | with a positive cap no zero entry is left when the mutex is free |
| Limiter.ZeroCapLeavesEntry | src/network/limiter.rs:72-90 | with a zero cap a refused peer leaves one |
| Limiter.AllDoneIsEmpty | src/network/limiter.rs:98-120 | when every thread is done the registry is as it was at the start |
| Limiter.StepKeepsInv | src/network/limiter.rs:63-108 | each atomic step of each thread keeps the invariant |
| Limiter.ConnectionRegistry.TryAcquire | src/network/limiter.rs:63-90 | granted exactly below both caps, and otherwise refused by the cap that is reached, the global one first; a granted connection is counted once, for its peer and in all; a refused one changes no count; the total stays the sum of the counts |
| Limiter.ConnectionRegistry.Release | src/network/limiter.rs:98-120 | dropping a guard takes back exactly what its acquisition counted, and the total stays the sum of the counts |
| Limiter.UninterruptedAcquire | src/network/limiter.rs:63-90 | the steps of the protocol, when one thread makes them in a row, grant and count exactly as the object does |
| Limiter.UninterruptedRelease | src/network/limiter.rs:98-108 | the same for releasing: three steps in a row take back one connection |
| Quarantine.BudgetsHold | src/network/ssh.rs:1047-1078 | in every interleaving of n sessions: what is counted plus what is admitted is at most max(initial, cap + (n-1) uploads), and each session counts at most 32 uploads |
| Quarantine.BudgetIsExact | src/network/ssh.rs:1104-1138 | that bound is reached, when every session loads the counter before any adds to it |
| Quarantine.GlobalCapHoldsIff | src/network/ssh.rs:1047-1078 | every interleaving keeps the counter within the global cap, or where it was if that is more, exactly when there is at most one session, uploads are empty, the cap is already used up, or all sessions' budgets together fit |
| Quarantine.UninterruptedUpload | src/network/ssh.rs:1047-1078 | an upload with nobody in between is stored and counted exactly when the session's budget and the global one have room for it |
| Quarantine.StepKeepsInv | src/network/ssh.rs:1047-1078 | each load, check and add keeps the invariant |
| Base64.RoundTrip | src/commands/text.rs:102-189 | encoding, with or without line wrapping, and decoding gives the bytes back |
| Base64.DecodeInvertsEncode | src/commands/text.rs:102-155 | any text that is an encoding with line breaks in it decodes to the data |
| Base64.Encode | src/commands/text.rs:102-125 | the loop writes the chunks' digits and padding |
| Base64.EncodedBits | src/commands/text.rs:102-125 | the digits spell the data's bits, padded with zeros |
| Base64.AlphabetIs | src/commands/text.rs:102-125 | the 64 digits in order |
| Base64.Decode | src/commands/text.rs:127-155 | fails exactly on an unknown character before any `=`, and otherwise returns the whole bytes its digits spell |
| Base64.Wrap | src/commands/text.rs:186-189 | wrapping only inserts line breaks |

## Left out

- LineBounds.KeysStayWithinThrice: what lossy UTF-8 decoding does to the length of a line is an assumption about the parameter that stands for it: the result is well formed, at most three bytes for one, and no longer than a line that was well formed.
- Vfs.Vfs.DeepCopy: where the source and what has the name are inside one another, or a cap refuses a node inside a directory, the contract says how far the copy reaches and what it keeps, not the value it leaves.
- Sftp.SftpSession.IntoPendingUploads: the order of the uploads is that of a hash map, and mirroring them into the tree is not part of this model.
- LineScreen.RunIsFaithful: keys are ASCII, prompts and completions are printable, and the terminal has no right margin, because the width of other characters and wrapping depend on the client; the editor itself is modelled on every byte.
- ArithLexer.EvalIsExact: which characters beyond ASCII are letters or numerals is a parameter.
- Limiter.RunRespectsCaps: the memory ordering of the atomic is not modelled; each atomic operation is one step.
- Quarantine.BudgetsHold: the 64-bit wrap-around of the shared counter is not modelled; it would take 2^64 bytes on disk.
- Sftp.SftpSession.Feed: an upload cap of more than 1 GiB, which configuration loading rejects, is outside the model.
- ShellScanners.SplitSegments: positions count characters where the code counts bytes; every character the scanners look for is ASCII.
- The generators of dynamic files are opaque values, and the wall clock is a parameter of the operations that stamp a node.
- UTF-8 decoding: of a control line in scp, of names in SFTP, and of a history entry with bytes beyond ASCII in the editor, is a parameter; a submitted line is handed on as its bytes, where the code decodes them; digests are modelled by the bytes fed to them.
- SFTP attributes, directory listings, messages and the requests that only ask the tree are opaque replies; what the filesystem answers and how long each response is are parameters.
- Archives hold byte strings; walking the tree to collect members, selecting them, compression and the warnings about dropped prefixes are not modelled.
- Variable expansion, the substitution of commands and `Shell` itself are not part of this model; the scanners are modelled on the raw line.
- The editor's `current_word`, a slice of the line that its caller reads.
- Sockets, timers, logging, configuration parsing, host keys, quarantine files and the emulated commands' output: input, output or constant text.
