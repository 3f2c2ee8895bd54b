# Terminal-state sidecar: models and proofs

A sidecar mirrors a PTY byte stream into a terminal engine, prints that mirror back as bytes so that
another terminal can take over, serves it as rows and deltas, archives it, and paints it onto surfaces
with damage tracking. This project models those parts in Dafny and proves what they promise:

- a terminal fed the printed mirror becomes the screen it was printed from (`Paint`, `Terminal`,
  `Emission`, `RowPainting`, `PrimaryRoundTrip`, `Rehydration`, `Recovery`), and an archive fed to a new
  shell's terminal ends up whole in its scrollback (`Parking`);
- the scanner in front of the engine works the same however its input is cut, always freezes the right primary
  screen, and sees just those sequences that open the alternate screen as they are usually written (`Mirror`,
  `Entries`, `HonestStreams`);
- rows, hashes, deltas and the baseline table let every viewer hold exactly the frame it was last served
  (`FrameRows`, `LineHash` over `Words`, `FrameDelta`, `Subscribers`, `Viewers`);
- snapshots, waits and checkpoints of a running session agree with its stream at every interleaving of
  critical sections (`Observation`, `Session`, `Registry`, `Handoff`, `LiveViewer`, `Archive`), and the checkpoint files
  keep their order across processes and crashes (`CheckpointRecord`, `CheckpointStore`);
- surfaces receive only the rows they are owed, and equal a full repaint, to the last pixel, exactly where the
  row hash tells pictures apart (`RowHash`, `Painter`, `Bands`, `SurfaceInput`), and glyphs keep their place on
  the atlas (`Atlas`).

`dafny verify dfyconfig.toml` checks everything. Nothing here was executed; the proofs are about the models.

## How to read it

Code that updates things step by step is a method or a class whose contract equates the result with a
function of the old state; the lemmas are about those functions. Concurrency is a relation between states,
one step for each critical section, and theorems quantify over whole runs of steps. The engine behind the
mirror is a function from the bytes it was fed to the screen it shows.

`Terminal` is an independent reference, byte by byte, for the sequences the printer emits: SGR (section
8.3.117 of ECMA-48), CUP (8.3.21), ED (8.3.39), CR (8.3.15), LF (8.3.74), UTF-8 (RFC 3629), deferred
wrap, and the xterm private modes including 1049. It fills scrolled and erased lines with default blanks,
records insert mode without acting on it, and takes the width of a character from a function that is a
parameter of every theorem.

What the theorems assume, each where it is named:

- `GoodRow`, `GoodCell`: rows are as wide as the screen, characters are printable, a wide character is
  followed by its spacer, a mark has width 0, and a spacer without a wide character stands only at the end
  of a wrapped row whose next row starts wide.
- `Honest` (in `Mirror`): the engine's alternate screen starts off, turns on only at a sequence the
  classifier recognises, and does not turn off at a byte an entry may begin with. Only the stream an engine was fed
  matters (`OneStreamIsEnough`): the reference terminal is an honest engine along any stream of text, control
  characters and control sequences in which no sequence that opens the alternate screen has more than 32 bytes of
  numbers (`HonestStreams.TerminalIsHonest`), and not along one that writes 1049 with a zero in front
  (`ZeroInFrontIsDishonest`). `SwitchingIsHonest` and `SwitchingSwitches` give an engine honest along every stream.
- `TidySpacers`, `CellsMarked`: spacers belong to wide cells or show nothing; marks can be told from
  characters. `MarksMustBeKnown` shows why the second is needed.
- `ToldApart`, `NoCollision`: the 64-bit hashes of the rows compared do not collide. The framing under the
  frame hash is proved injective, so only FNV-1a itself is trusted there, and not where rows differ in one letter or in
  the wrap flag alone: those are proved never to collide (`OneLetterIsSeen`, `WrapFlagIsSeen`, `TypingAlwaysArrives`).
- `Sound`: authenticated encryption and payload serialisation are inverse pairs, the former bound to its
  associated data.
- `Reports`, `Reported` (in `LiveViewer`): the screen an engine shows is what can be read of its terminal: lines,
  cursor, modes and cursor style. Nothing is assumed of its pen, an owed wrap or the sequence it is in.
- `Studio` (in `Painter`): the instances of a row are a function of its cells, decoration, palette, dim and of which
  glyph lookups succeed. The FNV hash of the cells is an arbitrary function; nothing is assumed of it. `Mixes` says
  that the row hash is mixed from it as `RowHash` does.

A session may start with any archive there, also one of its own generation that is ahead of it, as when the sidecar
is restarted on a live shell.

Where the code does less than its description, the code is modelled and the exact condition is proved:

- A wrapped row followed by a row that paints nothing loses its wrap, and so does a wrapped last row
  (`ShownExactlyWhenWrapsContinue`).
- The scanner compares the numbers of a private mode as text. A sequence that opens the alternate screen passes
  unseen if and only if its numbers take more than 32 bytes, or every number in it that opens the screen is written
  with zeros in front (`Entries.EntryIsMissedExactly`, `ZeroInFrontIsMissed`).
- Links are not painted, and a named colour of 16 or more is painted as the default; `StyleOf` says what
  a cell's painted style is.
- The flat alternate paint of the archive keeps a row's styles if and only if the row does not open in the
  rendition tracked from the row before (`FlatStylesExactly`, `FlatPaintLosesAStyle`).
- A rehydration holds what can be read of the engine's terminal. The pen, a wrap owed in the last column and a
  sequence the engine is in the middle of are in neither the paint nor the live bytes after it, and bytes the
  scanner still holds back, at most 35, are counted by the snapshot's sequence too. So a viewer is in the session
  terminal's state, and stays in it, if and only if the terminal is at rest (no sequence, plain pen, no owed wrap),
  nothing is held, and its wraps come back: on the primary screen every wrap continues, on the alternate screen no
  row is wrapped and the same holds of the primary screen under it (`LiveViewer.ViewerContinuesExactly`;
  `UnfinishedSequenceIsPrinted`, `PenIsLost`, `OwedWrapIsLost`, `HeldBytesAreMissing`). With a stale replay yet to be
  dropped, what is held must be just that replay.
- The same held bytes are missing from an archive: its engine had been fed everything up to the recorded sequence if
  and only if they lie beyond it, and for an archive recorded at its mirror's own sequence if and only if nothing
  was held (`ArchiveIsHonest`, `FinalCoversTheLastOutput`, `HeldBytesAreNotArchived`). The archive shows every printed
  cell of that engine's screen, and no pen, cursor, mode or unfinished sequence (`ArchiveShowsTheScreen`).
- Once the final notice is saved the archive is at or beyond the last output. If an earlier process of the same
  generation had archived a sequence that far already, its archive stays: it then holds that process's screen, not
  this one's.
- A restore of the same generation is said to resume at the cursor the checkpoint carries, which carries none. The
  cursor is left at the start of the line below the last one printed, or of the bottom line, and comes back if and
  only if it was there; modes, cursor style and pen are a fresh terminal's (`ResumedCursorExactly`,
  `ArchiveEndsOnAFreshLine`).
- A gap raises the frame signal past the mirror if and only if it ends beyond it (`GapSignalExactly`,
  `GapBreaksTheWait`); a session that takes over another's signal keeps the guarantee if and only if it starts
  at or after it (`SignalIsBehindExactly`).
- A stream that breaks off without an end can leave its last notice unsaved. Everything published is archived if
  and only if the worker was not merging a notice beyond the archive when it ended (`BreakingOffLosesExactly`,
  `BreakingOffLosesTheLastNotice`).
- The wrap flags of an alternate screen come back if and only if none of its rows has one
  (`AltLinesAreLinesExactly`).
- The row hash mixes revisions, cursor, composition and selection into the hash of the cells so that different
  rows collide, whatever the cells: selections of equal `31 * start + end`, cursors of neighbouring columns and
  different blinking, a cursor and a change of palette, compositions of equal sums of bytes. `RowHash` says exactly
  which inputs over the same cells collide. The painter then leaves a row as it was, and a target is a full
  repaint if and only if what it remembers and what the grid holds look like the present rows wherever their
  hashes agree (`EveryTargetAgreesExactly`, `UnfailedPaintsAgreeExactly`; `SelectionGoesStale`, `CursorGoesStale`,
  `CompositionGoesStale`, `PaletteGoesStale`, `StaleSelectionIsWrong`).
- A row is said to be redrawn when the atlas catches up. Which lookups succeed is in no hash, so a row built without a
  glyph stays without it until something else about the row changes (`MissingGlyphStays`, `OneDecorationIsAlike`).
- A paint that fails part-way is not remembered by its target. The same condition covers any number of failures;
  `FailedPaintGoesStale` and `FailedPaintOfASelection` give histories in which the next paint is wrong.
- Turns of the wheel that add up to the same do not always scroll the same: they do if and only if what they leave
  over is not of opposite signs, and else differ by one cell (`SameCellsExactly`, `ThereAndBack`).
- A count of cells is cast to 16 bits, so no surface is prepared if and only if a count is a multiple of 65536
  (`PreparedSurfaceIsReal`).
- 16-bit sums on an atlas page cannot overflow if and only if the page is at most 32767 wide
  (`SumsFitExactly`); the page in use is 1024 wide.

## Model

| member | source | states |
|---|---|---|
| `Paint.PushRow` | src/mirror.rs:680-707 | one row is pushed as its specified bytes, with the final rendition and the row's wrap flag |
| `Paint.PrintPrimary` | src/mirror.rs:709-722 | the line loop produces the specified primary paint |
| `Paint.PrintAlt` | src/mirror.rs:724-738 | the alternate loop, which takes back the address of a row that paints nothing, produces the specified paint |
| `Paint.PrintAltFlat` | src/mirror.rs:740-752 | the flat alternate paint: empty rows dropped from the end, the rest joined |
| `Paint.PrintModes` | src/mirror.rs:754-779 | the table walk emits each enabled mode in order |
| `Emission.SgrRestoresStyle` | src/mirror.rs:622-678 | whatever the pen was, an emitted rendition sets exactly the cell's style |
| `Emission.EqualSgrEqualStyle` | src/mirror.rs:694-698 | cells with equal parameter groups have equal styles, so leaving out a repeated rendition loses nothing |
| `Emission.FeedUtf8` | src/mirror.rs:699-704 | a printed scalar is read back as that scalar |
| `Emission.FeedCup` | src/mirror.rs:604-606 | a cursor address puts the cursor there and nothing else |
| `Emission.FeedModeSets` | src/mirror.rs:754-779 | on fresh modes the emitted switches reproduce all fifteen modes |
| `Emission.FeedCursorStyle` | src/mirror.rs:781-791 | the emitted style is the cursor style read back |
| `RowPainting.MarkJoins` | src/mirror.rs:702-704 | a zero-width character printed after a glyph becomes one more mark of that glyph |
| `RowPainting.FeedCells` | src/mirror.rs:680-707 | painting the first cells of a row draws exactly those cells, wide ones over two columns, and leaves the pen the printer tracks |
| `RowPainting.UnpaintedIsBlank` | src/mirror.rs:687-691 | what trimming leaves off looks like the blanks already there |
| `PrimaryRoundTrip.ShownExactlyWhenWrapsContinue` | src/mirror.rs:709-722 | the paint shows exactly the screen's lines, wrap flags included, if and only if every wrapped row is continued by a row that paints something |
| `PrimaryRoundTrip.PrintRows` | src/mirror.rs:709-722 | after any number of rows the terminal shows the lines the paint stands for, history included |
| `Rehydration.PrimaryScreenRoundTrip` | src/mirror.rs:354-371 | a fresh terminal fed a rehydration has the cursor, all modes and the cursor style, and all history and viewport lines if and only if wraps continue |
| `Rehydration.PrintAltRows` | src/mirror.rs:724-738 | addressed rows land on their own lines whatever the cursor did before |
| `Rehydration.AltLinesAreLinesExactly` | src/mirror.rs:724-738 | the rows printed at their addresses are the screen's lines, wrap flags included, if and only if no row is wrapped |
| `Rehydration.AltScreenRoundTrip` | src/mirror.rs:354-371 | the alternate rows, cursor, modes and style come back, with their wrap flags if and only if no alternate row has one, and leaving the alternate screen uncovers the frozen primary rows and cursor |
| `Rehydration.AnyPenWillDo` | src/mirror.rs:354-386 | whatever pen a terminal was left with, a rehydration and an archive do to it what they do with a plain one |
| `Parking.FlatStylesExactly` | src/mirror.rs:740-752 | a row of the flat paint is printed in its own styles if and only if it does not open in the rendition still tracked |
| `Parking.FlatPaintLosesAStyle` | src/mirror.rs:740-752 | two rows of one bold letter: the second is printed plain |
| `Parking.FlatInkInOwnStyles` | src/mirror.rs:740-752 | where every row opens afresh the flat paint holds every glyph of its rows in its own style |
| `Parking.AlternateIsArchived` | src/mirror.rs:373-386 | an archived alternate screen holds the frozen primary lines and its own rows, in their styles where its rows open afresh, and always if styles are not read |
| `Parking.ColdPaintInk` | src/mirror.rs:373-386 | feeding an archive writes every archived printed cell in order, in the style it is printed in, and nothing else |
| `Parking.ArchiveIsParked` | src/runtime.rs:720-735 | after an archive, one CRLF for each row, clear and home, at any size: the viewport is blank, the cursor is home, and the whole archive is in the scrollback in order and in the styles it was printed in |
| `Parking.ArchiveEndsOnAFreshLine` | src/mirror.rs:373-386 | whatever was archived, and at any size, the cursor ends at the start of a line with nothing on it or below, in a plain pen, with modes and cursor style untouched |
| `Mirror.ClassifyAltEnter` | src/mirror.rs:561-595 | the classifying loop agrees with reading the sequence one byte at a time |
| `Mirror.DecisionIsStable` | src/mirror.rs:561-595 | a decision is never revised by later bytes |
| `Mirror.UndecidedBytes` | src/mirror.rs:561-595 | an undecided sequence has at most 35 bytes and one ESC |
| `Mirror.EntryIsExact` | src/mirror.rs:561-595 | an entry is decided by its last byte and not before, whatever follows |
| `Entries.EnterExactly` | src/mirror.rs:561-595 | the bytes from an ESC on begin with an entry of a given length if and only if they are `[?`, at most 32 bytes of numeric fields of which one is 47, 1047 or 1049, and `h` |
| `Entries.UndecidedExactly` | src/mirror.rs:561-595 | they are undecided if and only if there are at most 35 of them, beginning as every entry does, with digits and separators after that |
| `Entries.NumbersDecide` | src/mirror.rs:561-595 | setting any list of numbers, whatever follows: the terminal opens the alternate screen if and only if 47, 1047 or 1049 is among them, and that is an entry of just these bytes if and only if they take at most 32 bytes |
| `Entries.EntryIsMissedExactly` | src/mirror.rs:587-594 | with any zeros in front: when a sequence that opens the alternate screen is not taken for an entry |
| `Entries.ZeroInFrontIsMissed` | src/mirror.rs:587-594 | one such sequence |
| `HonestStreams.TerminalIsHonest` | src/mirror.rs:311-346 | along any stream of text, control characters and control sequences the terminal switches screens only where the scanner expects it, as long as no opening sequence has more than 32 bytes of numbers |
| `HonestStreams.ZeroInFrontIsDishonest` | src/mirror.rs:311-346 | along a stream with a zero in front of 1049 it does not |
| `Mirror.OneStreamIsEnough` | src/mirror.rs:311-346 | for an engine that is honest along one stream there is one that is honest along all and shows the same along this one |
| `Mirror.HeldIsDetermined` | src/mirror.rs:311-346 | where the held bytes begin is determined by the bytes fed so far alone |
| `Mirror.SessionsStartWithAnEntry` | src/mirror.rs:327-340 | the alternate session in force began with a recognised entry met on the primary screen |
| `Mirror.RecoveryMirror.Feed` | src/mirror.rs:311-346 | everything fed is passed on in order or held, and the invariants on held and frozen are kept |
| `Mirror.RecoveryMirror.Rehydrated` | src/mirror.rs:354-371 | the output is the specified rehydration |
| `Mirror.RecoveryMirror.ColdPainted` | src/mirror.rs:373-386 | the output is the specified archive form |
| `Mirror.NothingIsLost` | src/mirror.rs:311-346 | over any run of feeds, log and held bytes together are exactly the input, and at most 35 bytes are held |
| `Mirror.ChunkingDoesNotMatter` | src/mirror.rs:311-346 | any two ways of cutting the same bytes into feeds give the same engine log, held bytes, rehydration and archive |
| `Mirror.FrozenThroughRuns` | src/mirror.rs:327-345 | over any run, on the alternate screen the frozen paint and cursor are the engine's just before the one entry that began this alternate session |
| `Recovery.PrimaryIsRecovered` | src/mirror.rs:311-371 | after any run of feeds ending on the primary screen, a fresh terminal recovers it from the rehydration |
| `Recovery.AlternateIsRecovered` | src/mirror.rs:311-371 | after any run ending on the alternate screen, it is recovered, and under it the primary screen as it was when this session began, if both have the same size |
| `Recovery.AlternateIsRecoveredAtAnySize` | src/mirror.rs:311-371 | whatever the sizes, the alternate screen is recovered, and under it every printed cell of the frozen primary screen in order, with its cursor held to the new size |
| `FrameRows.DefaultBlankExactly` | src/frame.rs:67-110 | a cell is a default blank exactly when what it shows is the default blank |
| `FrameRows.VisibleReads` | src/frame.rs:71-101 | what is sent of a cell reads back as its text, width, link and background, its foreground and each attribute by its wire value where there is ink or inverse video, and else only underline and strikeout |
| `FrameRows.ViewerReadsRow` | src/frame.rs:25-101 | a viewer that reads a row's runs back draws every cell in its own column, as above, and leaves out only cells that show nothing |
| `FrameRows.EncodeLine` | src/frame.rs:25-65 | the loop that grows runs in place produces the specified runs |
| `FrameRows.ExpandedLine` | src/frame.rs:25-65 | expanding an encoded row gives its visible cells without trailing default blanks; neighbouring runs differ in style, none is empty, and their widths add up |
| `FrameRows.SameRunsExactlyWhenSameCells` | src/frame.rs:25-110 | two rows have equal runs if and only if they show the same |
| `FrameRows.MarksMustBeKnown` | src/frame.rs:43-52 | without telling marks from characters two different rows have the same runs |
| `LineHash.Fnv.Byte` | src/frame.rs:121-124 | one byte folded into the running hash |
| `LineHash.FnvStepIsInjective` | src/frame.rs:121-124 | from one state different bytes lead to different states, and by one byte different states do |
| `LineHash.FnvVectors` | src/frame.rs:114-124 | two of the vectors published for FNV-1a |
| `LineHash.OneByteIsSeen` | src/frame.rs:121-130 | byte strings that differ in one byte only never hash alike |
| `LineHash.Fnv.Run` | src/frame.rs:136-153 | the fields of one run folded in order |
| `LineHash.HashLine` | src/frame.rs:133-156 | the hash is FNV-1a of the line's framed bytes |
| `LineHash.BytesOfOneRun` | src/frame.rs:133-156 | the bytes hashed of one row, spelled out |
| `LineHash.ColorNameReads` | src/mirror.rs:553-559 | colours are named `default`, `palette:` and a decimal number, or `#` and six lower-case hexadecimal digits |
| `LineHash.WrapFlagIsSeen` | src/frame.rs:133-135 | lines that differ in the wrap flag alone never hash alike |
| `LineHash.OneLetterIsSeen` | src/frame.rs:25-156 | rows that differ in one letter alone never hash alike, whatever else they hold |
| `LineHash.LineBytesDecodeUniquely` | src/frame.rs:133-156 | the bytes under two hashes are equal if and only if the wrap flags and run lists are |
| `LineHash.EncodedLineFits` | src/frame.rs:25-65 | the runs of every row a terminal can have fit the 16- and 32-bit fields |
| `LineHash.SameBytesExactlyWhenSameRow` | src/frame.rs:25-156 | two rows are hashed over the same bytes if and only if they show the same and wrap alike |
| `FrameDelta.FrameLines` | src/mirror.rs:526-532 | the lines of a frame are the encoded rows, numbered from the top |
| `FrameDelta.ReplyIsFullExactly` | src/frame.rs:210-247 | a reply is full if and only if there is no baseline or geometry or number of rows changed; its header, sequence and lines, and the fields of the next baseline |
| `FrameDelta.DeltaHolds` | src/frame.rs:228-240 | a delta carries exactly the lines whose hash is not the baseline's, in order |
| `FrameDelta.AppliedExactly` | src/frame.rs:249-264 | any reply folded into any picture gives the reply's header and sequence and lines in order: its last line for a number is there, lines of other numbers stay, nothing else comes in |
| `FrameDelta.Apply` | src/frame.rs:249-264 | the in-place fold, which overwrites the first slot with a line's number or appends, agrees with its specification |
| `FrameDelta.SortSorts` | src/frame.rs:262 | the final sort puts lines in order of number and keeps every line |
| `FrameDelta.FoldIsFullExactly` | src/frame.rs:210-264 | folding a reply into the picture its baseline describes gives the full frame if and only if the reply is full or the hash tells the rows apart; the new baseline describes it |
| `FrameDelta.ViewerSeesExactly` | src/frame.rs:210-264 | a viewer with a picture of the frame its baseline was taken of ends with the present frame's header, lines and sequence if and only if geometry or number of rows changed or the hash tells the rows apart |
| `Subscribers.FrameSubscribers.Oldest` | src/frame.rs:282-287 | the scan finds a subscriber with the least time stamp |
| `Subscribers.FrameSubscribers.Record` | src/frame.rs:278-292 | recording moves the subscriber to the front of the recency list and forgets the ninth |
| `Subscribers.TableHoldsTheMostRecent` | src/frame.rs:278-292 | after any history the table holds exactly the latest baselines of the at most eight most recently recorded subscribers |
| `Subscribers.KeptExactly` | src/frame.rs:278-292 | after any history a subscriber's last baseline is kept if and only if fewer than eight others have been recorded since |
| `Subscribers.OnlyRecorded` | src/frame.rs:278-292 | no one else has one |
| `Viewers.ViewersAgree` | src/runtime.rs:821-823 | over any interleaving of requests from any subscribers, with evictions and changes of geometry, each viewer's folded picture is exactly the full frame it was last served |
| `Viewers.LastFrameIsHeld` | src/runtime.rs:821-823 | so after a viewer's last request it holds that frame's header and lines under that sequence |
| `Viewers.NoCollisionTellsApart` | src/frame.rs:133-156 | if FNV-1a does not collide on the rows' bytes, the hash tells the rows apart |
| `Viewers.FnvViewersAgree` | src/runtime.rs:821-823 | if FNV-1a does not collide on the bytes of the rows served, every viewer of a server hashing with it holds exactly the full frame it was last served |
| `Viewers.TypingAlwaysArrives` | src/frame.rs:133-264 | with nothing assumed of FNV-1a: where each row changed in one letter at the most, the folded reply is exactly the next frame |
| `Viewers.FrameRequest` | src/runtime.rs:821-823 | one request against the stamped table answers with the delta of the kept baseline and records the new one, as the model without stamps does |
| `Viewers.CollisionKeepsTheOldRow` | src/frame.rs:231-240 | a row replaced by one with the same hash is not sent, and the viewer keeps the old one |
| `CheckpointRecord.PanesAreApart` | src/checkpoint.rs:69-74 | path keys and associated data differ between any two panes |
| `CheckpointRecord.RecordLayout` | src/checkpoint.rs:103-110 | every field of a written record is where reading looks for it |
| `CheckpointRecord.RecordAsStored` | src/checkpoint.rs:103-110 | the record byte by byte: magic, version, big-endian generation and sequence, nonce, sealed payload |
| `CheckpointRecord.AadAsSealed` | src/checkpoint.rs:178-184 | the associated data, spelled out |
| `CheckpointRecord.ReadExactly` | src/checkpoint.rs:120-164 | which files reading refuses, with which error, and what it gives of the others |
| `CheckpointRecord.ReadAfterWrite` | src/checkpoint.rs:120-164 | a written record reads back as what was written, and under another pane's data not at all |
| `CheckpointStore.CheckpointFiles.ClaimGeneration` | src/checkpoint.rs:113-118 | the lock file names the claimant and the archive is untouched |
| `CheckpointStore.CheckpointFiles.Remove` | src/checkpoint.rs:166-176 | neither owner nor archive is left; whether there was one is reported |
| `CheckpointStore.CheckpointFiles.Commit` | src/checkpoint.rs:201-217 | refused without ownership, skipped when behind, stored otherwise |
| `CheckpointStore.CheckpointFiles.Write` | src/checkpoint.rs:76-111 | what is committed is the record of the arguments |
| `CheckpointStore.ReadAfterWriting` | src/checkpoint.rs:76-164 | a write succeeds for the owner alone; a read after it gives back the arguments unless the archive already was as far, and a refused write changes no read |
| `CheckpointStore.AnsweredExactly` | src/checkpoint.rs:201-217 | from the bytes of both files: who may write, which error another gets, and when the archive is replaced |
| `CheckpointStore.OwnershipDecides` | src/checkpoint.rs:204-214 | the owner's write replaces another generation's archive whatever the numbers, and that generation's late writes are refused |
| `CheckpointStore.EveryStepAdvances` | src/checkpoint.rs:201-293 | at every step of any process, crashes included, the archive stays, is removed, or becomes the record of the owner's write beyond what was there |
| `CheckpointStore.SequenceNeverDecreases` | src/checkpoint.rs:201-217 | once the archive belongs to a generation its sequence never decreases until another claims or it is removed |
| `CheckpointStore.WritesEndAtTheGreatest` | src/checkpoint.rs:201-217 | at the end of any run under one owner no completed write is ahead of the archive, which holds one of them or what was there |
| `CheckpointStore.ReadsAreComplete` | src/checkpoint.rs:268-293 | a reader without the lock sees, at every moment, no archive, the one that was there first, or one complete committed record |
| `CheckpointStore.StepsMatchCommit` | src/checkpoint.rs:201-217 | run alone, the steps of a write do what the commit method does |
| `Session.StepFits` | src/runtime.rs:909-1046 | each critical section keeps mirror content, sequence, stale-replay flag and signal in agreement with the stream |
| `Session.RunFits` | src/runtime.rs:909-1046 | so does any run of any interleaving |
| `Session.EvictedConsumerStops` | src/runtime.rs:926-952 | a consumer whose session was evicted does nothing more, save for feeding an output it had checked before |
| `Session.ProgressGrowsOverRuns` | src/runtime.rs:940-966 | the mirror's sequence never goes back |
| `Session.EntryFollowsTheStream` | src/runtime.rs:948-1019 | over any run, gaps included, source sequence and signal are where the last output or gap ends, and every gap and stray opening is counted |
| `Session.FinalCarriesTheLastSequence` | src/runtime.rs:1020-1036 | the final notice carries where the last output or gap ends |
| `Observation.DrawnInPlace` | src/runtime.rs:919-974 | in a stream without gaps every output is drawn at its place, counted from the end of a dropped replay, and nothing besides |
| `Observation.ThroughExactly` | src/runtime.rs:948-966 | the sequence reached is where the last output ends |
| `Registry.SessionRegistry.TakeDropFlag` | src/runtime.rs:926-939 | the check at an output, and taking the stale-replay flag, for the owner alone |
| `Registry.SessionRegistry.PublishOutput` | src/runtime.rs:948-966 | source sequence and signal move together, for the owner alone |
| `Registry.SessionRegistry.NoteGap` | src/runtime.rs:1007-1019 | a gap is counted and moves source sequence and signal |
| `Registry.SessionRegistry.NoteOpened` | src/runtime.rs:1037-1044 | a stray opening counts as a gap, for the owner alone |
| `Registry.SessionRegistry.RemoveSessionIfOwner` | src/runtime.rs:833-842 | a consumer removes only its own session |
| `Registry.SessionRegistry.ApplyOutput` | src/runtime.rs:919-974 | an uninterrupted output checks, feeds or drops, and publishes |
| `Registry.SectionsExactly` | src/runtime.rs:833-1046 | what each critical section does to every key of the registry, field by field: removing takes just the owner's key out, a gap moves source and signal and counts one |
| `Registry.StepsAreSections` | src/runtime.rs:909-1046 | every step of the session model touches the registry as one of the critical sections does |
| `Registry.OthersDoNotTouch` | src/runtime.rs:926-934 | whatever consumers of other sessions still do under a pane's key, the session registered there keeps its fields |
| `Handoff.SnapshotContinues` | src/runtime.rs:438-449 | at any moment without a gap the mirror holds exactly its start and the stream through its sequence but for a dropped replay, and the live bytes from there continue it |
| `Handoff.BytesContinueExactly` | src/runtime.rs:442-460 | the bytes the engine had been fed and the live ones are exactly the session's if and only if the bytes held back are those still to be dropped |
| `LiveViewer.PrimaryViewerIsExact` | src/mirror.rs:354-371 | a viewer fed the rehydration of a primary screen is in the session terminal's very state if and only if that is at rest and its wraps continue |
| `LiveViewer.AlternateViewerIsExact` | src/mirror.rs:354-371 | and of an alternate screen, if and only if also no alternate row is wrapped, the primary screen under it owes no wrap, and its wraps continue |
| `LiveViewer.ViewerContinuesExactly` | src/runtime.rs:438-460 | at any moment without a gap a viewer is in the state of the session's terminal if and only if that is at rest, its wraps come back and nothing is held back; it then ends as that terminal does after any live bytes, and so it does with a replay outstanding if that is what is held |
| `LiveViewer.LostPenIsSeen` | src/mirror.rs:355 | a pen that is lost shows in the next character printed, if and only if it was not plain |
| `LiveViewer.UnfinishedSequenceIsPrinted` | src/mirror.rs:327-346 | an output that ends in ESC [ 3, of which nothing is held: the viewer prints the rest of the sequence |
| `LiveViewer.PenIsLost` | src/mirror.rs:354-371 | an output that ends in ESC [ 1 m: the session prints the next character bold, the viewer plain |
| `LiveViewer.OwedWrapIsLost` | src/mirror.rs:354-371 | an output that fills the last column: the session prints the next character on a new line, the viewer over the last one |
| `Handoff.HeldBytesAreMissing` | src/runtime.rs:442-449 | a run whose snapshot counts a held ESC without showing it |
| `Handoff.SignalIsBehindExactly` | src/runtime.rs:940-966 | without gaps the frame signal never passes the mirror's sequence, if and only if the session starts at or after a signal it takes over |
| `Handoff.WaitIsHonoured` | src/runtime.rs:758-820 | a frame taken after waiting for a sequence carries at least that sequence |
| `Handoff.GapSignalExactly` | src/runtime.rs:1007-1019 | at a gap the signal stays at or below the mirror's sequence if and only if the gap ends at or before it |
| `Handoff.GapBreaksTheWait` | src/runtime.rs:1007-1019 | a run in which a gap raises the signal alone |
| `Archive.Merge` | src/runtime.rs:1073-1092 | merging keeps the latest notice and never passes over a final one |
| `Archive.ArchiveIsHonest` | src/runtime.rs:1073-1111 | in a run without gaps the session's archive was always painted from an engine fed a prefix of what was drawn, at most 35 bytes short of it; that reaches the recorded sequence if and only if the bytes held back lie beyond it, and at its mirror's own sequence if and only if nothing was held |
| `LiveViewer.ArchiveShowsTheScreen` | src/runtime.rs:1098-1111 | such an archive shows, on a fresh terminal of any size, every printed cell of the screen its engine had |
| `Archive.FinalCoversTheLastOutput` | src/runtime.rs:1073-1111 | once the final notice is saved for the owner, the archive is recorded at or beyond the last output; its engine had been fed what the mirror's had, which is everything drawn if and only if nothing is held, or it is still the archive there at first, already as far |
| `Archive.HeldBytesAreNotArchived` | src/runtime.rs:1098-1111 | a run whose archive counts a held ESC without showing it |
| `LiveViewer.ResumedCursorExactly` | src/runtime.rs:720-724 | after a restore of the same generation of a primary screen the lines are those of the paint and an empty one, and the cursor is at the start of it; it comes back if and only if it was there |
| `Archive.BreakingOffLosesExactly` | src/runtime.rs:1081-1091 | for a worker that ends without a final notice, in any run without gaps under one owner: everything published is archived if and only if it was not merging a notice beyond the archive |
| `Archive.BreakingOffLosesTheLastNotice` | src/runtime.rs:1081-1091 | a run in which the stream breaks off while the worker merges, and nothing is saved |
| `Archive.CommitIsCommitted` | src/checkpoint.rs:201-217 | committing in the session model is committing to the checkpoint files |
| `Bands.Spans` | src/render/session.rs:1225-1239 | the spans are all the rows, cut into maximal runs |
| `Bands.RunEnd` | src/render/painter.rs:272-279 | the inner banding loop stops at the end of a run of adjacent rows |
| `Bands.SpansAreUnique` | src/render/painter.rs:270-294 | there is only one way to cut rows into maximal runs, so both banding loops agree |
| `Bands.BandWritesItsRows` | src/render/render_darwin.m:487-515 | painting a band writes exactly the pixels of its rows across the whole box, each with what a full repaint would put there |
| `Bands.PixelExactly` | src/render/render_darwin.m:487-515 | what belongs at a pixel: the background outside the grid, inside it the place in the cell that is there |
| `Bands.RowOfExactly` | src/render/render_darwin.m:548-556 | a line of pixels belongs to the row whose cells it crosses, or to the last row if it is below the grid |
| `Bands.OwedRowsAreWritten` | src/render/render_darwin.m:548-556 | the bands of some owed rows write exactly those rows' pixels, and the strip below the grid exactly when the last row is owed |
| `Bands.FreshTargetIsCovered` | src/render/render_darwin.m:548-556 | a fresh target is covered to its last pixel |
| `Painter.SurfacePainter.Invalidate` | src/render/painter.rs:300-304 | every row is owed again |
| `Painter.SurfacePainter.SetDim` | src/render/painter.rs:174-182 | a change of dim too small to count does nothing; any other is a new revision and owes every row |
| `Painter.DimmedExactly` | src/render/painter.rs:174-182 | the new dim is the amount brought between 0 and 1, under the next revision, unless it is within 2 to the power of -23 |
| `RowHash.Mix` | src/render/painter.rs:209-238 | the mixing, step by step over wrapping 64-bit words, is the specified value |
| `RowHash.CellsCollide` | src/render/painter.rs:209-238 | in one decoration and under one palette and dim two rows collide if and only if the hashes of their cells do |
| `RowHash.HeadsCollide` | src/render/painter.rs:210-226 | with the same cells, composition and selection: if and only if revisions and cursor are worth the same |
| `RowHash.RevisionsCollide` | src/render/painter.rs:210-211 | a change of palette alone and a change of dim alone never collide until the revision wraps around |
| `RowHash.CursorsCollide` | src/render/painter.rs:215-226 | two cursors are worth the same in one style exactly in one column, in one column exactly in one style and focus, and else exactly where the bits that tell the columns apart tell the marks apart |
| `RowHash.CursorOrNone` | src/render/painter.rs:215-226 | a cursor passes for none exactly where the column's sum wraps around to its mark, never on a real screen |
| `RowHash.SelectionsCollide` | src/render/painter.rs:235-238 | two selections collide if and only if 31 times the start plus the end is the same, whatever the cells |
| `RowHash.SelectionOrNone` | src/render/painter.rs:235-238 | a selection passes for none exactly for the cell hashes that make one sum wrap around to 0 |
| `RowHash.SelectionIsSeen` | src/render/painter.rs:235-238 | a selection whose 31 * start + end is not a multiple of 32 never passes for none |
| `RowHash.TailIsAffine` | src/render/painter.rs:227-238 | composition and selection multiply the hash by a power of 31 and add what they are worth over nothing |
| `RowHash.KeysCollide` | src/render/painter.rs:209-238 | any two keys over any cells mix to the same if and only if the words before wrapping around differ by a multiple of 2 to the power of 64 |
| `RowHash.TailsCollide` | src/render/painter.rs:227-238 | with the same cells and head, compositions and selections of as many steps collide if and only if they are worth the same over nothing |
| `RowHash.KanaCollide` | src/render/painter.rs:227-234 | two kana composed in one place collide |
| `RowHash.BlinkingNextDoorCollides` | src/render/painter.rs:215-226 | a steady cursor in any odd column collides with a blinking one in the next |
| `RowHash.UnderlineFurtherOnCollides` | src/render/painter.rs:215-226 | a steady block in column 0 collides with a steady underline in column 16 |
| `RowHash.RevisionHidesACursor` | src/render/painter.rs:210-226 | an underline in column 32 under the first palette collides with no cursor under the second |
| `Painter.SurfacePainter.Refresh` | src/render/painter.rs:187-252 | the rows whose hash moved, computed by the mixing, are rebuilt, after a changed palette owed them all |
| `Painter.SeenExactly` | src/render/painter.rs:202-248 | from the fields of the view: what a row is refreshed from, and that nothing else is |
| `Painter.ResolvedExactly` | src/render/instances.rs:54-72 | the resolved palette has each colour the program has set and the base's others |
| `Painter.RefreshBuildsWhatIsSeen` | src/render/painter.rs:187-252 | after a refresh each row has the hash of what is seen of it, and is rebuilt from that unless it had that hash in unchanged colours |
| `Painter.FullRepaintShows` | src/render/painter.rs:187-298 | a full repaint of a view of any number of rows shows in each row what is seen of it |
| `Painter.FirstPaintShows` | src/render/painter.rs:187-298 | so does the first paint of a fresh target by a fresh painter |
| `Painter.SurfacePainter.PaintInto` | src/render/painter.rs:256-298 | band by band, the target becomes what the owed rows make of it, and those rows are returned; a target of another size is refused unchanged; if the kernel refuses a band, those before it are on the surface and none is remembered |
| `Painter.PaintAfterRefreshIsFullRepaint` | src/render/painter.rs:187-298 | after a refresh, painting any target leaves it equal to a full repaint if and only if every row agrees: what the target shows under the present hash, or else what the grid held under it, looks like the row |
| `Painter.OnlyOwedRowsAreTouched` | src/render/painter.rs:264-269 | the rows returned are exactly those whose hash moved for this target, and no other row is touched |
| `Painter.EveryTargetAgreesExactly` | src/render/painter.rs:187-304 | over any history of refreshes, palettes, dims, invalidations and paints of any targets, failed ones included, a paint after a refresh equals a full repaint if and only if every row agrees, and leaves the other targets alone |
| `Painter.UnfailedPaintsAgreeExactly` | src/render/painter.rs:187-304 | without failed paints: if and only if in every row the present key looks like the remembered key and the grid's key wherever their hashes agree |
| `Painter.OneChangeCollides` | src/render/painter.rs:209-238 | what a change of cells, palette, dim, cursor, selection, glyph lookups, or composition of as many bytes alone takes to collide |
| `Painter.SelectionAppears` | src/render/painter.rs:235-238 | a selection that appears or goes away is missed exactly for the cell hashes that make one sum wrap around to 0 |
| `Painter.AnyKeysCollide` | src/render/painter.rs:209-238 | what any two keys take to collide, as where a composition appears, grows, or takes the cursor's place |
| `Painter.OneDecorationIsAlike` | src/render/painter.rs:453-487 | in one decoration two rows are told apart unless their cells' hashes are equal and they build differently with the lookups each was built with |
| `Painter.SelectionGoesStale` | src/render/painter.rs:235-241 | a selection of columns 0 to 40 changed to 1 to 9 is not repainted, whatever the cells |
| `Painter.StaleSelectionIsWrong` | src/render/painter.rs:235-241 | a builder for which the surface then differs from a full repaint |
| `Painter.CursorGoesStale` | src/render/painter.rs:215-226 | a steady cursor in column 1 that becomes a blinking one in column 2 is not repainted |
| `Painter.CompositionGoesStale` | src/render/painter.rs:227-241 | a composition of one kana changed to another is not repainted |
| `Painter.MissingGlyphStays` | src/render/painter.rs:239-249 | a row built while a glyph lookup failed is not rebuilt when it would succeed |
| `Painter.PaletteGoesStale` | src/render/painter.rs:195-226 | a row whose underline goes away together with a change of the background keeps the old colours |
| `Painter.FreshTargetIsOwedEverything` | src/render/painter.rs:18-22 | a fresh target is owed every row |
| `Painter.NothingChangedNothingOwed` | src/render/painter.rs:264-297 | a second paint with nothing between owes no row and changes nothing |
| `Painter.FailedPaintGoesStale` | src/render/painter.rs:280-297 | a change whose paint fails and which is taken back stays on the surface after the next paint |
| `Painter.FailedPaintOfASelection` | src/render/session.rs:1150-1153 | one such history: a selection grown by a column, a dropped failure, and the selection shrunk back |
| `SurfaceInput.SideFits` | src/render/session.rs:932-938 | no further cell would fit a side counted in 16 bits; where one fits at all and the pixels are counted in 32 bits, the surface is exactly the box |
| `SurfaceInput.RoundedExactly` | src/render/session.rs:1008-1014 | lengths are rounded to the nearest pixel, and away from zero from half way |
| `SurfaceInput.CountsExactly` | src/render/session.rs:932-1014 | what counts of cells and pixels are kept after the casts, for any length |
| `SurfaceInput.PreparedSurfaceIsReal` | src/render/session.rs:994-1014 | a surface is prepared if and only if neither count of cells is a multiple of 65536; then it holds its grid, and is exactly the box where a cell fits each way |
| `SurfaceInput.WheelAxis.Turn` | src/render/session.rs:677-694 | one axis of the wheel accumulator |
| `SurfaceInput.WholeExactly` | src/render/session.rs:687-692 | whole cells are counted towards zero and held to 32 bits |
| `SurfaceInput.TurningIsConserved` | src/render/session.rs:687-694 | cells given out and what is left over add up to everything turned |
| `SurfaceInput.SameTurnSameCells` | src/render/session.rs:687-694 | however a turn forward is cut into events it scrolls the same number of cells |
| `SurfaceInput.SameTurnBackSameCells` | src/render/session.rs:687-694 | and so does a turn back |
| `SurfaceInput.AnyTurnsWithinACell` | src/render/session.rs:687-694 | turns to and fro that add up to the same scroll the same but for one cell, however they are cut |
| `SurfaceInput.SameCellsExactly` | src/render/session.rs:687-694 | of any such turns: they scroll the same number of cells if and only if what they leave over is not of opposite signs |
| `SurfaceInput.ThereAndBack` | src/render/session.rs:687-694 | half a cell forward, and a cell forward and half a cell back |
| `Atlas.AtlasPage.Place` | src/render/atlas.rs:65-87 | the 16-bit shelf allocator agrees with its specification, and every rectangle placed stays on the page and apart from the others |
| `Atlas.NextSpotExactly` | src/render/atlas.rs:65-87 | after any requests the next goes right of the last if that leaves it on the page, else to the left edge below all given so far, and is refused if and only if neither leaves it on the page |
| `Atlas.SameSizeFillsTheGrid` | src/render/atlas.rs:65-87 | requests of one size fill the page column by column and row by row, and every one after that is refused |
| `Atlas.SumsFitExactly` | src/render/atlas.rs:69-79 | 16-bit sums never overflow if and only if the page is at most 32767 wide |
| `Atlas.GlyphAtlas.Ensure` | src/render/atlas.rs:120-138 | a known key returns its slot; a new one is rastered, placed and uploaded once; failures keep the other slots |
| `Atlas.AnswerExactly` | src/render/atlas.rs:120-138 | after any requests: which answer the next gets, and that a refused one changes nothing |
| `Atlas.ServedGlyphStays` | src/render/atlas.rs:120-138 | a glyph once served keeps its slot and bearings, and the page shows its bitmap there row by row, whatever is requested later |
| `Atlas.EnsuredIsFaithful` | src/render/atlas.rs:120-138 | every slot keeps showing its raster, whether an upload succeeds or spoils its own rectangle |
| `Atlas.SlotsArePermanent` | src/render/atlas.rs:120-138 | a slot once returned keeps its place and picture through any later requests |
| `Atlas.RectanglesStayApart` | src/render/atlas.rs:65-87 | over any requests and failures all placed rectangles are on the page and pairwise disjoint |

## Left out

- Mirror resize: what an engine shows after a resize is its own reflow, which is not part of this model; the frozen paint then stays at the old size.
- Recorded modes applied before a restore, and mode reports: their codec is not part of this model, and they are taken as absent.
- Session replacement: a replaced consumer may still feed the shared mirror between its two checks, so only the isolation of registry fields is claimed across a replacement, and content within one session.
- Sockets, JSON envelopes, tokens, leases, threads as system objects, panic logs and service binding: plumbing around the critical sections.
- Time: deadlines, debounce and blinking are choices any step may make; nothing is said about how soon something happens.
- AES-GCM, SHA-256 and the payload's serialisation: abstract inverse pairs; digests in file names are taken as distinct.
- Disk errors inside a commit: they act like the crash steps of the checkpoint model; a reader's own I/O errors are not modelled.
- Terminal engine internals, selection, pointer routing, hyperlink identity, theme parsing and the surface contract: outside the printed, served and painted forms.
- Metal, CoreText, IOSurface and the ring of surfaces: the ring is an arbitrary choice among any number of targets, and of the kernel only where it writes and which cell it reads are modelled, not the mixing of colours.
- Wheel routing and the clamp of the scroll offset: only the accumulator is modelled, over reals; the rounding of floating-point numbers is not.
- Counters of 64 bits (ticks, sequences in the session model) are unbounded; the checkpoint record's words, the painter's hashes and revisions, the cell counts and the atlas coordinates have their widths.
- The FNV hash of a row's cells in the painter: an arbitrary function of the cells without their wrap flags; its bytes are not framed apart by the code, and nothing is claimed about when it collides.
- A failed paint stops between two rows: a row is taken as drawn whole or not at all.
- Recovery.AlternateIsRecovered: for a screen of one size since its entry; after a change of size the terminal reflows the frozen paint, and `AlternateIsRecoveredAtAnySize` speaks of its printed cells.
- LiveViewer.ViewerContinuesExactly: for an alternate screen of one size since its entry, as above.
- Parking.ColdPaintInk: one column prints no wide glyph, and its marks join the glyph before; there, rows with wide glyphs are read without wide glyphs and marks.
- Parking.ArchiveIsParked: as above, in one column.
