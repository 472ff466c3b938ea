# esh — a verified model of the embedded shell's core

esh is a line-editing shell for small embedded systems. It has no allocator
requirements and no terminal library. The application feeds it received
bytes one at a time through `esh_rx`. esh keeps the line being edited in a
fixed buffer and handles the arrow, Home and End escape sequences. It keeps a
ring of previous commands that Up and Down browse. On Enter it splits the line
in place into an `argc`/`argv` pair, honouring single and double quotes, and
hands that pair to a registered command callback. When the line or the
argument array overflows, an overflow callback gets the buffer instead. Two
Rust crates wrap the C engine. One hands arguments to Rust as byte slices
through a bounds-checked accessor. The other converts the `argv` pointer array
in place into an array of `&str` views.

This project models that core in Dafny:

- **`ArgParser`, `ParseArgs`** (`esh_argparser.c`) — the tokenizer.
  - `ArgParser` gives a reference meaning: the line is lexed into gaps (one
    per space) and chunks (a plain byte or the body of a quoted run). The
    rewritten buffer is the concatenation, and the words are the maximal runs
    of chunks.
  - `ParseArgs` follows the in-place C loop, with `consume_quoted`, and proves
    it equal to that meaning.
- **`History`, `HistoryProps`** (`esh_hist.c`) — the NUL-separated history
  ring: `init_buffer`, `modulo`, `esh_hist_add`, `esh_hist_nth` and
  `for_each_char`.
  - Each is a pure function, plus a method that mirrors the C loop and is
    proved equal to it.
  - The properties cover adding then retrieving, a fresh ring having no
    entries, and how the ring shifts after an add. An invariant bounds every
    stored entry so that loading it never overruns the edit buffer.
- **`HistBuffer`, `HistDisabled`** (`esh_hist.c`, `esh_hist.h`).
  - `HistBuffer` models `clobber_cb`, `clobber_buffer` and
    `esh_hist_substitute`, which copy a browsed entry into the edit buffer.
  - `HistDisabled` models the placeholders used when history is compiled out.
    They are shown to answer exactly as a ring with no entries does.
- **`EshState`, `Editor`, `EditorProps`, `Instances`** (`esh.c`) — the
  instance record, the static instance pool, callback registration, and
  `esh_rx` with every handler it reaches.
  - Each handler is a pure step. It either faults (the C code would index
    outside its buffer) or returns the next record and the callbacks it
    fired.
  - `EditorProps` proves that the editor's invariant survives every byte of
    input in the corrected build.
  - `EditorFindings` exhibits the inputs on which the code as written leaves
    its buffer.
- **`CMem`, `CallbackArgs`, `RustArgs`, `RustViews`** (`esh_rust/src/lib.rs`,
  `esh_rust/src/esh/lib.rs`) — byte memory, `strlen`, the argument accessor,
  `map_argv_to_slice`, the callback trampolines and `Esh::init`.
  - Reading each `argv` pointer through memory yields exactly the
    corresponding word of the line.
  - Every such word is valid UTF-8, which is what makes the binding's
    `from_utf8_unchecked` sound.

`EshState.Build` selects between the code as written (`AsWritten`) and the
corrected code (`Fixed`) at the editor and pool places listed under
"## Findings". The two agree everywhere else. The `argv` storage finding
compares two storages instead. The configuration (`Config`) uses the example values
the crate documentation gives:
- a 200-byte buffer;
- 10 arguments;
- one static instance;
- a 512-byte history ring.

## Model

| member | source | states |
|---|---|---|
| ArgParser.FindQuote | esh_argparser.c:45-54 | the index where a quoted run stops lies between its start and the line's end, and holds the closing quote when it is inside the line |
| ArgParser.FindQuoteFirst | esh_argparser.c:45-49 | no byte before the stopping index is the closing quote, so the run ends at the first matching quote |
| ArgParser.FindQuoteAt | esh_argparser.c:45-49 | conversely, any index that holds the quote (or is the end) with no quote before it is the stopping index |
| ArgParser.WordEnd | esh_argparser.c:64-84 | a word extends over consecutive chunks and stops at the first gap or at the end |
| ArgParser.QuotedRun | esh_argparser.c:76-77 | a closed quoted run lexes to one chunk holding its body without the quotes, and lexing resumes after the closing quote |
| ArgParser.OpenQuotedRun | esh_argparser.c:45-54 | an unclosed quote takes the rest of the line as its body |
| ArgParser.LexFromSuffix | esh_argparser.c:64-84 | lexing depends only on the bytes from the current position onwards |
| ArgParser.WordsAtStarts | esh_argparser.c:70-75 | the argument starts it records, read as C strings in the rewritten buffer plus its terminator, spell exactly the words |
| ArgParser.NoWordsIffBlank | esh_argparser.c:64-68 | a line has no arguments if and only if it consists of spaces only |
| ArgParser.TokenizeKeeps | esh_argparser.c:64-84 | every byte of every argument is a byte of the line, so any property of all line bytes holds of all argument bytes |
| ArgParser.RewriteLength | esh_argparser.c:38-39 | the rewritten line is never longer than the line, and strictly shorter when the line contains a quote |
| ArgParser.RewriteWithoutQuotes | esh_argparser.c:64-81 | without quotes, rewriting only turns each space into a NUL and keeps every other byte in place |
| ArgParser.TokenizeSpace | esh_argparser.c:65-68 | a leading space adds no argument and becomes one NUL |
| ArgParser.TokenizeQuoted | esh_argparser.c:76-77 | a closed quoted run before a space or the end is one argument, its body |
| ArgParser.TokenizePlainWord | esh_argparser.c:78-81 | a run of plain bytes before a space or the end is one argument, copied unchanged |
| ArgParserExamples.GitConfig | esh_argparser.h:43-45 | the documented example: four arguments, and the buffer `git###config#user.name#My Name#` |
| ArgParserExamples.GluedQuotes | esh_argparser.h:50-52 | the documented example: quoted runs glued to a word make a single argument, and the buffer shrinks |
| ArgParserExamples.ThreeWordsThenQuoted | esh_argparser.c:64-86 | a line of three plain words, repeated spaces and a quoted run gives those four arguments and that buffer |
| ArgParserExamples.TwoWordsThenQuoted | esh_argparser.c:64-86 | two words and a quoted run give three arguments |
| ArgParserExamples.QuotedAlone | esh_argparser.c:76-77 | a line that is one quoted run gives its body as the only argument |
| ArgParserExamples.WordThenSpace | esh_argparser.c:65-81 | a trailing space ends the word and adds no argument |
| ArgParserExamples.TripleSpace | esh_argparser.c:65-68 | three spaces give no argument and three NULs |
| ArgParserExamples.GluedRuns | esh_argparser.c:76-82 | a word followed directly by three quoted runs is one argument, their concatenation |
| ParseArgs.Parse | esh_argparser.c:58-88 | `esh_parse_args` returns the number of words (even past `ESH_ARGC_MAX`) and rewrites the buffer's prefix to the rewritten line, NUL-terminated, with the last byte forced to NUL. It leaves later bytes alone, records at most `ESH_ARGC_MAX` starts and leaves the remaining `argv` slots untouched; the recorded starts read back as the first words |
| ParseArgs.ConsumeQuoted | esh_argparser.c:41-55 | copying a quoted run moves the source to the closing quote (or the end), copies exactly the body down to the destination, and leaves every byte before the destination and from the new destination on unchanged |
| ParseArgs.OpenArgument | esh_argparser.c:70-75 | after a space, the next byte opens an argument: the count grows by one and the start is stored only while a slot is left |
| ParseArgs.ScanStep | esh_argparser.c:64-83 | one iteration of the scan keeps the correspondence between the bytes consumed so far and the reference lexing |
| ParseArgs.QuoteStep | esh_argparser.c:76-77 | the quote branch of one iteration keeps that correspondence |
| ParseArgs.ParseArgsInPlace | esh_argparser.c:58-88 | the in-place loop computes exactly `Parse`: the same buffer, count and `argv` |
| History.Modulo | esh_hist.c:51-55 | the C remainder corrected into `[0, m)`, which equals the mathematical residue for every sign of `n` |
| History.Fwd | esh_hist.c:160-162 | stepping forwards around the ring stays in the ring |
| History.Back | esh_hist.c:143-146 | stepping backwards around the ring stays in the ring |
| History.InitBuffer | esh_hist.c:41-45 | a fresh ring holds one NUL at the start and the fill byte everywhere else |
| History.HistInit | esh_hist.c:119-125 | static initialisation never fails and leaves a valid ring with exactly one NUL |
| History.Add | esh_hist.c:158-180 | an add overflows if and only if the string plus its NUL does not fit; on overflow the ring is reset. Otherwise the string and a NUL follow the old tail, the tail moves to that NUL, and the rest of the ring is untouched |
| History.AddInPlace | esh_hist.c:158-180 | the C loop computes exactly `Add` |
| History.Scan | esh_hist.c:143-146 | the bytes the lookup visits are the ring read backwards from just before the tail, omitting the two slots after it |
| History.Nth | esh_hist.c:141-155 | the lookup answers -1, or an offset just after a NUL; it never answers the two slots after the tail, and a negative count finds nothing |
| History.NthInPlace | esh_hist.c:141-155 | the C loop computes exactly `Nth` |
| History.ScanBack | esh_hist.c:143-154 | the backward walk from the slot before the tail to the slot after it, skipping `n` terminators, answers what the recursive walk `NthFrom` answers from the first slot |
| History.NthFromNuls | esh_hist.c:146-154 | a walk that skips `m` terminators ends just after the `m`-th terminator ahead of it, and answers -1 when there are not that many (always, for a negative `m`) |
| History.Entry | esh_hist.c:72-86 | the entry at an offset is the NUL-free run of ring bytes from there up to the next NUL |
| History.ForEachChar | esh_hist.c:72-86 | the loop feeds the callback exactly the entry's bytes, in order, until it asks to stop |
| HistoryProps.AddThenNth | esh_hist.c:158-180 | after a successful add, the most recent entry is the string just added |
| HistoryProps.InitHasNoEntries | esh_hist.c:41-45 | a fresh ring has no n-th entry for any n |
| HistoryProps.InitTidy | esh_hist.c:41-45 | a fresh ring satisfies the bounded-entry invariant |
| HistoryProps.AddKeepsTidy | esh_hist.c:158-180 | adding a printable line shorter than the buffer keeps the bounded-entry invariant |
| HistoryProps.LinAfterAdd | esh_hist.c:158-180 | read from the tail, the ring after an add is the old ring shifted left by the string's length plus one, followed by the string and its NUL |
| HistoryProps.NthEntryFits | esh_hist.c:196-201 | under the invariant, every entry the lookup finds is printable and shorter than the edit buffer |
| HistoryProps.TidyTailNul | esh_hist.c:176 | under the invariant, the tail slot holds a NUL |
| HistBuffer.ClobberCb | esh_hist.c:92-98 | the copy callback stores the byte at `cnt` and advances `cnt` and `ins`; past the buffer's end it faults; it never asks to stop |
| HistBuffer.ClobberFold | esh_hist.c:92-98 | copying a string through the callback puts it at `cnt` and advances by its length when it fits; otherwise it faults at the buffer's end |
| HistBuffer.ClobberBuffer | esh_hist.c:107-116 | an offset outside the ring changes nothing; otherwise the line becomes the entry at that offset, with the cursor at its end and later bytes kept |
| HistBuffer.Load | esh_hist.c:199-201 | loading an entry that fits makes it the line, NUL-terminated. With no entry selected the line stays and is only terminated, which faults in the as-written build when the line has overflowed |
| HistBuffer.Substitute | esh_hist.c:196-207 | while browsing, the selected entry replaces the line and browsing stops (answer true); otherwise nothing changes (answer false) |
| HistDisabled.StubInit | esh_hist.h:135-139 | the placeholder init changes nothing and reports no error |
| HistDisabled.StubNth | esh_hist.h:141-146 | the placeholder lookup never finds an entry |
| HistDisabled.StubAdd | esh_hist.h:148-153 | the placeholder add always reports overflow and stores nothing |
| HistDisabled.StubForEachChar | esh_hist.h:155-161 | the placeholder walk behaves as a walk over the empty entry |
| HistDisabled.StubSubstitute | esh_hist.h:180-184 | the placeholder substitution changes nothing and answers false |
| HistDisabled.StubNthIsEmptyRing | esh_hist.h:141-146 | the placeholder lookup agrees with the real lookup on a fresh ring, for every count and browse index |
| HistDisabled.StubAddIsOverflow | esh_hist.h:148-153 | the placeholder add agrees with the real add of a string too long for the ring, in answer and in later lookups |
| HistDisabled.EmptyRingNeverBrowses | esh_hist.h:180-184 | with an empty ring, Up stays on the line and substitution is the placeholder's |
| EshState.Held | esh.c:230-235 | the number of line bytes the buffer holds is the count, capped at the buffer length once it has overflowed |
| EshState.Restore | esh.c:419-426 | `esh_restore` NUL-terminates the line at `cnt` and changes nothing else, so the buffer reads back as the line; with `cnt` one past the buffer it writes out of bounds (as written) or leaves it (fixed) |
| Editor.Insert | esh.c:223-224 | inserting at the cursor shifts the tail right by one, places the byte, and advances count and cursor |
| Editor.Delete | esh.c:257-263 | deleting before the cursor shifts the tail left by one and moves count and cursor back; at the start of the line the shift writes before the buffer |
| Editor.InsDel | esh.c:475-497 | `ins_del` inserts a non-NUL byte at the cursor, or deletes before it on NUL, keeping everything past the line. A NUL-free line stays NUL-free; a delete at the start faults |
| Editor.CursorMove | esh.c:456-467 | after substitution, the cursor moves by `n`, clamped to the line, or to the start or end |
| Editor.Park | esh.c:226-235 | on overflow the count sits one past the buffer, which keeps its bytes and gets a NUL at its end |
| Editor.HandleChar | esh.c:219-237 | it fails exactly when substituting a browsed entry does. On the substituted line, a printable byte is inserted before the cursor when there is room; otherwise the line is parked in the overflow state. Nothing else changes, and browsing always stops |
| Editor.CommandIsNopScan | esh.c:338-346 | the loop answers true exactly when the line up to its NUL is all white space |
| Editor.Complete | esh.c:358-383 | completing a line empties it and keeps flags, callbacks and browse index, firing at most one callback |
| Editor.ExecuteCommand | esh.c:353-383 | `execute_command` is substitution followed by completion; it ends with an empty line, no browsing and at most one callback |
| Editor.HandleCtrl | esh.c:243-268 | ESC starts an escape; ^C empties the line; newline executes; backspace and DEL delete before the cursor; any other control byte changes nothing |
| Editor.Backspace | esh.c:257-263 | on the substituted line, when it is non-empty and not overflowed, backspace deletes the byte before the cursor, with count and cursor each one less. At the start of the line it faults as written and does nothing when fixed. On an empty or overflowed line nothing changes |
| Editor.Browse | esh.c:294-312 | Up steps back only while an older entry exists; Down steps forward, and from the newest entry returns to the line and restores it |
| Editor.EscFlags | esh.c:278-291 | a digit enters the numeric state; inside a numeric escape, only `~` or a letter ends it; anything else ends the escape |
| Editor.Key | esh.c:293-330 | A and B browse history, and C, D, H and F move the cursor by their `KeyMotion`. Every other byte does nothing. A key keeps the escape flags the caller set and keeps the line NUL-free |
| Editor.KeyMotion | esh.c:314-325 | Left asks for -1 and Right for +1. Home asks for minus the cursor and End for the distance to the end, both read before substitution as written; the fixed build asks for the start and the end of the line it moves in |
| Editor.HandleEsc | esh.c:274-331 | inside a bracket or numeric escape, a digit records the numeric state; any other byte updates the flags and then acts as a key |
| Editor.Rx | esh.c:192-212 | inside a bracket or numeric escape every byte goes to `HandleEsc`. Right after ESC, `[` or `O` opens a bracket escape and anything else cancels it. Outside an escape, printable ASCII goes to `HandleChar` and every other byte to `HandleCtrl`. Only a newline outside an escape fires callbacks |
| Editor.Run | esh.c:192-212 | feeding a sequence of bytes keeps the record well-formed while it does not fault |
| EditorProps.SubstituteKeeps | esh_hist.c:196-207 | under the editor invariant, substitution never faults, in either build, and keeps the invariant |
| EditorProps.InsertKeeps | esh.c:475-497 | inserting a printable byte into a line with room keeps the invariant |
| EditorProps.DeleteKeeps | esh.c:475-497 | deleting inside a non-empty line keeps the invariant |
| EditorProps.ParkKeeps | esh.c:226-235 | parking a full line keeps the invariant |
| EditorProps.HandleCharKeeps | esh.c:219-237 | a printable byte keeps the invariant |
| EditorProps.CompleteKeeps | esh.c:358-383 | completing a line keeps the invariant |
| EditorProps.ExecuteCommandKeeps | esh.c:353-383 | under the invariant, executing never faults and keeps the invariant |
| EditorProps.BackspaceKeeps | esh.c:257-263 | backspace keeps the invariant, and never faults in the fixed build |
| EditorProps.CompleteOverflowed | esh.c:358-362 | an overflowed line goes, as the buffer's first `ESH_BUFFER_LEN` bytes, to the overflow callback, and history is untouched |
| EditorProps.CompleteBlank | esh.c:369 | a blank line fires nothing and is not added to history |
| EditorProps.CompleteWords | esh.c:364-378 | a non-blank line is added to history and split. Up to `ESH_ARGC_MAX` words go to the command callback exactly as the words of the line; more go to the overflow callback, which sees the rewritten buffer up to its first NUL |
| EditorProps.HandleCtrlKeeps | esh.c:243-268 | every control byte keeps the invariant, and faults only where the as-written build does |
| EditorProps.ClearKeeps | esh.c:249-253 | emptying the line keeps the invariant |
| EditorProps.BrowseKeeps | esh.c:294-312 | Up and Down keep the invariant |
| EditorProps.RestoreKeeps | esh.c:419-426 | restoring keeps the invariant |
| EditorProps.CursorMoveKeeps | esh.c:456-467 | moving the cursor keeps the invariant |
| EditorProps.KeyKeeps | esh.c:294-325 | every key keeps the invariant |
| EditorProps.HandleEscKeeps | esh.c:274-331 | inside an escape, every byte keeps the invariant and never faults in the fixed build |
| EditorProps.RxKeeps | esh.c:192-212 | every received byte keeps the invariant, and never faults in the fixed build |
| EditorProps.RunKeeps | esh.c:192-212 | any input sequence keeps the invariant, and never faults in the fixed build |
| EditorFindings.BackspaceAtStart | esh.c:257-263 | with the cursor at the start of a non-empty line, backspace shifts the line down onto `buffer[-1]` as written and does nothing when fixed |
| EditorFindings.BackspaceAtStartReached | esh.c:257-263 | the input `x`, Home, backspace reaches that write from an empty line |
| EditorFindings.BackspaceAtStartFixed | esh.c:257-263 | the same input is accepted by the fixed build |
| EditorFindings.TypeAtEnd | esh.c:206-207 | typing a printable ASCII byte at the end of a line with room appends it and fires nothing |
| EditorFindings.OpenBracket | esh.c:196-199 | ESC then `[` moves through the escape and bracket states |
| EditorFindings.HomeKey | esh.c:320-322 | Home in a bracket escape moves the cursor to the start and ends the escape |
| EditorFindings.FaultsAt | esh.c:192-212 | a fault on one byte ends the run with that fault |
| EditorFindings.DownInOverflow | esh.c:309-311 | Down from the newest entry, on an overflowed line, writes one past the buffer as written and returns to the line when fixed |
| EditorFindings.DownInOverflowReached | esh.c:309-311 | filling the buffer, typing one more byte and pressing Down reaches that write |
| EditorFindings.DownInOverflowFixed | esh.c:309-311 | the same input is accepted by the fixed build |
| EditorFindings.HomeWhileBrowsing | esh.c:320-322 | Home while browsing leaves the cursor at the entry's length minus the old cursor as written, and at the start when fixed |
| EditorFindings.HomeAsWritten | esh.c:320-322 | the as-written Home moves by minus the cursor before substitution, clamped to the substituted line |
| EditorFindings.HomeFixed | esh.c:320-322 | the fixed Home moves to the start of the substituted line |
| EditorFindings.SubstitutedEntry | esh_hist.c:196-207 | substituting a browsed entry leaves count and cursor at the entry's length |
| EditorFindings.LoadEntry | esh_hist.c:199-201 | loading an entry that fits leaves count and cursor at its length |
| EditorFindings.HomeLandsMidEntry | esh.c:320-322 | a concrete browsed record on which Home lands mid-entry, at 3, as written |
| EditorFindings.Browsed | esh.c:294-312 | the concrete record used there is browsing its one entry |
| EditorFindings.HelloHistory | esh_hist.c:158-180 | a fresh ring with `hello` added holds it as its newest entry |
| EditorFindings.BrowsedSound | esh_hist.c:196-201 | the concrete browsed record satisfies the invariant |
| Instances.Allocate | esh.c:137-154 | the static allocator hands out the next slot while one is left, and NULL otherwise |
| Instances.FreeLast | esh.c:161-171 | freeing the last allocation gives its slot back |
| Instances.AllocateBounded | esh.c:137-154 | allocated slots stay in the pool, and two allocations never hand out the same slot |
| Instances.FreeUndoesAllocate | esh.c:161-171 | freeing right after a successful allocation restores the pool |
| Instances.Zeroed | esh.c:178 | a zeroed record has an all-NUL buffer, an empty line, no escape and an empty history index |
| Instances.EshInit | esh.c:174-189 | `esh_init` yields a fresh instance exactly while the pool has one, with an empty line, no callbacks and the internal overflow handler. As written, an exhausted pool faults on the `memset` of NULL |
| Instances.InitAllThenNone | esh.c:176-178 | after the pool's one instance, another `esh_init` faults as written and returns NULL when fixed |
| Instances.RegisterCommand | esh.c:69-73 | registering sets the command slot and nothing else |
| Instances.RegisterPrint | esh.c:76-80 | registering sets the print slot and nothing else |
| Instances.RegisterOverflow | esh.c:83-90 | registering sets the overflow slot; NULL selects the internal handler |
| Instances.RegisterReplaces | esh.c:69-90 | registering twice is the same as registering only the second callback |
| Instances.RegisterKeepsInv | esh.c:69-90 | registration keeps the editor invariant |
| Instances.CompletionUsesRegistered | esh.c:104-121 | a completed line fires the callback last registered, or the internal overflow handler |
| CMem.CLen | esh_rust/src/lib.rs:58-69 | the distance to the first NUL is defined exactly when a NUL follows; running off memory is a fault |
| CMem.Strlen | esh_rust/src/lib.rs:58-69 | the counting loop computes exactly `CLen` |
| CMem.CString | esh_rust/src/lib.rs:96-97 | the bytes up to the NUL, NUL-free and of that length |
| CMem.CStringOfHeld | esh_rust/src/esh/lib.rs:349-353 | a C string inside a NUL-terminated buffer held in memory reads as the buffer's string from that offset |
| CallbackArgs.Pointers | esh_argparser.c:72 | the pointers are the buffer's address plus each recorded offset |
| CallbackArgs.ArgvReadsArguments | esh_argparser.c:72 | each pointer, read through memory, gives the argument read from the buffer |
| CallbackArgs.ArgvReadsTokens | esh_argparser.c:58-88 | after parsing, the C string behind each of the first `argc` pointers is the corresponding word |
| CallbackArgs.Utf8Head | esh_rust/src/esh/lib.rs:321 | the length of the UTF-8 character a sequence starts with, under the byte ranges of section 4 of RFC 3629; ASCII is one byte |
| CallbackArgs.AsciiIsUtf8 | esh.c:203-206 | any ASCII text is valid UTF-8 |
| CallbackArgs.TokensAreUtf8 | esh.c:203-206 | the words of a printable line are valid UTF-8 |
| CallbackArgs.CommandArgsAreUtf8 | esh_rust/src/esh/lib.rs:321 | every argument the command callback receives is valid UTF-8, so `from_utf8_unchecked` is sound |
| RustArgs.Len | esh_rust/src/lib.rs:174-176 | the count as `usize`: itself when non-negative, sign-extended modulo 2^64 when negative |
| RustArgs.Index | esh_rust/src/lib.rs:185-193 | an index at or past the count reads as empty; below it the pointer is read and its C string returned; a pointer past the array faults |
| RustArgs.IndexReadsWords | esh_rust/src/lib.rs:185-193 | on a parsed line, the accessor's length is the number of words, and index `i` reads word `i` (empty past the end) |
| RustArgs.Init | esh_rust/src/lib.rs:84-91 | NULL becomes `None` and any other pointer `Some` of itself |
| RustArgs.Address | esh.c:137-154 | the pool address of the allocated instance, and NULL for none |
| RustArgs.InitMatchesPool | esh_rust/src/esh/lib.rs:208-217 | over the fixed engine, `Esh::init` gives `Some` exactly while the pool has an instance left |
| RustArgs.PrintWrapper | esh_rust/src/lib.rs:93-101 | the print trampoline calls the user's function with the string up to, and without, its NUL |
| RustArgs.CommandWrapper | esh_rust/src/lib.rs:116-123 | the command trampoline passes `argc` and `argv` through unread |
| RustArgs.OverflowWrapper | esh_rust/src/lib.rs:138-147 | the overflow trampoline calls the user's function with the buffer up to its first NUL |
| RustArgs.RegisterPrint | esh_rust/src/lib.rs:109-114 | registration installs the print trampoline with the user's function as context, leaving the other slots |
| RustArgs.RegisterCommand | esh_rust/src/lib.rs:131-136 | registration installs the command trampoline with the user's function as context |
| RustArgs.RegisterOverflow | esh_rust/src/lib.rs:156-161 | registration installs the overflow trampoline with the user's function as context |
| RustArgs.FireString | esh_rust/src/lib.rs:93-147 | a call through a slot that holds none of this binding's trampolines reaches no Rust function |
| RustArgs.FireCommand | esh_rust/src/lib.rs:116-123 | a call through the command slot reaches a Rust function only via the command trampoline |
| RustArgs.DispatchReachesRegistered | esh_rust/src/lib.rs:109-161 | after registering twice, each engine call reaches the function registered last, with the string it is owed |
| RustViews.Parts | esh_rust/src/esh/lib.rs:318-321 | a view occupies `W` words, word `j` being part `j` of it |
| RustViews.WriteView | esh_rust/src/esh/lib.rs:318-321 | storing view `k` writes words `W*k` to `W*k+W` and no other word |
| RustViews.ConvertedDone | esh_rust/src/esh/lib.rs:316-324 | when the conversion has reached slot 0, the storage holds the view of every argument |
| RustViews.MapArgvToSlice | esh_rust/src/esh/lib.rs:303-325 | panics exactly when the view widths disagree. It faults exactly when a string is unterminated or a slot lies past the storage; otherwise every slot holds the view of the string its pointer named |
| RustViews.RawArgv | esh_argparser.c:72 | the raw array holds one pointer per argument |
| RustViews.CommandWrapper | esh_rust/src/esh/lib.rs:327-340 | the command trampoline calls the user's function with `argc` views, each the C string of its pointer, or panics or faults as the conversion does |
| RustViews.DeclaredArgvCommand | esh_rust/src/esh/lib.rs:296-325 | over the `ESH_ARGC_MAX` pointer words that esh_internal.h:41 declares, with two-word views, more than half of `ESH_ARGC_MAX` arguments fault; fewer terminated ones reach the user's function |
| RustViews.UnionArgv | esh_rust/src/esh/lib.rs:296-299 | the storage the conversion relies on holds `W` words for each of the `ESH_ARGC_MAX` views and starts with the pointer array |
| RustViews.UnionArgvCommand | esh_rust/src/esh/lib.rs:327-340 | over that storage, any count up to `ESH_ARGC_MAX` of terminated strings reaches the user's function, each as its C string |
| RustViews.LineReachesCommand | esh_rust/src/esh/lib.rs:327-340 | a completed printable line of at most `ESH_ARGC_MAX` words reaches the user's function as exactly its words, each valid UTF-8 |
| RustViews.OverflowWrapper | esh_rust/src/esh/lib.rs:343-359 | the overflow trampoline faults exactly when the byte-slice binding's does and otherwise makes the same call, with the buffer up to its first NUL |
| RustViews.PrintWrapper | esh_rust/src/esh/lib.rs:361-370 | the print trampoline calls the user's function with the byte as a `char` of the same code |
| RustViews.FireCommand | esh_rust/src/esh/lib.rs:327-340 | the command slot reaches a Rust function only via the trampoline, and then with the arguments' C strings |
| RustViews.FireOther | esh_rust/src/esh/lib.rs:343-370 | a slot holding neither the print nor the overflow trampoline reaches no Rust function |
| RustViews.DispatchReachesRegistered | esh_rust/src/esh/lib.rs:248-287 | after registering twice, each engine call reaches the function registered last |
| RustViews.ViewsSpellWords | esh_rust/src/esh/lib.rs:316-322 | on a parsed printable line, every pointer the conversion reads names its word, and that word is valid UTF-8 |

## Left out

- Terminal output is not modelled. This covers `esh_putc`, `esh_puts`, the prompt, `term_cursor_move`, the redraw in `ins_del`, `esh_hist_print` and the text of `internal_overflow`. It only draws and never changes the record; the model keeps only the NUL terminators the redraw writes into the buffer.
- The `MALLOC` and `MANUAL` allocation modes of `esh_init` and `esh_hist_init`, and `esh_set_histbuf`, are not modelled. Only the `STATIC` configuration is, because allocation failure and caller-supplied buffers are outside the engine's logic.
- `ESH_STATIC_CALLBACKS` (callbacks fixed at link time) is not modelled; the engine calls through its registered slots. The Rust crates' link-level differences from the C headers are not reconciled: the crates call `esh_register_overflow`, which the C file names `esh_register_overflow_callback`, and one crate declares a string-printing callback.
- The `argv` storage the `&str` conversion overwrites is a parameter of `RustViews.MapArgvToSlice`: its size in words and the view width. A storage too small for the views is a fault. `struct char_slice`, whose size esh.c:430-433 reports to the crate, is not part of this model; the view width stands for it. The two storages compared under "## Findings" are the declared pointer array and one with room for `ESH_ARGC_MAX` views.
- `RustArgs.Len`: `usize` is taken to be 64 bits wide.
- `mem::transmute` of the context pointer, the foreign-function boundary and the `'static` lifetimes are not modelled. A registered Rust function is represented by its identity.
- `RustViews.MapArgvToSlice` visits the slots from the highest index down, as the source does. Its contract states the final result; the order appears only in the loop invariant.
- `Esh::rx` in both crates only forwards to `esh_rx`, which `Editor.Rx` models.
- A completed line whose command slot was never registered yields a `Command` event through a slot with no code. That event stands for the C call through a NULL `cb_command` (esh.c:104-111), which is left to the caller: esh.h:94-95 calls only the overflow callback optional.
- The `STATIC` history ring is one function-static array shared by every instance (esh_hist.c:120-123), while the model gives each instance its own ring. The two agree because `Config.Instances` is 1, which the crate's documentation requires for static history (esh_rust/src/esh/lib.rs:112).
- `isprint` and `isspace` are the C-locale classes. Other locales are not modelled.
- `Editor.Run`: its contract states only that the record stays well-formed. The invariant-preservation and no-fault properties are `EditorProps.RunKeeps`.
- `Editor.Complete`: its own contract gives only the record's shape. What it fires is stated by `EditorProps.CompleteOverflowed`, `EditorProps.CompleteBlank` and `EditorProps.CompleteWords`.

## Findings

| source | as written | input that shows it | evidently intended | confidence | as-written member | corrected member |
|---|---|---|---|---|---|---|
| esh.c:257-263 | backspace checks only that the line is non-empty and not overflowed, then calls `ins_del`, whose `memmove` shifts the tail down to `buffer[ins - 1]` | on an empty line: `x`, ESC `[` `H` (Home), backspace — the cursor is 0, so the shift writes to `buffer[-1]` | backspace at the start of the line does nothing | not executed | EditorFindings.BackspaceAtStartReached | EditorFindings.BackspaceAtStartFixed |
| esh.c:309-311 | Down from the newest entry calls `esh_restore`, which stores a NUL at `buffer[cnt]` | type 201 printable bytes (the line overflows, `cnt` = 201), then ESC `[` `B` — the store lands at index 201 of a 201-byte buffer | on an overflowed line the terminator stays at `buffer[ESH_BUFFER_LEN]` | not executed | EditorFindings.DownInOverflowReached | EditorFindings.DownInOverflowFixed |
| esh.c:320-322 | Home moves by `-ins`, with `ins` read before the browsed entry is substituted, which sets `ins` to the entry's length | add `hello`, type `hi`, Up, Home — the cursor lands at 3, inside the entry | Home moves to the start of the line | not executed | EditorFindings.HomeLandsMidEntry | EditorFindings.HomeWhileBrowsing |
| esh_rust/src/esh/lib.rs:296-299 | the conversion writes `ESH_ARGC_MAX` views over `argv`, relying on a union with a slice array, but esh_internal.h:41 declares `argv` as a plain array of `ESH_ARGC_MAX` pointers | a line of six words, such as `a b c d e f`, with two-word `&str` views — the sixth view needs words 10 and 11 of a 10-word array | `argv` has room for `ESH_ARGC_MAX` views | not executed | RustViews.DeclaredArgvCommand | RustViews.UnionArgvCommand |
| esh.c:176-178 | `esh_init` passes the result of `allocate_esh` to `memset` before testing it for NULL | call `esh_init` twice with `ESH_INSTANCES` = 1 — the second call zeroes memory at NULL | return NULL when the pool is exhausted | not executed | Instances.InitAllThenNone | Instances.EshInit |
