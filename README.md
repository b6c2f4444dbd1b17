# Simulate-JIT-C: a Dafny model of the driver in src/jit.c

The driver reads blocks of C text from standard input, one line at a time. A
block ends with the line `//0`. For each block the driver creates the file
`jit-c-<n>.c` and writes the C string held in `block_buffer` into it. As the
code is written that string is always empty (see "## Findings"). It then
compiles the file to `jit-c-<n>.o` and relinks every object made so far into
`generated-jit-c`. The line `quit` deletes every block's source and
object files and ends the session.

This project models that logic:

- the block registry `jit_data`: a list of block ids, newest first, and a counter;
- the shared 4096-byte `block_buffer`, as an `array<char>`;
- the `fgets` reads that split standard input into pieces of at most 255
  characters;
- the line loop of `read_block`, with its running `offset`, its `strncpy`
  copies and its two sentinel lines;
- the names of a block's files and the link command, as pure string functions;
- `create_block`, `delete_files`, `free_all_files` and `jit_exec`, as effects
  on the working directory, seen as a set of file names;
- the loop of `main`, as `Jit.JitSession.Run`, one pass of it as
  `Jit.JitSession.Pass`, and what a whole session comes to as the function
  `Jit.Session`.

Modules:

- `CString`: `strlen`, the C string of a buffer, `strncmp` and `strncpy`.
- `Decimals`: `%ld` printing of a counter.
- `Names`: block, source, object and executable names; the link command and
  how a shell splits it into words.
- `FileSet`: the files a block can leave behind.
- `Registry`: the shape of the block list.
- `Accumulate`: the `fgets` reads (`FgetsReads`), the line loop as a function
  of the texts read (`Scan`, `Filled`), and the lemmas connecting it with the
  loop in `Jit`.
- `WritePosition`: the write-position defect and its corrected loop.
- `Jit`: the class `JitSession`, holding `jit_data`, `block_buffer` and the
  directory, with one method per C function.

The external programs and the terminal are parameters:

- the input is everything typed on standard input, a string in which each
  `char` stands for one input byte, as `fgets`, `strlen` and `offset` count
  them. `FgetsReads`
  splits it the way successive `fgets(line, 256, stdin)` calls do: each read
  ends after a newline or after 255 characters, and the rest of a longer line
  is the next read;
- `compiles(id)` says whether `gcc -c` succeeds for block `id`;
- `links(id)` says whether the link after block `id` succeeds.

## Model

| member | source | states |
|---|---|---|
| CString.CLen | src/jit.c:112 | `strlen` of a string is at most its length |
| CString.CLenIsFirstNul | src/jit.c:112 | `strlen` is the index of the first NUL: no NUL before it, and a NUL at it unless the string ended first |
| CString.CStrIsNulFree | src/jit.c:62 | the C string handed to `fputs` holds no NUL |
| CString.CStrAt | src/jit.c:61-62 | a buffer whose first `n` characters are not NUL and that has NUL at index `n` holds exactly those `n` characters as its C string |
| CString.CStr | src/jit.c:62 | the C string of a buffer, which is what `fputs` writes here and what `line` holds after line 109: its characters up to the first NUL, never more than the buffer holds; `CLenIsFirstNul` and `CStrAt` give its meaning |
| CString.StrncmpEqual | src/jit.c:110 | `strncmp(a, b, n) == 0`: the first `n` characters compared one at a time all agree, a string that ended reading as NUL |
| CString.StrncmpEqualAt | src/jit.c:110 | the comparison succeeds exactly when each of the first `n` characters agrees, in both directions |
| CString.StrncmpSizeofIsEquality | src/jit.c:110 | for NUL-free strings, `strncmp(lit, line, sizeof(lit)) == 0` holds exactly when `line` equals `lit`; it is not a prefix test |
| CString.NulsAreNul | src/jit.c:113 | the padding `strncpy` writes after the source's end is all NUL |
| CString.StrncpyBytes | src/jit.c:113 | `strncpy(dst, src, n)` writes exactly `n` bytes |
| CString.StrncpyAt | src/jit.c:113 | byte `k` of the `LINE_MAX_SIZE` bytes `strncpy` writes is character `k` of the line's C string, or NUL past its end |
| Decimals.Decimal | src/jit.c:118 | `%ld` of a counter is a non-empty run of digits with no leading zero |
| Decimals.ParseDecimalInverts | src/jit.c:118 | reading the printed digits back gives the counter |
| Decimals.DecimalInjective | src/jit.c:118 | distinct counters print as distinct strings |
| Names.BlockName | src/jit.c:118 | `sprintf(block->name, "jit-c-%ld", count)`: `jit-c-` followed by the counter in decimal |
| Names.BlockNameInjective | src/jit.c:118-120 | two blocks have the same name `jit-c-<count>` exactly when they have the same counter value |
| Names.SourceFile | src/jit.c:55 | `sprintf(name, "%s.c", block->name)`: the block's name followed by `.c` |
| Names.ObjectFile | src/jit.c:80 | `sprintf(name, "%s.o", block->name)`: the block's name followed by `.o`, the file `gcc -c` makes from the source |
| Names.ArtifactNamesDistinct | src/jit.c:77-80 | a `.c` name never equals a `.o` name; each file name determines its block; no block file is `generated-jit-c` |
| Names.ObjectFileIsWord | src/jit.c:139 | each `<name>.o` is one non-empty word without blanks |
| Names.ObjectList | src/jit.c:137-140 | the arguments the loop of `jit_exec` appends: `"<name>.o "` for each block, walking the list from its head |
| Names.LinkCommand | src/jit.c:136-140 | `gcc -o generated-jit-c ` followed by the object list |
| Names.ObjectListSnoc | src/jit.c:137-140 | walking one more list node appends exactly that block's `"<name>.o "` |
| Names.ObjectListWords | src/jit.c:137-140 | the object part of the command splits into exactly the object files of the listed blocks, in list order |
| Names.LinkCommandWords | src/jit.c:136-141 | the link command splits into `gcc -o generated-jit-c` followed by the object file of every listed block, in list order, none omitted or repeated |
| Names.ObjectArgsDistinct | src/jit.c:137-140 | distinct blocks give distinct object arguments to the linker |
| FileSet.Artifacts | src/jit.c:89-93 | the files `free_all_files` deletes: the `.c` and the `.o` of every block on the list |
| FileSet.ArtifactsMembership | src/jit.c:89-93 | a file is among the artifacts of a block list exactly when it is the source or the object of one of the listed blocks |
| FileSet.ArtifactsSnoc | src/jit.c:89-91 | visiting one more list node adds that block's two files to those already covered |
| FileSet.ExecIsNoArtifact | src/jit.c:85-94 | `generated-jit-c` is no block's artifact, so deleting block files never removes it |
| Registry.Countdown | src/jit.c:117-124 | the block list after `n` registrations, newest first, one id per registration |
| Registry.CountdownAt | src/jit.c:117-124 | the list after `n` registrations holds `n - 1 - k` at position `k`: newest first, strictly decreasing, every id below the counter, none repeated |
| Registry.FullListIsCountdown | src/jit.c:117-124 | a strictly decreasing list of `n` ids, all below `n`, is the full countdown: no counter value was skipped or dropped |
| Accumulate.ReadLen | src/jit.c:108 | one `fgets` call takes no more characters than the input has and than `line` has room for, and at least one when both allow |
| Accumulate.ReadLenStops | src/jit.c:108 | a call takes no newline before its last character, and it stops short of the room left only after a newline or at the end of the input |
| Accumulate.FgetsReads | src/jit.c:107-108 | the successive reads of the loop: each one fits in `line`, so the byte forced to NUL never cuts one |
| Accumulate.FgetsReadsJoin | src/jit.c:107-108 | the reads, put back together, are exactly the input: nothing is lost and nothing is read twice |
| Accumulate.FgetsReadsStop | src/jit.c:107-108 | every read is non-empty with no newline before its end, and every read but the last ends with a newline or fills `line`: a long line comes back over several reads |
| Accumulate.Joined | src/jit.c:112-113 | the texts one after the other; their length is the sum of their lengths |
| Accumulate.JoinedIsNulFree | src/jit.c:62 | texts `line` can hold join into a string without NUL |
| Accumulate.LineText | src/jit.c:107-109 | the text in `line` after a read is its C string, shorter than `LINE_MAX_SIZE` |
| Accumulate.LineTextIsNulFree | src/jit.c:107-109 | the text of a read holds no NUL |
| Accumulate.Texts | src/jit.c:107-109 | what `line` holds after each read, one text per read, in order |
| Accumulate.TextsAreLineTexts | src/jit.c:107-109 | the text of every read is NUL-free and shorter than `LINE_MAX_SIZE` |
| Accumulate.IsQuit | src/jit.c:110 | `strncmp(QUIT_CMD, line, sizeof(QUIT_CMD)) == 0` |
| Accumulate.IsTerminal | src/jit.c:115 | `strncmp(TERMINAL_CMD, line, sizeof(TERMINAL_CMD)) == 0` |
| Accumulate.SentinelsAreExact | src/jit.c:110-115 | a read is the quit line exactly when its text is `"quit\n"`, and the terminator exactly when its text is `"//0\n"` |
| Accumulate.Scan | src/jit.c:105-115 | the loop reads no more lines than the input has, and at least one whenever it stops at a sentinel or an overflow |
| Accumulate.ScanReadsALine | src/jit.c:104-108 | the loop reads at least one line whenever the input is not empty |
| Accumulate.ScanSkipsOrdinary | src/jit.c:105-115 | after a run of ordinary lines whose copies fit, the loop goes on exactly as a loop started after them with their lengths already in `offset` |
| Accumulate.ScanReadsOrdinaryLines | src/jit.c:110-115 | every line read before the last one is neither the quit line nor the terminator |
| Accumulate.ScanStopsAtSentinel | src/jit.c:110-115 | the loop stops only at the quit line, at the terminator, at a copy that would overflow, or at the end of the input, and the last line read says which |
| Accumulate.ScanOffset | src/jit.c:110-112 | `offset` ends as the sum of `strlen` over every line read, the terminator included and the quit line left out |
| Accumulate.ScanCopiesFit | src/jit.c:112-114 | every copy the loop makes fits in the buffer, so the `WARN_ON(offset >= BLOCK_MAX_SIZE)` never fires on them |
| Accumulate.OverflowGoesUnwarned | src/jit.c:112-114 | the first copy that would pass the buffer's end would be made at an offset below 4096, so the `WARN_ON` after it would not report it |
| Accumulate.Filled | src/jit.c:112-113 | the buffer after the copies: each line's `strncpy` image written at the offset reached after adding its own length; it stays 4096 bytes long |
| Accumulate.FilledKeepsLeadingNul | src/jit.c:112-113 | each line is copied to the offset reached after adding its own length, so a buffer that starts with NUL still starts with NUL after the copies |
| Accumulate.LoopSkipsRun | src/jit.c:105-115 | the loop that started at line `pos` and passed ordinary lines up to `i` goes on as a loop started at `i` |
| Accumulate.RanOutExit | src/jit.c:105-108 | the input ending after ordinary lines gives the outcome `Scan` predicts, with the buffer as `Filled` predicts |
| Accumulate.QuitExit | src/jit.c:110-111 | the quit line ends the loop, is not counted in `offset` and is not copied |
| Accumulate.OverflowExit | src/jit.c:112-114 | a line whose copy would pass the buffer's end is counted in `offset` and ends the loop without being copied |
| Accumulate.TerminalExit | src/jit.c:112-115 | the terminator is counted and copied, and the loop ends with the outcome and buffer `Scan` and `Filled` predict |
| Accumulate.OrdinaryStep | src/jit.c:112-115 | an ordinary line that fits is counted and copied, and the loop state moves on by one line |
| Accumulate.LoopStep | src/jit.c:112-113 | copying line `i` adds its length to `offset` and one `strncpy` image to the buffer |
| WritePosition.AsWrittenTextIsEmpty | src/jit.c:112-113 | as written, after a complete block, the C string `create_block` writes from a buffer that started with NUL is empty, whatever lines were typed |
| WritePosition.ExampleTexts | src/jit.c:107-109 | the reads `x = 1;` and `//0` are their own line texts |
| WritePosition.AsWrittenLosesBlock | src/jit.c:112-113 | as written, the block `x = 1;` then `//0` is complete and non-empty, yet the text written for it is `""` |
| WritePosition.ScanIntended | src/jit.c:105-115 | the corrected loop reads no more lines than the input has, and at least one whenever it stops at a sentinel or an overflow |
| WritePosition.ScanIntendedReadsALine | src/jit.c:104-108 | the corrected loop reads at least one line whenever the input is not empty |
| WritePosition.CopyAppendsLine | src/jit.c:113 | a line copied at `offset` lands right after the first `offset` bytes, with a NUL after it |
| WritePosition.IntendedBufferHoldsLines | src/jit.c:112-113 | with the copy made before advancing `offset`, the buffer holds the lines one after the other, then a NUL |
| WritePosition.IntendedCopiesFit | src/jit.c:112-114 | the corrected loop makes only copies that fit in the buffer |
| WritePosition.IntendedTextIsBlock | src/jit.c:112-113 | corrected: the text written for a complete block is exactly the lines typed, the terminator included |
| Jit.JitSession.Valid | src/jit.c:39-43 | the invariant `jit_data` keeps through every registration at lines 117-124: the list is `Countdown(count)`, so by `Registry.CountdownAt` every id is below the counter, the ids are distinct and the list strictly decreases; the buffer is 4096 bytes |
| Jit.JitSession.constructor | src/jit.c:39-45 | at start the list is empty, the counter is 0 and the buffer is all NUL |
| Jit.JitSession.ReadBlock | src/jit.c:99-127 | the loop ends as `Scan` predicts, with the buffer as `Filled` predicts; a new block gets the current counter as its id and goes on the front of the list, the rest unchanged, and the counter goes up by one; the quit line, an overflow or the end of input registers nothing and leaves the counter alone |
| Jit.JitSession.AccumulateLines | src/jit.c:105-115 | the array loop ends as `Scan` predicts, with the lines read, the final `offset` and the buffer contents `Filled` predicts |
| Jit.JitSession.CopyLine | src/jit.c:113 | `strncpy` replaces exactly the `LINE_MAX_SIZE` bytes from `offset` with the line's bytes and its NUL padding, and leaves the rest of the buffer alone |
| Jit.JitSession.CreateBlock | src/jit.c:47-69 | the text written is the C string of the buffer's first 4095 bytes; the buffer ends all NUL; `<name>.c` is added, and `<name>.o` exactly when the compile succeeded |
| Jit.JitSession.DeleteFiles | src/jit.c:71-83 | removes exactly `<name>.c` and `<name>.o`; removing an absent file changes nothing |
| Jit.JitSession.FreeAllFiles | src/jit.c:85-94 | removes the two files of every listed block and nothing else |
| Jit.JitSession.BuildLinkCommand | src/jit.c:133-140 | the command built is `gcc -o generated-jit-c ` followed by `"<name>.o "` for every listed block, in list order |
| Jit.JitSession.JitExec | src/jit.c:131-142 | runs the link command for the current list; the executable is present afterwards when the link succeeded |
| Jit.JitSession.Pass | src/jit.c:146-153 | one pass of the loop of `main`: the session from the current read on ends the way `read_block` stopped, or counts the new block and goes on from the first read after it; a new block is listed, its text is empty, its source is added and its object when it compiled, the link command covers the whole list and the executable is added when the link succeeded; otherwise nothing changes |
| Jit.JitSession.Run | src/jit.c:144-157 | the number of blocks registered and the way the session ends are those `Session` gives for the reads of the input; the list holds every counter value issued, newest first; link `k` used the objects of the first `k + 1` blocks; every source text written is empty (see `WritePosition.AsWrittenTextIsEmpty`); the executable is present when the last link succeeded; on quit, exactly the files of every block are gone, apart from the executable; on any other stop, no other file changed and every block's source, and its object when it compiled, is present |
| Jit.Session | src/jit.c:144-157 | what `main` does with the reads from `pos` on: each complete block is counted and reading goes on after its terminator; the quit line, an overflow or the end of the input stops it |
| Jit.SessionStep | src/jit.c:146-149 | a block read from `pos` stops the session the way the line loop ended, or adds one block to the session that goes on after it |
| Jit.SessionQuitsAtQuitLine | src/jit.c:110-111 | a session ends by the user's request only if some read from `pos` on is the quit line |
| Jit.BlockRecorded | src/jit.c:147-152 | creating, compiling and linking one block keeps that block's files, touches no file but its own and the executable, and preserves the session invariant |
| Jit.LinkHistory | src/jit.c:146-154 | the link commands of a session, one per block registered |
| Jit.LinkHistoryAt | src/jit.c:146-154 | the `k`-th link of a session links the objects of blocks `k` down to `0` |
## Left out

- The `system()` calls to `touch`, `gcc -c`, `gcc -o` and `rm -f` are modelled only by their effect on the set of files. The compiler's and the linker's verdicts are the parameters `compiles` and `links`.
- A failed `gcc -c` or link is modelled as changing no file. A stale `jit-c-<n>.o` or `generated-jit-c` from before survives it, though the real compiler and linker may delete their output when they fail.
- `printf`, `fopen`, `fputs` and `fclose` are not modelled. The file contents are the strings returned in `Run`'s `sources`.
- `fgets` is not modelled as a terminal. The whole input is a parameter, and `Accumulate.FgetsReads` splits it into reads; the prompt `printf("> ")` is left out.
- The end of input is modelled as its own outcome, `InputExhausted`, which ends the session. In the C program `fgets` then leaves the line empty and the loop never ends.
- Jit.JitSession.AccumulateLines: stops with the outcome `WouldOverflow` before a copy that would write past `block_buffer`. In C that copy is an out-of-bounds write, undefined behaviour (src/jit.c:113). The `WARN_ON(offset >= BLOCK_MAX_SIZE)` after it does not report this first one, since it is made at an offset below 4096 (`Accumulate.OverflowGoesUnwarned`). A warning fires only on a later line, after further out-of-bounds writes.
- Jit.JitSession.Run: an overflow ends the session without deleting the files, since the C program's behaviour after an out-of-bounds write is undefined.
- `malloc`, `free` and pointer traversal are not modelled. The list is a sequence of block ids, and each node's name is `BlockName(id)`. After `free_all_files` the C program leaves `jit_data.block` dangling; the model keeps the list.
- Input is counted in bytes in C, and each `char` of the model's input stands for one byte. Decoding of a multi-byte encoding is not modelled.
- `size_t` and `unsigned int` widths are not modelled: counters and offsets are unbounded naturals.
- The fixed sizes of the `sprintf` buffers for names and commands (src/jit.c:49-50, 133) are not modelled; strings are unbounded.
- The messages and process exit of `BUG_ON` and `WARN_ON` are not modelled. Their conditions cannot hold in the model: every block pointer is non-NULL, `fopen` is assumed to succeed, and `ScanCopiesFit` shows the overflow warning never fires.
- `free_all_files` does not remove `generated-jit-c`, and the model follows the code. A design that removes the last executable at shutdown, or tracks an entry-point block with compile rollback, describes features this code does not have; they are not modelled.

## Findings

| source | as written | input that shows it | evidently intended | confidence | as-written member | corrected member |
|---|---|---|---|---|---|---|
| src/jit.c:112-113 | `offset += strlen(line)` runs before `strncpy(block_buffer + offset, line, ...)`, so each line is copied after the space its own length reserves. `block_buffer[0]` is never written with anything but NUL, so `fputs(block_buffer, file)` writes an empty source file for every block. | the lines `x = 1;` and `//0`: the block is complete, yet `jit-c-0.c` is written empty | copy each line at the offset reached before adding its length, so the buffer holds the block as typed | high, not executed | WritePosition.AsWrittenLosesBlock | WritePosition.IntendedTextIsBlock |

The session (`Jit.JitSession.Run`) keeps the write position as written, because
it models the program as it behaves: its ensures states that every source text
written is empty. The corrected loop
`WritePosition.ScanIntended` / `FilledIntended` has the intended property
proved in `WritePosition.IntendedTextIsBlock`.
