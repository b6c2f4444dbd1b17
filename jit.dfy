/** The driver of src/jit.c: the global block list and counter (`jit_data`),
    the shared `block_buffer`, and the working directory its shell commands
    act on, seen as a set of file names. */
module Jit {
  import opened CString
  import opened Accumulate
  import opened Names
  import opened FileSet
  import opened Registry

  /** What `read_block` hands back. */
  datatype ReadResult =
    | NewBlock(id: nat)  // a block was registered under this counter value
    | QuitRequested      // the quit line: `read_block` returns NULL
    | BufferOverflow     // the next copy would write past `block_buffer`
    | InputExhausted     // the input ended before a sentinel line
  {
    /** The way the line loop ended that gives this result. */
    function End(): ScanEnd {
      match this
      case NewBlock(_) => SawTerminal
      case QuitRequested => SawQuit
      case BufferOverflow => WouldOverflow
      case InputExhausted => RanOut
    }
  }

  /** How the loop of `main` ended. */
  datatype SessionEnd = UserQuit | Overflowed | InputEnded

  /** What a run of `main` comes to: how many blocks it registered, and how it stopped. */
  datatype Outcome = Outcome(registered: nat, end: SessionEnd)

  class JitSession {
    /** The ids of `jit_data.block`, newest first; block `id` is named `BlockName(id)`. */
    var blocks: seq<nat>
    /** `jit_data.count`: the next counter value. */
    var count: nat
    var blockBuffer: array<char>
    /** The files present in the working directory. */
    var files: set<string>

    /** The list holds every counter value issued so far, newest first:
        no block is dropped from it and none is listed twice. */
    ghost predicate Valid()
      reads this
    {
      && blockBuffer.Length == BLOCK_MAX_SIZE
      && blocks == Countdown(count)
    }

    ghost predicate BufferClear()
      reads this, blockBuffer
    {
      forall k :: 0 <= k < blockBuffer.Length ==> blockBuffer[k] == '\0'
    }

    /** The state at program start: the statics are zero, the directory is `cwd`. */
    constructor (cwd: set<string>)
      ensures Valid() && BufferClear() && fresh(blockBuffer)
      ensures blocks == [] && count == 0 && files == cwd
    {
      blocks := [];
      count := 0;
      blockBuffer := new char[BLOCK_MAX_SIZE](_ => '\0');
      files := cwd;
    }

    /** `read_block`: reads lines from `input[pos..]` into `block_buffer`
        until a sentinel, then registers a block named after the counter at
        the head of the list. `next` is the first line not read. */
    method ReadBlock(input: seq<string>, pos: nat) returns (res: ReadResult, next: nat, offset: nat)
      requires Valid() && AreReads(input) && pos <= |input|
      modifies this, blockBuffer
      ensures Valid() && blockBuffer == old(blockBuffer) && files == old(files)
      ensures pos <= next <= |input| && (res.NewBlock? ==> pos < next)
      ensures Accumulated(Texts(input), pos, old(blockBuffer[..]), res.End(), next, offset, blockBuffer[..])
      ensures res.NewBlock? ==>
        res.id == old(count) && count == old(count) + 1 && blocks == [old(count)] + old(blocks)
      ensures !res.NewBlock? ==> count == old(count) && blocks == old(blocks)
    {
      var end;
      end, next, offset := AccumulateLines(input, pos);
      match end {
        case SawQuit => return QuitRequested, next, offset;
        case WouldOverflow => return BufferOverflow, next, offset;
        case RanOut => return InputExhausted, next, offset;
        case SawTerminal =>
      }
      res := NewBlock(count);
      blocks := [count] + blocks;
      count := count + 1;
    }

    /** The line loop of `read_block`: each line read adds its length to
        `offset` and is then copied to `block_buffer + offset`, until a
        sentinel line; a copy that would not fit stops the loop instead. */
    method AccumulateLines(input: seq<string>, pos: nat) returns (end: ScanEnd, next: nat, offset: nat)
      requires blockBuffer.Length == BLOCK_MAX_SIZE && AreReads(input) && pos <= |input|
      modifies blockBuffer
      ensures Accumulated(Texts(input), pos, old(blockBuffer[..]), end, next, offset, blockBuffer[..])
    {
      offset := 0;
      var i := pos;
      ghost var texts := Texts(input);
      ghost var buf := blockBuffer[..];
      assert texts[pos..pos] == [];
      while true
        invariant LoopState(texts, pos, i, offset, buf, blockBuffer[..])
        decreases |input| - i
      {
        if i == |input| {
          RanOutExit(texts, pos, offset, buf, blockBuffer[..]);
          end, next := RanOut, i;
          break;
        }
        var t := LineText(input[i]);
        TextAt(input, i);
        if IsQuit(t) {
          QuitExit(texts, pos, i, offset, buf, blockBuffer[..]);
          end, next := SawQuit, i + 1;
          break;
        }
        ghost var run := offset;
        offset := offset + |t|;
        if offset + LINE_MAX_SIZE > BLOCK_MAX_SIZE {
          OverflowExit(texts, pos, i, run, buf, blockBuffer[..]);
          end, next := WouldOverflow, i + 1;
          break;
        }
        ghost var before := blockBuffer[..];
        CopyLine(offset, t);
        if IsTerminal(t) {
          TerminalExit(texts, pos, i, run, buf, before);
          end, next := SawTerminal, i + 1;
          break;
        }
        OrdinaryStep(texts, pos, i, run, buf, before);
        i := i + 1;
      }
    }

    /** `strncpy(block_buffer + offset, line, LINE_MAX_SIZE)`, allowed only
        where all LINE_MAX_SIZE bytes fit. */
    method CopyLine(offset: nat, t: string)
      requires offset + LINE_MAX_SIZE <= blockBuffer.Length
      modifies blockBuffer
      ensures blockBuffer[..] == Write(old(blockBuffer[..]), offset, StrncpyBytes(t, LINE_MAX_SIZE))
    {
      var bytes := StrncpyBytes(t, LINE_MAX_SIZE);
      forall k | 0 <= k < LINE_MAX_SIZE {
        blockBuffer[offset + k] := bytes[k];
      }
      WriteAt(old(blockBuffer[..]), offset, bytes);
      assert blockBuffer[..] == Write(old(blockBuffer[..]), offset, bytes);
    }

    /** `create_block`: creates the block's source file, writes the C string
        of `block_buffer` into it (its last byte forced to NUL first), clears
        the buffer, and runs the compiler, which adds the object file exactly
        when `compiled` says it succeeded. */
    method CreateBlock(id: nat, compiled: bool) returns (text: string)
      requires Valid()
      modifies this`files, blockBuffer
      ensures Valid() && BufferClear()
      ensures text == CStr(old(blockBuffer[..BLOCK_MAX_SIZE - 1]))
      ensures files == old(files) + {SourceFile(BlockName(id))}
                      + (if compiled then {ObjectFile(BlockName(id))} else {})
    {
      files := files + {SourceFile(BlockName(id))};
      ghost var head := blockBuffer[..BLOCK_MAX_SIZE - 1];
      blockBuffer[BLOCK_MAX_SIZE - 1] := '\0';
      var n := |CStr(head)|;
      CLenIsFirstNul(head);
      assert blockBuffer[..][..n] == head[..n];
      CStrAt(blockBuffer[..], n);
      text := CStr(blockBuffer[..]);
      forall k | 0 <= k < blockBuffer.Length {
        blockBuffer[k] := '\0';
      }
      if compiled {
        files := files + {ObjectFile(BlockName(id))};
      }
    }

    /** `delete_files`: `rm -f` of the block's source, then of its object;
        a file that is not there is left not there. */
    method DeleteFiles(id: nat)
      modifies this`files
      ensures files == old(files) - BlockFiles(id)
    {
      files := files - {SourceFile(BlockName(id))};
      files := files - {ObjectFile(BlockName(id))};
    }

    /** `free_all_files`: deletes the files of every block on the list. */
    method FreeAllFiles()
      modifies this`files
      ensures files == old(files) - Artifacts(blocks)
    {
      var i := 0;
      while i < |blocks|
        invariant i <= |blocks|
        invariant files == old(files) - Artifacts(blocks[..i])
      {
        DeleteFiles(blocks[i]);
        ArtifactsSnoc(blocks, i);
        i := i + 1;
      }
      assert blocks[..i] == blocks;
    }

    /** The command `jit_exec` builds: the link prefix, then `"<name>.o "`
        for each block while walking the list from its head. */
    method BuildLinkCommand() returns (cmd: string)
      ensures cmd == LinkCommand(blocks)
    {
      cmd := LINK_PREFIX;
      var i := 0;
      while i < |blocks|
        invariant i <= |blocks|
        invariant cmd == LINK_PREFIX + ObjectList(blocks[..i])
      {
        ObjectListSnoc(blocks, i);
        cmd := cmd + ObjectFile(BlockName(blocks[i])) + " ";
        i := i + 1;
      }
      assert blocks[..i] == blocks;
    }

    /** `jit_exec`: builds the link command and runs it; the executable is
        there afterwards when `linked` says the link succeeded. */
    method JitExec(linked: bool) returns (cmd: string)
      modifies this`files
      ensures cmd == LinkCommand(blocks)
      ensures files == old(files) + (if linked then {EXEC_FILE} else {})
    {
      cmd := BuildLinkCommand();
      if linked {
        files := files + {EXEC_FILE};
      }
    }

    /** One pass of the loop of `main`: `read_block`, then, when it gave a
        block, `create_block` and `jit_exec`. `compiled` and `linked` are
        what the compiler and the linker report for the block read. The
        session from `pos` on stops here the way the read ended, or goes on
        from `next` with one more block. */
    method Pass(input: seq<string>, pos: nat, compiled: bool, linked: bool)
      returns (res: ReadResult, next: nat, text: string, cmd: string)
      requires Valid() && BufferClear() && AreReads(input) && pos <= |input|
      modifies this, blockBuffer
      ensures Valid() && blockBuffer == old(blockBuffer) && pos <= next <= |input|
      ensures res == QuitRequested ==> Session(Texts(input), pos) == Outcome(0, UserQuit)
      ensures res == BufferOverflow ==> Session(Texts(input), pos) == Outcome(0, Overflowed)
      ensures res == InputExhausted ==> Session(Texts(input), pos) == Outcome(0, InputEnded)
      ensures !res.NewBlock? ==> count == old(count) && blocks == old(blocks) && files == old(files)
      ensures res.NewBlock? ==>
        var rest := Session(Texts(input), next);
        Session(Texts(input), pos) == rest.(registered := rest.registered + 1)
      ensures res.NewBlock? ==>
        && BufferClear() && res.id == old(count)
        && count == old(count) + 1 && blocks == [old(count)] + old(blocks)
        && text == "" && cmd == LinkCommand(blocks)
        && files == old(files) + {SourceFile(BlockName(res.id))}
                   + (if compiled then {ObjectFile(BlockName(res.id))} else {})
                   + (if linked then {EXEC_FILE} else {})
    {
      ghost var before := blockBuffer[..];
      text, cmd := "", "";
      var offset;
      res, next, offset := ReadBlock(input, pos);
      SessionStep(Texts(input), pos, before, res.End(), next, offset, blockBuffer[..]);
      if res.NewBlock? {
        ghost var texts := Texts(input)[pos..];
        FilledKeepsLeadingNul(texts[..Scan(texts, 0).Copied()], 0, before);
        CStrAt(blockBuffer[..BLOCK_MAX_SIZE - 1], 0);
        text := CreateBlock(res.id, compiled);
        cmd := JitExec(linked);
      }
    }

    /** `main`: read a block, create and compile it, relink everything; on
        the quit line delete every block's files. `stdin` is everything typed;
        `compiles(id)` and `links(id)` are what the compiler and the linker
        report for block `id`. Returns the link commands run and the source
        texts written, one per block in the order they were read. */
    method Run(stdin: string, compiles: nat -> bool, links: nat -> bool)
      returns (end: SessionEnd, commands: seq<string>, sources: seq<string>)
      requires Valid() && BufferClear() && blocks == [] && count == 0
      modifies this, blockBuffer
      ensures Valid() && blockBuffer == old(blockBuffer)
      ensures Session(Texts(FgetsReads(stdin)), 0) == Outcome(count, end)
      ensures blocks == Countdown(count) && commands == LinkHistory(count)
      ensures |sources| == count && forall text <- sources :: text == ""
      ensures 0 < count && links(count - 1) ==> EXEC_FILE in files
      ensures end == UserQuit ==> files - {EXEC_FILE} == old(files) - Artifacts(blocks) - {EXEC_FILE}
      ensures end != UserQuit ==> Unchanged(old(files), files, blocks) && Present(files, blocks, compiles)
    {
      var input := FgetsReads(stdin);
      ghost var total := Session(Texts(input), 0);
      commands, sources := [], [];
      var pos := 0;
      while true
        invariant Valid() && BufferClear() && blockBuffer == old(blockBuffer)
        invariant pos <= |input|
        invariant count + Session(Texts(input), pos).registered == total.registered
        invariant Session(Texts(input), pos).end == total.end
        invariant commands == LinkHistory(count)
        invariant |sources| == count && forall text <- sources :: text == ""
        invariant 0 < count && links(count - 1) ==> EXEC_FILE in files
        invariant Unchanged(old(files), files, blocks) && Present(files, blocks, compiles)
        decreases |input| - pos
      {
        ghost var filesBefore := files;
        var r, next, text, cmd := Pass(input, pos, compiles(count), links(count));
        match r {
          case QuitRequested =>
            FreeAllFiles();
            ExecIsNoArtifact(blocks);
            assert EXEC_FILE in filesBefore ==> EXEC_FILE in files;
            end := UserQuit;
            break;
          case BufferOverflow =>
            end := Overflowed;
            break;
          case InputExhausted =>
            end := InputEnded;
            break;
          case NewBlock(id) =>
            BlockRecorded(old(files), filesBefore, files, blocks[1..], id, compiles);
            commands, sources := commands + [cmd], sources + [text];
            pos := next;
        }
      }
    }
  }

  /** What `main` does with the line texts from line `pos` on: the number of
      blocks it registers, and how it stops. Each complete block is
      registered and reading goes on after its terminator; the quit line, a
      copy that would overflow or the end of the input stops it. */
  function Session(texts: seq<string>, pos: nat): (r: Outcome)
    requires pos <= |texts|
    decreases |texts| - pos
  {
    var s := Scan(texts[pos..], 0);
    match s.end
    case SawTerminal =>
      var rest := Session(texts, pos + s.consumed);
      rest.(registered := rest.registered + 1)
    case SawQuit => Outcome(0, UserQuit)
    case WouldOverflow => Outcome(0, Overflowed)
    case RanOut => Outcome(0, InputEnded)
  }

  /** One pass of `main`'s loop: a block read from line `pos` on either
      stops the session the way its line loop ended, or is counted and the
      session goes on from the first line after it. */
  lemma SessionStep(texts: seq<string>, pos: nat, buf: string,
                    end: ScanEnd, next: nat, offset: nat, now: string)
    requires pos <= |texts| && |buf| == BLOCK_MAX_SIZE
    requires Accumulated(texts, pos, buf, end, next, offset, now)
    ensures pos <= next <= |texts|
    ensures end == SawTerminal ==>
      var rest := Session(texts, next);
      Session(texts, pos) == rest.(registered := rest.registered + 1)
    ensures end == SawQuit ==> Session(texts, pos) == Outcome(0, UserQuit)
    ensures end == WouldOverflow ==> Session(texts, pos) == Outcome(0, Overflowed)
    ensures end == RanOut ==> Session(texts, pos) == Outcome(0, InputEnded)
  {
  }

  /** A session ends by the user's request only if some line from `pos` on
      is the quit line. */
  lemma {:induction false} SessionQuitsAtQuitLine(texts: seq<string>, pos: nat)
    requires pos <= |texts|
    ensures Session(texts, pos).end == UserQuit ==> exists j :: pos <= j < |texts| && IsQuit(texts[j])
    decreases |texts| - pos
  {
    var s := Scan(texts[pos..], 0);
    ScanStopsAtSentinel(texts[pos..], 0);
    if s.end == SawQuit {
      assert IsQuit(texts[pos + s.consumed - 1]);
    } else if s.end == SawTerminal {
      SessionQuitsAtQuitLine(texts, pos + s.consumed);
    }
  }

  /** Outside the files of `blocks` and the executable, `now` holds what `init` held. */
  ghost predicate Unchanged(init: set<string>, now: set<string>, blocks: seq<nat>) {
    now - Artifacts(blocks) - {EXEC_FILE} == init - Artifacts(blocks) - {EXEC_FILE}
  }

  /** Every listed block's source is present, and its object too when it compiled. */
  ghost predicate Present(files: set<string>, blocks: seq<nat>, compiles: nat -> bool) {
    forall id :: id in blocks ==>
      SourceFile(BlockName(id)) in files && (compiles(id) ==> ObjectFile(BlockName(id)) in files)
  }

  /** Creating, compiling and linking block `id` touches only its own files
      and the executable, and leaves its source, and its object when it
      compiled, in place. */
  lemma BlockRecorded(init: set<string>, before: set<string>, after: set<string>, listed: seq<nat>, id: nat,
                      compiles: nat -> bool)
    requires Unchanged(init, before, listed) && Present(before, listed, compiles)
    requires before + {SourceFile(BlockName(id))} + (if compiles(id) then {ObjectFile(BlockName(id))} else {}) <= after
    requires after <= before + BlockFiles(id) + {EXEC_FILE}
    ensures Unchanged(init, after, [id] + listed) && Present(after, [id] + listed, compiles)
  {
    var ids := [id] + listed;
    assert ids[0] == id && ids[1..] == listed;
    assert Artifacts(ids) == BlockFiles(id) + Artifacts(listed);
    assert after - Artifacts(ids) - {EXEC_FILE} == before - Artifacts(listed) - {EXEC_FILE} - BlockFiles(id);
    assert init - Artifacts(ids) - {EXEC_FILE} == init - Artifacts(listed) - {EXEC_FILE} - BlockFiles(id);
  }

  /** The link commands of a session that registered `n` blocks, in the
      order they were run. */
  function LinkHistory(n: nat): (h: seq<string>)
    ensures |h| == n
  {
    if n == 0 then [] else LinkHistory(n - 1) + [LinkCommand(Countdown(n))]
  }

  /** The `k`-th link of a session links the objects of the `k + 1` blocks
      read so far, newest first. */
  lemma {:induction false} LinkHistoryAt(n: nat)
    ensures forall k :: 0 <= k < n ==> LinkHistory(n)[k] == LinkCommand(Countdown(k + 1))
  {
    if n > 0 {
      LinkHistoryAt(n - 1);
    }
  }
}
