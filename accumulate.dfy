/** The line loop of `read_block` (src/jit.c:105-115) as a function of the
    input lines: which line ends it, the running `offset`, and what the
    `strncpy` of every line leaves in `block_buffer`. */
module Accumulate {
  import opened CString

  const BLOCK_MAX_SIZE: nat := 4096
  const LINE_MAX_SIZE: nat := 256
  const TERMINAL_CMD := "//0\n"
  const QUIT_CMD := "quit\n"

  /** How many characters one `fgets` call takes from `stream` when `line`
      has room for `room` more: up to and including the first newline, and
      no more than `room`. */
  function ReadLen(stream: string, room: nat): (n: nat)
    ensures n <= |stream| && n <= room
    ensures stream != [] && 0 < room ==> 0 < n
  {
    if stream == [] || room == 0 then 0
    else if stream[0] == '\n' then 1
    else 1 + ReadLen(stream[1..], room - 1)
  }

  /** A call stops after a newline, when `line` is full, or when the input
      ends, and it holds no newline before its last character. */
  lemma {:induction false} ReadLenStops(stream: string, room: nat)
    ensures var n := ReadLen(stream, room);
      && (forall k :: 0 <= k < n - 1 ==> stream[k] != '\n')
      && (0 < n < |stream| && n < room ==> stream[n - 1] == '\n')
  {
    if stream != [] && 0 < room && stream[0] != '\n' {
      ReadLenStops(stream[1..], room - 1);
      var n := ReadLen(stream, room);
      assert forall k :: 1 <= k < n ==> stream[k] == stream[1..][k - 1];
    }
  }

  /** Strings as one `fgets` call returns them: shorter than `line`. */
  predicate AreReads(chunks: seq<string>) {
    forall k :: 0 <= k < |chunks| ==> |chunks[k]| < LINE_MAX_SIZE
  }

  /** The strings successive `fgets(line, LINE_MAX_SIZE, stdin)` calls read
      from standard input `stream` until it is used up: a line longer than
      LINE_MAX_SIZE - 1 characters comes back over several calls, so every
      read fits in `line`. */
  function FgetsReads(stream: string): (chunks: seq<string>)
    ensures AreReads(chunks)
    decreases |stream|
  {
    if stream == [] then []
    else
      var n := ReadLen(stream, LINE_MAX_SIZE - 1);
      var rest := FgetsReads(stream[n..]);
      assert forall k :: 1 <= k < 1 + |rest| ==> ([stream[..n]] + rest)[k] == rest[k - 1];
      [stream[..n]] + rest
  }

  /** The texts one after the other. */
  function Joined(texts: seq<string>): (r: string)
    ensures |r| == TextLen(texts)
  {
    if texts == [] then "" else Joined(texts[..|texts| - 1]) + texts[|texts| - 1]
  }

  /** Texts `line` can hold join into a string with no NUL in it. */
  lemma {:induction false} JoinedIsNulFree(texts: seq<string>)
    requires AreLineTexts(texts)
    ensures NulFree(Joined(texts))
  {
    if texts != [] {
      var init, t := texts[..|texts| - 1], texts[|texts| - 1];
      JoinedIsNulFree(init);
      var j := Joined(init);
      assert forall k :: |j| <= k < |j + t| ==> (j + t)[k] == t[k - |j|];
    }
  }

  lemma {:induction false} JoinedCons(a: string, rest: seq<string>)
    ensures Joined([a] + rest) == a + Joined(rest)
    decreases |rest|
  {
    var x := [a] + rest;
    if rest == [] {
      assert x[..|x| - 1] == [];
    } else {
      var init, last := rest[..|rest| - 1], rest[|rest| - 1];
      assert x[..|x| - 1] == [a] + init && x[|x| - 1] == last;
      JoinedCons(a, init);
      assert Joined(x) == (a + Joined(init)) + last;
      assert Joined(rest) == Joined(init) + last;
    }
  }

  /** The reads, joined, give back the whole input: nothing is lost or read twice. */
  lemma {:induction false} FgetsReadsJoin(stream: string)
    ensures Joined(FgetsReads(stream)) == stream
    decreases |stream|
  {
    if stream != [] {
      var n := ReadLen(stream, LINE_MAX_SIZE - 1);
      FgetsReadsJoin(stream[n..]);
      JoinedCons(stream[..n], FgetsReads(stream[n..]));
      assert stream[..n] + stream[n..] == stream;
    }
  }

  /** One `fgets` read: non-empty, with no newline before its last character. */
  predicate IsRead(chunk: string)
  {
    chunk != [] && forall j :: 0 <= j < |chunk| - 1 ==> chunk[j] != '\n'
  }

  /** A read that `fgets` ended before the input did: it stopped at a newline
      or because `line` was full. */
  predicate EndsRead(chunk: string)
  {
    chunk != [] && (chunk[|chunk| - 1] == '\n' || |chunk| == LINE_MAX_SIZE - 1)
  }

  /** Each call reads a non-empty string with no newline before its end, and
      every read but the last ends with a newline or fills `line`. */
  lemma {:induction false} FgetsReadsStop(stream: string)
    ensures forall k :: 0 <= k < |FgetsReads(stream)| ==> IsRead(FgetsReads(stream)[k])
    ensures forall k :: 0 <= k < |FgetsReads(stream)| - 1 ==> EndsRead(FgetsReads(stream)[k])
    decreases |stream|
  {
    if stream != [] {
      var n := ReadLen(stream, LINE_MAX_SIZE - 1);
      var head, rest := stream[..n], FgetsReads(stream[n..]);
      ReadLenStops(stream, LINE_MAX_SIZE - 1);
      FgetsReadsStop(stream[n..]);
      var chunks := FgetsReads(stream);
      assert chunks == [head] + rest;
      assert IsRead(head) by {
        assert forall j :: 0 <= j < n ==> head[j] == stream[j];
      }
      assert rest != [] ==> EndsRead(head) by {
        if rest != [] {
          assert stream[n..] != [];
          assert head[n - 1] == stream[n - 1];
        }
      }
      forall k | 1 <= k < |chunks|
        ensures chunks[k] == rest[k - 1]
      {
      }
    }
  }

  /** The C string `line` holds after a read of `raw`: what precedes the
      first NUL `fgets` copied, if any. A read always fits, so the forced NUL
      in the last byte of `line` cuts nothing. */
  function LineText(raw: string): (t: string)
    requires |raw| < LINE_MAX_SIZE
    ensures |t| < LINE_MAX_SIZE
  {
    CStr(raw)
  }

  lemma LineTextIsNulFree(raw: string)
    requires |raw| < LINE_MAX_SIZE
    ensures NulFree(LineText(raw))
  {
    CStrIsNulFree(raw);
  }

  /** The text of every read, in order. */
  function Texts(input: seq<string>): (texts: seq<string>)
    requires AreReads(input)
    ensures |texts| == |input|
  {
    if input == [] then []
    else
      assert AreReads(input[1..]) by {
        assert forall k :: 0 <= k < |input| - 1 ==> input[1..][k] == input[k + 1];
      }
      [LineText(input[0])] + Texts(input[1..])
  }

  /** The text of read `i` is what `line` holds after it. */
  lemma {:induction false} TextAt(input: seq<string>, i: nat)
    requires AreReads(input) && i < |input|
    ensures Texts(input)[i] == LineText(input[i])
  {
    if i > 0 {
      assert AreReads(input[1..]) by {
        assert forall k :: 0 <= k < |input| - 1 ==> input[1..][k] == input[k + 1];
      }
      TextAt(input[1..], i - 1);
    }
  }

  /** Every text is one `line` can hold. */
  lemma {:induction false} TextsAreLineTexts(input: seq<string>)
    requires AreReads(input)
    ensures AreLineTexts(Texts(input))
  {
    if input != [] {
      assert AreReads(input[1..]) by {
        assert forall k :: 0 <= k < |input| - 1 ==> input[1..][k] == input[k + 1];
      }
      LineTextIsNulFree(input[0]);
      TextsAreLineTexts(input[1..]);
      var texts := Texts(input);
      forall k | 0 <= k < |texts| ensures NulFree(texts[k]) && |texts[k]| < LINE_MAX_SIZE {
        if k > 0 {
          assert texts[k] == Texts(input[1..])[k - 1];
        }
      }
    }
  }

  /** Texts as `line` can hold them: no NUL inside, shorter than the line buffer. */
  predicate AreLineTexts(texts: seq<string>) {
    forall k :: 0 <= k < |texts| ==> NulFree(texts[k]) && |texts[k]| < LINE_MAX_SIZE
  }

  /** `strncmp(QUIT_CMD, line, sizeof(QUIT_CMD)) == 0`. */
  predicate IsQuit(t: string) {
    StrncmpEqual(QUIT_CMD, t, |QUIT_CMD| + 1)
  }

  /** `strncmp(TERMINAL_CMD, line, sizeof(TERMINAL_CMD)) == 0`. */
  predicate IsTerminal(t: string) {
    StrncmpEqual(TERMINAL_CMD, t, |TERMINAL_CMD| + 1)
  }

  /** A line that neither quits nor ends the block. */
  predicate Ordinary(t: string) {
    !IsQuit(t) && !IsTerminal(t)
  }

  /** Both sentinels match a line exactly, not as a prefix. */
  lemma SentinelsAreExact(raw: string)
    requires |raw| < LINE_MAX_SIZE
    ensures IsQuit(LineText(raw)) <==> LineText(raw) == QUIT_CMD
    ensures IsTerminal(LineText(raw)) <==> LineText(raw) == TERMINAL_CMD
  {
    LineTextIsNulFree(raw);
    StrncmpSizeofIsEquality(QUIT_CMD, LineText(raw));
    StrncmpSizeofIsEquality(TERMINAL_CMD, LineText(raw));
  }

  /** `buf` after `bytes` were copied into it from index `off` on. */
  function Write(buf: string, off: nat, bytes: string): (r: string)
    requires off + |bytes| <= |buf|
    ensures |r| == |buf|
  {
    buf[..off] + bytes + buf[off + |bytes|..]
  }

  /** What `Write` leaves at each index. */
  lemma WriteAt(buf: string, off: nat, bytes: string)
    requires off + |bytes| <= |buf|
    ensures forall k :: 0 <= k < |buf| ==>
      Write(buf, off, bytes)[k] == if off <= k < off + |bytes| then bytes[k - off] else buf[k]
  {
  }

  /** How the loop ended. */
  datatype ScanEnd =
    | SawTerminal    // the `//0` line: the block is complete
    | SawQuit        // the `quit` line: `read_block` returns NULL
    | WouldOverflow  // the next `strncpy` would write past the end of `block_buffer`
    | RanOut         // the input ended before either sentinel

  /** The loop's outcome: how it ended, how many lines it read and the final `offset`. */
  datatype ScanResult = ScanResult(end: ScanEnd, consumed: nat, offset: nat) {
    /** The lines whose length went into `offset`: all read, except a final quit line. */
    function Counted(): nat {
      if end == SawQuit && consumed > 0 then consumed - 1 else consumed
    }

    /** The lines copied into the buffer: all read, except a final quit line
        or a final line whose copy would not fit. */
    function Copied(): nat {
      if (end == SawQuit || end == WouldOverflow) && consumed > 0 then consumed - 1 else consumed
    }
  }

  /** The loop run on the line texts from the given `offset`. Each line first
      adds its length to `offset`, then is copied to `block_buffer + offset`;
      a copy that would not fit in the buffer stops the loop instead of
      writing out of range. What the copies leave in the buffer is `Filled`. */
  function Scan(texts: seq<string>, offset: nat): (s: ScanResult)
    ensures s.consumed <= |texts|
    ensures s.end != RanOut ==> 0 < s.consumed
    decreases |texts|
  {
    if texts == [] then ScanResult(RanOut, 0, offset)
    else
      var t := texts[0];
      if IsQuit(t) then ScanResult(SawQuit, 1, offset)
      else
        var off := offset + |t|;
        if off + LINE_MAX_SIZE > BLOCK_MAX_SIZE then ScanResult(WouldOverflow, 1, off)
        else if IsTerminal(t) then ScanResult(SawTerminal, 1, off)
        else
          var r := Scan(texts[1..], off);
          r.(consumed := r.consumed + 1)
  }

  /** The loop reads at least one line whenever there is one to read. */
  lemma ScanReadsALine(texts: seq<string>, offset: nat)
    requires texts != []
    ensures 0 < Scan(texts, offset).consumed
  {
  }

  /** Sum of the lengths of the texts. */
  function TextLen(texts: seq<string>): nat {
    if texts == [] then 0 else TextLen(texts[..|texts| - 1]) + |texts[|texts| - 1]|
  }

  lemma {:induction false} TextLenAppend(a: seq<string>, b: seq<string>)
    ensures TextLen(a + b) == TextLen(a) + TextLen(b)
  {
    if b == [] {
      assert a + b == a;
    } else {
      var ab := a + b;
      assert ab[..|ab| - 1] == a + b[..|b| - 1];
      assert ab[|ab| - 1] == b[|b| - 1];
      TextLenAppend(a, b[..|b| - 1]);
    }
  }

  /** The length of the first text plus that of the rest. */
  lemma TextLenCons(texts: seq<string>, n: nat)
    requires n < |texts|
    ensures TextLen(texts[..n + 1]) == |texts[0]| + TextLen(texts[1..][..n])
  {
    assert texts[..n + 1] == [texts[0]] + texts[1..][..n];
    TextLenAppend([texts[0]], texts[1..][..n]);
    assert [texts[0]][..0] == [];
  }

  /** What `block_buffer` holds after the loop copied `texts` into `buf`
      starting from `offset`: each text written by `strncpy` at the offset
      reached after adding its own length. */
  function Filled(texts: seq<string>, offset: nat, buf: string): (r: string)
    requires |buf| == BLOCK_MAX_SIZE
    requires texts != [] ==> offset + TextLen(texts) + LINE_MAX_SIZE <= BLOCK_MAX_SIZE
    ensures |r| == BLOCK_MAX_SIZE
  {
    if texts == [] then buf
    else
      Write(Filled(texts[..|texts| - 1], offset, buf), offset + TextLen(texts),
            StrncpyBytes(texts[|texts| - 1], LINE_MAX_SIZE))
  }

  /** Lines `from` up to `to` are all ordinary. */
  predicate OrdinaryRun(texts: seq<string>, from: nat, to: nat)
    requires from <= to <= |texts|
  {
    forall j :: from <= j < to ==> Ordinary(texts[j])
  }

  /** The loop passes over a run of `k` ordinary lines whose copies fit, and
      then goes on exactly as a loop started after them with their length
      already added to the offset. */
  lemma {:induction false} ScanSkipsOrdinary(texts: seq<string>, k: nat, offset: nat)
    requires k <= |texts| && OrdinaryRun(texts, 0, k)
    requires 0 < k ==> offset + TextLen(texts[..k]) + LINE_MAX_SIZE <= BLOCK_MAX_SIZE
    ensures var r := Scan(texts[k..], offset + TextLen(texts[..k]));
      Scan(texts, offset) == r.(consumed := r.consumed + k)
  {
    if k == 0 {
      assert texts[0..] == texts && texts[..0] == [];
    } else {
      var t := texts[0];
      TextLenCons(texts, k - 1);
      assert texts[1..][k - 1..] == texts[k..];
      if k > 1 {
        ScanSkipsOrdinary(texts[1..], k - 1, offset + |t|);
      } else {
        assert texts[1..][..0] == [];
      }
    }
  }

  /** Every line before the last one the loop read is ordinary. */
  lemma {:induction false} ScanReadsOrdinaryLines(texts: seq<string>, offset: nat)
    ensures var s := Scan(texts, offset);
      forall j :: 0 <= j && j + 1 < s.consumed ==> Ordinary(texts[j])
  {
    if texts != [] {
      var t := texts[0];
      var off := offset + |t|;
      if !IsQuit(t) && off + LINE_MAX_SIZE <= BLOCK_MAX_SIZE && !IsTerminal(t) {
        ScanReadsOrdinaryLines(texts[1..], off);
        var r := Scan(texts[1..], off);
        forall j | 1 <= j && j + 1 < r.consumed + 1 ensures Ordinary(texts[j]) {
          assert texts[j] == texts[1..][j - 1];
        }
      }
    }
  }

  /** The loop stops only at a sentinel line, at a copy that would overflow,
      or at the end of the input, and the last line it read says which. */
  lemma {:induction false} ScanStopsAtSentinel(texts: seq<string>, offset: nat)
    ensures var s := Scan(texts, offset);
      && (s.end == RanOut ==> s.consumed == |texts| && (|texts| == 0 || Ordinary(texts[|texts| - 1])))
      && (s.end == SawQuit ==> IsQuit(texts[s.consumed - 1]))
      && (s.end == SawTerminal ==> IsTerminal(texts[s.consumed - 1]))
      && (s.end == WouldOverflow ==>
            !IsQuit(texts[s.consumed - 1]) && s.offset + LINE_MAX_SIZE > BLOCK_MAX_SIZE)
  {
    if texts != [] {
      var t := texts[0];
      var off := offset + |t|;
      if !IsQuit(t) && off + LINE_MAX_SIZE <= BLOCK_MAX_SIZE && !IsTerminal(t) {
        ScanStopsAtSentinel(texts[1..], off);
        var r := Scan(texts[1..], off);
        if r.consumed > 0 {
          assert texts[r.consumed] == texts[1..][r.consumed - 1];
        }
        if |texts| > 1 {
          assert texts[|texts| - 1] == texts[1..][|texts[1..]| - 1];
        }
      }
    }
  }

  /** `offset` ends as the starting offset plus the length of every line read,
      the terminator line included and a quit line left out. */
  lemma {:induction false} ScanOffset(texts: seq<string>, offset: nat)
    ensures var s := Scan(texts, offset);
      s.offset == offset + TextLen(texts[..s.Counted()])
  {
    if texts != [] {
      var t := texts[0];
      var off := offset + |t|;
      TextLenCons(texts, 0);
      if !IsQuit(t) && off + LINE_MAX_SIZE <= BLOCK_MAX_SIZE && !IsTerminal(t) {
        ScanOffset(texts[1..], off);
        var r := Scan(texts[1..], off);
        TextLenCons(texts, r.Counted());
      }
    }
  }

  /** Every copy the loop makes fits in the buffer: the last line copied
      ends at least LINE_MAX_SIZE bytes before its end, so the copies are
      what `Filled` describes and the `WARN_ON(offset >= BLOCK_MAX_SIZE)`
      after the copy never fires. */
  lemma {:induction false} ScanCopiesFit(texts: seq<string>, offset: nat)
    ensures var s := Scan(texts, offset);
      0 < s.Copied() ==> offset + TextLen(texts[..s.Copied()]) + LINE_MAX_SIZE <= BLOCK_MAX_SIZE
  {
    if texts != [] {
      var t := texts[0];
      var off := offset + |t|;
      TextLenCons(texts, 0);
      if !IsQuit(t) && off + LINE_MAX_SIZE <= BLOCK_MAX_SIZE && !IsTerminal(t) {
        ScanCopiesFit(texts[1..], off);
        var r := Scan(texts[1..], off);
        TextLenCons(texts, r.Copied());
      }
    }
  }

  /** The line whose copy the loop refuses would be copied at an offset
      below BLOCK_MAX_SIZE, so the `WARN_ON(offset >= BLOCK_MAX_SIZE)` that
      follows the copy would not report it. */
  lemma {:induction false} OverflowGoesUnwarned(texts: seq<string>, offset: nat)
    requires AreLineTexts(texts) && offset + LINE_MAX_SIZE <= BLOCK_MAX_SIZE
    ensures var s := Scan(texts, offset);
      s.end == WouldOverflow ==> s.offset < BLOCK_MAX_SIZE
  {
    if texts != [] {
      var t := texts[0];
      var off := offset + |t|;
      if !IsQuit(t) && off + LINE_MAX_SIZE <= BLOCK_MAX_SIZE && !IsTerminal(t) {
        assert AreLineTexts(texts[1..]) by {
          assert forall k :: 0 <= k < |texts| - 1 ==> texts[1..][k] == texts[k + 1];
        }
        OverflowGoesUnwarned(texts[1..], off);
      }
    }
  }

  /** Each line is copied to the offset reached AFTER adding its own length,
      so index 0 is only ever written by an empty line, with NUL: a buffer
      that starts with NUL still starts with NUL after the copies. */
  lemma {:induction false} FilledKeepsLeadingNul(texts: seq<string>, offset: nat, buf: string)
    requires |buf| == BLOCK_MAX_SIZE && buf[0] == '\0'
    requires texts != [] ==> offset + TextLen(texts) + LINE_MAX_SIZE <= BLOCK_MAX_SIZE
    ensures Filled(texts, offset, buf)[0] == '\0'
  {
    if texts != [] {
      var t := texts[|texts| - 1];
      FilledKeepsLeadingNul(texts[..|texts| - 1], offset, buf);
      if offset + TextLen(texts) == 0 {
        assert CStr(t) == t == [];
        StrncpyAt(t, LINE_MAX_SIZE);
      }
    }
  }
  /** The outcome of the line loop of `read_block` started at line `pos` of
      the line texts `texts` on a buffer holding `buf`: it ended as `Scan`
      says, after reading `next - pos` lines, with `offset` as `Scan`
      computes it, every copy fit in the buffer, and the buffer `now` holds
      what those copies left. */
  ghost predicate Accumulated(texts: seq<string>, pos: nat, buf: string,
                              end: ScanEnd, next: nat, offset: nat, now: string)
    requires pos <= |texts| && |buf| == BLOCK_MAX_SIZE
  {
    var s := Scan(texts[pos..], 0);
    && end == s.end && next == pos + s.consumed && offset == s.offset
    && (0 < s.Copied() ==> TextLen(texts[pos..][..s.Copied()]) + LINE_MAX_SIZE <= BLOCK_MAX_SIZE)
    && now == Filled(texts[pos..][..s.Copied()], 0, buf)
  }

  /** After the ordinary lines `pos` up to `i`, the loop started at `pos`
      goes on as one started at `i` with their length already in `offset`. */
  lemma LoopSkipsRun(texts: seq<string>, pos: nat, i: nat)
    requires pos <= i <= |texts| && OrdinaryRun(texts, pos, i)
    requires pos < i ==> TextLen(texts[pos..i]) + LINE_MAX_SIZE <= BLOCK_MAX_SIZE
    ensures texts[pos..][..i - pos] == texts[pos..i]
    ensures var r := Scan(texts[i..], TextLen(texts[pos..i]));
      Scan(texts[pos..], 0) == r.(consumed := r.consumed + (i - pos))
  {
    var rest := texts[pos..];
    assert rest[..i - pos] == texts[pos..i];
    assert rest[i - pos..] == texts[i..];
    assert forall j :: 0 <= j < i - pos ==> rest[j] == texts[pos + j];
    ScanSkipsOrdinary(rest, i - pos, 0);
  }

  /** The loop state after the ordinary lines `pos` up to `i` whose copies
      left `now` in the buffer. */
  ghost predicate LoopState(texts: seq<string>, pos: nat, i: nat, offset: nat, buf: string, now: string)
  {
    && pos <= i <= |texts| && |buf| == BLOCK_MAX_SIZE
    && offset == TextLen(texts[pos..i])
    && OrdinaryRun(texts, pos, i)
    && (pos < i ==> TextLen(texts[pos..i]) + LINE_MAX_SIZE <= BLOCK_MAX_SIZE)
    && now == Filled(texts[pos..i], 0, buf)
  }

  // The five lemmas below state the loop state they start from as the
  // antecedent of their ensures rather than as a requires: the loop in
  // `Jit.JitSession.AccumulateLines` then gets their conclusions without
  // re-proving the whole loop state at each call, which keeps it cheap to verify.

  /** The input ends after an ordinary run: the loop ran out. */
  lemma RanOutExit(texts: seq<string>, pos: nat, offset: nat, buf: string, now: string)
    ensures LoopState(texts, pos, |texts|, offset, buf, now) ==>
      Accumulated(texts, pos, buf, RanOut, |texts|, offset, now)
  {
    if LoopState(texts, pos, |texts|, offset, buf, now) {
      var n := |texts| - pos;
      LoopSkipsRun(texts, pos, |texts|);
      assert texts[|texts|..] == [];
      assert texts[pos..|texts|] == texts[pos..];
      var s := Scan(texts[pos..], 0);
      assert s == ScanResult(RanOut, n, offset);
    }
  }

  /** Line `i` after an ordinary run is the quit line: it is read, not counted
      and not copied. */
  lemma QuitExit(texts: seq<string>, pos: nat, i: nat, offset: nat, buf: string, now: string)
    requires i < |texts|
    ensures LoopState(texts, pos, i, offset, buf, now) && IsQuit(texts[i]) ==>
      Accumulated(texts, pos, buf, SawQuit, i + 1, offset, now)
  {
    if LoopState(texts, pos, i, offset, buf, now) && IsQuit(texts[i]) {
      LoopSkipsRun(texts, pos, i);
      assert texts[i..][0] == texts[i];
    }
  }

  /** Line `i` after an ordinary run would be copied past the end of the
      buffer: it is read and counted, but not copied. */
  lemma OverflowExit(texts: seq<string>, pos: nat, i: nat, offset: nat, buf: string, now: string)
    requires i < |texts|
    ensures && LoopState(texts, pos, i, offset, buf, now) && !IsQuit(texts[i])
            && offset + |texts[i]| + LINE_MAX_SIZE > BLOCK_MAX_SIZE
            ==> Accumulated(texts, pos, buf, WouldOverflow, i + 1, offset + |texts[i]|, now)
  {
    if LoopState(texts, pos, i, offset, buf, now) && !IsQuit(texts[i]) {
      LoopSkipsRun(texts, pos, i);
      assert texts[i..][0] == texts[i];
    }
  }

  /** Line `i` after an ordinary run is the terminator and fits: it is read,
      counted and copied, and the block is complete. */
  lemma TerminalExit(texts: seq<string>, pos: nat, i: nat, offset: nat, buf: string, now: string)
    requires i < |texts|
    ensures var t := texts[i];
      var off := offset + |t|;
      && LoopState(texts, pos, i, offset, buf, now)
      && !IsQuit(t) && IsTerminal(t) && off + LINE_MAX_SIZE <= BLOCK_MAX_SIZE
      ==> Accumulated(texts, pos, buf, SawTerminal, i + 1, off, Write(now, off, StrncpyBytes(t, LINE_MAX_SIZE)))
  {
    var t := texts[i];
    var off := offset + |t|;
    if LoopState(texts, pos, i, offset, buf, now) && !IsQuit(t) && IsTerminal(t) && off + LINE_MAX_SIZE <= BLOCK_MAX_SIZE {
      LoopSkipsRun(texts, pos, i);
      assert texts[i..][0] == t;
      var s := Scan(texts[pos..], 0);
      assert s == ScanResult(SawTerminal, i + 1 - pos, off);
      LoopStep(texts, pos, i, buf);
      assert texts[pos..][..s.Copied()] == texts[pos..i + 1];
    }
  }

  /** An ordinary line `i` that fits extends the run. */
  lemma OrdinaryStep(texts: seq<string>, pos: nat, i: nat, offset: nat, buf: string, now: string)
    requires i < |texts|
    ensures var t := texts[i];
      var off := offset + |t|;
      && LoopState(texts, pos, i, offset, buf, now)
      && Ordinary(t) && off + LINE_MAX_SIZE <= BLOCK_MAX_SIZE
      ==> LoopState(texts, pos, i + 1, off, buf, Write(now, off, StrncpyBytes(t, LINE_MAX_SIZE)))
  {
    if LoopState(texts, pos, i, offset, buf, now) {
      LoopStep(texts, pos, i, buf);
    }
  }

  /** Copying line `i` after the lines `pos` up to `i`: its length is added
      to the offset and `Filled` gains its copy. */
  lemma LoopStep(texts: seq<string>, pos: nat, i: nat, buf: string)
    requires pos <= i < |texts| && |buf| == BLOCK_MAX_SIZE
    ensures TextLen(texts[pos..i + 1]) == TextLen(texts[pos..i]) + |texts[i]|
    ensures TextLen(texts[pos..i + 1]) + LINE_MAX_SIZE <= BLOCK_MAX_SIZE ==>
      Filled(texts[pos..i + 1], 0, buf) ==
        Write(Filled(texts[pos..i], 0, buf), TextLen(texts[pos..i + 1]), StrncpyBytes(texts[i], LINE_MAX_SIZE))
  {
    assert texts[pos..i + 1][..i - pos] == texts[pos..i] && texts[pos..i + 1][i - pos] == texts[i];
  }

}
