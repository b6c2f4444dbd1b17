/** Where `read_block` copies each line. As written (src/jit.c:112-113) the
    copy goes to `block_buffer + offset` after `offset` has already grown by
    the line's length, so nothing but NUL ever lands at index 0 and the C
    string that `create_block` writes out is always empty. Copying before
    advancing the offset makes the buffer hold the block that was typed. */
module WritePosition {
  import opened CString
  import opened Accumulate

  /** As written: once the loop saw the terminator, every copy fits in the
      buffer, and the text `create_block` hands to `fputs` from a buffer that
      started with NUL is empty, whatever the lines were. */
  lemma AsWrittenTextIsEmpty(texts: seq<string>, buf: string)
    requires |buf| == BLOCK_MAX_SIZE && buf[0] == '\0'
    ensures var s := Scan(texts, 0);
      s.end == SawTerminal ==>
        && TextLen(texts[..s.consumed]) + LINE_MAX_SIZE <= BLOCK_MAX_SIZE
        && CStr(Filled(texts[..s.consumed], 0, buf)[..BLOCK_MAX_SIZE - 1]) == ""
  {
    var s := Scan(texts, 0);
    ScanCopiesFit(texts, 0);
    if s.end == SawTerminal {
      var b := Filled(texts[..s.consumed], 0, buf);
      FilledKeepsLeadingNul(texts[..s.consumed], 0, buf);
      CStrAt(b[..BLOCK_MAX_SIZE - 1], 0);
    }
  }

  /** The two reads of the example below are their own line texts. */
  lemma ExampleTexts()
    ensures Texts(["x = 1;\n", TERMINAL_CMD]) == ["x = 1;\n", TERMINAL_CMD]
  {
    var input := ["x = 1;\n", TERMINAL_CMD];
    CStrAt(input[0], |input[0]|);
    CStrAt(input[1], |input[1]|);
    TextAt(input, 0);
    TextAt(input, 1);
    assert Texts(input)[0] == input[0] && Texts(input)[1] == input[1];
  }

  /** A concrete block that is lost: one line of code and the terminator
      give a complete block, yet the text written for it is empty. */
  lemma AsWrittenLosesBlock(buf: string)
    requires |buf| == BLOCK_MAX_SIZE && buf[0] == '\0'
    ensures var texts := Texts(["x = 1;\n", TERMINAL_CMD]);
      && Scan(texts, 0) == ScanResult(SawTerminal, 2, 11)
      && Joined(texts) == "x = 1;\n//0\n"
      && CStr(Filled(texts, 0, buf)[..BLOCK_MAX_SIZE - 1]) == ""
  {
    ExampleTexts();
    var texts := ["x = 1;\n", TERMINAL_CMD];
    SentinelsAreExact(texts[0]);
    SentinelsAreExact(texts[1]);
    assert texts[1..] == [TERMINAL_CMD];
    assert texts[..1] == ["x = 1;\n"];
    AsWrittenTextIsEmpty(texts, buf);
    assert texts[..2] == texts;
  }

  /** The loop with the overflow check made before the copy and each line
      copied to the offset reached BEFORE its own length is added: the
      behaviour the accumulation evidently intends. */
  function ScanIntended(texts: seq<string>, offset: nat): (s: ScanResult)
    ensures s.consumed <= |texts|
    ensures s.end != RanOut ==> 0 < s.consumed
    decreases |texts|
  {
    if texts == [] then ScanResult(RanOut, 0, offset)
    else
      var t := texts[0];
      if IsQuit(t) then ScanResult(SawQuit, 1, offset)
      else if offset + LINE_MAX_SIZE > BLOCK_MAX_SIZE then ScanResult(WouldOverflow, 1, offset + |t|)
      else if IsTerminal(t) then ScanResult(SawTerminal, 1, offset + |t|)
      else
        var r := ScanIntended(texts[1..], offset + |t|);
        r.(consumed := r.consumed + 1)
  }

  /** The corrected loop, too, reads at least one line whenever there is one to read. */
  lemma ScanIntendedReadsALine(texts: seq<string>, offset: nat)
    requires texts != []
    ensures 0 < ScanIntended(texts, offset).consumed
  {
  }

  /** What the intended copies leave in the buffer: each text written at the
      offset reached before its own length is added. */
  function FilledIntended(texts: seq<string>, offset: nat, buf: string): (r: string)
    requires |buf| == BLOCK_MAX_SIZE
    requires texts != [] ==> offset + TextLen(texts[..|texts| - 1]) + LINE_MAX_SIZE <= BLOCK_MAX_SIZE
    ensures |r| == BLOCK_MAX_SIZE
  {
    if texts == [] then buf
    else
      var init := texts[..|texts| - 1];
      Write(FilledIntended(init, offset, buf), offset + TextLen(init),
            StrncpyBytes(texts[|texts| - 1], LINE_MAX_SIZE))
  }

  /** Copying a line at `offset` leaves the buffer's first `offset`
      characters alone, puts the line right after them and a NUL after it. */
  lemma CopyAppendsLine(buf: string, offset: nat, t: string)
    requires NulFree(t) && |t| < LINE_MAX_SIZE && offset + LINE_MAX_SIZE <= |buf|
    ensures var w := Write(buf, offset, StrncpyBytes(t, LINE_MAX_SIZE));
      w[..offset + |t|] == buf[..offset] + t && w[offset + |t|] == '\0'
  {
    CStrAt(t, |t|);
    StrncpyAt(t, LINE_MAX_SIZE);
    var w := Write(buf, offset, StrncpyBytes(t, LINE_MAX_SIZE));
    WriteAt(buf, offset, StrncpyBytes(t, LINE_MAX_SIZE));
    assert forall k :: 0 <= k < offset ==> w[..offset + |t|][k] == buf[k];
    assert forall k :: 0 <= k < |t| ==> w[..offset + |t|][offset + k] == t[k];
  }

  /** The intended copies put the texts, one after the other, right after
      the starting offset, and a NUL after the last one. */
  lemma {:induction false} IntendedBufferHoldsLines(texts: seq<string>, offset: nat, buf: string)
    requires |buf| == BLOCK_MAX_SIZE && offset <= BLOCK_MAX_SIZE && AreLineTexts(texts)
    requires texts != [] ==> offset + TextLen(texts[..|texts| - 1]) + LINE_MAX_SIZE <= BLOCK_MAX_SIZE
    ensures var r := FilledIntended(texts, offset, buf);
      && offset + TextLen(texts) <= BLOCK_MAX_SIZE
      && r[..offset + TextLen(texts)] == buf[..offset] + Joined(texts)
      && (texts != [] ==> r[offset + TextLen(texts)] == '\0')
  {
    if texts == [] {
      assert buf[..offset] + Joined(texts) == buf[..offset];
    } else {
      var init := texts[..|texts| - 1];
      var t := texts[|texts| - 1];
      var off := offset + TextLen(init);
      var before := FilledIntended(init, offset, buf);
      assert before[..off] == buf[..offset] + Joined(init) by {
        assert AreLineTexts(init) by {
          assert forall k :: 0 <= k < |init| ==> init[k] == texts[k];
        }
        IntendedBufferHoldsLines(init, offset, buf);
      }
      assert NulFree(t) && |t| < LINE_MAX_SIZE;
      CopyAppendsLine(before, off, t);
      assert Joined(texts) == Joined(init) + t;
      assert buf[..offset] + Joined(init) + t == buf[..offset] + Joined(texts);
    }
  }

  /** The intended loop, once it saw the terminator, made only copies that
      fit in the buffer. */
  lemma {:induction false} IntendedCopiesFit(texts: seq<string>, offset: nat)
    ensures var s := ScanIntended(texts, offset);
      s.end == SawTerminal ==> offset + TextLen(texts[..s.consumed - 1]) + LINE_MAX_SIZE <= BLOCK_MAX_SIZE
  {
    if texts != [] {
      var t := texts[0];
      if !IsQuit(t) && offset + LINE_MAX_SIZE <= BLOCK_MAX_SIZE && !IsTerminal(t) {
        var r := ScanIntended(texts[1..], offset + |t|);
        IntendedCopiesFit(texts[1..], offset + |t|);
        if r.end == SawTerminal {
          TextLenCons(texts, r.consumed - 1);
        }
      }
    }
  }

  /** Corrected: the text written for a complete block is exactly the lines
      typed, the terminator line included. */
  lemma IntendedTextIsBlock(texts: seq<string>, buf: string)
    requires |buf| == BLOCK_MAX_SIZE && AreLineTexts(texts)
    ensures var s := ScanIntended(texts, 0);
      var block := texts[..s.consumed];
      s.end == SawTerminal ==>
        && TextLen(block[..|block| - 1]) + LINE_MAX_SIZE <= BLOCK_MAX_SIZE
        && CStr(FilledIntended(block, 0, buf)[..BLOCK_MAX_SIZE - 1]) == Joined(block)
  {
    var s := ScanIntended(texts, 0);
    IntendedCopiesFit(texts, 0);
    if s.end == SawTerminal {
      var block := texts[..s.consumed];
      assert block[..|block| - 1] == texts[..s.consumed - 1];
      IntendedBufferHoldsLines(block, 0, buf);
      JoinedIsNulFree(block);
      var r := FilledIntended(block, 0, buf);
      var n := TextLen(block);
      var x := r[..BLOCK_MAX_SIZE - 1];
      if n < BLOCK_MAX_SIZE - 1 {
        assert x[..n] == r[..n];
        CStrAt(x, n);
      } else {
        assert x == r[..n];
        CStrAt(x, |x|);
      }
    }
  }
}
