/** The names the driver derives from a block counter: the block name, its
    source and object files, and the link command (src/jit.c). */
module Names {
  import opened Decimals

  /** The executable every link writes. */
  const EXEC_FILE := "generated-jit-c"

  /** What `sprintf(cmd, "gcc -o %s ", EXEC_FILE)` puts at the head of the link command. */
  const LINK_PREFIX := "gcc -o " + EXEC_FILE + " "

  /** `sprintf(block->name, "jit-c-%ld", count)`. */
  function BlockName(id: nat): string {
    "jit-c-" + Decimal(id)
  }

  /** `sprintf(name, "%s.c", block->name)`. */
  function SourceFile(name: string): string {
    name + ".c"
  }

  /** `sprintf(name, "%s.o", block->name)`. */
  function ObjectFile(name: string): string {
    name + ".o"
  }

  predicate NoBlank(s: string) {
    forall k :: 0 <= k < |s| ==> s[k] != ' '
  }

  /** Two blocks share a name only if they share a counter value. */
  lemma BlockNameInjective(a: nat, b: nat)
    ensures BlockName(a) == BlockName(b) <==> a == b
  {
    if BlockName(a) == BlockName(b) {
      assert Decimal(a) == BlockName(a)[6..];
      assert Decimal(b) == BlockName(b)[6..];
      DecimalInjective(a, b);
    }
  }

  /** The file names of blocks: sources and objects never collide with each
      other or with the executable, and each is determined by its block. */
  lemma ArtifactNamesDistinct(a: nat, b: nat)
    ensures SourceFile(BlockName(a)) != ObjectFile(BlockName(b))
    ensures SourceFile(BlockName(a)) == SourceFile(BlockName(b)) <==> a == b
    ensures ObjectFile(BlockName(a)) == ObjectFile(BlockName(b)) <==> a == b
    ensures SourceFile(BlockName(a)) != EXEC_FILE && ObjectFile(BlockName(a)) != EXEC_FILE
  {
    var na, nb := BlockName(a), BlockName(b);
    assert SourceFile(na)[|SourceFile(na)| - 1] == 'c';
    assert ObjectFile(nb)[|ObjectFile(nb)| - 1] == 'o';
    assert EXEC_FILE[|EXEC_FILE| - 1] == 'c';
    assert SourceFile(na)[..|na|] == na && ObjectFile(na)[..|na|] == na;
    assert SourceFile(nb)[..|nb|] == nb && ObjectFile(nb)[..|nb|] == nb;
    assert SourceFile(na)[1] == 'i' != EXEC_FILE[1];
    BlockNameInjective(a, b);
  }

  /** An object file name is one non-empty shell word. */
  lemma ObjectFileIsWord(id: nat)
    ensures ObjectFile(BlockName(id)) != [] && NoBlank(ObjectFile(BlockName(id)))
  {
  }

  /** The arguments the loop of jit_exec appends, one `"<name>.o "` per block, in list order. */
  function ObjectList(ids: seq<nat>): string {
    if ids == [] then "" else ObjectFile(BlockName(ids[0])) + " " + ObjectList(ids[1..])
  }

  function LinkCommand(ids: seq<nat>): string {
    LINK_PREFIX + ObjectList(ids)
  }

  /** Appending one block at the end of the walked prefix appends its object word. */
  lemma {:induction false} ObjectListSnoc(ids: seq<nat>, i: nat)
    requires i < |ids|
    ensures ObjectList(ids[..i + 1]) == ObjectList(ids[..i]) + ObjectFile(BlockName(ids[i])) + " "
  {
    if i > 0 {
      assert ids[..i + 1][1..] == ids[1..][..i];
      assert ids[..i][1..] == ids[1..][..i - 1];
      ObjectListSnoc(ids[1..], i - 1);
    }
  }

  /** Length of the word at the head of `s`. */
  function WordLen(s: string): (n: nat)
    ensures n <= |s| && NoBlank(s[..n])
    ensures n < |s| ==> s[n] == ' '
  {
    if s == [] || s[0] == ' ' then 0
    else
      var n := 1 + WordLen(s[1..]);
      assert forall k :: 1 <= k < n ==> s[..n][k] == s[1..][..n - 1][k - 1];
      n
  }

  /** How a shell splits a command line at blanks into argument words. */
  function Words(s: string): seq<string>
    decreases |s|
  {
    if s == [] then []
    else if s[0] == ' ' then Words(s[1..])
    else [s[..WordLen(s)]] + Words(s[WordLen(s)..])
  }

  lemma WordsCons(w: string, rest: string)
    requires w != [] && NoBlank(w)
    ensures Words(w + " " + rest) == [w] + Words(rest)
  {
    var s := w + " " + rest;
    var n := WordLen(s);
    assert s[|w|] == ' ';
    assert forall k :: 0 <= k < |w| ==> s[k] == w[k];
    assert n == |w|;
    assert s[..n] == w;
    assert s[n..][1..] == rest;
  }

  /** The argument words of the link commands' object part: one object file per block. */
  function ObjectArgs(ids: seq<nat>): (args: seq<string>)
    ensures |args| == |ids|
  {
    seq(|ids|, j requires 0 <= j < |ids| => ObjectFile(BlockName(ids[j])))
  }

  lemma {:induction false} ObjectListWords(ids: seq<nat>)
    ensures Words(ObjectList(ids)) == ObjectArgs(ids)
  {
    if ids != [] {
      ObjectFileIsWord(ids[0]);
      WordsCons(ObjectFile(BlockName(ids[0])), ObjectList(ids[1..]));
      ObjectListWords(ids[1..]);
      assert ObjectArgs(ids) == [ObjectFile(BlockName(ids[0]))] + ObjectArgs(ids[1..]);
    }
  }

  /** The link command runs `gcc -o generated-jit-c` on exactly the object
      file of every listed block, in list order, none omitted or repeated. */
  lemma LinkCommandWords(ids: seq<nat>)
    ensures Words(LinkCommand(ids)) == ["gcc", "-o", EXEC_FILE] + ObjectArgs(ids)
  {
    var rest := ObjectList(ids);
    var tail := EXEC_FILE + " " + rest;
    var mid := "-o" + " " + tail;
    assert LinkCommand(ids) == "gcc" + " " + mid;
    assert NoBlank("gcc") && NoBlank("-o") && NoBlank(EXEC_FILE);
    calc {
      Words(LinkCommand(ids));
      { WordsCons("gcc", mid); }
      ["gcc"] + Words(mid);
      { WordsCons("-o", tail); }
      ["gcc"] + (["-o"] + Words(tail));
      { WordsCons(EXEC_FILE, rest); }
      ["gcc"] + (["-o"] + ([EXEC_FILE] + Words(rest)));
      { ObjectListWords(ids); }
      ["gcc"] + (["-o"] + ([EXEC_FILE] + ObjectArgs(ids)));
    }
  }

  /** Distinct blocks give distinct object arguments. */
  lemma ObjectArgsDistinct(ids: seq<nat>)
    requires forall i, j :: 0 <= i < j < |ids| ==> ids[i] != ids[j]
    ensures forall i, j :: 0 <= i < j < |ids| ==> ObjectArgs(ids)[i] != ObjectArgs(ids)[j]
  {
    forall i, j | 0 <= i < j < |ids|
      ensures ObjectArgs(ids)[i] != ObjectArgs(ids)[j]
    {
      ArtifactNamesDistinct(ids[i], ids[j]);
    }
  }
}
