/** The working directory, seen as the set of file names present in it. */
module FileSet {
  import opened Names

  /** The two files a block can leave behind: its source and its object. */
  function BlockFiles(id: nat): set<string> {
    {SourceFile(BlockName(id)), ObjectFile(BlockName(id))}
  }

  /** Every file the blocks of `ids` can leave behind. */
  function Artifacts(ids: seq<nat>): set<string> {
    if ids == [] then {} else BlockFiles(ids[0]) + Artifacts(ids[1..])
  }

  /** A file is an artifact of a list of blocks exactly when it is the source
      or the object of one of them. */
  lemma {:induction false} ArtifactsMembership(ids: seq<nat>, f: string)
    ensures f in Artifacts(ids) <==> exists j :: 0 <= j < |ids| && f in BlockFiles(ids[j])
  {
    if ids != [] {
      ArtifactsMembership(ids[1..], f);
      if f in BlockFiles(ids[0]) {
        assert f in BlockFiles(ids[0]);
      } else if exists j :: 0 <= j < |ids| && f in BlockFiles(ids[j]) {
        var j :| 0 <= j < |ids| && f in BlockFiles(ids[j]);
        assert f in BlockFiles(ids[1..][j - 1]);
      }
      if exists j :: 0 <= j < |ids[1..]| && f in BlockFiles(ids[1..][j]) {
        var j :| 0 <= j < |ids[1..]| && f in BlockFiles(ids[1..][j]);
        assert f in BlockFiles(ids[j + 1]);
      }
    }
  }

  /** Walking one more block of the list adds that block's two files. */
  lemma {:induction false} ArtifactsSnoc(ids: seq<nat>, i: nat)
    requires i < |ids|
    ensures Artifacts(ids[..i + 1]) == Artifacts(ids[..i]) + BlockFiles(ids[i])
  {
    if i > 0 {
      assert ids[..i + 1][1..] == ids[1..][..i];
      assert ids[..i][1..] == ids[1..][..i - 1];
      ArtifactsSnoc(ids[1..], i - 1);
    }
  }

  /** The executable is never one of the blocks' artifacts. */
  lemma {:induction false} ExecIsNoArtifact(ids: seq<nat>)
    ensures EXEC_FILE !in Artifacts(ids)
  {
    if ids != [] {
      ArtifactNamesDistinct(ids[0], ids[0]);
      ExecIsNoArtifact(ids[1..]);
    }
  }
}
