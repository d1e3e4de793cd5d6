/** Writing a run of words into a buffer. */
module Buffers {

  /** The words ws put into the row from index k on, behind the words before. */
  method Put(row: array<nat>, k: nat, ws: seq<nat>, ghost before: seq<nat>)
    requires k + |ws| <= row.Length && row[..k] == before
    modifies row
    ensures row[..k + |ws|] == before + ws
    ensures row[k + |ws|..] == old(row[k + |ws|..])
  {
    var i := 0;
    while i < |ws|
      invariant i <= |ws|
      invariant row[..k] == before && row[k..k + i] == ws[..i]
      invariant row[k + |ws|..] == old(row[k + |ws|..])
    {
      row[k + i] := ws[i];
      assert row[k..k + i + 1] == row[k..k + i] + [ws[i]];
      i := i + 1;
    }
    assert ws[..|ws|] == ws;
    assert row[..k + |ws|] == row[..k] + row[k..k + |ws|];
  }
}
