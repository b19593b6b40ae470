/**
 * The `fix_drive_ids` management command: every stored Drive id that is a
 * pasted link is rewritten to the bare id, column by column, and the
 * number of saved records is reported.
 *
 * Each column is modelled as an array holding that column's values in
 * table order.
 */
module FixDriveIds {
  import Text
  import DriveIds
  import Models

  /**
   * A column after the pass: each value is `extract_drive_id` of itself, rows
   * holding "" being excluded; this is the model's `NormaliseId`.
   */
  function NormalisedColumn(ids: seq<string>): (r: seq<string>)
    ensures |r| == |ids|
    ensures forall i :: 0 <= i < |ids| ==> r[i] == Models.NormaliseId(ids[i])
  {
    seq(|ids|, i requires 0 <= i < |ids| => Models.NormaliseId(ids[i]))
  }

  /** The rows whose value differs between two versions of a column, in table order. */
  function ChangedRows(before: seq<string>, after: seq<string>): (rows: seq<nat>)
    requires |after| == |before|
    ensures |rows| <= |before|
    ensures forall k :: 0 <= k < |rows| ==> rows[k] < |before| && after[rows[k]] != before[rows[k]]
    ensures forall k, l :: 0 <= k < l < |rows| ==> rows[k] < rows[l]
  {
    if before == [] then []
    else
      var n := |before| - 1;
      var earlier := ChangedRows(before[..n], after[..n]);
      if after[n] != before[n] then earlier + [n] else earlier
  }

  /** Every row whose value differs is listed. */
  lemma {:induction false} ChangedRowsComplete(before: seq<string>, after: seq<string>, i: nat)
    requires |after| == |before| && i < |before| && after[i] != before[i]
    ensures i in ChangedRows(before, after)
  {
    var n := |before| - 1;
    if i < n {
      assert before[..n][i] == before[i] && after[..n][i] == after[i];
      ChangedRowsComplete(before[..n], after[..n], i);
    }
  }

  /** Nothing differs between a column and itself. */
  lemma {:induction false} NoChangedRows(ids: seq<string>)
    ensures ChangedRows(ids, ids) == []
  {
    if ids != [] {
      NoChangedRows(ids[..|ids| - 1]);
    }
  }

  /** The normalised column is a fixed point: a second pass leaves every row as it is, so it saves nothing. */
  lemma SecondPassSavesNothing(ids: seq<string>)
    ensures NormalisedColumn(NormalisedColumn(ids)) == NormalisedColumn(ids)
    ensures ChangedRows(NormalisedColumn(ids), NormalisedColumn(NormalisedColumn(ids))) == []
  {
    var f := NormalisedColumn(ids);
    forall i | 0 <= i < |ids|
      ensures NormalisedColumn(f)[i] == f[i]
    {
      Models.NormaliseIdIdempotent(ids[i]);
    }
    NoChangedRows(f);
  }

  /** A column's loop: a changed id is written back and counted. */
  method FixColumn(ids: array<string>) returns (saved: seq<nat>)
    modifies ids
    ensures ids[..] == NormalisedColumn(old(ids[..]))
    ensures saved == ChangedRows(old(ids[..]), ids[..])
  {
    ghost var before := ids[..];
    saved := [];
    var k := 0;
    while k < ids.Length
      invariant k <= ids.Length
      invariant ids[..k] == NormalisedColumn(before[..k])
      invariant |ids[..]| == |before| && ids[k..] == before[k..]
      invariant saved == ChangedRows(before[..k], ids[..k])
    {
      ghost var current := ids[..];
      assert current[k] == before[k];
      var changed := FixRow(ids, k);
      if changed {
        saved := saved + [k];
      }
      LoopStep(before, current, ids[..], k);
      k := k + 1;
    }
    assert before[..k] == before;
    assert ids[..k] == ids[..];
  }

  /** One row of the loop: a non-empty id whose `extract_drive_id` differs is written back. */
  method FixRow(ids: array<string>, k: nat) returns (changed: bool)
    requires k < ids.Length
    modifies ids
    ensures ids[..] == old(ids[..])[k := Models.NormaliseId(old(ids[k]))]
    ensures changed <==> Models.NormaliseId(old(ids[k])) != old(ids[k])
  {
    changed := false;
    var current := ids[k];
    if current != [] {
      var normalised := DriveIds.ExtractDriveId(current);
      if normalised != current {
        ids[k] := normalised;
        changed := true;
      }
    }
  }

  /** A sequence that agrees with `p` and then holds `x` is `p + [x]`. */
  lemma Snoc<T>(s: seq<T>, p: seq<T>, x: T)
    requires |s| == |p| + 1 && s[|p|] == x
    requires forall i :: 0 <= i < |p| ==> s[i] == p[i]
    ensures s == p + [x]
  {
  }

  /** The loop's step: the normalised prefix grows by one row. */
  lemma NormalisedStep(before: seq<string>, k: nat)
    requires k < |before|
    ensures NormalisedColumn(before[..k + 1]) == NormalisedColumn(before[..k]) + [Models.NormaliseId(before[k])]
  {
    var grown := NormalisedColumn(before[..k + 1]);
    var prev := NormalisedColumn(before[..k]);
    forall i | 0 <= i < k
      ensures grown[i] == prev[i]
    {
      assert before[..k + 1][i] == before[..k][i];
    }
    assert grown[k] == Models.NormaliseId(before[k]) by {
      assert before[..k + 1][k] == before[k];
    }
    Snoc(grown, prev, Models.NormaliseId(before[k]));
  }

  /** The loop's step: the changed rows grow by the row just visited when it differs. */
  lemma ChangedStep(before: seq<string>, after: seq<string>, k: nat)
    requires |after| == |before| && k < |before|
    ensures ChangedRows(before[..k + 1], after[..k + 1]) ==
      ChangedRows(before[..k], after[..k]) + (if after[k] != before[k] then [k] else [])
  {
    var b := before[..k + 1];
    var a := after[..k + 1];
    assert b[..k] == before[..k] && a[..k] == after[..k];
    assert b[k] == before[k] && a[k] == after[k];
  }

  /** The loop's invariant carries over one row. */
  lemma LoopStep(before: seq<string>, current: seq<string>, next: seq<string>, k: nat)
    requires |current| == |before| && k < |before|
    requires current[..k] == NormalisedColumn(before[..k]) && current[k..] == before[k..]
    requires next == current[k := Models.NormaliseId(before[k])]
    ensures |next| == |before| && next[k] == Models.NormaliseId(before[k])
    ensures next[..k + 1] == NormalisedColumn(before[..k + 1]) && next[k + 1..] == before[k + 1..]
    ensures ChangedRows(before[..k + 1], next[..k + 1]) ==
      ChangedRows(before[..k], current[..k]) + (if next[k] != before[k] then [k] else [])
  {
    assert next[..k] == current[..k];
    assert next[..k + 1] == current[..k] + [next[k]];
    NormalisedStep(before, k);
    ChangedStep(before, next, k);
  }

  /** The closing message. */
  function Message(updated: nat): (m: string)
    ensures Text.StartsWith(m, "Updated ") && Text.EndsWith(m, " record(s).")
  {
    var m := "Updated " + Text.NatToString(updated) + " record(s).";
    assert m[..8] == "Updated ";
    assert m[|m| - 11..] == " record(s).";
    m
  }

  /**
   * `handle()`: the task design ids, the task folder ids, the recurring
   * task design ids, the attachment file ids and the root folder setting,
   * in that order; the count is the number of saves, so a task whose design
   * and folder ids both change counts twice. The arrays are five different
   * columns.
   */
  method Handle(taskDesign: array<string>, taskFolder: array<string>, recurringDesign: array<string>,
                attachmentFile: array<string>, rootFolder: array<string>)
    returns (updated: nat, message: string)
    requires taskDesign != taskFolder && taskDesign != recurringDesign && taskDesign != attachmentFile
    requires taskDesign != rootFolder && taskFolder != recurringDesign && taskFolder != attachmentFile
    requires taskFolder != rootFolder && recurringDesign != attachmentFile && recurringDesign != rootFolder
    requires attachmentFile != rootFolder
    modifies taskDesign, taskFolder, recurringDesign, attachmentFile, rootFolder
    ensures taskDesign[..] == NormalisedColumn(old(taskDesign[..])) && taskFolder[..] == NormalisedColumn(old(taskFolder[..]))
    ensures recurringDesign[..] == NormalisedColumn(old(recurringDesign[..]))
    ensures attachmentFile[..] == NormalisedColumn(old(attachmentFile[..])) && rootFolder[..] == NormalisedColumn(old(rootFolder[..]))
    ensures updated == |ChangedRows(old(taskDesign[..]), taskDesign[..])| + |ChangedRows(old(taskFolder[..]), taskFolder[..])|
      + |ChangedRows(old(recurringDesign[..]), recurringDesign[..])| + |ChangedRows(old(attachmentFile[..]), attachmentFile[..])| + |ChangedRows(old(rootFolder[..]), rootFolder[..])|
    ensures message == Message(updated)
  {
    var s1 := FixColumn(taskDesign);
    var s2 := FixColumn(taskFolder);
    var s3 := FixColumn(recurringDesign);
    var s4 := FixColumn(attachmentFile);
    var s5 := FixColumn(rootFolder);
    updated := |s1| + |s2| + |s3| + |s4| + |s5|;
    message := Message(updated);
  }
}
