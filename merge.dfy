/** The reconciliation rule of lib/localStorage.ts: `mergeNotes` and
    `mergeFolders` keep the local list as it is and append every Drive record
    whose id does not occur locally, marked `synced`. The id set is built from
    the local list only, so two Drive records with the same new id are both
    appended. */
module Merge {
  import opened Records

  // ---------------------------------------------------------------------------
  // Notes
  // ---------------------------------------------------------------------------

  /** The Drive notes that `mergeNotes` appends, in Drive order: those whose id
      is not in `localIds`, each with `synced` forced to true. */
  function AppendedNotes(localIds: set<string>, drive: seq<Note>): seq<Note>
    decreases |drive|
  {
    if drive == [] then []
    else
      var d := drive[|drive| - 1];
      AppendedNotes(localIds, drive[..|drive| - 1])
        + (if d.id in localIds then [] else [d.(synced := true)])
  }

  /** The value `mergeNotes(local, drive)` returns. */
  function MergedNotes(local: seq<Note>, drive: seq<Note>): seq<Note>
  {
    local + AppendedNotes(NoteIds(local), drive)
  }

  /** `mergeNotes`: copy the local list, collect its ids, then push every Drive
      note with an unknown id. */
  method MergeNotes(localNotes: seq<Note>, driveNotes: seq<Note>) returns (merged: seq<Note>)
    ensures merged == MergedNotes(localNotes, driveNotes)
    ensures |merged| >= |localNotes| && merged[..|localNotes|] == localNotes
  {
    merged := localNotes;
    var localIds := set n | n in localNotes :: n.id;
    for i := 0 to |driveNotes|
      invariant merged == localNotes + AppendedNotes(localIds, driveNotes[..i])
    {
      var d := driveNotes[i];
      if d.id !in localIds {
        merged := merged + [d.(synced := true)];
      }
      assert driveNotes[..i + 1][..i] == driveNotes[..i];
    }
    assert driveNotes[..|driveNotes|] == driveNotes;
  }

  /** The positions of the Drive notes that are appended, in increasing order. */
  ghost function NewNoteIndices(localIds: set<string>, drive: seq<Note>): seq<nat>
    decreases |drive|
  {
    if drive == [] then []
    else
      var j := |drive| - 1;
      NewNoteIndices(localIds, drive[..j]) + (if drive[j].id in localIds then [] else [j])
  }

  /** The positions listed by `NewNoteIndices` are in range and hold Drive
      notes whose id is unknown locally. */
  lemma {:induction false} NewNoteIndicesSound(localIds: set<string>, drive: seq<Note>)
    ensures forall k :: 0 <= k < |NewNoteIndices(localIds, drive)| ==> NewNoteIndices(localIds, drive)[k] < |drive|
    ensures forall k :: 0 <= k < |NewNoteIndices(localIds, drive)| ==> drive[NewNoteIndices(localIds, drive)[k]].id !in localIds
    decreases |drive|
  {
    if drive != [] {
      var j := |drive| - 1;
      var front := drive[..j];
      NewNoteIndicesSound(localIds, front);
      var idx0, idx := NewNoteIndices(localIds, front), NewNoteIndices(localIds, drive);
      assert idx == idx0 + (if drive[j].id in localIds then [] else [j]);
      forall k | 0 <= k < |idx|
        ensures idx[k] < |drive| && drive[idx[k]].id !in localIds
      {
        if k < |idx0| {
          assert idx[k] == idx0[k] && front[idx0[k]] == drive[idx0[k]];
        }
      }
    }
  }

  /** The positions listed by `NewNoteIndices` strictly increase. */
  lemma {:induction false} NewNoteIndicesIncreasing(localIds: set<string>, drive: seq<Note>)
    ensures forall k1, k2 :: 0 <= k1 < k2 < |NewNoteIndices(localIds, drive)| ==>
      NewNoteIndices(localIds, drive)[k1] < NewNoteIndices(localIds, drive)[k2]
    decreases |drive|
  {
    if drive != [] {
      var j := |drive| - 1;
      var front := drive[..j];
      NewNoteIndicesIncreasing(localIds, front);
      NewNoteIndicesSound(localIds, front);
      var idx0, idx := NewNoteIndices(localIds, front), NewNoteIndices(localIds, drive);
      assert idx == idx0 + (if drive[j].id in localIds then [] else [j]);
      assert forall k :: 0 <= k < |idx0| ==> idx[k] == idx0[k] < j;
    }
  }

  /** Every position whose Drive note has an id unknown locally is listed. */
  lemma {:induction false} NewNoteIndicesComplete(localIds: set<string>, drive: seq<Note>)
    ensures forall j :: 0 <= j < |drive| && drive[j].id !in localIds ==> j in NewNoteIndices(localIds, drive)
    decreases |drive|
  {
    if drive != [] {
      var j := |drive| - 1;
      var front := drive[..j];
      NewNoteIndicesComplete(localIds, front);
      var idx0, idx := NewNoteIndices(localIds, front), NewNoteIndices(localIds, drive);
      assert idx == idx0 + (if drive[j].id in localIds then [] else [j]);
      forall i | 0 <= i < |drive| && drive[i].id !in localIds
        ensures i in idx
      {
        if i < j {
          assert front[i] == drive[i];
          assert i in idx0;
        }
      }
    }
  }

  /** Entry `k` of the appended notes is the Drive note at position `k` of
      `NewNoteIndices`, with `synced = true`. */
  lemma {:induction false} AppendedNotesAt(localIds: set<string>, drive: seq<Note>)
    ensures var a, idx := AppendedNotes(localIds, drive), NewNoteIndices(localIds, drive);
      && |a| == |idx|
      && forall k :: 0 <= k < |idx| ==> idx[k] < |drive| && a[k] == drive[idx[k]].(synced := true)
    decreases |drive|
  {
    if drive != [] {
      var j := |drive| - 1;
      var front := drive[..j];
      AppendedNotesAt(localIds, front);
      var a0, idx0 := AppendedNotes(localIds, front), NewNoteIndices(localIds, front);
      var a, idx := AppendedNotes(localIds, drive), NewNoteIndices(localIds, drive);
      if drive[j].id in localIds {
        assert a == a0 && idx == idx0;
      } else {
        assert a == a0 + [drive[j].(synced := true)] && idx == idx0 + [j];
      }
      forall k | 0 <= k < |idx|
        ensures idx[k] < |drive| && a[k] == drive[idx[k]].(synced := true)
      {
        if k < |idx0| {
          assert front[idx0[k]] == drive[idx0[k]];
        }
      }
    }
  }

  /** The appended notes are exactly the Drive notes with an id unknown locally,
      copied with `synced = true`, in their Drive order: entry `k` comes from
      position `idx[k]` of `drive`, the positions increase, and every position
      whose id is unknown locally is one of them. */
  lemma AppendedNotesFromDrive(localIds: set<string>, drive: seq<Note>)
    ensures var a, idx := AppendedNotes(localIds, drive), NewNoteIndices(localIds, drive);
      && |a| == |idx|
      && (forall k :: 0 <= k < |idx| ==>
            idx[k] < |drive| && drive[idx[k]].id !in localIds && a[k] == drive[idx[k]].(synced := true))
      && (forall k1, k2 :: 0 <= k1 < k2 < |idx| ==> idx[k1] < idx[k2])
      && (forall j :: 0 <= j < |drive| && drive[j].id !in localIds ==> j in idx)
  {
    NewNoteIndicesSound(localIds, drive);
    NewNoteIndicesIncreasing(localIds, drive);
    NewNoteIndicesComplete(localIds, drive);
    AppendedNotesAt(localIds, drive);
  }

  /** Every appended note is marked synced and carries an id unknown locally. */
  lemma AppendedNotesAreNewAndSynced(localIds: set<string>, drive: seq<Note>)
    ensures forall k :: 0 <= k < |AppendedNotes(localIds, drive)| ==>
      AppendedNotes(localIds, drive)[k].synced && AppendedNotes(localIds, drive)[k].id !in localIds
  {
    AppendedNotesFromDrive(localIds, drive);
  }

  /** Shape of a merge: the local list comes first, unchanged and in order;
      every later entry is a copy of some Drive note whose id does not occur
      locally, with all fields kept except `synced = true`. */
  lemma MergedNotesShape(local: seq<Note>, drive: seq<Note>)
    ensures var m := MergedNotes(local, drive);
      && |m| >= |local| && m[..|local|] == local
      && (forall k :: |local| <= k < |m| ==>
            m[k].synced && m[k].id !in NoteIds(local)
            && exists j :: 0 <= j < |drive| && m[k] == drive[j].(synced := true))
  {
    var ids := NoteIds(local);
    var m, a, idx := MergedNotes(local, drive), AppendedNotes(ids, drive), NewNoteIndices(ids, drive);
    AppendedNotesFromDrive(ids, drive);
    forall k | |local| <= k < |m|
      ensures m[k].synced && m[k].id !in ids
      ensures exists j :: 0 <= j < |drive| && m[k] == drive[j].(synced := true)
    {
      assert m[k] == a[k - |local|];
      var j := idx[k - |local|];
      assert m[k] == drive[j].(synced := true);
    }
  }

  /** Additivity: a Drive note whose id does not occur locally is in the merge,
      marked synced. */
  lemma MergedContainsNewNote(local: seq<Note>, drive: seq<Note>, j: nat)
    requires j < |drive| && drive[j].id !in NoteIds(local)
    ensures drive[j].(synced := true) in MergedNotes(local, drive)
  {
    var ids := NoteIds(local);
    var m, a, idx := MergedNotes(local, drive), AppendedNotes(ids, drive), NewNoteIndices(ids, drive);
    AppendedNotesFromDrive(ids, drive);
    var k :| 0 <= k < |idx| && idx[k] == j;
    assert m[|local| + k] == a[k];
  }

  /** Local always wins: an entry of the merge whose id occurs locally is one of
      the local entries, so no Drive version of a local id survives. */
  lemma LocalNotesWin(local: seq<Note>, drive: seq<Note>, k: nat)
    requires k < |MergedNotes(local, drive)|
    requires MergedNotes(local, drive)[k].id in NoteIds(local)
    ensures k < |local| && MergedNotes(local, drive)[k] == local[k]
  {
    MergedNotesShape(local, drive);
    var m := MergedNotes(local, drive);
    assert k < |local|;
    assert m[..|local|][k] == local[k];
  }

  /** The positions of the Drive notes whose id does not occur locally. */
  ghost function UnknownNotePositions(localIds: set<string>, drive: seq<Note>): set<int>
  {
    set j | 0 <= j < |drive| && drive[j].id !in localIds
  }

  /** The merge is as long as the local list plus the number of Drive entries
      whose id does not occur locally (Drive duplicates counted each time). */
  lemma {:induction false} AppendedNotesLength(localIds: set<string>, drive: seq<Note>)
    ensures |AppendedNotes(localIds, drive)| == |UnknownNotePositions(localIds, drive)|
    decreases |drive|
  {
    if drive == [] {
      assert UnknownNotePositions(localIds, drive) == {};
    } else {
      var j := |drive| - 1;
      var front := drive[..j];
      AppendedNotesLength(localIds, front);
      var before := UnknownNotePositions(localIds, front);
      assert forall i :: 0 <= i < j ==> front[i] == drive[i];
      if drive[j].id in localIds {
        assert UnknownNotePositions(localIds, drive) == before;
      } else {
        assert UnknownNotePositions(localIds, drive) == before + {j};
        assert j !in before;
      }
    }
  }

  lemma MergedNotesLength(local: seq<Note>, drive: seq<Note>)
    ensures |MergedNotes(local, drive)| == |local| + |UnknownNotePositions(NoteIds(local), drive)|
  {
    AppendedNotesLength(NoteIds(local), drive);
  }

  /** Nothing is appended when every Drive id is already known. */
  lemma {:induction false} NoNotesAppendedWhenAllKnown(localIds: set<string>, drive: seq<Note>)
    requires forall j :: 0 <= j < |drive| ==> drive[j].id in localIds
    ensures AppendedNotes(localIds, drive) == []
    decreases |drive|
  {
    if drive != [] {
      var j := |drive| - 1;
      assert forall i :: 0 <= i < j ==> drive[..j][i] == drive[i];
      NoNotesAppendedWhenAllKnown(localIds, drive[..j]);
    }
  }

  /** Every Drive id occurs in the merge. */
  lemma MergedNotesCoverDrive(local: seq<Note>, drive: seq<Note>)
    ensures forall j :: 0 <= j < |drive| ==> drive[j].id in NoteIds(MergedNotes(local, drive))
  {
    var ids := NoteIds(local);
    var m, a, idx := MergedNotes(local, drive), AppendedNotes(ids, drive), NewNoteIndices(ids, drive);
    AppendedNotesFromDrive(ids, drive);
    forall j | 0 <= j < |drive|
      ensures drive[j].id in NoteIds(m)
    {
      if drive[j].id in ids {
        var i :| 0 <= i < |local| && local[i].id == drive[j].id;
        assert m[i] == local[i];
      } else {
        var k :| 0 <= k < |idx| && idx[k] == j;
        assert m[|local| + k] == a[k];
      }
    }
  }

  /** Merging the same Drive list a second time changes nothing. */
  lemma MergeNotesIdempotent(local: seq<Note>, drive: seq<Note>)
    ensures MergedNotes(MergedNotes(local, drive), drive) == MergedNotes(local, drive)
  {
    var m := MergedNotes(local, drive);
    MergedNotesCoverDrive(local, drive);
    NoNotesAppendedWhenAllKnown(NoteIds(m), drive);
  }

  /** With distinct ids on both sides the merge has distinct ids. */
  lemma MergedNotesDistinct(local: seq<Note>, drive: seq<Note>)
    requires DistinctNoteIds(local) && DistinctNoteIds(drive)
    ensures DistinctNoteIds(MergedNotes(local, drive))
  {
    var ids := NoteIds(local);
    var m, a, idx := MergedNotes(local, drive), AppendedNotes(ids, drive), NewNoteIndices(ids, drive);
    AppendedNotesFromDrive(ids, drive);
    forall i, j | 0 <= i < j < |m|
      ensures m[i].id != m[j].id
    {
      if j < |local| {
        assert m[i] == local[i] && m[j] == local[j];
      } else if i < |local| {
        assert m[i] == local[i] && m[j] == a[j - |local|];
      } else {
        assert m[i] == a[i - |local|] && m[j] == a[j - |local|];
        assert idx[i - |local|] < idx[j - |local|];
      }
    }
  }

  /** Without distinct Drive ids the merge can hold duplicates: one Drive note
      listed twice is appended twice. */
  lemma DuplicateDriveNoteAppendedTwice(n: Note)
    ensures MergedNotes([], [n, n]) == [n.(synced := true), n.(synced := true)]
    ensures !DistinctNoteIds(MergedNotes([], [n, n]))
  {
    var none: set<string> := {};
    assert NoteIds([]) == none;
    assert [n, n][..1] == [n];
    assert [n][..0] == [];
    assert AppendedNotes(none, [n]) == [n.(synced := true)];
    assert AppendedNotes(none, [n, n]) == [n.(synced := true), n.(synced := true)];
    var m := MergedNotes([], [n, n]);
    assert m[0].id == m[1].id;
  }

  // ---------------------------------------------------------------------------
  // Folders
  // ---------------------------------------------------------------------------

  /** The Drive folders that `mergeFolders` appends, in Drive order: those whose id
      is not in `localIds`, each with `synced` forced to true. */
  function AppendedFolders(localIds: set<string>, drive: seq<Folder>): seq<Folder>
    decreases |drive|
  {
    if drive == [] then []
    else
      var d := drive[|drive| - 1];
      AppendedFolders(localIds, drive[..|drive| - 1])
        + (if d.id in localIds then [] else [d.(synced := true)])
  }

  /** The value `mergeFolders(local, drive)` returns. */
  function MergedFolders(local: seq<Folder>, drive: seq<Folder>): seq<Folder>
  {
    local + AppendedFolders(FolderIds(local), drive)
  }

  /** `mergeFolders`: copy the local list, collect its ids, then push every Drive
      folder with an unknown id. */
  method MergeFolders(localFolders: seq<Folder>, driveFolders: seq<Folder>) returns (merged: seq<Folder>)
    ensures merged == MergedFolders(localFolders, driveFolders)
    ensures |merged| >= |localFolders| && merged[..|localFolders|] == localFolders
  {
    merged := localFolders;
    var localIds := set f | f in localFolders :: f.id;
    for i := 0 to |driveFolders|
      invariant merged == localFolders + AppendedFolders(localIds, driveFolders[..i])
    {
      var d := driveFolders[i];
      if d.id !in localIds {
        merged := merged + [d.(synced := true)];
      }
      assert driveFolders[..i + 1][..i] == driveFolders[..i];
    }
    assert driveFolders[..|driveFolders|] == driveFolders;
  }

  /** The positions of the Drive folders that are appended, in increasing order. */
  ghost function NewFolderIndices(localIds: set<string>, drive: seq<Folder>): seq<nat>
    decreases |drive|
  {
    if drive == [] then []
    else
      var j := |drive| - 1;
      NewFolderIndices(localIds, drive[..j]) + (if drive[j].id in localIds then [] else [j])
  }

  /** The positions listed by `NewFolderIndices` are in range and hold Drive
      folders whose id is unknown locally. */
  lemma {:induction false} NewFolderIndicesSound(localIds: set<string>, drive: seq<Folder>)
    ensures forall k :: 0 <= k < |NewFolderIndices(localIds, drive)| ==> NewFolderIndices(localIds, drive)[k] < |drive|
    ensures forall k :: 0 <= k < |NewFolderIndices(localIds, drive)| ==> drive[NewFolderIndices(localIds, drive)[k]].id !in localIds
    decreases |drive|
  {
    if drive != [] {
      var j := |drive| - 1;
      var front := drive[..j];
      NewFolderIndicesSound(localIds, front);
      var idx0, idx := NewFolderIndices(localIds, front), NewFolderIndices(localIds, drive);
      assert idx == idx0 + (if drive[j].id in localIds then [] else [j]);
      forall k | 0 <= k < |idx|
        ensures idx[k] < |drive| && drive[idx[k]].id !in localIds
      {
        if k < |idx0| {
          assert idx[k] == idx0[k] && front[idx0[k]] == drive[idx0[k]];
        }
      }
    }
  }

  /** The positions listed by `NewFolderIndices` strictly increase. */
  lemma {:induction false} NewFolderIndicesIncreasing(localIds: set<string>, drive: seq<Folder>)
    ensures forall k1, k2 :: 0 <= k1 < k2 < |NewFolderIndices(localIds, drive)| ==>
      NewFolderIndices(localIds, drive)[k1] < NewFolderIndices(localIds, drive)[k2]
    decreases |drive|
  {
    if drive != [] {
      var j := |drive| - 1;
      var front := drive[..j];
      NewFolderIndicesIncreasing(localIds, front);
      NewFolderIndicesSound(localIds, front);
      var idx0, idx := NewFolderIndices(localIds, front), NewFolderIndices(localIds, drive);
      assert idx == idx0 + (if drive[j].id in localIds then [] else [j]);
      assert forall k :: 0 <= k < |idx0| ==> idx[k] == idx0[k] < j;
    }
  }

  /** Every position whose Drive folder has an id unknown locally is listed. */
  lemma {:induction false} NewFolderIndicesComplete(localIds: set<string>, drive: seq<Folder>)
    ensures forall j :: 0 <= j < |drive| && drive[j].id !in localIds ==> j in NewFolderIndices(localIds, drive)
    decreases |drive|
  {
    if drive != [] {
      var j := |drive| - 1;
      var front := drive[..j];
      NewFolderIndicesComplete(localIds, front);
      var idx0, idx := NewFolderIndices(localIds, front), NewFolderIndices(localIds, drive);
      assert idx == idx0 + (if drive[j].id in localIds then [] else [j]);
      forall i | 0 <= i < |drive| && drive[i].id !in localIds
        ensures i in idx
      {
        if i < j {
          assert front[i] == drive[i];
          assert i in idx0;
        }
      }
    }
  }

  /** Entry `k` of the appended folders is the Drive folder at position `k` of
      `NewFolderIndices`, with `synced = true`. */
  lemma {:induction false} AppendedFoldersAt(localIds: set<string>, drive: seq<Folder>)
    ensures var a, idx := AppendedFolders(localIds, drive), NewFolderIndices(localIds, drive);
      && |a| == |idx|
      && forall k :: 0 <= k < |idx| ==> idx[k] < |drive| && a[k] == drive[idx[k]].(synced := true)
    decreases |drive|
  {
    if drive != [] {
      var j := |drive| - 1;
      var front := drive[..j];
      AppendedFoldersAt(localIds, front);
      var a0, idx0 := AppendedFolders(localIds, front), NewFolderIndices(localIds, front);
      var a, idx := AppendedFolders(localIds, drive), NewFolderIndices(localIds, drive);
      if drive[j].id in localIds {
        assert a == a0 && idx == idx0;
      } else {
        assert a == a0 + [drive[j].(synced := true)] && idx == idx0 + [j];
      }
      forall k | 0 <= k < |idx|
        ensures idx[k] < |drive| && a[k] == drive[idx[k]].(synced := true)
      {
        if k < |idx0| {
          assert front[idx0[k]] == drive[idx0[k]];
        }
      }
    }
  }

  /** The appended folders are exactly the Drive folders with an id unknown locally,
      copied with `synced = true`, in their Drive order: entry `k` comes from
      position `idx[k]` of `drive`, the positions increase, and every position
      whose id is unknown locally is one of them. */
  lemma AppendedFoldersFromDrive(localIds: set<string>, drive: seq<Folder>)
    ensures var a, idx := AppendedFolders(localIds, drive), NewFolderIndices(localIds, drive);
      && |a| == |idx|
      && (forall k :: 0 <= k < |idx| ==>
            idx[k] < |drive| && drive[idx[k]].id !in localIds && a[k] == drive[idx[k]].(synced := true))
      && (forall k1, k2 :: 0 <= k1 < k2 < |idx| ==> idx[k1] < idx[k2])
      && (forall j :: 0 <= j < |drive| && drive[j].id !in localIds ==> j in idx)
  {
    NewFolderIndicesSound(localIds, drive);
    NewFolderIndicesIncreasing(localIds, drive);
    NewFolderIndicesComplete(localIds, drive);
    AppendedFoldersAt(localIds, drive);
  }

  /** Every appended folder is marked synced and carries an id unknown locally. */
  lemma AppendedFoldersAreNewAndSynced(localIds: set<string>, drive: seq<Folder>)
    ensures forall k :: 0 <= k < |AppendedFolders(localIds, drive)| ==>
      AppendedFolders(localIds, drive)[k].synced && AppendedFolders(localIds, drive)[k].id !in localIds
  {
    AppendedFoldersFromDrive(localIds, drive);
  }

  /** Shape of a merge: the local list comes first, unchanged and in order;
      every later entry is a copy of some Drive folder whose id does not occur
      locally, with all fields kept except `synced = true`. */
  lemma MergedFoldersShape(local: seq<Folder>, drive: seq<Folder>)
    ensures var m := MergedFolders(local, drive);
      && |m| >= |local| && m[..|local|] == local
      && (forall k :: |local| <= k < |m| ==>
            m[k].synced && m[k].id !in FolderIds(local)
            && exists j :: 0 <= j < |drive| && m[k] == drive[j].(synced := true))
  {
    var ids := FolderIds(local);
    var m, a, idx := MergedFolders(local, drive), AppendedFolders(ids, drive), NewFolderIndices(ids, drive);
    AppendedFoldersFromDrive(ids, drive);
    forall k | |local| <= k < |m|
      ensures m[k].synced && m[k].id !in ids
      ensures exists j :: 0 <= j < |drive| && m[k] == drive[j].(synced := true)
    {
      assert m[k] == a[k - |local|];
      var j := idx[k - |local|];
      assert m[k] == drive[j].(synced := true);
    }
  }

  /** Additivity: a Drive folder whose id does not occur locally is in the merge,
      marked synced. */
  lemma MergedContainsNewFolder(local: seq<Folder>, drive: seq<Folder>, j: nat)
    requires j < |drive| && drive[j].id !in FolderIds(local)
    ensures drive[j].(synced := true) in MergedFolders(local, drive)
  {
    var ids := FolderIds(local);
    var m, a, idx := MergedFolders(local, drive), AppendedFolders(ids, drive), NewFolderIndices(ids, drive);
    AppendedFoldersFromDrive(ids, drive);
    var k :| 0 <= k < |idx| && idx[k] == j;
    assert m[|local| + k] == a[k];
  }

  /** Local always wins: an entry of the merge whose id occurs locally is one of
      the local entries, so no Drive version of a local id survives. */
  lemma LocalFoldersWin(local: seq<Folder>, drive: seq<Folder>, k: nat)
    requires k < |MergedFolders(local, drive)|
    requires MergedFolders(local, drive)[k].id in FolderIds(local)
    ensures k < |local| && MergedFolders(local, drive)[k] == local[k]
  {
    MergedFoldersShape(local, drive);
    var m := MergedFolders(local, drive);
    assert k < |local|;
    assert m[..|local|][k] == local[k];
  }

  /** The positions of the Drive folders whose id does not occur locally. */
  ghost function UnknownFolderPositions(localIds: set<string>, drive: seq<Folder>): set<int>
  {
    set j | 0 <= j < |drive| && drive[j].id !in localIds
  }

  /** The merge is as long as the local list plus the number of Drive entries
      whose id does not occur locally (Drive duplicates counted each time). */
  lemma {:induction false} AppendedFoldersLength(localIds: set<string>, drive: seq<Folder>)
    ensures |AppendedFolders(localIds, drive)| == |UnknownFolderPositions(localIds, drive)|
    decreases |drive|
  {
    if drive == [] {
      assert UnknownFolderPositions(localIds, drive) == {};
    } else {
      var j := |drive| - 1;
      var front := drive[..j];
      AppendedFoldersLength(localIds, front);
      var before := UnknownFolderPositions(localIds, front);
      assert forall i :: 0 <= i < j ==> front[i] == drive[i];
      if drive[j].id in localIds {
        assert UnknownFolderPositions(localIds, drive) == before;
      } else {
        assert UnknownFolderPositions(localIds, drive) == before + {j};
        assert j !in before;
      }
    }
  }

  lemma MergedFoldersLength(local: seq<Folder>, drive: seq<Folder>)
    ensures |MergedFolders(local, drive)| == |local| + |UnknownFolderPositions(FolderIds(local), drive)|
  {
    AppendedFoldersLength(FolderIds(local), drive);
  }

  /** Nothing is appended when every Drive id is already known. */
  lemma {:induction false} NoFoldersAppendedWhenAllKnown(localIds: set<string>, drive: seq<Folder>)
    requires forall j :: 0 <= j < |drive| ==> drive[j].id in localIds
    ensures AppendedFolders(localIds, drive) == []
    decreases |drive|
  {
    if drive != [] {
      var j := |drive| - 1;
      assert forall i :: 0 <= i < j ==> drive[..j][i] == drive[i];
      NoFoldersAppendedWhenAllKnown(localIds, drive[..j]);
    }
  }

  /** Every Drive id occurs in the merge. */
  lemma MergedFoldersCoverDrive(local: seq<Folder>, drive: seq<Folder>)
    ensures forall j :: 0 <= j < |drive| ==> drive[j].id in FolderIds(MergedFolders(local, drive))
  {
    var ids := FolderIds(local);
    var m, a, idx := MergedFolders(local, drive), AppendedFolders(ids, drive), NewFolderIndices(ids, drive);
    AppendedFoldersFromDrive(ids, drive);
    forall j | 0 <= j < |drive|
      ensures drive[j].id in FolderIds(m)
    {
      if drive[j].id in ids {
        var i :| 0 <= i < |local| && local[i].id == drive[j].id;
        assert m[i] == local[i];
      } else {
        var k :| 0 <= k < |idx| && idx[k] == j;
        assert m[|local| + k] == a[k];
      }
    }
  }

  /** Merging the same Drive list a second time changes nothing. */
  lemma MergeFoldersIdempotent(local: seq<Folder>, drive: seq<Folder>)
    ensures MergedFolders(MergedFolders(local, drive), drive) == MergedFolders(local, drive)
  {
    var m := MergedFolders(local, drive);
    MergedFoldersCoverDrive(local, drive);
    NoFoldersAppendedWhenAllKnown(FolderIds(m), drive);
  }

  /** With distinct ids on both sides the merge has distinct ids. */
  lemma MergedFoldersDistinct(local: seq<Folder>, drive: seq<Folder>)
    requires DistinctFolderIds(local) && DistinctFolderIds(drive)
    ensures DistinctFolderIds(MergedFolders(local, drive))
  {
    var ids := FolderIds(local);
    var m, a, idx := MergedFolders(local, drive), AppendedFolders(ids, drive), NewFolderIndices(ids, drive);
    AppendedFoldersFromDrive(ids, drive);
    forall i, j | 0 <= i < j < |m|
      ensures m[i].id != m[j].id
    {
      if j < |local| {
        assert m[i] == local[i] && m[j] == local[j];
      } else if i < |local| {
        assert m[i] == local[i] && m[j] == a[j - |local|];
      } else {
        assert m[i] == a[i - |local|] && m[j] == a[j - |local|];
        assert idx[i - |local|] < idx[j - |local|];
      }
    }
  }

  /** Without distinct Drive ids the merge can hold duplicates: one Drive folder
      listed twice is appended twice. */
  lemma DuplicateDriveFolderAppendedTwice(f: Folder)
    ensures MergedFolders([], [f, f]) == [f.(synced := true), f.(synced := true)]
    ensures !DistinctFolderIds(MergedFolders([], [f, f]))
  {
    var none: set<string> := {};
    assert FolderIds([]) == none;
    assert [f, f][..1] == [f];
    assert [f][..0] == [];
    assert AppendedFolders(none, [f]) == [f.(synced := true)];
    assert AppendedFolders(none, [f, f]) == [f.(synced := true), f.(synced := true)];
    var m := MergedFolders([], [f, f]);
    assert m[0].id == m[1].id;
  }
}
