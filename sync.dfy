/** One synchronisation cycle with Google Drive (`syncWithGoogleDrive` in
    components/user-profile.tsx). Drive is abstracted as the list of note files
    and the list of folder files of the app's Drive folder, in listing order,
    with upsert writes and list-all reads; the cycle pushes every dirty local
    record, pulls everything, merges, and appends the new records to the store.
    Transport failures are a parameter: the Drive service swallows every error
    (a failed upload is taken to leave Drive unchanged, a failed download
    yields an empty list), so no Drive error reaches the cycle's `catch`. That
    branch runs only when a store update throws in the `persist` write to
    browser storage, which is not modelled: every store update succeeds here. */
module Sync {
  import opened Records
  import opened Merge
  import opened Store

  /** One call the cycle makes to Drive, by kind and record id. */
  datatype DriveCall = PutNote(id: string) | PutFolder(id: string) | ListNotes | ListFolders

  /** Which Drive operations fail during a cycle: uploads of records with these
      ids, and the two downloads. */
  datatype Faults = Faults(
    failingNoteWrites: set<string>,
    failingFolderWrites: set<string>,
    noteListFails: bool,
    folderListFails: bool)

  // ---------------------------------------------------------------------------
  // Notes on Drive
  // ---------------------------------------------------------------------------

  /** The position of the first note with the given id, or -1 when none has it. */
  function NoteIndex(s: seq<Note>, id: string): (p: int)
    ensures -1 <= p < |s|
    ensures p >= 0 ==> s[p].id == id
    ensures forall k :: 0 <= k < |s| && (p < 0 || k < p) ==> s[k].id != id
  {
    if s == [] then -1
    else if s[0].id == id then 0
    else
      var p := NoteIndex(s[1..], id);
      if p < 0 then -1 else p + 1
  }

  /** What Drive holds under a note id: the first note file with that id. */
  function FindNote(s: seq<Note>, id: string): (r: Option<Note>)
    ensures r.Some? ==> r.value in s && r.value.id == id
    ensures r == None <==> id !in NoteIds(s)
  {
    var p := NoteIndex(s, id);
    if p < 0 then None else Some(s[p])
  }

  /** `uploadNote` on Drive: the first file named after the note's id is
      overwritten in place; when there is none a new file is listed last. */
  function UpsertNote(s: seq<Note>, n: Note): seq<Note>
  {
    var p := NoteIndex(s, n.id);
    if p < 0 then s + [n] else s[p := n]
  }

  /** After an upsert Drive holds the written note under its id and the same
      as before under every other id. */
  lemma UpsertNoteFind(s: seq<Note>, n: Note, id: string)
    ensures FindNote(UpsertNote(s, n), id) == if id == n.id then Some(n) else FindNote(s, id)
  {
    var p, q := NoteIndex(s, n.id), NoteIndex(s, id);
    var r := UpsertNote(s, n);
    var q' := NoteIndex(r, id);
    if id == n.id {
      assert r[if p < 0 then |s| else p] == n;
      assert q' == if p < 0 then |s| else p;
    } else {
      assert forall k :: 0 <= k < |s| ==> (r[k].id == id <==> s[k].id == id);
      assert q' == q;
    }
  }

  /** An upsert adds nothing but the written note. */
  lemma UpsertNoteContents(s: seq<Note>, n: Note)
    ensures forall x :: x in UpsertNote(s, n) ==> x in s || x == n
  {
    var p := NoteIndex(s, n.id);
    if p >= 0 {
      forall x | x in s[p := n]
        ensures x in s || x == n
      {
        var k :| 0 <= k < |s| && s[p := n][k] == x;
        if k != p {
          assert s[k] == x;
        }
      }
    }
  }

  /** An upsert keeps file names unique. */
  lemma UpsertNoteDistinct(s: seq<Note>, n: Note)
    requires DistinctNoteIds(s)
    ensures DistinctNoteIds(UpsertNote(s, n))
  {
    var p := NoteIndex(s, n.id);
    var r := UpsertNote(s, n);
    assert forall k :: 0 <= k < |s| ==> r[k].id == s[k].id;
  }

  /** Drive's notes after the push loop: each dirty local note, in local
      order, is upserted as a copy with `synced = true`, except those whose
      write fails (`uploadNote` swallows the error, and Drive is taken to be
      unchanged). */
  function PushedNotes(remote: seq<Note>, local: seq<Note>, failing: set<string>): seq<Note>
    decreases |local|
  {
    if local == [] then remote
    else
      var n := local[|local| - 1];
      var before := PushedNotes(remote, local[..|local| - 1], failing);
      if !n.synced && n.id !in failing then UpsertNote(before, n.(synced := true)) else before
  }

  /** The Drive calls the push loop makes: one upload per dirty note, in order,
      whether or not it succeeds. */
  function NotePushCalls(local: seq<Note>): seq<DriveCall>
    decreases |local|
  {
    if local == [] then []
    else
      var n := local[|local| - 1];
      NotePushCalls(local[..|local| - 1]) + (if !n.synced then [PutNote(n.id)] else [])
  }

  /** Pushing keeps Drive's file names unique. */
  lemma {:induction false} PushKeepsNoteIdsDistinct(remote: seq<Note>, local: seq<Note>, failing: set<string>)
    requires DistinctNoteIds(remote)
    ensures DistinctNoteIds(PushedNotes(remote, local, failing))
    decreases |local|
  {
    if local != [] {
      var j := |local| - 1;
      PushKeepsNoteIdsDistinct(remote, local[..j], failing);
      UpsertNoteDistinct(PushedNotes(remote, local[..j], failing), local[j].(synced := true));
    }
  }

  /** Only dirty notes are written, each as a copy with `synced = true`: every
      note on Drive after the push was there before or is such a copy. */
  lemma {:induction false} PushWritesOnlyDirtyNotes(remote: seq<Note>, local: seq<Note>, failing: set<string>)
    ensures forall x :: x in PushedNotes(remote, local, failing) ==>
      x in remote || exists k :: 0 <= k < |local| && !local[k].synced && x == local[k].(synced := true)
    decreases |local|
  {
    if local != [] {
      var j := |local| - 1;
      var front := local[..j];
      var before := PushedNotes(remote, front, failing);
      PushWritesOnlyDirtyNotes(remote, front, failing);
      UpsertNoteContents(before, local[j].(synced := true));
      forall x | x in PushedNotes(remote, local, failing)
        ensures x in remote || exists k :: 0 <= k < |local| && !local[k].synced && x == local[k].(synced := true)
      {
        if x !in remote && x != local[j].(synced := true) {
          assert x in before;
          var k :| 0 <= k < |front| && !front[k].synced && x == front[k].(synced := true);
          assert local[k] == front[k];
        }
      }
    }
  }

  /** A note id that no writable dirty local note carries keeps its Drive version. */
  lemma {:induction false} PushLeavesOtherNotes(remote: seq<Note>, local: seq<Note>, failing: set<string>, id: string)
    requires forall k :: 0 <= k < |local| && local[k].id == id ==> local[k].synced || id in failing
    ensures FindNote(PushedNotes(remote, local, failing), id) == FindNote(remote, id)
    decreases |local|
  {
    if local != [] {
      var j := |local| - 1;
      var front := local[..j];
      assert forall k :: 0 <= k < j ==> front[k] == local[k];
      PushLeavesOtherNotes(remote, front, failing, id);
      if !local[j].synced && local[j].id !in failing {
        UpsertNoteFind(PushedNotes(remote, front, failing), local[j].(synced := true), id);
      }
    }
  }

  /** Upsert semantics: after the push Drive holds, under its id, the last
      dirty local note with that id (as a copy with `synced = true`), whatever
      Drive held before, unless that write failed. */
  lemma {:induction false} PushWritesDirtyNote(remote: seq<Note>, local: seq<Note>, failing: set<string>, k: nat)
    requires k < |local| && !local[k].synced && local[k].id !in failing
    requires forall j :: k < j < |local| && local[j].id == local[k].id ==> local[j].synced
    ensures FindNote(PushedNotes(remote, local, failing), local[k].id) == Some(local[k].(synced := true))
    decreases |local|
  {
    var j := |local| - 1;
    var front := local[..j];
    UpsertNoteFind(PushedNotes(remote, front, failing), local[j].(synced := true), local[k].id);
    if k < j {
      assert forall i :: k < i < j ==> front[i] == local[i];
      PushWritesDirtyNote(remote, front, failing, k);
      assert front[k] == local[k];
    }
  }

  /** `mergedNotes.filter(note => !notes.some(n => n.id === note.id))`: the
      entries whose id is not among the snapshot's ids. */
  function NotesNotIn(s: seq<Note>, known: set<string>): (r: seq<Note>)
    ensures forall x :: x in r <==> x in s && x.id !in known
  {
    if s == [] then []
    else if s[0].id in known then NotesNotIn(s[1..], known)
    else
      assert s == [s[0]] + s[1..];
      [s[0]] + NotesNotIn(s[1..], known)
  }

  lemma {:induction false} NotesNotInConcat(a: seq<Note>, b: seq<Note>, known: set<string>)
    ensures NotesNotIn(a + b, known) == NotesNotIn(a, known) + NotesNotIn(b, known)
    decreases |a|
  {
    if a == [] {
      assert a + b == b;
    } else {
      assert (a + b)[0] == a[0] && (a + b)[1..] == a[1..] + b;
      NotesNotInConcat(a[1..], b, known);
    }
  }

  lemma {:induction false} NotesNotInDropsKnown(s: seq<Note>, known: set<string>)
    requires forall k :: 0 <= k < |s| ==> s[k].id in known
    ensures NotesNotIn(s, known) == []
    decreases |s|
  {
    if s != [] {
      NotesNotInDropsKnown(s[1..], known);
    }
  }

  lemma {:induction false} NotesNotInKeepsUnknown(s: seq<Note>, known: set<string>)
    requires forall k :: 0 <= k < |s| ==> s[k].id !in known
    ensures NotesNotIn(s, known) == s
    decreases |s|
  {
    if s != [] {
      var rest := s[1..];
      assert forall k :: 0 <= k < |rest| ==> rest[k] == s[k + 1];
      NotesNotInKeepsUnknown(rest, known);
      assert s[0].id !in known;
      assert NotesNotIn(s, known) == [s[0]] + NotesNotIn(rest, known);
      assert s == [s[0]] + rest;
    }
  }

  /** The notes the cycle adds are exactly the Drive notes the merge appended,
      so adding them one by one to the snapshot rebuilds the merge. */
  lemma NewNotesAreAppended(local: seq<Note>, drive: seq<Note>)
    ensures NotesNotIn(MergedNotes(local, drive), NoteIds(local)) == AppendedNotes(NoteIds(local), drive)
    ensures local + NotesNotIn(MergedNotes(local, drive), NoteIds(local)) == MergedNotes(local, drive)
  {
    var ids := NoteIds(local);
    var a := AppendedNotes(ids, drive);
    NotesNotInConcat(local, a, ids);
    NotesNotInDropsKnown(local, ids);
    AppendedNotesAreNewAndSynced(ids, drive);
    NotesNotInKeepsUnknown(a, ids);
  }

  /** Pushing puts on Drive no note id that was neither on Drive nor local. */
  lemma PushedNoteIdsBounded(remote: seq<Note>, local: seq<Note>, failing: set<string>)
    ensures forall j :: 0 <= j < |PushedNotes(remote, local, failing)| ==>
      PushedNotes(remote, local, failing)[j].id in NoteIds(remote) + NoteIds(local)
  {
    var p := PushedNotes(remote, local, failing);
    PushWritesOnlyDirtyNotes(remote, local, failing);
    forall j | 0 <= j < |p|
      ensures p[j].id in NoteIds(remote) + NoteIds(local)
    {
      assert p[j] in p;
      if p[j] !in remote {
        var k :| 0 <= k < |local| && !local[k].synced && p[j] == local[k].(synced := true);
        assert local[k] in local;
      }
    }
  }

  /** After a cycle whose listing succeeded, the next cycle adds no note,
      whatever faults it meets: every id it can list is already local. */
  lemma SecondCycleAddsNoNotes(local: seq<Note>, remote: seq<Note>, faults: Faults, next: Faults)
    requires !faults.noteListFails
    ensures CycleNotes(CycleNotes(local, remote, faults), PushedNotes(remote, local, faults.failingNoteWrites), next)
         == CycleNotes(local, remote, faults)
  {
    var remote' := PushedNotes(remote, local, faults.failingNoteWrites);
    var local' := CycleNotes(local, remote, faults);
    var listed := ListedNotes(remote', local', next);
    MergedNotesCoverDrive(local, remote');
    MergedNotesShape(local, remote');
    assert forall x :: x in local ==> x in local' by {
      forall x | x in local ensures x in local' {
        var k :| 0 <= k < |local| && local[k] == x;
        assert local'[k] == local'[..|local|][k];
      }
    }
    PushedNoteIdsBounded(remote', local', next.failingNoteWrites);
    NoNotesAppendedWhenAllKnown(NoteIds(local'), listed);
    assert local' + [] == local';
  }

  /** The notes the cycle downloads: Drive after the push, or nothing when
      listing fails (`downloadNotes` returns `[]` on error). */
  function ListedNotes(remote: seq<Note>, local: seq<Note>, faults: Faults): seq<Note>
  {
    if faults.noteListFails then [] else PushedNotes(remote, local, faults.failingNoteWrites)
  }

  /** The store's notes after a cycle that started from `local` and `remote`. */
  function CycleNotes(local: seq<Note>, remote: seq<Note>, faults: Faults): seq<Note>
  {
    MergedNotes(local, ListedNotes(remote, local, faults))
  }

  /** The cycle never touches a local note, so in particular it never marks
      one synced: a note dirty before the cycle is still dirty after it. */
  lemma CycleKeepsLocalNotes(local: seq<Note>, remote: seq<Note>, faults: Faults)
    ensures |CycleNotes(local, remote, faults)| >= |local|
    ensures CycleNotes(local, remote, faults)[..|local|] == local
    ensures forall k :: 0 <= k < |local| && !local[k].synced ==> !CycleNotes(local, remote, faults)[k].synced
  {
    var c := CycleNotes(local, remote, faults);
    MergedNotesShape(local, ListedNotes(remote, local, faults));
    assert forall k :: 0 <= k < |local| ==> c[k] == c[..|local|][k];
  }

  /** With no local ids every Drive note is appended, in Drive order. */
  lemma {:induction false} AppendedNotesWhenNoneKnown(drive: seq<Note>)
    ensures |AppendedNotes({}, drive)| == |drive|
    ensures forall k :: 0 <= k < |drive| ==> AppendedNotes({}, drive)[k] == drive[k].(synced := true)
    decreases |drive|
  {
    if drive != [] {
      var front := drive[..|drive| - 1];
      AppendedNotesWhenNoneKnown(front);
      assert forall k :: 0 <= k < |front| ==> front[k] == drive[k];
    }
  }

  /** A device with no notes pulls Drive's whole list, every note marked synced. */
  lemma PullNotesIntoEmptyStore(remote: seq<Note>, faults: Faults)
    requires !faults.noteListFails
    ensures |CycleNotes([], remote, faults)| == |remote|
    ensures forall k :: 0 <= k < |remote| ==> CycleNotes([], remote, faults)[k] == remote[k].(synced := true)
  {
    var none: seq<Note> := [];
    assert NoteIds(none) == {};
    assert PushedNotes(remote, none, faults.failingNoteWrites) == remote;
    AppendedNotesWhenNoneKnown(remote);
  }

  /** A dirty note is written to Drive as a synced copy, overwriting whatever
      Drive held under its id, while the local copy keeps `synced = false`:
      nothing writes the flag back. */
  lemma PushedNoteStaysDirtyLocally(local: seq<Note>, remote: seq<Note>, faults: Faults, k: nat)
    requires k < |local| && !local[k].synced && local[k].id !in faults.failingNoteWrites
    requires forall j :: k < j < |local| && local[j].id == local[k].id ==> local[j].synced
    ensures FindNote(PushedNotes(remote, local, faults.failingNoteWrites), local[k].id) == Some(local[k].(synced := true))
    ensures |CycleNotes(local, remote, faults)| >= |local| && CycleNotes(local, remote, faults)[k] == local[k]
  {
    PushWritesDirtyNote(remote, local, faults.failingNoteWrites, k);
    CycleKeepsLocalNotes(local, remote, faults);
    var c := CycleNotes(local, remote, faults);
    assert c[k] == c[..|local|][k];
  }

  /** No tombstones: a note deleted locally that still exists on Drive comes
      back, marked synced, at the next cycle whose listing succeeds. */
  lemma DeletedNoteResurrects(local: seq<Note>, remote: seq<Note>, faults: Faults, id: string)
    requires FindNote(remote, id).Some? && !faults.noteListFails
    ensures FindNote(remote, id).value.(synced := true) in CycleNotes(NotesWithout(local, id), remote, faults)
  {
    var after := NotesWithout(local, id);
    var pushed := PushedNotes(remote, after, faults.failingNoteWrites);
    PushLeavesOtherNotes(remote, after, faults.failingNoteWrites, id);
    var r := FindNote(remote, id).value;
    var j :| 0 <= j < |pushed| && pushed[j] == r;
    MergedContainsNewNote(after, pushed, j);
  }

  // ---------------------------------------------------------------------------
  // Folders on Drive
  // ---------------------------------------------------------------------------

  /** The position of the first folder with the given id, or -1 when none has it. */
  function FolderIndex(s: seq<Folder>, id: string): (p: int)
    ensures -1 <= p < |s|
    ensures p >= 0 ==> s[p].id == id
    ensures forall k :: 0 <= k < |s| && (p < 0 || k < p) ==> s[k].id != id
  {
    if s == [] then -1
    else if s[0].id == id then 0
    else
      var p := FolderIndex(s[1..], id);
      if p < 0 then -1 else p + 1
  }

  /** What Drive holds under a folder id: the first folder file with that id. */
  function FindFolder(s: seq<Folder>, id: string): (r: Option<Folder>)
    ensures r.Some? ==> r.value in s && r.value.id == id
    ensures r == None <==> id !in FolderIds(s)
  {
    var p := FolderIndex(s, id);
    if p < 0 then None else Some(s[p])
  }

  /** `uploadFolder` on Drive: the first file named after the folder's id is
      overwritten in place; when there is none a new file is listed last. */
  function UpsertFolder(s: seq<Folder>, n: Folder): seq<Folder>
  {
    var p := FolderIndex(s, n.id);
    if p < 0 then s + [n] else s[p := n]
  }

  /** After an upsert Drive holds the written folder under its id and the same
      as before under every other id. */
  lemma UpsertFolderFind(s: seq<Folder>, n: Folder, id: string)
    ensures FindFolder(UpsertFolder(s, n), id) == if id == n.id then Some(n) else FindFolder(s, id)
  {
    var p, q := FolderIndex(s, n.id), FolderIndex(s, id);
    var r := UpsertFolder(s, n);
    var q' := FolderIndex(r, id);
    if id == n.id {
      assert r[if p < 0 then |s| else p] == n;
      assert q' == if p < 0 then |s| else p;
    } else {
      assert forall k :: 0 <= k < |s| ==> (r[k].id == id <==> s[k].id == id);
      assert q' == q;
    }
  }

  /** An upsert adds nothing but the written folder. */
  lemma UpsertFolderContents(s: seq<Folder>, n: Folder)
    ensures forall x :: x in UpsertFolder(s, n) ==> x in s || x == n
  {
    var p := FolderIndex(s, n.id);
    if p >= 0 {
      forall x | x in s[p := n]
        ensures x in s || x == n
      {
        var k :| 0 <= k < |s| && s[p := n][k] == x;
        if k != p {
          assert s[k] == x;
        }
      }
    }
  }

  /** An upsert keeps file names unique. */
  lemma UpsertFolderDistinct(s: seq<Folder>, n: Folder)
    requires DistinctFolderIds(s)
    ensures DistinctFolderIds(UpsertFolder(s, n))
  {
    var p := FolderIndex(s, n.id);
    var r := UpsertFolder(s, n);
    assert forall k :: 0 <= k < |s| ==> r[k].id == s[k].id;
  }

  /** Drive's folders after the push loop: each dirty local folder, in local
      order, is upserted as a copy with `synced = true`, except those whose
      write fails (`uploadFolder` swallows the error, and Drive is taken to be
      unchanged). */
  function PushedFolders(remote: seq<Folder>, local: seq<Folder>, failing: set<string>): seq<Folder>
    decreases |local|
  {
    if local == [] then remote
    else
      var n := local[|local| - 1];
      var before := PushedFolders(remote, local[..|local| - 1], failing);
      if !n.synced && n.id !in failing then UpsertFolder(before, n.(synced := true)) else before
  }

  /** The Drive calls the push loop makes: one upload per dirty folder, in order,
      whether or not it succeeds. */
  function FolderPushCalls(local: seq<Folder>): seq<DriveCall>
    decreases |local|
  {
    if local == [] then []
    else
      var n := local[|local| - 1];
      FolderPushCalls(local[..|local| - 1]) + (if !n.synced then [PutFolder(n.id)] else [])
  }

  /** Pushing keeps Drive's file names unique. */
  lemma {:induction false} PushKeepsFolderIdsDistinct(remote: seq<Folder>, local: seq<Folder>, failing: set<string>)
    requires DistinctFolderIds(remote)
    ensures DistinctFolderIds(PushedFolders(remote, local, failing))
    decreases |local|
  {
    if local != [] {
      var j := |local| - 1;
      PushKeepsFolderIdsDistinct(remote, local[..j], failing);
      UpsertFolderDistinct(PushedFolders(remote, local[..j], failing), local[j].(synced := true));
    }
  }

  /** Only dirty folders are written, each as a copy with `synced = true`: every
      folder on Drive after the push was there before or is such a copy. */
  lemma {:induction false} PushWritesOnlyDirtyFolders(remote: seq<Folder>, local: seq<Folder>, failing: set<string>)
    ensures forall x :: x in PushedFolders(remote, local, failing) ==>
      x in remote || exists k :: 0 <= k < |local| && !local[k].synced && x == local[k].(synced := true)
    decreases |local|
  {
    if local != [] {
      var j := |local| - 1;
      var front := local[..j];
      var before := PushedFolders(remote, front, failing);
      PushWritesOnlyDirtyFolders(remote, front, failing);
      UpsertFolderContents(before, local[j].(synced := true));
      forall x | x in PushedFolders(remote, local, failing)
        ensures x in remote || exists k :: 0 <= k < |local| && !local[k].synced && x == local[k].(synced := true)
      {
        if x !in remote && x != local[j].(synced := true) {
          assert x in before;
          var k :| 0 <= k < |front| && !front[k].synced && x == front[k].(synced := true);
          assert local[k] == front[k];
        }
      }
    }
  }

  /** A folder id that no writable dirty local folder carries keeps its Drive version. */
  lemma {:induction false} PushLeavesOtherFolders(remote: seq<Folder>, local: seq<Folder>, failing: set<string>, id: string)
    requires forall k :: 0 <= k < |local| && local[k].id == id ==> local[k].synced || id in failing
    ensures FindFolder(PushedFolders(remote, local, failing), id) == FindFolder(remote, id)
    decreases |local|
  {
    if local != [] {
      var j := |local| - 1;
      var front := local[..j];
      assert forall k :: 0 <= k < j ==> front[k] == local[k];
      PushLeavesOtherFolders(remote, front, failing, id);
      if !local[j].synced && local[j].id !in failing {
        UpsertFolderFind(PushedFolders(remote, front, failing), local[j].(synced := true), id);
      }
    }
  }

  /** Upsert semantics: after the push Drive holds, under its id, the last
      dirty local folder with that id (as a copy with `synced = true`), whatever
      Drive held before, unless that write failed. */
  lemma {:induction false} PushWritesDirtyFolder(remote: seq<Folder>, local: seq<Folder>, failing: set<string>, k: nat)
    requires k < |local| && !local[k].synced && local[k].id !in failing
    requires forall j :: k < j < |local| && local[j].id == local[k].id ==> local[j].synced
    ensures FindFolder(PushedFolders(remote, local, failing), local[k].id) == Some(local[k].(synced := true))
    decreases |local|
  {
    var j := |local| - 1;
    var front := local[..j];
    UpsertFolderFind(PushedFolders(remote, front, failing), local[j].(synced := true), local[k].id);
    if k < j {
      assert forall i :: k < i < j ==> front[i] == local[i];
      PushWritesDirtyFolder(remote, front, failing, k);
      assert front[k] == local[k];
    }
  }

  /** `mergedFolders.filter(folder => !folders.some(n => n.id === folder.id))`: the
      entries whose id is not among the snapshot's ids. */
  function FoldersNotIn(s: seq<Folder>, known: set<string>): (r: seq<Folder>)
    ensures forall x :: x in r <==> x in s && x.id !in known
  {
    if s == [] then []
    else if s[0].id in known then FoldersNotIn(s[1..], known)
    else
      assert s == [s[0]] + s[1..];
      [s[0]] + FoldersNotIn(s[1..], known)
  }

  lemma {:induction false} FoldersNotInConcat(a: seq<Folder>, b: seq<Folder>, known: set<string>)
    ensures FoldersNotIn(a + b, known) == FoldersNotIn(a, known) + FoldersNotIn(b, known)
    decreases |a|
  {
    if a == [] {
      assert a + b == b;
    } else {
      assert (a + b)[0] == a[0] && (a + b)[1..] == a[1..] + b;
      FoldersNotInConcat(a[1..], b, known);
    }
  }

  lemma {:induction false} FoldersNotInDropsKnown(s: seq<Folder>, known: set<string>)
    requires forall k :: 0 <= k < |s| ==> s[k].id in known
    ensures FoldersNotIn(s, known) == []
    decreases |s|
  {
    if s != [] {
      FoldersNotInDropsKnown(s[1..], known);
    }
  }

  lemma {:induction false} FoldersNotInKeepsUnknown(s: seq<Folder>, known: set<string>)
    requires forall k :: 0 <= k < |s| ==> s[k].id !in known
    ensures FoldersNotIn(s, known) == s
    decreases |s|
  {
    if s != [] {
      var rest := s[1..];
      assert forall k :: 0 <= k < |rest| ==> rest[k] == s[k + 1];
      FoldersNotInKeepsUnknown(rest, known);
      assert s[0].id !in known;
      assert FoldersNotIn(s, known) == [s[0]] + FoldersNotIn(rest, known);
      assert s == [s[0]] + rest;
    }
  }

  /** The folders the cycle adds are exactly the Drive folders the merge appended,
      so adding them one by one to the snapshot rebuilds the merge. */
  lemma NewFoldersAreAppended(local: seq<Folder>, drive: seq<Folder>)
    ensures FoldersNotIn(MergedFolders(local, drive), FolderIds(local)) == AppendedFolders(FolderIds(local), drive)
    ensures local + FoldersNotIn(MergedFolders(local, drive), FolderIds(local)) == MergedFolders(local, drive)
  {
    var ids := FolderIds(local);
    var a := AppendedFolders(ids, drive);
    FoldersNotInConcat(local, a, ids);
    FoldersNotInDropsKnown(local, ids);
    AppendedFoldersAreNewAndSynced(ids, drive);
    FoldersNotInKeepsUnknown(a, ids);
  }

  /** Pushing puts on Drive no folder id that was neither on Drive nor local. */
  lemma PushedFolderIdsBounded(remote: seq<Folder>, local: seq<Folder>, failing: set<string>)
    ensures forall j :: 0 <= j < |PushedFolders(remote, local, failing)| ==>
      PushedFolders(remote, local, failing)[j].id in FolderIds(remote) + FolderIds(local)
  {
    var p := PushedFolders(remote, local, failing);
    PushWritesOnlyDirtyFolders(remote, local, failing);
    forall j | 0 <= j < |p|
      ensures p[j].id in FolderIds(remote) + FolderIds(local)
    {
      assert p[j] in p;
      if p[j] !in remote {
        var k :| 0 <= k < |local| && !local[k].synced && p[j] == local[k].(synced := true);
        assert local[k] in local;
      }
    }
  }

  /** After a cycle whose listing succeeded, the next cycle adds no folder,
      whatever faults it meets: every id it can list is already local. */
  lemma SecondCycleAddsNoFolders(local: seq<Folder>, remote: seq<Folder>, faults: Faults, next: Faults)
    requires !faults.folderListFails
    ensures CycleFolders(CycleFolders(local, remote, faults), PushedFolders(remote, local, faults.failingFolderWrites), next)
         == CycleFolders(local, remote, faults)
  {
    var remote' := PushedFolders(remote, local, faults.failingFolderWrites);
    var local' := CycleFolders(local, remote, faults);
    var listed := ListedFolders(remote', local', next);
    MergedFoldersCoverDrive(local, remote');
    MergedFoldersShape(local, remote');
    assert forall x :: x in local ==> x in local' by {
      forall x | x in local ensures x in local' {
        var k :| 0 <= k < |local| && local[k] == x;
        assert local'[k] == local'[..|local|][k];
      }
    }
    PushedFolderIdsBounded(remote', local', next.failingFolderWrites);
    NoFoldersAppendedWhenAllKnown(FolderIds(local'), listed);
    assert local' + [] == local';
  }

  /** The folders the cycle downloads: Drive after the push, or nothing when
      listing fails (`downloadFolders` returns `[]` on error). */
  function ListedFolders(remote: seq<Folder>, local: seq<Folder>, faults: Faults): seq<Folder>
  {
    if faults.folderListFails then [] else PushedFolders(remote, local, faults.failingFolderWrites)
  }

  /** The store's folders after a cycle that started from `local` and `remote`. */
  function CycleFolders(local: seq<Folder>, remote: seq<Folder>, faults: Faults): seq<Folder>
  {
    MergedFolders(local, ListedFolders(remote, local, faults))
  }

  /** The cycle never touches a local folder, so in particular it never marks
      one synced: a folder dirty before the cycle is still dirty after it. */
  lemma CycleKeepsLocalFolders(local: seq<Folder>, remote: seq<Folder>, faults: Faults)
    ensures |CycleFolders(local, remote, faults)| >= |local|
    ensures CycleFolders(local, remote, faults)[..|local|] == local
    ensures forall k :: 0 <= k < |local| && !local[k].synced ==> !CycleFolders(local, remote, faults)[k].synced
  {
    var c := CycleFolders(local, remote, faults);
    MergedFoldersShape(local, ListedFolders(remote, local, faults));
    assert forall k :: 0 <= k < |local| ==> c[k] == c[..|local|][k];
  }

  /** With no local ids every Drive folder is appended, in Drive order. */
  lemma {:induction false} AppendedFoldersWhenNoneKnown(drive: seq<Folder>)
    ensures |AppendedFolders({}, drive)| == |drive|
    ensures forall k :: 0 <= k < |drive| ==> AppendedFolders({}, drive)[k] == drive[k].(synced := true)
    decreases |drive|
  {
    if drive != [] {
      var front := drive[..|drive| - 1];
      AppendedFoldersWhenNoneKnown(front);
      assert forall k :: 0 <= k < |front| ==> front[k] == drive[k];
    }
  }

  /** A device with no folders pulls Drive's whole list, every folder marked synced. */
  lemma PullFoldersIntoEmptyStore(remote: seq<Folder>, faults: Faults)
    requires !faults.folderListFails
    ensures |CycleFolders([], remote, faults)| == |remote|
    ensures forall k :: 0 <= k < |remote| ==> CycleFolders([], remote, faults)[k] == remote[k].(synced := true)
  {
    var none: seq<Folder> := [];
    assert FolderIds(none) == {};
    assert PushedFolders(remote, none, faults.failingFolderWrites) == remote;
    AppendedFoldersWhenNoneKnown(remote);
  }

  /** A dirty folder is written to Drive as a synced copy, overwriting whatever
      Drive held under its id, while the local copy keeps `synced = false`:
      nothing writes the flag back. */
  lemma PushedFolderStaysDirtyLocally(local: seq<Folder>, remote: seq<Folder>, faults: Faults, k: nat)
    requires k < |local| && !local[k].synced && local[k].id !in faults.failingFolderWrites
    requires forall j :: k < j < |local| && local[j].id == local[k].id ==> local[j].synced
    ensures FindFolder(PushedFolders(remote, local, faults.failingFolderWrites), local[k].id) == Some(local[k].(synced := true))
    ensures |CycleFolders(local, remote, faults)| >= |local| && CycleFolders(local, remote, faults)[k] == local[k]
  {
    PushWritesDirtyFolder(remote, local, faults.failingFolderWrites, k);
    CycleKeepsLocalFolders(local, remote, faults);
    var c := CycleFolders(local, remote, faults);
    assert c[k] == c[..|local|][k];
  }

  /** No tombstones: a folder deleted locally that still exists on Drive comes
      back, marked synced, at the next cycle whose listing succeeds. */
  lemma DeletedFolderResurrects(local: seq<Folder>, remote: seq<Folder>, faults: Faults, id: string)
    requires FindFolder(remote, id).Some? && !faults.folderListFails
    ensures FindFolder(remote, id).value.(synced := true) in CycleFolders(FoldersWithout(local, id), remote, faults)
  {
    var after := FoldersWithout(local, id);
    var pushed := PushedFolders(remote, after, faults.failingFolderWrites);
    PushLeavesOtherFolders(remote, after, faults.failingFolderWrites, id);
    var r := FindFolder(remote, id).value;
    var j :| 0 <= j < |pushed| && pushed[j] == r;
    MergedContainsNewFolder(after, pushed, j);
  }

  // ---------------------------------------------------------------------------
  // The Drive service and the sync cycle
  // ---------------------------------------------------------------------------

  /** The app folder on Google Drive, seen through `googleDriveService`: the
      note files and the folder files in listing order, and a log of the
      calls made to it. Whether a call fails is decided by its caller. */
  class Drive {
    var notes: seq<Note>
    var folders: seq<Folder>
    ghost var calls: seq<DriveCall>

    constructor (notes0: seq<Note>, folders0: seq<Folder>)
      ensures notes == notes0 && folders == folders0 && calls == []
    {
      notes, folders, calls := notes0, folders0, [];
    }

    /** `uploadNote`: overwrite the file named after the id, or create one;
        on any error `false` is returned, and the failed call is taken to
        have written nothing. */
    method UploadNote(note: Note, fails: bool) returns (ok: bool)
      modifies this
      ensures ok == !fails
      ensures notes == if fails then old(notes) else UpsertNote(old(notes), note)
      ensures folders == old(folders) && calls == old(calls) + [PutNote(note.id)]
    {
      ok := !fails;
      if ok {
        notes := UpsertNote(notes, note);
      }
      calls := calls + [PutNote(note.id)];
    }

    /** `uploadFolder`, as `uploadNote` for folder files. */
    method UploadFolder(folder: Folder, fails: bool) returns (ok: bool)
      modifies this
      ensures ok == !fails
      ensures folders == if fails then old(folders) else UpsertFolder(old(folders), folder)
      ensures notes == old(notes) && calls == old(calls) + [PutFolder(folder.id)]
    {
      ok := !fails;
      if ok {
        folders := UpsertFolder(folders, folder);
      }
      calls := calls + [PutFolder(folder.id)];
    }

    /** `downloadNotes`: every note file in listing order; `[]` on any error. */
    method DownloadNotes(fails: bool) returns (r: seq<Note>)
      modifies this
      ensures r == if fails then [] else notes
      ensures notes == old(notes) && folders == old(folders) && calls == old(calls) + [ListNotes]
    {
      r := if fails then [] else notes;
      calls := calls + [ListNotes];
    }

    /** `downloadFolders`: every folder file in listing order; `[]` on any error. */
    method DownloadFolders(fails: bool) returns (r: seq<Folder>)
      modifies this
      ensures r == if fails then [] else folders
      ensures notes == old(notes) && folders == old(folders) && calls == old(calls) + [ListFolders]
    {
      r := if fails then [] else folders;
      calls := calls + [ListFolders];
    }
  }

  /** The first loop of the cycle: upload every dirty note, marked synced. */
  method PushNotes(drive: Drive, notes: seq<Note>, failing: set<string>)
    modifies drive
    ensures drive.notes == PushedNotes(old(drive.notes), notes, failing)
    ensures drive.folders == old(drive.folders)
    ensures drive.calls == old(drive.calls) + NotePushCalls(notes)
  {
    for i := 0 to |notes|
      invariant drive.notes == PushedNotes(old(drive.notes), notes[..i], failing)
      invariant drive.folders == old(drive.folders)
      invariant drive.calls == old(drive.calls) + NotePushCalls(notes[..i])
    {
      assert notes[..i + 1][..i] == notes[..i];
      var note := notes[i];
      if !note.synced {
        var _ := drive.UploadNote(note.(synced := true), note.id in failing);
      }
    }
    assert notes[..|notes|] == notes;
  }

  /** The second loop of the cycle: upload every dirty folder, marked synced. */
  method PushFolders(drive: Drive, folders: seq<Folder>, failing: set<string>)
    modifies drive
    ensures drive.folders == PushedFolders(old(drive.folders), folders, failing)
    ensures drive.notes == old(drive.notes)
    ensures drive.calls == old(drive.calls) + FolderPushCalls(folders)
  {
    for i := 0 to |folders|
      invariant drive.folders == PushedFolders(old(drive.folders), folders[..i], failing)
      invariant drive.notes == old(drive.notes)
      invariant drive.calls == old(drive.calls) + FolderPushCalls(folders[..i])
    {
      assert folders[..i + 1][..i] == folders[..i];
      var folder := folders[i];
      if !folder.synced {
        var _ := drive.UploadFolder(folder.(synced := true), folder.id in failing);
      }
    }
    assert folders[..|folders|] == folders;
  }

  /** `for (const note of newNotes) addNote(note)`: each call appends the note,
      selects it and opens the editor, so the last one added ends selected. */
  method AddNotes(store: NotesStore, newNotes: seq<Note>)
    modifies store
    ensures store.notes == old(store.notes) + newNotes && store.folders == old(store.folders)
    ensures newNotes != [] ==> store.activeNoteId == Some(newNotes[|newNotes| - 1].id) && store.isEditing
    ensures newNotes == [] ==> store.activeNoteId == old(store.activeNoteId) && store.isEditing == old(store.isEditing)
    ensures store.activeFolderId == old(store.activeFolderId) && store.isSyncing == old(store.isSyncing)
    ensures store.user == old(store.user) && store.isDarkMode == old(store.isDarkMode)
  {
    for j := 0 to |newNotes|
      invariant store.notes == old(store.notes) + newNotes[..j] && store.folders == old(store.folders)
      invariant j > 0 ==> store.activeNoteId == Some(newNotes[j - 1].id) && store.isEditing
      invariant j == 0 ==> store.activeNoteId == old(store.activeNoteId) && store.isEditing == old(store.isEditing)
      invariant store.activeFolderId == old(store.activeFolderId) && store.isSyncing == old(store.isSyncing)
      invariant store.user == old(store.user) && store.isDarkMode == old(store.isDarkMode)
    {
      assert newNotes[..j + 1] == newNotes[..j] + [newNotes[j]];
      store.AddNote(newNotes[j]);
    }
    assert newNotes[..|newNotes|] == newNotes;
  }

  /** `for (const folder of newFolders) addFolder(folder)`: the last one added
      ends selected. */
  method AddFolders(store: NotesStore, newFolders: seq<Folder>)
    modifies store
    ensures store.folders == old(store.folders) + newFolders && store.notes == old(store.notes)
    ensures newFolders != [] ==> store.activeFolderId == Some(newFolders[|newFolders| - 1].id)
    ensures newFolders == [] ==> store.activeFolderId == old(store.activeFolderId)
    ensures store.activeNoteId == old(store.activeNoteId) && store.isEditing == old(store.isEditing)
    ensures store.isSyncing == old(store.isSyncing)
    ensures store.user == old(store.user) && store.isDarkMode == old(store.isDarkMode)
  {
    for j := 0 to |newFolders|
      invariant store.folders == old(store.folders) + newFolders[..j] && store.notes == old(store.notes)
      invariant j > 0 ==> store.activeFolderId == Some(newFolders[j - 1].id)
      invariant j == 0 ==> store.activeFolderId == old(store.activeFolderId)
      invariant store.activeNoteId == old(store.activeNoteId) && store.isEditing == old(store.isEditing)
      invariant store.isSyncing == old(store.isSyncing)
      invariant store.user == old(store.user) && store.isDarkMode == old(store.isDarkMode)
    {
      assert newFolders[..j + 1] == newFolders[..j] + [newFolders[j]];
      store.AddFolder(newFolders[j]);
    }
    assert newFolders[..|newFolders|] == newFolders;
  }

  /** The Drive half of the cycle: push the dirty notes, then the dirty
      folders, then list both kinds. */
  method PushAndList(drive: Drive, notes: seq<Note>, folders: seq<Folder>, faults: Faults)
    returns (driveNotes: seq<Note>, driveFolders: seq<Folder>)
    modifies drive
    ensures drive.notes == PushedNotes(old(drive.notes), notes, faults.failingNoteWrites)
    ensures drive.folders == PushedFolders(old(drive.folders), folders, faults.failingFolderWrites)
    ensures drive.calls == old(drive.calls) + NotePushCalls(notes) + FolderPushCalls(folders) + [ListNotes, ListFolders]
    ensures driveNotes == ListedNotes(old(drive.notes), notes, faults)
    ensures driveFolders == ListedFolders(old(drive.folders), folders, faults)
  {
    PushNotes(drive, notes, faults.failingNoteWrites);
    PushFolders(drive, folders, faults.failingFolderWrites);
    driveNotes := drive.DownloadNotes(faults.noteListFails);
    driveFolders := drive.DownloadFolders(faults.folderListFails);
  }

  /** The store half of the cycle: merge the listings into the store's
      records and add the records the merge appended, notes first. */
  method MergeIntoStore(store: NotesStore, driveNotes: seq<Note>, driveFolders: seq<Folder>)
    returns (newNoteCount: nat, newFolderCount: nat)
    modifies store
    ensures store.notes == MergedNotes(old(store.notes), driveNotes)
    ensures store.folders == MergedFolders(old(store.folders), driveFolders)
    ensures newNoteCount == |store.notes| - |old(store.notes)|
    ensures newFolderCount == |store.folders| - |old(store.folders)|
    ensures newNoteCount > 0 ==> store.activeNoteId == Some(store.notes[|store.notes| - 1].id) && store.isEditing
    ensures newNoteCount == 0 ==> store.activeNoteId == old(store.activeNoteId) && store.isEditing == old(store.isEditing)
    ensures newFolderCount > 0 ==> store.activeFolderId == Some(store.folders[|store.folders| - 1].id)
    ensures newFolderCount == 0 ==> store.activeFolderId == old(store.activeFolderId)
    ensures store.isSyncing == old(store.isSyncing)
    ensures store.user == old(store.user) && store.isDarkMode == old(store.isDarkMode)
  {
    var notes, folders := store.notes, store.folders;
    var mergedNotes := MergeNotes(notes, driveNotes);
    var mergedFolders := MergeFolders(folders, driveFolders);
    var newNotes := NotesNotIn(mergedNotes, NoteIds(notes));
    var newFolders := FoldersNotIn(mergedFolders, FolderIds(folders));
    NewNotesAreAppended(notes, driveNotes);
    NewFoldersAreAppended(folders, driveFolders);
    AddNotes(store, newNotes);
    AddFolders(store, newFolders);
    newNoteCount, newFolderCount := |newNotes|, |newFolders|;
  }

  /** `syncWithGoogleDrive`: push every dirty note and folder, list both kinds,
      merge (local wins) and add the new records to the store one by one.
      The two counts are the ones reported in the completion toast. */
  method SyncWithDrive(store: NotesStore, drive: Drive, faults: Faults) returns (newNoteCount: nat, newFolderCount: nat)
    modifies store, drive
    ensures drive.notes == PushedNotes(old(drive.notes), old(store.notes), faults.failingNoteWrites)
    ensures drive.folders == PushedFolders(old(drive.folders), old(store.folders), faults.failingFolderWrites)
    ensures drive.calls == old(drive.calls) + NotePushCalls(old(store.notes))
                           + FolderPushCalls(old(store.folders)) + [ListNotes, ListFolders]
    ensures store.notes == CycleNotes(old(store.notes), old(drive.notes), faults)
    ensures store.folders == CycleFolders(old(store.folders), old(drive.folders), faults)
    ensures newNoteCount == |store.notes| - |old(store.notes)|
    ensures newFolderCount == |store.folders| - |old(store.folders)|
    ensures newNoteCount > 0 ==> store.activeNoteId == Some(store.notes[|store.notes| - 1].id) && store.isEditing
    ensures newNoteCount == 0 ==> store.activeNoteId == old(store.activeNoteId) && store.isEditing == old(store.isEditing)
    ensures newFolderCount > 0 ==> store.activeFolderId == Some(store.folders[|store.folders| - 1].id)
    ensures newFolderCount == 0 ==> store.activeFolderId == old(store.activeFolderId)
    ensures !store.isSyncing && store.user == old(store.user) && store.isDarkMode == old(store.isDarkMode)
  {
    // the component's `notes` and `folders` are the state of the render
    var notes, folders := store.notes, store.folders;
    store.SetSyncing(true);
    var driveNotes, driveFolders := PushAndList(drive, notes, folders, faults);
    newNoteCount, newFolderCount := MergeIntoStore(store, driveNotes, driveFolders);
    store.SetSyncing(false);
  }
}
