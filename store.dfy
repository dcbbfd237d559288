/** The application state container of lib/store.ts: one state object with the
    note and folder lists, the user, the selection and three UI flags. Every
    action replaces some of these fields. The list transformations the actions
    perform (`map`, `filter`, spread) are functions; the class methods apply
    them to the fields. Timestamps (`new Date().toISOString()`) are passed in. */
module Store {
  import opened Records

  /** `Partial<Note>`: `Some(v)` means the key is present with value `v`. */
  datatype NotePatch = NotePatch(
    id: Option<string>,
    title: Option<string>,
    content: Option<string>,
    createdAt: Option<string>,
    updatedAt: Option<string>,
    folderId: Option<Option<string>>,
    synced: Option<bool>)

  /** `Partial<User>`. */
  datatype UserPatch = UserPatch(
    email: Option<Option<string>>,
    name: Option<Option<string>>,
    picture: Option<Option<string>>,
    isAuthenticated: Option<bool>)

  /** The part of the state that is written to browser storage (`partialize`). */
  datatype PersistedState = PersistedState(notes: seq<Note>, folders: seq<Folder>, isDarkMode: bool)

  function Override<T>(current: T, given: Option<T>): T
  {
    if given.Some? then given.value else current
  }

  /** `{ ...note, ...data }`: every key present in the patch overrides. */
  function PatchNote(n: Note, data: NotePatch): (r: Note)
    ensures data == NotePatch(None, None, None, None, None, None, None) ==> r == n
    // a key present in the patch wins
    ensures (data.id.Some? ==> r.id == data.id.value) && (data.title.Some? ==> r.title == data.title.value)
    ensures (data.content.Some? ==> r.content == data.content.value)
    ensures (data.createdAt.Some? ==> r.createdAt == data.createdAt.value)
    ensures (data.updatedAt.Some? ==> r.updatedAt == data.updatedAt.value)
    ensures (data.folderId.Some? ==> r.folderId == data.folderId.value)
    ensures (data.synced.Some? ==> r.synced == data.synced.value)
    // a missing key keeps the note's own value
    ensures (data.id == None ==> r.id == n.id) && (data.title == None ==> r.title == n.title)
    ensures (data.content == None ==> r.content == n.content)
    ensures (data.createdAt == None ==> r.createdAt == n.createdAt)
    ensures (data.updatedAt == None ==> r.updatedAt == n.updatedAt)
    ensures (data.folderId == None ==> r.folderId == n.folderId)
    ensures (data.synced == None ==> r.synced == n.synced)
  {
    Note(Override(n.id, data.id), Override(n.title, data.title), Override(n.content, data.content),
         Override(n.createdAt, data.createdAt), Override(n.updatedAt, data.updatedAt),
         Override(n.folderId, data.folderId), Override(n.synced, data.synced))
  }

  /** `{ ...state.user, ...userData }`. */
  function PatchUser(u: User, data: UserPatch): (r: User)
    ensures data == UserPatch(None, None, None, None) ==> r == u
    // a key present in the patch wins
    ensures (data.email.Some? ==> r.email == data.email.value) && (data.name.Some? ==> r.name == data.name.value)
    ensures (data.picture.Some? ==> r.picture == data.picture.value)
    ensures (data.isAuthenticated.Some? ==> r.isAuthenticated == data.isAuthenticated.value)
    // a missing key keeps the user's own value
    ensures (data.email == None ==> r.email == u.email) && (data.name == None ==> r.name == u.name)
    ensures (data.picture == None ==> r.picture == u.picture)
    ensures (data.isAuthenticated == None ==> r.isAuthenticated == u.isAuthenticated)
  {
    User(Override(u.email, data.email), Override(u.name, data.name),
         Override(u.picture, data.picture), Override(u.isAuthenticated, data.isAuthenticated))
  }

  /** The notes after `updateNote(id, data)`: each note with that id gets the
      patch applied and then a fresh `updatedAt` and `synced = false`, which
      win over whatever the patch says; every other note is kept. */
  function UpdatedNotes(notes: seq<Note>, id: string, data: NotePatch, now: string): (r: seq<Note>)
    ensures |r| == |notes|
    ensures forall k :: 0 <= k < |notes| && notes[k].id != id ==> r[k] == notes[k]
    ensures forall k :: 0 <= k < |notes| && notes[k].id == id ==>
      && r[k] == PatchNote(notes[k], data).(updatedAt := now, synced := false)
      && !r[k].synced && r[k].updatedAt == now
  {
    if notes == [] then []
    else
      var n := notes[0];
      [if n.id == id then PatchNote(n, data).(updatedAt := now, synced := false) else n]
        + UpdatedNotes(notes[1..], id, data, now)
  }

  /** The notes after `deleteNote(id)`: those with a different id, in order. */
  function NotesWithout(notes: seq<Note>, id: string): (r: seq<Note>)
    ensures forall n :: n in r <==> n in notes && n.id != id
    ensures IsSubsequence(r, notes)
    ensures (forall k :: 0 <= k < |notes| ==> notes[k].id != id) ==> r == notes
    decreases |notes|
  {
    if notes == [] then []
    else
      var tail := notes[1..];
      var rest := NotesWithout(tail, id);
      assert notes == [notes[0]] + tail;
      assert forall k :: 0 <= k < |tail| ==> tail[k] == notes[k + 1];
      if notes[0].id == id then
        assert rest != [] ==> rest[0] in rest;
        rest
      else
        var r := [notes[0]] + rest;
        assert r[0] == notes[0] && r[1..] == rest;
        r
  }

  /** The notes after `deleteFolder(folderId)`: a note filed in that folder is
      moved to "no folder" and marked dirty; every other note is kept; the
      list keeps its length and order. */
  function NotesDetachedFrom(notes: seq<Note>, folderId: string): (r: seq<Note>)
    ensures |r| == |notes|
    ensures forall k :: 0 <= k < |notes| && notes[k].folderId == Some(folderId) ==>
      r[k] == notes[k].(folderId := None, synced := false)
    ensures forall k :: 0 <= k < |notes| && notes[k].folderId != Some(folderId) ==> r[k] == notes[k]
    ensures forall k :: 0 <= k < |r| ==> r[k].folderId != Some(folderId) && r[k].id == notes[k].id
  {
    if notes == [] then []
    else
      var n := notes[0];
      [if n.folderId == Some(folderId) then n.(folderId := None, synced := false) else n]
        + NotesDetachedFrom(notes[1..], folderId)
  }

  /** The folders after `updateFolder(id, name)`: the name is taken as given,
      with no validation, and the folder is marked dirty. */
  function RenamedFolders(folders: seq<Folder>, id: string, name: string): (r: seq<Folder>)
    ensures |r| == |folders|
    ensures forall k :: 0 <= k < |folders| && folders[k].id != id ==> r[k] == folders[k]
    ensures forall k :: 0 <= k < |folders| && folders[k].id == id ==>
      r[k] == folders[k].(name := name, synced := false)
  {
    if folders == [] then []
    else
      var f := folders[0];
      [if f.id == id then f.(name := name, synced := false) else f]
        + RenamedFolders(folders[1..], id, name)
  }

  /** The folders after `deleteFolder(id)`: those with a different id, in order. */
  function FoldersWithout(folders: seq<Folder>, id: string): (r: seq<Folder>)
    ensures forall f :: f in r <==> f in folders && f.id != id
    ensures IsSubsequence(r, folders)
    ensures (forall k :: 0 <= k < |folders| ==> folders[k].id != id) ==> r == folders
    decreases |folders|
  {
    if folders == [] then []
    else
      var tail := folders[1..];
      var rest := FoldersWithout(tail, id);
      assert folders == [folders[0]] + tail;
      assert forall k :: 0 <= k < |tail| ==> tail[k] == folders[k + 1];
      if folders[0].id == id then
        assert rest != [] ==> rest[0] in rest;
        rest
      else
        var r := [folders[0]] + rest;
        assert r[0] == folders[0] && r[1..] == rest;
        r
  }

  /** The selection after deleting the record with id `id`. */
  function ClearedIf(active: Option<string>, id: string): (r: Option<string>)
    ensures r == None <==> active == None || active == Some(id)
    ensures r != None ==> r == active
  {
    if active == Some(id) then None else active
  }

  /** `updateNote` ignores the `updatedAt` and `synced` keys of its patch. */
  lemma {:induction false} UpdateIgnoresSyncedAndTimestamp(notes: seq<Note>, id: string, data: NotePatch, now: string)
    ensures UpdatedNotes(notes, id, data, now) == UpdatedNotes(notes, id, data.(updatedAt := None, synced := None), now)
  {
    var a, b := UpdatedNotes(notes, id, data, now), UpdatedNotes(notes, id, data.(updatedAt := None, synced := None), now);
    assert |a| == |b|;
    forall k | 0 <= k < |a|
      ensures a[k] == b[k]
    {
    }
  }

  /** Deleting distributes over concatenation. */
  lemma {:induction false} NotesWithoutConcat(a: seq<Note>, b: seq<Note>, id: string)
    ensures NotesWithout(a + b, id) == NotesWithout(a, id) + NotesWithout(b, id)
    decreases |a|
  {
    if a == [] {
      assert a + b == b;
    } else {
      assert (a + b)[0] == a[0] && (a + b)[1..] == a[1..] + b;
      NotesWithoutConcat(a[1..], b, id);
    }
  }

  /** Deleting a note just added under a new id gives the old list back. */
  lemma DeleteUndoesAdd(notes: seq<Note>, n: Note)
    requires n.id !in NoteIds(notes)
    ensures NotesWithout(notes + [n], n.id) == notes
  {
    NotesWithoutConcat(notes, [n], n.id);
    assert NotesWithout([n], n.id) == [];
    assert notes + [] == notes;
  }

  /** Deleting distributes over concatenation. */
  lemma {:induction false} FoldersWithoutConcat(a: seq<Folder>, b: seq<Folder>, id: string)
    ensures FoldersWithout(a + b, id) == FoldersWithout(a, id) + FoldersWithout(b, id)
    decreases |a|
  {
    if a == [] {
      assert a + b == b;
    } else {
      assert (a + b)[0] == a[0] && (a + b)[1..] == a[1..] + b;
      FoldersWithoutConcat(a[1..], b, id);
    }
  }

  /** Deleting a folder just added under a new id gives the old list back. */
  lemma DeleteUndoesAddFolder(folders: seq<Folder>, f: Folder)
    requires f.id !in FolderIds(folders)
    ensures FoldersWithout(folders + [f], f.id) == folders
  {
    FoldersWithoutConcat(folders, [f], f.id);
    assert FoldersWithout([f], f.id) == [];
    assert folders + [] == folders;
  }

  /** The note/folder store (`useStore`). */
  class NotesStore {
    var notes: seq<Note>
    var folders: seq<Folder>
    var user: User
    var activeNoteId: Option<string>
    var activeFolderId: Option<string>
    var isEditing: bool
    var isDarkMode: bool
    var isSyncing: bool

    /** `partialize`: the fields written to browser storage. */
    function Persisted(): PersistedState
      reads this
    {
      PersistedState(notes, folders, isDarkMode)
    }

    /** The initial state. */
    constructor ()
      ensures notes == [] && folders == [] && user == SignedOut
      ensures activeNoteId == None && activeFolderId == None
      ensures !isEditing && !isDarkMode && !isSyncing
    {
      notes, folders, user := [], [], SignedOut;
      activeNoteId, activeFolderId := None, None;
      isEditing, isDarkMode, isSyncing := false, false, false;
    }

    /** `addNote`: append, select it and open the editor. */
    method AddNote(note: Note)
      modifies this
      ensures notes == old(notes) + [note]
      ensures activeNoteId == Some(note.id) && isEditing
      ensures folders == old(folders) && user == old(user) && activeFolderId == old(activeFolderId)
      ensures isDarkMode == old(isDarkMode) && isSyncing == old(isSyncing)
    {
      notes := notes + [note];
      activeNoteId := Some(note.id);
      isEditing := true;
    }

    method UpdateNote(id: string, data: NotePatch, now: string)
      modifies this
      ensures notes == UpdatedNotes(old(notes), id, data, now)
      ensures folders == old(folders) && user == old(user)
      ensures activeNoteId == old(activeNoteId) && activeFolderId == old(activeFolderId)
      ensures isEditing == old(isEditing) && isDarkMode == old(isDarkMode) && isSyncing == old(isSyncing)
    {
      notes := UpdatedNotes(notes, id, data, now);
    }

    /** `deleteNote`: the selection is cleared only if it was the deleted id. */
    method DeleteNote(id: string)
      modifies this
      ensures notes == NotesWithout(old(notes), id)
      ensures activeNoteId == ClearedIf(old(activeNoteId), id)
      ensures folders == old(folders) && user == old(user) && activeFolderId == old(activeFolderId)
      ensures isEditing == old(isEditing) && isDarkMode == old(isDarkMode) && isSyncing == old(isSyncing)
    {
      notes := NotesWithout(notes, id);
      activeNoteId := ClearedIf(activeNoteId, id);
    }

    /** `setActiveNote`: selecting a note always leaves edit mode. */
    method SetActiveNote(id: Option<string>)
      modifies this
      ensures activeNoteId == id && !isEditing
      ensures Persisted() == old(Persisted())
      ensures user == old(user) && activeFolderId == old(activeFolderId) && isSyncing == old(isSyncing)
    {
      activeNoteId, isEditing := id, false;
    }

    /** `addFolder`: append and select it. */
    method AddFolder(folder: Folder)
      modifies this
      ensures folders == old(folders) + [folder]
      ensures activeFolderId == Some(folder.id)
      ensures notes == old(notes) && user == old(user) && activeNoteId == old(activeNoteId)
      ensures isEditing == old(isEditing) && isDarkMode == old(isDarkMode) && isSyncing == old(isSyncing)
    {
      folders := folders + [folder];
      activeFolderId := Some(folder.id);
    }

    method UpdateFolder(id: string, name: string)
      modifies this
      ensures folders == RenamedFolders(old(folders), id, name)
      ensures notes == old(notes) && user == old(user)
      ensures activeNoteId == old(activeNoteId) && activeFolderId == old(activeFolderId)
      ensures isEditing == old(isEditing) && isDarkMode == old(isDarkMode) && isSyncing == old(isSyncing)
    {
      folders := RenamedFolders(folders, id, name);
    }

    /** `deleteFolder`: remove the folder, clear the selection if it was this
        folder, and detach (not delete) the notes filed in it. */
    method DeleteFolder(id: string)
      modifies this
      ensures folders == FoldersWithout(old(folders), id)
      ensures activeFolderId == ClearedIf(old(activeFolderId), id)
      ensures notes == NotesDetachedFrom(old(notes), id) && |notes| == |old(notes)|
      ensures user == old(user) && activeNoteId == old(activeNoteId)
      ensures isEditing == old(isEditing) && isDarkMode == old(isDarkMode) && isSyncing == old(isSyncing)
    {
      folders := FoldersWithout(folders, id);
      activeFolderId := ClearedIf(activeFolderId, id);
      notes := NotesDetachedFrom(notes, id);
    }

    method SetActiveFolder(id: Option<string>)
      modifies this
      ensures activeFolderId == id
      ensures Persisted() == old(Persisted())
      ensures user == old(user) && activeNoteId == old(activeNoteId)
      ensures isEditing == old(isEditing) && isSyncing == old(isSyncing)
    {
      activeFolderId := id;
    }

    method SetUser(data: UserPatch)
      modifies this
      ensures user == PatchUser(old(user), data)
      ensures Persisted() == old(Persisted())
      ensures activeNoteId == old(activeNoteId) && activeFolderId == old(activeFolderId)
      ensures isEditing == old(isEditing) && isSyncing == old(isSyncing)
    {
      user := PatchUser(user, data);
    }

    method ClearUser()
      modifies this
      ensures user == SignedOut
      ensures Persisted() == old(Persisted())
      ensures activeNoteId == old(activeNoteId) && activeFolderId == old(activeFolderId)
      ensures isEditing == old(isEditing) && isSyncing == old(isSyncing)
    {
      user := SignedOut;
    }

    method SetEditing(editing: bool)
      modifies this
      ensures isEditing == editing
      ensures Persisted() == old(Persisted())
      ensures user == old(user) && activeNoteId == old(activeNoteId)
      ensures activeFolderId == old(activeFolderId) && isSyncing == old(isSyncing)
    {
      isEditing := editing;
    }

    method ToggleDarkMode()
      modifies this
      ensures isDarkMode == !old(isDarkMode)
      ensures notes == old(notes) && folders == old(folders) && user == old(user)
      ensures activeNoteId == old(activeNoteId) && activeFolderId == old(activeFolderId)
      ensures isEditing == old(isEditing) && isSyncing == old(isSyncing)
    {
      isDarkMode := !isDarkMode;
    }

    method SetSyncing(syncing: bool)
      modifies this
      ensures isSyncing == syncing
      ensures Persisted() == old(Persisted())
      ensures user == old(user) && activeNoteId == old(activeNoteId)
      ensures activeFolderId == old(activeFolderId) && isEditing == old(isEditing)
    {
      isSyncing := syncing;
    }
  }

  /** Toggling dark mode twice restores the whole state. */
  method ToggleDarkModeTwice(s: NotesStore)
    modifies s
    ensures s.isDarkMode == old(s.isDarkMode) && s.Persisted() == old(s.Persisted())
    ensures s.user == old(s.user) && s.activeNoteId == old(s.activeNoteId)
    ensures s.activeFolderId == old(s.activeFolderId)
    ensures s.isEditing == old(s.isEditing) && s.isSyncing == old(s.isSyncing)
  {
    s.ToggleDarkMode();
    s.ToggleDarkMode();
  }
}
