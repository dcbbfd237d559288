/** The logic of the sidebar (components/sidebar.tsx): the note list filter by
    search text and selected folder, and the create / rename / delete folder
    handlers: creating and renaming have blank-name guards, deleting needs a
    selected folder. Lower-casing is modelled over ASCII
    letters; `trim` strips the fixed set of JavaScript white-space characters. */
module Sidebar {
  import opened Records
  import opened Store
  import Utils

  // ---------------------------------------------------------------------------
  // Text helpers
  // ---------------------------------------------------------------------------

  /** `toLowerCase` on one character, for ASCII letters. */
  function LowerChar(c: char): char
  {
    if 'A' <= c <= 'Z' then (c as int + 32) as char else c
  }

  function Lower(s: string): string
  {
    seq(|s|, k requires 0 <= k < |s| => LowerChar(s[k]))
  }

  /** `s.includes(q)`, computed by trying each start position. */
  function Includes(s: string, q: string): bool
    decreases |s|
  {
    q <= s || (s != [] && Includes(s[1..], q))
  }

  /** `q` occurs in `s` starting at position `i`. */
  ghost predicate OccursAt(s: string, q: string, i: int)
  {
    0 <= i <= |s| - |q| && s[i..i + |q|] == q
  }

  /** `q` occurs in `s` as a contiguous block. */
  ghost predicate Occurs(s: string, q: string)
  {
    exists i :: OccursAt(s, q, i)
  }

  /** An occurrence in the tail is an occurrence one position later in `s`. */
  lemma OccursShift(s: string, q: string, i: int)
    requires s != [] && i >= 0
    ensures OccursAt(s[1..], q, i) <==> OccursAt(s, q, i + 1)
  {
    if 0 <= i <= |s| - 1 - |q| {
      assert s[1..][i..i + |q|] == s[i + 1..i + 1 + |q|];
    }
  }

  /** `Includes` finds `q` exactly when it occurs somewhere in `s`. */
  lemma {:induction false} IncludesIffOccurs(s: string, q: string)
    ensures Includes(s, q) <==> Occurs(s, q)
    decreases |s|
  {
    if q <= s {
      assert OccursAt(s, q, 0);
    } else if s != [] {
      IncludesIffOccurs(s[1..], q);
      if Occurs(s[1..], q) {
        var i :| OccursAt(s[1..], q, i);
        OccursShift(s, q, i);
      }
      if Occurs(s, q) {
        var i :| OccursAt(s, q, i);
        assert i != 0 by {
          assert i == 0 ==> q <= s;
        }
        OccursShift(s, q, i - 1);
      }
    }
  }

  /** The white-space characters JavaScript's `trim` removes (white space and
      line terminators). */
  predicate IsJsWhitespace(c: char)
  {
    || c == '\t' || c == '\n' || c == '\U{000B}' || c == '\U{000C}' || c == '\r' || c == ' '
    || c == '\U{00A0}' || c == '\U{1680}' || ('\U{2000}' <= c <= '\U{200A}')
    || c == '\U{2028}' || c == '\U{2029}' || c == '\U{202F}' || c == '\U{205F}'
    || c == '\U{3000}' || c == '\U{FEFF}'
  }

  function TrimStart(s: string): (r: string)
    ensures |r| <= |s| && r == s[|s| - |r|..]
    ensures r != [] ==> !IsJsWhitespace(r[0])
    ensures forall k :: 0 <= k < |s| - |r| ==> IsJsWhitespace(s[k])
    decreases |s|
  {
    if s != [] && IsJsWhitespace(s[0]) then TrimStart(s[1..]) else s
  }

  function TrimEnd(s: string): (r: string)
    ensures |r| <= |s| && r == s[..|r|]
    ensures r != [] ==> !IsJsWhitespace(r[|r| - 1])
    ensures forall k :: |r| <= k < |s| ==> IsJsWhitespace(s[k])
    decreases |s|
  {
    if s != [] && IsJsWhitespace(s[|s| - 1]) then TrimEnd(s[..|s| - 1]) else s
  }

  /** `r` is the block of `s` starting at `i`, and every character of `s`
      before or after that block is white space. */
  predicate TrimmedFrom(s: string, r: string, i: int)
  {
    && 0 <= i <= |s| - |r| && r == s[i..i + |r|]
    && (forall k :: 0 <= k < i ==> IsJsWhitespace(s[k]))
    && (forall k :: i + |r| <= k < |s| ==> IsJsWhitespace(s[k]))
  }

  /** `s.trim()`: white space is cut from both ends, and what is left neither
      starts nor ends with white space. */
  function Trim(s: string): (r: string)
    ensures |r| <= |s|
    ensures r != [] ==> !IsJsWhitespace(r[0]) && !IsJsWhitespace(r[|r| - 1])
    // `r` is `s` with its leading white space cut off, and then its trailing
    ensures TrimmedFrom(s, r, |s| - |TrimStart(s)|)
  {
    var t := TrimStart(s);
    var r := TrimEnd(t);
    assert r != [] ==> r[0] == t[0];
    CutBothEnds(s, t, r);
    r
  }

  /** Cutting a white-space prefix off `s`, giving `t`, and then a
      white-space suffix off `t`, giving `r`, leaves `r` as a block of `s`
      with only white space around it. */
  lemma CutBothEnds(s: string, t: string, r: string)
    requires |t| <= |s| && t == s[|s| - |t|..]
    requires forall k :: 0 <= k < |s| - |t| ==> IsJsWhitespace(s[k])
    requires |r| <= |t| && r == t[..|r|]
    requires forall k :: |r| <= k < |t| ==> IsJsWhitespace(t[k])
    ensures TrimmedFrom(s, r, |s| - |t|)
  {
    var i := |s| - |t|;
    assert s[i..i + |r|] == t[..|r|];
    forall k | i + |r| <= k < |s| ensures IsJsWhitespace(s[k]) {
      assert s[k] == t[k - i];
    }
  }

  /** `s.trim() === ''` holds exactly when every character of `s` is white space. */
  lemma TrimEmptyIffBlank(s: string)
    ensures Trim(s) == "" <==> forall k :: 0 <= k < |s| ==> IsJsWhitespace(s[k])
  {
    var t := TrimStart(s);
    assert t != [] ==> t[0] == s[|s| - |t|];
    if !forall k :: 0 <= k < |s| ==> IsJsWhitespace(s[k]) {
      var k :| 0 <= k < |s| && !IsJsWhitespace(s[k]);
      assert k >= |s| - |t|;
      assert t[k - (|s| - |t|)] == s[k];
    }
  }

  // ---------------------------------------------------------------------------
  // The note filter
  // ---------------------------------------------------------------------------

  /** `matchesSearch`. */
  predicate MatchesSearch(n: Note, query: string)
  {
    || query == ""
    || Includes(Lower(n.title), Lower(query))
    || Includes(Lower(n.content), Lower(query))
  }

  /** The filter predicate: `matchesSearch && (activeFolderId === null || matchesFolder)`. */
  predicate Shown(n: Note, query: string, activeFolderId: Option<string>)
  {
    var matchesFolder := activeFolderId == None || n.folderId == activeFolderId;
    MatchesSearch(n, query) && (activeFolderId == None || matchesFolder)
  }

  /** `filteredNotes`: the notes the sidebar lists, in store order. */
  function FilteredNotes(notes: seq<Note>, query: string, activeFolderId: Option<string>): (r: seq<Note>)
    ensures IsSubsequence(r, notes)
    ensures forall n :: n in r <==> n in notes && Shown(n, query, activeFolderId)
    ensures activeFolderId != None ==> forall k :: 0 <= k < |r| ==> r[k].folderId == activeFolderId
  {
    if notes == [] then []
    else if Shown(notes[0], query, activeFolderId) then
      assert notes == [notes[0]] + notes[1..];
      [notes[0]] + FilteredNotes(notes[1..], query, activeFolderId)
    else FilteredNotes(notes[1..], query, activeFolderId)
  }

  /** The filter works note by note: filtering a concatenation filters each
      part, so a note is listed once for each time it occurs and passes. */
  lemma {:induction false} FilteredNotesConcat(a: seq<Note>, b: seq<Note>, query: string, activeFolderId: Option<string>)
    ensures FilteredNotes(a + b, query, activeFolderId)
         == FilteredNotes(a, query, activeFolderId) + FilteredNotes(b, query, activeFolderId)
    decreases |a|
  {
    if a != [] {
      assert (a + b)[1..] == a[1..] + b;
      assert (a + b)[0] == a[0];
      FilteredNotesConcat(a[1..], b, query, activeFolderId);
      if Shown(a[0], query, activeFolderId) {
        assert FilteredNotes(a + b, query, activeFolderId)
            == [a[0]] + FilteredNotes(a[1..] + b, query, activeFolderId);
        assert FilteredNotes(a, query, activeFolderId)
            == [a[0]] + FilteredNotes(a[1..], query, activeFolderId);
      }
    } else {
      assert a + b == b;
    }
  }

  /** A single note is listed exactly when it passes the filter. */
  lemma FilteredSingleNote(n: Note, query: string, activeFolderId: Option<string>)
    ensures FilteredNotes([n], query, activeFolderId) == if Shown(n, query, activeFolderId) then [n] else []
  {
    assert [n][1..] == [];
  }

  /** The sidebar never lists more notes than the store holds, and lists them
      all exactly when every note passes. */
  lemma {:induction false} FilteredNotesLength(notes: seq<Note>, query: string, activeFolderId: Option<string>)
    ensures |FilteredNotes(notes, query, activeFolderId)| <= |notes|
    ensures |FilteredNotes(notes, query, activeFolderId)| == |notes|
        <==> forall k :: 0 <= k < |notes| ==> Shown(notes[k], query, activeFolderId)
    decreases |notes|
  {
    if notes != [] {
      var rest := notes[1..];
      FilteredNotesLength(rest, query, activeFolderId);
      assert |FilteredNotes(notes, query, activeFolderId)|
          == |FilteredNotes(rest, query, activeFolderId)| + if Shown(notes[0], query, activeFolderId) then 1 else 0;
      if forall k :: 0 <= k < |rest| ==> Shown(rest[k], query, activeFolderId) {
        forall k | 1 <= k < |notes| ensures Shown(notes[k], query, activeFolderId) {
          assert rest[k - 1] == notes[k];
        }
      } else {
        var k :| 0 <= k < |rest| && !Shown(rest[k], query, activeFolderId);
        assert notes[k + 1] == rest[k];
      }
    }
  }

  /** A note passes the search test exactly when the lower-cased query occurs in
      its lower-cased title or content; the empty query passes every note. */
  lemma MatchesSearchIff(n: Note, query: string)
    ensures MatchesSearch(n, query) <==> Occurs(Lower(n.title), Lower(query)) || Occurs(Lower(n.content), Lower(query))
  {
    IncludesIffOccurs(Lower(n.title), Lower(query));
    IncludesIffOccurs(Lower(n.content), Lower(query));
    if query == "" {
      assert OccursAt(Lower(n.title), Lower(query), 0);
    }
  }

  /** With no search text and no folder selected every note is listed. */
  lemma {:induction false} NoFilterListsAll(notes: seq<Note>)
    ensures FilteredNotes(notes, "", None) == notes
    decreases |notes|
  {
    if notes != [] {
      NoFilterListsAll(notes[1..]);
      assert notes == [notes[0]] + notes[1..];
    }
  }

  // ---------------------------------------------------------------------------
  // The folder dialog handlers
  // ---------------------------------------------------------------------------

  /** A toast the sidebar shows. */
  datatype Toast = Toast(title: string, description: string, destructive: bool)

  const EmptyNameToast := Toast("Error", "Folder name cannot be empty", true)

  /** `!id` for a `string | null`: both `null` and the empty string are falsy. */
  predicate IsFalsy(id: Option<string>)
  {
    id == None || id == Some("")
  }

  /** The sidebar component: its local dialog state and the shared store. */
  class SidebarView {
    const store: NotesStore
    var searchQuery: string
    var folderName: string
    var renameFolderId: Option<string>
    var newFolderName: string
    var showCreateFolder: bool
    var showRenameFolder: bool
    var deleteFolderId: Option<string>
    var showDeleteFolder: bool

    constructor (store: NotesStore)
      ensures this.store == store && searchQuery == "" && folderName == "" && newFolderName == ""
      ensures renameFolderId == None && deleteFolderId == None
      ensures !showCreateFolder && !showRenameFolder && !showDeleteFolder
    {
      this.store := store;
      searchQuery, folderName, newFolderName := "", "", "";
      renameFolderId, deleteFolderId := None, None;
      showCreateFolder, showRenameFolder, showDeleteFolder := false, false, false;
    }

    /** `handleCreateFolder`: a blank name only raises an error toast; any
        other name, untrimmed, becomes exactly one new selected folder and the
        dialog closes. */
    method HandleCreateFolder(newId: string, now: string) returns (toast: Toast)
      modifies this, store
      ensures Trim(old(folderName)) == "" ==> unchanged(this, store) && toast == EmptyNameToast
      ensures Trim(old(folderName)) != "" ==>
        && store.folders == old(store.folders) + [Utils.CreateFolder(newId, old(folderName), now)]
        && store.activeFolderId == Some(newId)
        && store.notes == old(store.notes) && store.activeNoteId == old(store.activeNoteId)
        && store.user == old(store.user) && store.isEditing == old(store.isEditing)
        && store.isDarkMode == old(store.isDarkMode) && store.isSyncing == old(store.isSyncing)
        && folderName == "" && !showCreateFolder
        && searchQuery == old(searchQuery) && renameFolderId == old(renameFolderId)
        && newFolderName == old(newFolderName) && showRenameFolder == old(showRenameFolder)
        && deleteFolderId == old(deleteFolderId) && showDeleteFolder == old(showDeleteFolder)
        && toast == Toast("Success", "Folder created successfully", false)
    {
      if Trim(folderName) == "" {
        return EmptyNameToast;
      }
      toast := CommitCreate(newId, now);
    }

    /** The guarded part of `handleCreateFolder`: add the new folder to the
        store and reset the create dialog. */
    method CommitCreate(newId: string, now: string) returns (toast: Toast)
      modifies this, store
      ensures store.folders == old(store.folders) + [Utils.CreateFolder(newId, old(folderName), now)]
      ensures store.activeFolderId == Some(newId)
      ensures store.notes == old(store.notes) && store.activeNoteId == old(store.activeNoteId)
      ensures store.user == old(store.user) && store.isEditing == old(store.isEditing)
      ensures store.isDarkMode == old(store.isDarkMode) && store.isSyncing == old(store.isSyncing)
      ensures folderName == "" && !showCreateFolder
      ensures searchQuery == old(searchQuery) && renameFolderId == old(renameFolderId)
      ensures newFolderName == old(newFolderName) && showRenameFolder == old(showRenameFolder)
      ensures deleteFolderId == old(deleteFolderId) && showDeleteFolder == old(showDeleteFolder)
      ensures toast == Toast("Success", "Folder created successfully", false)
    {
      var newFolder := Utils.CreateFolder(newId, folderName, now);
      store.AddFolder(newFolder);
      folderName := "";
      showCreateFolder := false;
      toast := Toast("Success", "Folder created successfully", false);
    }

    /** `openRenameDialog`. */
    method OpenRenameDialog(folderId: string, currentName: string)
      modifies this
      ensures renameFolderId == Some(folderId) && newFolderName == currentName && showRenameFolder
      ensures folderName == old(folderName) && showCreateFolder == old(showCreateFolder)
      ensures deleteFolderId == old(deleteFolderId) && showDeleteFolder == old(showDeleteFolder)
      ensures searchQuery == old(searchQuery)
    {
      renameFolderId, newFolderName, showRenameFolder := Some(folderId), currentName, true;
    }

    /** `handleRenameFolder`: nothing happens without a selected folder; a blank
        name only raises an error toast; otherwise the folder gets the name as
        typed and the dialog closes. */
    method HandleRenameFolder() returns (toast: Option<Toast>)
      modifies this, store
      ensures IsFalsy(old(renameFolderId)) ==> unchanged(this, store) && toast == None
      ensures !IsFalsy(old(renameFolderId)) && Trim(old(newFolderName)) == "" ==>
        unchanged(this, store) && toast == Some(EmptyNameToast)
      ensures !IsFalsy(old(renameFolderId)) && Trim(old(newFolderName)) != "" ==>
        && store.folders == RenamedFolders(old(store.folders), old(renameFolderId).value, old(newFolderName))
        && store.notes == old(store.notes) && store.activeFolderId == old(store.activeFolderId)
        && store.activeNoteId == old(store.activeNoteId) && store.user == old(store.user)
        && store.isEditing == old(store.isEditing) && store.isDarkMode == old(store.isDarkMode)
        && store.isSyncing == old(store.isSyncing)
      ensures !IsFalsy(old(renameFolderId)) && Trim(old(newFolderName)) != "" ==>
        && renameFolderId == None && newFolderName == "" && !showRenameFolder
        && searchQuery == old(searchQuery)
        && folderName == old(folderName) && showCreateFolder == old(showCreateFolder)
        && deleteFolderId == old(deleteFolderId) && showDeleteFolder == old(showDeleteFolder)
        && toast == Some(Toast("Success", "Folder renamed successfully", false))
    {
      if IsFalsy(renameFolderId) {
        return None;
      }
      if Trim(newFolderName) == "" {
        return Some(EmptyNameToast);
      }
      toast := CommitRename();
    }

    /** The guarded part of `handleRenameFolder`: rename the selected folder
        in the store and reset the rename dialog. */
    method CommitRename() returns (toast: Option<Toast>)
      requires renameFolderId.Some?
      modifies this, store
      ensures store.folders == RenamedFolders(old(store.folders), old(renameFolderId).value, old(newFolderName))
      ensures store.notes == old(store.notes) && store.activeFolderId == old(store.activeFolderId)
      ensures store.activeNoteId == old(store.activeNoteId) && store.user == old(store.user)
      ensures store.isEditing == old(store.isEditing) && store.isDarkMode == old(store.isDarkMode)
      ensures store.isSyncing == old(store.isSyncing)
      ensures renameFolderId == None && newFolderName == "" && !showRenameFolder
      ensures searchQuery == old(searchQuery)
      ensures folderName == old(folderName) && showCreateFolder == old(showCreateFolder)
      ensures deleteFolderId == old(deleteFolderId) && showDeleteFolder == old(showDeleteFolder)
      ensures toast == Some(Toast("Success", "Folder renamed successfully", false))
    {
      store.UpdateFolder(renameFolderId.value, newFolderName);
      renameFolderId := None;
      newFolderName := "";
      showRenameFolder := false;
      toast := Some(Toast("Success", "Folder renamed successfully", false));
    }

    /** `openDeleteDialog`. */
    method OpenDeleteDialog(folderId: string)
      modifies this
      ensures deleteFolderId == Some(folderId) && showDeleteFolder
      ensures folderName == old(folderName) && showCreateFolder == old(showCreateFolder)
      ensures renameFolderId == old(renameFolderId) && newFolderName == old(newFolderName)
      ensures showRenameFolder == old(showRenameFolder)
      ensures searchQuery == old(searchQuery)
    {
      deleteFolderId, showDeleteFolder := Some(folderId), true;
    }

    /** `handleDeleteFolder`: nothing happens without a selected folder;
        otherwise the store deletes it and the dialog closes. */
    method HandleDeleteFolder() returns (toast: Option<Toast>)
      modifies this, store
      ensures IsFalsy(old(deleteFolderId)) ==> unchanged(this, store) && toast == None
      ensures !IsFalsy(old(deleteFolderId)) ==>
        && store.folders == FoldersWithout(old(store.folders), old(deleteFolderId).value)
        && store.notes == NotesDetachedFrom(old(store.notes), old(deleteFolderId).value)
        && store.activeFolderId == ClearedIf(old(store.activeFolderId), old(deleteFolderId).value)
        && store.activeNoteId == old(store.activeNoteId) && store.user == old(store.user)
        && store.isEditing == old(store.isEditing) && store.isDarkMode == old(store.isDarkMode)
        && store.isSyncing == old(store.isSyncing)
        && deleteFolderId == None && !showDeleteFolder
        && searchQuery == old(searchQuery)
        && folderName == old(folderName) && showCreateFolder == old(showCreateFolder)
        && renameFolderId == old(renameFolderId) && newFolderName == old(newFolderName)
        && showRenameFolder == old(showRenameFolder)
        && toast == Some(Toast("Success", "Folder deleted successfully", false))
    {
      if IsFalsy(deleteFolderId) {
        return None;
      }
      store.DeleteFolder(deleteFolderId.value);
      deleteFolderId := None;
      showDeleteFolder := false;
      toast := Some(Toast("Success", "Folder deleted successfully", false));
    }
  }
}
