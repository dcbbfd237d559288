# Notes app: records, store, merge and Drive sync

A Dafny model of the logic inside a browser notes app. The app is written in
TypeScript with a zustand store and uses Google Drive as remote storage.

The app has three kinds of records:

- **Notes**: an id, title, content, two timestamps, an optional folder and a
  `synced` flag.
- **Folders**: an id, name, creation time and `synced` flag.
- **The signed-in user.**

One store holds the note and folder lists, the user, the selected note and
folder, and three UI flags. Each store action replaces some of those fields.
Only the two lists and the dark-mode flag are persisted.

A sync cycle runs in these steps:

1. Upload every dirty note, then every dirty folder, as a copy marked synced.
2. List everything on Drive.
3. Merge the listing into the local lists. Local records win, and Drive
   records with unknown ids are appended, marked synced.
4. Add the appended records to the store one by one.

The sidebar filters the notes by search text and folder. It creates and
renames folders behind blank-name guards; deleting a folder needs only a
selected folder.

Modules, one per file:

| file | module | models |
|---|---|---|
| records.dfy | `Records` | the record types of lib/types.ts and id sets |
| merge.dfy | `Merge` | `mergeNotes`, `mergeFolders` (lib/localStorage.ts) |
| store.dfy | `Store` | the store state and every action, `partialize` (lib/store.ts) |
| utils.dfy | `Utils` | `createEmptyNote`, `createFolder`, `truncateText` (lib/utils.ts) |
| sidebar.dfy | `Sidebar` | `filteredNotes` and the folder dialog handlers (components/sidebar.tsx) |
| sync.dfy | `Sync` | Drive seen through its service, and `syncWithGoogleDrive` (components/user-profile.tsx) |

How the model maps the source:

- **The store** is a class. Each action is a method that replaces the fields
  the action names. The `map`/`filter` expressions inside the actions are
  functions.
- **The merges** are loops, proved equal to a recursive specification
  function. Lemmas state their properties.
- **Drive** is a class holding the note files and folder files in listing
  order. An upload replaces the first file with the same id, or appends a
  new file. A download returns every file of its kind; paging is not
  modelled (see "## Left out"). A ghost log records every call.
- **Failures** come in as a `Faults` parameter. The Drive service catches
  every error and reports it only as a result, so:
  - a failed upload is taken to leave Drive unchanged;
  - a failed download returns `[]`;
  - no Drive error reaches the cycle's own `catch` branch. That branch runs
    only when a store update inside the `try` throws, that is, when the
    `persist` write to browser storage fails; `persist` is not modelled.
- **Ids and timestamps** (`nanoid()`, `new Date().toISOString()`) are
  parameters.

Two behaviours of the code differ from what one might expect of a sync
cycle, and the model follows the code:

- **The `synced` flag after a push.** One might expect pushed records to
  become synced locally, but nothing in the cycle writes the flag back. The
  model proves that a dirty local note stays dirty
  (`Sync.PushedNoteStaysDirtyLocally`, `Sync.CycleKeepsLocalNotes`).
- **Upload failures.** The cycle reports no successes or failures of its
  uploads: the code ignores the result of `uploadNote`.

## Model

| member | source | states |
|---|---|---|
| Records.NoteIds | lib/localStorage.ts:66 | the id set contains the id of every note of the list and nothing else |
| Records.FolderIds | lib/localStorage.ts:84 | the id set contains the id of every folder of the list and nothing else |
| Merge.MergeNotes | lib/localStorage.ts:64-79 | the loop returns the merge specification; the local list is an unchanged prefix of the result |
| Merge.AppendedNotesFromDrive | lib/localStorage.ts:68-76 | each appended entry is a Drive note with an unknown id, `synced` forced true, taken at strictly increasing Drive positions; every Drive note with an unknown id is among them |
| Merge.AppendedNotesAreNewAndSynced | lib/localStorage.ts:70-74 | every appended note is marked synced and has an id not among the local ids |
| Merge.MergedNotesShape | lib/localStorage.ts:65-75 | the result starts with the local list; every later entry is synced and has an id that is not local |
| Merge.MergedContainsNewNote | lib/localStorage.ts:69-75 | additivity: every Drive note with an unknown id is in the result, marked synced |
| Merge.LocalNotesWin | lib/localStorage.ts:70 | an entry of the result whose id is local is the local note at that position |
| Merge.MergedNotesLength | lib/localStorage.ts:68-78 | the length is the local length plus the number of Drive positions with unknown ids |
| Merge.NoNotesAppendedWhenAllKnown | lib/localStorage.ts:70 | when every Drive id is known nothing is appended |
| Merge.MergedNotesCoverDrive | lib/localStorage.ts:64-79 | every Drive id occurs in the result |
| Merge.MergeNotesIdempotent | lib/localStorage.ts:64-79 | merging the same Drive list again changes nothing |
| Merge.MergedNotesDistinct | lib/localStorage.ts:66-75 | distinct local ids and distinct Drive ids give distinct result ids |
| Merge.DuplicateDriveNoteAppendedTwice | lib/localStorage.ts:66-75 | the id set is never updated, so a Drive list with the same note twice yields it twice, with duplicate ids |
| Merge.MergeFolders | lib/localStorage.ts:82-97 | the loop returns the folder merge specification; the local list is an unchanged prefix |
| Merge.AppendedFoldersFromDrive | lib/localStorage.ts:86-94 | appended folders are exactly the Drive folders with unknown ids, in Drive order, marked synced |
| Merge.AppendedFoldersAreNewAndSynced | lib/localStorage.ts:88-92 | every appended folder is synced and has a non-local id |
| Merge.MergedFoldersShape | lib/localStorage.ts:83-93 | the local folders are a prefix; later entries are synced with non-local ids |
| Merge.MergedContainsNewFolder | lib/localStorage.ts:87-93 | every Drive folder with an unknown id is in the result, marked synced |
| Merge.LocalFoldersWin | lib/localStorage.ts:88 | an entry with a local id is the local folder at that position |
| Merge.MergedFoldersLength | lib/localStorage.ts:86-96 | the length is the local length plus the number of unknown Drive positions |
| Merge.NoFoldersAppendedWhenAllKnown | lib/localStorage.ts:88 | nothing is appended when every Drive id is known |
| Merge.MergedFoldersCoverDrive | lib/localStorage.ts:82-97 | every Drive folder id occurs in the result |
| Merge.MergeFoldersIdempotent | lib/localStorage.ts:82-97 | merging the same Drive folders again changes nothing |
| Merge.MergedFoldersDistinct | lib/localStorage.ts:84-93 | distinct inputs give distinct result ids |
| Merge.DuplicateDriveFolderAppendedTwice | lib/localStorage.ts:84-93 | a folder listed twice on Drive is appended twice |
| Store.PatchNote | lib/store.ts:63 | `{...note, ...data}`: a key present in the patch wins, a missing key keeps the note's value; an empty patch is the identity |
| Store.PatchUser | lib/store.ts:98 | `{...state.user, ...userData}`: a key present in the patch wins, a missing key keeps the user's value; an empty patch is the identity |
| Store.UpdatedNotes | lib/store.ts:61-65 | same length; other ids untouched; each matching note gets the patch, `updatedAt = now` and `synced = false` |
| Store.UpdateIgnoresSyncedAndTimestamp | lib/store.ts:63 | the patch's own `updatedAt` and `synced` keys have no effect |
| Store.NotesWithout | lib/store.ts:68 | keeps exactly the notes with another id, in order (a subsequence); no note with the id is left; the identity when the id is absent |
| Store.NotesWithoutConcat | lib/store.ts:68 | deleting from a concatenation deletes from each part |
| Store.DeleteUndoesAdd | lib/store.ts:55-59 | deleting a just-added note with a new id restores the list |
| Store.NotesDetachedFrom | lib/store.ts:89-91 | same length and ids; exactly the notes in the folder get `folderId = null` and `synced = false`; no note refers to the folder afterwards |
| Store.RenamedFolders | lib/store.ts:80-84 | same length; only the matching folder gets the name, unvalidated, and `synced = false` |
| Store.FoldersWithout | lib/store.ts:87 | keeps exactly the folders with another id, in order |
| Store.FoldersWithoutConcat | lib/store.ts:87 | deleting folders from a concatenation deletes from each part |
| Store.DeleteUndoesAddFolder | lib/store.ts:75-78 | deleting a just-added folder with a new id restores the list |
| Store.ClearedIf | lib/store.ts:69 | the selection becomes null exactly when it was the deleted id (or already null) |
| Store.NotesStore.constructor | lib/store.ts:40-52 | the initial state: empty lists, signed out, nothing selected, all flags false |
| Store.NotesStore.AddNote | lib/store.ts:55-59 | appends the note, selects it and opens the editor; nothing else changes |
| Store.NotesStore.UpdateNote | lib/store.ts:61-65 | the notes become `UpdatedNotes`; nothing else changes |
| Store.NotesStore.DeleteNote | lib/store.ts:67-70 | the notes lose the id; the selection is cleared only if it was that id |
| Store.NotesStore.SetActiveNote | lib/store.ts:72 | selects the note and always leaves edit mode; the persisted part is unchanged |
| Store.NotesStore.AddFolder | lib/store.ts:75-78 | appends the folder and selects it |
| Store.NotesStore.UpdateFolder | lib/store.ts:80-84 | the folders become `RenamedFolders` |
| Store.NotesStore.DeleteFolder | lib/store.ts:86-92 | removes the folder, clears its selection, detaches its notes; the note count is unchanged |
| Store.NotesStore.SetActiveFolder | lib/store.ts:94 | only the folder selection changes |
| Store.NotesStore.SetUser | lib/store.ts:97-99 | the user is spread with the patch; the persisted part is unchanged |
| Store.NotesStore.ClearUser | lib/store.ts:101-108 | the user is reset to signed out; the persisted part is unchanged |
| Store.NotesStore.SetEditing | lib/store.ts:111 | only the edit flag changes |
| Store.NotesStore.ToggleDarkMode | lib/store.ts:112 | the dark-mode flag flips; nothing else changes |
| Store.NotesStore.SetSyncing | lib/store.ts:113 | only the syncing flag changes |
| Store.ToggleDarkModeTwice | lib/store.ts:112 | toggling twice restores the whole state, including `partialize`'s selection (lib/store.ts:117-121) |
| Utils.CreateEmptyNote | lib/utils.ts:11-21 | a dirty note titled "Untitled Note" with empty content and the given folder; each timestamp is its own clock reading |
| Utils.CreateFolder | lib/utils.ts:23-30 | a dirty folder carrying the name verbatim |
| Utils.SliceTo | lib/utils.ts:39 | JavaScript `slice(0, end)`: a prefix whose length counts back for a negative end and is clamped |
| Utils.TruncateText | lib/utils.ts:37-40 | the text unchanged when it fits; for a non-negative limit the first `maxLength` characters plus "...", length `maxLength + 3`; for a negative limit the text minus its last `-maxLength` characters (nothing, if that is more than it has) plus "..." |
| Utils.TruncateIdempotent | lib/utils.ts:37-40 | for a non-negative limit truncating twice equals truncating once |
| Utils.TruncateNegativeLimitGrows | lib/utils.ts:38-39 | for a negative limit the result grows with each application |
| Sidebar.IncludesIffOccurs | components/sidebar.tsx:59-60 | `includes` holds exactly when the query occurs as a contiguous block |
| Sidebar.TrimStart | components/sidebar.tsx:68 | strips exactly the leading JavaScript white space |
| Sidebar.TrimEnd | components/sidebar.tsx:68 | strips exactly the trailing JavaScript white space |
| Sidebar.Trim | components/sidebar.tsx:68 | the result is the block of the name left after its leading and trailing white space are cut: everything before and after it is white space, and it neither starts nor ends with white space |
| Sidebar.CutBothEnds | components/sidebar.tsx:68 | cutting a white-space prefix and then a white-space suffix leaves a block of the name with only white space around it |
| Sidebar.TrimEmptyIffBlank | components/sidebar.tsx:68 | a name trims to "" exactly when it is all white space |
| Sidebar.FilteredNotes | components/sidebar.tsx:57-65 | a subsequence of the notes holding exactly the shown ones; with a folder selected every listed note is filed in it |
| Sidebar.FilteredNotesConcat | components/sidebar.tsx:57 | filtering a concatenation filters each part, so every occurrence of a shown note is listed, duplicates included |
| Sidebar.FilteredSingleNote | components/sidebar.tsx:57-65 | a single note is listed exactly when it passes the search and folder tests |
| Sidebar.FilteredNotesLength | components/sidebar.tsx:57-65 | the list is never longer than the notes, and is as long exactly when every note passes |
| Sidebar.MatchesSearchIff | components/sidebar.tsx:58-60 | a note matches exactly when the lower-cased query occurs in its lower-cased title or content |
| Sidebar.NoFilterListsAll | components/sidebar.tsx:58-64 | with no query and no folder selected every note is listed, in order |
| Sidebar.SidebarView.constructor | components/sidebar.tsx:33-40 | the dialog state starts empty and closed |
| Sidebar.SidebarView.HandleCreateFolder | components/sidebar.tsx:67-86 | a blank name changes nothing and shows the error toast; otherwise exactly one new folder with the untrimmed name is added and selected, and the dialog closes |
| Sidebar.SidebarView.CommitCreate | components/sidebar.tsx:77-85 | the success branch of `handleCreateFolder`: the store gains exactly `createFolder(folderName)`, selected; the name field is cleared and the dialog closes; every other field is unchanged |
| Sidebar.SidebarView.OpenRenameDialog | components/sidebar.tsx:123-127 | records the folder and its current name and opens the dialog |
| Sidebar.SidebarView.HandleRenameFolder | components/sidebar.tsx:88-108 | no-op without a selected folder (null or ""); a blank name only toasts; otherwise the folder is renamed as typed and the dialog resets |
| Sidebar.SidebarView.CommitRename | components/sidebar.tsx:99-107 | the success branch of `handleRenameFolder`: the folders become `RenamedFolders` with the typed name; the rename dialog resets; every other field is unchanged |
| Sidebar.SidebarView.OpenDeleteDialog | components/sidebar.tsx:129-132 | records the folder and opens the dialog |
| Sidebar.SidebarView.HandleDeleteFolder | components/sidebar.tsx:110-121 | no-op without a selected folder; otherwise the store deletes it (cascade included) and the dialog closes |
| Sync.NoteIndex | lib/googleDriveService.ts:221-230 | the first position holding the id, or -1 when no file has it |
| Sync.FindNote | lib/googleDriveService.ts:221-230 | the note found has that id and is on Drive; none exactly when the id is absent |
| Sync.UpsertNoteFind | lib/googleDriveService.ts:228-249 | after an upload Drive holds the written note under its id and the previous version under every other id |
| Sync.UpsertNoteContents | lib/googleDriveService.ts:228-249 | an upload adds nothing but the written note |
| Sync.UpsertNoteDistinct | lib/googleDriveService.ts:228-249 | an upload keeps note file ids unique |
| Sync.Drive.UploadNote | lib/googleDriveService.ts:211-256 | success exactly when no failure; Drive is upserted on success and taken to be unchanged on failure; the call is logged |
| Sync.Drive.UploadFolder | lib/googleDriveService.ts:259-304 | as `UploadNote`, for folder files |
| Sync.Drive.DownloadNotes | lib/googleDriveService.ts:307-343 | the whole note listing, or `[]` on failure; Drive is unchanged |
| Sync.Drive.DownloadFolders | lib/googleDriveService.ts:346-382 | the whole folder listing, or `[]` on failure |
| Sync.PushNotes | components/user-profile.tsx:130-134 | Drive becomes `PushedNotes` and exactly one upload is logged per dirty note, in order |
| Sync.PushFolders | components/user-profile.tsx:136-140 | Drive's folders become `PushedFolders`; one upload is logged per dirty folder |
| Sync.PushKeepsNoteIdsDistinct | components/user-profile.tsx:130-134 | pushing keeps Drive's note ids distinct |
| Sync.PushWritesOnlyDirtyNotes | components/user-profile.tsx:130-134 | every note on Drive afterwards was there before or is a dirty local note marked synced |
| Sync.PushLeavesOtherNotes | components/user-profile.tsx:130-134 | an id with no writable dirty local note keeps its Drive version |
| Sync.PushWritesDirtyNote | components/user-profile.tsx:130-134 | Drive holds the last dirty local note of each id, marked synced, overwriting the Drive version, unless its write failed |
| Sync.NotesNotIn | components/user-profile.tsx:151 | keeps exactly the entries whose id is not among the given ids |
| Sync.NotesNotInConcat | components/user-profile.tsx:151 | the `newNotes` filter distributes over concatenation |
| Sync.NewNotesAreAppended | components/user-profile.tsx:147-156 | `newNotes` equals the notes the merge appended, so adding them to the snapshot rebuilds the merge |
| Sync.PushedNoteIdsBounded | components/user-profile.tsx:130-134 | pushing creates no id that was neither on Drive nor local |
| Sync.CycleKeepsLocalNotes | components/user-profile.tsx:125-176 | the cycle keeps the local notes as a prefix, so a dirty note stays dirty |
| Sync.PushedNoteStaysDirtyLocally | components/user-profile.tsx:130-156 | a dirty note is written to Drive marked synced (overwriting the remote version) while the local copy keeps `synced = false` |
| Sync.DeletedNoteResurrects | components/user-profile.tsx:143-156 | a note deleted locally that is still on Drive comes back, marked synced, with the next successful listing |
| Sync.PullNotesIntoEmptyStore | components/user-profile.tsx:143-156 | with no local notes the cycle yields Drive's listing, each note marked synced |
| Sync.SecondCycleAddsNoNotes | components/user-profile.tsx:125-176 | after a cycle whose listing succeeded, the next cycle adds no note |
| Sync.FolderIndex | lib/googleDriveService.ts:269-278 | the first position holding the folder id, or -1 when no file has it |
| Sync.FindFolder | lib/googleDriveService.ts:269-278 | the folder found has that id and is on Drive; none exactly when the id is absent |
| Sync.UpsertFolderFind | lib/googleDriveService.ts:276-297 | after an upload Drive holds the written folder under its id and the previous version elsewhere |
| Sync.UpsertFolderContents | lib/googleDriveService.ts:276-297 | an upload adds nothing but the written folder |
| Sync.UpsertFolderDistinct | lib/googleDriveService.ts:276-297 | an upload keeps folder file ids unique |
| Sync.PushKeepsFolderIdsDistinct | components/user-profile.tsx:136-140 | pushing keeps Drive's folder ids distinct |
| Sync.PushWritesOnlyDirtyFolders | components/user-profile.tsx:136-140 | only dirty folders are written, each marked synced |
| Sync.PushLeavesOtherFolders | components/user-profile.tsx:136-140 | a folder id with no writable dirty local folder keeps its Drive version |
| Sync.PushWritesDirtyFolder | components/user-profile.tsx:136-140 | Drive holds the last dirty local folder of each id, marked synced, unless its write failed |
| Sync.FoldersNotIn | components/user-profile.tsx:152 | keeps exactly the folders whose id is not among the given ids |
| Sync.FoldersNotInConcat | components/user-profile.tsx:152 | the `newFolders` filter distributes over concatenation |
| Sync.NewFoldersAreAppended | components/user-profile.tsx:147-160 | `newFolders` equals the folders the merge appended |
| Sync.CycleKeepsLocalFolders | components/user-profile.tsx:125-176 | the local folders stay a prefix; a dirty folder stays dirty |
| Sync.PushedFolderStaysDirtyLocally | components/user-profile.tsx:136-160 | a dirty folder is written to Drive marked synced while the local copy stays dirty |
| Sync.DeletedFolderResurrects | components/user-profile.tsx:143-160 | a folder deleted locally that is still on Drive comes back with the next successful listing |
| Sync.PushedFolderIdsBounded | components/user-profile.tsx:136-140 | pushing creates no folder id that was neither on Drive nor local |
| Sync.PullFoldersIntoEmptyStore | components/user-profile.tsx:143-160 | with no local folders the cycle yields Drive's folder listing, each folder marked synced |
| Sync.SecondCycleAddsNoFolders | components/user-profile.tsx:125-176 | after a cycle whose folder listing succeeded, the next adds no folder |
| Sync.AddNotes | components/user-profile.tsx:154-156 | appends the new notes in order; the last one ends selected with the editor open |
| Sync.AddFolders | components/user-profile.tsx:158-160 | appends the new folders in order; the last one ends selected |
| Sync.PushAndList | components/user-profile.tsx:130-144 | all uploads happen before both listings (call log), and the listings are Drive after the pushes, or `[]` on failure |
| Sync.MergeIntoStore | components/user-profile.tsx:147-160 | the store lists become the merges; the counts are the number of records added |
| Sync.SyncWithDrive | components/user-profile.tsx:125-176 | Drive ends as the pushed lists; the calls are in order; the store lists are the merged cycle result; the counts match the toast; `isSyncing` ends false; the user and dark mode are untouched |

## Left out

- The Google Drive transport in lib/googleDriveService.ts is left out: script loading, OAuth, the REST queries and JSON encoding. Drive is the `Drive` class, with listing order taken as creation order.
- The `name contains 'note_'` listing query can also match a folder file whose id contains `note_`, and the reverse. The model keeps note files and folder files apart.
- Failures are given per record id for uploads, not per call. The code never retries, but two uploads of the same id happen in one cycle when the local list holds that id twice; the model makes both fail or both succeed.
- Reading and writing browser storage (lib/localStorage.ts:8-61) is left out, as is the zustand `create`/`persist` machinery. `partialize` is the `Persisted` selection.
- `cn`, `formatDate` and `extractPreviewText` in lib/utils.ts are left out: they are library and regex-engine behaviour. `nanoid()` and the clock are parameters.
- Rendering is not modelled: note-app, note-viewer, note-editor (including its debounced saves), theme switcher, empty state and sync status.
- Sidebar.Lower: models `toLowerCase` on ASCII letters only, because Unicode case mapping is not available.
- Sidebar.IsJsWhitespace: covers the fixed white-space and line-terminator set of `trim` (the white space and line terminators of ECMA-262), not a Unicode database lookup.
- A patch key explicitly set to `undefined` is left out. `NotePatch` and `UserPatch` only distinguish an absent key from a present one.
- Async interleaving is not modelled. The cycle runs sequentially on the snapshot of the store taken when it starts, as the component's closure does.
- Sync.SyncWithDrive: does not state that `isSyncing` is true between its first and last store update. The flag is set first and cleared last in the body, and the helper methods keep it.
- Sync.SyncWithDrive: the "Sync failed" toast (components/user-profile.tsx:166-172) is not modelled. No Drive error reaches it, since the Drive service catches every error. It runs when `addNote` or `addFolder` (lines 155, 159) throws because the `persist` middleware's synchronous write to browser storage fails, for example when the quota is exceeded. The cycle then stops part-way: the records not yet added stay out of the store, no counts are shown, and `isSyncing` is still cleared. The model assumes every store update succeeds.
- Sync.Drive.UploadNote and Sync.Drive.DownloadNotes: the JSON encoding of a record in a Drive file body is taken to be the identity. The same holds for the round trip through browser storage done by the `persist` middleware, which is not modelled.
- Sync.Drive.UploadNote: a failed upload is taken to leave Drive unchanged. In the code a create or PATCH (lib/googleDriveService.ts:231-248) can take effect on Drive and still fail on the client, so that `uploadNote` returns `false` after writing.
- Sync.Drive.UploadFolder: a failed upload is taken to leave Drive's folder files unchanged, although a create or PATCH (lib/googleDriveService.ts:276-297) can take effect and still fail on the client.
- Sync.Drive.DownloadNotes: returns every note file. The listings (lib/googleDriveService.ts:316-320, 355-359) set no page size and never follow `nextPageToken`, so Drive returns at most one page of files. The cycle lemmas built on it (Sync.PullNotesIntoEmptyStore, Sync.SecondCycleAddsNoNotes) hold under the same assumption.
- Sync.Drive.DownloadFolders: returns every folder file, where the listing (lib/googleDriveService.ts:355-359) returns at most one page. Sync.PullFoldersIntoEmptyStore and Sync.SecondCycleAddsNoFolders hold under the same assumption.
- Utils.CreateEmptyNote: the fresh id and both clock readings are parameters. Nothing relates the two readings, so the model does not promise `createdAt <= updatedAt`.
- Store.UpdatedNotes: one `now` is used for every note with the id. The code reads the clock once per matching note inside `map` (lib/store.ts:63). The readings differ only when the list holds the id more than once.
- Utils.TruncateText: counts Unicode scalar values, where JavaScript `length` and `slice` (lib/utils.ts:38-39) count UTF-16 code units. A text with characters outside the Basic Multilingual Plane therefore truncates at a different place. `maxLength` is an integer; a fractional or NaN `number` is not modelled.
- Utils.SliceTo: counts Unicode scalar values where JavaScript `slice` counts UTF-16 code units, and takes an integer end where the source passes a `number`.
