/** The record model of the notes app (lib/types.ts): notes, folders and the
    signed-in user, together with the id helpers every other module uses.
    Ids, titles and timestamps are opaque strings. */
module Records {

  /** A nullable value: `None` stands for the source's `null`. */
  datatype Option<+T> = None | Some(value: T)

  /** A note. `folderId` is a weak reference to a folder (`None` for "no folder");
      `synced == false` marks a note with local changes not yet written to Drive. */
  datatype Note = Note(
    id: string,
    title: string,
    content: string,
    createdAt: string,
    updatedAt: string,
    folderId: Option<string>,
    synced: bool)

  /** A folder; `synced` has the same meaning as for notes. */
  datatype Folder = Folder(
    id: string,
    name: string,
    createdAt: string,
    synced: bool)

  /** The signed-in Google user; never written to Drive. */
  datatype User = User(
    email: Option<string>,
    name: Option<string>,
    picture: Option<string>,
    isAuthenticated: bool)

  /** The user value the store starts with and `clearUser` restores. */
  const SignedOut: User := User(None, None, None, false)

  /** The set of ids of a list of notes (`new Set(notes.map(n => n.id))`). */
  function NoteIds(s: seq<Note>): (ids: set<string>)
    ensures forall k :: 0 <= k < |s| ==> s[k].id in ids
    ensures forall id :: id in ids ==> exists k :: 0 <= k < |s| && s[k].id == id
  {
    set n | n in s :: n.id
  }

  /** The set of ids of a list of folders. */
  function FolderIds(s: seq<Folder>): (ids: set<string>)
    ensures forall k :: 0 <= k < |s| ==> s[k].id in ids
    ensures forall id :: id in ids ==> exists k :: 0 <= k < |s| && s[k].id == id
  {
    set f | f in s :: f.id
  }

  /** No two notes of the list share an id. */
  ghost predicate DistinctNoteIds(s: seq<Note>)
  {
    forall i, j :: 0 <= i < j < |s| ==> s[i].id != s[j].id
  }

  /** No two folders of the list share an id. */
  ghost predicate DistinctFolderIds(s: seq<Folder>)
  {
    forall i, j :: 0 <= i < j < |s| ==> s[i].id != s[j].id
  }

  /** `a` is `b` with some entries left out, the rest in their original order. */
  ghost predicate IsSubsequence<T>(a: seq<T>, b: seq<T>)
    decreases |b|
  {
    if a == [] then true
    else if b == [] then false
    else if a[0] == b[0] then IsSubsequence(a[1..], b[1..])
    else IsSubsequence(a, b[1..])
  }
}
