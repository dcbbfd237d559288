/** The record constructors and the text helper of lib/utils.ts. The fresh id
    (`nanoid()`) and the current time (`new Date().toISOString()`) are
    parameters. */
module Utils {
  import opened Records

  /** `createEmptyNote(folderId)`: a fresh, dirty, untitled and empty note.
      The clock is read twice, once for each timestamp, so the two readings
      are separate parameters and need not agree. */
  function CreateEmptyNote(id: string, createdAt: string, updatedAt: string, folderId: Option<string>): (n: Note)
    ensures n.id == id && n.title == "Untitled Note" && n.content == ""
    ensures n.createdAt == createdAt && n.updatedAt == updatedAt
    ensures n.folderId == folderId && !n.synced
  {
    Note(id, "Untitled Note", "", createdAt, updatedAt, folderId, false)
  }

  /** `createFolder(name)`: the name is stored exactly as given; it is neither
      trimmed nor checked for blankness here. */
  function CreateFolder(id: string, name: string, now: string): (f: Folder)
    ensures f.id == id && f.name == name && f.createdAt == now && !f.synced
  {
    Folder(id, name, now, false)
  }

  /** JavaScript's `s.slice(0, end)` for an integer `end`: a negative end
      counts back from the end of the string, and the end is clamped to
      `0 .. |s|`. */
  function SliceTo(s: string, end: int): (r: string)
    ensures |r| == if end < 0 then (if |s| + end < 0 then 0 else |s| + end)
                   else (if end < |s| then end else |s|)
    ensures r == s[..|r|]
  {
    var e := if end < 0 then (if |s| + end < 0 then 0 else |s| + end)
             else (if end < |s| then end else |s|);
    s[..e]
  }

  /** `truncateText(text, maxLength)`. */
  function TruncateText(text: string, maxLength: int): (r: string)
    ensures |text| <= maxLength ==> r == text
    ensures 0 <= maxLength < |text| ==>
      r == text[..maxLength] + "..." && |r| == maxLength + 3 && r[..maxLength] == text[..maxLength]
    // a negative limit counts back from the end of the text, down to nothing
    ensures maxLength < 0 ==>
      r == text[..if |text| + maxLength < 0 then 0 else |text| + maxLength] + "..."
  {
    if |text| <= maxLength then text else SliceTo(text, maxLength) + "..."
  }

  /** For a non-negative limit, truncating twice is truncating once: a
      truncated text is longer than the limit, and cutting it again keeps the
      same prefix. */
  lemma TruncateIdempotent(text: string, maxLength: int)
    requires maxLength >= 0
    ensures TruncateText(TruncateText(text, maxLength), maxLength) == TruncateText(text, maxLength)
  {
    var once := TruncateText(text, maxLength);
    if |text| > maxLength {
      assert once[..maxLength] == text[..maxLength];
    }
  }

  /** For a negative limit the JavaScript slice cuts from the end, so the
      result grows each time: `truncateText` is not idempotent there. */
  lemma TruncateNegativeLimitGrows()
    ensures TruncateText("abcde", -1) == "abcd..."
    ensures TruncateText(TruncateText("abcde", -1), -1) == "abcd....."
  {
    assert "abcde"[..4] == "abcd";
    assert "abcd..."[..6] == "abcd..";
  }
}
