# Switch Recent: the most-recently-used file list

A Dafny model of the recent-files list of the Switch Recent editor extension
(`Scripts/main.js`). The extension keeps `mostRecentFiles`, a list of absolute
file paths with the most recent first. The list has no duplicates and holds at
most `MAX_RECENT_FILES` (100) entries. Touching a path (`updateMostRecentlyUsed`)
moves it to the front or adds it there. When the list grows past capacity, the
oldest entry falls off the end. `activate` seeds the list from the open editors;
`deactivate` empties it. The `switch-recent.select` command first drops closed
files from the list. It then offers the remaining files, except the active one,
in a palette. The file the user picks is touched and opened.

Files:

- `sequences.dfy` (module `Sequences`): `indexOf`, filtering a value out,
  deduplication as a JavaScript `Set` does it (`Distinct`), and `InOrderOf`,
  which says that one list follows another's order of first occurrence.
- `mru.dfy` (module `Mru`): the list as a value. On a duplicate-free list,
  `Touch` is one `updateMostRecentlyUsed` call and `TouchAll` is a run of them. The lemmas
  state what these calls promise.
- `open_editors.dfy` (module `OpenEditors`): `getOpenFilePaths`.
- `switch_recent.dfy` (module `SwitchRecent`): the class `Extension`, whose field
  `mostRecentFiles` is the module-level variable. Its methods are the entry
  points that change the list. Each method is proved to leave the list equal to
  a function of the old list. The reconcile and exclude filters of the select
  command are also in this file.

Host inputs are parameters. `editorPaths` holds the document path of each open
editor, in editor order. `activePath` is the active editor's path.
`relativize` stands for `relativizePath`. `choice` is the palette's answer.
JavaScript's falsy path values (`undefined`, `null`, `""`) all appear as the
empty string. The source treats them the same way in `!path`,
`filter(Boolean)` and `if (document.path)`. The list never holds `""`, so
excluding `""` as the active path excludes nothing, just as comparing with
`undefined` does.

## Model

| member | source | states |
|---|---|---|
| `Sequences.IndexOf` | Scripts/main.js:7 | -1 exactly when the path is absent; otherwise the position of its first occurrence |
| `Sequences.Without` | Scripts/main.js:45 | the result keeps exactly the entries that differ from the removed value, and is no longer than the input |
| `Sequences.WithoutAbsent` | Scripts/main.js:8 | when `indexOf` finds nothing, nothing is removed |
| `Sequences.WithoutAt` | Scripts/main.js:8-10 | on a duplicate-free list, `splice(existingIndex, 1)` equals filtering the path out |
| `Sequences.WithoutInOrder` | Scripts/main.js:45 | filtering a duplicate-free list keeps the survivors in their relative order |
| `Mru.Truncate` | Scripts/main.js:14-16 | cutting `length` to capacity keeps a prefix of exactly that length when the list is longer, and leaves a short list alone |
| `Mru.Touch` | Scripts/main.js:4-17 | an empty path leaves the list unchanged; otherwise the path is at index 0 and nowhere else, the length is at most 100, and every other entry was already listed |
| `Mru.TouchShape` | Scripts/main.js:7-16 | from a valid list, a touch keeps the list duplicate-free and within 100 entries, and the entries after the front keep their old relative order |
| `Mru.TouchLosesNothing` | Scripts/main.js:7-16 | below capacity, or when the path is already listed, the result is the path followed by all other old entries; the length stays the same or grows by one; no other entry is lost |
| `Mru.TouchEvictsOldest` | Scripts/main.js:12-16 | at capacity, a new path yields the path followed by the old first 99 entries: exactly the last (oldest) entry is dropped |
| `Mru.TouchIdempotent` | Scripts/main.js:4-17 | touching the same path twice in a row gives the same list as touching it once |
| `Mru.TouchAll` | Scripts/main.js:28 | touching each path in turn yields only entries that were listed or touched, and keeps a valid list duplicate-free and within 100 entries |
| `Mru.TouchAllDistinct` | Scripts/main.js:28 | touching distinct non-empty paths in turn on an empty list gives them in reverse order, cut to 100 |
| `Mru.TouchAllRecency` | Scripts/main.js:4-17 | after any sequence of touches from an empty list, the list holds exactly the 100 most recently touched distinct paths, newest first, each at its latest touch |
| `Mru.TouchAllOverflow` | Scripts/main.js:1-16 | touching more than 100 distinct paths leaves exactly 100 entries, and none of the earliest surplus paths remains |
| `Sequences.DistinctFrom` | Scripts/main.js:20 | the result holds exactly the input entries not yet seen |
| `Sequences.Distinct` | Scripts/main.js:20 | `[...new Set(s)]` holds every entry of `s` exactly once, in the order of first occurrence |
| `Sequences.DistinctFromInOrder` | Scripts/main.js:20 | the deduplicated list follows the order of first occurrence (a `Set`'s insertion order) |
| `Sequences.DistinctFromWithout` | Scripts/main.js:20-23 | dropping a value before deduplicating equals deduplicating with that value treated as seen |
| `Sequences.DistinctCons` | Scripts/main.js:20 | deduplicating a list whose head is `x` keeps `x` in front and drops every later copy of it |
| `OpenEditors.OpenFilePaths` | Scripts/main.js:19-24 | the result holds exactly the non-empty editor paths |
| `OpenEditors.OpenFilePathsInOrder` | Scripts/main.js:19-24 | the open paths have no duplicates and follow the order of first occurrence among the editors |
| `OpenEditors.OpenFilePathsUnique` | Scripts/main.js:19-24 | any list that holds exactly the non-empty editor paths, in first-occurrence order, is the result of `getOpenFilePaths` |
| `SwitchRecent.KeepOpen` | Scripts/main.js:43 | reconciliation keeps exactly the listed paths that are open, and never lengthens the list |
| `SwitchRecent.KeepOpenInOrder` | Scripts/main.js:43 | reconciliation keeps the relative order of the surviving entries |
| `SwitchRecent.RecentFiles` | Scripts/main.js:43-45 | `recentFiles` holds exactly the listed paths that are open and are not the active path |
| `SwitchRecent.RecentFilesSpec` | Scripts/main.js:43-45 | `recentFiles` holds exactly the listed, open, non-active paths; it never holds the active path; it is duplicate-free and in list order |
| `SwitchRecent.ChosenMovesToFront` | Scripts/main.js:59-63 | touching the chosen `recentFiles[index]` on the reconciled list puts it at index 0 exactly once, and keeps the list valid |
| `SwitchRecent.ActivateFromEmpty` | Scripts/main.js:27-28 | activation on an empty list yields the distinct open paths in reverse editor order, cut to 100 |
| `SwitchRecent.Extension.constructor` | Scripts/main.js:2 | the list starts empty |
| `SwitchRecent.Extension.UpdateMostRecentlyUsed` | Scripts/main.js:4-17 | the indexOf/splice/unshift/truncate steps leave the list equal to `Touch` of the old list, and keep it valid: at most 100 entries, no duplicates, no empty path |
| `SwitchRecent.Extension.Activate` | Scripts/main.js:27-28 | the list becomes the old list with every open path touched in order |
| `SwitchRecent.Extension.DocumentOpened` | Scripts/main.js:30-32 | an opened document's path is touched; a missing path changes nothing |
| `SwitchRecent.Extension.Deactivate` | Scripts/main.js:35-37 | the list becomes empty |
| `SwitchRecent.Extension.Select` | Scripts/main.js:39-57 | the list keeps only open paths, in order. When nothing besides the active path remains, the result is the "no recent files" message. Otherwise the palette offers `recentFiles` with one label per path, in the same order |
| `SwitchRecent.Extension.Choose` | Scripts/main.js:59-65 | a dismissed palette changes nothing and opens nothing; choice `i` touches `recentFiles[i]` and opens it |

## Left out

- The `nova.*` host calls are not modelled. Enumerating editors, finding the
  active editor, `relativizePath` and the palette's answer are inputs.
  `showInformativeMessage` is the `NoRecentFiles` result. `openFile` is the
  path `Choose` returns. Registering the command and the document-opened
  subscription is plumbing: only the callbacks' effects are modelled.
- The palette's placeholder text and its `ignoreTab` option are not modelled.
  They affect only the UI.
- The palette callback runs asynchronously. `Choose` takes the `recentFiles`
  captured when the palette opened, as the closure does, and acts on the list
  as it is at that later time.
- SwitchRecent.Extension.Choose: a chosen index is assumed to lie within `recentFiles`,
  because the palette only answers with one of the offered entries. The
  source's `!choice` tests the label text. A palette answer whose label is
  the empty string would also do nothing, and the model does not capture that
  case.
- Pinned files, the unpin command and the filename disambiguation of labels do
  not appear in `Scripts/main.js`, so they are not modelled.
- Every class method except `Deactivate` requires `Valid()`, the object
  invariant: at most 100 entries, no duplicates, no empty path. The
  constructor establishes it and every method ensures it. The source holds no
  state that breaks it. `Touch` agrees with `updateMostRecentlyUsed` only on
  duplicate-free lists, which is all that `Valid()` allows.
