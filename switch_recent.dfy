/** The extension's state and entry points: the module-level `mostRecentFiles` list,
    `updateMostRecentlyUsed`, `activate`, the document-opened callback, `deactivate`
    and the `switch-recent.select` command with its palette callback. Host calls are
    inputs: the editors' document paths, the active editor's path, the
    `relativizePath` conversion and the palette's choice. */
module SwitchRecent {
  import opened Sequences
  import opened Mru
  import opened OpenEditors

  /** `mostRecentFiles.filter(path => openPaths.includes(path))`. */
  function KeepOpen(s: seq<string>, openPaths: seq<string>): (r: seq<string>)
    ensures forall x :: x in r ==> x in s && x in openPaths
    ensures forall x :: x in s && x in openPaths ==> x in r
    ensures |r| <= |s|
  {
    if s == [] then []
    else if s[0] in openPaths then [s[0]] + KeepOpen(s[1..], openPaths)
    else KeepOpen(s[1..], openPaths)
  }

  /** Reconciling keeps the surviving entries in their old relative order. */
  lemma {:induction false} KeepOpenInOrder(s: seq<string>, openPaths: seq<string>)
    requires NoDup(s)
    ensures InOrderOf(KeepOpen(s, openPaths), s)
  {
    if s != [] {
      var t := s[1..];
      NoDupTail(s);
      KeepOpenInOrder(t, openPaths);
      InOrderCons(s, KeepOpen(t, openPaths));
    }
  }

  /** `recentFiles` of the select command: the reconciled list without the active path
      (`activePath` is "" when no editor is active, which excludes nothing that the
      list can hold). */
  function RecentFiles(mostRecentFiles: seq<string>, openPaths: seq<string>, activePath: string): (r: seq<string>)
    ensures forall x :: x in r ==> x in mostRecentFiles && x in openPaths && x != activePath
    ensures forall x :: x in mostRecentFiles && x in openPaths && x != activePath ==> x in r
    ensures |r| <= |mostRecentFiles|
  {
    Without(KeepOpen(mostRecentFiles, openPaths), activePath)
  }

  /** The offered paths are exactly the listed, open paths other than the active one,
      without duplicates and in most-recent-first order. */
  lemma RecentFilesSpec(mostRecentFiles: seq<string>, openPaths: seq<string>, activePath: string)
    requires NoDup(mostRecentFiles)
    ensures forall x :: x in RecentFiles(mostRecentFiles, openPaths, activePath) <==>
      x in mostRecentFiles && x in openPaths && x != activePath
    ensures activePath !in RecentFiles(mostRecentFiles, openPaths, activePath)
    ensures NoDup(RecentFiles(mostRecentFiles, openPaths, activePath))
    ensures InOrderOf(RecentFiles(mostRecentFiles, openPaths, activePath), mostRecentFiles)
  {
    var kept := KeepOpen(mostRecentFiles, openPaths);
    KeepOpenInOrder(mostRecentFiles, openPaths);
    InOrderNoDup(kept, mostRecentFiles);
    WithoutInOrder(kept, activePath);
    InOrderTrans(Without(kept, activePath), kept, mostRecentFiles);
    InOrderNoDup(Without(kept, activePath), mostRecentFiles);
  }

  /** Choosing the `i`th offered path after reconciliation puts it at the front of the
      list, once, and keeps the list duplicate-free and within capacity. */
  lemma ChosenMovesToFront(mostRecentFiles: seq<string>, openPaths: seq<string>, activePath: string, i: nat)
    requires NoDup(mostRecentFiles) && |mostRecentFiles| <= MAX_RECENT_FILES && "" !in mostRecentFiles
    requires i < |RecentFiles(mostRecentFiles, openPaths, activePath)|
    ensures var chosen := RecentFiles(mostRecentFiles, openPaths, activePath)[i];
      var after := Touch(KeepOpen(mostRecentFiles, openPaths), chosen);
      after[0] == chosen && chosen !in after[1..] && NoDup(after) && |after| <= MAX_RECENT_FILES
  {
    var kept := KeepOpen(mostRecentFiles, openPaths);
    var chosen := RecentFiles(mostRecentFiles, openPaths, activePath)[i];
    assert chosen in mostRecentFiles;
    KeepOpenInOrder(mostRecentFiles, openPaths);
    InOrderNoDup(kept, mostRecentFiles);
    TouchShape(kept, chosen);
  }

  /** Activating on an empty list leaves the distinct open paths newest first: the
      last-opened editor's path in front, at most `MAX_RECENT_FILES` of them. */
  lemma ActivateFromEmpty(editorPaths: seq<string>)
    ensures TouchAll([], OpenFilePaths(editorPaths)) == Truncate(Reverse(OpenFilePaths(editorPaths)), MAX_RECENT_FILES)
  {
    OpenFilePathsInOrder(editorPaths);
    TouchAllDistinct(OpenFilePaths(editorPaths));
  }

  /** What the select command shows: a message when nothing is left to offer, else a
      palette with one label per offered path, in the same order. */
  datatype Palette =
    | NoRecentFiles
    | Choices(paths: seq<string>, labels: seq<string>)

  /** The extension, holding the most-recently-used list. */
  class Extension {
    /** `mostRecentFiles`, most recent first. */
    var mostRecentFiles: seq<string>

    /** What every operation keeps: within capacity, no duplicates, no falsy path. */
    ghost predicate Valid()
      reads this
    {
      |mostRecentFiles| <= MAX_RECENT_FILES && NoDup(mostRecentFiles) && "" !in mostRecentFiles
    }

    /** Loading the script: `let mostRecentFiles = []`. */
    constructor ()
      ensures Valid() && mostRecentFiles == []
    {
      mostRecentFiles := [];
    }

    /** `updateMostRecentlyUsed(path)`: find, splice out, unshift, cut to capacity. */
    method UpdateMostRecentlyUsed(path: string)
      requires Valid()
      modifies this
      ensures Valid()
      ensures mostRecentFiles == Touch(old(mostRecentFiles), path)
    {
      if path == "" {
        return;
      }
      var existingIndex := IndexOf(mostRecentFiles, path);
      if existingIndex != -1 {
        WithoutAt(mostRecentFiles, existingIndex);
        mostRecentFiles := mostRecentFiles[..existingIndex] + mostRecentFiles[existingIndex + 1..];
      } else {
        WithoutAbsent(mostRecentFiles, path);
      }
      mostRecentFiles := [path] + mostRecentFiles;
      if |mostRecentFiles| > MAX_RECENT_FILES {
        mostRecentFiles := mostRecentFiles[..MAX_RECENT_FILES];
      }
      TouchShape(old(mostRecentFiles), path);
    }

    /** `activate`: touch every open path in editor order. */
    method Activate(editorPaths: seq<string>)
      requires Valid()
      modifies this
      ensures Valid()
      ensures mostRecentFiles == TouchAll(old(mostRecentFiles), OpenFilePaths(editorPaths))
    {
      var openPaths := OpenFilePaths(editorPaths);
      for i := 0 to |openPaths|
        invariant Valid()
        invariant mostRecentFiles == TouchAll(old(mostRecentFiles), openPaths[..i])
      {
        assert openPaths[..i + 1][..i] == openPaths[..i];
        UpdateMostRecentlyUsed(openPaths[i]);
      }
      assert openPaths[..|openPaths|] == openPaths;
    }

    /** The `onDidOpenTextDocument` callback that `activate` registers. */
    method DocumentOpened(path: string)
      requires Valid()
      modifies this
      ensures Valid()
      ensures mostRecentFiles == Touch(old(mostRecentFiles), path)
    {
      if path != "" {
        UpdateMostRecentlyUsed(path);
      }
    }

    /** `deactivate`: forget the list. */
    method Deactivate()
      modifies this
      ensures Valid() && mostRecentFiles == []
    {
      mostRecentFiles := [];
    }

    /** `switch-recent.select` up to showing the palette: drop closed files from the
        list, then offer the rest but the active file, labelled by `relativize`. */
    method Select(editorPaths: seq<string>, activePath: string, relativize: string -> string)
      returns (palette: Palette)
      requires Valid()
      modifies this
      ensures Valid()
      ensures mostRecentFiles == KeepOpen(old(mostRecentFiles), OpenFilePaths(editorPaths))
      ensures forall x :: x in mostRecentFiles ==> x in editorPaths
      ensures palette.NoRecentFiles? <==> RecentFiles(old(mostRecentFiles), OpenFilePaths(editorPaths), activePath) == []
      ensures palette.Choices? ==>
        && palette.paths == RecentFiles(old(mostRecentFiles), OpenFilePaths(editorPaths), activePath)
        && |palette.labels| == |palette.paths|
        && forall i :: 0 <= i < |palette.paths| ==> palette.labels[i] == relativize(palette.paths[i])
    {
      var openPaths := OpenFilePaths(editorPaths);
      KeepOpenInOrder(mostRecentFiles, openPaths);
      InOrderNoDup(KeepOpen(mostRecentFiles, openPaths), mostRecentFiles);
      mostRecentFiles := KeepOpen(mostRecentFiles, openPaths);
      var recentFiles := Without(mostRecentFiles, activePath);
      if |recentFiles| == 0 {
        return NoRecentFiles;
      }
      var displayPaths := seq(|recentFiles|, i requires 0 <= i < |recentFiles| => relativize(recentFiles[i]));
      palette := Choices(recentFiles, displayPaths);
    }

    /** The palette callback: on a choice, touch the chosen path of the `recentFiles`
        captured when the palette opened, and return it as the file to open. */
    method Choose(recentFiles: seq<string>, choice: Option<nat>) returns (toOpen: Option<string>)
      requires Valid()
      requires choice.Some? ==> choice.value < |recentFiles|
      modifies this
      ensures Valid()
      ensures choice.None? ==> toOpen.None? && mostRecentFiles == old(mostRecentFiles)
      ensures choice.Some? ==>
        && toOpen == Some(recentFiles[choice.value])
        && mostRecentFiles == Touch(old(mostRecentFiles), recentFiles[choice.value])
    {
      if choice.None? {
        return None;
      }
      var selectedPath := recentFiles[choice.value];
      UpdateMostRecentlyUsed(selectedPath);
      toOpen := Some(selectedPath);
    }
  }
}
