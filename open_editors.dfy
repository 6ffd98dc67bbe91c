/** `getOpenFilePaths`: the paths of the open editors, falsy ones dropped, duplicates
    removed as a JavaScript `Set` removes them (first occurrence wins, insertion order
    kept). A missing document or path is the empty string here. */
module OpenEditors {
  import opened Sequences

  /** `getOpenFilePaths()`, given the document path of each open editor in order. */
  function OpenFilePaths(editorPaths: seq<string>): (r: seq<string>)
    ensures forall x :: x in r ==> x in editorPaths && x != ""
    ensures forall x :: x in editorPaths && x != "" ==> x in r
  {
    Distinct(Without(editorPaths, ""))
  }

  /** No other list has these properties: the open paths are determined by holding
      exactly the non-empty editor paths in the order of their first occurrence. */
  lemma OpenFilePathsUnique(editorPaths: seq<string>, r: seq<string>)
    requires InOrderOf(r, editorPaths)
    requires forall x :: x in r <==> x in editorPaths && x != ""
    ensures r == OpenFilePaths(editorPaths)
  {
    OpenFilePathsInOrder(editorPaths);
    InOrderUnique(r, OpenFilePaths(editorPaths), editorPaths);
  }

  /** The open paths are duplicate-free and in the order in which each path first
      appears among the editors. */
  lemma OpenFilePathsInOrder(editorPaths: seq<string>)
    ensures NoDup(OpenFilePaths(editorPaths))
    ensures InOrderOf(OpenFilePaths(editorPaths), editorPaths)
  {
    DistinctFromWithout(editorPaths, "", {});
    assert {} + {""} == {""};
    DistinctFromInOrder(editorPaths, {""});
    InOrderNoDup(OpenFilePaths(editorPaths), editorPaths);
  }
}
