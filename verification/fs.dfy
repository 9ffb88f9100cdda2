/** AppRootPath of util/fs.go: the working directory cut after the first path
    component named like the application folder. The working directory is a
    parameter here. */
module Fs {
  import Strs

  /** slices.Index: the first position holding `x`, or -1 when there is none. */
  function Index(xs: seq<string>, x: string): (i: int)
    ensures -1 <= i < |xs|
    ensures i == -1 <==> x !in xs
    ensures i >= 0 ==> xs[i] == x && forall j :: 0 <= j < i ==> xs[j] != x
  {
    if xs == [] then -1
    else if xs[0] == x then 0
    else
      var k := Index(xs[1..], x);
      if k == -1 then -1 else k + 1
  }

  /** AppRootPath: the "/"-components of `wd` up to and including the first one equal
      to `folderName`, joined again with "/"; "" when there is no such component. */
  function AppRootPath(folderName: string, wd: string): (r: string)
    ensures folderName !in Strs.Split(wd, '/') ==> r == ""
  {
    var directories := Strs.Split(wd, '/');
    var rootIdx := Index(directories, folderName);
    Strs.Join(directories[..rootIdx + 1], "/")
  }

  /** The root path is always a prefix of the working directory. */
  lemma AppRootPathIsPrefix(folderName: string, wd: string)
    ensures AppRootPath(folderName, wd) <= wd
  {
    var directories := Strs.Split(wd, '/');
    var k := Index(directories, folderName) + 1;
    assert AppRootPath(folderName, wd) == Strs.Join(directories[..k], "/");
    Strs.JoinPrefix(directories, k, "/");
    Strs.JoinSplit(wd, '/');
    assert Strs.Join(directories, "/") == wd;
  }

  /** When the folder is a component, the root path's own components are the
      working directory's components up to the FIRST occurrence of the folder: it
      ends with the folder and no earlier component is the folder. */
  lemma AppRootPathFirstOccurrence(folderName: string, wd: string)
    requires folderName in Strs.Split(wd, '/')
    ensures var parts := Strs.Split(AppRootPath(folderName, wd), '/');
      && parts <= Strs.Split(wd, '/')
      && parts[|parts| - 1] == folderName
      && forall j :: 0 <= j < |parts| - 1 ==> parts[j] != folderName
  {
    var directories := Strs.Split(wd, '/');
    var k := Index(directories, folderName) + 1;
    RootComponents(directories[..k], folderName, wd);
  }

  /** Re-splitting the root path gives back the kept components. */
  lemma RootComponents(kept: seq<string>, folderName: string, wd: string)
    requires kept == Strs.Split(wd, '/')[..Index(Strs.Split(wd, '/'), folderName) + 1]
    requires kept != []
    ensures Strs.Split(AppRootPath(folderName, wd), '/') == kept
  {
    KeptAvoids(kept, wd, Index(Strs.Split(wd, '/'), folderName) + 1);
    Strs.SplitJoin(kept, '/');
  }

  /** The kept components hold no "/". */
  lemma KeptAvoids(kept: seq<string>, wd: string, k: nat)
    requires k <= |Strs.Split(wd, '/')| && kept == Strs.Split(wd, '/')[..k]
    ensures forall i :: 0 <= i < |kept| ==> '/' !in kept[i]
  {
    Strs.SplitAvoids(wd, '/');
    assert forall i :: 0 <= i < |kept| ==> kept[i] == Strs.Split(wd, '/')[i];
  }
}
