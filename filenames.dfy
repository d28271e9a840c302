/** The part of System.IO.Path.GetFileName that IsValidUrl relies on. */
module FileNames {

  /** Directory separators: DirectorySeparatorChar and AltDirectorySeparatorChar on Windows
      (on Unix only '/' is one). */
  const Separators: set<char> := {'/', '\\'}

  /** The characters of `path` after its last directory separator; the whole path when it
      holds no separator, and the empty string when it ends with one. */
  function GetFileName(path: string): (name: string)
    ensures |name| <= |path| && name == path[|path| - |name|..]
    ensures forall i :: 0 <= i < |name| ==> name[i] !in Separators
    ensures |name| < |path| ==> path[|path| - |name| - 1] in Separators
  {
    if |path| == 0 then
      path
    else if path[|path| - 1] in Separators then
      ""
    else
      var name := GetFileName(path[..|path| - 1]) + [path[|path| - 1]];
      assert name[..|name| - 1] == GetFileName(path[..|path| - 1]);
      name
  }

  /** GetFileName leaves a path alone exactly when the path holds no separator. */
  lemma GetFileNameFixed(path: string)
    ensures GetFileName(path) == path <==> forall i :: 0 <= i < |path| ==> path[i] !in Separators
  {
  }
}
