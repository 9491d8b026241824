/** The output-path rule both `GenerateFile` functions apply: a path that already ends with the
    format's extension is used as it is, any other gets the extension appended. */
module Paths {
  /** `path.ends_with(ext)`. */
  predicate EndsWith(path: string, ext: string): (b: bool)
    ensures b ==> |ext| <= |path| && path == path[..|path| - |ext|] + ext
    ensures forall stem :: path == stem + ext ==> b
  {
    |ext| <= |path| && path[|path| - |ext|..] == ext
  }

  /** The file name `GenerateFile` opens. It always ends with the extension, starts with the
      given path, and differs from it only when the extension was missing. */
  function WithExtension(path: string, ext: string): (r: string)
    ensures EndsWith(r, ext)
    ensures |path| <= |r| && r[..|path|] == path
    ensures r == path <==> EndsWith(path, ext)
    ensures !EndsWith(path, ext) ==> r[|path|..] == ext
  {
    if EndsWith(path, ext) then path
    else
      assert (path + ext)[|path + ext| - |ext|..] == ext;
      assert (path + ext)[..|path|] == path;
      path + ext
  }

  /** Applying the rule twice gives the same name as applying it once. */
  lemma WithExtensionIdempotent(path: string, ext: string)
    ensures WithExtension(WithExtension(path, ext), ext) == WithExtension(path, ext)
  {
  }
}
