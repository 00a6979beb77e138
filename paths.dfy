/**
 * Path joining and the small path predicates of FS (logic/FileSystem.cpp).
 *
 * Qt's canonicalisation (QDir::cleanPath) is not part of this model: every
 * operation that canonicalises takes it as a parameter `clean`, about which
 * nothing is assumed unless a lemma says so.
 */
module Paths {

  /** QDir::separator() on the Linux build this model follows. */
  const Separator: char := '/'

  /** The canonicalisation routine of the host toolkit. */
  type Cleaner = string -> string

  /** PathCombine(path1, path2): an empty operand yields the other one untouched. */
  function PathCombine(clean: Cleaner, path1: string, path2: string): (r: string)
    ensures path1 == [] ==> r == path2
    ensures path2 == [] ==> r == path1
    ensures path1 != [] && path2 != [] ==> r == clean(path1 + [Separator] + path2)
  {
    if |path1| == 0 then path2
    else if |path2| == 0 then path1
    else clean(path1 + [Separator] + path2)
  }

  /** The three-argument form nests to the left. */
  function PathCombine3(clean: Cleaner, path1: string, path2: string, path3: string): (r: string)
    ensures path1 == [] ==> r == PathCombine(clean, path2, path3)
    ensures path2 == [] ==> r == PathCombine(clean, path1, path3)
    ensures path3 == [] ==> r == PathCombine(clean, path1, path2)
  {
    PathCombine(clean, PathCombine(clean, path1, path2), path3)
  }

  /** cleanPath never turns a non-empty path into the empty string (it yields "." at least). */
  ghost predicate KeepsNonEmpty(clean: Cleaner)
  {
    forall p: string :: p != [] ==> clean(p) != []
  }

  /** With such a canonicaliser, a combined path is empty exactly when every operand is. */
  lemma PathCombineEmptyIff(clean: Cleaner, path1: string, path2: string, path3: string)
    requires KeepsNonEmpty(clean)
    ensures PathCombine(clean, path1, path2) == [] <==> path1 == [] && path2 == []
    ensures PathCombine3(clean, path1, path2, path3) == [] <==> path1 == [] && path2 == [] && path3 == []
  {
  }

  /**
   * The host services ResolveExecutable consults: the executable search-path
   * lookup, the "exists and is executable" test and the absolute form of a path.
   */
  datatype ExecutableHost = ExecutableHost(
    findExecutable: string -> string,
    isExecutableFile: string -> bool,
    absoluteFilePath: string -> string)

  /** The candidate ResolveExecutable checks: a bare name goes through the search path. */
  function ExecutableCandidate(path: string, host: ExecutableHost): string
  {
    if '/' !in path then host.findExecutable(path) else path
  }

  /** ResolveExecutable: the empty string for an empty name or a candidate that is not executable. */
  function ResolveExecutable(path: string, host: ExecutableHost): (r: string)
    ensures path == [] ==> r == []
    ensures r != [] ==>
              && path != []
              && host.isExecutableFile(ExecutableCandidate(path, host))
              && r == host.absoluteFilePath(ExecutableCandidate(path, host))
    ensures path != [] && host.isExecutableFile(ExecutableCandidate(path, host)) ==>
              r == host.absoluteFilePath(ExecutableCandidate(path, host))
  {
    if |path| == 0 then []
    else
      var candidate := ExecutableCandidate(path, host);
      if !host.isExecutableFile(candidate) then []
      else host.absoluteFilePath(candidate)
  }

  /** A path that names a location (it has a '/') is never looked up on the search path. */
  lemma ResolveExecutableSkipsSearchForPaths(path: string, host1: ExecutableHost, host2: ExecutableHost)
    requires '/' in path
    requires host1.isExecutableFile == host2.isExecutableFile
    requires host1.absoluteFilePath == host2.absoluteFilePath
    ensures ResolveExecutable(path, host1) == ResolveExecutable(path, host2)
  {
  }

  /** checkProblemticPathJava, given the folder's absolute path: true exactly when it holds a '!'. */
  function CheckProblematicPathJava(absolutePath: string): (r: bool)
    ensures r <==> exists i :: 0 <= i < |absolutePath| && absolutePath[i] == '!'
  {
    '!' in absolutePath
  }
}
