# FS file-system utilities — a Dafny model

This project models the logic layer of `FS` (logic/FileSystem.cpp): the
utility namespace the launcher uses for file names, paths, and
directory trees. Everything that calls Qt or the operating system becomes a
parameter: QDir::cleanPath, the existence test, mkpath, link, copy,
remove and rmdir. The logic around those calls is modelled as the source
writes it:

- `FileNames`: `RemoveInvalidFilenameChars` is a method that overwrites the
  bad characters `" \ / ? < > : * | !` index by index. `DirNameFromString`
  is a method with the source's probe loop (base, base1, …, base9000) and a
  counter of the existence checks it makes. Each method is proved equal to a
  reference function (`Sanitized`, `DirName`), and the lemmas are about
  those functions. `QString::number` is the decimal `NatToString`, with its
  parse-back round trip.
- `Paths`: `PathCombine` in its two- and three-argument forms, the guard and
  lookup of `ResolveExecutable` (the search path, the "exists and is
  executable" test and `absoluteFilePath` are host parameters), and
  `checkProblemticPathJava`.
- `Tree`: the file system as a value. An `Entry` is a `File`, a `Dir`
  mapping names to entries, a `Symlink` (its absolute target, plus what the
  target is), or `Other` (anything QFileInfo calls neither a file nor a
  directory). A dangling link is a `Symlink` whose resolution is `Other`. A `Host` answers whether each
  operation succeeded.
- `Copy`: `copyPath`. `DirectoryCopy`/`EntryCopy` are the specification
  functions, and `CopyDirectory`/`CopyEntry` are the methods with the
  source's entries loop and `OK &=` accumulator. The ANDed answer is a
  quantifier over all entries. Each entry's result depends only on that
  entry, so one failure never stops the walk.
- `Delete`: `deletePath` (the non-Windows branch), in the same two forms.
  `QDir::rmdir` succeeds only when the host agrees and the directory is
  empty. This is rmdir(2)'s ENOTEMPTY; rmdir(2) also refuses a symbolic
  link (ENOTDIR).
- `Shortcut`: the text of the `.desktop` file written by the Linux branch of
  `createShortCut`, its path, and a round trip: the text splits back into
  exactly its six lines.

The separator is `/`, because this is the Linux build.

Three behaviours of the code a reader might not expect:
- `DirNameFromString` makes up to 9001 existence checks, not 9000: one for
  `base` and one each for `base1` … `base9000`.
- `deletePath` on a path that names a regular file returns true and removes
  nothing, because `QDir::exists` is false for a file.
- `createShortCut` returns true on Linux even if the file could not be opened.

## Model

| member | source | states |
|---|---|---|
| `Paths.PathCombine` | logic/FileSystem.cpp:185-192 | an empty first operand yields the second unchanged; an empty second yields the first; otherwise the canonicalised `path1/path2` |
| `Paths.PathCombine3` | logic/FileSystem.cpp:194-197 | the left-nested form: any empty operand drops out and the other two are combined |
| `Paths.PathCombineEmptyIff` | logic/FileSystem.cpp:185-197 | if canonicalisation keeps non-empty paths non-empty, a combined path is empty exactly when all its operands are, for both forms |
| `Paths.ExecutableCandidate` | logic/FileSystem.cpp:210-213 | a name without '/' is replaced by the search-path lookup's answer; a name with '/' is kept |
| `Paths.ResolveExecutable` | logic/FileSystem.cpp:204-220 | an empty name gives ""; a non-empty name whose candidate exists and is executable gives that candidate's absolute path, and a non-empty answer arises only that way |
| `Paths.ResolveExecutableSkipsSearchForPaths` | logic/FileSystem.cpp:210-213 | a name that contains '/' is never looked up on the executable search path |
| `Paths.CheckProblematicPathJava` | logic/FileSystem.cpp:300-306 | true exactly when the absolute path has a '!' at some index |
| `FileNames.Sanitized` | logic/FileSystem.cpp:248-258 | the sanitised string has the input's length |
| `FileNames.SanitizedAt` | logic/FileSystem.cpp:250-256 | each position becomes the replacement if its character is in the bad set, and is unchanged otherwise |
| `FileNames.RemoveInvalidFilenameChars` | logic/FileSystem.cpp:246-258 | the loop keeps the length, puts the replacement exactly where a bad character stood, leaves every other index alone, and equals `Sanitized` |
| `FileNames.SanitizedIsClean` | logic/FileSystem.cpp:246-258 | with a replacement outside the bad set, no bad character is left |
| `FileNames.SanitizedIdempotent` | logic/FileSystem.cpp:248-258 | sanitising twice with an allowed replacement equals sanitising once |
| `FileNames.NatToString` | logic/FileSystem.cpp:273 | QString::number gives at least one character, all of them decimal digits |
| `FileNames.NatToStringRoundTrip` | logic/FileSystem.cpp:273 | reading the digits back gives the number |
| `FileNames.CandidatesDistinct` | logic/FileSystem.cpp:265-274 | different counter values give different names, so no name is probed twice |
| `FileNames.Candidate` | logic/FileSystem.cpp:267-274 | counter value 0 names the base itself, any other value the base followed by the decimal counter |
| `FileNames.FirstFree` | logic/FileSystem.cpp:265-280 | bounded search: the first counter value up to 9000 whose candidate does not exist, with every earlier candidate existing; none when all exist |
| `FileNames.DirName` | logic/FileSystem.cpp:263-281 | the base is the input sanitised with '-'; the answer is the first free candidate, or "" when the search finds none |
| `FileNames.DirNameFromString` | logic/FileSystem.cpp:260-282 | the probe loop returns `DirName` after at most 9001 existence checks; a non-empty answer is the candidate of the last check |
| `FileNames.DirNameIsFirstFree` | logic/FileSystem.cpp:265-281 | if candidate k is free and all before it are taken, the answer is candidate k, and its path under inDir does not exist |
| `FileNames.DirNameGivesUp` | logic/FileSystem.cpp:276-278 | when `base` … `base9000` all exist, the answer is "" |
| `FileNames.DirNameIsFreeCandidate` | logic/FileSystem.cpp:265-281 | a non-empty answer is one of `base`, `base1` … `base9000` and does not exist under inDir |
| `FileNames.DirNameIsClean` | logic/FileSystem.cpp:263-273 | the answer contains no bad file-name character |
| `Tree.ChildPath` | logic/FileSystem.cpp:97-98 | the path of an entry inside a directory: the directory, the separator, and the entry's name |
| `Tree.Followed` | logic/FileSystem.cpp:87-111 | where a chain of links ends, as QDir::exists and QFileInfo::isDir and isFile look through links; the result is never a link |
| `Copy.EntryCopy` | logic/FileSystem.cpp:100-120 | one entry: a link is re-created when not following and looked through otherwise; a directory is copied recursively; a file is copied; anything else gives false and creates nothing |
| `Copy.EntriesCopy` | logic/FileSystem.cpp:92-122 | the answer is the AND over every entry, and every entry whose own copy created something is present, whatever its siblings did |
| `Copy.DirectoryCopy` | logic/FileSystem.cpp:89-122 | a failing mkpath of the destination gives false with nothing created; otherwise the entries' walk |
| `Copy.PathCopy` | logic/FileSystem.cpp:79-90 | false with nothing created when the source is missing, is not a directory, or the destination cannot be created |
| `Copy.CopyPath` | logic/FileSystem.cpp:79-123 | the method equals `PathCopy` |
| `Copy.CopyDirectory` | logic/FileSystem.cpp:92-122 | the entries loop, with the AND accumulator, visits every entry and equals `DirectoryCopy` |
| `Copy.CopyEntry` | logic/FileSystem.cpp:100-120 | one loop iteration: re-link when not following, recurse into a directory, copy a file, fail otherwise; equals `EntryCopy` |
| `Copy.EntryCopyOkIffComplete` | logic/FileSystem.cpp:100-120 | one entry's answer is true exactly when its full image was created (a link when not following, the target when following) |
| `Copy.DirectoryCopyOkIffComplete` | logic/FileSystem.cpp:86-122 | the answer is true exactly when the whole image of the source tree arrived at the destination |
| `Copy.EntryCopySucceeds` | logic/FileSystem.cpp:100-120 | if every host operation succeeds and no unknown entry is reachable, the entry copies |
| `Copy.DirectoryCopySucceeds` | logic/FileSystem.cpp:92-122 | if every host operation succeeds and no unknown entry is reachable, the answer is true |
| `Copy.ReproducesTree` | logic/FileSystem.cpp:79-123 | with every operation succeeding and links not followed, a tree with no unknown entry is reproduced: the same names, the same byte contents, and links re-created with the same absolute target |
| `Copy.EntryCopyFailsOnOther` | logic/FileSystem.cpp:100-120 | an unknown entry kind anywhere in an entry's image forces its copy to answer false |
| `Copy.DirectoryCopyFailsOnOther` | logic/FileSystem.cpp:92-122 | an unknown entry kind at any depth of the image forces copyPath's answer false |
| `Copy.EntryCopyWithinImage` | logic/FileSystem.cpp:100-120 | what one entry's copy creates is part of its image |
| `Copy.DirectoryCopyWithinImage` | logic/FileSystem.cpp:92-122 | a copy creates nothing that is not in the image of the source |
| `Copy.FollowingCopiesNoLinks` | logic/FileSystem.cpp:101-115 | with follow_symlinks, the destination holds no symbolic link |
| `Delete.EntryDeletion` | logic/FileSystem.cpp:160-178 | one entry: a link or a file is removed (and stays if removal fails); a directory is deleted recursively; anything else gives false and stays |
| `Delete.EntriesDeletion` | logic/FileSystem.cpp:141-179 | the answer is the AND over every entry, and what is left of each entry is kept, whatever its siblings did |
| `Delete.DirectoryDeletion` | logic/FileSystem.cpp:137-181 | the entries' walk, then the directory's own rmdir, which succeeds only on an emptied directory; the answer ANDs both |
| `Delete.PathDeletion` | logic/FileSystem.cpp:128-136 | a missing path gives true with nothing removed; a path that is not a directory gives true and is left alone; a link to a directory cannot itself be removed by rmdir |
| `Delete.DeletePath` | logic/FileSystem.cpp:128-182 | the method equals `PathDeletion` |
| `Delete.DeleteDirectory` | logic/FileSystem.cpp:137-181 | the walk followed by the root's rmdir equals `DirectoryDeletion` |
| `Delete.DeleteEntries` | logic/FileSystem.cpp:141-179 | the entries loop: links and files removed, directories recursed into, unknown kinds forcing false; equals `EntriesDeletion` |
| `Delete.EntryDeletionOkIffGone` | logic/FileSystem.cpp:160-178 | one entry's answer is true exactly when nothing of it is left |
| `Delete.DirectoryDeletionOkIffGone` | logic/FileSystem.cpp:141-181 | the answer, which ANDs in the root's removal, is true exactly when the whole tree is gone |
| `Delete.DirectoryDeletionRemovesAll` | logic/FileSystem.cpp:141-181 | if every removal succeeds and there is no unknown entry, the answer is true and the tree is gone |
| `Delete.DirectoryDeletionFailsOnOther` | logic/FileSystem.cpp:174-178 | an unknown entry kind anywhere below forces false |
| `Delete.DirectoryDeletionLeavesPart` | logic/FileSystem.cpp:141-181 | whatever is left is part of what was there; delete creates nothing |
| `Delete.DeletionIgnoresLinkTargets` | logic/FileSystem.cpp:160-164 | links are removed, not followed: what a link points to never changes the answer |
| `Shortcut.Join` | logic/FileSystem.cpp:387 | QStringList::join: the parts with the separator between neighbours |
| `Shortcut.ArgString` | logic/FileSystem.cpp:385-387 | empty for no arguments, otherwise `" '"`, the arguments joined by `"' '"`, and `"'"` |
| `Shortcut.ArgStringQuotesEach` | logic/FileSystem.cpp:385-387 | the argument string is empty for no arguments; otherwise `" '" + join(args, "' '") + "'"`, which is each argument as `'<arg>'` preceded by a space |
| `Shortcut.DesktopEntryLines` | logic/FileSystem.cpp:389-396 | the six lines in order: `[Desktop Entry]`, `Type=Application`, `TryExec=` dest, `Exec=` dest and the argument string, `Name=` name, `Icon=` icon |
| `Shortcut.Unlines` | logic/FileSystem.cpp:389-396 | the lines written one after another, each followed by a newline |
| `Shortcut.UnlinesEndsInNewline` | logic/FileSystem.cpp:396 | text made of at least one line ends in a newline |
| `Shortcut.SplitUnlines` | logic/FileSystem.cpp:389-396 | newline-terminated lines that hold no newline read back as exactly those lines |
| `Shortcut.CreateShortCut` | logic/FileSystem.cpp:375-404 | the answer is true, and the file is `PathCombine(location, name + ".desktop")` |
| `Shortcut.DesktopEntryReadsBack` | logic/FileSystem.cpp:379-396 | if no field holds a newline, the file reads back as exactly `[Desktop Entry]`, `Type=Application`, `TryExec=dest`, `Exec=dest` plus the quoted arguments, `Name=name`, and `Icon=icon`, and the text ends in a newline |

## Left out

- `FS::write`, `FS::read`, `ensureExists` and `ensureFilePathExists` are left out. They are thin wrappers over QSaveFile, QFile and QDir::mkpath; their atomicity and byte counts belong to Qt and the OS. `ensureFolderPathExists` is the host's `mkpath`.
- The internals of QDir::cleanPath are not modelled: canonicalisation is the parameter `clean`. So the collapsing of `.`, `..` and repeated separators is not modelled.
- `AbsolutePath` and `NormalizePath` are left out. They rest on QFileInfo::absolutePath, QDir::relativeFilePath and the process's current directory.
- `CheckProblematicPathJava` takes the folder's absolute path as its input, because QDir::absolutePath belongs to Qt.
- `ResolveExecutable`: the search-path lookup, the existence and permission tests and `absoluteFilePath` are host parameters; only the guard and the branching around them are modelled.
- `openDirInDefaultProgram`, `openFileInDefaultProgram` and `getDesktopDir` are left out because they are desktop-service I/O.
- All Windows-only code is left out: the reparse-point branch of `deletePath`, COM `CreateLink` with its `called_coinit` flag, the disabled `.lnk` shortcut, and forcing `follow_symlinks` on in `copyPath`. The same goes for the `false` that `createShortCut` returns on platforms other than Linux.
- `Shortcut.CreateShortCut` does not model opening, writing, flushing or setPermissions of the file, or the local 8-bit encoding: the text is a string of characters.
- Logging through qDebug, qCritical and qWarning is left out.
- Directory-listing order is not modelled: entries are a map, and both walks AND over all of them.
- A symbolic link carries a snapshot of what it points to, so a model tree is finite. A cyclic link, on which `copyPath` with follow_symlinks recurses until the operating system's path resolution fails, cannot be expressed. Changes made through a link are not reflected at the target's own location, so aliasing is not modelled.
- `Copy.ReproducesTree`: a link is represented by the absolute path that `symLinkTarget()` reports, so "the same link" means the same absolute target. A relative link such as `current -> v2` is re-created as an absolute link that still points into the source tree, not at the copy's `v2`; the different link text and target are not modelled.
- `Copy.PathCopy`: the source and destination trees are assumed not to overlap. With the destination inside the source, mkpath creates it before the listing, so the walk descends into its own output; a snapshot tree cannot express that.
- `Copy.PathCopy` reports what the walk creates at the destination, not how that merges with files already there. Whether QFile::copy refuses to overwrite is the host's answer.
- Paths handed to the host are built as `dir + "/" + name`. The source passes `absoluteFilePath()` to the removals in `deletePath`, so the host in the model sees the path as given to `deletePath`, not its absolute form.
- `Paths.PathCombine3`: its contract states only the cases with an empty operand. The left nesting `PathCombine(PathCombine(p1, p2), p3)` is its definition, so stating it in the contract would only repeat the body.
- The file-system being changed by someone else while a walk runs is not modelled, because the source gives no guarantee there.
