/**
 * The abstract file system the recursive copy and delete of FS walk over.
 *
 * A directory maps entry names to entries; directory-listing order is not
 * part of the model, because both walks AND their per-entry results.
 */
module Tree {
  import Paths

  /**
   * What a name refers to, as QFileInfo classifies it. A symbolic link keeps
   * its absolute target and what that target is (`resolved`, itself possibly
   * a link); a dangling link is a Symlink that resolves to Other. Anything that is neither a
   * file nor a directory (socket, device, FIFO) is Other.
   */
  datatype Entry =
    | File(data: seq<bv8>)
    | Dir(entries: map<string, Entry>)
    | Symlink(target: string, resolved: Entry)
    | Other

  /**
   * The file-system operations the walks perform, each answering whether it
   * succeeded: QDir::mkpath, QFile::link(target, linkPath), QFile::copy(from, to),
   * QFile::remove and QDir::rmdir.
   */
  datatype Host = Host(
    mkpath: string -> bool,
    link: (string, string) -> bool,
    copyFile: (string, string) -> bool,
    remove: string -> bool,
    rmdir: string -> bool)

  /** The path of entry `name` inside directory `dir`. */
  function ChildPath(dir: string, name: string): string
  {
    dir + [Paths.Separator] + name
  }

  /** Where a chain of links ends. */
  function Followed(e: Entry): (r: Entry)
    ensures !r.Symlink?
  {
    if e.Symlink? then Followed(e.resolved) else e
  }

  /** A link whose chain ends in `e`, with that end replaced by `replacement`. */
  function Relink(e: Entry, replacement: Entry): Entry
  {
    if e.Symlink? then Symlink(e.target, Relink(e.resolved, replacement)) else replacement
  }

  /**
   * The tree a copy is meant to reproduce: links kept as links, or, when
   * links are followed, each replaced by what it points to.
   */
  function Image(e: Entry, followSymlinks: bool): Entry
  {
    match e
    case Symlink(_, r) => if followSymlinks then Image(r, true) else e
    case Dir(m) => Dir(map k | k in m :: Image(m[k], followSymlinks))
    case _ => e
  }

  /** Is there an entry of unknown kind somewhere in the tree (links are leaves)? */
  predicate HasOther(e: Entry)
  {
    match e
    case Other => true
    case Dir(m) => exists k :: k in m && HasOther(m[k])
    case _ => false
  }

  /** Is there a symbolic link somewhere in the tree? */
  predicate HasSymlink(e: Entry)
  {
    match e
    case Symlink(_, _) => true
    case Dir(m) => exists k :: k in m && HasSymlink(m[k])
    case _ => false
  }

  /** `a` is `b` with some entries missing (at any depth): nothing in `a` is new. */
  predicate Within(a: Entry, b: Entry)
  {
    match a
    case Dir(ma) => b.Dir? && forall k :: k in ma ==> k in b.entries && Within(ma[k], b.entries[k])
    case _ => a == b
  }

  lemma {:induction false} WithinReflexive(e: Entry)
    ensures Within(e, e)
  {
    match e
    case Dir(m) =>
      forall k | k in m
        ensures Within(m[k], m[k])
      {
        WithinReflexive(m[k]);
      }
    case _ =>
  }

  /** Without following links, the image of a tree is the tree itself. */
  lemma {:induction false} ImageWithoutFollowing(e: Entry)
    ensures Image(e, false) == e
  {
    match e
    case Dir(m) =>
      forall k | k in m
        ensures Image(m[k], false) == m[k]
      {
        ImageWithoutFollowing(m[k]);
      }
      assert (map k | k in m :: Image(m[k], false)) == m;
    case _ =>
  }

  /** Following links leaves no link in the image. */
  lemma {:induction false} ImageFollowingHasNoLinks(e: Entry)
    ensures !HasSymlink(Image(e, true))
  {
    match e
    case Symlink(_, r) =>
      ImageFollowingHasNoLinks(r);
    case Dir(m) =>
      forall k | k in m
        ensures !HasSymlink(Image(m[k], true))
      {
        ImageFollowingHasNoLinks(m[k]);
      }
    case _ =>
  }

  /** A part of a link-free tree is link-free. */
  lemma {:induction false} WithinKeepsNoLinks(a: Entry, b: Entry)
    requires Within(a, b) && !HasSymlink(b)
    ensures !HasSymlink(a)
  {
    match a
    case Dir(ma) =>
      forall k | k in ma
        ensures !HasSymlink(ma[k])
      {
        WithinKeepsNoLinks(ma[k], b.entries[k]);
      }
    case _ =>
  }
}
