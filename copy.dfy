/**
 * FS::copyPath: a depth-first copy of a directory tree that ANDs the success
 * of every per-entry operation and never stops early.
 */
module Copy {
  import opened Wrappers
  import opened Tree

  /** The answer of a copy and what it created at the destination (None: nothing). */
  datatype CopyOutcome = CopyOutcome(ok: bool, created: Option<Entry>)

  /** The entries loop of one directory: the ANDed flag and the entries created. */
  datatype CopyWalk = CopyWalk(ok: bool, created: map<string, Entry>)

  /** One directory entry: re-link, recurse, copy, or fail on an unknown kind. */
  function EntryCopy(c: Entry, src: string, dst: string, followSymlinks: bool, host: Host): CopyOutcome
    decreases c, 2
  {
    match c
    case Symlink(target, r) =>
      if !followSymlinks then
        var linked := host.link(target, dst);
        CopyOutcome(linked, if linked then Some(c) else None)
      else
        // QFileInfo::isDir and isFile look through the link
        EntryCopy(r, src, dst, followSymlinks, host)
    case Dir(_) => DirectoryCopy(c, src, dst, followSymlinks, host)
    case File(_) =>
      var copied := host.copyFile(src, dst);
      CopyOutcome(copied, if copied then Some(c) else None)
    case Other => CopyOutcome(false, None)
  }

  /** Every entry of `d` is processed whatever happened to the others. */
  function EntriesCopy(d: Entry, src: string, dst: string, followSymlinks: bool, host: Host): CopyWalk
    requires d.Dir?
    decreases d, 0
  {
    var m := d.entries;
    CopyWalk(
      forall k | k in m :: EntryCopy(m[k], ChildPath(src, k), ChildPath(dst, k), followSymlinks, host).ok,
      map k | k in m && EntryCopy(m[k], ChildPath(src, k), ChildPath(dst, k), followSymlinks, host).created.Some?
        :: EntryCopy(m[k], ChildPath(src, k), ChildPath(dst, k), followSymlinks, host).created.value)
  }

  /** Copying an existing directory: create the destination, then copy every entry. */
  function DirectoryCopy(d: Entry, src: string, dst: string, followSymlinks: bool, host: Host): CopyOutcome
    requires d.Dir?
    decreases d, 1
  {
    if !host.mkpath(dst) then CopyOutcome(false, None)
    else
      var w := EntriesCopy(d, src, dst, followSymlinks, host);
      CopyOutcome(w.ok, Some(Dir(w.created)))
  }

  /** copyPath(src, dst, follow_symlinks) where `atSrc` is what `src` names (None: nothing). */
  function PathCopy(atSrc: Option<Entry>, src: string, dst: string, followSymlinks: bool, host: Host): (r: CopyOutcome)
    ensures atSrc.None? ==> r == CopyOutcome(false, None)
    ensures atSrc.Some? && !Followed(atSrc.value).Dir? ==> r == CopyOutcome(false, None)
    ensures !host.mkpath(dst) ==> r == CopyOutcome(false, None)
  {
    if atSrc.None? || !Followed(atSrc.value).Dir? then CopyOutcome(false, None)
    else DirectoryCopy(Followed(atSrc.value), src, dst, followSymlinks, host)
  }

  // ---------------------------------------------------------------------
  // The walk as the source runs it

  /** One iteration of copyPath's loop body. */
  method CopyEntry(c: Entry, src: string, dst: string, followSymlinks: bool, host: Host)
    returns (r: CopyOutcome)
    ensures r == EntryCopy(c, src, dst, followSymlinks, host)
    decreases c, 2
  {
    if !followSymlinks && c.Symlink? {
      var linked := host.link(c.target, dst);
      r := CopyOutcome(linked, if linked then Some(c) else None);
    } else if c.Symlink? {
      r := CopyEntry(c.resolved, src, dst, followSymlinks, host);
    } else if c.Dir? {
      r := CopyDirectory(c, src, dst, followSymlinks, host);
    } else if c.File? {
      var copied := host.copyFile(src, dst);
      r := CopyOutcome(copied, if copied then Some(c) else None);
    } else {
      r := CopyOutcome(false, None);
    }
  }

  /** The recursive body of copyPath for a source that is a directory. */
  method CopyDirectory(d: Entry, src: string, dst: string, followSymlinks: bool, host: Host)
    returns (r: CopyOutcome)
    requires d.Dir?
    ensures r == DirectoryCopy(d, src, dst, followSymlinks, host)
    decreases d, 1
  {
    if !host.mkpath(dst) {
      return CopyOutcome(false, None);
    }
    var m := d.entries;
    var ok := true;
    var created: map<string, Entry> := map[];
    var todo := m.Keys;
    while todo != {}
      invariant todo <= m.Keys
      invariant ok == forall k | k in m && k !in todo
                        :: EntryCopy(m[k], ChildPath(src, k), ChildPath(dst, k), followSymlinks, host).ok
      invariant created == map k | k in m && k !in todo
                                   && EntryCopy(m[k], ChildPath(src, k), ChildPath(dst, k), followSymlinks, host).created.Some?
                             :: EntryCopy(m[k], ChildPath(src, k), ChildPath(dst, k), followSymlinks, host).created.value
      decreases todo
    {
      var k :| k in todo;
      var one := CopyEntry(m[k], ChildPath(src, k), ChildPath(dst, k), followSymlinks, host);
      ok := ok && one.ok;
      if one.created.Some? {
        created := created[k := one.created.value];
      }
      todo := todo - {k};
    }
    ghost var w := EntriesCopy(d, src, dst, followSymlinks, host);
    assert ok == w.ok;
    assert created == w.created;
    r := CopyOutcome(ok, Some(Dir(created)));
  }

  /** copyPath: fixed answers for a missing source or destination, else the walk. */
  method CopyPath(atSrc: Option<Entry>, src: string, dst: string, followSymlinks: bool, host: Host)
    returns (r: CopyOutcome)
    ensures r == PathCopy(atSrc, src, dst, followSymlinks, host)
  {
    if atSrc.None? || !Followed(atSrc.value).Dir? {
      return CopyOutcome(false, None);
    }
    r := CopyDirectory(Followed(atSrc.value), src, dst, followSymlinks, host);
  }

  // ---------------------------------------------------------------------
  // Properties of the copy

  /** True exactly when the whole image of the source arrived at the destination. */
  lemma {:induction false} EntryCopyOkIffComplete(c: Entry, src: string, dst: string, followSymlinks: bool, host: Host)
    ensures var r := EntryCopy(c, src, dst, followSymlinks, host);
      r.ok <==> r.created == Some(Image(c, followSymlinks))
    decreases c, 2
  {
    match c
    case Symlink(_, r) =>
      if followSymlinks {
        EntryCopyOkIffComplete(r, src, dst, followSymlinks, host);
      }
    case Dir(_) => DirectoryCopyOkIffComplete(c, src, dst, followSymlinks, host);
    case _ =>
  }

  lemma {:induction false} DirectoryCopyOkIffComplete(d: Entry, src: string, dst: string, followSymlinks: bool, host: Host)
    requires d.Dir?
    ensures var r := DirectoryCopy(d, src, dst, followSymlinks, host);
      r.ok <==> r.created == Some(Image(d, followSymlinks))
    decreases d, 1
  {
    if host.mkpath(dst) {
      var m := d.entries;
      var w := EntriesCopy(d, src, dst, followSymlinks, host);
      var image := map k | k in m :: Image(m[k], followSymlinks);
      assert Image(d, followSymlinks) == Dir(image);
      forall k | k in m
        ensures var e := EntryCopy(m[k], ChildPath(src, k), ChildPath(dst, k), followSymlinks, host);
          e.ok <==> e.created == Some(Image(m[k], followSymlinks))
      {
        EntryCopyOkIffComplete(m[k], ChildPath(src, k), ChildPath(dst, k), followSymlinks, host);
      }
      if w.ok {
        assert w.created == image;
      }
      if w.created == image {
        forall k | k in m
          ensures EntryCopy(m[k], ChildPath(src, k), ChildPath(dst, k), followSymlinks, host).ok
        {
          assert k in w.created;
        }
      }
    }
  }

  /** Every operation succeeding on the host. */
  ghost predicate CopySucceeds(host: Host)
  {
    && (forall p :: host.mkpath(p))
    && (forall t, p :: host.link(t, p))
    && (forall s, p :: host.copyFile(s, p))
  }

  /** On a host where every operation succeeds, a tree with no unknown entry copies completely. */
  lemma {:induction false} EntryCopySucceeds(c: Entry, src: string, dst: string, followSymlinks: bool, host: Host)
    requires CopySucceeds(host)
    requires !HasOther(Image(c, followSymlinks))
    ensures EntryCopy(c, src, dst, followSymlinks, host).ok
    decreases c, 2
  {
    match c
    case Symlink(_, r) =>
      if followSymlinks {
        EntryCopySucceeds(r, src, dst, followSymlinks, host);
      }
    case Dir(_) => DirectoryCopySucceeds(c, src, dst, followSymlinks, host);
    case _ =>
  }

  lemma {:induction false} DirectoryCopySucceeds(d: Entry, src: string, dst: string, followSymlinks: bool, host: Host)
    requires d.Dir?
    requires CopySucceeds(host)
    requires !HasOther(Image(d, followSymlinks))
    ensures DirectoryCopy(d, src, dst, followSymlinks, host).ok
    decreases d, 1
  {
    var m := d.entries;
    forall k | k in m
      ensures EntryCopy(m[k], ChildPath(src, k), ChildPath(dst, k), followSymlinks, host).ok
    {
      assert Image(d, followSymlinks).entries[k] == Image(m[k], followSymlinks);
      EntryCopySucceeds(m[k], ChildPath(src, k), ChildPath(dst, k), followSymlinks, host);
    }
  }

  /**
   * With every operation succeeding and links kept as links, copying a tree
   * with no unknown entry reproduces it exactly: same names, same contents.
   */
  lemma ReproducesTree(atSrc: Entry, src: string, dst: string, host: Host)
    requires atSrc.Dir?
    requires CopySucceeds(host)
    requires !HasOther(atSrc)
    ensures PathCopy(Some(atSrc), src, dst, false, host) == CopyOutcome(true, Some(atSrc))
  {
    ImageWithoutFollowing(atSrc);
    DirectoryCopySucceeds(atSrc, src, dst, false, host);
    DirectoryCopyOkIffComplete(atSrc, src, dst, false, host);
  }

  /** An entry of unknown kind anywhere in the image forces the answer false. */
  lemma {:induction false} EntryCopyFailsOnOther(c: Entry, src: string, dst: string, followSymlinks: bool, host: Host)
    requires HasOther(Image(c, followSymlinks))
    ensures !EntryCopy(c, src, dst, followSymlinks, host).ok
    decreases c, 2
  {
    match c
    case Symlink(_, r) =>
      if followSymlinks {
        EntryCopyFailsOnOther(r, src, dst, followSymlinks, host);
      }
    case Dir(_) => DirectoryCopyFailsOnOther(c, src, dst, followSymlinks, host);
    case _ =>
  }

  lemma {:induction false} DirectoryCopyFailsOnOther(d: Entry, src: string, dst: string, followSymlinks: bool, host: Host)
    requires d.Dir?
    requires HasOther(Image(d, followSymlinks))
    ensures !DirectoryCopy(d, src, dst, followSymlinks, host).ok
    decreases d, 1
  {
    var m := d.entries;
    var image := Image(d, followSymlinks);
    var k :| k in image.entries && HasOther(image.entries[k]);
    assert image.entries[k] == Image(m[k], followSymlinks);
    if host.mkpath(dst) {
      EntryCopyFailsOnOther(m[k], ChildPath(src, k), ChildPath(dst, k), followSymlinks, host);
    }
  }

  /** A copy never creates anything that is not in the image of the source. */
  lemma {:induction false} EntryCopyWithinImage(c: Entry, src: string, dst: string, followSymlinks: bool, host: Host)
    ensures var r := EntryCopy(c, src, dst, followSymlinks, host);
      r.created.Some? ==> Within(r.created.value, Image(c, followSymlinks))
    decreases c, 2
  {
    match c
    case Symlink(_, r) =>
      if followSymlinks {
        EntryCopyWithinImage(r, src, dst, followSymlinks, host);
      }
    case Dir(_) => DirectoryCopyWithinImage(c, src, dst, followSymlinks, host);
    case _ =>
  }

  lemma {:induction false} DirectoryCopyWithinImage(d: Entry, src: string, dst: string, followSymlinks: bool, host: Host)
    requires d.Dir?
    ensures var r := DirectoryCopy(d, src, dst, followSymlinks, host);
      r.created.Some? ==> Within(r.created.value, Image(d, followSymlinks))
    decreases d, 1
  {
    if host.mkpath(dst) {
      var m := d.entries;
      var w := EntriesCopy(d, src, dst, followSymlinks, host);
      forall k | k in w.created
        ensures k in Image(d, followSymlinks).entries
        ensures Within(w.created[k], Image(d, followSymlinks).entries[k])
      {
        EntryCopyWithinImage(m[k], ChildPath(src, k), ChildPath(dst, k), followSymlinks, host);
      }
    }
  }

  /** With follow_symlinks set, the destination holds no symbolic link at all. */
  lemma FollowingCopiesNoLinks(atSrc: Option<Entry>, src: string, dst: string, host: Host)
    ensures var r := PathCopy(atSrc, src, dst, true, host);
      r.created.Some? ==> !HasSymlink(r.created.value)
  {
    var r := PathCopy(atSrc, src, dst, true, host);
    if r.created.Some? {
      var d := Followed(atSrc.value);
      DirectoryCopyWithinImage(d, src, dst, true, host);
      ImageFollowingHasNoLinks(d);
      WithinKeepsNoLinks(r.created.value, Image(d, true));
    }
  }
}
