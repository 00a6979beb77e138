/**
 * FS::deletePath (non-Windows branch): remove every entry depth-first, links
 * as links, then the directory itself; the answer ANDs every removal.
 *
 * QDir::rmdir succeeds only on an empty directory (rmdir(2) refuses with
 * ENOTEMPTY otherwise) and never on a symbolic link (ENOTDIR); beyond that
 * the host decides.
 */
module Delete {
  import opened Wrappers
  import opened Tree

  /** The answer of a delete and what is left at the path (None: nothing). */
  datatype DeleteOutcome = DeleteOutcome(ok: bool, left: Option<Entry>)

  /** The entries loop of one directory: the ANDed flag and the entries still there. */
  datatype DeleteWalk = DeleteWalk(ok: bool, left: map<string, Entry>)

  /** One directory entry: links and files are removed, directories recursed into. */
  function EntryDeletion(c: Entry, path: string, host: Host): DeleteOutcome
    decreases c, 2
  {
    match c
    case Symlink(_, _) =>
      var removed := host.remove(path);
      DeleteOutcome(removed, if removed then None else Some(c))
    case Dir(_) => DirectoryDeletion(c, path, host)
    case File(_) =>
      var removed := host.remove(path);
      DeleteOutcome(removed, if removed then None else Some(c))
    case Other => DeleteOutcome(false, Some(c))
  }

  /** Every entry of `d` is processed whatever happened to the others. */
  function EntriesDeletion(d: Entry, path: string, host: Host): DeleteWalk
    requires d.Dir?
    decreases d, 0
  {
    var m := d.entries;
    DeleteWalk(
      forall k | k in m :: EntryDeletion(m[k], ChildPath(path, k), host).ok,
      map k | k in m && EntryDeletion(m[k], ChildPath(path, k), host).left.Some?
        :: EntryDeletion(m[k], ChildPath(path, k), host).left.value)
  }

  /** Deleting a real directory: its entries, then the directory itself. */
  function DirectoryDeletion(d: Entry, path: string, host: Host): DeleteOutcome
    requires d.Dir?
    decreases d, 1
  {
    var w := EntriesDeletion(d, path, host);
    var removed := host.rmdir(path) && w.left == map[];
    DeleteOutcome(w.ok && removed, if removed then None else Some(Dir(w.left)))
  }

  /** deletePath(path) where `atPath` is what `path` names (None: nothing). */
  function PathDeletion(atPath: Option<Entry>, path: string, host: Host): (r: DeleteOutcome)
    ensures atPath.None? ==> r == DeleteOutcome(true, None)
    ensures atPath.Some? && !Followed(atPath.value).Dir? ==> r == DeleteOutcome(true, atPath)
    ensures atPath.Some? && atPath.value.Symlink? && Followed(atPath.value).Dir? ==> !r.ok && r.left.Some?
  {
    match atPath
    case None => DeleteOutcome(true, None)
    case Some(e) =>
      if e.Dir? then DirectoryDeletion(e, path, host)
      else if Followed(e).Dir? then
        // the listing goes through the link; rmdir on the link itself fails
        var w := EntriesDeletion(Followed(e), path, host);
        DeleteOutcome(false, Some(Relink(e, Dir(w.left))))
      else DeleteOutcome(true, atPath)
  }

  // ---------------------------------------------------------------------
  // The walk as the source runs it

  /** The recursive body of deletePath for a path that is a real directory. */
  method DeleteDirectory(d: Entry, path: string, host: Host) returns (r: DeleteOutcome)
    requires d.Dir?
    ensures r == DirectoryDeletion(d, path, host)
    decreases d
  {
    var w := DeleteEntries(d, path, host);
    var removed := host.rmdir(path) && w.left == map[];
    r := DeleteOutcome(w.ok && removed, if removed then None else Some(Dir(w.left)));
  }

  /** deletePath's loop over the directory listing, directories recursed into. */
  method DeleteEntries(d: Entry, path: string, host: Host) returns (w: DeleteWalk)
    requires d.Dir?
    ensures w == EntriesDeletion(d, path, host)
    decreases d, 0
  {
    var m := d.entries;
    var ok := true;
    var left: map<string, Entry> := map[];
    var todo := m.Keys;
    while todo != {}
      invariant todo <= m.Keys
      invariant ok == forall k | k in m && k !in todo :: EntryDeletion(m[k], ChildPath(path, k), host).ok
      invariant left == map k | k in m && k !in todo && EntryDeletion(m[k], ChildPath(path, k), host).left.Some?
                          :: EntryDeletion(m[k], ChildPath(path, k), host).left.value
      decreases todo
    {
      var k :| k in todo;
      var c := m[k];
      var childPath := ChildPath(path, k);
      if c.Symlink? {
        var removed := host.remove(childPath);
        ok := ok && removed;
        if !removed {
          left := left[k := c];
        }
      } else if c.Dir? {
        var sub := DeleteDirectory(c, childPath, host);
        ok := ok && sub.ok;
        if sub.left.Some? {
          left := left[k := sub.left.value];
        }
      } else if c.File? {
        var removed := host.remove(childPath);
        ok := ok && removed;
        if !removed {
          left := left[k := c];
        }
      } else {
        ok := false;
        left := left[k := c];
      }
      todo := todo - {k};
    }
    ghost var spec := EntriesDeletion(d, path, host);
    assert ok == spec.ok;
    assert left == spec.left;
    w := DeleteWalk(ok, left);
  }

  /** deletePath: true for a path that is not a directory, else the walk. */
  method DeletePath(atPath: Option<Entry>, path: string, host: Host) returns (r: DeleteOutcome)
    ensures r == PathDeletion(atPath, path, host)
  {
    if atPath.None? || !Followed(atPath.value).Dir? {
      return DeleteOutcome(true, atPath);
    }
    var e := atPath.value;
    if e.Dir? {
      r := DeleteDirectory(e, path, host);
    } else {
      var w := DeleteEntries(Followed(e), path, host);
      r := DeleteOutcome(false, Some(Relink(e, Dir(w.left))));
    }
  }

  // ---------------------------------------------------------------------
  // Properties of the delete

  /** The answer is true exactly when nothing of the entry is left. */
  lemma {:induction false} EntryDeletionOkIffGone(c: Entry, path: string, host: Host)
    ensures EntryDeletion(c, path, host).ok <==> EntryDeletion(c, path, host).left.None?
    decreases c, 2
  {
    if c.Dir? {
      DirectoryDeletionOkIffGone(c, path, host);
    }
  }

  lemma {:induction false} DirectoryDeletionOkIffGone(d: Entry, path: string, host: Host)
    requires d.Dir?
    ensures DirectoryDeletion(d, path, host).ok <==> DirectoryDeletion(d, path, host).left.None?
    decreases d, 1
  {
    var m := d.entries;
    var w := EntriesDeletion(d, path, host);
    if w.left == map[] {
      forall k | k in m
        ensures EntryDeletion(m[k], ChildPath(path, k), host).ok
      {
        assert k !in w.left;
        EntryDeletionOkIffGone(m[k], ChildPath(path, k), host);
      }
    }
  }

  /** Every removal succeeding on the host. */
  ghost predicate RemovalSucceeds(host: Host)
  {
    && (forall p :: host.remove(p))
    && (forall p :: host.rmdir(p))
  }

  /**
   * With every removal succeeding, a directory with no entry of unknown kind
   * is entirely gone afterwards, and the answer is true.
   */
  lemma {:induction false} DirectoryDeletionRemovesAll(d: Entry, path: string, host: Host)
    requires d.Dir?
    requires RemovalSucceeds(host)
    requires !HasOther(d)
    ensures DirectoryDeletion(d, path, host) == DeleteOutcome(true, None)
    decreases d
  {
    var m := d.entries;
    forall k | k in m
      ensures EntryDeletion(m[k], ChildPath(path, k), host) == DeleteOutcome(true, None)
    {
      if m[k].Dir? {
        DirectoryDeletionRemovesAll(m[k], ChildPath(path, k), host);
      }
    }
    assert EntriesDeletion(d, path, host).left == map[];
  }

  /** An entry of unknown kind anywhere below forces the answer false. */
  lemma {:induction false} DirectoryDeletionFailsOnOther(d: Entry, path: string, host: Host)
    requires d.Dir?
    requires HasOther(d)
    ensures !DirectoryDeletion(d, path, host).ok
    decreases d
  {
    var m := d.entries;
    var k :| k in m && HasOther(m[k]);
    if m[k].Dir? {
      DirectoryDeletionFailsOnOther(m[k], ChildPath(path, k), host);
    }
    assert !EntryDeletion(m[k], ChildPath(path, k), host).ok;
  }

  /** A delete never creates anything: what is left is part of what was there. */
  lemma {:induction false} DirectoryDeletionLeavesPart(d: Entry, path: string, host: Host)
    requires d.Dir?
    ensures var r := DirectoryDeletion(d, path, host); r.left.Some? ==> Within(r.left.value, d)
    decreases d
  {
    var m := d.entries;
    var w := EntriesDeletion(d, path, host);
    forall k | k in w.left
      ensures Within(w.left[k], m[k])
    {
      var one := EntryDeletion(m[k], ChildPath(path, k), host);
      assert one.left.Some? && w.left[k] == one.left.value;
      if m[k].Dir? {
        DirectoryDeletionLeavesPart(m[k], ChildPath(path, k), host);
      } else {
        assert one.left.value == m[k];
        WithinReflexive(m[k]);
      }
    }
  }

  /** The tree with every link's resolution forgotten. */
  function WithoutLinkTargets(e: Entry): Entry
  {
    match e
    case Symlink(t, _) => Symlink(t, Other)
    case Dir(m) => Dir(map k | k in m :: WithoutLinkTargets(m[k]))
    case _ => e
  }

  /** Links are removed, not followed: what a link points to never changes the answer. */
  lemma {:induction false} DeletionIgnoresLinkTargets(d: Entry, path: string, host: Host)
    requires d.Dir?
    ensures DirectoryDeletion(d, path, host).ok == DirectoryDeletion(WithoutLinkTargets(d), path, host).ok
    decreases d
  {
    var m := d.entries;
    var d' := WithoutLinkTargets(d);
    forall k | k in m
      ensures k in d'.entries
      ensures EntryDeletion(m[k], ChildPath(path, k), host).ok
           == EntryDeletion(d'.entries[k], ChildPath(path, k), host).ok
      ensures EntryDeletion(m[k], ChildPath(path, k), host).left.None?
           == EntryDeletion(d'.entries[k], ChildPath(path, k), host).left.None?
    {
      assert d'.entries[k] == WithoutLinkTargets(m[k]);
      if m[k].Dir? {
        DeletionIgnoresLinkTargets(m[k], ChildPath(path, k), host);
        DirectoryDeletionOkIffGone(m[k], ChildPath(path, k), host);
        DirectoryDeletionOkIffGone(d'.entries[k], ChildPath(path, k), host);
      }
    }
    assert EntriesDeletion(d, path, host).ok == EntriesDeletion(d', path, host).ok;
    assert EntriesDeletion(d, path, host).left.Keys == EntriesDeletion(d', path, host).left.Keys;
  }
}
