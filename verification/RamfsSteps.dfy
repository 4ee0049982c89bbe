/** What the operations of the memory file system keep. */
module RamfsSteps {
  import opened Common
  import opened RamfsState

  /** The files that are still there are as they were, but for their counts. */
  ghost predicate SameFiles(t: Table, t': Table) {
    && |t'| == |t|
    && forall i | 0 <= i < |t| && t'[i].Some? ::
         t[i].Some? && t'[i].value.kind == t[i].value.kind && t'[i].value.slots == t[i].value.slots
  }

  lemma FilesStay(t: Table, t': Table)
    requires AllFiles(t) && SameFiles(t, t') && SameNames(t, t')
    ensures AllFiles(t')
  {
    forall i | 0 <= i < |t'| && t'[i].Some?
      ensures FileOk(t', i)
    {
      assert FileOk(t, i);
      SameNamesSets(t, t', i);
    }
  }

  lemma CountsStay(t: Table, v: Vnodes, t': Table, v': Vnodes, i: nat)
    requires AllCounts(t, v) && SameFiles(t, t') && SameNames(t, t') && i < |t|
    requires forall j | 0 <= j < |t| && j != i :: t'[j] == t[j] && (j in v' <==> j in v)
    requires t'[i].Some? ==> t'[i].value.links - One(i in v') == t[i].value.links - One(i in v) && t'[i].value.links > 0
    ensures AllCounts(t', v')
  {
    forall j | 0 <= j < |t'| && t'[j].Some?
      ensures CountOk(t', v', j)
    {
      assert CountOk(t, v, j);
      SameNamesSets(t, t', j);
    }
  }

  /** A file comes into core: `vget` for a file that is not, with `ramfs_read_vnode`. */
  lemma ComesIn(t: Table, v: Vnodes, i: nat, t': Table)
    requires Inv(t, v) && i < |t| && t[i].Some? && i !in v && t' == WithLinks(t, i, t[i].value.links + 1)
    ensures Inv(t', v[i := 1])
  {
    LinksKeepNames(t, i, t[i].value.links + 1);
    FilesStay(t, t');
    NamesStay(t, t');
    ComesInCounts(t, v, i, t');
  }

  lemma ComesInCounts(t: Table, v: Vnodes, i: nat, t': Table)
    requires AllCounts(t, v) && i < |t| && t[i].Some? && i !in v && t' == WithLinks(t, i, t[i].value.links + 1)
    ensures AllCounts(t', v[i := 1])
  {
    LinksKeepNames(t, i, t[i].value.links + 1);
    assert CountOk(t, v, i);
    CountsStay(t, v, t', v[i := 1], i);
  }

  lemma NamesStay(t: Table, t': Table)
    requires NoDangling(t) && SameNames(t, t') && |t'| == |t| && forall i | 0 <= i < |t| && t[i].Some? :: t'[i].Some?
    ensures NoDangling(t')
  {
  }

  /** The last reference to a file that still has a name goes. */
  lemma GoesOut(t: Table, v: Vnodes, i: nat, t': Table)
    requires Inv(t, v) && i in v && i != 0 && t[i].value.links > 1 && t' == WithLinks(t, i, t[i].value.links - 1)
    ensures Inv(t', v - {i})
  {
    LinksKeepNames(t, i, t[i].value.links - 1);
    FilesStay(t, t');
    NamesStay(t, t');
    CountsStay(t, v, t', v - {i}, i);
  }

  /** The last reference to a file without names goes, and the file with it. */
  lemma Dies(t: Table, v: Vnodes, i: nat, t': Table)
    requires Inv(t, v) && i in v && i != 0 && t[i].value.links == 1 && t' == t[i := None]
    ensures Names(t, i) == {} && Inv(t', v - {i}) && SameNames(t, t')
  {
    assert FileOk(t, i) && CountOk(t, v, i);
    FileNames(t, i, None);
    FilesStay(t, t');
    CountsStay(t, v, t', v - {i}, i);
    forall j: nat, d: nat, k: nat | IsName(t', j, d, k)
      ensures j < |t'| && t'[j].Some? && j != 0
    {
      NameFits(t, j, d, k);
    }
  }

  lemma NameFits(t: Table, i: nat, d: nat, k: nat)
    requires |t| == MAX_FILES && AllFiles(t) && IsName(t, i, d, k)
    ensures 2 <= k < MAX_DIRENT && (d, k) in Names(t, i)
  {
    assert FileOk(t, d);
  }

  // ---------------------------------------------------------------------
  // Names come and go
  // ---------------------------------------------------------------------

  lemma CountMore(t: Table, v: Vnodes, t': Table, i: nat, d: nat, k: nat, j: nat)
    requires OneMoreName(t, t', i, d, k) && j < |t| && j < |t'| && t[j].Some? && t'[j].Some? && CountOk(t, v, j)
    requires t'[j].value.links == t[j].value.links + One(j == i)
    ensures CountOk(t', v, j)
  {
    MoreNames(t, t', i, d, k, j);
  }

  lemma CountLess(t: Table, v: Vnodes, t': Table, i: nat, d: nat, k: nat, j: nat)
    requires OneMoreName(t', t, i, d, k) && j < |t| && j < |t'| && t[j].Some? && t'[j].Some? && CountOk(t, v, j)
    requires t'[j].value.links == t[j].value.links - One(j == i) && i in v
    ensures CountOk(t', v, j)
  {
    MoreNames(t', t, i, d, k, j);
  }

  /** A file other than the one named and the directory of the name. */
  lemma OtherFile(t: Table, t': Table, j: nat)
    requires j < |t| && j < |t'| && t[j].Some? && t'[j].Some? && FileOk(t, j)
    requires t'[j].value.kind == t[j].value.kind && t'[j].value.slots == t[j].value.slots
    requires Names(t', j) == Names(t, j) && forall a: nat, b: nat :: IsName(t', j, a, b) ==> IsName(t, j, a, b)
    ensures FileOk(t', j)
  {
  }

  /** The directory of a name that has come or gone. */
  lemma DirOfName(t: Table, t': Table, d: nat, k: nat, e: Option<Entry>)
    requires d < |t| && d < |t'| && IsDir(t, d) && IsDir(t', d) && FileOk(t, d) && 2 <= k < MAX_DIRENT
    requires t'[d].value.slots == t[d].value.slots[k := e] && (e.Some? ==> !Dots(e.value.name) && e.value.name != "")
    requires Names(t', d) == Names(t, d) && (d == 0 || Names(t, d) != {})
    requires forall a: nat, b: nat :: IsName(t', d, a, b) ==> IsName(t, d, a, b)
    ensures FileOk(t', d)
  {
  }

  /** Names lead to files still, after one more has been given to a file that is there. */
  lemma MoreNoDangling(t: Table, t': Table, i: nat, d: nat, k: nat)
    requires NoDangling(t) && OneMoreName(t, t', i, d, k) && |t'| == |t| && 0 < i < |t| && t'[i].Some?
    requires forall j | 0 <= j < |t| && t[j].Some? :: t'[j].Some?
    ensures NoDangling(t')
  {
  }

  lemma LessNoDangling(t: Table, t': Table, i: nat, d: nat, k: nat)
    requires NoDangling(t) && OneMoreName(t', t, i, d, k) && |t'| == |t|
    requires forall j | 0 <= j < |t| && t[j].Some? :: t'[j].Some?
    ensures NoDangling(t')
  {
  }

  lemma MoreCounts(t: Table, v: Vnodes, t': Table, i: nat, d: nat, k: nat)
    requires AllCounts(t, v) && OneMoreName(t, t', i, d, k) && |t'| == |t|
    requires forall j | 0 <= j < |t| && t'[j].Some? :: t[j].Some? && t'[j].value.links == t[j].value.links + One(j == i)
    ensures AllCounts(t', v)
  {
    forall j | 0 <= j < |t'| && t'[j].Some?
      ensures CountOk(t', v, j)
    {
      assert CountOk(t, v, j);
      CountMore(t, v, t', i, d, k, j);
    }
  }

  lemma LessCounts(t: Table, v: Vnodes, t': Table, i: nat, d: nat, k: nat)
    requires AllCounts(t, v) && OneMoreName(t', t, i, d, k) && |t'| == |t| && i in v
    requires forall j | 0 <= j < |t| && t'[j].Some? :: t[j].Some? && t'[j].value.links == t[j].value.links - One(j == i)
    ensures AllCounts(t', v)
  {
    forall j | 0 <= j < |t'| && t'[j].Some?
      ensures CountOk(t', v, j)
    {
      assert CountOk(t, v, j);
      CountLess(t, v, t', i, d, k, j);
    }
  }

  /** The files other than `i`, when the names of `i` change by the one in slot `k` of `d`. */
  lemma FilesButOne(t: Table, t': Table, i: nat, d: nat, k: nat, e: Option<Entry>)
    requires AllFiles(t) && |t'| == |t| && IsDir(t, d) && IsDir(t', d) && i != d && 2 <= k < MAX_DIRENT
      && |t[d].value.slots| == MAX_DIRENT
    requires OneMoreName(t, t', i, d, k) || OneMoreName(t', t, i, d, k)
    requires t'[d].value.slots == t[d].value.slots[k := e] && (e.Some? ==> !Dots(e.value.name) && e.value.name != "")
    requires d == 0 || Names(t, d) != {}
    requires forall j | 0 <= j < |t| && j != i && t'[j].Some? ::
      t[j].Some? && t'[j].value.kind == t[j].value.kind && (j != d ==> t'[j].value.slots == t[j].value.slots)
    ensures forall j | 0 <= j < |t'| && j != i && t'[j].Some? :: FileOk(t', j)
  {
    forall j | 0 <= j < |t'| && j != i && t'[j].Some?
      ensures FileOk(t', j)
    {
      assert FileOk(t, j);
      if OneMoreName(t, t', i, d, k) {
        MoreNames(t, t', i, d, k, j);
      } else {
        MoreNames(t', t, i, d, k, j);
      }
      if j == d {
        DirOfName(t, t', d, k, e);
      } else {
        OtherFile(t, t', j);
      }
    }
  }

  /** Slot `k` of `d` has become `e`, and the count of `i` has changed by `delta`. */
  ghost predicate EntryChange(t: Table, t': Table, d: nat, k: nat, e: Option<Entry>, i: nat, delta: int) {
    && |t'| == |t| && IsDir(t, d) && IsDir(t', d) && k < |t[d].value.slots|
      && t'[d].value.slots == t[d].value.slots[k := e]
    && (forall j | 0 <= j < |t| :: t'[j].Some? <==> t[j].Some?)
    && forall j | 0 <= j < |t| && t[j].Some? && t'[j].Some? ::
         && t'[j].value.kind == t[j].value.kind && (j != d ==> t'[j].value.slots == t[j].value.slots)
         && t'[j].value.links == t[j].value.links + if j == i then delta else 0
  }

  lemma EntryChanges(t: Table, t': Table, d: nat, k: nat, e: Option<Entry>, i: nat, delta: int)
    requires IsDir(t, d) && k < |t[d].value.slots| && i < |t| && t[i].Some? && i != d
    requires t' == WithLinks(WithSlot(t, d, k, e), i, t[i].value.links + delta)
    ensures EntryChange(t, t', d, k, e, i, delta)
  {
  }

  ghost predicate Proper(e: Entry) { !Dots(e.name) && e.name != "" }

  /** One more name for a file that is no directory: `ramfs_link`. */
  lemma NameAdded(t: Table, v: Vnodes, d: nat, k: nat, e: Entry, t': Table)
    requires Inv(t, v) && Linked(t, d) && 2 <= k < MAX_DIRENT && |t[d].value.slots| == MAX_DIRENT
    requires Proper(e) && 0 < e.ino < |t| && t[e.ino].Some? && !t[e.ino].value.kind.Dir?
    requires OneMoreName(t, t', e.ino, d, k) && EntryChange(t, t', d, k, Some(e), e.ino, 1)
    ensures Inv(t', v)
  {
    NameAddedFiles(t, d, k, e, t');
    MoreRest(t, v, t', e.ino, d, k, Some(e));
  }

  lemma MoreRest(t: Table, v: Vnodes, t': Table, i: nat, d: nat, k: nat, e: Option<Entry>)
    requires NoDangling(t) && AllCounts(t, v) && InCore(t, v) && 0 < i < |t| && t[i].Some?
    requires OneMoreName(t, t', i, d, k) && EntryChange(t, t', d, k, e, i, 1)
    ensures NoDangling(t') && AllCounts(t', v) && InCore(t', v)
  {
    MoreCounts(t, v, t', i, d, k);
    MoreNoDangling(t, t', i, d, k);
    CoreStays(t, t', v);
  }

  lemma LessRest(t: Table, v: Vnodes, t': Table, i: nat, d: nat, k: nat)
    requires NoDangling(t) && AllCounts(t, v) && InCore(t, v) && i in v
    requires OneMoreName(t', t, i, d, k) && EntryChange(t, t', d, k, None, i, -1)
    ensures NoDangling(t') && AllCounts(t', v) && InCore(t', v)
  {
    LessCounts(t, v, t', i, d, k);
    LessNoDangling(t, t', i, d, k);
    CoreStays(t, t', v);
  }

  lemma CoreStays(t: Table, t': Table, v: Vnodes)
    requires InCore(t, v) && |t'| == |t| && forall j | 0 <= j < |t| :: t'[j].Some? <==> t[j].Some?
    ensures InCore(t', v)
  {
  }

  lemma NameAddedFiles(t: Table, d: nat, k: nat, e: Entry, t': Table)
    requires AllFiles(t) && Linked(t, d) && 2 <= k < MAX_DIRENT && |t[d].value.slots| == MAX_DIRENT && Proper(e)
    requires e.ino < |t| && t[e.ino].Some? && !t[e.ino].value.kind.Dir? && OneMoreName(t, t', e.ino, d, k)
    requires EntryChange(t, t', d, k, Some(e), e.ino, 1)
    ensures AllFiles(t')
  {
    assert FileOk(t, e.ino);
    FilesButOne(t, t', e.ino, d, k, Some(e));
  }

  lemma MoreNamed(t: Table, t': Table, d: nat, k: nat, e: Entry)
    requires |t| == MAX_FILES && IsDir(t, d) && k < MAX_DIRENT && |t[d].value.slots| == MAX_DIRENT
      && t[d].value.slots[k].None?
    requires !Dots(e.name) && e.ino < |t| && t[e.ino].Some? && e.ino != d
    requires t' == WithLinks(WithSlot(t, d, k, Some(e)), e.ino, t[e.ino].value.links + 1)
    ensures OneMoreName(t, t', e.ino, d, k)
  {
    SlotNames(t, d, k, e);
    LinksKeepNames(WithSlot(t, d, k, Some(e)), e.ino, t[e.ino].value.links + 1);
  }

  /** A new file with one name: what `ramfs_create`, `ramfs_mknod` and `ramfs_mkdir` do. */
  lemma FileAdded(t: Table, v: Vnodes, d: nat, k: nat, i: nat, n: Inode, name: string, t': Table)
    requires Inv(t, v) && Linked(t, d) && 2 <= k < MAX_DIRENT && |t[d].value.slots| == MAX_DIRENT
      && t[d].value.slots[k].None?
    requires !Dots(name) && name != "" && i < |t| && t[i].None?
    requires if n.kind.Dir? then DirOk(n, i) && Empty(n) && ParentOf(n) == d else n.slots == []
    requires n.links == 1 && t' == WithSlot(t[i := Some(n)], d, k, Some(Entry(i, name)))
    ensures Inv(t', v) && OneMoreName(t, t', i, d, k)
  {
    assert i !in v && i != d && i != 0;
    FileNamed(t, t', d, k, i, n, name);
    FileAddedFiles(t, d, k, i, name, t');
    FileAddedRest(t, v, d, k, i, t');
  }

  lemma FileAddedFiles(t: Table, d: nat, k: nat, i: nat, name: string, t': Table)
    requires AllFiles(t) && NoDangling(t) && Linked(t, d) && 2 <= k < MAX_DIRENT && |t[d].value.slots| == MAX_DIRENT
    requires !Dots(name) && name != "" && i < |t| && t[i].None? && i != 0 && OneMoreName(t, t', i, d, k)
    requires |t'| == |t| && IsDir(t', d) && t'[d].value.slots == t[d].value.slots[k := Some(Entry(i, name))]
      && t'[i].Some?
    requires forall j | 0 <= j < |t| && j != i && j != d :: t'[j] == t[j]
    requires var n := t'[i].value; if n.kind.Dir? then DirOk(n, i) && Empty(n) && ParentOf(n) == d else n.slots == []
    ensures AllFiles(t')
  {
    FilesButOne(t, t', i, d, k, Some(Entry(i, name)));
    NewFile(t, t', d, k, i);
  }

  lemma FileAddedRest(t: Table, v: Vnodes, d: nat, k: nat, i: nat, t': Table)
    requires NoDangling(t) && AllCounts(t, v) && InCore(t, v) && i < |t| && t[i].None? && i != 0
      && OneMoreName(t, t', i, d, k)
    requires |t'| == |t| && t'[i].Some? && t'[i].value.links == 1
    requires forall j | 0 <= j < |t| && j != i ::
      (t'[j].Some? <==> t[j].Some?)
      && (t[j].Some? ==> t'[j].value.links == t[j].value.links)
    ensures NoDangling(t') && AllCounts(t', v) && InCore(t', v)
  {
    NotNamed(t, i);
    MoreNames(t, t', i, d, k, i);
    CountsWithNew(t, v, t', d, k, i);
    MoreNoDangling(t, t', i, d, k);
  }

  /** The new file itself. */
  lemma NewFile(t: Table, t': Table, d: nat, k: nat, i: nat)
    requires NoDangling(t) && OneMoreName(t, t', i, d, k) && i < |t| == |t'| && t[i].None? && t'[i].Some? && i != 0
    requires var n := t'[i].value; if n.kind.Dir? then DirOk(n, i) && Empty(n) && ParentOf(n) == d else n.slots == []
    ensures FileOk(t', i) && Names(t', i) == {(d, k)}
  {
    NotNamed(t, i);
    MoreNames(t, t', i, d, k, i);
  }

  lemma CountsWithNew(t: Table, v: Vnodes, t': Table, d: nat, k: nat, i: nat)
    requires AllCounts(t, v) && OneMoreName(t, t', i, d, k) && |t'| == |t| && i < |t| && i != 0 && i !in v
    requires forall j | 0 <= j < |t| && j != i && t'[j].Some? :: t[j].Some? && t'[j].value.links == t[j].value.links
    requires t'[i].Some? && t'[i].value.links == 1 && Names(t', i) == {(d, k)}
    ensures AllCounts(t', v)
  {
    forall j | 0 <= j < |t'| && t'[j].Some?
      ensures CountOk(t', v, j)
    {
      if j != i {
        assert CountOk(t, v, j);
        CountMore(t, v, t', i, d, k, j);
      }
    }
  }

  lemma FileNamed(t: Table, t': Table, d: nat, k: nat, i: nat, n: Inode, name: string)
    requires |t| == MAX_FILES && IsDir(t, d) && k < MAX_DIRENT && |t[d].value.slots| == MAX_DIRENT
      && t[d].value.slots[k].None?
    requires !Dots(name) && i < |t| && t[i].None? && (n.kind.Dir? ==> DirOk(n, i) && Empty(n))
    requires t' == WithSlot(t[i := Some(n)], d, k, Some(Entry(i, name)))
    ensures OneMoreName(t, t', i, d, k)
  {
    FileNames(t, i, Some(n));
    SlotNames(t[i := Some(n)], d, k, Entry(i, name));
  }

  lemma NotNamed(t: Table, i: nat)
    requires NoDangling(t) && (i >= |t| || t[i].None?)
    ensures Names(t, i) == {} && forall d: nat, k: nat :: !IsName(t, i, d, k)
  {
  }

  /**
   * A name taken away, of a file that is in core and, if it is a directory, empty: `ramfs_unlink`
   * and `ramfs_rmdir`.
   */
  lemma NameRemoved(t: Table, v: Vnodes, d: nat, k: nat, i: nat, t': Table)
    requires Inv(t, v) && IsName(t, i, d, k) && i in v && i != d && (t[i].value.kind.Dir? ==> Empty(t[i].value))
    requires t' == WithLinks(WithSlot(t, d, k, None), i, t[i].value.links - 1)
    ensures Inv(t', v) && OneMoreName(t', t, i, d, k)
  {
    assert FileOk(t, d) && FileOk(t, i);
    NameFits(t, i, d, k);
    LessNamed(t, t', d, k, i);
    EntryChanges(t, t', d, k, None, i, -1);
    NameRemovedFiles(t, d, k, i, t');
    LessRest(t, v, t', i, d, k);
  }

  lemma NameRemovedFiles(t: Table, d: nat, k: nat, i: nat, t': Table)
    requires AllFiles(t) && IsName(t, i, d, k) && 2 <= k < MAX_DIRENT && |t[d].value.slots| == MAX_DIRENT
    requires i < |t| && t[i].Some? && i != d && (t[i].value.kind.Dir? ==> Empty(t[i].value))
    requires OneMoreName(t', t, i, d, k) && EntryChange(t, t', d, k, None, i, -1)
    ensures AllFiles(t')
  {
    assert FileOk(t, d) && FileOk(t, i);
    FilesButOne(t, t', i, d, k, None);
    LosesName(t, t', d, k, i);
  }

  /** The file that loses a name. */
  lemma LosesName(t: Table, t': Table, d: nat, k: nat, i: nat)
    requires i < |t| && i < |t'| && t[i].Some? && t'[i].Some? && FileOk(t, i) && OneMoreName(t', t, i, d, k)
    requires t'[i].value.kind == t[i].value.kind && t'[i].value.slots == t[i].value.slots
    requires t[i].value.kind.Dir? ==> Empty(t[i].value)
    ensures FileOk(t', i)
  {
  }

  lemma LessNamed(t: Table, t': Table, d: nat, k: nat, i: nat)
    requires |t| == MAX_FILES && IsDir(t, d) && |t[d].value.slots| == MAX_DIRENT && k < MAX_DIRENT && IsName(t, i, d, k)
    requires i < |t| && t[i].Some? && i != d && t' == WithLinks(WithSlot(t, d, k, None), i, t[i].value.links - 1)
    ensures OneMoreName(t', t, i, d, k)
  {
    var t1 := WithSlot(t, d, k, None);
    NoSlotNames(t, d, k);
    LinksKeepNames(t1, i, t[i].value.links - 1);
  }
}
