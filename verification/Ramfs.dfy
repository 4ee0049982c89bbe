/** The memory file system with its in-core files. */
module Ramfs {
  import opened Common
  import opened RamfsState
  import opened RamfsSteps

  /** The table after `vget`, with `ramfs_read_vnode` for a file that is not in core. */
  ghost function GotTable(t: Table, v: Vnodes, i: nat): Table
    requires i < |t| && t[i].Some?
  {
    if i in v then t else WithLinks(t, i, t[i].value.links + 1)
  }

  /** The table after `vput`, with `ramfs_delete_vnode` when the last reference goes. */
  ghost function PutTable(t: Table, v: Vnodes, i: nat): Table
    requires i < |t| && t[i].Some? && i in v
  {
    if v[i] > 1 then t else if t[i].value.links == 1 then t[i := None] else WithLinks(t, i, t[i].value.links - 1)
  }

  /** The reference counts after `vget` and `vput`. */
  ghost function GotVnodes(v: Vnodes, i: nat): Vnodes { v[i := if i in v then v[i] + 1 else 1] }

  ghost function PutVnodes(v: Vnodes, i: nat): Vnodes
    requires i in v
  {
    if v[i] > 1 then v[i := v[i] - 1] else v - {i}
  }

  /** Putting a file undoes getting it, in the counts and in the table. */
  lemma GetThenPut(t: Table, v: Vnodes, i: nat)
    requires Inv(t, v) && i < |t| && t[i].Some?
    ensures PutVnodes(GotVnodes(v, i), i) == v && PutTable(GotTable(t, v, i), GotVnodes(v, i), i) == t
  {
    assert CountOk(t, v, i);
    if i !in v {
      assert GotVnodes(v, i) - {i} == v;
      assert WithLinks(WithLinks(t, i, t[i].value.links + 1), i, t[i].value.links) == t;
    }
  }

  lemma SameInCore(t: Table, v: Vnodes, i: nat, n: int)
    requires Inv(t, v) && i in v && n >= 1
    ensures Inv(t, v[i := n])
  {
    forall j | 0 <= j < |t| && t[j].Some?
      ensures CountOk(t, v[i := n], j)
    {
      assert CountOk(t, v, j);
    }
  }

  /** A file is freed exactly when its last reference goes and it has no name. */
  lemma FreedWhenUnused(t: Table, v: Vnodes, i: nat)
    requires Inv(t, v) && i in v && (i == 0 ==> v[0] > 1)
    ensures PutTable(t, v, i)[i].None? <==> v[i] == 1 && Names(t, i) == {}
  {
    assert CountOk(t, v, i);
    if |Names(t, i)| == 0 {
      assert Names(t, i) == {};
    }
  }

  /** Getting a file changes no entry; putting it changes none either, but the file may go. */
  lemma GetKeepsBodies(t: Table, v: Vnodes, i: nat)
    requires i < |t| && t[i].Some?
    ensures Bodies(GotTable(t, v, i)) == Bodies(t)
  {
    BodiesLinks(t, i, t[i].value.links + 1);
  }

  lemma PutKeepsBodies(t: Table, v: Vnodes, i: nat)
    requires i < |t| && t[i].Some? && i in v
    ensures Bodies(PutTable(t, v, i)) == if PutTable(t, v, i)[i].None? then Bodies(t)[i := None] else Bodies(t)
  {
    BodiesWith(t, i, None);
    BodiesLinks(t, i, t[i].value.links - 1);
  }

  /** Getting and putting changes no name. */
  lemma GetKeepsNames(t: Table, v: Vnodes, i: nat)
    requires i < |t| && t[i].Some?
    ensures SameNames(t, GotTable(t, v, i))
  {
    LinksKeepNames(t, i, t[i].value.links + 1);
  }

  lemma PutKeepsNames(t: Table, v: Vnodes, i: nat)
    requires Inv(t, v) && i in v && (i == 0 ==> v[0] > 1)
    ensures SameNames(t, PutTable(t, v, i))
  {
    if v[i] == 1 && t[i].value.links == 1 {
      Dies(t, v, i, t[i := None]);
    } else {
      LinksKeepNames(t, i, t[i].value.links - 1);
    }
  }

  const NAME_LEN := 28

  /** Names that are stored as given, and are not the two special ones. */
  predicate Storable(name: string) { 0 < |name| < NAME_LEN && !Dots(name) }

  /** Slot `k` has the given name. */
  predicate Has(slots: seq<Option<Entry>>, k: nat, name: string) {
    k < |slots| && slots[k].Some? && slots[k].value.name == name
  }

  ghost predicate HasName(slots: seq<Option<Entry>>, name: string) { exists k: nat :: Has(slots, k, name) }

  /** Whatever a linked directory names is there, its parent included. */
  lemma TargetIsThere(t: Table, v: Vnodes, d: nat, k: nat)
    requires Inv(t, v) && Linked(t, d) && k < |t[d].value.slots| && t[d].value.slots[k].Some?
    ensures var i := t[d].value.slots[k].value.ino; i < |t| && t[i].Some?
  {
    assert FileOk(t, d);
    if k == 1 && d != 0 {
      var x :| x in Names(t, d);
      assert IsName(t, d, x.0, x.1);
    } else if k >= 2 {
      assert IsName(t, t[d].value.slots[k].value.ino, d, k);
    }
  }

  /**
   * An entry of another name than the special ones is a name, and does not lead to its own
   * directory or to the root.
   */
  lemma EntryIsName(t: Table, v: Vnodes, d: nat, k: nat)
    requires Inv(t, v) && IsDir(t, d) && k < |t[d].value.slots| && t[d].value.slots[k].Some?
      && !Dots(t[d].value.slots[k].value.name)
    ensures |t[d].value.slots| == MAX_DIRENT && 2 <= k && IsName(t, t[d].value.slots[k].value.ino, d, k)
    ensures var i := t[d].value.slots[k].value.ino; i != 0 && i != d && i < |t| && t[i].Some?
  {
    assert FileOk(t, d);
    assert IsName(t, t[d].value.slots[k].value.ino, d, k);
  }

  ghost predicate Full(t: Table) { forall i | 0 <= i < |t| :: t[i].Some? }

  ghost predicate NoSlot(slots: seq<Option<Entry>>) { forall k | 0 <= k < |slots| :: slots[k].Some? }

  datatype Result = Ok(ino: nat) | NoSpace | NoEntry | NotDir | NotEmpty

  lemma Recounted(list: seq<Vnode>, v: Vnodes, at: nat, n: int)
    requires list in Lists(v) && at < |list|
    ensures list[at := Vnode(list[at].vno, n)] in Lists(v[list[at].vno := n])
  {
    var list', i := list[at := Vnode(list[at].vno, n)], list[at].vno;
    forall x | x in v
      ensures exists j | 0 <= j < |list'| :: list'[j].vno == x
    {
      var j :| 0 <= j < |list| && list[j].vno == x;
      assert list'[j].vno == x;
    }
    assert Listed(list', v[i := n]);
  }

  lemma PutOnList(list: seq<Vnode>, v: Vnodes, i: nat)
    requires list in Lists(v) && i !in v
    ensures [Vnode(i, 1)] + list in Lists(v[i := 1])
  {
    var list' := [Vnode(i, 1)] + list;
    assert list'[0].vno == i;
    forall x | x in v
      ensures exists j | 0 <= j < |list'| :: list'[j].vno == x
    {
      var j :| 0 <= j < |list| && list[j].vno == x;
      assert list'[j + 1].vno == x;
    }
    assert Listed(list', v[i := 1]);
  }

  lemma TakenOffList(list: seq<Vnode>, v: Vnodes, at: nat)
    requires list in Lists(v) && at < |list|
    ensures list[..at] + list[at + 1..] in Lists(v - {list[at].vno})
  {
    var list', i := list[..at] + list[at + 1..], list[at].vno;
    forall x | x in v && x != i
      ensures exists j | 0 <= j < |list'| :: list'[j].vno == x
    {
      var j :| 0 <= j < |list| && list[j].vno == x;
      assert list'[if j < at then j else j - 1].vno == x;
    }
    assert Listed(list', v - {i});
  }

  class Fs {
    var table: Table
    var inuse: seq<Vnode>
    ghost var vnodes: Vnodes

    /** Link counts are right, no file is in core twice, and no name is twice in a directory. */
    ghost predicate Valid()
      reads this
    {
      Inv(table, vnodes) && inuse in Lists(vnodes) && NamesOnce(Bodies(table))
    }

    /** `ramfs_mount`: the root directory alone, in core. */
    constructor ()
      ensures Valid() && inuse == [Vnode(0, 1)] && forall i | 0 < i < |table| :: table[i].None?
    {
      var root := Inode(Dir, DirSlots(0, 0), 2);
      table := [Some(root)] + seq(MAX_FILES - 1, _ => None);
      inuse, vnodes := [Vnode(0, 1)], map[0 := 1];
      new;
      NoNamesAtFirst(table, root);
      OnlyDots(table);
      assert inuse[0].vno == 0 && Listed(inuse, vnodes);
    }

    /** The search of `vget` through the list of in-core files. */
    method FindVnode(i: nat) returns (r: Option<nat>)
      requires inuse in Lists(vnodes)
      ensures r.None? <==> i !in vnodes
      ensures r.Some? ==> r.value < |inuse| && inuse[r.value] == Vnode(i, vnodes[i])
    {
      var k := 0;
      while k < |inuse|
        invariant 0 <= k <= |inuse| && forall j | 0 <= j < k :: inuse[j].vno != i
      {
        if inuse[k].vno == i {
          return Some(k);
        }
        k := k + 1;
      }
      r := None;
    }

    /** `vget` */
    method Vget(i: nat)
      requires Valid() && i < |table| && table[i].Some?
      modifies this
      ensures Valid() && table == GotTable(old(table), old(vnodes), i)
      ensures vnodes == GotVnodes(old(vnodes), i)
    {
      var at := FindVnode(i);
      if at.None? {
        ReadVnode(i);
        return;
      }
      Count(at.value, inuse[at.value].refs + 1);
    }

    /** A new reference count for the file at `at` in the list. */
    method Count(at: nat, n: int)
      requires Valid() && at < |inuse| && n >= 1
      modifies this`inuse, this`vnodes
      ensures Valid() && vnodes == old(vnodes)[old(inuse)[at].vno := n]
    {
      var i := inuse[at].vno;
      SameInCore(table, vnodes, i, n);
      Recounted(inuse, vnodes, at, n);
      inuse := inuse[at := Vnode(i, n)];
      vnodes := vnodes[i := n];
    }

    /** `ramfs_read_vnode` for a file that comes into core. */
    method ReadVnode(i: nat)
      requires Valid() && i < |table| && table[i].Some? && i !in vnodes
      modifies this
      ensures Valid() && table == WithLinks(old(table), i, old(table)[i].value.links + 1)
        && vnodes == old(vnodes)[i := 1]
    {
      var table' := table[i := Some(table[i].value.(links := table[i].value.links + 1))];
      ComesIn(table, vnodes, i, table');
      BodiesLinks(table, i, table[i].value.links + 1);
      PutOnList(inuse, vnodes, i);
      inuse := [Vnode(i, 1)] + inuse;
      table := table';
      vnodes := vnodes[i := 1];
    }

    /** `vput` */
    method Vput(i: nat)
      requires Valid() && i in vnodes && (i == 0 ==> vnodes[0] > 1)
      modifies this
      ensures Valid() && table == PutTable(old(table), old(vnodes), i)
      ensures vnodes == PutVnodes(old(vnodes), i)
    {
      var at := FindVnode(i);
      if inuse[at.value].refs == 1 {
        DeleteVnode(at.value);
        return;
      }
      Count(at.value, inuse[at.value].refs - 1);
    }

    /** `ramfs_delete_vnode` for a file that goes out of core. */
    method DeleteVnode(at: nat)
      requires Valid() && at < |inuse| && inuse[at].vno != 0 && inuse[at].refs == 1
      modifies this
      ensures var i := old(inuse)[at].vno;
        table == PutTable(old(table), old(vnodes), i) && vnodes == old(vnodes) - {i}
      ensures Valid()
    {
      var i := inuse[at].vno;
      assert CountOk(table, vnodes, i);
      var links := table[i].value.links - 1;
      var table' := table[i := if links == 0 then None else Some(table[i].value.(links := links))];
      if links == 0 {
        Dies(table, vnodes, i, table');
      } else {
        GoesOut(table, vnodes, i, table');
      }
      TakenOffList(inuse, vnodes, at);
      PutKeepsBodies(table, vnodes, i);
      OnceWithout(Bodies(table), i);
      inuse := inuse[..at] + inuse[at + 1..];
      table := table';
      vnodes := vnodes - {i};
    }

    // -------------------------------------------------------------------
    // Looking for things
    // -------------------------------------------------------------------

    /** The first free place in the table. */
    method FindFree() returns (r: Option<nat>)
      ensures r.Some? ==> r.value < |table| && table[r.value].None?
      ensures r.None? ==> forall i | 0 <= i < |table| :: table[i].Some?
    {
      var i := 0;
      while i < |table|
        invariant 0 <= i <= |table| && forall j | 0 <= j < i :: table[j].Some?
      {
        if table[i].None? {
          return Some(i);
        }
        i := i + 1;
      }
      r := None;
    }

    /** The first empty slot of a directory. */
    static method FindSlot(slots: seq<Option<Entry>>) returns (r: Option<nat>)
      ensures r.Some? ==> r.value < |slots| && slots[r.value].None?
      ensures r.None? ==> forall k | 0 <= k < |slots| :: slots[k].Some?
    {
      var k := 0;
      while k < |slots|
        invariant 0 <= k <= |slots| && forall j | 0 <= j < k :: slots[j].Some?
      {
        if slots[k].None? {
          return Some(k);
        }
        k := k + 1;
      }
      r := None;
    }

    /** The first slot with a given name. */
    static method FindName(slots: seq<Option<Entry>>, name: string) returns (r: Option<nat>)
      ensures r.Some? ==> Has(slots, r.value, name)
      ensures r.None? <==> !HasName(slots, name)
    {
      var k := 0;
      while k < |slots|
        invariant 0 <= k <= |slots| && forall j: nat | j < k :: !Has(slots, j, name)
      {
        if Has(slots, k, name) {
          return Some(k);
        }
        k := k + 1;
      }
      r := None;
    }

    /** `ramfs_lookup`: the file found is in core afterwards. */
    method Lookup(d: nat, name: string) returns (r: Option<nat>)
      requires Valid() && Linked(table, d) && name != ""
      modifies this
      ensures Valid() && (r.None? <==> !HasName(old(table)[d].value.slots, name))
      ensures r.None? ==> table == old(table) && vnodes == old(vnodes)
      ensures r.Some? ==>
        r.value < |old(table)| && old(table)[r.value].Some?
        && table == GotTable(old(table), old(vnodes), r.value)
      ensures r.Some? ==> vnodes == GotVnodes(old(vnodes), r.value)
      ensures r.Some? ==> exists k: nat ::
        Has(old(table)[d].value.slots, k, name)
        && old(table)[d].value.slots[k].value.ino == r.value
    {
      var k := FindName(table[d].value.slots, name);
      if k.None? {
        return None;
      }
      TargetIsThere(table, vnodes, d, k.value);
      var i := table[d].value.slots[k.value].value.ino;
      Vget(i);
      r := Some(i);
    }

    // -------------------------------------------------------------------
    // New files and names
    // -------------------------------------------------------------------

    /** An empty slot of a directory, and a free place in the table if there is `room` for a file. */
    method FindRoom(d: nat, room: bool) returns (k: Option<nat>, i: Option<nat>)
      requires Valid() && IsDir(table, d)
      ensures k.Some? ==> 2 <= k.value < MAX_DIRENT == |table[d].value.slots| && table[d].value.slots[k.value].None?
      ensures k.None? ==> forall j | 0 <= j < |table[d].value.slots| :: table[d].value.slots[j].Some?
      ensures i.Some? ==> room && i.value < |table| && table[i.value].None?
      ensures i.None? ==> !room || forall j | 0 <= j < |table| :: table[j].Some?
    {
      assert FileOk(table, d);
      k := FindSlot(table[d].value.slots);
      i := None;
      if room {
        i := FindFree();
      }
    }

    /** A new file `n` with one name. */
    method AddFile(d: nat, k: nat, i: nat, n: Inode, name: string)
      requires Valid() && Linked(table, d) && 2 <= k < MAX_DIRENT == |table[d].value.slots|
        && table[d].value.slots[k].None?
      requires i < |table| && table[i].None? && Storable(name) && n.links == 1
      requires !HasName(table[d].value.slots, name) && SlotsOnce(n.slots)
      requires if n.kind.Dir? then DirOk(n, i) && Empty(n) && ParentOf(n) == d else n.slots == []
      modifies this`table
      ensures Valid() && OneMoreName(old(table), table, i, d, k) && i !in vnodes
      ensures |table| == |old(table)| && table[i].Some?
      ensures OneFile(old(table), table, i, Body(n.kind, n.slots), d, k, name)
    {
      ghost var t := table;
      assert i !in vnodes && i != d;
      BodiesWith(t, i, Some(n));
      BodiesSlot(t[i := Some(n)], d, k, Some(Entry(i, name)));
      OnceWith(Bodies(t), i, Body(n.kind, n.slots));
      OnceEntered(Bodies(t)[i := Some(Body(n.kind, n.slots))], d, k, Entry(i, name));
      table := table[i := Some(n)];
      table := table[d := Some(table[d].value.(slots := table[d].value.slots[k := Some(Entry(i, name))]))];
      FileAdded(t, vnodes, d, k, i, n, name, table);
    }

    /** `ramfs_create`: a new data file, in core. */
    method Create(d: nat, name: string, room: bool) returns (r: Result)
      requires Valid() && Linked(table, d) && Storable(name) && !HasName(table[d].value.slots, name)
      modifies this
      ensures Valid() && (r.Ok? || r.NoSpace?)
      ensures r.NoSpace? ==> table == old(table) && vnodes == old(vnodes)
      ensures r.NoSpace? <==> !room || Full(old(table)) || NoSlot(old(table)[d].value.slots)
      ensures r.Ok? ==> r.ino < |table| && old(table)[r.ino].None? && vnodes == old(vnodes)[r.ino := 1]
      ensures r.Ok? ==> exists k: nat ::
        OneMoreName(old(table), table, r.ino, d, k) && OneFile(old(table), table, r.ino, Body(Data, []), d, k, name)
    {
      var k, i := FindRoom(d, room);
      if k.None? || i.None? {
        return NoSpace;
      }
      ghost var t := table;
      AddFile(d, k.value, i.value, Inode(Data, [], 1), name);
      ghost var t1 := table;
      GetKeepsNames(t1, vnodes, i.value);
      GetKeepsBodies(t1, vnodes, i.value);
      Vget(i.value);
      MoreThenSame(t, t1, table, i.value, d, k.value);
      r := Ok(i.value);
    }

    /** A file that has been created is found under its name. */
    method CreateAndLookup(d: nat, name: string, room: bool) returns (r: Result, found: Option<nat>)
      requires Valid() && Linked(table, d) && Storable(name) && !HasName(table[d].value.slots, name)
      modifies this
      ensures Valid() && (r.Ok? ==> found == Some(r.ino))
    {
      ghost var t := table;
      r := Create(d, name, room);
      found := None;
      if r.Ok? {
        ghost var k: nat :|
          OneMoreName(t, table, r.ino, d, k) && OneFile(t, table, r.ino, Body(Data, []), d, k, name);
        StillLinked(t, table, r.ino, d, k);
        NameIsNew(t, table, r.ino, Body(Data, []), d, k, name, k);
        ghost var t1 := table;
        found := Lookup(d, name);
        if found.Some? {
          ghost var l: nat :| Has(t1[d].value.slots, l, name) && t1[d].value.slots[l].value.ino == found.value;
          NameIsNew(t, t1, r.ino, Body(Data, []), d, k, name, l);
        }
      }
    }

    /** `ramfs_mknod`: a new device file. */
    method Mknod(d: nat, name: string, kind: Kind, room: bool) returns (r: Result)
      requires Valid() && Linked(table, d) && Storable(name) && !HasName(table[d].value.slots, name)
        && (kind.Chr? || kind.Blk?)
      modifies this
      ensures Valid() && (r.Ok? || r.NoSpace?)
      ensures r.NoSpace? ==> table == old(table) && vnodes == old(vnodes)
      ensures r.NoSpace? <==> !room || Full(old(table)) || NoSlot(old(table)[d].value.slots)
      ensures r.Ok? ==> r.ino < |table| && old(table)[r.ino].None? && vnodes == old(vnodes)
      ensures r.Ok? ==> exists k: nat ::
        OneMoreName(old(table), table, r.ino, d, k) && OneFile(old(table), table, r.ino, Body(kind, []), d, k, name)
    {
      var k, i := FindRoom(d, room);
      if k.None? || i.None? {
        return NoSpace;
      }
      AddFile(d, k.value, i.value, Inode(kind, [], 1), name);
      r := Ok(i.value);
    }

    /** `ramfs_mkdir`: a new directory, with entries for itself and its parent. */
    method Mkdir(d: nat, name: string, room: bool) returns (r: Result)
      requires Valid() && Linked(table, d) && Storable(name) && !HasName(table[d].value.slots, name)
      modifies this
      ensures Valid() && (r.Ok? || r.NoSpace?)
      ensures r.NoSpace? ==> table == old(table) && vnodes == old(vnodes)
      ensures r.NoSpace? <==> !room || Full(old(table)) || NoSlot(old(table)[d].value.slots)
      ensures r.Ok? ==> r.ino < |table| && old(table)[r.ino].None? && vnodes == old(vnodes)
      ensures r.Ok? ==> exists k: nat ::
        OneMoreName(old(table), table, r.ino, d, k)
        && OneFile(old(table), table, r.ino, Body(Dir, DirSlots(r.ino, d)), d, k, name)
    {
      var k, i := FindRoom(d, room);
      if k.None? || i.None? {
        return NoSpace;
      }
      DotsOnce(i.value, d);
      AddFile(d, k.value, i.value, Inode(Dir, DirSlots(i.value, d), 1), name);
      r := Ok(i.value);
    }

    /** `ramfs_link`: one more name for a file that is in core. */
    method Link(i: nat, d: nat, name: string) returns (r: Result)
      requires Valid() && Linked(table, d) && Storable(name) && !HasName(table[d].value.slots, name)
      requires i in vnodes && !IsDir(table, i)
      modifies this
      ensures Valid() && vnodes == old(vnodes) && (r.Ok? || r.NoSpace?)
      ensures r.NoSpace? ==> table == old(table)
      ensures r.NoSpace? <==> NoSlot(old(table)[d].value.slots)
      ensures r.Ok? ==> r.ino == i && exists k: nat ::
        OneMoreName(old(table), table, i, d, k) && OneEntry(old(table), table, d, k, Some(Entry(i, name)))
    {
      var k, _ := FindRoom(d, false);
      if k.None? {
        return NoSpace;
      }
      AddName(i, d, k.value, name);
      r := Ok(i);
    }

    method AddName(i: nat, d: nat, k: nat, name: string)
      requires Valid() && Linked(table, d) && 2 <= k < MAX_DIRENT == |table[d].value.slots|
        && table[d].value.slots[k].None?
      requires Storable(name) && i in vnodes && !IsDir(table, i) && !HasName(table[d].value.slots, name)
      modifies this`table
      ensures Valid() && OneMoreName(old(table), table, i, d, k)
      ensures OneEntry(old(table), table, d, k, Some(Entry(i, name)))
    {
      ghost var t := table;
      assert i != d && i != 0;
      var e := Entry(i, name);
      BodiesSlot(t, d, k, Some(e));
      OnceEntered(Bodies(t), d, k, e);
      BodiesLinks(WithSlot(t, d, k, Some(e)), i, t[i].value.links + 1);
      table := table[d := Some(table[d].value.(slots := table[d].value.slots[k := Some(e)]))];
      table := table[i := Some(table[i].value.(links := table[i].value.links + 1))];
      MoreNamed(t, table, d, k, e);
      EntryChanges(t, table, d, k, Some(e), i, 1);
      NameAdded(t, vnodes, d, k, e, table);
    }

    // -------------------------------------------------------------------
    // Names taken away
    // -------------------------------------------------------------------

    /** Take a name away from a file in core. */
    method RemoveName(d: nat, k: nat, i: nat)
      requires Valid() && IsName(table, i, d, k) && i in vnodes && i != d && (IsDir(table, i) ==> Empty(table[i].value))
      modifies this`table
      ensures Valid() && OneMoreName(table, old(table), i, d, k) && OneEntry(old(table), table, d, k, None)
    {
      ghost var t := table;
      NameFits(t, i, d, k);
      BodiesSlot(t, d, k, None);
      OnceLeft(Bodies(t), d, k);
      BodiesLinks(WithSlot(t, d, k, None), i, t[i].value.links - 1);
      table := table[d := Some(table[d].value.(slots := table[d].value.slots[k := None]))];
      table := table[i := Some(table[i].value.(links := table[i].value.links - 1))];
      NameRemoved(t, vnodes, d, k, i, table);
    }

    /** Take the name of the file just looked up away, and let the file go. */
    method RemoveAndPut(d: nat, k: nat, i: nat)
      requires Valid() && IsName(table, i, d, k) && i in vnodes && i != d && (IsDir(table, i) ==> Empty(table[i].value))
      modifies this
      ensures Valid() && OneMoreName(table, old(table), i, d, k)
      ensures vnodes == PutVnodes(old(vnodes), i)
      ensures table[i].None? <==> old(vnodes)[i] == 1 && |Names(old(table), i)| == 1
      ensures EntryGone(old(table), table, i, d, k)
    {
      ghost var t := table;
      RemoveName(d, k, i);
      NameGone(t, table, PutTable(table, vnodes, i), vnodes, i, d, k);
      PutKeepsBodies(table, vnodes, i);
      Vput(i);
    }

    /** `ramfs_unlink`: a name of a file that is no directory goes, and the file too if nothing else holds it. */
    method Unlink(d: nat, name: string, ghost k0: nat)
      requires Valid() && Linked(table, d) && Storable(name) && Has(table[d].value.slots, k0, name)
      requires forall k: nat | Has(table[d].value.slots, k, name) :: !IsDir(table, table[d].value.slots[k].value.ino)
      modifies this
      ensures Valid() && vnodes == old(vnodes)
      ensures exists k: nat :: Has(old(table)[d].value.slots, k, name) && Removed(old(table), old(vnodes), table, d, k)
      ensures IsDir(table, d) && !HasName(table[d].value.slots, name)
    {
      ghost var t, v := table, vnodes;
      var at := FindName(table[d].value.slots, name);
      var k := at.value;
      var i := table[d].value.slots[k].value.ino;
      EntryIsName(t, v, d, k);
      GetKeepsNames(t, v, i);
      GetThenPut(t, v, i);
      Vget(i);
      RemoveAndPut(d, k, i);
      GotAndRemoved(t, v, table, d, k, i);
      NameIsGone(t, table, d, k, v, name);
    }

    /** The check of `ramfs_rmdir` that a directory has no entries but the special ones. */
    static method IsEmpty(slots: seq<Option<Entry>>) returns (r: bool)
      ensures r <==> forall k | 0 <= k < |slots| && slots[k].Some? :: Dots(slots[k].value.name)
    {
      var k := 0;
      while k < |slots|
        invariant 0 <= k <= |slots| && forall j | 0 <= j < k && slots[j].Some? :: Dots(slots[j].value.name)
      {
        if slots[k].Some? && !Dots(slots[k].value.name) {
          return false;
        }
        k := k + 1;
      }
      r := true;
    }

    /** `ramfs_rmdir`: an empty directory loses its name, and goes too unless something still refers to it. */
    method Rmdir(d: nat, name: string) returns (r: Result)
      requires Valid() && Linked(table, d) && Storable(name)
      modifies this
      ensures Valid() && vnodes == old(vnodes)
      ensures r.NoEntry? <==> !HasName(old(table)[d].value.slots, name)
      ensures !r.Ok? ==> table == old(table)
      ensures r.Ok? ==> IsDir(table, d) && !HasName(table[d].value.slots, name)
      ensures !r.NoEntry? ==> exists k: nat ::
        Has(old(table)[d].value.slots, k, name)
        && RmdirOutcome(old(table), old(vnodes), table, d, k, r)
    {
      var at := FindName(table[d].value.slots, name);
      if at.None? {
        return NoEntry;
      }
      ghost var t, v := table, vnodes;
      EntryIsName(t, v, d, at.value);
      r := RmdirAt(d, at.value);
      if r.Ok? {
        NameIsGone(t, table, d, at.value, v, name);
      }
    }

    /** The rest of `ramfs_rmdir`, for the entry found. */
    method RmdirAt(d: nat, k: nat) returns (r: Result)
      requires Valid() && IsDir(table, d) && k < |table[d].value.slots| && table[d].value.slots[k].Some?
      requires !Dots(table[d].value.slots[k].value.name)
      modifies this
      ensures Valid() && vnodes == old(vnodes) && !r.NoEntry? && (!r.Ok? ==> table == old(table))
      ensures RmdirOutcome(old(table), old(vnodes), table, d, k, r)
    {
      ghost var t, v := table, vnodes;
      var i := table[d].value.slots[k].value.ino;
      EntryIsName(t, v, d, k);
      GetKeepsNames(t, v, i);
      GetThenPut(t, v, i);
      Vget(i);
      if !table[i].value.kind.Dir? {
        PutBack(i, t, v);
        return NotDir;
      }
      assert FileOk(table, i);
      var empty := IsEmpty(table[i].value.slots);
      if !empty {
        PutBack(i, t, v);
        return NotEmpty;
      }
      RemoveAndPut(d, k, i);
      GotAndRemoved(t, v, table, d, k, i);
      r := Ok(i);
    }

    /** A file that has been looked up is let go: everything is as before. */
    method PutBack(i: nat, ghost t: Table, ghost v: Vnodes)
      requires Valid() && Inv(t, v) && 0 < i < |t| && t[i].Some?
      requires table == GotTable(t, v, i) && vnodes == GotVnodes(v, i)
      modifies this
      ensures Valid() && table == t && vnodes == v
    {
      GetThenPut(t, v, i);
      Vput(i);
    }
  }

  /** With a name of `i` gone and `i` let go, the file has gone exactly when nothing else held it. */
  lemma NameGone(t: Table, t1: Table, t2: Table, v: Vnodes, i: nat, d: nat, k: nat)
    requires Inv(t1, v) && i in v && i != 0 && OneMoreName(t1, t, i, d, k) && t2 == PutTable(t1, v, i)
    ensures OneMoreName(t2, t, i, d, k) && i < |t2| && (t2[i].None? <==> v[i] == 1 && |Names(t, i)| == 1)
  {
    PutKeepsNames(t1, v, i);
    FreedWhenUnused(t1, v, i);
    NoneLeft(t1, t, i, d, k);
    FewerNames(t1, t2, t, i, d, k);
  }

  lemma GotAndRemoved(t: Table, v: Vnodes, t2: Table, d: nat, k: nat, i: nat)
    requires i < |t| && t[i].Some? && IsName(t, i, d, k) && OneMoreName(t2, GotTable(t, v, i), i, d, k) && i < |t2|
    requires InCore(t, v) && (t2[i].None? <==> GotVnodes(v, i)[i] == 1 && |Names(GotTable(t, v, i), i)| == 1)
    requires EntryGone(GotTable(t, v, i), t2, i, d, k)
    ensures Removed(t, v, t2, d, k)
  {
    var t1 := GotTable(t, v, i);
    GetKeepsNames(t, v, i);
    GetKeepsBodies(t, v, i);
    SameThenFewer(t, t1, t2, i, d, k);
    SameNamesSets(t, t1, i);
  }

  lemma NoneLeft(t1: Table, t: Table, i: nat, d: nat, k: nat)
    requires OneMoreName(t1, t, i, d, k)
    ensures Names(t1, i) == {} <==> |Names(t, i)| == 1
  {
    MoreNames(t1, t, i, d, k, i);
    if |Names(t1, i)| == 0 {
      assert Names(t1, i) == {};
    }
  }

  lemma MoreThenSame(t: Table, t1: Table, t2: Table, i: nat, d: nat, k: nat)
    requires OneMoreName(t, t1, i, d, k) && SameNames(t1, t2)
    ensures OneMoreName(t, t2, i, d, k)
  {
  }

  lemma StillLinked(t: Table, t': Table, i: nat, d: nat, k: nat)
    requires Linked(t, d) && OneMoreName(t, t', i, d, k)
    ensures IsDir(t', d) ==> Linked(t', d)
  {
    MoreNames(t, t', i, d, k, d);
  }

  lemma FewerNames(t1: Table, t2: Table, t: Table, i: nat, d: nat, k: nat)
    requires OneMoreName(t1, t, i, d, k) && SameNames(t1, t2)
    ensures OneMoreName(t2, t, i, d, k)
  {
  }

  lemma SameThenFewer(t: Table, t1: Table, t2: Table, i: nat, d: nat, k: nat)
    requires SameNames(t, t1) && OneMoreName(t2, t1, i, d, k)
    ensures OneMoreName(t2, t, i, d, k)
  {
  }

  /** No name is there twice. */
  ghost predicate SlotsOnce(slots: seq<Option<Entry>>) {
    forall k, l | 0 <= k < l < |slots| && slots[k].Some? && slots[l].Some? :: slots[k].value.name != slots[l].value.name
  }

  ghost predicate BodyOnce(b: Option<Body>) { b.Some? ==> SlotsOnce(b.value.slots) }

  ghost predicate NamesOnce(b: seq<Option<Body>>) {
    forall i {:trigger BodyOnce(b[i])} | 0 <= i < |b| :: BodyOnce(b[i])
  }

  lemma OnceWith(b: seq<Option<Body>>, i: nat, n: Body)
    requires NamesOnce(b) && i < |b| && SlotsOnce(n.slots)
    ensures NamesOnce(b[i := Some(n)])
  {
    var b' := b[i := Some(n)];
    forall j | 0 <= j < |b'|
      ensures BodyOnce(b'[j])
    {
      assert BodyOnce(b[j]);
    }
  }

  lemma OnceWithout(b: seq<Option<Body>>, i: nat)
    requires NamesOnce(b) && i < |b|
    ensures NamesOnce(b[i := None])
  {
    var b' := b[i := None];
    forall j | 0 <= j < |b'|
      ensures BodyOnce(b'[j])
    {
      assert BodyOnce(b[j]);
    }
  }

  lemma OnceEntered(b: seq<Option<Body>>, d: nat, k: nat, e: Entry)
    requires NamesOnce(b) && d < |b| && b[d].Some? && k < |b[d].value.slots| && !HasName(b[d].value.slots, e.name)
    ensures NamesOnce(Entered(b, d, k, Some(e)))
  {
    assert BodyOnce(b[d]);
    SlotsOnceMore(b[d].value.slots, k, e);
    OnceWith(b, d, b[d].value.(slots := b[d].value.slots[k := Some(e)]));
  }

  lemma SlotsOnceMore(slots: seq<Option<Entry>>, k: nat, e: Entry)
    requires SlotsOnce(slots) && k < |slots| && !HasName(slots, e.name)
    ensures SlotsOnce(slots[k := Some(e)])
  {
    var slots' := slots[k := Some(e)];
    forall i, j | 0 <= i < j < |slots| && slots'[i].Some? && slots'[j].Some?
      ensures slots'[i].value.name != slots'[j].value.name
    {
      assert !Has(slots, i, e.name) && !Has(slots, j, e.name);
    }
  }

  lemma OnceLeft(b: seq<Option<Body>>, d: nat, k: nat)
    requires NamesOnce(b) && d < |b| && b[d].Some? && k < |b[d].value.slots|
    ensures NamesOnce(Entered(b, d, k, None))
  {
    assert BodyOnce(b[d]);
    OnceWith(b, d, b[d].value.(slots := b[d].value.slots[k := None]));
  }

  lemma DotsOnce(i: nat, parent: nat)
    ensures SlotsOnce(DirSlots(i, parent))
  {
    assert "." != "..";
  }

  lemma OnlyDots(t: Table)
    requires |t| > 0 && t[0].Some? && t[0].value.slots == DirSlots(0, 0) && forall i | 0 < i < |t| :: t[i].None?
    ensures NamesOnce(Bodies(t))
  {
    DotsOnce(0, 0);
  }

  /** With its one entry gone, the name is there no more. */
  lemma NameIsGone(t: Table, t': Table, d: nat, k: nat, v: Vnodes, name: string)
    requires NamesOnce(Bodies(t)) && Removed(t, v, t', d, k) && t[d].value.slots[k].value.ino != d
    requires Has(t[d].value.slots, k, name)
    ensures IsDir(t', d) && !HasName(t'[d].value.slots, name)
  {
    assert BodyOnce(Bodies(t)[d]) && Bodies(t')[d] == Entered(Bodies(t), d, k, None)[d];
    assert BodyOf(t'[d]) == Bodies(t')[d];
  }

  /** A name that was new leads to its one entry. */
  lemma NameIsNew(t: Table, t': Table, i: nat, n: Body, d: nat, k: nat, name: string, l: nat)
    requires OneFile(t, t', i, n, d, k, name) && !HasName(t[d].value.slots, name)
    ensures IsDir(t', d) && Has(t'[d].value.slots, k, name) && t'[d].value.slots[k].value.ino == i
    ensures Has(t'[d].value.slots, l, name) ==> l == k
  {
    var e := Some(Entry(i, name));
    assert Bodies(t')[d] == Entered(Bodies(t)[i := Some(n)], d, k, e)[d] && BodyOf(t'[d]) == Bodies(t')[d];
    assert t'[d].value.slots == t[d].value.slots[k := e] && !Has(t[d].value.slots, l, name);
  }

  /** The entries of a new directory. */
  function DirSlots(i: nat, parent: nat): (slots: seq<Option<Entry>>)
    ensures |slots| == MAX_DIRENT
  {
    [Some(Entry(i, ".")), Some(Entry(parent, ".."))] + seq(MAX_DIRENT - 2, _ => None)
  }

  /** Slot `k` of `d` has become `e`, and no other entry, type or file has changed. */
  ghost predicate OneEntry(t: Table, t': Table, d: nat, k: nat, e: Option<Entry>) {
    IsDir(t, d) && k < |t[d].value.slots| && Bodies(t') == Entered(Bodies(t), d, k, e)
  }

  /** File `i` is new and as given, slot `k` of `d` names it, and no other entry, type or file has changed. */
  ghost predicate OneFile(t: Table, t': Table, i: nat, n: Body, d: nat, k: nat, name: string) {
    && IsDir(t, d) && k < |t[d].value.slots| && i < |t| && i != d
    && Bodies(t') == Entered(Bodies(t)[i := Some(n)], d, k, Some(Entry(i, name)))
  }

  /** Slot `k` of `d` is empty, file `i` may have gone, and no other entry, type or file has changed. */
  ghost predicate EntryGone(t: Table, t': Table, i: nat, d: nat, k: nat) {
    && IsDir(t, d) && k < |t[d].value.slots| && i < |t| == |t'|
    && var b := Entered(Bodies(t), d, k, None);
       Bodies(t') == if t'[i].None? then b[i := None] else b
  }

  /** The name in slot `k` of `d` has gone, and with it the file if it had no other name and was not in core. */
  ghost predicate Removed(t: Table, v: Vnodes, t': Table, d: nat, k: nat) {
    && IsDir(t, d) && k < |t[d].value.slots| && t[d].value.slots[k].Some?
    && var i := t[d].value.slots[k].value.ino;
       && OneMoreName(t', t, i, d, k) && EntryGone(t, t', i, d, k)
       && (t'[i].None? <==> i !in v && |Names(t, i)| == 1)
  }

  ghost predicate RmdirOutcome(t: Table, v: Vnodes, t': Table, d: nat, k: nat, r: Result) {
    && IsDir(t, d) && k < |t[d].value.slots| && t[d].value.slots[k].Some?
    && var i := t[d].value.slots[k].value.ino;
       && (r.NotDir? <==> !IsDir(t, i)) && (r.NotEmpty? <==> IsDir(t, i) && !Empty(t[i].value))
       && (r.Ok? <==> IsDir(t, i) && Empty(t[i].value)) && (r.Ok? ==> Removed(t, v, t', d, k))
  }

  lemma NoNamesAtFirst(t: Table, root: Inode)
    requires |t| == MAX_FILES && t[0] == Some(root) && (forall i | 0 < i < |t| :: t[i].None?)
    requires root.kind.Dir? && DirOk(root, 0) && Empty(root) && ParentOf(root) == 0 && root.links == 2
    ensures Inv(t, map[0 := 1])
  {
    assert forall i: nat, d: nat, k: nat :: !IsName(t, i, d, k);
    assert Names(t, 0) == {};
  }
}
