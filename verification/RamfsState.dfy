/** The table of files of the memory file system, and the names that lead to them. */
module RamfsState {
  import opened Common

  const MAX_FILES := 64
  const MAX_DIRENT := 128

  datatype Kind = Data | Dir | Chr | Blk

  datatype Entry = Entry(ino: nat, name: string)

  /** A file: its type, its directory slots if it is a directory, and its link count. */
  datatype Inode = Inode(kind: Kind, slots: seq<Option<Entry>>, links: int)

  type Table = seq<Option<Inode>>

  /** In-core files, by number, with their reference counts. */
  type Vnodes = map<nat, int>

  /** An element of `vnode_inuse_list`. */
  datatype Vnode = Vnode(vno: nat, refs: int)

  /** The list holds every in-core file once, with its reference count. */
  ghost predicate Listed(list: seq<Vnode>, v: Vnodes) {
    && (forall j, k | 0 <= j < k < |list| :: list[j].vno != list[k].vno)
    && (forall j | 0 <= j < |list| :: list[j].vno in v && v[list[j].vno] == list[j].refs)
    && forall i | i in v :: exists j | 0 <= j < |list| :: list[j].vno == i
  }

  ghost function Lists(v: Vnodes): iset<seq<Vnode>> { iset list: seq<Vnode> | Listed(list, v) }

  predicate Dots(name: string) { name == "." || name == ".." }

  ghost predicate IsDir(t: Table, d: nat) { d < |t| && t[d].Some? && t[d].value.kind.Dir? }

  /** Slot `k` of directory `d` names file `i`. */
  ghost predicate IsName(t: Table, i: nat, d: nat, k: nat) {
    && IsDir(t, d) && k < |t[d].value.slots| && t[d].value.slots[k].Some?
    && t[d].value.slots[k].value.ino == i && !Dots(t[d].value.slots[k].value.name)
  }

  ghost function Names(t: Table, i: nat): set<(nat, nat)> {
    set d: nat, k: nat | d < MAX_FILES && k < MAX_DIRENT && IsName(t, i, d, k) :: (d, k)
  }

  /** A directory has entries for itself and for its parent, and no other entries with those names. */
  ghost predicate DirOk(n: Inode, d: nat) {
    && |n.slots| == MAX_DIRENT && n.slots[0] == Some(Entry(d, ".")) && n.slots[1].Some? && n.slots[1].value.name == ".."
    && forall k | 2 <= k < MAX_DIRENT && n.slots[k].Some? :: !Dots(n.slots[k].value.name) && n.slots[k].value.name != ""
  }

  ghost function ParentOf(n: Inode): nat
    requires |n.slots| == MAX_DIRENT && n.slots[1].Some?
  {
    n.slots[1].value.ino
  }

  ghost predicate Empty(n: Inode) { forall k | 2 <= k < |n.slots| :: n.slots[k].None? }

  ghost function One(b: bool): nat { if b then 1 else 0 }

  /** The link count: names, plus one while in core, plus one for the root. */
  ghost predicate CountOk(t: Table, v: Vnodes, i: nat)
    requires i < |t| && t[i].Some?
  {
    t[i].value.links == |Names(t, i)| + One(i in v) + One(i == 0) && t[i].value.links > 0
  }

  /** Every name leads to a file, and every directory is where its parent entry says, and empty if it has no name. */
  ghost predicate FileOk(t: Table, i: nat)
    requires i < |t| && t[i].Some?
  {
    if t[i].value.kind.Dir? then
      && DirOk(t[i].value, i)
      && (forall d: nat, k: nat | IsName(t, i, d, k) :: d == ParentOf(t[i].value))
      && (i != 0 && Names(t, i) == {} ==> Empty(t[i].value))
      && (i == 0 <==> ParentOf(t[i].value) == i)
    else t[i].value.slots == []
  }

  ghost predicate NoDangling(t: Table) {
    forall i: nat, d: nat, k: nat | IsName(t, i, d, k) :: i < |t| && t[i].Some? && i != 0
  }

  ghost predicate AllFiles(t: Table) { forall i {:trigger FileOk(t, i)} | 0 <= i < |t| && t[i].Some? :: FileOk(t, i) }

  ghost predicate AllCounts(t: Table, v: Vnodes) {
    forall i {:trigger CountOk(t, v, i)} | 0 <= i < |t| && t[i].Some? :: CountOk(t, v, i)
  }

  ghost predicate InCore(t: Table, v: Vnodes) { 0 in v && forall i | i in v :: i < |t| && t[i].Some? && v[i] >= 1 }

  ghost predicate Inv(t: Table, v: Vnodes) {
    |t| == MAX_FILES && IsDir(t, 0) && NoDangling(t) && AllFiles(t) && AllCounts(t, v) && InCore(t, v)
  }

  /** A directory that is the root or has a name. */
  ghost predicate Linked(t: Table, d: nat) { IsDir(t, d) && (d == 0 || Names(t, d) != {}) }

  // ---------------------------------------------------------------------
  // Changes of the table
  // ---------------------------------------------------------------------

  /** The same names lead to the same files. */
  ghost predicate SameNames(t: Table, t': Table) {
    forall i: nat, d: nat, k: nat :: IsName(t', i, d, k) <==> IsName(t, i, d, k)
  }

  lemma SameNamesSets(t: Table, t': Table, i: nat)
    requires SameNames(t, t')
    ensures Names(t', i) == Names(t, i)
  {
  }

  ghost function WithLinks(t: Table, i: nat, links: int): Table
    requires i < |t| && t[i].Some?
  {
    t[i := Some(t[i].value.(links := links))]
  }

  ghost function WithSlot(t: Table, d: nat, k: nat, e: Option<Entry>): Table
    requires IsDir(t, d) && k < |t[d].value.slots|
  {
    t[d := Some(t[d].value.(slots := t[d].value.slots[k := e]))]
  }

  /** A file without its link count. */
  datatype Body = Body(kind: Kind, slots: seq<Option<Entry>>)

  function BodyOf(n: Option<Inode>): Option<Body> { if n.None? then None else Some(Body(n.value.kind, n.value.slots)) }

  /** Which files there are, of which type, and every entry of every directory. */
  ghost function Bodies(t: Table): (b: seq<Option<Body>>)
    ensures |b| == |t|
  {
    seq(|t|, j requires 0 <= j < |t| => BodyOf(t[j]))
  }

  /** One slot of one directory has changed. */
  ghost function Entered(b: seq<Option<Body>>, d: nat, k: nat, e: Option<Entry>): seq<Option<Body>>
    requires d < |b| && b[d].Some? && k < |b[d].value.slots|
  {
    b[d := Some(b[d].value.(slots := b[d].value.slots[k := e]))]
  }

  lemma BodiesWith(t: Table, i: nat, n: Option<Inode>)
    requires i < |t|
    ensures Bodies(t[i := n]) == Bodies(t)[i := BodyOf(n)]
  {
  }

  lemma BodiesLinks(t: Table, i: nat, links: int)
    requires i < |t| && t[i].Some?
    ensures Bodies(WithLinks(t, i, links)) == Bodies(t)
  {
    BodiesWith(t, i, WithLinks(t, i, links)[i]);
    assert Bodies(t)[i := BodyOf(t[i])] == Bodies(t);
  }

  lemma BodiesSlot(t: Table, d: nat, k: nat, e: Option<Entry>)
    requires IsDir(t, d) && k < |t[d].value.slots|
    ensures Bodies(WithSlot(t, d, k, e)) == Entered(Bodies(t), d, k, e)
  {
    BodiesWith(t, d, WithSlot(t, d, k, e)[d]);
  }

  lemma LinksKeepNames(t: Table, i: nat, links: int)
    requires i < |t| && t[i].Some?
    ensures SameNames(t, WithLinks(t, i, links))
  {
  }

  /** One name more, for file `i` in slot `k` of `d`. */
  ghost predicate OneMoreName(t: Table, t': Table, i: nat, d: nat, k: nat) {
    && d < MAX_FILES && k < MAX_DIRENT && !(exists j :: IsName(t, j, d, k))
    && forall j: nat, a: nat, b: nat :: IsName(t', j, a, b) <==> IsName(t, j, a, b) || (j == i && a == d && b == k)
  }

  lemma MoreNames(t: Table, t': Table, i: nat, d: nat, k: nat, j: nat)
    requires OneMoreName(t, t', i, d, k)
    ensures Names(t', j) == Names(t, j) + (if j == i then {(d, k)} else {}) && (d, k) !in Names(t, j)
    ensures |Names(t', j)| == |Names(t, j)| + One(j == i)
  {
    assert Names(t', j) == Names(t, j) + if j == i then {(d, k)} else {};
  }

  /** A new entry is a name for its file, and for no other. */
  lemma SlotNames(t: Table, d: nat, k: nat, e: Entry)
    requires |t| == MAX_FILES && IsDir(t, d) && |t[d].value.slots| == MAX_DIRENT && k < MAX_DIRENT
    requires t[d].value.slots[k].None? && !Dots(e.name)
    ensures OneMoreName(t, WithSlot(t, d, k, Some(e)), e.ino, d, k)
  {
  }

  /** An entry taken away. */
  lemma NoSlotNames(t: Table, d: nat, k: nat)
    requires |t| == MAX_FILES && IsDir(t, d) && |t[d].value.slots| == MAX_DIRENT && k < MAX_DIRENT
    requires t[d].value.slots[k].Some? && !Dots(t[d].value.slots[k].value.name)
    ensures OneMoreName(WithSlot(t, d, k, None), t, t[d].value.slots[k].value.ino, d, k)
  {
  }

  /** A file without names in it comes or goes. */
  lemma FileNames(t: Table, i: nat, n: Option<Inode>)
    requires i < |t| && (t[i].Some? ==> t[i].value.kind.Dir? ==> DirOk(t[i].value, i) && Empty(t[i].value))
    requires n.Some? ==> n.value.kind.Dir? ==> DirOk(n.value, i) && Empty(n.value)
    ensures SameNames(t, t[i := n])
  {
    var t' := t[i := n];
    forall j: nat, d: nat, k: nat
      ensures IsName(t', j, d, k) <==> IsName(t, j, d, k)
    {
    }
  }
}
