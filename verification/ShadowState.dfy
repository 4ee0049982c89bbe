/** Memory objects, their resident pages, and what a lookup through a shadow chain finds. */
module ShadowState {
  import opened Common
  import opened Lists

  datatype Obj = Obj(refcount: int, nrespages: int, respages: seq<nat>, shadowed: Option<nat>)

  /** A resident page: the object and page number that identify it, and where its contents are. */
  datatype Frame = Frame(obj: nat, pagenum: nat, addr: nat)

  type Objs = map<nat, Obj>
  type Frames = map<nat, Frame>
  /** The frame of each resident page. */
  type Pages = map<(nat, nat), nat>

  const BUCKETS := 17

  function Bucket(o: nat, pagenum: nat): (b: nat)
    ensures b < BUCKETS
  {
    (o + pagenum) % 0x1_0000_0000 % BUCKETS
  }

  // ---------------------------------------------------------------------
  // Well-formed states
  // ---------------------------------------------------------------------

  ghost function Key(fr: Frame): (nat, nat) { (fr.obj, fr.pagenum) }

  /** `pages` is the inverse of `frames`: no two frames hold the same page. */
  ghost predicate PagesOk(objs: Objs, frames: Frames, pages: Pages) {
    && (forall f | f in frames :: frames[f].obj in objs && Key(frames[f]) in pages && pages[Key(frames[f])] == f)
    && (forall k | k in pages :: pages[k] in frames && Key(frames[pages[k]]) == k)
  }

  /** The list of an object names its frames, each once, and counts them. */
  ghost predicate ListOk(ob: Obj, o: nat, frames: Frames) {
    && Distinct(ob.respages) && ob.nrespages == |ob.respages|
    && forall f :: f in ob.respages <==> f in frames && frames[f].obj == o
  }

  ghost predicate ListsOk(objs: Objs, frames: Frames) { forall o | o in objs :: ListOk(objs[o], o, frames) }

  /** A hash chain names the frames that belong to it, each once. */
  ghost predicate ChainOk(chain: seq<nat>, b: nat, frames: Frames) {
    Distinct(chain) && forall f :: f in chain <==> f in frames && Bucket(frames[f].obj, frames[f].pagenum) == b
  }

  ghost predicate HashOk(frames: Frames, hash: seq<seq<nat>>) {
    |hash| == BUCKETS && forall b | 0 <= b < BUCKETS :: ChainOk(hash[b], b, frames)
  }

  ghost function Kids(objs: Objs, o: nat): set<nat> { set x | x in objs && objs[x].shadowed == Some(o) }

  function Tops(vmas: seq<nat>, o: nat): set<nat> { set v: nat | v < |vmas| && vmas[v] == o }

  /** References to an object: from the objects that shadow it, and from memory areas. */
  ghost function RefsTo(objs: Objs, vmas: seq<nat>, o: nat): nat { |Kids(objs, o)| + |Tops(vmas, o)| }

  ghost function Held(temp: Option<nat>, o: nat): nat { if temp == Some(o) then 1 else 0 }

  /** The count of an object is made up of its pages, the references to it, and the daemon's own. */
  ghost predicate CountOk(objs: Objs, vmas: seq<nat>, temp: Option<nat>, o: nat)
    requires o in objs
  {
    objs[o].refcount == objs[o].nrespages + RefsTo(objs, vmas, o) + Held(temp, o)
  }

  ghost predicate CountsOk(objs: Objs, vmas: seq<nat>, temp: Option<nat>) {
    forall o | o in objs :: CountOk(objs, vmas, temp, o)
  }

  /** Shadow chains end: each object lies deeper than the one that shadows it. */
  ghost predicate ChainsOk(objs: Objs, depth: map<nat, nat>) {
    && objs.Keys <= depth.Keys
    && forall o | o in objs && objs[o].shadowed.Some? ::
      objs[o].shadowed.value in objs
      && depth[objs[o].shadowed.value] < depth[o]
  }

  // ---------------------------------------------------------------------
  // Lookup
  // ---------------------------------------------------------------------

  /** What a process sees of a page: the contents of a resident page, or whatever the bottom object holds. */
  datatype Seen = Resident(addr: nat) | FromBottom(o: nat)

  /** The first object down the chain that has the page. */
  ghost function Lookup(objs: Objs, frames: Frames, pages: Pages, depth: map<nat, nat>, o: nat, p: nat): Seen
    requires PagesOk(objs, frames, pages) && ChainsOk(objs, depth) && o in objs
    decreases depth[o]
  {
    if (o, p) in pages then Resident(frames[pages[(o, p)]].addr)
    else if objs[o].shadowed.None? then FromBottom(o)
    else Lookup(objs, frames, pages, depth, objs[o].shadowed.value, p)
  }
}
