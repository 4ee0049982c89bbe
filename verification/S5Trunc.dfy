/** What truncation takes away from a file. */
module S5Trunc {
  import opened Common
  import opened S5Words
  import opened S5Free
  import opened S5Files
  import opened S5Bytes

  type Places = iset<Place>

  /** Block numbers and bytes at the given places are zero, the others as before. */
  ghost predicate Cleared(gone: Places, disk: seq<Block>, inodes: seq<Inode>, disk': seq<Block>, inodes': seq<Inode>) {
    && |disk'| == |disk| && SameMeta(inodes, inodes')
    && (forall i, p | 0 <= i < |inodes| && 0 <= p <= FILE_BLOCKS ::
          Ref(disk', inodes'[i], p) == if Place(i, p) in gone then 0 else Ref(disk, inodes[i], p))
    && forall i, k, o | 0 <= i < |inodes| && 0 <= k < FILE_BLOCKS && 0 <= o < BLOCK_SIZE ::
         ByteAt(disk', inodes'[i], k, o) == if Place(i, k) in gone then 0 else ByteAt(disk, inodes[i], k, o)
  }

  ghost function Left(gone: Places, own: map<u32, Place>): map<u32, Place> {
    map b | b in own && own[b] !in gone :: own[b]
  }

  lemma LeftTwice(gone: Places, more: Places, own: map<u32, Place>)
    ensures Left(more, Left(gone, own)) == Left(gone + more, own)
  {
  }

  lemma ClearedTwice(gone: Places, more: Places, disk: seq<Block>, inodes: seq<Inode>, disk1: seq<Block>,
    inodes1: seq<Inode>,
                     disk2: seq<Block>, inodes2: seq<Inode>)
    requires Cleared(gone, disk, inodes, disk1, inodes1) && Cleared(more, disk1, inodes1, disk2, inodes2)
    ensures Cleared(gone + more, disk, inodes, disk2, inodes2)
  {
    forall i, p | 0 <= i < |inodes| && 0 <= p <= FILE_BLOCKS
      ensures Ref(disk2, inodes2[i], p) == if Place(i, p) in gone + more then 0 else Ref(disk, inodes[i], p)
    {
      assert Ref(disk1, inodes1[i], p) == if Place(i, p) in gone then 0 else Ref(disk, inodes[i], p);
    }
    forall i, k, o | 0 <= i < |inodes| && 0 <= k < FILE_BLOCKS && 0 <= o < BLOCK_SIZE
      ensures ByteAt(disk2, inodes2[i], k, o) == if Place(i, k) in gone + more then 0 else ByteAt(disk, inodes[i], k, o)
    {
      assert ByteAt(disk1, inodes1[i], k, o) == if Place(i, k) in gone then 0 else ByteAt(disk, inodes[i], k, o);
    }
  }

  /** Places that are empty already may be counted in or not. */
  lemma ClearedSame(gone: Places, gone': Places, disk: seq<Block>, inodes: seq<Inode>, disk': seq<Block>,
    inodes': seq<Inode>)
    requires Cleared(gone, disk, inodes, disk', inodes')
    requires forall i, p | 0 <= i < |inodes| && 0 <= p <= FILE_BLOCKS && Ref(disk, inodes[i], p) != 0 ::
      Place(i, p) in gone <==> Place(i, p) in gone'
    ensures Cleared(gone', disk, inodes, disk', inodes')
  {
    forall i, k, o | 0 <= i < |inodes| && 0 <= k < FILE_BLOCKS && 0 <= o < BLOCK_SIZE
      ensures ByteAt(disk', inodes'[i], k, o) == if Place(i, k) in gone' then 0 else ByteAt(disk, inodes[i], k, o)
    {
      assert Ref(disk, inodes[i], k) == Slot(disk, inodes[i], k);
    }
  }

  lemma LeftSame(gone: Places, gone': Places, disk: seq<Block>, inodes: seq<Inode>, own: map<u32, Place>)
    requires Owned(disk, inodes, own)
    requires forall i, p | 0 <= i < |inodes| && 0 <= p <= FILE_BLOCKS && Ref(disk, inodes[i], p) != 0 ::
      Place(i, p) in gone <==> Place(i, p) in gone'
    ensures Left(gone, own) == Left(gone', own)
  {
    forall b | b in own
      ensures own[b] in gone <==> own[b] in gone'
    {
      assert Keeps(disk, inodes, own[b], b);
    }
  }

  /** Clearing places leaves the other blocks owned as before. */
  lemma ClearedOwned(gone: Places, disk: seq<Block>, inodes: seq<Inode>, own: map<u32, Place>, disk': seq<Block>,
    inodes': seq<Inode>)
    requires Owned(disk, inodes, own) && Cleared(gone, disk, inodes, disk', inodes')
    ensures Owned(disk', inodes', Left(gone, own))
  {
    var own' := Left(gone, own);
    forall i, p | 0 <= i < |inodes| && 0 <= p <= FILE_BLOCKS
      ensures Claims(disk', inodes', own', i, p)
    {
      assert Claims(disk, inodes, own, i, p);
    }
    forall b | b in own'
      ensures Keeps(disk', inodes', own'[b], b)
    {
      assert Keeps(disk, inodes, own[b], b);
    }
  }

  /** References decide which bytes are seen, as long as the data blocks that are left are not touched. */
  lemma ClearedBytes(gone: Places, disk: seq<Block>, inodes: seq<Inode>, own: map<u32, Place>, disk': seq<Block>,
    inodes': seq<Inode>)
    requires Owned(disk, inodes, own) && |disk'| == |disk| && SameMeta(inodes, inodes')
    requires forall i, p | 0 <= i < |inodes| && 0 <= p <= FILE_BLOCKS ::
      Ref(disk', inodes'[i], p) == if Place(i, p) in gone then 0 else Ref(disk, inodes[i], p)
    requires forall b | b in own && own[b] !in gone && own[b].slot != FILE_BLOCKS :: disk'[b] == disk[b]
    ensures Cleared(gone, disk, inodes, disk', inodes')
  {
    forall i, k, o | 0 <= i < |inodes| && 0 <= k < FILE_BLOCKS && 0 <= o < BLOCK_SIZE
      ensures ByteAt(disk', inodes'[i], k, o) == if Place(i, k) in gone then 0 else ByteAt(disk, inodes[i], k, o)
    {
      assert Claims(disk, inodes, own, i, k);
      assert Ref(disk', inodes'[i], k) == if Place(i, k) in gone then 0 else Ref(disk, inodes[i], k);
    }
  }

  /** A data block given back, and then its slot emptied. */
  lemma SlotReleased(disk: seq<Block>, inodes: seq<Inode>, own: map<u32, Place>, disk1: seq<Block>,
                     disk2: seq<Block>, inodes2: seq<Inode>, at: Place, b: u32)
    requires Owned(disk, inodes, own) && at.ino < |inodes| && at.slot < FILE_BLOCKS && b in own && own[b] == at
    requires |disk1| == |disk| && forall c | 0 <= c < |disk| && c != b :: disk1[c] == disk[c]
    requires SameRefs(disk, disk1, inodes) && OnePlace(disk1, inodes, disk2, inodes2, at, 0)
      && SameMeta(inodes, inodes2)
    requires forall c | c in own && own[c].slot != FILE_BLOCKS :: disk2[c] == disk1[c]
    ensures Cleared(iset{at}, disk, inodes, disk2, inodes2)
  {
    forall i, p | 0 <= i < |inodes| && 0 <= p <= FILE_BLOCKS
      ensures Ref(disk2, inodes2[i], p) == if Place(i, p) in iset{at} then 0 else Ref(disk, inodes[i], p)
    {
      assert Ref(disk1, inodes[i], p) == Ref(disk, inodes[i], p);
    }
    ClearedBytes(iset{at}, disk, inodes, own, disk2, inodes2);
  }

  /** Changing a data block moves nothing. */
  lemma DataBlockChanges(disk: seq<Block>, inodes: seq<Inode>, own: map<u32, Place>, disk': seq<Block>, b: u32)
    requires Owned(disk, inodes, own) && b in own && own[b].slot != FILE_BLOCKS
    requires |disk'| == |disk| && forall c | 0 <= c < |disk| && c != b :: disk'[c] == disk[c]
    ensures SameRefs(disk, disk', inodes) && Owned(disk', inodes, own)
  {
    assert disk' == disk[b := disk'[b]];
    forall i, p | 0 <= i < |inodes| && 0 <= p <= FILE_BLOCKS
      ensures Ref(disk', inodes[i], p) == Ref(disk, inodes[i], p) && Claims(disk', inodes, own, i, p)
    {
      RefFrame(disk, inodes, own, b, disk'[b], i, p);
      assert Claims(disk, inodes, own, i, p);
    }
  }

  /** Everything behind the indirect block, and the pointer to it. */
  ghost function Behind(i: nat): Places { iset at: Place | at.ino == i && at.slot >= DIRECT }

  /** The pointer to the indirect block cleared, whatever has become of that block. */
  lemma DropPointer(disk: seq<Block>, inodes: seq<Inode>, own: map<u32, Place>, i: nat, disk': seq<Block>,
    inodes': seq<Inode>)
    requires Owned(disk, inodes, own) && i < |inodes| && inodes[i].indirect != 0
    requires |disk'| == |disk| && forall c | 0 <= c < |disk| && c != inodes[i].indirect :: disk'[c] == disk[c]
    requires inodes' == inodes[i := inodes[i].(indirect := 0)]
    ensures Cleared(Behind(i), disk, inodes, disk', inodes')
  {
    IndirectIsOwn(disk, inodes, own, i);
    forall j, p | 0 <= j < |inodes| && 0 <= p <= FILE_BLOCKS
      ensures Ref(disk', inodes'[j], p) == if Place(j, p) in Behind(i) then 0 else Ref(disk, inodes[j], p)
    {
      if inodes[j].indirect != 0 {
        IndirectIsOwn(disk, inodes, own, j);
      }
    }
    ClearedBytes(Behind(i), disk, inodes, own, disk', inodes');
  }

  // ---------------------------------------------------------------------
  // The whole cut
  // ---------------------------------------------------------------------

  /** The indirect block is given back together with part 28, if that part is there. */
  ghost predicate Drops(disk: seq<Block>, n: Inode, lo: int, hi: int) {
    lo <= DIRECT <= hi && Slot(disk, n, DIRECT) != 0
  }

  /** The places emptied when parts `hi` down to `lo` are cut. */
  ghost function CutPlaces(i: nat, disk: seq<Block>, n: Inode, lo: int, hi: int): Places {
    iset at: Place | at.ino == i && ((lo <= at.slot <= hi && at.slot < FILE_BLOCKS)
      || (Drops(disk, n, lo, hi) && at.slot >= DIRECT))
  }

  /** The blocks given back on the way from part `hi` down to part `lo`, in that order. */
  ghost function Freed(disk: seq<Block>, n: Inode, lo: int, hi: int): seq<u32>
    requires lo >= 0
    decreases hi - lo
  {
    if lo > hi then [] else Freed(disk, n, lo + 1, hi) + FreedAt(disk, n, lo)
  }

  ghost function FreedAt(disk: seq<Block>, n: Inode, k: nat): seq<u32> {
    if k >= FILE_BLOCKS || Slot(disk, n, k) == 0 then []
    else if k == DIRECT then [Slot(disk, n, k), n.indirect]
    else [Slot(disk, n, k)]
  }

  ghost function TurnPlaces(i: nat, disk: seq<Block>, n: Inode, k: nat): Places {
    if k >= FILE_BLOCKS || Slot(disk, n, k) == 0 then iset{} else if k == DIRECT then Behind(i) else iset{Place(i, k)}
  }

  lemma CutNothing(i: nat, disk: seq<Block>, inodes: seq<Inode>, own: map<u32, Place>, hi: nat)
    requires i < |inodes|
    ensures Cleared(CutPlaces(i, disk, inodes[i], hi + 1, hi), disk, inodes, disk, inodes)
    ensures Left(CutPlaces(i, disk, inodes[i], hi + 1, hi), own) == own
  {
    assert CutPlaces(i, disk, inodes[i], hi + 1, hi) == iset{};
  }

  /** One more part cut. */
  lemma CutStep(i: nat, disk: seq<Block>, inodes: seq<Inode>, own: map<u32, Place>, lo: nat, hi: int,
                disk1: seq<Block>, inodes1: seq<Inode>, disk2: seq<Block>, inodes2: seq<Inode>)
    requires Owned(disk, inodes, own) && i < |inodes| && lo <= hi
    requires Cleared(CutPlaces(i, disk, inodes[i], lo + 1, hi), disk, inodes, disk1, inodes1)
    requires Cleared(TurnPlaces(i, disk1, inodes1[i], lo), disk1, inodes1, disk2, inodes2)
    ensures Cleared(CutPlaces(i, disk, inodes[i], lo, hi), disk, inodes, disk2, inodes2)
    ensures Left(TurnPlaces(i, disk1, inodes1[i], lo), Left(CutPlaces(i, disk, inodes[i], lo + 1, hi), own))
         == Left(CutPlaces(i, disk, inodes[i], lo, hi), own)
    ensures FreedAt(disk1, inodes1[i], lo) == FreedAt(disk, inodes[i], lo)
  {
    var gone, more := CutPlaces(i, disk, inodes[i], lo + 1, hi), TurnPlaces(i, disk1, inodes1[i], lo);
    SlotNotYetCut(i, disk, inodes, lo, hi, disk1, inodes1);
    ClearedTwice(gone, more, disk, inodes, disk1, inodes1, disk2, inodes2);
    LeftTwice(gone, more, own);
    SamePlaces(i, disk, inodes, own, lo, hi, more);
    ClearedSame(gone + more, CutPlaces(i, disk, inodes[i], lo, hi), disk, inodes, disk2, inodes2);
    LeftSame(gone + more, CutPlaces(i, disk, inodes[i], lo, hi), disk, inodes, own);
  }

  lemma SlotNotYetCut(i: nat, disk: seq<Block>, inodes: seq<Inode>, lo: nat, hi: int, disk1: seq<Block>,
    inodes1: seq<Inode>)
    requires i < |inodes| && lo <= hi && Cleared(CutPlaces(i, disk, inodes[i], lo + 1, hi), disk, inodes, disk1,
      inodes1)
    ensures lo < FILE_BLOCKS ==> Slot(disk1, inodes1[i], lo) == Slot(disk, inodes[i], lo)
    ensures DIRECT <= lo ==> inodes1[i].indirect == inodes[i].indirect
  {
    assert Ref(disk1, inodes1[i], FILE_BLOCKS) == inodes1[i].indirect;
    if lo < FILE_BLOCKS {
      assert Ref(disk1, inodes1[i], lo) == Slot(disk1, inodes1[i], lo);
    }
  }

  lemma SamePlaces(i: nat, disk: seq<Block>, inodes: seq<Inode>, own: map<u32, Place>, lo: nat, hi: int, more: Places)
    requires Owned(disk, inodes, own) && i < |inodes| && lo <= hi && more == TurnPlaces(i, disk, inodes[i], lo)
    ensures forall j, p | 0 <= j < |inodes| && 0 <= p <= FILE_BLOCKS && Ref(disk, inodes[j], p) != 0 ::
      Place(j, p) in CutPlaces(i, disk, inodes[i], lo + 1, hi) + more <==>
        Place(j, p) in CutPlaces(i, disk, inodes[i], lo, hi)
  {
    forall j, p | 0 <= j < |inodes| && 0 <= p <= FILE_BLOCKS && Ref(disk, inodes[j], p) != 0
      ensures Place(j, p) in CutPlaces(i, disk, inodes[i], lo + 1, hi) + more
         <==> Place(j, p) in CutPlaces(i, disk, inodes[i], lo, hi)
    {
    }
  }

  // ---------------------------------------------------------------------
  // What is given back, and what is lost
  // ---------------------------------------------------------------------

  lemma {:induction false} InFreed(disk: seq<Block>, n: Inode, lo: nat, hi: int, k: nat, b: u32)
    requires lo <= k <= hi && b in FreedAt(disk, n, k)
    ensures b in Freed(disk, n, lo, hi)
    decreases hi - lo
  {
    if k > lo {
      InFreed(disk, n, lo + 1, hi, k, b);
    }
  }

  lemma {:induction false} FreedFrom(disk: seq<Block>, n: Inode, lo: nat, hi: int, b: u32) returns (k: nat)
    requires b in Freed(disk, n, lo, hi)
    ensures lo <= k <= hi && b in FreedAt(disk, n, k)
    decreases hi - lo
  {
    if b in FreedAt(disk, n, lo) {
      k := lo;
    } else {
      k := FreedFrom(disk, n, lo + 1, hi, b);
    }
  }

  /**
   * A block of the file is given back if and only if its place is in the cut and not behind a
   * dropped indirect block only.
   */
  lemma FreedIff(disk: seq<Block>, inodes: seq<Inode>, own: map<u32, Place>, i: nat, lo: nat, hi: int, p: nat)
    requires Owned(disk, inodes, own) && i < |inodes| && p <= FILE_BLOCKS && Ref(disk, inodes[i], p) != 0
    ensures Ref(disk, inodes[i], p) in Freed(disk, inodes[i], lo, hi) <==>
            if p == FILE_BLOCKS then Drops(disk, inodes[i], lo, hi) else lo <= p <= hi
  {
    var n := inodes[i];
    var b := Ref(disk, n, p);
    assert Claims(disk, inodes, own, i, p);
    if b in Freed(disk, n, lo, hi) {
      var k := FreedFrom(disk, n, lo, hi, b);
      assert Claims(disk, inodes, own, i, k) && Claims(disk, inodes, own, i, FILE_BLOCKS);
    }
    if p == FILE_BLOCKS && Drops(disk, n, lo, hi) {
      InFreed(disk, n, lo, hi, DIRECT, b);
    }
    if p < FILE_BLOCKS && lo <= p <= hi {
      InFreed(disk, n, lo, hi, p, b);
    }
  }

  /** No part behind part `hi` has a block. */
  ghost predicate NothingBehind(disk: seq<Block>, n: Inode, hi: int) {
    forall k | 0 <= k < FILE_BLOCKS && hi < k :: Slot(disk, n, k) == 0
  }

  /**
   * Truncation to nothing gives back every block of the file if and only if no block lies behind
   * the size, and the indirect block, if there is one, goes with a block in part 28.
   */
  lemma TruncateGivesAllBack(disk: seq<Block>, inodes: seq<Inode>, own: map<u32, Place>, i: nat, hi: nat)
    requires Owned(disk, inodes, own) && i < |inodes|
    ensures (forall p | 0 <= p <= FILE_BLOCKS && Ref(disk, inodes[i], p) != 0 ::
               Ref(disk, inodes[i], p) in Freed(disk, inodes[i], 0, hi))
       <==> NothingBehind(disk, inodes[i], hi) && (inodes[i].indirect != 0 ==>
         hi >= DIRECT && Slot(disk, inodes[i], DIRECT) != 0)
  {
    var n := inodes[i];
    forall p | 0 <= p <= FILE_BLOCKS && Ref(disk, n, p) != 0
      ensures Ref(disk, n, p) in Freed(disk, n, 0, hi) <==> if p == FILE_BLOCKS then Drops(disk, n, 0, hi) else p <= hi
    {
      FreedIff(disk, inodes, own, i, 0, hi, p);
    }
    assert Ref(disk, n, FILE_BLOCKS) == n.indirect;
    forall k | 0 <= k < FILE_BLOCKS
      ensures Ref(disk, n, k) == Slot(disk, n, k)
    {
    }
  }

  /**
   * The blocks owned before a cut are given back or still owned, except those behind both the cut
   * and a dropped indirect block.
   */
  lemma Lost(disk: seq<Block>, inodes: seq<Inode>, own: map<u32, Place>, i: nat, lo: nat, hi: int, b: u32)
    requires Owned(disk, inodes, own) && i < |inodes| && b in own
    ensures b !in Left(CutPlaces(i, disk, inodes[i], lo, hi), own) && b !in Freed(disk, inodes[i], lo, hi) <==>
            own[b].ino == i && Drops(disk, inodes[i], lo, hi) && hi < own[b].slot < FILE_BLOCKS
  {
    assert Keeps(disk, inodes, own[b], b);
    if own[b].ino == i {
      FreedIff(disk, inodes, own, i, lo, hi, own[b].slot);
    } else if b in Freed(disk, inodes[i], lo, hi) {
      var k := FreedFrom(disk, inodes[i], lo, hi, b);
      assert Claims(disk, inodes, own, i, k) && Claims(disk, inodes, own, i, FILE_BLOCKS);
    }
  }

  /** Only blocks of the file are given back. */
  lemma FreedWasOwned(disk: seq<Block>, inodes: seq<Inode>, own: map<u32, Place>, i: nat, lo: nat, hi: int, b: u32)
    requires Owned(disk, inodes, own) && i < |inodes| && b in Freed(disk, inodes[i], lo, hi)
    ensures b in own && own[b].ino == i
  {
    var k := FreedFrom(disk, inodes[i], lo, hi, b);
    assert Claims(disk, inodes, own, i, k) && Claims(disk, inodes, own, i, FILE_BLOCKS);
  }

  ghost function Elems(s: seq<u32>): set<u32> { set b | b in s }

  /** A cut loses no block if and only if it keeps the indirect block or nothing lies behind the size. */
  lemma NothingLost(disk: seq<Block>, inodes: seq<Inode>, own: map<u32, Place>, free: seq<u32>, i: nat, lo: nat,
    hi: int)
    requires Owned(disk, inodes, own) && i < |inodes| && (forall b | b in free :: b !in own)
    ensures Left(CutPlaces(i, disk, inodes[i], lo, hi), own).Keys + Elems(free + Freed(disk, inodes[i], lo, hi))
            == own.Keys + Elems(free)
       <==> !Drops(disk, inodes[i], lo, hi) || NothingBehind(disk, inodes[i], hi)
  {
    var n := inodes[i];
    var left, freed := Left(CutPlaces(i, disk, n, lo, hi), own), Freed(disk, n, lo, hi);
    forall b | b in own
      ensures b !in left && b !in freed <==> own[b].ino == i && Drops(disk, n, lo, hi) && hi < own[b].slot < FILE_BLOCKS
      ensures Keeps(disk, inodes, own[b], b)
    {
      Lost(disk, inodes, own, i, lo, hi, b);
    }
    forall b | b in freed
      ensures b in own
    {
      FreedWasOwned(disk, inodes, own, i, lo, hi, b);
    }
    if Drops(disk, n, lo, hi) && !NothingBehind(disk, n, hi) {
      var k :| 0 <= k < FILE_BLOCKS && hi < k && Slot(disk, n, k) != 0;
      var b := Slot(disk, n, k);
      assert Claims(disk, inodes, own, i, k) && b in own;
      assert b in own.Keys + Elems(free) && b !in left.Keys + Elems(free + freed);
    } else {
      assert left.Keys + Elems(free + freed) == own.Keys + Elems(free);
    }
  }

  // ---------------------------------------------------------------------
  // Where it goes wrong
  // ---------------------------------------------------------------------

  /** A disk with one file, whose indirect block is block 1 and has `x` for part 28 and `y` for part 29. */
  ghost predicate Small(disk: seq<Block>, n: Inode, own: map<u32, Place>, x: u32, y: u32) {
    && |disk| == 4 && n.indirect == 1 && Owned(disk, [n], own)
    && forall k | 0 <= k < FILE_BLOCKS :: Slot(disk, n, k) == if k == 28 then x else if k == 29 then y else 0
  }

  lemma SmallExists(x: u32, size: u32) returns (disk: seq<Block>, n: Inode, own: map<u32, Place>)
    requires x == 0 || x == 2
    ensures Small(disk, n, own, x, 3) && n.size == size && own.Keys == if x == 0 then {1, 3} else {1, 2, 3}
  {
    var words := PutWord(PutWord(ZEROS, 0, x), 1, 3);
    disk := [ZEROS, words, ZEROS, ZEROS];
    n := Inode(Data, size, seq(DIRECT, _ => 0), 1);
    own := map[1 := Place(0, FILE_BLOCKS), 3 := Place(0, 29)];
    if x != 0 {
      own := own[x := Place(0, 28)];
    }
    forall k | 0 <= k < FILE_BLOCKS
      ensures Slot(disk, n, k) == if k == 28 then x else if k == 29 then 3 else 0
    {
      if k >= DIRECT {
        WordPut(PutWord(ZEROS, 0, x), 1, 3, k - DIRECT);
        WordPut(ZEROS, 0, x, k - DIRECT);
        ZeroWord(k - DIRECT);
      }
    }
    forall p | 0 <= p <= FILE_BLOCKS
      ensures Claims(disk, [n], own, 0, p)
    {
    }
  }

  /** With a hole in part 28, truncation to nothing does not give the indirect block back. */
  lemma HoleKeepsIndirect() returns (disk: seq<Block>, n: Inode, own: map<u32, Place>)
    ensures Small(disk, n, own, 0, 3) && n.size == 30 * BLOCK_SIZE
    ensures 3 in Freed(disk, n, 0, 29) && 1 in own && 1 !in Freed(disk, n, 0, 29)
  {
    disk, n, own := SmallExists(0, 30 * BLOCK_SIZE);
    FreedIff(disk, [n], own, 0, 0, 29, 29);
    FreedIff(disk, [n], own, 0, 0, 29, FILE_BLOCKS);
  }

  /** A block behind the size is lost with the indirect block: it is neither given back nor kept. */
  lemma BlockBehindIsLost() returns (disk: seq<Block>, n: Inode, own: map<u32, Place>)
    ensures Small(disk, n, own, 2, 3) && n.size == 29 * BLOCK_SIZE && 3 in own
    ensures 3 !in Freed(disk, n, 0, 28) && 3 !in Left(CutPlaces(0, disk, n, 0, 28), own)
  {
    disk, n, own := SmallExists(2, 29 * BLOCK_SIZE);
    assert Claims(disk, [n], own, 0, 29);
    Lost(disk, [n], own, 0, 0, 28, 3);
  }
}
