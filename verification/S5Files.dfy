/** How files are laid out on the disk, and who owns which block. */
module S5Files {
  import opened Common
  import opened S5Words

  const DIRECT := 28
  const FILE_BLOCKS := DIRECT + WORDS
  const MAX_FILE_SIZE := FILE_BLOCKS * BLOCK_SIZE

  type Directs = d: seq<u32> | |d| == DIRECT witness seq(DIRECT, _ => 0)

  datatype Kind = Free | Data | Dir | Chr | Blk

  datatype Inode = Inode(kind: Kind, size: u32, direct: Directs, indirect: u32)

  /**
   * A place where a block number is kept: a slot of a file, or, behind the slots, the pointer to
   * the indirect block.
   */
  datatype Place = Place(ino: nat, slot: nat)

  predicate OnDisk(disk: seq<Block>, b: u32) { 0 < b < |disk| }

  /** The block that holds a given part of a file; zero for a hole. */
  function Slot(disk: seq<Block>, n: Inode, k: nat): u32
    requires k < FILE_BLOCKS
  {
    if k < DIRECT then n.direct[k] else if OnDisk(disk, n.indirect) then Word(disk[n.indirect], k - DIRECT) else 0
  }

  function Ref(disk: seq<Block>, n: Inode, p: nat): u32
    requires p <= FILE_BLOCKS
  {
    if p == FILE_BLOCKS then n.indirect else Slot(disk, n, p)
  }

  function ByteAt(disk: seq<Block>, n: Inode, k: nat, o: nat): byte
    requires k < FILE_BLOCKS && o < BLOCK_SIZE
  {
    var b := Slot(disk, n, k);
    if OnDisk(disk, b) then disk[b][o] else 0
  }

  /** The file as one array of bytes, zero in the holes. */
  function Flat(disk: seq<Block>, n: Inode, x: nat): byte
    requires x < MAX_FILE_SIZE
  {
    ByteAt(disk, n, x / BLOCK_SIZE, x % BLOCK_SIZE)
  }

  /** `own` is the inverse of the block numbers kept in the inodes: each is kept in one place only. */
  ghost predicate Owned(disk: seq<Block>, inodes: seq<Inode>, own: map<u32, Place>) {
    && (forall b | b in own :: OnDisk(disk, b) && Keeps(disk, inodes, own[b], b))
    && (forall i, p | 0 <= i < |inodes| && 0 <= p <= FILE_BLOCKS :: Claims(disk, inodes, own, i, p))
  }

  ghost predicate Keeps(disk: seq<Block>, inodes: seq<Inode>, at: Place, b: u32) {
    at.ino < |inodes| && at.slot <= FILE_BLOCKS && Ref(disk, inodes[at.ino], at.slot) == b
  }

  ghost predicate Claims(disk: seq<Block>, inodes: seq<Inode>, own: map<u32, Place>, i: nat, p: nat)
    requires i < |inodes| && p <= FILE_BLOCKS
  {
    var b := Ref(disk, inodes[i], p);
    b != 0 ==> b in own && own[b] == Place(i, p)
  }

  ghost predicate SameRefs(disk: seq<Block>, disk': seq<Block>, inodes: seq<Inode>) {
    forall i, p | 0 <= i < |inodes| && 0 <= p <= FILE_BLOCKS :: Ref(disk', inodes[i], p) == Ref(disk, inodes[i], p)
  }

  /** Every place keeps what it kept, but for one. */
  ghost predicate OnePlace(disk: seq<Block>, inodes: seq<Inode>, disk': seq<Block>, inodes': seq<Inode>, at: Place,
    b: u32) {
    && |disk'| == |disk| && |inodes'| == |inodes| && at.ino < |inodes| && at.slot <= FILE_BLOCKS
    && forall i, p | 0 <= i < |inodes| && 0 <= p <= FILE_BLOCKS ::
         Ref(disk', inodes'[i], p) == if Place(i, p) == at then b else Ref(disk, inodes[i], p)
  }

  /** A fresh block in an empty place. */
  lemma OwnAlso(disk: seq<Block>, inodes: seq<Inode>, own: map<u32, Place>,
                disk': seq<Block>, inodes': seq<Inode>, at: Place, b: u32)
    requires Owned(disk, inodes, own) && OnePlace(disk, inodes, disk', inodes', at, b)
    requires OnDisk(disk, b) && b !in own && Ref(disk, inodes[at.ino], at.slot) == 0
    ensures Owned(disk', inodes', own[b := at])
  {
    var own' := own[b := at];
    forall i, p | 0 <= i < |inodes| && 0 <= p <= FILE_BLOCKS
      ensures Claims(disk', inodes', own', i, p)
    {
      assert Claims(disk, inodes, own, i, p);
    }
    forall c | c in own'
      ensures Keeps(disk', inodes', own'[c], c)
    {
      if c != b {
        assert Keeps(disk, inodes, own[c], c) && own[c] != at;
      }
    }
  }

  // ---------------------------------------------------------------------
  // What each kind of change does to the places
  // ---------------------------------------------------------------------

  /** The indirect block of a file belongs to that file. */
  lemma IndirectIsOwn(disk: seq<Block>, inodes: seq<Inode>, own: map<u32, Place>, i: nat)
    requires Owned(disk, inodes, own) && i < |inodes| && inodes[i].indirect != 0
    ensures var b := inodes[i].indirect; OnDisk(disk, b) && b in own && own[b] == Place(i, FILE_BLOCKS)
  {
    assert Claims(disk, inodes, own, i, FILE_BLOCKS);
  }

  /** Changing a block that is no indirect block moves nothing. */
  lemma RefFrame(disk: seq<Block>, inodes: seq<Inode>, own: map<u32, Place>, b: u32, blk: Block, i: nat, p: nat)
    requires Owned(disk, inodes, own) && OnDisk(disk, b) && (b in own ==> own[b].slot != FILE_BLOCKS)
    requires i < |inodes| && p <= FILE_BLOCKS
    ensures Ref(disk[b := blk], inodes[i], p) == Ref(disk, inodes[i], p)
  {
    if inodes[i].indirect != 0 {
      IndirectIsOwn(disk, inodes, own, i);
    }
  }

  /** Writing a block number into the indirect block changes that slot of that file only. */
  lemma PutIndirect(disk: seq<Block>, inodes: seq<Inode>, own: map<u32, Place>, at: Place, b: u32)
    requires Owned(disk, inodes, own) && at.ino < |inodes| && DIRECT <= at.slot < FILE_BLOCKS
      && inodes[at.ino].indirect != 0
    requires inodes[at.ino].indirect < |disk|
    ensures var ind := inodes[at.ino].indirect;
      OnePlace(disk, inodes, disk[ind := PutWord(disk[ind], at.slot - DIRECT, b)], inodes, at, b)
  {
    var ind := inodes[at.ino].indirect;
    var disk' := disk[ind := PutWord(disk[ind], at.slot - DIRECT, b)];
    IndirectIsOwn(disk, inodes, own, at.ino);
    forall i, p | 0 <= i < |inodes| && 0 <= p <= FILE_BLOCKS
      ensures Ref(disk', inodes[i], p) == if Place(i, p) == at then b else Ref(disk, inodes[i], p)
    {
      if inodes[i].indirect != 0 {
        IndirectIsOwn(disk, inodes, own, i);
        if i == at.ino && DIRECT <= p < FILE_BLOCKS {
          WordPut(disk[ind], at.slot - DIRECT, b, p - DIRECT);
        }
      }
    }
  }

  lemma PutDirect(disk: seq<Block>, inodes: seq<Inode>, at: Place, b: u32)
    requires at.ino < |inodes| && at.slot < DIRECT
    ensures var n := inodes[at.ino];
      OnePlace(disk, inodes, disk, inodes[at.ino := n.(direct := n.direct[at.slot := b])], at, b)
  {
  }

  /** A zeroed block as a new indirect block: the slots behind it stay holes. */
  lemma PutPointer(disk: seq<Block>, inodes: seq<Inode>, i: nat, b: u32)
    requires i < |inodes| && inodes[i].indirect == 0 && OnDisk(disk, b) && disk[b] == ZEROS
    ensures OnePlace(disk, inodes, disk, inodes[i := inodes[i].(indirect := b)], Place(i, FILE_BLOCKS), b)
  {
    var n' := inodes[i].(indirect := b);
    forall p | 0 <= p < FILE_BLOCKS
      ensures Slot(disk, n', p) == Slot(disk, inodes[i], p)
    {
      if p >= DIRECT {
        ZeroWord(p - DIRECT);
      }
    }
  }

  // ---------------------------------------------------------------------
  // How many blocks a write needs
  // ---------------------------------------------------------------------

  function Hole(disk: seq<Block>, n: Inode, k: nat): nat
    requires k < FILE_BLOCKS
  {
    if Slot(disk, n, k) == 0 then 1 else 0
  }

  ghost function Holes(disk: seq<Block>, n: Inode, from: nat, to: nat): nat
    requires from <= to <= FILE_BLOCKS
    decreases FILE_BLOCKS - from
  {
    if from == to then 0 else Hole(disk, n, from) + Holes(disk, n, from + 1, to)
  }

  ghost predicate Unpointed(n: Inode, to: nat) { to > DIRECT && n.indirect == 0 }

  /** Blocks to be allocated before one part is there. */
  ghost function Cost(disk: seq<Block>, n: Inode, k: nat): nat
    requires k < FILE_BLOCKS
  {
    Hole(disk, n, k) + if Unpointed(n, k + 1) then 1 else 0
  }

  /** Blocks to be allocated before every part from `from` to `to` is there. */
  ghost function Needed(disk: seq<Block>, n: Inode, from: nat, to: nat): nat
    requires from <= to <= FILE_BLOCKS
  {
    Holes(disk, n, from, to) + if from < to && Unpointed(n, to) then 1 else 0
  }

  lemma {:induction false} HolesFrame(disk: seq<Block>, n: Inode, disk': seq<Block>, n': Inode, from: nat, to: nat)
    requires from <= to <= FILE_BLOCKS && forall k | from <= k < to :: Slot(disk', n', k) == Slot(disk, n, k)
    ensures Holes(disk', n', from, to) == Holes(disk, n, from, to)
    decreases FILE_BLOCKS - from
  {
    if from < to {
      HolesFrame(disk, n, disk', n', from + 1, to);
    }
  }

  /** What is needed for one part, and for the parts behind it. */
  lemma NeededStep(disk: seq<Block>, n: Inode, disk': seq<Block>, n': Inode, k: nat, to: nat)
    requires k < to <= FILE_BLOCKS && forall m | k < m < to :: Slot(disk', n', m) == Slot(disk, n, m)
    requires if k < DIRECT then n'.indirect == n.indirect else n'.indirect != 0
    ensures Needed(disk, n, k, to) == Cost(disk, n, k) + Needed(disk', n', k + 1, to)
  {
    HolesFrame(disk, n, disk', n', k + 1, to);
  }
}
