/** The chain of free blocks as a stack of block numbers. */
module S5Free {
  import opened Common
  import opened Lists
  import opened S5Words

  /** Slots of the superblock and of each chain block; the word behind them is the link. */
  const SLOTS := 29
  const NONE: u32 := 0xffff_ffff

  function Entries(b: Block): (r: seq<u32>)
    ensures |r| == SLOTS
  {
    seq(SLOTS, i requires 0 <= i < SLOTS => Word(b, i))
  }

  function Link(b: Block): u32 { Word(b, SLOTS) }

  ghost function Top(nodes: seq<u32>): u32 { if nodes == [] then NONE else nodes[|nodes| - 1] }

  /** The chain blocks, deepest first: each links to the one below it. */
  ghost predicate Chain(disk: seq<Block>, nodes: seq<u32>)
    decreases |nodes|
  {
    nodes == [] ||
    (var n := |nodes| - 1;
     nodes[n] < |disk| && Link(disk[nodes[n]]) == Top(nodes[..n]) && Chain(disk, nodes[..n]))
  }

  /** All block numbers stored in the chain, the last one freed on top. */
  ghost function Stack(disk: seq<Block>, nodes: seq<u32>): seq<u32>
    requires Chain(disk, nodes)
    decreases |nodes|
  {
    if nodes == [] then []
    else
      var n := |nodes| - 1;
      Stack(disk, nodes[..n]) + Entries(disk[nodes[n]]) + [nodes[n]]
  }

  /** Every chain block is itself free. */
  lemma {:induction false} NodesAreFree(disk: seq<Block>, nodes: seq<u32>, k: nat)
    requires Chain(disk, nodes) && k < |nodes|
    ensures nodes[k] in Stack(disk, nodes)
    decreases |nodes|
  {
    var n := |nodes| - 1;
    if k < n {
      NodesAreFree(disk, nodes[..n], k);
    }
  }

  /** The chain depends on nothing but its own blocks. */
  lemma {:induction false} StackFrame(disk: seq<Block>, disk': seq<Block>, nodes: seq<u32>)
    requires Chain(disk, nodes) && |disk'| == |disk|
    requires forall b | b in Stack(disk, nodes) && b < |disk| :: disk'[b] == disk[b]
    ensures Chain(disk', nodes) && Stack(disk', nodes) == Stack(disk, nodes)
    decreases |nodes|
  {
    if nodes != [] {
      var n := |nodes| - 1;
      NodesAreFree(disk, nodes, n);
      StackFrame(disk, disk', nodes[..n]);
    }
  }

  lemma StackKept(disk: seq<Block>, nodes: seq<u32>, c: u32, blk: Block)
    requires Chain(disk, nodes) && c < |disk| && c !in Stack(disk, nodes)
    ensures Chain(disk[c := blk], nodes) && Stack(disk[c := blk], nodes) == Stack(disk, nodes)
  {
    StackFrame(disk, disk[c := blk], nodes);
  }

  /** A full superblock moves into the block being freed, which becomes the top of the chain. */
  lemma PushNode(disk: seq<Block>, disk': seq<Block>, nodes: seq<u32>, free: seq<u32>, b: u32)
    requires Chain(disk, nodes) && |disk'| == |disk| && b < |disk| && b !in Stack(disk, nodes) && |free| == SLOTS
    requires forall c | 0 <= c < |disk| && c != b :: disk'[c] == disk[c]
    requires Entries(disk'[b]) == free && Link(disk'[b]) == Top(nodes)
    ensures Chain(disk', nodes + [b]) && Stack(disk', nodes + [b]) == Stack(disk, nodes) + free + [b]
  {
    StackFrame(disk, disk', nodes);
    var all := nodes + [b];
    assert all[..|all| - 1] == nodes && all[|all| - 1] == b;
  }

  /** Distinct block numbers on a disk of `n` blocks. */
  ghost predicate StackOk(n: nat, s: seq<u32>) {
    Distinct(s) && forall b | b in s :: 0 < b < n
  }

  lemma PushOk(n: nat, s: seq<u32>, b: u32, t: seq<u32>)
    requires StackOk(n, s) && 0 < b < n && b !in s && t == s + [b]
    ensures StackOk(n, t)
  {
  }

  lemma PopOk(n: nat, s: seq<u32>, t: seq<u32>)
    requires StackOk(n, s) && s != [] && t == s[..|s| - 1]
    ensures StackOk(n, t)
  {
    assert forall b | b in t :: b in s;
  }

  lemma EmptyChain(disk: seq<Block>, nodes: seq<u32>)
    requires Chain(disk, nodes) && |disk| <= NONE
    ensures Top(nodes) == NONE <==> nodes == []
  {
  }
}
