/** The byte code that patterns are compiled to. */
module EdCode {
  import opened Common
  import opened EdPattern

  const CBRA: byte := 1
  const CCHR: byte := 2
  const CDOT: byte := 4
  const CCL: byte := 6
  const NCCL: byte := 8
  const CDOL: byte := 10
  const CEOF: byte := 11
  const CKET: byte := 12
  const STAR: byte := 1
  const NBRA := 5
  const ESIZE := 128

  /** Sets are short enough for their count to fit a signed char; there are `NBRA` pairs of brackets. */
  predicate ValidItem(it: Item) {
    match it
    case One(a) => ValidAtom(a)
    case Star(a) => ValidAtom(a)
    case Bra(n) => n < NBRA
    case Ket(n) => n < NBRA
    case Dol => true
  }

  predicate ValidAtom(a: Atom) {
    match a
    case Chr(c) => c != 0
    case Dot => true
    case Class(_, cs) => |cs| + 1 < ESIZE
  }

  ghost predicate ValidItems(p: seq<Item>) { forall i :: 0 <= i < |p| ==> ValidItem(p[i]) }

  function AtomOp(a: Atom): byte {
    match a
    case Chr(_) => CCHR
    case Dot => CDOT
    case Class(neg, _) => if neg then NCCL else CCL
  }

  function AtomArgs(a: Atom): seq<byte>
    requires ValidAtom(a)
  {
    match a
    case Chr(c) => [c]
    case Dot => []
    case Class(_, cs) => [(|cs| + 1) as byte] + cs
  }

  function EncodeItem(it: Item): (s: seq<byte>)
    requires ValidItem(it)
    ensures |s| > 0
  {
    match it
    case One(a) => [AtomOp(a)] + AtomArgs(a)
    case Star(a) => [AtomOp(a) + STAR] + AtomArgs(a)
    case Bra(n) => [CBRA, n as byte]
    case Ket(n) => [CKET, n as byte]
    case Dol => [CDOL]
  }

  /** The operations with the star bit; `CEOF`, which also has it, is not one of them. */
  predicate IsStarOp(op: byte) {
    op == CCHR + STAR || op == CDOT + STAR || op == CCL + STAR || op == NCCL + STAR
  }

  /** The items one after the other. */
  function Encode(p: seq<Item>): seq<byte>
    requires ValidItems(p)
  {
    if p == [] then [] else EncodeItem(p[0]) + Encode(p[1..])
  }

  function Code(p: seq<Item>): (s: seq<byte>)
    requires ValidItems(p)
    ensures |s| > 0
  {
    Encode(p) + [CEOF]
  }

  lemma CodeHead(p: seq<Item>)
    requires ValidItems(p) && p != []
    ensures Code(p) == EncodeItem(p[0]) + Code(p[1..])
  {
  }

  /** The operation byte tells which item comes next. */
  lemma OpDetermines(p: seq<Item>)
    requires ValidItems(p)
    ensures var op := Code(p)[0];
      && (op == CEOF <==> p == [])
      && (op == CBRA <==> p != [] && p[0].Bra?)
      && (op == CKET <==> p != [] && p[0].Ket?)
      && (op == CDOL <==> p != [] && p[0].Dol?)
      && (op in {CCHR, CDOT, CCL, NCCL} <==> p != [] && p[0].One?)
      && (IsStarOp(op) <==> p != [] && p[0].Star?)
      && (p != [] && p[0].One? ==> op == AtomOp(p[0].a))
      && (p != [] && p[0].Star? ==> op == AtomOp(p[0].a) + STAR)
  {
    if p != [] {
      CodeHead(p);
    }
  }

  /** `s` stands in the buffer at position `at`. */
  ghost predicate At(buf: seq<byte>, at: nat, s: seq<byte>) {
    at <= |buf| && s <= buf[at..]
  }

  lemma AtSplit(buf: seq<byte>, at: nat, s: seq<byte>, t: seq<byte>)
    requires At(buf, at, s + t)
    ensures At(buf, at, s) && At(buf, at + |s|, t)
  {
    var rest := buf[at..];
    assert rest[..|s|] == (s + t)[..|s|] == s;
    assert rest[|s|..|s + t|] == (s + t)[|s|..] == t;
    assert buf[at + |s|..] == rest[|s|..];
    assert t == buf[at + |s|..][..|t|];
  }

  lemma AtIndex(buf: seq<byte>, at: nat, s: seq<byte>, i: nat)
    requires At(buf, at, s) && i < |s|
    ensures at + i < |buf| && buf[at + i] == s[i]
  {
    assert buf[at..][i] == buf[at + i];
  }

  lemma AtTail(buf: seq<byte>, at: nat, s: seq<byte>)
    requires At(buf, at, s) && s != []
    ensures At(buf, at + 1, s[1..])
  {
    assert s == [s[0]] + s[1..];
    AtSplit(buf, at, [s[0]], s[1..]);
  }

  /** The arguments of the first operation, and the operations behind it. */
  lemma CodeParts(buf: seq<byte>, at: nat, p: seq<Item>)
    requires ValidItems(p) && p != [] && At(buf, at, Code(p))
    ensures At(buf, at + 1, EncodeItem(p[0])[1..]) && At(buf, at + |EncodeItem(p[0])|, Code(p[1..]))
  {
    CodeHead(p);
    AtSplit(buf, at, EncodeItem(p[0]), Code(p[1..]));
    AtTail(buf, at, EncodeItem(p[0]));
  }

  lemma AtomParts(buf: seq<byte>, at: nat, p: seq<Item>)
    requires ValidItems(p) && p != [] && At(buf, at, Code(p)) && (p[0].One? || p[0].Star?)
    ensures At(buf, at + 1, AtomArgs(p[0].a)) && At(buf, at + 1 + |AtomArgs(p[0].a)|, Code(p[1..]))
  {
    CodeParts(buf, at, p);
    AtomArgsTail(p[0]);
  }

  lemma AtomArgsTail(it: Item)
    requires ValidItem(it) && (it.One? || it.Star?)
    ensures EncodeItem(it)[1..] == AtomArgs(it.a) && |EncodeItem(it)| == 1 + |AtomArgs(it.a)|
  {
  }
}
