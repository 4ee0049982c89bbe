/** What the argument block on a new stack must look like to the program that starts on it. */
module ElfImage {
  import opened Common
  import opened Words

  type Str = seq<byte>

  const AT_PHDR: u32 := 3
  const HEADER := 16

  datatype Aux = Aux(kind: u32, value: u32)

  function WordAt(s: seq<byte>, o: nat): u32
    requires o + 4 <= |s|
  {
    Unpack(s[o..o + 4])
  }

  /** A string and its terminator. */
  ghost predicate StrAt(s: seq<byte>, o: nat, str: Str) {
    o + |str| < |s| && s[o..o + |str|] == str && s[o + |str|] == 0 && 0 !in str
  }

  lemma StrAtUnique(s: seq<byte>, o: nat, a: Str, b: Str)
    requires StrAt(s, o, a) && StrAt(s, o, b)
    ensures a == b
  {
    NoNul(s, o, a);
    NoNul(s, o, b);
  }

  lemma NoNul(s: seq<byte>, o: nat, a: Str)
    requires StrAt(s, o, a)
    ensures forall i | o <= i < o + |a| :: s[i] != 0
  {
    forall i | o <= i < o + |a|
      ensures s[i] != 0
    {
      assert s[i] == s[o..o + |a|][i - o];
    }
  }

  /** The pointer `p` leads to a string in the block that starts at `low`. */
  ghost predicate Points(s: seq<byte>, low: nat, p: nat, str: Str) { low <= p && StrAt(s, p - low, str) }

  /** A vector of pointers to strings, with a null pointer at its end. */
  ghost predicate Vector(s: seq<byte>, low: nat, o: nat, strs: seq<Str>)
    decreases |strs|
  {
    && o + 4 <= |s|
    && if strs == [] then WordAt(s, o) == 0
       else WordAt(s, o) != 0 && Points(s, low, WordAt(s, o), strs[0]) && Vector(s, low, o + 4, strs[1..])
  }

  /** Reading a vector gives one list of strings only. */
  lemma {:induction false} VectorUnique(s: seq<byte>, low: nat, o: nat, a: seq<Str>, b: seq<Str>)
    requires Vector(s, low, o, a) && Vector(s, low, o, b)
    ensures a == b
    decreases |a|
  {
    if a != [] && b != [] {
      StrAtUnique(s, WordAt(s, o) - low, a[0], b[0]);
      VectorUnique(s, low, o + 4, a[1..], b[1..]);
      assert a == [a[0]] + a[1..] && b == [b[0]] + b[1..];
    }
  }

  /** One auxiliary entry; the one for the program header leads to a copy of it in the block. */
  ghost predicate AuxAt(s: seq<byte>, low: nat, o: nat, a: Aux, pht: seq<byte>) {
    && o + 8 <= |s| && WordAt(s, o) == a.kind
    && if a.kind == AT_PHDR then
         var p := WordAt(s, o + 4);
         low <= p && p - low + |pht| <= |s| && s[p - low..p - low + |pht|] == pht
       else WordAt(s, o + 4) == a.value
  }

  /** The auxiliary entries, with an entry of kind zero at their end. */
  ghost predicate AuxVector(s: seq<byte>, low: nat, o: nat, auxv: seq<Aux>, pht: seq<byte>)
    decreases |auxv|
  {
    if auxv == [] then o + 8 <= |s| && WordAt(s, o) == 0
    else auxv[0].kind != 0 && AuxAt(s, low, o, auxv[0], pht) && AuxVector(s, low, o + 8, auxv[1..], pht)
  }

  /** The same entries, except that the address given for the program header is not kept. */
  ghost predicate SameAux(a: seq<Aux>, b: seq<Aux>) {
    |a| == |b| && forall i | 0 <= i < |a| :: a[i].kind == b[i].kind && (a[i].kind != AT_PHDR ==> a[i] == b[i])
  }

  ghost predicate HasPhdr(auxv: seq<Aux>) { exists i :: 0 <= i < |auxv| && auxv[i].kind == AT_PHDR }

  /** Reading the auxiliary entries gives one list only, and one program header of any given length. */
  lemma {:induction false} AuxUnique(s: seq<byte>, low: nat, o: nat, a: seq<Aux>, p: seq<byte>, b: seq<Aux>,
    q: seq<byte>)
    requires AuxVector(s, low, o, a, p) && AuxVector(s, low, o, b, q)
    ensures SameAux(a, b) && (HasPhdr(a) && |p| == |q| ==> p == q)
    decreases |a|
  {
    if a != [] && b != [] {
      AuxUnique(s, low, o + 8, a[1..], p, b[1..], q);
      forall i | 0 <= i < |a|
        ensures a[i].kind == b[i].kind && (a[i].kind != AT_PHDR ==> a[i] == b[i])
      {
        assert i > 0 ==> a[i] == a[1..][i - 1] && b[i] == b[1..][i - 1];
      }
      if HasPhdr(a) && a[0].kind != AT_PHDR {
        var i :| 0 <= i < |a| && a[i].kind == AT_PHDR;
        assert a[1..][i - 1].kind == AT_PHDR;
      }
    }
  }

  /** The pointer `p` leads to a vector, or to the auxiliary vector. */
  ghost predicate LeadsTo(s: seq<byte>, low: nat, p: nat, strs: seq<Str>) { low <= p && Vector(s, low, p - low, strs) }

  ghost predicate LeadsToAux(s: seq<byte>, low: nat, p: nat, auxv: seq<Aux>, pht: seq<byte>) {
    low <= p && AuxVector(s, low, p - low, auxv, pht)
  }

  /** The whole block: a count, pointers to the three vectors, and the vectors with what they lead to. */
  ghost predicate Image(s: seq<byte>, low: nat, argv: seq<Str>, envp: seq<Str>, auxv: seq<Aux>, pht: seq<byte>) {
    && |s| >= HEADER && WordAt(s, 0) == |argv|
    && LeadsTo(s, low, WordAt(s, 4), argv) && LeadsTo(s, low, WordAt(s, 8), envp)
      && LeadsToAux(s, low, WordAt(s, 12), auxv, pht)
  }

  /** A block can be read in one way only. */
  lemma ImageUnique(s: seq<byte>, low: nat, argv: seq<Str>, envp: seq<Str>, auxv: seq<Aux>, pht: seq<byte>,
                    argv': seq<Str>, envp': seq<Str>, auxv': seq<Aux>, pht': seq<byte>)
    requires Image(s, low, argv, envp, auxv, pht) && Image(s, low, argv', envp', auxv', pht')
    ensures argv == argv' && envp == envp' && SameAux(auxv, auxv') && (HasPhdr(auxv) && |pht| == |pht'| ==> pht == pht')
  {
    VectorUnique(s, low, WordAt(s, 4) - low, argv, argv');
    VectorUnique(s, low, WordAt(s, 8) - low, envp, envp');
    AuxUnique(s, low, WordAt(s, 12) - low, auxv, pht, auxv', pht');
  }

  /** The blocks that a program reads the given arguments from. */
  ghost function Images(low: nat, argv: seq<Str>, envp: seq<Str>, auxv: seq<Aux>, pht: seq<byte>): iset<seq<byte>> {
    iset s | Image(s, low, argv, envp, auxv, pht)
  }

  // ---------------------------------------------------------------------
  // Sizes
  // ---------------------------------------------------------------------

  /** The bytes that strings take, with their terminators. */
  function Total(strs: seq<Str>): nat { if strs == [] then 0 else Total(strs[..|strs| - 1]) + |strs[|strs| - 1]| + 1 }

  function Phdrs(auxv: seq<Aux>): nat {
    if auxv == [] then 0 else Phdrs(auxv[..|auxv| - 1]) + if auxv[|auxv| - 1].kind == AT_PHDR then 1 else 0
  }

  function VecLength(argc: nat, envc: nat, auxc: nat): nat { 4 * (argc + 1 + envc + 1) + 8 * (auxc + 1) }

  function ArgSize(argv: seq<Str>, envp: seq<Str>, auxv: seq<Aux>, phtsize: nat): nat {
    HEADER + VecLength(|argv|, |envp|, |auxv|) + Total(argv) + Total(envp) + Phdrs(auxv) * phtsize
  }

  lemma TotalStep(strs: seq<Str>, i: nat)
    requires i < |strs|
    ensures Total(strs[..i + 1]) == Total(strs[..i]) + |strs[i]| + 1
  {
    assert strs[..i + 1][..i] == strs[..i];
  }

  lemma {:induction false} TotalGrows(strs: seq<Str>, i: nat, j: nat)
    requires i <= j <= |strs|
    ensures Total(strs[..i]) <= Total(strs[..j])
    decreases j
  {
    if i < j {
      TotalStep(strs, j - 1);
      TotalGrows(strs, i, j - 1);
    }
  }

  lemma PhdrsStep(auxv: seq<Aux>, i: nat)
    requires i < |auxv|
    ensures Phdrs(auxv[..i + 1]) == Phdrs(auxv[..i]) + if auxv[i].kind == AT_PHDR then 1 else 0
  {
    assert auxv[..i + 1][..i] == auxv[..i];
  }

  lemma {:induction false} PhdrsGrow(auxv: seq<Aux>, i: nat, j: nat)
    requires i <= j <= |auxv|
    ensures Phdrs(auxv[..i]) <= Phdrs(auxv[..j])
    decreases j
  {
    if i < j {
      PhdrsStep(auxv, j - 1);
      PhdrsGrow(auxv, i, j - 1);
    }
  }

  /** Where the strings and the program header end. */
  function End(argv: seq<Str>, envp: seq<Str>, auxv: seq<Aux>, phtsize: nat): nat {
    HEADER + VecLength(|argv|, |envp|, |auxv|) + Total(argv) + Total(envp) + if Phdrs(auxv) > 0 then phtsize else 0
  }

  /** `_elf32_calc_argsize` */
  method CalcArgSize(argv: seq<Str>, envp: seq<Str>, auxv: seq<Aux>, phtsize: nat) returns (size: nat)
    ensures size == ArgSize(argv, envp, auxv, phtsize)
  {
    size := 0;
    var i := 0;
    while i < |argv|
      invariant 0 <= i <= |argv| && size == Total(argv[..i])
    {
      TotalStep(argv, i);
      size := size + |argv[i]| + 1;
      i := i + 1;
    }
    assert argv[..i] == argv;
    size := size + (i + 1) * 4;
    i := 0;
    ghost var first := size;
    while i < |envp|
      invariant 0 <= i <= |envp| && size == first + Total(envp[..i])
    {
      TotalStep(envp, i);
      size := size + |envp[i]| + 1;
      i := i + 1;
    }
    assert envp[..i] == envp;
    size := size + (i + 1) * 4;
    i := 0;
    ghost var second := size;
    while i < |auxv|
      invariant 0 <= i <= |auxv| && size == second + Phdrs(auxv[..i]) * phtsize
    {
      PhdrsStep(auxv, i);
      if auxv[i].kind == AT_PHDR {
        OneMore(Phdrs(auxv[..i]), phtsize);
        size := size + phtsize;
      }
      i := i + 1;
    }
    assert auxv[..i] == auxv;
    size := size + (i + 1) * 8;
    size := size + 4 + 3 * 4;
  }

  lemma OneMore(n: nat, k: nat)
    ensures (n + 1) * k == n * k + k
  {
  }
}
