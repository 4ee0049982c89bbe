/** Building the argument block of a new program. */
module Elf {
  import opened Common
  import opened Words
  import opened ElfImage

  /** Two buffers agree from one index to another. */
  ghost predicate Agree(s: seq<byte>, t: seq<byte>, from: nat, to: nat) {
    |s| == |t| && from <= to <= |s| && forall k | from <= k < to :: t[k] == s[k]
  }

  lemma AgreeWord(s: seq<byte>, t: seq<byte>, from: nat, to: nat, o: nat)
    requires Agree(s, t, from, to) && from <= o && o + 4 <= to
    ensures WordAt(t, o) == WordAt(s, o)
  {
    assert t[o..o + 4] == s[o..o + 4];
  }

  lemma AgreeStr(s: seq<byte>, t: seq<byte>, from: nat, to: nat, o: nat, str: Str)
    requires Agree(s, t, from, to) && StrAt(s, o, str) && from <= o && o + |str| < to
    ensures StrAt(t, o, str)
  {
    assert t[o..o + |str|] == s[o..o + |str|];
  }

  /** Store a 32-bit word. */
  method PutWord(buf: array<byte>, o: nat, w: u32)
    requires o + 4 <= buf.Length
    modifies buf
    ensures WordAt(buf[..], o) == w
    ensures forall k | 0 <= k < buf.Length && !(o <= k < o + 4) :: buf[k] == old(buf[k])
  {
    var bytes := Pack(w);
    buf[o], buf[o + 1], buf[o + 2], buf[o + 3] := bytes[0], bytes[1], bytes[2], bytes[3];
    assert buf[..][o..o + 4] == bytes;
    UnpackPack(w);
  }

  /** `memcpy` into the buffer. */
  method PutBytes(buf: array<byte>, o: nat, data: seq<byte>)
    requires o + |data| <= buf.Length
    modifies buf
    ensures buf[..][o..o + |data|] == data
    ensures forall k | 0 <= k < buf.Length && !(o <= k < o + |data|) :: buf[k] == old(buf[k])
  {
    var i := 0;
    while i < |data|
      invariant 0 <= i <= |data| && forall k | 0 <= k < i :: buf[o + k] == data[k]
      invariant forall k | 0 <= k < buf.Length && !(o <= k < o + i) :: buf[k] == old(buf[k])
    {
      buf[o + i] := data[i];
      i := i + 1;
    }
  }

  /** `strcpy` into the buffer. */
  method PutStr(buf: array<byte>, o: nat, str: Str)
    requires o + |str| < buf.Length && 0 !in str
    modifies buf
    ensures StrAt(buf[..], o, str)
    ensures forall k | 0 <= k < buf.Length && !(o <= k <= o + |str|) :: buf[k] == old(buf[k])
  {
    var data := str + [0];
    PutBytes(buf, o, data);
    assert buf[..][o..o + |data|][..|str|] == str && buf[..][o..o + |data|][|str|] == 0;
    assert buf[..][o..o + |str|] == buf[..][o..o + |data|][..|str|];
  }

  // ---------------------------------------------------------------------
  // Vectors of strings
  // ---------------------------------------------------------------------

  /** Where the `i`-th string lies when they lie one after the other from `base` on. */
  ghost function Off(base: nat, strs: seq<Str>, i: nat): nat
    requires i <= |strs|
  {
    base + Total(strs[..i])
  }

  /** The `i`-th pointer of a vector leads to the `i`-th string. */
  ghost predicate Entry(s: seq<byte>, low: nat, vec: nat, base: nat, strs: seq<Str>, i: nat)
    requires i < |strs|
  {
    && vec + 4 * i + 4 <= |s| && WordAt(s, vec + 4 * i) == low + Off(base, strs, i)
    && StrAt(s, Off(base, strs, i), strs[i])
  }

  /** Later writes, to higher places in both areas, leave an entry alone. */
  lemma EntryFrame(s: seq<byte>, t: seq<byte>, low: nat, vec: nat, base: nat, strs: seq<Str>, i: nat, n: nat)
    requires i < n <= |strs| && Entry(s, low, vec, base, strs, i)
    requires Agree(s, t, vec, vec + 4 * n) && Agree(s, t, base, Off(base, strs, n))
    ensures Entry(t, low, vec, base, strs, i)
  {
    AgreeWord(s, t, vec, vec + 4 * n, vec + 4 * i);
    TotalStep(strs, i);
    TotalGrows(strs, i + 1, n);
    AgreeStr(s, t, base, Off(base, strs, n), Off(base, strs, i), strs[i]);
  }

  /** A vector with its strings from `base` on. */
  ghost predicate Filled(s: seq<byte>, low: nat, vec: nat, base: nat, strs: seq<Str>) {
    && (forall k | 0 <= k < |strs| :: Entry(s, low, vec, base, strs, k))
    && vec + 4 * |strs| + 4 <= |s| && WordAt(s, vec + 4 * |strs|) == 0
  }

  lemma FilledFrame(s: seq<byte>, t: seq<byte>, low: nat, vec: nat, base: nat, strs: seq<Str>)
    requires Filled(s, low, vec, base, strs)
    requires Agree(s, t, vec, vec + 4 * (|strs| + 1)) && Agree(s, t, base, base + Total(strs))
    ensures Filled(t, low, vec, base, strs)
  {
    assert strs[..|strs|] == strs;
    forall k | 0 <= k < |strs|
      ensures Entry(t, low, vec, base, strs, k)
    {
      EntryFrame(s, t, low, vec, base, strs, k, |strs|);
    }
    AgreeWord(s, t, vec, vec + 4 * (|strs| + 1), vec + 4 * |strs|);
  }

  lemma FilledIsVector(s: seq<byte>, low: nat, vec: nat, base: nat, strs: seq<Str>)
    requires Filled(s, low, vec, base, strs) && low > 0
    ensures Vector(s, low, vec, strs)
  {
    EntriesAreVector(s, low, vec, base, strs, 0);
    assert strs[0..] == strs;
  }

  /** Entries and a null pointer make a vector. */
  lemma {:induction false} EntriesAreVector(s: seq<byte>, low: nat, vec: nat, base: nat, strs: seq<Str>, i: nat)
    requires i <= |strs| && low > 0 && (forall k | 0 <= k < |strs| :: Entry(s, low, vec, base, strs, k))
    requires vec + 4 * |strs| + 4 <= |s| && WordAt(s, vec + 4 * |strs|) == 0
    ensures Vector(s, low, vec + 4 * i, strs[i..])
    decreases |strs| - i
  {
    if i < |strs| {
      assert Entry(s, low, vec, base, strs, i);
      EntriesAreVector(s, low, vec, base, strs, i + 1);
      assert strs[i..][1..] == strs[i + 1..] && strs[i..][0] == strs[i];
    }
  }

  /**
   * One of the two loops of `_elf32_load_args` over strings: pointers go to `vec`, strings to
   * `base`. Nothing else in the buffer changes.
   */
  method PutVector(buf: array<byte>, low: nat, vec: nat, base: nat, strs: seq<Str>) returns (vec': nat, base': nat)
    requires vec + 4 * (|strs| + 1) <= base && base + Total(strs) <= buf.Length && 0 < low
      && low + buf.Length < 0x1_0000_0000
    requires forall i | 0 <= i < |strs| :: 0 !in strs[i]
    modifies buf
    ensures vec' == vec + 4 * (|strs| + 1) && base' == base + Total(strs) && Filled(buf[..], low, vec, base, strs)
    ensures forall k | 0 <= k < buf.Length && !(vec <= k < vec') && !(base <= k < base') :: buf[k] == old(buf[k])
  {
    vec', base' := vec, base;
    assert strs[..|strs|] == strs;
    var i := 0;
    while i < |strs|
      invariant 0 <= i <= |strs| && vec' == vec + 4 * i && base' == Off(base, strs, i)
      invariant forall k | 0 <= k < i :: Entry(buf[..], low, vec, base, strs, k)
      invariant forall k | 0 <= k < buf.Length && !(vec <= k < vec') && !(base <= k < base') :: buf[k] == old(buf[k])
    {
      PutOne(buf, low, vec, base, strs, i, vec', base');
      TotalStep(strs, i);
      TotalGrows(strs, i + 1, |strs|);
      base', vec' := base' + |strs[i]| + 1, vec' + 4;
      i := i + 1;
    }
    EndVector(buf, low, vec, base, strs);
    vec' := vec' + 4;
  }

  /** The null pointer behind the entries. */
  method EndVector(buf: array<byte>, ghost low: nat, vec: nat, ghost base: nat, strs: seq<Str>)
    requires vec + 4 * (|strs| + 1) <= base && base + Total(strs) <= buf.Length && 0 < low
    requires forall k | 0 <= k < |strs| :: Entry(buf[..], low, vec, base, strs, k)
    modifies buf
    ensures Filled(buf[..], low, vec, base, strs)
    ensures forall k | 0 <= k < buf.Length && !(vec + 4 * |strs| <= k < vec + 4 * |strs| + 4) :: buf[k] == old(buf[k])
  {
    ghost var was := buf[..];
    PutWord(buf, vec + 4 * |strs|, 0);
    assert strs[..|strs|] == strs;
    forall k | 0 <= k < |strs|
      ensures Entry(buf[..], low, vec, base, strs, k)
    {
      EntryFrame(was, buf[..], low, vec, base, strs, k, |strs|);
    }
  }

  /** One string and the pointer to it. */
  method PutOne(buf: array<byte>, low: nat, ghost vec: nat, ghost base: nat, strs: seq<Str>, i: nat, at: nat, to: nat)
    requires i < |strs| && vec + 4 * (|strs| + 1) <= base && base + Total(strs) <= buf.Length
      && low + buf.Length < 0x1_0000_0000
    requires at == vec + 4 * i && to == Off(base, strs, i) && 0 !in strs[i]
    requires forall k | 0 <= k < i :: Entry(buf[..], low, vec, base, strs, k)
    modifies buf
    ensures forall k | 0 <= k <= i :: Entry(buf[..], low, vec, base, strs, k)
    ensures forall k | 0 <= k < buf.Length && !(at <= k < at + 4) && !(to <= k <= to + |strs[i]|) ::
      buf[k] == old(buf[k])
  {
    ghost var was := buf[..];
    TotalStep(strs, i);
    TotalGrows(strs, i + 1, |strs|);
    assert strs[..|strs|] == strs;
    PutStr(buf, to, strs[i]);
    ghost var mid := buf[..];
    PutWord(buf, at, low + to);
    AgreeStr(mid, buf[..], to, to + |strs[i]| + 1, to, strs[i]);
    forall k | 0 <= k < i
      ensures Entry(buf[..], low, vec, base, strs, k)
    {
      EntryFrame(was, buf[..], low, vec, base, strs, k, i);
    }
  }

  // ---------------------------------------------------------------------
  // The auxiliary vector
  // ---------------------------------------------------------------------

  /** An entry as it is written: the program header lies at `base`. */
  ghost predicate AuxEntry(s: seq<byte>, low: nat, o: nat, base: nat, a: Aux, pht: seq<byte>) {
    && o + 8 <= |s| && WordAt(s, o) == a.kind && WordAt(s, o + 4) == (if a.kind == AT_PHDR then low + base else a.value)
    && (a.kind == AT_PHDR ==> base + |pht| <= |s| && s[base..base + |pht|] == pht)
  }

  lemma AuxFrame(s: seq<byte>, t: seq<byte>, low: nat, vec: nat, n: nat, i: nat, base: nat, a: Aux, pht: seq<byte>)
    requires AuxEntry(s, low, vec + 8 * i, base, a, pht) && i < n && Agree(s, t, vec, vec + 8 * n)
    requires a.kind == AT_PHDR ==> t[base..base + |pht|] == pht
    ensures AuxEntry(t, low, vec + 8 * i, base, a, pht)
  {
    AgreeWord(s, t, vec, vec + 8 * n, vec + 8 * i);
    AgreeWord(s, t, vec, vec + 8 * n, vec + 8 * i + 4);
  }

  lemma {:induction false} EntriesAreAux(s: seq<byte>, low: nat, vec: nat, base: nat, auxv: seq<Aux>, pht: seq<byte>,
    i: nat)
    requires i <= |auxv| && forall k | 0 <= k < |auxv| ::
      auxv[k].kind != 0
      && AuxEntry(s, low, vec + 8 * k, base, auxv[k], pht)
    requires vec + 8 * |auxv| + 8 <= |s| && WordAt(s, vec + 8 * |auxv|) == 0
    ensures AuxVector(s, low, vec + 8 * i, auxv[i..], pht)
    decreases |auxv| - i
  {
    if i < |auxv| {
      assert AuxEntry(s, low, vec + 8 * i, base, auxv[i], pht);
      EntriesAreAux(s, low, vec, base, auxv, pht, i + 1);
      assert auxv[i..][1..] == auxv[i + 1..] && auxv[i..][0] == auxv[i];
    }
  }

  /** One auxiliary entry; every entry for the program header shares one copy of it. */
  method PutAux(buf: array<byte>, low: nat, at: nat, base: nat, a: Aux, pht: seq<byte>)
    requires at + 8 <= base <= buf.Length && low + buf.Length < 0x1_0000_0000
      && (a.kind == AT_PHDR ==> base + |pht| <= buf.Length)
    modifies buf
    ensures AuxEntry(buf[..], low, at, base, a, pht)
    ensures forall k | 0 <= k < buf.Length && !(at <= k < at + 8)
      && !(a.kind == AT_PHDR && base <= k < base + |pht|) :: buf[k] == old(buf[k])
  {
    PutWord(buf, at, a.kind);
    ghost var one := buf[..];
    PutWord(buf, at + 4, a.value);
    AgreeWord(one, buf[..], at, at + 4, at);
    if a.kind == AT_PHDR {
      PutBytes(buf, base, pht);
      ghost var two := buf[..];
      PutWord(buf, at + 4, low + base);
      AgreeWord(one, buf[..], at, at + 4, at);
      assert buf[..][base..base + |pht|] == two[base..base + |pht|];
    }
  }

  /** The program header is at `base` if it has been needed so far. */
  ghost predicate PhtThere(s: seq<byte>, base: nat, auxv: seq<Aux>, n: nat, pht: seq<byte>)
    requires n <= |auxv|
  {
    Phdrs(auxv[..n]) > 0 ==> base + |pht| <= |s| && s[base..base + |pht|] == pht
  }

  ghost predicate AuxEntries(s: seq<byte>, low: nat, vec: nat, base: nat, auxv: seq<Aux>, n: nat, pht: seq<byte>)
    requires n <= |auxv|
  {
    PhtThere(s, base, auxv, n, pht) && forall k | 0 <= k < n :: AuxEntry(s, low, vec + 8 * k, base, auxv[k], pht)
  }

  lemma AuxEntriesFrame(s: seq<byte>, t: seq<byte>, low: nat, vec: nat, base: nat, auxv: seq<Aux>, n: nat,
    pht: seq<byte>)
    requires n <= |auxv| && AuxEntries(s, low, vec, base, auxv, n, pht) && Agree(s, t, vec, vec + 8 * n)
    requires PhtThere(t, base, auxv, n, pht)
    ensures AuxEntries(t, low, vec, base, auxv, n, pht)
  {
    forall k | 0 <= k < n
      ensures AuxEntry(t, low, vec + 8 * k, base, auxv[k], pht)
    {
      PhdrsStep(auxv, k);
      PhdrsGrow(auxv, k + 1, n);
      AuxFrame(s, t, low, vec, n, k, base, auxv[k], pht);
    }
  }

  lemma PhtStays(s: seq<byte>, t: seq<byte>, base: nat, auxv: seq<Aux>, n: nat, pht: seq<byte>)
    requires n <= |auxv| && PhtThere(s, base, auxv, n, pht) && |t| == |s|
    requires forall k | base <= k < |s| :: t[k] == s[k]
    ensures PhtThere(t, base, auxv, n, pht)
  {
    if Phdrs(auxv[..n]) > 0 {
      assert t[base..base + |pht|] == s[base..base + |pht|];
    }
  }

  /** One more auxiliary entry behind `i` others. */
  method PutNextAux(buf: array<byte>, low: nat, vec: nat, base: nat, auxv: seq<Aux>, i: nat, pht: seq<byte>)
    requires i < |auxv| && vec + 8 * (|auxv| + 1) <= base && base + (if Phdrs(auxv) > 0 then |pht| else 0) <= buf.Length
    requires low + buf.Length < 0x1_0000_0000 && AuxEntries(buf[..], low, vec, base, auxv, i, pht)
    modifies buf
    ensures AuxEntries(buf[..], low, vec, base, auxv, i + 1, pht)
    ensures forall k | 0 <= k < buf.Length && !(vec + 8 * i <= k < vec + 8 * i + 8)
                       && !(auxv[i].kind == AT_PHDR && base <= k < base + |pht|) :: buf[k] == old(buf[k])
  {
    assert auxv[..|auxv|] == auxv;
    PhdrsStep(auxv, i);
    PhdrsGrow(auxv, i + 1, |auxv|);
    ghost var was := buf[..];
    PutAux(buf, low, vec + 8 * i, base, auxv[i], pht);
    if auxv[i].kind != AT_PHDR {
      PhtStays(was, buf[..], base, auxv, i, pht);
    }
    AuxEntriesFrame(was, buf[..], low, vec, base, auxv, i, pht);
  }

  /** The loop over the auxiliary vector. */
  method PutAuxVector(buf: array<byte>, low: nat, vec: nat, base: nat, auxv: seq<Aux>, pht: seq<byte>)
    requires vec + 8 * (|auxv| + 1) <= base && base + (if Phdrs(auxv) > 0 then |pht| else 0) <= buf.Length
    requires low + buf.Length < 0x1_0000_0000 && forall k | 0 <= k < |auxv| :: auxv[k].kind != 0
    modifies buf
    ensures AuxVector(buf[..], low, vec, auxv, pht)
    ensures forall k | 0 <= k < buf.Length && !(vec <= k < vec + 8 * (|auxv| + 1))
                       && !(Phdrs(auxv) > 0 && base <= k < base + |pht|) :: buf[k] == old(buf[k])
  {
    var i := 0;
    while i < |auxv|
      invariant 0 <= i <= |auxv| && AuxEntries(buf[..], low, vec, base, auxv, i, pht)
      invariant forall k | 0 <= k < buf.Length && !(vec <= k < vec + 8 * i)
                           && !(Phdrs(auxv[..i]) > 0 && base <= k < base + |pht|) :: buf[k] == old(buf[k])
    {
      PhdrsStep(auxv, i);
      PutNextAux(buf, low, vec, base, auxv, i, pht);
      i := i + 1;
    }
    assert auxv[..i] == auxv;
    EndAux(buf, low, vec, base, auxv, pht);
  }

  /** The entry of kind zero behind the others. */
  method EndAux(buf: array<byte>, ghost low: nat, vec: nat, ghost base: nat, auxv: seq<Aux>, ghost pht: seq<byte>)
    requires vec + 8 * (|auxv| + 1) <= base <= buf.Length && AuxEntries(buf[..], low, vec, base, auxv, |auxv|, pht)
    requires forall k | 0 <= k < |auxv| :: auxv[k].kind != 0
    modifies buf
    ensures AuxVector(buf[..], low, vec, auxv, pht)
    ensures forall k | 0 <= k < buf.Length && !(vec + 8 * |auxv| <= k < vec + 8 * |auxv| + 8) :: buf[k] == old(buf[k])
  {
    ghost var was, n := buf[..], |auxv|;
    PutWord(buf, vec + 8 * |auxv|, 0);
    PhtStays(was, buf[..], base, auxv, n, pht);
    AuxEntriesFrame(was, buf[..], low, vec, base, auxv, n, pht);
    EntriesAreAux(buf[..], low, vec, base, auxv, pht, 0);
    assert auxv[0..] == auxv;
  }

  // ---------------------------------------------------------------------
  // The whole block
  // ---------------------------------------------------------------------

  /** Both vectors of strings. */
  method PutStrings(buf: array<byte>, low: nat, vec: nat, base: nat, argv: seq<Str>, envp: seq<Str>,
    ghost envVec: nat, ghost envBase: nat)
    returns (vec': nat, base': nat)
    requires vec + 4 * (|argv| + 1 + |envp| + 1) <= base && base + Total(argv) + Total(envp) <= buf.Length
    requires envVec == vec + 4 * (|argv| + 1) && envBase == base + Total(argv)
    requires 0 < low && low + buf.Length < 0x1_0000_0000
    requires (forall i | 0 <= i < |argv| :: 0 !in argv[i]) && (forall i | 0 <= i < |envp| :: 0 !in envp[i])
    modifies buf
    ensures vec' == vec + 4 * (|argv| + 1 + |envp| + 1) && base' == base + Total(argv) + Total(envp)
    ensures Filled(buf[..], low, vec, base, argv) && Filled(buf[..], low, envVec, envBase, envp)
    ensures forall k | 0 <= k < buf.Length && (k < vec || base' <= k) :: buf[k] == old(buf[k])
  {
    vec', base' := PutVector(buf, low, vec, base, argv);
    ghost var one := buf[..];
    vec', base' := PutVector(buf, low, vec', base', envp);
    FilledFrame(one, buf[..], low, vec, base, argv);
  }

  /** All three vectors. */
  method PutVectors(buf: array<byte>, low: nat, vec: nat, base: nat, argv: seq<Str>, envp: seq<Str>, auxv: seq<Aux>,
    pht: seq<byte>,
                    ghost envVec: nat, ghost envBase: nat) returns (auxVec: nat)
    requires vec + VecLength(|argv|, |envp|, |auxv|) <= base && envVec == vec + 4 * (|argv| + 1)
      && envBase == base + Total(argv)
    requires base + Total(argv) + Total(envp) + (if Phdrs(auxv) > 0 then |pht| else 0) <= buf.Length
    requires 0 < low && low + buf.Length < 0x1_0000_0000
    requires (forall i | 0 <= i < |argv| :: 0 !in argv[i]) && (forall i | 0 <= i < |envp| :: 0 !in envp[i])
    requires forall k | 0 <= k < |auxv| :: auxv[k].kind != 0
    modifies buf
    ensures Filled(buf[..], low, vec, base, argv) && Filled(buf[..], low, envVec, envBase, envp)
    ensures auxVec == vec + 4 * (|argv| + 1 + |envp| + 1) && AuxVector(buf[..], low, auxVec, auxv, pht)
    ensures forall k | 0 <= k < buf.Length && (k < vec || base + Total(argv) + Total(envp) + (if Phdrs(auxv) > 0
      then |pht| else 0) <= k) ::
              buf[k] == old(buf[k])
  {
    var end;
    auxVec, end := PutStrings(buf, low, vec, base, argv, envp, envVec, envBase);
    ghost var two := buf[..];
    PutAuxVector(buf, low, auxVec, end, auxv, pht);
    FilledFrame(two, buf[..], low, vec, base, argv);
    FilledFrame(two, buf[..], low, envVec, envBase, envp);
  }

  /**
   * `_elf32_load_args`, up to the copy into user space: a block that a program can read its
   * arguments from, and nothing written behind the strings and the program header.
   */
  method LoadArgs(buf: array<byte>, low: nat, argv: seq<Str>, envp: seq<Str>, auxv: seq<Aux>, pht: seq<byte>)
    requires buf.Length == ArgSize(argv, envp, auxv, |pht|) && 0 < low && low + buf.Length < 0x1_0000_0000
    requires (forall i | 0 <= i < |argv| :: 0 !in argv[i]) && (forall i | 0 <= i < |envp| :: 0 !in envp[i])
    requires forall k | 0 <= k < |auxv| :: auxv[k].kind != 0
    modifies buf
    ensures buf[..] in Images(low, argv, envp, auxv, pht)
    ensures forall k | End(argv, envp, auxv, |pht|) <= k < buf.Length :: buf[k] == old(buf[k])
  {
    PhtFits(auxv, |pht|);
    PutHeader(buf, low, |argv|, |envp|);
    ghost var head := buf[..];
    var base := HEADER + VecLength(|argv|, |envp|, |auxv|);
    ghost var envVec, envBase := HEADER + 4 * (|argv| + 1), base + Total(argv);
    var auxVec := PutVectors(buf, low, HEADER, base, argv, envp, auxv, pht, envVec, envBase);
    HeaderStays(head, buf[..], low, |argv|, |envp|);
    ImageFrom(buf[..], low, argv, envp, auxv, pht, base, envVec, envBase, auxVec);
  }

  lemma ImageFrom(s: seq<byte>, low: nat, argv: seq<Str>, envp: seq<Str>, auxv: seq<Aux>, pht: seq<byte>,
                  base: nat, envVec: nat, envBase: nat, auxVec: nat)
    requires Header(s, low, |argv|, |envp|) && low > 0
    requires envVec == HEADER + 4 * (|argv| + 1) && auxVec == HEADER + 4 * (|argv| + 1 + |envp| + 1)
    requires Filled(s, low, HEADER, base, argv) && Filled(s, low, envVec, envBase, envp)
      && AuxVector(s, low, auxVec, auxv, pht)
    ensures s in Images(low, argv, envp, auxv, pht)
  {
    VectorFrom(s, low, WordAt(s, 4), HEADER, base, argv);
    VectorFrom(s, low, WordAt(s, 8), envVec, envBase, envp);
    AuxFrom(s, low, WordAt(s, 12), auxVec, auxv, pht);
  }

  lemma VectorFrom(s: seq<byte>, low: nat, p: nat, vec: nat, base: nat, strs: seq<Str>)
    requires p == low + vec && Filled(s, low, vec, base, strs) && low > 0
    ensures LeadsTo(s, low, p, strs)
  {
    FilledIsVector(s, low, vec, base, strs);
  }

  lemma AuxFrom(s: seq<byte>, low: nat, p: nat, vec: nat, auxv: seq<Aux>, pht: seq<byte>)
    requires p == low + vec && AuxVector(s, low, vec, auxv, pht)
    ensures LeadsToAux(s, low, p, auxv, pht)
  {
  }

  ghost predicate Header(s: seq<byte>, low: nat, argc: nat, envc: nat) {
    && |s| >= HEADER && WordAt(s, 0) == argc && WordAt(s, 4) == low + HEADER
    && WordAt(s, 8) == low + HEADER + 4 * (argc + 1) && WordAt(s, 12) == low + HEADER + 4 * (argc + 1 + envc + 1)
  }

  lemma HeaderStays(s: seq<byte>, t: seq<byte>, low: nat, argc: nat, envc: nat)
    requires Header(s, low, argc, envc) && Agree(s, t, 0, HEADER)
    ensures Header(t, low, argc, envc)
  {
    AgreeWord(s, t, 0, HEADER, 0);
    AgreeWord(s, t, 0, HEADER, 4);
    AgreeWord(s, t, 0, HEADER, 8);
    AgreeWord(s, t, 0, HEADER, 12);
  }

  /** The count and the three pointers. */
  method PutHeader(buf: array<byte>, low: nat, argc: nat, envc: nat)
    requires buf.Length >= HEADER + 4 * (argc + 1 + envc + 1) && low + buf.Length < 0x1_0000_0000
    modifies buf
    ensures Header(buf[..], low, argc, envc) && forall k | HEADER <= k < buf.Length :: buf[k] == old(buf[k])
  {
    PutWord(buf, 0, argc);
    ghost var a := buf[..];
    PutWord(buf, 4, low + HEADER);
    ghost var b := buf[..];
    PutWord(buf, 8, low + HEADER + 4 * (argc + 1));
    ghost var c := buf[..];
    PutWord(buf, 12, low + HEADER + 4 * (argc + 1 + envc + 1));
    AgreeWord(a, buf[..], 0, 4, 0);
    AgreeWord(b, buf[..], 4, 8, 4);
    AgreeWord(c, buf[..], 8, 12, 8);
  }

  lemma PhtFits(auxv: seq<Aux>, phtsize: nat)
    ensures (if Phdrs(auxv) > 0 then phtsize else 0) <= Phdrs(auxv) * phtsize
  {
    if Phdrs(auxv) > 0 {
      OneMore(Phdrs(auxv) - 1, phtsize);
    }
  }

  /**
   * What is written ends at the end of the block if and only if the program header is asked for
   * once at most (or is empty).
   */
  lemma EndsExactly(argv: seq<Str>, envp: seq<Str>, auxv: seq<Aux>, phtsize: nat)
    ensures var end := End(argv, envp, auxv, phtsize);
      end <= ArgSize(argv, envp, auxv, phtsize) && (end == ArgSize(argv, envp, auxv, phtsize) <==>
        Phdrs(auxv) <= 1 || phtsize == 0)
  {
    OnceAtMost(Phdrs(auxv), phtsize);
  }

  lemma OnceAtMost(n: nat, k: nat)
    ensures (if n > 0 then k else 0) <= n * k && ((if n > 0 then k else 0) == n * k <==> n <= 1 || k == 0)
  {
    if n > 1 {
      OneMore(n - 1, k);
      OneMore(n - 2, k);
    }
  }
}
