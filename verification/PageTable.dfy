/** The two-level page table as a map from pages to entries. */
module PageTable {

  const ENTRIES := 1024
  /** User memory, in pages. */
  const USER_LOW := 0x400
  const USER_HIGH := 0xc0000

  /** Bit 0 of an entry. */
  const PRESENT: nat := 0

  /** An address of a page, and the bits below it. */
  datatype Entry = Entry(addr: nat, flags: set<nat>)

  const ZERO := Entry(0, {})

  class PageDir {
    const physical: array<Entry>
    const tables: array<array?<Entry>>

    /** The tables that are there are distinct, and apart from the directory itself. */
    ghost predicate Apart()
      reads this, physical, tables
    {
      && physical.Length == tables.Length == ENTRIES
      && (forall i | 0 <= i < ENTRIES && tables[i] != null :: tables[i].Length == ENTRIES && tables[i] != physical)
      && forall i, j | 0 <= i < j < ENTRIES && tables[i] != null :: tables[i] != tables[j]
    }

    /** A table is present just when it is there. */
    ghost predicate Valid()
      reads this, physical, tables
    {
      Apart() && forall i | 0 <= i < ENTRIES :: PRESENT in physical[i].flags <==> tables[i] != null
    }

    /** A directory without tables. */
    constructor ()
      ensures Valid() && Tables() == {} && fresh(physical) && fresh(tables)
      ensures forall q | 0 <= q < ENTRIES * ENTRIES :: At(q) == ZERO
    {
      physical := new Entry[ENTRIES](_ => ZERO);
      tables := new array?<Entry>[ENTRIES](_ => null);
    }

    ghost function Tables(): set<object>
      reads this, tables
    {
      set i | 0 <= i < tables.Length && tables[i] != null :: tables[i]
    }

    /** The entry for a page; zero if there is no table for it. */
    ghost function At(p: nat): Entry
      requires Apart() && p < ENTRIES * ENTRIES
      reads this, physical, tables, Tables()
    {
      var t := tables[p / ENTRIES];
      if t == null then ZERO else assert t in Tables(); t[p % ENTRIES]
    }

    /** Zero the entries of a table from one index to another. */
    static method Clear(t: array<Entry>, from: nat, to: nat)
      requires from <= to <= t.Length
      modifies t
      ensures forall i | 0 <= i < t.Length :: t[i] == if from <= i < to then ZERO else old(t[i])
    {
      var i := from;
      while i < to
        invariant from <= i <= to
        invariant forall j | 0 <= j < t.Length :: t[j] == if from <= j < i then ZERO else old(t[j])
      {
        t[i] := ZERO;
        i := i + 1;
      }
    }

    /** `pt_unmap` */
    method Unmap(p: nat)
      requires Valid() && USER_LOW <= p < USER_HIGH
      modifies Tables()
      ensures Valid() && Tables() == old(Tables())
      ensures forall q | 0 <= q < ENTRIES * ENTRIES :: At(q) == if q == p then ZERO else old(At(q))
    {
      var t := tables[p / ENTRIES];
      if PRESENT in physical[p / ENTRIES].flags {
        t[p % ENTRIES] := ZERO;
      }
    }

    /**
     * `pt_map`. `room` says whether a page can be allocated for a new table, and `where` is its
     * address. One entry changes; the present bits stay in step with the tables if and only if a
     * new table is entered as present.
     */
    method Map(p: nat, addr: nat, pdflags: set<nat>, ptflags: set<nat>, room: bool, where: nat) returns (ok: bool)
      requires Valid() && USER_LOW <= p < USER_HIGH
      modifies physical, tables, Tables()
      ensures Apart() && fresh(Tables() - old(Tables()))
      ensures ok <==> room || old(tables[p / ENTRIES]) != null
      ensures forall q | 0 <= q < ENTRIES * ENTRIES :: At(q) == if ok && q == p then Entry(addr, ptflags)
        else old(At(q))
      ensures forall d | 0 <= d < ENTRIES ::
        physical[d] ==
        if !ok || d != p / ENTRIES then old(physical[d])
        else if old(tables[d]) == null then Entry(where, pdflags)
        else Entry(old(physical[d].addr), old(physical[d].flags) + pdflags)
      ensures forall d | 0 <= d < ENTRIES && (d != p / ENTRIES || old(tables[d]) != null) :: tables[d] == old(tables[d])
      ensures Valid() <==> !ok || old(tables[p / ENTRIES]) != null || PRESENT in pdflags
    {
      var d := p / ENTRIES;
      var t;
      if PRESENT !in physical[d].flags {
        if !room {
          return false;
        }
        t := new Entry[ENTRIES](_ => ZERO);
        physical[d] := Entry(where, pdflags);
        tables[d] := t;
      } else {
        physical[d] := physical[d].(flags := physical[d].flags + pdflags);
        t := tables[d];
      }
      assert t in Tables();
      t[p % ENTRIES] := Entry(addr, ptflags);
      ok := true;
    }

    /** Zero the part of the table of page `p` from one index to another, if there is one. */
    method ClearPart(d: nat, from: nat, to: nat)
      requires Valid() && d < ENTRIES && from <= to <= ENTRIES
      modifies Tables()
      ensures Valid() && Tables() == old(Tables())
      ensures forall q | 0 <= q < ENTRIES * ENTRIES ::
        At(q) == if q / ENTRIES == d && from <= q % ENTRIES < to then ZERO else old(At(q))
    {
      if PRESENT in physical[d].flags {
        var t := tables[d];
        assert t in Tables();
        Clear(t, from, to);
      }
    }

    /** Take out the tables from one index to another. */
    method FreeTables(from: nat, to: nat)
      requires Valid() && to <= ENTRIES
      modifies physical, tables
      ensures Valid() && Tables() <= old(Tables())
      ensures forall i | 0 <= i < ENTRIES :: tables[i] == if from <= i < to then null else old(tables[i])
      ensures forall q | 0 <= q < ENTRIES * ENTRIES :: At(q) == if from <= q / ENTRIES < to then ZERO else old(At(q))
    {
      var i := from;
      while i < to
        invariant from <= i && (if from <= to then i <= to else i == from) && Valid() && Tables() <= old(Tables())
        invariant forall j | 0 <= j < ENTRIES :: tables[j] == if from <= j < i then null else old(tables[j])
        invariant forall j | 0 <= j < ENTRIES && !(from <= j < i) :: physical[j] == old(physical[j])
      {
        if PRESENT in physical[i].flags {
          tables[i] := null;
          physical[i] := ZERO;
        }
        i := i + 1;
      }
    }

    /**
     * `pt_unmap_range`, for pages `low` to `high`. Every page in the range is unmapped. The rest
     * of the table goes too if and only if the range starts and ends strictly inside one table;
     * otherwise nothing else changes. Only tables wholly inside the range are given up.
     */
    method UnmapRange(low: nat, high: nat)
      requires Valid() && USER_LOW <= low < high <= USER_HIGH
      modifies physical, tables, Tables()
      ensures Valid() && Tables() <= old(Tables())
      ensures forall q | 0 <= q < ENTRIES * ENTRIES ::
        At(q) == if Unmapped(low, high, q) then ZERO else old(At(q))
      ensures forall i | 0 <= i < ENTRIES ::
        tables[i] == if low <= i * ENTRIES && (i + 1) * ENTRIES <= high then null else old(tables[i])
    {
      var index := low % ENTRIES;
      if index != 0 {
        ClearPart(low / ENTRIES, index, ENTRIES);
      }
      var from := low + (ENTRIES - index) % ENTRIES;
      index := high % ENTRIES;
      if index != 0 {
        ClearPart(high / ENTRIES, 0, index);
      }
      var to := high - index;
      FreeTables(from / ENTRIES, to / ENTRIES);
    }
  }

  /** Both ends lie strictly inside the same table. */
  predicate InsideOne(low: nat, high: nat) {
    low / ENTRIES == high / ENTRIES && low % ENTRIES != 0 && high % ENTRIES != 0
  }

  /** The pages that unmapping a range takes away. */
  predicate Unmapped(low: nat, high: nat, q: nat) {
    low <= q < high || (InsideOne(low, high) && q / ENTRIES == low / ENTRIES)
  }

  /** It takes away just the range if and only if the range is not strictly inside one table. */
  lemma UnmapIsExactUnlessInsideOne(low: nat, high: nat)
    requires low < high
    ensures (forall q: nat :: Unmapped(low, high, q) <==> low <= q < high) <==> !InsideOne(low, high)
  {
    if InsideOne(low, high) {
      assert Unmapped(low, high, low - 1);
    }
  }

  /** A page in front of the range is lost with it when both lie in one table. */
  method UnmapsNeighbour() returns (before: Entry, after: Entry)
    ensures before == Entry(7, {PRESENT}) && after == ZERO && !(0x402 <= 0x401 < 0x403)
  {
    var pd := new PageDir();
    var ok := pd.Map(0x401, 7, {PRESENT}, {PRESENT}, true, 1);
    assert pd.At(0x401) == Entry(7, {PRESENT});
    before := pd.tables[1][1];
    pd.UnmapRange(0x402, 0x403);
    assert Unmapped(0x402, 0x403, 0x401) && pd.At(0x401) == ZERO;
    after := pd.tables[1][1];
  }
}
