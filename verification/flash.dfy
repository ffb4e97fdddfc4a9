/** The internal flash: sector table, range erase, programming of cells that can only lose bits, comparison. */
module Flash {
  import opened Bytes

  const EARGVAL: int := -3

  // ---- the sector table ----

  datatype Sector = Sector(addr: nat, size: nat)

  const BASE: nat := 0x0800_0000

  const SECTORS: seq<Sector> := [
    Sector(0x0800_0000, 0x4000), Sector(0x0800_4000, 0x4000), Sector(0x0800_8000, 0x4000),
    Sector(0x0800_c000, 0x4000), Sector(0x0801_0000, 0x1_0000), Sector(0x0802_0000, 0x2_0000)]

  /** Sectors follow each other without gaps and never get smaller. */
  predicate Contiguous(t: seq<Sector>) {
    && t != [] && (forall i :: 0 <= i < |t| ==> t[i].size > 0)
    && (forall i :: 0 <= i < |t| - 1 ==> t[i + 1].addr == t[i].addr + t[i].size)
    && (forall i :: 0 <= i < |t| - 1 ==> t[i].size <= t[i + 1].size)
  }

  lemma SectorsContiguous()
    ensures Contiguous(SECTORS) && SECTORS[0].addr == BASE && End(SECTORS, 5) == BASE + 0x4_0000
    ensures |SECTORS| == 6 && (forall i :: 0 <= i < 4 ==> SECTORS[i].size == 16 * 1024)
    ensures SECTORS[4].size == 64 * 1024 && SECTORS[5].size == 128 * 1024
  {
  }

  /** First address past sector i. */
  function End(t: seq<Sector>, i: nat): nat
    requires i < |t|
  {
    t[i].addr + t[i].size
  }

  predicate Holds(s: Sector, a: nat) {
    s.addr <= a < s.addr + s.size
  }

  lemma {:induction false} Ordered(t: seq<Sector>, i: nat, j: nat)
    requires Contiguous(t) && i < j < |t|
    ensures End(t, i) <= t[j].addr
  {
    if i + 1 < j {
      Ordered(t, i, j - 1);
    }
  }

  lemma Disjoint(t: seq<Sector>, i: nat, j: nat, a: nat)
    requires Contiguous(t) && i < |t| && j < |t|
    ensures Holds(t[i], a) && Holds(t[j], a) ==> i == j
  {
    if j < i { Ordered(t, j, i); } else if i < j { Ordered(t, i, j); }
  }

  /** Some sector of a contiguous table holds every address between its ends. */
  ghost function FindSector(t: seq<Sector>, a: nat, n: nat): (i: nat)
    requires Contiguous(t) && n < |t| && t[0].addr <= a < End(t, n)
    ensures i <= n && Holds(t[i], a)
  {
    if a >= t[n].addr then n else FindSector(t, a, n - 1)
  }

  lemma SomeSectorHolds(t: seq<Sector>, a: nat)
    requires Contiguous(t)
    ensures t[0].addr <= a < End(t, |t| - 1) ==> exists j :: 0 <= j < |t| && Holds(t[j], a)
  {
    if t[0].addr <= a < End(t, |t| - 1) {
      assert Holds(t[FindSector(t, a, |t| - 1)], a);
    }
  }

  /** Flash_GetSectorIDForAddr: the one sector that holds the address, or an error when none does. */
  method GetSectorIDForAddr(t: seq<Sector>, a: nat) returns (id: int)
    requires Contiguous(t)
    ensures id == EFATAL || 0 <= id < |t|
    ensures id >= 0 ==> Holds(t[id], a) && forall j :: 0 <= j < |t| && Holds(t[j], a) ==> j == id
    ensures id < 0 <==> a < t[0].addr || a >= End(t, |t| - 1)
  {
    for i := 0 to |t|
      invariant forall j :: 0 <= j < i ==> !Holds(t[j], a)
    {
      if a >= t[i].addr && a < t[i].addr + t[i].size {
        forall j | 0 <= j < |t|
          ensures Holds(t[j], a) ==> j == i
        {
          Disjoint(t, i, j, a);
        }
        if 0 < i { Ordered(t, 0, i); }
        if i < |t| - 1 { Ordered(t, i, |t| - 1); }
        return i;
      }
    }
    SomeSectorHolds(t, a);
    id := EFATAL;
  }

  // ---- what a range erase covers ----

  /** The last sector the loop erases when it stands at sector i with `left` bytes to go. */
  function LastErased(t: seq<Sector>, i: nat, left: nat): (j: nat)
    requires i < |t|
    ensures i <= j < |t|
    decreases |t| - i
  {
    if t[i].size >= left || i + 1 == |t| then i else LastErased(t, i + 1, left - t[i].size)
  }

  predicate Meets(s: Sector, lo: nat, hi: nat) {
    s.addr < hi && lo < s.addr + s.size
  }

  /** The sectors erased are exactly those that meet the range as counted from the start of the first
      sector; an empty range counts as one byte. */
  lemma {:induction false} LastErasedExact(t: seq<Sector>, i: nat, left: nat, j: nat)
    requires Contiguous(t) && i < |t| && j < |t|
    ensures i <= j <= LastErased(t, i, left) <==> Meets(t[j], t[i].addr, t[i].addr + (if left == 0 then 1 else left))
    decreases |t| - i
  {
    if j < i {
      Ordered(t, j, i);
    } else if i < j {
      Ordered(t, i, j);
    }
    if !(t[i].size >= left || i + 1 == |t|) {
      LastErasedExact(t, i + 1, left - t[i].size, j);
    }
  }

  /** The range fits into the erased sectors if and only if it ends inside the table. */
  lemma {:induction false} ErasedCovers(t: seq<Sector>, i: nat, left: nat)
    requires Contiguous(t) && i < |t|
    ensures End(t, LastErased(t, i, left)) >= t[i].addr + left <==> t[i].addr + left <= End(t, |t| - 1)
    decreases |t| - i
  {
    if t[i].size >= left {
      if i < |t| - 1 { Ordered(t, i, |t| - 1); }
    } else if i + 1 < |t| {
      ErasedCovers(t, i + 1, left - t[i].size);
    }
  }

  /** The last sector erased is the one that holds the last byte of the shifted range, or the last of all. */
  lemma {:induction false} LastErasedHolds(t: seq<Sector>, i: nat, left: nat)
    requires Contiguous(t) && i < |t| && left > 0
    ensures var last := LastErased(t, i, left);
            Holds(t[last], t[i].addr + left - 1) || (last + 1 == |t| && t[i].addr + left - 1 >= End(t, last))
    decreases |t| - i
  {
    if !(t[i].size >= left || i + 1 == |t|) {
      LastErasedHolds(t, i + 1, left - t[i].size);
    }
  }

  /** An unaligned range is erased as if it began at its sector: the sectors are the ones it meets if and
      only if its last byte and that of the shifted range lie in the same sector; addresses past the table
      count as the last sector. */
  lemma UnalignedExact(t: seq<Sector>, i: nat, p: nat, size: nat)
    requires Contiguous(t) && i < |t| && Holds(t[i], p) && size > 0
    ensures (forall j :: 0 <= j < |t| ==> (i <= j <= LastErased(t, i, size) <==> Meets(t[j], p, p + size)))
            <==> (forall j :: 0 <= j < |t| - 1 ==> (Holds(t[j], p + size - 1) <==> Holds(t[j], t[i].addr + size - 1)))
  {
    var last := LastErased(t, i, size);
    LastErasedHolds(t, i, size);
    MeetsFrom(t, i, p, size);
    forall j | 0 <= j < |t|
      ensures Holds(t[j], t[i].addr + size - 1) ==> j == last
    {
      if j < last { Ordered(t, j, last); } else if last < j { Ordered(t, last, j); }
    }
    if p + size - 1 < End(t, last) {
      forall j | 0 <= j < |t|
        ensures Meets(t[j], p, p + size) <==> i <= j <= last
        ensures Holds(t[j], p + size - 1) <==> j == last
      {
        if j < last { Ordered(t, j, last); } else if last < j { Ordered(t, last, j); }
      }
    } else {
      forall j | 0 <= j < last
        ensures !Holds(t[j], p + size - 1) && t[j].addr < p + size
      {
        Ordered(t, j, last);
      }
      if last + 1 < |t| {
        assert Meets(t[last + 1], p, p + size);
        assert Holds(t[last], t[i].addr + size - 1) && !Holds(t[last], p + size - 1);
      }
    }
  }

  /** The sectors met by a range that begins in sector i. */
  lemma MeetsFrom(t: seq<Sector>, i: nat, p: nat, size: nat)
    requires Contiguous(t) && i < |t| && Holds(t[i], p) && size > 0
    ensures forall j :: 0 <= j < |t| ==> (Meets(t[j], p, p + size) <==> i <= j && t[j].addr < p + size)
  {
    forall j | 0 <= j < |t|
      ensures Meets(t[j], p, p + size) <==> i <= j && t[j].addr < p + size
    {
      if j < i { Ordered(t, j, i); } else if i < j { Ordered(t, i, j); }
    }
  }

  // ---- the flash as memory ----

  const BLANK: bv8 := 0xff

  function Blanked(mem: seq<bv8>, lo: int, hi: int): (r: seq<bv8>)
    ensures |r| == |mem|
  {
    seq(|mem|, k requires 0 <= k < |mem| => if lo <= k < hi then BLANK else mem[k])
  }

  /** Programming clears bits and never sets one. */
  function Programmed(mem: seq<bv8>, at: nat, src: seq<bv8>): (r: seq<bv8>)
    requires at + |src| <= |mem|
    ensures |r| == |mem|
  {
    seq(|mem|, k requires 0 <= k < |mem| => if at <= k < at + |src| then mem[k] & src[k - at] else mem[k])
  }

  /** How the hardware answers a byte program. */
  datatype Answer = Good | BadKept | BadProgrammed

  class Device {
    const t: seq<Sector>
    /** The cells, from the first sector on. */
    const mem: array<bv8>
    /** LOCK and PG bits of the control register. */
    var locked: bool
    var pg: bool

    ghost predicate Valid()
      reads this
    {
      t != [] && Contiguous(t) && mem.Length == End(t, |t| - 1) - t[0].addr
    }

    constructor ()
      ensures Valid() && t == SECTORS && locked && fresh(mem)
    {
      SectorsContiguous();
      t := SECTORS;
      mem := new bv8[0x4_0000](_ => BLANK);
      locked, pg := true, false;
    }

    method Unlock()
      modifies this`locked
      ensures !locked
    {
      if !locked {
        return;
      }
      locked := false;
    }

    method EraseSector(id: int) returns (ec: int)
      requires Valid()
      modifies this`locked, this`pg, mem
      ensures !(0 <= id < |t|) ==> ec == EARGVAL && mem[..] == old(mem[..])
      ensures 0 <= id < |t| ==>
                && ec == EOK && locked
                && t[0].addr <= t[id].addr
                && mem[..] == Blanked(old(mem[..]), t[id].addr - t[0].addr, End(t, id) - t[0].addr)
    {
      if id < 0 || id >= |t| {
        return EARGVAL;
      }
      if 0 < id { Ordered(t, 0, id); }
      if id < |t| - 1 { Ordered(t, id, |t| - 1); }
      Unlock();
      pg, locked := false, false;
      var lo, hi := t[id].addr - t[0].addr, t[id].addr + t[id].size - t[0].addr;
      if !locked {
        forall k | lo <= k < hi {
          mem[k] := BLANK;
        }
      }
      locked := true;
      ec := EOK;
    }

    /** Flash_EraseSectorsForAddressRange. */
    method EraseRange(p0: nat, size: nat) returns (ec: int)
      requires Valid()
      modifies this`locked, this`pg, mem
      ensures p0 < t[0].addr || p0 >= End(t, |t| - 1) ==> ec == EFATAL && mem[..] == old(mem[..])
      ensures forall i :: 0 <= i < |t| && Holds(t[i], p0) ==>
                && t[0].addr <= t[i].addr
                && mem[..] == Blanked(old(mem[..]), t[i].addr - t[0].addr, End(t, LastErased(t, i, size)) - t[0].addr)
                && ec == (if t[i].addr + size <= End(t, |t| - 1) then EOK else EFATAL)
    {
      hide Blanked, LastErased, Contiguous, Holds;
      ghost var first := Place(t, p0);
      ec := EraseFrom(p0, size, first);
      if first < |t| {
        ErasedCovers(t, first, size);
        Bounded(t, first);
      }
      forall i | 0 <= i < |t| && Holds(t[i], p0)
        ensures i == first
      {
        HeldIsInside(t, i, p0);
        Disjoint(t, i, first, p0);
      }
    }

    /** The loop; `first` names the sector that holds the address, and is |t| when none does. */
    method EraseFrom(p0: nat, size: nat, ghost first: nat) returns (ec: int)
      requires Valid() && first <= |t|
      requires if first < |t| then Holds(t[first], p0) else p0 < t[0].addr || p0 >= End(t, |t| - 1)
      modifies this`locked, this`pg, mem
      ensures first == |t| ==> ec == EFATAL && mem[..] == old(mem[..])
      ensures first < |t| ==>
                && mem[..] == Blanked(old(mem[..]), t[first].addr - t[0].addr,
                                      End(t, LastErased(t, first, size)) - t[0].addr)
                && ec == if End(t, LastErased(t, first, size)) >= t[first].addr + size then EOK else EFATAL
    {
      hide Blanked, LastErased, Contiguous, Holds;
      ghost var mem0 := mem[..];
      ghost var n: nat := first;
      var p: nat, left: nat := p0, size;
      if first < |t| {
        BlankedNone(mem0, t[first].addr - t[0].addr);
      }
      while true
        invariant first <= n <= |t|
        invariant if n < |t| then Holds(t[n], p) else p < t[0].addr || p >= End(t, |t| - 1)
        invariant first == |t| ==> mem[..] == mem0
        invariant first < |t| ==>
                    && mem[..] == Blanked(mem0, t[first].addr - t[0].addr, Start(t, n) - t[0].addr)
                    && Start(t, n) + left == t[first].addr + size
                    && LastErased(t, first, size) == (if n < |t| then LastErased(t, n, left) else |t| - 1)
                    && (n == |t| ==> left > 0)
        decreases |t| - n
      {
        var id := GetSectorIDForAddr(t, p);
        if id < 0 {
          if n < |t| { HeldIsInside(t, n, p); }
          return EFATAL;
        }
        Located(t, n, p, id);
        ghost var before := mem[..];
        var rc := EraseSector(id);
        if first < |t| {
          Advance(t, first, n, p, left);
          BlankedOn(mem0, t[first].addr - t[0].addr, t[n].addr - t[0].addr, End(t, n) - t[0].addr);
        }
        var sectorSize := t[id].size;
        if sectorSize >= left {
          return EOK;
        }
        p, left := p + sectorSize, left - sectorSize;
        n := n + 1;
      }
    }

    /** Flash_Write at offset `at` of the cells; `answers` is what the hardware says to each byte. */
    method Write(at: nat, src: seq<bv8>, answers: nat -> Answer) returns (ec: int)
      requires Valid() && at + |src| <= mem.Length
      modifies this`locked, this`pg, mem
      ensures locked
      ensures ec == if forall k :: 0 <= k < |src| ==> answers(k).Good? then |src| else EFATAL
      ensures ec >= 0 ==> mem[..] == Programmed(old(mem[..]), at, src)
      ensures ec < 0 ==> exists n :: 0 <= n <= |src| && mem[..] == Programmed(old(mem[..]), at, src[..n])
    {
      hide Programmed, Valid;
      ghost var mem0, n: nat := mem[..], 0;
      Unlock();
      ec := EOK;
      var i := 0;
      ProgramNone(mem0, at, src);
      while i < |src|
        invariant i <= |src| && !locked && n == i
        invariant mem[..] == Programmed(mem0, at, src[..n])
        invariant forall k :: 0 <= k < i ==> answers(k).Good?
      {
        pg := true;
        ProgramMore(mem0, at, src, i, mem[..]);
        Store(at + i, src[i], answers(i));
        n := if answers(i).BadKept? then i else i + 1;
        if !answers(i).Good? {
          ec := EFATAL;
          break;
        }
        i := i + 1;
      }
      assert ec == EFATAL || n == |src|;
      assert src[..|src|] == src;
      locked := true;
      if ec == EOK {
        ec := |src|;
      }
    }

    /** A store to a cell, as the hardware takes it. */
    method Store(i: nat, b: bv8, answer: Answer)
      requires i < mem.Length
      modifies mem
      ensures mem[..] == if !locked && pg && !answer.BadKept? then old(mem[..])[i := old(mem[i]) & b] else old(mem[..])
    {
      if !locked && pg && !answer.BadKept? {
        mem[i] := mem[i] & b;
      }
    }

    /** Flash_Verify: compares byte by byte, and succeeds if and only if no byte differs. */
    method Verify(at: nat, ram: seq<bv8>) returns (ec: int)
      requires Valid() && at + |ram| <= mem.Length
      ensures ec == EOK || ec == EFATAL
      ensures ec == EOK <==> forall k :: 0 <= k < |ram| ==> mem[at + k] == ram[k]
    {
      var d := Memcmp(mem, at, ram);
      SliceEqual(mem[..], at, ram);
      assert mem[at..at + |ram|] == mem[..][at..at + |ram|];
      ec := if d == 0 then EOK else EFATAL;
    }

    /** Erase from the start of a sector, program, compare: without a hardware error the data is there, and no
        cell outside the erased sectors has changed. */
    method Update(first: nat, data: seq<bv8>, answers: nat -> Answer) returns (ec: int)
      requires Valid() && first < |t| && data != [] && t[first].addr + |data| <= End(t, |t| - 1)
      requires forall k :: 0 <= k < |data| ==> answers(k).Good?
      modifies this`locked, this`pg, mem
      ensures ec == EOK && t[0].addr <= t[first].addr
      ensures var lo, hi := t[first].addr - t[0].addr, End(t, LastErased(t, first, |data|)) - t[0].addr;
              mem[..] == Programmed(Blanked(old(mem[..]), lo, hi), lo, data)
    {
      hide Programmed, Blanked, LastErased, Contiguous;
      ghost var mem0 := mem[..];
      ErasedFits(t, first, |data|);
      var lo := t[first].addr - t[0].addr;
      ghost var hi := End(t, LastErased(t, first, |data|)) - t[0].addr;
      ec := EraseRange(t[first].addr, |data|);
      assert Holds(t[first], t[first].addr);
      ghost var mem1 := mem[..];
      var rc := Write(lo, data, answers);
      VerifyAfterWrite(mem1, lo, data);
      BlankTakesAll(mem0, lo, hi, data);
      SliceEqual(mem[..], lo, data);
      ec := Verify(lo, data);
    }
  }

  lemma SliceEqual(mem: seq<bv8>, at: nat, ram: seq<bv8>)
    requires at + |ram| <= |mem|
    ensures mem[at..at + |ram|] == ram <==> forall k :: 0 <= k < |ram| ==> mem[at + k] == ram[k]
  {
    var slice := mem[at..at + |ram|];
    assert forall k :: 0 <= k < |ram| ==> slice[k] == mem[at + k];
  }

  lemma ErasedFits(t: seq<Sector>, first: nat, size: nat)
    requires Contiguous(t) && first < |t| && t[first].addr + size <= End(t, |t| - 1)
    ensures t[first].size > 0 && t[0].addr <= t[first].addr
    ensures t[first].addr + size <= End(t, LastErased(t, first, size)) <= End(t, |t| - 1)
  {
    Bounded(t, first);
    Bounded(t, LastErased(t, first, size));
    ErasedCovers(t, first, size);
  }

  /** No cell outside the erased sectors changes, and inside them the data reads back and the rest is blank. */
  lemma UpdateTouches(mem: seq<bv8>, lo: nat, hi: nat, data: seq<bv8>, k: nat)
    requires lo + |data| <= hi <= |mem| && k < |mem|
    ensures Programmed(Blanked(mem, lo, hi), lo, data)[k]
            == if k < lo || hi <= k then mem[k] else if k < lo + |data| then data[k - lo] else BLANK
  {
    BlankTakesAll(mem, lo, hi, data);
    if lo <= k < lo + |data| {
      assert Blanked(mem, lo, hi)[lo + (k - lo)] & data[k - lo] == data[k - lo];
    }
  }

  lemma Bounded(t: seq<Sector>, i: nat)
    requires Contiguous(t) && i < |t|
    ensures t[0].addr <= t[i].addr && End(t, i) <= End(t, |t| - 1)
  {
    if 0 < i { Ordered(t, 0, i); }
    if i < |t| - 1 { Ordered(t, i, |t| - 1); }
  }

  /** Where sector i starts, or where the table ends. */
  function Start(t: seq<Sector>, i: nat): nat
    requires t != [] && i <= |t|
  {
    if i < |t| then t[i].addr else End(t, |t| - 1)
  }

  /** The sector that holds the address, or the number of sectors. */
  ghost function Place(t: seq<Sector>, a: nat): (i: nat)
    requires Contiguous(t)
    ensures i <= |t|
    ensures if i < |t| then Holds(t[i], a) else a < t[0].addr || a >= End(t, |t| - 1)
  {
    if t[0].addr <= a < End(t, |t| - 1) then
      FindSector(t, a, |t| - 1)
    else |t|
  }

  lemma HeldIsInside(t: seq<Sector>, i: nat, a: nat)
    requires Contiguous(t) && i < |t| && Holds(t[i], a)
    ensures t[0].addr <= a < End(t, |t| - 1)
  {
    Bounded(t, i);
  }

  /** The lookup agrees with the sector that is known to hold the address. */
  lemma Located(t: seq<Sector>, n: nat, a: nat, id: nat)
    requires Contiguous(t) && n <= |t| && id < |t| && Holds(t[id], a)
    requires if n < |t| then Holds(t[n], a) else a < t[0].addr || a >= End(t, |t| - 1)
    ensures n == id
  {
    HeldIsInside(t, id, a);
    if n < |t| { Disjoint(t, n, id, a); }
  }

  /** One more sector erased: the loop stops inside it, or stands at the same offset in the next one. */
  lemma Advance(t: seq<Sector>, first: nat, n: nat, p: nat, left: nat)
    requires Contiguous(t) && first <= n < |t| && Holds(t[n], p)
    ensures t[0].addr <= t[first].addr <= t[n].addr <= End(t, n) == Start(t, n + 1)
    ensures t[n].size >= left ==> LastErased(t, n, left) == n
    ensures t[n].size < left ==>
              && (if n + 1 < |t| then Holds(t[n + 1], p + t[n].size) else p + t[n].size >= End(t, |t| - 1))
              && LastErased(t, n, left) == if n + 1 < |t| then LastErased(t, n + 1, left - t[n].size) else n
  {
    Bounded(t, first);
    if first < n { Ordered(t, first, n); }
  }

  lemma BlankedNone(mem: seq<bv8>, lo: int)
    ensures Blanked(mem, lo, lo) == mem
  {
  }

  lemma BlankedOn(mem: seq<bv8>, lo: int, mid: int, hi: int)
    requires lo <= mid <= hi
    ensures Blanked(Blanked(mem, lo, mid), mid, hi) == Blanked(mem, lo, hi)
  {
  }

  lemma ProgramNone(mem: seq<bv8>, at: nat, src: seq<bv8>)
    requires at + |src| <= |mem|
    ensures Programmed(mem, at, src[..0]) == mem
  {
  }

  lemma ProgramMore(mem: seq<bv8>, at: nat, src: seq<bv8>, i: nat, now: seq<bv8>)
    requires at + |src| <= |mem| && i < |src| && now == Programmed(mem, at, src[..i])
    ensures now[at + i := now[at + i] & src[i]] == Programmed(mem, at, src[..i + 1])
  {
  }

  /** The comparison succeeds if and only if every bit to be set was still set before programming. */
  lemma VerifyAfterWrite(mem: seq<bv8>, at: nat, src: seq<bv8>)
    requires at + |src| <= |mem|
    ensures Programmed(mem, at, src)[at..at + |src|] == src
            <==> forall k :: 0 <= k < |src| ==> mem[at + k] & src[k] == src[k]
  {
    var r := Programmed(mem, at, src);
    forall k | 0 <= k < |src|
      ensures r[at..at + |src|][k] == mem[at + k] & src[k]
    {
      assert r[at + k] == mem[at + k] & src[k];
    }
  }

  /** Blank cells take any byte. */
  lemma BlankTakesAll(mem: seq<bv8>, lo: nat, hi: nat, src: seq<bv8>)
    requires lo + |src| <= hi && hi <= |mem|
    ensures forall k :: 0 <= k < |src| ==> Blanked(mem, lo, hi)[lo + k] & src[k] == src[k]
  {
    forall k | 0 <= k < |src|
      ensures Blanked(mem, lo, hi)[lo + k] & src[k] == src[k]
    {
      AllOnes(src[k]);
    }
  }

  lemma AllOnes(b: bv8)
    ensures BLANK & b == b
  {
  }
}
