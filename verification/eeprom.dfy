/** The EEPROM driver over a chip that wraps page writes and keeps its own address counter. */
module Eeprom {
  import opened Bytes
  import SwI2c

  // ---- the chip ----

  /** Memory contents, internal address counter, page size. */
  datatype Chip = Chip(mem: seq<byte>, ptr: nat, page: nat)

  predicate ChipOk(c: Chip) {
    0 < c.page && c.ptr < |c.mem| <= 0x1_0000
  }

  /** The counter stays inside the page while bytes are being loaded. */
  function NextInPage(c: Chip): nat
    requires ChipOk(c)
  {
    if (c.ptr + 1) % c.page == 0 then c.ptr + 1 - c.page
    else if c.ptr + 1 == |c.mem| then 0
    else c.ptr + 1
  }

  function Program(c: Chip, data: seq<byte>): (c': Chip)
    requires ChipOk(c)
    ensures ChipOk(c') && |c'.mem| == |c.mem| && c'.page == c.page
    decreases |data|
  {
    if data == [] then c
    else
      PageStart(c.ptr, c.page);
      Program(c.(mem := c.mem[c.ptr := data[0]], ptr := NextInPage(c)), data[1..])
  }

  lemma PageStart(ptr: nat, page: nat)
    requires page > 0
    ensures (ptr + 1) % page == 0 ==> ptr + 1 - page >= 0
  {
  }

  /** Bytes clocked out from the counter on; it runs over the whole memory. */
  function ChipRead(mem: seq<byte>, start: nat, n: nat): (bs: seq<byte>)
    requires mem != []
    ensures |bs| == n
  {
    seq(n, i requires 0 <= i => mem[(start + i) % |mem|])
  }

  /** A load that stays in one page is a flat overwrite; the counter wraps exactly when it meets the page end. */
  lemma {:induction false} ProgramInPage(c: Chip, data: seq<byte>)
    requires ChipOk(c) && data != [] && c.ptr + |data| <= |c.mem|
    requires c.ptr % c.page + |data| <= c.page
    ensures Program(c, data).mem == Overwrite(c.mem, c.ptr, data)
    ensures c.ptr + |data| < |c.mem| || |c.mem| % c.page == 0 ==>
              Program(c, data).ptr == CounterAfter(c.ptr + |data|, c.page)
    decreases |data|
  {
    hide NextInPage, CounterAfter, Overwrite;
    var c1 := c.(mem := c.mem[c.ptr := data[0]], ptr := NextInPage(c));
    OverwriteOne(c.mem, c.ptr, data[0]);
    LastInPage(c);
    if |data| == 1 {
      assert data[1..] == [] && Program(c1, []) == c1;
      assert data == [data[0]];
    } else {
      InnerInPage(c, |data|);
      ProgramInPage(c1, data[1..]);
      assert data == [data[0]] + data[1..];
      OverwriteTwice(c.mem, c.ptr, [data[0]], data[1..]);
    }
  }

  lemma OverwriteOne(mem: seq<byte>, at: nat, x: byte)
    requires at < |mem|
    ensures mem[at := x] == Overwrite(mem, at, [x])
  {
  }

  lemma LastInPage(c: Chip)
    requires ChipOk(c)
    ensures NextInPage(c) < |c.mem|
    ensures c.ptr + 1 < |c.mem| || |c.mem| % c.page == 0 ==> NextInPage(c) == CounterAfter(c.ptr + 1, c.page)
  {
  }

  lemma InnerInPage(c: Chip, n: nat)
    requires ChipOk(c) && n >= 2 && c.ptr + n <= |c.mem| && c.ptr % c.page + n <= c.page
    ensures NextInPage(c) == c.ptr + 1 && (c.ptr + 1) % c.page == c.ptr % c.page + 1
  {
    NotAtPageEnd(c.ptr, c.page, n);
  }

  lemma NotAtPageEnd(ptr: nat, page: nat, n: nat)
    requires page > 0 && n >= 2 && ptr % page + n <= page
    ensures (ptr + 1) % page == ptr % page + 1 && (ptr + 1) % page != 0
  {
    var q, r := ptr / page, ptr % page;
    assert ptr + 1 == page * q + (r + 1);
    DivModIs(page, q, r + 1);
  }

  lemma MulAtLeast(p: nat, d: nat)
    requires d >= 1
    ensures p * d >= p
  {
  }

  /** Quotient and remainder are the only ones. */
  lemma DivModIs(page: nat, q: nat, r: nat)
    requires page > 0 && r < page
    ensures (page * q + r) % page == r && (page * q + r) / page == q
  {
    var x := page * q + r;
    var q', r' := x / page, x % page;
    assert x == page * q' + r';
    assert page * (q' - q) == page * q' - page * q;
    if q' > q {
      MulAtLeast(page, q' - q);
    } else if q' < q {
      MulAtLeast(page, q - q');
    }
  }

  /** Where the counter stands after a load that ended at `end`. */
  function CounterAfter(end: nat, page: nat): int
    requires page > 0
  {
    if end % page == 0 then end - page else end
  }

  // ---- driver and chip over a run ----

  /** The chip and the address the driver believes it to stand at. */
  datatype St = St(chip: Chip, cache: Option<nat>)

  datatype Op =
    | Wrote(offset: nat, data: seq<byte>)      // a write that reported success
    | DidRead(offset: nat, n: nat)             // a read that reported success
    | Failed(mem: seq<byte>, ptr: nat)         // an operation that reported an error, whatever it did to the chip

  predicate InRange(s: St, offset: nat, n: nat) {
    ChipOk(s.chip) && offset + n < |s.chip.mem|
  }

  predicate OpOk(s: St, op: Op) {
    match op
    case Wrote(offset, data) => InRange(s, offset, |data|)
    case DidRead(offset, n) => InRange(s, offset, n)
    case Failed(mem, ptr) => ChipOk(s.chip) && |mem| == |s.chip.mem| && ptr < |mem|
  }

  /** A read skips the address phase when the cached address is the wanted one. */
  function ReadStart(s: St, offset: nat): nat {
    if s.cache == Some(offset) then s.chip.ptr else offset
  }

  function ReadData(s: St, offset: nat, n: nat): seq<byte>
    requires ChipOk(s.chip)
  {
    ChipRead(s.chip.mem, ReadStart(s, offset), n)
  }

  function Next(s: St, op: Op): (s': St)
    requires OpOk(s, op)
    ensures ChipOk(s'.chip) && |s'.chip.mem| == |s.chip.mem| && s'.chip.page == s.chip.page
  {
    match op
    case Wrote(offset, data) =>
      CounterInRange(offset + |data|, s.chip.page);
      St(Chip(Overwrite(s.chip.mem, offset, data),
              if data == [] then s.chip.ptr else CounterAfter(offset + |data|, s.chip.page), s.chip.page),
         Some(offset + |data|))
    case DidRead(offset, n) =>
      St(s.chip.(ptr := (ReadStart(s, offset) + n) % |s.chip.mem|), Some(offset + n))
    case Failed(mem, ptr) => St(Chip(mem, ptr, s.chip.page), None)
  }

  lemma CounterInRange(end: nat, page: nat)
    requires page > 0
    ensures end > 0 ==> 0 <= CounterAfter(end, page) <= end
  {
  }

  /** Short of the end of memory the counter does not roll over. */
  lemma ReadFlat(c: Chip, start: nat, n: nat)
    requires ChipOk(c) && start + n <= |c.mem|
    ensures ChipRead(c.mem, start, n) == c.mem[start..start + n]
  {
    forall i | 0 <= i < n
      ensures ChipRead(c.mem, start, n)[i] == c.mem[start + i]
    {
      SmallMod(start + i, |c.mem|);
    }
  }

  lemma SmallMod(x: nat, m: nat)
    requires x < m
    ensures x % m == x
  {
  }

  predicate Coherent(s: St) {
    s.cache.Some? ==> s.cache.value == s.chip.ptr
  }

  /** Exactly when an operation leaves the cached address in step with the chip: a write of data when it does not
      end on a page boundary, an empty write when its offset is the cached address; with nothing cached, only when
      the chip happens to stand there. */
  lemma CoherenceExact(s: St, op: Op)
    requires OpOk(s, op) && Coherent(s)
    ensures Coherent(Next(s, op)) <==>
            (op.Wrote? ==> if op.data != [] then (op.offset + |op.data|) % s.chip.page != 0
                           else if s.cache.Some? then s.cache.value == op.offset
                           else s.chip.ptr == op.offset)
  {
    hide Overwrite, CounterAfter;
    match op
    case Wrote(offset, data) =>
      if data != [] {
        CounterExact(offset + |data|, s.chip.page);
      }
    case DidRead(offset, n) => SmallMod(offset + n, |s.chip.mem|);
    case Failed(_, _) =>
  }

  lemma CounterExact(end: nat, page: nat)
    requires page > 0
    ensures CounterAfter(end, page) == end <==> end % page != 0
  {
  }

  /** In step, a read returns what a random-access read returns, address phase or not. */
  lemma CoherentRead(s: St, offset: nat, n: nat)
    requires InRange(s, offset, n) && Coherent(s)
    ensures ReadData(s, offset, n) == s.chip.mem[offset..offset + n]
  {
    ReadFlat(s.chip, offset, n);
  }

  /** After a write that ends on a page boundary, reading on from there returns the page just left. */
  lemma StaleAfterPageEnd(s: St, offset: nat, data: seq<byte>, n: nat)
    requires InRange(s, offset, |data|) && data != [] && (offset + |data|) % s.chip.page == 0
    requires offset + |data| + n < |s.chip.mem|
    ensures var s' := Next(s, Wrote(offset, data));
            var end := offset + |data|;
            end >= s.chip.page && ReadData(s', end, n) == s'.chip.mem[end - s.chip.page..end - s.chip.page + n]
  {
    hide Overwrite, ChipRead;
    var start := offset + |data| - s.chip.page;
    CounterInRange(offset + |data|, s.chip.page);
    ReadFlat(Next(s, Wrote(offset, data)).chip, start, n);
  }

  /** Writes that leave the cached address in step, as far as the driver can tell beforehand. */
  predicate Harmless(s: St, offset: nat, data: seq<byte>)
    requires s.chip.page > 0
  {
    if data == [] then s.cache == Some(offset) else (offset + |data|) % s.chip.page != 0
  }

  /** None as soon as an operation does not apply, or a write is not harmless. */
  function Run(s: St, ops: seq<Op>): Option<St>
    decreases |ops|
  {
    if ops == [] then Some(s)
    else
      var op := ops[0];
      if !OpOk(s, op) then None
      else if op.Wrote? && !Harmless(s, op.offset, op.data) then None
      else Run(Next(s, op), ops[1..])
  }

  /** A run goes on with every operation that applies and is harmless where it stands, and with no other. */
  lemma {:induction false} RunMore(s: St, ops: seq<Op>, op: Op)
    ensures Run(s, []) == Some(s)
    ensures Run(s, ops + [op]) ==
            match Run(s, ops)
            case None => None
            case Some(s') => if OpOk(s', op) && (op.Wrote? ==> Harmless(s', op.offset, op.data)) then Some(Next(s', op))
                             else None
    decreases |ops|
  {
    if ops == [] {
      assert [] + [op] == [op] && [op][1..] == [];
      hide Next, OpOk, Harmless;
    } else if OpOk(s, ops[0]) {
      assert (ops + [op])[1..] == ops[1..] + [op];
      RunMore(Next(s, ops[0]), ops[1..], op);
      hide Next, OpOk, Harmless;
    }
  }

  /** Over every such run the cached address is the chip's own, so every read along the way is exact. */
  lemma {:induction false} RunStaysCoherent(s: St, ops: seq<Op>, offset: nat, n: nat)
    requires Coherent(s) && Run(s, ops).Some?
    ensures Coherent(Run(s, ops).value)
    ensures InRange(Run(s, ops).value, offset, n) ==>
              ReadData(Run(s, ops).value, offset, n) == Run(s, ops).value.chip.mem[offset..offset + n]
    decreases |ops|
  {
    if ops == [] {
      if InRange(s, offset, n) {
        CoherentRead(s, offset, n);
      }
    } else {
      CoherenceExact(s, ops[0]);
      RunStaysCoherent(Next(s, ops[0]), ops[1..], offset, n);
    }
  }

  // ---- the driver ----

  /** How one bus operation ends: an error code or zero, and for a failure how many bytes had been
      programmed and where it leaves the chip's counter. */
  datatype Outcome = Outcome(ec: int, partial: nat, ptr: nat)

  /** Memory holds some prefix of the data, and nothing else has changed. */
  ghost predicate Partly(mem0: seq<byte>, mem: seq<byte>, offset: nat, data: seq<byte>)
    requires offset + |data| <= |mem0|
  {
    exists k :: 0 <= k <= |data| && mem == Overwrite(mem0, offset, data[..k])
  }

  /** The parameter check, in 32-bit arithmetic. */
  predicate Rejected(capacity: nat, offset: u32, size: u32) {
    Wrap32(offset + size) >= capacity
  }

  /** The check lets a range through that does not end before the last byte if and only if the 32-bit sum wraps
      into the capacity; without wrapping it passes exactly the ranges that do. */
  lemma CheckExact(capacity: nat, offset: u32, size: u32)
    requires capacity <= W32
    ensures !Rejected(capacity, offset, size) && offset + size >= capacity <==> W32 <= offset + size < W32 + capacity
    ensures offset + size < W32 ==> (!Rejected(capacity, offset, size) <==> offset + size < capacity)
  {
    if offset + size >= W32 {
      assert Wrap32(offset + size) == offset + size - W32;
    }
  }

  /** The address the chip sees: sixteen bits of the offset, of which it decodes as many as it has cells for. */
  function Pin(offset: nat, capacity: nat): (p: nat)
    requires capacity > 0
    ensures p < capacity
  {
    offset % 0x1_0000 % capacity
  }

  /** The chip is addressed at the offset if and only if the offset lies inside it. */
  lemma PinExact(offset: u32, capacity: nat)
    requires 0 < capacity <= 0x1_0000
    ensures Pin(offset, capacity) == offset <==> offset < capacity
  {
    if offset < capacity {
      SmallMod(offset, 0x1_0000);
      SmallMod(offset, capacity);
    }
  }

  /** Where the bytes of a write go one by one, with the offset wrapping at 32 bits. */
  function Scatter(mem: seq<byte>, offset: nat, data: seq<byte>): (r: seq<byte>)
    requires mem != []
    ensures |r| == |mem|
  {
    if data == [] then mem
    else
      var n := |data| - 1;
      Scatter(mem, offset, data[..n])[Pin(Wrap32(offset + n), |mem|) := data[n]]
  }

  lemma ScatterStep(mem: seq<byte>, offset: nat, data: seq<byte>)
    requires mem != [] && data != []
    ensures var n := |data| - 1;
            Scatter(mem, offset, data) == Scatter(mem, offset, data[..n])[Pin(Wrap32(offset + n), |mem|) := data[n]]
  {
  }

  lemma {:induction false} ScatterAppend(mem: seq<byte>, offset: nat, a: seq<byte>, b: seq<byte>)
    requires mem != []
    ensures Scatter(mem, offset, a + b) == Scatter(Scatter(mem, offset, a), Wrap32(offset + |a|), b)
  {
    if b == [] {
      assert a + b == a;
    } else {
      var n := |b| - 1;
      assert (a + b)[..|a + b| - 1] == a + b[..n];
      ScatterAppend(mem, offset, a, b[..n]);
      WrapTwice(offset + |a|, n);
    }
  }

  lemma WrapTwice(x: nat, n: nat)
    ensures Wrap32(Wrap32(x) + n) == Wrap32(x + n)
  {
  }

  lemma FlatMore(mem: seq<byte>, offset: nat, data: seq<byte>, n: nat)
    requires n == |data| - 1 && offset + |data| <= |mem|
    ensures Overwrite(mem, offset, data[..n])[offset + n := data[n]] == Overwrite(mem, offset, data)
  {
    assert data == data[..n] + [data[n]];
  }

  /** Inside the chip the bytes go where a flat write puts them. */
  lemma {:induction false} ScatterIsFlat(mem: seq<byte>, offset: nat, data: seq<byte>)
    requires mem != [] && |mem| <= 0x1_0000 && offset + |data| <= |mem|
    ensures Scatter(mem, offset, data) == Overwrite(mem, offset, data)
  {
    if data == [] {
      assert mem[..offset] + [] + mem[offset..] == mem;
    } else {
      hide *;
      var n := |data| - 1;
      ScatterStep(mem, offset, data);
      ScatterIsFlat(mem, offset, data[..n]);
      SmallWrap(offset + n);
      PinExact(offset + n, |mem|);
      FlatMore(mem, offset, data, n);
    }
  }

  lemma SmallWrap(x: nat)
    requires x < 0x1_0000
    ensures Wrap32(x) == x
  {
  }

  /** Pages divide the memory, and the memory divides the sixteen-bit address space. */
  predicate Regular(capacity: nat, page: nat) {
    page > 0 && capacity > 0 && capacity % page == 0 && 0x1_0000 % capacity == 0
  }

  lemma RegularPin(x: nat, capacity: nat, page: nat)
    requires Regular(capacity, page)
    ensures Pin(Wrap32(x), capacity) == x % capacity
    ensures x % capacity % page == x % page
  {
    NestedMod(x, W32, 0x1_0000);
    NestedMod(x, 0x1_0000, capacity);
    NestedMod(x, capacity, page);
  }

  /** A remainder survives a remainder by a multiple. */
  lemma NestedMod(x: nat, n: nat, m: nat)
    requires m > 0 && n > 0 && n % m == 0
    ensures x % n % m == x % m
  {
    var k, q, r := n / m, x / n, x % n;
    Quotient(n, m);
    Quotient(x, n);
    Quotient(r, m);
    NestedParts(x, n, m, k, q, r, r / m, r % m);
    DivModIs(m, k * q + r / m, r % m);
  }

  lemma NestedParts(x: nat, n: nat, m: nat, k: nat, q: nat, r: nat, q2: nat, r2: nat)
    requires n == m * k && x == n * q + r && r == m * q2 + r2
    ensures x == m * (k * q + q2) + r2
  {
    calc {
      n * q;
      (m * k) * q;
      { Associate(m, k, q); }
      m * (k * q);
    }
    Distribute(m, k * q, q2);
  }

  lemma Quotient(x: nat, m: nat)
    requires m > 0
    ensures x == m * (x / m) + x % m
  {
  }

  /** On a regular chip the bytes of a write go round the memory. */
  lemma {:induction false} ScatterAt(mem: seq<byte>, offset: nat, data: seq<byte>, page: nat, k: nat)
    requires Regular(|mem|, page) && |data| <= |mem| && k < |data|
    ensures Scatter(mem, offset, data)[(offset + k) % |mem|] == data[k]
  {
    var n := |data| - 1;
    RegularPin(offset + n, |mem|, page);
    if k < n {
      ScatterAt(mem, offset, data[..n], page, k);
      OtherCell(offset, k, n, |mem|);
    }
  }

  lemma OtherCell(offset: nat, k: nat, n: nat, m: nat)
    requires k < n < m
    ensures (offset + k) % m != (offset + n) % m
  {
    var q, r := (offset + k) / m, (offset + k) % m;
    assert offset + n == m * q + (r + (n - k));
    if r + (n - k) < m {
      DivModIs(m, q, r + (n - k));
    } else {
      assert offset + n == m * (q + 1) + (r + (n - k) - m) by {
        assert m * (q + 1) == m * q + m;
      }
      DivModIs(m, q + 1, r + (n - k) - m);
    }
  }

  lemma AroundTheEnd(k: nat)
    requires k < 0x10
    ensures Regular(0x4000, 64) && Wrap32(0xffff_fff0 + 0x20) == 0x10
    ensures (0xffff_fff0 + k) % 0x4000 == 0x3ff0 + k && (0xffff_fff0 + (0x10 + k)) % 0x4000 == k
  {
  }

  /** A range past the end of a 16 KiB chip that the check lets through: a write of 32 bytes at 16 below 2^32
      lands in the last 16 cells and in the first 16. */
  lemma WrappedRangeWritesElsewhere(mem: seq<byte>, data: seq<byte>, k: nat)
    requires |mem| == 0x4000 && |data| == 0x20 && k < 0x10
    ensures !Rejected(0x4000, 0xffff_fff0, 0x20)
    ensures var r := Scatter(mem, 0xffff_fff0, data); r[0x3ff0 + k] == data[k] && r[k] == data[0x10 + k]
  {
    hide Scatter;
    AroundTheEnd(k);
    ScatterAt(mem, 0xffff_fff0, data, 64, k);
    ScatterAt(mem, 0xffff_fff0, data, 64, 0x10 + k);
  }

  class Device {
    /** The parts that are not ours: what the bus answers to the n-th operation, and the chip. */
    const env: nat -> Outcome
    /** How many polls fit into the timeout when polling starts with operation n. */
    const tries: nat -> nat
    var ops: nat
    var chip: Chip
    /** Level of the write-protect pin. */
    var wp: bool
    /** Does this task hold the bus semaphore, and how often was it released without being held? */
    var held: bool
    var stray: nat
    const capacity: nat
    const pageSize: nat
    var memAddr: nat
    var memAddrValid: bool

    ghost predicate Valid()
      reads this
    {
      ChipOk(chip) && capacity == |chip.mem| && pageSize == chip.page
    }

    ghost function Abs(): St
      reads this
    {
      St(chip, if memAddrValid then Some(memAddr) else None)
    }

    constructor (env: nat -> Outcome, tries: nat -> nat, chip: Chip)
      requires ChipOk(chip)
      ensures Valid() && Abs() == St(chip, None) && wp && !held && stray == 0
    {
      this.env, this.tries, ops, this.chip := env, tries, 0, chip;
      capacity, pageSize := |chip.mem|, chip.page;
      wp, held, stray, memAddr, memAddrValid := true, false, 0, 0, false;
    }

    /** Acknowledge polling, as often as the timeout allows, does not reach the memory. It succeeds if and only if
        some poll is answered, or the timeout leaves no time to ask. */
    method PollBusy() returns (ec: int)
      modifies this`ops
      ensures ops >= old(ops)
      ensures ec >= 0 <==>
                tries(old(ops)) == 0 || exists n :: old(ops) <= n < old(ops) + tries(old(ops)) && env(n).ec >= 0
    {
      var start, i := ops, 0;
      ec := 0;
      while i < tries(start)
        invariant i <= tries(start) && ops == start + i
        invariant forall n :: start <= n < ops ==> env(n).ec < 0
        invariant if i == 0 then ec == 0 else ec < 0
      {
        ec := env(ops).ec;
        i, ops := i + 1, ops + 1;
        if ec >= 0 {
          assert env(ops - 1).ec >= 0;
          return;
        }
      }
    }

    /** The two address bytes. */
    method SendAddress(offset: u32) returns (ec: int)
      requires Valid()
      modifies this`ops, this`chip
      ensures Valid() && chip.mem == old(chip.mem)
      ensures ec == env(old(ops)).ec && ops == old(ops) + 1
      ensures ec >= 0 ==> chip.ptr == Pin(offset, capacity)
    {
      var o, word := env(ops), offset % 0x1_0000;
      ops, ec := ops + 1, o.ec;
      chip := chip.(ptr := (if ec >= 0 then word else o.ptr) % |chip.mem|);
    }

    /** Data bytes and STOP; the chip programs them only while write protect is off. */
    method SendData(data: seq<byte>) returns (ec: int)
      requires Valid()
      modifies this`ops, this`chip
      ensures Valid() && ec == env(old(ops)).ec && ops == old(ops) + 1
      ensures wp ==> chip.mem == old(chip.mem)
      ensures !wp && ec >= 0 ==> chip == Program(old(chip), data)
      ensures !wp && ec < 0 ==> chip.mem == Program(old(chip), data[..Min(|data|, env(old(ops)).partial)]).mem
    {
      var o := env(ops);
      ops, ec := ops + 1, o.ec;
      var mem := chip.mem;
      chip := Program(chip, if ec >= 0 then data else data[..Min(|data|, o.partial)]);
      if wp {
        chip := chip.(mem := mem);
      }
      if ec < 0 {
        chip := chip.(ptr := o.ptr % |chip.mem|);
      }
    }

    /** A read message. */
    method ReceiveData(n: nat) returns (ec: int, data: seq<byte>)
      requires Valid()
      modifies this`ops, this`chip
      ensures Valid() && chip.mem == old(chip.mem)
      ensures ec == env(old(ops)).ec && ops == old(ops) + 1
      ensures ec >= 0 ==>
                data == ChipRead(old(chip).mem, old(chip).ptr, n) && chip.ptr == (old(chip).ptr + n) % |chip.mem|
    {
      var o := env(ops);
      ops, ec := ops + 1, o.ec;
      data := ChipRead(chip.mem, chip.ptr, n);
      chip := chip.(ptr := (if ec >= 0 then chip.ptr + n else o.ptr) % |chip.mem|);
    }

    method Lock()
      modifies this`held
      ensures held
    {
      held := true;
    }

    method Release()
      modifies this`held, this`stray
      ensures !held && stray == if old(held) then old(stray) else old(stray) + 1
    {
      if !held {
        stray := stray + 1;
      }
      held := false;
    }

    /** EEPROM_Read. A failure gives the semaphore back, whoever took it. */
    method Read(offset: u32, size: u32) returns (ec: int, data: seq<byte>)
      requires Valid()
      modifies this
      ensures Valid() && wp == old(wp)
      ensures Rejected(capacity, offset, size) ==>
                ec == EFATAL && Abs() == old(Abs()) && held == old(held) && stray == old(stray)
      ensures !Rejected(capacity, offset, size) && ec >= 0 ==>
                && ec == size && held == old(held) && stray == old(stray)
                && var start := if old(Abs()).cache == Some(offset) then old(chip).ptr else Pin(offset, capacity);
                   && data == ChipRead(old(chip).mem, start, size)
                   && Abs() == St(old(chip).(ptr := (start + size) % capacity), Some(Wrap32(offset + size)))
      ensures offset + size < W32 && !Rejected(capacity, offset, size) && ec >= 0 ==>
                && InRange(old(Abs()), offset, size)
                && data == ReadData(old(Abs()), offset, size)
                && Abs() == Next(old(Abs()), DidRead(offset, size))
      ensures !Rejected(capacity, offset, size) && ec < 0 ==>
                && Abs() == Next(old(Abs()), Failed(old(chip).mem, chip.ptr))
                && !held && stray == if old(held) then old(stray) else old(stray) + 1
    {
      hide ChipRead, Next, ReadData, InRange, Pin, Wrap32, Rejected;
      CheckRead(Abs(), offset, size);
      data := [];
      if Wrap32(offset + size) >= capacity {
        return EFATAL, [];
      }
      var writeAddr := !memAddrValid || memAddr != offset;
      ec := PollBusy();
      if ec >= 0 && writeAddr {
        ec := SendAddress(offset);
      }
      if ec >= 0 {
        ec, data := ReceiveData(size);
      }
      if ec >= 0 {
        memAddr, memAddrValid := Wrap32(offset + size), true;
      } else {
        memAddrValid := false;
        Release();
        FailedNext(old(Abs()), chip.ptr);
      }
      if ec >= 0 {
        ec := size;
      }
    }

    /** EEPROM_Write. */
    method Write(offset0: u32, data: seq<byte>) returns (ec: int)
      requires Valid() && |data| < W32
      modifies this
      ensures Valid()
      ensures Rejected(capacity, offset0, |data|) ==> ec == EFATAL && Abs() == old(Abs()) && wp == old(wp)
      ensures !Rejected(capacity, offset0, |data|) && ec >= 0 ==>
                ec == |data| && Abs().cache == Some(Wrap32(offset0 + |data|))
      ensures !Rejected(capacity, offset0, |data|) && ec >= 0 && Regular(capacity, pageSize) ==>
                chip.mem == Scatter(old(chip).mem, offset0, data)
      ensures offset0 + |data| < W32 && !Rejected(capacity, offset0, |data|) && ec >= 0 ==>
                && OpOk(old(Abs()), Wrote(offset0, data))
                && Abs() == Next(old(Abs()), Wrote(offset0, data))
      ensures !Rejected(capacity, offset0, |data|) && ec < 0 ==> Abs().cache == None
      ensures offset0 + |data| < W32 && !Rejected(capacity, offset0, |data|) && ec < 0 ==>
                offset0 + |data| <= |old(chip).mem| && Partly(old(chip).mem, chip.mem, offset0, data)
      ensures !Rejected(capacity, offset0, |data|) ==> wp
      ensures stray == old(stray)
      ensures held == (old(held) && (Rejected(capacity, offset0, |data|) || data == []))
    {
      hide Scatter, Regular, Pin, Partly, Overwrite, CounterAfter;
      if Wrap32(offset0 + |data|) >= capacity {
        return EFATAL;
      }
      var written := 0;
      wp := false;
      ec, written := WriteAll(offset0, data);
      if ec >= 0 {
        memAddr, memAddrValid := Wrap32(offset0 + written), true;
      } else {
        memAddrValid := false;
        Release();
      }
      wp := true;
      if ec >= 0 {
        ec := written;
      }
    }

    /** The writing loop: on success all of the data is in memory and the semaphore is back. */
    method WriteAll(offset0: u32, data: seq<byte>) returns (ec: int, written: nat)
      requires Valid() && !wp
      modifies this`ops, this`chip, this`held, this`stray
      ensures Valid() && stray == old(stray) && |chip.mem| == |old(chip).mem|
      ensures ec >= 0 ==> written == |data| && held == (old(held) && data == [])
      ensures ec < 0 ==> data != [] && held
      ensures ec >= 0 && Regular(capacity, pageSize) ==> chip.mem == Scatter(old(chip).mem, offset0, data)
      ensures ec >= 0 && offset0 + |data| < capacity ==>
                && chip.mem == Overwrite(old(chip).mem, offset0, data)
                && chip.ptr == if data == [] then old(chip).ptr else CounterAfter(offset0 + |data|, pageSize)
      ensures ec < 0 && offset0 + |data| < capacity ==> Partly(old(chip).mem, chip.mem, offset0, data)
    {
      hide Scatter, Regular, CounterAfter, Partly;
      ghost var c0 := chip;
      var offset := offset0;
      written, ec := 0, 0;
      ScatterNone(c0.mem, offset0, data);
      while written < |data|
        invariant Valid() && written <= |data| && ec >= 0 && |chip.mem| == |c0.mem|
        invariant offset == Wrap32(offset0 + written)
        invariant held == (old(held) && written == 0) && stray == old(stray)
        invariant Regular(capacity, pageSize) ==> chip.mem == Scatter(c0.mem, offset0, data[..written])
        invariant offset0 + |data| < capacity ==>
                    && chip.mem == Overwrite(c0.mem, offset0, data[..written])
                    && chip.ptr == if written == 0 then c0.ptr else CounterAfter(offset0 + written, pageSize)
      {
        Lock();
        ec, offset, written := WriteChunk(offset, data, written, offset0, c0.mem);
        if ec < 0 {
          return;
        }
        Release();
      }
      assert data[..written] == data;
    }

    /** One page's worth: poll, address, data. */
    method WriteChunk(offset: u32, data: seq<byte>, written: nat, ghost offset0: u32, ghost mem0: seq<byte>)
      returns (ec: int, offset': u32, written': nat)
      requires Valid() && !wp && written < |data| && offset == Wrap32(offset0 + written)
      requires |mem0| == |chip.mem|
      requires Regular(capacity, pageSize) ==> chip.mem == Scatter(mem0, offset0, data[..written])
      requires offset0 + |data| < capacity ==> chip.mem == Overwrite(mem0, offset0, data[..written])
      modifies this`ops, this`chip
      ensures Valid() && |chip.mem| == |mem0|
      ensures ec < 0 ==> written' == written
      ensures ec >= 0 ==>
                && written < written' <= |data| && offset' == Wrap32(offset0 + written')
                && offset / pageSize == (offset + (written' - written) - 1) / pageSize
      ensures ec >= 0 && Regular(capacity, pageSize) ==> chip.mem == Scatter(mem0, offset0, data[..written'])
      ensures ec < 0 && offset0 + |data| < capacity ==> Partly(mem0, chip.mem, offset0, data)
      ensures ec >= 0 && offset0 + |data| < capacity ==>
                && chip.mem == Overwrite(mem0, offset0, data[..written'])
                && chip.ptr == CounterAfter(offset0 + written', pageSize)
    {
      hide Program, Overwrite, CounterAfter, Scatter, Regular, Pin, Partly, Wrap32, ChunkSize;
      written', offset' := written, offset;
      ghost var unwritten := chip.mem;
      ec := PollBusy();
      if ec >= 0 {
        ec := SendAddress(offset);
      }
      if ec < 0 {
        NothingProgrammed(mem0, unwritten, offset0, data, written);
        return;
      }
      var size := ChunkSize(|data| - written, offset, pageSize);
      ghost var c, o := chip, env(ops);
      SamePage(offset, size, pageSize);
      ec := SendData(data[written..written + size]);
      ChunkDone(c, mem0, offset0, data, written, size, if o.ec >= 0 then size else Min(size, o.partial));
      if ec >= 0 {
        written', offset' := written + size, Wrap32(offset + size);
        WrapTwice(offset0 + written, size);
      }
    }
  }

  lemma NothingProgrammed(mem0: seq<byte>, mem: seq<byte>, offset0: nat, data: seq<byte>, written: nat)
    requires written <= |data|
    ensures offset0 + |data| < |mem0| && mem == Overwrite(mem0, offset0, data[..written]) ==>
              Partly(mem0, mem, offset0, data)
  {
  }

  lemma ScatterNone(mem: seq<byte>, offset: nat, data: seq<byte>)
    requires mem != []
    ensures Scatter(mem, offset, data[..0]) == mem
  {
  }

  lemma InsideWord(offset0: nat, written: nat, capacity: nat)
    requires offset0 + written < capacity <= 0x1_0000
    ensures Wrap32(offset0 + written) == offset0 + written
  {
  }

  /** A chunk of a page on a regular chip, wherever the offset has got to. */
  lemma ChunkScattered(c: Chip, mem0: seq<byte>, offset0: u32, data: seq<byte>, written: nat, size: nat)
    requires ChipOk(c) && |mem0| == |c.mem| && Regular(|c.mem|, c.page)
    requires 0 < size && written + size <= |data|
    requires var offset := Wrap32(offset0 + written); c.ptr == Pin(offset, |c.mem|) && offset % c.page + size <= c.page
    requires c.mem == Scatter(mem0, offset0, data[..written])
    ensures Program(c, data[written..written + size]).mem == Scatter(mem0, offset0, data[..written + size])
  {
    hide *;
    var offset, part, cap := Wrap32(offset0 + written), data[written..written + size], |c.mem|;
    assert data[..written + size] == data[..written] + part;
    ScatterAppend(mem0, offset0, data[..written], part);
    RegularParts(cap, c.page);
    ChipParts(c);
    RegularPin(offset, cap, c.page);
    WrapIdle(offset);
    PageFits(c.ptr, cap, c.page, size);
    ProgramInPage(c, part);
    ScatterPart(c.mem, offset, part, c.page);
  }

  lemma WrapIdle(x: u32)
    ensures Wrap32(x) == x
  {
  }

  lemma RegularParts(cap: nat, page: nat)
    requires Regular(cap, page)
    ensures page > 0 && cap > 0 && cap % page == 0
  {
  }

  lemma ChipParts(c: Chip)
    requires ChipOk(c)
    ensures c.page > 0 && c.ptr < |c.mem| && 0 < |c.mem| <= 0x1_0000
  {
  }

  /** What a chunk leaves behind, of which the chip has programmed k bytes. */
  lemma ChunkDone(c: Chip, mem0: seq<byte>, offset0: u32, data: seq<byte>, written: nat, size: nat, k: nat)
    requires ChipOk(c) && |mem0| == |c.mem| && k <= size && 0 < size && written + size <= |data|
    requires var offset := Wrap32(offset0 + written); c.ptr == Pin(offset, |c.mem|) && offset % c.page + size <= c.page
    requires Regular(|c.mem|, c.page) ==> c.mem == Scatter(mem0, offset0, data[..written])
    requires offset0 + |data| < |mem0| ==> c.mem == Overwrite(mem0, offset0, data[..written])
    ensures var part := data[written..written + size];
            && part[..size] == part
            && (Regular(|c.mem|, c.page) ==> Program(c, part).mem == Scatter(mem0, offset0, data[..written + size]))
            && (offset0 + |data| < |mem0| ==>
                  && Partly(mem0, Program(c, part[..k]).mem, offset0, data)
                  && Program(c, part).mem == Overwrite(mem0, offset0, data[..written + size])
                  && Program(c, part).ptr == CounterAfter(offset0 + written + size, c.page))
  {
    hide Program, Overwrite, CounterAfter, Scatter, Regular, Pin, ChipOk, Partly, Wrap32;
    ChipParts(c);
    var part := data[written..written + size];
    assert part[..size] == part;
    if Regular(|c.mem|, c.page) {
      ChunkScattered(c, mem0, offset0, data, written, size);
    }
    if offset0 + |data| < |mem0| {
      InsideWord(offset0, written, |mem0|);
      PinExact(offset0 + written, |mem0|);
      ChunkFlat(c, mem0, offset0, data, written, size, k);
    }
  }

  /** The same inside the memory, where the write is flat. */
  lemma ChunkFlat(c: Chip, mem0: seq<byte>, offset0: nat, data: seq<byte>, written: nat, size: nat, k: nat)
    requires ChipOk(c) && |mem0| == |c.mem| && offset0 + |data| < |mem0|
    requires k <= size && 0 < size && written + size <= |data|
    requires c.ptr == offset0 + written && c.mem == Overwrite(mem0, offset0, data[..written])
    requires c.ptr % c.page + size <= c.page
    ensures var part := data[written..written + size];
            && Partly(mem0, Program(c, part[..k]).mem, offset0, data)
            && Program(c, part).mem == Overwrite(mem0, offset0, data[..written + size])
            && Program(c, part).ptr == CounterAfter(offset0 + written + size, c.page)
  {
    hide Program, Overwrite, CounterAfter, Partly, ChipOk;
    ChunkWritten(c, mem0, offset0, data, written, size, size);
    ChunkWritten(c, mem0, offset0, data, written, size, k);
    PartlyUpto(mem0, offset0, data, written + k);
  }

  lemma PartlyUpto(mem0: seq<byte>, offset: nat, data: seq<byte>, n: nat)
    requires offset + |data| <= |mem0| && n <= |data|
    ensures Partly(mem0, Overwrite(mem0, offset, data[..n]), offset, data)
  {
  }

  /** Bytes that are left, but no more than the page has. */
  function ChunkSize(left: nat, offset: nat, page: nat): (n: nat)
    requires left > 0 && page > 0
    ensures 0 < n <= left && offset % page + n <= page
  {
    Min(left, page - offset % page)
  }

  /** A page that starts inside a memory of whole pages ends inside it. */
  lemma PageFits(ptr: nat, cap: nat, page: nat, size: nat)
    requires page > 0 && ptr < cap && cap % page == 0 && ptr % page + size <= page
    ensures ptr + size <= cap
  {
    var q, r, m := ptr / page, ptr % page, cap / page;
    assert ptr == page * q + r && cap == page * m;
    MulOrder(page, m, q);
    MulOrder(page, q + 1, m);
    Distribute(page, q, 1);
  }

  lemma MulOrder(p: nat, a: nat, b: nat)
    ensures a <= b ==> p * a <= p * b
  {
  }

  lemma Distribute(m: nat, a: nat, b: nat)
    ensures m * (a + b) == m * a + m * b
  {
  }

  lemma Associate(m: nat, k: nat, q: nat)
    ensures (m * k) * q == m * (k * q)
  {
  }

  /** A scattered write that stays in one page is a flat one at the address the chip sees. */
  lemma {:induction false} ScatterPart(mem: seq<byte>, offset: nat, part: seq<byte>, page: nat)
    requires Regular(|mem|, page) && offset % page + |part| <= page
    requires offset % |mem| + |part| <= |mem|
    ensures Scatter(mem, offset, part) == Overwrite(mem, offset % |mem|, part)
  {
    if part == [] {
      assert mem[..offset % |mem|] + [] + mem[offset % |mem|..] == mem;
    } else {
      hide *;
      var n := |part| - 1;
      ScatterStep(mem, offset, part);
      ScatterPart(mem, offset, part[..n], page);
      RegularPin(offset + n, |mem|, page);
      StepMod(offset, n, |mem|);
      FlatMore(mem, offset % |mem|, part, n);
    }
  }

  lemma StepMod(x: nat, n: nat, m: nat)
    requires m > 0 && x % m + n < m
    ensures (x + n) % m == x % m + n
  {
    var q, r := x / m, x % m;
    assert x + n == m * q + (r + n);
    DivModIs(m, q, r + n);
  }

  /** What the check says, and what a read inside the memory returns and leaves, in terms of the model. */
  lemma CheckRead(s: St, offset: u32, size: u32)
    requires ChipOk(s.chip)
    ensures Rejected(|s.chip.mem|, offset, size) <==> Wrap32(offset + size) >= |s.chip.mem|
    ensures offset + size < W32 && !Rejected(|s.chip.mem|, offset, size) ==>
              && InRange(s, offset, size)
              && var start := if s.cache == Some(offset) then s.chip.ptr else Pin(offset, |s.chip.mem|);
                 && ReadData(s, offset, size) == ChipRead(s.chip.mem, start, size)
                 && Next(s, DidRead(offset, size)) ==
                    St(s.chip.(ptr := (start + size) % |s.chip.mem|), Some(Wrap32(offset + size)))
  {
    hide Overwrite, ChipRead, CounterAfter, Pin, Wrap32;
    if offset + size < W32 {
      WrapIdle(offset + size);
      if offset + size < |s.chip.mem| {
        PinExact(offset, |s.chip.mem|);
      }
    }
  }

  lemma FailedNext(s: St, ptr: nat)
    requires ChipOk(s.chip) && ptr < |s.chip.mem|
    ensures OpOk(s, Failed(s.chip.mem, ptr))
    ensures Next(s, Failed(s.chip.mem, ptr)) == St(Chip(s.chip.mem, ptr, s.chip.page), None)
  {
  }

  /** The first k bytes of a chunk that stays in its page. */
  lemma ChunkWritten(c: Chip, mem0: seq<byte>, offset0: nat, data: seq<byte>, written: nat, size: nat, k: nat)
    requires ChipOk(c) && |mem0| == |c.mem| && offset0 + |data| < |mem0|
    requires k <= size && 0 < size && written + size <= |data|
    requires c.ptr == offset0 + written && c.mem == Overwrite(mem0, offset0, data[..written])
    requires c.ptr % c.page + size <= c.page
    ensures var c' := Program(c, data[written..written + size][..k]);
            && c'.mem == Overwrite(mem0, offset0, data[..written + k])
            && (k > 0 ==> c'.ptr == CounterAfter(c.ptr + k, c.page))
    ensures data[written..written + size][..size] == data[written..written + size]
  {
    var part := data[written..written + k];
    assert data[written..written + size][..k] == part;
    assert data[..written + k] == data[..written] + part;
    if k > 0 {
      ProgramInPage(c, part);
      OverwriteTwice(mem0, offset0, data[..written], part);
    } else {
      assert data[..written + 0] == data[..written];
    }
  }

  lemma SamePage(offset: nat, size: nat, page: nat)
    requires page > 0 && 0 < size <= page - offset % page
    ensures offset / page == (offset + size - 1) / page
  {
    var q, r := offset / page, offset % page;
    assert offset == page * q + r;
    assert offset + size - 1 == page * q + (r + size - 1);
    DivModIs(page, q, r + size - 1);
  }

  // ---- polls, page writes and reads as the bus sees them ----

  /** Both lines are free. */
  ghost predicate Clear(m: SwI2c.Master)
    reads m
  {
    m.Idle() && m.slave(m.pulse).sda
  }

  /** The chip refuses k polls in a row, each of them 19 pulses long, and answers the next. */
  predicate BusyFor(slave: SwI2c.Slave, p: nat, octet: byte, k: nat) {
    && (forall i :: 0 <= i < k ==> SwI2c.Refused(slave, p + 19 * i, octet))
    && (forall i :: 0 <= i <= k ==> slave(p + 19 * i).sda)
    && SwI2c.AddressOk(slave, p + 19 * k, octet) && SwI2c.StopOk(slave, p + 19 * k + 10)
  }

  /** What k refused polls look like. */
  function PollSyms(slave: SwI2c.Slave, p: nat, octet: byte, k: nat): seq<SwI2c.Sym> {
    if k == 0 then []
    else
      PollSyms(slave, p, octet, k - 1) + SwI2c.Message(SwI2c.RefusedOctets(slave, p + 19 * (k - 1), octet))
  }

  /** What the bus carries until poll k is answered. */
  function AnsweredPoll(slave: SwI2c.Slave, p: nat, octet: byte, k: nat): seq<SwI2c.Sym> {
    PollSyms(slave, p, octet, k) + SwI2c.Message([SwI2c.Octet(octet, false)])
  }

  lemma OnePollMore(slave: SwI2c.Slave, p: nat, octet: byte, i: nat)
    ensures PollSyms(slave, p, octet, i + 1) ==
            PollSyms(slave, p, octet, i)
              + ([SwI2c.S] + SwI2c.Wire(SwI2c.RefusedOctets(slave, p + 19 * i, octet)) + [SwI2c.P])
  {
    hide SwI2c.Wire, SwI2c.RefusedOctets;
  }

  /** The addressing of one poll, in any state of the lines. */
  method PollOnce(m: SwI2c.Master, device: nat, none: array<byte>) returns (ec: int)
    requires m.Valid() && none.Length == 0
    modifies m, none
    ensures m.Valid()
    ensures ec == EOK ==> Clear(m)
    ensures var p := old(m.pulse);
            var octet := SwI2c.AddressByte(device, true);
            old(Clear(m)) ==>
              && (SwI2c.Refused(m.slave, p, octet) && m.slave(p + 19).sda ==>
                    && ec != EOK && Clear(m) && m.pulse == p + 19
                    && m.Syms() == old(m.Syms())
                         + ([SwI2c.S] + SwI2c.Wire(SwI2c.RefusedOctets(m.slave, p, octet)) + [SwI2c.P]))
              && (SwI2c.AddressOk(m.slave, p, octet) && SwI2c.StopOk(m.slave, p + 10) ==>
                    && ec == EOK && m.pulse == p + 10
                    && m.Syms() == old(m.Syms()) + SwI2c.Message([SwI2c.Octet(octet, false)]))
  {
    hide SwI2c.Wire, SwI2c.Refused, SwI2c.AddressOk, SwI2c.Acked, SwI2c.RefusedOctets, SwI2c.Decode, SwI2c.Bits;
    hide SwI2c.BitsOf, SwI2c.BitSyms, SwI2c.AddressByte, SwI2c.WriteOk, SwI2c.Answered, SwI2c.FromSlave;
    NothingToWrite(m.slave, SwI2c.StartPulse(m.scl, m.pulse) + 9, []);
    assert none[..0] == [];
    SwI2c.AddressSyms(device, true, false);
    ec := m.Transfer(true, true, true, device, none, 0);
    assert none[..0] == [];
  }

  lemma NothingToWrite(slave: SwI2c.Slave, p: nat, data: seq<byte>)
    requires data == []
    ensures SwI2c.WriteOk(slave, p, data) && SwI2c.Wire(SwI2c.Acked(data)) == []
  {
  }

  /** EEPROM_PollBusy on the bit-banged bus: a chip that is busy for k polls is found ready by the next, and a poll
      that is answered leaves both lines free. */
  method PollOnBus(m: SwI2c.Master, device: nat, tries: nat, ghost k: nat) returns (ec: int)
    requires m.Valid()
    modifies m
    ensures m.Valid()
    ensures ec == EOK && (tries > 0 || old(Clear(m))) ==> Clear(m)
    ensures var octet := SwI2c.AddressByte(device, true);
            old(Clear(m)) && k < tries && BusyFor(m.slave, old(m.pulse), octet, k) ==>
              && ec == EOK && m.pulse == old(m.pulse) + 19 * k + 10
              && m.Syms() == old(m.Syms()) + AnsweredPoll(m.slave, old(m.pulse), octet, k)
  {
    hide SwI2c.Message, SwI2c.Refused, SwI2c.AddressOk, SwI2c.StopOk, SwI2c.RefusedOctets, SwI2c.Wire, SwI2c.Decode;
    hide PollSyms, BusyFor;
    var none := new byte[0];
    ghost var p, octet, syms0 := m.pulse, SwI2c.AddressByte(device, true), m.Syms();
    ghost var known := Clear(m) && BusyFor(m.slave, p, octet, k);
    ec := EOK;
    var i := 0;
    NoPolls(m.slave, p, octet);
    while i < tries
      invariant i <= tries && m.Valid()
      invariant i == 0 ==> ec == EOK && (old(Clear(m)) ==> Clear(m))
      invariant i > 0 ==> ec != EOK
      invariant known ==> i <= k
      invariant known ==>
                  Clear(m) && m.pulse == p + 19 * i && m.Syms() == syms0 + PollSyms(m.slave, p, octet, i)
    {
      OnePollMore(m.slave, p, octet, i);
      if known {
        BusyStep(m.slave, p, octet, k, i);
      }
      ec := PollOnce(m, device, none);
      if ec == EOK {
        return;
      }
      i := i + 1;
    }
  }

  /** What a chip that is busy for k polls does during poll i. */
  lemma BusyStep(slave: SwI2c.Slave, p: nat, octet: byte, k: nat, i: nat)
    requires BusyFor(slave, p, octet, k) && i <= k
    ensures i < k ==> SwI2c.Refused(slave, p + 19 * i, octet) && slave(p + 19 * i + 19).sda
    ensures i == k ==> SwI2c.AddressOk(slave, p + 19 * i, octet) && SwI2c.StopOk(slave, p + 19 * i + 10)
  {
    hide SwI2c.Refused;
    assert p + 19 * i + 19 == p + 19 * (i + 1);
  }

  lemma NoPolls(slave: SwI2c.Slave, p: nat, octet: byte)
    ensures PollSyms(slave, p, octet, 0) == []
  {
  }

  /** One page's worth of EEPROM_Write: the poll, the addressing call and the data call. After the poll the slave is
      offered one message, device address, two address bytes and the data, each acknowledged. */
  method PageWriteOnBus(m: SwI2c.Master, device: nat, address: array<byte>, data: array<byte>, tries: nat,
                        ghost k: nat)
    returns (ec: int, ghost polled: seq<SwI2c.Sym>)
    requires m.Valid() && address.Length == 2 && data.Length > 0 && address != data
    modifies m, address, data
    ensures m.Valid()
    ensures address[..] == old(address[..]) && data[..] == old(data[..])
    ensures var octet := SwI2c.AddressByte(device, true);
            old(Clear(m)) && k < tries && BusyFor(m.slave, old(m.pulse), octet, k) ==>
              polled == old(m.Syms()) + AnsweredPoll(m.slave, old(m.pulse), octet, k)
    ensures ec == EOK && (tries > 0 || old(Clear(m))) ==>
              && m.Idle()
              && m.Syms() == polled + SwI2c.Message([SwI2c.Octet(SwI2c.AddressByte(device, true), false)]
                                                    + SwI2c.Acked(old(address[..])) + SwI2c.Acked(old(data[..])))
  {
    hide *;
    ghost var a, d, head := address[..], data[..], SwI2c.Octet(SwI2c.AddressByte(device, true), false);
    ec := PollOnBus(m, device, tries, k);
    polled := m.Syms();
    if ec != EOK {
      return;
    }
    ec := SendHead(m, device, address, false);
    if ec != EOK {
      return;
    }
    ec := SendTail(m, device, data);
    if ec == EOK {
      SwI2c.ChainedCallsAreOneMessage(head, SwI2c.Acked(a), SwI2c.Acked(d));
      OneMessage(polled, SwI2c.Wire([head]), SwI2c.Wire(SwI2c.Acked(a)), SwI2c.Wire(SwI2c.Acked(d)));
    }
  }

  lemma OneMessage(before: seq<SwI2c.Sym>, w1: seq<SwI2c.Sym>, w2: seq<SwI2c.Sym>, w3: seq<SwI2c.Sym>)
    ensures before + [SwI2c.S] + w1 + w2 + [] + (w3 + [SwI2c.P]) == before + (([SwI2c.S] + w1 + w2) + (w3 + [SwI2c.P]))
    ensures before + [SwI2c.S] + w1 + w2 + [SwI2c.P] == before + ([SwI2c.S] + (w1 + w2) + [SwI2c.P])
  {
  }

  /** The addressing call, with or without a STOP. */
  method SendHead(m: SwI2c.Master, device: nat, address: array<byte>, stopping: bool) returns (ec: int)
    requires m.Valid() && address.Length == 2
    modifies m, address
    ensures m.Valid() && address[..] == old(address[..])
    ensures ec == EOK && !stopping ==> m.Inside()
    ensures ec == EOK && stopping ==> Clear(m)
    ensures ec == EOK && old(Clear(m)) ==>
              m.Syms() == old(m.Syms()) + [SwI2c.S]
                + SwI2c.Wire([SwI2c.Octet(SwI2c.AddressByte(device, true), false)])
                + SwI2c.Wire(SwI2c.Acked(old(address[..]))) + (if stopping then [SwI2c.P] else [])
  {
    hide SwI2c.Wire, SwI2c.Acked, SwI2c.AddressOk, SwI2c.WriteOk, SwI2c.Refused, SwI2c.Decode;
    hide SwI2c.BitsOf, SwI2c.BitSyms, SwI2c.AddressByte, SwI2c.Bits;
    assert address[..2] == address[..];
    SwI2c.AddressSyms(device, true, false);
    ec := m.Transfer(true, true, stopping, device, address, 2);
    assert address[..2] == old(address[..]);
  }

  method SendTail(m: SwI2c.Master, device: nat, data: array<byte>) returns (ec: int)
    requires m.Inside() && data.Length > 0
    modifies m, data
    ensures m.Valid() && data[..] == old(data[..])
    ensures ec == EOK ==>
              && m.Idle()
              && m.Syms() == old(m.Syms()) + (SwI2c.Wire(SwI2c.Acked(old(data[..]))) + [SwI2c.P])
  {
    hide *;
    assert data[..data.Length] == data[..];
    ec := m.Transfer(true, false, true, device, data, data.Length);
    assert data[..data.Length] == old(data[..]);
  }

  /** The data call of a read. */
  method ReceiveTail(m: SwI2c.Master, device: nat, buf: array<byte>) returns (ec: int)
    requires m.Valid()
    modifies m, buf
    ensures m.Valid()
    ensures ec == EOK && old(Clear(m)) ==>
              && m.Idle() && m.pulse == old(m.pulse) + 9 + 9 * buf.Length + 1
              && SwI2c.FromSlave(m.slave, old(m.pulse) + 9, buf[..])
              && m.Syms() == old(m.Syms()) + [SwI2c.S]
                   + SwI2c.Wire([SwI2c.Octet(SwI2c.AddressByte(device, false), false)])
                   + SwI2c.Wire(SwI2c.Answered(m.slave, old(m.pulse) + 9, buf[..], buf.Length)) + [SwI2c.P]
  {
    hide SwI2c.Wire, SwI2c.Answered, SwI2c.FromSlave, SwI2c.AddressOk, SwI2c.ReadOk, SwI2c.Refused, SwI2c.Decode;
    hide SwI2c.BitsOf, SwI2c.BitSyms, SwI2c.AddressByte, SwI2c.Bits;
    SwI2c.AddressSyms(device, false, false);
    ec := m.Transfer(false, true, true, device, buf, buf.Length);
    assert buf[..buf.Length] == buf[..];
  }

  /** EEPROM_Read: the poll, the addressing call unless the chip is known to stand at the offset, and the data call.
      The bus carries one message each; what is read is what the slave put on the line in the last, of which it sees
      every byte but the last acknowledged. */
  method ReadOnBus(m: SwI2c.Master, device: nat, address: array<byte>, buf: array<byte>, addressing: bool, tries: nat,
                    ghost k: nat)
    returns (ec: int, ghost polled: seq<SwI2c.Sym>, ghost p: nat)
    requires m.Valid() && address.Length == 2 && address != buf
    modifies m, address, buf
    ensures m.Valid() && address[..] == old(address[..])
    ensures var octet := SwI2c.AddressByte(device, true);
            old(Clear(m)) && k < tries && BusyFor(m.slave, old(m.pulse), octet, k) ==>
              polled == old(m.Syms()) + AnsweredPoll(m.slave, old(m.pulse), octet, k)
    ensures ec == EOK && (tries > 0 || old(Clear(m))) ==>
              && m.Idle() && m.pulse == p + 9 * buf.Length + 1
              && SwI2c.FromSlave(m.slave, p, buf[..])
              && m.Syms() ==
                 polled
                 + (if addressing then
                      SwI2c.Message([SwI2c.Octet(SwI2c.AddressByte(device, true), false)]
                                    + SwI2c.Acked(old(address[..])))
                    else [])
                 + SwI2c.Message([SwI2c.Octet(SwI2c.AddressByte(device, false), false)]
                                 + SwI2c.Answered(m.slave, p, buf[..], buf.Length))
  {
    hide *;
    ghost var a := address[..];
    p := 0;
    ec := PollOnBus(m, device, tries, k);
    polled := m.Syms();
    if ec != EOK {
      return;
    }
    if addressing {
      ec := SendHead(m, device, address, true);
      OneCall(polled, SwI2c.Octet(SwI2c.AddressByte(device, true), false), SwI2c.Acked(a));
    }
    if ec == EOK {
      ghost var syms1 := m.Syms();
      p := m.pulse + 9;
      ec := ReceiveTail(m, device, buf);
      OneCall(syms1, SwI2c.Octet(SwI2c.AddressByte(device, false), false),
              SwI2c.Answered(m.slave, p, buf[..], buf.Length));
    }
  }

  /** One call with its own address phase and STOP is one message. */
  lemma OneCall(before: seq<SwI2c.Sym>, head: SwI2c.Octet, rest: seq<SwI2c.Octet>)
    ensures before + [SwI2c.S] + SwI2c.Wire([head]) + SwI2c.Wire(rest) + [SwI2c.P] ==
            before + SwI2c.Message([head] + rest)
  {
    SwI2c.WireAppend([head], rest);
    hide SwI2c.Wire;
    OneMessage(before, SwI2c.Wire([head]), SwI2c.Wire(rest), []);
  }
}
