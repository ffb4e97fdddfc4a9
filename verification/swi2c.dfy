/** The bit-banged I2C master: line writes step by step, and an independent decoder of the line levels
    (UM10204, sections 3.1.3 to 3.1.6). */
module SwI2c {
  import opened Bytes

  const EI2C_ARB_LOST: int := -40
  const EI2C_BUS_TIMEOUT: int := -41
  const EI2C_NACK: int := -42
  const EI2C_START: int := -43
  const EI2C_ADDR: int := -44
  const EI2C_STOP: int := -45

  // ---- the bus ----

  /** What the other parties do during one clock pulse: the level they leave SDA at, and whether they let
      go of SCL before the stretching timeout. */
  datatype Pulse = Pulse(sda: bool, released: bool)

  type Slave = nat -> Pulse

  /** SCL and SDA as the master drives them, SDA as the others do; a line is high when all release it. */
  datatype Level = Level(scl: bool, master: bool, slave: bool)

  /** START, STOP, a clocked bit, or a change of SDA during a high clock that the others mask. */
  datatype Sym = S | P | Bit(b: bool) | Glitch

  /** Symbols seen so far, the value sampled in the present high phase, the last levels. */
  datatype Dec = Dec(syms: seq<Sym>, sample: Option<bool>, last: Level)

  /** The decoder looks at one change of levels at a time. */
  function Observe(d: Dec, l: Level): Dec {
    if d.last.scl && l.scl then
      if d.last.master == l.master then d.(last := l)
      else Dec(d.syms + [if !l.slave then Glitch else if l.master then P else S], None, l)
    else if l.scl then Dec(d.syms, Some(l.master && l.slave), l)
    else if d.last.scl then Dec(d.syms + (if d.sample.Some? then [Bit(d.sample.value)] else []), None, l)
    else d.(last := l)
  }

  function Decode(trace: seq<Level>): Dec {
    if trace == [] then Dec([], None, Level(true, true, true))
    else Observe(Decode(trace[..|trace| - 1]), trace[|trace| - 1])
  }

  /** The decoder as section 3.1 of UM10204 has it: SDA falling while the clock is high is a START, rising a STOP, and a
      bit is the level of SDA, low if anybody pulls it, in a high phase in which it does not change. */
  lemma DecoderRules(syms: seq<Sym>, master: bool, low: bool, high: bool, after: bool)
    ensures Observe(Dec(syms, None, Level(true, true, true)), Level(true, false, true)).syms == syms + [S]
    ensures Observe(Dec(syms, None, Level(true, false, true)), Level(true, true, true)).syms == syms + [P]
    ensures var risen := Observe(Dec(syms, None, Level(false, master, low)), Level(true, master, high));
            && risen.syms == syms
            && Observe(risen, Level(false, master, after)).syms == syms + [Bit(master && high)]
  {
  }

  // ---- bits and octets ----

  function Pow2(n: nat): (r: nat)
    ensures r >= 1
  {
    if n == 0 then 1 else 2 * Pow2(n - 1)
  }

  /** The low `n` bits, most significant first. */
  function BitsOf(x: nat, n: nat): (bs: seq<bool>)
    ensures |bs| == n
  {
    if n == 0 then [] else BitsOf(x / 2, n - 1) + [x % 2 == 1]
  }

  function Bits(b: byte): (bs: seq<bool>)
    ensures |bs| == 8
  {
    BitsOf(b, 8)
  }

  function FromBits(bs: seq<bool>): nat {
    if bs == [] then 0 else 2 * FromBits(bs[..|bs| - 1]) + (if bs[|bs| - 1] then 1 else 0)
  }

  lemma {:induction false} FromBitsOf(x: nat, n: nat)
    requires x < Pow2(n)
    ensures FromBits(BitsOf(x, n)) == x
  {
    if n > 0 {
      FromBitsOf(x / 2, n - 1);
      assert BitsOf(x, n)[..n - 1] == BitsOf(x / 2, n - 1);
    }
  }

  lemma {:induction false} BitsOfFrom(bs: seq<bool>)
    ensures BitsOf(FromBits(bs), |bs|) == bs && FromBits(bs) < Pow2(|bs|)
  {
    if bs != [] {
      BitsOfFrom(bs[..|bs| - 1]);
      assert FromBits(bs) / 2 == FromBits(bs[..|bs| - 1]);
    }
  }

  lemma Pow2Of8()
    ensures Pow2(8) == 256 && Pow2(7) == 128
  {
    assert Pow2(4) == 16;
  }

  /** Reading back the bits of a byte gives the byte. */
  lemma BitsRoundTrip(b: byte)
    ensures FromBits(Bits(b)) == b
  {
    Pow2Of8();
    FromBitsOf(b, 8);
  }

  /** A byte put together from eight bits has those bits. */
  lemma BitsOfValue(bs: seq<bool>)
    requires |bs| == 8
    ensures FromBits(bs) < 0x100 && Bits(FromBits(bs)) == bs
  {
    Pow2Of8();
    BitsOfFrom(bs);
  }

  /** Taking off the top bit. */
  lemma {:induction false} TopBit(x: nat, n: nat)
    requires n >= 1 && x < Pow2(n)
    ensures BitsOf(x, n)[0] <==> x >= Pow2(n - 1)
    ensures BitsOf(x, n)[1..] == BitsOf(if x >= Pow2(n - 1) then x - Pow2(n - 1) else x, n - 1)
  {
    if n == 1 {
      assert BitsOf(x, 1) == BitsOf(x / 2, 0) + [x % 2 == 1] == [x % 2 == 1];
    } else {
      TopBit(x / 2, n - 1);
      var y := if x >= Pow2(n - 1) then x - Pow2(n - 1) else x;
      assert y / 2 == (if x / 2 >= Pow2(n - 2) then x / 2 - Pow2(n - 2) else x / 2) && y % 2 == x % 2;
      assert BitsOf(x, n)[1..] == BitsOf(x / 2, n - 1)[1..] + [x % 2 == 1];
    }
  }

  /** What `byte & 0x80` reads and what `byte <<= 1` leaves. */
  lemma ShiftOut(b: byte)
    ensures Bits(b)[0] <==> b >= 0x80
    ensures Bits(b * 2 % 0x100) == Bits(b)[1..] + [false]
  {
    Pow2Of8();
    TopBit(b, 8);
    hide BitsOf, Pow2;
    var y := if b >= 0x80 then b - 0x80 else b;
    DropTop(b);
    BitsOfDouble(y, 7);
  }

  /** One turn of the bit loop, on the bits still to come. */
  lemma TakeBit(b: byte, left: seq<bool>)
    requires 0 < |left| <= 8 && left == Bits(b)[..|left|]
    ensures left[0] <==> b >= 0x80
    ensures left[1..] == Bits(b * 2 % 0x100)[..|left| - 1]
  {
    ShiftOut(b);
    hide Bits;
  }

  lemma DropTop(b: byte)
    ensures b * 2 % 0x100 == 2 * (if b >= 0x80 then b - 0x80 else b)
  {
  }

  lemma BitsOfDouble(y: nat, n: nat)
    ensures BitsOf(2 * y, n + 1) == BitsOf(y, n) + [false]
  {
    assert 2 * y / 2 == y && 2 * y % 2 == 0;
  }

  /** Eight data bits and the acknowledge slot. */
  datatype Octet = Octet(value: byte, nack: bool)

  function BitSyms(bs: seq<bool>): (r: seq<Sym>)
    ensures |r| == |bs| && forall i :: 0 <= i < |bs| ==> r[i] == Bit(bs[i])
  {
    seq(|bs|, i requires 0 <= i < |bs| => Bit(bs[i]))
  }

  function OctetSyms(o: Octet): (r: seq<Sym>)
    ensures |r| == 9
  {
    BitSyms(Bits(o.value)) + [Bit(o.nack)]
  }

  function Wire(os: seq<Octet>): seq<Sym> {
    if os == [] then [] else Wire(os[..|os| - 1]) + OctetSyms(os[|os| - 1])
  }

  lemma {:induction false} WireAppend(a: seq<Octet>, b: seq<Octet>)
    ensures Wire(a + b) == Wire(a) + Wire(b)
  {
    if b == [] {
      assert a + b == a;
    } else {
      var n := |b| - 1;
      assert (a + b)[..|a + b| - 1] == a + b[..n];
      WireAppend(a, b[..n]);
    }
  }

  /** The other side of the bus: START, groups of nine bits, STOP. */
  function Parse(syms: seq<Sym>): Option<seq<Octet>> {
    if |syms| < 2 || syms[0] != S || syms[|syms| - 1] != P then None else ParseOctets(syms[1..|syms| - 1])
  }

  predicate AllBits(syms: seq<Sym>) {
    forall i :: 0 <= i < |syms| ==> syms[i].Bit?
  }

  function ParseOctets(syms: seq<Sym>): Option<seq<Octet>> {
    if syms == [] then Some([])
    else if |syms| < 9 || !AllBits(syms[..9]) then None
    else
      var rest := ParseOctets(syms[9..]);
      if rest.None? then None else Some([ParseOctet(syms[..9])] + rest.value)
  }

  function ParseOctet(syms: seq<Sym>): Octet
    requires |syms| == 9 && AllBits(syms)
  {
    Octet(FromBits(Values(syms[..8])) % 0x100, syms[8].b)
  }

  function Values(syms: seq<Sym>): seq<bool>
    requires AllBits(syms)
  {
    seq(|syms|, i requires 0 <= i < |syms| => syms[i].b)
  }

  lemma ParseOneOctet(o: Octet)
    ensures AllBits(OctetSyms(o)) && ParseOctet(OctetSyms(o)) == o
  {
    hide FromBits;
    assert Values(OctetSyms(o)[..8]) == Bits(o.value);
    BitsRoundTrip(o.value);
  }

  lemma {:induction false} ParseOctetsOfWire(os: seq<Octet>)
    ensures ParseOctets(Wire(os)) == Some(os)
  {
    if os != [] {
      var o := os[0];
      assert os == [o] + os[1..];
      WireAppend([o], os[1..]);
      assert [o][..0] == [] && Wire([o]) == [] + OctetSyms(o) == OctetSyms(o);
      var w := Wire(os);
      assert w == OctetSyms(o) + Wire(os[1..]);
      assert w[9..] == Wire(os[1..]) && w[..9] == OctetSyms(o);
      ParseOneOctet(o);
      ParseOctetsOfWire(os[1..]);
    }
  }

  /** A whole message on the bus. */
  function Message(os: seq<Octet>): seq<Sym> {
    [S] + Wire(os) + [P]
  }

  lemma MessageRoundTrip(os: seq<Octet>)
    ensures Parse(Message(os)) == Some(os)
  {
    ParseOctetsOfWire(os);
    hide Wire, ParseOctets;
    assert Message(os)[1..|Message(os)| - 1] == Wire(os);
  }

  lemma OctetOfNine(syms: seq<Sym>)
    requires |syms| == 9 && AllBits(syms)
    ensures OctetSyms(ParseOctet(syms)) == syms
  {
    hide FromBits, Bits;
    BitsOfValue(Values(syms[..8]));
  }

  /** Only what octets look like is read as octets. */
  lemma {:induction false} ParsedIsWire(syms: seq<Sym>)
    ensures ParseOctets(syms).Some? ==> Wire(ParseOctets(syms).value) == syms
    decreases |syms|
  {
    hide ParseOctet;
    if syms != [] && ParseOctets(syms).Some? {
      ParsedIsWire(syms[9..]);
      var o, rest := ParseOctet(syms[..9]), ParseOctets(syms[9..]).value;
      OctetOfNine(syms[..9]);
      WireAppend([o], rest);
      assert [o][..0] == [] && Wire([o]) == [] + OctetSyms(o) == OctetSyms(o);
      assert syms == syms[..9] + syms[9..];
    }
  }

  /** A trace reads as a message if and only if it is that message. */
  lemma ParseExact(syms: seq<Sym>, os: seq<Octet>)
    ensures Parse(syms) == Some(os) <==> syms == Message(os)
  {
    hide ParseOctets, Wire;
    MessageRoundTrip(os);
    if Parse(syms) == Some(os) {
      ParsedIsWire(syms[1..|syms| - 1]);
      assert syms == [S] + syms[1..|syms| - 1] + [P];
    }
  }

  /** Calls chained without STOP and RESTART are one message on the bus, and it reads back octet by octet. */
  lemma ChainedCallsAreOneMessage(address: Octet, first: seq<Octet>, second: seq<Octet>)
    ensures ([S] + Wire([address]) + Wire(first)) + (Wire(second) + [P]) == Message([address] + first + second)
    ensures Parse(([S] + Wire([address]) + Wire(first)) + (Wire(second) + [P])) == Some([address] + first + second)
  {
    WireAppend([address], first);
    WireAppend([address] + first, second);
    MessageRoundTrip([address] + first + second);
    hide Wire, Parse;
  }

  // ---- what the slave's behaviour makes of each operation ----

  /** Result of writing the remaining bits, the first of them in pulse `p`, then the acknowledge slot. */
  function WriteResult(slave: Slave, p: nat, bits: seq<bool>): (ec: int)
    ensures ec == EOK || ec == EI2C_NACK || ec == EI2C_BUS_TIMEOUT || ec == EI2C_ARB_LOST
    decreases |bits|
  {
    if bits == [] then
      if !slave(p).released then EI2C_BUS_TIMEOUT else if slave(p).sda then EI2C_NACK else EOK
    else if !slave(p).released then EI2C_BUS_TIMEOUT
    else if bits[0] && !slave(p).sda then EI2C_ARB_LOST
    else WriteResult(slave, p + 1, bits[1..])
  }

  lemma WriteStep(slave: Slave, p: nat, bits: seq<bool>)
    requires bits != []
    ensures WriteResult(slave, p, bits) == if !slave(p).released then EI2C_BUS_TIMEOUT
                                           else if bits[0] && !slave(p).sda then EI2C_ARB_LOST
                                           else WriteResult(slave, p + 1, bits[1..])
  {
  }

  lemma AckStep(slave: Slave, p: nat)
    ensures WriteResult(slave, p, []) == if !slave(p).released then EI2C_BUS_TIMEOUT
                                         else if slave(p).sda then EI2C_NACK else EOK
  {
  }

  /** No stretching timeout in `n` pulses from `p` on. */
  predicate Clocked(slave: Slave, p: nat, n: nat) {
    forall i :: p <= i < p + n ==> slave(i).released
  }

  function SlaveBits(slave: Slave, p: nat, n: nat): (bs: seq<bool>)
    ensures |bs| == n
  {
    seq(n, i requires 0 <= i => slave(p + i).sda)
  }

  // ---- whole phases ----

  /** The pulse in which a START is sent: the present high phase, or the next one. */
  function StartPulse(scl: bool, pulse: nat): nat {
    if scl then pulse else pulse + 1
  }

  /** What `addr << 1 | ..` stores in a byte: seven address bits, the most significant first, then the direction bit,
      which is low exactly for a write. */
  function AddressByte(addr: nat, write: bool): (octet: byte)
    ensures Bits(octet) == BitsOf(addr, 7) + [!write]
  {
    AddressBits(addr, if write then 0 else 1);
    (2 * addr + (if write then 0 else 1)) % 0x100
  }

  lemma AddressBits(addr: nat, low: nat)
    requires low < 2
    ensures Bits((2 * addr + low) % 0x100) == BitsOf(addr, 7) + [low == 1]
  {
    var x := (2 * addr + low) % 0x100;
    Halved(addr, low);
    Pow2Of8();
    LowBitsOnly(addr % 0x80, addr / 0x80, 7);
    assert addr == addr % 0x80 + Pow2(7) * (addr / 0x80);
    hide Pow2;
    assert Bits(x) == BitsOf(x / 2, 7) + [x % 2 == 1];
  }

  lemma Halved(addr: nat, low: nat)
    requires low < 2
    ensures var x := (2 * addr + low) % 0x100; x / 2 == addr % 0x80 && x % 2 == low
  {
  }

  /** Only the low bits are looked at. */
  lemma {:induction false} LowBitsOnly(x: nat, q: nat, n: nat)
    ensures BitsOf(x + Pow2(n) * q, n) == BitsOf(x, n)
  {
    if n > 0 {
      var t := Pow2(n - 1) * q;
      Twice(Pow2(n - 1), q);
      assert (x + 2 * t) / 2 == x / 2 + t && (x + 2 * t) % 2 == x % 2;
      LowBitsOnly(x / 2, q, n - 1);
    }
  }

  lemma Twice(p: nat, q: nat)
    ensures (2 * p) * q == 2 * (p * q)
  {
  }

  /** The address octet and its acknowledge slot on the line. */
  lemma AddressSyms(addr: nat, write: bool, nack: bool)
    ensures Wire([Octet(AddressByte(addr, write), nack)]) == BitSyms(BitsOf(addr, 7) + [!write]) + [Bit(nack)]
  {
    WireOne(Octet(AddressByte(addr, write), nack));
  }

  /** What a START looks like on the bus. When the call before left the clock high and SDA low, releasing SDA is
      seen first. */
  function Opening(closing: bool, free: bool): seq<Sym> {
    (if closing then [if free then P else Glitch] else []) + [if free then S else Glitch]
  }

  predicate AddressOk(slave: Slave, p: nat, octet: byte) {
    slave(p).released && WriteResult(slave, p + 1, Bits(octet)) == EOK
  }

  /** Nobody acknowledges the address, and the clock is never held through the zero byte that follows. */
  predicate Refused(slave: Slave, p: nat, octet: byte) {
    slave(p).released && WriteResult(slave, p + 1, Bits(octet)) == EI2C_NACK && Clocked(slave, p + 10, 9)
  }

  /** The octets of a refused address and the zero byte after it. */
  function RefusedOctets(slave: Slave, p: nat, octet: byte): seq<Octet> {
    [Octet(octet, true), Octet(0, slave(p + 18).sda)]
  }

  /** Low bits are never lost to others: only a held clock ends the byte early. */
  lemma {:induction false} LowBits(slave: Slave, p: nat, bits: seq<bool>)
    requires forall i :: 0 <= i < |bits| ==> !bits[i]
    ensures WriteResult(slave, p, bits) == if !Clocked(slave, p, |bits| + 1) then EI2C_BUS_TIMEOUT
                                           else if slave(p + |bits|).sda then EI2C_NACK else EOK
    decreases |bits|
  {
    if bits != [] && slave(p).released {
      LowBits(slave, p + 1, bits[1..]);
      assert Clocked(slave, p, |bits| + 1) <==> Clocked(slave, p + 1, |bits|);
    }
  }

  lemma {:induction false} ZeroBits(n: nat)
    ensures forall i :: 0 <= i < n ==> !BitsOf(0, n)[i]
  {
    if n > 0 {
      ZeroBits(n - 1);
    }
  }

  /** The zero byte after a refused address. */
  lemma ZeroByte(slave: Slave, p: nat)
    ensures WriteResult(slave, p, Bits(0)) == if !Clocked(slave, p, 9) then EI2C_BUS_TIMEOUT
                                              else if slave(p + 8).sda then EI2C_NACK else EOK
  {
    ZeroBits(8);
    LowBits(slave, p, Bits(0));
  }

  lemma WireTwo(a: Octet, b: Octet)
    ensures Wire([a, b]) == OctetSyms(a) + OctetSyms(b)
  {
    WireOne(a);
    WireSnoc([a], b);
    assert [a] + [b] == [a, b];
  }

  predicate WriteOk(slave: Slave, p: nat, data: seq<byte>) {
    forall k :: 0 <= k < |data| ==> WriteResult(slave, p + 9 * k + 1, Bits(data[k])) == EOK
  }

  predicate ReadOk(slave: Slave, p: nat, size: nat) {
    forall k :: 0 <= k < size ==> Clocked(slave, p + 9 * k + 1, 9)
  }

  predicate StopOk(slave: Slave, p: nat) {
    slave(p).released && slave(p).sda
  }

  /** The bytes are the ones the slave put on the line. */
  predicate FromSlave(slave: Slave, p: nat, bytes: seq<byte>) {
    forall k :: 0 <= k < |bytes| ==> Bits(bytes[k]) == SlaveBits(slave, p + 9 * k + 1, 8)
  }

  function Acked(data: seq<byte>): (os: seq<Octet>)
    ensures |os| == |data|
  {
    seq(|data|, k requires 0 <= k < |data| => Octet(data[k], false))
  }

  /** Bytes read so far out of `size`: only the last is not acknowledged, provided the slave lets go. */
  function Answered(slave: Slave, p: nat, bytes: seq<byte>, size: nat): (os: seq<Octet>)
    ensures |os| == |bytes|
  {
    seq(|bytes|, k requires 0 <= k < |bytes| => Octet(bytes[k], k == size - 1 && slave(p + 9 * k + 9).sda))
  }

  lemma WireOne(o: Octet)
    ensures Wire([o]) == OctetSyms(o)
  {
    assert [o][..0] == [] && Wire([o]) == Wire([o][..0]) + OctetSyms(o);
  }

  lemma WireSnoc(os: seq<Octet>, o: Octet)
    ensures Wire(os + [o]) == Wire(os) + OctetSyms(o)
  {
    assert (os + [o])[..|os|] == os;
  }

  lemma WireMore(data: seq<byte>, n: nat)
    requires n < |data|
    ensures Wire(Acked(data[..n + 1])) == Wire(Acked(data[..n])) + OctetSyms(Octet(data[n], false))
    ensures Wire(Acked(data[..n]) + [Octet(data[n], true)]) == Wire(Acked(data[..n])) + OctetSyms(Octet(data[n], true))
  {
    assert Acked(data[..n + 1]) == Acked(data[..n]) + [Octet(data[n], false)];
    WireSnoc(Acked(data[..n]), Octet(data[n], false));
    WireSnoc(Acked(data[..n]), Octet(data[n], true));
  }

  lemma AnsweredMore(slave: Slave, p: nat, bytes: seq<byte>, value: byte, size: nat)
    ensures var n := |bytes|; var o := Octet(value, n == size - 1 && slave(p + 9 * n + 9).sda);
            Wire(Answered(slave, p, bytes + [value], size)) == Wire(Answered(slave, p, bytes, size)) + OctetSyms(o)
  {
    var n := |bytes|;
    var o := Octet(value, n == size - 1 && slave(p + 9 * n + 9).sda);
    assert Answered(slave, p, bytes + [value], size) == Answered(slave, p, bytes, size) + [o];
    WireSnoc(Answered(slave, p, bytes, size), o);
  }

  lemma NothingWritten(slave: Slave, p: nat, data: seq<byte>)
    ensures WriteOk(slave, p, data[..0]) && Wire(Acked(data[..0])) == []
  {
  }

  lemma OneMoreWritten(slave: Slave, p: nat, data: seq<byte>, n: nat)
    requires n < |data| && WriteOk(slave, p, data[..n])
    ensures var r := WriteResult(slave, p + 9 * n + 1, Bits(data[n]));
            if r == EOK then WriteOk(slave, p, data[..n + 1]) else !WriteOk(slave, p, data)
  {
    hide WriteResult, Bits;
  }

  lemma NothingRead(slave: Slave, p: nat, bytes: seq<byte>, size: nat)
    requires bytes == []
    ensures ReadOk(slave, p, 0) && FromSlave(slave, p, bytes) && Wire(Answered(slave, p, bytes, size)) == []
  {
  }

  lemma OneMoreRead(slave: Slave, p: nat, bytes: seq<byte>, value: byte, n: nat, size: nat)
    requires n == |bytes| && n < size && ReadOk(slave, p, n) && FromSlave(slave, p, bytes)
    ensures if Clocked(slave, p + 9 * n + 1, 9) then ReadOk(slave, p, n + 1) else !ReadOk(slave, p, size)
    ensures Bits(value) == SlaveBits(slave, p + 9 * n + 1, 8) ==> FromSlave(slave, p, bytes + [value])
  {
    hide Bits, SlaveBits, Clocked;
  }

  lemma NoSlaveBits(slave: Slave, p: nat)
    ensures FromBits(SlaveBits(slave, p, 0)) == 0 && BitSyms(SlaveBits(slave, p, 0)) == []
  {
  }

  lemma NextSlaveBit(slave: Slave, p: nat, n: nat)
    ensures var bit := slave(p + n).sda;
            && FromBits(SlaveBits(slave, p, n + 1)) == 2 * FromBits(SlaveBits(slave, p, n)) + (if bit then 1 else 0)
            && BitSyms(SlaveBits(slave, p, n + 1)) == BitSyms(SlaveBits(slave, p, n)) + [Bit(bit)]
  {
    var all := SlaveBits(slave, p, n + 1);
    assert all[..n] == SlaveBits(slave, p, n);
    assert BitSyms(all) == BitSyms(all[..n]) + [Bit(all[n])];
  }

  class Master {
    const slave: Slave
    var scl: bool
    var sda: bool
    /** Number of rising clock edges so far. */
    var pulse: nat
    ghost var trace: seq<Level>

    ghost predicate Valid()
      reads this
    {
      Decode(trace).last.scl == scl && Decode(trace).last.master == sda
    }

    ghost function Syms(): seq<Sym>
      reads this
    {
      Decode(trace).syms
    }

    /** Between messages: both lines released. */
    ghost predicate Idle()
      reads this
    {
      Valid() && scl && sda && Decode(trace).sample == None
    }

    /** Inside a message: clock low. */
    ghost predicate Inside()
      reads this
    {
      Valid() && !scl && Decode(trace).sample == None
    }

    constructor (slave: Slave)
      ensures Idle() && Syms() == [] && this.slave == slave && pulse == 0
    {
      this.slave, scl, sda, pulse, trace := slave, true, true, 0, [];
    }

    method WriteSda(x: bool)
      requires Valid()
      modifies this`sda, this`trace
      ensures Valid() && sda == x
      ensures Decode(trace) == Observe(old(Decode(trace)), Level(scl, x, slave(pulse).sda))
      ensures old(Inside()) ==> Inside() && Syms() == old(Syms())
    {
      sda := x;
      trace := trace + [Level(scl, x, slave(pulse).sda)];
    }

    method WriteScl(x: bool)
      requires Valid()
      modifies this`scl, this`pulse, this`trace
      ensures Valid() && scl == x && pulse == if x && !old(scl) then old(pulse) + 1 else old(pulse)
      ensures Decode(trace) == Observe(old(Decode(trace)), Level(x, sda, slave(pulse).sda))
    {
      if x && !scl {
        pulse := pulse + 1;
      }
      scl := x;
      trace := trace + [Level(x, sda, slave(pulse).sda)];
    }

    function ReadSda(): bool
      reads this
    {
      sda && slave(pulse).sda
    }

    /** SwI2C_ClockStrech: waits while the others hold SCL; time decides how that ends. */
    function ClockStretch(): int
      reads this
    {
      if slave(pulse).released then EOK else -1
    }

    /** Called in any state: also when a failed call has left the clock high. */
    method Start() returns (ec: int)
      requires Valid()
      modifies this`scl, this`sda, this`pulse, this`trace
      ensures Valid() && (ec != EOK ==> scl && sda)
      ensures pulse == if old(scl) then old(pulse) else old(pulse) + 1
      ensures ec == if slave(pulse).released then EOK else EI2C_ARB_LOST
      ensures ec == EOK ==> Inside() && Syms() == old(Syms()) + Opening(old(scl && !sda), slave(pulse).sda)
    {
      hide Decode;
      WriteSda(true);
      WriteScl(true);
      if ClockStretch() != EOK {
        return EI2C_ARB_LOST;
      }
      WriteSda(false);
      WriteScl(false);
      ec := EOK;
    }

    /** However it ends, both lines are released. */
    method Stop() returns (ec: int)
      requires Valid()
      modifies this`scl, this`sda, this`pulse, this`trace
      ensures Idle()
      ensures old(Inside()) ==> pulse == old(pulse) + 1
      ensures ec == if slave(pulse).released && slave(pulse).sda then EOK else EI2C_ARB_LOST
      ensures old(Inside()) ==> Syms() == old(Syms()) + [if slave(pulse).sda then P else Glitch]
    {
      hide Decode;
      WriteSda(false);
      WriteScl(true);
      if ClockStretch() != EOK {
        WriteSda(true);
        return EI2C_ARB_LOST;
      }
      WriteSda(true);
      if !ReadSda() {
        return EI2C_ARB_LOST;
      }
      ec := EOK;
    }

    /** One turn of the bit loop: put the bit on SDA, clock it, see that nobody else drives the line. */
    method WriteBit(bit: bool) returns (ec: int)
      requires Valid()
      modifies this`scl, this`sda, this`pulse, this`trace
      ensures Valid()
      ensures old(Inside()) ==> pulse == old(pulse) + 1
      ensures ec == if !slave(pulse).released then EI2C_BUS_TIMEOUT
                    else if bit && !slave(pulse).sda then EI2C_ARB_LOST else EOK
      ensures old(Inside()) && ec == EOK ==> Inside() && Syms() == old(Syms()) + [Bit(bit)]
    {
      hide Decode;
      WriteSda(bit);
      WriteScl(true);
      if ClockStretch() != EOK {
        WriteSda(true);
        return EI2C_BUS_TIMEOUT;
      }
      if bit != ReadSda() {
        WriteSda(true);
        return EI2C_ARB_LOST;
      }
      WriteScl(false);
      ec := EOK;
    }

    /** Clock one pulse without touching SDA, and sample the line. */
    method Sample() returns (ec: int, bit: bool)
      requires Valid()
      modifies this`scl, this`pulse, this`trace
      ensures Valid()
      ensures old(Inside()) ==> pulse == old(pulse) + 1
      ensures ec == if slave(pulse).released then EOK else EI2C_BUS_TIMEOUT
      ensures bit == (sda && slave(pulse).sda)
      ensures old(Inside()) && ec == EOK ==> Inside() && Syms() == old(Syms()) + [Bit(bit)]
    {
      hide Decode;
      WriteScl(true);
      bit := ReadSda();
      if ClockStretch() != EOK {
        return EI2C_BUS_TIMEOUT, bit;
      }
      WriteScl(false);
      ec := EOK;
    }

    /** Called inside a message, except that a failed address phase calls it whatever the lines look like. */
    method WriteByte(byte0: byte) returns (ec: int)
      requires Valid()
      modifies this`scl, this`sda, this`pulse, this`trace
      ensures Valid()
      ensures old(Inside()) ==> ec == WriteResult(slave, old(pulse) + 1, Bits(byte0))
      ensures old(Inside()) && (ec == EOK || ec == EI2C_NACK) ==>
                Inside() && pulse == old(pulse) + 9 &&
                Syms() == old(Syms()) + OctetSyms(Octet(byte0, ec == EI2C_NACK))
    {
      hide Bits, Decode, Observe, WriteResult;
      var b: byte, i := byte0, 0;
      ghost var bits, p0, inside, syms0 := Bits(byte0), pulse, Inside(), Syms();
      assert bits[0..] == bits == bits[..8] && BitSyms(bits[..0]) == [];
      while i < 8
        invariant 0 <= i <= 8 && Valid()
        invariant bits[i..] == Bits(b)[..8 - i]
        invariant inside ==> Inside() && pulse == p0 + i && Syms() == syms0 + BitSyms(bits[..i])
        invariant inside ==> WriteResult(slave, p0 + 1, bits) == WriteResult(slave, p0 + 1 + i, bits[i..])
      {
        TakeBit(b, bits[i..]);
        assert bits[i] == bits[i..][0] && bits[i..][1..] == bits[i + 1..];
        assert BitSyms(bits[..i + 1]) == BitSyms(bits[..i]) + [Bit(bits[i])];
        WriteStep(slave, p0 + 1 + i, bits[i..]);
        ec := WriteBit(b >= 0x80);
        if ec != EOK {
          return;
        }
        i, b := i + 1, b * 2 % 0x100;
      }
      AckStep(slave, p0 + 9);
      WriteSda(true);
      var nack;
      ec, nack := Sample();
      if ec == EOK && nack {
        ec := EI2C_NACK;
      }
    }

    method ReadByte(ack: bool) returns (ec: int, value: byte)
      requires Inside()
      modifies this`scl, this`sda, this`pulse, this`trace
      ensures Valid()
      ensures ec == if Clocked(slave, old(pulse) + 1, 9) then EOK else EI2C_BUS_TIMEOUT
      ensures ec == EOK ==>
                && Inside() && pulse == old(pulse) + 9
                && Bits(value) == SlaveBits(slave, old(pulse) + 1, 8)
                && Syms() == old(Syms()) + OctetSyms(Octet(value, !ack && slave(pulse).sda))
    {
      hide Bits, FromBits, SlaveBits, BitSyms, Decode, Observe;
      var b: nat, i := 0, 0;
      value := 0;
      ghost var p0, syms0 := pulse, Syms();
      NoSlaveBits(slave, p0 + 1);
      WriteSda(true);
      while i < 8
        invariant 0 <= i <= 8 && Inside() && sda && pulse == p0 + i
        invariant Clocked(slave, p0 + 1, i)
        invariant b == FromBits(SlaveBits(slave, p0 + 1, i))
        invariant Syms() == syms0 + BitSyms(SlaveBits(slave, p0 + 1, i))
      {
        var bit;
        ec, bit := Sample();
        if ec != EOK {
          return;
        }
        NextSlaveBit(slave, p0 + 1, i);
        b := 2 * b + (if bit then 1 else 0);
        i := i + 1;
      }
      WriteSda(!ack);
      var line;
      ec, line := Sample();
      if ec != EOK {
        return;
      }
      BitsOfValue(SlaveBits(slave, p0 + 1, 8));
      value := b;
    }

    /** The address phase, with the extra zero byte and STOP when nobody answers: then both lines are released
        again, and the bus has seen a whole message unless someone held the clock. */
    method Address(octet: byte) returns (ec: int)
      requires Valid()
      modifies this`scl, this`sda, this`pulse, this`trace
      ensures Valid()
      ensures var p := StartPulse(old(scl), old(pulse));
              var syms1 := old(Syms()) + Opening(old(scl && !sda), slave(p).sda);
              && (ec == EOK <==> AddressOk(slave, p, octet))
              && (ec != EOK ==> ec == if slave(p).released then EI2C_ADDR else EI2C_START)
              && (ec == EOK ==> Inside() && pulse == p + 9 && Syms() == syms1 + Wire([Octet(octet, false)]))
              && (ec == EI2C_ADDR ==> Idle())
              && (Refused(slave, p, octet) ==>
                    && ec == EI2C_ADDR && pulse == p + 19
                    && Syms() == syms1 + Wire(RefusedOctets(slave, p, octet))
                         + [if slave(pulse).sda then P else Glitch])
    {
      hide Bits, WriteResult, Wire, OctetSyms, Decode, Observe;
      ec := Start();
      if ec != EOK {
        return EI2C_START;
      }
      ghost var p := pulse;
      ec := WriteByte(octet);
      if ec != EOK {
        ZeroByte(slave, p + 10);
        ec := WriteByte(0x00);
        ec := Stop();
        WireTwo(Octet(octet, true), Octet(0, slave(p + 18).sda));
        return EI2C_ADDR;
      }
      WireOne(Octet(octet, false));
    }

    /** The write loop. */
    method WriteAll(data: seq<byte>) returns (ec: int, sent: nat)
      requires Inside()
      modifies this`scl, this`sda, this`pulse, this`trace
      ensures Valid()
      ensures ec == EOK <==> WriteOk(slave, old(pulse), data)
      ensures ec == EOK || ec == EI2C_NACK || ec == EI2C_BUS_TIMEOUT || ec == EI2C_ARB_LOST
      ensures sent <= |data| && (ec == EOK ==> sent == |data|) && (ec != EOK ==> sent < |data|)
      ensures ec == EOK ==>
                && Inside() && pulse == old(pulse) + 9 * |data|
                && Syms() == old(Syms()) + Wire(Acked(data))
      ensures ec == EI2C_NACK ==>
                && Inside()
                && Syms() == old(Syms()) + Wire(Acked(data[..sent]) + [Octet(data[sent], true)])
    {
      hide Bits, WriteOk, Wire, WriteResult, OctetSyms, Acked;
      sent, ec := 0, EOK;
      ghost var p0, syms0 := pulse, Syms();
      NothingWritten(slave, p0, data);
      while sent < |data|
        invariant sent <= |data| && Inside() && ec == EOK && pulse == p0 + 9 * sent
        invariant WriteOk(slave, p0, data[..sent])
        invariant Syms() == syms0 + Wire(Acked(data[..sent]))
      {
        WireMore(data, sent);
        OneMoreWritten(slave, p0, data, sent);
        ec := WriteByte(data[sent]);
        if ec != EOK {
          return;
        }
        sent := sent + 1;
      }
      assert data[..sent] == data;
    }

    /** The read loop: every byte but the last is acknowledged. */
    method ReadAll(buf: array<byte>, size: nat) returns (ec: int)
      requires Inside() && size <= buf.Length
      modifies this`scl, this`sda, this`pulse, this`trace, buf
      ensures Valid()
      ensures ec == if ReadOk(slave, old(pulse), size) then EOK else EI2C_BUS_TIMEOUT
      ensures ec == EOK ==>
                && Inside() && pulse == old(pulse) + 9 * size
                && FromSlave(slave, old(pulse), buf[..size])
                && Syms() == old(Syms()) + Wire(Answered(slave, old(pulse), buf[..size], size))
      ensures buf[size..] == old(buf[size..])
    {
      hide Bits, ReadOk, FromSlave, Wire, Answered, OctetSyms, SlaveBits, Clocked;
      ec := EOK;
      ghost var p0, syms0 := pulse, Syms();
      var i := 0;
      NothingRead(slave, p0, buf[..0], size);
      while i < size
        invariant i <= size && Inside() && ec == EOK && pulse == p0 + 9 * i
        invariant ReadOk(slave, p0, i) && FromSlave(slave, p0, buf[..i])
        invariant Syms() == syms0 + Wire(Answered(slave, p0, buf[..i], size))
        invariant buf[size..] == old(buf[size..])
      {
        var value;
        ec, value := ReadByte(i < size - 1);
        OneMoreRead(slave, p0, buf[..i], value, i, size);
        if ec != EOK {
          return;
        }
        ghost var before := buf[..i];
        buf[i] := value;
        assert buf[..i + 1] == before + [value];
        AnsweredMore(slave, p0, before, value, size);
        i := i + 1;
      }
    }

    /** SwI2C_Transfer. Without an address phase it continues the message that is open on the bus; with one it is
        called in any state. Without address phase and data its result is not set. */
    method Transfer(write: bool, addressing: bool, stopping: bool, addr: nat, buf: array<byte>, size: nat)
      returns (ec: int)
      requires if addressing then Valid() else Inside() && size > 0
      requires size <= buf.Length
      modifies this`scl, this`sda, this`pulse, this`trace, buf
      ensures Valid()
      ensures write ==> buf[..] == old(buf[..])
      ensures buf[size..] == old(buf[size..])
      ensures var p := if addressing then StartPulse(old(scl), old(pulse)) else old(pulse);
              var q := if addressing then p + 9 else p;
              var octet := AddressByte(addr, write);
              var bytes := buf[..size];
              var syms1 := old(Syms()) + if addressing then Opening(old(scl && !sda), slave(p).sda) else [];
              && (ec == EOK <==>
                    && (addressing ==> AddressOk(slave, p, octet))
                    && (if write then WriteOk(slave, q, bytes) else ReadOk(slave, q, size))
                    && (stopping ==> StopOk(slave, q + 9 * size + 1)))
              && (ec == EOK ==>
                    && (if stopping then Idle() else Inside())
                    && pulse == q + 9 * size + (if stopping then 1 else 0)
                    && (!write ==> FromSlave(slave, q, bytes))
                    && Syms() == syms1
                         + (if addressing then BitSyms(BitsOf(addr, 7) + [!write]) + [Bit(false)] else [])
                         + Wire(if write then Acked(bytes) else Answered(slave, q, bytes, size))
                         + (if stopping then [P] else []))
              && (write && ec == EI2C_NACK ==> Inside())
              && (ec == EI2C_ADDR || ec == EI2C_STOP ==> Idle())
              && (addressing && Refused(slave, p, octet) ==>
                    && ec == EI2C_ADDR && pulse == p + 19
                    && Syms() == syms1 + Wire(RefusedOctets(slave, p, octet))
                         + [if slave(pulse).sda then P else Glitch])
    {
      hide WriteOk, ReadOk, FromSlave, Wire, Answered, Acked, Decode, Observe, Opening, Clocked, Bits, RefusedOctets;
      AddressSyms(addr, write, false);
      ghost var syms0 := Syms();
      ec := *;
      if addressing {
        ec := Address(AddressByte(addr, write));
        if ec != EOK {
          return;
        }
      }
      ghost var syms1 := Syms();
      if write {
        var sent;
        ec, sent := WriteAll(buf[..size]);
        if ec != EOK {
          return;
        }
      } else {
        ec := ReadAll(buf, size);
        if ec != EOK {
          return;
        }
      }
      if stopping {
        var rc := Stop();
        if rc != EOK {
          ec := EI2C_STOP;
        }
      }
    }
  }
}
