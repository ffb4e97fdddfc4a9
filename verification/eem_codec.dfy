/** CDC-EEM packets on the wire (USB CDC EEM 1.0, section 5.1) and the two passes over a transfer:
    the packing done by the transmit task and the splitting done by the receive task. */
module EemCodec {
  import opened Bytes

  type Frame = seq<byte>

  const MAX_FRAME: int := 1518
  const TRANSFER_SIZE: int := 1518 + 4 + 2

  datatype Endian = Unknown | LE | BE

  /** Fields that USBEEM_ExtractHdrFields hands back. */
  datatype Hdr = Hdr(isData: bool, cmd: nat, len: nat)

  function ExtractHdrFields(end: Endian, raw: u16): Hdr {
    Decode(if end == LE then raw else Swap16(raw))
  }

  /** Type bit, command field, and the payload length that follows from them. */
  function Decode(h: u16): Hdr {
    var isData := h < 0x8000;
    var cmd := h / 0x800 % 8;
    Hdr(isData, cmd, if isData then h % 0x4000 else if cmd <= 1 then h % 0x800 else 0)
  }

  /** The endianness the receive task settles on, given a header and the size of its transfer. */
  function Detect(mode: Endian, raw: u16, size: nat): Endian {
    if mode != Unknown then mode
    else if raw == 0 && size == 2 then Unknown
    else if size == ExtractHdrFields(BE, raw).len + 2 then BE
    else if size == ExtractHdrFields(LE, raw).len + 2 then LE
    else Unknown
  }

  /** The header fields the receive task goes on with after detection. */
  function Fields(mode: Endian, raw: u16, size: nat): Hdr {
    if mode != Unknown then ExtractHdrFields(mode, raw)
    else if raw == 0 && size == 2 then ExtractHdrFields(BE, raw)
    else if size == ExtractHdrFields(BE, raw).len + 2 then ExtractHdrFields(BE, raw)
    else ExtractHdrFields(LE, raw)
  }

  /** The 16-bit header field as the (little-endian) core loads it. */
  function Raw(rest: seq<byte>): u16
    requires |rest| >= 2
  {
    var lo: int, hi: int := rest[0], rest[1];
    lo + 0x100 * hi
  }

  // ---- what a host or device may put on the wire ----

  datatype Packet =
    | Data(frame: Frame, crcValid: bool, crc: seq<byte>)
    | Echo(response: bool, payload: seq<byte>)
    | Hint(cmd: nat, param: nat)

  predicate ValidPacket(p: Packet) {
    match p
    case Data(frame, _, crc) => |frame| <= MAX_FRAME && |crc| == 4
    case Echo(_, payload) => |payload| < 0x800
    case Hint(cmd, param) => 2 <= cmd < 8 && param < 0x800
  }

  function HeaderValue(p: Packet): u16
    requires ValidPacket(p)
  {
    match p
    case Data(frame, crcValid, _) => (if crcValid then 0x4000 else 0) + |frame| + 4
    case Echo(response, payload) => 0x8000 + (if response then 0x800 else 0) + |payload|
    case Hint(cmd, param) => 0x8000 + cmd * 0x800 + param
  }

  function Body(p: Packet): seq<byte> {
    match p
    case Data(frame, _, crc) => frame + crc
    case Echo(_, payload) => payload
    case Hint(_, _) => []
  }

  /** A header as the two bytes that travel first. */
  function HeaderBytes(end: Endian, v: u16): seq<byte> {
    if end == LE then [v % 0x100, v / 0x100] else [v / 0x100, v % 0x100]
  }

  function Encode(end: Endian, p: Packet): seq<byte>
    requires ValidPacket(p)
  {
    HeaderBytes(end, HeaderValue(p)) + Body(p)
  }

  function EncodeAll(end: Endian, ps: seq<Packet>): seq<byte>
    requires forall p :: p in ps ==> ValidPacket(p)
  {
    if ps == [] then [] else Encode(end, ps[0]) + EncodeAll(end, ps[1..])
  }

  /** The Ethernet frames among the packets, in order. */
  function FramesOf(ps: seq<Packet>): seq<Frame> {
    if ps == [] then []
    else (if ps[0].Data? then [ps[0].frame] else []) + FramesOf(ps[1..])
  }

  /** The headers as section 5.1 of USB CDC EEM 1.0 has them: bit 15 tells data from commands, bit 14 of a data header
      whether its checksum counts, bits 13 to 11 of a command header which command it is. */
  lemma WireExamples(data: Packet, request: Packet, response: Packet, hint: Packet)
    requires data == Data([1, 2], false, [0xde, 0xad, 0xbe, 0xef])
    requires request == Echo(false, [9]) && response == Echo(true, [9]) && hint == Hint(2, 3)
    ensures Encode(LE, data) == [6, 0, 1, 2, 0xde, 0xad, 0xbe, 0xef]
    ensures Encode(BE, data) == [0, 6, 1, 2, 0xde, 0xad, 0xbe, 0xef]
    ensures Encode(LE, data.(crcValid := true)) == [6, 0x40, 1, 2, 0xde, 0xad, 0xbe, 0xef]
    ensures Encode(LE, request) == [1, 0x80, 9] && Encode(LE, response) == [1, 0x88, 9]
    ensures Encode(LE, hint) == [3, 0x90]
    ensures Encode(LE, data) == Encode(LE, AsPacket([1, 2]))
  {
  }

  // ---- the receive pass ----

  function Drop(s: seq<byte>, n: nat): seq<byte> {
    if n <= |s| then s[n..] else []
  }

  /** Every packet met while splitting lies inside the transfer. */
  predicate WellFormed(mode: Endian, size: nat, rest: seq<byte>)
    decreases |rest|
  {
    rest == [] ||
    (|rest| >= 2 &&
     var h := Fields(mode, Raw(rest), size);
     2 + h.len <= |rest| &&
     ((h.isData && h.len < 4) || WellFormed(Detect(mode, Raw(rest), size), size, rest[2 + h.len..])))
  }

  /** The frames the receive loop delivers from the unread part `rest` of a transfer of `size` bytes. */
  function Split(mode: Endian, size: nat, rest: seq<byte>): seq<Frame>
    decreases |rest|
  {
    if |rest| < 2 then []
    else
      var h := Fields(mode, Raw(rest), size);
      var tail := Drop(rest, 2 + h.len);
      var mode' := Detect(mode, Raw(rest), size);
      if !h.isData then Split(mode', size, tail)
      else if h.len < 4 then []
      else [Drop(rest, 2)[..Min(|Drop(rest, 2)|, Min(MAX_FRAME, h.len - 4))]] + Split(mode', size, tail)
  }

  // ---- the transmit pass ----

  /** The packet the transmit task makes of a frame: bogus checksum 0xdeadbeef, CRC bit clear. */
  function AsPacket(f: Frame): Packet {
    Data(f, false, [0xde, 0xad, 0xbe, 0xef])
  }

  function AsPackets(fs: seq<Frame>): (ps: seq<Packet>)
    ensures |ps| == |fs| && forall i :: 0 <= i < |fs| ==> ps[i] == AsPacket(fs[i])
  {
    if fs == [] then [] else [AsPacket(fs[0])] + AsPackets(fs[1..])
  }

  predicate Sendable(fs: seq<Frame>) {
    forall f :: f in fs ==> |f| <= MAX_FRAME
  }

  /** The bytes of one transfer carrying the frames `fs`. */
  function Pack(end: Endian, fs: seq<Frame>): seq<byte>
    requires Sendable(fs)
  {
    EncodeAll(end, AsPackets(fs))
  }

  /** How many leading frames the packing loop takes when `offs` bytes are already laid out. */
  function Fit(fs: seq<Frame>, offs: int): nat {
    if fs == [] || |fs[0]| + 6 > TRANSFER_SIZE - offs then 0
    else 1 + Fit(fs[1..], offs + |fs[0]| + 6)
  }

  // ---- lemmas ----

  lemma SwapTwice(x: u16)
    ensures Swap16(Swap16(x)) == x
  {
    var lo: byte, hi: byte := x % 0x100, x / 0x100;
    TwoDigits(hi, lo);
  }

  lemma TwoDigits(hi: byte, lo: byte)
    ensures (lo * 0x100 + hi) % 0x100 == hi && (lo * 0x100 + hi) / 0x100 == lo
  {
  }

  lemma CommandField(cmd: nat, low: nat)
    requires cmd < 8 && low < 0x800
    ensures (0x8000 + cmd * 0x800 + low) / 0x800 == 16 + cmd
    ensures (16 + cmd) % 8 == cmd
    ensures (0x8000 + cmd * 0x800 + low) % 0x800 == low
  {
  }

  lemma DecodeHeader(p: Packet)
    requires ValidPacket(p)
    ensures Decode(HeaderValue(p)).isData == p.Data? && Decode(HeaderValue(p)).len == |Body(p)|
  {
    match p
    case Data(frame, crcValid, _) =>
      assert HeaderValue(p) % 0x4000 == |frame| + 4;
    case Echo(response, payload) => CommandField(if response then 1 else 0, |payload|);
    case Hint(cmd, param) => CommandField(cmd, param);
  }

  /** The fields of every possible header: fourteen bits of length for data, whatever the checksum bit; three of command
      and eleven of parameter otherwise, of which only an echo announces a payload. */
  lemma HeaderFields(crc: bool, len: nat, cmd: nat, param: nat)
    requires len < 0x4000 && cmd < 0x10 && param < 0x800
    ensures Decode((if crc then 0x4000 else 0) + len).isData && Decode((if crc then 0x4000 else 0) + len).len == len
    ensures var h := Decode(0x8000 + cmd * 0x800 + param);
            !h.isData && h.cmd == cmd % 8 && h.len == if cmd % 8 <= 1 then param else 0
  {
    var v := 0x8000 + cmd * 0x800 + param;
    assert v / 0x800 == 16 + cmd && v % 0x800 == param;
    assert ((if crc then 0x4000 else 0) + len) % 0x4000 == len;
  }

  lemma LoadHeader(end: Endian, v: u16)
    requires end != Unknown
    ensures Raw(HeaderBytes(end, v)) == if end == LE then v else Swap16(v)
  {
  }

  /** A header written in one byte order and read in the same order gives its fields back. */
  lemma HeaderRoundTrip(end: Endian, p: Packet)
    requires ValidPacket(p) && end != Unknown
    ensures var h := ExtractHdrFields(end, Raw(HeaderBytes(end, HeaderValue(p))));
            h.isData == p.Data? && h.len == |Body(p)|
  {
    hide Raw, HeaderBytes, HeaderValue, Decode, Swap16;
    LoadHeader(end, HeaderValue(p));
    SwapTwice(HeaderValue(p));
    DecodeHeader(p);
  }

  /** One packet at the front of a transfer: where its fields, body and successor lie. */
  lemma EncodeLayout(end: Endian, p: Packet, tail: seq<byte>)
    requires ValidPacket(p) && end != Unknown
    ensures var rest := Encode(end, p) + tail;
            && |rest| == 2 + |Body(p)| + |tail|
            && ExtractHdrFields(end, Raw(rest)).isData == p.Data?
            && ExtractHdrFields(end, Raw(rest)).len == |Body(p)|
            && rest[2..] == Body(p) + tail
            && rest[2 + |Body(p)|..] == tail
  {
    var w := HeaderBytes(end, HeaderValue(p));
    var rest := Encode(end, p) + tail;
    HeaderRoundTrip(end, p);
    assert rest == w + (Body(p) + tail);
    assert rest[0] == w[0] && rest[1] == w[1];
  }

  /** A packet whose header is read right is taken off the front, and its frame delivered. */
  lemma SplitPacket(mode: Endian, end: Endian, size: nat, p: Packet, tail: seq<byte>)
    requires ValidPacket(p) && end != Unknown
    requires var h := Fields(mode, Raw(Encode(end, p) + tail), size); h.isData == p.Data? && h.len == |Body(p)|
    ensures var rest := Encode(end, p) + tail;
            var mode' := Detect(mode, Raw(rest), size);
            && |rest| == 2 + |Body(p)| + |tail|
            && Split(mode, size, rest) == (if p.Data? then [p.frame] else []) + Split(mode', size, tail)
            && (WellFormed(mode', size, tail) ==> WellFormed(mode, size, rest))
  {
    var rest := Encode(end, p) + tail;
    EncodeLayout(end, p, tail);
    hide Encode, Raw, Fields, Detect;
    if p.Data? {
      assert Drop(rest, 2)[..|p.frame|] == p.frame;
    }
  }

  /** In a known byte order every header is. */
  lemma KnownOrder(end: Endian, size: nat, p: Packet, tail: seq<byte>)
    requires ValidPacket(p) && end != Unknown
    ensures var rest := Encode(end, p) + tail;
            && |rest| >= 2
            && Fields(end, Raw(rest), size).isData == p.Data? && Fields(end, Raw(rest), size).len == |Body(p)|
            && Detect(end, Raw(rest), size) == end
  {
    EncodeLayout(end, p, tail);
  }

  lemma EncodeAllFront(end: Endian, ps: seq<Packet>)
    requires ps != [] && forall p :: p in ps ==> ValidPacket(p)
    ensures forall p :: p in ps[1..] ==> ValidPacket(p)
    ensures ValidPacket(ps[0]) && EncodeAll(end, ps) == Encode(end, ps[0]) + EncodeAll(end, ps[1..])
    ensures FramesOf(ps) == (if ps[0].Data? then [ps[0].frame] else []) + FramesOf(ps[1..])
  {
  }

  /** Splitting a packed transfer in the byte order it was written in finds exactly its frames,
      whatever commands stand between them, and never runs off its end. */
  lemma {:induction false} SplitInvertsEncode(end: Endian, size: nat, ps: seq<Packet>)
    requires end != Unknown
    requires forall p :: p in ps ==> ValidPacket(p)
    ensures Split(end, size, EncodeAll(end, ps)) == FramesOf(ps)
    ensures WellFormed(end, size, EncodeAll(end, ps))
  {
    if ps != [] {
      hide *;
      EncodeAllFront(end, ps);
      KnownOrder(end, size, ps[0], EncodeAll(end, ps[1..]));
      SplitInvertsEncode(end, size, ps[1..]);
      SplitPacket(end, end, size, ps[0], EncodeAll(end, ps[1..]));
    }
  }

  lemma {:induction false} FramesOfAsPackets(fs: seq<Frame>)
    ensures FramesOf(AsPackets(fs)) == fs
  {
    if fs != [] {
      FramesOfAsPackets(fs[1..]);
      assert AsPackets(fs)[1..] == AsPackets(fs[1..]);
    }
  }

  /** What the transmit task lays out, the receive task takes apart again. */
  lemma PackThenSplit(end: Endian, size: nat, fs: seq<Frame>)
    requires end != Unknown && Sendable(fs)
    ensures Split(end, size, Pack(end, fs)) == fs
    ensures WellFormed(end, size, Pack(end, fs))
  {
    SplitInvertsEncode(end, size, AsPackets(fs));
    FramesOfAsPackets(fs);
  }

  lemma ValidAppend(a: seq<Packet>, b: seq<Packet>)
    requires forall p :: p in a || p in b ==> ValidPacket(p)
    ensures forall p :: p in a + b ==> ValidPacket(p)
  {
    hide *;
  }

  lemma {:induction false} EncodeAllAppend(end: Endian, a: seq<Packet>, b: seq<Packet>)
    requires forall p :: p in a || p in b ==> ValidPacket(p)
    ensures forall p :: p in a + b ==> ValidPacket(p)
    ensures EncodeAll(end, a + b) == EncodeAll(end, a) + EncodeAll(end, b)
  {
    ValidAppend(a, b);
    if a == [] {
      hide ValidPacket, Encode;
      assert a + b == b;
    } else {
      hide *;
      assert (a + b)[1..] == a[1..] + b && (a + b)[0] == a[0];
      EncodeAllFront(end, a);
      EncodeAllFront(end, a + b);
      EncodeAllAppend(end, a[1..], b);
      Associative(Encode(end, a[0]), EncodeAll(end, a[1..]), EncodeAll(end, b));
    }
  }

  lemma EncodeOne(end: Endian, p: Packet)
    requires ValidPacket(p)
    ensures EncodeAll(end, [p]) == Encode(end, p)
  {
    assert EncodeAll(end, [p]) == Encode(end, p) + EncodeAll(end, []);
  }

  lemma PackSnoc(end: Endian, fs: seq<Frame>, f: Frame)
    requires Sendable(fs) && |f| <= MAX_FRAME
    ensures Pack(end, fs + [f]) == Pack(end, fs) + Encode(end, AsPacket(f))
  {
    assert AsPackets(fs + [f]) == AsPackets(fs) + [AsPacket(f)];
    EncodeAllAppend(end, AsPackets(fs), [AsPacket(f)]);
    EncodeOne(end, AsPacket(f));
  }

  /** Number of transfer bytes a list of frames needs. */
  function PackedSize(fs: seq<Frame>): nat {
    if fs == [] then 0 else |fs[0]| + 6 + PackedSize(fs[1..])
  }

  lemma {:induction false} PackLength(end: Endian, fs: seq<Frame>)
    requires Sendable(fs)
    ensures |Pack(end, fs)| == PackedSize(fs)
  {
    if fs != [] {
      assert AsPackets(fs)[1..] == AsPackets(fs[1..]);
      PackLength(end, fs[1..]);
    }
  }

  /** The packing loop is maximal: a prefix of the queue fits if and only if the loop takes it all. */
  lemma {:induction false} FitIsMaximal(fs: seq<Frame>, offs: nat, k: nat)
    requires k <= |fs| && offs <= TRANSFER_SIZE
    ensures Fit(fs, offs) <= |fs|
    ensures offs + PackedSize(fs[..k]) <= TRANSFER_SIZE <==> k <= Fit(fs, offs)
  {
    if fs == [] {
    } else if |fs[0]| + 6 > TRANSFER_SIZE - offs {
      if k > 0 {
        assert fs[..k][0] == fs[0];
      }
    } else {
      FitIsMaximal(fs[1..], offs + |fs[0]| + 6, if k == 0 then 0 else k - 1);
      if k > 0 {
        assert fs[..k][1..] == fs[1..][..k - 1];
      }
    }
  }

  /** Byte-order detection is exact for a transfer that holds one data packet: a big-endian host is
      always recognised, a little-endian one if and only if the two header bytes differ. */
  lemma DetectionExact(host: Endian, p: Packet)
    requires host != Unknown && p.Data? && ValidPacket(p)
    ensures var bytes := Encode(host, p);
            Detect(Unknown, Raw(bytes), |bytes|) == host
            <==> host == BE || HeaderValue(p) % 0x100 != HeaderValue(p) / 0x100
    ensures var bytes := Encode(host, p);
            Detect(Unknown, Raw(bytes), |bytes|) != Unknown
  {
    var v := HeaderValue(p);
    assert v == |p.frame| + 4 || v == 0x4000 + (|p.frame| + 4);
    var bytes := Encode(host, p);
    assert bytes[0] == HeaderBytes(host, v)[0] && bytes[1] == HeaderBytes(host, v)[1];
    assert Raw(bytes) == Raw(HeaderBytes(host, v));
    LoadHeader(host, v);
    DecodeHeader(p);
    SwapTwice(v);
    LittleReadAsBig(v, |p.frame| + 4);
    hide Raw, HeaderBytes, HeaderValue, Decode, Encode, Swap16;
    assert |bytes| == |p.frame| + 4 + 2;
    assert Raw(bytes) == if host == LE then v else Swap16(v);
  }

  /** Read in the wrong order, a little-endian data header shows its own length only when its bytes are equal. */
  lemma LittleReadAsBig(v: u16, len: nat)
    requires 4 <= len <= MAX_FRAME + 4 && (v == len || v == 0x4000 + len)
    ensures ExtractHdrFields(BE, v).len == len <==> v % 0x100 == v / 0x100
    ensures Decode(Swap16(v)).len == len <==> v % 0x100 == v / 0x100
    ensures v != 0 && Swap16(v) != 0
  {
    var lo: byte, hi: byte := v % 0x100, v / 0x100;
    var h: u16 := lo * 0x100 + hi;
    assert h == Swap16(v);
    HighDigit(lo, hi, v, len);
    SwappedFields(lo, hi, h);
    EqualPairs(lo % 0x40, hi, hi % 0x40, lo);
    EqualPairs(lo % 8, hi, hi % 0x40, lo);
    if lo == hi {
      assert lo < 0x80;
    }
  }

  lemma HighDigit(lo: byte, hi: byte, v: u16, len: nat)
    requires v == hi * 0x100 + lo && len < 0x600 && (v == len || v == 0x4000 + len)
    ensures hi < 0x80 && len == hi % 0x40 * 0x100 + lo
  {
    assert hi == if v == len then len / 0x100 else 0x40 + len / 0x100;
  }

  lemma SwappedFields(lo: byte, hi: byte, h: u16)
    requires h == lo * 0x100 + hi && hi < 0x80
    ensures h % 0x4000 == lo % 0x40 * 0x100 + hi
    ensures h % 0x800 == lo % 8 * 0x100 + hi
    ensures h < 0x8000 <==> lo < 0x80
  {
    SplitMod(lo, 0x40, hi);
    SplitMod(lo, 8, hi);
  }

  lemma SplitMod(lo: byte, k: nat, hi: byte)
    requires k == 8 || k == 0x40
    ensures (lo * 0x100 + hi) % (k * 0x100) == lo % k * 0x100 + hi
  {
    var q, r := lo / k, lo % k;
    assert lo * 0x100 + hi == q * (k * 0x100) + (r * 0x100 + hi);
  }

  /** Two-digit numbers in base 256 are equal only digit by digit. */
  lemma EqualPairs(a: nat, b: byte, c: nat, d: byte)
    ensures a * 0x100 + b == c * 0x100 + d <==> a == c && b == d
  {
  }

  /** The smallest frame that hides a little-endian host: 253 bytes, header 0x0101. */
  lemma DetectionMissesAnEqualByteHeader(f: Frame)
    requires |f| == 253
    ensures var bytes := Encode(LE, AsPacket(f)); Detect(Unknown, Raw(bytes), |bytes|) == BE
  {
    var bytes := Encode(LE, AsPacket(f));
    assert bytes[0] == 1 && bytes[1] == 1;
  }

  /** A zero-length packet alone in its transfer says nothing about the byte order. */
  lemma ZeroLengthKeepsUnknown(rest: seq<byte>)
    requires rest == [0, 0]
    ensures Detect(Unknown, Raw(rest), 2) == Unknown && Split(Unknown, 2, rest) == []
  {
  }

  lemma ZeroLengthFields(end: Endian, size: nat, rest: seq<byte>)
    requires end != Unknown
    ensures Fields(end, Raw([0, 0] + rest), size) == Hdr(true, 0, 0)
  {
    ZeroDecodes(0);
    assert Raw([0, 0] + rest) == 0;
    hide Raw, Decode, Swap16;
  }

  lemma ZeroDecodes(h: u16)
    requires h == 0
    ensures Swap16(h) == 0 && Decode(h) == Hdr(true, 0, 0)
  {
  }

  /** A zero-length packet ends the splitting: what follows it in the transfer is lost, whatever it is. */
  lemma {:induction false} ZeroLengthEndsTransfer(end: Endian, size: nat, ps: seq<Packet>, rest: seq<byte>)
    requires end != Unknown && forall p :: p in ps ==> ValidPacket(p)
    ensures Split(end, size, EncodeAll(end, ps) + [0, 0] + rest) == FramesOf(ps)
  {
    if ps == [] {
      assert EncodeAll(end, ps) + [0, 0] + rest == [0, 0] + rest;
      ZeroLengthFields(end, size, rest);
      hide Raw, Fields, Detect, Drop;
    } else {
      hide *;
      var first, others, zero := Encode(end, ps[0]), EncodeAll(end, ps[1..]), [0, 0];
      EncodeAllFront(end, ps);
      Associative(first, others, zero);
      Associative(first, others + zero, rest);
      KnownOrder(end, size, ps[0], others + zero + rest);
      ZeroLengthEndsTransfer(end, size, ps[1..], rest);
      SplitPacket(end, end, size, ps[0], others + zero + rest);
    }
  }

  /** So a zero-length packet among others is harmless if and only if no frame follows it. */
  lemma ZeroLengthExact(end: Endian, size: nat, ps: seq<Packet>, qs: seq<Packet>)
    requires end != Unknown && forall p :: p in ps || p in qs ==> ValidPacket(p)
    ensures Split(end, size, EncodeAll(end, ps) + [0, 0] + EncodeAll(end, qs)) == FramesOf(ps) + FramesOf(qs)
            <==> FramesOf(qs) == []
  {
    ZeroLengthEndsTransfer(end, size, ps, EncodeAll(end, qs));
    if FramesOf(qs) != [] {
      assert |FramesOf(ps) + FramesOf(qs)| > |FramesOf(ps)|;
    } else {
      assert FramesOf(ps) + [] == FramesOf(ps);
    }
  }
}
