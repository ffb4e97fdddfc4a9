/** Hosts of either byte order at the other end of the link: which transfers are read as they are meant while the
    byte order is not known, and what arrives over a whole run. */
module EemHost {
  import opened Bytes
  import opened EemCodec
  import opened EemSpec

  // ---- one transfer ----

  /** How a header cuts the transfer. */
  datatype Cut = Cut(isData: bool, len: nat)

  /** The cuts the splitting loop makes. */
  function Cuts(mode: Endian, size: nat, rest: seq<byte>): seq<Cut>
    decreases |rest|
  {
    if |rest| < 2 then []
    else
      var h := Fields(mode, Raw(rest), size);
      [Cut(h.isData, h.len)] +
      if h.isData && h.len < 4 then [] else Cuts(Detect(mode, Raw(rest), size), size, Drop(rest, 2 + h.len))
  }

  /** The byte order the loop ends with. */
  function ModeAfter(mode: Endian, size: nat, rest: seq<byte>): Endian
    decreases |rest|
  {
    if |rest| < 2 then mode
    else
      var h := Fields(mode, Raw(rest), size);
      var mode' := Detect(mode, Raw(rest), size);
      if h.isData && h.len < 4 then mode' else ModeAfter(mode', size, Drop(rest, 2 + h.len))
  }

  /** The frames that lie where the cuts say. */
  function FramesAt(rest: seq<byte>, cuts: seq<Cut>): seq<Frame>
    decreases |cuts|
  {
    if cuts == [] then [] else FrameIn(rest, cuts[0]) + FramesAt(Drop(rest, 2 + cuts[0].len), cuts[1..])
  }

  /** The frame of a cut, if it holds one: what lies behind the header, without the checksum. */
  function FrameIn(rest: seq<byte>, cut: Cut): seq<Frame> {
    var body := Drop(rest, 2);
    if cut.isData && cut.len >= 4 then [body[..Min(|body|, Min(MAX_FRAME, cut.len - 4))]] else []
  }

  /** What is delivered is what the cuts enclose. */
  lemma {:induction false} SplitFollowsCuts(mode: Endian, size: nat, rest: seq<byte>)
    ensures Split(mode, size, rest) == FramesAt(rest, Cuts(mode, size, rest))
    decreases |rest|
  {
    hide Fields, Detect, Raw, FramesAt, Drop;
    NoFrames(rest);
    if |rest| >= 2 {
      var h := Fields(mode, Raw(rest), size);
      var mode' := Detect(mode, Raw(rest), size);
      var tail := Drop(rest, 2 + h.len);
      var later := if h.isData && h.len < 4 then [] else Cuts(mode', size, tail);
      Dropped(rest, 2 + h.len);
      SplitFollowsCuts(mode', size, tail);
      FramesAtCut(rest, Cut(h.isData, h.len), later);
      NoFrames(tail);
      assert [] + Split(mode', size, tail) == Split(mode', size, tail);
    }
  }

  lemma Dropped(s: seq<byte>, n: nat)
    requires n > 0 && s != []
    ensures |Drop(s, n)| < |s|
  {
  }

  lemma NoFrames(rest: seq<byte>)
    ensures FramesAt(rest, []) == []
  {
  }

  lemma FramesAtCut(rest: seq<byte>, cut: Cut, later: seq<Cut>)
    ensures FramesAt(rest, [cut] + later) == FrameIn(rest, cut) + FramesAt(Drop(rest, 2 + cut.len), later)
  {
    hide FrameIn, Drop;
    assert ([cut] + later)[1..] == later;
  }

  /** A step of the receive task keeps the byte order that the transfer will end with, and at its end has it. */
  lemma ModeAfterSteps(s: RxState)
    requires RxInv(s)
    ensures var s' := RxNext(s, Step);
            && RxInv(s')
            && ModeAfter(s'.mode, s'.size, Unread(s')) == ModeAfter(s.mode, s.size, Unread(s))
            && (Idle(s) ==> ModeAfter(s.mode, s.size, Unread(s)) == s.mode)
  {
    hide Fields, Detect, Raw, Split, Left, WellFormed, Delivered;
    RxStepKeepsFrames(s);
    if s.hold.None? && s.rest != [] {
      HeaderInside(s);
    }
  }

  lemma HeaderInside(s: RxState)
    requires RxInv(s) && s.hold.None? && s.rest != []
    ensures |s.rest| >= 2 && 2 + Fields(s.mode, Raw(s.rest), s.size).len <= |s.rest|
  {
    hide Fields, Detect, Raw;
  }

  function CutOf(p: Packet): Cut {
    Cut(p.Data?, |Body(p)|)
  }

  /** The cuts the host meant. */
  function Meant(ps: seq<Packet>): seq<Cut> {
    if ps == [] then [] else [CutOf(ps[0])] + Meant(ps[1..])
  }

  /** The header says the same in both byte orders. */
  predicate Symmetric(p: Packet)
    requires ValidPacket(p)
  {
    var h := Decode(Swap16(HeaderValue(p))); Cut(h.isData, h.len) == CutOf(p)
  }

  /** A packet of a little-endian host must not look like a big-endian transfer of the actual size; one of a
      big-endian host must fill the transfer or read the same both ways. */
  predicate Safe(host: Endian, size: nat, p: Packet)
    requires ValidPacket(p)
  {
    if host == LE then Decode(Swap16(HeaderValue(p))).len + 2 != size
    else |Body(p)| + 2 == size || Symmetric(p)
  }

  lemma SymmetricData(p: Packet)
    requires ValidPacket(p) && p.Data?
    ensures Symmetric(p) <==> HeaderValue(p) % 0x100 == HeaderValue(p) / 0x100
  {
    var v, len := HeaderValue(p), |p.frame| + 4;
    LittleReadAsBig(v, len);
    DecodeHeader(p);
    DataBit(v, len);
  }

  /** Equal header bytes: the swapped header is the header. */
  lemma DataBit(v: u16, len: nat)
    requires 4 <= len <= MAX_FRAME + 4 && (v == len || v == 0x4000 + len)
    ensures v % 0x100 == v / 0x100 ==> Swap16(v) == v && v < 0x8000
  {
  }

  lemma HeaderNotZero(p: Packet)
    requires ValidPacket(p)
    ensures HeaderValue(p) != 0 && Swap16(HeaderValue(p)) != 0
  {
    NonZeroSwap(HeaderValue(p));
  }

  lemma NonZeroSwap(v: u16)
    requires v != 0
    ensures Swap16(v) != 0
  {
  }

  /** What the loop sees at the front of a packet while the byte order is not known. */
  lemma UnknownFront(host: Endian, size: nat, p: Packet, tail: seq<byte>)
    requires host != Unknown && ValidPacket(p)
    ensures var rest := Encode(host, p) + tail;
            var h, g := Decode(HeaderValue(p)), Decode(Swap16(HeaderValue(p)));
            var big, little := if host == BE then h else g, if host == BE then g else h;
            && |rest| == 2 + |Body(p)| + |tail|
            && h.isData == p.Data? && h.len == |Body(p)|
            && Fields(Unknown, Raw(rest), size) == (if size == big.len + 2 then big else little)
            && Detect(Unknown, Raw(rest), size) ==
               (if size == big.len + 2 then BE else if size == little.len + 2 then LE else Unknown)
  {
    var rest, v := Encode(host, p) + tail, HeaderValue(p);
    EncodeLayout(host, p, tail);
    assert rest[0] == HeaderBytes(host, v)[0] && rest[1] == HeaderBytes(host, v)[1];
    assert Raw(rest) == Raw(HeaderBytes(host, v));
    LoadHeader(host, v);
    DecodeHeader(p);
    HeaderNotZero(p);
    SwapTwice(v);
    hide Raw, HeaderBytes, HeaderValue, Decode, Encode, Swap16, Body;
  }

  /** Read right, and not taken for a packet of the other kind of host: if and only if the packet is safe. */
  lemma PacketSafe(host: Endian, size: nat, p: Packet, tail: seq<byte>)
    requires host != Unknown && ValidPacket(p) && |Encode(host, p) + tail| <= size
    ensures var rest := Encode(host, p) + tail;
            && |rest| == 2 + |Body(p)| + |tail|
            && var h, mode := Fields(Unknown, Raw(rest), size), Detect(Unknown, Raw(rest), size);
               && (Safe(host, size, p) <==> Cut(h.isData, h.len) == CutOf(p) && (mode == host || mode == Unknown))
               && (!Safe(host, size, p) ==> if host == LE then mode == BE else Cut(h.isData, h.len) != CutOf(p))
               && (Safe(host, size, p) && tail != [] ==> mode == Unknown)
  {
    UnknownFront(host, size, p, tail);
    hide Raw, HeaderValue, Decode, Encode, Swap16, Fields, Detect, Body;
  }

  lemma ModeSticks(mode: Endian, size: nat, rest: seq<byte>)
    requires mode != Unknown
    ensures ModeAfter(mode, size, rest) == mode
    decreases |rest|
  {
    if |rest| >= 2 {
      var h := Fields(mode, Raw(rest), size);
      if !(h.isData && h.len < 4) {
        ModeSticks(mode, size, Drop(rest, 2 + h.len));
      }
    }
  }

  lemma CutsFront(mode: Endian, end: Endian, size: nat, p: Packet, tail: seq<byte>)
    requires ValidPacket(p) && end != Unknown
    requires var h := Fields(mode, Raw(Encode(end, p) + tail), size); Cut(h.isData, h.len) == CutOf(p)
    ensures var rest := Encode(end, p) + tail;
            var mode' := Detect(mode, Raw(rest), size);
            && Cuts(mode, size, rest) == [CutOf(p)] + Cuts(mode', size, tail)
            && ModeAfter(mode, size, rest) == ModeAfter(mode', size, tail)
  {
    var rest := Encode(end, p) + tail;
    EncodeLayout(end, p, tail);
    assert Drop(rest, 2 + |Body(p)|) == tail;
    hide Encode, Raw, Fields, Detect;
  }

  lemma {:induction false} CutsOfKnown(end: Endian, size: nat, ps: seq<Packet>)
    requires end != Unknown && forall p :: p in ps ==> ValidPacket(p)
    ensures Cuts(end, size, EncodeAll(end, ps)) == Meant(ps)
  {
    if ps != [] {
      EncodeAllFront(end, ps);
      KnownOrder(end, size, ps[0], EncodeAll(end, ps[1..]));
      CutsOfKnown(end, size, ps[1..]);
      hide Fields, Raw, Encode, Detect, Cuts;
      CutsFront(end, end, size, ps[0], EncodeAll(end, ps[1..]));
    }
  }

  predicate AllValid(ps: seq<Packet>) {
    forall p :: p in ps ==> ValidPacket(p)
  }

  predicate AllSafe(host: Endian, size: nat, ps: seq<Packet>)
    requires AllValid(ps)
  {
    forall p :: p in ps ==> Safe(host, size, p)
  }

  /** The cuts are where the host meant them, and the byte order is not settled wrong. */
  predicate ReadRight(host: Endian, size: nat, ps: seq<Packet>)
    requires AllValid(ps)
  {
    var bytes := EncodeAll(host, ps);
    var mode := ModeAfter(Unknown, size, bytes);
    Cuts(Unknown, size, bytes) == Meant(ps) && (mode == host || mode == Unknown)
  }

  lemma FrontSafe(host: Endian, size: nat, ps: seq<Packet>)
    requires host != Unknown && ps != [] && AllValid(ps)
    ensures AllValid(ps[1..]) && ValidPacket(ps[0])
    ensures AllSafe(host, size, ps) <==> Safe(host, size, ps[0]) && AllSafe(host, size, ps[1..])
  {
    hide Safe, ValidPacket;
    assert ps == [ps[0]] + ps[1..];
  }

  lemma MeantFront(ps: seq<Packet>, cuts: seq<Cut>)
    requires ps != []
    ensures [CutOf(ps[0])] + cuts == Meant(ps) <==> cuts == Meant(ps[1..])
  {
    assert Meant(ps) == [CutOf(ps[0])] + Meant(ps[1..]);
    assert ([CutOf(ps[0])] + cuts)[1..] == cuts;
    assert Meant(ps)[1..] == Meant(ps[1..]);
  }

  /** While the byte order is not known, a transfer of any packets of a host is read right if and only if each of
      them is safe. Of a big-endian host that means: it is the only packet, or all read the same both ways. */
  lemma {:induction false} ReadRightExact(host: Endian, size: nat, ps: seq<Packet>)
    requires host != Unknown && AllValid(ps) && |EncodeAll(host, ps)| <= size
    ensures ReadRight(host, size, ps) <==> AllSafe(host, size, ps)
  {
    if ps != [] {
      var p, tail := ps[0], EncodeAll(host, ps[1..]);
      var rest := Encode(host, p) + tail;
      EncodeAllFront(host, ps);
      FrontSafe(host, size, ps);
      PacketSafe(host, size, p, tail);
      ReadRightExact(host, size, ps[1..]);
      hide Safe, Encode, Fields, Detect, Raw, AllSafe, Body;
      var mode := Detect(Unknown, Raw(rest), size);
      if Safe(host, size, p) {
        CutsFront(Unknown, host, size, p, tail);
        MeantFront(ps, Cuts(mode, size, tail));
        EmptyTail(host, ps[1..]);
      } else {
        WrongFront(host, size, ps);
      }
    }
  }

  lemma EmptyTail(host: Endian, ps: seq<Packet>)
    requires host != Unknown && AllValid(ps)
    ensures ps != [] ==> |EncodeAll(host, ps)| >= 2
  {
    if ps != [] {
      EncodeAllFront(host, ps);
      EncodeLayout(host, ps[0], EncodeAll(host, ps[1..]));
    }
  }

  lemma WrongFront(host: Endian, size: nat, ps: seq<Packet>)
    requires host != Unknown && AllValid(ps) && |EncodeAll(host, ps)| <= size && ps != []
    requires !Safe(host, size, ps[0])
    ensures !ReadRight(host, size, ps)
  {
    var p, tail := ps[0], EncodeAll(host, ps[1..]);
    var rest := Encode(host, p) + tail;
    EncodeAllFront(host, ps);
    PacketSafe(host, size, p, tail);
    hide Safe, Encode, Fields, Detect, Raw, Body, Decode;
    var h, mode := Fields(Unknown, Raw(rest), size), Detect(Unknown, Raw(rest), size);
    if host == LE {
      ModeSticks(BE, size, Drop(rest, 2 + h.len));
    } else {
      assert Cuts(Unknown, size, rest)[0] == Cut(h.isData, h.len);
      assert Meant(ps)[0] == CutOf(p);
    }
  }

  /** What is read right is delivered right, in the unknown mode as well as in the known one, with a closing
      zero-length packet or without. */
  lemma {:induction false} SafeIsDelivered(host: Endian, mode: Endian, size: nat, ps: seq<Packet>, pad: seq<byte>)
    requires host != Unknown && AllValid(ps) && (pad == [] || pad == [0, 0])
    requires |EncodeAll(host, ps)| + |pad| <= size
    requires mode == host || (mode == Unknown && AllSafe(host, size, ps))
    ensures Split(mode, size, EncodeAll(host, ps) + pad) == FramesOf(ps)
    ensures WellFormed(mode, size, EncodeAll(host, ps) + pad)
    decreases |ps|
  {
    if ps == [] {
      assert EncodeAll(host, ps) + pad == pad;
      PadAlone(mode, size, pad);
    } else {
      var p, others := ps[0], EncodeAll(host, ps[1..]);
      var tail := others + pad;
      EncodeAllFront(host, ps);
      Associative(Encode(host, p), others, pad);
      FrontSafe(host, size, ps);
      KnownOrder(host, size, p, tail);
      PacketSafe(host, size, p, tail);
      hide Safe, Encode, Fields, Detect, Raw, AllSafe, Body, Split, WellFormed;
      var mode' := Detect(mode, Raw(Encode(host, p) + tail), size);
      SafeIsDelivered(host, mode', size, ps[1..], pad);
      SplitPacket(mode, host, size, p, tail);
    }
  }

  lemma PadAlone(mode: Endian, size: nat, pad: seq<byte>)
    requires (pad == [] || pad == [0, 0]) && |pad| <= size
    ensures Split(mode, size, pad) == [] && WellFormed(mode, size, pad)
    ensures pad != [] ==>
              var h := Fields(mode, Raw(pad), size);
              h.isData && h.len == 0 && Detect(mode, Raw(pad), size) == mode
  {
    if pad != [] {
      PadHeader(mode, size, pad);
      hide Fields, Detect, Raw;
    }
  }

  lemma PadHeader(mode: Endian, size: nat, pad: seq<byte>)
    requires pad == [0, 0] && size >= 2
    ensures Fields(mode, Raw(pad), size) == Hdr(true, 0, 0) && Detect(mode, Raw(pad), size) == mode
  {
    hide ExtractHdrFields, Raw;
    ZeroHeader(pad);
    assert mode == Unknown || mode == LE || mode == BE;
  }

  lemma ZeroHeader(pad: seq<byte>)
    requires pad == [0, 0]
    ensures Raw(pad) == 0
    ensures ExtractHdrFields(BE, 0) == Hdr(true, 0, 0) && ExtractHdrFields(LE, 0) == Hdr(true, 0, 0)
  {
    assert Swap16(0) == 0 && Decode(0) == Hdr(true, 0, 0);
  }

  /** A transfer with one data packet is safe unless the host is little-endian and its header bytes are equal. */
  lemma OneDataPacketSafe(host: Endian, p: Packet)
    requires host != Unknown && ValidPacket(p) && p.Data?
    ensures Safe(host, |Encode(host, p)|, p) <==> host == BE || HeaderValue(p) % 0x100 != HeaderValue(p) / 0x100
  {
    LittleReadAsBig(HeaderValue(p), |p.frame| + 4);
    EncodeLayout(host, p, []);
    assert Encode(host, p) + [] == Encode(host, p);
    hide Encode, HeaderValue, Decode, Swap16;
  }

  /** Two data packets of a big-endian host are read right if and only if the header bytes of both are equal. */
  lemma BigEndianPair(p: Packet, q: Packet)
    requires ValidPacket(p) && ValidPacket(q) && p.Data? && q.Data?
    ensures var size := |EncodeAll(BE, [p, q])|;
            ReadRight(BE, size, [p, q]) <==>
            HeaderValue(p) % 0x100 == HeaderValue(p) / 0x100 && HeaderValue(q) % 0x100 == HeaderValue(q) / 0x100
  {
    hide *;
    var size, ps := |EncodeAll(BE, [p, q])|, [p, q];
    PairLayout(p, q);
    ReadRightExact(BE, size, ps);
    SafeInPair(p, q, size);
    SymmetricData(p);
    SymmetricData(q);
  }

  lemma PairLayout(p: Packet, q: Packet)
    requires ValidPacket(p) && ValidPacket(q)
    ensures AllValid([p, q]) && |EncodeAll(BE, [p, q])| == 4 + |Body(p)| + |Body(q)|
    ensures EncodeAll(BE, [p, q]) == Encode(BE, p) + Encode(BE, q)
  {
    EncodeAllFront(BE, [p, q]);
    assert [p, q][1..] == [q];
    EncodeOne(BE, q);
    EncodeLayout(BE, p, []);
    EncodeLayout(BE, q, []);
    assert Encode(BE, p) + [] == Encode(BE, p) && Encode(BE, q) + [] == Encode(BE, q);
  }

  lemma SafeInPair(p: Packet, q: Packet, size: nat)
    requires ValidPacket(p) && ValidPacket(q) && AllValid([p, q]) && size == 4 + |Body(p)| + |Body(q)|
    ensures AllSafe(BE, size, [p, q]) <==> Symmetric(p) && Symmetric(q)
  {
    hide Symmetric, Body, ValidPacket;
    assert Safe(BE, size, p) <==> Symmetric(p);
    assert Safe(BE, size, q) <==> Symmetric(q);
    assert p in [p, q] && q in [p, q];
  }

  /** Two empty frames of a big-endian host are misread: the first is taken for one of 1020 bytes. */
  lemma BatchMisread()
    ensures var bytes := Pack(BE, [[], []]);
            !ReadRight(BE, |bytes|, AsPackets([[], []])) && Split(Unknown, |bytes|, bytes) != [[], []]
  {
    var p, two := AsPacket([]), [[], []];
    assert AsPackets(two) == [p, p];
    BigEndianPair(p, p);
    var bytes := Pack(BE, two);
    PackLength(BE, two);
    assert PackedSize(two) == 6 + PackedSize(two[1..]) && PackedSize(two[1..]) == 6 + PackedSize(two[1..][1..]);
    PairLayout(p, p);
    assert bytes[0] == 0 && bytes[1] == 4;
    MisreadHeader(bytes);
  }

  /** Bytes 0x90, 0x00, 0x90, ... */
  function Beat(n: nat): (bs: seq<byte>)
    ensures |bs| == n
  {
    seq(n, i => if i % 2 == 0 then 0x90 else 0)
  }

  lemma BeatHeader(rest: seq<byte>)
    requires |rest| >= 144 && rest[..144] == Beat(144)
    ensures Raw(rest) == 0x90
    ensures Fields(Unknown, 0x90, 292) == Hdr(true, 0, 144) && Detect(Unknown, 0x90, 292) == Unknown
    ensures rest[2..142] == Beat(140)
  {
    assert rest[0] == rest[..144][0] && rest[1] == rest[..144][1];
    assert Swap16(0x90) == 0x9000;
    forall i | 0 <= i < 140
      ensures rest[2..142][i] == Beat(140)[i]
    {
      assert rest[2 + i] == rest[..144][2 + i];
    }
  }

  lemma BeatStep(rest: seq<byte>)
    requires |rest| >= 144 && rest[..144] == Beat(144)
    ensures Split(Unknown, 292, rest) == [Beat(140)] + Split(Unknown, 292, Drop(rest, 146))
  {
    BeatHeader(rest);
    hide Raw, Fields, Detect, Beat;
    assert Drop(rest, 2)[..140] == rest[2..142];
  }

  /** Why reading right is a matter of cuts: this pair is cut wrong, and its frames come out all the same. */
  lemma LuckyPair(p: Packet)
    requires p == Data(Beat(140), false, Beat(4))
    ensures ValidPacket(p)
    ensures var bytes := EncodeAll(BE, [p, p]);
            !ReadRight(BE, |bytes|, [p, p]) && Split(Unknown, |bytes|, bytes) == FramesOf([p, p])
  {
    LuckyLayout(p);
    BeatTwice();
    hide *;
    BigEndianPair(p, p);
    PairLayout(p, p);
    LuckyFront(EncodeAll(BE, [p, p]), Beat(144) + ([0, 0x90] + Beat(144)));
  }

  lemma LuckyLayout(p: Packet)
    requires p == Data(Beat(140), false, Beat(4))
    ensures ValidPacket(p) && p.Data? && HeaderValue(p) == 0x90 && |EncodeAll(BE, [p, p])| == 292
    ensures EncodeAll(BE, [p, p]) == [0, 0x90] + (Beat(144) + ([0, 0x90] + Beat(144)))
    ensures FramesOf([p, p]) == [Beat(140), Beat(140)]
  {
    PairLayout(p, p);
    assert Body(p) == Beat(140) + Beat(4) == Beat(144);
    assert HeaderBytes(BE, 0x90) == [0, 0x90];
    hide Beat, EncodeAll;
    Associative([0, 0x90], Beat(144), [0, 0x90] + Beat(144));
    assert [p, p][1..] == [p] && [p][1..] == [];
    assert FramesOf([p, p]) == [p.frame] + FramesOf([p]) && FramesOf([p]) == [p.frame] + FramesOf([]);
  }

  lemma BeatTwice()
    ensures Split(Unknown, 292, Beat(144) + ([0, 0x90] + Beat(144))) == [Beat(140), Beat(140)]
  {
    var body := Beat(144);
    var rest := body + ([0, 0x90] + body);
    hide Beat, Split, Raw, Fields, Detect, Drop;
    SplitNothing();
    TwoBodies(body, [0, 0x90]);
    BeatStep(rest);
    BeatStep(body);
  }

  lemma TwoBodies(body: seq<byte>, header: seq<byte>)
    requires |body| == 144 && |header| == 2
    ensures var rest := body + (header + body);
            rest[..144] == body && Drop(rest, 146) == body && body[..144] == body && Drop(body, 146) == []
  {
  }

  lemma SplitNothing()
    ensures Split(Unknown, 292, []) == []
  {
  }

  lemma LuckyFront(bytes: seq<byte>, rest: seq<byte>)
    requires bytes == [0, 0x90] + rest && |rest| == 290
    ensures Split(Unknown, 292, bytes) == Split(Unknown, 292, rest)
  {
    assert Raw(bytes) == 0x9000 && Swap16(0x9000) == 0x90;
    assert Fields(Unknown, 0x9000, 292) == Hdr(false, 2, 0) && Detect(Unknown, 0x9000, 292) == Unknown;
    hide Raw, Fields, Detect;
    assert Drop(bytes, 2) == rest;
  }

  lemma MisreadHeader(bytes: seq<byte>)
    requires |bytes| == 12 && bytes[0] == 0 && bytes[1] == 4
    ensures Split(Unknown, 12, bytes) != [] && |Split(Unknown, 12, bytes)[0]| == 10
  {
    assert Raw(bytes) == 0x400 && Swap16(0x400) == 4;
    assert Fields(Unknown, Raw(bytes), 12) == Hdr(true, 0, 0x400);
  }

  // ---- runs ----

  datatype HostEvent =
    | Sends(packets: seq<Packet>, padded: bool)   // a transfer, closed by a zero-length packet or not
    | Works                                       // one step of the receive task
    | Takes                                       // one call of USBEEM_Recv
    | Resets                                      // bus reset

  function Pad(padded: bool): seq<byte> {
    if padded then [0, 0] else []
  }

  /** What the device has done; the packets of the transfers it took; of the present transfer the packets whose
      delivery or skipping is still to come, and the closing packet. */
  datatype HostHist = HostHist(h: RxHist, sent: seq<Packet>, left: seq<Packet>, padded: bool)

  /** The packets whose headers have not been looked at. */
  function Unseen(x: HostHist): seq<Packet> {
    if x.h.s.hold.Some? && x.left != [] then x.left[1..] else x.left
  }

  ghost predicate HostInv(host: Endian, x: HostHist) {
    && RxInv(x.h.s) && Conserved(x.h) && x.h.arrived == FramesOf(x.sent)
    && AllValid(x.left) && AllValid(Unseen(x))
    && x.h.s.rest == EncodeAll(host, x.left) + Pad(x.padded)
    && (x.h.s.hold.Some? ==> x.left != [] && x.left[0].Data? && x.h.s.hold.value == |Body(x.left[0])|)
    && (x.h.s.mode == host || (x.h.s.mode == Unknown && AllSafe(host, x.h.s.size, Unseen(x))))
  }

  predicate SendOk(host: Endian, mode: Endian, ps: seq<Packet>, padded: bool) {
    && AllValid(ps) && |EncodeAll(host, ps)| + |Pad(padded)| <= TRANSFER_SIZE
    && (mode == Unknown ==> AllSafe(host, |EncodeAll(host, ps)| + |Pad(padded)|, ps))
  }

  /** While the byte order is not known, only safe transfers; no reset amid unsafe packets. */
  predicate HostOk(host: Endian, x: HostHist, e: HostEvent) {
    match e
    case Sends(ps, padded) => Idle(x.h.s) ==> SendOk(host, x.h.s.mode, ps, padded)
    case Resets => AllValid(Unseen(x)) && AllSafe(host, x.h.s.size, Unseen(x))
    case _ => true
  }

  lemma HostSends(host: Endian, x: HostHist, ps: seq<Packet>, padded: bool)
    requires host != Unknown && HostInv(host, x) && Idle(x.h.s) && SendOk(host, x.h.s.mode, ps, padded)
    ensures RxAllowed(x.h.s, Arrive(EncodeAll(host, ps) + Pad(padded)))
    ensures HostInv(host, HostHist(RxStep(x.h, Arrive(EncodeAll(host, ps) + Pad(padded))), x.sent + ps, ps, padded))
  {
    var bytes := EncodeAll(host, ps) + Pad(padded);
    SafeIsDelivered(host, x.h.s.mode, |bytes|, ps, Pad(padded));
    hide Split, WellFormed, Safe, ValidPacket, EncodeAll, FramesOf;
    RxStepConserves(x.h, Arrive(bytes));
    FramesAppend(x.sent, ps);
  }

  lemma FramesFront(ps: seq<Packet>)
    requires ps != []
    ensures FramesOf(ps) == (if ps[0].Data? then [ps[0].frame] else []) + FramesOf(ps[1..])
  {
  }

  lemma {:induction false} FramesAppend(a: seq<Packet>, b: seq<Packet>)
    ensures FramesOf(a + b) == FramesOf(a) + FramesOf(b)
  {
    if a == [] {
      assert a + b == b && FramesOf(a) == [];
      hide FramesOf;
    } else {
      hide *;
      assert (a + b)[1..] == a[1..] + b && (a + b)[0] == a[0];
      FramesFront(a);
      FramesFront(a + b);
      FramesAppend(a[1..], b);
      Associative(if a[0].Data? then [a[0].frame] else [], FramesOf(a[1..]), FramesOf(b));
    }
  }

  /** The list of packets after a step of the receive task. */
  function LeftAfter(x: HostHist): seq<Packet> {
    if x.left == [] then []
    else if x.h.s.hold.Some? then (if |x.h.s.ring| == CAPACITY then x.left else x.left[1..])
    else if x.left[0].Data? then x.left else x.left[1..]
  }

  ghost function Worked(x: HostHist): HostHist
    requires RxInv(x.h.s)
  {
    HostHist(RxStep(x.h, Step), x.sent, LeftAfter(x), x.padded && !(x.h.s.hold.None? && x.left == []))
  }

  /** A held packet is delivered, or waits. */
  lemma HostDelivers(host: Endian, x: HostHist)
    requires host != Unknown && HostInv(host, x) && x.h.s.hold.Some?
    ensures HostInv(host, Worked(x))
  {
    hide Conserved, Encode, EncodeAll, Body, FramesOf, WellFormed, Delivered, Safe, AllSafe, ValidPacket;
    EncodeAllFront(host, x.left);
    var p, others, pad := x.left[0], EncodeAll(host, x.left[1..]), Pad(x.padded);
    Associative(Encode(host, p), others, pad);
    EncodeLayout(host, p, others + pad);
    RxStepConserves(x.h, Step);
  }

  /** A header is looked at. */
  lemma HostLooks(host: Endian, x: HostHist)
    requires host != Unknown && HostInv(host, x) && x.h.s.hold.None? && x.left != []
    ensures HostInv(host, Worked(x))
  {
    hide Conserved, Encode, EncodeAll, Body, FramesOf, WellFormed, Safe, ValidPacket;
    hide Fields, Detect, Raw, AllSafe, Left;
    RxStepConserves(x.h, Step);
    RestFront(host, x);
    var p, tail := x.left[0], EncodeAll(host, x.left[1..]) + Pad(x.padded);
    var rest := Encode(host, p) + tail;
    HeaderSeen(host, x, p, tail);
    hide AllValid;
  }

  lemma RestFront(host: Endian, x: HostHist)
    requires host != Unknown && AllValid(x.left) && x.left != []
    ensures AllValid(x.left[1..]) && ValidPacket(x.left[0])
    ensures var p, tail := x.left[0], EncodeAll(host, x.left[1..]) + Pad(x.padded);
            && EncodeAll(host, x.left) + Pad(x.padded) == Encode(host, p) + tail
            && |Encode(host, p) + tail| == 2 + |Body(p)| + |tail|
            && (Encode(host, p) + tail)[2 + |Body(p)|..] == tail
  {
    EncodeAllFront(host, x.left);
    hide EncodeAll;
    Associative(Encode(host, x.left[0]), EncodeAll(host, x.left[1..]), Pad(x.padded));
    EncodeLayout(host, x.left[0], EncodeAll(host, x.left[1..]) + Pad(x.padded));
  }

  /** What the header says, in either mode. */
  lemma HeaderSeen(host: Endian, x: HostHist, p: Packet, tail: seq<byte>)
    requires host != Unknown && AllValid(x.left) && x.left != [] && p == x.left[0] && ValidPacket(p)
    requires AllValid(x.left[1..]) && |Encode(host, p) + tail| <= x.h.s.size
    requires x.h.s.mode == host || (x.h.s.mode == Unknown && AllSafe(host, x.h.s.size, x.left))
    ensures var rest := Encode(host, p) + tail;
            && |rest| >= 2
            && var h, mode := Fields(x.h.s.mode, Raw(rest), x.h.s.size), Detect(x.h.s.mode, Raw(rest), x.h.s.size);
               && h.isData == p.Data? && h.len == |Body(p)| && (h.isData ==> h.len >= 4)
               && (mode == host || (mode == Unknown && AllSafe(host, x.h.s.size, x.left[1..])))
  {
    DataBody(p);
    FrontSafe(host, x.h.s.size, x.left);
    KnownOrder(host, x.h.s.size, p, tail);
    PacketSafe(host, x.h.s.size, p, tail);
    hide Encode, EncodeAll, Body, Safe, ValidPacket, Fields, Detect, Raw, AllSafe, AllValid;
  }

  lemma DataBody(p: Packet)
    requires ValidPacket(p)
    ensures p.Data? ==> |Body(p)| >= 4
  {
  }

  /** Only the closing packet is left, or nothing. */
  lemma HostCloses(host: Endian, x: HostHist)
    requires host != Unknown && HostInv(host, x) && x.h.s.hold.None? && x.left == []
    ensures HostInv(host, Worked(x))
  {
    assert x.h.s.rest == Pad(x.padded);
    PadAlone(x.h.s.mode, x.h.s.size, Pad(x.padded));
    RxStepConserves(x.h, Step);
    hide Conserved, FramesOf, WellFormed, Safe, ValidPacket, Fields, Detect, Raw;
  }

  lemma HostTakes(host: Endian, x: HostHist)
    requires host != Unknown && HostInv(host, x)
    ensures HostInv(host, x.(h := RxStep(x.h, Take)))
  {
    RxStepConserves(x.h, Take);
    hide Conserved, EncodeAll, WellFormed, Safe, ValidPacket, Body, FramesOf;
  }

  lemma HostResets(host: Endian, x: HostHist)
    requires host != Unknown && HostInv(host, x) && AllSafe(host, x.h.s.size, Unseen(x))
    ensures RxAllowed(x.h.s, Reset)
    ensures HostInv(host, x.(h := RxStep(x.h, Reset)))
  {
    UnreadIsUnseen(host, x);
    SafeIsDelivered(host, x.h.s.mode, x.h.s.size, Unseen(x), Pad(x.padded));
    SafeIsDelivered(host, Unknown, x.h.s.size, Unseen(x), Pad(x.padded));
    RxStepConserves(x.h, Reset);
    hide Conserved, EncodeAll, WellFormed, Safe, ValidPacket, Body, FramesOf, Split;
  }

  lemma UnreadIsUnseen(host: Endian, x: HostHist)
    requires host != Unknown && HostInv(host, x)
    ensures Unread(x.h.s) == EncodeAll(host, Unseen(x)) + Pad(x.padded)
    ensures |Unread(x.h.s)| <= x.h.s.size
  {
    if x.h.s.hold.Some? {
      var p, others, pad := x.left[0], EncodeAll(host, x.left[1..]), Pad(x.padded);
      EncodeAllFront(host, x.left);
      Associative(Encode(host, p), others, pad);
      EncodeLayout(host, p, others + pad);
    }
  }

  ghost function HostStep(host: Endian, x: HostHist, e: HostEvent): (x': HostHist)
    requires host != Unknown && HostInv(host, x) && HostOk(host, x, e)
    ensures HostInv(host, x')
  {
    match e
    case Takes => HostTakes(host, x); x.(h := RxStep(x.h, Take))
    case Works => HostWorks(host, x); Worked(x)
    case Resets => HostResets(host, x); x.(h := RxStep(x.h, Reset))
    case Sends(ps, padded) =>
      if !Idle(x.h.s) then x
      else
        HostSends(host, x, ps, padded);
        HostHist(RxStep(x.h, Arrive(EncodeAll(host, ps) + Pad(padded))), x.sent + ps, ps, padded)
  }

  lemma HostWorks(host: Endian, x: HostHist)
    requires host != Unknown && HostInv(host, x)
    ensures RxInv(x.h.s) && HostInv(host, Worked(x))
  {
    assert RxInv(x.h.s);
    hide HostInv, RxInv, Worked;
    if x.h.s.hold.Some? {
      HostDelivers(host, x);
    } else if x.left != [] {
      HostLooks(host, x);
    } else {
      HostCloses(host, x);
    }
  }

  /** The state after a run with a host, or None once the host breaks its rules. */
  ghost function HostRun(host: Endian, es: seq<HostEvent>): (x: Option<HostHist>)
    requires host != Unknown
    ensures x.Some? ==> HostInv(host, x.value)
  {
    if es == [] then Some(HostHist(RxHist(RxState(Unknown, [], 0, [], None), [], []), [], [], false))
    else
      var x := HostRun(host, es[..|es| - 1]);
      var e := es[|es| - 1];
      if x.None? || !HostOk(host, x.value, e) then None else Some(HostStep(host, x.value, e))
  }

  /** What the receive side sees of an event. */
  function RxEventOf(host: Endian, e: HostEvent): RxEvent
    requires host != Unknown && (e.Sends? ==> AllValid(e.packets))
  {
    if e.Sends? then Arrive(EncodeAll(host, e.packets) + (if e.padded then [0, 0] else []))
    else if e.Works? then Step
    else if e.Takes? then Take
    else Reset
  }

  /** The host sends only to a task that waits for a transfer. */
  ghost predicate SendsLand(host: Endian, es: seq<HostEvent>)
    requires host != Unknown
  {
    if es == [] then true
    else
      var before, e := es[..|es| - 1], es[|es| - 1];
      && SendsLand(host, before) && HostRun(host, before).Some?
      && (e.Sends? ==> AllValid(e.packets) && Idle(HostRun(host, before).value.h.s))
  }

  ghost function RxEvents(host: Endian, es: seq<HostEvent>): seq<RxEvent>
    requires host != Unknown && SendsLand(host, es)
  {
    if es == [] then [] else RxEvents(host, es[..|es| - 1]) + [RxEventOf(host, es[|es| - 1])]
  }

  /** A run with a host is a run of the receive side on the bytes the host sends. */
  lemma {:induction false} HostRunIsRxRun(host: Endian, es: seq<HostEvent>)
    requires host != Unknown && HostRun(host, es).Some? && SendsLand(host, es)
    ensures RxRun(RxEvents(host, es)) == Some(HostRun(host, es).value.h)
  {
    if es != [] {
      var before, e := es[..|es| - 1], es[|es| - 1];
      HostRunIsRxRun(host, before);
      var x, rx := HostRun(host, before).value, RxEvents(host, before);
      RxRunMore(rx, RxEventOf(host, e));
      StepIsRxStep(host, x, e);
      hide RxRun, Split, WellFormed, RxStep, RxNext, HostInv, HostOk, HostStep, RxAllowed, RxEventOf, Idle, RxInv;
    }
  }

  lemma StepIsRxStep(host: Endian, x: HostHist, e: HostEvent)
    requires host != Unknown && HostInv(host, x) && HostOk(host, x, e)
    requires e.Sends? ==> Idle(x.h.s) && AllValid(e.packets)
    ensures RxInv(x.h.s) && RxAllowed(x.h.s, RxEventOf(host, e))
    ensures HostStep(host, x, e).h == RxStep(x.h, RxEventOf(host, e))
  {
    hide Split, WellFormed, Safe, AllSafe, AllValid, EncodeAll, RxStep, RxNext, Left;
    match e
    case Sends(ps, padded) => HostSends(host, x, ps, padded);
    case Works => HostWorks(host, x);
    case Takes => HostTakes(host, x);
    case Resets => HostResets(host, x);
  }

  /** A run goes on with everything that is allowed where it stands, and with nothing else. */
  lemma HostRunMore(host: Endian, es: seq<HostEvent>, e: HostEvent)
    requires host != Unknown
    ensures HostRun(host, []) == Some(HostHist(RxHist(RxState(Unknown, [], 0, [], None), [], []), [], [], false))
    ensures HostRun(host, es + [e]) == if HostRun(host, es).Some? && HostOk(host, HostRun(host, es).value, e)
                                       then Some(HostStep(host, HostRun(host, es).value, e)) else None
  {
    assert (es + [e])[..|es + [e]| - 1] == es;
  }

  /** End to end: over every run with a host of either byte order, bus resets included, that sends only safe transfers
      while the byte order is not known and anything valid afterwards: the frames of its packets are, in order,
      those handed to callers, those in the ring and those still to be split. */
  lemma HostFramesArrive(host: Endian, es: seq<HostEvent>)
    requires host != Unknown && HostRun(host, es).Some?
    ensures var x := HostRun(host, es).value;
            && RxInv(x.h.s)
            && FramesOf(x.sent) == x.h.taken + x.h.s.ring + Left(x.h.s)
            && (Idle(x.h.s) ==> FramesOf(x.sent) == x.h.taken + x.h.s.ring)
            && |x.h.s.ring| <= CAPACITY
            && (x.h.s.mode == host || x.h.s.mode == Unknown)
  {
    var x := HostRun(host, es).value;
    assert HostInv(host, x);
  }
}
