/** The EEM driver as it runs: static slot rings with free-running 32-bit counters, transfer buffers
    filled in place, two tasks. Each method is what a task does between two calls of Yield. */
module Eem {
  import opened Bytes
  import opened EemCodec
  import opened EemSpec

  const EARGVAL: int := -3
  const ETIMEOUT: int := -5
  const ECANCEL: int := -6
  const EUSB_INACTIVE: int := -22

  const DEADBEEF: seq<byte> := [0xde, 0xad, 0xbe, 0xef]

  /** A call either stays in its waiting loop or returns a code. */
  datatype Poll = Waiting | Done(code: int)

  /** What the waiting loops look at: elapsed time, cancellation, USBCore_IsConfigured. */
  datatype Env = Env(timedOut: bool, cancelled: bool, configured: bool)

  /** A waiting loop goes on exactly while time is left, nobody cancels and the interface is up; it looks at these in
      that order. */
  function WaitResult(env: Env): (r: Poll)
    ensures r == Waiting <==> !env.timedOut && !env.cancelled && env.configured
    ensures env.timedOut ==> r == Done(ETIMEOUT)
    ensures !env.timedOut && env.cancelled ==> r == Done(ECANCEL)
    ensures !env.timedOut && !env.cancelled && !env.configured ==> r == Done(EUSB_INACTIVE)
  {
    if env.timedOut then Done(ETIMEOUT)
    else if env.cancelled then Done(ECANCEL)
    else if !env.configured then Done(EUSB_INACTIVE)
    else Waiting
  }

  // ---- the two-slot ring ----

  datatype Buf = Buf(size: nat, pld: seq<byte>)

  predicate Slots(slots: seq<Buf>) {
    |slots| == CAPACITY && forall i :: 0 <= i < CAPACITY ==> slots[i].size <= |slots[i].pld| == MAX_FRAME
  }

  lemma SlotShape(slots: seq<Buf>, i: nat)
    requires Slots(slots) && i < CAPACITY
    ensures |slots| == CAPACITY && slots[i].size <= |slots[i].pld| == MAX_FRAME
  {
  }

  function FrameOf(b: Buf): Frame
    requires b.size <= |b.pld|
  {
    b.pld[..b.size]
  }

  /** The frame `i` places after the slot of `tail`. */
  function FrameAt(slots: seq<Buf>, tail: u32, i: nat): Frame
    requires Slots(slots)
  {
    FrameOf(slots[(tail + i) % CAPACITY])
  }

  /** head - tail in unsigned arithmetic. */
  function Count(head: u32, tail: u32): (n: nat)
    ensures n == if head >= tail then head - tail else head - tail + W32
  {
    Wrap32(head - tail)
  }

  function Contents(slots: seq<Buf>, head: u32, tail: u32): (fs: seq<Frame>)
    requires Slots(slots)
    ensures |fs| == Count(head, tail)
  {
    seq(Count(head, tail), i requires 0 <= i => FrameAt(slots, tail, i))
  }

  /** Filling the slot under `head` appends a frame, across the wrap of the counter too, and spoils no other. */
  lemma PushSlot(slots: seq<Buf>, head: u32, tail: u32, b: Buf)
    requires Slots(slots) && b.size <= |b.pld| == MAX_FRAME
    requires Count(head, tail) < CAPACITY
    ensures Slots(slots[head % CAPACITY := b])
    ensures Contents(slots[head % CAPACITY := b], Wrap32(head + 1), tail)
            == Contents(slots, head, tail) + [FrameOf(b)]
  {
    var n := Count(head, tail);
    var after := slots[head % CAPACITY := b];
    assert Count(Wrap32(head + 1), tail) == n + 1;
    assert head % CAPACITY == (tail + n) % CAPACITY;
    forall i | 0 <= i < n
      ensures FrameAt(after, tail, i) == FrameAt(slots, tail, i)
    {
      assert (tail + i) % CAPACITY != (tail + n) % CAPACITY;
    }
    assert FrameAt(after, tail, n) == FrameOf(b);
  }

  lemma CountUp(head: u32, tail: u32)
    requires Count(head, tail) < CAPACITY
    ensures Count(Wrap32(head + 1), tail) == Count(head, tail) + 1
  {
  }

  /** memcpy into the payload of a slot. */
  lemma FilledSlot(pld: seq<byte>, frame: Frame)
    requires |frame| <= |pld|
    ensures FrameOf(Buf(|frame|, Overwrite(pld, 0, frame))) == frame
  {
  }

  lemma PopSlots(slots: seq<Buf>, head: u32, tail: u32, tail': u32)
    requires Slots(slots) && Count(tail', tail) <= Count(head, tail) <= CAPACITY
    ensures Contents(slots, head, tail') == Contents(slots, head, tail)[Count(tail', tail)..]
  {
    var k := Count(tail', tail);
    assert Count(head, tail') == Count(head, tail) - k;
    forall i | 0 <= i < Count(head, tail')
      ensures FrameAt(slots, tail', i) == FrameAt(slots, tail, k + i)
    {
      assert (tail' + i) % CAPACITY == (tail + (k + i)) % CAPACITY;
    }
  }

  /** The slot under a counter that has not reached `head` yet. */
  lemma SlotAt(slots: seq<Buf>, head: u32, tail: u32, pos: u32)
    requires Slots(slots) && Count(pos, tail) <= Count(head, tail) <= CAPACITY && pos != head
    ensures var n := Count(pos, tail);
            && n < Count(head, tail)
            && Count(Wrap32(pos + 1), tail) == n + 1
            && Contents(slots, head, tail)[n] == FrameOf(slots[pos % CAPACITY])
            && slots[pos % CAPACITY].size <= |slots[pos % CAPACITY].pld| == MAX_FRAME
  {
    var n := Count(pos, tail);
    assert pos % CAPACITY == (tail + n) % CAPACITY;
    assert Contents(slots, head, tail)[n] == FrameAt(slots, tail, n);
  }

  /** The loop stops at the end of the queue or at the first frame that no longer fits. */
  lemma FitStops(pending: seq<Frame>, n: nat, offs: int)
    requires n <= |pending|
    requires n == |pending| || |pending[n]| + 6 > TRANSFER_SIZE - offs
    ensures Fit(pending[n..], offs) == 0
  {
  }

  /** The header as stored by the little-endian core after HTOLE16 or HTOBE16. */
  function StoredHeader(end: Endian, v: u16): (r: seq<byte>)
    requires end != Unknown
    ensures r == HeaderBytes(end, v)
  {
    var hdr := if end == LE then v else Swap16(v);
    var lo: byte, hi: byte := hdr % 0x100, hdr / 0x100;
    assert end != LE ==> lo == v / 0x100 && hi == v % 0x100;
    [lo, hi]
  }

  lemma FrameBytes(end: Endian, b: Buf)
    requires b.size <= |b.pld| == MAX_FRAME && end != Unknown
    ensures var f := b.pld[..b.size]; var packet := Encode(end, AsPacket(f));
            && FrameOf(b) == f && |StoredHeader(end, b.size + 4)| == 2 && |DEADBEEF| == 4
            && packet == StoredHeader(end, b.size + 4) + f + DEADBEEF && |packet| == b.size + 6
  {
  }

  lemma ThreeCopies(bytes: seq<byte>, at: nat, a: seq<byte>, b: seq<byte>, c: seq<byte>)
    requires at + |a| + |b| + |c| <= |bytes|
    ensures Overwrite(Overwrite(Overwrite(bytes, at, a), at + |a|, b), at + |a| + |b|, c) ==
            Overwrite(bytes, at, a + b + c)
  {
    hide Overwrite;
    OverwriteTwice(bytes, at, a, b);
    OverwriteTwice(bytes, at, a + b, c);
  }

  lemma HeaderWord(b: Buf)
    requires b.size <= |b.pld| == MAX_FRAME
    ensures b.size + 4 < 0x1_0000
  {
  }

  /** Header, payload and bogus checksum copied one after the other are the packet. */
  lemma FrameCopies(end: Endian, b: Buf, bytes: seq<byte>, offs: nat)
    requires b.size <= |b.pld| == MAX_FRAME && end != Unknown && offs + b.size + 6 <= |bytes|
    ensures var packet, hdr := Encode(end, AsPacket(FrameOf(b))), StoredHeader(end, b.size + 4);
            && |packet| == b.size + 6 && |hdr| == 2 && |DEADBEEF| == 4
            && Overwrite(Overwrite(Overwrite(bytes, offs, hdr), offs + 2, b.pld[..b.size]), offs + 2 + b.size, DEADBEEF)
               == Overwrite(bytes, offs, packet)
  {
    hide *;
    HeaderWord(b);
    FrameBytes(end, b);
    var hdr, f := StoredHeader(end, b.size + 4), b.pld[..b.size];
    assert |hdr| == 2 && |f| == b.size && |DEADBEEF| == 4;
    ThreeCopies(bytes, offs, hdr, f, DEADBEEF);
    assert offs + |hdr| == offs + 2 && offs + |hdr| + |f| == offs + 2 + b.size;
  }

  lemma PackNothing(end: Endian, bytes: seq<byte>, pending: seq<Frame>)
    requires Sendable(pending)
    ensures Sendable(pending[..0]) && bytes[..0] == Pack(end, pending[..0])
    ensures pending[0..] == pending
  {
  }

  // ---- what the fields of the driver stand for ----

  ghost function TxView(slots: seq<Buf>, head: u32, tail: u32, waiting: bool, newTail: u32, end: Endian,
                        bytes: seq<byte>): (s: TxState)
    requires Slots(slots) && (waiting ==> Count(newTail, tail) <= Count(head, tail))
    ensures |s.pending| == Count(head, tail)
  {
    var pending := Contents(slots, head, tail);
    TxState(pending, if waiting then Some(Transfer(end, pending[..Count(newTail, tail)], bytes)) else None)
  }

  ghost function RxView(mode: Endian, ring: seq<Frame>, size: nat, bytes: seq<byte>, offs: nat,
                        hold: Option<nat>): RxState
    requires offs <= size <= |bytes|
  {
    RxState(mode, ring, size, bytes[offs..size], hold)
  }

  /** The first `n` frames are laid out in `bytes`, and the loop would take them all. */
  ghost predicate PackedView(end: Endian, pending: seq<Frame>, n: nat, offs: nat, bytes: seq<byte>) {
    && Sendable(pending) && n <= |pending|
    && bytes == Pack(end, pending[..n])
    && n + Fit(pending[n..], offs) == Fit(pending, 0)
  }

  /** One round of the packing loop, on the bytes before and after it. */
  lemma PackOne(end: Endian, pending: seq<Frame>, n: nat, offs: nat, before: seq<byte>, after: seq<byte>)
    requires offs <= TRANSFER_SIZE == |before| == |after| && PackedView(end, pending, n, offs, before[..offs])
    requires n < |pending| && |pending[n]| + 6 <= TRANSFER_SIZE - offs
    requires var packet := Encode(end, AsPacket(pending[n]));
             |packet| == |pending[n]| + 6 && after == Overwrite(before, offs, packet)
    ensures var next := offs + |pending[n]| + 6; PackedView(end, pending, n + 1, next, after[..next])
  {
    var packet, next := Encode(end, AsPacket(pending[n])), offs + |pending[n]| + 6;
    FitTakes(pending, n, offs);
    PackTakes(end, pending, n);
    TakeOverwritten(before, offs, packet);
    hide Pack, Encode, Fit, Overwrite;
  }

  lemma FitTakes(pending: seq<Frame>, n: nat, offs: int)
    requires n < |pending| && |pending[n]| + 6 <= TRANSFER_SIZE - offs
    ensures Fit(pending[n..], offs) == 1 + Fit(pending[n + 1..], offs + |pending[n]| + 6)
  {
    assert pending[n..][1..] == pending[n + 1..];
  }

  lemma PackTakes(end: Endian, pending: seq<Frame>, n: nat)
    requires Sendable(pending) && n < |pending|
    ensures Sendable(pending[..n]) && Sendable(pending[..n + 1])
    ensures Pack(end, pending[..n + 1]) == Pack(end, pending[..n]) + Encode(end, AsPacket(pending[n]))
  {
    assert pending[..n + 1] == pending[..n] + [pending[n]];
    hide Pack, Encode;
    PackSnoc(end, pending[..n], pending[n]);
  }

  lemma TakeOverwritten(before: seq<byte>, offs: nat, packet: seq<byte>)
    requires offs + |packet| <= |before|
    ensures Overwrite(before, offs, packet)[..offs + |packet|] == before[..offs] + packet
  {
  }

  lemma SendView(slots: seq<Buf>, head: u32, tail: u32, waiting: bool, newTail: u32, end: Endian,
                 bytes: seq<byte>, b: Buf)
    requires Slots(slots) && (waiting ==> Count(newTail, tail) <= Count(head, tail)) && Count(head, tail) < CAPACITY
    requires b.size <= |b.pld| == MAX_FRAME
    requires TxInv(TxView(slots, head, tail, waiting, newTail, end, bytes))
    ensures var slots', head' := slots[head % CAPACITY := b], Wrap32(head + 1);
            && Slots(slots') && Count(head', tail) == Count(head, tail) + 1
            && var v' := TxView(slots', head', tail, waiting, newTail, end, bytes);
               v' == TxNext(TxView(slots, head, tail, waiting, newTail, end, bytes), EemSpec.Send(FrameOf(b))) &&
               TxInv(v')
  {
    var v := TxView(slots, head, tail, waiting, newTail, end, bytes);
    TxStepKeepsInv(v, EemSpec.Send(FrameOf(b)));
    PushSlot(slots, head, tail, b);
    CountUp(head, tail);
    hide TxInv;
    if waiting {
      var k := Count(newTail, tail);
      assert (v.pending + [FrameOf(b)])[..k] == v.pending[..k];
    }
  }

  /** The next header and what follows from it, on the bytes of the transfer. */
  lemma ParseView(mode: Endian, ring: seq<Frame>, size: nat, bytes: seq<byte>, offs: nat)
    requires offs < size <= |bytes| && RxInv(RxView(mode, ring, size, bytes, offs, None))
    ensures offs + 2 <= size
    ensures var raw: u16 := bytes[offs] as int + 0x100 * bytes[offs + 1] as int;
            var h, mode' := Fields(mode, raw, size), Detect(mode, raw, size);
            && offs + h.len + 2 <= size
            && var s' := if !h.isData then RxView(mode', ring, size, bytes, offs + h.len + 2, None)
                         else if h.len < 4 then RxView(mode', ring, size, bytes, size, None)
                         else RxView(mode', ring, size, bytes, offs, Some(h.len));
               s' == RxNext(RxView(mode, ring, size, bytes, offs, None), Step) && RxInv(s')
  {
    hide Fields, Detect, Raw, RxNext, RxInv, Left;
    var s := RxView(mode, ring, size, bytes, offs, None);
    HeaderFits(s);
    HeaderAt(bytes, offs, size);
    TailAt(bytes, offs, size, Fields(mode, Raw(s.rest), size).len + 2);
    assert bytes[size..size] == [];
    RxStepKeepsFrames(s);
  }

  lemma HeaderFits(s: RxState)
    requires RxInv(s) && s.hold.None? && s.rest != []
    ensures |s.rest| >= 2
    ensures var h, s' := Fields(s.mode, Raw(s.rest), s.size), s.(mode := Detect(s.mode, Raw(s.rest), s.size));
            && 2 + h.len <= |s.rest|
            && RxNext(s, Step) == if !h.isData then s'.(rest := s.rest[2 + h.len..])
                                  else if h.len < 4 then s'.(rest := [])
                                  else s'.(hold := Some(h.len))
  {
    hide Fields, Detect, Raw;
  }

  lemma HeaderAt(bytes: seq<byte>, offs: nat, size: nat)
    requires offs + 2 <= size <= |bytes|
    ensures Raw(bytes[offs..size]) == bytes[offs] as int + 0x100 * bytes[offs + 1] as int
  {
  }

  lemma TailAt(bytes: seq<byte>, offs: nat, size: nat, n: nat)
    requires offs + n <= size <= |bytes|
    ensures bytes[offs + n..size] == bytes[offs..size][n..]
  {
  }

  /** A held packet lies inside the transfer; without room the step is to wait. */
  lemma RxViewParts(mode: Endian, ring: seq<Frame>, size: nat, bytes: seq<byte>, offs: nat, len: nat)
    requires offs <= size <= |bytes| && RxInv(RxView(mode, ring, size, bytes, offs, Some(len)))
    ensures 4 <= len && offs + 2 + len <= size && |ring| <= CAPACITY
    ensures |ring| == CAPACITY ==>
              var s := RxView(mode, ring, size, bytes, offs, Some(len)); RxNext(s, Step) == s
  {
    hide WellFormed;
  }

  /** Delivery into the slot under `head`, on the bytes of the transfer and the slots. */
  lemma DeliverView(mode: Endian, slots: seq<Buf>, head: u32, tail: u32, size: nat, bytes: seq<byte>, offs: nat,
                    len: nat, b: Buf)
    requires Slots(slots) && Count(head, tail) < CAPACITY && 4 <= len && offs + 2 + len <= size <= |bytes|
    requires RxInv(RxView(mode, Contents(slots, head, tail), size, bytes, offs, Some(len)))
    requires var n := Min(MAX_FRAME, len - 4);
             && n <= |slots[head % CAPACITY].pld|
             && b == Buf(n, Overwrite(slots[head % CAPACITY].pld, 0, bytes[offs + 2..offs + 2 + n]))
    ensures var slots', head' := slots[head % CAPACITY := b], Wrap32(head + 1);
            && Slots(slots') && Count(head', tail) == Count(head, tail) + 1
            && var s' := RxView(mode, Contents(slots', head', tail), size, bytes, offs + len + 2, None);
               s' == RxNext(RxView(mode, Contents(slots, head, tail), size, bytes, offs, Some(len)), Step) && RxInv(s')
  {
    hide FrameAt, FrameOf, Overwrite, WellFormed, Contents, RxInv, Left;
    var s, n := RxView(mode, Contents(slots, head, tail), size, bytes, offs, Some(len)), Min(MAX_FRAME, len - 4);
    RxStepKeepsFrames(s);
    SubSlice(bytes, offs, size, 2, 2 + n);
    TailAt(bytes, offs, size, 2 + len);
    FilledSlot(slots[head % CAPACITY].pld, bytes[offs + 2..offs + 2 + n]);
    PushSlot(slots, head, tail, b);
    CountUp(head, tail);
  }

  lemma NothingYet(slots: seq<Buf>)
    requires Slots(slots)
    ensures TxView(slots, 0, 0, false, 0, Unknown, []) == TxState([], None)
    ensures TxInv(TxState([], None)) && RxInv(RxState(Unknown, [], 0, [], None))
  {
  }

  class Driver {
    var endian: Endian

    const tx: array<Buf>
    const txTransfer: array<byte>
    var txHead: u32
    var txTail: u32
    // locals of the transmit task that live across USB_WaitINTransfer
    var txWaiting: bool
    var txNewTail: u32
    var txOffs: nat
    ghost var txEnd: Endian

    const rx: array<Buf>
    const rxTransfer: array<byte>
    var rxHead: u32
    var rxTail: u32
    // locals of the receive task that live across Yield
    var rxSize: nat
    var rxOffs: nat
    var rxHold: Option<nat>

    ghost predicate TxShape()
      reads this`txHead, this`txTail, this`txWaiting, this`txNewTail, this`txOffs, tx, txTransfer
    {
      && Slots(tx[..]) && txTransfer.Length == TRANSFER_SIZE
      && Count(txHead, txTail) <= CAPACITY
      && (txWaiting ==> Count(txNewTail, txTail) <= Count(txHead, txTail) && txOffs <= TRANSFER_SIZE)
    }

    ghost function TxAbs(): TxState
      requires TxShape()
      reads this`txHead, this`txTail, this`txWaiting, this`txNewTail, this`txOffs, this`txEnd
      reads tx, txTransfer
    {
      TxView(tx[..], txHead, txTail, txWaiting, txNewTail, txEnd,
             if txWaiting then txTransfer[..txOffs] else [])
    }

    ghost predicate TxOk()
      reads this`txHead, this`txTail, this`txWaiting, this`txNewTail, this`txOffs, this`txEnd
      reads tx, txTransfer
    {
      TxShape() && TxInv(TxAbs())
    }

    ghost predicate RxShape()
      reads this`rxHead, this`rxTail, this`rxSize, this`rxOffs, rx, rxTransfer
    {
      && Slots(rx[..]) && rxTransfer.Length == TRANSFER_SIZE
      && Count(rxHead, rxTail) <= CAPACITY
      && rxOffs <= rxSize <= TRANSFER_SIZE
    }

    ghost function RxAbs(): RxState
      requires RxShape()
      reads this`endian, this`rxHead, this`rxTail, this`rxSize, this`rxOffs, this`rxHold, rx, rxTransfer
    {
      RxView(endian, Contents(rx[..], rxHead, rxTail), rxSize, rxTransfer[..], rxOffs, rxHold)
    }

    ghost predicate RxOk()
      reads this`endian, this`rxHead, this`rxTail, this`rxSize, this`rxOffs, this`rxHold, rx, rxTransfer
    {
      RxShape() && RxInv(RxAbs())
    }

    constructor ()
      ensures TxOk() && TxAbs() == TxState([], None)
      ensures RxOk() && RxAbs() == RxState(Unknown, [], 0, [], None)
      ensures fresh(tx) && fresh(rx) && fresh(txTransfer) && fresh(rxTransfer)
      ensures tx != rx && txTransfer != rxTransfer
    {
      hide Laid, TxInv, RxInv, TxView, FrameAt, Count, Wrap32;
      var blank := Buf(0, seq(MAX_FRAME, _ => 0));
      tx := new Buf[CAPACITY](_ => blank);
      rx := new Buf[CAPACITY](_ => blank);
      txTransfer := new byte[TRANSFER_SIZE](_ => 0);
      rxTransfer := new byte[TRANSFER_SIZE](_ => 0);
      endian, txHead, txTail, rxHead, rxTail := Unknown, 0, 0, 0, 0;
      txWaiting, txNewTail, txOffs, txEnd := false, 0, 0, Unknown;
      rxSize, rxOffs, rxHold := 0, 0, None;
      new;
      assert Slots(tx[..]) && Slots(rx[..]);
      NothingYet(tx[..]);
      assert rxTransfer[0..0] == [];
    }

    /** One pass of USBEEM_Send: refuse, keep waiting, give up, or take the frame. */
    method Send(frame: Frame, env: Env) returns (r: Poll)
      requires TxOk()
      modifies this`txHead, tx
      ensures TxOk() && TxAbs() == TxNext(old(TxAbs()), EemSpec.Send(frame))
      ensures r == if |frame| > MAX_FRAME then Done(EARGVAL)
                   else if |old(TxAbs()).pending| == CAPACITY then WaitResult(env)
                   else Done(|frame|)
    {
      hide TxView, TxInv, Overwrite, FrameOf, FrameAt, Slots, Wrap32;
      if |frame| > MAX_FRAME {
        return Done(EARGVAL);
      }
      if Wrap32(txHead - txTail) == CAPACITY {
        return WaitResult(env);
      }
      var i := txHead % CAPACITY;
      SlotShape(tx[..], i);
      var b := Buf(|frame|, Overwrite(tx[i].pld, 0, frame));
      FilledSlot(tx[i].pld, frame);
      SendView(tx[..], txHead, txTail, txWaiting, txNewTail, txEnd,
               if txWaiting then txTransfer[..txOffs] else [], b);
      ghost var slots := tx[..];
      tx[i] := b;
      assert tx[..] == slots[i := b];
      txHead := Wrap32(txHead + 1);
      r := Done(|frame|);
    }

    /** One pass of USBEEM_TxTask up to USB_StartINTransfer; `started` is what the endpoint answers. */
    method TxPoll(started: bool)
      requires TxOk() && !txWaiting
      modifies this`txWaiting, this`txNewTail, this`txOffs, this`txEnd, txTransfer
      ensures TxOk() && TxAbs() == TxNext(old(TxAbs()), EemSpec.Poll(endian, started))
    {
      hide Pack, Fit, Contents, FrameAt;
      if endian == Unknown {
        return;
      }
      ghost var before := TxAbs();
      var offs, tail := PackFrames();
      FitIsMaximal(before.pending, 0, 0);
      TxStepKeepsInv(before, EemSpec.Poll(endian, started));
      if offs == 0 || !started {
        return;
      }
      txWaiting, txNewTail, txOffs, txEnd := true, tail, offs, endian;
      assert TxAbs() == TxNext(before, EemSpec.Poll(endian, started));
    }

    /** The packing loop, `offs` bytes in and about to look at slot `tail`. */
    ghost predicate Packed(offs: nat, tail: u32)
      requires endian != Unknown
      reads this, tx, txTransfer
    {
      && TxOk() && !txWaiting && (offs == 0 <==> tail == txTail) && offs <= TRANSFER_SIZE
      && Count(tail, txTail) <= Count(txHead, txTail)
      && PackedView(endian, TxAbs().pending, Count(tail, txTail), offs, txTransfer[..offs])
    }

    /** The packing loop: frames from the tail on are laid out while they fit. */
    method PackFrames() returns (offs: nat, tail: u32)
      requires TxOk() && !txWaiting && endian != Unknown
      modifies txTransfer
      ensures Packed(offs, tail) && TxAbs() == old(TxAbs())
      ensures Count(tail, txTail) == Fit(TxAbs().pending, 0)
    {
      offs, tail := 0, txTail;
      ghost var abs := TxAbs();
      PackNothing(endian, txTransfer[..], abs.pending);
      var stop := false;
      while txHead != tail && !stop
        invariant Packed(offs, tail) && TxAbs() == abs
        invariant stop ==> Fit(abs.pending[Count(tail, txTail)..], offs) == 0
        decreases |abs.pending| - Count(tail, txTail), !stop
      {
        offs, tail, stop := PackNext(offs, tail);
      }
      if txHead == tail {
        FitStops(abs.pending, |abs.pending|, offs);
      }
    }

    /** One round: lay out the frame under `tail`, or stop because it does not fit. */
    method PackNext(offs0: nat, tail0: u32) returns (offs: nat, tail: u32, stop: bool)
      requires endian != Unknown && Packed(offs0, tail0) && txHead != tail0
      modifies txTransfer
      ensures TxOk() && TxAbs() == old(TxAbs()) && Packed(offs, tail)
      ensures stop ==> tail == tail0 && Fit(TxAbs().pending[Count(tail, txTail)..], offs) == 0
      ensures !stop ==> Count(tail, txTail) == Count(tail0, txTail) + 1
    {
      hide PackedView, Encode, Contents, FrameOf, Overwrite, TxInv, Fit;
      ghost var pending, n := TxAbs().pending, Count(tail0, txTail);
      SlotAt(tx[..], txHead, txTail, tail0);
      var b := tx[tail0 % CAPACITY];
      var frameSize := b.size + 6;
      FrameBytes(endian, b);
      offs, tail := offs0, tail0;
      stop := frameSize > TRANSFER_SIZE - offs;
      if stop {
        FitStops(pending, n, offs);
        return;
      }
      ghost var bytes := txTransfer[..];
      LayFrame(offs, b);
      assert bytes[..offs] == old(txTransfer[..offs]);
      PackOne(endian, pending, n, offs, bytes, txTransfer[..]);
      offs := offs + frameSize;
      tail := Wrap32(tail + 1);
      assert txTransfer[..offs] == txTransfer[..][..offs];
    }

    /** Header, payload and bogus checksum of one frame at offset `offs`. */
    method LayFrame(offs: nat, b: Buf)
      requires b.size <= |b.pld| == MAX_FRAME && offs + b.size + 6 <= txTransfer.Length && endian != Unknown
      modifies txTransfer
      ensures var packet := Encode(endian, AsPacket(FrameOf(b)));
              |packet| == b.size + 6 && txTransfer[..] == Overwrite(old(txTransfer[..]), offs, packet)
    {
      hide *;
      HeaderWord(b);
      var hdr := StoredHeader(endian, b.size + 4);
      FrameCopies(endian, b, txTransfer[..], offs);
      ghost var bytes := txTransfer[..];
      Memcpy(txTransfer, offs, hdr);
      assert txTransfer[..] == Overwrite(bytes, offs, hdr);
      Memcpy(txTransfer, offs + 2, b.pld[..b.size]);
      Memcpy(txTransfer, offs + 2 + b.size, DEADBEEF);
    }

    /** The transfer ended; only a success consumes the frames. */
    method TxComplete(ok: bool)
      requires TxOk() && txWaiting
      modifies this`txWaiting, this`txTail
      ensures TxOk() && TxAbs() == TxNext(old(TxAbs()), EemSpec.Complete(ok))
    {
      ghost var before := TxAbs();
      TxStepKeepsInv(before, EemSpec.Complete(ok));
      if ok {
        PopSlots(tx[..], txHead, txTail, txNewTail);
        txTail := txNewTail;
      }
      txWaiting := false;
    }

    /** An OUT transfer has filled the receive buffer. */
    method RxArrive(bytes: seq<byte>)
      requires RxOk() && Idle(RxAbs()) && RxAllowed(RxAbs(), Arrive(bytes))
      modifies this`rxSize, this`rxOffs, rxTransfer
      ensures RxOk() && RxAbs() == RxNext(old(RxAbs()), Arrive(bytes))
    {
      hide Contents, WellFormed, Fields, Detect;
      Memcpy(rxTransfer, 0, bytes);
      rxSize, rxOffs := |bytes|, 0;
      assert rxTransfer[0..|bytes|] == bytes;
    }

    /** Bus reset. */
    method ResetEndian()
      requires RxOk() && ResetOk(RxAbs())
      modifies this`endian
      ensures RxOk() && RxAbs() == RxNext(old(RxAbs()), Reset)
    {
      endian := Unknown;
    }

    /** One pass of the splitting loop of USBEEM_RxTask: parse the next header, or deliver what it announced. */
    method RxStep()
      requires RxOk()
      modifies this`endian, this`rxHead, this`rxOffs, this`rxHold, rx
      ensures RxOk() && RxAbs() == RxNext(old(RxAbs()), Step)
    {
      RxStepKeepsFrames(RxAbs());
      if rxHold.Some? {
        RxDeliver(rxHold.value);
      } else if rxOffs < rxSize {
        RxParse();
      }
    }

    method RxDeliver(len: nat)
      requires RxOk() && rxHold == Some(len)
      modifies this`rxHead, this`rxOffs, this`rxHold, rx
      ensures RxOk() && RxAbs() == RxNext(old(RxAbs()), Step)
    {
      hide FrameAt, FrameOf, Overwrite, WellFormed, Fields, Detect, Wrap32, RxView, RxInv, Slots;
      RxViewParts(endian, Contents(rx[..], rxHead, rxTail), rxSize, rxTransfer[..], rxOffs, len);
      if Wrap32(rxHead - rxTail) == CAPACITY {
        return;
      }
      var i := rxHead % CAPACITY;
      SlotShape(rx[..], i);
      var copySize := Min(MAX_FRAME, len - 4);
      var b := Buf(copySize, Overwrite(rx[i].pld, 0, rxTransfer[rxOffs + 2..rxOffs + 2 + copySize]));
      DeliverView(endian, rx[..], rxHead, rxTail, rxSize, rxTransfer[..], rxOffs, len, b);
      ghost var slots := rx[..];
      rx[i] := b;
      assert rx[..] == slots[i := b];
      rxHead, rxHold := Wrap32(rxHead + 1), None;
      rxOffs := rxOffs + len + 2;
    }

    method RxParse()
      requires RxOk() && rxHold.None? && rxOffs < rxSize
      modifies this`endian, this`rxOffs, this`rxHold
      ensures RxOk() && RxAbs() == RxNext(old(RxAbs()), Step)
    {
      hide Contents, FrameAt, Fields, Detect, RxView, RxInv, RxNext, Slots, Count, Wrap32;
      ParseView(endian, Contents(rx[..], rxHead, rxTail), rxSize, rxTransfer[..], rxOffs);
      var lo: int, hi: int := rxTransfer[rxOffs], rxTransfer[rxOffs + 1];
      var h := DetectOrder(lo + 0x100 * hi);
      if !h.isData {
        rxOffs := rxOffs + h.len + 2;
      } else if h.len < 4 {
        rxOffs := rxSize;
      } else {
        rxHold := Some(h.len);
      }
    }

    /** The byte-order detection of the receive task. */
    method DetectOrder(raw: u16) returns (h: Hdr)
      modifies this`endian
      ensures h == Fields(old(endian), raw, rxSize) && endian == Detect(old(endian), raw, rxSize)
    {
      if endian != Unknown {
        return ExtractHdrFields(endian, raw);
      }
      h := ExtractHdrFields(BE, raw);
      if raw == 0 && rxSize == 2 {
        return;
      }
      if rxSize == h.len + 2 {
        endian := BE;
        return;
      }
      h := ExtractHdrFields(LE, raw);
      if rxSize == h.len + 2 {
        endian := LE;
      }
    }

    /** One pass of USBEEM_Recv. */
    method Recv(dst: array<byte>, size: nat, env: Env) returns (r: Poll)
      requires RxOk() && size <= dst.Length && dst != rxTransfer
      modifies this`rxTail, dst
      ensures RxOk() && RxAbs() == RxNext(old(RxAbs()), Take)
      ensures old(RxAbs()).ring == [] ==> r == WaitResult(env) && dst[..] == old(dst[..])
      ensures old(RxAbs()).ring != [] ==>
                var frame := old(RxAbs()).ring[0];
                var n := Min(size, |frame|);
                r == Done(n) && dst[..] == Overwrite(old(dst[..]), 0, frame[..n])
    {
      hide Contents, FrameAt, Overwrite, WellFormed, Fields, Detect, Wrap32;
      if Wrap32(rxHead - rxTail) == 0 {
        return WaitResult(env);
      }
      SlotAt(rx[..], rxHead, rxTail, rxTail);
      var b := rx[rxTail % CAPACITY];
      var n := Min(size, b.size);
      assert b.pld[..n] == FrameOf(b)[..n];
      Memcpy(dst, 0, b.pld[..n]);
      PopSlots(rx[..], rxHead, rxTail, Wrap32(rxTail + 1));
      rxTail := Wrap32(rxTail + 1);
      r := Done(n);
    }
  }
}
