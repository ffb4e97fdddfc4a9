/** The FIFO side of the USB endpoint engine: packets as little-endian 32-bit words. */
module UsbFifo {
  import opened Bytes

  type word = u32

  function Word(b0: byte, b1: byte, b2: byte, b3: byte): word {
    b0 + 0x100 * b1 + 0x1_0000 * b2 + 0x100_0000 * b3
  }

  /** Full words needed for `n` bytes. */
  function WordCount(n: nat): (k: nat)
    ensures n <= 4 * k < n + 4
  {
    if n == 0 then 0 else if n <= 4 then 1 else 1 + WordCount(n - 4)
  }

  /** Little-endian packing; the last word is padded with zeros. */
  function Words(bs: seq<byte>): (ws: seq<word>)
    ensures |ws| == WordCount(|bs|)
  {
    match |bs|
    case 0 => []
    case 1 => [Word(bs[0], 0, 0, 0)]
    case 2 => [Word(bs[0], bs[1], 0, 0)]
    case 3 => [Word(bs[0], bs[1], bs[2], 0)]
    case _ => [Word(bs[0], bs[1], bs[2], bs[3])] + Words(bs[4..])
  }

  function ByteOf(w: word, k: nat): byte
    requires k < 4
  {
    if k == 0 then w % 0x100
    else if k == 1 then w / 0x100 % 0x100
    else if k == 2 then w / 0x1_0000 % 0x100
    else w / 0x100_0000
  }

  /** The first `n` bytes held by a run of words. */
  function Unwords(ws: seq<word>, n: nat): (bs: seq<byte>)
    requires WordCount(n) <= |ws|
    ensures |bs| == n
  {
    seq(n, i requires 0 <= i < n => ByteOf(ws[i / 4], i % 4))
  }

  lemma WordBytes(b0: byte, b1: byte, b2: byte, b3: byte)
    ensures var w := Word(b0, b1, b2, b3);
            ByteOf(w, 0) == b0 && ByteOf(w, 1) == b1 && ByteOf(w, 2) == b2 && ByteOf(w, 3) == b3
  {
    var w := Word(b0, b1, b2, b3);
    assert w / 0x100 == b1 + 0x100 * b2 + 0x1_0000 * b3;
    assert w / 0x1_0000 == b2 + 0x100 * b3;
  }

  /** The byte at position i of the data sits in lane i % 4 of word i / 4. */
  lemma {:induction false} WordsLane(bs: seq<byte>, i: nat)
    requires i < |bs|
    ensures ByteOf(Words(bs)[i / 4], i % 4) == bs[i]
  {
    if |bs| < 4 {
      WordBytes(bs[0], if |bs| > 1 then bs[1] else 0, if |bs| > 2 then bs[2] else 0, 0);
    } else if i < 4 {
      WordBytes(bs[0], bs[1], bs[2], bs[3]);
    } else {
      WordsLane(bs[4..], i - 4);
      assert i / 4 == (i - 4) / 4 + 1;
    }
  }

  /** Reading the words of a packet gives the packet back, whatever follows it in the FIFO. */
  lemma ReadInvertsWrite(bs: seq<byte>, more: seq<word>)
    ensures Unwords(Words(bs) + more, |bs|) == bs
  {
    forall i | 0 <= i < |bs|
      ensures Unwords(Words(bs) + more, |bs|)[i] == bs[i]
    {
      WordsLane(bs, i);
    }
  }

  /** Chunks cut at word boundaries pack independently. */
  lemma {:induction false} WordsAppend(a: seq<byte>, b: seq<byte>)
    requires |a| % 4 == 0
    ensures Words(a + b) == Words(a) + Words(b)
  {
    if a == [] {
      assert a + b == b;
    } else {
      assert (a + b)[4..] == a[4..] + b;
      WordsAppend(a[4..], b);
    }
  }

  /** The first byte is the least significant of its word. */
  lemma WordsExample()
    ensures Words([1, 2, 3, 4, 5]) == [0x0403_0201, 5]
  {
    assert [1, 2, 3, 4, 5][4..] == [5];
  }

  // ---- the FIFO accesses ----

  class Fifo {
    var words: seq<word>

    constructor ()
      ensures words == []
    {
      words := [];
    }

    method Push(w: word)
      modifies this
      ensures words == old(words) + [w]
    {
      words := words + [w];
    }

    method Pop() returns (w: word)
      requires words != []
      modifies this
      ensures w == old(words)[0] && words == old(words)[1..]
    {
      w, words := words[0], words[1..];
    }
  }

  /** A full word is pushed. */
  lemma PushedWord(pushed: seq<word>, data: seq<byte>, p: nat, end: nat)
    requires p + 4 <= end <= |data|
    ensures pushed + [Word(data[p], data[p + 1], data[p + 2], data[p + 3])] + Words(data[p + 4..end]) ==
            pushed + Words(data[p..end])
  {
    var bs := data[p..end];
    hide Word, WordCount;
    assert bs[4..] == data[p + 4..end];
    assert Words(bs) == [Word(bs[0], bs[1], bs[2], bs[3])] + Words(bs[4..]);
    hide Words;
    Associative(pushed, [Word(bs[0], bs[1], bs[2], bs[3])], Words(bs[4..]));
  }

  /** The last word, of fewer than four bytes. */
  lemma LastWord(data: seq<byte>, p: nat, end: nat)
    requires p <= end <= |data| && end - p < 4
    ensures Words(data[p..end]) ==
            if p == end then []
            else [Word(data[p], if end - p >= 2 then data[p + 1] else 0, if end - p >= 3 then data[p + 2] else 0, 0)]
  {
    hide Word;
  }

  /** USB_WritePacket: as much of `data` as the reported space allows, in whole words. */
  method WritePacket(fifo: Fifo, space: nat, data: seq<byte>) returns (size: nat)
    modifies fifo
    ensures size == Min(4 * space, |data|)
    ensures fifo.words == old(fifo.words) + Words(data[..size])
    ensures |fifo.words| - |old(fifo.words)| <= space
  {
    hide WordCount, Words, Word;
    size := Min(space * 4, |data|);
    var sz, p := size, 0;
    assert data[p..size] == data[..size];
    while sz >= 4
      invariant p + sz == size
      invariant fifo.words + Words(data[p..size]) == old(fifo.words) + Words(data[..size])
    {
      PushedWord(fifo.words, data, p, size);
      fifo.Push(Word(data[p], data[p + 1], data[p + 2], data[p + 3]));
      sz, p := sz - 4, p + 4;
    }
    LastWord(data, p, size);
    if sz != 0 {
      var b1 := if sz >= 2 then data[p + 1] else 0;
      var b2 := if sz >= 3 then data[p + 2] else 0;
      fifo.Push(Word(data[p], b1, b2, 0));
    }
  }

  /** USB_ReadPacket: whole words first, then the last one to three bytes out of one more word. */
  method ReadPacket(fifo: Fifo, dst: array<byte>, at: nat, size: nat)
    requires at + size <= dst.Length
    requires WordCount(size) <= |fifo.words|
    modifies fifo, dst
    ensures fifo.words == old(fifo.words)[WordCount(size)..]
    ensures dst[..] == Overwrite(old(dst[..]), at, Unwords(old(fifo.words), size))
  {
    hide WordCount, Unwords, Overwrite, ByteOf;
    ghost var ws, mem := fifo.words, dst[..];
    var left, p := size, 0;
    ghost var k := 0;
    OverwriteNothing(mem, at, ws);
    while left >= 4
      invariant p + left == size && p == 4 * k && k <= |ws|
      invariant fifo.words == ws[k..]
      invariant WordCount(p) == k && dst[..] == Overwrite(mem, at, Unwords(ws, p))
    {
      assert k < WordCount(size);
      var temp := fifo.Pop();
      ghost var before := dst[..];
      dst[at + p], dst[at + p + 1] := ByteOf(temp, 0), ByteOf(temp, 1);
      dst[at + p + 2], dst[at + p + 3] := ByteOf(temp, 2), ByteOf(temp, 3);
      StoreLanes(mem, at, ws, k, 4, before, dst[..]);
      left, p, k := left - 4, p + 4, k + 1;
    }
    if left != 0 {
      assert k < WordCount(size);
      var temp := fifo.Pop();
      ghost var before := dst[..];
      ReadTail(dst, at + p, temp, left);
      StoreLanes(mem, at, ws, k, left, before, dst[..]);
    }
  }

  lemma OverwriteNothing(mem: seq<byte>, at: nat, ws: seq<word>)
    requires at <= |mem|
    ensures WordCount(0) == 0 && Overwrite(mem, at, Unwords(ws, 0)) == mem
  {
  }

  /** Storing the lanes of word k extends the bytes read so far by n. */
  lemma StoreLanes(mem: seq<byte>, at: nat, ws: seq<word>, k: nat, n: nat, before: seq<byte>, after: seq<byte>)
    requires 1 <= n <= 4 && at + 4 * k + n <= |mem| && k < |ws| && WordCount(4 * k) == k
    requires before == Overwrite(mem, at, Unwords(ws, 4 * k)) && |after| == |mem|
    requires forall i :: 0 <= i < |mem| ==>
      after[i] == if at + 4 * k <= i < at + 4 * k + n then ByteOf(ws[k], i - (at + 4 * k)) else before[i]
    ensures WordCount(4 * k + n) == k + 1
    ensures after == Overwrite(mem, at, Unwords(ws, 4 * k + n))
  {
    WordCountOf(k, n, 4 * k + n);
    hide WordCount, ByteOf;
    var all := Unwords(ws, 4 * k + n);
    forall i | 0 <= i < 4 * k + n
      ensures all[i] == if i < 4 * k then Unwords(ws, 4 * k)[i] else ByteOf(ws[k], i - 4 * k)
    {
      if i >= 4 * k {
        LaneOf(i, k);
      }
    }
  }

  lemma LaneOf(i: nat, k: nat)
    requires 4 * k <= i < 4 * k + 4
    ensures i / 4 == k && i % 4 == i - 4 * k
  {
  }

  /** The fall-through switch: the low byte is stored and shifted out, up to three times. */
  method ReadTail(dst: array<byte>, at: nat, word0: word, left: nat)
    requires 1 <= left < 4 && at + left <= dst.Length
    modifies dst
    ensures forall i :: 0 <= i < dst.Length ==>
      dst[i] == if at <= i < at + left then ByteOf(word0, i - at) else old(dst[i])
  {
    var temp, p := word0, at;
    if left >= 3 {
      dst[p], p, temp := temp % 0x100, p + 1, temp / 0x100;
    }
    if left >= 2 {
      dst[p], p, temp := temp % 0x100, p + 1, temp / 0x100;
    }
    dst[p] := temp % 0x100;
  }

  /** USB_DumpPacket. */
  method DumpPacket(fifo: Fifo, size: nat)
    requires WordCount(size) <= |fifo.words|
    modifies fifo
    ensures fifo.words == old(fifo.words)[WordCount(size)..]
  {
    hide WordCount;
    var left: int := (size + 3) / 4 * 4;
    ghost var words := WordCount(size);
    while left != 0
      invariant left == 4 * words && 0 <= words <= WordCount(size)
      invariant words <= |fifo.words|
      invariant fifo.words == old(fifo.words)[WordCount(size) - words..]
      decreases left
    {
      var w := fifo.Pop();
      left, words := left - 4, words - 1;
    }
  }

  // ---- feeding an IN transfer ----

  /** Bytes handed over and words pushed so far. */
  datatype Feed = Feed(offs: nat, words: seq<word>)

  /** One FIFO-empty interrupt that finds room for `space` words. */
  function FeedNext(data: seq<byte>, s: Feed, space: nat): Feed
    requires s.offs <= |data|
  {
    var n := Min(4 * space, |data| - s.offs);
    Feed(s.offs + n, s.words + Words(data[s.offs..s.offs + n]))
  }

  ghost predicate Fed(data: seq<byte>, s: Feed) {
    && s.offs <= |data|
    && (s.offs % 4 == 0 || s.offs == |data|)
    && s.words == Words(data[..s.offs])
  }

  lemma FeedStaysAligned(offs: nat, size: nat, space: nat)
    requires offs <= size && (offs % 4 == 0 || offs == size)
    ensures var next := offs + Min(4 * space, size - offs); next % 4 == 0 || next == size
    ensures WordCount(Min(4 * space, size - offs)) <= space
  {
    hide WordCount;
    MultipleOfFour(offs, space);
    WordCountFits(Min(4 * space, size - offs), space);
  }

  lemma MultipleOfFour(offs: nat, space: nat)
    ensures (offs + 4 * space) % 4 == offs % 4
  {
  }

  lemma WordCountFits(n: nat, space: nat)
    requires n <= 4 * space
    ensures WordCount(n) <= space
  {
    hide WordCount;
    assert 4 * WordCount(n) < n + 4;
  }

  lemma FeedKeeps(data: seq<byte>, s: Feed, space: nat)
    requires Fed(data, s)
    ensures Fed(data, FeedNext(data, s, space))
    ensures |FeedNext(data, s, space).words| - |s.words| <= space
  {
    var s' := FeedNext(data, s, space);
    var n := s'.offs - s.offs;
    assert data[..s'.offs] == data[..s.offs] + data[s.offs..s'.offs];
    FeedStaysAligned(s.offs, |data|, space);
    assert WordCount(n) <= space by {
      hide *;
    }
    hide WordCount;
    if s.offs % 4 == 0 {
      WordsAppend(data[..s.offs], data[s.offs..s'.offs]);
    } else {
      assert data[s.offs..s'.offs] == [];
      assert Words([]) == [];
      assert s'.words == s.words + [];
    }
    hide *;
  }

  ghost function FeedRun(data: seq<byte>, spaces: seq<nat>): (s: Feed)
    ensures Fed(data, s)
  {
    if spaces == [] then Feed(0, [])
    else
      var s := FeedRun(data, spaces[..|spaces| - 1]);
      FeedKeeps(data, s, spaces[|spaces| - 1]);
      FeedNext(data, s, spaces[|spaces| - 1])
  }

  lemma {:induction false} FeedOffset(data: seq<byte>, spaces: seq<nat>)
    ensures FeedRun(data, spaces).offs == Min(|data|, 4 * Sum(spaces))
  {
    hide Words, WordCount, Fed;
    if spaces != [] {
      SumLast(spaces);
      hide Sum;
      FeedOffset(data, spaces[..|spaces| - 1]);
    }
  }

  /** Whatever room each interrupt finds, the words pushed are the packing of exactly as many bytes as
      the room seen so far allows; once it allows them all, the reader gets the buffer back. */
  lemma FeedIsExact(data: seq<byte>, spaces: seq<nat>)
    ensures FeedRun(data, spaces) == Feed(Min(|data|, 4 * Sum(spaces)), Words(data[..Min(|data|, 4 * Sum(spaces))]))
    ensures 4 * Sum(spaces) >= |data| ==> Unwords(FeedRun(data, spaces).words, |data|) == data
  {
    var s := FeedRun(data, spaces);
    FeedOffset(data, spaces);
    assert Fed(data, s);
    hide Words, WordCount, Sum, FeedRun, Unwords;
    if 4 * Sum(spaces) >= |data| {
      assert data[..|data|] == data && Words(data) + [] == Words(data);
      ReadInvertsWrite(data, []);
    }
  }

  lemma FedBound(data: seq<byte>, s: Feed)
    requires Fed(data, s)
    ensures s.offs <= |data|
  {
  }

  lemma SubTake(data: seq<byte>, offs: nat, n: nat)
    requires offs + n <= |data|
    ensures data[offs..][..n] == data[offs..offs + n]
  {
  }

  /** The part of an IN endpoint record that the FIFO-empty interrupt works on. */
  class InFeed {
    var data: seq<byte>
    var offs: nat
    var masked: bool
    const fifo: Fifo

    ghost predicate Valid()
      reads this, fifo
    {
      offs <= |data| && Fed(data, Feed(offs, fifo.words)) && (masked ==> offs == |data|)
    }

    constructor (data: seq<byte>)
      ensures Valid() && this.data == data && offs == 0 && fresh(fifo) && fifo.words == []
    {
      this.data, offs, masked := data, 0, data == [];
      fifo := new Fifo();
    }

    /** The FIFO-empty branch of USB_HandleInEpIsr. */
    method OnFifoEmpty(space: nat)
      requires Valid() && !masked
      modifies this`offs, this`masked, fifo
      ensures Valid()
      ensures Feed(offs, fifo.words) == FeedNext(data, old(Feed(offs, fifo.words)), space)
      ensures masked == (offs == |data|)
    {
      hide Words, WordCount, Fed;
      ghost var before := Feed(offs, fifo.words);
      FeedKeeps(data, before, space);
      FedBound(data, FeedNext(data, before, space));
      var n := WritePacket(fifo, space, data[offs..]);
      SubTake(data, offs, n);
      offs := offs + n;
      assert Feed(offs, fifo.words) == FeedNext(data, before, space);
      if |data| <= offs {
        offs, masked := |data|, true;
      }
    }
  }

  // ---- draining OUT packets ----

  /** How much of a packet of `len` bytes the endpoint stores. */
  function Accepted(busy: bool, size: nat, offs: nat, len: nat): nat {
    var room := if busy && offs < size then size - offs else 0;
    Min(room, len)
  }

  /** Words taken from the FIFO for that packet: the stored part and the dumped rest are read separately. */
  function WordsPopped(stored: nat, len: nat): nat
    requires stored <= len
  {
    WordCount(stored) + WordCount(len - stored)
  }

  /** The cut falls on a word boundary, on either side, or the two remainders need two words anyway. */
  predicate Kindly(stored: nat, len: nat)
    requires stored <= len
  {
    stored % 4 == 0 || (len - stored) % 4 == 0 || stored % 4 + (len - stored) % 4 > 4
  }

  /** The FIFO stays in step with the packets if and only if the cut falls kindly; otherwise one word too
      many is taken. */
  lemma InStepExactly(stored: nat, len: nat)
    requires stored <= len
    ensures WordsPopped(stored, len) == WordCount(len) + (if Kindly(stored, len) then 0 else 1)
  {
    hide WordCount;
    var a, b := stored % 4, (len - stored) % 4;
    var x, y := stored / 4, (len - stored) / 4;
    WordCountOf(x, a, stored);
    WordCountOf(y, b, len - stored);
    WordCountOf(x + y, a + b, len);
  }

  lemma WordCountOf(q: nat, r: nat, n: nat)
    requires n == 4 * q + r && r <= 6
    ensures WordCount(n) == if r == 0 then q else if r <= 4 then q + 1 else q + 2
  {
    hide WordCount;
    assert n <= 4 * WordCount(n) < n + 4;
  }

  /** A two-byte packet into a one-byte buffer costs two words instead of one. */
  lemma OutOfStep()
    ensures WordsPopped(Accepted(true, 1, 0, 2), 2) == 2
    ensures WordCount(2) == 1
  {
  }

  /** Bytes stored so far and words still in the receive FIFO. */
  datatype Drain = Drain(buf: seq<byte>, fifo: seq<word>)

  predicate CanDrain(busy: bool, size: nat, s: Drain, len: nat) {
    WordsPopped(Accepted(busy, size, |s.buf|, len), len) <= |s.fifo|
  }

  /** One receive-FIFO event for a packet of `len` bytes. */
  function DrainNext(busy: bool, size: nat, s: Drain, len: nat): (s': Drain)
    requires CanDrain(busy, size, s, len)
    ensures |s.buf| <= size ==> |s'.buf| <= size
  {
    var m := Accepted(busy, size, |s.buf|, len);
    Drain(s.buf + Unwords(s.fifo, m), s.fifo[WordsPopped(m, len)..])
  }

  /** What the core leaves in the FIFO for a run of packets. */
  function FifoImage(packets: seq<seq<byte>>): seq<word> {
    if packets == [] then [] else Words(packets[0]) + FifoImage(packets[1..])
  }

  function Clip(bs: seq<byte>, size: nat): seq<byte> {
    bs[..Min(|bs|, size)]
  }

  /** One packet: the buffer becomes a clipped prefix, and the FIFO ends at the next packet or one word past it. */
  lemma DrainOne(size: nat, s: Drain, packet: seq<byte>, left: seq<word>)
    requires |s.buf| <= size && s.fifo == Words(packet) + left
    ensures var m := Accepted(true, size, |s.buf|, |packet|);
            && m <= |packet|
            && var lost := if Kindly(m, |packet|) then 0 else 1;
               && (CanDrain(true, size, s, |packet|) <==> lost <= |left|)
               && (lost <= |left| ==>
                     DrainNext(true, size, s, |packet|) == Drain(Clip(s.buf + packet, size), left[lost..]))
  {
    hide WordCount, Words, Unwords, WordsPopped, Accepted, Clip, Kindly;
    var n := |packet|;
    var m := Accepted(true, size, |s.buf|, n);
    ClipAppend(s.buf, packet, size);
    InStepExactly(m, n);
    WordCountMonotone(m, n);
    FrontOfFifo(packet, left, m);
    if !Kindly(m, n) && left != [] {
      DropTwice(s.fifo, WordCount(n), 1);
    }
  }

  /** A packet that finds the buffer full is dumped whole. */
  lemma DumpOne(size: nat, s: Drain, n: nat)
    requires |s.buf| == size
    ensures CanDrain(true, size, s, n) <==> WordCount(n) <= |s.fifo|
    ensures WordCount(n) <= |s.fifo| ==> DrainNext(true, size, s, n) == Drain(s.buf, s.fifo[WordCount(n)..])
  {
    assert WordCount(0) == 0;
    hide WordCount, ByteOf;
    assert Accepted(true, size, size, n) == 0;
    assert Unwords(s.fifo, 0) == [] && s.buf + [] == s.buf;
  }

  lemma FrontOfFifo(packet: seq<byte>, more: seq<word>, m: nat)
    requires m <= |packet| && WordCount(m) <= WordCount(|packet|)
    ensures (Words(packet) + more)[WordCount(|packet|)..] == more
    ensures Unwords(Words(packet) + more, m) == packet[..m]
  {
    hide WordCount, Words;
    ReadInvertsWrite(packet, more);
    UnwordsPrefix(Words(packet) + more, m, |packet|);
  }

  lemma ClipAppend(buf: seq<byte>, packet: seq<byte>, size: nat)
    requires |buf| <= size
    ensures var m := Accepted(true, size, |buf|, |packet|);
            m <= |packet| && buf + packet[..m] == Clip(buf + packet, size)
  {
  }

  lemma UnwordsPrefix(ws: seq<word>, m: nat, n: nat)
    requires m <= n && WordCount(m) <= WordCount(n) <= |ws|
    ensures Unwords(ws, m) == Unwords(ws, n)[..m]
  {
    hide WordCount, ByteOf;
  }

  lemma WordCountMonotone(m: nat, n: nat)
    requires m <= n
    ensures WordCount(m) <= WordCount(n)
  {
    hide WordCount;
    assert 4 * WordCount(m) < m + 4 && n <= 4 * WordCount(n);
  }

  /** Handle the packets one after the other; None if the FIFO would run dry. */
  function DrainRun(size: nat, s: Drain, packets: seq<seq<byte>>): Option<Drain>
    decreases |packets|
  {
    if packets == [] then Some(s)
    else if !CanDrain(true, size, s, |packets[0]|) then None
    else DrainRun(size, DrainNext(true, size, s, |packets[0]|), packets[1..])
  }

  /** With `offs` bytes stored, the one packet that does not fit the buffer, if there is one, is cut kindly. */
  predicate InStep(size: nat, offs: nat, packets: seq<seq<byte>>)
    requires offs <= size
    decreases |packets|
  {
    packets == [] ||
    (if offs + |packets[0]| <= size then InStep(size, offs + |packets[0]|, packets[1..])
     else Kindly(size - offs, |packets[0]|))
  }

  /** Once the buffer is full the rest is dumped, and a word lost before stays lost. */
  lemma {:induction false} DumpAll(size: nat, s: Drain, packets: seq<seq<byte>>, more: seq<word>, lost: nat)
    requires |s.buf| == size && lost <= 1 && lost <= |FifoImage(packets) + more|
    requires s.fifo == (FifoImage(packets) + more)[lost..]
    ensures DrainRun(size, s, packets) == if lost <= |more| then Some(Drain(s.buf, more[lost..])) else None
    decreases |packets|
  {
    hide WordCount, WordsPopped, Accepted, Words, DrainNext, CanDrain, Unwords;
    if packets == [] {
      assert FifoImage(packets) + more == more;
    } else {
      var p, rest := packets[0], packets[1..];
      var left := FifoImage(rest) + more;
      assert FifoImage(packets) + more == Words(p) + left;
      DumpOne(size, s, |p|);
      if lost <= |left| {
        assert s.fifo[|Words(p)|..] == left[lost..];
        DumpAll(size, Drain(s.buf, left[lost..]), rest, more, lost);
      }
    }
  }

  /** Over any run of OUT packets and any buffer: the buffer holds the first bytes of their concatenation, as
      many as fit. The FIFO is left where the next packet starts if and only if the run is in step; otherwise one
      word of what follows is lost, and the FIFO runs dry when nothing follows. */
  lemma {:induction false} DrainIsExact(size: nat, s: Drain, packets: seq<seq<byte>>, more: seq<word>)
    requires |s.buf| <= size && s.fifo == FifoImage(packets) + more
    ensures var lost := if InStep(size, |s.buf|, packets) then 0 else 1;
            DrainRun(size, s, packets) ==
            if lost <= |more| then Some(Drain(Clip(s.buf + Flatten(packets), size), more[lost..])) else None
    decreases |packets|
  {
    hide WordCount, WordsPopped, Words, DrainNext, CanDrain, Unwords, Kindly;
    if packets == [] {
      assert s.fifo == more && Clip(s.buf + [], size) == s.buf;
    } else {
      var p, rest := packets[0], packets[1..];
      var left := FifoImage(rest) + more;
      assert s.fifo == Words(p) + left;
      assert s.buf + p + Flatten(rest) == s.buf + Flatten(packets);
      if |s.buf| + |p| <= size {
        FitsWhole(size, s, p, left);
        DrainIsExact(size, Drain(s.buf + p, left), rest, more);
      } else {
        var lost := if Kindly(size - |s.buf|, |p|) then 0 else 1;
        var full := Clip(s.buf + p, size);
        DrainOne(size, s, p, left);
        ClipFull(s.buf + p, Flatten(rest), size);
        if lost <= |left| {
          DumpAll(size, Drain(full, left[lost..]), rest, more, lost);
        }
      }
    }
  }

  lemma FitsWhole(size: nat, s: Drain, packet: seq<byte>, left: seq<word>)
    requires |s.buf| + |packet| <= size && s.fifo == Words(packet) + left
    ensures CanDrain(true, size, s, |packet|)
    ensures DrainNext(true, size, s, |packet|) == Drain(s.buf + packet, left)
  {
    DrainOne(size, s, packet, left);
    hide WordCount, Words, Unwords, WordsPopped, DrainNext, CanDrain;
    assert Clip(s.buf + packet, size) == s.buf + packet && left[0..] == left;
  }

  /** Packets that all fit never put the FIFO out of step. */
  lemma {:induction false} FittingRunInStep(size: nat, offs: nat, packets: seq<seq<byte>>)
    requires offs + |Flatten(packets)| <= size
    ensures InStep(size, offs, packets)
    decreases |packets|
  {
    if packets != [] {
      FittingRunInStep(size, offs + |packets[0]|, packets[1..]);
    }
  }

  predicate AlignedButLast(packets: seq<seq<byte>>) {
    forall i :: 0 <= i < |packets| - 1 ==> |packets[i]| % 4 == 0
  }

  /** Neither do packets of whole words, all but the last, into a buffer of whole words. */
  lemma {:induction false} AlignedRunInStep(size: nat, offs: nat, packets: seq<seq<byte>>)
    requires offs <= size && size % 4 == 0 && offs % 4 == 0 && AlignedButLast(packets)
    ensures InStep(size, offs, packets)
    decreases |packets|
  {
    if packets != [] {
      AlignedDifference(size, offs, |packets[0]|);
      if offs + |packets[0]| <= size && |packets| > 1 {
        var rest := packets[1..];
        assert |packets[0]| % 4 == 0;
        forall i | 0 <= i < |rest| - 1
          ensures |rest[i]| % 4 == 0
        {
          assert rest[i] == packets[i + 1];
        }
        AlignedRunInStep(size, offs + |packets[0]|, rest);
      }
    }
  }

  lemma AlignedDifference(size: nat, offs: nat, n: nat)
    requires offs <= size && size % 4 == 0 && offs % 4 == 0
    ensures (size - offs) % 4 == 0
    ensures n % 4 == 0 ==> (offs + n) % 4 == 0
  {
  }

  lemma DropTwice<T>(s: seq<T>, a: nat, b: nat)
    requires a + b <= |s|
    ensures s[a..][b..] == s[a + b..]
  {
  }

  lemma ClipFull(a: seq<byte>, b: seq<byte>, size: nat)
    requires |a| >= size
    ensures Clip(a + b, size) == Clip(a, size)
  {
  }

  /** What one event does, in the two parts the program computes. */
  lemma DrainParts(busy: bool, size: nat, s: Drain, len: nat, n: nat, leftover: nat)
    requires CanDrain(busy, size, s, len)
    requires n == Min(if busy && |s.buf| < size then size - |s.buf| else 0, len) && leftover == len - n
    ensures |s.buf| <= size ==> |s.buf| + n <= size
    ensures WordCount(n) + WordCount(leftover) <= |s.fifo|
    ensures DrainNext(busy, size, s, len) ==
            Drain(s.buf + Unwords(s.fifo, n), s.fifo[WordCount(n) + WordCount(leftover)..])
  {
    hide WordCount, Unwords, Words;
  }

  /** The part of an OUT endpoint record that the receive-FIFO interrupt works on. */
  class OutDrain {
    const dst: array<byte>
    const fifo: Fifo
    var busy: bool
    var offs: nat

    ghost predicate Valid()
      reads this, dst, fifo
    {
      offs <= dst.Length
    }

    ghost function Abs(): Drain
      requires Valid()
      reads this, dst, fifo
    {
      Drain(dst[..offs], fifo.words)
    }

    constructor (size: nat)
      ensures Valid() && busy && offs == 0 && dst.Length == size && fresh(dst) && fresh(fifo)
    {
      dst := new byte[size](_ => 0);
      fifo := new Fifo();
      busy, offs := true, 0;
    }

    /** The data branch of USB_HandleRxlvlIsr. */
    method OnPacket(len: nat)
      requires Valid() && CanDrain(busy, dst.Length, Abs(), len)
      modifies this`offs, dst, fifo
      ensures Valid() && Abs() == DrainNext(busy, dst.Length, old(Abs()), len)
      ensures dst[offs..] == old(dst[..])[offs..]
    {
      hide WordCount, Unwords, Words, Accepted, WordsPopped, DrainNext, CanDrain;
      ghost var s := Abs();
      var maxLen, leftover := 0, 0;
      if busy && offs < dst.Length {
        maxLen := dst.Length - offs;
      }
      if maxLen < len {
        leftover := len - maxLen;
      }
      var n := Min(maxLen, len);
      DrainParts(busy, dst.Length, s, len, n, leftover);
      Consume(n, leftover);
      offs := offs + n;
    }

    /** Store the first part of the packet, dump the rest. */
    method Consume(n: nat, leftover: nat)
      requires offs + n <= dst.Length && WordCount(n) + WordCount(leftover) <= |fifo.words|
      modifies dst, fifo
      ensures fifo.words == old(fifo.words)[WordCount(n) + WordCount(leftover)..]
      ensures dst[..offs + n] == old(dst[..offs]) + Unwords(old(fifo.words), n)
      ensures dst[offs + n..] == old(dst[offs + n..])
    {
      ghost var ws := fifo.words;
      OverwriteParts(dst[..], offs, Unwords(ws, n));
      hide *;
      ReadPacket(fifo, dst, offs, n);
      DropTwice(ws, WordCount(n), WordCount(leftover));
      if leftover != 0 {
        DumpPacket(fifo, leftover);
      } else {
        assert WordCount(0) == 0;
      }
    }
  }
}
