/** The USART receiver: a task empties a ring of 512 bytes that the DMA fills behind its back. */
module Usart {
  import opened Bytes

  const ETIMEOUT: int := -5
  const RING: nat := 512

  // ---- the indices ----

  /** Bytes waiting, as computed from the two ring indices in 32-bit arithmetic. */
  function Waiting(head: u32, tail: u32): (n: nat)
    ensures n < RING
  {
    Wrap32(head - tail) % RING
  }

  lemma ModRing(w: nat, r: nat)
    requires r <= w
    ensures Wrap32(w % 512 - r % 512) % 512 == (w - r) % 512
  {
    var a, b := w % 512, r % 512;
    var q := w / 512 - r / 512;
    assert w - r == 512 * q + (a - b);
    if a >= b {
      assert Wrap32(a - b) == a - b;
      ModUnique(w - r, q, a - b);
    } else {
      assert Wrap32(a - b) == a - b + W32;
      ModUnique(w - r, q - 1, a - b + 512);
      ModUnique(a - b + W32, 0x7f_ffff, a - b + 512);
    }
  }

  lemma ModUnique(x: int, q: int, r: int)
    requires x == 512 * q + r && 0 <= r < 512
    ensures x % 512 == r
  {
  }

  /** With w bytes written and r read, the computed number is the true one if and only if the writer is less
      than one ring ahead. */
  lemma WaitingExact(w: nat, r: nat)
    requires r <= w
    ensures Waiting(w % RING, r % RING) == w - r <==> w - r < RING
  {
    ModRing(w, r);
    if w - r < 512 {
      ModUnique(w - r, 0, w - r);
    }
  }

  /** A writer a whole number of rings ahead looks like no data at all. */
  lemma LooksEmptyExact(w: nat, r: nat)
    requires r <= w
    ensures w % RING == r % RING <==> (w - r) % RING == 0
  {
    var q := w / 512 - r / 512;
    assert w - r == 512 * q + (w % 512 - r % 512);
    if w % 512 >= r % 512 {
      ModUnique(w - r, q, w % 512 - r % 512);
    } else {
      ModUnique(w - r, q - 1, w % 512 - r % 512 + 512);
    }
  }

  // ---- the ring as hardware and driver see it ----

  /** The ring, the DMA transfer counter (counts down, reloads with the ring size) and the two indices. */
  datatype Ring = Ring(circ: seq<byte>, ndtr: u32, head: u32, tail: u32)

  predicate RingOk(h: Ring) {
    |h.circ| == RING && 1 <= h.ndtr <= RING && h.tail < RING
  }

  /** The DMA stores one received byte. */
  function Stored(h: Ring, b: byte): (h': Ring)
    requires RingOk(h)
    ensures RingOk(h')
  {
    h.(circ := h.circ[RING - h.ndtr := b], ndtr := if h.ndtr == 1 then RING else h.ndtr - 1)
  }

  function StoredAll(h: Ring, bs: seq<byte>): (h': Ring)
    requires RingOk(h)
    ensures RingOk(h') && h'.head == h.head && h'.tail == h.tail
  {
    if bs == [] then h else Stored(StoredAll(h, bs[..|bs| - 1]), bs[|bs| - 1])
  }

  /** A look at the counter. */
  function Looked(h: Ring): (h': Ring)
    requires RingOk(h)
    ensures RingOk(h')
  {
    h.(head := RING - h.ndtr)
  }

  /** The two copies of a call, with the bytes the DMA stores before each of them. */
  function Copied(h: Ring, n: nat, mid: (seq<byte>, seq<byte>)): seq<byte>
    requires RingOk(h) && n < RING
  {
    var wrap := Min(n, RING - h.tail);
    var h1 := StoredAll(h, mid.0);
    var h2 := StoredAll(h1, mid.1);
    h1.circ[h.tail..h.tail + wrap] + h2.circ[..n - wrap]
  }

  datatype Ev =
    | Byte(b: byte)
    | Call(size: u32, mid: (seq<byte>, seq<byte>))   // one look of USART_Recv and, if it sees data, the rest of it

  /** The ring after an event, what the DMA received in it, what the caller was given. */
  datatype Effect = Effect(ring: Ring, arrived: seq<byte>, given: seq<byte>)

  function Next(h: Ring, e: Ev): (r: Effect)
    requires RingOk(h)
    ensures RingOk(r.ring)
  {
    match e
    case Byte(b) => Effect(Stored(h, b), [b], [])
    case Call(size, mid) =>
      var h1 := Looked(h);
      if Wrap32(h1.head - h1.tail) == 0 then Effect(h1, [], [])
      else
        var n := Min(Waiting(h1.head, h1.tail), size);
        var h2 := StoredAll(StoredAll(h1, mid.0), mid.1);
        Effect(h2.(tail := (h2.tail + n) % RING), mid.0 + mid.1, Copied(h1, n, mid))
  }

  // ---- the ring against the stream ----

  /** Every byte received and not yet taken is in its place in the ring. */
  ghost predicate Holds(ring: seq<byte>, stream: seq<byte>, taken: nat) {
    && |ring| == RING
    && forall j :: taken <= j < |stream| ==> ring[j % RING] == stream[j]
  }

  lemma DistinctSlots(j: nat, k: nat)
    requires j < k < j + 512
    ensures j % 512 != k % 512
  {
    if j % 512 == k % 512 {
      LooksEmptyExact(k, j);
      ModUnique(k - j, 0, k - j);
    }
  }

  lemma HoldsMore(ring: seq<byte>, stream: seq<byte>, taken: nat, b: byte)
    requires Holds(ring, stream, taken) && taken <= |stream| < taken + RING
    ensures Holds(ring[|stream| % RING := b], stream + [b], taken)
  {
    var ring', stream' := ring[|stream| % RING := b], stream + [b];
    forall j | taken <= j < |stream'|
      ensures ring'[j % RING] == stream'[j]
    {
      if j < |stream| {
        DistinctSlots(j, |stream|);
      }
    }
  }

  lemma StraightSlot(from: nat, k: nat)
    requires from % 512 + k < 512
    ensures (from + k) % 512 == from % 512 + k
  {
    ModUnique(from + k, from / 512, from % 512 + k);
  }

  /** A part of the ring that does not wrap holds a part of the stream. */
  lemma StraightCopy(ring: seq<byte>, stream: seq<byte>, taken: nat, from: nat, n: nat)
    requires Holds(ring, stream, taken) && taken <= from && from + n <= |stream| && from % RING + n <= RING
    ensures ring[from % RING..from % RING + n] == stream[from..from + n]
  {
    var a, b := ring[from % RING..from % RING + n], stream[from..from + n];
    forall k | 0 <= k < n
      ensures a[k] == b[k]
    {
      StraightSlot(from, k);
      assert ring[(from + k) % RING] == stream[from + k];
    }
  }

  lemma WrapsToZero(from: nat, wrap: nat)
    requires wrap == 512 - from % 512
    ensures (from + wrap) % 512 == 0
  {
    ModUnique(from + wrap, from / 512 + 1, 0);
  }

  lemma NextTail(taken: nat, n: nat)
    ensures (taken % 512 + n) % 512 == (taken + n) % 512
  {
    var t := taken % 512 + n;
    ModUnique(taken + n, taken / 512 + t / 512, t % 512);
  }

  lemma HoldsLess(ring: seq<byte>, stream: seq<byte>, taken: nat, more: nat)
    requires Holds(ring, stream, taken) && taken <= more
    ensures Holds(ring, stream, more)
  {
  }

  /** The ring stands for the stream received so far, of which the callers have been given the first `taken` bytes. */
  ghost predicate Stands(h: Ring, stream: seq<byte>, taken: nat) {
    && Holds(h.circ, stream, taken)
    && taken <= |stream| < taken + RING
    && h.tail == taken % RING
    && h.ndtr == RING - |stream| % RING
  }

  lemma StandsOk(h: Ring, stream: seq<byte>, taken: nat)
    requires Stands(h, stream, taken)
    ensures RingOk(h) && taken <= |stream| < taken + RING && h.tail == taken % RING
  {
  }

  lemma StoredStands(h: Ring, stream: seq<byte>, taken: nat, b: byte)
    requires Stands(h, stream, taken) && |stream| + 1 < taken + RING
    ensures RingOk(h) && Stands(Stored(h, b), stream + [b], taken)
  {
    StandsOk(h, stream, taken);
    hide Holds;
    HoldsMore(h.circ, stream, taken, b);
    NextTail(|stream|, 1);
  }

  lemma {:induction false} StoredAllStands(h: Ring, stream: seq<byte>, taken: nat, bs: seq<byte>)
    requires Stands(h, stream, taken) && |stream| + |bs| < taken + RING
    ensures RingOk(h) && Stands(StoredAll(h, bs), stream + bs, taken)
  {
    hide Stands, Stored;
    StandsOk(h, stream, taken);
    if bs == [] {
      assert stream + bs == stream;
    } else {
      var before, b := bs[..|bs| - 1], bs[|bs| - 1];
      StoredAllStands(h, stream, taken, before);
      StoredStands(StoredAll(h, before), stream + before, taken, b);
      assert stream + before + [b] == stream + bs;
    }
  }

  /** A look tells exactly how much of the stream has not been taken. */
  lemma LookCounts(h: Ring, stream: seq<byte>, taken: nat)
    requires Stands(h, stream, taken)
    ensures RingOk(h)
    ensures var h1 := Looked(h);
            && Stands(h1, stream, taken)
            && (Wrap32(h1.head - h1.tail) == 0 <==> |stream| == taken)
            && Waiting(h1.head, h1.tail) == |stream| - taken
  {
    StandsOk(h, stream, taken);
    hide Holds, Wrap32;
    WaitingExact(|stream|, taken);
    LooksEmptyExact(|stream|, taken);
    ZeroDifference(RING - h.ndtr, h.tail);
    ModUnique(|stream| - taken, 0, |stream| - taken);
  }

  lemma ZeroDifference(a: u32, b: u32)
    ensures Wrap32(a - b) == 0 <==> a == b
  {
  }

  /** The two copies are the next n bytes of the stream, although the DMA stores more in between. */
  lemma CopiesStream(h: Ring, stream: seq<byte>, taken: nat, n: nat, mid: (seq<byte>, seq<byte>))
    requires Stands(h, stream, taken) && taken + n <= |stream| && |stream| + |mid.0| + |mid.1| < taken + RING
    ensures RingOk(h) && n < RING && Copied(h, n, mid) == stream[taken..taken + n]
  {
    hide StoredAll, Holds, Stands;
    StandsOk(h, stream, taken);
    var wrap := Min(n, RING - h.tail);
    var h1, s1 := StoredAll(h, mid.0), stream + mid.0;
    var h2, s2 := StoredAll(h1, mid.1), s1 + mid.1;
    StoredAllStands(h, stream, taken, mid.0);
    StoredAllStands(h1, s1, taken, mid.1);
    CopyPart(h1, s1, taken, taken, wrap);
    SamePart(stream, mid.0, taken, taken + wrap);
    if n > wrap {
      WrapsToZero(taken, wrap);
      CopyPart(h2, s2, taken, taken + wrap, n - wrap);
      SamePart(stream, mid.0, taken + wrap, taken + n);
      SamePart(s1, mid.1, taken + wrap, taken + n);
    }
    TwoParts(stream, taken, taken + wrap, taken + n);
  }

  lemma CopyPart(h: Ring, stream: seq<byte>, taken: nat, from: nat, n: nat)
    requires Stands(h, stream, taken) && taken <= from && from + n <= |stream| && from % RING + n <= RING
    ensures RingOk(h) && h.circ[from % RING..from % RING + n] == stream[from..from + n]
  {
    StraightCopy(h.circ, stream, taken, from, n);
    StandsOk(h, stream, taken);
  }

  lemma SamePart(s: seq<byte>, more: seq<byte>, a: nat, b: nat)
    requires a <= b <= |s|
    ensures (s + more)[a..b] == s[a..b]
  {
  }

  lemma TwoParts(s: seq<byte>, a: nat, b: nat, c: nat)
    requires a <= b <= c <= |s|
    ensures s[a..b] + s[b..c] == s[a..c]
  {
  }

  /** One call: the next bytes of the stream, as many as asked for and there. */
  lemma CallTakes(h: Ring, stream: seq<byte>, taken: nat, size: u32, mid: (seq<byte>, seq<byte>))
    requires Stands(h, stream, taken)
    requires |stream| > taken ==> |stream| + |mid.0| + |mid.1| < taken + RING
    ensures RingOk(h)
    ensures var r := Next(h, Call(size, mid));
            var n := Min(size, |stream| - taken);
            && r.given == stream[taken..taken + n]
            && r.arrived == (if |stream| == taken then [] else mid.0 + mid.1)
            && Stands(r.ring, stream + r.arrived, taken + n)
  {
    hide Stands, Waiting, Wrap32, Copied, Stored, Looked, StoredAll;
    LookCounts(h, stream, taken);
    var h1, n := Looked(h), Min(size, |stream| - taken);
    if |stream| == taken {
      assert stream + [] == stream && stream[taken..taken] == [];
    } else {
      var s1 := stream + mid.0;
      CopiesStream(h1, stream, taken, n, mid);
      StoredAllStands(h1, stream, taken, mid.0);
      StoredAllStands(StoredAll(h1, mid.0), s1, taken, mid.1);
      Associative(stream, mid.0, mid.1);
      TailMoves(StoredAll(StoredAll(h1, mid.0), mid.1), s1 + mid.1, taken, n);
    }
  }

  lemma TailMoves(h: Ring, stream: seq<byte>, taken: nat, n: nat)
    requires Stands(h, stream, taken) && taken + n <= |stream|
    ensures Stands(h.(tail := (h.tail + n) % RING), stream, taken + n)
  {
    NextTail(taken, n);
    HoldsLess(h.circ, stream, taken, taken + n);
    hide Holds;
  }

  // ---- runs ----

  function Run(h: Ring, evs: seq<Ev>): (r: Effect)
    requires RingOk(h)
    ensures RingOk(r.ring)
    decreases |evs|
  {
    if evs == [] then Effect(h, [], [])
    else
      var r1 := Next(h, evs[0]);
      var r2 := Run(r1.ring, evs[1..]);
      Effect(r2.ring, r1.arrived + r2.arrived, r1.given + r2.given)
  }

  /** With u bytes waiting, the DMA never gets a whole ring ahead of the calls. */
  predicate InTime(u: nat, evs: seq<Ev>)
    decreases |evs|
  {
    evs == [] ||
    match evs[0]
    case Byte(_) => u + 1 < RING && InTime(u + 1, evs[1..])
    case Call(size, mid) =>
      if u == 0 then InTime(0, evs[1..])
      else u + |mid.0| + |mid.1| < RING && InTime(u - Min(u, size) + |mid.0| + |mid.1|, evs[1..])
  }

  /** The bytes given are the next ones of the stream, and the ring stands for the longer stream. */
  ghost predicate Delivers(r: Effect, stream: seq<byte>, taken: nat) {
    var s1, t1 := stream + r.arrived, taken + |r.given|;
    Stands(r.ring, s1, t1) && t1 <= |s1| && r.given == s1[taken..t1]
  }

  lemma DeliversNothing(h: Ring, stream: seq<byte>, taken: nat)
    requires Stands(h, stream, taken)
    ensures Delivers(Effect(h, [], []), stream, taken)
  {
    hide Stands;
    StandsOk(h, stream, taken);
    assert stream + [] == stream && stream[taken..taken] == [];
  }

  lemma DeliversJoin(stream: seq<byte>, taken: nat, r1: Effect, r2: Effect)
    requires Delivers(r1, stream, taken) && Delivers(r2, stream + r1.arrived, taken + |r1.given|)
    ensures Delivers(Effect(r2.ring, r1.arrived + r2.arrived, r1.given + r2.given), stream, taken)
  {
    hide Stands;
    var a, t1, t2 := stream + r1.arrived, taken + |r1.given|, taken + |r1.given| + |r2.given|;
    var b := a + r2.arrived;
    assert stream + (r1.arrived + r2.arrived) == b;
    SamePart(a, r2.arrived, taken, t1);
    TwoParts(b, taken, t1, t2);
  }

  /** What is waiting after an event. */
  function Left(r: Effect, stream: seq<byte>, taken: nat): int {
    |stream| + |r.arrived| - taken - |r.given|
  }

  lemma ByteArrives(h: Ring, stream: seq<byte>, taken: nat, b: byte)
    requires Stands(h, stream, taken) && |stream| + 1 < taken + RING
    ensures RingOk(h) && Delivers(Next(h, Byte(b)), stream, taken)
    ensures Left(Next(h, Byte(b)), stream, taken) == |stream| - taken + 1
  {
    StoredStands(h, stream, taken, b);
    StandsOk(h, stream, taken);
    hide Stands, Stored;
    assert (stream + [b])[taken..taken] == [];
  }

  lemma CallReturns(h: Ring, stream: seq<byte>, taken: nat, size: u32, mid: (seq<byte>, seq<byte>))
    requires Stands(h, stream, taken)
    requires |stream| > taken ==> |stream| + |mid.0| + |mid.1| < taken + RING
    ensures RingOk(h) && Delivers(Next(h, Call(size, mid)), stream, taken)
    ensures var u := |stream| - taken;
            Left(Next(h, Call(size, mid)), stream, taken) == if u == 0 then 0 else u - Min(u, size) + |mid.0| + |mid.1|
  {
    StandsOk(h, stream, taken);
    CallTakes(h, stream, taken, size, mid);
    hide Stands, Next;
    SamePart(stream, Next(h, Call(size, mid)).arrived, taken, taken + Min(size, |stream| - taken));
  }

  /** One event of a run in time. */
  lemma EventDelivers(h: Ring, stream: seq<byte>, taken: nat, evs: seq<Ev>)
    requires Stands(h, stream, taken) && evs != [] && taken <= |stream| && InTime(|stream| - taken, evs)
    ensures RingOk(h)
    ensures var r := Next(h, evs[0]);
            && Delivers(r, stream, taken)
            && Left(r, stream, taken) >= 0 && InTime(Left(r, stream, taken), evs[1..])
  {
    StandsOk(h, stream, taken);
    hide Stands, Next, RingOk, Delivers, Left;
    match evs[0]
    case Byte(b) => ByteArrives(h, stream, taken, b);
    case Call(size, mid) => CallReturns(h, stream, taken, size, mid);
  }

  lemma DeliversStands(r: Effect, stream: seq<byte>, taken: nat)
    requires Delivers(r, stream, taken)
    ensures var s1, t1 := stream + r.arrived, taken + |r.given|;
            Stands(r.ring, s1, t1) && t1 <= |s1| && Left(r, stream, taken) == |s1| - t1
  {
    hide Stands;
  }

  lemma RunUnfolds(h: Ring, evs: seq<Ev>)
    requires RingOk(h) && evs != []
    ensures var r1 := Next(h, evs[0]);
            var r2 := Run(r1.ring, evs[1..]);
            Run(h, evs) == Effect(r2.ring, r1.arrived + r2.arrived, r1.given + r2.given)
  {
  }

  /** For every requested size, wrap position and time of arrival: what the calls return, put together, is the
      received stream in order, without loss or repeat; the ring holds the rest. */
  lemma {:induction false} ReadsAreTheStream(h: Ring, stream: seq<byte>, taken: nat, evs: seq<Ev>)
    requires Stands(h, stream, taken) && taken <= |stream| && InTime(|stream| - taken, evs)
    ensures RingOk(h)
    ensures Delivers(Run(h, evs), stream, taken)
    decreases |evs|
  {
    StandsOk(h, stream, taken);
    if evs == [] {
      DeliversNothing(h, stream, taken);
    } else {
      hide *;
      RunUnfolds(h, evs);
      EventDelivers(h, stream, taken, evs);
      var r1 := Next(h, evs[0]);
      DeliversStands(r1, stream, taken);
      ReadsAreTheStream(r1.ring, stream + r1.arrived, taken + |r1.given|, evs[1..]);
      DeliversJoin(stream, taken, r1, Run(r1.ring, evs[1..]));
    }
  }

  /** From a fresh ring the calls return exactly a prefix of what the DMA received. */
  lemma FreshRingDelivers(circ: seq<byte>, evs: seq<Ev>)
    requires |circ| == RING && InTime(0, evs)
    ensures var r := Run(Ring(circ, RING, 0, 0), evs); r.given <= r.arrived && |r.arrived| < |r.given| + RING
  {
    ReadsAreTheStream(Ring(circ, RING, 0, 0), [], 0, evs);
    var r := Run(Ring(circ, RING, 0, 0), evs);
    StandsOk(r.ring, [] + r.arrived, |r.given|);
    hide Run, Stands;
    assert [] + r.arrived == r.arrived;
  }

  // ---- the receiver ----

  lemma GivenGrows(given: seq<byte>, stream: seq<byte>, n: nat, mid: (seq<byte>, seq<byte>))
    requires given <= stream && |given| + n <= |stream|
    ensures var more := given + stream[|given|..|given| + n];
            && |more| == |given| + n
            && more <= stream + mid.0 + mid.1
            && stream + mid.0 + mid.1 == stream + (mid.0 + mid.1)
  {
    assert stream + mid.0 + mid.1 == stream + (mid.0 + mid.1);
    assert given + stream[|given|..|given| + n] == stream[..|given| + n];
  }

  /** A call starts with a look, so what the driver saw before does not matter. */
  lemma LookTwice(h: Ring, e: Ev)
    requires RingOk(h) && e.Call?
    ensures Next(Looked(h), e) == Next(h, e)
  {
    hide StoredAll, Copied, Waiting, Wrap32;
    assert Looked(Looked(h)) == Looked(h);
  }

  lemma {:induction false} StoredKeepsHead(h: Ring, x: u32, bs: seq<byte>)
    requires RingOk(h)
    ensures StoredAll(h.(head := x), bs) == StoredAll(h, bs).(head := x)
  {
    if bs != [] {
      StoredKeepsHead(h, x, bs[..|bs| - 1]);
    }
  }

  lemma OtherHead(h: Ring, x: u32, stream: seq<byte>, taken: nat, bs: seq<byte>)
    requires Stands(h, stream, taken) && |stream| + |bs| < taken + RING
    ensures RingOk(h) && RingOk(h.(head := x))
    ensures StoredAll(h.(head := x), bs) == StoredAll(h, bs).(head := x)
    ensures Looked(StoredAll(h.(head := x), bs)) == Looked(StoredAll(h, bs))
    ensures Stands(StoredAll(h, bs).(head := x), stream + bs, taken)
    ensures bs == [] ==> StoredAll(h, bs) == h
  {
    StandsOk(h, stream, taken);
    StoredKeepsHead(h, x, bs);
    StoredAllStands(h, stream, taken, bs);
  }

  /** What happens around one look at the DMA counter: bytes that arrived before it, and whether the timeout
      has run out after it. */
  datatype Poll = Poll(arrived: seq<byte>, expired: bool)

  class Port {
    const circ: array<byte>
    var head: u32
    var tail: u32
    var ndtr: u32
    /** Everything received so far, and what the callers have been given. */
    ghost var stream: seq<byte>
    ghost var given: seq<byte>

    ghost function Abs(): Ring
      reads this, circ
    {
      Ring(circ[..], ndtr, head, tail)
    }

    ghost predicate Valid()
      reads this, circ
    {
      Stands(Abs(), stream, |given|) && given <= stream
    }

    constructor ()
      ensures Valid() && fresh(circ) && stream == []
    {
      circ := new byte[RING];
      head, tail, ndtr := 0, 0, RING;
      stream, given := [], [];
    }

    method Store(b: byte)
      requires RingOk(Abs())
      modifies this`ndtr, this`stream, circ
      ensures RingOk(Abs()) && Abs() == Stored(old(Abs()), b) && stream == old(stream) + [b]
    {
      circ[RING - ndtr] := b;
      ndtr := if ndtr == 1 then RING else ndtr - 1;
      stream := stream + [b];
    }

    method StoreAll(bs: seq<byte>)
      requires RingOk(Abs())
      modifies this`ndtr, this`stream, circ
      ensures RingOk(Abs()) && Abs() == StoredAll(old(Abs()), bs) && stream == old(stream) + bs
    {
      hide Stored;
      for i := 0 to |bs|
        invariant RingOk(Abs()) && Abs() == StoredAll(old(Abs()), bs[..i]) && stream == old(stream) + bs[..i]
      {
        assert bs[..i + 1][..i] == bs[..i];
        Store(bs[i]);
      }
      assert bs[..|bs|] == bs;
    }

    /** USART_Recv. While the call runs the DMA keeps writing: before each look at its counter, and `mid` before
        each of the two copies. The writer never gets a whole ring ahead. None: still waiting after all polls. */
    method Recv(dst: array<byte>, size: u32, polls: seq<Poll>, mid: (seq<byte>, seq<byte>)) returns (r: Option<int>)
      requires Valid() && dst != circ && size <= dst.Length && polls != []
      requires forall k :: 0 <= k < |polls| ==> |stream| + |polls[k].arrived| + |mid.0| + |mid.1| < |given| + RING
      modifies this, circ, dst
      ensures Valid()
      ensures r.None? || r.value < 0 ==>
                && stream == old(stream) == given == old(given) && dst[..] == old(dst[..])
                && (r.Some? ==> r.value == ETIMEOUT && exists k :: 0 <= k < |polls| && polls[k].expired)
                && (r.None? ==> forall k :: 0 <= k < |polls| ==> polls[k].arrived == [] && !polls[k].expired)
      ensures r.Some? && r.value >= 0 ==>
                && |old(stream)| <= |stream| - |mid.0| - |mid.1|
                && var seen := stream[|old(stream)|..|stream| - |mid.0| - |mid.1|];
                   var e := Next(StoredAll(old(Abs()), seen), Call(size, mid));
                   && RingOk(old(Abs())) && Abs() == e.ring
                   && stream == old(stream) + seen + e.arrived
                   && given == old(given) + e.given
                   && r.value == |e.given| == Min(size, |old(stream) + seen| - |old(given)|)
                   && dst[..] == Overwrite(old(dst[..]), 0, e.given)
    {
      hide Stands, Holds, Stored, StoredAll, Copied, Overwrite, Waiting, Wrap32, RingOk;
      ghost var h0, s0 := Abs(), stream;
      StandsOk(h0, stream, |given|);
      var k := 0;
      while true
        invariant Valid() && stream == s0 && given == old(given) && dst[..] == old(dst[..])
        invariant k <= |polls| && (k > 0 ==> given == stream)
        invariant Abs() == h0.(head := head)
        invariant forall j :: 0 <= j < k ==> polls[j].arrived == [] && !polls[j].expired
        decreases |polls| - k
      {
        if k == |polls| {
          return None;
        }
        ghost var x := head;
        var bs := polls[k].arrived;
        OtherHead(h0, x, s0, |given|, bs);
        StoreAll(bs);
        LookCounts(Abs(), stream, |given|);
        head := RING - ndtr;
        assert Abs() == Looked(StoredAll(h0, bs));
        if Wrap32(head - tail) != 0 {
          break;
        }
        assert bs == [] && given == stream;
        if polls[k].expired {
          return Some(ETIMEOUT);
        }
        k := k + 1;
      }
      ghost var bs, g := polls[k].arrived, StoredAll(h0, polls[k].arrived);
      LookTwice(g, Call(size, mid));
      assert stream[|s0|..] == bs;
      var n := Take(dst, size, mid);
      assert stream[|s0|..|stream| - |mid.0| - |mid.1|] == bs;
      r := Some(n);
    }

    /** The rest of a call that has seen data. */
    method Take(dst: array<byte>, size: u32, mid: (seq<byte>, seq<byte>)) returns (n: int)
      requires Valid() && RingOk(Abs()) && Abs() == Looked(Abs()) && |given| < |stream|
      requires |stream| + |mid.0| + |mid.1| < |given| + RING
      requires dst != circ && size <= dst.Length
      modifies this`ndtr, this`tail, this`stream, this`given, circ, dst
      ensures Valid() && RingOk(old(Abs()))
      ensures var e := Next(old(Abs()), Call(size, mid));
              && Abs() == e.ring && e.arrived == mid.0 + mid.1
              && stream == old(stream) + e.arrived && given == old(given) + e.given
              && n == |e.given| == Min(size, |old(stream)| - |old(given)|)
              && dst[..] == Overwrite(old(dst[..]), 0, e.given)
    {
      hide Stands, Holds, Stored, StoredAll, Copied, Overwrite, Waiting, Wrap32, RingOk;
      ghost var h0 := Abs();
      LookCounts(h0, stream, |given|);
      CallTakes(h0, stream, |given|, size, mid);
      ghost var e := Next(h0, Call(size, mid));
      var bnum := Min(Waiting(head, tail), size);
      CopiesStream(h0, stream, |given|, bnum, mid);
      GivenGrows(given, stream, bnum, mid);
      CopyOut(dst, bnum, mid);
      tail := (tail + bnum) % RING;
      given := given + e.given;
      n := bnum;
    }

    /** The two copies of USART_Recv. */
    method CopyOut(dst: array<byte>, bnum: nat, mid: (seq<byte>, seq<byte>))
      requires RingOk(Abs()) && dst != circ && bnum < RING && bnum <= dst.Length
      modifies this`ndtr, this`stream, circ, dst
      ensures RingOk(old(Abs())) && Abs() == StoredAll(StoredAll(old(Abs()), mid.0), mid.1)
      ensures stream == old(stream) + mid.0 + mid.1
      ensures dst[..] == Overwrite(old(dst[..]), 0, Copied(old(Abs()), bnum, mid))
    {
      hide Stored, StoredAll, Overwrite;
      ghost var dst0 := dst[..];
      var wrap := Min(bnum, RING - tail);
      StoreAll(mid.0);
      ghost var first := circ[tail..tail + wrap];
      Memcpy(dst, 0, circ[tail..tail + wrap]);
      StoreAll(mid.1);
      OverwriteTwice(dst0, 0, first, circ[..bnum - wrap]);
      assert first + [] == first;
      if bnum - wrap != 0 {
        Memcpy(dst, wrap, circ[..bnum - wrap]);
      }
    }
  }
}
