/** How the USB packet memory is divided between the FIFOs, and how a transfer is divided into packets. */
module UsbLayout {
  import opened Bytes

  // ---- packet memory ----

  /** One DIEPTXF register: first word and depth. */
  datatype Region = Region(start: nat, depth: nat)

  datatype Layout = Layout(rx: nat, tx: seq<Region>)

  /** Bytes to words, at least sixteen. */
  function FifoWords(bytes: nat): (w: nat)
    ensures w >= 16 && 4 * w >= bytes
    ensures w == 16 || 4 * (w - 1) < bytes
  {
    var w := (bytes + 3) / 4;
    if w < 16 then 16 else w
  }

  function Depths(tx: seq<Region>): nat {
    if tx == [] then 0 else Depths(tx[..|tx| - 1]) + tx[|tx| - 1].depth
  }

  function SetTx(l: Layout, ep: nat, bytes: nat): Layout
    requires ep < |l.tx|
  {
    l.(tx := l.tx[ep := Region(l.rx + Depths(l.tx[..ep]), FifoWords(bytes))])
  }

  /** An endpoint and the size asked for it, in the order of the calls. */
  datatype Call = Call(ep: nat, bytes: nat)

  predicate Ascending(plan: seq<Call>, n: nat) {
    (forall i :: 0 <= i < |plan| ==> plan[i].ep < n) &&
    (forall i, j :: 0 <= i < j < |plan| ==> plan[i].ep < plan[j].ep)
  }

  function SetAll(l: Layout, plan: seq<Call>): (l': Layout)
    requires forall c :: c in plan ==> c.ep < |l.tx|
    ensures |l'.tx| == |l.tx| && l'.rx == l.rx
  {
    if plan == [] then l
    else
      var l0 := SetAll(l, plan[..|plan| - 1]);
      SetTx(l0, plan[|plan| - 1].ep, plan[|plan| - 1].bytes)
  }

  /** A FIFO starts where the ones before it end. */
  predicate Placed(l: Layout, ep: nat)
    requires ep < |l.tx|
  {
    l.tx[ep].start == l.rx + Depths(l.tx[..ep])
  }

  /** One call places its endpoint and disturbs no lower one. */
  lemma SetTxPlaces(l: Layout, ep: nat, bytes: nat)
    requires ep < |l.tx|
    ensures var l' := SetTx(l, ep, bytes);
            && Placed(l', ep) && l'.tx[ep].depth == FifoWords(bytes)
            && (forall e :: 0 <= e < |l.tx| && e != ep ==> l'.tx[e] == l.tx[e])
            && (forall e :: 0 <= e < ep && Placed(l, e) ==> Placed(l', e))
  {
    var l' := SetTx(l, ep, bytes);
    assert l'.tx[..ep] == l.tx[..ep];
    forall e | 0 <= e < ep && Placed(l, e)
      ensures Placed(l', e)
    {
      assert l'.tx[..e] == l.tx[..e];
    }
  }

  predicate Set(l: Layout, c: Call)
    requires c.ep < |l.tx|
  {
    Placed(l, c.ep) && l.tx[c.ep].depth == FifoWords(c.bytes)
  }

  /** After a pass in ascending order every endpoint of the plan has its depth and its place. */
  lemma {:induction false} SetAllPlaces(l: Layout, plan: seq<Call>)
    requires Ascending(plan, |l.tx|)
    ensures forall i :: 0 <= i < |plan| ==> Set(SetAll(l, plan), plan[i])
  {
    if plan != [] {
      var k := |plan| - 1;
      var l0 := SetAll(l, plan[..k]);
      SetAllPlaces(l, plan[..k]);
      SetTxPlaces(l0, plan[k].ep, plan[k].bytes);
      hide SetAll, FifoWords;
      forall i | 0 <= i < k
        ensures Set(SetTx(l0, plan[k].ep, plan[k].bytes), plan[i])
      {
        assert Set(l0, plan[..k][i]);
      }
    }
  }

  /** Endpoints outside the plan keep their registers, whatever its order. */
  lemma {:induction false} SetAllKeeps(l: Layout, plan: seq<Call>, e: nat)
    requires e < |l.tx| && forall c :: c in plan ==> c.ep < |l.tx| && c.ep != e
    ensures SetAll(l, plan).tx[e] == l.tx[e]
  {
    if plan != [] {
      SetAllKeeps(l, plan[..|plan| - 1], e);
    }
  }

  function Total(l: Layout): nat {
    l.rx + Depths(l.tx)
  }

  lemma {:induction false} DepthsMonotone(tx: seq<Region>, i: nat, j: nat)
    requires i < j <= |tx|
    ensures Depths(tx[..i]) + tx[i].depth <= Depths(tx[..j])
    ensures j == i + 1 ==> Depths(tx[..i]) + tx[i].depth == Depths(tx[..j])
  {
    assert tx[..j][..j - 1] == tx[..j - 1];
    if j > i + 1 {
      DepthsMonotone(tx, i, j - 1);
    }
  }

  predicate Owns(l: Layout, e: nat, a: nat)
    requires e < |l.tx|
  {
    l.tx[e].start <= a < l.tx[e].start + l.tx[e].depth
  }

  /** When every used FIFO is in its place, two of them never share a word of memory, none reaches into
      the receive FIFO or past the total. */
  lemma PlacedAreDisjoint(l: Layout, e: nat, f: nat, a: nat)
    requires forall x :: 0 <= x < |l.tx| && l.tx[x].depth > 0 ==> Placed(l, x)
    requires e < |l.tx| && f < |l.tx| && Owns(l, e, a)
    ensures l.rx <= a < Total(l)
    ensures Owns(l, f, a) ==> e == f
  {
    assert l.tx[..|l.tx|] == l.tx;
    DepthsMonotone(l.tx, e, |l.tx|);
    if e < f {
      DepthsMonotone(l.tx, e, f);
    } else if f < e {
      DepthsMonotone(l.tx, f, e);
    }
  }

  /** ... and every word past the receive FIFO has an owner: the memory [0, total) is partitioned. */
  lemma {:induction false} PlacedCover(l: Layout, n: nat, a: nat) returns (e: nat)
    requires forall x :: 0 <= x < |l.tx| && l.tx[x].depth > 0 ==> Placed(l, x)
    requires n <= |l.tx| && l.rx <= a < l.rx + Depths(l.tx[..n])
    ensures e < n && Owns(l, e, a)
  {
    assert n > 0;
    assert l.tx[..n][..n - 1] == l.tx[..n - 1];
    if a < l.rx + Depths(l.tx[..n - 1]) {
      e := PlacedCover(l, n - 1, a);
    } else {
      e := n - 1;
    }
  }

  /** The whole pass, over registers that were zero for the endpoints it leaves out: every word of memory
      past the receive FIFO and below the total belongs to exactly one transmit FIFO, and no other word to any. */
  lemma PlanPartitions(l: Layout, plan: seq<Call>, a: nat)
    requires Ascending(plan, |l.tx|)
    requires forall e :: 0 <= e < |l.tx| && (forall c :: c in plan ==> c.ep != e) ==> l.tx[e].depth == 0
    ensures var l' := SetAll(l, plan);
            && (l'.rx <= a < Total(l') <==> exists e :: 0 <= e < |l'.tx| && Owns(l', e, a))
            && forall e, f :: 0 <= e < |l'.tx| && 0 <= f < |l'.tx| && Owns(l', e, a) && Owns(l', f, a) ==> e == f
  {
    var l' := SetAll(l, plan);
    forall x | 0 <= x < |l'.tx| && l'.tx[x].depth > 0
      ensures Placed(l', x)
    {
      if forall c :: c in plan ==> c.ep != x {
        SetAllKeeps(l, plan, x);
      } else {
        SetAllPlaces(l, plan);
      }
    }
    forall e, f | 0 <= e < |l'.tx| && 0 <= f < |l'.tx| && Owns(l', e, a)
      ensures l'.rx <= a < Total(l') && (Owns(l', f, a) ==> e == f)
    {
      PlacedAreDisjoint(l', e, f, a);
    }
    if l'.rx <= a < Total(l') {
      assert l'.tx[..|l'.tx|] == l'.tx;
      var e := PlacedCover(l', |l'.tx|, a);
    }
  }

  /** A call that finds its endpoint set already changes nothing. */
  lemma SetAgain(l: Layout, c: Call)
    requires c.ep < |l.tx| && Set(l, c)
    ensures SetTx(l, c.ep, c.bytes) == l
  {
    assert l.tx[c.ep := l.tx[c.ep]] == l.tx;
  }

  /** Repeating the pass with the same sizes changes nothing. */
  lemma {:induction false} SetAllIdempotent(l: Layout, plan: seq<Call>, k: nat)
    requires Ascending(plan, |l.tx|) && k <= |plan|
    ensures SetAll(SetAll(l, plan), plan[..k]) == SetAll(l, plan)
  {
    if k > 0 {
      SetAllIdempotent(l, plan, k - 1);
      assert plan[..k][..k - 1] == plan[..k - 1];
      SetAllPlaces(l, plan);
      SetAgain(SetAll(l, plan), plan[k - 1]);
    }
  }

  // ---- the order of the calls ----

  lemma {:induction false} DepthsSet(tx: seq<Region>, ep: nat, r: Region, e: nat)
    requires ep < e <= |tx|
    ensures Depths(tx[ep := r][..e]) == Depths(tx[..e]) - tx[ep].depth + r.depth
  {
    var tx' := tx[ep := r];
    assert tx[..e][..e - 1] == tx[..e - 1] && tx'[..e][..e - 1] == tx'[..e - 1];
    if ep == e - 1 {
      assert tx'[..ep] == tx[..ep];
    } else {
      DepthsSet(tx, ep, r, e - 1);
    }
  }

  /** A call leaves a higher FIFO in its place if and only if it does not change the depth of its own. */
  lemma ResizeExact(l: Layout, ep: nat, bytes: nat, e: nat)
    requires ep < e < |l.tx| && Placed(l, e)
    ensures Placed(SetTx(l, ep, bytes), e) <==> FifoWords(bytes) == l.tx[ep].depth
  {
    hide FifoWords;
    DepthsSet(l.tx, ep, Region(l.rx + Depths(l.tx[..ep]), FifoWords(bytes)), e);
  }

  /** Each endpoint at most once, in any order. */
  predicate Once(plan: seq<Call>, n: nat) {
    (forall i :: 0 <= i < |plan| ==> plan[i].ep < n) &&
    (forall i, j :: 0 <= i < j < |plan| ==> plan[i].ep != plan[j].ep)
  }

  lemma {:induction false} SetAllAppend(l: Layout, a: seq<Call>, b: seq<Call>)
    requires forall c :: c in a || c in b ==> c.ep < |l.tx|
    ensures forall c :: c in a + b ==> c.ep < |l.tx|
    ensures SetAll(l, a + b) == SetAll(SetAll(l, a), b)
  {
    if b == [] {
      assert a + b == a;
    } else {
      assert (a + b)[..|a + b| - 1] == a + b[..|b| - 1];
      SetAllAppend(l, a, b[..|b| - 1]);
    }
  }

  /** The call for an endpoint decides its registers; the later ones leave them. */
  lemma CallDecides(l: Layout, plan: seq<Call>, i: nat)
    requires Once(plan, |l.tx|) && i < |plan|
    ensures var mid := SetAll(l, plan[..i + 1]);
            && Set(mid, plan[i])
            && SetAll(l, plan) == SetAll(mid, plan[i + 1..])
            && SetAll(l, plan).tx[plan[i].ep] == mid.tx[plan[i].ep]
  {
    assert plan == plan[..i + 1] + plan[i + 1..];
    SetAllAppend(l, plan[..i + 1], plan[i + 1..]);
    SetAllKeeps(SetAll(l, plan[..i + 1]), plan[i + 1..], plan[i].ep);
    assert plan[..i + 1][..i] == plan[..i];
    SetTxPlaces(SetAll(l, plan[..i]), plan[i].ep, plan[i].bytes);
  }

  lemma {:induction false} DepthsLess(a: seq<Region>, b: seq<Region>, k: nat)
    requires |a| == |b| && forall x :: 0 <= x < |a| ==> a[x].depth <= b[x].depth
    ensures Depths(a) <= Depths(b)
    ensures k < |a| && a[k].depth < b[k].depth ==> Depths(a) < Depths(b)
  {
    if a != [] {
      DepthsLess(a[..|a| - 1], b[..|b| - 1], k);
    }
  }

  /** Of two calls in the wrong order the first one ends up out of place. */
  lemma WrongOrderMisplaces(l: Layout, plan: seq<Call>, i: nat, j: nat)
    requires Once(plan, |l.tx|) && forall c :: c in plan ==> l.tx[c.ep].depth == 0
    requires i < j < |plan| && plan[j].ep < plan[i].ep
    ensures !Placed(SetAll(l, plan), plan[i].ep)
  {
    hide SetAll, Depths;
    var mid, end, e := SetAll(l, plan[..i + 1]), SetAll(l, plan), plan[i].ep;
    CallDecides(l, plan, i);
    CallDecides(l, plan, j);
    forall x | 0 <= x < e
      ensures mid.tx[x].depth <= end.tx[x].depth
      ensures x == plan[j].ep ==> mid.tx[x].depth == 0
    {
      if forall c :: c in plan[i + 1..] ==> c.ep != x {
        SetAllKeeps(mid, plan[i + 1..], x);
      } else {
        SetAllKeeps(l, plan[..i + 1], x);
      }
    }
    DepthsLess(mid.tx[..e], end.tx[..e], plan[j].ep);
  }

  /** Over registers not set before, a pass in any order leaves all its FIFOs in place if and only if the order is
      ascending. */
  lemma OrderExact(l: Layout, plan: seq<Call>)
    requires Once(plan, |l.tx|) && forall c :: c in plan ==> l.tx[c.ep].depth == 0
    ensures (forall i :: 0 <= i < |plan| ==> Placed(SetAll(l, plan), plan[i].ep)) <==> Ascending(plan, |l.tx|)
  {
    if Ascending(plan, |l.tx|) {
      SetAllPlaces(l, plan);
    } else {
      var i, j :| 0 <= i < j < |plan| && plan[j].ep < plan[i].ep;
      WrongOrderMisplaces(l, plan, i, j);
    }
  }

  /** Descending order does not work: endpoint 1 set after endpoint 2 lands on top of it. */
  lemma DescendingOverlaps()
    ensures var l := SetAll(Layout(96, [Region(96, 16), Region(0, 0), Region(0, 0)]), [Call(2, 64), Call(1, 64)]);
            Owns(l, 1, 112) && Owns(l, 2, 112)
  {
    var l0 := Layout(96, [Region(96, 16), Region(0, 0), Region(0, 0)]);
    var plan := [Call(2, 64), Call(1, 64)];
    assert plan[..1][..0] == [] && SetAll(l0, plan[..1][..0]) == l0;
    var l1 := SetAll(l0, plan[..1]);
    assert Depths(l0.tx[..1]) == Depths(l0.tx[..1][..0]) + 16;
    assert Depths(l0.tx[..2]) == Depths(l0.tx[..2][..1]) + 0 && l0.tx[..2][..1] == l0.tx[..1];
    assert l1.tx[..1] == l0.tx[..1];
  }

  const FIELD: int := 0x1_0000

  /** The registers: GRXFSIZ, and depth << 16 | start for each IN endpoint. */
  class Registers {
    var grxfsiz: nat
    const dieptxf: array<u32>

    ghost function Abs(): Layout
      reads this, dieptxf
    {
      Layout(grxfsiz, seq(dieptxf.Length, i requires 0 <= i < dieptxf.Length reads dieptxf =>
        Region(dieptxf[i] % FIELD, dieptxf[i] / FIELD)))
    }

    constructor (eps: nat)
      ensures Abs() == Layout(0, seq(eps, _ => Region(0, 0))) && fresh(dieptxf)
    {
      grxfsiz := 0;
      dieptxf := new u32[eps](_ => 0);
    }

    method SetRxFifoSize(bytes: nat)
      modifies this`grxfsiz
      ensures Abs() == old(Abs()).(rx := FifoWords(bytes))
    {
      var words := (bytes + 3) / 4;
      if words < 16 {
        words := 16;
      }
      grxfsiz := words;
      assert FifoWords(bytes) == words;
    }

    /** Both fields of the register are sixteen bits wide; the values must fit them. */
    method SetTxFifoSize(ep: nat, bytes: nat)
      requires ep < dieptxf.Length
      requires FifoWords(bytes) < FIELD && grxfsiz + Depths(Abs().tx[..ep]) < FIELD
      modifies dieptxf
      ensures Abs() == SetTx(old(Abs()), ep, bytes)
    {
      ghost var l := Abs();
      var offset, size := grxfsiz, (bytes + 3) / 4;
      if size < 16 {
        size := 16;
      }
      assert size == FifoWords(bytes);
      if ep != 0 {
        offset := offset + dieptxf[0] / FIELD;
        assert l.tx[..1][..0] == [] && Depths(l.tx[..1]) == l.tx[0].depth;
        for i := 1 to ep
          invariant offset == grxfsiz + Depths(l.tx[..i])
        {
          assert l.tx[..i + 1][..i] == l.tx[..i];
          offset := offset + dieptxf[i] / FIELD;
        }
      }
      dieptxf[ep] := size * FIELD + offset;
      assert Abs().tx[ep] == Region(offset, size);
    }
  }

  // ---- packets of an IN transfer ----

  /** Packet count programmed for a transfer; at least one. */
  function PacketCount(size: nat, max: nat): (n: nat)
    requires max > 0
    ensures n >= 1
  {
    var n := (size + max - 1) / max;
    if n > 1 then n else 1
  }

  /** Bulk transfers that end on a full packet are followed by an empty one. */
  function NeedsZlp(size: nat, max: nat): bool
    requires max > 0
  {
    PacketCount(size, max) * max == size
  }

  /** The lengths the core puts on the bus for a programmed size and packet count. */
  function PacketLengths(size: nat, max: nat, count: nat): seq<nat> {
    if count == 0 then []
    else [Min(max, size)] + PacketLengths(if size < max then 0 else size - max, max, count - 1)
  }

  function BulkLengths(size: nat, max: nat): seq<nat>
    requires max > 0
  {
    PacketLengths(size, max, PacketCount(size, max)) + (if NeedsZlp(size, max) then [0] else [])
  }

  lemma CountBounds(size: nat, max: nat)
    requires max > 0
    ensures var n := PacketCount(size, max); (n - 1) * max <= size <= n * max && (n > 1 ==> (n - 1) * max < size)
  {
    var t := size + max - 1;
    assert t == max * (t / max) + t % max;
  }

  lemma OnePacketLess(max: nat, count: nat)
    requires count >= 2
    ensures (count - 1) * max >= max && (count - 2) * max == (count - 1) * max - max
    ensures (count - 1) * max == count * max - max
  {
  }

  lemma {:induction false} LengthsShape(size: nat, max: nat, count: nat)
    requires max > 0 && count >= 1 && (count - 1) * max <= size <= count * max
    ensures var ls := PacketLengths(size, max, count);
            && |ls| == count && Sum(ls) == size
            && ls[count - 1] == size - (count - 1) * max
            && forall i :: 0 <= i < count - 1 ==> ls[i] == max
  {
    if count == 1 {
      assert PacketLengths(size, max, 1) == [size];
      assert Sum([size]) == size + Sum([]);
    } else {
      OnePacketLess(max, count);
      LengthsShape(size - max, max, count - 1);
    }
  }

  /** An empty packet is owed exactly by transfers of a positive whole number of packets. */
  lemma ZlpExact(size: nat, max: nat)
    requires max > 0
    ensures NeedsZlp(size, max) <==> size > 0 && size % max == 0
  {
    var n, q, r := PacketCount(size, max), size / max, size % max;
    CountBounds(size, max);
    assert size == max * q + r;
    if r == 0 && size > 0 {
      Between(n, q, max, size);
    } else if n * max == size {
      WholeMultiple(n, q, r, max);
    }
  }

  lemma Between(n: nat, q: nat, max: nat, size: nat)
    requires max > 0 && size == max * q && size > 0 && n >= 1
    requires (n - 1) * max <= size <= n * max && (n > 1 ==> (n - 1) * max < size)
    ensures n * max == size
  {
    if q < n - 1 {
      MulLess(max, q, n - 1);
    } else if n < q {
      MulLess(max, n, q);
    }
  }

  lemma MulLess(m: nat, a: int, b: int)
    requires m > 0 && a < b
    ensures m * a < m * b
  {
  }

  lemma WholeMultiple(n: nat, q: nat, r: nat, max: nat)
    requires r < max && n * max == max * q + r
    ensures r == 0
  {
    if n < q {
      MulLess(max, n, q);
    } else if q < n {
      Difference(max, n, q);
      MulLess(max, 0, n - q);
      AtLeastOne(max, n - q);
    }
  }

  lemma Difference(m: nat, a: int, b: int)
    ensures m * (a - b) == a * m - m * b
  {
  }

  lemma AtLeastOne(m: nat, a: int)
    requires a >= 1
    ensures m * a >= m
  {
  }

  /** A bulk transfer of any size puts exactly one short packet on the bus, the last one. */
  lemma BulkEndsShort(size: nat, max: nat)
    requires max > 0
    ensures var ls := BulkLengths(size, max);
            && Sum(ls) == size
            && ls[|ls| - 1] < max
            && forall i :: 0 <= i < |ls| - 1 ==> ls[i] == max
  {
    var n := PacketCount(size, max);
    CountBounds(size, max);
    LengthsShape(size, max, n);
    if NeedsZlp(size, max) {
      SumAppend(PacketLengths(size, max, n), 0);
      assert size - (n - 1) * max == max;
    } else {
      assert PacketLengths(size, max, n) + [] == PacketLengths(size, max, n);
      assert size - (n - 1) * max < max;
    }
  }
}
