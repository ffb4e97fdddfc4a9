/** Bytes, machine words and memory copies: the vocabulary every other module shares. */
module Bytes {

  type byte = x: int | 0 <= x < 0x100
  type u16 = x: int | 0 <= x < 0x1_0000
  type u32 = x: int | 0 <= x < 0x1_0000_0000

  const W32: int := 0x1_0000_0000

  /** The error codes every driver uses; others are added beside them, all negative. */
  const EOK: int := 0
  const EFATAL: int := -1

  datatype Option<+T> = None | Some(value: T)

  function Min(a: int, b: int): int {
    if a < b then a else b
  }

  /** Unsigned 32-bit arithmetic wraps. */
  function Wrap32(x: int): u32 {
    x % W32
  }

  /** HTOBE16/BETOH16 on a little-endian core: exchange the two bytes. */
  function Swap16(x: u16): u16 {
    x % 0x100 * 0x100 + x / 0x100
  }

  /** Concatenation of a list of chunks. */
  function Flatten<T>(chunks: seq<seq<T>>): seq<T> {
    if chunks == [] then [] else chunks[0] + Flatten(chunks[1..])
  }

  function Sum(ns: seq<nat>): nat {
    if ns == [] then 0 else ns[0] + Sum(ns[1..])
  }

  lemma SumLast(ns: seq<nat>)
    requires ns != []
    ensures Sum(ns) == Sum(ns[..|ns| - 1]) + ns[|ns| - 1]
  {
    SumAppend(ns[..|ns| - 1], ns[|ns| - 1]);
    assert ns == ns[..|ns| - 1] + [ns[|ns| - 1]];
  }

  lemma {:induction false} SumAppend(a: seq<nat>, n: nat)
    ensures Sum(a + [n]) == Sum(a) + n
  {
    if a == [] {
      assert Sum([n]) == n + Sum([n][1..]);
    } else {
      assert (a + [n])[1..] == a[1..] + [n];
      SumAppend(a[1..], n);
    }
  }

  lemma Associative<T>(a: seq<T>, b: seq<T>, c: seq<T>)
    ensures (a + b) + c == a + (b + c)
  {
  }

  /** What memory holds after `src` has been copied to offset `at`. */
  function Overwrite<T>(mem: seq<T>, at: nat, src: seq<T>): (r: seq<T>)
    requires at + |src| <= |mem|
    ensures |r| == |mem|
  {
    mem[..at] + src + mem[at + |src|..]
  }

  lemma OverwriteParts<T>(mem: seq<T>, at: nat, src: seq<T>)
    requires at + |src| <= |mem|
    ensures var r := Overwrite(mem, at, src);
            r[..at] == mem[..at] && r[at..at + |src|] == src && r[at + |src|..] == mem[at + |src|..]
  {
  }

  /** Two neighbouring copies are one copy. */
  lemma OverwriteTwice<T>(mem: seq<T>, at: nat, a: seq<T>, b: seq<T>)
    requires at + |a| + |b| <= |mem|
    ensures Overwrite(Overwrite(mem, at, a), at + |a|, b) == Overwrite(mem, at, a + b)
  {
  }

  /** The memcpy of the C library, on one destination array. */
  method Memcpy<T>(dst: array<T>, at: nat, src: seq<T>)
    requires at + |src| <= dst.Length
    modifies dst
    ensures dst[..] == Overwrite(old(dst[..]), at, src)
  {
    forall i | 0 <= i < |src| {
      dst[at + i] := src[i];
    }
  }

  lemma SubSlice<T>(s: seq<T>, a: nat, b: nat, i: nat, j: nat)
    requires a <= b <= |s| && i <= j <= b - a
    ensures s[a..b][i..j] == s[a + i..a + j]
  {
    forall k | 0 <= k < j - i
      ensures s[a..b][i..j][k] == s[a + i..a + j][k]
    {
      assert s[a..b][i + k] == s[a + (i + k)];
    }
  }

  /** The memcmp of the C library, as far as equality goes: the difference at the first byte that differs. */
  method Memcmp(mem: array<bv8>, at: nat, other: seq<bv8>) returns (d: int)
    requires at + |other| <= mem.Length
    ensures d == 0 <==> mem[at..at + |other|] == other
  {
    for i := 0 to |other|
      invariant forall k :: 0 <= k < i ==> mem[at + k] == other[k]
    {
      if mem[at + i] != other[i] {
        assert mem[at..at + |other|][i] != other[i];
        return if mem[at + i] < other[i] then -1 else 1;
      }
    }
    d := 0;
  }
}
