/** Bytes of a file and the little-endian words a (little-endian) host reads from them.

    The editor works on one open file through positioned reads and writes; here the file
    is the sequence of its bytes, and the file primitives it relies on (write a buffer at
    an offset, zero a range, move a range, truncate or extend) are functions on that
    sequence. Integer fields are read by copying bytes into host memory, so a field is
    the little-endian value of its bytes; a byte-order swap is the reversal of those bytes. */
module Bytes {

  type byte = x: int | 0 <= x < 256

  const TWO_32: int := 0x1_0000_0000
  const TWO_64: int := 0x1_0000_0000_0000_0000

  type u32 = x: int | 0 <= x < 0x1_0000_0000
  type u64 = x: int | 0 <= x < 0x1_0000_0000_0000_0000

  /** Unsigned 32-bit addition and subtraction, wrapping as the C operators do. */
  function Add32(a: int, b: int): (r: u32)
    ensures 0 <= a + b < TWO_32 ==> r == a + b
  {
    (a + b) % TWO_32
  }

  function Sub32(a: int, b: int): (r: u32)
    ensures 0 <= a - b < TWO_32 ==> r == a - b
  {
    (a - b) % TWO_32
  }

  /** Taking back what was added gives back the original value, wrap-around or not. */
  lemma {:induction false} AddSub32(x: u32, y: u32)
    ensures Sub32(Add32(x, y), y) == x
  {
    if x + y >= TWO_32 {
      assert Add32(x, y) == x + y - TWO_32;
    }
  }

  function Add64(a: int, b: int): (r: u64)
    ensures 0 <= a + b < TWO_64 ==> r == a + b
  {
    (a + b) % TWO_64
  }

  function Sub64(a: int, b: int): (r: u64)
    ensures 0 <= a - b < TWO_64 ==> r == a - b
  {
    (a - b) % TWO_64
  }

  function Zeros(n: nat): (z: seq<byte>)
    ensures |z| == n
    ensures forall i :: 0 <= i < n ==> z[i] == 0
  {
    seq(n, _ => 0)
  }

  /** The file after writing `d` at offset `off`. Writing past the end extends the file,
      and a hole between the old end and `off` reads as zeros. */
  function Overwrite(s: seq<byte>, off: nat, d: seq<byte>): (r: seq<byte>)
    ensures |r| == if off + |d| <= |s| then |s| else off + |d|
    ensures forall i :: 0 <= i < |r| ==>
              r[i] == if off <= i < off + |d| then d[i - off] else if i < |s| then s[i] else 0
  {
    var p := if off + |d| <= |s| then s else s + Zeros(off + |d| - |s|);
    p[..off] + d + p[off + |d|..]
  }

  /** The file after it is truncated or extended (with zeros) to exactly `n` bytes. */
  function Resize(s: seq<byte>, n: nat): (r: seq<byte>)
    ensures |r| == n
    ensures forall i :: 0 <= i < n ==> r[i] == if i < |s| then s[i] else 0
  {
    if n <= |s| then s[..n] else s + Zeros(n - |s|)
  }

  /** The file after the `len` bytes at `src` are copied to `dst`, as if through a
      temporary buffer (overlapping ranges are safe in either direction). */
  function Move(s: seq<byte>, dst: nat, src: nat, len: nat): (r: seq<byte>)
    requires src + len <= |s|
    ensures |r| >= |s| && |r| >= dst + len
    ensures r[dst..dst + len] == s[src..src + len]
    ensures forall i :: 0 <= i < |r| && !(dst <= i < dst + len) ==> r[i] == if i < |s| then s[i] else 0
  {
    Overwrite(s, dst, s[src..src + len])
  }

  lemma {:induction false} OverwriteConcat(s: seq<byte>, off: nat, d1: seq<byte>, d2: seq<byte>)
    ensures Overwrite(Overwrite(s, off, d1), off + |d1|, d2) == Overwrite(s, off, d1 + d2)
  {
    var a := Overwrite(Overwrite(s, off, d1), off + |d1|, d2);
    var b := Overwrite(s, off, d1 + d2);
    assert |a| == |b|;
    forall i | 0 <= i < |a| ensures a[i] == b[i] {
      if off <= i < off + |d1| {
        assert (d1 + d2)[i - off] == d1[i - off];
      } else if off + |d1| <= i < off + |d1| + |d2| {
        assert (d1 + d2)[i - off] == d2[i - off - |d1|];
      }
    }
  }

  /** A second write of the same length at the same offset wipes out the first. */
  lemma {:induction false} OverwriteTwice(s: seq<byte>, off: nat, d1: seq<byte>, d2: seq<byte>)
    requires |d1| == |d2|
    ensures Overwrite(Overwrite(s, off, d1), off, d2) == Overwrite(s, off, d2)
  {
    var a := Overwrite(Overwrite(s, off, d1), off, d2);
    var b := Overwrite(s, off, d2);
    assert |a| == |b|;
    forall i | 0 <= i < |a| ensures a[i] == b[i] {
    }
  }

  /** Writing what is already there changes nothing. */
  lemma {:induction false} OverwriteSame(s: seq<byte>, off: nat, d: seq<byte>)
    requires off + |d| <= |s| && s[off..off + |d|] == d
    ensures Overwrite(s, off, d) == s
  {
    var a := Overwrite(s, off, d);
    forall i | 0 <= i < |s| ensures a[i] == s[i] {
      if off <= i < off + |d| {
        assert s[off..off + |d|][i - off] == s[i];
      }
    }
  }

  // ---- little-endian words ----

  function Pow256(n: nat): (p: nat)
    ensures p >= 1
  {
    if n == 0 then 1 else 256 * Pow256(n - 1)
  }

  /** The value of `bs` read as a little-endian unsigned integer. */
  function LE(bs: seq<byte>): nat
  {
    if bs == [] then 0 else bs[0] + 256 * LE(bs[1..])
  }

  /** The `n` little-endian bytes of `v` (the value is taken modulo 256^n). */
  function ToLE(v: nat, n: nat): (r: seq<byte>)
    ensures |r| == n
  {
    if n == 0 then [] else [v % 256] + ToLE(v / 256, n - 1)
  }

  lemma {:induction false} LEBound(bs: seq<byte>)
    ensures LE(bs) < Pow256(|bs|)
  {
    if bs != [] {
      LEBound(bs[1..]);
    }
  }

  lemma {:induction false} LEOfToLE(v: nat, n: nat)
    requires v < Pow256(n)
    ensures LE(ToLE(v, n)) == v
  {
    if n > 0 {
      assert v / 256 < Pow256(n - 1);
      LEOfToLE(v / 256, n - 1);
      assert ToLE(v, n)[1..] == ToLE(v / 256, n - 1);
    }
  }

  /** Splitting `b + 256 * rest` into its low byte and the rest. */
  lemma {:induction false} DivMod256(b: byte, rest: nat)
    ensures (b + 256 * rest) % 256 == b && (b + 256 * rest) / 256 == rest
  {
    var v := b + 256 * rest;
    assert v == rest * 256 + b;
  }

  lemma {:induction false} ToLEOfLE(bs: seq<byte>)
    ensures ToLE(LE(bs), |bs|) == bs
  {
    if bs != [] {
      var rest := LE(bs[1..]);
      var v := LE(bs);
      assert v == bs[0] + 256 * rest;
      DivMod256(bs[0], rest);
      ToLEOfLE(bs[1..]);
      assert ToLE(v, |bs|) == [bs[0]] + ToLE(rest, |bs| - 1);
      assert bs == [bs[0]] + bs[1..];
    }
  }

  function Reverse(bs: seq<byte>): (r: seq<byte>)
    ensures |r| == |bs|
    ensures forall i :: 0 <= i < |bs| ==> r[i] == bs[|bs| - 1 - i]
  {
    seq(|bs|, i requires 0 <= i < |bs| => bs[|bs| - 1 - i])
  }

  /** An `n`-byte field as the host sees it after an optional byte-order swap:
      the identity, or the reversal of its bytes. */
  function Swap(v: nat, n: nat, swapped: bool): (r: nat)
    requires v < Pow256(n)
    ensures r < Pow256(n)
    ensures !swapped ==> r == v
  {
    if swapped then
      LEBound(Reverse(ToLE(v, n)));
      LE(Reverse(ToLE(v, n)))
    else v
  }

  /** Swapping twice gives back the original value, so the same function converts in
      both directions. */
  lemma {:induction false} SwapInvolutive(v: nat, n: nat, swapped: bool)
    requires v < Pow256(n)
    ensures Swap(Swap(v, n, swapped), n, swapped) == v
  {
    if swapped {
      var bs := Reverse(ToLE(v, n));
      ToLEOfLE(bs);
      assert Reverse(bs) == ToLE(v, n);
      LEOfToLE(v, n);
    }
  }

  /** The `n`-byte field at `off` of a record, converted to host order. */
  function GetField(raw: seq<byte>, off: nat, n: nat, swapped: bool): (r: nat)
    requires off + n <= |raw|
    ensures r < Pow256(n)
  {
    LEBound(raw[off..off + n]);
    Swap(LE(raw[off..off + n]), n, swapped)
  }

  /** The record with the `n`-byte field at `off` set to the host value `v`. */
  function SetField(raw: seq<byte>, off: nat, n: nat, swapped: bool, v: nat): (r: seq<byte>)
    requires off + n <= |raw|
    requires v < Pow256(n)
    ensures |r| == |raw|
    ensures forall i :: 0 <= i < |raw| && !(off <= i < off + n) ==> r[i] == raw[i]
    ensures GetField(r, off, n, swapped) == v
  {
    var w := ToLE(Swap(v, n, swapped), n);
    var r := raw[..off] + w + raw[off + n..];
    assert r[off..off + n] == w;
    LEOfToLE(Swap(v, n, swapped), n);
    SwapInvolutive(v, n, swapped);
    r
  }
}
