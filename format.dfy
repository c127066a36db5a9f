/** Constants and helpers of the Mach-O format that the editor relies on: the magic
    numbers, the load-command tags it dispatches on, the sizes of the fixed records,
    the byte-order conversion SWAP32/SWAP64 and rounding up to an alignment. */
module MachOFormat {
  import opened Bytes

  const MH_MAGIC: u32 := 0xfeed_face
  const MH_CIGAM: u32 := 0xcefa_edfe
  const MH_MAGIC_64: u32 := 0xfeed_facf
  const MH_CIGAM_64: u32 := 0xcffa_edfe
  const FAT_MAGIC: u32 := 0xcafe_babe
  const FAT_CIGAM: u32 := 0xbeba_feca

  const LC_SEGMENT: u32 := 0x1
  const LC_SYMTAB: u32 := 0x2
  const LC_SEGMENT_64: u32 := 0x19
  const LC_CODE_SIGNATURE: u32 := 0x1d

  /** sizeof(fat_header), sizeof(fat_arch), sizeof(mach_header). */
  const FAT_HEADER_SIZE: nat := 8
  const FAT_ARCH_SIZE: nat := 20
  const MACH_HEADER_SIZE: nat := 28

  /** Sizes of the load-command records whose fields the editor reads. */
  const SEGMENT_COMMAND_SIZE: nat := 56
  const SEGMENT_COMMAND_64_SIZE: nat := 72
  const SYMTAB_COMMAND_SIZE: nat := 24
  const LINKEDIT_DATA_COMMAND_SIZE: nat := 16

  /** The segment name the code-signature scan compares against. */
  const LINKEDIT_NAME: string := "__LINKEDIT"

  /** A magic number the editor accepts: thin or fat, 32 or 64 bit, either byte order. */
  predicate IsMagic(magic: u32)
  {
    magic in {MH_MAGIC, MH_CIGAM, MH_MAGIC_64, MH_CIGAM_64, FAT_MAGIC, FAT_CIGAM}
  }

  predicate IsFat(magic: u32)
  {
    magic == FAT_MAGIC || magic == FAT_CIGAM
  }

  /** A magic read in the opposite byte order to the host's: fields governed by it
      must be byte-swapped. */
  predicate IsSwappedMagic(magic: u32)
  {
    magic == MH_CIGAM || magic == MH_CIGAM_64 || magic == FAT_CIGAM
  }

  lemma {:induction false} Pow256Words()
    ensures Pow256(4) == TWO_32 && Pow256(8) == TWO_64
  {
  }

  /** SWAP32(v, magic): the identity for a native magic, a byte reversal for a swapped one. */
  function Swap32(v: u32, magic: u32): (r: u32)
    ensures !IsSwappedMagic(magic) ==> r == v
  {
    Pow256Words();
    Swap(v, 4, IsSwappedMagic(magic))
  }

  lemma {:induction false} Swap32Involutive(v: u32, magic: u32)
    ensures Swap32(Swap32(v, magic), magic) == v
  {
    Pow256Words();
    SwapInvolutive(v, 4, IsSwappedMagic(magic));
  }

  /** A 32-bit field of a command record, read in the record's byte order. */
  function Field32(raw: seq<byte>, off: nat, magic: u32): (r: u32)
    requires off + 4 <= |raw|
  {
    Pow256Words();
    GetField(raw, off, 4, IsSwappedMagic(magic))
  }

  function Field64(raw: seq<byte>, off: nat, magic: u32): (r: u64)
    requires off + 8 <= |raw|
  {
    Pow256Words();
    GetField(raw, off, 8, IsSwappedMagic(magic))
  }

  /** The record with a 32-bit field at `off` set, in the record's byte order, to `v`. */
  function Put32(raw: seq<byte>, off: nat, magic: u32, v: u32): (r: seq<byte>)
    requires off + 4 <= |raw|
    ensures |r| == |raw| && Field32(r, off, magic) == v
    ensures forall i :: 0 <= i < |raw| && !(off <= i < off + 4) ==> r[i] == raw[i]
  {
    Pow256Words();
    SetField(raw, off, 4, IsSwappedMagic(magic), v)
  }

  function Put64(raw: seq<byte>, off: nat, magic: u32, v: u64): (r: seq<byte>)
    requires off + 8 <= |raw|
    ensures |r| == |raw| && Field64(r, off, magic) == v
    ensures forall i :: 0 <= i < |raw| && !(off <= i < off + 8) ==> r[i] == raw[i]
  {
    Pow256Words();
    SetField(raw, off, 8, IsSwappedMagic(magic), v)
  }

  /** A field whose bytes two records share reads the same in both. */
  lemma {:induction false} FieldShared(r: seq<byte>, raw: seq<byte>, off: nat, n: nat, swapped: bool)
    requires off + n <= |raw| && |r| == |raw|
    requires forall i :: off <= i < off + n ==> r[i] == raw[i]
    ensures GetField(r, off, n, swapped) == GetField(raw, off, n, swapped)
  {
    assert r[off..off + n] == raw[off..off + n];
  }

  function Pow2(k: nat): (p: nat)
    ensures p >= 1
  {
    if k == 0 then 1 else 2 * Pow2(k - 1)
  }

  predicate Aligned(x: int, a: nat)
    requires a > 0
  {
    x % a == 0
  }

  /** ROUND_UP(x, a): the least multiple of `a` that is at least `x`. */
  function RoundUp(x: nat, a: nat): (r: nat)
    requires a > 0
    ensures x <= r < x + a
    ensures Aligned(r, a)
  {
    var y := x + a - 1;
    var q := y / a;
    assert q >= 0;
    DivisionExact(q, 0, a);
    q * a
  }

  /** The sign of a multiple of a positive number follows the multiplier, in steps of at least `a`. */
  lemma {:induction false} MulSign(k: int, a: nat)
    requires a > 0
    ensures k >= 1 ==> k * a >= a
    ensures k <= -1 ==> k * a + a <= 0
    decreases if k < 0 then -k else k
  {
    if k > 1 {
      MulSign(k - 1, a);
    } else if k < -1 {
      MulSign(k + 1, a);
    }
  }

  /** Euclidean division of `q * a + r` by `a` gives back `q` and `r`. */
  lemma {:induction false} DivisionExact(q: int, r: int, a: nat)
    requires a > 0 && 0 <= r < a
    ensures (q * a + r) / a == q && (q * a + r) % a == r
  {
    var y := q * a + r;
    var d, m := y / a, y % a;
    assert (q - d) * a == m - r;
    if q - d >= 1 || q - d <= -1 {
      MulSign(q - d, a);
    }
  }

  /** ROUND_UP stored back into a uint32 field. */
  function RoundUp32(x: nat, a: nat): (r: u32)
    requires a > 0
    ensures RoundUp(x, a) < TWO_32 ==> r == RoundUp(x, a)
  {
    RoundUp(x, a) % TWO_32
  }

  /** Rounding up never passes an aligned bound that is at least `x`. */
  lemma {:induction false} RoundUpBelowAligned(x: nat, a: nat, m: nat)
    requires a > 0 && x <= m && Aligned(m, a)
    ensures RoundUp(x, a) <= m
  {
    var q := (x + a - 1) / a;
    assert RoundUp(x, a) == q * a;
    var k := m / a;
    assert m == k * a;
    if m < q * a {
      MulSign(q - k, a);
    }
  }
}
