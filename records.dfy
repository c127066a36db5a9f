/** The records the editor keeps in memory, and the bytes they occupy in the file.

    A fat_arch descriptor is kept in host order: it is byte-swapped with the fat magic
    when read and again when written (swap_arch). A mach_header is kept exactly as the
    file stores it. A load command keeps its tag and size in host order, the absolute
    file offset of its record, and the record's raw bytes. */
module Records {
  import opened Bytes
  import opened MachOFormat

  datatype FatArch = FatArch(cputype: u32, cpusubtype: u32, offset: u32, size: u32, align: u32)

  datatype MachHeader = MachHeader(
    magic: u32, cputype: u32, cpusubtype: u32, filetype: u32,
    ncmds: u32, sizeofcmds: u32, flags: u32)

  /** `segname` is the 16-character name the code-signature scan compares with
      "__LINKEDIT"; the scan takes it from the command object, not from `raw`. */
  datatype LoadCommand = LoadCommand(
    cmd: u32, cmdsize: u32, fileOffset: nat, raw: seq<byte>, segname: string)

  /** One architecture slice: its descriptor, its Mach header and its load commands. */
  datatype Arch = Arch(desc: FatArch, header: MachHeader, commands: seq<LoadCommand>)

  /** The whole state of an open container: the file's bytes and the editor's fields. */
  datatype Container = Container(
    bytes: seq<byte>, fileSize: u32, isFat: bool, fatMagic: u32, nArchs: u32, archs: seq<Arch>)

  /** The 32-bit word at `off`, as a little-endian host reads it. */
  function Word(bs: seq<byte>, off: nat): (w: u32)
    requires off + 4 <= |bs|
  {
    LEBound(bs[off..off + 4]);
    Pow256Words();
    LE(bs[off..off + 4])
  }

  function WordBytes(v: u32): (bs: seq<byte>)
    ensures |bs| == 4
  {
    ToLE(v, 4)
  }

  lemma {:induction false} WordOfWordBytes(bs: seq<byte>, off: nat, v: u32)
    requires off + 4 <= |bs| && bs[off..off + 4] == WordBytes(v)
    ensures Word(bs, off) == v
  {
    Pow256Words();
    LEOfToLE(v, 4);
  }

  /** swap_arch: every field of the descriptor through SWAP32 with `magic`. */
  function SwapArch(a: FatArch, magic: u32): FatArch
  {
    FatArch(Swap32(a.cputype, magic), Swap32(a.cpusubtype, magic), Swap32(a.offset, magic),
            Swap32(a.size, magic), Swap32(a.align, magic))
  }

  lemma {:induction false} SwapArchInvolutive(a: FatArch, magic: u32)
    ensures SwapArch(SwapArch(a, magic), magic) == a
  {
    Swap32Involutive(a.cputype, magic);
    Swap32Involutive(a.cpusubtype, magic);
    Swap32Involutive(a.offset, magic);
    Swap32Involutive(a.size, magic);
    Swap32Involutive(a.align, magic);
  }

  /** The bytes of consecutive 32-bit words as host memory holds them. */
  function WordsBytes(ws: seq<u32>): (bs: seq<byte>)
    ensures |bs| == 4 * |ws|
  {
    if ws == [] then [] else WordBytes(ws[0]) + WordsBytes(ws[1..])
  }

  /** Reading the `i`-th word of a run of written words yields that word. */
  lemma {:induction false} WordsAt(bs: seq<byte>, off: nat, ws: seq<u32>, i: nat)
    requires off + 4 * |ws| <= |bs| && bs[off..off + 4 * |ws|] == WordsBytes(ws)
    requires i < |ws|
    ensures Word(bs, off + 4 * i) == ws[i]
  {
    WordsSlice(bs, off, ws, i);
    var p := off + 4 * i;
    assert bs[p..p + 4] == WordBytes(ws[i]);
    WordOfWordBytes(bs, p, ws[i]);
  }

  lemma {:induction false} WordsSlice(bs: seq<byte>, off: nat, ws: seq<u32>, i: nat)
    requires off + 4 * |ws| <= |bs| && bs[off..off + 4 * |ws|] == WordsBytes(ws)
    requires i < |ws|
    ensures bs[off + 4 * i..off + 4 * i + 4] == WordBytes(ws[i])
    decreases i
  {
    var e := WordsBytes(ws);
    if i == 0 {
      SubSlice(bs, off, e, 0, 4);
      assert e[0..4] == WordBytes(ws[0]);
    } else {
      SubSlice(bs, off, e, 4, 4 * |ws| - 4);
      assert e[4..4 * |ws|] == WordsBytes(ws[1..]);
      WordsSlice(bs, off + 4, ws[1..], i - 1);
    }
  }

  /** A piece of bytes known to sit at `off` sits at the corresponding offset. */
  lemma {:induction false} SubSlice(bs: seq<byte>, off: nat, e: seq<byte>, k: nat, n: nat)
    requires off + |e| <= |bs| && bs[off..off + |e|] == e && k + n <= |e|
    ensures bs[off + k..off + k + n] == e[k..k + n]
  {
    forall p | off + k <= p < off + k + n ensures bs[p] == e[p - off] {
      assert bs[off..off + |e|][p - off] == bs[p];
    }
  }

  function ArchWords(a: FatArch): seq<u32>
  {
    [a.cputype, a.cpusubtype, a.offset, a.size, a.align]
  }

  /** The 20 bytes written for a host-order descriptor: swap_arch, then the struct's memory. */
  function EncodeFatArch(a: FatArch, magic: u32): (bs: seq<byte>)
    ensures |bs| == FAT_ARCH_SIZE
  {
    WordsBytes(ArchWords(SwapArch(a, magic)))
  }

  /** READ of a descriptor at `off`, then swap_arch. */
  function DecodeFatArch(bs: seq<byte>, off: nat, magic: u32): FatArch
    requires off + FAT_ARCH_SIZE <= |bs|
  {
    SwapArch(FatArch(Word(bs, off), Word(bs, off + 4), Word(bs, off + 8),
                     Word(bs, off + 12), Word(bs, off + 16)), magic)
  }

  /** Reading back a written descriptor yields the descriptor. */
  lemma {:induction false} DecodeEncodeFatArch(bs: seq<byte>, off: nat, a: FatArch, magic: u32)
    requires off + FAT_ARCH_SIZE <= |bs| && bs[off..off + FAT_ARCH_SIZE] == EncodeFatArch(a, magic)
    ensures DecodeFatArch(bs, off, magic) == a
  {
    var ws := ArchWords(SwapArch(a, magic));
    WordsAt(bs, off, ws, 0);
    WordsAt(bs, off, ws, 1);
    WordsAt(bs, off, ws, 2);
    WordsAt(bs, off, ws, 3);
    WordsAt(bs, off, ws, 4);
    SwapArchInvolutive(a, magic);
  }

  /** The fat_header written by write_fat_header: the magic as is, the count through SWAP32. */
  function EncodeFatHeader(magic: u32, n: u32): (bs: seq<byte>)
    ensures |bs| == FAT_HEADER_SIZE
  {
    WordBytes(magic) + WordBytes(Swap32(n, magic))
  }

  /** The descriptor table written by write_fat_archs, one entry per slice in order. */
  function EncodeFatTable(archs: seq<Arch>, magic: u32): (bs: seq<byte>)
    ensures |bs| == FAT_ARCH_SIZE * |archs|
    ensures forall i :: 0 <= i < |archs| ==>
              bs[FAT_ARCH_SIZE * i..FAT_ARCH_SIZE * i + FAT_ARCH_SIZE] == EncodeFatArch(archs[i].desc, magic)
  {
    if archs == [] then []
    else
      var init := EncodeFatTable(archs[..|archs| - 1], magic);
      var r := init + EncodeFatArch(archs[|archs| - 1].desc, magic);
      assert forall i :: 0 <= i < |archs| - 1 ==>
               r[FAT_ARCH_SIZE * i..FAT_ARCH_SIZE * i + FAT_ARCH_SIZE]
               == init[FAT_ARCH_SIZE * i..FAT_ARCH_SIZE * i + FAT_ARCH_SIZE];
      r
  }

  function HeaderWords(h: MachHeader): seq<u32>
  {
    [h.magic, h.cputype, h.cpusubtype, h.filetype, h.ncmds, h.sizeofcmds, h.flags]
  }

  /** The bytes of a Mach header as the file (and memory) hold it. */
  function EncodeMachHeader(h: MachHeader): (bs: seq<byte>)
    ensures |bs| == MACH_HEADER_SIZE
  {
    WordsBytes(HeaderWords(h))
  }

  /** READ of a Mach header at `off`. */
  function DecodeMachHeader(bs: seq<byte>, off: nat): MachHeader
    requires off + MACH_HEADER_SIZE <= |bs|
  {
    MachHeader(Word(bs, off), Word(bs, off + 4), Word(bs, off + 8), Word(bs, off + 12),
               Word(bs, off + 16), Word(bs, off + 20), Word(bs, off + 24))
  }

  /** Reading back a written Mach header yields the header. */
  lemma {:induction false} DecodeEncodeMachHeader(bs: seq<byte>, off: nat, h: MachHeader)
    requires off + MACH_HEADER_SIZE <= |bs| && bs[off..off + MACH_HEADER_SIZE] == EncodeMachHeader(h)
    ensures DecodeMachHeader(bs, off) == h
  {
    var ws := HeaderWords(h);
    WordsAt(bs, off, ws, 0);
    WordsAt(bs, off, ws, 1);
    WordsAt(bs, off, ws, 2);
    WordsAt(bs, off, ws, 3);
    WordsAt(bs, off, ws, 4);
    WordsAt(bs, off, ws, 5);
    WordsAt(bs, off, ws, 6);
  }

  /** The bytes `[off, off + |d|)` of `s` are exactly `d`. */
  predicate Holds(s: seq<byte>, off: nat, d: seq<byte>)
  {
    off + |d| <= |s| && s[off..off + |d|] == d
  }

  /** The end offset of a slice, `offset + size`, without wrap-around. */
  function End(a: FatArch): nat
  {
    a.offset + a.size
  }

  /** The bytes of the file that a descriptor covers. */
  function Piece(b: seq<byte>, a: FatArch): (d: seq<byte>)
    requires End(a) <= |b|
    ensures |d| == a.size
  {
    b[a.offset..End(a)]
  }
}
