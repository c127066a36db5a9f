/** Operations on whole slices: turning a thin file into a one-slice fat file and back,
    copying a slice out, and appending a slice taken from another container. */
module Slices {
  import opened Bytes
  import opened MachOFormat
  import opened Records
  import opened Persistence

  /** The alignment of a slice in bytes, `1 << align`. */
  function AlignOf(a: FatArch): (n: nat)
    ensures n >= 1
  {
    Pow2(a.align)
  }

  /** A thin container as the constructor leaves it: one slice spanning the whole file. */
  ghost predicate ThinLayout(c: Container)
  {
    && !c.isFat
    && c.nArchs == 1 && |c.archs| == 1
    && |c.bytes| == c.fileSize == c.archs[0].desc.size
  }

  /** A well laid out fat container: the file is as long as recorded; every slice is
      aligned, starts after the header and descriptor table, and ends before the next
      one starts; the last slice ends the file. */
  ghost predicate FatLayout(c: Container)
  {
    && c.isFat
    && c.nArchs == |c.archs|
    && |c.bytes| == c.fileSize
    && (forall i :: 0 <= i < |c.archs| ==> Aligned(c.archs[i].desc.offset, AlignOf(c.archs[i].desc)))
    && (forall i :: 0 <= i < |c.archs| ==> FAT_HEADER_SIZE + FAT_ARCH_SIZE * |c.archs| <= c.archs[i].desc.offset)
    && (forall i, j :: 0 <= i < j < |c.archs| ==> End(c.archs[i].desc) <= c.archs[j].desc.offset)
    && (if |c.archs| == 0 then FAT_HEADER_SIZE <= c.fileSize
        else End(c.archs[|c.archs| - 1].desc) == c.fileSize)
  }

  lemma {:induction false} FatLayoutEnds(c: Container)
    requires FatLayout(c)
    ensures forall i :: 0 <= i < |c.archs| ==> End(c.archs[i].desc) <= |c.bytes|
  {
    forall i | 0 <= i < |c.archs| ensures End(c.archs[i].desc) <= |c.bytes| {
      var last := |c.archs| - 1;
      if i < last {
        assert End(c.archs[i].desc) <= c.archs[last].desc.offset;
      }
    }
  }

  /** The offset make_fat gives the slice: the fat header's size rounded up to the
      slice's alignment. */
  function FatOffset(a: FatArch): (off: u32)
    ensures RoundUp(FAT_HEADER_SIZE, AlignOf(a)) < TWO_32 ==> off == RoundUp(FAT_HEADER_SIZE, AlignOf(a))
  {
    RoundUp32(FAT_HEADER_SIZE, AlignOf(a))
  }

  /** make_fat: extend the file by the new slice offset, move the whole thin file up to
      that offset, and record the slice there. The fat magic becomes FAT_CIGAM. The fat
      header and descriptor table are written while the container is still marked thin,
      so neither reaches the file; the thin branch of write_fat_archs runs instead. */
  function MakeFat(c: Container): (r: Container)
    requires !c.isFat && |c.archs| > 0
    requires c.fileSize + RoundUp(FAT_HEADER_SIZE, AlignOf(c.archs[0].desc)) < TWO_32
    ensures r.isFat && r.fatMagic == FAT_CIGAM
    ensures r.nArchs == c.nArchs && |r.archs| == |c.archs|
    ensures r.archs[0] == c.archs[0].(desc := c.archs[0].desc.(offset := FatOffset(c.archs[0].desc)))
    ensures r.archs[1..] == c.archs[1..]
    ensures c.fileSize == c.archs[0].desc.size ==> r.fileSize == c.fileSize + FatOffset(c.archs[0].desc)
  {
    var a := c.archs[0];
    var off := FatOffset(a.desc);
    var n := Add32(c.fileSize, off);
    var b1 := Resize(c.bytes, n);
    var b2 := Move(b1, off, 0, c.fileSize);
    var b3 := Overwrite(b2, off, Zeros(0));
    var c1 := c.(bytes := b3, fatMagic := FAT_CIGAM);
    var c2 := WriteFatHeader(c1);
    var c3 := c2.(archs := c2.archs[0 := a.(desc := a.desc.(offset := off))]);
    var c4 := WriteFatArchs(c3);
    c4.(isFat := true, fileSize := Add32(c4.fileSize, off))
  }

  /** On a thin container as opened, make_fat leaves the old first `offset` bytes in
      place (zero-padded past the old end) and the whole thin file after them: no fat
      header or table is written. */
  lemma {:induction false} MakeFatBytes(c: Container)
    requires ThinLayout(c)
    requires c.fileSize + RoundUp(FAT_HEADER_SIZE, AlignOf(c.archs[0].desc)) < TWO_32
    ensures var off := FatOffset(c.archs[0].desc);
            var r := MakeFat(c);
            && r.bytes == Resize(c.bytes, off) + c.bytes
            && |r.bytes| == r.fileSize
            && r.archs[0].desc.offset + r.archs[0].desc.size == r.fileSize
  {
    var off := FatOffset(c.archs[0].desc);
    var fs := c.fileSize;
    var b1 := Resize(c.bytes, fs + off);
    var b2 := Move(b1, off, 0, fs);
    assert b1[0..fs] == c.bytes;
    assert Overwrite(b2, off, Zeros(0)) == b2;
    var r := MakeFat(c);
    assert r.bytes == b2;
    var e := Resize(c.bytes, off) + c.bytes;
    assert |b2| == |e|;
    forall i | 0 <= i < |b2| ensures b2[i] == e[i] {
      if i >= off {
        assert b2[off..off + fs][i - off] == b2[i];
      }
    }
  }

  /** When the thin file starts with a Mach magic, so does the container make_fat
      leaves: it cannot be reopened as a fat file. */
  lemma {:induction false} MakeFatKeepsThinMagic(c: Container)
    requires ThinLayout(c) && |c.bytes| >= 4
    requires c.fileSize + RoundUp(FAT_HEADER_SIZE, AlignOf(c.archs[0].desc)) < TWO_32
    requires !IsFat(Word(c.bytes, 0))
    ensures |MakeFat(c).bytes| >= 4 && !IsFat(Word(MakeFat(c).bytes, 0))
  {
    var off := FatOffset(c.archs[0].desc);
    MakeFatBytes(c);
    var r := MakeFat(c);
    assert forall i :: 0 <= i < 4 ==> r.bytes[i] == Resize(c.bytes, off)[i];
    assert r.bytes[0..4] == c.bytes[0..4];
  }

  /** make_thin: move the chosen slice to the start of the file, truncate the file to
      its size, and keep that slice alone. Its descriptor keeps its old offset. */
  function MakeThin(c: Container, k: nat): (r: Container)
    requires c.isFat && k < |c.archs|
    requires End(c.archs[k].desc) <= |c.bytes|
    ensures r.bytes == c.bytes[c.archs[k].desc.offset..End(c.archs[k].desc)]
    ensures r.fileSize == c.archs[k].desc.size
    ensures !r.isFat && r.nArchs == 1 && r.archs == [c.archs[k]] && r.fatMagic == c.fatMagic
  {
    var a := c.archs[k];
    var size := a.desc.size;
    var b := Move(c.bytes, 0, a.desc.offset, size);
    var bs := Resize(b, size);
    assert bs == b[0..size];
    c.(bytes := bs, fileSize := size, nArchs := 1, isFat := false, archs := [a])
  }

  /** make_fat followed by make_thin of its slice gives back the thin file's bytes and size. */
  lemma {:induction false} MakeFatThenThin(c: Container)
    requires ThinLayout(c)
    requires c.fileSize + RoundUp(FAT_HEADER_SIZE, AlignOf(c.archs[0].desc)) < TWO_32
    ensures var r := MakeFat(c);
            && End(r.archs[0].desc) <= |r.bytes|
            && MakeThin(r, 0).bytes == c.bytes
            && MakeThin(r, 0).fileSize == c.fileSize
            && MakeThin(r, 0).archs[0].desc.size == c.archs[0].desc.size
  {
    MakeFatBytes(c);
    var off := FatOffset(c.archs[0].desc);
    var r := MakeFat(c);
    var e := Resize(c.bytes, off);
    assert (e + c.bytes)[off..off + c.fileSize] == c.bytes;
  }

  /** save_arch_to_file: the new file holds exactly the chosen slice's bytes; a file
      that cannot be opened leaves nothing. */
  function SaveArch(c: Container, k: nat, canOpen: bool): (r: (bool, seq<byte>))
    requires k < |c.archs| && End(c.archs[k].desc) <= |c.bytes|
    ensures r.0 == canOpen
    ensures canOpen ==> r.1 == c.bytes[c.archs[k].desc.offset..End(c.archs[k].desc)]
    ensures !canOpen ==> r.1 == []
  {
    if !canOpen then (false, [])
    else
      var a := c.archs[k].desc;
      var out := Overwrite([], 0, c.bytes[a.offset..a.offset + a.size]);
      (true, out)
  }

  /** A saved slice is what make_thin would leave of the container. */
  lemma {:induction false} SaveArchIsMakeThin(c: Container, k: nat)
    requires c.isFat && k < |c.archs| && End(c.archs[k].desc) <= |c.bytes|
    ensures SaveArch(c, k, true).1 == MakeThin(c, k).bytes
  {
  }

  /** The descriptor insert_arch_from_macho records: the other container's descriptor
      swapped out with its fat magic, then with this one's. */
  function ImportedDesc(c: Container, src: Container, k: nat): FatArch
    requires k < |src.archs|
  {
    SwapArch(SwapArch(src.archs[k].desc, src.fatMagic), c.fatMagic)
  }

  /** Two fat magics of the same byte order import a descriptor unchanged. */
  lemma {:induction false} ImportedDescSameOrder(c: Container, src: Container, k: nat)
    requires k < |src.archs|
    requires IsSwappedMagic(c.fatMagic) == IsSwappedMagic(src.fatMagic)
    ensures ImportedDesc(c, src, k) == src.archs[k].desc
  {
    var d := src.archs[k].desc;
    SwapArchInvolutive(d, src.fatMagic);
    if IsSwappedMagic(c.fatMagic) {
      assert forall v: u32 :: Swap32(v, c.fatMagic) == Swap32(v, src.fatMagic);
    }
  }

  /** The offset of an appended slice: the file size rounded up to the slice's alignment. */
  function AppendOffset(c: Container, d: FatArch): (off: u32)
    ensures RoundUp(c.fileSize, AlignOf(d)) < TWO_32 ==> off == RoundUp(c.fileSize, AlignOf(d))
  {
    RoundUp32(c.fileSize, AlignOf(d))
  }

  /** insert_arch_from_macho: count one more slice; record the imported descriptor at
      the file size rounded up to its alignment; extend the file to `file_size + offset`;
      zero the gap; copy the slice's size in bytes from the start of the other file;
      then write the fat header and table, which sets the file to the end of the new
      slice. */
  function InsertArch(c: Container, src: Container, k: nat): (r: Container)
    requires k < |src.archs|
    requires ImportedDesc(c, src, k).size <= |src.bytes|
    ensures r.nArchs == Add32(c.nArchs, 1)
    ensures r.archs == c.archs + [src.archs[k].(desc := ImportedDesc(c, src, k).(offset := AppendOffset(c, ImportedDesc(c, src, k))))]
    ensures r.isFat == c.isFat && r.fatMagic == c.fatMagic
  {
    WriteFatArchs(WriteFatHeader(InsertStage(c, src, k)))
  }

  /** The container insert_arch_from_macho holds just before it writes the header and
      the table. When no arithmetic wraps, the file is extended by the new offset, the
      gap up to it is zero and the copied bytes sit at it. */
  function InsertStage(c: Container, src: Container, k: nat): (c1: Container)
    requires k < |src.archs|
    requires ImportedDesc(c, src, k).size <= |src.bytes|
    ensures c1.nArchs == Add32(c.nArchs, 1)
    ensures c1.archs == c.archs + [src.archs[k].(desc := ImportedDesc(c, src, k).(offset := AppendOffset(c, ImportedDesc(c, src, k))))]
    ensures c1.isFat == c.isFat && c1.fatMagic == c.fatMagic
    ensures var d := ImportedDesc(c, src, k);
            var off := RoundUp(c.fileSize, AlignOf(d));
            c.fileSize + off < TWO_32 ==>
              && c1.fileSize == c.fileSize + off
              && c1.bytes == Staged(c.bytes, c.fileSize + off, c.fileSize, off - c.fileSize, off, src.bytes[0..d.size])
  {
    var d := ImportedDesc(c, src, k);
    var off := AppendOffset(c, d);
    var a := src.archs[k].(desc := d.(offset := off));
    var newSize := Add32(c.fileSize, off);
    var b3 := Staged(c.bytes, newSize, c.fileSize, Sub32(off, c.fileSize), off, src.bytes[0..d.size]);
    c.(bytes := b3, nArchs := Add32(c.nArchs, 1), archs := c.archs + [a], fileSize := newSize)
  }

  /** The file insert_arch_from_macho builds before it writes the header and table:
      truncated or extended to `n` bytes, `gap` zeros written at `fs`, and the copied
      bytes written at `off`. */
  function Staged(s: seq<byte>, n: nat, fs: nat, gap: nat, off: nat, piece: seq<byte>): (b: seq<byte>)
    ensures n == fs + off && fs + gap == off ==>
              && |b| == (if off + |piece| <= n then n else off + |piece|)
              && Holds(b, off, piece)
              && Holds(b, fs, Zeros(gap))
  {
    var b1 := Resize(s, n);
    var b2 := Overwrite(b1, fs, Zeros(gap));
    HoldsAfterWrite(b1, fs, Zeros(gap));
    HoldsAfterWrite(b2, off, piece);
    HoldsAcrossWrite(b2, fs, Zeros(gap), off, piece);
    Overwrite(b2, off, piece)
  }

  /** Bytes that lie before the old end of the file survive staging. */
  lemma {:induction false} StagedKeeps(s: seq<byte>, fs: nat, off: nat, piece: seq<byte>, o: nat, d: seq<byte>)
    requires fs <= off && Holds(s, o, d) && o + |d| <= fs
    ensures Holds(Staged(s, fs + off, fs, off - fs, off, piece), o, d)
  {
    var b1 := Resize(s, fs + off);
    HoldsAcrossResize(s, o, d, fs + off);
    HoldsAcrossWrite(b1, o, d, fs, Zeros(off - fs));
    HoldsAcrossWrite(Overwrite(b1, fs, Zeros(off - fs)), o, d, off, piece);
  }

  /** A container with the slice `a` appended at its recorded offset, past the old end
      of the file: the file extended by that offset, the gap zeroed and `piece` copied in. */
  function AppendStage(c: Container, a: Arch, piece: seq<byte>): (c1: Container)
    requires c.fileSize <= a.desc.offset && c.fileSize + a.desc.offset < TWO_32 && c.nArchs + 1 < TWO_32
    ensures |c1.archs| == |c.archs| + 1 && c1.archs[..|c.archs|] == c.archs && c1.archs[|c.archs|] == a
    ensures c1.archs == c.archs + [a]
    ensures c1.isFat == c.isFat && c1.fatMagic == c.fatMagic && c1.nArchs == c.nArchs + 1
    ensures c1.fileSize == c.fileSize + a.desc.offset
    ensures Holds(c1.bytes, a.desc.offset, piece) && Holds(c1.bytes, c.fileSize, Zeros(a.desc.offset - c.fileSize))
  {
    var off := a.desc.offset;
    var c1 := c.(bytes := Staged(c.bytes, c.fileSize + off, c.fileSize, off - c.fileSize, off, piece),
                 nArchs := c.nArchs + 1, archs := c.archs + [a], fileSize := c.fileSize + off);
    assert c1.archs[..|c.archs|] == c.archs;
    c1
  }

  /** Appending keeps every old slice in place, and writing the header and table after
      it as well. */
  lemma {:induction false} AppendKeepsSlices(c: Container, a: Arch, piece: seq<byte>)
    requires FatLayout(c)
    requires c.fileSize <= a.desc.offset && |piece| == a.desc.size
    requires c.fileSize + a.desc.offset + a.desc.size < TWO_32 && c.nArchs + 1 < TWO_32
    requires forall i :: 0 <= i < |c.archs| ==> FAT_HEADER_SIZE + FAT_ARCH_SIZE * (|c.archs| + 1) <= c.archs[i].desc.offset
    ensures forall i :: 0 <= i < |c.archs| ==>
              && End(c.archs[i].desc) <= |c.bytes|
              && Holds(WriteFatArchs(WriteFatHeader(AppendStage(c, a, piece))).bytes, c.archs[i].desc.offset,
                       Piece(c.bytes, c.archs[i].desc))
  {
    FatLayoutEnds(c);
    forall i | 0 <= i < |c.archs|
      ensures Holds(WriteFatArchs(WriteFatHeader(AppendStage(c, a, piece))).bytes, c.archs[i].desc.offset,
                    Piece(c.bytes, c.archs[i].desc))
    {
      AppendKeepsRange(c, a, piece, c.archs[i].desc.offset, Piece(c.bytes, c.archs[i].desc));
    }
  }

  lemma {:induction false} AppendKeepsRange(c: Container, a: Arch, piece: seq<byte>, o: nat, d: seq<byte>)
    requires c.isFat && c.nArchs == |c.archs|
    requires c.fileSize <= a.desc.offset && |piece| == a.desc.size
    requires c.fileSize + a.desc.offset + a.desc.size < TWO_32 && c.nArchs + 1 < TWO_32
    requires Holds(c.bytes, o, d) && o + |d| <= c.fileSize
    requires FAT_HEADER_SIZE + FAT_ARCH_SIZE * (|c.archs| + 1) <= o
    ensures Holds(WriteFatArchs(WriteFatHeader(AppendStage(c, a, piece))).bytes, o, d)
  {
    var c1 := AppendStage(c, a, piece);
    assert TableEnd(c1) == a.desc.offset + a.desc.size;
    AppendStageKeeps(c, a, piece, o, d);
    WriteTablesKeep(c1, o, d);
  }

  lemma {:induction false} AppendStageKeeps(c: Container, a: Arch, piece: seq<byte>, o: nat, d: seq<byte>)
    requires c.fileSize <= a.desc.offset && c.fileSize + a.desc.offset < TWO_32 && c.nArchs + 1 < TWO_32
    requires Holds(c.bytes, o, d) && o + |d| <= c.fileSize
    ensures Holds(AppendStage(c, a, piece).bytes, o, d)
  {
    StagedKeeps(c.bytes, c.fileSize, a.desc.offset, piece, o, d);
  }

  /** Appending a slice past the old end with room for its descriptor leaves a well laid
      out, persisted container that ends where the new slice ends, with the new bytes at
      the slice's offset and zeros before them. */
  lemma {:induction false} AppendLayout(c: Container, a: Arch, piece: seq<byte>)
    requires FatLayout(c)
    requires c.fileSize <= a.desc.offset && |piece| == a.desc.size
    requires Aligned(a.desc.offset, AlignOf(a.desc))
    requires c.fileSize + a.desc.offset + a.desc.size < TWO_32 && c.nArchs + 1 < TWO_32
    requires FAT_HEADER_SIZE + FAT_ARCH_SIZE * (|c.archs| + 1) <= a.desc.offset
    requires forall i :: 0 <= i < |c.archs| ==> FAT_HEADER_SIZE + FAT_ARCH_SIZE * (|c.archs| + 1) <= c.archs[i].desc.offset
    ensures var r := WriteFatArchs(WriteFatHeader(AppendStage(c, a, piece)));
            && FatLayout(r) && Persisted(r)
            && r.fileSize == a.desc.offset + a.desc.size
            && Holds(r.bytes, a.desc.offset, piece)
            && (FAT_HEADER_SIZE + FAT_ARCH_SIZE * (|c.archs| + 1) <= c.fileSize ==>
                  Holds(r.bytes, c.fileSize, Zeros(a.desc.offset - c.fileSize)))
  {
    var c1 := AppendStage(c, a, piece);
    var fs := c.fileSize;
    var off := a.desc.offset;
    assert TableEnd(c1) == off + a.desc.size;
    WriteTablesKeep(c1, off, piece);
    if FAT_HEADER_SIZE + FAT_ARCH_SIZE * (|c.archs| + 1) <= fs {
      WriteTablesKeep(c1, fs, Zeros(off - fs));
    }
    WriteTablesPersist(c1);
    AppendedLayout(c, a, WriteFatArchs(WriteFatHeader(c1)));
  }

  /** The layout conditions for a container whose slices are those of a well laid out
      one followed by a slice past its end. */
  lemma {:induction false} AppendedLayout(c: Container, a: Arch, r: Container)
    requires FatLayout(c)
    requires r.isFat && r.nArchs == |c.archs| + 1
    requires |r.archs| == |c.archs| + 1 && r.archs[..|c.archs|] == c.archs && r.archs[|c.archs|] == a
    requires c.fileSize <= a.desc.offset && Aligned(a.desc.offset, AlignOf(a.desc))
    requires |r.bytes| == r.fileSize == End(a.desc)
    requires FAT_HEADER_SIZE + FAT_ARCH_SIZE * (|c.archs| + 1) <= a.desc.offset
    requires forall i :: 0 <= i < |c.archs| ==> FAT_HEADER_SIZE + FAT_ARCH_SIZE * (|c.archs| + 1) <= c.archs[i].desc.offset
    ensures FatLayout(r)
  {
    var n := |c.archs|;
    forall i | 0 <= i < n ensures r.archs[i] == c.archs[i] {
      assert r.archs[i] == r.archs[..n][i];
    }
    InsertArchOrder(c, r);
  }

  /** `r` is `c` with the slice `a` holding `piece` appended: well laid out and
      persisted, ending where the new slice ends, with `piece` at the new slice's offset,
      zeros between the old end and that offset when the old end lay past the grown
      table, and every old slice's bytes where they were. */
  ghost predicate AppendedTo(c: Container, r: Container, a: Arch, piece: seq<byte>)
  {
    && FatLayout(r) && Persisted(r)
    && r.fileSize == End(a.desc)
    && Holds(r.bytes, a.desc.offset, piece)
    && (c.fileSize <= a.desc.offset && FAT_HEADER_SIZE + FAT_ARCH_SIZE * (|c.archs| + 1) <= c.fileSize ==>
          Holds(r.bytes, c.fileSize, Zeros(a.desc.offset - c.fileSize)))
    && (forall i :: 0 <= i < |c.archs| ==>
          && End(c.archs[i].desc) <= |c.bytes|
          && Holds(r.bytes, c.archs[i].desc.offset, Piece(c.bytes, c.archs[i].desc)))
  }

  /** Appending past the old end, with room in the table for one more descriptor. */
  lemma {:induction false} AppendAll(c: Container, a: Arch, piece: seq<byte>)
    requires FatLayout(c)
    requires c.fileSize <= a.desc.offset && |piece| == a.desc.size
    requires Aligned(a.desc.offset, AlignOf(a.desc))
    requires c.fileSize + a.desc.offset + a.desc.size < TWO_32 && c.nArchs + 1 < TWO_32
    requires FAT_HEADER_SIZE + FAT_ARCH_SIZE * (|c.archs| + 1) <= a.desc.offset
    requires forall i :: 0 <= i < |c.archs| ==> FAT_HEADER_SIZE + FAT_ARCH_SIZE * (|c.archs| + 1) <= c.archs[i].desc.offset
    ensures AppendedTo(c, WriteFatArchs(WriteFatHeader(AppendStage(c, a, piece))), a, piece)
  {
    AppendLayout(c, a, piece);
    AppendKeepsSlices(c, a, piece);
  }

  /** On a well laid out fat container with room in the table for one more descriptor,
      insert_arch_from_macho appends the new slice at the file size rounded up to its
      alignment, holding the other file's leading bytes, keeps every old slice in place
      and leaves a well laid out, persisted container. */
  lemma {:induction false} InsertArchLayout(c: Container, src: Container, k: nat)
    requires FatLayout(c)
    requires k < |src.archs|
    requires c.nArchs + 1 < TWO_32
    requires var d := ImportedDesc(c, src, k);
             && d.size <= |src.bytes|
             && c.fileSize + RoundUp(c.fileSize, AlignOf(d)) + d.size < TWO_32
             && FAT_HEADER_SIZE + FAT_ARCH_SIZE * (|c.archs| + 1) <= RoundUp(c.fileSize, AlignOf(d))
    requires forall i :: 0 <= i < |c.archs| ==>
               FAT_HEADER_SIZE + FAT_ARCH_SIZE * (|c.archs| + 1) <= c.archs[i].desc.offset
    ensures var d := ImportedDesc(c, src, k);
            AppendedTo(c, InsertArch(c, src, k),
                       src.archs[k].(desc := d.(offset := RoundUp(c.fileSize, AlignOf(d)))),
                       src.bytes[0..d.size])
  {
    var d := ImportedDesc(c, src, k);
    var off := RoundUp(c.fileSize, AlignOf(d));
    var a := src.archs[k].(desc := d.(offset := off));
    var piece := src.bytes[0..d.size];
    InsertStageIsAppend(c, src, k, d, a, piece);
    AppendAll(c, a, piece);
  }

  /** The room InsertArchLayout asks for is needed: insert_arch_from_macho writes a table
      one descriptor longer whatever lies after it, so when the first slice starts
      before that longer table ends, the table reaches into it and the result is not
      well laid out. */
  lemma {:induction false} InsertArchIntoTable(c: Container, src: Container, k: nat)
    requires FatLayout(c) && 0 < |c.archs|
    requires c.archs[0].desc.offset < FAT_HEADER_SIZE + FAT_ARCH_SIZE * (|c.archs| + 1)
    requires k < |src.archs| && ImportedDesc(c, src, k).size <= |src.bytes|
    ensures var r := InsertArch(c, src, k);
            && |r.archs| == |c.archs| + 1 && r.archs[0] == c.archs[0]
            && r.archs[0].desc.offset < FAT_HEADER_SIZE + FAT_ARCH_SIZE * |r.archs|
            && !FatLayout(r)
  {
    var r := InsertArch(c, src, k);
    assert r.archs[0] == c.archs[0];
  }

  /** Without wrap-around, insert_arch_from_macho stages the imported slice as an append. */
  lemma {:induction false} InsertStageIsAppend(c: Container, src: Container, k: nat, d: FatArch, a: Arch, piece: seq<byte>)
    requires k < |src.archs|
    requires d == ImportedDesc(c, src, k) && d.size <= |src.bytes|
    requires c.fileSize + RoundUp(c.fileSize, AlignOf(d)) < TWO_32 && c.nArchs + 1 < TWO_32
    requires a == src.archs[k].(desc := d.(offset := RoundUp(c.fileSize, AlignOf(d))))
    requires piece == src.bytes[0..d.size]
    ensures InsertStage(c, src, k) == AppendStage(c, a, piece)
  {
    var c1 := InsertStage(c, src, k);
    var c2 := AppendStage(c, a, piece);
    assert AppendOffset(c, d) == a.desc.offset;
    assert c1.archs == c.archs + [a] == c2.archs;
    assert c1.bytes == c2.bytes;
  }

  /** Appending a slice that starts at or after the old end keeps the slices in order. */
  lemma {:induction false} InsertArchOrder(c: Container, r: Container)
    requires FatLayout(c)
    requires |r.archs| == |c.archs| + 1 && r.archs[..|c.archs|] == c.archs
    requires c.fileSize <= r.archs[|c.archs|].desc.offset
    ensures forall i, j :: 0 <= i < j < |r.archs| ==> End(r.archs[i].desc) <= r.archs[j].desc.offset
  {
    FatLayoutEnds(c);
    var n := |c.archs|;
    forall i, j | 0 <= i < j < n + 1 ensures End(r.archs[i].desc) <= r.archs[j].desc.offset {
      assert r.archs[i] == r.archs[..n][i] == c.archs[i];
      if j < n {
        assert r.archs[j] == r.archs[..n][j] == c.archs[j];
      }
    }
  }
}
