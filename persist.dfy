/** The four persistence steps of the editor: write_fat_header, write_fat_archs,
    write_mach_header and write_load_command, as functions from the container before
    to the container after. */
module Persistence {
  import opened Bytes
  import opened MachOFormat
  import opened Records

  /** The bytes at `[off, off + |d|)` after writing `d` there are `d`. */
  lemma {:induction false} HoldsAfterWrite(s: seq<byte>, off: nat, d: seq<byte>)
    ensures Holds(Overwrite(s, off, d), off, d)
  {
    var r := Overwrite(s, off, d);
    forall i | 0 <= i < |d| ensures r[off..off + |d|][i] == d[i] {
      assert r[off..off + |d|][i] == r[off + i];
    }
  }

  /** A write that does not touch `[off, off + |d|)` leaves what is there in place. */
  lemma {:induction false} HoldsAcrossWrite(s: seq<byte>, off: nat, d: seq<byte>, woff: nat, w: seq<byte>)
    requires Holds(s, off, d)
    ensures off + |d| <= woff || woff + |w| <= off ==> Holds(Overwrite(s, woff, w), off, d)
  {
    if off + |d| <= woff || woff + |w| <= off {
      var r := Overwrite(s, woff, w);
      forall i | 0 <= i < |d| ensures r[off..off + |d|][i] == d[i] {
        assert r[off..off + |d|][i] == r[off + i];
        assert s[off..off + |d|][i] == s[off + i];
      }
    }
  }

  /** Truncating or extending to a length that keeps `[off, off + |d|)` leaves it in place. */
  lemma {:induction false} HoldsAcrossResize(s: seq<byte>, off: nat, d: seq<byte>, n: nat)
    requires Holds(s, off, d)
    ensures off + |d| <= n ==> Holds(Resize(s, n), off, d)
  {
    if off + |d| <= n {
      var r := Resize(s, n);
      forall i | 0 <= i < |d| ensures r[off..off + |d|][i] == d[i] {
        assert r[off..off + |d|][i] == r[off + i];
        assert s[off..off + |d|][i] == s[off + i];
      }
    }
  }

  /** Every descriptor of a written table reads back as the slice's descriptor. */
  lemma {:induction false} TableReadsBack(bs: seq<byte>, archs: seq<Arch>, magic: u32)
    requires Holds(bs, FAT_HEADER_SIZE, EncodeFatTable(archs, magic))
    ensures forall i :: 0 <= i < |archs| ==>
              DecodeFatArch(bs, FAT_HEADER_SIZE + FAT_ARCH_SIZE * i, magic) == archs[i].desc
  {
    var t := EncodeFatTable(archs, magic);
    forall i | 0 <= i < |archs|
      ensures DecodeFatArch(bs, FAT_HEADER_SIZE + FAT_ARCH_SIZE * i, magic) == archs[i].desc
    {
      var k := FAT_ARCH_SIZE * i;
      SubSlice(bs, FAT_HEADER_SIZE, t, k, FAT_ARCH_SIZE);
      DecodeEncodeFatArch(bs, FAT_HEADER_SIZE + k, archs[i].desc, magic);
    }
  }

  /** The written fat header reads back as the magic and the slice count. */
  lemma {:induction false} HeaderReadsBack(bs: seq<byte>, magic: u32, n: u32)
    requires Holds(bs, 0, EncodeFatHeader(magic, n))
    ensures Word(bs, 0) == magic && Swap32(Word(bs, 4), magic) == n
  {
    var h := EncodeFatHeader(magic, n);
    SubSlice(bs, 0, h, 0, 4);
    SubSlice(bs, 0, h, 4, 4);
    assert h[0..4] == WordBytes(magic);
    assert h[4..8] == WordBytes(Swap32(n, magic));
    WordOfWordBytes(bs, 0, magic);
    WordOfWordBytes(bs, 4, Swap32(n, magic));
    Swap32Involutive(n, magic);
  }

  /** The header and descriptor table on disk say what the editor holds in memory. */
  ghost predicate Persisted(c: Container)
  {
    && Holds(c.bytes, 0, EncodeFatHeader(c.fatMagic, c.nArchs))
    && Holds(c.bytes, FAT_HEADER_SIZE, EncodeFatTable(c.archs, c.fatMagic))
  }

  /** write_fat_header: nothing for a thin container; otherwise the fat header at offset 0. */
  function WriteFatHeader(c: Container): (r: Container)
    ensures r == c.(bytes := r.bytes)
    ensures !c.isFat ==> r.bytes == c.bytes
    ensures |r.bytes| >= |c.bytes|
    ensures c.isFat ==> Holds(r.bytes, 0, EncodeFatHeader(c.fatMagic, c.nArchs))
    ensures c.isFat ==> Word(r.bytes, 0) == c.fatMagic && Swap32(Word(r.bytes, 4), c.fatMagic) == c.nArchs
    ensures forall i :: FAT_HEADER_SIZE <= i < |c.bytes| ==> r.bytes[i] == c.bytes[i]
  {
    if !c.isFat then c
    else
      var h := EncodeFatHeader(c.fatMagic, c.nArchs);
      var bs := Overwrite(c.bytes, 0, h);
      HoldsAfterWrite(c.bytes, 0, h);
      HeaderReadsBack(bs, c.fatMagic, c.nArchs);
      c.(bytes := bs)
  }

  /** The length a fat container's table says the file has: the end of the last slice. */
  function TableEnd(c: Container): u32
    requires |c.archs| > 0
  {
    var last := c.archs[|c.archs| - 1].desc;
    Add32(last.offset, last.size)
  }

  /** write_fat_archs. Thin: truncate the file to the one slice's size if the recorded
      size differs. Fat: write every descriptor after the fat header, then, when there
      is a slice, truncate or extend the file to the last slice's end if that differs
      from the recorded size. */
  function WriteFatArchs(c: Container): (r: Container)
    requires !c.isFat ==> |c.archs| > 0
    requires c.isFat && c.nArchs > 0 ==> |c.archs| > 0
    ensures r == c.(bytes := r.bytes, fileSize := r.fileSize)
    ensures !c.isFat ==> r.fileSize == c.archs[0].desc.size
    ensures c.isFat && c.nArchs > 0 ==> r.fileSize == TableEnd(c)
    ensures c.isFat && c.nArchs == 0 ==> r.fileSize == c.fileSize
    ensures r.fileSize == c.fileSize && !c.isFat ==> r.bytes == c.bytes
    ensures r.fileSize != c.fileSize ==> |r.bytes| == r.fileSize
    ensures c.isFat && FAT_HEADER_SIZE + FAT_ARCH_SIZE * |c.archs| <= |r.bytes| ==>
              Holds(r.bytes, FAT_HEADER_SIZE, EncodeFatTable(c.archs, c.fatMagic))
  {
    if !c.isFat then
      var size := c.archs[0].desc.size;
      if c.fileSize != size then c.(bytes := Resize(c.bytes, size), fileSize := size) else c
    else
      var t := EncodeFatTable(c.archs, c.fatMagic);
      var bs := Overwrite(c.bytes, FAT_HEADER_SIZE, t);
      HoldsAfterWrite(c.bytes, FAT_HEADER_SIZE, t);
      if c.nArchs > 0 && TableEnd(c) != c.fileSize then
        var n := TableEnd(c);
        HoldsAcrossResize(bs, FAT_HEADER_SIZE, t, n);
        c.(bytes := Resize(bs, n), fileSize := n)
      else
        c.(bytes := bs)
  }

  /** write_mach_header: the slice's Mach header, as held, at the slice's offset. */
  function WriteMachHeader(c: Container, a: nat): (r: Container)
    requires a < |c.archs|
    ensures r == c.(bytes := r.bytes)
    ensures |r.bytes| >= |c.bytes| && |r.bytes| >= c.archs[a].desc.offset + MACH_HEADER_SIZE
    ensures c.archs[a].desc.offset + MACH_HEADER_SIZE <= |c.bytes| ==> |r.bytes| == |c.bytes|
    ensures DecodeMachHeader(r.bytes, c.archs[a].desc.offset) == c.archs[a].header
    ensures Holds(r.bytes, c.archs[a].desc.offset, EncodeMachHeader(c.archs[a].header))
    ensures forall i :: 0 <= i < |c.bytes| && !(c.archs[a].desc.offset <= i < c.archs[a].desc.offset + MACH_HEADER_SIZE)
              ==> r.bytes[i] == c.bytes[i]
  {
    var off := c.archs[a].desc.offset;
    var h := EncodeMachHeader(c.archs[a].header);
    var bs := Overwrite(c.bytes, off, h);
    HoldsAfterWrite(c.bytes, off, h);
    DecodeEncodeMachHeader(bs, off, c.archs[a].header);
    c.(bytes := bs)
  }

  /** write_load_command: the command's `cmdsize` raw bytes at its file offset. */
  function WriteLoadCommand(bs: seq<byte>, lc: LoadCommand): (r: seq<byte>)
    requires lc.cmdsize <= |lc.raw|
    ensures |r| >= |bs| && (lc.fileOffset + lc.cmdsize <= |bs| ==> |r| == |bs|)
    ensures Holds(r, lc.fileOffset, lc.raw[..lc.cmdsize])
    ensures forall i :: 0 <= i < |bs| && !(lc.fileOffset <= i < lc.fileOffset + lc.cmdsize) ==> r[i] == bs[i]
  {
    HoldsAfterWrite(bs, lc.fileOffset, lc.raw[..lc.cmdsize]);
    Overwrite(bs, lc.fileOffset, lc.raw[..lc.cmdsize])
  }

  /** Writing the fat header and the table keeps any bytes that lie after the table and
      before the end the table records for the last slice. */
  lemma {:induction false} WriteTablesKeep(c: Container, o: nat, d: seq<byte>)
    requires c.isFat && c.nArchs == |c.archs| && |c.archs| > 0
    requires Holds(c.bytes, o, d)
    requires FAT_HEADER_SIZE + FAT_ARCH_SIZE * |c.archs| <= o && o + |d| <= TableEnd(c)
    ensures Holds(WriteFatArchs(WriteFatHeader(c)).bytes, o, d)
  {
    HeaderKeeps(c, o, d);
    TableKeeps(WriteFatHeader(c), o, d);
  }

  lemma {:induction false} HeaderKeeps(c: Container, o: nat, d: seq<byte>)
    requires Holds(c.bytes, o, d) && FAT_HEADER_SIZE <= o
    ensures Holds(WriteFatHeader(c).bytes, o, d)
  {
    if c.isFat {
      HoldsAcrossWrite(c.bytes, o, d, 0, EncodeFatHeader(c.fatMagic, c.nArchs));
    }
  }

  lemma {:induction false} TableKeeps(c: Container, o: nat, d: seq<byte>)
    requires c.isFat && c.nArchs == |c.archs| && |c.archs| > 0
    requires Holds(c.bytes, o, d)
    requires FAT_HEADER_SIZE + FAT_ARCH_SIZE * |c.archs| <= o && o + |d| <= TableEnd(c)
    ensures Holds(WriteFatArchs(c).bytes, o, d)
  {
    var tbl := EncodeFatTable(c.archs, c.fatMagic);
    HoldsAcrossWrite(c.bytes, o, d, FAT_HEADER_SIZE, tbl);
    HoldsAcrossResize(Overwrite(c.bytes, FAT_HEADER_SIZE, tbl), o, d, TableEnd(c));
  }

  /** When the recorded end of the last slice lies past the table, writing the fat
      header and the table persists them and leaves the file exactly that long. */
  lemma {:induction false} WriteTablesPersist(c: Container)
    requires c.isFat && c.nArchs == |c.archs| && |c.archs| > 0
    requires c.fileSize == TableEnd(c) ==> |c.bytes| == c.fileSize
    requires FAT_HEADER_SIZE + FAT_ARCH_SIZE * |c.archs| <= TableEnd(c)
    ensures var r := WriteFatArchs(WriteFatHeader(c));
            && Persisted(r) && |r.bytes| == r.fileSize == TableEnd(c)
            && r == c.(bytes := r.bytes, fileSize := r.fileSize)
  {
    var hdr := EncodeFatHeader(c.fatMagic, c.nArchs);
    var tbl := EncodeFatTable(c.archs, c.fatMagic);
    var c2 := WriteFatHeader(c);
    var t := Overwrite(c2.bytes, FAT_HEADER_SIZE, tbl);
    HoldsAcrossWrite(c2.bytes, 0, hdr, FAT_HEADER_SIZE, tbl);
    HoldsAfterWrite(c2.bytes, FAT_HEADER_SIZE, tbl);
    HoldsAcrossResize(t, 0, hdr, TableEnd(c));
    HoldsAcrossResize(t, FAT_HEADER_SIZE, tbl, TableEnd(c));
  }
}
