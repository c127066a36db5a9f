/** Opening a container: the checks the constructor makes on the file, and the fields it
    derives from the fat header and descriptor table (or, for a thin file, from the Mach
    header alone). */
module Parse {
  import opened Bytes
  import opened MachOFormat
  import opened Records
  import opened Persistence

  datatype ParseError =
    | FileTooLarge          // the file is longer than 2^32 - 1 bytes
    | UnknownMagic(magic: u32)
    | Truncated             // a header or descriptor would be read past the end of the file

  datatype Result<T> = Ok(value: T) | Err(error: ParseError)

  const UINT32_MAX: nat := 0xFFFF_FFFF

  /** arch_from_mach_header: the descriptor of a thin file's only slice, in the fat
      magic's byte order. Swapped back, it is the slice at offset 0 spanning `size`
      bytes, with the header's CPU type and subtype in host order and the page-size
      alignment of that CPU. */
  function ArchFromMachHeader(mh: MachHeader, size: u32, fatMagic: u32, cpuPagesize: u32 -> u32): (a: FatArch)
    ensures SwapArch(a, fatMagic) ==
              FatArch(Swap32(mh.cputype, mh.magic), Swap32(mh.cpusubtype, mh.magic), 0, size,
                      cpuPagesize(Swap32(mh.cputype, mh.magic)))
  {
    var cputype := Swap32(mh.cputype, mh.magic);
    var host := FatArch(cputype, Swap32(mh.cpusubtype, mh.magic), 0, size, cpuPagesize(cputype));
    SwapArchInvolutive(host, fatMagic);
    FatArch(Swap32(cputype, fatMagic), Swap32(Swap32(mh.cpusubtype, mh.magic), fatMagic),
            Swap32(0, fatMagic), Swap32(size, fatMagic), Swap32(cpuPagesize(cputype), fatMagic))
  }

  /** The slice a descriptor names: its Mach header is read at the slice's offset and its
      load commands are those `readCommands` finds there. */
  function ReadSlice(content: seq<byte>, desc: FatArch, readCommands: nat -> seq<LoadCommand>): (a: Arch)
    requires desc.offset + MACH_HEADER_SIZE <= |content|
    ensures a.desc == desc && a.commands == readCommands(desc.offset)
  {
    Arch(desc, DecodeMachHeader(content, desc.offset), readCommands(desc.offset))
  }

  /** Writing back a header just read reproduces its bytes. */
  lemma {:induction false} EncodeDecodeMachHeader(bs: seq<byte>, off: nat)
    requires off + MACH_HEADER_SIZE <= |bs|
    ensures EncodeMachHeader(DecodeMachHeader(bs, off)) == bs[off..off + MACH_HEADER_SIZE]
  {
    var h := DecodeMachHeader(bs, off);
    var ws := HeaderWords(h);
    forall k | 0 <= k < 7 ensures WordBytes(ws[k]) == bs[off + 4 * k..off + 4 * k + 4] {
      var p := off + 4 * k;
      ToLEOfLE(bs[p..p + 4]);
    }
    WordsBytesOfWords(bs, off, 7, ws);
  }

  /** `n` words read one after another and written back give the same bytes. */
  lemma {:induction false} WordsBytesOfWords(bs: seq<byte>, off: nat, n: nat, ws: seq<u32>)
    requires off + 4 * n <= |bs| && |ws| == n
    requires forall k :: 0 <= k < n ==> WordBytes(ws[k]) == bs[off + 4 * k..off + 4 * k + 4]
    ensures WordsBytes(ws) == bs[off..off + 4 * n]
    decreases n
  {
    if n > 0 {
      forall k | 0 <= k < n - 1
        ensures WordBytes(ws[1..][k]) == bs[off + 4 + 4 * k..off + 4 + 4 * k + 4]
      {
        assert ws[1..][k] == ws[k + 1];
        assert off + 4 * (k + 1) == off + 4 + 4 * k;
      }
      WordsBytesOfWords(bs, off + 4, n - 1, ws[1..]);
      assert WordBytes(ws[0]) == bs[off..off + 4];
      assert bs[off..off + 4 * n] == bs[off..off + 4] + bs[off + 4..off + 4 + 4 * (n - 1)];
    }
  }

  /** The descriptors of a fat file's table, in order. */
  function FatDescriptors(content: seq<byte>, magic: u32, n: nat): (ds: seq<FatArch>)
    requires FAT_HEADER_SIZE + FAT_ARCH_SIZE * n <= |content|
    ensures |ds| == n
    ensures forall i :: 0 <= i < n ==> ds[i] == DecodeFatArch(content, FAT_HEADER_SIZE + FAT_ARCH_SIZE * i, magic)
  {
    seq(n, i requires 0 <= i < n => DecodeFatArch(content, FAT_HEADER_SIZE + FAT_ARCH_SIZE * i, magic))
  }

  /** The fields of a fat file: the slice count from the fat header, and each
      descriptor of the table, swapped to host order, with the slice it names. */
  function ParseFat(content: seq<byte>, magic: u32, readCommands: nat -> seq<LoadCommand>)
    : (r: Result<Container>)
    requires FAT_HEADER_SIZE <= |content| < TWO_32
    ensures r.Ok? ==>
              && r.value.bytes == content
              && r.value.fileSize == |content|
              && r.value.isFat
              && r.value.fatMagic == magic
              && r.value.nArchs == |r.value.archs| == Swap32(Word(content, 4), magic)
              && FAT_HEADER_SIZE + FAT_ARCH_SIZE * r.value.nArchs <= |content|
              && (forall i :: 0 <= i < |r.value.archs| ==>
                    && r.value.archs[i].desc == DecodeFatArch(content, FAT_HEADER_SIZE + FAT_ARCH_SIZE * i, magic)
                    && r.value.archs[i].desc.offset + MACH_HEADER_SIZE <= |content|
                    && r.value.archs[i].header == DecodeMachHeader(content, r.value.archs[i].desc.offset)
                    && r.value.archs[i].commands == readCommands(r.value.archs[i].desc.offset))
    ensures r.Err? ==> r.error == Truncated
  {
    var n := Swap32(Word(content, 4), magic);
    if FAT_HEADER_SIZE + FAT_ARCH_SIZE * n > |content| then Err(Truncated)
    else
      var ds := FatDescriptors(content, magic, n);
      if exists i :: 0 <= i < |ds| && ds[i].offset + MACH_HEADER_SIZE > |content| then Err(Truncated)
      else
        var archs := FatSlices(content, ds, readCommands);
        var c := Container(content, |content|, true, magic, n, archs);
        assert forall i :: 0 <= i < |c.archs| ==> c.archs[i].desc == ds[i];
        Ok(c)
  }

  /** The slices named by a fat file's descriptors, in table order. */
  function FatSlices(content: seq<byte>, ds: seq<FatArch>, readCommands: nat -> seq<LoadCommand>)
    : (archs: seq<Arch>)
    requires forall i :: 0 <= i < |ds| ==> ds[i].offset + MACH_HEADER_SIZE <= |content|
    ensures |archs| == |ds|
    ensures forall i :: 0 <= i < |ds| ==>
              && archs[i].desc == ds[i]
              && archs[i].header == DecodeMachHeader(content, ds[i].offset)
              && archs[i].commands == readCommands(ds[i].offset)
  {
    seq(|ds|, i requires 0 <= i < |ds| => ReadSlice(content, ds[i], readCommands))
  }

  /** The fields of a thin file: one slice at offset 0 spanning the whole file, its
      descriptor built from the Mach header and recorded under the swapped fat magic. */
  function ParseThin(content: seq<byte>, cpuPagesize: u32 -> u32, readCommands: nat -> seq<LoadCommand>)
    : (c: Container)
    requires MACH_HEADER_SIZE <= |content| < TWO_32
  {
    var mh := DecodeMachHeader(content, 0);
    var desc := SwapArch(ArchFromMachHeader(mh, |content|, FAT_CIGAM, cpuPagesize), FAT_CIGAM);
    Container(content, |content|, false, FAT_CIGAM, 1, [ReadSlice(content, desc, readCommands)])
  }

  /** A thin file opens as one slice at offset 0 spanning the whole file, whose header
      is the file's first 28 bytes and whose descriptor carries the header's CPU type and
      subtype in host order and the page-size alignment of that CPU. */
  lemma {:induction false} ParseThinFields(content: seq<byte>, cpuPagesize: u32 -> u32, readCommands: nat -> seq<LoadCommand>)
    requires MACH_HEADER_SIZE <= |content| < TWO_32
    ensures var c := ParseThin(content, cpuPagesize, readCommands);
            && c.bytes == content && c.fileSize == |content|
            && !c.isFat && c.fatMagic == FAT_CIGAM && c.nArchs == 1 && |c.archs| == 1
            && var a := c.archs[0];
               && a.desc.offset == 0
               && a.desc.size == |content|
               && a.header == DecodeMachHeader(content, 0)
               && a.commands == readCommands(0)
               && a.desc.cputype == Swap32(a.header.cputype, a.header.magic)
               && a.desc.cpusubtype == Swap32(a.header.cpusubtype, a.header.magic)
               && a.desc.align == cpuPagesize(a.desc.cputype)
  {
    var mh := DecodeMachHeader(content, 0);
    var raw := ArchFromMachHeader(mh, |content|, FAT_CIGAM, cpuPagesize);
    assert SwapArch(raw, FAT_CIGAM)
           == FatArch(Swap32(mh.cputype, mh.magic), Swap32(mh.cpusubtype, mh.magic), 0, |content|,
                      cpuPagesize(Swap32(mh.cputype, mh.magic)));
  }

  /** The constructor: reject a file longer than UINT32_MAX bytes or one whose first
      word is not a known magic; otherwise read it as a fat or a thin file, as the
      magic says. */
  function Parse(content: seq<byte>, cpuPagesize: u32 -> u32, readCommands: nat -> seq<LoadCommand>)
    : (r: Result<Container>)
    ensures |content| > UINT32_MAX ==> r == Err(FileTooLarge)
    ensures |content| <= UINT32_MAX && 4 <= |content| && !IsMagic(Word(content, 0)) ==>
              r == Err(UnknownMagic(Word(content, 0)))
    ensures r.Ok? ==>
              && 4 <= |content| <= UINT32_MAX
              && IsMagic(Word(content, 0))
              && r.value.isFat == IsFat(Word(content, 0))
              && (r.value.isFat ==>
                    FAT_HEADER_SIZE <= |content| && r == ParseFat(content, Word(content, 0), readCommands))
              && (!r.value.isFat ==>
                    MACH_HEADER_SIZE <= |content| && r.value == ParseThin(content, cpuPagesize, readCommands))
  {
    if |content| > UINT32_MAX then Err(FileTooLarge)
    else if |content| < 4 then Err(Truncated)
    else
      var magic := Word(content, 0);
      if !IsMagic(magic) then Err(UnknownMagic(magic))
      else if IsFat(magic) then
        if |content| < FAT_HEADER_SIZE then Err(Truncated)
        else ParseFat(content, magic, readCommands)
      else if |content| < MACH_HEADER_SIZE then Err(Truncated)
      else Ok(ParseThin(content, cpuPagesize, readCommands))
  }

  /** Every slice's Mach header sits at its offset in the file. */
  ghost predicate HeadersPersisted(c: Container)
  {
    forall i :: 0 <= i < |c.archs| ==>
      Holds(c.bytes, c.archs[i].desc.offset, EncodeMachHeader(c.archs[i].header))
  }

  /** Opening a fat file whose header, table and Mach headers say what a container
      holds gives back that container, provided its load commands are the ones found
      at each slice's offset. */
  lemma {:induction false} ParsePersisted(c: Container, cpuPagesize: u32 -> u32, readCommands: nat -> seq<LoadCommand>)
    requires c.isFat && IsFat(c.fatMagic)
    requires |c.bytes| == c.fileSize
    requires c.nArchs == |c.archs|
    requires Persisted(c) && HeadersPersisted(c)
    requires forall i :: 0 <= i < |c.archs| ==> c.archs[i].commands == readCommands(c.archs[i].desc.offset)
    ensures Parse(c.bytes, cpuPagesize, readCommands) == Ok(c)
  {
    HeaderReadsBack(c.bytes, c.fatMagic, c.nArchs);
    ParseFatPersisted(c, readCommands);
  }

  lemma {:induction false} ParseFatPersisted(c: Container, readCommands: nat -> seq<LoadCommand>)
    requires c.isFat && |c.bytes| == c.fileSize && c.nArchs == |c.archs|
    requires Persisted(c) && HeadersPersisted(c)
    requires Swap32(Word(c.bytes, 4), c.fatMagic) == c.nArchs
    requires forall i :: 0 <= i < |c.archs| ==> c.archs[i].commands == readCommands(c.archs[i].desc.offset)
    ensures ParseFat(c.bytes, c.fatMagic, readCommands) == Ok(c)
  {
    var bs := c.bytes;
    var ds := FatDescriptors(bs, c.fatMagic, c.nArchs);
    PersistedDescriptors(c);
    PersistedSlices(c, ds, readCommands);
    assert !exists i :: 0 <= i < |ds| && ds[i].offset + MACH_HEADER_SIZE > |bs|;
  }

  /** The table of a persisted container reads back as its descriptors, each naming a
      slice with room for its Mach header. */
  lemma {:induction false} PersistedDescriptors(c: Container)
    requires c.nArchs == |c.archs|
    requires Persisted(c) && HeadersPersisted(c)
    ensures FAT_HEADER_SIZE + FAT_ARCH_SIZE * c.nArchs <= |c.bytes|
    ensures var ds := FatDescriptors(c.bytes, c.fatMagic, c.nArchs);
            forall i :: 0 <= i < |ds| ==>
              ds[i] == c.archs[i].desc && ds[i].offset + MACH_HEADER_SIZE <= |c.bytes|
  {
    TableReadsBack(c.bytes, c.archs, c.fatMagic);
  }

  /** The slices read at a persisted container's descriptors are its slices. */
  lemma {:induction false} PersistedSlices(c: Container, ds: seq<FatArch>, readCommands: nat -> seq<LoadCommand>)
    requires HeadersPersisted(c)
    requires |ds| == |c.archs|
    requires forall i :: 0 <= i < |ds| ==> ds[i] == c.archs[i].desc && ds[i].offset + MACH_HEADER_SIZE <= |c.bytes|
    requires forall i :: 0 <= i < |c.archs| ==> c.archs[i].commands == readCommands(c.archs[i].desc.offset)
    ensures FatSlices(c.bytes, ds, readCommands) == c.archs
  {
    var archs := FatSlices(c.bytes, ds, readCommands);
    forall i | 0 <= i < |ds| ensures archs[i] == c.archs[i] {
      DecodeEncodeMachHeader(c.bytes, c.archs[i].desc.offset, c.archs[i].header);
    }
  }
}
