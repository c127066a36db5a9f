/** remove_codesignature: strip the code signature that ends a slice. The scan picks
    the signature command, the segment whose file range must end with the signature and
    the symbol table; when the signature and that segment both end exactly where the
    slice ends, the slice shrinks by the signature's size (and by up to 16 bytes of
    padding after the string table), the segment shrinks with it, the file is cut to the
    new size and the signature command is removed. */
module CodeSignature {
  import opened Bytes
  import opened MachOFormat
  import opened Records
  import opened Persistence
  import opened Commands

  datatype Option<T> = None | Some(value: T)

  /** The commands the scan records: the signature, the segment it anchors the shrink
      on, and the symbol table. */
  datatype Kind = CodeSig | Anchor | SymbolTable

  /** Whether the scan records `lc` as a command of kind `k`. The comparison with
      "__LINKEDIT" picks a segment whose name DIFFERS from it, as the test is written. */
  predicate Matches(lc: LoadCommand, k: Kind)
  {
    match k
    case CodeSig => lc.cmd == LC_CODE_SIGNATURE
    case Anchor => (lc.cmd == LC_SEGMENT || lc.cmd == LC_SEGMENT_64) && lc.segname != LINKEDIT_NAME
    case SymbolTable => lc.cmd == LC_SYMTAB
  }

  /** The index of the last command of kind `k`, which the scan keeps since every match
      overwrites the one before. */
  function LastOf(lcs: seq<LoadCommand>, k: Kind): (r: Option<nat>)
    ensures r.Some? ==> r.value < |lcs| && Matches(lcs[r.value], k)
    ensures forall j {:trigger Matches(lcs[j], k)} :: 0 <= j < |lcs| && Matches(lcs[j], k) ==> r.Some? && j <= r.value
    decreases |lcs|
  {
    if lcs == [] then None
    else if Matches(lcs[|lcs| - 1], k) then Some(|lcs| - 1)
    else
      var r := LastOf(lcs[..|lcs| - 1], k);
      assert forall j :: 0 <= j < |lcs| - 1 ==> lcs[..|lcs| - 1][j] == lcs[j];
      r
  }

  /** What one step of the scan keeps: the last match so far, over one more command. */
  lemma {:induction false} LastOfStep(lcs: seq<LoadCommand>, i: nat, k: Kind)
    requires i < |lcs|
    ensures LastOf(lcs[..i + 1], k) == if Matches(lcs[i], k) then Some(i) else LastOf(lcs[..i], k)
  {
    assert lcs[..i + 1][..i] == lcs[..i];
  }

  /** The records the operation reads its fields from are long enough for them. */
  predicate FieldsReadable(lcs: seq<LoadCommand>)
  {
    forall t {:trigger Readable(lcs[t])} :: 0 <= t < |lcs| ==> Readable(lcs[t])
  }

  predicate Readable(lc: LoadCommand)
  {
    && (lc.cmd == LC_CODE_SIGNATURE ==> LINKEDIT_DATA_COMMAND_SIZE <= |lc.raw|)
    && (lc.cmd == LC_SEGMENT ==> SEGMENT_COMMAND_SIZE <= |lc.raw|)
    && (lc.cmd == LC_SEGMENT_64 ==> SEGMENT_COMMAND_64_SIZE <= |lc.raw|)
    && (lc.cmd == LC_SYMTAB ==> SYMTAB_COMMAND_SIZE <= |lc.raw|)
  }

  /** dataoff and datasize of a linkedit_data_command. */
  function SignatureOffset(lc: LoadCommand, magic: u32): u32
    requires LINKEDIT_DATA_COMMAND_SIZE <= |lc.raw|
  {
    Field32(lc.raw, 8, magic)
  }

  function SignatureSize(lc: LoadCommand, magic: u32): u32
    requires LINKEDIT_DATA_COMMAND_SIZE <= |lc.raw|
  {
    Field32(lc.raw, 12, magic)
  }

  /** The end of the string table of a symtab_command, `stroff + strsize` in 32 bits. */
  function StringsEnd(lc: LoadCommand, magic: u32): u32
    requires SYMTAB_COMMAND_SIZE <= |lc.raw|
  {
    Add32(Field32(lc.raw, 16, magic), Field32(lc.raw, 20, magic))
  }

  /** fileoff and filesize of a segment command, widened to 64 bits for LC_SEGMENT. */
  function SegmentFileOffset(lc: LoadCommand, magic: u32): u64
    requires Readable(lc) && (lc.cmd == LC_SEGMENT || lc.cmd == LC_SEGMENT_64)
  {
    if lc.cmd == LC_SEGMENT then Field32(lc.raw, 32, magic) else Field64(lc.raw, 40, magic)
  }

  function SegmentFileSize(lc: LoadCommand, magic: u32): u64
    requires Readable(lc) && (lc.cmd == LC_SEGMENT || lc.cmd == LC_SEGMENT_64)
  {
    if lc.cmd == LC_SEGMENT then Field32(lc.raw, 36, magic) else Field64(lc.raw, 48, magic)
  }

  function SegmentVMSize(lc: LoadCommand, magic: u32): u64
    requires Readable(lc) && (lc.cmd == LC_SEGMENT || lc.cmd == LC_SEGMENT_64)
  {
    if lc.cmd == LC_SEGMENT then Field32(lc.raw, 28, magic) else Field64(lc.raw, 32, magic)
  }

  /** A slice the operation strips: it has a signature command and an anchor segment,
      and the signature's data and the segment's file range both end where the slice
      ends (each sum in the width the code computes it in). */
  predicate Signed(arch: Arch)
    requires FieldsReadable(arch.commands)
  {
    var lcs := arch.commands;
    var magic := arch.header.magic;
    var cs := LastOf(lcs, CodeSig);
    var le := LastOf(lcs, Anchor);
    && cs.Some? && le.Some?
    && Readable(lcs[cs.value]) && Readable(lcs[le.value])
    && Add32(SignatureOffset(lcs[cs.value], magic), SignatureSize(lcs[cs.value], magic)) == arch.desc.size
    && Add64(SegmentFileOffset(lcs[le.value], magic), SegmentFileSize(lcs[le.value], magic)) == arch.desc.size
  }

  /** How much the slice shrinks: the signature's size, plus the padding between the end
      of the string table and the signature when that padding is at most 16 bytes. The
      difference is taken in 64-bit signed arithmetic, the string table's end in 32 bits. */
  function SizeReduction(size: u32, csSize: u32, stringsEnd: Option<u32>): (r: u32)
    ensures r == csSize || (stringsEnd.Some? && r == size - stringsEnd.value && csSize <= r <= csSize + 16)
    ensures stringsEnd.Some? && 0 <= (size - csSize) - stringsEnd.value <= 16 ==> r == size - stringsEnd.value
    ensures !(stringsEnd.Some? && 0 <= (size - csSize) - stringsEnd.value <= 16) ==> r == csSize
  {
    if stringsEnd.None? then csSize
    else
      var diff := (size - csSize) - stringsEnd.value;
      if 0 <= diff <= 16 then Add32(csSize, diff) else csSize
  }

  /** The anchor segment with its file size set to `fileSize` and its memory size to
      `fileSize` rounded up to a 4096-byte page, both stored in the command's width
      (`ResizeSegmentFields`). */
  function ResizeSegment(lc: LoadCommand, magic: u32, fileSize: u64): (r: LoadCommand)
    requires Readable(lc) && (lc.cmd == LC_SEGMENT || lc.cmd == LC_SEGMENT_64)
    ensures r == lc.(raw := r.raw) && |r.raw| == |lc.raw|
  {
    var vmSize: u64 := RoundUp(fileSize, 0x1000) % TWO_64;
    if lc.cmd == LC_SEGMENT then
      lc.(raw := Put32(Put32(lc.raw, 36, magic, fileSize % TWO_32), 28, magic, vmSize % TWO_32))
    else
      lc.(raw := Put64(Put64(lc.raw, 48, magic, fileSize), 32, magic, vmSize))
  }

  /** The resized segment reads back the new file size and the rounded-up memory size,
      each truncated to the command's width, keeps its file offset and every byte
      outside the two fields. */
  lemma {:induction false} ResizeSegmentFields(lc: LoadCommand, magic: u32, fileSize: u64)
    requires Readable(lc) && (lc.cmd == LC_SEGMENT || lc.cmd == LC_SEGMENT_64)
    ensures var r := ResizeSegment(lc, magic, fileSize);
            && Readable(r)
            && SegmentFileOffset(r, magic) == SegmentFileOffset(lc, magic)
            && (lc.cmd == LC_SEGMENT_64 ==>
                  SegmentFileSize(r, magic) == fileSize
                  && SegmentVMSize(r, magic) == RoundUp(fileSize, 0x1000) % TWO_64)
            && (lc.cmd == LC_SEGMENT ==>
                  SegmentFileSize(r, magic) == fileSize % TWO_32
                  && SegmentVMSize(r, magic) == RoundUp(fileSize, 0x1000) % TWO_64 % TWO_32)
            && (forall i :: 0 <= i < |lc.raw| && !(28 <= i < 56) ==> r.raw[i] == lc.raw[i])
  {
    var vmSize: u64 := RoundUp(fileSize, 0x1000) % TWO_64;
    Pow256Words();
    if lc.cmd == LC_SEGMENT {
      var raw1 := Put32(lc.raw, 36, magic, fileSize % TWO_32);
      var raw2 := Put32(raw1, 28, magic, vmSize % TWO_32);
      FieldShared(raw2, raw1, 36, 4, IsSwappedMagic(magic));
      FieldShared(raw2, lc.raw, 32, 4, IsSwappedMagic(magic));
    } else {
      var raw1 := Put64(lc.raw, 48, magic, fileSize);
      var raw2 := Put64(raw1, 32, magic, vmSize);
      FieldShared(raw2, raw1, 48, 8, IsSwappedMagic(magic));
      FieldShared(raw2, lc.raw, 40, 8, IsSwappedMagic(magic));
    }
  }

  /** The slice's reduction and its resized anchor segment. */
  function Reduction(arch: Arch): (r: u32)
    requires FieldsReadable(arch.commands) && Signed(arch)
  {
    var lcs := arch.commands;
    var magic := arch.header.magic;
    var cs := lcs[LastOf(lcs, CodeSig).value];
    var st := LastOf(lcs, SymbolTable);
    assert st.Some? ==> Readable(lcs[st.value]);
    SizeReduction(arch.desc.size, SignatureSize(cs, magic),
                  if st.Some? then Some(StringsEnd(lcs[st.value], magic)) else None)
  }

  /** The slice after the shrink, before its signature command is removed: the
      descriptor's size reduced and the anchor segment resized, both in 32/64-bit
      unsigned arithmetic. */
  function Shrunk(arch: Arch): (r: Arch)
    requires FieldsReadable(arch.commands) && Signed(arch)
    ensures r.header == arch.header && |r.commands| == |arch.commands|
    ensures r.desc == arch.desc.(size := Sub32(arch.desc.size, Reduction(arch)))
    ensures var lcs := arch.commands;
            var li := LastOf(lcs, Anchor).value;
            && r.commands[li] == ResizeSegment(lcs[li], arch.header.magic,
                                               Sub64(SegmentFileSize(lcs[li], arch.header.magic), Reduction(arch)))
            && forall t :: 0 <= t < |lcs| && t != li ==> r.commands[t] == lcs[t]
  {
    var lcs := arch.commands;
    var magic := arch.header.magic;
    var li := LastOf(lcs, Anchor).value;
    var red := Reduction(arch);
    var seg := ResizeSegment(lcs[li], magic, Sub64(SegmentFileSize(lcs[li], magic), red));
    arch.(desc := arch.desc.(size := Sub32(arch.desc.size, red)), commands := lcs[li := seg])
  }

  /** Resizing the anchor segment keeps every command's size within its record and every
      record readable. */
  lemma {:induction false} ShrunkSized(arch: Arch)
    requires FieldsReadable(arch.commands) && Signed(arch)
    ensures Sized(arch.commands) ==> Sized(Shrunk(arch).commands)
    ensures FieldsReadable(Shrunk(arch).commands)
    ensures forall t :: 0 <= t < |arch.commands| ==>
              Shrunk(arch).commands[t] == arch.commands[t].(raw := Shrunk(arch).commands[t].raw)
  {
  }

  /** Without wrap-around, the shrunk slice ends where the string table ends when there
      is a symbol table whose strings end at most 16 bytes before the signature, and
      where the signature began otherwise. */
  lemma {:induction false} ShrunkEndsBeforeSignature(arch: Arch)
    requires FieldsReadable(arch.commands) && Signed(arch)
    requires var cs := arch.commands[LastOf(arch.commands, CodeSig).value];
             SignatureOffset(cs, arch.header.magic) + SignatureSize(cs, arch.header.magic) < TWO_32
    ensures var lcs := arch.commands;
            var magic := arch.header.magic;
            var csOff := SignatureOffset(lcs[LastOf(lcs, CodeSig).value], magic);
            var st := LastOf(lcs, SymbolTable);
            var size := Shrunk(arch).desc.size;
            var padded := st.Some? && Readable(lcs[st.value]) && 0 <= csOff - StringsEnd(lcs[st.value], magic) <= 16;
            && (padded ==> size == StringsEnd(lcs[st.value], magic))
            && (!padded ==> size == csOff)
  {
    var lcs := arch.commands;
    var magic := arch.header.magic;
    var cs := lcs[LastOf(lcs, CodeSig).value];
    var st := LastOf(lcs, SymbolTable);
    assert st.Some? ==> Readable(lcs[st.value]);
    var se := if st.Some? then Some(StringsEnd(lcs[st.value], magic)) else None;
    assert Reduction(arch) == SizeReduction(arch.desc.size, SignatureSize(cs, magic), se);
    ShrunkCut(SignatureOffset(cs, magic), SignatureSize(cs, magic), arch.desc.size, Reduction(arch), se,
              Shrunk(arch).desc.size);
  }

  lemma {:induction false} ShrunkCut(csOff: u32, csSize: u32, size: u32, red: u32, se: Option<u32>, size1: u32)
    requires csOff + csSize < TWO_32 && Add32(csOff, csSize) == size
    requires red == SizeReduction(size, csSize, se)
    requires size1 == Sub32(size, red)
    ensures se.Some? && 0 <= csOff - se.value <= 16 ==> size1 == se.value
    ensures !(se.Some? && 0 <= csOff - se.value <= 16) ==> size1 == csOff
  {
  }

  /** Without wrap-around, the resized anchor segment still ends where the shrunk slice
      ends. */
  lemma {:induction false} ShrunkSegmentEnds(arch: Arch)
    requires FieldsReadable(arch.commands) && Signed(arch)
    requires var le := arch.commands[LastOf(arch.commands, Anchor).value];
             var magic := arch.header.magic;
             && SegmentFileOffset(le, magic) + SegmentFileSize(le, magic) < TWO_64
             && Reduction(arch) <= SegmentFileSize(le, magic)
    ensures var li := LastOf(arch.commands, Anchor).value;
            var r := Shrunk(arch);
            var magic := arch.header.magic;
            Readable(r.commands[li]) && SegmentFileOffset(r.commands[li], magic) + SegmentFileSize(r.commands[li], magic) == r.desc.size
  {
    var lcs := arch.commands;
    var magic := arch.header.magic;
    var li := LastOf(lcs, Anchor).value;
    var le := lcs[li];
    var red := Reduction(arch);
    var fs := SegmentFileSize(le, magic);
    ResizeSegmentFields(le, magic, Sub64(fs, red));
    ShrunkEnd(SegmentFileOffset(le, magic), fs, arch.desc.size, red,
              SegmentFileSize(Shrunk(arch).commands[li], magic), Shrunk(arch).desc.size);
  }

  lemma {:induction false} ShrunkEnd(off: u64, fs: u64, size: u32, red: u32, fs1: u64, size1: u32)
    requires off + fs < TWO_64 && Add64(off, fs) == size && red <= fs
    requires fs1 == Sub64(fs, red) || fs1 == Sub64(fs, red) % TWO_32
    requires size1 == Sub32(size, red)
    ensures off + fs1 == size1
  {
  }

  /** The container after the shrink of slice `a`, the rewrite of the descriptors (which
      cuts the file to its new size) and the write of the resized anchor segment; the
      signature command is still there. */
  function Staged(c: Container, a: nat): (r: Container)
    requires a < |c.archs| && Sized(c.archs[a].commands) && FieldsReadable(c.archs[a].commands)
    requires Signed(c.archs[a])
    ensures r == c.(bytes := r.bytes, fileSize := r.fileSize, archs := c.archs[a := Shrunk(c.archs[a])])
    ensures !c.isFat ==> r.fileSize == r.archs[0].desc.size
  {
    var arch := c.archs[a];
    var li := LastOf(arch.commands, Anchor).value;
    var arch1 := Shrunk(arch);
    ShrunkSized(arch);
    var c1 := WriteFatArchs(c.(archs := c.archs[a := arch1]));
    c1.(bytes := WriteLoadCommand(c1.bytes, arch1.commands[li]))
  }

  /** remove_codesignature on slice `a`: true, with the container after `Staged` and the
      removal of the signature command; false, with the container unchanged, when the
      slice is not `Signed`. */
  function RemoveCodeSignature(c: Container, a: nat): (r: (Container, bool))
    requires a < |c.archs| && Sized(c.archs[a].commands) && FieldsReadable(c.archs[a].commands)
    ensures r.1 <==> Signed(c.archs[a])
    ensures !r.1 ==> r.0 == c
  {
    var arch := c.archs[a];
    if !Signed(arch) then (c, false)
    else
      var ci := LastOf(arch.commands, CodeSig).value;
      ShrunkSized(arch);
      (RemoveLoadCommand(Staged(c, a), a, ci), true)
  }

  /** What remove_codesignature does to a signed slice whose commands lie back to back:
      the slice's size shrinks by the signature's size (and the padding after the string
      table when that padding is at most 16 bytes), the anchor segment's file and memory
      sizes shrink with it, the signature command is gone from the header's counts and
      from the list, the other commands keep their order, and a thin file is cut to its
      slice's size. */
  lemma {:induction false} RemoveCodeSignatureEffect(c: Container, a: nat)
    requires a < |c.archs| && Sized(c.archs[a].commands) && FieldsReadable(c.archs[a].commands)
    requires Signed(c.archs[a]) && Contiguous(c.archs[a].commands)
    ensures var r := RemoveCodeSignature(c, a).0;
            var arch := c.archs[a];
            && r.archs[a].desc.size == Sub32(arch.desc.size, Reduction(arch))
            && RemovedArch(Shrunk(arch), LastOf(arch.commands, CodeSig).value, r.archs[a])
            && (!c.isFat ==> r.fileSize == r.archs[0].desc.size)
            && |r.archs| == |c.archs| && (forall b :: 0 <= b < |c.archs| && b != a ==> r.archs[b] == c.archs[b])
  {
    var arch := c.archs[a];
    var ci := LastOf(arch.commands, CodeSig).value;
    var c2 := Staged(c, a);
    ShrunkSized(arch);
    ShrunkLaid(arch);
    StagedRemoval(c2, a, ci, Shrunk(arch), RemoveCodeSignature(c, a).0);
    StagedFrame(c, c2, a, ci, Shrunk(arch), RemoveCodeSignature(c, a).0);
  }

  /** Removing command `k` from slice `a`, whose commands lie back to back, as the last
      step of the operation. */
  lemma {:induction false} StagedRemoval(c: Container, a: nat, k: nat, arch: Arch, r: Container)
    requires a < |c.archs| && c.archs[a] == arch && k < |arch.commands|
    requires Sized(arch.commands) && Laid(arch.commands, arch.commands[0].fileOffset)
    requires r == RemoveLoadCommand(c, a, k)
    ensures RemovedArch(arch, k, r.archs[a])
  {
    RemoveLoadCommandRecords(c, a, k);
  }

  /** The last step touches neither the recorded file size nor the other slices. */
  lemma {:induction false} StagedFrame(c0: Container, c: Container, a: nat, k: nat, arch: Arch, r: Container)
    requires a < |c0.archs| && c.archs == c0.archs[a := arch] && k < |arch.commands| && Sized(arch.commands)
    requires r == RemoveLoadCommand(c, a, k)
    ensures r.fileSize == c.fileSize && r.archs[0].desc == c.archs[0].desc
    ensures |r.archs| == |c0.archs| && forall b :: 0 <= b < |c0.archs| && b != a ==> r.archs[b] == c0.archs[b]
  {
  }

  /** Resizing a segment does not move any command. */
  lemma {:induction false} ShrunkLaid(arch: Arch)
    requires FieldsReadable(arch.commands) && Signed(arch) && Contiguous(arch.commands)
    ensures Laid(Shrunk(arch).commands, Shrunk(arch).commands[0].fileOffset)
  {
    var lcs := arch.commands;
    var rcs := Shrunk(arch).commands;
    ShrunkSized(arch);
    SameSizesLaid(lcs, rcs, lcs[0].fileOffset);
  }
}
