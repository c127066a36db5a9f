/** The editor object: an open container whose fields (the file's bytes, its recorded
    size, whether it is fat, the fat magic, the slice count and the slices) the
    operations update in place. Each operation is proved to leave the object in the
    state the matching function of the other modules describes, and the properties of
    those functions are proved there. */
module MachOEdit {
  import opened Bytes
  import opened MachOFormat
  import opened Records
  import opened Persistence
  import opened Parse
  import opened Slices
  import opened Relayout
  import opened Commands
  import opened CodeSignature
  import opened EditSteps

  class MachO {
    var bytes: seq<byte>
    var fileSize: u32
    var isFat: bool
    var fatMagic: u32
    var nArchs: u32
    var archs: seq<Arch>

    /** The object's fields as a value. */
    function State(): (c: Container)
      reads this
    {
      Container(bytes, fileSize, isFat, fatMagic, nArchs, archs)
    }

    /** The default constructor: an object not yet tied to a file. */
    constructor ()
      ensures State() == Container([], 0, false, 0, 0, [])
    {
      bytes := [];
      fileSize := 0;
      isFat := false;
      fatMagic := 0;
      nArchs := 0;
      archs := [];
    }

    /** The constructor that opens a file: the size check, the magic check, then the
        fat header and one descriptor after another (each swapped and its slice read),
        or for a thin file the descriptor built from the Mach header. */
    static method Open(content: seq<byte>, cpuPagesize: u32 -> u32, readCommands: nat -> seq<LoadCommand>)
      returns (r: Result<MachO>)
      ensures r.Ok? ==> fresh(r.value) && Parse.Parse(content, cpuPagesize, readCommands) == Ok(r.value.State())
      ensures r.Err? ==> Parse.Parse(content, cpuPagesize, readCommands) == Err(r.error)
    {
      if |content| > UINT32_MAX {
        return Err(FileTooLarge);
      }
      if |content| < 4 {
        return Err(Truncated);
      }
      var magic := Word(content, 0);
      if !IsMagic(magic) {
        return Err(UnknownMagic(magic));
      }
      var m := new MachO();
      if IsFat(magic) {
        if |content| < FAT_HEADER_SIZE {
          return Err(Truncated);
        }
        var ok := m.ReadFat(content, magic, readCommands);
        ParseFatCase(content, cpuPagesize, readCommands);
        if !ok {
          return Err(Truncated);
        }
      } else {
        if |content| < MACH_HEADER_SIZE {
          return Err(Truncated);
        }
        m.ReadThin(content, cpuPagesize, readCommands);
        ParseThinCase(content, cpuPagesize, readCommands);
      }
      return Ok(m);
    }

    /** The fat branch of the constructor: the slice count from the fat header, then
        each descriptor read from the table, swapped and its slice read. */
    method ReadFat(content: seq<byte>, magic: u32, readCommands: nat -> seq<LoadCommand>) returns (ok: bool)
      requires FAT_HEADER_SIZE <= |content| < TWO_32
      modifies this
      ensures ok ==> ParseFat(content, magic, readCommands) == Ok(State())
      ensures !ok ==> ParseFat(content, magic, readCommands) == Err(Truncated)
    {
      bytes := content;
      fileSize := |content|;
      isFat := true;
      fatMagic := magic;
      var n := Swap32(Word(content, 4), magic);
      nArchs := n;
      if FAT_HEADER_SIZE + FAT_ARCH_SIZE * n > |content| {
        return false;
      }
      ghost var ds := FatDescriptors(content, magic, n);
      archs := [];
      var i: nat := 0;
      while i < n
        modifies this`archs
        invariant i <= n && |archs| == i
        invariant SlicesRead(content, ds, readCommands, archs)
      {
        var raw := ReadEntry(content, n, i);
        var desc := SwapArch(raw, fatMagic);
        DescriptorAt(content, magic, n, i, raw);
        if desc.offset + MACH_HEADER_SIZE > |content| {
          OpenTruncated(content, magic, readCommands, i);
          return false;
        }
        assert desc == ds[i];
        SlicesReadStep(content, ds, readCommands, archs);
        var next := archs + [ReadSlice(content, desc, readCommands)];
        assert SlicesRead(content, ds, readCommands, next);
        archs := next;
        i := i + 1;
      }
      OpenFat(content, magic, readCommands, archs);
      return true;
    }

    /** The thin branch of the constructor: one slice whose descriptor is built from
        the Mach header, under the swapped fat magic. */
    method ReadThin(content: seq<byte>, cpuPagesize: u32 -> u32, readCommands: nat -> seq<LoadCommand>)
      requires MACH_HEADER_SIZE <= |content| < TWO_32
      modifies this
      ensures State() == ParseThin(content, cpuPagesize, readCommands)
    {
      var c := OpenThin(content, cpuPagesize, readCommands);
      SetState(c);
    }

    /** Takes on every field of `c`. */
    method SetState(c: Container)
      modifies this
      ensures State() == c
    {
      bytes, fileSize, isFat, fatMagic, nArchs, archs := c.bytes, c.fileSize, c.isFat, c.fatMagic, c.nArchs, c.archs;
    }

    /** The thin file opened: the Mach header read at the start, the descriptor built
        from it (arch_from_mach_header) and swapped with FAT_CIGAM, and the one slice
        that descriptor names. */
    static method OpenThin(content: seq<byte>, cpuPagesize: u32 -> u32, readCommands: nat -> seq<LoadCommand>)
      returns (c: Container)
      requires MACH_HEADER_SIZE <= |content| < TWO_32
      ensures c == ParseThin(content, cpuPagesize, readCommands)
    {
      var mh := DecodeMachHeader(content, 0);
      var raw := ArchFromMachHeader(mh, |content|, FAT_CIGAM, cpuPagesize);
      var desc := SwapArch(raw, FAT_CIGAM);
      var slice := ReadSlice(content, desc, readCommands);
      ThinState(content, cpuPagesize, readCommands, mh, raw, desc, slice);
      c := Container(content, |content|, false, FAT_CIGAM, 1, [slice]);
    }

    /** swap_arch: every 32-bit field of the descriptor through SWAP32 with the fat
        magic, one after another. Swapping twice gives back the descriptor. The
        object's fat magic, which is all swap_arch reads of it, is passed in. */
    static method SwapArch(a: FatArch, fatMagic: u32) returns (r: FatArch)
      ensures r == Records.SwapArch(a, fatMagic)
    {
      var fields := ArchWords(a);
      var i := 0;
      while i < |fields|
        invariant 0 <= i <= |fields| == 5
        invariant forall t :: 0 <= t < i ==> fields[t] == Swap32(ArchWords(a)[t], fatMagic)
        invariant forall t :: i <= t < 5 ==> fields[t] == ArchWords(a)[t]
      {
        fields := fields[i := Swap32(fields[i], fatMagic)];
        i := i + 1;
      }
      r := FatArch(fields[0], fields[1], fields[2], fields[3], fields[4]);
    }

    /** write_fat_header. */
    method WriteFatHeader()
      modifies this
      ensures State() == Persistence.WriteFatHeader(old(State()))
    {
      if !isFat {
        return;
      }
      bytes := Overwrite(bytes, 0, EncodeFatHeader(fatMagic, nArchs));
    }

    /** write_fat_archs: for a fat container, one descriptor after another from the end
        of the fat header, then the file cut or extended to the last slice's end. */
    method WriteFatArchs()
      requires !isFat ==> |archs| > 0
      requires isFat && nArchs > 0 ==> |archs| > 0
      requires isFat ==> FAT_HEADER_SIZE <= |bytes| || |archs| > 0
      modifies this
      ensures State() == Persistence.WriteFatArchs(old(State()))
    {
      if !isFat {
        ThinArchsWritten(State());
        var size := archs[0].desc.size;
        if fileSize != size {
          bytes := Resize(bytes, size);
          fileSize := size;
        }
        return;
      }
      WriteDescriptors();
      FatArchsWritten(old(State()), bytes);
      if nArchs > 0 {
        var last := archs[|archs| - 1].desc;
        var newSize := Add32(last.offset, last.size);
        if newSize != fileSize {
          bytes := Resize(bytes, newSize);
          fileSize := newSize;
        }
      }
    }

    /** The loop of write_fat_archs: each descriptor, swapped, one after another from
        the end of the fat header. */
    method WriteDescriptors()
      requires FAT_HEADER_SIZE <= |bytes| || |archs| > 0
      modifies this`bytes
      ensures bytes == Overwrite(old(bytes), FAT_HEADER_SIZE, EncodeFatTable(archs, fatMagic))
    {
      var b0 := bytes;
      var i := 0;
      while i < |archs|
        invariant 0 <= i <= |archs|
        invariant i > 0 || FAT_HEADER_SIZE <= |b0| ==> bytes == Overwrite(b0, FAT_HEADER_SIZE, EncodeFatTable(archs[..i], fatMagic))
        invariant i == 0 ==> bytes == b0
      {
        TableStep(b0, archs, i, fatMagic, bytes);
        bytes := Overwrite(bytes, FAT_HEADER_SIZE + FAT_ARCH_SIZE * i, EncodeFatArch(archs[i].desc, fatMagic));
        i := i + 1;
      }
      assert archs[..i] == archs;
    }

    /** make_fat: extend the file by the slice's new offset, move the whole thin file up
        to it, zero nothing (the count passed is 0), switch to FAT_CIGAM, write the fat
        header and table while still thin, then mark the container fat and grow the
        recorded size by the offset. */
    method MakeFat()
      requires !isFat && |archs| > 0
      requires fileSize + RoundUp(FAT_HEADER_SIZE, AlignOf(archs[0].desc)) < TWO_32
      modifies this
      ensures State() == Slices.MakeFat(old(State()))
    {
      var arch := archs[0];
      var offset := FatOffset(arch.desc);
      bytes := Resize(bytes, Add32(fileSize, offset));
      bytes := Move(bytes, offset, 0, fileSize);
      bytes := Overwrite(bytes, offset, Zeros(0));
      fatMagic := FAT_CIGAM;
      WriteFatHeader();
      archs := archs[0 := arch.(desc := arch.desc.(offset := offset))];
      WriteFatArchs();
      isFat := true;
      fileSize := Add32(fileSize, offset);
    }

    /** make_thin: keep the chosen slice alone, move its bytes to the start of the file
        and cut the file to its size. */
    method MakeThin(k: nat)
      requires isFat && k < |archs| && End(archs[k].desc) <= |bytes|
      modifies this
      ensures State() == Slices.MakeThin(old(State()), k)
    {
      var arch := archs[k];
      archs := [arch];
      var size := arch.desc.size;
      bytes := Move(bytes, 0, arch.desc.offset, size);
      bytes := Resize(bytes, size);
      fileSize := size;
      nArchs := 1;
      isFat := false;
    }

    /** save_arch_to_file: `canOpen` says whether the new file could be created; if so
        it receives the slice's bytes. The container is left as it is. */
    method SaveArchToFile(k: nat, canOpen: bool) returns (ok: bool, out: seq<byte>)
      requires k < |archs| && End(archs[k].desc) <= |bytes|
      ensures ok == canOpen
      ensures ok ==> out == bytes[archs[k].desc.offset..End(archs[k].desc)]
      ensures (ok, out) == SaveArch(State(), k, canOpen)
    {
      if !canOpen {
        return false, [];
      }
      var desc := archs[k].desc;
      out := Overwrite([], 0, bytes[desc.offset..desc.offset + desc.size]);
      ok := true;
    }

    /** remove_arch: zero the slice; then, from the slice after it on, round the running
        offset up to each slice's alignment, record it, move the slice's bytes there and
        zero what is left between their new end and their old end; finally write the
        fat header and table and cut the file at the running offset. */
    method RemoveArch(k: nat)
      requires isFat && nArchs == |archs| && k < |archs|
      requires forall i :: 0 <= i < |archs| ==> End(archs[i].desc) <= |bytes|
      modifies this
      ensures State() == Relayout.RemoveArch(old(State()), k)
    {
      ghost var c := State();
      var desc := archs[k].desc;
      bytes := Overwrite(bytes, desc.offset, Zeros(desc.size));
      var newOffset: u32;
      if k == 0 {
        newOffset := FAT_HEADER_SIZE;
      } else {
        var prev := archs[k - 1].desc;
        newOffset := Add32(prev.offset, prev.size);
      }
      archs := archs[..k] + archs[k + 1..];
      nArchs := Sub32(nArchs, 1);
      var slices, file;
      slices, file, newOffset := RelocateTail(k, newOffset, nArchs, c, archs, bytes);
      archs, bytes := slices, file;
      ghost var c1 := State();
      RemoveStageIs(c, k, c1);
      WriteTableAndTruncate(newOffset);
      RemoveArchIs(c, k, c1, State());
    }

    /** The end of remove_arch: write the fat header and table, then cut the file at
        `end`. */
    method WriteTableAndTruncate(end: u32)
      requires isFat && nArchs as int == |archs|
      modifies this
      ensures var w := Persistence.WriteFatArchs(Persistence.WriteFatHeader(old(State())));
              State() == w.(bytes := Resize(w.bytes, end), fileSize := end)
    {
      WriteFatHeader();
      WriteFatArchs();
      bytes := Resize(bytes, end);
      fileSize := end;
    }

    /** remove_arch's loop over the slices after the removed one, on the object's slices
        and bytes: returns them relocated and the running offset after the last slice. */
    static method RelocateTail(k: nat, start: u32, n: u32, ghost c: Container, archs: seq<Arch>, bytes: seq<byte>)
      returns (slices: seq<Arch>, file: seq<byte>, end: u32)
      requires k < |c.archs| && n as int == |c.archs| - 1
      requires archs == c.archs[..k] + c.archs[k + 1..] && bytes == Zeroed(c, k)
      requires start == Start(c, k)
      requires forall i :: 0 <= i < |c.archs| ==> End(c.archs[i].desc) <= |c.bytes|
      ensures slices == Remaining(c, k)
      ensures file == MovedFrom(Zeroed(c, k), c.archs[k + 1..], start, 0)
      ensures end == NewEnd(c, k)
    {
      TailStart(c, k);
      ghost var j;
      slices, file, end, j := RelocateLoop(k, start, n, c, archs, bytes);
      TailDone(c, k, j, end, slices, file);
    }

    /** The loop itself, from the first slice after the removed one to the last. */
    static method RelocateLoop(k: nat, start: u32, n: u32, ghost c: Container, archs: seq<Arch>, bytes: seq<byte>)
      returns (slices: seq<Arch>, file: seq<byte>, end: u32, ghost j: nat)
      requires n as int == |c.archs| - 1 && TailState(c, k, 0, start, archs, bytes)
      ensures j == |c.archs| - k - 1 && TailState(c, k, j, end, slices, file)
    {
      end := start;
      var i := k;
      slices, file := archs, bytes;
      j := 0;
      while i < n
        invariant i == k + j <= n
        invariant TailState(c, k, j, end, slices, file)
      {
        slices, file, end := RelocateOne(c, k, j, i, end, slices, file);
        i := i + 1;
        j := j + 1;
      }
    }

    /** One turn of that loop: slice `i` gets the running offset rounded up to its
        alignment; its bytes move there and the gap up to its old offset is zeroed;
        the running offset becomes its new end. */
    static method RelocateOne(ghost c: Container, k: nat, ghost j: nat, i: nat, end: u32,
                              slices: seq<Arch>, file: seq<byte>)
      returns (slices': seq<Arch>, file': seq<byte>, end': u32)
      requires TailState(c, k, j, end, slices, file) && j < |c.archs| - k - 1 && i == k + j
      ensures TailState(c, k, j + 1, end', slices', file')
    {
      TailAt(c, k, j, end, slices, file);
      var arch := slices[i];
      var offset := arch.desc.offset;
      var size := arch.desc.size;
      var newOffset := RoundUp32(end, AlignOf(arch.desc));
      slices' := slices[i := arch.(desc := arch.desc.(offset := newOffset))];
      var moved := Move(file, newOffset, offset, size);
      file' := Overwrite(moved, Add32(newOffset, size), Zeros(Sub32(offset, newOffset)));
      end' := Add32(newOffset, size);
      TailStep(c, k, j, end, slices, file, end', slices', file');
    }

    /** insert_arch_from_macho: count one more slice; take slice `k` of the other
        container with its descriptor swapped out with that container's fat magic and
        in with this one's; place it at the file size rounded up to its alignment;
        extend the file to `file_size + offset`, zero the gap, copy the slice's size in
        bytes from the start of the other file; then write the fat header and table. */
    method InsertArchFromMachO(macho: MachO, k: nat)
      requires macho != this && k < |macho.archs|
      requires ImportedDesc(State(), macho.State(), k).size <= |macho.bytes|
      modifies this
      ensures State() == InsertArch(old(State()), old(macho.State()), k)
    {
      ghost var c, src := State(), macho.State();
      nArchs := Add32(nArchs, 1);
      var arch := macho.archs[k];
      var desc := SwapArch(arch.desc, macho.fatMagic);
      desc := SwapArch(desc, fatMagic);
      var offset := RoundUp32(fileSize, AlignOf(desc));
      arch := arch.(desc := desc.(offset := offset));
      archs := archs + [arch];
      var newSize := Add32(fileSize, offset);
      bytes := Resize(bytes, newSize);
      bytes := Overwrite(bytes, fileSize, Zeros(Sub32(offset, fileSize)));
      bytes := Overwrite(bytes, offset, macho.bytes[0..desc.size]);
      fileSize := newSize;
      InsertStageIs(c, src, k, State());
      ghost var c1 := State();
      WriteFatHeader();
      WriteFatArchs();
      InsertArchIs(c, src, k, c1, State());
    }

    /** write_mach_header: the slice's Mach header at the slice's offset. */
    method WriteMachHeader(a: nat)
      requires a < |archs|
      modifies this
      ensures State() == Persistence.WriteMachHeader(old(State()), a)
    {
      bytes := Overwrite(bytes, archs[a].desc.offset, EncodeMachHeader(archs[a].header));
    }

    /** write_load_command: the command's first `cmdsize` bytes at its file offset. */
    method WriteLoadCommand(lc: LoadCommand)
      requires lc.cmdsize <= |lc.raw|
      modifies this
      ensures State() == old(State()).(bytes := Persistence.WriteLoadCommand(old(bytes), lc))
    {
      bytes := Overwrite(bytes, lc.fileOffset, lc.raw[..lc.cmdsize]);
    }
    /** remove_load_command: unless it is the slice's only command, move command `i` to
        the end; then count one command fewer and the last command's size less in the
        Mach header, write the header, zero the last command's bytes and drop it. */
    method RemoveLoadCommand(a: nat, i: nat)
      requires a < |archs| && Sized(archs[a].commands) && |archs[a].commands| > 0
      requires |archs[a].commands| > 1 ==> i < |archs[a].commands|
      modifies this
      ensures State() == Commands.RemoveLoadCommand(old(State()), a, i)
    {
      var n := |archs[a].commands|;
      if n > 1 {
        MoveLoadCommand(a, i, n - 1);
      }
      PopLastCommand(a);
    }

    /** The end of remove_load_command: count one command fewer and the last command's
        size less in the Mach header, write the header, zero the last command's bytes and
        drop it. */
    method PopLastCommand(a: nat)
      requires a < |archs| && Sized(archs[a].commands) && |archs[a].commands| > 0
      modifies this
      ensures State() == PopCommand(old(State()), a)
    {
      ghost var c := State();
      var arch := archs[a];
      var n := |arch.commands|;
      var lc := arch.commands[n - 1];
      var h := arch.header.(ncmds := Sub32(arch.header.ncmds, 1),
                            sizeofcmds := Sub32(arch.header.sizeofcmds, lc.cmdsize));
      archs := archs[a := arch.(header := h)];
      WriteMachHeader(a);
      bytes := Overwrite(bytes, lc.fileOffset, Zeros(lc.cmdsize));
      archs := archs[a := archs[a].(commands := arch.commands[..n - 1])];
      PopIs(c, a, State());
    }

    /** move_load_command: equal indices change nothing; a first index past the second
        swaps the two. Otherwise the commands after `i` up to `j` are written back to
        back from `i`'s offset, then command `i` after them, and `i` moves from its
        place in the list to its end. */
    method MoveLoadCommand(a: nat, i: nat, j: nat)
      requires a < |archs| && i < |archs[a].commands| && j < |archs[a].commands|
      requires Sized(archs[a].commands)
      modifies this
      ensures State() == Commands.MoveLoadCommand(old(State()), a, i, j)
      decreases if i > j then 1 else 0
    {
      if i == j {
        return;
      }
      if i > j {
        MoveLoadCommand(a, j, i);
        return;
      }
      var file, cmds := ShiftCommands(bytes, archs[a].commands, i, j);
      bytes := file;
      archs := archs[a := archs[a].(commands := cmds)];
    }

    /** The body of move_load_command for `i < j`, on the file's bytes `bs` and the
        slice's commands `lcs`: returns the new bytes and the new list. */
    static method ShiftCommands(bs: seq<byte>, lcs: seq<LoadCommand>, i: nat, j: nat)
      returns (file: seq<byte>, cmds: seq<LoadCommand>)
      requires i < j < |lcs| && Sized(lcs)
      ensures (file, cmds) == Commands.MoveForward(bs, lcs, i, j)
    {
      var newOffset;
      var t;
      cmds, newOffset, file, t := ShiftRun(bs, lcs, i, j);
      ghost var run := Run(lcs, i, t);
      ghost var mid := Relaid(lcs[i + 1..j + 1], lcs[i].fileOffset);
      RunRelaid(lcs, i, t);
      SlicesAt(lcs, i, j, t);
      var moved;
      file, moved := PlaceMoved(bs, run, mid, lcs[i], newOffset, file);
      cmds := MoveToEnd(lcs[..i + 1], run, mid, lcs[j + 1..], i, cmds, moved);
      TakeTake(lcs, i);
      Commands.MoveIs(bs, lcs, i, j, mid, moved, file, cmds);
    }

    /** The end of move_load_command for `i < j`: command `lc`'s record is written at
        `newOffset`, just past the run the loop wrote, which equals `mid`; returns the new
        bytes and the command placed there. */
    static method PlaceMoved(bs: seq<byte>, ghost run: seq<LoadCommand>, ghost mid: seq<LoadCommand>,
                             lc: LoadCommand, newOffset: nat, file: seq<byte>)
      returns (file': seq<byte>, moved: LoadCommand)
      requires run == mid && Sized(run) && lc.cmdsize <= |lc.raw|
      requires newOffset == lc.fileOffset + SumSizes(run) && file == WriteAll(bs, run)
      ensures moved == lc.(fileOffset := lc.fileOffset + SumSizes(mid))
      ensures file' == Persistence.WriteLoadCommand(WriteAll(bs, mid), moved)
    {
      FinishFile(bs, run, mid, lc, newOffset, file);
      moved := lc.(fileOffset := newOffset);
      file' := Overwrite(file, newOffset, lc.raw[..lc.cmdsize]);
    }

    /** The list edit of move_load_command for `i < j`: the command at `i`, which ends
        `pre`, leaves its place and `moved` is appended. */
    static method MoveToEnd<T>(ghost pre: seq<T>, ghost run: seq<T>, ghost mid: seq<T>, ghost rest: seq<T>,
                               i: nat, cmds: seq<T>, moved: T)
      returns (cmds': seq<T>)
      requires |pre| == i + 1 && cmds == pre + run + rest && run == mid
      ensures cmds' == pre[..i] + mid + rest + [moved]
    {
      cmds' := cmds[..i] + cmds[i + 1..] + [moved];
      SplicedToEnd(pre, run, rest, i, cmds, cmds', moved);
    }

    /** The loop of move_load_command: each command after `i` up to `j` is written one
        place back, at the running offset, which then grows by its size. */
    static method ShiftRun(bs: seq<byte>, lcs: seq<LoadCommand>, i: nat, j: nat)
      returns (cmds: seq<LoadCommand>, newOffset: nat, file: seq<byte>, t: nat)
      requires i < j < |lcs| && Sized(lcs)
      ensures t == j + 1 && ShiftState(bs, lcs, i, t, cmds, newOffset, file)
    {
      newOffset := lcs[i].fileOffset;
      cmds, file := lcs, bs;
      t := i + 1;
      ShiftStart(bs, lcs, i);
      while t <= j
        invariant t <= j + 1 && ShiftState(bs, lcs, i, t, cmds, newOffset, file)
      {
        cmds, newOffset, file, t := ShiftOne(bs, lcs, i, t, cmds, newOffset, file);
      }
    }

    /** One turn of that loop: command `t` is written at the running offset and its
        record in the list takes that offset. */
    static method ShiftOne(bs: seq<byte>, lcs: seq<LoadCommand>, i: nat, t: nat,
                           cmds: seq<LoadCommand>, newOffset: nat, file: seq<byte>)
      returns (cmds': seq<LoadCommand>, newOffset': nat, file': seq<byte>, t': nat)
      requires t < |lcs| && Sized(lcs) && ShiftState(bs, lcs, i, t, cmds, newOffset, file)
      ensures t' == t + 1 && ShiftState(bs, lcs, i, t', cmds', newOffset', file')
    {
      RunAt(bs, lcs, i, t, cmds, newOffset, file);
      var cur := cmds[t];
      cmds' := cmds[t := cur.(fileOffset := newOffset)];
      file' := Overwrite(file, newOffset, cur.raw[..cur.cmdsize]);
      newOffset' := newOffset + cur.cmdsize;
      RunStep(bs, lcs, i, t, cmds, newOffset, file, cmds', newOffset', file');
      t' := t + 1;
    }

    /** insert_load_command: write the record just past the last command (past the slice
        when it has none), as a 32-bit offset; append the command; count it and its size
        in the Mach header and write the header. */
    method InsertLoadCommand(a: nat, raw: seq<byte>, name: string)
      requires a < |archs| && 8 <= |raw|
      requires Swap32(Word(raw, 4), archs[a].header.magic) <= |raw|
      modifies this
      ensures State() == Commands.InsertLoadCommand(old(State()), a, raw, name)
    {
      ghost var c := State();
      var arch := archs[a];
      var offset: u32;
      if |arch.commands| == 0 {
        offset := Add32(arch.desc.offset, arch.desc.size);
      } else {
        var last := arch.commands[|arch.commands| - 1];
        offset := (last.fileOffset + last.cmdsize) % TWO_32;
      }
      var magic := arch.header.magic;
      var cmdsize := Swap32(Word(raw, 4), magic);
      bytes := Overwrite(bytes, offset, raw[..cmdsize]);
      var lc := LoadCommand(Swap32(Word(raw, 0), magic), cmdsize, offset, raw[..cmdsize], name);
      var h := arch.header.(ncmds := Add32(arch.header.ncmds, 1),
                            sizeofcmds := Add32(arch.header.sizeofcmds, cmdsize));
      archs := archs[a := arch.(header := h, commands := arch.commands + [lc])];
      InsertCommandIs(c, a, raw, name, offset, State());
      WriteMachHeader(a);
    }

    /** change_file_type: set the Mach header's file type and write the header. */
    method ChangeFileType(a: nat, fileType: u32)
      requires a < |archs|
      modifies this
      ensures State() == Commands.ChangeFileType(old(State()), a, fileType)
    {
      var arch := archs[a];
      archs := archs[a := arch.(header := arch.header.(filetype := fileType))];
      WriteMachHeader(a);
    }

    /** remove_codesignature: scan the commands for the last signature command, the last
        segment whose name differs from "__LINKEDIT" and the last symbol table; give up
        unless the signature and that segment both end where the slice ends; otherwise
        shrink the slice by the signature's size (and the padding after the string
        table when it is at most 16 bytes), shrink the segment with it, write the
        descriptors and the segment, and remove the signature command. */
    method RemoveCodeSignature(a: nat) returns (ok: bool)
      requires a < |archs| && Sized(archs[a].commands) && FieldsReadable(archs[a].commands)
      modifies this
      ensures (State(), ok) == CodeSignature.RemoveCodeSignature(old(State()), a)
    {
      ghost var c := State();
      var arch := archs[a];
      var ci, li, reduction;
      ok, ci, li, reduction := CheckSignature(arch);
      if !ok {
        return;
      }
      var anchor := arch.commands[li];
      var magic := arch.header.magic;
      var seg := ResizeSegment(anchor, magic, Sub64(SegmentFileSize(anchor, magic), reduction));
      ShrunkSized(arch);
      archs := archs[a := arch.(desc := arch.desc.(size := Sub32(arch.desc.size, reduction)),
                                commands := arch.commands[li := seg])];
      WriteFatArchs();
      WriteLoadCommand(seg);
      StagedIs(c, a, State());
      RemoveLoadCommand(a, ci);
    }

    /** The checks of remove_codesignature: whether the slice is signed, and if so the
        signature command's index, the anchor segment's index and the reduction. */
    static method CheckSignature(arch: Arch) returns (ok: bool, ci: nat, li: nat, reduction: u32)
      requires FieldsReadable(arch.commands)
      ensures ok == Signed(arch)
      ensures ok ==> ci == LastOf(arch.commands, CodeSig).value && li == LastOf(arch.commands, Anchor).value
      ensures ok ==> reduction == Reduction(arch)
    {
      var magic := arch.header.magic;
      var cs, le, st := ScanCommands(arch.commands);
      ci, li, reduction := 0, 0, 0;
      if cs.None? || le.None? {
        return false, ci, li, reduction;
      }
      ci, li := cs.value, le.value;
      assert Readable(arch.commands[ci]) && Readable(arch.commands[li]);
      var csSize := SignatureSize(arch.commands[ci], magic);
      if Add32(SignatureOffset(arch.commands[ci], magic), csSize) != arch.desc.size {
        return false, ci, li, reduction;
      }
      var anchor := arch.commands[li];
      if Add64(SegmentFileOffset(anchor, magic), SegmentFileSize(anchor, magic)) != arch.desc.size {
        return false, ci, li, reduction;
      }
      reduction := csSize;
      if st.Some? {
        assert Readable(arch.commands[st.value]);
        var diff := (arch.desc.size as int - reduction) - StringsEnd(arch.commands[st.value], magic);
        if 0 <= diff <= 0x10 {
          reduction := Add32(reduction, diff);
        }
      }
      ok := true;
    }

    /** The scan of remove_codesignature: every match replaces the one recorded before,
        so each index is the last command of its kind. */
    static method ScanCommands(lcs: seq<LoadCommand>) returns (cs: Option<nat>, le: Option<nat>, st: Option<nat>)
      ensures cs == LastOf(lcs, CodeSig) && le == LastOf(lcs, Anchor) && st == LastOf(lcs, SymbolTable)
    {
      cs, le, st := None, None, None;
      var i := 0;
      while i < |lcs|
        invariant 0 <= i <= |lcs|
        invariant cs == LastOf(lcs[..i], CodeSig)
        invariant le == LastOf(lcs[..i], Anchor)
        invariant st == LastOf(lcs[..i], SymbolTable)
      {
        var lc := lcs[i];
        LastOfStep(lcs, i, CodeSig);
        LastOfStep(lcs, i, Anchor);
        LastOfStep(lcs, i, SymbolTable);
        if lc.cmd == LC_CODE_SIGNATURE {
          cs := Some(i);
        } else if lc.cmd == LC_SEGMENT || lc.cmd == LC_SEGMENT_64 {
          if lc.segname != LINKEDIT_NAME {
            le := Some(i);
          }
        } else if lc.cmd == LC_SYMTAB {
          st := Some(i);
        }
        i := i + 1;
      }
      assert lcs[..|lcs|] == lcs;
    }
  }
}
