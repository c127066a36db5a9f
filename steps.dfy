/** Facts the methods of the MachO class rely on: the state each of their loops keeps,
    and the specification functions unfolded at the points where the methods finish. */
module EditSteps {
  import opened Bytes
  import opened MachOFormat
  import opened Records
  import opened Persistence
  import opened Parse
  import opened Slices
  import opened Relayout
  import opened Commands
  import opened CodeSignature

  /** One round of remove_arch's loop records the next relocated slice. */
  lemma {:induction false} RelocatedNext(prefix: seq<Arch>, tail: seq<Arch>, start: u32, j: nat)
    requires j < |tail|
    ensures var rs := Relocated(tail, start);
            var cur := prefix + rs[..j] + tail[j..];
            && |prefix| + j < |cur| && cur[|prefix| + j] == tail[j]
            && cur[|prefix| + j := tail[j].(desc := tail[j].desc.(offset := NewOffset(tail, start, j)))]
               == prefix + rs[..j + 1] + tail[j + 1..]
  {
    var rs := Relocated(tail, start);
    var cur := prefix + rs[..j] + tail[j..];
    var next := prefix + rs[..j + 1] + tail[j + 1..];
    var upd := cur[|prefix| + j := tail[j].(desc := tail[j].desc.(offset := NewOffset(tail, start, j)))];
    assert |upd| == |next|;
    forall p | 0 <= p < |next| ensures upd[p] == next[p] {
      if p < |prefix| + j {
        assert upd[p] == cur[p];
      } else if p > |prefix| + j {
        assert upd[p] == cur[p] == tail[p - |prefix|];
      }
    }
  }

  /** What remove_arch's loop keeps after `j` rounds: the running offset, the slices
      relocated so far followed by those still to go, and the file from which the
      remaining rounds lead to the specified one. */
  ghost predicate TailState(c: Container, k: nat, j: nat, end: u32, archs: seq<Arch>, bytes: seq<byte>)
  {
    && k < |c.archs| && j <= |c.archs| - k - 1
    && (forall i :: 0 <= i < |c.archs| ==> End(c.archs[i].desc) <= |c.bytes|)
    && end == Placed(c.archs[k + 1..], Start(c, k), j)
    && archs == c.archs[..k] + Relocated(c.archs[k + 1..], Start(c, k))[..j] + c.archs[k + 1..][j..]
    && (forall t :: k < t < |c.archs| ==> End(c.archs[t].desc) <= |bytes|)
    && MovedFrom(bytes, c.archs[k + 1..], Start(c, k), j) == MovedFrom(Zeroed(c, k), c.archs[k + 1..], Start(c, k), 0)
  }

  lemma {:induction false} TailStart(c: Container, k: nat)
    requires k < |c.archs|
    requires forall i :: 0 <= i < |c.archs| ==> End(c.archs[i].desc) <= |c.bytes|
    ensures TailState(c, k, 0, Start(c, k), c.archs[..k] + c.archs[k + 1..], Zeroed(c, k))
  {
    var tail := c.archs[k + 1..];
    forall t | 0 <= t < |tail| ensures End(tail[t].desc) <= |Zeroed(c, k)| {
      assert tail[t] == c.archs[k + 1 + t];
    }
    assert Relocated(tail, Start(c, k))[..0] == [];
    assert tail[0..] == tail;
  }

  lemma {:induction false} TailAt(c: Container, k: nat, j: nat, end: u32, archs: seq<Arch>, bytes: seq<byte>)
    requires TailState(c, k, j, end, archs, bytes) && j < |c.archs| - k - 1
    ensures k + j < |archs| && archs[k + j] == c.archs[k + 1 + j]
    ensures End(archs[k + j].desc) <= |bytes|
  {
    var tail := c.archs[k + 1..];
    assert archs[k + j] == tail[j];
  }

  lemma {:induction false} TailStep(c: Container, k: nat, j: nat, end: u32, archs: seq<Arch>, bytes: seq<byte>,
                                    end': u32, archs': seq<Arch>, bytes': seq<byte>)
    requires TailState(c, k, j, end, archs, bytes) && j < |c.archs| - k - 1
    requires k + j < |archs| && End(archs[k + j].desc) <= |bytes|
    requires var a := archs[k + j];
             var newOffset := RoundUp32(end, AlignOf(a.desc));
             && archs' == archs[k + j := a.(desc := a.desc.(offset := newOffset))]
             && bytes' == Step(bytes, a.desc, newOffset)
             && end' == Add32(newOffset, a.desc.size)
    ensures TailState(c, k, j + 1, end', archs', bytes')
  {
    var tail := c.archs[k + 1..];
    var start := Start(c, k);
    var prefix := c.archs[..k];
    TailAt(c, k, j, end, archs, bytes);
    assert archs[k + j] == tail[j];
    RelocatedNext(prefix, tail, start, j);
    MovedRound(bytes, tail, start, j, bytes');
  }

  lemma {:induction false} TailDone(c: Container, k: nat, j: nat, end: u32, archs: seq<Arch>, bytes: seq<byte>)
    requires k < |c.archs| && j == |c.archs| - k - 1 && TailState(c, k, j, end, archs, bytes)
    ensures archs == Remaining(c, k)
    ensures bytes == MovedFrom(Zeroed(c, k), c.archs[k + 1..], Start(c, k), 0)
    ensures end == NewEnd(c, k)
  {
    var tail := c.archs[k + 1..];
    assert Relocated(tail, Start(c, k))[..|tail|] == Relocated(tail, Start(c, k));
    assert tail[|tail|..] == [];
  }

  /** One round of remove_arch's loop is one `Step` of `MovedFrom`. */
  lemma {:induction false} MovedRound(b: seq<byte>, tail: seq<Arch>, start: u32, j: nat, b': seq<byte>)
    requires j < |tail|
    requires forall t :: 0 <= t < |tail| ==> End(tail[t].desc) <= |b|
    requires End(tail[j].desc) <= |b|
    requires b' == Step(b, tail[j].desc, NewOffset(tail, start, j))
    ensures forall t :: 0 <= t < |tail| ==> End(tail[t].desc) <= |b'|
    ensures MovedFrom(b', tail, start, j + 1) == MovedFrom(b, tail, start, j)
  {
  }

  /** The container remove_arch holds after its loop is the one its specification stages. */
  lemma {:induction false} RemoveStageIs(c: Container, k: nat, c1: Container)
    requires c.nArchs == |c.archs| && k < |c.archs|
    requires forall i :: 0 <= i < |c.archs| ==> End(c.archs[i].desc) <= |c.bytes|
    requires c1 == c.(bytes := MovedFrom(Zeroed(c, k), c.archs[k + 1..], Start(c, k), 0),
                      archs := Remaining(c, k), nArchs := Sub32(c.nArchs, 1))
    ensures RemoveStage(c, k) == c1
  {
  }

  /** remove_arch ends by cutting the file at the running offset. */
  lemma {:induction false} RemoveArchIs(c: Container, k: nat, c1: Container, r: Container)
    requires c.isFat && c.nArchs == |c.archs| && k < |c.archs|
    requires forall i :: 0 <= i < |c.archs| ==> End(c.archs[i].desc) <= |c.bytes|
    requires c1 == RemoveStage(c, k)
    requires var w := Persistence.WriteFatArchs(Persistence.WriteFatHeader(c1));
             r == w.(bytes := Resize(w.bytes, NewEnd(c, k)), fileSize := NewEnd(c, k))
    ensures r == Relayout.RemoveArch(c, k)
  {
  }

  /** The container insert_arch_from_macho holds before it writes the header and table
      is the one its specification stages. */
  lemma {:induction false} InsertStageIs(c: Container, src: Container, k: nat, c1: Container)
    requires k < |src.archs| && ImportedDesc(c, src, k).size <= |src.bytes|
    requires var d := ImportedDesc(c, src, k);
             var off := RoundUp32(c.fileSize, AlignOf(d));
             var n := Add32(c.fileSize, off);
             c1 == c.(bytes := Overwrite(Overwrite(Resize(c.bytes, n), c.fileSize, Zeros(Sub32(off, c.fileSize))), off, src.bytes[0..d.size]),
                      nArchs := Add32(c.nArchs, 1), archs := c.archs + [src.archs[k].(desc := d.(offset := off))], fileSize := n)
    ensures c1 == InsertStage(c, src, k)
  {
  }

  /** insert_arch_from_macho ends by writing the fat header and table. */
  lemma {:induction false} InsertArchIs(c: Container, src: Container, k: nat, c1: Container, r: Container)
    requires k < |src.archs| && ImportedDesc(c, src, k).size <= |src.bytes|
    requires c1 == InsertStage(c, src, k)
    requires r == Persistence.WriteFatArchs(Persistence.WriteFatHeader(c1))
    ensures r == InsertArch(c, src, k)
  {
  }

  /** The commands from `i + 1` up to `t - 1` with the offsets move_load_command's loop
      gives them: each right after the one before, the first at command `i`'s offset. */
  function Run(lcs: seq<LoadCommand>, i: nat, t: nat): (r: seq<LoadCommand>)
    requires i < t <= |lcs|
    ensures |r| == t - i - 1
    decreases t
  {
    if t == i + 1 then []
    else
      var p := Run(lcs, i, t - 1);
      p + [lcs[t - 1].(fileOffset := lcs[i].fileOffset + SumSizes(p))]
  }

  /** The run is the relaid slice of the commands it covers. */
  lemma RunRelaid(lcs: seq<LoadCommand>, i: nat, t: nat)
    requires i < t <= |lcs|
    ensures Run(lcs, i, t) == Relaid(lcs[i + 1..t], lcs[i].fileOffset)
  {
    RunRelaidAt(lcs, i, t, lcs[i + 1..t]);
  }

  /** The same, for any sequence `q` holding the commands from `i + 1` up to `t`. */
  lemma {:induction false} RunRelaidAt(lcs: seq<LoadCommand>, i: nat, t: nat, q: seq<LoadCommand>)
    requires i < t <= |lcs| && |q| == t - i - 1
    requires forall k :: 0 <= k < |q| ==> q[k] == lcs[i + 1 + k]
    ensures Run(lcs, i, t) == Relaid(q, lcs[i].fileOffset)
    decreases t
  {
    var off := lcs[i].fileOffset;
    if t > i + 1 {
      var n := |q| - 1;
      var q' := q[..n];
      RunRelaidAt(lcs, i, t - 1, q');
      RelaidSum(q', off);
      assert q[n] == lcs[t - 1];
      LastSnoc(q);
      RelaidSnoc(q, q', q[n], off);
      RunSnoc(lcs, i, t);
      SnocJoin(Run(lcs, i, t - 1), q', lcs[t - 1], off, Run(lcs, i, t), Relaid(q, off));
    }
  }

  /** The run up to `t` is the run up to `t - 1` and command `t - 1` placed after it. */
  lemma RunSnoc(lcs: seq<LoadCommand>, i: nat, t: nat)
    requires i + 1 < t <= |lcs|
    ensures Run(lcs, i, t) == Run(lcs, i, t - 1)
                              + [lcs[t - 1].(fileOffset := lcs[i].fileOffset + SumSizes(Run(lcs, i, t - 1)))]
  {
  }

  /** Two runs built alike from equal parts are equal. */
  lemma SnocJoin(p: seq<LoadCommand>, q: seq<LoadCommand>, x: LoadCommand, off: nat,
                 run: seq<LoadCommand>, rel: seq<LoadCommand>)
    requires p == Relaid(q, off) && SumSizes(p) == SumSizes(q)
    requires run == p + [x.(fileOffset := off + SumSizes(p))]
    requires rel == Relaid(q, off) + [x.(fileOffset := off + SumSizes(q))]
    ensures run == rel
  {
  }

  /** A non-empty sequence is its prefix followed by its last element. */
  lemma LastSnoc<T>(s: seq<T>)
    requires |s| > 0
    ensures s == s[..|s| - 1] + [s[|s| - 1]]
  {
  }

  /** Relaying a run with one more command at its end. */
  lemma {:induction false} RelaidSnoc(run: seq<LoadCommand>, q: seq<LoadCommand>, x: LoadCommand, off: nat)
    requires run == q + [x]
    ensures Relaid(run, off) == Relaid(q, off) + [x.(fileOffset := off + SumSizes(q))]
  {
    assert run[..|run| - 1] == q;
  }

  /** Appending one sized command to a sized run adds its size and one more write. */
  lemma {:induction false} RunAppend(b0: seq<byte>, p: seq<LoadCommand>, x: LoadCommand)
    requires Sized(p) && x.cmdsize <= |x.raw|
    ensures Sized(p + [x]) && SumSizes(p + [x]) == SumSizes(p) + x.cmdsize
    ensures WriteAll(b0, p + [x]) == Persistence.WriteLoadCommand(WriteAll(b0, p), x)
  {
    assert (p + [x])[..|p|] == p;
    assert forall t :: 0 <= t < |p| ==> (p + [x])[t] == p[t];
  }

  /** Writing a command's record at `off` is writing the command placed at `off`. */
  lemma WriteAt(bs: seq<byte>, lc: LoadCommand, off: nat)
    requires lc.cmdsize <= |lc.raw|
    ensures Overwrite(bs, off, lc.raw[..lc.cmdsize]) == Persistence.WriteLoadCommand(bs, lc.(fileOffset := off))
  {
    var m := lc.(fileOffset := off);
    assert m.raw[..m.cmdsize] == lc.raw[..lc.cmdsize];
  }

  /** Replacing the first element after `pre + p` by `x` moves it into the run. */
  lemma {:induction false} SpliceAppend<T>(pre: seq<T>, p: seq<T>, rest: seq<T>, x: T)
    requires |rest| > 0
    ensures (pre + p + rest)[|pre| + |p| := x] == pre + (p + [x]) + rest[1..]
  {
    var l := (pre + p + rest)[|pre| + |p| := x];
    var r := pre + (p + [x]) + rest[1..];
    assert |l| == |r|;
    forall q | 0 <= q < |l| ensures l[q] == r[q] {
      if q < |pre| {
        assert l[q] == pre[q] == r[q];
      } else if q < |pre| + |p| {
        assert l[q] == p[q - |pre|] == r[q];
      } else if q > |pre| + |p| {
        assert l[q] == rest[q - |pre| - |p|] == r[q];
      }
    }
  }

  lemma {:induction false} DropAt<T>(pre: seq<T>, mid: seq<T>, rest: seq<T>, i: nat)
    requires |pre| == i + 1
    ensures (pre + mid + rest)[..i] == pre[..i] && (pre + mid + rest)[i + 1..] == mid + rest
  {
  }

  /** Taking element `i` out of `pre + mid + rest`, where `pre` ends at `i`, and
      appending `x`. */
  lemma {:induction false} SplicedToEnd<T>(pre: seq<T>, mid: seq<T>, rest: seq<T>, i: nat, s: seq<T>, s': seq<T>, x: T)
    requires |pre| == i + 1 && s == pre + mid + rest
    requires s' == s[..i] + s[i + 1..] + [x]
    ensures s' == pre[..i] + mid + rest + [x]
  {
    DropAt(pre, mid, rest, i);
    assert pre[..i] + (mid + rest) == pre[..i] + mid + rest;
  }

  /** What move_load_command's loop keeps once the commands from `i + 1` up to `t` have
      been moved: the list holds the run in their place, the running offset lies just
      past the run, and the file has the run's records written. */
  ghost predicate ShiftState(b0: seq<byte>, lcs: seq<LoadCommand>, i: nat, t: nat,
                             cmds: seq<LoadCommand>, newOffset: nat, file: seq<byte>)
  {
    && i < t <= |lcs|
    && cmds == lcs[..i + 1] + Run(lcs, i, t) + lcs[t..]
    && newOffset == lcs[i].fileOffset + SumSizes(Run(lcs, i, t))
    && Sized(Run(lcs, i, t)) && file == WriteAll(b0, Run(lcs, i, t))
  }

  /** Before the loop nothing has moved. */
  lemma ShiftStart(b0: seq<byte>, lcs: seq<LoadCommand>, i: nat)
    requires i < |lcs|
    ensures ShiftState(b0, lcs, i, i + 1, lcs, lcs[i].fileOffset, b0)
  {
    assert lcs[..i + 1] + [] + lcs[i + 1..] == lcs;
  }

  /** One round of move_load_command's loop: command `t` joins the run at the running
      offset, the offset passes it, and its record is written there. */
  lemma {:induction false} RunStep(b0: seq<byte>, lcs: seq<LoadCommand>, i: nat, t: nat,
                                   cmds: seq<LoadCommand>, newOffset: nat, file: seq<byte>,
                                   cmds': seq<LoadCommand>, newOffset': nat, file': seq<byte>)
    requires t < |lcs| && Sized(lcs) && ShiftState(b0, lcs, i, t, cmds, newOffset, file)
    requires cmds' == cmds[t := lcs[t].(fileOffset := newOffset)]
    requires file' == Overwrite(file, newOffset, lcs[t].raw[..lcs[t].cmdsize])
    requires newOffset' == newOffset + lcs[t].cmdsize
    ensures ShiftState(b0, lcs, i, t + 1, cmds', newOffset', file')
  {
    var p := Run(lcs, i, t);
    var x := lcs[t].(fileOffset := newOffset);
    assert Run(lcs, i, t + 1) == p + [x];
    RunAppend(b0, p, x);
    SpliceAppend(lcs[..i + 1], p, lcs[t..], x);
    assert lcs[t..][1..] == lcs[t + 1..];
  }

  /** The loop has not yet touched command `t`. */
  lemma {:induction false} RunAt(b0: seq<byte>, lcs: seq<LoadCommand>, i: nat, t: nat,
                                 cmds: seq<LoadCommand>, newOffset: nat, file: seq<byte>)
    requires t < |lcs| && ShiftState(b0, lcs, i, t, cmds, newOffset, file)
    ensures t < |cmds| && cmds[t] == lcs[t]
  {
    assert cmds[t] == lcs[t..][0];
  }

  /** Writing a command's record just past a run that equals `mid`. */
  lemma FinishFile(b0: seq<byte>, run: seq<LoadCommand>, mid: seq<LoadCommand>, lc: LoadCommand,
                   newOffset: nat, file: seq<byte>)
    requires run == mid && Sized(run) && lc.cmdsize <= |lc.raw|
    requires newOffset == lc.fileOffset + SumSizes(run) && file == WriteAll(b0, run)
    ensures Overwrite(file, newOffset, lc.raw[..lc.cmdsize])
            == Persistence.WriteLoadCommand(WriteAll(b0, mid), lc.(fileOffset := lc.fileOffset + SumSizes(mid)))
  {
    WriteAt(file, lc, newOffset);
  }

  /** A prefix of a prefix. */
  lemma TakeTake<T>(s: seq<T>, i: nat)
    requires i < |s|
    ensures s[..i + 1][..i] == s[..i]
  {
  }

  /** The loop's bound `t` is `j + 1`. */
  lemma SlicesAt<T>(s: seq<T>, i: nat, j: nat, t: nat)
    requires i < j < |s| && t == j + 1
    ensures s[i + 1..t] == s[i + 1..j + 1] && s[t..] == s[j + 1..]
  {
  }

  /** The end of remove_load_command is the specification's pop of the last command. */
  lemma {:induction false} PopIs(c: Container, a: nat, r: Container)
    requires a < |c.archs| && Sized(c.archs[a].commands) && |c.archs[a].commands| > 0
    requires var arch := c.archs[a];
             var n := |arch.commands|;
             var lc := arch.commands[n - 1];
             var h := arch.header.(ncmds := Sub32(arch.header.ncmds, 1),
                                   sizeofcmds := Sub32(arch.header.sizeofcmds, lc.cmdsize));
             var c2 := Persistence.WriteMachHeader(c.(archs := c.archs[a := arch.(header := h)]), a);
             r == c2.(bytes := Overwrite(c2.bytes, lc.fileOffset, Zeros(lc.cmdsize)),
                      archs := c2.archs[a := arch.(header := h, commands := arch.commands[..n - 1])])
    ensures r == PopCommand(c, a)
  {
  }

  /** insert_load_command's steps before the header write are the specification's
      staging of the new command. */
  lemma {:induction false} InsertCommandIs(c: Container, a: nat, raw: seq<byte>, name: string, offset: u32, c1: Container)
    requires a < |c.archs| && 8 <= |raw|
    requires Swap32(Word(raw, 4), c.archs[a].header.magic) <= |raw|
    requires offset as int == CommandsEnd(c.archs[a]) % TWO_32
    requires var arch := c.archs[a];
             var magic := arch.header.magic;
             var cmdsize := Swap32(Word(raw, 4), magic);
             var h := arch.header.(ncmds := Add32(arch.header.ncmds, 1),
                                   sizeofcmds := Add32(arch.header.sizeofcmds, cmdsize));
             c1 == c.(bytes := Overwrite(c.bytes, offset, raw[..cmdsize]),
                      archs := c.archs[a := arch.(header := h, commands := arch.commands + [NewCommand(raw, magic, offset, name)])])
    ensures Persistence.WriteMachHeader(c1, a) == Commands.InsertLoadCommand(c, a, raw, name)
  {
    var arch := c.archs[a];
    var magic := arch.header.magic;
    var lc := NewCommand(raw, magic, offset, name);
    assert lc.raw[..lc.cmdsize] == raw[..Swap32(Word(raw, 4), magic)];
  }

  /** remove_codesignature's shrink, descriptor write and segment write are the
      specification's staging. */
  lemma {:induction false} StagedIs(c: Container, a: nat, r: Container)
    requires a < |c.archs| && Sized(c.archs[a].commands) && FieldsReadable(c.archs[a].commands)
    requires Signed(c.archs[a])
    requires var arch := c.archs[a];
             var magic := arch.header.magic;
             var li := LastOf(arch.commands, Anchor).value;
             var seg := ResizeSegment(arch.commands[li], magic,
                                      Sub64(SegmentFileSize(arch.commands[li], magic), Reduction(arch)));
             var w := Persistence.WriteFatArchs(c.(archs := c.archs[a := arch.(desc := arch.desc.(size := Sub32(arch.desc.size, Reduction(arch))),
                                                                                 commands := arch.commands[li := seg])]));
             seg.cmdsize <= |seg.raw| && r == w.(bytes := Persistence.WriteLoadCommand(w.bytes, seg))
    ensures r == CodeSignature.Staged(c, a)
  {
  }

  /** write_fat_archs on a fat container, once the table is written to `bs`. */
  lemma {:induction false} FatArchsWritten(c: Container, bs: seq<byte>)
    requires c.isFat && (c.nArchs > 0 ==> |c.archs| > 0)
    requires bs == Overwrite(c.bytes, FAT_HEADER_SIZE, EncodeFatTable(c.archs, c.fatMagic))
    ensures Persistence.WriteFatArchs(c)
            == if c.nArchs > 0 && TableEnd(c) != c.fileSize then c.(bytes := Resize(bs, TableEnd(c)), fileSize := TableEnd(c))
               else c.(bytes := bs)
  {
  }

  /** write_fat_archs on a thin container. */
  lemma {:induction false} ThinArchsWritten(c: Container)
    requires !c.isFat && |c.archs| > 0
    ensures Persistence.WriteFatArchs(c)
            == if c.fileSize != c.archs[0].desc.size
               then c.(bytes := Resize(c.bytes, c.archs[0].desc.size), fileSize := c.archs[0].desc.size)
               else c
  {
  }

  /** One more descriptor written after the ones before it extends the written table. */
  lemma {:induction false} TableStep(b0: seq<byte>, archs: seq<Arch>, i: nat, magic: u32, b: seq<byte>)
    requires i < |archs|
    requires i > 0 || FAT_HEADER_SIZE <= |b0| ==> b == Overwrite(b0, FAT_HEADER_SIZE, EncodeFatTable(archs[..i], magic))
    requires i == 0 ==> b == b0
    ensures Overwrite(b, FAT_HEADER_SIZE + FAT_ARCH_SIZE * i, EncodeFatArch(archs[i].desc, magic))
            == Overwrite(b0, FAT_HEADER_SIZE, EncodeFatTable(archs[..i + 1], magic))
  {
    var t := EncodeFatTable(archs[..i], magic);
    var e := EncodeFatArch(archs[i].desc, magic);
    TableSnoc(archs, i, magic);
    if i == 0 {
      assert t + e == e;
    } else {
      OverwriteConcat(b0, FAT_HEADER_SIZE, t, e);
    }
  }

  /** The table of one more slice is the table so far followed by that slice's
      descriptor. */
  lemma TableSnoc(archs: seq<Arch>, i: nat, magic: u32)
    requires i < |archs|
    ensures EncodeFatTable(archs[..i + 1], magic) == EncodeFatTable(archs[..i], magic) + EncodeFatArch(archs[i].desc, magic)
  {
    assert archs[..i + 1][..i] == archs[..i];
  }

  /** The thin container opening a file gives, in terms of its one descriptor. */
  lemma {:induction false} ThinState(content: seq<byte>, cpuPagesize: u32 -> u32, readCommands: nat -> seq<LoadCommand>,
                                     mh: MachHeader, raw: FatArch, desc: FatArch, slice: Arch)
    requires MACH_HEADER_SIZE <= |content| < TWO_32
    requires mh == DecodeMachHeader(content, 0)
    requires raw == ArchFromMachHeader(mh, |content|, FAT_CIGAM, cpuPagesize)
    requires desc == Records.SwapArch(raw, FAT_CIGAM)
    requires desc.offset + MACH_HEADER_SIZE <= |content| && slice == ReadSlice(content, desc, readCommands)
    ensures Container(content, |content|, false, FAT_CIGAM, 1, [slice]) == ParseThin(content, cpuPagesize, readCommands)
  {
  }

  /** A file with a fat magic opens as its fat header and table say. */
  lemma {:induction false} ParseFatCase(content: seq<byte>, cpuPagesize: u32 -> u32, readCommands: nat -> seq<LoadCommand>)
    requires FAT_HEADER_SIZE <= |content| <= UINT32_MAX && IsMagic(Word(content, 0)) && IsFat(Word(content, 0))
    ensures Parse.Parse(content, cpuPagesize, readCommands) == ParseFat(content, Word(content, 0), readCommands)
  {
  }

  /** A file with a thin magic opens as its one slice. */
  lemma {:induction false} ParseThinCase(content: seq<byte>, cpuPagesize: u32 -> u32, readCommands: nat -> seq<LoadCommand>)
    requires MACH_HEADER_SIZE <= |content| <= UINT32_MAX && IsMagic(Word(content, 0)) && !IsFat(Word(content, 0))
    ensures Parse.Parse(content, cpuPagesize, readCommands) == Ok(ParseThin(content, cpuPagesize, readCommands))
  {
  }

  /** The `i`-th entry of a table of `n` descriptors lies within the table. */
  lemma {:induction false} EntryWithin(n: nat, i: nat, len: nat)
    requires i < n && FAT_HEADER_SIZE + FAT_ARCH_SIZE * n <= len
    ensures FAT_HEADER_SIZE + FAT_ARCH_SIZE * i + FAT_ARCH_SIZE <= len
  {
    assert FAT_ARCH_SIZE * i + FAT_ARCH_SIZE == FAT_ARCH_SIZE * (i + 1) <= FAT_ARCH_SIZE * n;
  }

  /** READ of the `i`-th descriptor of a table of `n`, before it is swapped. */
  function ReadEntry(content: seq<byte>, n: nat, i: nat): FatArch
    requires i < n && FAT_HEADER_SIZE + FAT_ARCH_SIZE * n <= |content|
  {
    EntryWithin(n, i, |content|);
    var off := FAT_HEADER_SIZE + FAT_ARCH_SIZE * i;
    FatArch(Word(content, off), Word(content, off + 4), Word(content, off + 8),
            Word(content, off + 12), Word(content, off + 16))
  }

  /** The descriptor read at the `i`-th table entry and swapped is the `i`-th descriptor. */
  lemma {:induction false} DescriptorAt(content: seq<byte>, magic: u32, n: nat, i: nat, raw: FatArch)
    requires i < n && FAT_HEADER_SIZE + FAT_ARCH_SIZE * n <= |content|
    requires raw == ReadEntry(content, n, i)
    ensures Records.SwapArch(raw, magic) == FatDescriptors(content, magic, n)[i]
  {
    EntryWithin(n, i, |content|);
  }

  /** A descriptor that names a slice past the end of the file makes opening fail. */
  lemma {:induction false} OpenTruncated(content: seq<byte>, magic: u32, readCommands: nat -> seq<LoadCommand>, i: nat)
    requires FAT_HEADER_SIZE <= |content| < TWO_32
    requires i < Swap32(Word(content, 4), magic)
    requires FAT_HEADER_SIZE + FAT_ARCH_SIZE * Swap32(Word(content, 4), magic) <= |content|
    requires FatDescriptors(content, magic, Swap32(Word(content, 4), magic))[i].offset + MACH_HEADER_SIZE > |content|
    ensures ParseFat(content, magic, readCommands) == Err(Truncated)
  {
  }

  /** The slices read so far are those the first descriptors name. */
  ghost predicate SlicesRead(content: seq<byte>, ds: seq<FatArch>, readCommands: nat -> seq<LoadCommand>, archs: seq<Arch>)
  {
    && |archs| <= |ds|
    && forall t :: 0 <= t < |archs| ==>
         ds[t].offset + MACH_HEADER_SIZE <= |content| && archs[t] == ReadSlice(content, ds[t], readCommands)
  }

  lemma {:induction false} SlicesReadStep(content: seq<byte>, ds: seq<FatArch>, readCommands: nat -> seq<LoadCommand>, archs: seq<Arch>)
    requires SlicesRead(content, ds, readCommands, archs) && |archs| < |ds|
    requires ds[|archs|].offset + MACH_HEADER_SIZE <= |content|
    ensures SlicesRead(content, ds, readCommands, archs + [ReadSlice(content, ds[|archs|], readCommands)])
  {
  }

  /** The slices read one descriptor after another are those opening the file records. */
  lemma {:induction false} OpenFat(content: seq<byte>, magic: u32, readCommands: nat -> seq<LoadCommand>, archs: seq<Arch>)
    requires FAT_HEADER_SIZE <= |content| < TWO_32
    requires FAT_HEADER_SIZE + FAT_ARCH_SIZE * Swap32(Word(content, 4), magic) <= |content|
    requires |archs| == Swap32(Word(content, 4), magic)
    requires SlicesRead(content, FatDescriptors(content, magic, |archs|), readCommands, archs)
    ensures ParseFat(content, magic, readCommands)
            == Ok(Container(content, |content|, true, magic, Swap32(Word(content, 4), magic), archs))
  {
    var ds := FatDescriptors(content, magic, |archs|);
    var fs := FatSlices(content, ds, readCommands);
    assert fs == archs;
  }
}
