/** The load commands of one slice: their layout in the file, and the editor's
    operations on them (move_load_command, remove_load_command, insert_load_command,
    change_file_type). The operations work on the file's bytes and the slice's list of
    commands; the container-level versions apply them to one slice and rewrite its
    Mach header. */
module Commands {
  import opened Bytes
  import opened MachOFormat
  import opened Records
  import opened Persistence

  // ---- runs of commands ----

  /** The total `cmdsize` of a run of commands. */
  function SumSizes(lcs: seq<LoadCommand>): nat
  {
    if lcs == [] then 0 else SumSizes(lcs[..|lcs| - 1]) + lcs[|lcs| - 1].cmdsize
  }

  lemma {:induction false} SumSizesConcat(a: seq<LoadCommand>, b: seq<LoadCommand>)
    ensures SumSizes(a + b) == SumSizes(a) + SumSizes(b)
    decreases |b|
  {
    if b != [] {
      var n := |b| - 1;
      assert (a + b)[..|a + b| - 1] == a + b[..n];
      SumSizesConcat(a, b[..n]);
    } else {
      assert a + b == a;
    }
  }

  /** Each command's record is at least as long as its `cmdsize`, which is what
      write_load_command writes. */
  predicate Sized(lcs: seq<LoadCommand>)
  {
    forall t :: 0 <= t < |lcs| ==> lcs[t].cmdsize <= |lcs[t].raw|
  }

  /** The file holds every command's record at the command's file offset. */
  ghost predicate Held(bs: seq<byte>, lcs: seq<LoadCommand>)
  {
    && Sized(lcs)
    && (forall t :: 0 <= t < |lcs| ==> Holds(bs, lcs[t].fileOffset, lcs[t].raw[..lcs[t].cmdsize]))
  }

  /** The commands lie back to back in list order from `off`. */
  ghost predicate Laid(lcs: seq<LoadCommand>, off: nat)
  {
    forall t {:trigger lcs[..t]} :: 0 <= t < |lcs| ==> lcs[t].fileOffset == off + SumSizes(lcs[..t])
  }

  /** The commands lie back to back in list order. */
  ghost predicate Contiguous(lcs: seq<LoadCommand>)
  {
    |lcs| == 0 || Laid(lcs, lcs[0].fileOffset)
  }

  /** `r` holds the same commands as `lcs`, in the same order, at any offsets. */
  ghost predicate SameRecords(r: seq<LoadCommand>, lcs: seq<LoadCommand>)
  {
    |r| == |lcs| && forall t :: 0 <= t < |lcs| ==> r[t] == lcs[t].(fileOffset := r[t].fileOffset)
  }

  lemma {:induction false} SumSizesSame(r: seq<LoadCommand>, lcs: seq<LoadCommand>)
    requires SameRecords(r, lcs)
    ensures SumSizes(r) == SumSizes(lcs)
    decreases |lcs|
  {
    if lcs != [] {
      var n := |lcs| - 1;
      assert SameRecords(r[..n], lcs[..n]) by {
        forall t | 0 <= t < n ensures r[..n][t] == lcs[..n][t].(fileOffset := r[..n][t].fileOffset) {
          assert r[..n][t] == r[t] && lcs[..n][t] == lcs[t];
        }
      }
      SumSizesSame(r[..n], lcs[..n]);
    }
  }

  /** The commands of `lcs` laid back to back from `off`: the offsets the loop of
      move_load_command gives the commands it shifts. */
  function Relaid(lcs: seq<LoadCommand>, off: nat): (r: seq<LoadCommand>)
    ensures |r| == |lcs|
    decreases |lcs|
  {
    if lcs == [] then []
    else
      var n := |lcs| - 1;
      Relaid(lcs[..n], off) + [lcs[n].(fileOffset := off + SumSizes(lcs[..n]))]
  }

  /** The relaid run holds the same records in the same order, lies back to back from
      `off`, and keeps the total size. */
  lemma {:induction false} RelaidShape(lcs: seq<LoadCommand>, off: nat)
    ensures SameRecords(Relaid(lcs, off), lcs) && Laid(Relaid(lcs, off), off)
    ensures SumSizes(Relaid(lcs, off)) == SumSizes(lcs)
    decreases |lcs|
  {
    if lcs != [] {
      var n := |lcs| - 1;
      var init := Relaid(lcs[..n], off);
      RelaidShape(lcs[..n], off);
      var r := init + [lcs[n].(fileOffset := off + SumSizes(lcs[..n]))];
      assert r == Relaid(lcs, off);
      assert r[..n] == init;
      RelaidLaid(init, lcs, off, r);
      SumSizesSame(r, lcs);
    }
  }

  /** Relaying keeps the total size. */
  lemma {:induction false} RelaidSum(lcs: seq<LoadCommand>, off: nat)
    ensures SumSizes(Relaid(lcs, off)) == SumSizes(lcs)
  {
    RelaidShape(lcs, off);
  }

  /** Appending the next command at the end of a laid-out run keeps it laid out. */
  lemma {:induction false} RelaidLaid(init: seq<LoadCommand>, lcs: seq<LoadCommand>, off: nat, r: seq<LoadCommand>)
    requires |lcs| > 0 && SameRecords(init, lcs[..|lcs| - 1]) && Laid(init, off)
    requires SumSizes(init) == SumSizes(lcs[..|lcs| - 1])
    requires r == init + [lcs[|lcs| - 1].(fileOffset := off + SumSizes(lcs[..|lcs| - 1]))]
    ensures SameRecords(r, lcs) && Laid(r, off)
  {
    var n := |lcs| - 1;
    assert r[..n] == init;
    forall t | 0 <= t < |r| ensures r[t].fileOffset == off + SumSizes(r[..t]) {
      if t < n {
        assert r[..t] == init[..t];
      }
    }
    forall t | 0 <= t < |lcs| ensures r[t] == lcs[t].(fileOffset := r[t].fileOffset) {
      if t < n {
        assert lcs[..n][t] == lcs[t];
      }
    }
  }

  /** A laid-out run places each command right after the one before it. */
  lemma {:induction false} LaidNext(lcs: seq<LoadCommand>, off: nat, t: nat)
    requires Laid(lcs, off) && t + 1 < |lcs|
    ensures lcs[t + 1].fileOffset == lcs[t].fileOffset + lcs[t].cmdsize
  {
    assert lcs[..t + 1][..t] == lcs[..t];
  }

  /** The commands of a laid-out run lie in order within `[off, off + SumSizes(lcs))`. */
  lemma {:induction false} LaidWithin(lcs: seq<LoadCommand>, off: nat, t: nat)
    requires Laid(lcs, off) && t < |lcs|
    ensures off <= lcs[t].fileOffset
    ensures lcs[t].fileOffset + lcs[t].cmdsize <= off + SumSizes(lcs)
    decreases |lcs|
  {
    var n := |lcs| - 1;
    if t < n {
      assert Laid(lcs[..n], off) by {
        forall u | 0 <= u < n ensures lcs[..n][u].fileOffset == off + SumSizes(lcs[..n][..u]) {
          assert lcs[..n][..u] == lcs[..u];
        }
      }
      LaidWithin(lcs[..n], off, t);
    }
  }

  /** Commands of a laid-out run are ordered by their index. */
  lemma {:induction false} LaidOrdered(lcs: seq<LoadCommand>, off: nat, t: nat, u: nat)
    requires Laid(lcs, off) && t < u < |lcs|
    ensures lcs[t].fileOffset + lcs[t].cmdsize <= lcs[u].fileOffset
    decreases u - t
  {
    LaidNext(lcs, off, u - 1);
    if t < u - 1 {
      LaidOrdered(lcs, off, t, u - 1);
    }
  }

  lemma {:induction false} SizedSlice(lcs: seq<LoadCommand>, a: nat, b: nat)
    requires Sized(lcs) && a <= b <= |lcs|
    ensures Sized(lcs[a..b])
  {
    forall t | 0 <= t < b - a ensures lcs[a..b][t].cmdsize <= |lcs[a..b][t].raw| {
      assert lcs[a..b][t] == lcs[a + t];
    }
  }

  lemma {:induction false} SizedConcat(x: seq<LoadCommand>, y: seq<LoadCommand>)
    requires Sized(x) && Sized(y)
    ensures Sized(x + y)
  {
    forall t | 0 <= t < |x + y| ensures (x + y)[t].cmdsize <= |(x + y)[t].raw| {
      if t < |x| {
        assert (x + y)[t] == x[t];
      } else {
        assert (x + y)[t] == y[t - |x|];
      }
    }
  }

  lemma {:induction false} SizedSame(r: seq<LoadCommand>, lcs: seq<LoadCommand>)
    requires SameRecords(r, lcs) && Sized(lcs)
    ensures Sized(r)
  {
    forall t | 0 <= t < |r| ensures r[t].cmdsize <= |r[t].raw| {
      assert r[t].cmdsize == lcs[t].cmdsize && r[t].raw == lcs[t].raw;
    }
  }

  /** write_load_command for every command of `lcs`, in order. */
  function WriteAll(bs: seq<byte>, lcs: seq<LoadCommand>): (r: seq<byte>)
    requires Sized(lcs)
    ensures |r| >= |bs|
    decreases |lcs|
  {
    if lcs == [] then bs
    else
      SizedSlice(lcs, 0, |lcs| - 1);
      WriteLoadCommand(WriteAll(bs, lcs[..|lcs| - 1]), lcs[|lcs| - 1])
  }

  /** What writing a run laid out from `off` leaves: every command's record in place,
      nothing outside `[off, off + SumSizes(lcs))` touched, and the file extended only
      as far as the run reaches. */
  ghost predicate SpanWritten(bs: seq<byte>, lcs: seq<LoadCommand>, off: nat, w: seq<byte>)
  {
    && |w| >= |bs|
    && (off + SumSizes(lcs) <= |bs| ==> |w| == |bs|)
    && |w| <= (if off + SumSizes(lcs) <= |bs| then |bs| else off + SumSizes(lcs))
    && (forall p :: 0 <= p < |bs| && !(off <= p < off + SumSizes(lcs)) ==> w[p] == bs[p])
    && Held(w, lcs)
  }

  lemma {:induction false} WriteAllSpan(bs: seq<byte>, lcs: seq<LoadCommand>, off: nat)
    requires Sized(lcs) && Laid(lcs, off)
    ensures SpanWritten(bs, lcs, off, WriteAll(bs, lcs))
    decreases |lcs|
  {
    if lcs != [] {
      var n := |lcs| - 1;
      var init := lcs[..n];
      LaidInit(lcs, off);
      WriteAllSpan(bs, init, off);
      SpanStep(bs, init, lcs[n], off, WriteAll(bs, init), WriteAll(bs, lcs), lcs);
    } else {
      assert Held(bs, lcs);
    }
  }

  /** The first commands of a laid-out run, and where the last one goes. */
  lemma {:induction false} LaidInit(lcs: seq<LoadCommand>, off: nat)
    requires Sized(lcs) && Laid(lcs, off) && |lcs| > 0
    ensures var init := lcs[..|lcs| - 1];
            && Sized(init) && Laid(init, off)
            && lcs[|lcs| - 1].fileOffset == off + SumSizes(init)
            && SumSizes(lcs) == SumSizes(init) + lcs[|lcs| - 1].cmdsize
            && lcs == init + [lcs[|lcs| - 1]]
  {
    var n := |lcs| - 1;
    var init := lcs[..n];
    SizedSlice(lcs, 0, n);
    forall u | 0 <= u < n ensures init[u].fileOffset == off + SumSizes(init[..u]) {
      assert init[..u] == lcs[..u];
    }
  }

  lemma {:induction false} SpanStep(bs: seq<byte>, init: seq<LoadCommand>, lc: LoadCommand, off: nat, w0: seq<byte>, w: seq<byte>, lcs: seq<LoadCommand>)
    requires lcs == init + [lc] && Laid(init, off) && SpanWritten(bs, init, off, w0)
    requires lc.cmdsize <= |lc.raw| && lc.fileOffset == off + SumSizes(init)
    requires SumSizes(lcs) == SumSizes(init) + lc.cmdsize
    requires w == Overwrite(w0, lc.fileOffset, lc.raw[..lc.cmdsize])
    ensures SpanWritten(bs, lcs, off, w)
  {
    var n := |init|;
    var d := lc.raw[..lc.cmdsize];
    HoldsAfterWrite(w0, lc.fileOffset, d);
    forall t | 0 <= t < |lcs| ensures Holds(w, lcs[t].fileOffset, lcs[t].raw[..lcs[t].cmdsize]) {
      if t < n {
        assert lcs[t] == init[t];
        LaidWithin(init, off, t);
        HoldsAcrossWrite(w0, lcs[t].fileOffset, lcs[t].raw[..lcs[t].cmdsize], lc.fileOffset, d);
      }
    }
    assert Sized(lcs) by {
      assert Sized([lc]);
      SizedConcat(init, [lc]);
    }
  }

  // ---- move_load_command ----

  /** move_load_command on a slice's bytes and commands. Equal indices change nothing;
      a first index larger than the second moves the command at the second index to
      the first instead (the source calls itself with the two indices swapped). */
  function MoveCommands(bs: seq<byte>, lcs: seq<LoadCommand>, i: nat, j: nat): (r: (seq<byte>, seq<LoadCommand>))
    requires i < |lcs| && j < |lcs| && Sized(lcs)
    ensures |r.1| == |lcs| && Sized(r.1)
  {
    if i == j then (bs, lcs)
    else if i < j then MoveForward(bs, lcs, i, j)
    else MoveForward(bs, lcs, j, i)
  }

  /** move_load_command with `i < j`: the commands after `i` up to `j` are written back
      to back from `i`'s offset, command `i` is written after them, and the list loses
      `i` and gains it, with its new offset, at the end. */
  function MoveForward(bs: seq<byte>, lcs: seq<LoadCommand>, i: nat, j: nat): (r: (seq<byte>, seq<LoadCommand>))
    requires i < j < |lcs| && Sized(lcs)
    ensures |r.1| == |lcs| && Sized(r.1)
  {
    var off := lcs[i].fileOffset;
    var mid := Relaid(lcs[i + 1..j + 1], off);
    RelaidShape(lcs[i + 1..j + 1], off);
    var moved := lcs[i].(fileOffset := off + SumSizes(mid));
    var rs := lcs[..i] + mid + lcs[j + 1..] + [moved];
    MovedSized(lcs, i, j, mid, moved, rs);
    (WriteLoadCommand(WriteAll(bs, mid), moved), rs)
  }

  lemma {:induction false} MovedSized(lcs: seq<LoadCommand>, i: nat, j: nat, mid: seq<LoadCommand>, moved: LoadCommand, rs: seq<LoadCommand>)
    requires Sized(lcs) && i < j < |lcs| && SameRecords(mid, lcs[i + 1..j + 1])
    requires moved == lcs[i].(fileOffset := moved.fileOffset)
    requires rs == lcs[..i] + mid + lcs[j + 1..] + [moved]
    ensures Sized(mid) && Sized(rs) && |rs| == |lcs|
  {
    SizedSlice(lcs, i + 1, j + 1);
    SizedSame(mid, lcs[i + 1..j + 1]);
    SizedSlice(lcs, 0, i);
    SizedSlice(lcs, j + 1, |lcs|);
    assert lcs[j + 1..|lcs|] == lcs[j + 1..];
    SizedConcat(lcs[..i], mid);
    SizedConcat(lcs[..i] + mid, lcs[j + 1..]);
    assert Sized([moved]);
    SizedConcat(lcs[..i] + mid + lcs[j + 1..], [moved]);
  }

  /** A range the new file keeps byte for byte outside `[lo, hi)` still holds what it held. */
  lemma {:induction false} KeptOutside(bs: seq<byte>, w: seq<byte>, lo: nat, hi: nat, o: nat, d: seq<byte>)
    requires Holds(bs, o, d) && |w| >= |bs|
    requires forall p :: 0 <= p < |bs| && !(lo <= p < hi) ==> w[p] == bs[p]
    requires o + |d| <= lo || hi <= o
    ensures Holds(w, o, d)
  {
    forall q | 0 <= q < |d| ensures w[o..o + |d|][q] == d[q] {
      assert w[o..o + |d|][q] == w[o + q];
      assert bs[o..o + |d|][q] == bs[o + q];
    }
  }

  /** The offsets move_load_command works with, on a run laid out from `base`: command
      `i` starts the moved span, and the span ends where command `j` ends. */
  lemma {:induction false} MoveSpan(lcs: seq<LoadCommand>, base: nat, i: nat, j: nat)
    requires Laid(lcs, base) && i < j < |lcs|
    ensures lcs[i].fileOffset + lcs[i].cmdsize + SumSizes(lcs[i + 1..j + 1])
            == lcs[j].fileOffset + lcs[j].cmdsize
            == base + SumSizes(lcs[..j + 1])
  {
    assert lcs[..j + 1] == lcs[..i] + [lcs[i]] + lcs[i + 1..j + 1];
    SumSizesConcat(lcs[..i] + [lcs[i]], lcs[i + 1..j + 1]);
    SumSizesConcat(lcs[..i], [lcs[i]]);
    assert SumSizes([lcs[i]]) == lcs[i].cmdsize by {
      assert [lcs[i]][..0] == [];
    }
    assert lcs[..j + 1][..j] == lcs[..j];
  }

  /** After a move within a laid-out run whose records the file holds, the file holds
      every command of the new list at its new offset. */
  lemma {:induction false} MoveHeld(bs: seq<byte>, lcs: seq<LoadCommand>, base: nat, i: nat, j: nat)
    requires Laid(lcs, base) && Held(bs, lcs) && i < j < |lcs|
    ensures var r := MoveForward(bs, lcs, i, j);
            Held(r.0, r.1)
  {
    var r := MoveForward(bs, lcs, i, j);
    forall t | 0 <= t < |lcs| ensures Holds(r.0, r.1[t].fileOffset, r.1[t].raw[..r.1[t].cmdsize]) {
      MoveHeldAt(bs, lcs, base, i, j, t);
    }
  }

  lemma {:induction false} MoveHeldAt(bs: seq<byte>, lcs: seq<LoadCommand>, base: nat, i: nat, j: nat, t: nat)
    requires Laid(lcs, base) && Held(bs, lcs) && i < j < |lcs| && t < |lcs|
    ensures var r := MoveForward(bs, lcs, i, j);
            Holds(r.0, r.1[t].fileOffset, r.1[t].raw[..r.1[t].cmdsize])
  {
    var off := lcs[i].fileOffset;
    var mid := Relaid(lcs[i + 1..j + 1], off);
    RelaidShape(lcs[i + 1..j + 1], off);
    var moved := lcs[i].(fileOffset := off + SumSizes(mid));
    var w := WriteLoadCommand(WriteAll(bs, mid), moved);
    var rs := lcs[..i] + mid + lcs[j + 1..] + [moved];
    MovedHeldAt(bs, lcs, base, i, j, t, mid, moved, w, rs);
    MoveIs(bs, lcs, i, j, mid, moved, w, rs);
  }

  /** The same, for the move written out part by part. */
  lemma {:induction false} MovedHeldAt(bs: seq<byte>, lcs: seq<LoadCommand>, base: nat, i: nat, j: nat, t: nat,
                                       mid: seq<LoadCommand>, moved: LoadCommand, w: seq<byte>, rs: seq<LoadCommand>)
    requires Laid(lcs, base) && Held(bs, lcs) && i < j < |lcs| && t < |lcs|
    requires mid == Relaid(lcs[i + 1..j + 1], lcs[i].fileOffset) && Sized(mid)
    requires moved == lcs[i].(fileOffset := lcs[i].fileOffset + SumSizes(mid))
    requires w == WriteLoadCommand(WriteAll(bs, mid), moved)
    requires rs == lcs[..i] + mid + lcs[j + 1..] + [moved]
    ensures t < |rs| && Holds(w, rs[t].fileOffset, rs[t].raw[..rs[t].cmdsize])
  {
    var off := lcs[i].fileOffset;
    RelaidShape(lcs[i + 1..j + 1], off);
    MoveSpan(lcs, base, i, j);
    WriteAllSpan(bs, mid, off);
    MovedHolds(bs, lcs, base, i, j, mid, moved, WriteAll(bs, mid), w, rs, t);
  }

  /** A forward move is the run relaid from command `i`'s offset, with command `i`
      placed after it and written there. */
  lemma MoveIs(bs: seq<byte>, lcs: seq<LoadCommand>, i: nat, j: nat,
               mid: seq<LoadCommand>, moved: LoadCommand, w: seq<byte>, rs: seq<LoadCommand>)
    requires i < j < |lcs| && Sized(lcs)
    requires mid == Relaid(lcs[i + 1..j + 1], lcs[i].fileOffset) && Sized(mid)
    requires moved == lcs[i].(fileOffset := lcs[i].fileOffset + SumSizes(mid))
    requires w == WriteLoadCommand(WriteAll(bs, mid), moved)
    requires rs == lcs[..i] + mid + lcs[j + 1..] + [moved]
    ensures (w, rs) == MoveForward(bs, lcs, i, j)
  {
  }

  /** How a move with `i < j` is built. */
  lemma {:induction false} MoveParts(bs: seq<byte>, lcs: seq<LoadCommand>, i: nat, j: nat)
    requires i < j < |lcs| && Sized(lcs)
    ensures Sized(Relaid(lcs[i + 1..j + 1], lcs[i].fileOffset))
    ensures MoveForward(bs, lcs, i, j).0
            == WriteLoadCommand(WriteAll(bs, Relaid(lcs[i + 1..j + 1], lcs[i].fileOffset)),
                                lcs[i].(fileOffset := lcs[i].fileOffset + SumSizes(Relaid(lcs[i + 1..j + 1], lcs[i].fileOffset))))
    ensures MoveForward(bs, lcs, i, j).1
            == lcs[..i] + Relaid(lcs[i + 1..j + 1], lcs[i].fileOffset) + lcs[j + 1..]
               + [lcs[i].(fileOffset := lcs[i].fileOffset + SumSizes(Relaid(lcs[i + 1..j + 1], lcs[i].fileOffset)))]
  {
    var off := lcs[i].fileOffset;
    var mid := Relaid(lcs[i + 1..j + 1], off);
    RelaidShape(lcs[i + 1..j + 1], off);
    var moved := lcs[i].(fileOffset := off + SumSizes(mid));
    MovedSized(lcs, i, j, mid, moved, lcs[..i] + mid + lcs[j + 1..] + [moved]);
  }

  lemma {:induction false} MovedHolds(bs: seq<byte>, lcs: seq<LoadCommand>, base: nat, i: nat, j: nat,
                   mid: seq<LoadCommand>, moved: LoadCommand, w0: seq<byte>, w: seq<byte>, rs: seq<LoadCommand>, t: nat)
    requires Laid(lcs, base) && Held(bs, lcs) && i < j < |lcs| && t < |lcs|
    requires |mid| == j - i && Laid(mid, lcs[i].fileOffset) && Held(w0, mid) && |w0| >= |bs|
    requires moved == lcs[i].(fileOffset := lcs[i].fileOffset + SumSizes(mid))
    requires lcs[i].fileOffset + lcs[i].cmdsize + SumSizes(mid) == lcs[j].fileOffset + lcs[j].cmdsize
    requires forall p :: 0 <= p < |bs| && !(lcs[i].fileOffset <= p < lcs[i].fileOffset + SumSizes(mid)) ==> w0[p] == bs[p]
    requires w == WriteLoadCommand(w0, moved) && rs == lcs[..i] + mid + lcs[j + 1..] + [moved]
    ensures t < |rs| && Holds(w, rs[t].fileOffset, rs[t].raw[..rs[t].cmdsize])
  {
    var off := lcs[i].fileOffset;
    var md := moved.raw[..moved.cmdsize];
    assert w == Overwrite(w0, moved.fileOffset, md);
    var x := rs[t];
    var d := x.raw[..x.cmdsize];
    if t < i {
      assert x == lcs[t];
      LaidOrdered(lcs, base, t, i);
      KeptOutside(bs, w0, off, off + SumSizes(mid), x.fileOffset, d);
      HoldsAcrossWrite(w0, x.fileOffset, d, moved.fileOffset, md);
    } else if t < j {
      assert x == mid[t - i];
      LaidWithin(mid, off, t - i);
      HoldsAcrossWrite(w0, x.fileOffset, d, moved.fileOffset, md);
    } else if t < |lcs| - 1 {
      assert x == lcs[t + 1];
      LaidOrdered(lcs, base, j, t + 1);
      KeptOutside(bs, w0, off, off + SumSizes(mid), x.fileOffset, d);
      HoldsAcrossWrite(w0, x.fileOffset, d, moved.fileOffset, md);
    } else {
      assert x == moved;
      HoldsAfterWrite(w0, moved.fileOffset, md);
    }
  }

  /** Moving command `i` to the end of a laid-out run keeps the run laid out from the
      same offset, with the other commands in order and command `i` last. */
  lemma {:induction false} MoveToEnd(bs: seq<byte>, lcs: seq<LoadCommand>, base: nat, i: nat, j: nat)
    requires Laid(lcs, base) && Sized(lcs) && i < j && j + 1 == |lcs|
    ensures var rs := MoveForward(bs, lcs, i, j).1;
            && Laid(rs, base)
            && SameRecords(rs[..j], lcs[..i] + lcs[i + 1..])
            && rs[j] == lcs[i].(fileOffset := rs[j].fileOffset)
  {
    var off := lcs[i].fileOffset;
    var mid := Relaid(lcs[i + 1..j + 1], off);
    RelaidShape(lcs[i + 1..j + 1], off);
    var moved := lcs[i].(fileOffset := off + SumSizes(mid));
    MoveParts(bs, lcs, i, j);
    MovedToEnd(lcs, base, i, j, mid, moved, MoveForward(bs, lcs, i, j).1);
  }

  lemma {:induction false} MovedToEnd(lcs: seq<LoadCommand>, base: nat, i: nat, j: nat, mid: seq<LoadCommand>, moved: LoadCommand, rs: seq<LoadCommand>)
    requires Laid(lcs, base) && i < j && j + 1 == |lcs|
    requires SameRecords(mid, lcs[i + 1..j + 1]) && Laid(mid, lcs[i].fileOffset)
    requires moved == lcs[i].(fileOffset := lcs[i].fileOffset + SumSizes(mid))
    requires rs == lcs[..i] + mid + lcs[j + 1..] + [moved]
    ensures Laid(rs, base)
    ensures SameRecords(rs[..j], lcs[..i] + lcs[i + 1..])
    ensures rs[j] == lcs[i].(fileOffset := rs[j].fileOffset)
  {
    assert lcs[j + 1..] == [];
    assert lcs[i + 1..j + 1] == lcs[i + 1..];
    assert rs == lcs[..i] + mid + [moved];
    MovedLaid(lcs, base, i, mid, moved, rs);
    MovedRecords(lcs, i, mid, moved, rs);
  }

  lemma {:induction false} MovedLaid(lcs: seq<LoadCommand>, base: nat, i: nat, mid: seq<LoadCommand>, moved: LoadCommand, rs: seq<LoadCommand>)
    requires Laid(lcs, base) && i < |lcs|
    requires Laid(mid, lcs[i].fileOffset) && moved.fileOffset == lcs[i].fileOffset + SumSizes(mid)
    requires rs == lcs[..i] + mid + [moved]
    ensures Laid(rs, base)
  {
    var off := lcs[i].fileOffset;
    var j := i + |mid|;
    assert off == base + SumSizes(lcs[..i]);
    forall t | 0 <= t < |rs| ensures rs[t].fileOffset == base + SumSizes(rs[..t]) {
      if t < i {
        assert rs[..t] == lcs[..t] && rs[t] == lcs[t];
      } else if t < j {
        assert rs[..t] == lcs[..i] + mid[..t - i] && rs[t] == mid[t - i];
        SumSizesConcat(lcs[..i], mid[..t - i]);
      } else {
        assert rs[..t] == lcs[..i] + mid;
        SumSizesConcat(lcs[..i], mid);
      }
    }
  }

  lemma {:induction false} MovedRecords(lcs: seq<LoadCommand>, i: nat, mid: seq<LoadCommand>, moved: LoadCommand, rs: seq<LoadCommand>)
    requires i < |lcs| && SameRecords(mid, lcs[i + 1..])
    requires moved == lcs[i].(fileOffset := moved.fileOffset)
    requires rs == lcs[..i] + mid + [moved]
    ensures SameRecords(rs[..|rs| - 1], lcs[..i] + lcs[i + 1..])
    ensures rs[|rs| - 1] == lcs[i].(fileOffset := rs[|rs| - 1].fileOffset)
  {
    var j := |lcs| - 1;
    var others := lcs[..i] + lcs[i + 1..];
    forall t | 0 <= t < j ensures rs[..j][t] == others[t].(fileOffset := rs[..j][t].fileOffset) {
      if t < i {
        assert rs[t] == lcs[t] && others[t] == lcs[t];
      } else {
        assert rs[t] == mid[t - i] && others[t] == lcs[i + 1..][t - i];
      }
    }
  }

  /** A move within a laid-out run writes only inside the span from command `i` to the
      end of command `j`, which the file already covers. */
  lemma {:induction false} MoveKeepsOutside(bs: seq<byte>, lcs: seq<LoadCommand>, base: nat, i: nat, j: nat)
    requires Laid(lcs, base) && Held(bs, lcs) && i < j < |lcs|
    ensures var r := MoveForward(bs, lcs, i, j);
            && |r.0| == |bs|
            && forall p :: 0 <= p < |bs| && !(lcs[i].fileOffset <= p < lcs[j].fileOffset + lcs[j].cmdsize) ==> r.0[p] == bs[p]
  {
    var off := lcs[i].fileOffset;
    var mid := Relaid(lcs[i + 1..j + 1], off);
    RelaidShape(lcs[i + 1..j + 1], off);
    var moved := lcs[i].(fileOffset := off + SumSizes(mid));
    MoveParts(bs, lcs, i, j);
    MoveSpan(lcs, base, i, j);
    WriteAllSpan(bs, mid, off);
    assert Holds(bs, lcs[j].fileOffset, lcs[j].raw[..lcs[j].cmdsize]);
    KeptAfterMove(bs, mid, off, WriteAll(bs, mid), moved, MoveForward(bs, lcs, i, j).0);
  }

  lemma {:induction false} KeptAfterMove(bs: seq<byte>, mid: seq<LoadCommand>, off: nat, w0: seq<byte>, moved: LoadCommand, r0: seq<byte>)
    requires SpanWritten(bs, mid, off, w0) && moved.cmdsize <= |moved.raw|
    requires moved.fileOffset == off + SumSizes(mid) && moved.fileOffset + moved.cmdsize <= |bs|
    requires r0 == WriteLoadCommand(w0, moved)
    ensures |r0| == |bs|
    ensures forall p :: 0 <= p < |bs| && !(off <= p < moved.fileOffset + moved.cmdsize) ==> r0[p] == bs[p]
  {
    assert |w0| == |bs|;
    forall p | 0 <= p < |bs| && !(off <= p < moved.fileOffset + moved.cmdsize) ensures r0[p] == bs[p] {
      assert w0[p] == bs[p];
    }
  }

  /** Moving keeps the total size of the commands. */
  lemma {:induction false} MoveSizes(bs: seq<byte>, lcs: seq<LoadCommand>, i: nat, j: nat)
    requires Sized(lcs) && i < |lcs| && j < |lcs|
    ensures SumSizes(MoveCommands(bs, lcs, i, j).1) == SumSizes(lcs)
  {
    if i < j {
      ForwardSizes(bs, lcs, i, j);
    } else if j < i {
      ForwardSizes(bs, lcs, j, i);
    }
  }

  lemma {:induction false} ForwardSizes(bs: seq<byte>, lcs: seq<LoadCommand>, i: nat, j: nat)
    requires Sized(lcs) && i < j < |lcs|
    ensures SumSizes(MoveForward(bs, lcs, i, j).1) == SumSizes(lcs)
  {
    var off := lcs[i].fileOffset;
    var mid := Relaid(lcs[i + 1..j + 1], off);
    RelaidShape(lcs[i + 1..j + 1], off);
    var moved := lcs[i].(fileOffset := off + SumSizes(mid));
    MoveParts(bs, lcs, i, j);
    MovedSizes(lcs, i, j, mid, moved, MoveForward(bs, lcs, i, j).1);
  }

  lemma {:induction false} MovedSizes(lcs: seq<LoadCommand>, i: nat, j: nat, mid: seq<LoadCommand>, moved: LoadCommand, rs: seq<LoadCommand>)
    requires i < j < |lcs| && SumSizes(mid) == SumSizes(lcs[i + 1..j + 1])
    requires moved.cmdsize == lcs[i].cmdsize
    requires rs == lcs[..i] + mid + lcs[j + 1..] + [moved]
    ensures SumSizes(rs) == SumSizes(lcs)
  {
    SplitSizes(lcs, i, j);
    JoinSizes(lcs[..i], mid, lcs[j + 1..], moved);
  }

  /** The total size of a run, split around command `i` and after command `j`. */
  lemma {:induction false} SplitSizes(lcs: seq<LoadCommand>, i: nat, j: nat)
    requires i < j < |lcs|
    ensures SumSizes(lcs) == SumSizes(lcs[..i]) + lcs[i].cmdsize + SumSizes(lcs[i + 1..j + 1]) + SumSizes(lcs[j + 1..])
  {
    SumSizesSplit(lcs, j + 1);
    SplitPrefix(lcs, i, j + 1);
    SumSizesFront(lcs[i..j + 1]);
    assert lcs[i..j + 1][1..] == lcs[i + 1..j + 1];
  }

  lemma {:induction false} SplitPrefix(lcs: seq<LoadCommand>, i: nat, n: nat)
    requires i <= n <= |lcs|
    ensures SumSizes(lcs[..n]) == SumSizes(lcs[..i]) + SumSizes(lcs[i..n])
  {
    SumSizesSplit(lcs[..n], i);
    assert lcs[..n][..i] == lcs[..i];
    assert lcs[..n][i..] == lcs[i..n];
  }

  lemma {:induction false} SumSizesFront(x: seq<LoadCommand>)
    requires |x| > 0
    ensures SumSizes(x) == x[0].cmdsize + SumSizes(x[1..])
  {
    SumSizesSplit(x, 1);
    assert x[..1] == [x[0]];
    assert [x[0]][..0] == [];
  }

  lemma {:induction false} JoinSizes(p: seq<LoadCommand>, mid: seq<LoadCommand>, t: seq<LoadCommand>, moved: LoadCommand)
    ensures SumSizes(p + mid + t + [moved]) == SumSizes(p) + SumSizes(mid) + SumSizes(t) + moved.cmdsize
  {
    SumSizesSnoc(p + mid + t, moved);
    SumSizesConcat(p + mid, t);
    SumSizesConcat(p, mid);
  }

  lemma {:induction false} SumSizesSplit(lcs: seq<LoadCommand>, n: nat)
    requires n <= |lcs|
    ensures SumSizes(lcs) == SumSizes(lcs[..n]) + SumSizes(lcs[n..])
  {
    assert lcs == lcs[..n] + lcs[n..];
    SumSizesConcat(lcs[..n], lcs[n..]);
  }

  lemma {:induction false} SumSizesSnoc(a: seq<LoadCommand>, x: LoadCommand)
    ensures SumSizes(a + [x]) == SumSizes(a) + x.cmdsize
  {
    assert (a + [x])[..|a|] == a;
  }

  /** A laid-out run ends where its last command ends. */
  lemma {:induction false} LaidEnd(lcs: seq<LoadCommand>, base: nat)
    requires Laid(lcs, base) && |lcs| > 0
    ensures lcs[|lcs| - 1].fileOffset + lcs[|lcs| - 1].cmdsize == base + SumSizes(lcs)
  {
  }

  /** move_load_command within a laid-out run whose records the file holds: the file
      keeps its length, holds every command of the new list, and changes only inside the
      run; the commands keep their total size; equal indices change nothing. */
  lemma {:induction false} MoveCommandsHeld(bs: seq<byte>, lcs: seq<LoadCommand>, i: nat, j: nat)
    requires |lcs| > 0 && Held(bs, lcs) && Laid(lcs, lcs[0].fileOffset) && i < |lcs| && j < |lcs|
    ensures var r := MoveCommands(bs, lcs, i, j);
            && |r.0| == |bs| && Held(r.0, r.1) && SumSizes(r.1) == SumSizes(lcs)
            && (forall p :: 0 <= p < |bs| && !(lcs[0].fileOffset <= p < lcs[0].fileOffset + SumSizes(lcs)) ==> r.0[p] == bs[p])
            && (i == j ==> r == (bs, lcs))
  {
    var base := lcs[0].fileOffset;
    MoveSizes(bs, lcs, i, j);
    if i != j {
      var lo := if i < j then i else j;
      var hi := if i < j then j else i;
      assert MoveCommands(bs, lcs, i, j) == MoveForward(bs, lcs, lo, hi);
      MoveHeld(bs, lcs, base, lo, hi);
      MoveKeepsOutside(bs, lcs, base, lo, hi);
      LaidWithin(lcs, base, lo);
      LaidWithin(lcs, base, hi);
    }
  }

  /** Moving command `i` to the last place, as remove_load_command does, leaves the run
      laid out from where it started, the other commands in their order and command
      `i` last. */
  lemma {:induction false} MoveCommandsToEnd(bs: seq<byte>, lcs: seq<LoadCommand>, i: nat, j: nat)
    requires i <= j && j + 1 == |lcs| && Sized(lcs) && Laid(lcs, lcs[0].fileOffset)
    ensures var rs := MoveCommands(bs, lcs, i, j).1;
            && Laid(rs, lcs[0].fileOffset) && rs[0].fileOffset == lcs[0].fileOffset
            && SameRecords(rs[..j], lcs[..i] + lcs[i + 1..])
            && rs[j] == lcs[i].(fileOffset := rs[j].fileOffset)
  {
    var rs := MoveCommands(bs, lcs, i, j).1;
    if i < j {
      MoveToEnd(bs, lcs, lcs[0].fileOffset, i, j);
    } else {
      assert lcs[i + 1..] == [] && lcs[..i] + lcs[i + 1..] == rs[..j];
    }
    assert rs[..0] == [];
  }

  // ---- the load commands of a slice ----

  /** A slice whose Mach header the file holds at the slice's offset and whose load
      commands lie back to back after it, each command's record in place. */
  ghost predicate CommandsLaid(bs: seq<byte>, arch: Arch)
  {
    && Held(bs, arch.commands)
    && Holds(bs, arch.desc.offset, EncodeMachHeader(arch.header))
    && (|arch.commands| > 0 ==>
          && arch.desc.offset + MACH_HEADER_SIZE <= arch.commands[0].fileOffset
          && Laid(arch.commands, arch.commands[0].fileOffset))
  }

  /** The Mach header counts the slice's commands and their total size. */
  ghost predicate Counted(arch: Arch)
  {
    arch.header.ncmds == |arch.commands| && arch.header.sizeofcmds == SumSizes(arch.commands)
  }

  /** The offset just past the slice's last command; past the slice when it has none. */
  function CommandsEnd(arch: Arch): nat
  {
    if arch.commands == [] then arch.desc.offset + arch.desc.size
    else arch.commands[|arch.commands| - 1].fileOffset + arch.commands[|arch.commands| - 1].cmdsize
  }

  /** move_load_command on slice `a`. */
  function MoveLoadCommand(c: Container, a: nat, i: nat, j: nat): (r: Container)
    requires a < |c.archs| && i < |c.archs[a].commands| && j < |c.archs[a].commands|
    requires Sized(c.archs[a].commands)
    ensures r == c.(bytes := r.bytes, archs := r.archs)
    ensures |r.archs| == |c.archs| && r.archs[a] == c.archs[a].(commands := r.archs[a].commands)
    ensures forall b :: 0 <= b < |c.archs| && b != a ==> r.archs[b] == c.archs[b]
    ensures |r.archs[a].commands| == |c.archs[a].commands| && Sized(r.archs[a].commands)
  {
    var m := MoveCommands(c.bytes, c.archs[a].commands, i, j);
    c.(bytes := m.0, archs := c.archs[a := c.archs[a].(commands := m.1)])
  }

  /** remove_load_command on slice `a`: unless it is the only one, move command `i` to
      the end, then pop the last command. With a single command, that command goes
      whatever `i` is. */
  function RemoveLoadCommand(c: Container, a: nat, i: nat): (r: Container)
    requires a < |c.archs| && Sized(c.archs[a].commands) && |c.archs[a].commands| > 0
    requires |c.archs[a].commands| > 1 ==> i < |c.archs[a].commands|
    ensures r == c.(bytes := r.bytes, archs := r.archs)
    ensures |r.archs| == |c.archs| && r.archs[a].desc == c.archs[a].desc
    ensures forall b :: 0 <= b < |c.archs| && b != a ==> r.archs[b] == c.archs[b]
    ensures |r.archs[a].commands| == |c.archs[a].commands| - 1
  {
    var n := |c.archs[a].commands|;
    PopCommand(if n > 1 then MoveLoadCommand(c, a, i, n - 1) else c, a)
  }

  /** The second half of remove_load_command: count one command fewer and the last
      command's size less in the Mach header and write the header; zero the last
      command's bytes and drop it from the list. */
  function PopCommand(c: Container, a: nat): (r: Container)
    requires a < |c.archs| && Sized(c.archs[a].commands) && |c.archs[a].commands| > 0
    ensures r == c.(bytes := r.bytes, archs := r.archs)
    ensures |r.archs| == |c.archs|
    ensures forall b :: 0 <= b < |c.archs| && b != a ==> r.archs[b] == c.archs[b]
    ensures var arch := c.archs[a];
            var lc := arch.commands[|arch.commands| - 1];
            r.archs[a] == arch.(header := arch.header.(ncmds := Sub32(arch.header.ncmds, 1),
                                                       sizeofcmds := Sub32(arch.header.sizeofcmds, lc.cmdsize)),
                                commands := arch.commands[..|arch.commands| - 1])
  {
    var arch := c.archs[a];
    var n := |arch.commands|;
    var lc := arch.commands[n - 1];
    var h := arch.header.(ncmds := Sub32(arch.header.ncmds, 1),
                          sizeofcmds := Sub32(arch.header.sizeofcmds, lc.cmdsize));
    var c2 := WriteMachHeader(c.(archs := c.archs[a := arch.(header := h)]), a);
    c2.(bytes := Overwrite(c2.bytes, lc.fileOffset, Zeros(lc.cmdsize)),
        archs := c2.archs[a := arch.(header := h, commands := arch.commands[..n - 1])])
  }

  /** The command insert_load_command builds from a caller's record: tag and size read
      in the slice's byte order, the record's first `cmdsize` bytes, and the name the
      code-signature scan later compares (filled in by the command's constructor). */
  function NewCommand(raw: seq<byte>, magic: u32, offset: nat, name: string): (lc: LoadCommand)
    requires 8 <= |raw| && Swap32(Word(raw, 4), magic) <= |raw|
    ensures lc.cmdsize <= |lc.raw| && lc.fileOffset == offset
  {
    var cmdsize := Swap32(Word(raw, 4), magic);
    LoadCommand(Swap32(Word(raw, 0), magic), cmdsize, offset, raw[..cmdsize], name)
  }

  /** insert_load_command on slice `a`: write the record just past the last command (past
      the slice when it has none), as a 32-bit offset; append the command; count it
      and its size in the Mach header and write the header. */
  function InsertLoadCommand(c: Container, a: nat, raw: seq<byte>, name: string): (r: Container)
    requires a < |c.archs| && 8 <= |raw|
    requires Swap32(Word(raw, 4), c.archs[a].header.magic) <= |raw|
    ensures r == c.(bytes := r.bytes, archs := r.archs)
    ensures |r.archs| == |c.archs| && r.archs[a].desc == c.archs[a].desc
    ensures forall b :: 0 <= b < |c.archs| && b != a ==> r.archs[b] == c.archs[b]
    ensures r.archs[a].commands == c.archs[a].commands + [NewCommand(raw, c.archs[a].header.magic, CommandsEnd(c.archs[a]) % TWO_32, name)]
  {
    var arch := c.archs[a];
    var magic := arch.header.magic;
    var offset := CommandsEnd(arch) % TWO_32;
    var lc := NewCommand(raw, magic, offset, name);
    var bs := Overwrite(c.bytes, offset, lc.raw[..lc.cmdsize]);
    var h := arch.header.(ncmds := Add32(arch.header.ncmds, 1),
                          sizeofcmds := Add32(arch.header.sizeofcmds, lc.cmdsize));
    WriteMachHeader(c.(bytes := bs, archs := c.archs[a := arch.(header := h, commands := arch.commands + [lc])]), a)
  }

  /** change_file_type on slice `a`: set the Mach header's file type, as given, and
      write the header. */
  function ChangeFileType(c: Container, a: nat, fileType: u32): (r: Container)
    requires a < |c.archs|
    ensures r == c.(bytes := r.bytes, archs := r.archs)
    ensures |r.archs| == |c.archs| && r.archs[a] == c.archs[a].(header := c.archs[a].header.(filetype := fileType))
    ensures forall b :: 0 <= b < |c.archs| && b != a ==> r.archs[b] == c.archs[b]
    ensures |r.bytes| >= c.archs[a].desc.offset + MACH_HEADER_SIZE
    ensures DecodeMachHeader(r.bytes, c.archs[a].desc.offset).filetype == fileType
  {
    var arch := c.archs[a];
    WriteMachHeader(c.(archs := c.archs[a := arch.(header := arch.header.(filetype := fileType))]), a)
  }

  // ---- what the operations keep ----

  /** Two lists whose commands have the same sizes, index by index, have the same total. */
  lemma {:induction false} SumSizesAgree(r: seq<LoadCommand>, lcs: seq<LoadCommand>)
    requires |r| == |lcs| && forall t :: 0 <= t < |lcs| ==> r[t].cmdsize == lcs[t].cmdsize
    ensures SumSizes(r) == SumSizes(lcs)
    decreases |lcs|
  {
    if lcs != [] {
      var n := |lcs| - 1;
      assert forall t :: 0 <= t < n ==> r[..n][t] == r[t] && lcs[..n][t] == lcs[t];
      SumSizesAgree(r[..n], lcs[..n]);
    }
  }

  /** A list with the same offsets and sizes as a laid-out list is laid out. */
  lemma {:induction false} SameSizesLaid(lcs: seq<LoadCommand>, r: seq<LoadCommand>, off: nat)
    requires Laid(lcs, off) && |r| == |lcs|
    requires forall t :: 0 <= t < |lcs| ==> r[t].fileOffset == lcs[t].fileOffset && r[t].cmdsize == lcs[t].cmdsize
    ensures Laid(r, off)
  {
    forall t | 0 <= t < |r| ensures r[t].fileOffset == off + SumSizes(r[..t]) {
      SumSizesAgree(r[..t], lcs[..t]);
    }
  }

  /** A prefix of a laid-out run is laid out from the same offset. */
  lemma {:induction false} LaidPrefix(lcs: seq<LoadCommand>, off: nat, n: nat)
    requires Laid(lcs, off) && n <= |lcs|
    ensures Laid(lcs[..n], off)
  {
    forall t | 0 <= t < n ensures lcs[..n][t].fileOffset == off + SumSizes(lcs[..n][..t]) {
      assert lcs[..n][..t] == lcs[..t];
    }
  }

  /** move_load_command on a slice whose header and commands are in place: the file
      keeps its length, the header and every command of the new list, and changes only
      within the commands; the commands keep their total size, so the header still
      counts them; equal indices change nothing. */
  lemma {:induction false} MoveLoadCommandLayout(c: Container, a: nat, i: nat, j: nat)
    requires a < |c.archs| && i < |c.archs[a].commands| && j < |c.archs[a].commands|
    requires Sized(c.archs[a].commands) && CommandsLaid(c.bytes, c.archs[a])
    ensures var r := MoveLoadCommand(c, a, i, j);
            var lcs := c.archs[a].commands;
            && |r.bytes| == |c.bytes|
            && Held(r.bytes, r.archs[a].commands)
            && Holds(r.bytes, c.archs[a].desc.offset, EncodeMachHeader(c.archs[a].header))
            && SumSizes(r.archs[a].commands) == SumSizes(lcs)
            && (forall p :: 0 <= p < |c.bytes| && !(lcs[0].fileOffset <= p < CommandsEnd(c.archs[a])) ==> r.bytes[p] == c.bytes[p])
            && (Counted(c.archs[a]) ==> Counted(r.archs[a]))
            && (i == j ==> r == c)
  {
    var lcs := c.archs[a].commands;
    var m := MoveCommands(c.bytes, lcs, i, j);
    MoveCommandsHeld(c.bytes, lcs, i, j);
    assert MoveLoadCommand(c, a, i, j) == c.(bytes := m.0, archs := c.archs[a := c.archs[a].(commands := m.1)]);
    MovedSlice(c, a, i == j, m, MoveLoadCommand(c, a, i, j));
  }

  lemma {:induction false} MovedSlice(c: Container, a: nat, same: bool, m: (seq<byte>, seq<LoadCommand>), r: Container)
    requires a < |c.archs| && CommandsLaid(c.bytes, c.archs[a]) && |c.archs[a].commands| > 0
    requires var lcs := c.archs[a].commands;
             && |m.0| == |c.bytes| && Held(m.0, m.1) && SumSizes(m.1) == SumSizes(lcs) && |m.1| == |lcs|
             && (forall p :: 0 <= p < |c.bytes| && !(lcs[0].fileOffset <= p < lcs[0].fileOffset + SumSizes(lcs)) ==> m.0[p] == c.bytes[p])
             && (same ==> m == (c.bytes, lcs))
    requires r == c.(bytes := m.0, archs := c.archs[a := c.archs[a].(commands := m.1)])
    ensures var lcs := c.archs[a].commands;
            && |r.bytes| == |c.bytes|
            && Held(r.bytes, r.archs[a].commands)
            && Holds(r.bytes, c.archs[a].desc.offset, EncodeMachHeader(c.archs[a].header))
            && SumSizes(r.archs[a].commands) == SumSizes(lcs)
            && (forall p :: 0 <= p < |c.bytes| && !(lcs[0].fileOffset <= p < CommandsEnd(c.archs[a])) ==> r.bytes[p] == c.bytes[p])
            && (Counted(c.archs[a]) ==> Counted(r.archs[a]))
            && (same ==> r == c)
  {
    var lcs := c.archs[a].commands;
    var base := lcs[0].fileOffset;
    LaidEnd(lcs, base);
    KeptOutside(c.bytes, m.0, base, base + SumSizes(lcs), c.archs[a].desc.offset, EncodeMachHeader(c.archs[a].header));
  }

  /** Moving command `i` to the last place keeps the slice's layout, with the other
      commands in order and command `i` last. */
  lemma {:induction false} MoveLoadCommandToEnd(c: Container, a: nat, i: nat, j: nat)
    requires a < |c.archs| && i <= j && j + 1 == |c.archs[a].commands|
    requires Sized(c.archs[a].commands) && CommandsLaid(c.bytes, c.archs[a])
    ensures var r := MoveLoadCommand(c, a, i, j);
            var lcs := c.archs[a].commands;
            var rcs := r.archs[a].commands;
            && CommandsLaid(r.bytes, r.archs[a])
            && rcs[0].fileOffset == lcs[0].fileOffset
            && SameRecords(rcs[..j], lcs[..i] + lcs[i + 1..])
            && rcs[j] == lcs[i].(fileOffset := rcs[j].fileOffset)
  {
    MoveLoadCommandLayout(c, a, i, j);
    MoveCommandsToEnd(c.bytes, c.archs[a].commands, i, j);
  }

  /** Popping the last command of a slice whose header and commands are in place: the
      file keeps its length, the new header and the remaining commands; the popped
      command's bytes are zero; nothing outside the header and that command changes;
      a header that counted the commands still does. */
  lemma {:induction false} PopLayout(c: Container, a: nat)
    requires a < |c.archs| && Sized(c.archs[a].commands) && |c.archs[a].commands| > 0
    requires CommandsLaid(c.bytes, c.archs[a])
    ensures var r := PopCommand(c, a);
            var off := c.archs[a].desc.offset;
            var lc := c.archs[a].commands[|c.archs[a].commands| - 1];
            && |r.bytes| == |c.bytes|
            && CommandsLaid(r.bytes, r.archs[a])
            && Holds(r.bytes, lc.fileOffset, Zeros(lc.cmdsize))
            && (forall p :: (0 <= p < |c.bytes| && !(off <= p < off + MACH_HEADER_SIZE) &&
                             !(lc.fileOffset <= p < lc.fileOffset + lc.cmdsize)) ==> r.bytes[p] == c.bytes[p])
            && (Counted(c.archs[a]) ==> Counted(r.archs[a]))
  {
    var arch := c.archs[a];
    var lcs := arch.commands;
    var n := |lcs|;
    var lc := lcs[n - 1];
    var off := arch.desc.offset;
    var base := lcs[0].fileOffset;
    var h := arch.header.(ncmds := Sub32(arch.header.ncmds, 1),
                          sizeofcmds := Sub32(arch.header.sizeofcmds, lc.cmdsize));
    var c2 := WriteMachHeader(c.(archs := c.archs[a := arch.(header := h)]), a);
    var r := PopCommand(c, a);
    assert r.bytes == Overwrite(c2.bytes, lc.fileOffset, Zeros(lc.cmdsize));
    LaidWithin(lcs, base, n - 1);
    PopKeeps(c.bytes, c2.bytes, r.bytes, lcs, base, off, EncodeMachHeader(h));
    LaidPrefix(lcs, base, n - 1);
    if Counted(arch) {
      assert SumSizes(lcs) == SumSizes(lcs[..n - 1]) + lc.cmdsize;
    }
  }

  lemma {:induction false} PopKeeps(bs: seq<byte>, b2: seq<byte>, r: seq<byte>, lcs: seq<LoadCommand>, base: nat, off: nat, hdr: seq<byte>)
    requires |lcs| > 0 && Held(bs, lcs) && Laid(lcs, base) && base == lcs[0].fileOffset
    requires |hdr| == MACH_HEADER_SIZE && off + MACH_HEADER_SIZE <= base
    requires |b2| == |bs| && Holds(b2, off, hdr)
    requires forall p :: 0 <= p < |bs| && !(off <= p < off + MACH_HEADER_SIZE) ==> b2[p] == bs[p]
    requires var lc := lcs[|lcs| - 1]; r == Overwrite(b2, lc.fileOffset, Zeros(lc.cmdsize))
    ensures var lc := lcs[|lcs| - 1];
            && |r| == |bs| && Held(r, lcs[..|lcs| - 1]) && Holds(r, off, hdr)
            && Holds(r, lc.fileOffset, Zeros(lc.cmdsize))
            && (forall p :: (0 <= p < |bs| && !(off <= p < off + MACH_HEADER_SIZE) &&
                             !(lc.fileOffset <= p < lc.fileOffset + lc.cmdsize)) ==> r[p] == bs[p])
  {
    var n := |lcs|;
    var lc := lcs[n - 1];
    var z := Zeros(lc.cmdsize);
    assert Holds(bs, lc.fileOffset, lc.raw[..lc.cmdsize]);
    LaidWithin(lcs, base, n - 1);
    HoldsAcrossWrite(b2, off, hdr, lc.fileOffset, z);
    HoldsAfterWrite(b2, lc.fileOffset, z);
    SizedSlice(lcs, 0, n - 1);
    var init := lcs[..n - 1];
    forall t | 0 <= t < n - 1 ensures Holds(r, init[t].fileOffset, init[t].raw[..init[t].cmdsize]) {
      var x := lcs[t];
      var d := x.raw[..x.cmdsize];
      assert init[t] == x && Holds(bs, x.fileOffset, d);
      LaidWithin(lcs, base, t);
      LaidOrdered(lcs, base, t, n - 1);
      KeptOutside(bs, b2, off, off + MACH_HEADER_SIZE, x.fileOffset, d);
      HoldsAcrossWrite(b2, x.fileOffset, d, lc.fileOffset, z);
    }
  }

  /** What inserting a record of `cs` bytes into a slice whose commands end at `e`
      must leave: the header and every command in place, the new command laid out right
      after the old ones, the commands ending past it; the file keeps its bytes outside
      the header and the new record and grows only to hold the record; a header that
      counted the commands still does unless a count wraps. */
  ghost predicate Inserted(bs: seq<byte>, arch: Arch, e: nat, cs: nat, r: seq<byte>, ra: Arch)
  {
    var off := arch.desc.offset;
    && CommandsLaid(r, ra)
    && CommandsEnd(ra) == e + cs
    && |r| == (if e + cs <= |bs| then |bs| else e + cs)
    && (forall p :: (0 <= p < |bs| && !(off <= p < off + MACH_HEADER_SIZE) &&
                     !(e <= p < e + cs)) ==> r[p] == bs[p])
    && (Counted(arch) && arch.header.ncmds + 1 < TWO_32 && arch.header.sizeofcmds + cs < TWO_32 ==>
          Counted(ra))
  }

  /** The records and bytes insert_load_command leaves: command `lc` appended, the
      header's counts raised, the record then the header written. */
  lemma {:induction false} InsertedRecords(c: Container, a: nat, raw: seq<byte>, name: string)
    requires a < |c.archs| && 8 <= |raw|
    requires Swap32(Word(raw, 4), c.archs[a].header.magic) <= |raw|
    ensures var r := InsertLoadCommand(c, a, raw, name);
            var arch := c.archs[a];
            var lc := NewCommand(raw, arch.header.magic, CommandsEnd(arch) % TWO_32, name);
            var ra := arch.(header := arch.header.(ncmds := Add32(arch.header.ncmds, 1),
                                                   sizeofcmds := Add32(arch.header.sizeofcmds, lc.cmdsize)),
                            commands := arch.commands + [lc]);
            var b1 := Overwrite(c.bytes, lc.fileOffset, lc.raw[..lc.cmdsize]);
            var off := arch.desc.offset;
            && r.archs == c.archs[a := ra]
            && |r.bytes| >= |b1| && (off + MACH_HEADER_SIZE <= |b1| ==> |r.bytes| == |b1|)
            && Holds(r.bytes, off, EncodeMachHeader(ra.header))
            && (forall p :: 0 <= p < |b1| && !(off <= p < off + MACH_HEADER_SIZE) ==> r.bytes[p] == b1[p])
  {
    var arch := c.archs[a];
    var lc := NewCommand(raw, arch.header.magic, CommandsEnd(arch) % TWO_32, name);
    var b1 := Overwrite(c.bytes, lc.fileOffset, lc.raw[..lc.cmdsize]);
    var r := InsertLoadCommand(c, a, raw, name);
    var c2 := c.(bytes := b1, archs := r.archs);
    assert r == WriteMachHeader(c2, a);
  }

  /** insert_load_command on a slice whose header and commands are in place, when the
      end of the commands fits the 32-bit offset: see `Inserted`. A slice without
      commands must leave room for its header before its end. */
  lemma {:induction false} InsertLoadCommandLayout(c: Container, a: nat, raw: seq<byte>, name: string)
    requires a < |c.archs| && 8 <= |raw|
    requires Swap32(Word(raw, 4), c.archs[a].header.magic) <= |raw|
    requires CommandsLaid(c.bytes, c.archs[a]) && CommandsEnd(c.archs[a]) < TWO_32
    requires c.archs[a].commands == [] ==> c.archs[a].desc.offset + MACH_HEADER_SIZE <= CommandsEnd(c.archs[a])
    ensures var r := InsertLoadCommand(c, a, raw, name);
            Inserted(c.bytes, c.archs[a], CommandsEnd(c.archs[a]), Swap32(Word(raw, 4), c.archs[a].header.magic),
                     r.bytes, r.archs[a])
  {
    var arch := c.archs[a];
    assert CommandsEnd(arch) % TWO_32 == CommandsEnd(arch);
    var lc := NewCommand(raw, arch.header.magic, CommandsEnd(arch), name);
    var r := InsertLoadCommand(c, a, raw, name);
    InsertedRecords(c, a, raw, name);
    var b1 := Overwrite(c.bytes, lc.fileOffset, lc.raw[..lc.cmdsize]);
    InsertedSlice(c.bytes, arch, lc, Swap32(Word(raw, 4), arch.header.magic), b1, r.bytes, r.archs[a]);
  }

  /** insert_load_command counts on the Mach header as the file stores it. In a slice of
      the other byte order the stored count 0x0100_0000 is one command, and after the
      insert the count reads 0x0100_0001 commands, not two. */
  lemma {:induction false} InsertSwappedCount(c: Container, a: nat, raw: seq<byte>, name: string)
    requires a < |c.archs| && 8 <= |raw|
    requires c.archs[a].header.magic == MH_CIGAM && c.archs[a].header.ncmds == 0x0100_0000
    requires Swap32(Word(raw, 4), c.archs[a].header.magic) <= |raw|
    ensures Swap32(c.archs[a].header.ncmds, MH_CIGAM) == 1
    ensures Swap32(InsertLoadCommand(c, a, raw, name).archs[a].header.ncmds, MH_CIGAM) == 0x0100_0001
  {
    SwappedWord(0x0100_0000);
    SwappedWord(0x0100_0001);
  }

  /** A word swapped with a byte-swapped magic: its four bytes in the reverse order. */
  lemma {:induction false} SwappedWord(v: u32)
    ensures Swap32(v, MH_CIGAM) ==
              v / 0x100_0000 + 0x100 * ((v / 0x1_0000) % 0x100) + 0x1_0000 * ((v / 0x100) % 0x100) + 0x100_0000 * (v % 0x100)
  {
    Pow256Words();
    var b0, b1, b2, b3 := v % 0x100, (v / 0x100) % 0x100, (v / 0x1_0000) % 0x100, v / 0x100_0000;
    assert (v / 0x100) / 0x100 == v / 0x1_0000 && (v / 0x1_0000) / 0x100 == v / 0x100_0000;
    assert ToLE(v / 0x100_0000, 1) == [b3];
    assert ToLE(v / 0x1_0000, 2) == [b2, b3];
    assert ToLE(v / 0x100, 3) == [b1, b2, b3];
    assert ToLE(v, 4) == [b0, b1, b2, b3];
    var rs := Reverse([b0, b1, b2, b3]);
    assert rs == [b3, b2, b1, b0];
    assert rs[1..][1..][1..] == [b0] && [b0][1..] == [];
    assert LE([b0]) == b0;
    assert LE(rs[1..][1..]) == b1 + 0x100 * b0;
    assert LE(rs[1..]) == b2 + 0x100 * b1 + 0x1_0000 * b0;
    assert LE(rs) == b3 + 0x100 * b2 + 0x1_0000 * b1 + 0x100_0000 * b0;
  }

  lemma {:induction false} InsertedSlice(bs: seq<byte>, arch: Arch, lc: LoadCommand, cs: nat, b1: seq<byte>, r: seq<byte>, ra: Arch)
    requires CommandsLaid(bs, arch) && lc.fileOffset == CommandsEnd(arch) && lc.cmdsize <= |lc.raw| && cs == lc.cmdsize
    requires arch.commands == [] ==> arch.desc.offset + MACH_HEADER_SIZE <= CommandsEnd(arch)
    requires b1 == Overwrite(bs, lc.fileOffset, lc.raw[..lc.cmdsize])
    requires ra == arch.(header := ra.header, commands := arch.commands + [lc])
    requires ra.header == arch.header.(ncmds := Add32(arch.header.ncmds, 1),
                                       sizeofcmds := Add32(arch.header.sizeofcmds, lc.cmdsize))
    requires var off := arch.desc.offset;
             && |r| >= |b1| && (off + MACH_HEADER_SIZE <= |b1| ==> |r| == |b1|)
             && Holds(r, off, EncodeMachHeader(ra.header))
             && (forall p :: 0 <= p < |b1| && !(off <= p < off + MACH_HEADER_SIZE) ==> r[p] == b1[p])
    ensures Inserted(bs, arch, CommandsEnd(arch), cs, r, ra)
  {
    var lcs := arch.commands;
    var e := CommandsEnd(arch);
    var off := arch.desc.offset;
    if lcs != [] {
      var base := lcs[0].fileOffset;
      LaidEnd(lcs, base);
      forall t | 0 <= t < |lcs|
        ensures off + MACH_HEADER_SIZE <= lcs[t].fileOffset && lcs[t].fileOffset + lcs[t].cmdsize <= e
      {
        LaidWithin(lcs, base, t);
      }
      LaidAppend(lcs, base, lc);
    }
    HeldAcrossInsert(bs, lcs, lc, off, b1, r);
    assert (lcs + [lc])[0] == if lcs == [] then lc else lcs[0];
    SumSizesAppend(lcs, lc);
  }

  /** A command placed right after a laid-out run extends it. */
  lemma {:induction false} LaidAppend(lcs: seq<LoadCommand>, base: nat, lc: LoadCommand)
    requires Laid(lcs, base) && lc.fileOffset == base + SumSizes(lcs)
    ensures Laid(lcs + [lc], base)
  {
    var r := lcs + [lc];
    forall t | 0 <= t < |r| ensures r[t].fileOffset == base + SumSizes(r[..t]) {
      if t < |lcs| {
        assert r[..t] == lcs[..t];
      } else {
        assert r[..t] == lcs;
      }
    }
  }

  lemma {:induction false} SumSizesAppend(lcs: seq<LoadCommand>, lc: LoadCommand)
    ensures SumSizes(lcs + [lc]) == SumSizes(lcs) + lc.cmdsize
  {
    assert (lcs + [lc])[..|lcs|] == lcs;
  }

  /** Writing a new record past the commands, then the header before them, keeps every
      command in place and holds the new one. */
  lemma {:induction false} HeldAcrossInsert(bs: seq<byte>, lcs: seq<LoadCommand>, lc: LoadCommand, off: nat, b1: seq<byte>, r: seq<byte>)
    requires Held(bs, lcs) && lc.cmdsize <= |lc.raw|
    requires forall t :: 0 <= t < |lcs| ==>
               off + MACH_HEADER_SIZE <= lcs[t].fileOffset && lcs[t].fileOffset + lcs[t].cmdsize <= lc.fileOffset
    requires off + MACH_HEADER_SIZE <= lc.fileOffset
    requires b1 == Overwrite(bs, lc.fileOffset, lc.raw[..lc.cmdsize])
    requires |r| >= |b1| && forall p :: 0 <= p < |b1| && !(off <= p < off + MACH_HEADER_SIZE) ==> r[p] == b1[p]
    ensures Held(r, lcs + [lc])
  {
    var all := lcs + [lc];
    forall t | 0 <= t < |all| ensures Holds(r, all[t].fileOffset, all[t].raw[..all[t].cmdsize]) {
      var x := all[t];
      var d := x.raw[..x.cmdsize];
      if t < |lcs| {
        assert x == lcs[t] && Holds(bs, x.fileOffset, d);
        HoldsAcrossWrite(bs, x.fileOffset, d, lc.fileOffset, lc.raw[..lc.cmdsize]);
      } else {
        HoldsAfterWrite(bs, lc.fileOffset, d);
      }
      KeptOutside(b1, r, off, off + MACH_HEADER_SIZE, x.fileOffset, d);
    }
  }

  /** Removing the command insert_load_command appended gives back the slice's records:
      the move to the last place is a move onto itself, and the header's counts go back
      by what the insertion added. */
  lemma {:induction false} InsertThenRemove(c: Container, a: nat, raw: seq<byte>, name: string)
    requires a < |c.archs| && 8 <= |raw| && Sized(c.archs[a].commands)
    requires Swap32(Word(raw, 4), c.archs[a].header.magic) <= |raw|
    ensures var c1 := InsertLoadCommand(c, a, raw, name);
            && Sized(c1.archs[a].commands)
            && RemoveLoadCommand(c1, a, |c.archs[a].commands|).archs == c.archs
  {
    var arch := c.archs[a];
    var c1 := InsertLoadCommand(c, a, raw, name);
    InsertedRecords(c, a, raw, name);
    PushThenPop(c, a, c1);
  }

  lemma {:induction false} PushThenPop(c: Container, a: nat, c1: Container)
    requires a < |c.archs| && Sized(c.archs[a].commands) && |c1.archs| == |c.archs|
    requires var arch := c.archs[a];
             var n := |arch.commands|;
             && |c1.archs[a].commands| == n + 1
             && var lc := c1.archs[a].commands[n];
             && lc.cmdsize <= |lc.raw|
             && c1.archs == c.archs[a := arch.(header := arch.header.(ncmds := Add32(arch.header.ncmds, 1),
                                                                       sizeofcmds := Add32(arch.header.sizeofcmds, lc.cmdsize)),
                                               commands := arch.commands + [lc])]
    ensures Sized(c1.archs[a].commands)
    ensures RemoveLoadCommand(c1, a, |c.archs[a].commands|).archs == c.archs
  {
    var arch := c.archs[a];
    var n := |arch.commands|;
    var lc := c1.archs[a].commands[n];
    assert Sized(c1.archs[a].commands) by {
      forall t | 0 <= t < n + 1 ensures c1.archs[a].commands[t].cmdsize <= |c1.archs[a].commands[t].raw| {
        if t < n {
          assert c1.archs[a].commands[t] == arch.commands[t];
        }
      }
    }
    if n > 0 {
      assert MoveLoadCommand(c1, a, n, n) == c1;
    }
    AddSub32(arch.header.ncmds, 1);
    AddSub32(arch.header.sizeofcmds, lc.cmdsize);
    assert c1.archs[a].commands[..n] == arch.commands;
    var r := PopCommand(c1, a);
    assert r.archs[a] == arch;
  }

  /** change_file_type on a slice whose header and commands are in place keeps them in
      place, with the new file type in the header: the file keeps its length and every
      byte outside the header; the header still counts the commands if it did. */
  lemma {:induction false} ChangeFileTypeLayout(c: Container, a: nat, fileType: u32)
    requires a < |c.archs| && CommandsLaid(c.bytes, c.archs[a])
    ensures var r := ChangeFileType(c, a, fileType);
            var off := c.archs[a].desc.offset;
            && CommandsLaid(r.bytes, r.archs[a])
            && |r.bytes| == |c.bytes|
            && (forall p :: 0 <= p < |c.bytes| && !(off <= p < off + MACH_HEADER_SIZE) ==> r.bytes[p] == c.bytes[p])
            && (Counted(c.archs[a]) <==> Counted(r.archs[a]))
  {
    var arch := c.archs[a];
    var lcs := arch.commands;
    var off := arch.desc.offset;
    var r := ChangeFileType(c, a, fileType);
    if lcs != [] {
      forall t | 0 <= t < |lcs| ensures off + MACH_HEADER_SIZE <= lcs[t].fileOffset {
        LaidWithin(lcs, lcs[0].fileOffset, t);
      }
    }
    HeldAcrossHeader(c.bytes, lcs, off, r.bytes);
  }

  /** Rewriting the Mach header in place keeps every command that lies after it. */
  lemma {:induction false} HeldAcrossHeader(bs: seq<byte>, lcs: seq<LoadCommand>, off: nat, r: seq<byte>)
    requires Held(bs, lcs) && forall t :: 0 <= t < |lcs| ==> off + MACH_HEADER_SIZE <= lcs[t].fileOffset
    requires |r| >= |bs| && forall p :: 0 <= p < |bs| && !(off <= p < off + MACH_HEADER_SIZE) ==> r[p] == bs[p]
    ensures Held(r, lcs)
  {
    forall t | 0 <= t < |lcs| ensures Holds(r, lcs[t].fileOffset, lcs[t].raw[..lcs[t].cmdsize]) {
      KeptOutside(bs, r, off, off + MACH_HEADER_SIZE, lcs[t].fileOffset, lcs[t].raw[..lcs[t].cmdsize]);
    }
  }

  /** Changing the file type twice is changing it once, to the second type. */
  lemma {:induction false} ChangeFileTypeTwice(c: Container, a: nat, t1: u32, t2: u32)
    requires a < |c.archs|
    ensures ChangeFileType(ChangeFileType(c, a, t1), a, t2) == ChangeFileType(c, a, t2)
  {
    var arch := c.archs[a];
    var h1 := arch.header.(filetype := t1);
    var h2 := arch.header.(filetype := t2);
    OverwriteTwice(c.bytes, arch.desc.offset, EncodeMachHeader(h1), EncodeMachHeader(h2));
    assert ChangeFileType(c, a, t1).archs[a := arch.(header := h2)] == c.archs[a := arch.(header := h2)];
  }

  /** Setting the file type a slice whose header is in place already has changes nothing;
      so changing it and changing it back gives back the container. */
  lemma {:induction false} ChangeFileTypeBack(c: Container, a: nat, fileType: u32)
    requires a < |c.archs| && Holds(c.bytes, c.archs[a].desc.offset, EncodeMachHeader(c.archs[a].header))
    ensures ChangeFileType(c, a, c.archs[a].header.filetype) == c
    ensures ChangeFileType(ChangeFileType(c, a, fileType), a, c.archs[a].header.filetype) == c
  {
    var arch := c.archs[a];
    OverwriteSame(c.bytes, arch.desc.offset, EncodeMachHeader(arch.header));
    assert arch.(header := arch.header.(filetype := arch.header.filetype)) == arch;
    assert c.archs[a := arch] == c.archs;
    ChangeFileTypeTwice(c, a, fileType, arch.header.filetype);
  }

  /** What removing command `k` from slice `a` of `c` must leave in `r`: the header and
      commands in place in the file, with the records and bytes below. */
  ghost predicate Removed(c: Container, a: nat, k: nat, r: Container)
    requires a < |c.archs| && k < |c.archs[a].commands| && |r.archs| == |c.archs|
  {
    && CommandsLaid(r.bytes, r.archs[a])
    && RemovedArch(c.archs[a], k, r.archs[a])
    && RemovedFile(c.bytes, c.archs[a], k, r.bytes)
  }

  /** The header counts one command and the removed command's size fewer; the other
      commands stay in their order, laid out from where the commands started; a header
      that counted the commands still does. */
  ghost predicate RemovedArch(arch: Arch, k: nat, ra: Arch)
    requires k < |arch.commands|
  {
    var lcs := arch.commands;
    && ra.desc == arch.desc
    && ra.header == arch.header.(ncmds := Sub32(arch.header.ncmds, 1),
                                 sizeofcmds := Sub32(arch.header.sizeofcmds, lcs[k].cmdsize))
    && SameRecords(ra.commands, lcs[..k] + lcs[k + 1..])
    && (|ra.commands| > 0 ==> ra.commands[0].fileOffset == lcs[0].fileOffset)
    && (Counted(arch) ==> Counted(ra))
  }

  /** The file keeps its length; the last `cmdsize` bytes of the old commands are zero;
      nothing outside the header and the commands changes. */
  ghost predicate RemovedFile(bs: seq<byte>, arch: Arch, k: nat, r: seq<byte>)
    requires k < |arch.commands|
  {
    var cs := arch.commands[k].cmdsize;
    var off := arch.desc.offset;
    var e := CommandsEnd(arch);
    && |r| == |bs|
    && cs <= e && Holds(r, e - cs, Zeros(cs))
    && (forall p :: (0 <= p < |bs| && !(off <= p < off + MACH_HEADER_SIZE) &&
                     !(arch.commands[0].fileOffset <= p < e)) ==> r[p] == bs[p])
  }

  /** remove_load_command on a slice whose header and commands are in place removes
      command `i`, or the only command. */
  lemma {:induction false} RemoveLoadCommandLayout(c: Container, a: nat, i: nat)
    requires a < |c.archs| && Sized(c.archs[a].commands) && |c.archs[a].commands| > 0
    requires |c.archs[a].commands| > 1 ==> i < |c.archs[a].commands|
    requires CommandsLaid(c.bytes, c.archs[a])
    ensures Removed(c, a, if |c.archs[a].commands| > 1 then i else 0, RemoveLoadCommand(c, a, i))
  {
    var n := |c.archs[a].commands|;
    var k := if n > 1 then i else 0;
    var c1 := if n > 1 then MoveLoadCommand(c, a, i, n - 1) else c;
    if n > 1 {
      MoveLoadCommandLayout(c, a, i, n - 1);
      MoveLoadCommandToEnd(c, a, i, n - 1);
    } else {
      assert c.archs[a].commands[..0] == [] == c.archs[a].commands[..k] + c.archs[a].commands[k + 1..];
    }
    assert RemoveLoadCommand(c, a, i) == PopCommand(c1, a);
    PopLayout(c1, a);
    RemovedSlice(c, a, k, c1, PopCommand(c1, a));
  }

  /** remove_load_command on the records alone: for commands laid out back to back, the
      slice's header and list become those of the slice without command `i` (without the
      only command, when there is one), whatever the file holds. */
  lemma {:induction false} RemoveLoadCommandRecords(c: Container, a: nat, i: nat)
    requires a < |c.archs| && Sized(c.archs[a].commands) && |c.archs[a].commands| > 0
    requires |c.archs[a].commands| > 1 ==> i < |c.archs[a].commands|
    requires Laid(c.archs[a].commands, c.archs[a].commands[0].fileOffset)
    ensures RemovedArch(c.archs[a], if |c.archs[a].commands| > 1 then i else 0, RemoveLoadCommand(c, a, i).archs[a])
  {
    var lcs := c.archs[a].commands;
    var n := |lcs|;
    var k := if n > 1 then i else 0;
    var c1 := if n > 1 then MoveLoadCommand(c, a, i, n - 1) else c;
    if n > 1 {
      MoveCommandsToEnd(c.bytes, lcs, i, n - 1);
      MoveSizes(c.bytes, lcs, i, n - 1);
      assert c1.archs[a] == c.archs[a].(commands := MoveCommands(c.bytes, lcs, i, n - 1).1);
    } else {
      assert lcs[..0] == [] == lcs[..k] + lcs[k + 1..];
    }
    assert RemoveLoadCommand(c, a, i) == PopCommand(c1, a);
    RemovedRecords(c.archs[a], k, c1.archs[a], PopCommand(c1, a).archs[a]);
  }

  lemma {:induction false} RemovedSlice(c: Container, a: nat, k: nat, c1: Container, r: Container)
    requires a < |c.archs| && |c.archs[a].commands| > 0 && k < |c.archs[a].commands|
    requires Laid(c.archs[a].commands, c.archs[a].commands[0].fileOffset)
    requires |c1.archs| == |c.archs|
    requires var lcs := c.archs[a].commands;
             var n := |lcs|;
             var rcs := c1.archs[a].commands;
             && c1.archs[a] == c.archs[a].(commands := rcs)
             && |c1.bytes| == |c.bytes| && |rcs| == n && Laid(rcs, lcs[0].fileOffset)
             && SumSizes(rcs) == SumSizes(lcs) && rcs[0].fileOffset == lcs[0].fileOffset
             && SameRecords(rcs[..n - 1], lcs[..k] + lcs[k + 1..])
             && rcs[n - 1] == lcs[k].(fileOffset := rcs[n - 1].fileOffset)
             && (forall p :: 0 <= p < |c.bytes| && !(lcs[0].fileOffset <= p < CommandsEnd(c.archs[a])) ==> c1.bytes[p] == c.bytes[p])
    requires |r.archs| == |c.archs|
    requires var arch1 := c1.archs[a];
             var rcs := arch1.commands;
             var lc := rcs[|rcs| - 1];
             var off := arch1.desc.offset;
             && r.archs[a] == arch1.(header := arch1.header.(ncmds := Sub32(arch1.header.ncmds, 1),
                                                             sizeofcmds := Sub32(arch1.header.sizeofcmds, lc.cmdsize)),
                                     commands := rcs[..|rcs| - 1])
             && |r.bytes| == |c1.bytes|
             && CommandsLaid(r.bytes, r.archs[a])
             && Holds(r.bytes, lc.fileOffset, Zeros(lc.cmdsize))
             && (forall p :: (0 <= p < |c1.bytes| && !(off <= p < off + MACH_HEADER_SIZE) &&
                              !(lc.fileOffset <= p < lc.fileOffset + lc.cmdsize)) ==> r.bytes[p] == c1.bytes[p])
    ensures Removed(c, a, k, r)
  {
    var lcs := c.archs[a].commands;
    var rcs := c1.archs[a].commands;
    LaidEnd(lcs, lcs[0].fileOffset);
    LaidEnd(rcs, lcs[0].fileOffset);
    LaidWithin(rcs, lcs[0].fileOffset, |rcs| - 1);
    RemovedRecords(c.archs[a], k, c1.archs[a], r.archs[a]);
    RemovedBytes(c.bytes, c.archs[a], k, c1.bytes, r.bytes, rcs[|rcs| - 1]);
  }

  /** The records and the header after popping the last command of a list whose last
      command is command `k` of the original list. */
  lemma {:induction false} RemovedRecords(arch: Arch, k: nat, arch1: Arch, ra: Arch)
    requires k < |arch.commands| && arch1 == arch.(commands := arch1.commands)
    requires var lcs := arch.commands;
             var n := |lcs|;
             var rcs := arch1.commands;
             && |rcs| == n && SumSizes(rcs) == SumSizes(lcs) && rcs[0].fileOffset == lcs[0].fileOffset
             && SameRecords(rcs[..n - 1], lcs[..k] + lcs[k + 1..])
             && rcs[n - 1] == lcs[k].(fileOffset := rcs[n - 1].fileOffset)
    requires var rcs := arch1.commands;
             var lc := rcs[|rcs| - 1];
             ra == arch1.(header := arch1.header.(ncmds := Sub32(arch1.header.ncmds, 1),
                                                  sizeofcmds := Sub32(arch1.header.sizeofcmds, lc.cmdsize)),
                          commands := rcs[..|rcs| - 1])
    ensures RemovedArch(arch, k, ra)
  {
    var rcs := arch1.commands;
    assert SumSizes(rcs) == SumSizes(rcs[..|rcs| - 1]) + rcs[|rcs| - 1].cmdsize;
  }

  /** The bytes after a move within the commands and a pop of the last command, which
      ends where the commands end and is as long as command `k`. */
  lemma {:induction false} RemovedBytes(bs: seq<byte>, arch: Arch, k: nat, b1: seq<byte>, r: seq<byte>, lc: LoadCommand)
    requires k < |arch.commands|
    requires var base := arch.commands[0].fileOffset;
             var e := CommandsEnd(arch);
             var off := arch.desc.offset;
             && |b1| == |bs| && base <= lc.fileOffset
             && lc.cmdsize == arch.commands[k].cmdsize && lc.fileOffset + lc.cmdsize == e
             && (forall p :: 0 <= p < |bs| && !(base <= p < e) ==> b1[p] == bs[p])
             && |r| == |b1| && Holds(r, lc.fileOffset, Zeros(lc.cmdsize))
             && (forall p :: (0 <= p < |b1| && !(off <= p < off + MACH_HEADER_SIZE) &&
                              !(lc.fileOffset <= p < lc.fileOffset + lc.cmdsize)) ==> r[p] == b1[p])
    ensures RemovedFile(bs, arch, k, r)
  {
  }


}
