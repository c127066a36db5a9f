/** remove_arch: zero the removed slice, then move every later slice down to the first
    offset after the slice before it that its alignment allows, rewrite the fat header
    and table, and truncate the file after the last slice. */
module Relayout {
  import opened Bytes
  import opened MachOFormat
  import opened Records
  import opened Persistence
  import opened Slices

  /** The running `new_offset` once the first `j` slices of `tail` have been placed,
      starting from `start`. */
  function Placed(tail: seq<Arch>, start: u32, j: nat): u32
    requires j <= |tail|
    decreases j, 0
  {
    if j == 0 then start else Add32(NewOffset(tail, start, j - 1), tail[j - 1].desc.size)
  }

  /** The offset the `j`-th slice of `tail` is moved to. */
  function NewOffset(tail: seq<Arch>, start: u32, j: nat): u32
    requires j < |tail|
    decreases j, 1
  {
    RoundUp32(Placed(tail, start, j), AlignOf(tail[j].desc))
  }

  /** The slices of `tail` with their new offsets. */
  function Relocated(tail: seq<Arch>, start: u32): (r: seq<Arch>)
    ensures |r| == |tail|
    ensures forall j {:trigger r[j]} :: 0 <= j < |tail| ==>
              r[j] == tail[j].(desc := tail[j].desc.(offset := NewOffset(tail, start, j)))
  {
    seq(|tail|, j requires 0 <= j < |tail| => tail[j].(desc := tail[j].desc.(offset := NewOffset(tail, start, j))))
  }

  /** One round of the loop: move the slice's bytes to `newOff`, then zero what is left
      between their new end and their old offset's end. */
  function Step(b: seq<byte>, a: FatArch, newOff: u32): (r: seq<byte>)
    requires End(a) <= |b|
    ensures |r| >= |b|
  {
    var m := Move(b, newOff, a.offset, a.size);
    Overwrite(m, Add32(newOff, a.size), Zeros(Sub32(a.offset, newOff)))
  }

  /** The file after the rounds of the loop from round `j` on, starting from `m`. */
  function MovedFrom(m: seq<byte>, tail: seq<Arch>, start: u32, j: nat): (r: seq<byte>)
    requires j <= |tail|
    requires forall i :: 0 <= i < |tail| ==> End(tail[i].desc) <= |m|
    ensures |r| >= |m|
    decreases |tail| - j
  {
    if j == |tail| then m
    else MovedFrom(Step(m, tail[j].desc, NewOffset(tail, start, j)), tail, start, j + 1)
  }

  /** `new_offset` before the loop: the fat header's end when the first slice goes, the
      end of the slice before the removed one otherwise. */
  function Start(c: Container, k: nat): u32
    requires k <= |c.archs|
  {
    if k == 0 then FAT_HEADER_SIZE else Add32(c.archs[k - 1].desc.offset, c.archs[k - 1].desc.size)
  }

  /** The file after the removed slice's bytes are zeroed. */
  function Zeroed(c: Container, k: nat): seq<byte>
    requires k < |c.archs|
  {
    Overwrite(c.bytes, c.archs[k].desc.offset, Zeros(c.archs[k].desc.size))
  }

  /** The container after the slice is zeroed and the later ones moved, before the header
      and table are rewritten. */
  function RemoveStage(c: Container, k: nat): (c1: Container)
    requires c.nArchs == |c.archs| && k < |c.archs|
    requires forall i :: 0 <= i < |c.archs| ==> End(c.archs[i].desc) <= |c.bytes|
    ensures c1.isFat == c.isFat && c1.fatMagic == c.fatMagic && c1.fileSize == c.fileSize
    ensures c1.nArchs == |c1.archs| == |c.archs| - 1
    ensures c1.archs == c.archs[..k] + Relocated(c.archs[k + 1..], Start(c, k))
  {
    var tail := c.archs[k + 1..];
    var start := Start(c, k);
    c.(bytes := MovedFrom(Zeroed(c, k), tail, start, 0),
       archs := c.archs[..k] + Relocated(tail, start),
       nArchs := Sub32(c.nArchs, 1))
  }

  /** remove_arch on a fat container. */
  function RemoveArch(c: Container, k: nat): (r: Container)
    requires c.isFat && c.nArchs == |c.archs| && k < |c.archs|
    requires forall i :: 0 <= i < |c.archs| ==> End(c.archs[i].desc) <= |c.bytes|
    ensures r.isFat && r.fatMagic == c.fatMagic
    ensures r.nArchs == |r.archs| == |c.archs| - 1
    ensures r.archs == c.archs[..k] + Relocated(c.archs[k + 1..], Start(c, k))
    ensures |r.bytes| == r.fileSize
  {
    var c1 := RemoveStage(c, k);
    var end := NewEnd(c, k);
    c1.(bytes := Resize(WriteFatArchs(WriteFatHeader(c1)).bytes, end), fileSize := end)
  }

  // ---- the arithmetic of the new offsets ----

  /** The slices of `tail` are aligned, in order, within `[start, limit)`. */
  ghost predicate TailLayout(tail: seq<Arch>, start: nat, limit: nat)
  {
    && start <= limit < TWO_32
    && (forall i :: 0 <= i < |tail| ==> Aligned(tail[i].desc.offset, AlignOf(tail[i].desc)))
    && (forall i, j :: 0 <= i < j < |tail| ==> End(tail[i].desc) <= tail[j].desc.offset)
    && (forall i :: 0 <= i < |tail| ==> start <= tail[i].desc.offset && End(tail[i].desc) <= limit)
  }

  /** Each new offset is the running offset rounded up to the slice's alignment, without
      wrap-around; it never passes the slice's old offset, and the running offset after
      it is the slice's new end. */
  lemma {:induction false} PlacedFacts(tail: seq<Arch>, start: u32, limit: nat, j: nat)
    requires TailLayout(tail, start, limit)
    requires j <= |tail|
    ensures start <= Placed(tail, start, j) <= limit
    ensures j > 0 ==> Placed(tail, start, j) <= End(tail[j - 1].desc)
    ensures j < |tail| ==>
              && NewOffset(tail, start, j) == RoundUp(Placed(tail, start, j), AlignOf(tail[j].desc))
              && Placed(tail, start, j) <= NewOffset(tail, start, j) <= tail[j].desc.offset
              && Placed(tail, start, j + 1) == NewOffset(tail, start, j) + tail[j].desc.size
  {
    PlacedBound(tail, start, limit, j);
    if j < |tail| {
      NewOffsetFacts(tail, start, limit, j);
    }
  }

  /** The running offset stays within `[start, limit)` and behind the end of the slice
      placed last. */
  lemma {:induction false} PlacedBound(tail: seq<Arch>, start: u32, limit: nat, j: nat)
    requires TailLayout(tail, start, limit)
    requires j <= |tail|
    ensures start <= Placed(tail, start, j) <= limit
    ensures j > 0 ==> Placed(tail, start, j) <= End(tail[j - 1].desc)
    decreases j, 0
  {
    if j > 0 {
      NewOffsetFacts(tail, start, limit, j - 1);
      assert End(tail[j - 1].desc) <= limit;
    }
  }

  lemma {:induction false} NewOffsetFacts(tail: seq<Arch>, start: u32, limit: nat, j: nat)
    requires TailLayout(tail, start, limit)
    requires j < |tail|
    ensures NewOffset(tail, start, j) == RoundUp(Placed(tail, start, j), AlignOf(tail[j].desc))
    ensures start <= Placed(tail, start, j) <= NewOffset(tail, start, j) <= tail[j].desc.offset
    ensures Placed(tail, start, j + 1) == NewOffset(tail, start, j) + tail[j].desc.size
    decreases j, 1
  {
    PlacedBound(tail, start, limit, j);
    var p := Placed(tail, start, j);
    var o := tail[j].desc.offset;
    if j > 0 {
      assert End(tail[j - 1].desc) <= o;
    }
    RoundUpBelowAligned(p, AlignOf(tail[j].desc), o);
  }

  /** A placed slice ends at or before the running offset of every later round. */
  lemma {:induction false} PlacedBefore(tail: seq<Arch>, start: u32, limit: nat, i: nat, j: nat)
    requires TailLayout(tail, start, limit)
    requires i < j <= |tail|
    ensures NewOffset(tail, start, i) + tail[i].desc.size <= Placed(tail, start, j)
    decreases j
  {
    PlacedFacts(tail, start, limit, j - 1);
    if i < j - 1 {
      PlacedBefore(tail, start, limit, i, j - 1);
    }
  }

  // ---- the bytes ----

  /** A round leaves the file's length alone and puts the slice's bytes at `newOff`. */
  lemma {:induction false} StepPlaces(b: seq<byte>, a: FatArch, newOff: u32)
    requires End(a) <= |b| && End(a) < TWO_32 && newOff <= a.offset
    ensures |Step(b, a, newOff)| == |b|
    ensures Holds(Step(b, a, newOff), newOff, Piece(b, a))
  {
    var piece := Piece(b, a);
    var m := Move(b, newOff, a.offset, a.size);
    assert m == Overwrite(b, newOff, piece);
    HoldsAfterWrite(b, newOff, piece);
    HoldsAcrossWrite(m, newOff, piece, Add32(newOff, a.size), Zeros(Sub32(a.offset, newOff)));
  }

  /** A round leaves alone any bytes outside `[newOff, End(a))`. */
  lemma {:induction false} StepKeeps(b: seq<byte>, a: FatArch, newOff: u32, o: nat, d: seq<byte>)
    requires End(a) <= |b| && End(a) < TWO_32 && newOff <= a.offset
    requires Holds(b, o, d)
    requires o + |d| <= newOff || End(a) <= o
    ensures Holds(Step(b, a, newOff), o, d)
  {
    var piece := Piece(b, a);
    var m := Move(b, newOff, a.offset, a.size);
    assert m == Overwrite(b, newOff, piece);
    HoldsAcrossWrite(b, o, d, newOff, piece);
    HoldsAcrossWrite(m, o, d, Add32(newOff, a.size), Zeros(Sub32(a.offset, newOff)));
  }

  /** What holds of the file `m` after `j` rounds: it has its old length; the first `j`
      slices sit at their new offsets with their old bytes; the others are untouched; so
      is everything before `start`. */
  ghost predicate MovedState(b: seq<byte>, tail: seq<Arch>, start: u32, j: nat, m: seq<byte>)
  {
    && j <= |tail| && start <= |b|
    && (forall i :: 0 <= i < |tail| ==> End(tail[i].desc) <= |b|)
    && |m| == |b|
    && Holds(m, 0, b[..start])
    && (forall i :: 0 <= i < j ==> Holds(m, NewOffset(tail, start, i), Piece(b, tail[i].desc)))
    && (forall i :: j <= i < |tail| ==> Holds(m, tail[i].desc.offset, Piece(b, tail[i].desc)))
  }

  /** Round `j` keeps the slices already placed where they are. */
  lemma {:induction false} StepKeepsPlaced(b: seq<byte>, tail: seq<Arch>, start: u32, j: nat, m: seq<byte>)
    requires TailLayout(tail, start, |b|)
    requires j < |tail| && |m| == |b|
    requires forall i :: 0 <= i < j ==> Holds(m, NewOffset(tail, start, i), Piece(b, tail[i].desc))
    ensures forall i :: 0 <= i < j ==>
              Holds(Step(m, tail[j].desc, NewOffset(tail, start, j)), NewOffset(tail, start, i), Piece(b, tail[i].desc))
  {
    PlacedFacts(tail, start, |b|, j);
    var a := tail[j].desc;
    var no := NewOffset(tail, start, j);
    forall i | 0 <= i < j
      ensures Holds(Step(m, a, no), NewOffset(tail, start, i), Piece(b, tail[i].desc))
    {
      PlacedBefore(tail, start, |b|, i, j);
      StepKeeps(m, a, no, NewOffset(tail, start, i), Piece(b, tail[i].desc));
    }
  }

  /** Round `j` places slice `j` and leaves the later slices where they are. */
  lemma {:induction false} StepPlacesNext(b: seq<byte>, tail: seq<Arch>, start: u32, j: nat, m: seq<byte>)
    requires TailLayout(tail, start, |b|)
    requires j < |tail| && |m| == |b|
    requires forall i :: j <= i < |tail| ==> Holds(m, tail[i].desc.offset, Piece(b, tail[i].desc))
    ensures var m' := Step(m, tail[j].desc, NewOffset(tail, start, j));
            && |m'| == |b|
            && Holds(m', NewOffset(tail, start, j), Piece(b, tail[j].desc))
            && forall i :: j + 1 <= i < |tail| ==> Holds(m', tail[i].desc.offset, Piece(b, tail[i].desc))
  {
    PlacedFacts(tail, start, |b|, j);
    var a := tail[j].desc;
    var no := NewOffset(tail, start, j);
    assert Holds(m, a.offset, Piece(b, a));
    assert Piece(m, a) == Piece(b, a);
    StepPlaces(m, a, no);
    forall i | j + 1 <= i < |tail|
      ensures Holds(Step(m, a, no), tail[i].desc.offset, Piece(b, tail[i].desc))
    {
      StepKeeps(m, a, no, tail[i].desc.offset, Piece(b, tail[i].desc));
    }
  }

  /** Round `j` keeps the invariant, with one more slice placed. */
  lemma {:induction false} MovedStep(b: seq<byte>, tail: seq<Arch>, start: u32, j: nat, m: seq<byte>)
    requires TailLayout(tail, start, |b|)
    requires j < |tail|
    requires MovedState(b, tail, start, j, m)
    ensures MovedState(b, tail, start, j + 1, Step(m, tail[j].desc, NewOffset(tail, start, j)))
  {
    PlacedFacts(tail, start, |b|, j);
    StepKeepsPlaced(b, tail, start, j, m);
    StepPlacesNext(b, tail, start, j, m);
    StepKeeps(m, tail[j].desc, NewOffset(tail, start, j), 0, b[..start]);
  }

  /** Before the first round nothing has moved. */
  lemma {:induction false} MovedStart(b: seq<byte>, tail: seq<Arch>, start: u32)
    requires TailLayout(tail, start, |b|)
    ensures MovedState(b, tail, start, 0, b)
  {
    assert b[..start] == b[0..start];
    forall i | 0 <= i < |tail| ensures Holds(b, tail[i].desc.offset, Piece(b, tail[i].desc)) {
    }
  }

  /** From any round on, the rest of the loop ends with every slice placed. */
  lemma {:induction false} MovedAll(b: seq<byte>, tail: seq<Arch>, start: u32, j: nat, m: seq<byte>)
    requires TailLayout(tail, start, |b|)
    requires j <= |tail|
    requires MovedState(b, tail, start, j, m)
    ensures MovedState(b, tail, start, |tail|, MovedFrom(m, tail, start, j))
    decreases |tail| - j
  {
    if j < |tail| {
      MovedStep(b, tail, start, j, m);
      MovedAll(b, tail, start, j + 1, Step(m, tail[j].desc, NewOffset(tail, start, j)));
    }
  }

  // ---- what remove_arch leaves ----

  /** Bytes known to lie inside a prefix that `t` starts with are in `t` too. */
  lemma {:induction false} HoldsInPrefix(s: seq<byte>, t: seq<byte>, n: nat, o: nat, d: seq<byte>)
    requires n <= |s| && Holds(t, 0, s[..n])
    requires Holds(s, o, d) && o + |d| <= n
    ensures Holds(t, o, d)
  {
    forall x | 0 <= x < |d| ensures t[o..o + |d|][x] == d[x] {
      assert t[o + x] == t[0..n][o + x] == s[o + x];
      assert s[o..o + |d|][x] == s[o + x];
    }
  }

  /** On a well laid out container, the slices after the removed one and the loop's
      starting offset meet the loop's layout assumptions, and every slice before the
      removed one ends by that offset. */
  lemma {:induction false} RemoveTail(c: Container, k: nat)
    requires FatLayout(c) && k < |c.archs|
    ensures forall i :: 0 <= i < |c.archs| ==> End(c.archs[i].desc) <= |c.bytes|
    ensures TailLayout(c.archs[k + 1..], Start(c, k), |c.bytes|)
    ensures k == 0 ==> Start(c, k) == FAT_HEADER_SIZE
    ensures k > 0 ==> Start(c, k) == End(c.archs[k - 1].desc)
    ensures forall i :: 0 <= i < k ==> End(c.archs[i].desc) <= Start(c, k)
  {
    FatLayoutEnds(c);
    var tail := c.archs[k + 1..];
    var start := Start(c, k);
    forall i | 0 <= i < |tail|
      ensures start <= tail[i].desc.offset
      ensures Aligned(tail[i].desc.offset, AlignOf(tail[i].desc))
    {
      assert tail[i] == c.archs[k + 1 + i];
      if k > 0 {
        assert End(c.archs[k - 1].desc) <= c.archs[k + 1 + i].desc.offset;
      }
    }
    forall i, j | 0 <= i < j < |tail| ensures End(tail[i].desc) <= tail[j].desc.offset {
      assert tail[i] == c.archs[k + 1 + i] && tail[j] == c.archs[k + 1 + j];
    }
    forall i | 0 <= i < k ensures End(c.archs[i].desc) <= start {
      if i < k - 1 {
        assert End(c.archs[i].desc) <= c.archs[k - 1].desc.offset;
      }
    }
    assert FAT_HEADER_SIZE + FAT_ARCH_SIZE * |c.archs| <= c.archs[k].desc.offset;
  }

  /** Zeroing the removed slice keeps the file's length and every other slice's bytes. */
  lemma {:induction false} ZeroKeeps(c: Container, k: nat)
    requires FatLayout(c) && k < |c.archs|
    ensures forall i :: 0 <= i < |c.archs| ==> End(c.archs[i].desc) <= |c.bytes|
    ensures var b1 := Zeroed(c, k);
            && |b1| == |c.bytes|
            && forall i :: 0 <= i < |c.archs| && i != k ==>
                 Holds(b1, c.archs[i].desc.offset, Piece(c.bytes, c.archs[i].desc))
  {
    FatLayoutEnds(c);
    var a := c.archs[k].desc;
    forall i | 0 <= i < |c.archs| && i != k
      ensures Holds(Overwrite(c.bytes, a.offset, Zeros(a.size)), c.archs[i].desc.offset, Piece(c.bytes, c.archs[i].desc))
    {
      var o := c.archs[i].desc.offset;
      assert Holds(c.bytes, o, Piece(c.bytes, c.archs[i].desc));
      if i < k {
        assert End(c.archs[i].desc) <= a.offset;
      } else {
        assert End(a) <= o;
      }
      HoldsAcrossWrite(c.bytes, o, Piece(c.bytes, c.archs[i].desc), a.offset, Zeros(a.size));
    }
  }

  /** One moved slice: its new offset is the first its alignment allows after the
      slice before it (after `start` for the first). */
  lemma {:induction false} RelocatedAt(tail: seq<Arch>, start: u32, j: nat)
    requires j < |tail|
    requires NewOffset(tail, start, j) == RoundUp(Placed(tail, start, j), AlignOf(tail[j].desc))
    requires j > 0 ==> Placed(tail, start, j) == NewOffset(tail, start, j - 1) + tail[j - 1].desc.size
    ensures var rt := Relocated(tail, start);
            rt[j].desc.offset == RoundUp(if j == 0 then start else End(rt[j - 1].desc), AlignOf(rt[j].desc))
  {
    var rt := Relocated(tail, start);
    var p := Placed(tail, start, j);
    if j > 0 {
      assert End(rt[j - 1].desc) == p;
    }
    assert AlignOf(rt[j].desc) == AlignOf(tail[j].desc);
  }

  /** Every moved slice is aligned and lies no lower than the first one, which lies no
      lower than `start`. */
  lemma {:induction false} RelocatedAbove(tail: seq<Arch>, start: u32, limit: nat, j: nat)
    requires TailLayout(tail, start, limit) && j < |tail|
    ensures var rt := Relocated(tail, start);
            && Aligned(rt[j].desc.offset, AlignOf(rt[j].desc))
            && start <= rt[0].desc.offset <= rt[j].desc.offset
  {
    PlacedFacts(tail, start, limit, j);
    PlacedFacts(tail, start, limit, 0);
    if j > 0 {
      PlacedBefore(tail, start, limit, 0, j);
    }
  }

  /** The moved slices follow each other in order and end where the loop's running
      offset ends, within `limit`. */
  lemma {:induction false} RelocatedOrder(tail: seq<Arch>, start: u32, limit: nat)
    requires TailLayout(tail, start, limit)
    ensures var rt := Relocated(tail, start);
            && (forall i, j :: 0 <= i < j < |rt| ==> End(rt[i].desc) <= rt[j].desc.offset)
            && start <= Placed(tail, start, |tail|) <= limit
            && (|rt| == 0 ==> Placed(tail, start, |tail|) == start)
            && (|rt| > 0 ==> End(rt[|rt| - 1].desc) == Placed(tail, start, |tail|))
  {
    var rt := Relocated(tail, start);
    forall i, j | 0 <= i < j < |rt| ensures End(rt[i].desc) <= rt[j].desc.offset {
      RelocatedPair(tail, start, limit, i, j);
    }
    RelocatedEnd(tail, start, limit);
  }

  lemma {:induction false} RelocatedPair(tail: seq<Arch>, start: u32, limit: nat, i: nat, j: nat)
    requires TailLayout(tail, start, limit) && i < j < |tail|
    ensures End(Relocated(tail, start)[i].desc) <= Relocated(tail, start)[j].desc.offset
  {
    PlacedBefore(tail, start, limit, i, j);
    PlacedFacts(tail, start, limit, j);
  }

  lemma {:induction false} RelocatedEnd(tail: seq<Arch>, start: u32, limit: nat)
    requires TailLayout(tail, start, limit)
    ensures var rt := Relocated(tail, start);
            && start <= Placed(tail, start, |tail|) <= limit
            && (|rt| == 0 ==> Placed(tail, start, |tail|) == start)
            && (|rt| > 0 ==> End(rt[|rt| - 1].desc) == Placed(tail, start, |tail|))
  {
    PlacedFacts(tail, start, limit, |tail|);
    if |tail| > 0 {
      PlacedFacts(tail, start, limit, |tail| - 1);
    }
  }

  /** The slices remove_arch keeps, with their new offsets. */
  function Remaining(c: Container, k: nat): (rs: seq<Arch>)
    requires k < |c.archs|
  {
    c.archs[..k] + Relocated(c.archs[k + 1..], Start(c, k))
  }

  /** The length remove_arch leaves the file: the running offset after the last round. */
  function NewEnd(c: Container, k: nat): u32
    requires k < |c.archs|
  {
    Placed(c.archs[k + 1..], Start(c, k), |c.archs| - k - 1)
  }

  /** Each slice from index `from` on lies at the first offset its alignment allows
      after the end of the slice before it, or after `first` for slice 0. */
  ghost predicate Follows(rs: seq<Arch>, from: nat, first: nat)
  {
    && (from == 0 && 0 < |rs| ==> rs[0].desc.offset == RoundUp(first, AlignOf(rs[0].desc)))
    && (forall i, l :: 0 <= i && i + 1 == l && from <= l < |rs| ==>
          rs[l].desc.offset == RoundUp(End(rs[i].desc), AlignOf(rs[l].desc)))
  }

  /** The slices kept by remove_arch, as against the old ones: those before slice `k`
      unchanged, each later one with only its offset changed, to the first offset its
      alignment allows after the slice before it (after the fat header when it is the
      first). */
  ghost predicate Kept(archs: seq<Arch>, k: nat, rs: seq<Arch>)
  {
    && k < |archs| && |rs| == |archs| - 1
    && (forall i :: 0 <= i < k ==> rs[i] == archs[i])
    && (forall i :: k <= i < |rs| ==> rs[i] == archs[i + 1].(desc := archs[i + 1].desc.(offset := rs[i].desc.offset)))
    && Follows(rs, k, FAT_HEADER_SIZE)
  }

  /** Slices aligned, in order, and none below `room`. */
  ghost predicate Packed(rs: seq<Arch>, room: nat)
  {
    && (forall i :: 0 <= i < |rs| ==> Aligned(rs[i].desc.offset, AlignOf(rs[i].desc)))
    && (forall i :: 0 <= i < |rs| ==> room <= rs[i].desc.offset)
    && (forall i, l :: 0 <= i < l < |rs| ==> End(rs[i].desc) <= rs[l].desc.offset)
  }

  /** The slices before the removed one: aligned, in order, none below `room` and all
      ending by `start`, which is the end of the last of them or the fat header's end. */
  ghost predicate PrefixFits(archs: seq<Arch>, k: nat, start: nat, room: nat)
  {
    && k <= |archs|
    && Packed(archs[..k], room)
    && (forall i :: 0 <= i < k ==> End(archs[i].desc) <= start)
    && (k == 0 ==> start == FAT_HEADER_SIZE)
    && (k > 0 ==> start == End(archs[k - 1].desc))
  }

  /** The moved slices: each the slice of `tail` with a new offset that is the first its
      alignment allows after the one before (after `start` for the first), aligned, in
      order, none below `start` or `room`. */
  ghost predicate MovedFits(tail: seq<Arch>, rt: seq<Arch>, start: nat, room: nat)
  {
    && |rt| == |tail|
    && Packed(rt, room)
    && Follows(rt, 0, start)
    && (forall j :: 0 <= j < |rt| ==>
          start <= rt[j].desc.offset && rt[j] == tail[j].(desc := tail[j].desc.(offset := rt[j].desc.offset)))
  }

  /** The kept slices: those before the removed one unchanged, the later ones moved as
      remove_arch's loop moves them; all aligned, in order, with room for the smaller
      table. */
  lemma {:induction false} RemainingLayout(c: Container, k: nat)
    requires FatLayout(c) && k < |c.archs|
    requires k == 0 && 1 < |c.archs| ==>
               FAT_HEADER_SIZE + FAT_ARCH_SIZE * (|c.archs| - 1) <= RoundUp(FAT_HEADER_SIZE, AlignOf(c.archs[1].desc))
    ensures Kept(c.archs, k, Remaining(c, k))
    ensures Packed(Remaining(c, k), FAT_HEADER_SIZE + FAT_ARCH_SIZE * (|c.archs| - 1))
  {
    var tail := c.archs[k + 1..];
    var start := Start(c, k);
    var room := FAT_HEADER_SIZE + FAT_ARCH_SIZE * (|c.archs| - 1);
    RemoveTail(c, k);
    PrefixLayout(c, k);
    if k == 0 && 1 < |c.archs| {
      assert tail[0] == c.archs[1];
    }
    RelocatedLayout(tail, start, |c.bytes|, room);
    RemainingParts(c.archs, k, tail, Relocated(tail, start), start, room);
  }

  /** The slices before the removed one fit before the moved ones. */
  lemma {:induction false} PrefixLayout(c: Container, k: nat)
    requires FatLayout(c) && k < |c.archs|
    ensures PrefixFits(c.archs, k, Start(c, k), FAT_HEADER_SIZE + FAT_ARCH_SIZE * (|c.archs| - 1))
  {
    RemoveTail(c, k);
    var p := c.archs[..k];
    assert forall i :: 0 <= i < k ==> p[i] == c.archs[i];
  }

  /** Where remove_arch leaves the end of the file: after the last kept slice, or after
      the fat header when none is left; within the old file. */
  lemma {:induction false} RemainingEnd(c: Container, k: nat)
    requires FatLayout(c) && k < |c.archs|
    ensures var rs := Remaining(c, k);
            && (|rs| == 0 ==> NewEnd(c, k) == FAT_HEADER_SIZE)
            && (|rs| > 0 ==> End(rs[|rs| - 1].desc) == NewEnd(c, k))
            && NewEnd(c, k) <= |c.bytes|
  {
    var tail := c.archs[k + 1..];
    var start := Start(c, k);
    RemoveTail(c, k);
    RelocatedOrder(tail, start, |c.bytes|);
    var rs := Remaining(c, k);
    if |tail| > 0 {
      assert rs[|rs| - 1] == Relocated(tail, start)[|tail| - 1];
    } else if k > 0 {
      assert End(c.archs[k - 1].desc) <= |c.bytes|;
    }
  }

  /** The moved slices, each at the first offset its alignment allows after the one
      before it, aligned, and no lower than `room` when the first one is not. */
  lemma {:induction false} RelocatedLayout(tail: seq<Arch>, start: u32, limit: nat, room: nat)
    requires TailLayout(tail, start, limit)
    requires room <= start || (|tail| > 0 && room <= RoundUp(start, AlignOf(tail[0].desc)))
    ensures MovedFits(tail, Relocated(tail, start), start, room)
  {
    var rt := Relocated(tail, start);
    forall j | 0 <= j < |rt|
      ensures Aligned(rt[j].desc.offset, AlignOf(rt[j].desc)) && room <= rt[j].desc.offset && start <= rt[j].desc.offset
    {
      RelocatedFactsAt(tail, start, limit, room, j);
    }
    RelocatedFollows(tail, start, limit);
    RelocatedOrder(tail, start, limit);
  }

  lemma {:induction false} RelocatedFollows(tail: seq<Arch>, start: u32, limit: nat)
    requires TailLayout(tail, start, limit)
    ensures Follows(Relocated(tail, start), 0, start)
  {
    var rt := Relocated(tail, start);
    forall i, l | 0 <= i && i + 1 == l && 0 <= l < |rt|
      ensures rt[l].desc.offset == RoundUp(End(rt[i].desc), AlignOf(rt[l].desc))
    {
      PlacedFacts(tail, start, limit, l);
      PlacedFacts(tail, start, limit, i);
      RelocatedAt(tail, start, l);
    }
    if 0 < |rt| {
      PlacedFacts(tail, start, limit, 0);
      RelocatedAt(tail, start, 0);
    }
  }

  lemma {:induction false} RelocatedFactsAt(tail: seq<Arch>, start: u32, limit: nat, room: nat, j: nat)
    requires TailLayout(tail, start, limit) && j < |tail|
    requires room <= start || room <= RoundUp(start, AlignOf(tail[0].desc))
    ensures var rt := Relocated(tail, start);
            && Aligned(rt[j].desc.offset, AlignOf(rt[j].desc))
            && room <= rt[j].desc.offset
            && start <= rt[j].desc.offset
  {
    RelocatedAbove(tail, start, limit, j);
    PlacedFacts(tail, start, limit, 0);
  }

  /** Putting the unchanged slices and the moved ones together. */
  lemma {:induction false} RemainingParts(archs: seq<Arch>, k: nat, tail: seq<Arch>, rt: seq<Arch>, start: nat, room: nat)
    requires k < |archs| && tail == archs[k + 1..]
    requires PrefixFits(archs, k, start, room)
    requires MovedFits(tail, rt, start, room)
    ensures Kept(archs, k, archs[..k] + rt)
    ensures Packed(archs[..k] + rt, room)
  {
    PartsKept(archs, k, tail, rt, start, room);
    PartsPlaced(archs, k, rt, start, room);
    PartsOrdered(archs, k, rt, start, room);
  }

  lemma {:induction false} PartsKept(archs: seq<Arch>, k: nat, tail: seq<Arch>, rt: seq<Arch>, start: nat, room: nat)
    requires k < |archs| && tail == archs[k + 1..]
    requires PrefixFits(archs, k, start, room)
    requires MovedFits(tail, rt, start, room)
    ensures Kept(archs, k, archs[..k] + rt)
  {
    var p := archs[..k];
    var rs := p + rt;
    forall i | 0 <= i < k ensures rs[i] == archs[i] {
      assert rs[i] == p[i];
    }
    forall i | k <= i < |rs|
      ensures rs[i] == archs[i + 1].(desc := archs[i + 1].desc.(offset := rs[i].desc.offset))
    {
      assert rs[i] == rt[i - k];
      assert tail[i - k] == archs[i + 1];
    }
    forall i, l | 0 <= i && i + 1 == l && k <= l < |rs|
      ensures rs[l].desc.offset == RoundUp(End(rs[i].desc), AlignOf(rs[l].desc))
    {
      assert rs[l] == rt[l - k];
      if l == k {
        assert rs[i] == p[k - 1];
      } else {
        assert rs[i] == rt[i - k];
      }
    }
    if k == 0 && 0 < |rs| {
      assert rs[0] == rt[0];
    }
  }

  lemma {:induction false} PartsPlaced(archs: seq<Arch>, k: nat, rt: seq<Arch>, start: nat, room: nat)
    requires k <= |archs| && Packed(archs[..k], room) && Packed(rt, room)
    ensures var rs := archs[..k] + rt;
            && (forall i :: 0 <= i < |rs| ==> Aligned(rs[i].desc.offset, AlignOf(rs[i].desc)))
            && (forall i :: 0 <= i < |rs| ==> room <= rs[i].desc.offset)
  {
    var p := archs[..k];
    var rs := p + rt;
    forall i | 0 <= i < |rs|
      ensures Aligned(rs[i].desc.offset, AlignOf(rs[i].desc)) && room <= rs[i].desc.offset
    {
      if i < k {
        assert rs[i] == p[i];
      } else {
        assert rs[i] == rt[i - k];
      }
    }
  }

  lemma {:induction false} PartsOrdered(archs: seq<Arch>, k: nat, rt: seq<Arch>, start: nat, room: nat)
    requires k <= |archs| && Packed(archs[..k], room) && Packed(rt, room)
    requires forall i :: 0 <= i < k ==> End(archs[i].desc) <= start
    requires forall j :: 0 <= j < |rt| ==> start <= rt[j].desc.offset
    ensures var rs := archs[..k] + rt;
            forall i, l :: 0 <= i < l < |rs| ==> End(rs[i].desc) <= rs[l].desc.offset
  {
    var p := archs[..k];
    var rs := p + rt;
    forall i, l | 0 <= i < l < |rs| ensures End(rs[i].desc) <= rs[l].desc.offset {
      if k <= i {
        assert rs[i] == rt[i - k] && rs[l] == rt[l - k];
      } else if k <= l {
        assert rs[i] == p[i] && rs[l] == rt[l - k];
      } else {
        assert rs[i] == p[i] && rs[l] == p[l];
      }
    }
  }

  // ---- the file remove_arch leaves ----

  /** The slice of the old container that kept slice `i` comes from. */
  function Source(archs: seq<Arch>, k: nat, i: nat): FatArch
    requires k < |archs| && i < |archs| - 1
  {
    if i < k then archs[i].desc else archs[i + 1].desc
  }

  /** Every kept slice of `r` holds the bytes of the old slice it comes from. */
  ghost predicate HoldsKept(c: Container, k: nat, r: Container)
  {
    && k < |c.archs| && |r.archs| == |c.archs| - 1
    && (forall i :: 0 <= i < |c.archs| ==> End(c.archs[i].desc) <= |c.bytes|)
    && (forall i :: 0 <= i < |r.archs| ==>
          Holds(r.bytes, r.archs[i].desc.offset, Piece(c.bytes, Source(c.archs, k, i))))
  }

  /** Each kept slice has the size of the slice it comes from. */
  lemma {:induction false} KeptSizes(archs: seq<Arch>, k: nat, rs: seq<Arch>)
    requires Kept(archs, k, rs)
    ensures forall i :: 0 <= i < |rs| ==> Source(archs, k, i).size == rs[i].desc.size
  {
  }

  /** After the loop every kept slice's old bytes sit at its new offset, in a file of
      the old length. */
  lemma {:induction false} RemovedBytes(c: Container, k: nat)
    requires FatLayout(c) && k < |c.archs|
    ensures forall i :: 0 <= i < |c.archs| ==> End(c.archs[i].desc) <= |c.bytes|
    ensures |RemoveStage(c, k).bytes| == |c.bytes|
    ensures HoldsKept(c, k, RemoveStage(c, k))
  {
    ZeroKeeps(c, k);
    RemoveTail(c, k);
    StageMoved(c, k);
    KeptFromMoved(c, k, Zeroed(c, k), RemoveStage(c, k));
  }

  lemma {:induction false} KeptFromMoved(c: Container, k: nat, b1: seq<byte>, c1: Container)
    requires k < |c.archs| && c1.archs == Remaining(c, k)
    requires forall i :: 0 <= i < |c.archs| ==> End(c.archs[i].desc) <= |c.bytes|
    requires forall i :: 0 <= i < k ==> End(c.archs[i].desc) <= Start(c, k)
    requires |b1| == |c.bytes|
    requires forall i :: 0 <= i < |c.archs| && i != k ==>
               Holds(b1, c.archs[i].desc.offset, Piece(c.bytes, c.archs[i].desc))
    requires MovedState(b1, c.archs[k + 1..], Start(c, k), |c.archs| - k - 1, c1.bytes)
    ensures HoldsKept(c, k, c1)
  {
    var tail := c.archs[k + 1..];
    forall i | 0 <= i < |c1.archs|
      ensures Holds(c1.bytes, c1.archs[i].desc.offset, Piece(c.bytes, Source(c.archs, k, i)))
    {
      if i < k {
        RemovedBefore(c, k, b1, c1.bytes, i);
      } else {
        assert tail[i - k] == c.archs[i + 1];
        RemovedAfter(c, k, b1, c1.bytes, i);
      }
    }
  }

  /** The loop ends with every later slice at its new offset and everything before the
      starting offset as it was after zeroing. */
  lemma {:induction false} StageMoved(c: Container, k: nat)
    requires FatLayout(c) && k < |c.archs|
    ensures MovedState(Zeroed(c, k), c.archs[k + 1..], Start(c, k), |c.archs| - k - 1, RemoveStage(c, k).bytes)
  {
    ZeroKeeps(c, k);
    RemoveTail(c, k);
    var b1 := Zeroed(c, k);
    var tail := c.archs[k + 1..];
    var start := Start(c, k);
    MovedStart(b1, tail, start);
    MovedAll(b1, tail, start, 0, b1);
  }

  /** A slice before the removed one keeps its offset and its bytes. */
  lemma {:induction false} RemovedBefore(c: Container, k: nat, b1: seq<byte>, m: seq<byte>, i: nat)
    requires i < k < |c.archs|
    requires End(c.archs[i].desc) <= Start(c, k) <= |c.bytes| == |b1|
    requires Holds(b1, c.archs[i].desc.offset, Piece(c.bytes, c.archs[i].desc))
    requires Holds(m, 0, b1[..Start(c, k)])
    ensures Holds(m, Remaining(c, k)[i].desc.offset, Piece(c.bytes, Source(c.archs, k, i)))
  {
    assert Remaining(c, k)[i] == c.archs[i];
    var d := c.archs[i].desc;
    HoldsInPrefix(b1, m, Start(c, k), d.offset, Piece(c.bytes, d));
  }

  /** A slice after the removed one holds its old bytes at its new offset. */
  lemma {:induction false} RemovedAfter(c: Container, k: nat, b1: seq<byte>, m: seq<byte>, i: nat)
    requires k <= i < |c.archs| - 1
    requires End(c.archs[i + 1].desc) <= |c.bytes|
    requires Holds(b1, c.archs[i + 1].desc.offset, Piece(c.bytes, c.archs[i + 1].desc))
    requires Holds(m, NewOffset(c.archs[k + 1..], Start(c, k), i - k), Piece(b1, c.archs[i + 1].desc))
    ensures Holds(m, Remaining(c, k)[i].desc.offset, Piece(c.bytes, Source(c.archs, k, i)))
  {
    var tail := c.archs[k + 1..];
    var j := i - k;
    assert tail[j] == c.archs[i + 1];
    assert Remaining(c, k)[i] == Relocated(tail, Start(c, k))[j];
    var d := c.archs[i + 1].desc;
    assert Piece(b1, d) == Piece(c.bytes, d);
  }

  /** Rewriting the header and table, then truncating to `end`, keeps bytes that lie
      after the table and before `end`. */
  lemma {:induction false} RewriteKeeps(c1: Container, end: nat, o: nat, d: seq<byte>)
    requires c1.isFat && c1.nArchs == |c1.archs| && |c1.archs| > 0 && TableEnd(c1) == end
    requires FAT_HEADER_SIZE + FAT_ARCH_SIZE * |c1.archs| <= o && o + |d| <= end
    requires Holds(c1.bytes, o, d)
    ensures Holds(Resize(WriteFatArchs(WriteFatHeader(c1)).bytes, end), o, d)
  {
    WriteTablesKeep(c1, o, d);
    HoldsAcrossResize(WriteFatArchs(WriteFatHeader(c1)).bytes, o, d, end);
  }

  /** Rewriting the header and table, then truncating to `end`, persists them. */
  lemma {:induction false} RewritePersists(c1: Container, end: nat)
    requires c1.isFat && c1.nArchs == |c1.archs| && |c1.bytes| == c1.fileSize
    requires |c1.archs| > 0 ==> TableEnd(c1) == end && FAT_HEADER_SIZE + FAT_ARCH_SIZE * |c1.archs| <= end
    requires |c1.archs| == 0 ==> end == FAT_HEADER_SIZE <= |c1.bytes|
    ensures Persisted(c1.(bytes := Resize(WriteFatArchs(WriteFatHeader(c1)).bytes, end)))
  {
    var c2 := WriteFatArchs(WriteFatHeader(c1));
    var r := Resize(c2.bytes, end);
    var hdr := EncodeFatHeader(c1.fatMagic, c1.nArchs);
    var tbl := EncodeFatTable(c1.archs, c1.fatMagic);
    if |c1.archs| > 0 {
      WriteTablesPersist(c1);
      HoldsAcrossResize(c2.bytes, 0, hdr, end);
      HoldsAcrossResize(c2.bytes, FAT_HEADER_SIZE, tbl, end);
    } else {
      var h := WriteFatHeader(c1);
      assert tbl == [];
      assert c2.bytes == Overwrite(h.bytes, FAT_HEADER_SIZE, tbl);
      HoldsAcrossWrite(h.bytes, 0, hdr, FAT_HEADER_SIZE, tbl);
      HoldsAcrossResize(c2.bytes, 0, hdr, end);
    }
  }

  /** What remove_arch leaves: a well laid out fat container that records the same
      magic, and that is in step with its header and table on disk, of one slice fewer;
      the slices before the removed one unchanged, the later ones moved down as far as
      their alignment allows (the file then ends just after the fat header when none is
      left), each kept slice's bytes at its new offset. */
  ghost predicate RemovedFrom(c: Container, k: nat, r: Container)
  {
    && k < |c.archs| && |r.archs| == |c.archs| - 1
    && (forall i :: 0 <= i < |c.archs| ==> End(c.archs[i].desc) <= |c.bytes|)
    && FatLayout(r) && Persisted(r) && r.fatMagic == c.fatMagic
    && (|r.archs| == 0 ==> r.fileSize == FAT_HEADER_SIZE)
    && Kept(c.archs, k, r.archs)
    && HoldsKept(c, k, r)
  }

  /** remove_arch on a well laid out fat container. */
  lemma {:induction false} RemoveArchLayout(c: Container, k: nat)
    requires FatLayout(c) && k < |c.archs|
    requires k == 0 && 1 < |c.archs| ==>
               FAT_HEADER_SIZE + FAT_ARCH_SIZE * (|c.archs| - 1) <= RoundUp(FAT_HEADER_SIZE, AlignOf(c.archs[1].desc))
    ensures RemovedFrom(c, k, RemoveArch(c, k))
  {
    RemainingLayout(c, k);
    RemainingEnd(c, k);
    RemoveArchParts(c, k);
    RemovedBytes(c, k);
    RemovedFromStage(c, k, RemoveStage(c, k), NewEnd(c, k), RemoveArch(c, k));
  }

  /** The room RemoveArchLayout asks for is needed: when the first slice goes and the
      next one's alignment is at most a descriptor's size, remove_arch moves that slice
      below the end of the descriptor table it then writes, and the result is not well
      laid out. */
  lemma {:induction false} RemoveFirstIntoTable(c: Container)
    requires FatLayout(c) && 2 <= |c.archs|
    requires AlignOf(c.archs[1].desc) <= FAT_ARCH_SIZE
    ensures var r := RemoveArch(c, 0);
            && r.archs[0].desc.offset == RoundUp(FAT_HEADER_SIZE, AlignOf(c.archs[1].desc))
            && r.archs[0].desc.offset < FAT_HEADER_SIZE + FAT_ARCH_SIZE * |r.archs|
            && !FatLayout(r)
  {
    var tail := c.archs[1..];
    assert tail[0] == c.archs[1];
    assert Placed(tail, FAT_HEADER_SIZE, 0) == FAT_HEADER_SIZE;
    assert RemoveArch(c, 0).archs[0] == Relocated(tail, Start(c, 0))[0];
  }

  /** How remove_arch's result is made from the stage before the header and table are
      rewritten. */
  lemma {:induction false} RemoveArchParts(c: Container, k: nat)
    requires FatLayout(c) && k < |c.archs|
    ensures forall i :: 0 <= i < |c.archs| ==> End(c.archs[i].desc) <= |c.bytes|
    ensures var c1 := RemoveStage(c, k);
            var r := RemoveArch(c, k);
            && r == c1.(bytes := Resize(WriteFatArchs(WriteFatHeader(c1)).bytes, NewEnd(c, k)), fileSize := NewEnd(c, k))
            && c1.archs == Remaining(c, k) && c1.isFat && c1.nArchs == |c1.archs|
            && c1.fatMagic == c.fatMagic
  {
    FatLayoutEnds(c);
  }

  /** The stage, its slices laid out and holding their bytes, becomes a container that
      is RemovedFrom `c` once the header and table are rewritten and the file is cut at
      `end`. */
  lemma {:induction false} RemovedFromStage(c: Container, k: nat, c1: Container, end: u32, r: Container)
    requires k < |c.archs| && c1.isFat && c1.nArchs == |c1.archs| && c1.fatMagic == c.fatMagic
    requires Kept(c.archs, k, c1.archs)
    requires Packed(c1.archs, FAT_HEADER_SIZE + FAT_ARCH_SIZE * (|c.archs| - 1))
    requires |c1.archs| == 0 ==> end == FAT_HEADER_SIZE <= |c1.bytes|
    requires |c1.archs| > 0 ==> End(c1.archs[|c1.archs| - 1].desc) == end
    requires |c1.bytes| == c1.fileSize
    requires HoldsKept(c, k, c1)
    requires r == c1.(bytes := Resize(WriteFatArchs(WriteFatHeader(c1)).bytes, end), fileSize := end)
    ensures RemovedFrom(c, k, r)
  {
    var rs := c1.archs;
    if |rs| > 0 {
      assert FAT_HEADER_SIZE + FAT_ARCH_SIZE * |rs| <= rs[|rs| - 1].desc.offset;
      assert TableEnd(c1) == end;
      KeptSizes(c.archs, k, rs);
      RewriteKeepsAll(c1, end, c, k, r);
    }
    RewritePersists(c1, end);
  }

  /** Rewriting the header and table, then truncating to the last slice's end, keeps
      every slice's bytes. */
  lemma {:induction false} RewriteKeepsAll(c1: Container, end: nat, c: Container, k: nat, r: Container)
    requires c1.isFat && c1.nArchs == |c1.archs| && 0 < |c1.archs| && TableEnd(c1) == end
    requires Packed(c1.archs, FAT_HEADER_SIZE + FAT_ARCH_SIZE * |c1.archs|)
    requires End(c1.archs[|c1.archs| - 1].desc) == end
    requires HoldsKept(c, k, c1)
    requires forall i :: 0 <= i < |c1.archs| ==> Source(c.archs, k, i).size == c1.archs[i].desc.size
    requires r.archs == c1.archs && r.bytes == Resize(WriteFatArchs(WriteFatHeader(c1)).bytes, end)
    ensures HoldsKept(c, k, r)
  {
    forall i | 0 <= i < |c1.archs|
      ensures Holds(r.bytes, r.archs[i].desc.offset, Piece(c.bytes, Source(c.archs, k, i)))
    {
      RewriteKeepsAt(c1, end, i, Piece(c.bytes, Source(c.archs, k, i)));
    }
  }

  lemma {:induction false} RewriteKeepsAt(c1: Container, end: nat, i: nat, d: seq<byte>)
    requires c1.isFat && c1.nArchs == |c1.archs| && i < |c1.archs| && TableEnd(c1) == end
    requires Packed(c1.archs, FAT_HEADER_SIZE + FAT_ARCH_SIZE * |c1.archs|)
    requires End(c1.archs[|c1.archs| - 1].desc) == end
    requires Holds(c1.bytes, c1.archs[i].desc.offset, d) && |d| == c1.archs[i].desc.size
    ensures Holds(Resize(WriteFatArchs(WriteFatHeader(c1)).bytes, end), c1.archs[i].desc.offset, d)
  {
    var last := |c1.archs| - 1;
    if i < last {
      assert End(c1.archs[i].desc) <= c1.archs[last].desc.offset;
    }
    RewriteKeeps(c1, end, c1.archs[i].desc.offset, d);
  }
}
