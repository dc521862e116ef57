/** v08_move_internal_md_after_resize: moving log and bitmap to the new end of a grown device. */
module ResizeMove {
  import opened BlockDevice
  import opened ChunkedMove

  /** --initialize-bitmap, as far as it matters for the trailing part of the moved bitmap. */
  datatype InitMode = ZeroOut | SetAll | Skip

  function FillByte(mode: InitMode): byte {
    if mode == SetAll then 0xff else 0
  }

  /** Byte offsets of the old and the new bitmap, log and superblock; al is the size of the log. */
  datatype Plan = Plan(oldBm: nat, oldLen: nat, oldSb: nat, newBm: nat, newLen: nat, newSb: nat, al: nat)
  {
    function OldAl(): int { oldSb - al }
    function NewAl(): int { newSb - al }

    /** Both regions are contiguous, and neither the superblock nor the bitmap shrinks. */
    predicate Valid() {
      && 0 < oldLen <= newLen && 0 < al
      && oldBm + oldLen + al == oldSb <= newSb
      && newBm + newLen + al == newSb
    }

    /** On a device of the given size, with a 4k superblock and a buffer that holds the log. */
    predicate Fits(size: nat, sb: seq<byte>, buf: nat) {
      Valid() && newSb + 4096 <= size && |sb| == 4096 <= buf && al <= buf
    }

    function WipeEnd(): int {
      if oldSb + 4096 > newBm then newBm else oldSb + 4096
    }

    /** The wipe is skipped unless the old superblock lies below the new bitmap. */
    function WipeStart(): int {
      if oldSb < newBm then oldBm else WipeEnd()
    }

    function TrailStart(mode: InitMode): int {
      if mode == Skip then newBm + newLen else newBm + oldLen
    }

    /** The log is written back to where it is, or above the old superblock. */
    predicate LogClear() {
      newSb == oldSb || oldSb + 4096 <= NewAl()
    }

    /** The bitmap is written back to where it is, or wholly below or above the old metadata. */
    predicate BitmapClear() {
      newBm == oldBm || newBm + oldLen <= oldBm || oldSb + 4096 <= newBm
    }

    /** The trailing part is not written at all, or above the old superblock. */
    predicate TrailClear(mode: InitMode) {
      mode == Skip || newLen == oldLen || oldSb + 4096 <= newBm + oldLen
    }

    /** No write in front of that of the superblock changes the old metadata. */
    predicate KeepsOld(mode: InitMode) {
      LogClear() && BitmapClear() && TrailClear(mode)
    }
  }

  // ---- the contents after each phase ----

  function LogMoved(d: seq<byte>, m: Plan): (r: seq<byte>)
    requires m.Valid() && m.newSb <= |d|
    ensures |r| == |d|
  {
    Blit(d, m.NewAl(), d[m.OldAl()..m.oldSb])
  }

  function BitmapMoved(d: seq<byte>, m: Plan, buf: nat): (r: seq<byte>)
    requires m.Valid() && m.newSb <= |d| && buf > 0
    ensures |r| == |d|
  {
    PeelEnd(LogMoved(d, m), m.oldBm, m.newBm, m.oldLen, buf)
  }

  function TrailFilled(d: seq<byte>, m: Plan, mode: InitMode, buf: nat): (r: seq<byte>)
    requires m.Valid() && m.newSb <= |d| && buf > 0
    ensures |r| == |d|
  {
    FillEnd(BitmapMoved(d, m, buf), m.TrailStart(mode), m.newBm + m.newLen, FillByte(mode))
  }

  function SuperblockWritten(d: seq<byte>, m: Plan, mode: InitMode, sb: seq<byte>, buf: nat): (r: seq<byte>)
    requires m.Fits(|d|, sb, buf)
    ensures |r| == |d|
  {
    Blit(TrailFilled(d, m, mode, buf), m.newSb, sb)
  }

  /** The contents at the end of the run. */
  function MoveEnd(d: seq<byte>, m: Plan, mode: InitMode, sb: seq<byte>, buf: nat): (r: seq<byte>)
    requires m.Fits(|d|, sb, buf)
    ensures |r| == |d|
  {
    FillEnd(SuperblockWritten(d, m, mode, sb, buf), m.WipeStart(), m.WipeEnd(), 0)
  }

  // ---- every image of a run ----

  function BitmapImages(d: seq<byte>, m: Plan, buf: nat): seq<seq<byte>>
    requires m.Valid() && m.newSb <= |d| && buf > 0
  {
    PeelImages(LogMoved(d, m), m.oldBm, m.newBm, m.oldLen, buf)
  }

  function TrailImages(d: seq<byte>, m: Plan, mode: InitMode, buf: nat): seq<seq<byte>>
    requires m.Valid() && m.newSb <= |d| && buf > 0
  {
    FillImages(BitmapMoved(d, m, buf), m.TrailStart(mode), m.newBm + m.newLen, FillByte(mode), buf)
  }

  function WipeImages(d: seq<byte>, m: Plan, mode: InitMode, sb: seq<byte>, buf: nat): seq<seq<byte>>
    requires m.Fits(|d|, sb, buf)
  {
    FillImages(SuperblockWritten(d, m, mode, sb, buf), m.WipeStart(), m.WipeEnd(), 0, buf)
  }

  /** What a crash can expose: the contents after each write, in order. */
  function MoveImages(d: seq<byte>, m: Plan, mode: InitMode, sb: seq<byte>, buf: nat): seq<seq<byte>>
    requires m.Fits(|d|, sb, buf)
  {
    [LogMoved(d, m)] + BitmapImages(d, m, buf) + TrailImages(d, m, mode, buf)
    + [SuperblockWritten(d, m, mode, sb, buf)] + WipeImages(d, m, mode, sb, buf)
  }

  // ---- what the run achieves ----

  /** The new log and bitmap are in place; only the new region was touched. */
  ghost predicate Moved(d: seq<byte>, m: Plan, mode: InitMode, r: seq<byte>)
    requires m.Valid() && m.newSb <= |d|
  {
    && SameOutside(d, r, m.newBm, m.newSb)
    && (forall i :: m.NewAl() <= i < m.newSb ==> r[i] == d[i - m.NewAl() + m.OldAl()])
    && (forall i :: m.newBm <= i < m.newBm + m.oldLen ==> r[i] == d[i - m.newBm + m.oldBm])
    && (forall i :: m.newBm + m.oldLen <= i < m.NewAl() ==> r[i] == if mode == Skip then d[i] else FillByte(mode))
  }

  /** The new superblock, log and bitmap are in place. */
  ghost predicate NewComplete(d: seq<byte>, m: Plan, mode: InitMode, sb: seq<byte>, r: seq<byte>)
    requires m.Valid() && m.newSb + 4096 <= |d|
  {
    && |r| == |d|
    && r[m.newSb..m.newSb + 4096] == sb
    && (forall i :: m.NewAl() <= i < m.newSb ==> r[i] == d[i - m.NewAl() + m.OldAl()])
    && (forall i :: m.newBm <= i < m.newBm + m.oldLen ==> r[i] == d[i - m.newBm + m.oldBm])
    && (forall i :: m.newBm + m.oldLen <= i < m.NewAl() ==>
          r[i] == match mode case ZeroOut => 0 case SetAll => 0xff case Skip => d[i])
  }

  /** The old region is wiped if the old superblock lies below the new bitmap, as far as it lies below the new
      region; nothing else outside the new region changed. */
  ghost predicate OldWiped(d: seq<byte>, m: Plan, r: seq<byte>)
    requires m.Valid() && m.newSb + 4096 <= |d|
  {
    && |r| == |d|
    && forall i :: 0 <= i < |d| && !(m.newBm <= i < m.newSb + 4096) ==>
          r[i] == if m.oldSb < m.newBm && m.oldBm <= i < m.oldSb + 4096 then 0 else d[i]
  }

  lemma BitmapMovedIsBlit(d: seq<byte>, m: Plan, buf: nat)
    requires m.Valid() && m.newSb <= |d| && buf > 0 && PeelSafe(m.oldBm, m.newBm, m.oldLen, buf)
    ensures BitmapMoved(d, m, buf) == Blit(LogMoved(d, m), m.newBm, d[m.oldBm..m.oldBm + m.oldLen])
  {
    PeelCorrect(LogMoved(d, m), m.oldBm, m.newBm, m.oldLen, buf);
    assert LogMoved(d, m)[m.oldBm..m.oldBm + m.oldLen] == d[m.oldBm..m.oldBm + m.oldLen];
  }

  lemma BitmapMovedIsMoved(d: seq<byte>, m: Plan, buf: nat)
    requires m.Valid() && m.newSb <= |d| && buf > 0 && PeelSafe(m.oldBm, m.newBm, m.oldLen, buf)
    ensures Moved(d, m, Skip, BitmapMoved(d, m, buf))
  {
    BitmapMovedIsBlit(d, m, buf);
    BlitBytes(d, m.NewAl(), d, m.OldAl(), m.al);
    BlitBytes(LogMoved(d, m), m.newBm, d, m.oldBm, m.oldLen);
    LogAndBitmapPlaced(d, m, LogMoved(d, m), BitmapMoved(d, m, buf));
  }

  lemma TrailFilledIsMoved(d: seq<byte>, m: Plan, mode: InitMode, buf: nat)
    requires m.Valid() && m.newSb <= |d| && buf > 0 && PeelSafe(m.oldBm, m.newBm, m.oldLen, buf)
    ensures Moved(d, m, mode, TrailFilled(d, m, mode, buf))
  {
    BitmapMovedIsMoved(d, m, buf);
    TrailPlaced(d, m, mode, BitmapMoved(d, m, buf));
  }

  /** First the log, then the bitmap, byte by byte. */
  lemma LogAndBitmapPlaced(d: seq<byte>, m: Plan, l: seq<byte>, r: seq<byte>)
    requires m.Valid() && m.newSb <= |d| && |l| == |d| && |r| == |d|
    requires forall i {:trigger l[i]} :: 0 <= i < |d| ==>
               l[i] == if m.NewAl() <= i < m.NewAl() + m.al then d[i - m.NewAl() + m.OldAl()] else d[i]
    requires forall i {:trigger r[i]} :: 0 <= i < |d| ==>
               r[i] == if m.newBm <= i < m.newBm + m.oldLen then d[i - m.newBm + m.oldBm] else l[i]
    ensures Moved(d, m, Skip, r)
  {
    assert m.newBm + m.newLen == m.NewAl() && m.NewAl() + m.al == m.newSb;
  }

  lemma TrailPlaced(d: seq<byte>, m: Plan, mode: InitMode, r: seq<byte>)
    requires m.Valid() && m.newSb <= |d| && Moved(d, m, Skip, r)
    ensures Moved(d, m, mode, FillEnd(r, m.TrailStart(mode), m.newBm + m.newLen, FillByte(mode)))
  {
  }

  lemma SuperblockPlaced(d: seq<byte>, m: Plan, mode: InitMode, sb: seq<byte>, r: seq<byte>)
    requires m.Valid() && m.newSb + 4096 <= |d| && |sb| == 4096 && Moved(d, m, mode, r)
    ensures NewComplete(d, m, mode, sb, Blit(r, m.newSb, sb))
    ensures SameOutside(d, Blit(r, m.newSb, sb), m.newBm, m.newSb + 4096)
  {
  }

  lemma OldRegionWiped(d: seq<byte>, m: Plan, r: seq<byte>)
    requires m.Valid() && m.newSb + 4096 <= |d| && SameOutside(d, r, m.newBm, m.newSb + 4096)
    ensures OldWiped(d, m, FillEnd(r, m.WipeStart(), m.WipeEnd(), 0))
    ensures SameOutside(r, FillEnd(r, m.WipeStart(), m.WipeEnd(), 0), m.WipeStart(), m.WipeEnd())
  {
  }

  /** Whatever the wipe does leaves the new metadata complete. */
  lemma WipeKeepsNew(d: seq<byte>, m: Plan, mode: InitMode, sb: seq<byte>, r: seq<byte>, r': seq<byte>)
    requires m.Valid() && m.newSb + 4096 <= |d| && NewComplete(d, m, mode, sb, r)
    requires SameOutside(r, r', m.WipeStart(), m.WipeEnd())
    ensures NewComplete(d, m, mode, sb, r')
  {
  }

  /** Log and bitmap arrive byte for byte, the trailing bitmap has the chosen fill, the old region is
      wiped as far as it lies below the new one, and nothing else changes. */
  lemma MoveResult(d: seq<byte>, m: Plan, mode: InitMode, sb: seq<byte>, buf: nat)
    requires m.Fits(|d|, sb, buf) && PeelSafe(m.oldBm, m.newBm, m.oldLen, buf)
    ensures NewComplete(d, m, mode, sb, MoveEnd(d, m, mode, sb, buf))
    ensures OldWiped(d, m, MoveEnd(d, m, mode, sb, buf))
  {
    TrailFilledIsMoved(d, m, mode, buf);
    SuperblockPlaced(d, m, mode, sb, TrailFilled(d, m, mode, buf));
    OldRegionWiped(d, m, SuperblockWritten(d, m, mode, sb, buf));
    WipeKeepsNew(d, m, mode, sb, SuperblockWritten(d, m, mode, sb, buf), MoveEnd(d, m, mode, sb, buf));
  }

  /** If the new bitmap starts below the old one and several buffers are needed, some contents arrive corrupted. */
  lemma MoveCorrupts(size: nat, m: Plan, mode: InitMode, sb: seq<byte>, buf: nat) returns (d: seq<byte>)
    requires m.Fits(size, sb, buf) && !PeelSafe(m.oldBm, m.newBm, m.oldLen, buf)
    ensures |d| == size && !NewComplete(d, m, mode, sb, MoveEnd(d, m, mode, sb, buf))
  {
    var src, dst, len := m.oldBm, m.newBm, m.oldLen;
    var x := if src < dst + len - buf then dst + len - buf else src;
    d := Repeat(0, size)[x + src - dst := 1];
    var y, d2 := dst + x - src, BitmapMoved(d, m, buf);
    LogOfZeros(d, m, x + src - dst);
    PeelSmears(d, src, dst, len, buf, x);
    assert d2[y] == 1;
    LaterKept(d, m, mode, sb, buf, y);
    assert d[y - m.newBm + m.oldBm] == d[x] == 0;
  }

  lemma LogOfZeros(d: seq<byte>, m: Plan, one: nat)
    requires m.Valid() && m.newSb <= |d| && m.oldBm <= one < m.OldAl()
    requires forall i :: 0 <= i < |d| && i != one ==> d[i] == 0
    ensures LogMoved(d, m) == d
  {
  }

  /** No later phase touches what the bitmap loop has put into the new bitmap. */
  lemma LaterKept(d: seq<byte>, m: Plan, mode: InitMode, sb: seq<byte>, buf: nat, y: nat)
    requires m.Fits(|d|, sb, buf) && m.newBm <= y < m.newBm + m.oldLen
    ensures MoveEnd(d, m, mode, sb, buf)[y] == BitmapMoved(d, m, buf)[y]
  {
  }

  /** So the operation delivers superblock, log and bitmap whatever the disk holds exactly under that condition. */
  lemma MoveExactly(size: nat, m: Plan, mode: InitMode, sb: seq<byte>, buf: nat)
    requires m.Fits(size, sb, buf)
    ensures PeelSafe(m.oldBm, m.newBm, m.oldLen, buf)
            <==> forall d: seq<byte> | |d| == size :: NewComplete(d, m, mode, sb, MoveEnd(d, m, mode, sb, buf))
  {
    if PeelSafe(m.oldBm, m.newBm, m.oldLen, buf) {
      forall d: seq<byte> | |d| == size
        ensures NewComplete(d, m, mode, sb, MoveEnd(d, m, mode, sb, buf))
      {
        MoveResult(d, m, mode, sb, buf);
      }
    } else {
      var d := MoveCorrupts(size, m, mode, sb, buf);
    }
  }

  // ---- crashes ----

  ghost predicate OldIntact(d: seq<byte>, m: Plan, r: seq<byte>)
    requires m.Valid() && m.newSb + 4096 <= |d|
  {
    |r| == |d| && forall i :: m.oldBm <= i < m.oldSb + 4096 ==> r[i] == d[i]
  }

  /** A crash that leaves r behind loses neither the old nor the new metadata. */
  ghost predicate Recoverable(d: seq<byte>, m: Plan, mode: InitMode, sb: seq<byte>, r: seq<byte>)
    requires m.Valid() && m.newSb + 4096 <= |d|
  {
    OldIntact(d, m, r) || NewComplete(d, m, mode, sb, r)
  }

  ghost predicate CrashSafe(d: seq<byte>, m: Plan, mode: InitMode, sb: seq<byte>, buf: nat)
    requires m.Fits(|d|, sb, buf)
  {
    forall k :: 0 <= k < |MoveImages(d, m, mode, sb, buf)| ==>
                  Recoverable(d, m, mode, sb, MoveImages(d, m, mode, sb, buf)[k])
  }

  /** Before the superblock is written, only the new bitmap and log change. */
  lemma BeforeSuperblock(d: seq<byte>, m: Plan, mode: InitMode, buf: nat)
    requires m.Valid() && m.newSb <= |d| && buf > 0
    ensures SameOutside(d, LogMoved(d, m), m.newBm, m.newSb)
    ensures AllSameOutside(d, BitmapImages(d, m, buf), m.newBm, m.newSb)
    ensures AllSameOutside(d, TrailImages(d, m, mode, buf), m.newBm, m.newSb)
    ensures SameOutside(d, TrailFilled(d, m, mode, buf), m.newBm, m.newSb)
  {
    var d1, d2 := LogMoved(d, m), BitmapMoved(d, m, buf);
    BlitOutside(d, m.NewAl(), d[m.OldAl()..m.oldSb], m.newBm, m.newSb);
    PeelShape(d1, m.oldBm, m.newBm, m.oldLen, buf);
    AllSameOutsideFrom(d, d1, BitmapImages(d, m, buf), m.newBm, m.newSb, m.newBm, m.newBm + m.oldLen);
    assert d2 == BitmapImages(d, m, buf)[|BitmapImages(d, m, buf)| - 1];
    FillShape(d2, m.TrailStart(mode), m.newBm + m.newLen, FillByte(mode), buf);
    AllSameOutsideFrom(d, d2, TrailImages(d, m, mode, buf), m.newBm, m.newSb, m.TrailStart(mode), m.newBm + m.newLen);
    TrailOutside(d, d2, m, mode);
  }

  lemma TrailOutside(d: seq<byte>, d2: seq<byte>, m: Plan, mode: InitMode)
    requires m.Valid() && m.newSb <= |d| && SameOutside(d, d2, m.newBm, m.newSb)
    ensures SameOutside(d, FillEnd(d2, m.TrailStart(mode), m.newBm + m.newLen, FillByte(mode)), m.newBm, m.newSb)
  {
  }

  /** Writes outside the old metadata leave it as it was. */
  lemma IntactOutside(d: seq<byte>, m: Plan, before: seq<byte>, r: seq<byte>, lo: nat, hi: nat)
    requires m.Valid() && m.newSb + 4096 <= |d| && OldIntact(d, m, before)
    requires SameOutside(before, r, lo, hi) && (hi <= m.oldBm || m.oldSb + 4096 <= lo)
    ensures OldIntact(d, m, r)
  {
  }

  lemma LogKeepsOld(d: seq<byte>, m: Plan)
    requires m.Valid() && m.newSb + 4096 <= |d| && m.LogClear()
    ensures OldIntact(d, m, LogMoved(d, m))
  {
    if m.newSb == m.oldSb {
      assert LogMoved(d, m) == d;
    } else {
      BlitOutside(d, m.NewAl(), d[m.OldAl()..m.oldSb], m.NewAl(), m.newSb);
    }
  }

  lemma BitmapKeepsOld(d: seq<byte>, m: Plan, buf: nat, r: seq<byte>)
    requires m.Valid() && m.newSb + 4096 <= |d| && buf > 0 && m.LogClear() && m.BitmapClear()
    requires r in BitmapImages(d, m, buf)
    ensures OldIntact(d, m, r)
  {
    LogKeepsOld(d, m);
    if m.newBm == m.oldBm {
      PeelInPlace(LogMoved(d, m), m.oldBm, m.oldLen, buf, r);
    } else {
      PeelShape(LogMoved(d, m), m.oldBm, m.newBm, m.oldLen, buf);
      IntactOutside(d, m, LogMoved(d, m), r, m.newBm, m.newBm + m.oldLen);
    }
  }

  lemma TrailKeepsOld(d: seq<byte>, m: Plan, mode: InitMode, buf: nat, r: seq<byte>)
    requires m.Valid() && m.newSb + 4096 <= |d| && buf > 0 && m.KeepsOld(mode)
    requires r in TrailImages(d, m, mode, buf)
    ensures OldIntact(d, m, r)
  {
    PeelShape(LogMoved(d, m), m.oldBm, m.newBm, m.oldLen, buf);
    BitmapKeepsOld(d, m, buf, BitmapMoved(d, m, buf));
    FillShape(BitmapMoved(d, m, buf), m.TrailStart(mode), m.newBm + m.newLen, FillByte(mode), buf);
    IntactOutside(d, m, BitmapMoved(d, m, buf), r, m.TrailStart(mode), m.newBm + m.newLen);
  }

  /** If the old metadata is kept until the new superblock is there, every crash point is recoverable. */
  lemma CrashSafeWhenClear(d: seq<byte>, m: Plan, mode: InitMode, sb: seq<byte>, buf: nat)
    requires m.Fits(|d|, sb, buf) && m.KeepsOld(mode)
    ensures CrashSafe(d, m, mode, sb, buf)
  {
    TrailFilledIsMoved(d, m, mode, buf);
    var d4, wipe := SuperblockWritten(d, m, mode, sb, buf), WipeImages(d, m, mode, sb, buf);
    SuperblockPlaced(d, m, mode, sb, TrailFilled(d, m, mode, buf));
    FillShape(d4, m.WipeStart(), m.WipeEnd(), 0, buf);
    forall r | r in wipe
      ensures NewComplete(d, m, mode, sb, r)
    {
      WipeKeepsNew(d, m, mode, sb, d4, r);
    }
    forall k | 0 <= k < |MoveImages(d, m, mode, sb, buf)|
      ensures Recoverable(d, m, mode, sb, MoveImages(d, m, mode, sb, buf)[k])
    {
      var r := MoveImages(d, m, mode, sb, buf)[k];
      ImageKinds(d, m, mode, sb, buf, r);
      if r == LogMoved(d, m) {
        LogKeepsOld(d, m);
      } else if r in BitmapImages(d, m, buf) {
        BitmapKeepsOld(d, m, buf, r);
      } else if r in TrailImages(d, m, mode, buf) {
        TrailKeepsOld(d, m, mode, buf, r);
      }
    }
  }

  lemma ImageKinds(d: seq<byte>, m: Plan, mode: InitMode, sb: seq<byte>, buf: nat, r: seq<byte>)
    requires m.Fits(|d|, sb, buf)
    ensures r in MoveImages(d, m, mode, sb, buf) <==>
            || r == LogMoved(d, m) || r in BitmapImages(d, m, buf) || r in TrailImages(d, m, mode, buf)
            || r == SuperblockWritten(d, m, mode, sb, buf) || r in WipeImages(d, m, mode, sb, buf)
  {
  }

  lemma TrailFilledIsImage(d: seq<byte>, m: Plan, mode: InitMode, sb: seq<byte>, buf: nat)
    requires m.Fits(|d|, sb, buf)
    ensures TrailFilled(d, m, mode, buf) in MoveImages(d, m, mode, sb, buf)
  {
    PeelShape(LogMoved(d, m), m.oldBm, m.newBm, m.oldLen, buf);
    FillLast(BitmapMoved(d, m, buf), m.TrailStart(mode), m.newBm + m.newLen, FillByte(mode), buf);
    ImageKinds(d, m, mode, sb, buf, TrailFilled(d, m, mode, buf));
  }

  lemma {:induction false} FillLast(d: seq<byte>, off: nat, end: int, v: byte, buf: nat)
    requires buf > 0 && end <= |d|
    ensures if off < end then FillEnd(d, off, end, v) in FillImages(d, off, end, v, buf)
            else FillEnd(d, off, end, v) == d
    decreases end - off
  {
    if off < end {
      var chunk := if end - off > buf then buf else end - off;
      FillStep(d, off, chunk, end, v);
      FillLast(Blit(d, off, Repeat(v, chunk)), off + chunk, end, v, buf);
    }
  }

  /** The image has neither: a byte of the old metadata has changed, and the new superblock is not there. */
  lemma NeitherComplete(d: seq<byte>, m: Plan, mode: InitMode, sb: seq<byte>, buf: nat, r: seq<byte>, to: nat)
    requires m.Fits(|d|, sb, buf) && r in MoveImages(d, m, mode, sb, buf) && SameOutside(d, r, m.newBm, m.newSb)
    requires m.oldBm <= to < m.oldSb + 4096 && to < |d| && r[to] != d[to] && d[m.newSb] != sb[0]
    ensures !CrashSafe(d, m, mode, sb, buf)
  {
    assert r[m.newSb..m.newSb + 4096][0] == r[m.newSb] == d[m.newSb];
    assert !Recoverable(d, m, mode, sb, r);
  }

  /** Zeros, except for one byte, and without the new superblock. */
  function Witness(size: nat, one: nat, v: byte, m: Plan, sb: seq<byte>): (d: seq<byte>)
    requires one < m.newSb < size && |sb| > 0
    ensures |d| == size && d[one] == v && d[m.newSb] != sb[0]
    ensures forall i :: 0 <= i < size && i != one && i != m.newSb ==> d[i] == 0
  {
    Repeat(0, size)[one := v][m.newSb := if sb[0] == 0 then 1 else 0]
  }

  lemma LogLoses(size: nat, m: Plan, mode: InitMode, sb: seq<byte>, buf: nat) returns (d: seq<byte>)
    requires m.Fits(size, sb, buf) && !m.LogClear()
    ensures |d| == size && !CrashSafe(d, m, mode, sb, buf)
  {
    d := Witness(size, m.OldAl(), 1, m, sb);
    BeforeSuperblock(d, m, mode, buf);
    BlitBytes(d, m.NewAl(), d, m.OldAl(), m.al);
    ImageKinds(d, m, mode, sb, buf, LogMoved(d, m));
    assert LogMoved(d, m)[m.NewAl()] == d[m.OldAl()];
    NeitherComplete(d, m, mode, sb, buf, LogMoved(d, m), m.NewAl());
  }

  /** A byte of the bitmap that arrives within the old metadata, and where it comes from. */
  lemma BitmapLands(d: seq<byte>, m: Plan, buf: nat) returns (to: nat, from: nat)
    requires m.Valid() && m.newSb <= |d| && buf > 0 && !m.BitmapClear()
    ensures m.oldBm <= to < m.oldSb + 4096 && m.newBm <= to < m.newBm + m.oldLen && from != to
    ensures from == (if m.newBm < m.oldBm then m.oldBm + m.oldLen - 1 else m.oldBm)
    ensures BitmapMoved(d, m, buf)[to] == d[from]
  {
    if m.newBm < m.oldBm {
      to, from := m.newBm + m.oldLen - 1, m.oldBm + m.oldLen - 1;
      PeelUntouched(LogMoved(d, m), m.oldBm, m.newBm, m.oldLen, buf, from);
      BlitOutside(d, m.NewAl(), d[m.OldAl()..m.oldSb], m.NewAl(), m.newSb);
    } else {
      to, from := m.newBm, m.oldBm;
      BitmapMovedIsMoved(d, m, buf);
    }
  }

  lemma BitmapLoses(size: nat, m: Plan, mode: InitMode, sb: seq<byte>, buf: nat) returns (d: seq<byte>)
    requires m.Fits(size, sb, buf) && !m.BitmapClear()
    ensures |d| == size && !CrashSafe(d, m, mode, sb, buf)
  {
    d := Witness(size, if m.newBm < m.oldBm then m.oldBm + m.oldLen - 1 else m.oldBm, 1, m, sb);
    var r := BitmapMoved(d, m, buf);
    var to, from := BitmapLands(d, m, buf);
    BeforeSuperblock(d, m, mode, buf);
    PeelShape(LogMoved(d, m), m.oldBm, m.newBm, m.oldLen, buf);
    assert r in BitmapImages(d, m, buf);
    ImageKinds(d, m, mode, sb, buf, r);
    NeitherComplete(d, m, mode, sb, buf, r, to);
  }

  lemma TrailLoses(size: nat, m: Plan, mode: InitMode, sb: seq<byte>, buf: nat) returns (d: seq<byte>)
    requires m.Fits(size, sb, buf) && !m.TrailClear(mode)
    ensures |d| == size && !CrashSafe(d, m, mode, sb, buf)
  {
    var to := if m.newBm + m.oldLen < m.oldBm then m.oldBm else m.newBm + m.oldLen;
    d := Witness(size, to, if FillByte(mode) == 0 then 1 else 0, m, sb);
    BeforeSuperblock(d, m, mode, buf);
    TrailFilledIsImage(d, m, mode, sb, buf);
    assert TrailFilled(d, m, mode, buf)[to] == FillByte(mode);
    NeitherComplete(d, m, mode, sb, buf, TrailFilled(d, m, mode, buf), to);
  }

  /** The move survives a crash at every point, whatever the disk holds, exactly if no write in front of that of the
      superblock changes the old metadata. */
  lemma CrashSafeExactly(size: nat, m: Plan, mode: InitMode, sb: seq<byte>, buf: nat)
    requires m.Fits(size, sb, buf)
    ensures m.KeepsOld(mode) <==> forall d: seq<byte> | |d| == size :: CrashSafe(d, m, mode, sb, buf)
  {
    if m.KeepsOld(mode) {
      forall d: seq<byte> | |d| == size
        ensures CrashSafe(d, m, mode, sb, buf)
      {
        CrashSafeWhenClear(d, m, mode, sb, buf);
      }
    } else if !m.LogClear() {
      var d := LogLoses(size, m, mode, sb, buf);
    } else if !m.BitmapClear() {
      var d := BitmapLoses(size, m, mode, sb, buf);
    } else {
      var d := TrailLoses(size, m, mode, sb, buf);
    }
  }

  /** If the superblock moves up, and the bitmap up or not at all, that means that the old superblock lies below the
      new bitmap. */
  lemma KeepsOldMeaning(m: Plan, mode: InitMode)
    requires m.Valid() && m.oldSb < m.newSb && m.oldBm <= m.newBm
    requires m.oldSb % 4096 == 0 && m.newBm % 4096 == 0
    requires m.newBm == m.oldBm ==> m.newSb - m.oldSb <= m.al
    ensures m.KeepsOld(mode) <==> m.oldSb < m.newBm
  {
  }

  // ---- the writes ----

  /** md_cpu_to_disk: the superblock goes out as one 4k write. */
  method WriteSuperblock(disk: Disk, buffer: array<byte>, sb: seq<byte>, off: nat)
    requires buffer != disk.data && |sb| == 4096 <= buffer.Length && off + 4096 <= disk.data.Length
    modifies disk, disk.data, buffer
    ensures disk.Contents() == Blit(old(disk.Contents()), off, sb)
    ensures disk.images == old(disk.images) + [disk.Contents()]
  {
    for i := 0 to 4096
      modifies buffer
      invariant buffer[..i] == sb[..i]
    {
      buffer[i] := sb[i];
    }
    assert buffer[..4096] == sb;
    disk.PWrite(buffer, 4096, off);
  }

  lemma NoTrailNoWipe(d: seq<byte>, m: Plan, mode: InitMode, sb: seq<byte>, buf: nat)
    requires m.Fits(|d|, sb, buf)
    ensures mode == Skip ==>
              TrailFilled(d, m, mode, buf) == BitmapMoved(d, m, buf) && TrailImages(d, m, mode, buf) == []
    ensures m.newBm <= m.oldSb ==>
              && MoveEnd(d, m, mode, sb, buf) == SuperblockWritten(d, m, mode, sb, buf)
              && WipeImages(d, m, mode, sb, buf) == []
  {
  }

  /** Every write of the operation, in order. */
  method WriteAll(disk: Disk, buffer: array<byte>, m: Plan, mode: InitMode, sb: seq<byte>)
    requires m.Fits(disk.data.Length, sb, buffer.Length) && buffer != disk.data
    modifies disk, disk.data, buffer
    ensures disk.Contents() == MoveEnd(old(disk.Contents()), m, mode, sb, buffer.Length)
    ensures disk.images == old(disk.images) + MoveImages(old(disk.Contents()), m, mode, sb, buffer.Length)
  {
    ghost var d, buf, before := disk.Contents(), buffer.Length, disk.images;
    NoTrailNoWipe(d, m, mode, sb, buf);
    WriteLogAndBitmap(disk, buffer, m, mode);
    ghost var done := [LogMoved(d, m)] + BitmapImages(d, m, buf) + TrailImages(d, m, mode, buf);

    WriteSuperblock(disk, buffer, sb, m.newSb);
    Reassociate(before, done, [SuperblockWritten(d, m, mode, sb, buf)]);
    done := done + [SuperblockWritten(d, m, mode, sb, buf)];

    if m.oldSb < m.newBm {
      FillRange(disk, buffer, m.oldBm, m.WipeEnd(), 0);
    }
    Reassociate(before, done, WipeImages(d, m, mode, sb, buf));
  }

  /** The trailing part, unless it is to be left alone. */
  method WriteTrail(disk: Disk, buffer: array<byte>, m: Plan, mode: InitMode, ghost d: seq<byte>)
    requires m.Valid() && m.newSb <= disk.data.Length == |d| && buffer.Length > 0 && buffer != disk.data
    requires disk.Contents() == BitmapMoved(d, m, buffer.Length)
    modifies disk, disk.data, buffer
    ensures disk.Contents() == TrailFilled(d, m, mode, buffer.Length)
    ensures disk.images == old(disk.images) + TrailImages(d, m, mode, buffer.Length)
  {
    hide BitmapMoved;
    if mode != Skip {
      FillRange(disk, buffer, m.newBm + m.oldLen, m.newBm + m.newLen, FillByte(mode));
    }
  }

  /** Log, bitmap and the trailing part of the bitmap. */
  method WriteLogAndBitmap(disk: Disk, buffer: array<byte>, m: Plan, mode: InitMode)
    requires m.Valid() && m.newSb <= disk.data.Length && m.al <= buffer.Length && buffer != disk.data
    modifies disk, disk.data, buffer
    ensures disk.Contents() == TrailFilled(old(disk.Contents()), m, mode, buffer.Length)
    ensures disk.images == old(disk.images) + ([LogMoved(old(disk.Contents()), m)]
              + BitmapImages(old(disk.Contents()), m, buffer.Length)
              + TrailImages(old(disk.Contents()), m, mode, buffer.Length))
  {
    ghost var d, buf, before := disk.Contents(), buffer.Length, disk.images;
    // the log keeps its size and stays in front of the superblock
    MoveChunk(disk, buffer, m.al, m.OldAl(), m.NewAl());
    assert disk.Contents() == LogMoved(d, m);
    ghost var done := [LogMoved(d, m)];

    PeelMove(disk, buffer, m.oldBm, m.OldAl(), m.newBm);
    Reassociate(before, done, BitmapImages(d, m, buf));
    done := done + BitmapImages(d, m, buf);

    WriteTrail(disk, buffer, m, mode, d);
    Reassociate(before, done, TrailImages(d, m, mode, buf));
  }
}
