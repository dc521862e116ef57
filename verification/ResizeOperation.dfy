/** The resize move on a device of given old and new size: which offsets it works with, and what that guarantees. */
module ResizeOperation {
  import opened Arith
  import opened BlockDevice
  import opened ChunkedMove
  import opened Layout
  import opened ResizeMove

  function PlanFrom(oldSb: nat, oldLen: nat, newSb: nat, newLen: nat, al: nat): Plan
    requires oldLen + al <= oldSb && newLen + al <= newSb
  {
    Plan(oldSb - al - oldLen, oldLen, oldSb, newSb - al - newLen, newLen, newSb, al)
  }

  /** A layout that fits at the last known and at the present end of the device. */
  predicate Growing(g: Geometry, oldSize: nat, newSize: nat) {
    && ValidGeometry(g)
    && 4096 <= oldSize <= newSize && newSize / 512 <= MAX_SECTORS
    && RegionBytes(g, oldSize) <= MdByteOffset(FlexInternal, oldSize)
    && RegionBytes(g, newSize) <= MdByteOffset(FlexInternal, newSize)
  }

  /** The regions of flexible internal metadata before and after the device grew. */
  function PlanFor(g: Geometry, oldSize: nat, newSize: nat): Plan
    requires Growing(g, oldSize, newSize)
  {
    PlanFrom(MdByteOffset(FlexInternal, oldSize), BmBytes(g.bytesPerBit, g.maxPeers, oldSize / 512),
             MdByteOffset(FlexInternal, newSize), BmBytes(g.bytesPerBit, g.maxPeers, newSize / 512), g.alBlocks * 4096)
  }

  lemma PlanFromValid(oldSb: nat, oldLen: nat, newSb: nat, newLen: nat, al: nat)
    requires oldLen + al <= oldSb && newLen + al <= newSb && 0 < oldLen <= newLen && 0 < al && oldSb <= newSb
    requires oldSb % 4096 == 0 && newSb % 4096 == 0 && newLen % 4096 == 0 && al % 4096 == 0
    ensures var m := PlanFrom(oldSb, oldLen, newSb, newLen, al);
            m.Valid() && m.newBm % 4096 == 0
  {
  }

  lemma RegionFacts(g: Geometry, size: nat)
    requires ValidGeometry(g) && 4096 <= size
    ensures RegionBytes(g, size) == BmBytes(g.bytesPerBit, g.maxPeers, size / 512) + g.alBlocks * 4096
    ensures (g.alBlocks * 4096) % 4096 == 0 && 32768 <= g.alBlocks * 4096
    ensures BmBytes(g.bytesPerBit, g.maxPeers, size / 512) % 4096 == 0
    ensures 0 < BmBytes(g.bytesPerBit, g.maxPeers, size / 512)
  {
    BmBytesViaWords(g.bytesPerBit, g.maxPeers, size / 512);
    BmBytesPositive(g.bytesPerBit, g.maxPeers, size / 512);
  }

  lemma SuperblockMonotone(oldSize: nat, newSize: nat)
    requires 4096 <= oldSize <= newSize && newSize / 512 <= MAX_SECTORS
    ensures MdByteOffset(FlexInternal, oldSize) <= MdByteOffset(FlexInternal, newSize) <= newSize - 4096
    ensures MdByteOffset(FlexInternal, oldSize) % 4096 == 0 && MdByteOffset(FlexInternal, newSize) % 4096 == 0
  {
    FlexSuperblock(oldSize);
    FlexSuperblock(newSize);
    DivMonotone(oldSize, newSize, 4096);
  }

  lemma PlanIsValid(g: Geometry, oldSize: nat, newSize: nat)
    requires Growing(g, oldSize, newSize)
    ensures var m := PlanFor(g, oldSize, newSize);
            && m.Valid() && m.newSb + 4096 <= newSize
            && m.oldSb % 4096 == 0 && m.newBm % 4096 == 0 && 32768 <= m.al
  {
    SuperblockMonotone(oldSize, newSize);
    RegionFacts(g, oldSize);
    RegionFacts(g, newSize);
    BmBytesMonotone(g.bytesPerBit, g.maxPeers, oldSize / 512, newSize / 512);
    PlanFromValid(MdByteOffset(FlexInternal, oldSize), BmBytes(g.bytesPerBit, g.maxPeers, oldSize / 512),
                  MdByteOffset(FlexInternal, newSize), BmBytes(g.bytesPerBit, g.maxPeers, newSize / 512),
                  g.alBlocks * 4096);
  }

  lemma AlignedGrowth(g: Geometry, oldSize: nat, newSize: nat)
    requires ValidGeometry(g) && oldSize <= newSize && (newSize - oldSize) % 4096 == 0
    ensures var grown := BmBytes(g.bytesPerBit, g.maxPeers, newSize / 512)
                         - BmBytes(g.bytesPerBit, g.maxPeers, oldSize / 512);
            && 0 <= grown <= newSize - oldSize
            && (newSize - oldSize > 4096 ==> grown < newSize - oldSize)
  {
    var s, blocks := oldSize / 512, (newSize - oldSize) / 4096;
    assert newSize - oldSize == 4096 * blocks && newSize / 512 == s + 8 * blocks;
    if blocks < 2 {
      BmBytesGrowth(g.bytesPerBit, g.maxPeers, s, blocks);
    } else {
      BmBytesStep(g.bytesPerBit, g.maxPeers, s, 2);
      assert s + 8 * blocks == s + 16 + 8 * (blocks - 2);
      BmBytesGrowth(g.bytesPerBit, g.maxPeers, s + 16, blocks - 2);
    }
  }

  /** For growth by a multiple of 4k the bitmap never moves down, so the chunked move is correct; and if it
      stays in place, the device grew by no more than the size of the log. */
  lemma AlignedPlan(g: Geometry, oldSize: nat, newSize: nat)
    requires Growing(g, oldSize, newSize) && (newSize - oldSize) % 4096 == 0
    ensures var m := PlanFor(g, oldSize, newSize);
            && m.newSb - m.oldSb == newSize - oldSize
            && m.oldBm <= m.newBm
            && (m.newBm == m.oldBm ==> m.newSb - m.oldSb <= m.al)
  {
    FlexSuperblock(oldSize);
    FlexSuperblock(newSize);
    RoundDownShift(oldSize, newSize, 4096);
    RegionFacts(g, oldSize);
    AlignedGrowth(g, oldSize, newSize);
  }

  /** Growth by anything else can make the new bitmap start below the old one; with the source's
      32 MiB buffer and a bitmap larger than that, the chunked move then corrupts it. */
  lemma UnalignedCounterexample()
    ensures var g, oldSize, newSize := Geometry(4096, 1, 8), 0x100_0800_0000, 0x100_0800_0200;
            && Growing(g, oldSize, newSize)
            && var m := PlanFor(g, oldSize, newSize);
               m.newBm == m.oldBm - 4096 && !PeelSafe(m.oldBm, m.newBm, m.oldLen, 0x200_0000)
  {
    FlexSuperblock(0x100_0800_0000);
    FlexSuperblock(0x100_0800_0200);
    assert BmBytes(4096, 1, 0x8004_0000) == 0x200_1000;
    assert BmBytes(4096, 1, 0x8004_0001) == 0x200_2000;
  }

  lemma AlignedFits(g: Geometry, oldSize: nat, newSize: nat, sb: seq<byte>, buf: nat)
    requires Growing(g, oldSize, newSize) && (newSize - oldSize) % 4096 == 0
    requires |sb| == 4096 <= buf && g.alBlocks * 4096 <= buf
    ensures var m := PlanFor(g, oldSize, newSize);
            m.Fits(newSize, sb, buf) && PeelSafe(m.oldBm, m.newBm, m.oldLen, buf)
  {
    PlanIsValid(g, oldSize, newSize);
    AlignedPlan(g, oldSize, newSize);
  }

  /** For growth by a multiple of 4k, the operation always delivers log and bitmap. */
  lemma AlignedMove(g: Geometry, oldSize: nat, newSize: nat, d: seq<byte>, mode: InitMode, sb: seq<byte>, buf: nat)
    requires Growing(g, oldSize, newSize) && (newSize - oldSize) % 4096 == 0
    requires |d| == newSize && |sb| == 4096 <= buf && g.alBlocks * 4096 <= buf
    ensures var m := PlanFor(g, oldSize, newSize);
            && m.Fits(|d|, sb, buf)
            && NewComplete(d, m, mode, sb, MoveEnd(d, m, mode, sb, buf))
            && OldWiped(d, m, MoveEnd(d, m, mode, sb, buf))
  {
    AlignedFits(g, oldSize, newSize, sb, buf);
    MoveResult(d, PlanFor(g, oldSize, newSize), mode, sb, buf);
  }

  /** A resize survives every crash, for all contents and whatever the sizes are, exactly if its offsets keep the old
      metadata out of the way. */
  lemma ResizeCrashSafeExactly(g: Geometry, oldSize: nat, newSize: nat, mode: InitMode, sb: seq<byte>, buf: nat)
    requires Growing(g, oldSize, newSize) && |sb| == 4096 <= buf && g.alBlocks * 4096 <= buf
    ensures var m := PlanFor(g, oldSize, newSize);
            && m.Fits(newSize, sb, buf)
            && (m.KeepsOld(mode) <==> forall d: seq<byte> | |d| == newSize :: CrashSafe(d, m, mode, sb, buf))
  {
    PlanIsValid(g, oldSize, newSize);
    CrashSafeExactly(newSize, PlanFor(g, oldSize, newSize), mode, sb, buf);
  }

  /** Growing by any positive multiple of 4k survives every crash, for all contents, exactly when the old
      superblock lies below the new bitmap. */
  lemma AlignedCrashSafeExactly(g: Geometry, oldSize: nat, newSize: nat, mode: InitMode, sb: seq<byte>, buf: nat)
    requires Growing(g, oldSize, newSize) && (newSize - oldSize) % 4096 == 0 && oldSize < newSize
    requires |sb| == 4096 <= buf && g.alBlocks * 4096 <= buf
    ensures var m := PlanFor(g, oldSize, newSize);
            m.Fits(newSize, sb, buf) &&
            (m.oldSb < m.newBm <==> forall d: seq<byte> | |d| == newSize :: CrashSafe(d, m, mode, sb, buf))
  {
    PlanIsValid(g, oldSize, newSize);
    AlignedPlan(g, oldSize, newSize);
    KeepsOldMeaning(PlanFor(g, oldSize, newSize), mode);
    CrashSafeExactly(newSize, PlanFor(g, oldSize, newSize), mode, sb, buf);
  }

  /** The offsets the operation reads from the old and the recomputed superblock are those of PlanFor. */
  lemma MoveOffsets(g: Geometry, oldSize: nat, newSize: nat, r: Relative)
    requires Growing(g, oldSize, newSize) && r.Relative? && OffsetsAccepted(FlexInternal, g, r, oldSize)
    ensures var m := PlanFor(g, oldSize, newSize);
            var r' := FreshRelative(FlexInternal, g, newSize);
            && r'.Relative? && OffsetsAccepted(FlexInternal, g, r', newSize)
            && m.Valid() && m.newSb + 4096 <= newSize
            && m.oldSb == MdByteOffset(FlexInternal, oldSize) && m.newSb == MdByteOffset(FlexInternal, newSize)
            && m.oldBm == m.oldSb + r.bmOffsetSect * 512 && m.OldAl() == m.oldSb + r.alOffsetSect * 512
            && m.newBm == U64(m.newSb + r'.bmOffsetSect * 512) && m.NewAl() == U64(m.newSb + r'.alOffsetSect * 512)
            && m.newLen == r'.bmBytes
  {
    hide BmBytes, MdByteOffset, OffsetsAccepted, FreshRelative, U64;
    PlanIsValid(g, oldSize, newSize);
    AcceptedOffsets(g, oldSize, r);
    FreshOffsetsOnDisk(g, newSize);
  }

  /** v08_move_internal_md_after_resize. cfg holds the superblock just found at the last known end of the device;
      sb is the encoding of the superblock for the new location. */
  method MoveInternalMdAfterResize(cfg: Format, lkSize: nat, disk: Disk, buffer: array<byte>, mode: InitMode,
                                   sb: seq<byte>)
    requires cfg.mdIndex == FlexInternal && cfg.mdOffset == MdByteOffset(FlexInternal, cfg.bdSize)
    requires Growing(cfg.Geo(), lkSize, cfg.bdSize)
    requires OffsetsAccepted(FlexInternal, cfg.Geo(), cfg.RelativeOffsets(), lkSize)
    requires disk.data.Length == cfg.bdSize && buffer != disk.data
    requires cfg.alBlocks * 4096 <= buffer.Length && |sb| == 4096 <= buffer.Length
    modifies cfg, disk, disk.data, buffer
    ensures cfg.Geo() == old(cfg.Geo()) && cfg.bdSize == old(cfg.bdSize)
    ensures OffsetsAccepted(FlexInternal, cfg.Geo(), cfg.RelativeOffsets(), cfg.bdSize)
    ensures PlanFor(cfg.Geo(), lkSize, cfg.bdSize).Fits(cfg.bdSize, sb, buffer.Length)
    ensures disk.Contents()
        == MoveEnd(old(disk.Contents()), PlanFor(cfg.Geo(), lkSize, cfg.bdSize), mode, sb, buffer.Length)
    ensures disk.images == old(disk.images)
            + MoveImages(old(disk.Contents()), PlanFor(cfg.Geo(), lkSize, cfg.bdSize), mode, sb, buffer.Length)
  {
    hide BmBytes, MoveEnd, MoveImages, I32;
    var oldSb := MdByteOffset(FlexInternal, lkSize);
    var oldAl, oldBm := oldSb + cfg.alOffsetSect * 512, oldSb + cfg.bmOffsetSect * 512;
    var ok := cfg.ReInitializeMdOffsets(0);
    MoveOffsets(cfg.Geo(), lkSize, cfg.bdSize, old(cfg.RelativeOffsets()));
    var m := Plan(oldBm, oldAl - oldBm, oldSb, cfg.bmOffset, cfg.bmBytes, cfg.mdOffset, oldSb - oldAl);
    WriteAll(disk, buffer, m, mode, sb);
  }
}
