/** Where superblock, activity log and bitmap live, and how large a device they can serve. */
module Layout {
  import opened Arith

  const MD_AL_OFFSET_07: int := 8
  const MD_AL_MAX_SECT_07: int := 64
  const MD_BM_OFFSET_07: int := MD_AL_OFFSET_07 + MD_AL_MAX_SECT_07
  const MD_RESERVED_SECT_07: int := 262144
  const BM_BLOCK_SIZE_4K: nat := 4096
  const MAX_SECTORS: nat := 0x200_0000_0000
  const DRBD_PEERS_MAX: nat := 32

  datatype MdIndex = Indexed(nr: nat) | FlexExternal | Internal | FlexInternal

  /** The parameters of a layout that are chosen by the user; alBlocks is al_stripes * al_stripe_size_4k. */
  datatype Geometry = Geometry(bytesPerBit: nat, maxPeers: nat, alBlocks: nat)

  predicate ValidBlockSize(b: nat) {
    b in {4096, 8192, 16384, 32768, 65536, 131072, 262144, 524288, 1048576}
  }

  /** The limits drbdmeta's option parsing and is_valid_md put on a geometry. */
  predicate ValidGeometry(g: Geometry) {
    && ValidBlockSize(g.bytesPerBit)
    && 1 <= g.maxPeers < DRBD_PEERS_MAX
    && 8 <= g.alBlocks <= 8192
  }

  /** Bitmap bytes for a device: bits rounded to 64, one slot per peer, rounded to 4k. */
  function BmBytes(bytesPerBit: nat, maxPeers: nat, sectors: nat): nat
    requires bytesPerBit >= 512
  {
    var sectorsPerBit := bytesPerBit / 512;
    var bmBits := RoundUp((sectors + sectorsPerBit - 1) / sectorsPerBit, 64);
    RoundUp(bmBits / 8 * maxPeers, 4096)
  }

  /** v07_style_md_get_byte_offset: byte offset of the superblock. */
  function MdByteOffset(index: MdIndex, bdSize: nat): nat {
    match index
    case Indexed(nr) => U64(MD_RESERVED_SECT_07 * nr * 512)
    case Internal => U64(RoundDown(bdSize, 4096) - MD_RESERVED_SECT_07 * 512)
    case FlexInternal => RoundDown(U64(bdSize - 4096), 4096)
    case FlexExternal => 0
  }

  function Min3(a: nat, b: nat, c: nat): nat {
    var m := if a < b then a else b;
    if m < c then m else c
  }

  /** Sectors an external bitmap area of the given size can track. */
  function MaxUsableExternal(g: Geometry, areaSect: nat): nat
    requires g.maxPeers > 0
  {
    areaSect * 512 * 8 / 64 / g.maxPeers * 64 * g.bytesPerBit / 512
  }

  /** The tracked size after clipping. */
  function Clipped(maxUsable: nat, sectors: nat): nat {
    if sectors > maxUsable then maxUsable else sectors
  }

  /** Sectors in front of the first piece of internal metadata. */
  function MaxUsableInternal(mdOffset: nat, alOffset: nat, bmOffset: nat): nat {
    Min3(mdOffset, alOffset, bmOffset) / 512
  }

  /** max_usable_sectors: internal metadata ends the data area, external metadata limits it by its bitmap area. */
  function MaxUsableSectors(index: MdIndex, g: Geometry, areaSect: nat, mdOffset: nat, alOffset: nat,
                            bmOffset: nat): nat
    requires g.maxPeers > 0
  {
    if index == Internal || index == FlexInternal
    then MaxUsableInternal(mdOffset, alOffset, bmOffset)
    else MaxUsableExternal(g, areaSect)
  }

  function AlSizeSect(g: Geometry): int {
    I32(g.alBlocks * 8)
  }

  /** The relative part of the layout: (mdSizeSect, alOffsetSect, bmOffsetSect, bmBytes);
      None where the source exits because the bitmap got too large. */
  datatype Relative = TooLarge | Relative(mdSizeSect: nat, alOffsetSect: int, bmOffsetSect: int, bmBytes: nat)

  /** (MD_BM_MAX_BYTE_FLEX >> 9) * max_peers, where MD_BM_MAX_BYTE_FLEX is 1 << 35. */
  function MaxBitmapSect(maxPeers: nat): nat {
    0x400_0000 * maxPeers
  }

  function FlexRelative(bmSect: nat, bmBytes: nat, maxPeers: nat, al: int): Relative {
    if bmSect > MaxBitmapSect(maxPeers) then TooLarge
    else
      var size: int := U64(bmSect + MD_AL_OFFSET_07 + al);
      Relative(U32(size), I32(-al), I32(MD_AL_OFFSET_07 - size), bmBytes)
  }

  /** The switch of re_initialize_md_offsets; needed is bm_bytes for the device, used by the flexible internal case. */
  function RelativeFor(index: MdIndex, g: Geometry, bdSize: nat, needed: nat): Relative {
    var al := AlSizeSect(g);
    match index
    case Indexed(_) =>
      var bm := I32(MD_AL_OFFSET_07 + al);
      Relative(MD_RESERVED_SECT_07, MD_AL_OFFSET_07, bm, U64(512 * U32(MD_RESERVED_SECT_07 - bm)))
    case FlexExternal =>
      var bm := I32(MD_AL_OFFSET_07 + al);
      var size: int := U32(bdSize / 512);
      Relative(size, MD_AL_OFFSET_07, bm, U64(512 * U32(size - bm)))
    case Internal =>
      Relative(MD_RESERVED_SECT_07, MD_AL_OFFSET_07, MD_BM_OFFSET_07,
               U64(512 * U32(MD_RESERVED_SECT_07 - MD_BM_OFFSET_07)))
    case FlexInternal =>
      FlexRelative(RoundUp(needed / 512, 8), needed, g.maxPeers, al)
  }

  function FreshRelative(index: MdIndex, g: Geometry, bdSize: nat): Relative
    requires g.bytesPerBit >= 512
  {
    RelativeFor(index, g, bdSize, BmBytes(g.bytesPerBit, g.maxPeers, bdSize / 512))
  }

  /** is_valid_md's checks on the offsets (from DRBD 0.8 on). */
  predicate OffsetsAccepted(index: MdIndex, g: Geometry, r: Relative, llSize: nat)
    requires g.bytesPerBit >= 512 && r.Relative?
  {
    if index == FlexInternal then
      FlexAccepted(RoundUp(BmBytes(g.bytesPerBit, g.maxPeers, llSize / 512) / 512, 8), AlSizeSect(g), r)
    else
      && r.alOffsetSect == MD_AL_OFFSET_07
      && r.bmOffsetSect == MD_AL_OFFSET_07 + AlSizeSect(g)
  }

  predicate FlexAccepted(bmSect: nat, al: int, r: Relative)
    requires r.Relative?
  {
    var size: int := U64(bmSect + MD_AL_OFFSET_07 + al);
    && r.alOffsetSect == -al
    && r.bmOffsetSect == MD_AL_OFFSET_07 - size
    && r.mdSizeSect == size
  }

  /** The part of struct format that the layout code reads and updates in place. */
  class Format {
    var mdIndex: MdIndex
    var bdSize: nat
    var mdOffset: nat
    var bytesPerBit: nat
    var maxPeers: nat
    var alBlocks: nat  // al_stripes * al_stripe_size_4k
    var mdSizeSect: nat
    var alOffsetSect: int
    var bmOffsetSect: int
    var bmBytes: nat
    var alOffset: nat
    var bmOffset: nat
    var maxUsableSect: nat
    var effectiveSize: nat

    function Geo(): Geometry
      reads this
    {
      Geometry(bytesPerBit, maxPeers, alBlocks)
    }

    /** The offsets as they are stored in the superblock. */
    function RelativeOffsets(): (r: Relative)
      reads this
      ensures r.Relative?
    {
      Relative(mdSizeSect, alOffsetSect, bmOffsetSect, bmBytes)
    }

    /** False where the source exits with "Bitmap for that device got too large". */
    method ReInitializeMdOffsets(optionBlockSize: nat) returns (ok: bool)
      requires bytesPerBit == 0 || bytesPerBit >= 512
      requires optionBlockSize == 0 || optionBlockSize >= 512
      modifies this`bytesPerBit, this`maxPeers, this`mdSizeSect, this`alOffsetSect, this`bmOffsetSect,
               this`bmBytes, this`alOffset, this`bmOffset, this`maxUsableSect
      ensures maxPeers == (if old(maxPeers) == 0 then 1 else old(maxPeers))
      ensures bytesPerBit == (if old(bytesPerBit) != 0 then old(bytesPerBit)
                              else if optionBlockSize != 0 then optionBlockSize else BM_BLOCK_SIZE_4K)
      ensures ok <==> FreshRelative(mdIndex, Geo(), bdSize).Relative?
      ensures ok ==> RelativeOffsets() == FreshRelative(mdIndex, Geo(), bdSize)
      ensures ok ==> alOffset == U64(mdOffset + alOffsetSect * 512) && bmOffset == U64(mdOffset + bmOffsetSect * 512)
      ensures ok ==> maxUsableSect
                     == MaxUsableSectors(mdIndex, Geo(), U32(mdSizeSect - bmOffsetSect), mdOffset, alOffset, bmOffset)
    {
      if bytesPerBit == 0 {
        bytesPerBit := if optionBlockSize != 0 then optionBlockSize else BM_BLOCK_SIZE_4K;
      }
      if maxPeers == 0 {
        maxPeers := 1;
      }
      ok := InitializeRelative(BmBytes(bytesPerBit, maxPeers, bdSize / 512));
      if ok {
        alOffset := U64(mdOffset + alOffsetSect * 512);
        bmOffset := U64(mdOffset + bmOffsetSect * 512);
        maxUsableSect := MaxUsableSectors(mdIndex, Geo(), U32(mdSizeSect - bmOffsetSect), mdOffset, alOffset, bmOffset);
      }
    }

    /** The switch over the metadata index in re_initialize_md_offsets. */
    method InitializeRelative(needed: nat) returns (ok: bool)
      modifies this`mdSizeSect, this`alOffsetSect, this`bmOffsetSect, this`bmBytes
      ensures ok <==> RelativeFor(mdIndex, Geo(), bdSize, needed).Relative?
      ensures ok ==> RelativeOffsets() == RelativeFor(mdIndex, Geo(), bdSize, needed)
    {
      var alSizeSect := I32(alBlocks * 8);
      match mdIndex {
        case Indexed(_) =>
          mdSizeSect := MD_RESERVED_SECT_07;
          alOffsetSect := MD_AL_OFFSET_07;
          bmOffsetSect := I32(alOffsetSect + alSizeSect);
          bmBytes := U64(512 * U32(mdSizeSect - bmOffsetSect));
        case FlexExternal =>
          mdSizeSect := U32(bdSize / 512);
          alOffsetSect := MD_AL_OFFSET_07;
          bmOffsetSect := I32(alOffsetSect + alSizeSect);
          bmBytes := U64(512 * U32(mdSizeSect - bmOffsetSect));
        case Internal =>
          mdSizeSect := MD_RESERVED_SECT_07;
          alOffsetSect := MD_AL_OFFSET_07;
          bmOffsetSect := MD_BM_OFFSET_07;
          bmBytes := U64(512 * U32(mdSizeSect - bmOffsetSect));
        case FlexInternal =>
          alOffsetSect := I32(-alSizeSect);
          bmBytes := needed;
          var size := RoundUp(bmBytes / 512, 8);
          if size > MaxBitmapSect(maxPeers) {
            return false;
          }
          size := U64(size + MD_AL_OFFSET_07 + alSizeSect);
          mdSizeSect := U32(size);
          bmOffsetSect := I32(MD_AL_OFFSET_07 - size);
      }
      ok := true;
    }

    /** clip_effective_size_and_bm_bytes: afterwards the bitmap of the tracked size fits an external bitmap area. */
    method ClipEffectiveSize()
      requires ValidGeometry(Geo())
      modifies this`effectiveSize, this`bmBytes
      ensures effectiveSize == Clipped(maxUsableSect, old(effectiveSize))
      ensures bmBytes == BmBytes(bytesPerBit, maxPeers, effectiveSize)
      ensures (mdSizeSect - bmOffsetSect) % 8 == 0 && 0 <= mdSizeSect - bmOffsetSect
              && maxUsableSect == MaxUsableExternal(Geo(), mdSizeSect - bmOffsetSect)
              ==> bmBytes <= 512 * (mdSizeSect - bmOffsetSect)
    {
      if effectiveSize > maxUsableSect {
        effectiveSize := maxUsableSect;
      }
      bmBytes := BmBytes(bytesPerBit, maxPeers, effectiveSize);
      ghost var area := mdSizeSect - bmOffsetSect;
      if area >= 0 && area % 8 == 0 && maxUsableSect == MaxUsableExternal(Geo(), area) {
        MaxUsableAdjoint(Geo(), area, effectiveSize);
      }
    }
  }

  // ---- growth of the bitmap ----

  lemma CeilLeast(i: nat, g: nat, q: nat)
    requires g > 0
    ensures (i + g - 1) / g <= q <==> i <= q * g
  {
    MultipleMod(q, g);
    RoundUpLeast(i, g, q * g);
    if (i + g - 1) / g <= q {
      MulMonotone((i + g - 1) / g, q, g);
    }
    if i <= q * g {
      MulCancel((i + g - 1) / g, q, g);
    }
  }

  /** Number of 64-bit words one slot needs. */
  function SlotWords(bytesPerBit: nat, sectors: nat): nat
    requires bytesPerBit >= 512
  {
    var sectorsPerBit := bytesPerBit / 512;
    ((sectors + sectorsPerBit - 1) / sectorsPerBit + 63) / 64
  }

  lemma BmBytesViaWords(b: nat, p: nat, sectors: nat)
    requires b >= 512
    ensures BmBytes(b, p, sectors) == RoundUp(SlotWords(b, sectors) * 8 * p, 4096)
    ensures BmBytes(b, p, sectors) % 4096 == 0
    ensures SlotWords(b, sectors) * 8 * p <= BmBytes(b, p, sectors)
  {
    var bits := (sectors + b / 512 - 1) / (b / 512);
    assert RoundUp(bits, 64) / 8 == SlotWords(b, sectors) * 8;
    hide RoundUp, SlotWords;
    RoundUpBounds(SlotWords(b, sectors) * 8 * p, 4096);
  }

  lemma CeilStep(s: nat, k: nat, t: nat)
    requires k >= 8
    ensures (s + k - 1) / k <= (s + 8 * t + k - 1) / k <= (s + k - 1) / k + t
  {
    var c, c' := (s + k - 1) / k, (s + 8 * t + k - 1) / k;
    CeilLeast(s, k, c);
    MulMonotone(8, k, t);
    CeilLeast(s + 8 * t, k, c + t);
    CeilLeast(s + 8 * t, k, c');
    CeilLeast(s, k, c');
  }

  lemma SlotWordsStep(b: nat, s: nat, t: nat)
    requires ValidBlockSize(b) && t <= 64
    ensures SlotWords(b, s) <= SlotWords(b, s + 8 * t) <= SlotWords(b, s) + 1
  {
    CeilStep(s, b / 512, t);
  }

  lemma RoundedStep(w: nat, w': nat, p: nat)
    requires w <= w' <= w + 1 && p < DRBD_PEERS_MAX
    ensures RoundUp(w * 8 * p, 4096) <= RoundUp(w' * 8 * p, 4096) <= RoundUp(w * 8 * p, 4096) + 4096
  {
    MulMonotone(w, w', 8 * p);
    MulMonotone(w', w + 1, 8 * p);
    RoundUpStep(w * 8 * p, w' * 8 * p, 4096);
  }

  /** Adding up to 64 blocks of 4k to a device adds at most one block to its bitmap. */
  lemma BmBytesStep(b: nat, p: nat, s: nat, t: nat)
    requires ValidBlockSize(b) && 1 <= p < DRBD_PEERS_MAX && t <= 64
    ensures BmBytes(b, p, s) <= BmBytes(b, p, s + 8 * t) <= BmBytes(b, p, s) + 4096
  {
    SlotWordsStep(b, s, t);
    RoundedStep(SlotWords(b, s), SlotWords(b, s + 8 * t), p);
    BmBytesViaWords(b, p, s);
    BmBytesViaWords(b, p, s + 8 * t);
  }

  /** The bitmap never grows faster than the device it describes. */
  lemma {:induction false} BmBytesGrowth(b: nat, p: nat, s: nat, blocks: nat)
    requires ValidBlockSize(b) && 1 <= p < DRBD_PEERS_MAX
    ensures BmBytes(b, p, s) <= BmBytes(b, p, s + 8 * blocks) <= BmBytes(b, p, s) + 4096 * blocks
  {
    if blocks > 0 {
      BmBytesGrowth(b, p, s, blocks - 1);
      BmBytesStep(b, p, s + 8 * (blocks - 1), 1);
    }
  }

  lemma SlotWordsMonotone(b: nat, s: nat, s': nat)
    requires ValidBlockSize(b) && s <= s'
    ensures SlotWords(b, s) <= SlotWords(b, s')
  {
    DivMonotone(s + b / 512 - 1, s' + b / 512 - 1, b / 512);
  }

  lemma RoundedMonotone(w: nat, w': nat, p: nat)
    requires w <= w'
    ensures RoundUp(w * 8 * p, 4096) <= RoundUp(w' * 8 * p, 4096)
  {
    MulMonotone(w * 8, w' * 8, p);
    RoundUpMonotone(w * 8 * p, w' * 8 * p, 4096);
  }

  lemma BmBytesMonotone(b: nat, p: nat, s: nat, s': nat)
    requires ValidBlockSize(b) && s <= s'
    ensures BmBytes(b, p, s) <= BmBytes(b, p, s')
  {
    SlotWordsMonotone(b, s, s');
    RoundedMonotone(SlotWords(b, s), SlotWords(b, s'), p);
    BmBytesViaWords(b, p, s);
    BmBytesViaWords(b, p, s');
  }

  lemma BmBytesPositive(b: nat, p: nat, sectors: nat)
    requires ValidBlockSize(b) && 1 <= p && 1 <= sectors
    ensures BmBytes(b, p, sectors) >= 4096
  {
    CeilLeast(sectors, b / 512, 0);
    BmBytesViaWords(b, p, sectors);
    var w := SlotWords(b, sectors);
    assert w >= 1;
    MulMonotone(1, w * 8, p);
  }

  // ---- a fresh layout is accepted and fits ----

  lemma CeilBound(s: nat, k: nat)
    requires k >= 8 && s <= MAX_SECTORS
    ensures (s + k - 1) / k <= MAX_SECTORS / 8
  {
    MulMonotone(8, k, MAX_SECTORS / 8);
    CeilLeast(s, k, MAX_SECTORS / 8);
  }

  lemma RoundedBound(w: nat, p: nat)
    requires w <= MAX_SECTORS / 512
    ensures RoundUp(w * 8 * p, 4096) <= 0x8_0000_0000 * p
  {
    MulMonotone(w * 8, 0x8_0000_0000, p);
    assert 0x8_0000_0000 * p == 4096 * (0x80_0000 * p);
    RoundUpLeast(w * 8 * p, 4096, 0x8_0000_0000 * p);
  }

  lemma BmBytesBound(b: nat, p: nat, sectors: nat)
    requires ValidBlockSize(b) && sectors <= MAX_SECTORS
    ensures BmBytes(b, p, sectors) <= 0x8_0000_0000 * p
  {
    CeilBound(sectors, b / 512);
    RoundedBound(SlotWords(b, sectors), p);
    BmBytesViaWords(b, p, sectors);
  }

  /** Bytes taken by bitmap and log in front of an internal superblock. */
  function RegionBytes(g: Geometry, bdSize: nat): nat
    requires g.bytesPerBit >= 512
  {
    BmBytes(g.bytesPerBit, g.maxPeers, bdSize / 512) + g.alBlocks * 4096
  }

  lemma AcceptedSizes(bm: nat, p: nat, blocks: nat)
    requires bm % 4096 == 0 && bm <= 0x8_0000_0000 * p && p < DRBD_PEERS_MAX && blocks <= 8192
    ensures RoundUp(bm / 512, 8) == bm / 512 <= MaxBitmapSect(p)
    ensures bm / 512 + blocks * 8 + 8 < 0x8000_0000
  {
    var k := bm / 4096;
    assert bm == 4096 * k && bm / 512 == 8 * k;
  }

  lemma AcceptedCore(bmSect: nat, bm: nat, p: nat, blocks: nat)
    requires bmSect <= MaxBitmapSect(p) && bmSect + blocks * 8 + 8 < 0x8000_0000
    ensures var r := FlexRelative(bmSect, bm, p, blocks * 8);
            && r == Relative(bmSect + blocks * 8 + 8, 0 - blocks * 8, 0 - bmSect - blocks * 8, bm)
            && FlexAccepted(bmSect, blocks * 8, r)
  {
    var size: int := bmSect + blocks * 8 + 8;
    SmallConversions(size);
    SmallConversions(0 - blocks * 8);
    SmallConversions(8 - size);
  }

  lemma AlSizeSectExact(g: Geometry)
    requires ValidGeometry(g)
    ensures AlSizeSect(g) == g.alBlocks * 8
  {
  }

  /** Up to 1 PiB, a fresh flexible internal layout is never "too large", fits the signed 32-bit
      fields of the superblock, and passes is_valid_md. */
  lemma FreshFlexInternalAccepted(g: Geometry, bdSize: nat)
    requires ValidGeometry(g) && bdSize / 512 <= MAX_SECTORS
    ensures var bm := BmBytes(g.bytesPerBit, g.maxPeers, bdSize / 512);
            var r := FreshRelative(FlexInternal, g, bdSize);
            && r == Relative(bm / 512 + g.alBlocks * 8 + 8, 0 - g.alBlocks * 8, 0 - bm / 512 - g.alBlocks * 8, bm)
            && r.mdSizeSect < 0x8000_0000
            && bm % 4096 == 0
            && OffsetsAccepted(FlexInternal, g, r, bdSize)
  {
    var b, p := g.bytesPerBit, g.maxPeers;
    BmBytesBound(b, p, bdSize / 512);
    BmBytesViaWords(b, p, bdSize / 512);
    var bm := BmBytes(b, p, bdSize / 512);
    AcceptedSizes(bm, p, g.alBlocks);
    AcceptedCore(bm / 512, bm, p, g.alBlocks);
    AlSizeSectExact(g);
  }

  /** The superblock is the last aligned 4k block of the device. */
  lemma FlexSuperblock(bdSize: nat)
    requires 4096 <= bdSize < 0x1000_0000_0000_0000
    ensures var md := MdByteOffset(FlexInternal, bdSize);
            md == RoundDown(bdSize, 4096) - 4096 && md % 4096 == 0 && md + 4096 <= bdSize < md + 8192
  {
    SmallConversions(bdSize - 4096);
    RoundDownBounds(bdSize - 4096, 4096);
  }

  /** Superblock, log, bitmap and data area are 4k-aligned, adjacent and disjoint exactly when
      bitmap and log fit in front of the superblock; otherwise the bitmap offset wraps around
      and lands behind it. */
  lemma FreshFlexInternalFits(g: Geometry, bdSize: nat)
    requires ValidGeometry(g) && 4096 <= bdSize && bdSize / 512 <= MAX_SECTORS
    ensures FreshRelative(FlexInternal, g, bdSize).Relative?
    ensures LaidOut(g, MdByteOffset(FlexInternal, bdSize), FreshRelative(FlexInternal, g, bdSize))
            <==> RegionBytes(g, bdSize) <= MdByteOffset(FlexInternal, bdSize)
  {
    FreshFlexInternalAccepted(g, bdSize);
    FlexSuperblock(bdSize);
    BmBytesBound(g.bytesPerBit, g.maxPeers, bdSize / 512);
    var r := FreshRelative(FlexInternal, g, bdSize);
    FitsCore(g, MdByteOffset(FlexInternal, bdSize), r.bmBytes / 4096, r);
  }

  /** Data area, bitmap, log and superblock follow each other on 4k boundaries without gap or overlap. */
  predicate LaidOut(g: Geometry, md: nat, r: Relative)
    requires r.Relative?
  {
    var al, bm := U64(md + r.alOffsetSect * 512), U64(md + r.bmOffsetSect * 512);
    && bm % 4096 == 0 && al % 4096 == 0 && md % 4096 == 0
    && MaxUsableInternal(md, al, bm) * 512 == bm
    && bm + r.bmBytes == al
    && al + g.alBlocks * 4096 == md
  }

  lemma SectorsToBytes(bm: nat, blocks: nat)
    requires bm % 4096 == 0
    ensures (0 - bm / 512 - blocks * 8) * 512 == 0 - (bm + blocks * 4096)
  {
    var k := bm / 4096;
    assert bm == 4096 * k && bm / 512 == 8 * k;
  }

  /** Offsets that is_valid_md accepts determine where log and bitmap are. */
  lemma AcceptedOffsets(g: Geometry, bdSize: nat, r: Relative)
    requires ValidGeometry(g) && bdSize / 512 <= MAX_SECTORS && r.Relative?
    requires OffsetsAccepted(FlexInternal, g, r, bdSize)
    ensures r.alOffsetSect * 512 == 0 - g.alBlocks * 4096
    ensures r.bmOffsetSect * 512 == 0 - RegionBytes(g, bdSize)
  {
    FreshFlexInternalAccepted(g, bdSize);
    SectorsToBytes(BmBytes(g.bytesPerBit, g.maxPeers, bdSize / 512), g.alBlocks);
  }

  lemma FreshOffsetsOnDisk(g: Geometry, bdSize: nat)
    requires ValidGeometry(g) && 4096 <= bdSize && bdSize / 512 <= MAX_SECTORS
    requires RegionBytes(g, bdSize) <= MdByteOffset(FlexInternal, bdSize)
    ensures var r := FreshRelative(FlexInternal, g, bdSize);
            var md := MdByteOffset(FlexInternal, bdSize);
            && r.Relative? && OffsetsAccepted(FlexInternal, g, r, bdSize)
            && U64(md + r.alOffsetSect * 512) == md - g.alBlocks * 4096
            && U64(md + r.bmOffsetSect * 512) == md - RegionBytes(g, bdSize)
            && r.bmBytes == BmBytes(g.bytesPerBit, g.maxPeers, bdSize / 512)
  {
    FreshFlexInternalAccepted(g, bdSize);
    AcceptedOffsets(g, bdSize, FreshRelative(FlexInternal, g, bdSize));
    FlexSuperblock(bdSize);
    SmallConversions(MdByteOffset(FlexInternal, bdSize) - g.alBlocks * 4096);
    SmallConversions(MdByteOffset(FlexInternal, bdSize) - RegionBytes(g, bdSize));
  }

  lemma AlignedMin(md: int, al: int, b: int)
    requires b % 4096 == 0 && 0 <= b <= al <= md
    ensures MaxUsableInternal(md, al, b) * 512 == b
  {
    assert Min3(md, al, b) == b;
  }

  lemma FitsCore(g: Geometry, md: nat, k: nat, r: Relative)
    requires md < 0x1000_0000_0000_0000 && md % 4096 == 0 && k < 0x1_0000_0000
    requires g.alBlocks <= 8192
    requires r == Relative(k * 8 + g.alBlocks * 8 + 8, 0 - g.alBlocks * 8, 0 - k * 8 - g.alBlocks * 8, k * 4096)
    ensures LaidOut(g, md, r) <==> k * 4096 + g.alBlocks * 4096 <= md
  {
    var al, b := md - g.alBlocks * 4096, md - g.alBlocks * 4096 - k * 4096;
    if 0 <= b {
      assert b % 4096 == 0 by {
        MultipleMod(md / 4096 - g.alBlocks - k, 4096);
      }
      FitsAt(g, md, r, al, b);
    } else {
      SmallConversions(b);
      assert U64(md + r.bmOffsetSect * 512) > md;
    }
  }

  lemma FitsAt(g: Geometry, md: nat, r: Relative, al: int, b: int)
    requires r.Relative? && md + r.alOffsetSect * 512 == al && md + r.bmOffsetSect * 512 == b
    requires 0 <= b <= al <= md < 0x1000_0000_0000_0000 && md % 4096 == 0 && b % 4096 == 0
    requires al == b + r.bmBytes && md == al + g.alBlocks * 4096
    ensures LaidOut(g, md, r)
  {
    hide U64, MaxUsableInternal;
    SmallConversions(al);
    SmallConversions(b);
    assert al % 4096 == 0 by {
      MultipleMod(md / 4096 - g.alBlocks, 4096);
    }
    AlignedMin(md, al, b);
  }

  /** The other layouts pass is_valid_md as well; the old fixed internal one exactly when the log has
      its historical size of 32 KiB. */
  lemma FreshOtherAccepted(index: MdIndex, g: Geometry, bdSize: nat)
    requires ValidGeometry(g) && index != FlexInternal
    ensures var r := FreshRelative(index, g, bdSize);
            r.Relative? && (OffsetsAccepted(index, g, r, bdSize) <==> (index == Internal ==> g.alBlocks == 8))
  {
    AlSizeSectExact(g);
    SmallConversions(8 + g.alBlocks * 8);
  }

  // ---- external metadata: bitmap size and usable size are adjoint ----

  lemma MaxUsableViaWords(g: Geometry, areaSect: nat)
    requires ValidGeometry(g)
    ensures MaxUsableExternal(g, areaSect) == areaSect * 64 / g.maxPeers * 64 * (g.bytesPerBit / 512)
  {
    var w := areaSect * 64 / g.maxPeers;
    var k := g.bytesPerBit / 512;
    assert areaSect * 512 * 8 / 64 == areaSect * 64;
    assert w * 64 * g.bytesPerBit == w * 64 * k * 512 by {
      assert g.bytesPerBit == k * 512;
    }
    MultipleMod(w * 64 * k, 512);
  }

  lemma FloorGreatest(a: nat, p: nat, w: nat)
    requires p > 0
    ensures w * p <= a <==> w <= a / p
  {
    if w * p <= a {
      MulCancel(w, a / p, p);
    }
    if w <= a / p {
      MulMonotone(w, a / p, p);
    }
  }

  lemma AdjointCore(w: nat, p: nat, areaSect: nat)
    requires p > 0 && areaSect % 8 == 0
    ensures RoundUp(w * 8 * p, 4096) <= 512 * areaSect <==> w <= areaSect * 64 / p
  {
    assert (512 * areaSect) % 4096 == 0;
    RoundUpLeast(w * 8 * p, 4096, 512 * areaSect);
    assert w * 8 * p == 8 * (w * p);
    FloorGreatest(areaSect * 64, p, w);
  }

  lemma SlotWordsAdjoint(b: nat, sectors: nat, q: nat)
    requires ValidBlockSize(b)
    ensures SlotWords(b, sectors) <= q <==> sectors <= q * 64 * (b / 512)
  {
    CeilLeast(sectors, b / 512, q * 64);
  }

  lemma BmBytesFits(b: nat, p: nat, sectors: nat, areaSect: nat)
    requires b >= 512 && p > 0 && areaSect % 8 == 0
    ensures BmBytes(b, p, sectors) <= 512 * areaSect <==> SlotWords(b, sectors) <= areaSect * 64 / p
  {
    BmBytesViaWords(b, p, sectors);
    AdjointCore(SlotWords(b, sectors), p, areaSect);
  }

  lemma BmBytesAdjoint(b: nat, p: nat, areaSect: nat, sectors: nat)
    requires ValidBlockSize(b) && p > 0 && areaSect % 8 == 0
    ensures BmBytes(b, p, sectors) <= 512 * areaSect <==> sectors <= areaSect * 64 / p * 64 * (b / 512)
  {
    BmBytesFits(b, p, sectors, areaSect);
    SlotWordsAdjoint(b, sectors, areaSect * 64 / p);
  }

  /** For an area of whole 4k blocks the clip to max_usable_sectors is safe and maximal. */
  lemma MaxUsableAdjoint(g: Geometry, areaSect: nat, sectors: nat)
    requires ValidGeometry(g) && areaSect % 8 == 0
    ensures BmBytes(g.bytesPerBit, g.maxPeers, sectors) <= 512 * areaSect
            <==> sectors <= MaxUsableExternal(g, areaSect)
  {
    BmBytesAdjoint(g.bytesPerBit, g.maxPeers, areaSect, sectors);
    MaxUsableViaWords(g, areaSect);
  }

  /** The usable size calls for all the words the area has room for. */
  lemma MaxUsableWords(g: Geometry, areaSect: nat)
    requires ValidGeometry(g)
    ensures SlotWords(g.bytesPerBit, MaxUsableExternal(g, areaSect)) == areaSect * 64 / g.maxPeers
  {
    hide MaxUsableExternal;
    var w, k := areaSect * 64 / g.maxPeers, g.bytesPerBit / 512;
    MaxUsableViaWords(g, areaSect);
    DivRange(w * 64 * k + k - 1, k, w * 64);
  }

  /** A size above the last whole block of an area needs one block more than there is room for. */
  lemma RoundedAbove(x: nat, area: nat)
    requires x > area / 4096 * 4096
    ensures RoundUp(x, 4096) > area
  {
    hide RoundUp;
    MultipleMod(area / 4096, 4096);
    RoundUpLeast(x, 4096, area / 4096 * 4096);
    RoundUpBounds(x, 4096);
  }

  lemma AboveWholeBlocks(bits: nat, p: nat, areaSect: nat)
    requires p <= 64 && areaSect % 8 != 0 && areaSect * 64 < bits + p
    ensures 8 * bits > 512 * areaSect / 4096 * 4096
  {
    assert 512 * areaSect / 4096 == areaSect / 8;
  }

  lemma WordsOfSlots(w: nat, p: nat)
    ensures w * 8 * p == 8 * (w * p)
  {
  }

  lemma RoundedOutside(p: nat, areaSect: nat)
    requires 0 < p <= 64 && areaSect % 8 != 0
    ensures RoundUp(areaSect * 64 / p * 8 * p, 4096) > 512 * areaSect
  {
    hide RoundUp;
    RoundDownBounds(areaSect * 64, p);
    WordsOfSlots(areaSect * 64 / p, p);
    AboveWholeBlocks(RoundDown(areaSect * 64, p), p, areaSect);
    RoundedAbove(8 * RoundDown(areaSect * 64, p), 512 * areaSect);
  }

  /** In any other area the bitmap of the usable size does not fit. */
  lemma MaxUsableOutside(g: Geometry, areaSect: nat)
    requires ValidGeometry(g) && areaSect % 8 != 0
    ensures BmBytes(g.bytesPerBit, g.maxPeers, MaxUsableExternal(g, areaSect)) > 512 * areaSect
  {
    MaxUsableWords(g, areaSect);
    BmBytesViaWords(g.bytesPerBit, g.maxPeers, MaxUsableExternal(g, areaSect));
    RoundedOutside(g.maxPeers, areaSect);
  }

  /** Bitmap size and usable size are adjoint exactly for areas of whole 4k blocks. */
  lemma MaxUsableExactly(g: Geometry, areaSect: nat)
    requires ValidGeometry(g)
    ensures (forall s: nat :: BmBytes(g.bytesPerBit, g.maxPeers, s) <= 512 * areaSect
                              <==> s <= MaxUsableExternal(g, areaSect))
            <==> areaSect % 8 == 0
  {
    hide BmBytes, MaxUsableExternal;
    if areaSect % 8 == 0 {
      forall s: nat
        ensures BmBytes(g.bytesPerBit, g.maxPeers, s) <= 512 * areaSect <==> s <= MaxUsableExternal(g, areaSect)
      {
        MaxUsableAdjoint(g, areaSect, s);
      }
    } else {
      MaxUsableOutside(g, areaSect);
    }
  }

  /** After clipping the bitmap fits the area, whatever the tracked size was, again exactly for such areas. */
  lemma ClippedExactly(g: Geometry, areaSect: nat)
    requires ValidGeometry(g)
    ensures (forall s: nat :: BmBytes(g.bytesPerBit, g.maxPeers, Clipped(MaxUsableExternal(g, areaSect), s))
                              <= 512 * areaSect)
            <==> areaSect % 8 == 0
  {
    hide BmBytes, MaxUsableExternal;
    if areaSect % 8 == 0 {
      forall s: nat
        ensures BmBytes(g.bytesPerBit, g.maxPeers, Clipped(MaxUsableExternal(g, areaSect), s)) <= 512 * areaSect
      {
        MaxUsableAdjoint(g, areaSect, Clipped(MaxUsableExternal(g, areaSect), s));
      }
    } else {
      MaxUsableOutside(g, areaSect);
      var usable := MaxUsableExternal(g, areaSect);
      assert Clipped(usable, usable) == usable;
    }
  }

  // ---- the layouts, in bytes ----

  /** With flexible internal metadata that fits, the data area ends where the bitmap starts, and bitmap, log and
      superblock follow it. */
  lemma UsableInternally(g: Geometry, bdSize: nat, areaSect: nat)
    requires ValidGeometry(g) && 4096 <= bdSize && bdSize / 512 <= MAX_SECTORS
    requires RegionBytes(g, bdSize) <= MdByteOffset(FlexInternal, bdSize)
    ensures var r, md := FreshRelative(FlexInternal, g, bdSize), MdByteOffset(FlexInternal, bdSize);
            && r.Relative?
            && var al, bm := U64(md + r.alOffsetSect * 512), U64(md + r.bmOffsetSect * 512);
               && MaxUsableSectors(FlexInternal, g, areaSect, md, al, bm) * 512 == bm
               && bm + BmBytes(g.bytesPerBit, g.maxPeers, bdSize / 512) == al
               && al + g.alBlocks * 4096 == md
  {
    hide FreshRelative, MdByteOffset, BmBytes, U64, MaxUsableInternal, OffsetsAccepted;
    FlexSuperblock(bdSize);
    FreshOffsetsOnDisk(g, bdSize);
    BmBytesViaWords(g.bytesPerBit, g.maxPeers, bdSize / 512);
    var md, bytes := MdByteOffset(FlexInternal, bdSize), BmBytes(g.bytesPerBit, g.maxPeers, bdSize / 512);
    BlocksBelow(md, bytes, g.alBlocks);
    AlignedMin(md, md - g.alBlocks * 4096, md - g.alBlocks * 4096 - bytes);
  }

  lemma BlocksBelow(md: int, bytes: int, blocks: int)
    requires md % 4096 == 0 && bytes % 4096 == 0
    ensures (md - blocks * 4096 - bytes) % 4096 == 0
  {
    MultipleMod(md / 4096 - blocks - bytes / 4096, 4096);
  }

  /** External metadata in its byte range [md, end): superblock, log and bitmap follow each other and fill it. */
  predicate FillsRange(g: Geometry, r: Relative, md: nat, end: nat)
    requires r.Relative?
  {
    && r.mdSizeSect == (end - md) / 512
    && r.alOffsetSect == 8 && r.bmOffsetSect == 8 + g.alBlocks * 8
    && md + r.bmOffsetSect * 512 + r.bmBytes == end
  }

  /** The n-th index of external metadata has the n-th 128 MiB of the device, flexible external metadata all of it. */
  lemma ExternalRanges(g: Geometry, bdSize: nat, nr: nat)
    requires ValidGeometry(g) && nr < 0x10_0000_0000
    ensures MdByteOffset(Indexed(nr), bdSize) == nr * 0x800_0000 && MdByteOffset(FlexExternal, bdSize) == 0
    ensures var r := FreshRelative(Indexed(nr), g, bdSize);
            r.Relative? && FillsRange(g, r, nr * 0x800_0000, (nr + 1) * 0x800_0000)
    ensures bdSize < 0x200_0000_0000 && bdSize / 512 >= 8 + g.alBlocks * 8 ==>
              var r := FreshRelative(FlexExternal, g, bdSize);
              r.Relative? && FillsRange(g, r, 0, bdSize / 512 * 512)
  {
    AlSizeSectExact(g);
    SmallConversions(8 + g.alBlocks * 8);
    SmallConversions(nr * 0x800_0000);
    SmallConversions(262144 - 8 - g.alBlocks * 8);
    SmallConversions(512 * (262144 - 8 - g.alBlocks * 8));
    SmallConversions(bdSize / 512);
    if bdSize < 0x200_0000_0000 && bdSize / 512 >= 8 + g.alBlocks * 8 {
      SmallConversions(bdSize / 512 - 8 - g.alBlocks * 8);
      SmallConversions(512 * (bdSize / 512 - 8 - g.alBlocks * 8));
    }
  }

  /** The old fixed internal metadata, with the log of format 07, has the last 128 MiB in front of the last 4k boundary,
      laid out like external metadata; the data area ends in front of it. */
  lemma FixedInternalRange(g: Geometry, bdSize: nat, areaSect: nat)
    requires ValidGeometry(g) && g.alBlocks == 8 && 0x800_0000 <= bdSize < 0x1000_0000_0000_0000
    ensures var (r, md) := (FreshRelative(Internal, g, bdSize), bdSize / 4096 * 4096 - 0x800_0000);
            && MdByteOffset(Internal, bdSize) == md
            && r.Relative? && FillsRange(g, r, md, md + 0x800_0000)
            && MaxUsableSectors(Internal, g, areaSect, md, md + r.alOffsetSect * 512, md + r.bmOffsetSect * 512) * 512
               == md
  {
    RoundDownBounds(bdSize, 4096);
    AlSizeSectExact(g);
    SmallConversions(RoundDown(bdSize, 4096) - 0x800_0000);
    SmallConversions(262144 - 72);
    SmallConversions(512 * (262144 - 72));
    assert (bdSize / 4096 * 4096 - 0x800_0000) % 4096 == 0 by {
      MultipleMod(bdSize / 4096 - 0x8000, 4096);
    }
    AlignedMin(bdSize / 4096 * 4096, bdSize / 4096 * 4096, bdSize / 4096 * 4096 - 0x800_0000);
  }

  /** What external metadata can serve: with an area of whole 4k blocks, exactly the sizes whose bitmap fits. */
  lemma UsableExternally(index: MdIndex, g: Geometry, bdSize: nat, md: nat, al: nat, bm: nat, sectors: nat)
    requires ValidGeometry(g) && (index.Indexed? || index == FlexExternal)
    requires index == FlexExternal ==> 8 + g.alBlocks * 8 <= bdSize / 512 < 0x1_0000_0000 && bdSize / 512 % 8 == 0
    ensures var r := FreshRelative(index, g, bdSize);
            && r.Relative?
            && (BmBytes(g.bytesPerBit, g.maxPeers, sectors) <= r.bmBytes
                <==> sectors <= MaxUsableSectors(index, g, U32(r.mdSizeSect - r.bmOffsetSect), md, al, bm))
  {
    hide FreshRelative, BmBytes, MaxUsableExternal;
    var area := (if index == FlexExternal then bdSize / 512 else 262144) - 8 - g.alBlocks * 8;
    ExternalArea(index, g, bdSize, area);
    MaxUsableAdjoint(g, area, sectors);
  }

  lemma ExternalArea(index: MdIndex, g: Geometry, bdSize: nat, area: nat)
    requires ValidGeometry(g) && (index.Indexed? || index == FlexExternal)
    requires index == FlexExternal ==> bdSize / 512 < 0x1_0000_0000
    requires area == (if index == FlexExternal then bdSize / 512 else 262144) - 8 - g.alBlocks * 8
    ensures var r := FreshRelative(index, g, bdSize);
            r.Relative? && r.bmBytes == 512 * area && U32(r.mdSizeSect - r.bmOffsetSect) == area
  {
    AlSizeSectExact(g);
    SmallConversions(8 + g.alBlocks * 8);
    SmallConversions(bdSize / 512);
    SmallConversions(area);
    SmallConversions(512 * area);
    hide U32, U64, I32;
  }

  /** The tool exits exactly if the bitmap needs more than 32 GiB for each peer. */
  lemma TooLargeExactly(g: Geometry, bdSize: nat, bytes: nat)
    requires bytes % 4096 == 0
    ensures RelativeFor(FlexInternal, g, bdSize, bytes).TooLarge? <==> bytes > 0x8_0000_0000 * g.maxPeers
  {
    hide U64, U32, I32;
    RoundUpExact(bytes / 512, 8);
  }
}
