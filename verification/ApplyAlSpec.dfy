/** What apply_al is for: marking every hot activity log extent out of sync in the on-disk bitmap, for all peers. */
module ApplyAlSpec {
  import opened Arith
  import opened Layout
  import opened Word32

  const AL_EXTENTS_MAX: int := 65534
  const END_OF_LIST: int := 0xFFFF_FFFF

  /** Bits per 4 MiB extent for the supported bitmap block sizes. */
  predicate ValidBitsPerExtent(n: nat) {
    n in {4, 8, 16, 32, 64, 128, 256, 512, 1024}
  }

  /** Logical bits of an extent within one slot, and the bytes of the interleaved bitmap that hold them. */
  datatype ExtentBitRange = ExtentBitRange(bitS: nat, bitE: nat, posS: nat, posE: nat, aligned: nat)

  function EnrToBitRange(enr: nat, bitsPerExtent: nat, maxPeers: nat): ExtentBitRange
    requires maxPeers > 0
  {
    var bitS := enr * bitsPerExtent;
    var bitE := bitS + bitsPerExtent;
    var posS := bitS / 32 * maxPeers * 4;
    ExtentBitRange(bitS, bitE, posS, (bitE + 31) / 32 * maxPeers * 4, RoundDown(posS, 4096 * maxPeers))
  }

  /** The 32-bit mask of the sub-word branch: bits [bitS, bitE) of their word. */
  function SubWordMask(bitS: nat, bitE: nat): Word {
    And(ShiftLeft(AllOnes(), bitS % 32), ShiftRight(AllOnes(), (32 - bitE % 32) % 32))
  }

  function ExtentMask(enr: nat, bitsPerExtent: nat): Word {
    if bitsPerExtent >= 32 then AllOnes()
    else SubWordMask(enr * bitsPerExtent, enr * bitsPerExtent + bitsPerExtent)
  }

  // ---- the simple specification ----

  /** Words [lo, hi) ORed with mask. */
  function OrRange(bm: seq<Word>, lo: int, hi: int, mask: Word): (r: seq<Word>)
    ensures |r| == |bm|
  {
    seq(|bm|, i requires 0 <= i < |bm| => if lo <= i < hi then Or(bm[i], mask) else bm[i])
  }

  /** One extent: skipped if its words do not end before the end of the bitmap. */
  function SetExtent(bm: seq<Word>, enr: nat, bitsPerExtent: nat, maxPeers: nat): (r: seq<Word>)
    requires maxPeers > 0
    ensures |r| == |bm|
  {
    var ex := EnrToBitRange(enr, bitsPerExtent, maxPeers);
    if ex.posE >= 4 * |bm| then bm
    else OrRange(bm, ex.posS / 4, ex.posE / 4, ExtentMask(enr, bitsPerExtent))
  }

  /** One extent after the other. */
  function SetExtents(bm: seq<Word>, hot: seq<nat>, bitsPerExtent: nat, maxPeers: nat): (r: seq<Word>)
    requires maxPeers > 0
    ensures |r| == |bm|
  {
    if hot == [] then bm
    else SetExtent(SetExtents(bm, hot[..|hot| - 1], bitsPerExtent, maxPeers), hot[|hot| - 1], bitsPerExtent, maxPeers)
  }

  /** The extents in front of the first unused entry. */
  function HotExtents(hot: seq<nat>): (r: seq<nat>)
    ensures r <= hot && (|r| < |hot| ==> hot[|r|] == END_OF_LIST)
    ensures END_OF_LIST !in r
  {
    if hot == [] || hot[0] == END_OF_LIST then [] else [hot[0]] + HotExtents(hot[1..])
  }

  // ---- bits ----

  /** Where bit b of a peer's slot lives: 32-bit words of the slots alternate. */
  function WordIndex(maxPeers: nat, slot: nat, b: nat): nat {
    b / 32 * maxPeers + slot
  }

  function OnDiskBit(maxPeers: nat, slot: nat, b: nat): nat {
    b / 32 * 32 * maxPeers + slot * 32 + b % 32
  }

  predicate BitAt(bm: seq<Word>, maxPeers: nat, slot: nat, b: nat)
    requires WordIndex(maxPeers, slot, b) < |bm|
  {
    Bit(bm[WordIndex(maxPeers, slot, b)], b % 32)
  }

  /** The words of one extent end before the end of a bitmap of that many words. */
  predicate InBitmap(enr: nat, bitsPerExtent: nat, maxPeers: nat, words: nat)
    requires maxPeers > 0
  {
    EnrToBitRange(enr, bitsPerExtent, maxPeers).posE < 4 * words
  }

  function RowS(enr: nat, n: nat): nat { enr * n / 32 }
  function RowE(enr: nat, n: nat): nat { (enr * n + n + 31) / 32 }

  lemma RangeRows(enr: nat, n: nat, p: nat)
    requires p > 0
    ensures var ex := EnrToBitRange(enr, n, p);
            && ex.posS == RowS(enr, n) * p * 4 && ex.posS / 4 == RowS(enr, n) * p
            && ex.posE == RowE(enr, n) * p * 4 && ex.posE / 4 == RowE(enr, n) * p
            && ex.aligned <= ex.posS && ex.aligned % (4096 * p) == 0
  {
    RoundDownBounds(RowS(enr, n) * p * 4, 4096 * p);
  }

  lemma DivIff(x: nat, g: nat, q: nat)
    requires g > 0
    ensures x / g == q <==> q * g <= x < q * g + g
  {
    if q * g <= x < q * g + g {
      DivRange(x, g, q);
    }
  }

  /** From 32 bits per extent on, an extent is a whole number of word rows. */
  lemma WideExtent(enr: nat, k: nat, b: nat)
    requires k > 0
    ensures b / (32 * k) == enr <==> RowS(enr, 32 * k) <= b / 32 < RowE(enr, 32 * k)
    ensures RowS(enr, 32 * k) == enr * k && RowE(enr, 32 * k) == enr * k + k
  {
    var t := enr * k;
    assert enr * (32 * k) == 32 * t;
    DivIff(b, 32 * k, enr);
  }

  lemma MaskBits(bitS: nat, bitE: nat, k: nat)
    requires k < 32
    ensures Bit(SubWordMask(bitS, bitE), k) <==> bitS % 32 <= k < 32 - (32 - bitE % 32) % 32
  {
    ShiftedOnes(bitS % 32, k);
    ShiftedOnes((32 - bitE % 32) % 32, k);
  }

  lemma ShiftedOnes(n: nat, k: nat)
    requires k < 32 && n < 32
    ensures Bit(ShiftLeft(AllOnes(), n), k) <==> n <= k
    ensures Bit(ShiftRight(AllOnes(), n), k) <==> k < 32 - n
  {
  }

  /** Below, it is an aligned part of one word. */
  lemma NarrowExtent(enr: nat, n: nat, b: nat)
    requires n in {4, 8, 16}
    ensures RowE(enr, n) == RowS(enr, n) + 1
    ensures b / n == enr <==> b / 32 == RowS(enr, n)
                              && (enr * n) % 32 <= b % 32 < 32 - (32 - (enr * n + n) % 32) % 32
  {
    var m := if n == 4 then 8 else if n == 8 then 4 else 2;
    NarrowParts(enr / m, enr % m, m, n, b);
  }

  lemma NarrowParts(q: nat, r: nat, m: nat, n: nat, b: nat)
    requires m * n == 32 && r < m
    ensures ((q * m + r) * n + n + 31) / 32 == (q * m + r) * n / 32 + 1
    ensures b / n == q * m + r <==>
            b / 32 == (q * m + r) * n / 32
            && ((q * m + r) * n) % 32 <= b % 32 < 32 - (32 - ((q * m + r) * n + n) % 32) % 32
  {
    var e, o := (q * m + r) * n, n * r;
    assert e == 32 * q + o && 0 < n && o + n <= 32 by {
      PartOffset(q, r, m, n);
    }
    assert b / n == q * m + r <==> e <= b < e + n by {
      DivIff(b, n, q * m + r);
    }
    WordPart(q, o, n, b);
  }

  lemma PartOffset(q: nat, r: nat, m: nat, n: nat)
    requires m * n == 32 && r < m
    ensures (q * m + r) * n == 32 * q + n * r && 0 <= n * r && n * r + n <= 32
  {
    Regroup(q, r, m, n);
    MulMonotone(r + 1, m, n);
  }

  lemma Regroup(q: nat, r: nat, m: nat, n: nat)
    requires m * n == 32
    ensures (q * m + r) * n == 32 * q + n * r && (q * m + r) * n + n == 32 * q + n * (r + 1)
  {
    assert q * m * n == q * (m * n);
  }

  /** A part [o, o + n) of 32-bit word q. */
  lemma WordPart(q: nat, o: nat, n: nat, b: nat)
    requires 0 < n && o + n <= 32
    ensures (32 * q + o) / 32 == q && (32 * q + o) % 32 == o && (32 * q + o + n + 31) / 32 == q + 1
    ensures 32 - (32 - (32 * q + o + n) % 32) % 32 == o + n
    ensures 32 * q + o <= b < 32 * q + o + n <==> b / 32 == q && o <= b % 32 < o + n
  {
    DivRange(32 * q + o, 32, q);
    DivRange(32 * q + o + n + 31, 32, q + 1);
    if o + n < 32 {
      DivRange(32 * q + o + n, 32, q);
    } else {
      DivRange(32 * q + o + n, 32, q + 1);
    }
  }

  /** Bit b belongs to extent enr exactly if its word row is one of the extent's and, below 32 bits per extent,
      the mask has it. */
  lemma ExtentBits(enr: nat, n: nat, b: nat)
    requires ValidBitsPerExtent(n)
    ensures b / n == enr <==> RowS(enr, n) <= b / 32 < RowE(enr, n) && Bit(ExtentMask(enr, n), b % 32)
  {
    if n < 32 {
      NarrowExtent(enr, n, b);
      MaskBits(enr * n, enr * n + n, b % 32);
    } else {
      assert n == 32 * (n / 32);
      WideExtent(enr, n / 32, b);
    }
  }

  lemma RowInRange(p: nat, slot: nat, row: int, lo: int, hi: int)
    requires slot < p
    ensures lo * p <= row * p + slot < hi * p <==> lo <= row < hi
  {
    if lo <= row {
      MulMonotone(lo, row, p);
    } else {
      MulMonotone(row + 1, lo, p);
    }
    if row < hi {
      MulMonotone(row + 1, hi, p);
    } else {
      MulMonotone(hi, row, p);
    }
  }

  /** One extent sets exactly its own bits, in every slot. */
  lemma SetExtentBits(bm: seq<Word>, enr: nat, n: nat, p: nat, slot: nat, b: nat)
    requires ValidBitsPerExtent(n) && slot < p && WordIndex(p, slot, b) < |bm|
    ensures BitAt(SetExtent(bm, enr, n, p), p, slot, b)
            <==> BitAt(bm, p, slot, b) || (b / n == enr && InBitmap(enr, n, p, |bm|))
  {
    RangeRows(enr, n, p);
    RowInRange(p, slot, b / 32, RowS(enr, n), RowE(enr, n));
    ExtentBits(enr, n, b);
  }

  /** The meaning of the simple specification: a bit is set afterwards exactly if it was set before, or its extent
      is hot and ends before the end of the bitmap. This holds for every slot, so no slot is treated differently. */
  lemma {:induction false} SetExtentsBits(bm: seq<Word>, hot: seq<nat>, n: nat, p: nat, slot: nat, b: nat)
    requires ValidBitsPerExtent(n) && slot < p && WordIndex(p, slot, b) < |bm|
    ensures BitAt(SetExtents(bm, hot, n, p), p, slot, b)
            <==> BitAt(bm, p, slot, b) || (b / n in hot && InBitmap(b / n, n, p, |bm|))
  {
    if hot != [] {
      var k := |hot| - 1;
      SetExtentsBits(bm, hot[..k], n, p, slot, b);
      SetExtentBits(SetExtents(bm, hot[..k], n, p), hot[k], n, p, slot, b);
      assert hot == hot[..k] + [hot[k]];
    }
  }

  /** (slot, logical bit) to on-disk bit is one to one and onto. */
  lemma OnDiskBitInverse(p: nat, slot: nat, b: nat)
    requires slot < p
    ensures var d := OnDiskBit(p, slot, b);
            && d / 32 == WordIndex(p, slot, b) && d % 32 == b % 32
            && d / 32 % p == slot && d / 32 / p * 32 + d % 32 == b
  {
    var w := WordIndex(p, slot, b);
    assert OnDiskBit(p, slot, b) == 32 * w + b % 32 by {
      assert b / 32 * 32 * p == 32 * (b / 32 * p);
    }
    DivRange(w, p, b / 32);
  }

  lemma OnDiskBitOnto(p: nat, d: nat)
    requires p > 0
    ensures d / 32 % p < p && OnDiskBit(p, d / 32 % p, d / 32 / p * 32 + d % 32) == d
  {
    var w := d / 32;
    var b := w / p * 32 + d % 32;
    assert b / 32 == w / p && b % 32 == d % 32;
    assert w == w / p * p + w % p;
    assert b / 32 * 32 * p == 32 * (w / p * p);
  }

  // ---- which extents of a device are skipped ----

  /** Bits per extent for a bitmap block size. */
  function BitsPerExtent(bytesPerBit: nat): nat
    requires bytesPerBit > 0
  {
    0x40_0000 / bytesPerBit
  }

  lemma EnoughBits(sectors: nat, k: nat, n: nat, enr: nat)
    requires k > 0 && n * k == 8192 && (enr + 1) * 8192 <= sectors
    ensures enr * n + n <= (sectors + k - 1) / k
  {
    var bits := (sectors + k - 1) / k;
    CeilLeast(sectors, k, bits);
    assert (enr * n + n) * k == (enr + 1) * (n * k);
    MulCancel(enr * n + n, bits, k);
  }

  lemma ExtentSlotWords(bytesPerBit: nat, sectors: nat, enr: nat)
    requires ValidBlockSize(bytesPerBit) && (enr + 1) * 8192 <= sectors
    ensures ValidBitsPerExtent(BitsPerExtent(bytesPerBit))
    ensures RowE(enr, BitsPerExtent(bytesPerBit)) <= 2 * SlotWords(bytesPerBit, sectors)
  {
    EnoughBits(sectors, bytesPerBit / 512, BitsPerExtent(bytesPerBit), enr);
  }

  /** An extent that lies wholly on the device ends inside the bitmap; so it is skipped exactly if its last word is
      the last word of the bitmap. */
  lemma WholeExtents(bytesPerBit: nat, p: nat, sectors: nat, enr: nat)
    requires ValidBlockSize(bytesPerBit) && 1 <= p < DRBD_PEERS_MAX && (enr + 1) * 8192 <= sectors
    ensures var n, words := BitsPerExtent(bytesPerBit), BmBytes(bytesPerBit, p, sectors) / 4;
            !InBitmap(enr, n, p, words) <==> EnrToBitRange(enr, n, p).posE == 4 * words
  {
    var n, w := BitsPerExtent(bytesPerBit), SlotWords(bytesPerBit, sectors);
    RangeRows(enr, n, p);
    ExtentSlotWords(bytesPerBit, sectors, enr);
    BmBytesViaWords(bytesPerBit, p, sectors);
    MulMonotone(RowE(enr, n), 2 * w, p);
    WordsToBytes(w, p);
  }

  lemma WordsToBytes(w: nat, p: nat)
    ensures 2 * w * p * 4 == w * 8 * p
  {
  }

  /** A 128 MiB device with one peer: the last extent is skipped although all of it is on the device. */
  lemma LastExtentSkipped()
    ensures var words := BmBytes(4096, 1, 262144) / 4;
            (31 + 1) * 8192 == 262144 && !InBitmap(31, 1024, 1, words) && InBitmap(30, 1024, 1, words)
  {
  }

  /** A partial last extent can be skipped as well, for instance 4k of it with three peers. */
  lemma PartialExtentSkipped()
    ensures var words := BmBytes(4096, 3, 10 * 8192 + 8) / 4;
            !InBitmap(10, 1024, 3, words) && InBitmap(9, 1024, 3, words)
  {
  }
}
