/** apply_al: the batched read/modify/write of the on-disk bitmap. Bitmap and buffer are arrays of 32-bit words. */
module ApplyAl {
  import opened Arith
  import opened Layout
  import opened BitmapBuffer
  import opened Word32
  import opened ApplyAlSpec

  predicate Sorted(hot: seq<nat>) {
    forall i, j :: 0 <= i < j < |hot| ==> hot[i] <= hot[j]
  }

  // ---- changing the buffer ----

  /** memset(..., 0xff, ...) of whole words. */
  method SetWords(buffer: array<Word>, lo: nat, hi: nat)
    requires lo <= hi <= buffer.Length
    modifies buffer
    ensures buffer[..] == OrRange(old(buffer[..]), lo, hi, AllOnes())
  {
    for l := lo to hi
      invariant forall x :: 0 <= x < buffer.Length ==> buffer[x] == if lo <= x < l then AllOnes() else old(buffer[x])
    {
      buffer[l] := AllOnes();
    }
    forall x | lo <= x < hi
      ensures buffer[x] == Or(old(buffer[x]), AllOnes())
    {
      OrAllOnes(old(buffer[x]));
    }
  }

  /** The sub-word branch: the same mask for each slot's word, counting the bits that were not set before. */
  method SetBitsInWords(buffer: array<Word>, lo: nat, hi: nat, mask: Word) returns (added: nat)
    requires lo <= hi <= buffer.Length
    modifies buffer
    ensures buffer[..] == OrRange(old(buffer[..]), lo, hi, mask)
    ensures TotalOnes(buffer[..]) == TotalOnes(old(buffer[..])) + added
  {
    added := 0;
    for l := lo to hi
      invariant forall x :: 0 <= x < buffer.Length ==>
                  buffer[x] == if lo <= x < l then Or(old(buffer[x]), mask) else old(buffer[x])
      invariant TotalOnes(buffer[..]) == TotalOnes(old(buffer[..])) + added
    {
      var bitsSet := Ones(buffer[l]);
      ghost var before := buffer[..];
      OrGrows(buffer[l], mask);
      TotalOnesUpdate(before, l, Or(before[l], mask));
      buffer[l] := Or(buffer[l], mask);
      assert buffer[..] == before[l := Or(before[l], mask)];
      added := added + (Ones(buffer[l]) - bitsSet);
    }
  }

  // ---- where an extent lies ----

  lemma RowsMonotone(e: nat, e': nat, n: nat)
    requires e <= e'
    ensures RowS(e, n) <= RowS(e', n) && RowE(e, n) <= RowE(e', n)
  {
    MulMonotone(e, e', n);
  }

  lemma RangesMonotone(e: nat, e': nat, n: nat, p: nat)
    requires p > 0 && e <= e'
    ensures EnrToBitRange(e, n, p).posS <= EnrToBitRange(e', n, p).posS
    ensures EnrToBitRange(e, n, p).posE <= EnrToBitRange(e', n, p).posE
  {
    RowsMonotone(e, e', n);
    MulMonotone(RowS(e, n), RowS(e', n), p);
    MulMonotone(RowE(e, n), RowE(e', n), p);
    RangeRows(e, n, p);
    RangeRows(e', n, p);
  }

  /** An extent never crosses a boundary of 1024 word rows. */
  lemma ExtentInBlock(e: nat, n: nat)
    requires ValidBitsPerExtent(n)
    ensures RowS(e, n) < RowE(e, n) <= RoundDown(RowS(e, n), 1024) + 1024
  {
    if n < 32 {
      NarrowExtent(e, n, 0);
    } else {
      assert n == 32 * (n / 32);
      WideExtent(e, n / 32, 0);
      WideInBlock(e, n / 32, 1024 / (n / 32));
    }
  }

  lemma WideInBlock(e: nat, k: nat, m: nat)
    requires m > 0 && m * k == 1024
    ensures e * k + k <= RoundDown(e * k, 1024) + 1024
  {
    var q, r := e / m, e % m;
    assert e == q * m + r && r < m;
    WideParts(q, r, m, k);
    DivRange(e * k, 1024, q);
  }

  lemma WideParts(q: nat, r: nat, m: nat, k: nat)
    requires m * k == 1024 && r < m
    ensures 1024 * q <= (q * m + r) * k && (q * m + r) * k + k <= 1024 * q + 1024
  {
    assert (q * m + r) * k == q * (m * k) + r * k;
    MulMonotone(r + 1, m, k);
  }

  /** Aligning down to 4k times the peer count is aligning the row down to 1024. */
  lemma AlignedRow(e: nat, n: nat, p: nat)
    requires p > 0
    ensures EnrToBitRange(e, n, p).aligned == RoundDown(RowS(e, n), 1024) * p * 4
  {
    RangeRows(e, n, p);
    AlignedProduct(RowS(e, n), RowS(e, n) / 1024, p);
  }

  lemma AlignedProduct(row: nat, q: nat, p: nat)
    requires p > 0 && q * 1024 <= row < q * 1024 + 1024
    ensures RoundDown(row * p * 4, 4096 * p) == q * 1024 * p * 4
  {
    MulMonotone(q * 1024, row, p);
    MulMonotone(row + 1, q * 1024 + 1024, p);
    var g := 4096 * p;
    assert q * g == q * 1024 * p * 4;
    DivRange(row * p * 4, g, q);
  }

  lemma AlignedTo4k(e: nat, n: nat, p: nat)
    requires p > 0
    ensures EnrToBitRange(e, n, p).aligned % 4096 == 0
  {
    AlignedRow(e, n, p);
    var q := RowS(e, n) / 1024;
    assert RoundDown(RowS(e, n), 1024) * p * 4 == q * p * 4096;
    MultipleMod(q * p, 4096);
  }

  lemma SingleExtentFits(e: nat, n: nat, p: nat)
    requires ValidBitsPerExtent(n) && 1 <= p <= 32
    ensures EnrToBitRange(e, n, p).posE <= EnrToBitRange(e, n, p).aligned + 4096 * p
  {
    AlignedRow(e, n, p);
    RangeRows(e, n, p);
    ExtentInBlock(e, n);
    MulMonotone(RowE(e, n), RoundDown(RowS(e, n), 1024) + 1024, p);
  }

  lemma ChunkEnd(posE: nat, aligned: nat, bmWords: nat, bufWords: nat, p: nat)
    requires aligned % 4096 == 0 && bmWords % 1024 == 0 && bufWords % 1024 == 0 && 1024 * p <= bufWords
    requires posE <= 4 * bmWords && (posE <= aligned + 4096 * p || posE <= aligned + 4 * bufWords)
    ensures posE <= RoundUp(posE, 4096) <= 4 * bmWords
    ensures RoundUp(posE, 4096) <= aligned + 4 * bufWords
    ensures RoundUp(posE, 4096) % 4096 == 0
  {
    MultipleMod(bmWords / 1024, 4096);
    MultipleMod(aligned / 4096 + bufWords / 1024, 4096);
    RoundUpBounds(posE, 4096);
    RoundUpLeast(posE, 4096, 4 * bmWords);
    RoundUpLeast(posE, 4096, aligned + 4 * bufWords);
  }

  // ---- extents as patches of the bitmap ----

  /** Bytes [posS, posE) of the bitmap get mask; a read for it may start at aligned. */
  datatype Patch = Patch(posS: nat, posE: nat, aligned: nat, mask: Word)

  function PatchOf(enr: nat, n: nat, p: nat): Patch
    requires p > 0
  {
    var ex := EnrToBitRange(enr, n, p);
    Patch(ex.posS, ex.posE, ex.aligned, if n >= 32 then AllOnes() else SubWordMask(ex.bitS, ex.bitE))
  }

  function SetPatch(bm: seq<Word>, x: Patch): (r: seq<Word>)
    ensures |r| == |bm|
  {
    if x.posE >= 4 * |bm| then bm else OrRange(bm, x.posS / 4, x.posE / 4, x.mask)
  }

  function SetPatches(bm: seq<Word>, xs: seq<Patch>): (r: seq<Word>)
    ensures |r| == |bm|
  {
    if xs == [] then bm else SetPatch(SetPatches(bm, xs[..|xs| - 1]), xs[|xs| - 1])
  }

  ghost predicate PatchesOf(xs: seq<Patch>, hot: seq<nat>, n: nat, p: nat)
    requires p > 0
  {
    |xs| == |hot| && forall k {:trigger PatchOf(hot[k], n, p)} :: 0 <= k < |hot| ==> xs[k] == PatchOf(hot[k], n, p)
  }

  predicate WellPlaced(x: Patch, p: nat) {
    && x.aligned % 4096 == 0 && x.posS % 4 == 0 && x.posE % 4 == 0
    && x.aligned <= x.posS < x.posE <= x.aligned + 4096 * p
  }

  /** What the batching relies on. */
  ghost predicate Orderly(xs: seq<Patch>, p: nat) {
    && (forall k :: 0 <= k < |xs| ==> WellPlaced(xs[k], p))
    && forall k, l :: 0 <= k <= l < |xs| ==> xs[k].posS <= xs[l].posS && xs[k].posE <= xs[l].posE
  }

  lemma PatchAligned(e: nat, n: nat, p: nat)
    requires ValidBitsPerExtent(n) && 1 <= p <= 32
    ensures PatchOf(e, n, p).aligned % 4096 == 0
    ensures PatchOf(e, n, p).aligned <= PatchOf(e, n, p).posS
    ensures PatchOf(e, n, p).posE <= PatchOf(e, n, p).aligned + 4096 * p
  {
    AlignedTo4k(e, n, p);
    SingleExtentFits(e, n, p);
    RangeRows(e, n, p);
  }

  lemma PatchWords(e: nat, n: nat, p: nat)
    requires ValidBitsPerExtent(n) && 1 <= p <= 32
    ensures PatchOf(e, n, p).posS % 4 == 0 && PatchOf(e, n, p).posE % 4 == 0
    ensures PatchOf(e, n, p).posS < PatchOf(e, n, p).posE
  {
    RangeRows(e, n, p);
    assert RowS(e, n) < RowE(e, n) by {
      ExtentInBlock(e, n);
    }
    Words(RowS(e, n), RowE(e, n), p);
  }

  lemma Words(s: nat, e: nat, p: nat)
    requires s < e && p > 0
    ensures (s * p * 4) % 4 == 0 && (e * p * 4) % 4 == 0 && s * p * 4 < e * p * 4
  {
    MulMonotone(s + 1, e, p);
    MultipleMod(s * p, 4);
    MultipleMod(e * p, 4);
  }

  /** The ranges of all extents, as enr_to_bit_range gives them. */
  method MakePatches(hot: seq<nat>, n: nat, p: nat) returns (xs: seq<Patch>)
    requires ValidBitsPerExtent(n) && 1 <= p <= 32 && Sorted(hot)
    ensures PatchesOf(xs, hot, n, p) && Orderly(xs, p)
  {
    xs := seq(|hot|, k requires 0 <= k < |hot| => PatchOf(hot[k], n, p));
    forall k | 0 <= k < |xs|
      ensures WellPlaced(xs[k], p)
    {
      PatchAligned(hot[k], n, p);
      PatchWords(hot[k], n, p);
    }
    forall k, l | 0 <= k <= l < |xs|
      ensures xs[k].posS <= xs[l].posS && xs[k].posE <= xs[l].posE
    {
      RangesMonotone(hot[k], hot[l], n, p);
    }
  }

  lemma {:induction false} SetPatchesIsSetExtents(bm: seq<Word>, xs: seq<Patch>, hot: seq<nat>, n: nat, p: nat)
    requires p > 0 && PatchesOf(xs, hot, n, p)
    ensures SetPatches(bm, xs) == SetExtents(bm, hot, n, p)
  {
    if hot != [] {
      var k := |hot| - 1;
      assert xs[k] == PatchOf(hot[k], n, p);
      forall m | 0 <= m < k
        ensures xs[..k][m] == PatchOf(hot[..k][m], n, p)
      {
        assert xs[m] == PatchOf(hot[m], n, p);
      }
      SetPatchesIsSetExtents(bm, xs[..k], hot[..k], n, p);
      ghost var before := SetPatches(bm, xs[..k]);
      assert SetPatch(before, xs[k]) == SetExtent(before, hot[k], n, p);
    }
  }

  lemma {:induction false} SetPatchesAppend(bm: seq<Word>, a: seq<Patch>, b: seq<Patch>)
    ensures SetPatches(bm, a + b) == SetPatches(SetPatches(bm, a), b)
    decreases |b|
  {
    if b == [] {
      assert a + b == a;
    } else {
      var k := |b| - 1;
      SetPatchesAppend(bm, a, b[..k]);
      assert (a + b)[..|a + b| - 1] == a + b[..k];
    }
  }

  lemma SetPatchesStep(bm: seq<Word>, xs: seq<Patch>, i: nat, k: nat)
    requires i <= k < |xs|
    ensures SetPatches(bm, xs[i..k + 1]) == SetPatch(SetPatches(bm, xs[i..k]), xs[k])
  {
    assert xs[i..k + 1][..k - i] == xs[i..k];
  }

  // ---- a window of the bitmap in the buffer ----

  lemma WindowOnes(bm: seq<Word>, bm': seq<Word>, lo: nat, cw: nat, buf: seq<Word>, buf': seq<Word>)
    requires Holds(buf, bm, lo, cw) && Holds(buf', bm', lo, cw)
    requires AgreeOutside(bm, bm', lo, cw) && AgreeOutside(buf, buf', 0, cw)
    ensures TotalOnes(bm') - TotalOnes(bm) == TotalOnes(buf') - TotalOnes(buf)
  {
    assert TotalOnes(bm') - TotalOnes(bm) == OnesIn(bm', lo, lo + cw) - OnesIn(bm, lo, lo + cw) by {
      ChangedOnes(bm, bm', lo, cw);
    }
    assert TotalOnes(buf') - TotalOnes(buf) == OnesIn(buf', 0, 0 + cw) - OnesIn(buf, 0, 0 + cw) by {
      ChangedOnes(buf, buf', 0, cw);
    }
    assert OnesIn(buf, 0, 0 + cw) == OnesIn(bm, lo, lo + cw) by {
      OnesInSame(buf, 0, bm, lo, cw);
    }
    assert OnesIn(buf', 0, 0 + cw) == OnesIn(bm', lo, lo + cw) by {
      OnesInSame(buf', 0, bm', lo, cw);
    }
  }

  lemma ChangedOnes(a: seq<Word>, b: seq<Word>, lo: nat, cw: nat)
    requires AgreeOutside(a, b, lo, cw) && lo + cw <= |a|
    ensures TotalOnes(b) - TotalOnes(a) == OnesIn(b, lo, lo + cw) - OnesIn(a, lo, lo + cw)
  {
    ThreeParts(a, lo, lo + cw);
    ThreeParts(b, lo, lo + cw);
    SameOnes(a, b, 0, lo);
    SameOnes(a, b, lo + cw, |a|);
  }

  lemma {:induction false} SameOnes(a: seq<Word>, b: seq<Word>, lo: nat, hi: nat)
    requires lo <= hi <= |a| && |b| == |a|
    requires forall x :: lo <= x < hi ==> a[x] == b[x]
    ensures OnesIn(a, lo, hi) == OnesIn(b, lo, hi)
  {
    if lo < hi {
      SameOnes(a, b, lo, hi - 1);
    }
  }

  lemma ThreeParts(a: seq<Word>, lo: nat, hi: nat)
    requires lo <= hi <= |a|
    ensures TotalOnes(a) == OnesIn(a, 0, lo) + OnesIn(a, lo, hi) + OnesIn(a, hi, |a|)
  {
    OnesInSplit(a, 0, lo, |a|);
    OnesInSplit(a, lo, hi, |a|);
  }

  // ---- the loops ----

  /** What the loops report of a change: the bits newly set, except that setting whole words is not counted. */
  function Counted(wide: bool, before: seq<Word>, after: seq<Word>): int {
    if wide then 0 else TotalOnes(after) - TotalOnes(before)
  }

  /** One extent, in the buffer that holds the bitmap from word lo on; wide means whole words. */
  method ApplyExtent(buffer: array<Word>, lo: nat, x: Patch, wide: bool) returns (added: nat)
    requires x.posS % 4 == 0 && x.posE % 4 == 0 && (wide ==> x.mask == AllOnes())
    requires 4 * lo <= x.posS <= x.posE <= 4 * (lo + buffer.Length)
    modifies buffer
    ensures buffer[..] == OrRange(old(buffer[..]), x.posS / 4 - lo, x.posE / 4 - lo, x.mask)
    ensures added == Counted(wide, old(buffer[..]), buffer[..])
  {
    var s, e := x.posS / 4 - lo, x.posE / 4 - lo;
    if wide {
      SetWords(buffer, s, e);
      added := 0;
    } else {
      added := SetBitsInWords(buffer, s, e, x.mask);
    }
  }

  /** The bitmap after one more patch, given that the buffer holds its window. */
  lemma AfterPatch(target: seq<Word>, lo: nat, cw: nat, buf: seq<Word>, buf': seq<Word>, x: Patch)
    requires Holds(buf, target, lo, cw)
    requires x.posE < 4 * |target| && 4 * lo <= x.posS <= x.posE <= 4 * (lo + cw)
    requires x.posS % 4 == 0 && x.posE % 4 == 0
    requires buf' == OrRange(buf, x.posS / 4 - lo, x.posE / 4 - lo, x.mask)
    ensures Holds(buf', SetPatch(target, x), lo, cw)
    ensures AgreeOutside(target, SetPatch(target, x), lo, cw)
    ensures TotalOnes(SetPatch(target, x)) - TotalOnes(target) == TotalOnes(buf') - TotalOnes(buf)
  {
    WindowOnes(target, SetPatch(target, x), lo, cw, buf, buf');
  }

  /** Patches i..j can be covered with one read and one write of the buffer. */
  ghost predicate Coverable(xs: seq<Patch>, i: nat, j: nat, bmWords: nat, bufWords: nat) {
    && i <= j < |xs|
    && xs[j].posE < 4 * bmWords
    && (i < j ==> xs[j].posE < xs[i].aligned + 4 * bufWords)
  }

  ghost predicate Masked(xs: seq<Patch>, wide: bool) {
    wide ==> forall k :: 0 <= k < |xs| ==> xs[k].mask == AllOnes()
  }

  /** The chunk that covers patches i..j, in words: from lo on, cw of them. */
  ghost predicate Covers(xs: seq<Patch>, i: nat, j: nat, lo: nat, cw: nat)
    requires i <= j < |xs|
  {
    forall k :: i <= k <= j ==>
      4 * lo <= xs[k].posS <= xs[k].posE <= 4 * (lo + cw) && xs[k].posS % 4 == 0 && xs[k].posE % 4 == 0
  }

  lemma ChunkWords(xs: seq<Patch>, i: nat, j: nat, bmWords: nat, bufWords: nat, p: nat)
    requires 1 <= p <= 32 && Orderly(xs, p) && Coverable(xs, i, j, bmWords, bufWords)
    requires bmWords % 1024 == 0 && bufWords % 1024 == 0 && bufWords >= 32 * 1024
    ensures xs[i].aligned <= RoundUp(xs[j].posE, 4096)
    ensures var lo, cw := xs[i].aligned / 4, (RoundUp(xs[j].posE, 4096) - xs[i].aligned) / 4;
            lo + cw <= bmWords && cw <= bufWords && Covers(xs, i, j, lo, cw)
  {
    assert WellPlaced(xs[i], p) && WellPlaced(xs[j], p);
    ChunkEnd(xs[j].posE, xs[i].aligned, bmWords, bufWords, p);
    var end := RoundUp(xs[j].posE, 4096);
    forall k | i <= k <= j
      ensures 4 * (xs[i].aligned / 4) <= xs[k].posS <= xs[k].posE <= 4 * (xs[i].aligned / 4 + (end - xs[i].aligned) / 4)
      ensures xs[k].posS % 4 == 0 && xs[k].posE % 4 == 0
    {
      assert WellPlaced(xs[k], p) && xs[i].posS <= xs[k].posS && xs[k].posE <= xs[j].posE;
      InChunk(xs[i].aligned, end, xs[k].posE);
    }
    InChunk(xs[i].aligned, end, end);
  }

  lemma InChunk(aligned: nat, end: nat, pos: nat)
    requires aligned % 4096 == 0 && end % 4096 == 0 && aligned <= pos <= end
    ensures 4 * (aligned / 4) == aligned && pos <= end == 4 * (aligned / 4 + (end - aligned) / 4)
  {
    var q, r := aligned / 4096, end / 4096;
    assert aligned == 4096 * q && end == 4096 * r;
    assert aligned / 4 == 1024 * q && (end - aligned) / 4 == 1024 * (r - q);
  }

  /** Change the bits of one extent in the buffer, which holds words lo to lo + cw of target. */
  method ChangeBitsOnce(buffer: array<Word>, x: Patch, lo: nat, cw: nat, wide: bool, ghost bm: seq<Word>,
                        ghost target: seq<Word>)
    returns (added: nat)
    requires Holds(buffer[..], target, lo, cw) && AgreeOutside(bm, target, lo, cw) && x.posE < 4 * |bm|
    requires 4 * lo <= x.posS <= x.posE <= 4 * (lo + cw) && x.posS % 4 == 0 && x.posE % 4 == 0
    requires wide ==> x.mask == AllOnes()
    modifies buffer
    ensures Holds(buffer[..], SetPatch(target, x), lo, cw)
    ensures AgreeOutside(bm, SetPatch(target, x), lo, cw)
    ensures added == Counted(wide, target, SetPatch(target, x))
  {
    added := ApplyExtent(buffer, lo, x, wide);
    AfterPatch(target, lo, cw, old(buffer[..]), buffer[..], x);
  }

  /** What ChangeBits needs of one extent. */
  predicate Changeable(x: Patch, lo: nat, cw: nat, wide: bool, bmWords: nat) {
    && x.posE < 4 * bmWords && x.posS % 4 == 0 && x.posE % 4 == 0
    && 4 * lo <= x.posS <= x.posE <= 4 * (lo + cw)
    && (wide ==> x.mask == AllOnes())
  }

  /** Change the bits of all these extents in the buffer, which holds words lo to lo + cw of the bitmap. */
  method ChangeBits(buffer: array<Word>, xs: seq<Patch>, lo: nat, cw: nat, wide: bool, ghost bm: seq<Word>)
    returns (added: nat)
    requires forall k :: 0 <= k < |xs| ==> Changeable(xs[k], lo, cw, wide, |bm|)
    requires Holds(buffer[..], bm, lo, cw)
    modifies buffer
    ensures Holds(buffer[..], SetPatches(bm, xs), lo, cw)
    ensures AgreeOutside(bm, SetPatches(bm, xs), lo, cw)
    ensures added == Counted(wide, bm, SetPatches(bm, xs))
  {
    ghost var target := bm;
    added := 0;
    assert xs[0..0] == [];
    for k := 0 to |xs|
      invariant target == SetPatches(bm, xs[0..k])
      invariant Holds(buffer[..], target, lo, cw) && AgreeOutside(bm, target, lo, cw)
      invariant added == Counted(wide, bm, target)
    {
      var a := ChangeBitsOnce(buffer, xs[k], lo, cw, wide, bm, target);
      SetPatchesStep(bm, xs, 0, k);
      target := SetPatch(target, xs[k]);
      added := added + a;
    }
    assert xs[0..|xs|] == xs;
  }

  /** One read/modify/write cycle for extents i..j, and the image its write leaves. */
  method ApplyBatch(bitmap: array<Word>, buffer: array<Word>, xs: seq<Patch>, i: nat, j: nat, wide: bool, ghost p: nat)
    returns (added: nat, ghost image: seq<Word>)
    requires 1 <= p <= 32 && bitmap != buffer && Orderly(xs, p) && Masked(xs, wide)
    requires bitmap.Length % 1024 == 0 && buffer.Length % 1024 == 0 && buffer.Length >= 32 * 1024
    requires Coverable(xs, i, j, bitmap.Length, buffer.Length)
    modifies bitmap, buffer
    ensures bitmap[..] == SetPatches(old(bitmap[..]), xs[i..j + 1]) == image
    ensures added == Counted(wide, old(bitmap[..]), bitmap[..])
  {
    ChunkWords(xs, i, j, bitmap.Length, buffer.Length, p);
    // the end need only be on a 4k boundary, not on one for each peer
    var chunk := RoundUp(xs[j].posE, 4096) - xs[i].aligned;
    var lo, cw := xs[i].aligned / 4, chunk / 4;
    ReadWords(bitmap, buffer, lo, cw);
    ghost var bm := bitmap[..];
    ghost var batch := xs[i..j + 1];
    forall k | 0 <= k < |batch|
      ensures Changeable(batch[k], lo, cw, wide, |bm|)
    {
      assert xs[i + k].posE <= xs[j].posE;
    }
    added := ChangeBits(buffer, xs[i..j + 1], lo, cw, wide, bm);
    WriteWords(bitmap, buffer, lo, cw, SetPatches(bm, xs[i..j + 1]));
    image := bitmap[..];
  }

  /** The longest run of extents from i on that one read and write of the buffer can cover. */
  method BatchEnd(hot: seq<nat>, xs: seq<Patch>, i: nat, bmWords: nat, bufWords: nat) returns (j: nat)
    requires |xs| == |hot| && i < |HotExtents(hot)| && xs[i].posE < 4 * bmWords
    ensures j < |HotExtents(hot)| && Coverable(xs, i, j, bmWords, bufWords)
    ensures j + 1 < |HotExtents(hot)| ==> !Coverable(xs, i, j + 1, bmWords, bufWords)
  {
    j := i;
    while j + 1 < |hot| && hot[j + 1] != END_OF_LIST
      invariant j < |HotExtents(hot)| && Coverable(xs, i, j, bmWords, bufWords)
    {
      if xs[j + 1].posE >= 4 * bmWords {
        break;
      }
      if xs[j + 1].posE >= xs[i].aligned + 4 * bufWords {
        break;
      }
      j := j + 1;
    }
  }

  /** One round of the loop over all extents: skip extent i, or cover as many as fit with one batch. */
  method ApplyRound(bitmap: array<Word>, buffer: array<Word>, hot: seq<nat>, xs: seq<Patch>, i: nat, wide: bool,
                    ghost p: nat)
    returns (next: nat, added: nat, ghost images: seq<seq<Word>>)
    requires 1 <= p <= 32 && bitmap != buffer && |xs| == |hot| && Orderly(xs, p) && Masked(xs, wide)
    requires bitmap.Length % 1024 == 0 && buffer.Length % 1024 == 0 && buffer.Length >= 32 * 1024
    requires i < |HotExtents(hot)|
    modifies bitmap, buffer
    ensures i < next <= |HotExtents(hot)|
    ensures bitmap[..] == SetPatches(old(bitmap[..]), xs[i..next])
    ensures images == [bitmap[..]] || (images == [] && bitmap[..] == old(bitmap[..]))
    ensures added == Counted(wide, old(bitmap[..]), bitmap[..])
  {
    hide Orderly, Masked, SetPatches;
    if xs[i].posE >= 4 * bitmap.Length {
      SkippedPatch(bitmap[..], xs, i);
      return i + 1, 0, [];
    }
    var j := BatchEnd(hot, xs, i, bitmap.Length, buffer.Length);
    next := j + 1;
    ghost var image;
    added, image := ApplyBatch(bitmap, buffer, xs, i, j, wide, p);
    images := [image];
  }

  lemma SkippedPatch(bm: seq<Word>, xs: seq<Patch>, i: nat)
    requires i < |xs| && xs[i].posE >= 4 * |bm|
    ensures SetPatches(bm, xs[i..i + 1]) == bm
  {
    assert xs[i..i] == [];
    SetPatchesStep(bm, xs, i, i);
  }

  /** The bitmap with the first patches set, however many. */
  ghost predicate PatchedPartly(r: seq<Word>, bm: seq<Word>, xs: seq<Patch>, m: nat)
    requires m <= |xs|
  {
    exists j :: 0 <= j <= m && r == SetPatches(bm, xs[0..j])
  }

  /** The last of these images, if there is any; else what was there before. */
  function LastOf(bm: seq<Word>, images: seq<seq<Word>>): seq<Word> {
    if images == [] then bm else images[|images| - 1]
  }

  /** After the first i patches: the bitmap now, and the images on the way, each with some of the first m patches. */
  ghost predicate Written(bm: seq<Word>, now: seq<Word>, images: seq<seq<Word>>, xs: seq<Patch>, i: nat, m: nat)
    requires i <= m <= |xs|
  {
    && now == SetPatches(bm, xs[0..i]) == LastOf(bm, images)
    && forall k :: 0 <= k < |images| ==> PatchedPartly(images[k], bm, xs, m)
  }

  lemma NothingWritten(bm: seq<Word>, xs: seq<Patch>, m: nat)
    requires m <= |xs|
    ensures Written(bm, bm, [], xs, 0, m)
  {
    assert xs[0..0] == [];
  }

  lemma WrittenMore(bm: seq<Word>, before: seq<Word>, after: seq<Word>, images: seq<seq<Word>>, more: seq<seq<Word>>,
                    xs: seq<Patch>, i: nat, next: nat, m: nat)
    requires i <= next <= m <= |xs| && Written(bm, before, images, xs, i, m)
    requires after == SetPatches(before, xs[i..next]) && (more == [after] || (more == [] && after == before))
    ensures Written(bm, after, images + more, xs, next, m)
  {
    BatchDone(bm, before, after, xs, i, next);
    assert PatchedPartly(after, bm, xs, m);
  }

  /** The loop over all extents, with the images that its writes leave. */
  method ApplyPatches(bitmap: array<Word>, buffer: array<Word>, hot: seq<nat>, xs: seq<Patch>, wide: bool, ghost p: nat)
    returns (additional: nat, ghost images: seq<seq<Word>>)
    requires 1 <= p <= 32 && bitmap != buffer && |xs| == |hot| && Orderly(xs, p) && Masked(xs, wide)
    requires bitmap.Length % 1024 == 0 && buffer.Length % 1024 == 0 && buffer.Length >= 32 * 1024
    modifies bitmap, buffer
    ensures Written(old(bitmap[..]), bitmap[..], images, xs, |HotExtents(hot)|, |HotExtents(hot)|)
    ensures additional == Counted(wide, old(bitmap[..]), bitmap[..])
  {
    ghost var bm := bitmap[..];
    additional, images := 0, [];
    var i := 0;
    NothingWritten(bm, xs, |HotExtents(hot)|);
    hide Written, SetPatches, Orderly, Masked;
    while i < |hot| && hot[i] != END_OF_LIST
      invariant i <= |HotExtents(hot)|
      invariant Written(bm, bitmap[..], images, xs, i, |HotExtents(hot)|)
      invariant additional == Counted(wide, bm, bitmap[..])
    {
      ghost var before := bitmap[..];
      ghost var written;
      var next, a;
      next, a, written := ApplyRound(bitmap, buffer, hot, xs, i, wide, p);
      additional := additional + a;
      WrittenMore(bm, before, bitmap[..], images, written, xs, i, next, |HotExtents(hot)|);
      images := images + written;
      i := next;
    }
  }

  lemma BatchDone(bm: seq<Word>, before: seq<Word>, after: seq<Word>, xs: seq<Patch>, i: nat, j: nat)
    requires i <= j <= |xs| && before == SetPatches(bm, xs[0..i]) && after == SetPatches(before, xs[i..j])
    ensures after == SetPatches(bm, xs[0..j])
  {
    SetPatchesAppend(bm, xs[0..i], xs[i..j]);
    assert xs[0..i] + xs[i..j] == xs[0..j];
  }

  /** The bitmap with the first extents set, however many. */
  ghost predicate SetPartly(r: seq<Word>, bm: seq<Word>, hot: seq<nat>, n: nat, p: nat)
    requires p > 0
  {
    exists j :: 0 <= j <= |hot| && r == SetExtents(bm, hot[..j], n, p)
  }

  /** Marks every hot extent; returns the number of bits it counts as newly set, and the image after each write. */
  method ApplyAl(bitmap: array<Word>, buffer: array<Word>, hot: seq<nat>, n: nat, p: nat)
    returns (additional: nat, ghost images: seq<seq<Word>>)
    requires ValidBitsPerExtent(n) && 1 <= p <= 32 && Sorted(hot) && bitmap != buffer
    requires bitmap.Length % 1024 == 0 && buffer.Length % 1024 == 0 && buffer.Length >= 32 * 1024
    modifies bitmap, buffer
    ensures bitmap[..] == SetExtents(old(bitmap[..]), HotExtents(hot), n, p) == LastOf(old(bitmap[..]), images)
    ensures forall k :: 0 <= k < |images| ==> SetPartly(images[k], old(bitmap[..]), HotExtents(hot), n, p)
    ensures n < 32 ==> TotalOnes(bitmap[..]) == TotalOnes(old(bitmap[..])) + additional
    ensures n >= 32 ==> additional == 0
  {
    var xs := MakePatches(hot, n, p);
    assert Masked(xs, n >= 32) by {
      PatchMasks(xs, hot, n, p);
    }
    ghost var bm := bitmap[..];
    additional, images := ApplyPatches(bitmap, buffer, hot, xs, n >= 32, p);
    LivePatches(bm, xs, hot, n, p, |HotExtents(hot)|);
    forall k | 0 <= k < |images|
      ensures SetPartly(images[k], bm, HotExtents(hot), n, p)
    {
      PartlyPatched(images[k], bm, xs, hot, n, p);
    }
  }

  lemma PartlyPatched(r: seq<Word>, bm: seq<Word>, xs: seq<Patch>, hot: seq<nat>, n: nat, p: nat)
    requires p > 0 && PatchesOf(xs, hot, n, p) && PatchedPartly(r, bm, xs, |HotExtents(hot)|)
    ensures SetPartly(r, bm, HotExtents(hot), n, p)
  {
    var j :| 0 <= j <= |HotExtents(hot)| && r == SetPatches(bm, xs[0..j]);
    LivePatches(bm, xs, hot, n, p, j);
  }

  lemma PatchMasks(xs: seq<Patch>, hot: seq<nat>, n: nat, p: nat)
    requires p > 0 && PatchesOf(xs, hot, n, p)
    ensures Masked(xs, n >= 32)
  {
    forall k | 0 <= k < |xs|
      ensures n >= 32 ==> xs[k].mask == AllOnes()
    {
      assert xs[k] == PatchOf(hot[k], n, p);
    }
  }

  lemma LivePatches(bm: seq<Word>, xs: seq<Patch>, hot: seq<nat>, n: nat, p: nat, j: nat)
    requires p > 0 && PatchesOf(xs, hot, n, p) && j <= |HotExtents(hot)|
    ensures SetPatches(bm, xs[0..j]) == SetExtents(bm, HotExtents(hot)[..j], n, p)
    ensures HotExtents(hot)[..|HotExtents(hot)|] == HotExtents(hot)
  {
    var live := HotExtents(hot)[..j];
    forall k | 0 <= k < |live|
      ensures xs[0..j][k] == PatchOf(live[k], n, p)
    {
      assert xs[k] == PatchOf(hot[k], n, p);
    }
    SetPatchesIsSetExtents(bm, xs[0..j], live, n, p);
  }

  /** In a sorted array of extent numbers, no extent hides behind an unused entry. */
  lemma {:induction false} AllHotExtents(hot: seq<nat>, e: nat)
    requires Sorted(hot) && e in hot && e < END_OF_LIST
    ensures e in HotExtents(hot)
  {
    if hot[0] != END_OF_LIST && hot[0] != e {
      AllHotExtents(hot[1..], e);
    }
  }
}
