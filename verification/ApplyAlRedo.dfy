/** What a crash during apply-al can leave behind, and what running the command again makes of it. */
module ApplyAlRedo {
  import opened Arith
  import opened Word32
  import opened ApplyAlSpec
  import opened ApplyAl
  import opened AlReplay
  import opened AlReplayCorrect
  import opened MetaApplyAl

  predicate SameBits(a: seq<Word>, b: seq<Word>) {
    |a| == |b| && forall i, k :: 0 <= i < |a| && 0 <= k < 32 ==> (Bit(a[i], k) <==> Bit(b[i], k))
  }

  /** No bit of a is lost in b. */
  predicate NoneLost(a: seq<Word>, b: seq<Word>) {
    |a| == |b| && forall i, k :: 0 <= i < |a| && 0 <= k < 32 && Bit(a[i], k) ==> Bit(b[i], k)
  }

  /** Of the bits that are to be set, some have been. */
  predicate Between(bm: seq<Word>, part: seq<Word>, after: seq<Word>) {
    NoneLost(bm, part) && NoneLost(part, after)
  }

  // ---- bits ----

  /** The extent of bit k of word i. */
  function ExtentOf(i: nat, k: nat, n: nat, p: nat): nat
    requires n > 0 && p > 0
  {
    (i / p * 32 + k) / n
  }

  /** SetExtentsBits, by word. */
  lemma SetExtentsWords(bm: seq<Word>, hot: seq<nat>, n: nat, p: nat, i: nat, k: nat)
    requires ValidBitsPerExtent(n) && p > 0 && i < |bm| && k < 32
    ensures Bit(SetExtents(bm, hot, n, p)[i], k)
        <==> Bit(bm[i], k) || (ExtentOf(i, k, n, p) in hot && InBitmap(ExtentOf(i, k, n, p), n, p, |bm|))
  {
    hide InBitmap;
    var b := i / p * 32 + k;
    assert b / 32 == i / p && b % 32 == k;
    assert WordIndex(p, i % p, b) == i;
    SetExtentsBits(bm, hot, n, p, i % p, b);
  }

  /** The command marks this extent, if its words are in the bitmap. */
  predicate Marks(ring: seq<Block>, primary: bool, e: nat)
    requires RingWellFormed(ring)
  {
    Applies(Replayed(Unused(), ring).0, primary) && e in HotOf(ring)
  }

  lemma AfterBits(bm: seq<Word>, ring: seq<Block>, primary: bool, n: nat, p: nat, i: nat, k: nat)
    requires RingWellFormed(ring) && ValidBitsPerExtent(n) && p > 0 && i < |bm| && k < 32
    ensures Bit(AfterApplyAl(bm, ring, primary, n, p)[i], k)
        <==> Bit(bm[i], k)
             || (Marks(ring, primary, ExtentOf(i, k, n, p)) && InBitmap(ExtentOf(i, k, n, p), n, p, |bm|))
  {
    hide Replayed, HotOf, InBitmap, ExtentOf;
    SetExtentsWords(bm, HotOf(ring), n, p, i, k);
  }

  /** The command never clears a bit. */
  lemma AfterKeeps(bm: seq<Word>, ring: seq<Block>, primary: bool, n: nat, p: nat)
    requires RingWellFormed(ring) && ValidBitsPerExtent(n) && p > 0
    ensures NoneLost(bm, AfterApplyAl(bm, ring, primary, n, p))
  {
    hide AfterApplyAl, Marks, InBitmap;
    forall i, k | 0 <= i < |bm| && 0 <= k < 32 && Bit(bm[i], k)
      ensures Bit(AfterApplyAl(bm, ring, primary, n, p)[i], k)
    {
      AfterBits(bm, ring, primary, n, p, i, k);
    }
  }

  // ---- the log is still there ----

  /** The bitmap with some of the extents set is in between. */
  lemma PartlyBetween(r: seq<Word>, bm: seq<Word>, hot: seq<nat>, n: nat, p: nat)
    requires ValidBitsPerExtent(n) && p > 0 && SetPartly(r, bm, hot, n, p)
    ensures Between(bm, r, SetExtents(bm, hot, n, p))
  {
    hide InBitmap, ExtentOf;
    var j :| 0 <= j <= |hot| && r == SetExtents(bm, hot[..j], n, p);
    var after := SetExtents(bm, hot, n, p);
    forall i, k | 0 <= i < |bm| && 0 <= k < 32
      ensures (Bit(bm[i], k) ==> Bit(r[i], k)) && (Bit(r[i], k) ==> Bit(after[i], k))
    {
      SetExtentsWords(bm, hot[..j], n, p, i, k);
      SetExtentsWords(bm, hot, n, p, i, k);
    }
  }

  /** As long as the log is as it was, running the command again gives the bitmap it would have given. */
  lemma RedoCompletes(bm: seq<Word>, part: seq<Word>, ring: seq<Block>, primary: bool, n: nat, p: nat)
    requires RingWellFormed(ring) && ValidBitsPerExtent(n) && p > 0
    requires Between(bm, part, AfterApplyAl(bm, ring, primary, n, p))
    ensures SameBits(AfterApplyAl(part, ring, primary, n, p), AfterApplyAl(bm, ring, primary, n, p))
  {
    hide AfterApplyAl, Marks, InBitmap, ExtentOf;
    var once, again := AfterApplyAl(bm, ring, primary, n, p), AfterApplyAl(part, ring, primary, n, p);
    forall i, k | 0 <= i < |bm| && 0 <= k < 32
      ensures Bit(again[i], k) <==> Bit(once[i], k)
    {
      AfterBits(bm, ring, primary, n, p, i, k);
      AfterBits(part, ring, primary, n, p, i, k);
    }
  }

  // ---- the write of the log was interrupted ----

  /** All bits in the bitmap of the extents that this log marks are set. */
  predicate AllMarked(bm: seq<Word>, ring: seq<Block>, primary: bool, n: nat, p: nat)
    requires RingWellFormed(ring) && ValidBitsPerExtent(n) && p > 0
  {
    forall i, k :: 0 <= i < |bm| && 0 <= k < 32 ==>
      (Marks(ring, primary, ExtentOf(i, k, n, p)) && InBitmap(ExtentOf(i, k, n, p), n, p, |bm|) ==> Bit(bm[i], k))
  }

  /** Applying whatever log there is changes the bitmap exactly if that log marks a bit that is not set. */
  lemma ChangesNothingExactly(bm: seq<Word>, torn: seq<Block>, primary: bool, n: nat, p: nat)
    requires RingWellFormed(torn) && ValidBitsPerExtent(n) && p > 0
    ensures SameBits(AfterApplyAl(bm, torn, primary, n, p), bm) <==> AllMarked(bm, torn, primary, n, p)
  {
    hide AfterApplyAl, Marks, InBitmap, ExtentOf;
    var again := AfterApplyAl(bm, torn, primary, n, p);
    forall i, k | 0 <= i < |bm| && 0 <= k < 32
      ensures Bit(again[i], k)
          <==> Bit(bm[i], k)
               || (Marks(torn, primary, ExtentOf(i, k, n, p)) && InBitmap(ExtentOf(i, k, n, p), n, p, |bm|))
    {
      AfterBits(bm, torn, primary, n, p, i, k);
    }
  }

  /** The torn log marks no extent of the bitmap that the old one does not mark. */
  ghost predicate MarksNoMore(torn: seq<Block>, ring: seq<Block>, primary: bool, n: nat, p: nat, words: nat)
    requires RingWellFormed(torn) && RingWellFormed(ring) && p > 0
  {
    forall e: nat :: Marks(torn, primary, e) && InBitmap(e, n, p, words) ==> Marks(ring, primary, e)
  }

  /** First and second run, the second one with the torn log. */
  function Twice(bm: seq<Word>, ring: seq<Block>, torn: seq<Block>, primary: bool, n: nat, p: nat): seq<Word>
    requires RingWellFormed(torn) && RingWellFormed(ring) && p > 0
  {
    AfterApplyAl(AfterApplyAl(bm, ring, primary, n, p), torn, primary, n, p)
  }

  lemma TwiceBits(bm: seq<Word>, ring: seq<Block>, torn: seq<Block>, primary: bool, n: nat, p: nat, i: nat, k: nat)
    requires RingWellFormed(torn) && RingWellFormed(ring) && ValidBitsPerExtent(n) && p > 0 && i < |bm| && k < 32
    ensures |Twice(bm, ring, torn, primary, n, p)| == |bm|
    ensures Bit(Twice(bm, ring, torn, primary, n, p)[i], k)
        <==> Bit(AfterApplyAl(bm, ring, primary, n, p)[i], k)
             || (Marks(torn, primary, ExtentOf(i, k, n, p)) && InBitmap(ExtentOf(i, k, n, p), n, p, |bm|))
  {
    hide AfterApplyAl, Marks, InBitmap, ExtentOf;
    AfterBits(AfterApplyAl(bm, ring, primary, n, p), torn, primary, n, p, i, k);
  }

  lemma ExtentOfFirstBit(e: nat, n: nat, p: nat)
    requires n > 0 && p > 0
    ensures ExtentOf(RowS(e, n) * p, e * n % 32, n, p) == e
  {
    MultipleMod(RowS(e, n), p);
    MultipleMod(e, n);
  }

  /** The first bit of an extent is in the bitmap if the extent is. */
  lemma FirstBit(e: nat, n: nat, p: nat, words: nat) returns (i: nat, k: nat)
    requires ValidBitsPerExtent(n) && p > 0 && InBitmap(e, n, p, words)
    ensures i < words && k < 32 && ExtentOf(i, k, n, p) == e
  {
    hide ExtentOf, RowS, RowE;
    i, k := RowS(e, n) * p, e * n % 32;
    RangeRows(e, n, p);
    ExtentInBlock(e, n);
    ExtentOfFirstBit(e, n, p);
    FirstWord(RowS(e, n), RowE(e, n), p, words);
  }

  lemma FirstWord(s: nat, e: nat, p: nat, words: nat)
    requires s < e && e * p * 4 < 4 * words
    ensures s * p < words
  {
    MulMonotone(s, e, p);
  }

  /** Whatever the bitmap was, the second run leaves it as the first one did exactly if the torn log marks no more. */
  lemma TornLogExactly(ring: seq<Block>, torn: seq<Block>, primary: bool, n: nat, p: nat, words: nat)
    requires RingWellFormed(ring) && RingWellFormed(torn) && ValidBitsPerExtent(n) && p > 0
    ensures (forall bm: seq<Word> | |bm| == words ::
               SameBits(Twice(bm, ring, torn, primary, n, p), AfterApplyAl(bm, ring, primary, n, p)))
            <==> MarksNoMore(torn, ring, primary, n, p, words)
  {
    hide AfterApplyAl, Twice, Marks, InBitmap, ExtentOf;
    if MarksNoMore(torn, ring, primary, n, p, words) {
      forall bm: seq<Word> | |bm| == words
        ensures SameBits(Twice(bm, ring, torn, primary, n, p), AfterApplyAl(bm, ring, primary, n, p))
      {
        NoMoreIsSame(bm, ring, torn, primary, n, p);
      }
    } else {
      var e: nat :| Marks(torn, primary, e) && InBitmap(e, n, p, words) && !Marks(ring, primary, e);
      MoreIsOther(ring, torn, primary, n, p, words, e);
    }
  }

  lemma NoMoreIsSame(bm: seq<Word>, ring: seq<Block>, torn: seq<Block>, primary: bool, n: nat, p: nat)
    requires RingWellFormed(ring) && RingWellFormed(torn) && ValidBitsPerExtent(n) && p > 0
    requires MarksNoMore(torn, ring, primary, n, p, |bm|)
    ensures SameBits(Twice(bm, ring, torn, primary, n, p), AfterApplyAl(bm, ring, primary, n, p))
  {
    hide AfterApplyAl, Marks, InBitmap, ExtentOf;
    var once, twice := AfterApplyAl(bm, ring, primary, n, p), Twice(bm, ring, torn, primary, n, p);
    forall i, k | 0 <= i < |bm| && 0 <= k < 32
      ensures Bit(twice[i], k) <==> Bit(once[i], k)
    {
      AfterBits(bm, ring, primary, n, p, i, k);
      TwiceBits(bm, ring, torn, primary, n, p, i, k);
    }
  }

  function Zeros(words: nat): (r: seq<Word>)
    ensures |r| == words && forall i, k: nat :: 0 <= i < words ==> !Bit(r[i], k)
  {
    seq(words, _ => Word([]))
  }

  lemma MoreIsOther(ring: seq<Block>, torn: seq<Block>, primary: bool, n: nat, p: nat, words: nat, e: nat)
    requires RingWellFormed(ring) && RingWellFormed(torn) && ValidBitsPerExtent(n) && p > 0
    requires Marks(torn, primary, e) && InBitmap(e, n, p, words) && !Marks(ring, primary, e)
    ensures !SameBits(Twice(Zeros(words), ring, torn, primary, n, p), AfterApplyAl(Zeros(words), ring, primary, n, p))
  {
    hide AfterApplyAl, Twice, Marks, InBitmap, ExtentOf;
    var i, k := FirstBit(e, n, p, words);
    AfterBits(Zeros(words), ring, primary, n, p, i, k);
    TwiceBits(Zeros(words), ring, torn, primary, n, p, i, k);
  }

  // ---- such a log ----

  /** A transaction that puts an extent into slot 0. */
  function Transaction(nr: nat, e: nat): Block {
    Block(true, false, nr, 1, [0], [e], 0, 0, [])
  }

  lemma AppliedTransaction(hot: seq<nat>, nr: nat, e: nat)
    requires |hot| == AL_EXTENTS_MAX && nr < 0x1_0000_0000
    ensures ApplyBlock(hot, Transaction(nr, e)) == hot[0 := e]
  {
    var x := Transaction(nr, e);
    assert AfterContext(hot, x, 0) == hot && AfterUpdates(hot, x, 0) == hot;
    assert AfterUpdates(hot, x, 1) == hot[0 := e];
  }

  /** Extent 0 first, extent 1 then; the write of the fresh log has come to the second block only. */
  const OldRing: seq<Block> := [Transaction(0, 0), Transaction(1, 1)]
  const TornRing: seq<Block> := [Transaction(0, 0), FreshBlock()]

  lemma LogsOfOneSlot()
    ensures Log(OldRing, 0, 2, 0) && Log(TornRing, 0, 1, 0)
  {
    hide ReplayRange, ScanRing;
    assert forall b :: 0 <= b < 2 ==> Age(b, 0, 2) == b;
  }

  /** Replay takes the next transaction. */
  lemma ReplayNext(hot: seq<nat>, ring: seq<Block>, t: nat, nr: nat, e: nat)
    requires |hot| == AL_EXTENTS_MAX && t < |ring| && RingWellFormed(ring) && ring[t] == Transaction(nr, e)
    ensures ReplayRange(hot, ring, 0, t + 1) == ReplayRange(hot, ring, 0, t)[0 := e]
  {
    hide ApplyBlock;
    assert (t + 1 - 1) % |ring| == t by {
      DivRange(t, |ring|, 0);
    }
    assert WellFormed(ring[t]) && nr == ring[t].trNumber;
    AppliedTransaction(ReplayRange(hot, ring, 0, t), nr, e);
  }

  lemma OldRingReplayed()
    ensures Log(OldRing, 0, 2, 0) && RingWellFormed(OldRing)
    ensures Replayed(Unused(), OldRing).1 == Unused()[0 := 1]
  {
    LogsOfOneSlot();
    ReplaysRange(Unused(), OldRing, 0, 2, 0);
    assert ReplayRange(Unused(), OldRing, 0, 0) == Unused();
    hide Log, Replayed, ReplayRange, RingWellFormed, Unused;
    ReplayNext(Unused(), OldRing, 0, 0, 0);
    ReplayNext(Unused(), OldRing, 1, 1, 1);
  }

  lemma TornRingReplayed()
    ensures Log(TornRing, 0, 1, 0) && RingWellFormed(TornRing)
    ensures Replayed(Unused(), TornRing).1 == Unused()[0 := 0]
  {
    LogsOfOneSlot();
    ReplaysRange(Unused(), TornRing, 0, 1, 0);
    assert ReplayRange(Unused(), TornRing, 0, 0) == Unused();
    hide Log, Replayed, ReplayRange, RingWellFormed, Unused;
    ReplayNext(Unused(), TornRing, 0, 0, 0);
  }

  lemma InSlotZero(e: nat, f: nat)
    requires e < END_OF_LIST
    ensures f in HotExtents(SortedOf(Unused()[0 := e])) <==> f == e
  {
    hide HotExtents, SortedOf;
    var hot := Unused()[0 := e];
    HotOnceSorted(hot, f);
    assert hot[0] == e;
  }

  /** On this log the second run marks extent 0, which the first one did not. */
  lemma TornLogMarksMore()
    ensures RingWellFormed(OldRing) && RingWellFormed(TornRing)
    ensures !MarksNoMore(TornRing, OldRing, true, 1024, 1, 1024)
  {
    hide Replayed, Log, HotExtents, SortedOf, Unused, RingWellFormed;
    OldRingReplayed();
    TornRingReplayed();
    LogIsFound(TornRing, 0, 1, 0, Unused());
    InSlotZero(1, 0);
    InSlotZero(0, 0);
    assert Marks(TornRing, true, 0) && InBitmap(0, 1024, 1, 1024) && !Marks(OldRing, true, 0);
  }

  // ---- every crash ----

  /** A log of which some blocks have been overwritten, and some are in between and so not valid. */
  predicate TornLog(before: seq<Block>, after: seq<Block>, r: seq<Block>) {
    && |before| == |after| == |r|
    && forall i :: 0 <= i < |r| ==> r[i] == before[i] || r[i] == after[i] || (!r[i].valid && WellFormed(r[i]))
  }

  predicate TornBitmap(a: seq<Word>, b: seq<Word>, r: seq<Word>) {
    |a| == |b| == |r| && forall i :: 0 <= i < |r| ==> r[i] == a[i] || r[i] == b[i]
  }

  /** What a crash within the write that leads from a to b can leave. A write of the superblock is not torn. */
  predicate Torn(a: Image, b: Image, r: Image) {
    && TornBitmap(a.bitmap, b.bitmap, r.bitmap)
    && (if a.log == b.log then r.log == a.log else TornLog(a.log, b.log, r.log))
    && (r.sb == a.sb || r.sb == b.sb)
  }

  /** The image in front of the command, and those after each of its writes. */
  function States(x: Image, c: Config, steps: seq<seq<Word>>): seq<Image>
    requires OnDisk(x, c)
  {
    [x] + Trace(x, c, steps)
  }

  /** In front of the write of the log. */
  ghost predicate DuringMarking(x: Image, c: Config, r: Image)
    requires OnDisk(x, c)
  {
    r.log == x.log && r.sb == x.sb && Between(x.bitmap, r.bitmap, AfterCommand(x, c).bitmap)
  }

  /** Within the write of the log, or later. */
  predicate DoneMarking(x: Image, c: Config, r: Image)
    requires OnDisk(x, c)
  {
    && r.bitmap == AfterCommand(x, c).bitmap && TornLog(x.log, AfterCommand(x, c).log, r.log)
    && r.sb.primary == x.sb.primary
  }

  lemma StepBetween(x: Image, c: Config, steps: seq<seq<Word>>, k: nat)
    requires OnDisk(x, c) && Steps(x, c, steps) && k < |steps|
    ensures Between(x.bitmap, steps[k], AfterCommand(x, c).bitmap)
  {
    hide Replayed, HotOf, SetPartly, NoneLost;
    PartlyBetween(steps[k], x.bitmap, HotOf(RingOf(x, c)), c.bitsPerExtent, c.maxPeers);
  }

  lemma TornBetween(bm: seq<Word>, a: seq<Word>, b: seq<Word>, after: seq<Word>, r: seq<Word>)
    requires Between(bm, a, after) && Between(bm, b, after) && TornBitmap(a, b, r)
    ensures Between(bm, r, after)
  {
  }

  /** The states up to the last step are those of the bitmap; all later ones have it complete. */
  lemma StateKinds(x: Image, c: Config, steps: seq<seq<Word>>, k: nat)
    requires OnDisk(x, c) && Steps(x, c, steps) && k < |States(x, c, steps)|
    ensures k <= |steps| ==> DuringMarking(x, c, States(x, c, steps)[k])
    ensures k >= |steps| ==> States(x, c, steps)[k].bitmap == AfterCommand(x, c).bitmap
    ensures k > |steps| ==>
              (States(x, c, steps)[k] == LogDone(x, c) || States(x, c, steps)[k] == AfterCommand(x, c))
  {
    hide Replayed, HotOf, SetPartly;
    if 0 < k <= |steps| {
      StepBetween(x, c, steps, k - 1);
    } else if k == 0 {
      AfterKeeps(x.bitmap, RingOf(x, c), x.sb.primary, c.bitsPerExtent, c.maxPeers);
    }
  }

  /** So a crash leaves one of two things. */
  lemma CrashLeaves(x: Image, c: Config, steps: seq<seq<Word>>, k: nat, r: Image)
    requires OnDisk(x, c) && Steps(x, c, steps) && k + 1 < |States(x, c, steps)|
    requires Torn(States(x, c, steps)[k], States(x, c, steps)[k + 1], r)
    ensures DuringMarking(x, c, r) || DoneMarking(x, c, r)
  {
    hide AfterApplyAl, Steps, Between;
    var a, b := States(x, c, steps)[k], States(x, c, steps)[k + 1];
    StateKinds(x, c, steps, k);
    StateKinds(x, c, steps, k + 1);
    if k < |steps| {
      TornBetween(x.bitmap, a.bitmap, b.bitmap, AfterCommand(x, c).bitmap, r.bitmap);
    }
  }

  lemma LeftOnDisk(x: Image, c: Config, r: Image)
    requires OnDisk(x, c) && (DuringMarking(x, c, r) || DoneMarking(x, c, r))
    ensures OnDisk(r, c) && r.sb.primary == x.sb.primary && (DuringMarking(x, c, r) ==> RingOf(r, c) == RingOf(x, c))
  {
    hide Between, AfterApplyAl;
  }

  /** A crash anywhere in the command, and the command once more, on what the crash has left. No bit that was to be set
      is lost. In front of the write of the log the bitmap becomes what it would have become. From there on it stays as
      it is exactly if all that the log now marks is set already. */
  lemma CrashAndRedo(x: Image, c: Config, steps: seq<seq<Word>>, k: nat, r: Image)
    requires OnDisk(x, c) && Steps(x, c, steps) && k + 1 < |States(x, c, steps)|
    requires Torn(States(x, c, steps)[k], States(x, c, steps)[k + 1], r)
    ensures OnDisk(r, c) && NoneLost(AfterCommand(x, c).bitmap, AfterCommand(r, c).bitmap)
    ensures DuringMarking(x, c, r) || DoneMarking(x, c, r)
    ensures DuringMarking(x, c, r) ==> SameBits(AfterCommand(r, c).bitmap, AfterCommand(x, c).bitmap)
    ensures DoneMarking(x, c, r) ==>
              (SameBits(AfterCommand(r, c).bitmap, AfterCommand(x, c).bitmap)
               <==> AllMarked(r.bitmap, RingOf(r, c), r.sb.primary, c.bitsPerExtent, c.maxPeers))
  {
    hide AfterApplyAl, Steps, Between, Torn, States, AllMarked;
    CrashLeaves(x, c, steps, k, r);
    LeftOnDisk(x, c, r);
    var n, p, primary := c.bitsPerExtent, c.maxPeers, x.sb.primary;
    if DuringMarking(x, c, r) {
      RedoCompletes(x.bitmap, r.bitmap, RingOf(x, c), primary, n, p);
    }
    if DoneMarking(x, c, r) {
      AfterKeeps(r.bitmap, RingOf(r, c), primary, n, p);
      ChangesNothingExactly(r.bitmap, RingOf(r, c), primary, n, p);
    }
  }

  lemma {:induction false} NoUpdates(ring: seq<Block>, b: nat)
    requires b <= |ring| && forall i :: 0 <= i < |ring| ==> !IsUpdate(ring[i])
    ensures ScanRing(ring, b).updates == 0
  {
    if b > 0 {
      NoUpdates(ring, b - 1);
    }
  }

  /** Once the log is written, running the command again changes nothing in the bitmap. */
  lemma FreshLogMarksNothing(x: Image, c: Config)
    requires OnDisk(x, c) && x.log == FreshLog(|x.log|)
    ensures AfterCommand(x, c).bitmap == x.bitmap
  {
    hide ScanRing, ReplayRange;
    var ring := RingOf(x, c);
    forall b | 0 <= b < |ring|
      ensures ring[b] == FreshBlock()
    {
      assert c.stripes > 0 && c.stripeSize > 0;
      OnDiskSlotBijection(b, c.stripes, c.stripeSize);
    }
    NoUpdates(ring, |ring|);
  }
}
