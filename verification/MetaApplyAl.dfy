/** meta_apply_al, end to end: what becomes of the bitmap when an 8.4 style activity log is replayed and applied. */
module MetaApplyAl {
  import opened Arith
  import opened Word32
  import opened ApplyAlSpec
  import opened ApplyAl
  import opened AlReplay
  import opened AlReplayCorrect

  // ---- the order qsort with cmp_u32 establishes ----

  function Insert(x: nat, s: seq<nat>): seq<nat> {
    if s == [] || x <= s[0] then [x] + s else [s[0]] + Insert(x, s[1..])
  }

  function SortedOf(s: seq<nat>): seq<nat> {
    if s == [] then [] else Insert(s[0], SortedOf(s[1..]))
  }

  lemma SortedCons(x: nat, s: seq<nat>)
    requires Sorted(s) && forall y :: y in multiset(s) ==> x <= y
    ensures Sorted([x] + s)
  {
    assert forall k :: 0 <= k < |s| ==> s[k] in multiset(s);
  }

  lemma {:induction false} InsertContents(x: nat, s: seq<nat>)
    ensures multiset(Insert(x, s)) == multiset(s) + multiset{x}
  {
    if s != [] && x > s[0] {
      InsertContents(x, s[1..]);
      assert s == [s[0]] + s[1..];
    }
  }

  lemma {:induction false} InsertSorted(x: nat, s: seq<nat>)
    requires Sorted(s)
    ensures Sorted(Insert(x, s))
  {
    if s == [] || x <= s[0] {
      assert forall y :: y in multiset(s) ==> y in s;
      SortedCons(x, s);
    } else {
      hide Sorted;
      SortedTail(s);
      InsertSorted(x, s[1..]);
      InsertContents(x, s[1..]);
      SortedCons(s[0], Insert(x, s[1..]));
    }
  }

  lemma SortedTail(s: seq<nat>)
    requires Sorted(s) && s != []
    ensures Sorted(s[1..]) && forall y :: y in multiset(s[1..]) ==> s[0] <= y
  {
    assert forall y :: y in multiset(s[1..]) ==> y in s[1..];
  }

  lemma {:induction false} SortedOfMeaning(s: seq<nat>)
    ensures Sorted(SortedOf(s)) && multiset(SortedOf(s)) == multiset(s)
  {
    if s != [] {
      SortedOfMeaning(s[1..]);
      InsertSorted(s[0], SortedOf(s[1..]));
      InsertContents(s[0], SortedOf(s[1..]));
      assert s == [s[0]] + s[1..];
    }
  }

  /** Once sorted, the extents in front of the first unused entry are all that are in use. */
  lemma HotOnceSorted(hot: seq<nat>, e: nat)
    requires forall k :: 0 <= k < |hot| ==> hot[k] <= END_OF_LIST
    ensures e in HotExtents(SortedOf(hot)) <==> e in hot && e != END_OF_LIST
  {
    var sorted := SortedOf(hot);
    SortedOfMeaning(hot);
    assert e in multiset(sorted) <==> e in multiset(hot);
    if e in hot && e != END_OF_LIST {
      AllHotExtents(sorted, e);
    }
  }

  // ---- the metadata on disk ----

  /** What matters here of the superblock: its format and magic, and the flags MDF_PRIMARY_IND and MDF_AL_CLEAN. */
  datatype Superblock = Superblock(version08: bool, magic08: bool, primary: bool, clean: bool)
  {
    /** As the command writes it. */
    function WithAlClean(): Superblock {
      this.(clean := true, magic08 := magic08 || version08)
    }
  }

  datatype Image = Image(bitmap: seq<Word>, log: seq<Block>, sb: Superblock)

  /** A block as initialize_al writes it: valid, and no transaction. */
  function FreshBlock(): Block {
    Block(true, true, 0, 0, [], [], 0, 0, [])
  }

  function FreshLog(mx: nat): (r: seq<Block>)
    ensures |r| == mx && RingWellFormed(r)
  {
    seq(mx, _ => FreshBlock())
  }

  class MetaData {
    const bitmap: array<Word>
    const log: array<Block>
    var sb: Superblock
    /** The contents after each write so far, oldest first. */
    ghost var images: seq<Image>

    ghost function Contents(): Image
      reads this, bitmap, log
    {
      Image(bitmap[..], log[..], sb)
    }

    constructor (bitmap: array<Word>, log: array<Block>, sb: Superblock)
      ensures this.bitmap == bitmap && this.log == log && this.sb == sb && images == []
    {
      this.bitmap, this.log, this.sb, images := bitmap, log, sb, [];
    }

    /** initialize_al: one write of all blocks. */
    method InitializeLog()
      modifies this`images, log
      ensures Contents() == old(Contents()).(log := FreshLog(log.Length))
      ensures images == old(images) + [Contents()]
    {
      for i := 0 to log.Length
        modifies log
        invariant forall k :: 0 <= k < i ==> log[k] == FreshBlock()
        invariant bitmap[..] == old(bitmap[..])
      {
        log[i] := FreshBlock();
      }
      assert log[..] == FreshLog(log.Length);
      images := images + [Contents()];
    }

    /** md_cpu_to_disk, with the flags changed. */
    method UpdateFlags()
      modifies this
      ensures Contents() == old(Contents()).(sb := old(sb).WithAlClean())
      ensures images == old(images) + [Contents()]
    {
      sb := sb.(clean := true);
      if sb.version08 {
        sb := sb.(magic08 := true);
      }
      images := images + [Contents()];
    }
  }

  // ---- the command ----

  datatype Config = Config(stripes: nat, stripeSize: nat, bitsPerExtent: nat, maxPeers: nat)

  predicate OnDisk(x: Image, c: Config) {
    && ValidBitsPerExtent(c.bitsPerExtent) && 1 <= c.maxPeers <= 32
    && |x.log| == c.stripes * c.stripeSize && RingWellFormed(x.log)
  }

  /** The log in the order of transaction numbers. */
  function RingOf(x: Image, c: Config): (r: seq<Block>)
    requires OnDisk(x, c)
    ensures RingWellFormed(r) && |r| == |x.log|
  {
    RingIsWellFormed(x.log, c.stripes, c.stripeSize);
    Ring(x.log, c.stripes, c.stripeSize)
  }

  /** memset with 0xff: all entries are unused. */
  function Unused(): (r: seq<nat>)
    ensures |r| == AL_EXTENTS_MAX
  {
    seq(AL_EXTENTS_MAX, _ => END_OF_LIST)
  }

  /** The exit code, whether the log is initialised again, and whether the superblock's flags are written. */
  datatype Verdict = Verdict(code: nat, reinitialize: bool, updateFlags: bool)

  /** Whether the log is applied, given what replay returned. */
  predicate Applies(err: Outcome, primary: bool) {
    err.Found? && err.updates > 0 && primary
  }

  function VerdictOf(err: Outcome, sb: Superblock): Verdict {
    if err.NoData? && sb.primary then Verdict(1, false, false)
    else if err.Invalid? && sb.primary then Verdict(2, false, false)
    else Verdict(0, err != Found(0), Applies(err, sb.primary) || !sb.clean || !sb.magic08)
  }

  /** The extents that replay leaves in use, in ascending order. */
  function HotOf(ring: seq<Block>): seq<nat>
    requires RingWellFormed(ring)
  {
    HotExtents(SortedOf(Replayed(Unused(), ring).1))
  }

  /** The bitmap afterwards, given the log in the order of transaction numbers. */
  function AfterApplyAl(bm: seq<Word>, ring: seq<Block>, primary: bool, n: nat, p: nat): (r: seq<Word>)
    requires RingWellFormed(ring) && p > 0
    ensures |r| == |bm|
  {
    if Applies(Replayed(Unused(), ring).0, primary) then SetExtents(bm, HotOf(ring), n, p) else bm
  }

  function CommandVerdict(x: Image, c: Config): Verdict
    requires OnDisk(x, c)
  {
    VerdictOf(Replayed(Unused(), RingOf(x, c)).0, x.sb)
  }

  function BitmapDone(x: Image, c: Config): Image
    requires OnDisk(x, c)
  {
    x.(bitmap := AfterApplyAl(x.bitmap, RingOf(x, c), x.sb.primary, c.bitsPerExtent, c.maxPeers))
  }

  function LogDone(x: Image, c: Config): Image
    requires OnDisk(x, c)
  {
    if CommandVerdict(x, c).reinitialize then BitmapDone(x, c).(log := FreshLog(|x.log|)) else BitmapDone(x, c)
  }

  /** What the command leaves on disk. */
  function AfterCommand(x: Image, c: Config): Image
    requires OnDisk(x, c)
  {
    if CommandVerdict(x, c).updateFlags then LogDone(x, c).(sb := x.sb.WithAlClean()) else LogDone(x, c)
  }

  /** The bitmaps that apply_al's writes leave: some of the extents are set, in the end all of them. */
  ghost predicate Steps(x: Image, c: Config, steps: seq<seq<Word>>)
    requires OnDisk(x, c)
  {
    && LastOf(x.bitmap, steps) == BitmapDone(x, c).bitmap
    && (forall k :: 0 <= k < |steps| ==>
          SetPartly(steps[k], x.bitmap, HotOf(RingOf(x, c)), c.bitsPerExtent, c.maxPeers))
    && (!Applies(Replayed(Unused(), RingOf(x, c)).0, x.sb.primary) ==> steps == [])
  }

  function WithBitmap(x: Image, steps: seq<seq<Word>>): (r: seq<Image>)
    ensures |r| == |steps|
  {
    seq(|steps|, k requires 0 <= k < |steps| => x.(bitmap := steps[k]))
  }

  /** The images once the bitmap is complete: the fresh log first, then the flags. */
  function LastWrites(x: Image, c: Config): seq<Image>
    requires OnDisk(x, c)
  {
    (if CommandVerdict(x, c).reinitialize then [LogDone(x, c)] else [])
    + if CommandVerdict(x, c).updateFlags then [AfterCommand(x, c)] else []
  }

  /** The image after each write of the command. */
  function Trace(x: Image, c: Config, steps: seq<seq<Word>>): seq<Image>
    requires OnDisk(x, c)
  {
    WithBitmap(x, steps) + LastWrites(x, c)
  }

  /** apply_al, where the metadata remembers the image after each of its writes. */
  method MarkExtents(md: MetaData, buffer: array<Word>, sorted: seq<nat>, n: nat, p: nat)
    returns (ghost steps: seq<seq<Word>>)
    requires ValidBitsPerExtent(n) && 1 <= p <= 32 && md.bitmap != buffer && Sorted(sorted)
    requires md.bitmap.Length % 1024 == 0 && buffer.Length % 1024 == 0 && buffer.Length >= 32 * 1024
    modifies md`images, md.bitmap, buffer
    ensures md.Contents()
         == old(md.Contents()).(bitmap := SetExtents(old(md.bitmap[..]), HotExtents(sorted), n, p))
    ensures md.images == old(md.images) + WithBitmap(old(md.Contents()), steps)
    ensures LastOf(old(md.bitmap[..]), steps) == md.bitmap[..]
    ensures forall k :: 0 <= k < |steps| ==> SetPartly(steps[k], old(md.bitmap[..]), HotExtents(sorted), n, p)
  {
    ghost var x := md.Contents();
    var additional;
    additional, steps := ApplyAl.ApplyAl(md.bitmap, buffer, sorted, n, p);
    md.images := md.images + WithBitmap(x, steps);
  }

  /** meta_apply_al, for format 8 with an 8.4 style log, and format 9. */
  method ApplyLog(md: MetaData, buffer: array<Word>, c: Config) returns (code: nat, ghost steps: seq<seq<Word>>)
    requires OnDisk(md.Contents(), c) && md.bitmap != buffer
    requires md.bitmap.Length % 1024 == 0 && buffer.Length % 1024 == 0 && buffer.Length >= 32 * 1024
    modifies md, md.bitmap, md.log, buffer
    ensures code == CommandVerdict(old(md.Contents()), c).code
    ensures md.Contents() == AfterCommand(old(md.Contents()), c)
    ensures Steps(old(md.Contents()), c, steps)
    ensures md.images == old(md.images) + Trace(old(md.Contents()), c, steps)
  {
    ghost var x, before := md.Contents(), md.images;
    hide Replayed, Ring, RingWellFormed, SortedOf, SetExtents, HotExtents, SetPartly, LogDone, AfterCommand, LastWrites;
    hide WithBitmap, LastOf, Trace;
    steps := [];
    var needed := md.sb.primary;
    var hot := new nat[AL_EXTENTS_MAX](_ => END_OF_LIST);
    assert hot[..] == Unused();
    var err := ReplayAl84(md.log[..], c.stripes, c.stripeSize, hot);
    assert (err, hot[..]) == Replayed(Unused(), RingOf(x, c));
    var reinitialize, updateFlags := false, false;
    if err.NoData? || err.Invalid? {
      if needed {
        return if err.NoData? then 1 else 2, [];
      }
      reinitialize := true;
    }
    if err.Found? && err.updates > 0 && needed {
      var sorted := SortedOf(hot[..]);
      SortedOfMeaning(hot[..]);
      steps := MarkExtents(md, buffer, sorted, c.bitsPerExtent, c.maxPeers);
      updateFlags := true;
    }
    assert md.Contents() == BitmapDone(x, c) && md.images == before + WithBitmap(x, steps);
    reinitialize := reinitialize || (err.Found? && err.updates > 0);
    updateFlags := updateFlags || !md.sb.clean || !md.sb.magic08;
    assert CommandVerdict(x, c) == Verdict(0, reinitialize, updateFlags);
    WriteLogAndFlags(md, reinitialize, updateFlags, x, c);
    Reassociate(before, x, c, steps);
    code := 0;
  }

  lemma Reassociate(before: seq<Image>, x: Image, c: Config, steps: seq<seq<Word>>)
    requires OnDisk(x, c)
    ensures before + WithBitmap(x, steps) + LastWrites(x, c) == before + Trace(x, c, steps)
  {
  }

  /** What is left to do once the bitmap is complete. */
  method WriteLogAndFlags(md: MetaData, reinitialize: bool, updateFlags: bool, ghost x: Image, ghost c: Config)
    requires OnDisk(x, c) && CommandVerdict(x, c) == Verdict(0, reinitialize, updateFlags)
    requires md.Contents() == BitmapDone(x, c)
    modifies md, md.log
    ensures md.Contents() == AfterCommand(x, c) && md.images == old(md.images) + LastWrites(x, c)
  {
    hide CommandVerdict, AfterApplyAl, OnDisk;
    if reinitialize {
      md.InitializeLog();
    }
    assert md.Contents() == LogDone(x, c);
    if updateFlags {
      md.UpdateFlags();
    }
  }

  // ---- what is marked ----

  /** The active set after the newest transaction. */
  function Newest(active: seq<seq<nat>>): seq<nat>
    requires active != []
  {
    active[|active| - 1]
  }

  /** The log mentions the slot, and it holds this extent after the newest transaction. */
  ghost predicate HeldIn(ring: seq<Block>, s: nat, active: seq<seq<nat>>, slot: nat, e: nat)
    requires History(ring, s, active) && active != []
  {
    slot < AL_EXTENTS_MAX && EverMentioned(ring, s, |active| - 1, slot) && Newest(active)[slot] == e
  }

  ghost predicate Active(ring: seq<Block>, s: nat, active: seq<seq<nat>>, e: nat)
    requires History(ring, s, active) && active != []
  {
    e != END_OF_LIST && exists slot: nat :: HeldIn(ring, s, active, slot, e)
  }

  /** Extent numbers have 32 bits. */
  ghost predicate Extents32(active: seq<seq<nat>>) {
    active != [] && forall slot :: 0 <= slot < |Newest(active)| ==> Newest(active)[slot] <= END_OF_LIST
  }

  lemma ReplayedActive(ring: seq<Block>, s: nat, m: nat, base: nat, active: seq<seq<nat>>, e: nat)
    requires Log(ring, s, m, base) && History(ring, s, active) && |active| == m + 1 && Intact(ring, s, m)
    requires Extents32(active)
    ensures RingWellFormed(ring)
    ensures e in HotOf(ring) <==> Active(ring, s, active, e)
  {
    hide Log, Replayed, EverMentioned, Intact;
    LogIsFound(ring, s, m, base, Unused());
    var hot := Replayed(Unused(), ring).1;
    forall slot: nat | slot < AL_EXTENTS_MAX
      ensures hot[slot] == if EverMentioned(ring, s, m, slot) then active[m][slot] else END_OF_LIST
      ensures HeldIn(ring, s, active, slot, e) <==> EverMentioned(ring, s, m, slot) && hot[slot] == e
    {
      RebuildsIntactLog(Unused(), ring, s, m, base, active, slot);
    }
    HotOnceSorted(hot, e);
  }

  lemma LogIsFound(ring: seq<Block>, s: nat, m: nat, base: nat, hot: seq<nat>)
    requires Log(ring, s, m, base) && |hot| == AL_EXTENTS_MAX
    ensures RingWellFormed(ring) && Replayed(hot, ring).0.Found? && Replayed(hot, ring).0.updates > 0
    ensures |Replayed(hot, ring).1| == |hot|
  {
    hide ScanRing, ReplayRange, WellFormed;
    FindsOldestAndNewest(ring, s, m, base);
  }

  /** Run on an intact log of a crashed primary: a bit of any slot is set afterwards exactly if it was, or its extent is
      active, and ends before the end of the bitmap. */
  lemma MarksActiveSet(x: Image, c: Config, s: nat, m: nat, base: nat, active: seq<seq<nat>>, slot: nat, b: nat)
    requires OnDisk(x, c) && x.sb.primary && Log(RingOf(x, c), s, m, base) && Intact(RingOf(x, c), s, m)
    requires History(RingOf(x, c), s, active) && |active| == m + 1 && Extents32(active)
    requires slot < c.maxPeers && WordIndex(c.maxPeers, slot, b) < |x.bitmap|
    ensures |AfterCommand(x, c).bitmap| == |x.bitmap|
    ensures BitAt(AfterCommand(x, c).bitmap, c.maxPeers, slot, b)
        <==> BitAt(x.bitmap, c.maxPeers, slot, b)
             || (Active(RingOf(x, c), s, active, b / c.bitsPerExtent)
                 && InBitmap(b / c.bitsPerExtent, c.bitsPerExtent, c.maxPeers, |x.bitmap|))
  {
    hide Log, History, Replayed, Active, Intact, SortedOf, BitAt, InBitmap, RingOf, CommandVerdict;
    var ring := RingOf(x, c);
    LogIsFound(ring, s, m, base, Unused());
    ReplayedActive(ring, s, m, base, active, b / c.bitsPerExtent);
    SetExtentsBits(x.bitmap, HotOf(ring), c.bitsPerExtent, c.maxPeers, slot, b);
  }

  /** With corrupt transactions in between, the extents of the slots that the log still tells about are marked. */
  lemma MarksKnownSlots(x: Image, c: Config, s: nat, m: nat, base: nat, active: seq<seq<nat>>, slot: nat, b: nat,
                        k: nat)
    requires OnDisk(x, c) && x.sb.primary && Log(RingOf(x, c), s, m, base)
    requires History(RingOf(x, c), s, active) && |active| == m + 1
    requires slot < c.maxPeers && WordIndex(c.maxPeers, slot, b) < |x.bitmap|
    requires k < AL_EXTENTS_MAX && Known(RingOf(x, c), s, active, m, k)
    requires active[m][k] == b / c.bitsPerExtent < END_OF_LIST
    requires InBitmap(b / c.bitsPerExtent, c.bitsPerExtent, c.maxPeers, |x.bitmap|)
    ensures |AfterCommand(x, c).bitmap| == |x.bitmap|
    ensures BitAt(AfterCommand(x, c).bitmap, c.maxPeers, slot, b)
  {
    hide Log, Replayed, Known, SortedOf, BitAt, InBitmap, RingOf, CommandVerdict;
    var ring := RingOf(x, c);
    LogIsFound(ring, s, m, base, Unused());
    RebuildsActiveSet(Unused(), ring, s, m, base, active, k);
    var hot := Replayed(Unused(), ring).1;
    SortedOfMeaning(hot);
    assert hot[k] in multiset(SortedOf(hot));
    AllHotExtents(SortedOf(hot), b / c.bitsPerExtent);
    SetExtentsBits(x.bitmap, HotOf(ring), c.bitsPerExtent, c.maxPeers, slot, b);
  }

  // ---- what the command does, by the blocks of the log on disk ----

  lemma BlockOfRing(x: Image, c: Config, b: nat) returns (o: nat)
    requires OnDisk(x, c) && b < |x.log|
    ensures o < |x.log| && RingOf(x, c)[b] == x.log[o] && (b == 0 <==> o == 0)
  {
    assert c.stripes > 0 && c.stripeSize > 0;
    OnDiskSlotBijection(b, c.stripes, c.stripeSize);
    OnDiskSlotBijection(0, c.stripes, c.stripeSize);
    o := OnDiskSlot(b, c.stripes, c.stripeSize, |x.log|);
  }

  lemma BlockOnDisk(x: Image, c: Config, o: nat) returns (b: nat)
    requires OnDisk(x, c) && o < |x.log|
    ensures b < |x.log| && RingOf(x, c)[b] == x.log[o] && (b == 0 <==> o == 0)
  {
    assert c.stripes > 0 && c.stripeSize > 0;
    OnDiskSlotBijection(o, c.stripes, c.stripeSize);
    OnDiskSlotBijection(0, c.stripes, c.stripeSize);
    b := RingPosition(o, c.stripes, c.stripeSize);
  }

  lemma SameBlocks(x: Image, c: Config)
    requires OnDisk(x, c)
    ensures SomeUpdate(RingOf(x, c)) <==> SomeUpdate(x.log)
    ensures SomeValid(RingOf(x, c)) <==> SomeValid(x.log)
    ensures AllButFirstValid(RingOf(x, c)) <==> AllButFirstValid(x.log)
  {
    var ring := RingOf(x, c);
    hide RingOf;
    forall b: nat | b < |ring|
      ensures exists o: nat :: o < |x.log| && ring[b] == x.log[o] && (b == 0 <==> o == 0)
    {
      var o := BlockOfRing(x, c, b);
    }
    forall o: nat | o < |x.log|
      ensures exists b: nat :: b < |ring| && ring[b] == x.log[o] && (b == 0 <==> o == 0)
    {
      var b := BlockOnDisk(x, c, o);
    }
  }

  /** There is a log, but no transaction in it, and not only the first block is broken. */
  predicate Broken(log: seq<Block>) {
    SomeValid(log) && !SomeUpdate(log) && !AllButFirstValid(log)
  }

  /** Every block is a valid one without a transaction. */
  predicate AllFresh(log: seq<Block>) {
    forall b :: 0 <= b < |log| ==> log[b].valid && log[b].initialized
  }

  /** The command fails, and leaves everything as it is, exactly for a crashed primary without a usable log. */
  lemma CodeMeaning(x: Image, c: Config)
    requires OnDisk(x, c)
    ensures CommandVerdict(x, c).code
         == if x.sb.primary && !SomeValid(x.log) then 1 else if x.sb.primary && Broken(x.log) then 2 else 0
    ensures CommandVerdict(x, c).code != 0 ==> AfterCommand(x, c) == x
  {
    hide Replayed, RingOf, SomeUpdate, SomeValid, AllButFirstValid;
    SameBlocks(x, c);
    OutcomeMeaning(Unused(), RingOf(x, c));
  }

  /** Otherwise the bitmap changes only for a crashed primary with transactions in the log; the log is fresh afterwards
      if there were any or if it was not usable, and else as it was; and the activity log counts as clean. */
  lemma CommandMeaning(x: Image, c: Config)
    requires OnDisk(x, c) && CommandVerdict(x, c).code == 0
    ensures !x.sb.primary || !SomeUpdate(x.log) ==> AfterCommand(x, c).bitmap == x.bitmap
    ensures |AfterCommand(x, c).log| == |x.log|
    ensures if SomeUpdate(x.log) || !SomeValid(x.log) || Broken(x.log) then AllFresh(AfterCommand(x, c).log)
            else AfterCommand(x, c).log == x.log
    ensures AfterCommand(x, c).sb == Superblock(x.sb.version08, x.sb.magic08 || x.sb.version08, x.sb.primary, true)
  {
    hide Replayed, RingOf, SomeUpdate, SomeValid, AllButFirstValid;
    SameBlocks(x, c);
    OutcomeMeaning(Unused(), RingOf(x, c));
  }

  /** The number of writes: those of the bitmap, one of the log if that is initialised, one of the superblock if the
      bitmap was marked or the superblock did not say clean. */
  lemma WritesMeaning(x: Image, c: Config, steps: seq<seq<Word>>)
    requires OnDisk(x, c) && Steps(x, c, steps)
    ensures !x.sb.primary || !SomeUpdate(x.log) ==> steps == []
    ensures CommandVerdict(x, c).code != 0 ==> Trace(x, c, steps) == []
    ensures CommandVerdict(x, c).code == 0 ==>
              |Trace(x, c, steps)| == |steps|
                                      + (if SomeUpdate(x.log) || !SomeValid(x.log) || Broken(x.log) then 1 else 0)
                                      + (if (x.sb.primary && SomeUpdate(x.log)) || !x.sb.clean || !x.sb.magic08
                                         then 1 else 0)
  {
    hide Replayed, RingOf, SomeUpdate, SomeValid, AllButFirstValid;
    SameBlocks(x, c);
    OutcomeMeaning(Unused(), RingOf(x, c));
  }
}
