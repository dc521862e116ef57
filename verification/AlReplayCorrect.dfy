/** What a replayed activity log means, given how the log is written. */
module AlReplayCorrect {
  import opened Arith
  import opened AlReplay
  import opened ApplyAlSpec

  /** An intact transaction: its magic and checksum are right, and it is not the mark of a fresh log. */
  predicate IsUpdate(x: Block) {
    x.valid && !x.initialized
  }

  /** How many transactions after position s the transaction at position b was written. */
  function Age(b: nat, s: nat, mx: nat): int
    requires b < mx && s < mx
  {
    if b >= s then b - s else b - s + mx
  }

  /** The log holds m transactions, written to consecutive positions from s on, with consecutive numbers modulo 2^32
      from base on. The first and the last are intact; any other may be corrupt, and then counts as no transaction. */
  ghost predicate Log(ring: seq<Block>, s: nat, m: nat, base: nat) {
    && RingWellFormed(ring) && s < |ring| && 1 <= m <= |ring| && m <= 0x8000_0000
    && IsUpdate(ring[s]) && IsUpdate(ring[(s + m - 1) % |ring|])
    && forall b :: 0 <= b < |ring| && IsUpdate(ring[b]) ==>
         Age(b, s, |ring|) < m && ring[b].trNumber == U32(base + Age(b, s, |ring|))
  }

  /** Serial number arithmetic with 32 bits, as in section 3.2 of RFC 1982. */
  lemma SerialOrder(base: int, x: int, y: int)
    requires -0x8000_0000 < x - y < 0x8000_0000
    ensures Before(U32(base + x), U32(base + y)) <==> x < y
  {
    var a: int, b: int := U32(base + x), U32(base + y);
    var q := (base + x) / 0x1_0000_0000 - (base + y) / 0x1_0000_0000;
    assert a - b == x - y - q * 0x1_0000_0000;
    Wrapped(x - y, q);
    SmallConversions(x - y);
  }

  lemma Wrapped(d: int, q: int)
    ensures I32(d - q * 0x1_0000_0000) == I32(d)
  {
  }

  /** The cursors are at the oldest and newest transaction among the first n blocks. */
  ghost predicate Extremes(ring: seq<Block>, s: nat, n: nat)
    requires s < |ring| && n <= |ring|
  {
    var scan := ScanRing(ring, n);
    if scan.updates == 0 then forall b :: 0 <= b < n ==> !IsUpdate(ring[b])
    else
      && CursorAt(scan.oldest, ring, n) && CursorAt(scan.newest, ring, n)
      && forall b :: 0 <= b < n && IsUpdate(ring[b]) ==>
           Age(scan.oldest.i, s, |ring|) <= Age(b, s, |ring|) <= Age(scan.newest.i, s, |ring|)
  }

  ghost predicate CursorAt(c: Cursor, ring: seq<Block>, n: nat)
    requires n <= |ring|
  {
    c.i < n && IsUpdate(ring[c.i]) && c.trNumber == ring[c.i].trNumber
  }

  lemma AgeOrder(ring: seq<Block>, s: nat, m: nat, base: nat, b: nat, c: nat)
    requires Log(ring, s, m, base) && b < |ring| && c < |ring| && IsUpdate(ring[b]) && IsUpdate(ring[c])
    ensures Before(ring[b].trNumber, ring[c].trNumber) <==> Age(b, s, |ring|) < Age(c, s, |ring|)
  {
    SerialOrder(base, Age(b, s, |ring|), Age(c, s, |ring|));
  }

  lemma {:induction false} ScanFinds(ring: seq<Block>, s: nat, m: nat, base: nat, n: nat)
    requires Log(ring, s, m, base) && n <= |ring|
    ensures Extremes(ring, s, n)
  {
    if n > 0 {
      ScanFinds(ring, s, m, base, n - 1);
      var before := ScanRing(ring, n - 1);
      if IsUpdate(ring[n - 1]) && before.updates > 0 {
        AgeOrder(ring, s, m, base, n - 1, before.oldest.i);
        AgeOrder(ring, s, m, base, before.newest.i, n - 1);
      }
    }
  }

  /** The scan finds the transactions that were written first and last, also if the ring or the numbers wrapped. */
  lemma FindsOldestAndNewest(ring: seq<Block>, s: nat, m: nat, base: nat)
    requires Log(ring, s, m, base)
    ensures var scan := ScanRing(ring, |ring|);
            && scan.updates > 0 && scan.oldest.i == s && scan.newest.i == (s + m - 1) % |ring|
            && End(scan, |ring|) == s + m
  {
    hide ScanRing, WellFormed;
    ScanFinds(ring, s, m, base, |ring|);
    LastAge(s, m, |ring|);
  }

  lemma LastAge(s: nat, m: nat, mx: nat)
    requires s < mx && 1 <= m <= mx
    ensures var last := (s + m - 1) % mx;
            && last == (if s + m - 1 < mx then s + m - 1 else s + m - 1 - mx)
            && Age(last, s, mx) == m - 1 && Age(s, s, mx) == 0
  {
    DivRange(s + m - 1, mx, if s + m - 1 < mx then 0 else 1);
  }

  // ---- what is replayed ----

  /** The t-th transaction written, or what became of it. */
  function Nth(ring: seq<Block>, s: nat, t: nat): Block
    requires |ring| > 0
  {
    ring[(s + t) % |ring|]
  }

  /** The intact ones among the first t transactions, in the order they were written. */
  function Committed(ring: seq<Block>, s: nat, t: nat): seq<Block>
    requires |ring| > 0
  {
    if t == 0 then []
    else Committed(ring, s, t - 1) + if IsUpdate(Nth(ring, s, t - 1)) then [Nth(ring, s, t - 1)] else []
  }

  function ApplyBlocks(hot: seq<nat>, xs: seq<Block>): (r: seq<nat>)
    requires RingWellFormed(xs) && |hot| == AL_EXTENTS_MAX
    ensures |r| == |hot|
  {
    if xs == [] then hot else ApplyBlock(ApplyBlocks(hot, xs[..|xs| - 1]), xs[|xs| - 1])
  }

  lemma ApplyBlocksMore(hot: seq<nat>, xs: seq<Block>, x: Block)
    requires RingWellFormed(xs) && WellFormed(x) && |hot| == AL_EXTENTS_MAX
    ensures RingWellFormed(xs + [x]) && ApplyBlocks(hot, xs + [x]) == ApplyBlock(ApplyBlocks(hot, xs), x)
  {
    assert (xs + [x])[..|xs|] == xs;
  }

  lemma {:induction false} RangeIsCommitted(hot: seq<nat>, ring: seq<Block>, s: nat, t: nat)
    requires |ring| > 0 && RingWellFormed(ring) && |hot| == AL_EXTENTS_MAX
    ensures RingWellFormed(Committed(ring, s, t))
    ensures ReplayRange(hot, ring, s, s + t) == ApplyBlocks(hot, Committed(ring, s, t))
  {
    hide ApplyBlock;
    if t > 0 {
      RangeIsCommitted(hot, ring, s, t - 1);
      var xs := Committed(ring, s, t - 1);
      ApplyBlocksMore(hot, xs, Nth(ring, s, t - 1));
      assert xs + [] == xs;
    }
  }

  /** So the loop goes from the oldest transaction to the newest. */
  lemma ReplaysRange(hot: seq<nat>, ring: seq<Block>, s: nat, m: nat, base: nat)
    requires Log(ring, s, m, base) && |hot| == AL_EXTENTS_MAX
    ensures RingWellFormed(ring) && |ring| > 0
    ensures Replayed(hot, ring).0.Found? && Replayed(hot, ring).1 == ReplayRange(hot, ring, s, s + m)
  {
    hide ScanRing, ReplayRange, WellFormed;
    FindsOldestAndNewest(ring, s, m, base);
  }

  /** Replay applies each intact transaction once, in the order they were written. */
  lemma ReplaysInCommitOrder(hot: seq<nat>, ring: seq<Block>, s: nat, m: nat, base: nat)
    requires Log(ring, s, m, base) && |hot| == AL_EXTENTS_MAX
    ensures RingWellFormed(Committed(ring, s, m))
    ensures Replayed(hot, ring).1 == ApplyBlocks(hot, Committed(ring, s, m))
    ensures Replayed(hot, ring).0.Found?
  {
    hide Log, Replayed, RingWellFormed;
    ReplaysRange(hot, ring, s, m, base);
    RangeIsCommitted(hot, ring, s, m);
  }

  // ---- the active set ----

  /** One of the first n updates is for the slot. */
  predicate UpdatesSlot(x: Block, n: nat, slot: nat)
    requires n <= |x.updateSlot|
  {
    exists i :: 0 <= i < n && x.updateSlot[i] == slot
  }

  /** Update i is the last one of the first n for the slot. */
  predicate LastUpdate(x: Block, n: nat, slot: nat, i: int)
    requires n <= |x.updateSlot|
  {
    0 <= i < n && x.updateSlot[i] == slot && forall j :: i < j < n ==> x.updateSlot[j] != slot
  }

  /** One of the first n context entries tells the slot. Unused entries count only within the context's size. */
  predicate TellsSlot(x: Block, n: nat, slot: nat)
    requires n <= |x.context|
  {
    && x.contextStart <= slot < x.contextStart + n
    && (x.context[slot - x.contextStart] != END_OF_LIST || slot < x.contextSize)
  }

  lemma {:induction false} ContextMeaning(hot: seq<nat>, x: Block, n: nat, slot: nat)
    requires n <= |x.context| && slot < AL_EXTENTS_MAX == |hot|
    ensures AfterContext(hot, x, n)[slot]
         == if TellsSlot(x, n, slot) then x.context[slot - x.contextStart] else hot[slot]
  {
    if n > 0 {
      ContextMeaning(hot, x, n - 1, slot);
    }
  }

  lemma {:induction false} UpdatesMeaning(hot: seq<nat>, x: Block, n: nat, slot: nat)
    requires n <= |x.updateSlot| == |x.updateExtent| && slot < AL_EXTENTS_MAX == |hot|
    ensures if UpdatesSlot(x, n, slot)
            then exists i :: LastUpdate(x, n, slot, i) && AfterUpdates(hot, x, n)[slot] == x.updateExtent[i]
            else AfterUpdates(hot, x, n)[slot] == hot[slot]
  {
    if n > 0 {
      UpdatesMeaning(hot, x, n - 1, slot);
      if x.updateSlot[n - 1] == slot {
        assert LastUpdate(x, n, slot, n - 1);
      } else if UpdatesSlot(x, n - 1, slot) {
        var i :| LastUpdate(x, n - 1, slot, i) && AfterUpdates(hot, x, n - 1)[slot] == x.updateExtent[i];
        assert LastUpdate(x, n, slot, i);
      }
    }
  }

  /** What a transaction makes of a slot: its last update for the slot; else its context, if that tells the slot; else
      nothing. The source's test for unused updates never decides: the slot number they carry is out of range. */
  lemma BlockMeaning(hot: seq<nat>, x: Block, slot: nat)
    requires WellFormed(x) && slot < AL_EXTENTS_MAX == |hot|
    ensures UpdatesSlot(x, |x.updateSlot|, slot) ==>
              exists i :: LastUpdate(x, |x.updateSlot|, slot, i) && ApplyBlock(hot, x)[slot] == x.updateExtent[i]
    ensures !UpdatesSlot(x, |x.updateSlot|, slot) && TellsSlot(x, |x.context|, slot) ==>
              ApplyBlock(hot, x)[slot] == x.context[slot - x.contextStart]
    ensures !UpdatesSlot(x, |x.updateSlot|, slot) && !TellsSlot(x, |x.context|, slot) ==>
              ApplyBlock(hot, x)[slot] == hot[slot]
  {
    ContextMeaning(hot, x, |x.context|, slot);
    UpdatesMeaning(AfterContext(hot, x, |x.context|), x, |x.updateSlot|, slot);
  }

  /** How transactions are written, given one extent number per slot: context tells slots as they were before, updates
      tell the slots that changed. */
  ghost predicate Records(x: Block, before: seq<nat>, after: seq<nat>)
    requires WellFormed(x)
  {
    && |before| == |after|
    && (forall slot: nat :: slot < |before| && TellsSlot(x, |x.context|, slot) ==>
          before[slot] == x.context[slot - x.contextStart])
    && (forall i :: 0 <= i < |x.updateSlot| && x.updateSlot[i] < |after| ==>
          after[x.updateSlot[i]] == x.updateExtent[i])
    && forall slot: nat :: slot < |after| && !UpdatesSlot(x, |x.updateSlot|, slot) ==> after[slot] == before[slot]
  }

  predicate MentionedIn(x: Block, slot: nat)
    requires WellFormed(x)
  {
    UpdatesSlot(x, |x.updateSlot|, slot) || TellsSlot(x, |x.context|, slot)
  }

  lemma BlockStep(hot: seq<nat>, x: Block, before: seq<nat>, after: seq<nat>, slot: nat)
    requires WellFormed(x) && Records(x, before, after) && |hot| == |before| == AL_EXTENTS_MAX && slot < |hot|
    ensures MentionedIn(x, slot) ==> ApplyBlock(hot, x)[slot] == after[slot]
    ensures !MentionedIn(x, slot) ==> ApplyBlock(hot, x)[slot] == hot[slot] && after[slot] == before[slot]
  {
    hide ApplyBlock;
    BlockMeaning(hot, x, slot);
  }

  /** active[t] is the active set before the t-th transaction; the intact ones are recorded. */
  ghost predicate History(ring: seq<Block>, s: nat, active: seq<seq<nat>>) {
    && |ring| > 0 && RingWellFormed(ring)
    && (forall t :: 0 <= t < |active| ==> |active[t]| == AL_EXTENTS_MAX)
    && forall t: nat :: t + 1 < |active| && IsUpdate(Nth(ring, s, t)) ==>
         Records(Nth(ring, s, t), active[t], active[t + 1])
  }

  /** The first t transactions tell what is in the slot: an intact one mentions it, and no corrupt one after that
      changed it. */
  predicate Known(ring: seq<Block>, s: nat, active: seq<seq<nat>>, t: nat, slot: nat)
    requires |ring| > 0 && RingWellFormed(ring) && t < |active|
    requires forall t :: 0 <= t < |active| ==> |active[t]| == AL_EXTENTS_MAX
    requires slot < AL_EXTENTS_MAX
  {
    t > 0 &&
    var x := Nth(ring, s, t - 1);
    if IsUpdate(x) then MentionedIn(x, slot) || Known(ring, s, active, t - 1, slot)
    else active[t][slot] == active[t - 1][slot] && Known(ring, s, active, t - 1, slot)
  }

  lemma {:induction false} RangeRebuilds(hot: seq<nat>, ring: seq<Block>, s: nat, active: seq<seq<nat>>, t: nat,
                                         slot: nat)
    requires History(ring, s, active) && t < |active| && slot < AL_EXTENTS_MAX == |hot|
    ensures Known(ring, s, active, t, slot) ==> ReplayRange(hot, ring, s, s + t)[slot] == active[t][slot]
  {
    if t > 0 {
      RangeRebuilds(hot, ring, s, active, t - 1, slot);
      var x := Nth(ring, s, t - 1);
      if IsUpdate(x) {
        BlockStep(ReplayRange(hot, ring, s, s + t - 1), x, active[t - 1], active[t], slot);
      }
    }
  }

  /** Replay rebuilds the active set: every slot the log tells about ends with its contents after the newest
      transaction. */
  lemma RebuildsActiveSet(hot: seq<nat>, ring: seq<Block>, s: nat, m: nat, base: nat, active: seq<seq<nat>>, slot: nat)
    requires Log(ring, s, m, base) && History(ring, s, active) && |active| == m + 1 && slot < AL_EXTENTS_MAX == |hot|
    ensures Known(ring, s, active, m, slot) ==> Replayed(hot, ring).1[slot] == active[m][slot]
  {
    hide Log, Replayed, RingWellFormed, Known, History;
    ReplaysRange(hot, ring, s, m, base);
    RangeRebuilds(hot, ring, s, active, m, slot);
  }

  predicate EverMentioned(ring: seq<Block>, s: nat, t: nat, slot: nat)
    requires |ring| > 0 && RingWellFormed(ring)
  {
    exists u :: 0 <= u < t && MentionedIn(Nth(ring, s, u), slot)
  }

  lemma MentionedStep(ring: seq<Block>, s: nat, t: nat, slot: nat)
    requires |ring| > 0 && RingWellFormed(ring)
    ensures EverMentioned(ring, s, t + 1, slot)
        <==> EverMentioned(ring, s, t, slot) || MentionedIn(Nth(ring, s, t), slot)
  {
    hide MentionedIn;
  }

  /** The first t transactions are all intact. */
  predicate Intact(ring: seq<Block>, s: nat, t: nat)
    requires |ring| > 0
  {
    forall u :: 0 <= u < t ==> IsUpdate(Nth(ring, s, u))
  }

  lemma {:induction false} IntactRange(hot: seq<nat>, ring: seq<Block>, s: nat, active: seq<seq<nat>>, t: nat,
                                       slot: nat)
    requires History(ring, s, active) && t < |active| && slot < AL_EXTENTS_MAX == |hot| && Intact(ring, s, t)
    ensures ReplayRange(hot, ring, s, s + t)[slot]
        == if EverMentioned(ring, s, t, slot) then active[t][slot] else hot[slot]
  {
    hide ApplyBlock, MentionedIn, Records;
    if t > 0 {
      IntactRange(hot, ring, s, active, t - 1, slot);
      MentionedStep(ring, s, t - 1, slot);
      assert IsUpdate(Nth(ring, s, t - 1));
      BlockStep(ReplayRange(hot, ring, s, s + t - 1), Nth(ring, s, t - 1), active[t - 1], active[t], slot);
    }
  }

  /** With all transactions intact, these are the slots some transaction mentions; all others are left alone. */
  lemma RebuildsIntactLog(hot: seq<nat>, ring: seq<Block>, s: nat, m: nat, base: nat, active: seq<seq<nat>>, slot: nat)
    requires Log(ring, s, m, base) && History(ring, s, active) && |active| == m + 1 && slot < AL_EXTENTS_MAX == |hot|
    requires Intact(ring, s, m)
    ensures Replayed(hot, ring).1[slot] == if EverMentioned(ring, s, m, slot) then active[m][slot] else hot[slot]
  {
    hide Log, Replayed, RingWellFormed, EverMentioned, History;
    ReplaysRange(hot, ring, s, m, base);
    IntactRange(hot, ring, s, active, m, slot);
  }
}
