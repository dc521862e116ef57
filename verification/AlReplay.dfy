/** replay_al_84: rebuilding the active set from the striped ring of activity log transactions. */
module AlReplay {
  import opened Arith
  import opened ApplyAlSpec

  /** A 4k block of the log. valid stands for its magic and checksum, initialized for its transaction type. */
  datatype Block = Block(valid: bool, initialized: bool, trNumber: nat,
                         nUpdates: nat, updateSlot: seq<nat>, updateExtent: seq<nat>,
                         contextSize: nat, contextStart: nat, context: seq<nat>)

  predicate WellFormed(x: Block) {
    x.trNumber < 0x1_0000_0000 && |x.updateSlot| == |x.updateExtent|
  }

  // ---- striping ----

  /** al_tr_number_to_on_disk_slot: the block on disk for a transaction number. */
  function OnDiskSlot(b: nat, stripes: nat, stripeSize: nat, mx: nat): nat
    requires mx > 0 && stripes > 0
  {
    var t := b % mx;
    t % stripes * stripeSize + t / stripes
  }

  /** The transaction number modulo mx whose block that is. */
  function RingPosition(o: nat, stripes: nat, stripeSize: nat): nat
    requires stripeSize > 0
  {
    o % stripeSize * stripes + o / stripeSize
  }

  /** Transposing a table of a by b twice. */
  lemma Transposed(x: nat, a: nat, b: nat)
    requires a > 0 && b > 0 && x < a * b
    ensures x % a * b + x / a < a * b
    ensures (x % a * b + x / a) / b == x % a && (x % a * b + x / a) % b == x / a
    ensures (x % a * b + x / a) % b * a + (x % a * b + x / a) / b == x
  {
    var q, r := x / a, x % a;
    assert x == q * a + r;
    assert q < b by {
      if q >= b {
        MulMonotone(b, q, a);
      }
    }
    MulMonotone(r + 1, a, b);
    Coordinates(r, q, b);
  }

  lemma Coordinates(r: nat, q: nat, b: nat)
    requires q < b
    ensures (r * b + q) / b == r && (r * b + q) % b == q
  {
    DivRange(r * b + q, b, r);
  }

  /** The numbers 0 to mx - 1 are mapped one to one onto the blocks 0 to mx - 1. Consecutive numbers are in
      consecutive stripes. */
  lemma OnDiskSlotBijection(x: nat, stripes: nat, stripeSize: nat)
    requires stripes > 0 && stripeSize > 0 && x < stripes * stripeSize
    ensures var mx := stripes * stripeSize;
            && OnDiskSlot(x, stripes, stripeSize, mx) < mx && RingPosition(x, stripes, stripeSize) < mx
            && OnDiskSlot(x, stripes, stripeSize, mx) / stripeSize == x % stripes
            && OnDiskSlot(x, stripes, stripeSize, mx) % stripeSize == x / stripes
            && RingPosition(OnDiskSlot(x, stripes, stripeSize, mx), stripes, stripeSize) == x
            && OnDiskSlot(RingPosition(x, stripes, stripeSize), stripes, stripeSize, mx) == x
  {
    InverseWithin(x, stripes, stripeSize, stripes * stripeSize);
  }

  lemma OnDiskSlotWithin(x: nat, stripes: nat, stripeSize: nat, mx: nat)
    requires stripes > 0 && x < mx
    ensures OnDiskSlot(x, stripes, stripeSize, mx) == x % stripes * stripeSize + x / stripes
  {
    DivRange(x, mx, 0);
  }

  lemma InverseWithin(x: nat, stripes: nat, stripeSize: nat, mx: nat)
    requires stripes > 0 && stripeSize > 0 && mx == stripes * stripeSize && x < mx
    ensures OnDiskSlot(x, stripes, stripeSize, mx) < mx && RingPosition(x, stripes, stripeSize) < mx
    ensures RingPosition(OnDiskSlot(x, stripes, stripeSize, mx), stripes, stripeSize) == x
    ensures OnDiskSlot(RingPosition(x, stripes, stripeSize), stripes, stripeSize, mx) == x
    ensures OnDiskSlot(x, stripes, stripeSize, mx) / stripeSize == x % stripes
    ensures OnDiskSlot(x, stripes, stripeSize, mx) % stripeSize == x / stripes
  {
    hide OnDiskSlot;
    OnDiskSlotWithin(x, stripes, stripeSize, mx);
    Transposed(x, stripes, stripeSize);
    Transposed(x, stripeSize, stripes);
    OnDiskSlotWithin(RingPosition(x, stripes, stripeSize), stripes, stripeSize, mx);
  }

  /** The log in the order of transaction numbers. */
  function Ring(disk: seq<Block>, stripes: nat, stripeSize: nat): (r: seq<Block>)
    requires |disk| == stripes * stripeSize
    ensures |r| == |disk|
  {
    seq(|disk|, b requires 0 <= b < |disk| =>
      assert stripes > 0 && stripeSize > 0;
      OnDiskSlotBijection(b, stripes, stripeSize);
      disk[OnDiskSlot(b, stripes, stripeSize, |disk|)])
  }

  // ---- finding the oldest and the newest transaction ----

  datatype Cursor = Cursor(i: nat, trNumber: nat)

  datatype Scan = Scan(valid: nat, updates: nat, oldest: Cursor, newest: Cursor)

  /** (int)a - (int)b < 0 */
  predicate Before(a: nat, b: nat) {
    I32(a - b) < 0
  }

  /** One block of the scan. */
  function ScanBlock(s: Scan, b: nat, x: Block): Scan {
    if !x.valid then s
    else if x.initialized then s.(valid := s.valid + 1)
    else
      var here := Cursor(b, x.trNumber);
      if s.updates == 0 then Scan(s.valid + 1, 1, here, here)
      else
        Scan(s.valid + 1, s.updates + 1,
             if Before(x.trNumber, s.oldest.trNumber) then here else s.oldest,
             if Before(s.newest.trNumber, x.trNumber) then here else s.newest)
  }

  function ScanRing(ring: seq<Block>, b: nat): Scan
    requires b <= |ring|
  {
    if b == 0 then Scan(0, 0, Cursor(0, 0), Cursor(0, 0))
    else ScanBlock(ScanRing(ring, b - 1), b - 1, ring[b - 1])
  }

  // ---- what a transaction says ----

  /** hot_extent after the first n context entries of a transaction. */
  function AfterContext(hot: seq<nat>, x: Block, n: nat): (r: seq<nat>)
    requires n <= |x.context| && |hot| == AL_EXTENTS_MAX
    ensures |r| == |hot|
  {
    if n == 0 then hot
    else
      var (h, slot, extent) := (AfterContext(hot, x, n - 1), x.contextStart + n - 1, x.context[n - 1]);
      if (extent == END_OF_LIST && slot >= x.contextSize) || slot >= AL_EXTENTS_MAX then h else h[slot := extent]
  }

  /** And after its first n updates. */
  function AfterUpdates(hot: seq<nat>, x: Block, n: nat): (r: seq<nat>)
    requires n <= |x.updateSlot| == |x.updateExtent| && |hot| == AL_EXTENTS_MAX
    ensures |r| == |hot|
  {
    if n == 0 then hot
    else
      var (h, slot, extent) := (AfterUpdates(hot, x, n - 1), x.updateSlot[n - 1], x.updateExtent[n - 1]);
      if (n - 1 >= x.nUpdates && slot == 0xFFFF) || slot >= AL_EXTENTS_MAX then h else h[slot := extent]
  }

  function ApplyBlock(hot: seq<nat>, x: Block): (r: seq<nat>)
    requires WellFormed(x) && |hot| == AL_EXTENTS_MAX
    ensures |r| == |hot|
  {
    AfterUpdates(AfterContext(hot, x, |x.context|), x, |x.updateSlot|)
  }

  /** The replay loop: positions first up to, not including, end, wrapping around the ring. */
  function ReplayRange(hot: seq<nat>, ring: seq<Block>, first: nat, end: nat): (r: seq<nat>)
    requires first <= end && |ring| > 0 && RingWellFormed(ring) && |hot| == AL_EXTENTS_MAX
    ensures |r| == |hot|
    decreases end
  {
    if first == end then hot
    else
      var (h, x) := (ReplayRange(hot, ring, first, end - 1), ring[(end - 1) % |ring|]);
      if x.valid && !x.initialized then ApplyBlock(h, x) else h
  }

  predicate RingWellFormed(ring: seq<Block>) {
    forall b :: 0 <= b < |ring| ==> WellFormed(ring[b])
  }

  // ---- the code ----

  method ReplayContext(x: Block, hot: array<nat>)
    requires hot.Length == AL_EXTENTS_MAX
    modifies hot
    ensures hot[..] == AfterContext(old(hot[..]), x, |x.context|)
  {
    for i := 0 to |x.context|
      invariant hot[..] == AfterContext(old(hot[..]), x, i)
    {
      var slot := x.contextStart + i;
      if x.context[i] == END_OF_LIST && slot >= x.contextSize {
        continue;
      }
      if slot >= AL_EXTENTS_MAX {
        continue;
      }
      hot[slot] := x.context[i];
    }
  }

  method ReplayUpdates(x: Block, hot: array<nat>)
    requires WellFormed(x) && hot.Length == AL_EXTENTS_MAX
    modifies hot
    ensures hot[..] == AfterUpdates(old(hot[..]), x, |x.updateSlot|)
  {
    for i := 0 to |x.updateSlot|
      invariant hot[..] == AfterUpdates(old(hot[..]), x, i)
    {
      var slot := x.updateSlot[i];
      if i >= x.nUpdates && slot == 0xFFFF {
        continue;
      }
      if slot >= AL_EXTENTS_MAX {
        continue;
      }
      hot[slot] := x.updateExtent[i];
    }
  }

  /** NoData and Invalid are the source's negative error codes. */
  datatype Outcome = NoData | Invalid | Found(updates: nat)

  /** The verdict on a log without update transactions. */
  function WithoutUpdates(ring: seq<Block>, valid: nat): Outcome
    requires valid > 0 ==> |ring| > 0
  {
    if valid == 0 then NoData
    else if valid == |ring| || (!ring[0].valid && valid == |ring| - 1) then Found(0)
    else Invalid
  }

  /** What replay returns, and what it makes of hot_extent; without updates, nothing. */
  function Replayed(hot: seq<nat>, ring: seq<Block>): (Outcome, seq<nat>)
    requires RingWellFormed(ring) && |hot| == AL_EXTENTS_MAX
  {
    var s := ScanRing(ring, |ring|);
    ScanBounds(ring, |ring|);
    if s.updates == 0 then (WithoutUpdates(ring, s.valid), hot)
    else (Found(s.updates), ReplayRange(hot, ring, s.oldest.i, End(s, |ring|)))
  }

  /** Endian conversion is left out, so this loop collects and scans the blocks. */
  method ReadRing(disk: seq<Block>, stripes: nat, stripeSize: nat) returns (cpu: seq<Block>, s: Scan)
    requires |disk| == stripes * stripeSize
    ensures cpu == Ring(disk, stripes, stripeSize) && s == ScanRing(cpu, |cpu|)
  {
    ghost var ring := Ring(disk, stripes, stripeSize);
    cpu := [];
    s := Scan(0, 0, Cursor(0, 0), Cursor(0, 0));
    for b := 0 to |disk|
      invariant |cpu| == b && s == ScanRing(ring, b)
      invariant forall a :: 0 <= a < b ==> cpu[a] == ring[a]
    {
      OnDiskSlotBijection(b, stripes, stripeSize);
      var o := OnDiskSlot(b, stripes, stripeSize, |disk|);
      cpu := cpu + [disk[o]];
      s := ScanBlock(s, b, cpu[b]);
    }
    assert cpu == ring;
  }

  method ReplayRing(cpu: seq<Block>, first: nat, end: nat, hot: array<nat>)
    requires |cpu| > 0 && RingWellFormed(cpu) && first <= end && hot.Length == AL_EXTENTS_MAX
    modifies hot
    ensures hot[..] == ReplayRange(old(hot[..]), cpu, first, end)
  {
    for b := first to end
      invariant hot[..] == ReplayRange(old(hot[..]), cpu, first, b)
    {
      var x := cpu[b % |cpu|];
      if x.valid && !x.initialized {
        ReplayContext(x, hot);
        ReplayUpdates(x, hot);
      }
    }
  }

  lemma RingIsWellFormed(disk: seq<Block>, stripes: nat, stripeSize: nat)
    requires |disk| == stripes * stripeSize && RingWellFormed(disk)
    ensures RingWellFormed(Ring(disk, stripes, stripeSize))
  {
    forall b | 0 <= b < |disk|
      ensures WellFormed(Ring(disk, stripes, stripeSize)[b])
    {
      assert stripes > 0 && stripeSize > 0;
      OnDiskSlotBijection(b, stripes, stripeSize);
    }
  }

  /** The whole of it; hot_extent is changed only if there are updates. */
  method ReplayAl84(disk: seq<Block>, stripes: nat, stripeSize: nat, hot: array<nat>) returns (ret: Outcome)
    requires |disk| == stripes * stripeSize && RingWellFormed(disk) && hot.Length == AL_EXTENTS_MAX
    modifies hot
    ensures RingWellFormed(Ring(disk, stripes, stripeSize))
    ensures (ret, hot[..]) == Replayed(old(hot[..]), Ring(disk, stripes, stripeSize))
  {
    RingIsWellFormed(disk, stripes, stripeSize);
    var cpu, s := ReadRing(disk, stripes, stripeSize);
    ScanBounds(cpu, |cpu|);
    if s.updates == 0 {
      return WithoutUpdates(cpu, s.valid);
    }
    // count on across the end of the ring
    var newest := if s.newest.i < s.oldest.i then s.newest.i + |cpu| else s.newest.i;
    ReplayRing(cpu, s.oldest.i, newest + 1, hot);
    return Found(s.updates);
  }

  /** One past the newest transaction, counted on from the oldest. */
  function End(s: Scan, mx: nat): nat {
    if s.newest.i < s.oldest.i then s.newest.i + mx + 1 else s.newest.i + 1
  }

  lemma {:induction false} ScanBounds(ring: seq<Block>, b: nat)
    requires b <= |ring|
    ensures ScanRing(ring, b).valid <= b && ScanRing(ring, b).updates <= b
    ensures ScanRing(ring, b).updates > 0 ==> ScanRing(ring, b).oldest.i < b && ScanRing(ring, b).newest.i < b
    ensures ScanRing(ring, b).updates <= ScanRing(ring, b).valid
  {
    if b > 0 {
      ScanBounds(ring, b - 1);
    }
  }

  // ---- the verdict, by the blocks ----

  predicate SomeUpdate(xs: seq<Block>) {
    exists b :: 0 <= b < |xs| && xs[b].valid && !xs[b].initialized
  }

  predicate SomeValid(xs: seq<Block>) {
    exists b :: 0 <= b < |xs| && xs[b].valid
  }

  /** All blocks are valid, except that the first need not be. */
  predicate AllButFirstValid(xs: seq<Block>) {
    forall b :: 0 < b < |xs| ==> xs[b].valid
  }

  lemma {:induction false} ScanCounts(ring: seq<Block>, b: nat)
    requires 0 < b <= |ring|
    ensures ScanRing(ring, b).updates > 0 <==> exists a :: 0 <= a < b && ring[a].valid && !ring[a].initialized
    ensures ScanRing(ring, b).valid > 0 <==> exists a :: 0 <= a < b && ring[a].valid
    ensures ScanRing(ring, b).valid <= if ring[0].valid then b else b - 1
    ensures ScanRing(ring, b).valid == (if ring[0].valid then b else b - 1)
            <==> forall a :: 0 < a < b ==> ring[a].valid
  {
    if b > 1 {
      ScanCounts(ring, b - 1);
    } else {
      assert ScanRing(ring, 0).valid == 0;
    }
  }

  /** What replay returns: whether there is something to apply, nothing to do, no log at all, or a broken one. */
  lemma OutcomeMeaning(hot: seq<nat>, ring: seq<Block>)
    requires RingWellFormed(ring) && |hot| == AL_EXTENTS_MAX
    ensures var r := Replayed(hot, ring).0;
            && (SomeUpdate(ring) <==> r.Found? && r.updates > 0)
            && (r == NoData <==> !SomeValid(ring))
            && (r == Found(0) <==> SomeValid(ring) && !SomeUpdate(ring) && AllButFirstValid(ring))
            && (r == Invalid <==> SomeValid(ring) && !SomeUpdate(ring) && !AllButFirstValid(ring))
  {
    hide ReplayRange, WellFormed, ScanBlock;
    ScanBounds(ring, |ring|);
    if |ring| > 0 {
      ScanCounts(ring, |ring|);
    }
  }
}
