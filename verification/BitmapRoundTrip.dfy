/** Dumping all slots of a bitmap and restoring them: what comes back, and exactly when all of it does. */
module BitmapRoundTrip {
  import opened Arith
  import opened BitmapDump
  import opened BitmapRestore
  import opened Layout
  import opened Word32

  /** The dump of every slot. */
  function DumpOf(disk: seq<Word>, peers: nat): (r: seq<seq<Long>>)
    ensures |r| == peers
  {
    seq(peers, p requires 0 <= p < peers => Longs(Slot(Counted(disk), peers, p), |Slot(Counted(disk), peers, p)| / 2))
  }

  /** printf_bm */
  method PrintAllSlots(bitmap: array<Word>, buffer: array<Word>, peers: nat, hardSect: nat)
    returns (dump: seq<seq<Token>>)
    requires bitmap != buffer && bitmap.Length % 1024 == 0 && peers <= 32 && hardSect > 0 && 4096 % hardSect == 0
    requires 32 * 1024 <= buffer.Length
    modifies buffer
    ensures Expanded(dump) == DumpOf(bitmap[..], peers)
  {
    hide Slot, Longs, Counted, Expand;
    dump := [];
    for p := 0 to peers
      invariant |dump| == p
      invariant forall q :: 0 <= q < p ==> Expand(dump[q]) == DumpOf(bitmap[..], peers)[q]
    {
      var out, _ := PrintBitmap(bitmap, buffer, peers, p, hardSect);
      dump := dump + [out];
    }
  }

  /** Run lengths are no longer than the dump. */
  lemma {:induction false} RunsFit(out: seq<Token>, k: nat)
    requires k < |out| && out[k].Times?
    ensures out[k].count <= |Expand(out)|
  {
    if k < |out| - 1 {
      RunsFit(out[..|out| - 1], k);
    }
  }

  // ---- one word ----

  /** Rows of every slot that a restore through a buffer of that many words brings back. */
  function RestoredRows(n: nat, bufWords: nat, peers: nat): nat
    requires peers > 0
  {
    Min(U32(n) / peers / 2 * 2, bufWords / peers)
  }

  lemma DumpWords(disk: seq<Word>, bufWords: nat, peers: nat)
    requires peers > 0
    ensures WindowWords(DumpOf(disk, peers), bufWords) == RestoredRows(|disk|, bufWords, peers) * peers
  {
    LastSlot(U32(|disk|), peers);
  }

  /** A row of the last slot is a row of every slot. */
  lemma EverySlotHas(n: nat, peers: nat, p: nat)
    requires p < peers
    ensures SlotRows(n, peers, p) >= n / peers
  {
    var rows := n / peers;
    if rows > 0 {
      assert (rows - 1) * peers + p < n by {
        MulMonotone(rows, n / peers, peers);
      }
      SlotIndex(n, peers, p, rows - 1);
    }
  }

  lemma DumpHas(disk: seq<Word>, peers: nat, p: nat, k: nat)
    requires p < peers && k < U32(|disk|) / peers / 2 * 2
    ensures k * peers + p < |disk| && k < 2 * |DumpOf(disk, peers)[p]|
    ensures Half(DumpOf(disk, peers)[p], k) == disk[k * peers + p]
  {
    var slot := Slot(Counted(disk), peers, p);
    assert k < |slot| / 2 * 2 by {
      EverySlotHas(U32(|disk|), peers, p);
      Halved(U32(|disk|) / peers, |slot|);
    }
    SlotIndex(U32(|disk|), peers, p, k);
    assert slot[k] == Counted(disk)[k * peers + p];
    SlotHalves(slot, k);
  }

  lemma Halved(a: nat, b: nat)
    requires a <= b
    ensures a / 2 * 2 <= b / 2 * 2
  {
  }

  lemma SlotHalves(slot: seq<Word>, k: nat)
    requires k < |slot| / 2 * 2
    ensures Half(Longs(slot, |slot| / 2), k) == slot[k]
  {
  }

  lemma RestoredWord(src: seq<Word>, bm: seq<Word>, buf: seq<Word>, peers: nat, hardSect: nat, x: nat)
    requires peers > 0 && hardSect > 0 && |bm| == |src| && x / peers < RestoredRows(|src|, |buf|, peers)
    ensures x < |bm| && Restored(bm, buf, DumpOf(src, peers), hardSect)[x] == src[x]
  {
    hide Slot, Longs, Half, DumpOf;
    var slots := DumpOf(src, peers);
    DumpHas(src, peers, x % peers, x / peers);
    assert x == x / peers * peers + x % peers;
    DumpWords(src, |buf|, peers);
    InRows(x, peers, RestoredRows(|src|, |buf|, peers));
    assert x < WindowWords(slots, |buf|) <= Cut(WindowWords(slots, |buf|), |bm|, hardSect) by {
      CutCovers(|src|, |buf|, peers, hardSect);
    }
    WindowInBuffer(slots, |buf|);
  }

  lemma InRows(x: nat, peers: nat, rows: nat)
    requires peers > 0
    ensures x / peers < rows <==> x < rows * peers
  {
    if x / peers < rows {
      MulMonotone(x / peers + 1, rows, peers);
    } else {
      MulMonotone(rows, x / peers, peers);
    }
  }

  lemma CutCovers(n: nat, bufWords: nat, peers: nat, hardSect: nat)
    requires peers > 0 && hardSect > 0
    ensures var words := RestoredRows(n, bufWords, peers) * peers; words <= n && words <= Cut(words, n, hardSect)
  {
    var u, rows := U32(n), RestoredRows(n, bufWords, peers);
    assert u <= n;
    RowsFit(rows, u, peers);
    RoundUpBounds(4 * (rows * peers), hardSect);
  }

  lemma RowsFit(rows: nat, n: nat, peers: nat)
    requires peers > 0 && rows <= n / peers
    ensures rows * peers <= n
  {
    MulMonotone(rows, n / peers, peers);
  }

  // ---- all words ----

  /** The first m 64-bit words of every slot are the same. */
  predicate SameLongs(a: seq<Word>, b: seq<Word>, peers: nat, m: nat) {
    |a| == |b| && forall x :: 0 <= x < |a| && x < 2 * m * peers ==> a[x] == b[x]
  }

  /** Restoring brings the first m 64-bit words of every slot back. */
  predicate Faithful(src: seq<Word>, bm: seq<Word>, buf: seq<Word>, peers: nat, hardSect: nat, m: nat)
    requires peers > 0 && hardSect > 0
  {
    SameLongs(Restored(bm, buf, DumpOf(src, peers), hardSect), src, peers, m)
  }

  lemma FaithfulWithin(src: seq<Word>, bm: seq<Word>, buf: seq<Word>, peers: nat, hardSect: nat, m: nat)
    requires peers > 0 && hardSect > 0 && |bm| == |src| && 2 * m <= RestoredRows(|src|, |buf|, peers)
    ensures Faithful(src, bm, buf, peers, hardSect, m)
  {
    forall x | 0 <= x < |src| && x < 2 * m * peers
      ensures Restored(bm, buf, DumpOf(src, peers), hardSect)[x] == src[x]
    {
      InRows(x, peers, 2 * m);
      RestoredWord(src, bm, buf, peers, hardSect, x);
    }
  }

  /** Beyond the restored rows, what is on disk afterwards does not depend on the contents of the dump. */
  lemma NotRestored(src: seq<Word>, src': seq<Word>, bm: seq<Word>, buf: seq<Word>, peers: nat, hardSect: nat, x: nat)
    requires peers > 0 && hardSect > 0 && |bm| == |src| == |src'| && x < |bm|
        && x >= RestoredRows(|src|, |buf|, peers) * peers
    ensures Restored(bm, buf, DumpOf(src, peers), hardSect)[x] == Restored(bm, buf, DumpOf(src', peers), hardSect)[x]
  {
    hide DumpOf, Filled;
    DumpWords(src, |buf|, peers);
    DumpWords(src', |buf|, peers);
  }

  /** So if the rows are too few, one of two bitmaps that differ everywhere does not come back. */
  lemma Unfaithful(n: nat, bm: seq<Word>, buf: seq<Word>, peers: nat, hardSect: nat, m: nat) returns (src: seq<Word>)
    requires peers > 0 && hardSect > 0 && |bm| == n && 2 * m * peers <= n && 2 * m > RestoredRows(n, |buf|, peers)
    ensures |src| == n && !Faithful(src, bm, buf, peers, hardSect, m)
  {
    hide Restored, DumpOf, RestoredRows;
    var rows := RestoredRows(n, |buf|, peers);
    var x := rows * peers;
    assert x < 2 * m * peers by {
      MulMonotone(rows + 1, 2 * m, peers);
    }
    src := seq(n, _ => AllOnes());
    var zeros := seq(n, _ => Zero());
    assert src[x].bits[0] != zeros[x].bits[0];
    NotRestored(src, zeros, bm, buf, peers, hardSect, x);
    if Faithful(src, bm, buf, peers, hardSect, m) {
      src := zeros;
    }
  }

  /** Dump and restore are the identity on the first m 64-bit words of every slot, whatever the bitmap and whatever was
      on disk before, exactly if these words fit into one window and into what is dumped. */
  lemma DumpRestoreIdentity(n: nat, bm: seq<Word>, buf: seq<Word>, peers: nat, hardSect: nat, m: nat)
    requires peers > 0 && hardSect > 0 && |bm| == n && 2 * m * peers <= n
    ensures (forall src: seq<Word> :: |src| == n ==> Faithful(src, bm, buf, peers, hardSect, m))
        <==> 2 * m <= RestoredRows(n, |buf|, peers)
  {
    hide Faithful, RestoredRows;
    if 2 * m <= RestoredRows(n, |buf|, peers) {
      forall src: seq<Word> | |src| == n
        ensures Faithful(src, bm, buf, peers, hardSect, m)
      {
        FaithfulWithin(src, bm, buf, peers, hardSect, m);
      }
    } else {
      var src := Unfaithful(n, bm, buf, peers, hardSect, m);
    }
  }

  /** For a device, these words are all that its bitmap calls for. */
  lemma DeviceBitmap(bytesPerBit: nat, peers: nat, sectors: nat)
    requires ValidBlockSize(bytesPerBit) && peers > 0
    ensures BmBytes(bytesPerBit, peers, sectors) % 4096 == 0
    ensures 2 * SlotWords(bytesPerBit, sectors) * peers <= BmBytes(bytesPerBit, peers, sectors) / 4
  {
    hide BmBytes, SlotWords;
    BmBytesViaWords(bytesPerBit, peers, sectors);
    BytesToWords(SlotWords(bytesPerBit, sectors), peers, BmBytes(bytesPerBit, peers, sectors));
  }

  lemma BytesToWords(w: nat, peers: nat, bytes: nat)
    requires w * 8 * peers <= bytes
    ensures 2 * w * peers <= bytes / 4
    ensures bytes < w * 8 * peers + 4096 ==> bytes / 4 <= 2 * w * peers + 1024
  {
    assert w * 8 * peers == 4 * (2 * w * peers);
  }

  lemma WindowRows(w: nat, peers: nat, bufWords: nat, n: nat)
    requires peers > 0 && bufWords <= MAX_BUFFER && 2 * w <= bufWords / peers
    requires 2 * w * peers <= n <= 2 * w * peers + 1024
    ensures 2 * w <= RestoredRows(n, bufWords, peers)
  {
    FloorGreatest(bufWords, peers, 2 * w);
    FloorGreatest(n, peers, 2 * w);
    SmallConversions(n);
    EvenRows(w, n / peers);
  }

  lemma EvenRows(w: nat, rows: nat)
    requires 2 * w <= rows
    ensures 2 * w <= rows / 2 * 2
  {
  }

  /** So all that a device's bitmap calls for comes back exactly for devices up to a size that the buffer's share of
      one peer determines. */
  lemma DeviceLimit(bytesPerBit: nat, peers: nat, bufWords: nat, sectors: nat)
    requires ValidBlockSize(bytesPerBit) && peers > 0 && bufWords <= MAX_BUFFER
    ensures 2 * SlotWords(bytesPerBit, sectors)
              <= RestoredRows(BmBytes(bytesPerBit, peers, sectors) / 4, bufWords, peers)
            <==> sectors <= bufWords / peers / 2 * 64 * (bytesPerBit / 512)
  {
    hide BmBytes, SlotWords;
    var w, bytes := SlotWords(bytesPerBit, sectors), BmBytes(bytesPerBit, peers, sectors);
    SlotWordsAdjoint(bytesPerBit, sectors, bufWords / peers / 2);
    BmBytesViaWords(bytesPerBit, peers, sectors);
    RoundUpBounds(w * 8 * peers, 4096);
    if 2 * w <= bufWords / peers {
      BytesToWords(w, peers, bytes);
      WindowRows(w, peers, bufWords, bytes / 4);
    }
  }

  /** With the buffer of 32 MiB that drbdmeta uses, one peer and 4k per bit, these are devices of up to 1 TiB. */
  lemma OneTebibyte(sectors: nat)
    ensures 2 * SlotWords(4096, sectors) <= RestoredRows(BmBytes(4096, 1, sectors) / 4, 0x80_0000, 1)
            <==> sectors * 512 <= 0x100_0000_0000
  {
    DeviceLimit(4096, 1, 0x80_0000, sectors);
  }
}
