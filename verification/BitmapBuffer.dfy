/** on_disk_buffer as a window of the on-disk bitmap, in 32-bit words. */
module BitmapBuffer {
  import opened Word32

  /** The buffer holds words lo to lo + cw of bm. */
  ghost predicate Holds(buf: seq<Word>, bm: seq<Word>, lo: nat, cw: nat) {
    && cw <= |buf| && lo + cw <= |bm|
    && forall x :: 0 <= x < cw ==> buf[x] == bm[lo + x]
  }

  /** a and b agree outside words lo to lo + cw. */
  ghost predicate AgreeOutside(a: seq<Word>, b: seq<Word>, lo: nat, cw: nat) {
    |a| == |b| && forall x :: 0 <= x < |a| && !(lo <= x < lo + cw) ==> a[x] == b[x]
  }

  method ReadWords(bitmap: array<Word>, buffer: array<Word>, lo: nat, cw: nat)
    requires bitmap != buffer && lo + cw <= bitmap.Length && cw <= buffer.Length
    modifies buffer
    ensures Holds(buffer[..], bitmap[..], lo, cw)
  {
    for x := 0 to cw
      invariant forall y :: 0 <= y < x ==> buffer[y] == bitmap[lo + y]
    {
      buffer[x] := bitmap[lo + x];
    }
  }

  method WriteWords(bitmap: array<Word>, buffer: array<Word>, lo: nat, cw: nat, ghost target: seq<Word>)
    requires bitmap != buffer && Holds(buffer[..], target, lo, cw)
    requires AgreeOutside(bitmap[..], target, lo, cw)
    modifies bitmap
    ensures bitmap[..] == target
  {
    for x := 0 to cw
      invariant forall y :: 0 <= y < bitmap.Length && !(lo + x <= y < lo + cw) ==> bitmap[y] == target[y]
    {
      assert buffer[..][x] == target[lo + x];
      bitmap[lo + x] := buffer[x];
    }
  }
}
