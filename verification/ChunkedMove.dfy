/** Moving and filling byte ranges one buffer at a time, with the image that every single write leaves behind. */
module ChunkedMove {
  import opened BlockDevice

  // ---- moving a range, peeling it off from the end ----

  /** What the bitmap loop of the resize move leaves: whole buffers from the end, then the rest. */
  function PeelEnd(d: seq<byte>, src: nat, dst: nat, len: nat, buf: nat): (r: seq<byte>)
    requires buf > 0 && src + len <= |d| && dst + len <= |d|
    ensures |r| == |d|
    decreases len
  {
    if len <= buf then Blit(d, dst, d[src..src + len])
    else PeelEnd(PeelStep(d, src, dst, len, buf), src, dst, len - buf, buf)
  }

  /** The images its writes leave, oldest first. */
  function PeelImages(d: seq<byte>, src: nat, dst: nat, len: nat, buf: nat): seq<seq<byte>>
    requires buf > 0 && src + len <= |d| && dst + len <= |d|
    decreases len
  {
    if len <= buf then [Blit(d, dst, d[src..src + len])]
    else
      var d' := PeelStep(d, src, dst, len, buf);
      [d'] + PeelImages(d', src, dst, len - buf, buf)
  }

  function PeelStep(d: seq<byte>, src: nat, dst: nat, len: nat, buf: nat): (r: seq<byte>)
    requires 0 < buf < len && src + len <= |d| && dst + len <= |d|
    ensures |r| == |d|
  {
    Blit(d, dst + len - buf, d[src + len - buf..src + len])
  }

  /** The writes stay inside the destination, and the last one leaves PeelEnd. */
  lemma {:induction false} PeelShape(d: seq<byte>, src: nat, dst: nat, len: nat, buf: nat)
    requires buf > 0 && src + len <= |d| && dst + len <= |d|
    ensures var images := PeelImages(d, src, dst, len, buf);
            && AllSameOutside(d, images, dst, dst + len)
            && images != [] && images[|images| - 1] == PeelEnd(d, src, dst, len, buf)
    decreases len
  {
    if len <= buf {
      BlitOutside(d, dst, d[src..src + len], dst, dst + len);
    } else {
      var d' := PeelStep(d, src, dst, len, buf);
      var rest := PeelImages(d', src, dst, len - buf, buf);
      PeelShape(d', src, dst, len - buf, buf);
      BlitOutside(d, dst + len - buf, d[src + len - buf..src + len], dst, dst + len);
      AllSameOutsideFrom(d, d', rest, dst, dst + len, dst, dst + len - buf);
      assert ([d'] + rest)[|rest|] == rest[|rest| - 1];
    }
  }

  /** Where peeling from the end is a correct move of overlapping ranges. */
  predicate PeelSafe(src: nat, dst: nat, len: nat, buf: nat) {
    src <= dst || dst + len <= src || len <= buf
  }

  lemma {:induction false} PeelCorrect(d: seq<byte>, src: nat, dst: nat, len: nat, buf: nat)
    requires buf > 0 && src + len <= |d| && dst + len <= |d|
    requires PeelSafe(src, dst, len, buf)
    ensures PeelEnd(d, src, dst, len, buf) == Blit(d, dst, d[src..src + len])
    decreases len
  {
    if len > buf {
      var head, tail := d[src..src + len - buf], d[src + len - buf..src + len];
      var d' := PeelStep(d, src, dst, len, buf);
      PeelCorrect(d', src, dst, len - buf, buf);
      assert d'[src..src + (len - buf)] == head;
      BlitJoin(d, dst, head, tail);
      assert head + tail == d[src..src + len];
    }
  }

  /** Moving a range onto itself changes nothing. */
  lemma {:induction false} PeelInPlace(d: seq<byte>, at: nat, len: nat, buf: nat, r: seq<byte>)
    requires buf > 0 && at + len <= |d| && r in PeelImages(d, at, at, len, buf)
    ensures r == d
    decreases len
  {
    if len <= buf {
      assert Blit(d, at, d[at..at + len]) == d;
    } else {
      assert PeelStep(d, at, at, len, buf) == d;
      if r != d {
        PeelInPlace(d, at, len - buf, buf, r);
      }
    }
  }

  /** Bytes of the source that no remaining step overwrites arrive unchanged. */
  lemma {:induction false} PeelUntouched(d: seq<byte>, src: nat, dst: nat, len: nat, buf: nat, x: nat)
    requires buf > 0 && src + len <= |d| && dst + len <= |d|
    requires src <= x < src + len && dst + len <= x
    ensures PeelEnd(d, src, dst, len, buf)[dst + x - src] == d[x]
    decreases len
  {
    if len <= buf {
      BlitByte(d, dst, src, len, x);
    } else {
      var d' := PeelStep(d, src, dst, len, buf);
      if x < src + len - buf {
        PeelUntouched(d', src, dst, len - buf, buf, x);
        assert d'[x] == d[x];
      } else {
        BlitByte(d, dst + len - buf, src + len - buf, buf, x);
        PeelBelow(d', src, dst, len - buf, buf, dst + x - src);
      }
    }
  }

  lemma PeelBelow(d: seq<byte>, src: nat, dst: nat, len: nat, buf: nat, y: nat)
    requires buf > 0 && src + len <= |d| && dst + len <= |d| && dst + len <= y < |d|
    ensures PeelEnd(d, src, dst, len, buf)[y] == d[y]
  {
    PeelShape(d, src, dst, len, buf);
  }

  /** If the ranges overlap the wrong way and need several buffers, a source byte that is overwritten before it is
      read arrives as another byte. */
  lemma PeelSmears(d: seq<byte>, src: nat, dst: nat, len: nat, buf: nat, x: nat)
    requires buf > 0 && src + len <= |d| && dst + len <= |d| && len > buf && dst < src
    requires src <= x < src + len - buf && dst + len - buf <= x < dst + len
    ensures PeelEnd(d, src, dst, len, buf)[dst + x - src] == d[x + src - dst]
  {
    PeelUntouched(PeelStep(d, src, dst, len, buf), src, dst, len - buf, buf, x);
    assert d[src + len - buf..src + len][x - (dst + len - buf)] == d[x + src - dst];
  }

  lemma PeelCorrupts(size: nat, src: nat, dst: nat, len: nat, buf: nat) returns (d: seq<byte>)
    requires buf > 0 && src + len <= size && dst + len <= size
    requires !PeelSafe(src, dst, len, buf)
    ensures |d| == size && PeelEnd(d, src, dst, len, buf) != Blit(d, dst, d[src..src + len])
  {
    var x := if src < dst + len - buf then dst + len - buf else src;
    d := Repeat(0, size)[x + src - dst := 1];
    PeelSmears(d, src, dst, len, buf, x);
    BlitByte(d, dst, src, len, x);
  }

  lemma BlitByte(d: seq<byte>, dst: nat, src: nat, len: nat, x: nat)
    requires src + len <= |d| && dst + len <= |d| && src <= x < src + len
    ensures Blit(d, dst, d[src..src + len])[dst + x - src] == d[x]
  {
    assert d[src..src + len][x - src] == d[x];
  }

  /** The chunked move copies every possible content correctly exactly when PeelSafe holds. */
  lemma PeelExact(size: nat, src: nat, dst: nat, len: nat, buf: nat)
    requires buf > 0 && src + len <= size && dst + len <= size
    ensures PeelSafe(src, dst, len, buf)
            <==> forall d: seq<byte> | |d| == size :: PeelEnd(d, src, dst, len, buf) == Blit(d, dst, d[src..src + len])
  {
    if PeelSafe(src, dst, len, buf) {
      forall d: seq<byte> | |d| == size
        ensures PeelEnd(d, src, dst, len, buf) == Blit(d, dst, d[src..src + len])
      {
        PeelCorrect(d, src, dst, len, buf);
      }
    } else {
      var d := PeelCorrupts(size, src, dst, len, buf);
    }
  }

  // ---- filling a range ----

  /** [off, end) filled with v; nothing if the range is empty. */
  function FillEnd(d: seq<byte>, off: nat, end: int, v: byte): (r: seq<byte>)
    requires end <= |d|
    ensures |r| == |d|
  {
    if off >= end then d else Blit(d, off, Repeat(v, end - off))
  }

  /** The images of filling it one buffer at a time. */
  function FillImages(d: seq<byte>, off: nat, end: int, v: byte, buf: nat): seq<seq<byte>>
    requires buf > 0 && end <= |d|
    decreases end - off
  {
    if off >= end then []
    else
      var chunk := if end - off > buf then buf else end - off;
      var d' := Blit(d, off, Repeat(v, chunk));
      [d'] + FillImages(d', off + chunk, end, v, buf)
  }

  lemma {:induction false} FillShape(d: seq<byte>, off: nat, end: int, v: byte, buf: nat)
    requires buf > 0 && end <= |d|
    ensures AllSameOutside(d, FillImages(d, off, end, v, buf), off, end)
    decreases end - off
  {
    if off < end {
      var chunk := if end - off > buf then buf else end - off;
      var d' := Blit(d, off, Repeat(v, chunk));
      FillShape(d', off + chunk, end, v, buf);
      BlitOutside(d, off, Repeat(v, chunk), off, end);
      AllSameOutsideFrom(d, d', FillImages(d', off + chunk, end, v, buf), off, end, off + chunk, end);
    }
  }

  lemma FillStep(d: seq<byte>, off: nat, chunk: nat, end: int, v: byte)
    requires off + chunk <= end <= |d|
    ensures FillEnd(Blit(d, off, Repeat(v, chunk)), off + chunk, end, v) == FillEnd(d, off, end, v)
  {
    if off + chunk < end {
      BlitAppend(d, off, Repeat(v, chunk), Repeat(v, end - off - chunk));
      assert Repeat(v, chunk) + Repeat(v, end - off - chunk) == Repeat(v, end - off);
    }
  }

  // ---- the loops ----

  /** One PREAD followed by one PWRITE. */
  method MoveChunk(disk: Disk, buffer: array<byte>, count: nat, src: nat, dst: nat)
    requires buffer != disk.data && count <= buffer.Length
    requires src + count <= disk.data.Length && dst + count <= disk.data.Length
    modifies disk, disk.data, buffer
    ensures disk.Contents() == Blit(old(disk.Contents()), dst, old(disk.Contents())[src..src + count])
    ensures disk.images == old(disk.images) + [disk.Contents()]
  {
    disk.PRead(buffer, count, src);
    disk.PWrite(buffer, count, dst);
  }

  /** The bitmap loop: one buffer after the other, from the end towards the start, then the rest. */
  method PeelMove(disk: Disk, buffer: array<byte>, src: nat, end: nat, dst: nat)
    requires buffer != disk.data && buffer.Length > 0
    requires src < end <= disk.data.Length && dst + (end - src) <= disk.data.Length
    modifies disk, disk.data, buffer
    ensures disk.Contents() == PeelEnd(old(disk.Contents()), src, dst, end - src, buffer.Length)
    ensures disk.images == old(disk.images) + PeelImages(old(disk.Contents()), src, dst, end - src, buffer.Length)
  {
    var size := buffer.Length;
    ghost var all := disk.images + PeelImages(disk.Contents(), src, dst, end - src, size);
    var cur: int := end - size;
    while cur > src
      invariant 0 < cur + size - src <= end - src
      invariant PeelEnd(disk.Contents(), src, dst, cur + size - src, size)
          == PeelEnd(old(disk.Contents()), src, dst, end - src, size)
      invariant disk.images + PeelImages(disk.Contents(), src, dst, cur + size - src, size) == all
    {
      ghost var before, rest := disk.images, cur - src;
      MoveChunk(disk, buffer, size, cur, dst + (cur - src));
      Reassociate(before, [disk.Contents()], PeelImages(disk.Contents(), src, dst, rest, size));
      cur := cur - size;
    }
    MoveChunk(disk, buffer, size - (src - cur), src, dst);
  }

  lemma Reassociate<T>(a: seq<T>, b: seq<T>, c: seq<T>)
    ensures a + (b + c) == a + b + c
  {
  }

  /** Fill [off, end) with v, at most one buffer per write. */
  method FillRange(disk: Disk, buffer: array<byte>, off: nat, end: int, v: byte)
    requires buffer != disk.data && buffer.Length > 0 && end <= disk.data.Length
    modifies disk, disk.data, buffer
    ensures disk.Contents() == FillEnd(old(disk.Contents()), off, end, v)
    ensures disk.images == old(disk.images) + FillImages(old(disk.Contents()), off, end, v, buffer.Length)
  {
    Memset(buffer, v);
    ghost var all := disk.images + FillImages(disk.Contents(), off, end, v, buffer.Length);
    var at := off;
    while at < end
      invariant buffer[..] == Repeat(v, buffer.Length)
      invariant FillEnd(disk.Contents(), at, end, v) == FillEnd(old(disk.Contents()), off, end, v)
      invariant disk.images + FillImages(disk.Contents(), at, end, v, buffer.Length) == all
      decreases end - at
    {
      var chunk := end - at;
      if chunk > buffer.Length {
        chunk := buffer.Length;
      }
      ghost var d, before := disk.Contents(), disk.images;
      assert buffer[..chunk] == Repeat(v, chunk);
      disk.PWrite(buffer, chunk, at);
      FillStep(d, at, chunk, end, v);
      Reassociate(before, [disk.Contents()], FillImages(disk.Contents(), at + chunk, end, v, buffer.Length));
      at := at + chunk;
    }
  }
}
