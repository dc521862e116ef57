/** The metadata device: a byte array whose every write leaves an image that a crash could expose. */
module BlockDevice {

  type byte = x: int | 0 <= x < 256

  /** d with s written at offset off. */
  function Blit(d: seq<byte>, off: nat, s: seq<byte>): (r: seq<byte>)
    requires off + |s| <= |d|
    ensures |r| == |d|
  {
    seq(|d|, i requires 0 <= i < |d| => if off <= i < off + |s| then s[i - off] else d[i])
  }

  function Repeat(v: byte, n: nat): (r: seq<byte>)
    ensures |r| == n
  {
    seq(n, _ => v)
  }

  /** Copying len bytes of s, from src on, to offset dst of d. */
  lemma BlitBytes(d: seq<byte>, dst: nat, s: seq<byte>, src: nat, len: nat)
    requires dst + len <= |d| && src + len <= |s|
    ensures var r := Blit(d, dst, s[src..src + len]);
            forall i {:trigger r[i]} :: 0 <= i < |d| ==> r[i] == if dst <= i < dst + len then s[i - dst + src] else d[i]
  {
  }

  /** Writing the tail first and the head second writes both. */
  lemma BlitJoin(d: seq<byte>, off: nat, a: seq<byte>, b: seq<byte>)
    requires off + |a| + |b| <= |d|
    ensures Blit(Blit(d, off + |a|, b), off, a) == Blit(d, off, a + b)
  {
  }

  /** Writing the head first and the tail second writes both. */
  lemma BlitAppend(d: seq<byte>, off: nat, a: seq<byte>, b: seq<byte>)
    requires off + |a| + |b| <= |d|
    ensures Blit(Blit(d, off, a), off + |a|, b) == Blit(d, off, a + b)
  {
  }

  /** a and b agree outside [lo, hi). */
  predicate SameOutside(a: seq<byte>, b: seq<byte>, lo: int, hi: int) {
    |a| == |b| && forall i :: 0 <= i < |a| && !(lo <= i < hi) ==> a[i] == b[i]
  }

  lemma BlitOutside(d: seq<byte>, off: nat, s: seq<byte>, lo: int, hi: int)
    requires off + |s| <= |d| && lo <= off && off + |s| <= hi
    ensures SameOutside(d, Blit(d, off, s), lo, hi)
  {
  }

  predicate AllSameOutside(d: seq<byte>, images: seq<seq<byte>>, lo: int, hi: int) {
    forall k :: 0 <= k < |images| ==> SameOutside(d, images[k], lo, hi)
  }

  /** Images that start from d' and change [lo', hi') only, seen from an earlier d and a wider range. */
  lemma AllSameOutsideFrom(d: seq<byte>, d': seq<byte>, images: seq<seq<byte>>, lo: int, hi: int, lo': int, hi': int)
    requires SameOutside(d, d', lo, hi) && AllSameOutside(d', images, lo', hi')
    requires (lo <= lo' && hi' <= hi) || lo' >= hi'
    ensures AllSameOutside(d, images, lo, hi)
  {
    forall k | 0 <= k < |images|
      ensures SameOutside(d, images[k], lo, hi)
    {
      assert SameOutside(d', images[k], lo', hi');
    }
  }

  class Disk {
    const data: array<byte>
    /** The contents after each write so far, oldest first. */
    ghost var images: seq<seq<byte>>

    ghost function Contents(): seq<byte>
      reads data
    {
      data[..]
    }

    constructor (contents: array<byte>)
      ensures data == contents && images == []
    {
      data := contents;
      images := [];
    }

    method PRead(buffer: array<byte>, count: nat, off: nat)
      requires buffer != data
      requires count <= buffer.Length && off + count <= data.Length
      modifies buffer
      ensures buffer[..count] == Contents()[off..off + count]
      ensures buffer[count..] == old(buffer[count..])
    {
      for i := 0 to count
        invariant forall k :: 0 <= k < i ==> buffer[k] == data[off + k]
        invariant forall k :: count <= k < buffer.Length ==> buffer[k] == old(buffer[k])
      {
        buffer[i] := data[off + i];
      }
    }

    method PWrite(buffer: array<byte>, count: nat, off: nat)
      requires buffer != data
      requires count <= buffer.Length && off + count <= data.Length
      modifies this, data
      ensures Contents() == Blit(old(Contents()), off, buffer[..count])
      ensures images == old(images) + [Contents()]
    {
      for i := 0 to count
        invariant forall k :: 0 <= k < data.Length ==>
                                data[k] == if off <= k < off + i then buffer[k - off] else old(data[k])
        invariant images == old(images)
        invariant buffer[..] == old(buffer[..])
      {
        data[off + i] := buffer[i];
      }
      images := images + [data[..]];
    }
  }

  method Memset(buffer: array<byte>, v: byte)
    modifies buffer
    ensures buffer[..] == Repeat(v, buffer.Length)
  {
    for i := 0 to buffer.Length
      invariant forall k :: 0 <= k < i ==> buffer[k] == v
    {
      buffer[i] := v;
    }
  }
}
