/** 32-bit words by their bits, least significant first, and the operations the bitmap code applies to them. */
module Word32 {

  datatype Word = Word(bits: seq<bool>)

  /** Bit k of w; a bit that is not listed is 0. */
  predicate Bit(w: Word, k: nat) {
    k < |w.bits| && w.bits[k]
  }

  function AllOnes(): (r: Word)
    ensures |r.bits| == 32 && forall k :: 0 <= k < 32 ==> r.bits[k]
  {
    Word(seq(32, _ => true))
  }

  function Or(a: Word, b: Word): (r: Word)
    ensures |r.bits| == 32 && forall k :: 0 <= k < 32 ==> r.bits[k] == (Bit(a, k) || Bit(b, k))
  {
    Word(seq(32, k requires 0 <= k < 32 => Bit(a, k) || Bit(b, k)))
  }

  function And(a: Word, b: Word): (r: Word)
    ensures |r.bits| == 32 && forall k :: 0 <= k < 32 ==> r.bits[k] == (Bit(a, k) && Bit(b, k))
  {
    Word(seq(32, k requires 0 <= k < 32 => Bit(a, k) && Bit(b, k)))
  }

  /** w << n */
  function ShiftLeft(w: Word, n: nat): (r: Word)
    ensures |r.bits| == 32 && forall k :: 0 <= k < 32 ==> r.bits[k] == (k >= n && Bit(w, k - n))
  {
    Word(seq(32, k requires 0 <= k < 32 => k >= n && Bit(w, k - n)))
  }

  /** w >> n */
  function ShiftRight(w: Word, n: nat): (r: Word)
    ensures |r.bits| == 32 && forall k :: 0 <= k < 32 ==> r.bits[k] == (k + n < 32 && Bit(w, k + n))
  {
    Word(seq(32, k requires 0 <= k < 32 => k + n < 32 && Bit(w, k + n)))
  }

  /** Number of bits set among the k lowest. */
  function CountBits(w: Word, k: nat): nat {
    if k == 0 then 0 else CountBits(w, k - 1) + if Bit(w, k - 1) then 1 else 0
  }

  /** Number of bits set in the whole word. */
  function Ones(w: Word): nat {
    CountBits(w, |AllOnes().bits|)
  }

  lemma OrBit(a: Word, b: Word, k: nat)
    requires k < 32
    ensures Bit(Or(a, b), k) <==> Bit(a, k) || Bit(b, k)
  {
  }

  lemma OrAllOnes(w: Word)
    ensures Or(w, AllOnes()) == AllOnes()
  {
    assert Or(w, AllOnes()).bits == AllOnes().bits;
  }

  lemma {:induction false} CountMonotone(a: Word, b: Word, k: nat)
    requires forall m :: 0 <= m < k && Bit(a, m) ==> Bit(b, m)
    ensures CountBits(a, k) <= CountBits(b, k)
  {
    if k > 0 {
      CountMonotone(a, b, k - 1);
    }
  }

  lemma OrGrows(w: Word, mask: Word)
    ensures Ones(w) <= Ones(Or(w, mask))
  {
    forall m | 0 <= m < |AllOnes().bits| && Bit(w, m)
      ensures Bit(Or(w, mask), m)
    {
      OrBit(w, mask, m);
    }
    CountMonotone(w, Or(w, mask), |AllOnes().bits|);
  }

  /** Number of bits set in words [lo, hi). */
  function OnesIn(words: seq<Word>, lo: nat, hi: nat): nat
    requires lo <= hi <= |words|
    decreases hi - lo
  {
    if lo == hi then 0 else OnesIn(words, lo, hi - 1) + Ones(words[hi - 1])
  }

  function TotalOnes(words: seq<Word>): nat {
    OnesIn(words, 0, |words|)
  }

  lemma {:induction false} OnesInSplit(words: seq<Word>, lo: nat, mid: nat, hi: nat)
    requires lo <= mid <= hi <= |words|
    ensures OnesIn(words, lo, hi) == OnesIn(words, lo, mid) + OnesIn(words, mid, hi)
    decreases hi - mid
  {
    if mid < hi {
      OnesInSplit(words, lo, mid, hi - 1);
    }
  }

  /** The count depends on the words only. */
  lemma {:induction false} OnesInSame(a: seq<Word>, i: nat, b: seq<Word>, j: nat, n: nat)
    requires i + n <= |a| && j + n <= |b|
    requires forall x :: i <= x < i + n ==> a[x] == b[x - i + j]
    ensures OnesIn(a, i, i + n) == OnesIn(b, j, j + n)
  {
    if n > 0 {
      OnesInSame(a, i, b, j, n - 1);
      assert a[i + n - 1] == b[j + n - 1];
    }
  }

  lemma TotalOnesUpdate(a: seq<Word>, i: nat, w: Word)
    requires i < |a|
    ensures TotalOnes(a[i := w]) == TotalOnes(a) - Ones(a[i]) + Ones(w)
  {
    hide OnesIn, Ones;
    var b, n := a[i := w], |a|;
    assert OnesIn(a, 0, n) == OnesIn(a, 0, i) + OnesIn(a, i, i + 1) + OnesIn(a, i + 1, n) by {
      OnesInSplit(a, 0, i, n);
      OnesInSplit(a, i, i + 1, n);
    }
    assert OnesIn(b, 0, n) == OnesIn(b, 0, i) + OnesIn(b, i, i + 1) + OnesIn(b, i + 1, n) by {
      OnesInSplit(b, 0, i, n);
      OnesInSplit(b, i, i + 1, n);
    }
    assert OnesIn(a, 0, i) == OnesIn(b, 0, i) by {
      OnesInSame(a, 0, b, 0, i);
    }
    assert OnesIn(a, i + 1, n) == OnesIn(b, i + 1, n) by {
      OnesInSame(a, i + 1, b, i + 1, n - i - 1);
    }
    OneWord(a, i);
    OneWord(b, i);
  }

  lemma OneWord(words: seq<Word>, i: nat)
    requires i < |words|
    ensures OnesIn(words, i, i + 1) == Ones(words[i])
  {
    assert OnesIn(words, i, i) == 0;
  }
}
