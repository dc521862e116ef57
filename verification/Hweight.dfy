/** generic_hweight32: the bit count by parallel additions is the number of bits set. */
module Hweight {
  import opened Word32

  function Pairs(w: bv32): bv32 { (w & 0x5555_5555) + ((w >> 1) & 0x5555_5555) }
  function Nibbles(w: bv32): bv32 { (w & 0x3333_3333) + ((w >> 2) & 0x3333_3333) }
  function Bytes(w: bv32): bv32 { (w & 0x0F0F_0F0F) + ((w >> 4) & 0x0F0F_0F0F) }
  function Halves(w: bv32): bv32 { (w & 0x00FF_00FF) + ((w >> 8) & 0x00FF_00FF) }
  function Whole(w: bv32): bv32 { (w & 0x0000_FFFF) + ((w >> 16) & 0x0000_FFFF) }

  function GenericHweight32(w: bv32): bv32 {
    Whole(Halves(Bytes(Nibbles(Pairs(w)))))
  }

  function Low1(w: bv32): nat { (w & 1) as nat }
  function Low2(w: bv32): nat { (w & 3) as nat }
  function Low4(w: bv32): nat { (w & 0xF) as nat }
  function Low8(w: bv32): nat { (w & 0xFF) as nat }
  function Low16(w: bv32): nat { (w & 0xFFFF) as nat }

  function Shr1(w: bv32): bv32 { w >> 1 }
  function Shr2(w: bv32): bv32 { w >> 2 }
  function Shr4(w: bv32): bv32 { w >> 4 }
  function Shr8(w: bv32): bv32 { w >> 8 }
  function Shr16(w: bv32): bv32 { w >> 16 }

  /** The sum of the n lowest fields of a width. */
  function Sum1(w: bv32, n: nat): nat { if n == 0 then 0 else Low1(w) + Sum1(Shr1(w), n - 1) }
  function Sum2(w: bv32, n: nat): nat { if n == 0 then 0 else Low2(w) + Sum2(Shr2(w), n - 1) }
  function Sum4(w: bv32, n: nat): nat { if n == 0 then 0 else Low4(w) + Sum4(Shr4(w), n - 1) }
  function Sum8(w: bv32, n: nat): nat { if n == 0 then 0 else Low8(w) + Sum8(Shr8(w), n - 1) }
  function Sum16(w: bv32, n: nat): nat { if n == 0 then 0 else Low16(w) + Sum16(Shr16(w), n - 1) }

  lemma SmallSum(a: bv32, b: bv32)
    requires a <= 0x1F && b <= 0x1F
    ensures (a + b) as nat == a as nat + b as nat
  {
  }

  lemma PairsFields(w: bv32)
    ensures Low2(Pairs(w)) == Low1(w) + Low1(Shr1(w))
    ensures Shr2(Pairs(w)) == Pairs(Shr1(Shr1(w)))
  {
    assert Pairs(w) & 3 == (w & 1) + ((w >> 1) & 1);
    assert (w >> 1) >> 1 == w >> 2;
    SmallSum(w & 1, (w >> 1) & 1);
  }

  lemma NibblesFields(w: bv32)
    ensures Low4(Nibbles(w)) == Low2(w) + Low2(Shr2(w))
    ensures Shr4(Nibbles(w)) == Nibbles(Shr2(Shr2(w)))
  {
    assert Nibbles(w) & 0xF == (w & 3) + ((w >> 2) & 3);
    assert (w >> 2) >> 2 == w >> 4;
    SmallSum(w & 3, (w >> 2) & 3);
  }

  /** The fields stay far below their width: no addition carries into the next one. */
  lemma FieldsStaySmall(w: bv32)
    ensures Nibbles(w) & 0x8888_8888 == 0
    ensures w & 0x8888_8888 == 0 ==> Bytes(w) & 0xF0F0_F0F0 == 0
    ensures w & 0xF0F0_F0F0 == 0 ==> Halves(w) & 0xFFE0_FFE0 == 0
  {
  }

  lemma BytesFields(w: bv32)
    ensures Low8(Bytes(w)) == Low4(w) + Low4(Shr4(w))
    ensures Shr8(Bytes(w)) == Bytes(Shr4(Shr4(w)))
  {
    assert Bytes(w) & 0xFF == (w & 0xF) + ((w >> 4) & 0xF);
    assert (w >> 4) >> 4 == w >> 8;
    SmallSum(w & 0xF, (w >> 4) & 0xF);
  }

  lemma HalvesFields(w: bv32)
    requires w & 0xF0F0_F0F0 == 0
    ensures Shr8(Shr8(w)) & 0xF0F0_F0F0 == 0
    ensures Low16(Halves(w)) == Low8(w) + Low8(Shr8(w))
    ensures Shr16(Halves(w)) == Halves(Shr8(Shr8(w)))
  {
    assert Halves(w) & 0xFFFF == (w & 0xFF) + ((w >> 8) & 0xFF);
    assert (w >> 8) >> 8 == w >> 16;
    SmallSum(w & 0xFF, (w >> 8) & 0xFF);
  }

  lemma {:induction false} PairsSum(w: bv32, n: nat)
    ensures Sum2(Pairs(w), n) == Sum1(w, 2 * n)
  {
    if n > 0 {
      PairsFields(w);
      PairsSum(Shr1(Shr1(w)), n - 1);
      assert Sum1(Shr1(w), 2 * n - 1) == Low1(Shr1(w)) + Sum1(Shr1(Shr1(w)), 2 * n - 2);
    }
  }

  lemma {:induction false} NibblesSum(w: bv32, n: nat)
    ensures Sum4(Nibbles(w), n) == Sum2(w, 2 * n)
  {
    if n > 0 {
      NibblesFields(w);
      NibblesSum(Shr2(Shr2(w)), n - 1);
      assert Sum2(Shr2(w), 2 * n - 1) == Low2(Shr2(w)) + Sum2(Shr2(Shr2(w)), 2 * n - 2);
    }
  }

  lemma {:induction false} BytesSum(w: bv32, n: nat)
    ensures Sum8(Bytes(w), n) == Sum4(w, 2 * n)
  {
    if n > 0 {
      BytesFields(w);
      BytesSum(Shr4(Shr4(w)), n - 1);
      assert Sum4(Shr4(w), 2 * n - 1) == Low4(Shr4(w)) + Sum4(Shr4(Shr4(w)), 2 * n - 2);
    }
  }

  lemma {:induction false} HalvesSum(w: bv32, n: nat)
    requires w & 0xF0F0_F0F0 == 0
    ensures Sum16(Halves(w), n) == Sum8(w, 2 * n)
  {
    if n > 0 {
      HalvesFields(w);
      HalvesSum(Shr8(Shr8(w)), n - 1);
      assert Sum8(Shr8(w), 2 * n - 1) == Low8(Shr8(w)) + Sum8(Shr8(Shr8(w)), 2 * n - 2);
    }
  }

  lemma WholeSum(w: bv32)
    requires w & 0xFFE0_FFE0 == 0
    ensures Whole(w) as nat == Sum16(w, 2)
  {
    SmallSum(w & 0xFFFF, (w >> 16) & 0xFFFF);
    assert Sum16(Shr16(w), 1) == Low16(Shr16(w)) + Sum16(Shr16(Shr16(w)), 0);
  }

  /** The n lowest bits, least significant first. */
  function LowBits(w: bv32, n: nat): (r: seq<bool>)
    ensures |r| == n
  {
    if n == 0 then [] else [w & 1 == 1] + LowBits(Shr1(w), n - 1)
  }

  function ToWord(w: bv32): Word {
    Word(LowBits(w, 32))
  }

  lemma LowestBit(w: bv32)
    ensures Low1(w) == if w & 1 == 1 then 1 else 0
  {
    assert w & 1 == 0 || w & 1 == 1;
  }

  lemma {:induction false} CountFromTheFront(b: bool, rest: seq<bool>, k: nat)
    requires k <= |rest|
    ensures CountBits(Word([b] + rest), k + 1) == (if b then 1 else 0) + CountBits(Word(rest), k)
  {
    if k > 0 {
      CountFromTheFront(b, rest, k - 1);
      assert ([b] + rest)[k] == rest[k - 1];
    } else {
      assert ([b] + rest)[0] == b;
      assert CountBits(Word([b] + rest), 0) == 0;
    }
  }

  lemma {:induction false} LowBitsSum(w: bv32, n: nat)
    ensures CountBits(Word(LowBits(w, n)), n) == Sum1(w, n)
  {
    if n > 0 {
      LowBitsSum(Shr1(w), n - 1);
      LowestBit(w);
      CountFromTheFront(w & 1 == 1, LowBits(Shr1(w), n - 1), n - 1);
    }
  }

  /** The count that apply_al adds up. */
  lemma HweightCountsBits(w: bv32)
    ensures GenericHweight32(w) as nat == Ones(ToWord(w))
  {
    var w2, w4, w8, w16 := Pairs(w), Nibbles(Pairs(w)), Bytes(Nibbles(Pairs(w))), Halves(Bytes(Nibbles(Pairs(w))));
    FieldsStaySmall(w2);
    FieldsStaySmall(w4);
    FieldsStaySmall(w8);
    WholeSum(w16);
    HalvesSum(w8, 2);
    BytesSum(w4, 4);
    NibblesSum(w2, 8);
    PairsSum(w, 16);
    LowBitsSum(w, 32);
  }
}
