/** parse_bitmap: storing a dumped bitmap window by window. */
module BitmapRestore {
  import opened Arith
  import opened BitmapBuffer
  import opened BitmapDump
  import opened Word32

  /** the buffer, in words, that indices of type int can walk through with any number of peers */
  const MAX_BUFFER: int := 0x4000_0000

  /** 32-bit word t of a slot that was dumped as the 64-bit words e. */
  function Half(e: seq<Long>, t: nat): Word
    requires t < 2 * |e|
  {
    if t % 2 == 0 then e[t / 2].lo else e[t / 2].hi
  }

  /** The buffer after the first t words of slot p have been assigned. */
  function Fill(buf: seq<Word>, e: seq<Long>, peers: nat, p: nat, t: nat): (r: seq<Word>)
    requires p < peers && t <= 2 * |e|
    ensures |r| == |buf|
  {
    seq(|buf|, x requires 0 <= x < |buf| => if x % peers == p && x / peers < t then Half(e, x / peers) else buf[x])
  }

  function Min(a: nat, b: nat): nat {
    if a <= b then a else b
  }

  /** State of the parser for one slot: it started at index start of the window, is at index i, and has seen t of
      the 32-bit words of e. Those that are inside the window have been assigned. */
  ghost predicate Parsed(buf: seq<Word>, orig: seq<Word>, e: seq<Long>, peers: nat, p: nat, start: int, t: nat, i: int)
    requires p < peers && t <= 2 * |e|
  {
    if start < 0 then i == start && buf == orig
    else
      var t' := Min(t, SlotRows(|orig|, peers, p));
      start == p && i == t' * peers + p && buf == Fill(orig, e, peers, p, t')
  }

  // ---- assigning words ----

  method Assign32(buffer: array<Word>, i: int, value: Long, peers: nat) returns (i': int)
    requires peers > 0 && -0x8000_0000 <= i < 0x8000_0000 && buffer.Length <= MAX_BUFFER
    modifies buffer
    ensures 0 <= i < buffer.Length ==>
              i' == i + peers && buffer[..] == old(buffer[..])[i := if i / peers % 2 == 0 then value.lo else value.hi]
    ensures !(0 <= i < buffer.Length) ==> i' == i && buffer[..] == old(buffer[..])
  {
    SmallConversions(i);
    // an int compared with a size_t
    if U64(i) >= buffer.Length {
      return i;
    }
    if i >= 0 {
      if i / peers % 2 == 0 {
        buffer[i] := value.lo;
      } else {
        buffer[i] := value.hi;
      }
    }
    return i + peers;
  }

  lemma FillMore(buf: seq<Word>, e: seq<Long>, value: Long, peers: nat, p: nat, t: nat)
    requires p < peers && t <= 2 * |e|
    ensures Fill(buf, e + [value], peers, p, t) == Fill(buf, e, peers, p, t)
  {
    forall x | 0 <= x < |buf|
      ensures Fill(buf, e + [value], peers, p, t)[x] == Fill(buf, e, peers, p, t)[x]
    {
      if x % peers == p && x / peers < t {
        assert (e + [value])[x / peers / 2] == e[x / peers / 2];
      }
    }
  }

  lemma FillNext(buf: seq<Word>, e: seq<Long>, peers: nat, p: nat, t: nat)
    requires p < peers && t < 2 * |e| && t * peers + p < |buf|
    ensures Fill(buf, e, peers, p, t + 1) == Fill(buf, e, peers, p, t)[t * peers + p := Half(e, t)]
  {
    var filled, updated := Fill(buf, e, peers, p, t + 1), Fill(buf, e, peers, p, t)[t * peers + p := Half(e, t)];
    forall x | 0 <= x < |buf|
      ensures filled[x] == updated[x]
    {
      Place(x, peers, p, t);
    }
  }

  lemma Place(x: nat, peers: nat, p: nat, t: nat)
    requires p < peers
    ensures x == t * peers + p <==> x % peers == p && x / peers == t
  {
    if x == t * peers + p {
      DivRange(x, peers, t);
    }
  }

  /** One half of a 64-bit word. */
  method AssignHalf(buffer: array<Word>, i: int, value: Long, peers: nat,
                    ghost p: nat, ghost start: int, ghost orig: seq<Word>, ghost e: seq<Long>, ghost t: nat)
    returns (i': int)
    requires p < peers <= 32 && buffer.Length == |orig| <= MAX_BUFFER && -0x8000_0000 <= start
    requires t < 2 * |e| && value == e[t / 2] && Parsed(buffer[..], orig, e, peers, p, start, t, i)
    modifies buffer
    ensures Parsed(buffer[..], orig, e, peers, p, start, t + 1, i')
  {
    ghost var rows := SlotRows(buffer.Length, peers, p);
    if start >= 0 {
      assert i <= buffer.Length + peers && (i < buffer.Length <==> t < rows) by {
        InWindow(buffer.Length, peers, p, t);
      }
      RowIndex(Min(t, rows), peers, p);
      if t < rows {
        FillNext(orig, e, peers, p, t);
      }
    }
    i' := Assign32(buffer, i, value, peers);
  }

  lemma InWindow(words: nat, peers: nat, p: nat, t: nat)
    requires p < peers
    ensures Min(t, SlotRows(words, peers, p)) * peers + p <= words + peers
    ensures Min(t, SlotRows(words, peers, p)) * peers + p < words <==> t < SlotRows(words, peers, p)
  {
    var rows := SlotRows(words, peers, p);
    SlotIndex(words, peers, p, Min(t, rows));
    if Min(t, rows) > 0 {
      SlotIndex(words, peers, p, Min(t, rows) - 1);
      RowIndex(Min(t, rows) - 1, peers, p);
    }
  }

  /** One 64-bit word. */
  method AssignLong(buffer: array<Word>, i: int, value: Long, peers: nat, ghost p: nat, ghost start: int,
                    ghost orig: seq<Word>, ghost e: seq<Long>)
    returns (i': int)
    requires p < peers <= 32 && buffer.Length == |orig| <= MAX_BUFFER && -0x8000_0000 <= start
    requires Parsed(buffer[..], orig, e, peers, p, start, 2 * |e|, i)
    modifies buffer
    ensures Parsed(buffer[..], orig, e + [value], peers, p, start, 2 * |e| + 2, i')
  {
    FillMore(orig, e, value, peers, p, Min(2 * |e|, SlotRows(|orig|, peers, p)));
    i' := AssignHalf(buffer, i, value, peers, p, start, orig, e + [value], 2 * |e|);
    i' := AssignHalf(buffer, i', value, peers, p, start, orig, e + [value], 2 * |e| + 1);
  }

  /** The same word this many times; returns the index that follows. */
  method AssignTimes(buffer: array<Word>, i: int, times: nat, value: Long, peers: nat,
                     ghost p: nat, ghost start: int, ghost orig: seq<Word>, ghost e: seq<Long>)
    returns (i': int)
    requires p < peers <= 32 && buffer.Length == |orig| <= MAX_BUFFER && -0x8000_0000 <= start
    requires Parsed(buffer[..], orig, e, peers, p, start, 2 * |e|, i)
    modifies buffer
    ensures Parsed(buffer[..], orig, e + Repeated(times, value), peers, p, start, 2 * |e| + 2 * times, i')
  {
    i' := i;
    assert e + Repeated(0, value) == e;
    for done := 0 to times
      invariant Parsed(buffer[..], orig, e + Repeated(done, value), peers, p, start, 2 * |e| + 2 * done, i')
    {
      ghost var sofar := e + Repeated(done, value);
      assert sofar + [value] == e + Repeated(done + 1, value);
      i' := AssignLong(buffer, i', value, peers, p, start, orig, sofar);
    }
  }

  // ---- one window ----

  /** All tokens of one slot. */
  method ParseTokens(buffer: array<Word>, start: int, tokens: seq<Token>, peers: nat, ghost p: nat) returns (i: int)
    requires p < peers <= 32 && buffer.Length <= MAX_BUFFER && -0x8000_0000 <= start && (start >= 0 ==> start == p)
    modifies buffer
    ensures Parsed(buffer[..], old(buffer[..]), Expand(tokens), peers, p, start, 2 * |Expand(tokens)|, i)
  {
    hide Parsed;
    i := start;
    ghost var orig, e := buffer[..], [];
    NothingParsed(orig, peers, p, start);
    for k := 0 to |tokens|
      invariant e == Expand(tokens[..k]) && Parsed(buffer[..], orig, e, peers, p, start, 2 * |e|, i)
    {
      ExpandNext(tokens, k);
      match tokens[k] {
        case One(value) =>
          i := AssignLong(buffer, i, value, peers, p, start, orig, e);
        case Times(times, value) =>
          i := AssignTimes(buffer, i, times, value, peers, p, start, orig, e);
        case Eol(_) =>
          assert e + [] == e;
      }
      e := e + Words(tokens[k]);
    }
    assert tokens[..|tokens|] == tokens;
  }

  lemma ExpandNext(tokens: seq<Token>, k: nat)
    requires k < |tokens|
    ensures Expand(tokens[..k + 1]) == Expand(tokens[..k]) + Words(tokens[k])
  {
    ExpandMore(tokens[..k], tokens[k]);
    assert tokens[..k + 1] == tokens[..k] + [tokens[k]];
  }

  lemma NothingParsed(orig: seq<Word>, peers: nat, p: nat, start: int)
    requires p < peers && (start >= 0 ==> start == p)
    ensures Parsed(orig, orig, [], peers, p, start, 0, start) && Expand([]) == []
  {
    Nothing(orig, peers, p);
  }

  /** parse_bitmap_window_one_peer. In the first window it takes the words of slot p that fit; in the second one the
      index is negative and stays so, because the comparison in Assign32 is unsigned. */
  method ParseSlot(buffer: array<Word>, tokens: seq<Token>, window: nat, peers: nat, p: nat) returns (words: int)
    requires p < peers <= 32 <= buffer.Length <= MAX_BUFFER && window <= 1
    modifies buffer
    ensures window == 0 ==>
              var e := Expand(tokens);
              var t := Min(2 * |e|, SlotRows(buffer.Length, peers, p));
              words == t * peers && buffer[..] == Fill(old(buffer[..]), e, peers, p, t)
    ensures window == 1 ==> words == 0 - buffer.Length && buffer[..] == old(buffer[..])
  {
    SmallConversions(p - buffer.Length);
    SmallConversions(p);
    var start := I32(p - window * buffer.Length);
    assert start == if window == 0 then p else p - buffer.Length;
    var i := ParseTokens(buffer, start, tokens, peers, p);
    words := i - p;
  }

  lemma Nothing(buf: seq<Word>, peers: nat, p: nat)
    requires p < peers
    ensures Fill(buf, [], peers, p, 0) == buf
  {
  }

  /** The buffer after the first upto slots have been parsed. */
  function Filled(buf: seq<Word>, slots: seq<seq<Long>>, peers: nat, upto: nat): (r: seq<Word>)
    requires upto <= peers == |slots| && peers > 0
    ensures |r| == |buf|
  {
    seq(|buf|, x requires 0 <= x < |buf| =>
      var e := slots[x % peers];
      if x % peers < upto && x / peers < 2 * |e| then Half(e, x / peers) else buf[x])
  }

  /** What parse_bitmap_window reports: the words of the last slot. */
  function WindowWords(slots: seq<seq<Long>>, bufWords: nat): nat
    requires |slots| > 0
  {
    Min(2 * |slots[|slots| - 1]|, bufWords / |slots|) * |slots|
  }

  lemma FillSlot(buf: seq<Word>, slots: seq<seq<Long>>, peers: nat, p: nat)
    requires p < peers == |slots|
    ensures var e := slots[p];
            Fill(Filled(buf, slots, peers, p), e, peers, p, Min(2 * |e|, SlotRows(|buf|, peers, p)))
                == Filled(buf, slots, peers, p + 1)
  {
    var e := slots[p];
    var l, r := Fill(Filled(buf, slots, peers, p), e, peers, p, Min(2 * |e|, SlotRows(|buf|, peers, p))),
        Filled(buf, slots, peers, p + 1);
    forall x | 0 <= x < |buf|
      ensures l[x] == r[x]
    {
      if x % peers == p {
        SlotIndex(|buf|, peers, p, x / peers);
      }
    }
  }

  lemma LastSlot(words: nat, peers: nat)
    requires peers > 0
    ensures SlotRows(words, peers, peers - 1) == words / peers
  {
    if words < peers {
      DivRange(words, peers, 0);
    } else {
      DivRange(words, peers, (words - peers) / peers + 1);
    }
  }

  function Expanded(dump: seq<seq<Token>>): (r: seq<seq<Long>>)
    ensures |r| == |dump|
  {
    seq(|dump|, p requires 0 <= p < |dump| => Expand(dump[p]))
  }

  /** parse_bitmap_window: the first window takes the words of every slot that fit, the second one takes none. */
  method ParseWindow(buffer: array<Word>, dump: seq<seq<Token>>, window: nat) returns (words: int)
    requires 1 <= |dump| <= 32 <= buffer.Length <= MAX_BUFFER && window <= 1
    modifies buffer
    ensures window == 0 ==> words == WindowWords(Expanded(dump), buffer.Length)
    ensures window == 0 ==> buffer[..] == Filled(old(buffer[..]), Expanded(dump), |dump|, |dump|)
    ensures window == 1 ==> words == 0 - buffer.Length && buffer[..] == old(buffer[..])
  {
    hide Fill, Filled, SlotRows, Expand;
    var peers := |dump|;
    ghost var orig, slots := buffer[..], Expanded(dump);
    words := 0;
    NothingFilled(orig, slots, peers);
    LastSlot(buffer.Length, peers);
    for p := 0 to peers
      invariant window == 0 ==> buffer[..] == Filled(orig, slots, peers, p)
      invariant window == 0 && p == peers ==> words == WindowWords(slots, buffer.Length)
      invariant window == 1 ==> buffer[..] == orig && (p == peers ==> words == 0 - buffer.Length)
    {
      FillSlot(orig, slots, peers, p);
      words := ParseSlot(buffer, dump[p], window, peers, p);
    }
  }

  lemma NothingFilled(buf: seq<Word>, slots: seq<seq<Long>>, peers: nat)
    requires peers == |slots| && peers > 0
    ensures Filled(buf, slots, peers, 0) == buf
  {
  }

  // ---- the whole bitmap ----

  function Zero(): (r: Word)
    ensures r.bits == seq(32, _ => false)
  {
    Word(seq(32, _ => false))
  }

  /** How many words of the bitmap the window is written to. */
  function Cut(words: nat, bmWords: nat, hardSect: nat): (r: nat)
    requires hardSect > 0
    ensures r <= bmWords
  {
    Min(RoundUp(4 * words, hardSect) / 4, bmWords)
  }

  /** The buffer once the words behind the first words ones have been cleared. */
  function Cleared(buf: seq<Word>, words: nat): (r: seq<Word>)
    ensures |r| == |buf|
  {
    seq(|buf|, x requires 0 <= x < |buf| => if x < words then buf[x] else Zero())
  }

  /** The first cut words come from the window. */
  function Stored(bm: seq<Word>, window: seq<Word>, cut: nat): (r: seq<Word>)
    ensures |r| == |bm|
  {
    seq(|bm|, x requires 0 <= x < |bm| => if x < cut && x < |window| then window[x] else bm[x])
  }

  /** The on-disk bitmap after restoring the dump of all slots through a buffer that held buf. */
  function Restored(bm: seq<Word>, buf: seq<Word>, slots: seq<seq<Long>>, hardSect: nat): (r: seq<Word>)
    requires |slots| > 0 && hardSect > 0
    ensures |r| == |bm|
  {
    var words := WindowWords(slots, |buf|);
    Stored(bm, Cleared(Filled(buf, slots, |slots|, |slots|), words), Cut(words, |bm|, hardSect))
  }

  /** Row t of a slot, low half first, or what is left over where the slot is shorter. */
  function RowOr(e: seq<Long>, t: nat, leftover: Word): Word {
    if t >= 2 * |e| then leftover else if t % 2 == 0 then e[t / 2].lo else e[t / 2].hi
  }

  /** Word x of the bitmap afterwards: within the rows that the first window takes of the last slot it comes from its
      slot. */
  lemma RestoredWithin(bm: seq<Word>, buf: seq<Word>, slots: seq<seq<Long>>, hardSect: nat, rows: nat, p: nat, t: nat,
                       x: nat)
    requires p < |slots| && p == x % |slots| && t == x / |slots| && hardSect > 0
    requires x < |bm| && x < |buf| && |buf| % 1024 == 0 && 4096 % hardSect == 0
    requires x < rows * |slots|
    requires rows == (if 2 * |slots[|slots| - 1]| <= |buf| / |slots| then 2 * |slots[|slots| - 1]| else |buf| / |slots|)
    ensures Restored(bm, buf, slots, hardSect)[x] == RowOr(slots[p], t, buf[x])
  {
    hide RoundUp;
    assert WindowWords(slots, |buf|) == rows * |slots|;
    RoundUpBounds(4 * (rows * |slots|), hardSect);
  }

  /** Behind them there are zeros up to the end of the sector; the rest, and with it all of any other window, is as it
      was. */
  lemma RestoredBehind(bm: seq<Word>, buf: seq<Word>, slots: seq<seq<Long>>, hardSect: nat, rows: nat, x: nat)
    requires |slots| > 0 && hardSect > 0 && x < |bm| && |buf| % 1024 == 0 && 4096 % hardSect == 0
    requires rows == (if 2 * |slots[|slots| - 1]| <= |buf| / |slots| then 2 * |slots[|slots| - 1]| else |buf| / |slots|)
    requires x >= rows * |slots|
    ensures Restored(bm, buf, slots, hardSect)[x]
         == if x < RoundUp(4 * (rows * |slots|), hardSect) / 4 then Zero() else bm[x]
  {
    hide RoundUp;
    assert WindowWords(slots, |buf|) == rows * |slots|;
    WindowInBuffer(slots, |buf|);
    CutInBuffer(rows * |slots|, |bm|, hardSect, |buf|);
  }

  /** memset of the rest of the buffer, and the write of the window, cut at the end of the bitmap. */
  method StoreWindow(bitmap: array<Word>, buffer: array<Word>, words: nat, hardSect: nat)
    requires bitmap != buffer && words <= buffer.Length && buffer.Length % 1024 == 0 && hardSect > 0
        && 4096 % hardSect == 0
    modifies bitmap, buffer
    ensures bitmap[..] == Stored(old(bitmap[..]), Cleared(old(buffer[..]), words), Cut(words, bitmap.Length, hardSect))
  {
    hide RoundUp;
    CutInBuffer(words, bitmap.Length, hardSect, buffer.Length);
    ghost var bm, window := bitmap[..], Cleared(buffer[..], words);
    ClearBuffer(buffer, words);
    var s := RoundUp(4 * words, hardSect);
    var c := if s > 4 * bitmap.Length then 4 * bitmap.Length else s;
    WriteWords(bitmap, buffer, 0, c / 4, Stored(bm, window, c / 4));
  }

  method ClearBuffer(buffer: array<Word>, words: nat)
    requires words <= buffer.Length
    modifies buffer
    ensures buffer[..] == Cleared(old(buffer[..]), words)
  {
    for x := words to buffer.Length
      invariant forall y :: 0 <= y < buffer.Length ==> buffer[y] == if words <= y < x then Zero() else old(buffer[y])
    {
      buffer[x] := Zero();
    }
  }

  lemma CutInBuffer(words: nat, bmWords: nat, hardSect: nat, bufWords: nat)
    requires words <= bufWords && bufWords % 1024 == 0 && hardSect > 0 && 4096 % hardSect == 0
    ensures RoundUp(4 * words, hardSect) / 4 <= bufWords && Cut(words, bmWords, hardSect) <= bufWords
  {
    ChunkAligned(bufWords, hardSect);
    RoundUpMonotone(4 * words, 4 * bufWords, hardSect);
  }

  lemma WindowInBuffer(slots: seq<seq<Long>>, bufWords: nat)
    requires |slots| > 0
    ensures WindowWords(slots, bufWords) <= bufWords
  {
    MulMonotone(Min(2 * |slots[|slots| - 1]|, bufWords / |slots|), bufWords / |slots|, |slots|);
  }

  /** parse_bitmap. Fails where the write would start at the end of an empty bitmap. */
  method ParseBitmap(bitmap: array<Word>, buffer: array<Word>, dump: seq<seq<Token>>, hardSect: nat) returns (ok: bool)
    requires bitmap != buffer && 1 <= |dump| <= 32 && hardSect > 0 && 4096 % hardSect == 0
    requires 32 <= buffer.Length <= MAX_BUFFER && buffer.Length % 1024 == 0
    modifies bitmap, buffer
    ensures bitmap[..] == Restored(old(bitmap[..]), old(buffer[..]), Expanded(dump), hardSect)
    ensures ok <==> WindowWords(Expanded(dump), buffer.Length) == 0 || bitmap.Length > 0
  {
    hide Filled, Cut, Expanded;
    ghost var bm, buf, slots := bitmap[..], buffer[..], Expanded(dump);
    WindowInBuffer(slots, buffer.Length);
    SmallConversions(0 - buffer.Length);
    SmallConversions(WindowWords(slots, buffer.Length));
    ok := true;
    var window, again := 0, true;
    while again && ok
      invariant 0 <= window <= 2 && (window == 2 ==> !again)
      invariant window == 0 ==> ok && again && bitmap[..] == bm && buffer[..] == buf
      invariant window > 0 ==> bitmap[..] == Restored(bm, buf, slots, hardSect)
      invariant window > 0 ==> (ok <==> WindowWords(slots, buffer.Length) == 0 || bitmap.Length > 0)
      decreases 2 - window, ok
    {
      var words := ParseWindow(buffer, dump, window);
      if words > 0 {
        if bitmap.Length == 0 {
          assert Restored(bm, buf, slots, hardSect) == bm;
          ok := false;
        } else {
          StoreWindow(bitmap, buffer, words, hardSect);
        }
      } else if window == 0 {
        NothingRestored(bm, buf, slots, hardSect);
      }
      window := window + 1;
      again := U64(words) == buffer.Length;
    }
  }

  lemma NothingRestored(bm: seq<Word>, buf: seq<Word>, slots: seq<seq<Long>>, hardSect: nat)
    requires |slots| > 0 && hardSect > 0 && WindowWords(slots, |buf|) == 0
    ensures Restored(bm, buf, slots, hardSect) == bm
  {
    DivRange(hardSect - 1, hardSect, 0);
    assert Cut(0, |bm|, hardSect) == 0;
  }
}
