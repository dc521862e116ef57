/** fprintf_bm: printing one peer's slot of the interleaved bitmap as 64-bit words, with run-length encoding. */
module BitmapDump {
  import opened Arith
  import opened BitmapBuffer
  import opened Word32

  /** A 64-bit word of the dump, by its two 32-bit halves. */
  datatype Long = Long(hi: Word, lo: Word)

  /** The dump of one slot: single words, runs, and the starts of lines, some of which come with a comment line. */
  datatype Token = One(word: Long) | Times(count: nat, word: Long) | Eol(comment: bool)

  /** words per line; only runs longer than that are run-length encoded */
  const WPL: int := 8

  // ---- what a dump says ----

  function Repeated(count: nat, word: Long): seq<Long> {
    seq(count, _ => word)
  }

  function Words(t: Token): seq<Long> {
    match t
    case One(word) => [word]
    case Times(count, word) => Repeated(count, word)
    case Eol(_) => []
  }

  /** All the 64-bit words of a dump, in order. */
  function Expand(out: seq<Token>): seq<Long> {
    if out == [] then [] else Expand(out[..|out| - 1]) + Words(out[|out| - 1])
  }

  /** For each of these words, whether it is part of a run. */
  function InRuns(out: seq<Token>): seq<bool> {
    if out == [] then []
    else
      var t := out[|out| - 1];
      InRuns(out[..|out| - 1]) + seq(|Words(t)|, _ => t.Times?)
  }

  /** What the last line of a dump holds so far; Header is the line with the opening brace. Irregular if any line in
      front of it was blank, or any line holds anything but single words only or one run only. */
  datatype Layout = Header | Blank | Singles | Run | Irregular

  function NextLayout(l: Layout, t: Token): Layout {
    match t
    case One(_) => if l.Blank? || l.Singles? then Singles else Irregular
    case Times(_, _) => if l.Blank? then Run else Irregular
    case Eol(_) => if l.Header? || l.Singles? || l.Run? then Blank else Irregular
  }

  function LayoutOf(out: seq<Token>): Layout {
    if out == [] then Header else NextLayout(LayoutOf(out[..|out| - 1]), out[|out| - 1])
  }

  // ---- what is on disk ----

  /** Number of 32-bit words slot p of peers has among the first n. */
  function SlotRows(n: nat, peers: nat, p: nat): nat
    requires p < peers
  {
    if n <= p then 0 else (n - p - 1) / peers + 1
  }

  lemma SlotIndex(n: nat, peers: nat, p: nat, k: nat)
    requires p < peers
    ensures k < SlotRows(n, peers, p) <==> k * peers + p < n
  {
    if n > p {
      var q := (n - p - 1) / peers;
      assert q * peers <= n - p - 1 < q * peers + peers;
      if k <= q {
        MulMonotone(k, q, peers);
      } else {
        MulMonotone(q + 1, k, peers);
      }
    }
  }

  /** The 32-bit words of slot p, in order. */
  function Slot(disk: seq<Word>, peers: nat, p: nat): (r: seq<Word>)
    requires p < peers
    ensures |r| == SlotRows(|disk|, peers, p)
  {
    seq(SlotRows(|disk|, peers, p), k requires 0 <= k < SlotRows(|disk|, peers, p) =>
      SlotIndex(|disk|, peers, p, k);
      disk[k * peers + p])
  }

  /** The first m 64-bit words of a slot. */
  function Longs(slot: seq<Word>, m: nat): (r: seq<Long>)
    requires 2 * m <= |slot|
  {
    seq(m, x requires 0 <= x < m => Long(slot[2 * x + 1], slot[2 * x]))
  }

  // ---- one step of the printer ----

  /** The first rows words of the slot have been printed; the last one is held back if their number is odd. */
  ghost predicate Printed(out: seq<Token>, slot: seq<Word>, rows: nat) {
    rows <= |slot| && Expand(out) == Longs(slot, rows / 2)
  }

  ghost predicate RunOf(cw: Word, slot: seq<Word>, lo: nat, hi: nat) {
    lo <= hi <= |slot| && forall x :: lo <= x < hi ==> slot[x] == cw
  }

  lemma ExpandMore(out: seq<Token>, t: Token)
    ensures Expand(out + [t]) == Expand(out) + Words(t)
  {
    assert (out + [t])[..|out|] == out;
  }

  lemma PrintOne(out: seq<Token>, slot: seq<Word>, k: nat)
    requires k < |slot| && k % 2 == 1 && Printed(out, slot, k)
    ensures Printed(out + [One(Long(slot[k], slot[k - 1]))], slot, k + 1)
  {
    hide Expand;
    ExpandMore(out, One(Long(slot[k], slot[k - 1])));
    assert Longs(slot, k / 2 + 1) == Longs(slot, k / 2) + [Long(slot[k], slot[k - 1])];
  }

  lemma PrintRun(out: seq<Token>, slot: seq<Word>, cw: Word, k: nat, count: nat)
    requires count <= k && Printed(out, slot, k - count) && RunOf(cw, slot, k - count, k) && k % 2 == 0
        && count % 2 == 0
    ensures Printed(out + [Times(count / 2, Long(cw, cw))], slot, k)
  {
    var t := Times(count / 2, Long(cw, cw));
    ExpandMore(out, t);
    assert Expand(out) + Words(t) == Longs(slot, k / 2);
  }

  lemma {:induction false} RunOnes(cw: Word, slot: seq<Word>, lo: nat, hi: nat)
    requires RunOf(cw, slot, lo, hi)
    ensures OnesIn(slot, lo, hi) == (hi - lo) * Ones(cw)
    decreases hi - lo
  {
    if lo < hi {
      RunOnes(cw, slot, lo, hi - 1);
      assert (hi - lo) * Ones(cw) == (hi - 1 - lo) * Ones(cw) + Ones(cw);
    }
  }

  lemma AddOnes(slot: seq<Word>, cw: Word, k: nat, count: nat, bits: nat)
    requires count <= k && RunOf(cw, slot, k - count, k) && bits == U32(OnesIn(slot, 0, k - count))
    ensures U32(bits + count * Ones(cw)) == U32(OnesIn(slot, 0, k))
  {
    RunOnes(cw, slot, k - count, k);
    OnesInSplit(slot, 0, k - count, k);
    AddU32(OnesIn(slot, 0, k - count), count * Ones(cw));
  }

  lemma AddU32(a: nat, b: nat)
    ensures U32(U32(a) + b) == U32(a + b)
  {
    var q := (U32(a) + b) / 0x1_0000_0000;
    DivRange(a + b, 0x1_0000_0000, a / 0x1_0000_0000 + q);
  }

  // ---- where the printer is ----

  lemma RowIndex(x: nat, peers: nat, p: nat)
    requires p < peers
    ensures (x * peers + p) / peers == x
    ensures (x * peers + p) % (WPL * peers) == p <==> x % 8 == 0
    ensures (x + 1) * peers + p == x * peers + p + peers
  {
    DivRange(x * peers + p, peers, x);
    var q, s := x / 8, x % 8;
    assert x == q * 8 + s;
    LineIndex(q, s, peers, p);
  }

  lemma LineIndex(q: nat, s: nat, peers: nat, p: nat)
    requires p < peers && s < 8
    ensures ((q * 8 + s) * peers + p) % (WPL * peers) == s * peers + p
    ensures s * peers + p == p <==> s == 0
  {
    var g := WPL * peers;
    assert (q * 8 + s) * peers + p == q * g + (s * peers + p);
    MulMonotone(s, 7, peers);
    DivRange(q * g + (s * peers + p), g, q);
    MulMonotone(if s == 0 then 0 else 1, s, peers);
  }

  lemma Rows(x: nat, t: nat, peers: nat, p: nat)
    ensures (x + t) * peers + p == x * peers + p + t * peers
  {
  }

  // ---- what has been printed ----

  /** The printer is at word k of the slot. A run of count words in front of it is counted, but not printed yet. */
  ghost predicate Progress(out: seq<Token>, bits: nat, slot: seq<Word>, k: nat, count: nat, cw: Word, lw: Word) {
    && count <= k <= |slot| && count % 8 == 0 && (count > 0 ==> k % 8 == 0)
    && Printed(out, slot, k - count) && bits == U32(OnesIn(slot, 0, k - count))
    && RunOf(cw, slot, k - count, k)
    && (k % 2 == 1 ==> lw == slot[k - 1])
  }

  lemma CountRun(out: seq<Token>, bits: nat, slot: seq<Word>, k: nat, count: nat, cw: Word, lw: Word, more: nat)
    requires Progress(out, bits, slot, k, count, cw, lw) && k % 8 == 0 && more % 8 == 0
    requires k + more <= |slot| && RunOf(cw, slot, k, k + more)
    ensures Progress(out, bits, slot, k + more, count + more, cw, lw)
  {
    hide Printed, U32;
    assert k + more - (count + more) == k - count;
  }

  lemma FlushRun(out: seq<Token>, bits: nat, slot: seq<Word>, k: nat, count: nat, cw: Word, lw: Word)
    requires Progress(out, bits, slot, k, count, cw, lw) && count > 0
    ensures Progress(out + [Times(count / 2, Long(cw, cw))], U32(bits + count * Ones(cw)), slot, k, 0, cw, lw)
  {
    hide Printed, U32;
    PrintRun(out, slot, cw, k, count);
    AddOnes(slot, cw, k, count, bits);
  }

  lemma PrintWord(out: seq<Token>, bits: nat, slot: seq<Word>, k: nat, cw: Word, lw: Word)
    requires Progress(out, bits, slot, k, 0, cw, lw) && k < |slot|
    ensures Progress(if k % 2 == 0 then out else out + [One(Long(slot[k], lw))], U32(bits + Ones(slot[k])),
                     slot, k + 1, 0, cw, if k % 2 == 0 then slot[k] else lw)
  {
    if k % 2 == 1 {
      PrintOne(out, slot, k);
    }
    AddOnes(slot, slot[k], k + 1, 1, bits);
  }

  lemma ChooseWord(out: seq<Token>, bits: nat, slot: seq<Word>, k: nat, cw: Word, cw': Word, lw: Word)
    requires Progress(out, bits, slot, k, 0, cw, lw)
    ensures Progress(out, bits, slot, k, 0, cw', lw)
  {
  }

  /** The layout goes with the progress: a line is begun for every 8 words and for every run. */
  ghost predicate Lined(out: seq<Token>, k: nat, count: nat) {
    var l := LayoutOf(out);
    if count > 0 || k % 8 == 1 then l.Blank?
    else if k % 8 != 0 then l.Singles?
    else (k == 0 && l.Header?) || (k > 0 && (l.Singles? || l.Run?))
  }

  /** The line for word k has been begun. */
  ghost predicate Begun(out: seq<Token>, k: nat) {
    if k % 8 <= 1 then LayoutOf(out).Blank? else LayoutOf(out).Singles?
  }

  lemma LayoutMore(out: seq<Token>, t: Token)
    ensures LayoutOf(out + [t]) == NextLayout(LayoutOf(out), t)
  {
    assert (out + [t])[..|out|] == out;
  }

  lemma BeginLine(out: seq<Token>, bits: nat, slot: seq<Word>, k: nat, count: nat, cw: Word, lw: Word, t: Token)
    requires Progress(out, bits, slot, k, count, cw, lw) && Lined(out, k, count) && t.Eol?
    ensures count == 0 ==> Progress(out + [t], bits, slot, k, 0, cw, lw)
    ensures count == 0 && k % 8 == 0 ==> Begun(out + [t], k)
    ensures count > 0 || k % 8 != 0 ==> Begun(out, k)
    ensures k % 8 != 0 ==> count == 0
  {
    LayoutMore(out, t);
    ExpandMore(out, t);
    assert Expand(out) + [] == Expand(out);
  }

  lemma RunLined(out: seq<Token>, k: nat, count: nat, more: nat)
    requires Begun(out, k) && k % 8 == 0 && count + more > 0
    ensures Lined(out, k + more, count + more)
  {
  }

  lemma FlushLined(out: seq<Token>, bits: nat, slot: seq<Word>, k: nat, count: nat, cw: Word, lw: Word, t: Token)
    requires Progress(out, bits, slot, k, count, cw, lw) && Lined(out, k, count) && count > 0 && t.Times?
    ensures Lined(out + [t], k, 0)
  {
    LayoutMore(out, t);
  }

  lemma WordLined(out: seq<Token>, k: nat, t: Token)
    requires Begun(out, k) && t.One?
    ensures k % 2 == 0 ==> Lined(out, k + 1, 0)
    ensures k % 2 == 1 ==> Lined(out + [t], k + 1, 0)
  {
    LayoutMore(out, t);
    NextInLine(k);
  }

  lemma NextInLine(k: nat)
    ensures k / 2 / 4 * 8 == k / 8 * 8
    ensures (k + 1) % 8 == if k % 8 == 7 then 0 else k % 8 + 1
    ensures k % 2 == k % 8 % 2
  {
  }

  lemma NothingPrinted(slot: seq<Word>, cw: Word, lw: Word)
    ensures Progress([], 0, slot, 0, 0, cw, lw) && Lined([], 0, 0)
  {
  }

  lemma AllPrinted(out: seq<Token>, bits: nat, slot: seq<Word>, cw: Word, lw: Word)
    requires Progress(out, bits, slot, |slot|, 0, cw, lw) && Lined(out, |slot|, 0)
    ensures Expand(out) == Longs(slot, |slot| / 2) && bits == U32(TotalOnes(slot))
    ensures !LayoutOf(out).Irregular? && (LayoutOf(out).Blank? <==> |slot| % 8 == 1)
  {
  }

  // ---- where lines begin ----

  /** Token i is where it should be. A line begins at every fourth 64-bit word that is not inside a run, with a comment
      at every 64th word of the bitmap; a run has a line to itself. */
  predicate PlacedAt(out: seq<Token>, i: nat, peers: nat, p: nat)
    requires i < |out|
  {
    var words := |Expand(out[..i])|;
    match out[i]
    case Eol(comment) => words % 4 == 0 && (comment <==> (2 * words * peers + p) % 64 == p)
    case One(_) => words % 4 == 0 ==> i > 0 && out[i - 1].Eol?
    case Times(_, _) => words % 4 == 0 && i > 0 && out[i - 1].Eol?
  }

  ghost predicate Placed(out: seq<Token>, peers: nat, p: nat) {
    forall i :: 0 <= i < |out| ==> PlacedAt(out, i, peers, p)
  }

  lemma PlacedMore(out: seq<Token>, t: Token, peers: nat, p: nat)
    requires Placed(out, peers, p) && PlacedAt(out + [t], |out|, peers, p)
    ensures Placed(out + [t], peers, p)
  {
    forall i | 0 <= i < |out|
      ensures PlacedAt(out + [t], i, peers, p)
    {
      assert PlacedAt(out, i, peers, p);
      assert (out + [t])[..i] == out[..i];
    }
  }

  lemma PlaceLine(out: seq<Token>, bits: nat, slot: seq<Word>, k: nat, cw: Word, lw: Word, r: nat, peers: nat, p: nat)
    requires Progress(out, bits, slot, k, 0, cw, lw) && k % 8 == 0 && r == k * peers + p && Placed(out, peers, p)
    ensures Placed(out + [Eol(r % 64 == p)], peers, p)
  {
    hide Expand;
    assert (out + [Eol(r % 64 == p)])[..|out|] == out;
    assert |Expand(out)| == k / 2 && k == 2 * (k / 2) && k / 2 % 4 == 0;
    PlacedMore(out, Eol(r % 64 == p), peers, p);
  }

  lemma NothingPlaced(peers: nat, p: nat)
    ensures Placed([], peers, p)
  {
  }

  lemma BlankIsEol(out: seq<Token>)
    requires LayoutOf(out).Blank?
    ensures out != [] && out[|out| - 1].Eol?
  {
  }

  lemma PlaceRun(out: seq<Token>, bits: nat, slot: seq<Word>, k: nat, count: nat, cw: Word, lw: Word, t: Token,
                 peers: nat, p: nat)
    requires Progress(out, bits, slot, k, count, cw, lw) && count > 0 && Lined(out, k, count) && t.Times?
    requires Placed(out, peers, p)
    ensures Placed(out + [t], peers, p)
  {
    hide Expand;
    BlankIsEol(out);
    assert (out + [t])[..|out|] == out;
    HalfRows(k, count);
    assert |Expand(out)| == (k - count) / 2 && (k - count) / 2 % 4 == 0;
    PlacedMore(out, t, peers, p);
  }

  lemma PlaceWord(out: seq<Token>, bits: nat, slot: seq<Word>, k: nat, cw: Word, lw: Word, t: Token, peers: nat, p: nat)
    requires Progress(out, bits, slot, k, 0, cw, lw) && k % 2 == 1 && Begun(out, k) && t.One?
    requires Placed(out, peers, p)
    ensures Placed(out + [t], peers, p)
  {
    hide Expand;
    assert (out + [t])[..|out|] == out;
    assert |Expand(out)| == k / 2;
    if k / 2 % 4 == 0 {
      assert k % 8 == 1;
      BlankIsEol(out);
    }
    PlacedMore(out, t, peers, p);
  }

  // ---- which words are run-length encoded ----

  /** The line of 8 rows at k and the next one hold the same word throughout, and lie in the same chunk of c rows. */
  predicate SameLines(slot: seq<Word>, c: nat, k: nat)
    requires c > 0
  {
    && k % 8 == 0 && k + 16 <= |slot| && k / c == (k + 8) / c
    && forall x :: k <= x < k + 16 ==> slot[x] == slot[k]
  }

  /** The line at k is like a neighbour in its chunk. */
  predicate LineInRun(slot: seq<Word>, c: nat, k: nat)
    requires c > 0
  {
    SameLines(slot, c, k) || (k >= 8 && SameLines(slot, c, k - 8))
  }

  /** For each of the first m 64-bit words of the slot, whether it belongs in a run. */
  function RunFlags(slot: seq<Word>, c: nat, m: nat): seq<bool>
    requires c > 0
  {
    seq(m, x requires 0 <= x < m => LineInRun(slot, c, x / 4 * 8))
  }

  /** At word k, with a run of count words in front of it not printed yet. */
  ghost predicate Flagged(out: seq<Token>, slot: seq<Word>, c: nat, k: nat, count: nat)
    requires c > 0
  {
    && c % 1024 == 0 && count <= k <= |slot| && count % 8 == 0
    && InRuns(out) == RunFlags(slot, c, (k - count) / 2)
    && (count > 0 ==> k % c == 0 || k + 8 > |slot|)
    && (forall x :: k - count <= x < k && x % 8 == 0 ==> LineInRun(slot, c, x))
    && (if k % 8 != 0 then !LineInRun(slot, c, k / 8 * 8)
        else count == 0 && k >= 8 ==> !SameLines(slot, c, k - 8))
  }

  /** The line of word k is one of single words. */
  ghost predicate InSingleLine(out: seq<Token>, slot: seq<Word>, c: nat, k: nat)
    requires c > 0
  {
    Flagged(out, slot, c, k, 0) && !LineInRun(slot, c, k / 8 * 8)
  }

  lemma NothingFlagged(slot: seq<Word>, c: nat)
    requires c > 0 && c % 1024 == 0
    ensures Flagged([], slot, c, 0, 0)
  {
  }

  lemma InRunsMore(out: seq<Token>, t: Token)
    ensures InRuns(out + [t]) == InRuns(out) + seq(|Words(t)|, _ => t.Times?)
  {
    assert (out + [t])[..|out|] == out;
  }

  lemma FlagLine(out: seq<Token>, slot: seq<Word>, c: nat, k: nat, count: nat, t: Token)
    requires c > 0 && Flagged(out, slot, c, k, count) && t.Eol?
    ensures Flagged(out + [t], slot, c, k, count)
  {
    InRunsMore(out, t);
    assert InRuns(out + [t]) == InRuns(out);
  }

  /** The run of equal words from k on is over at e. */
  ghost predicate RunStops(slot: seq<Word>, cw: Word, b: nat, c: nat, k: nat, e: nat) {
    && b <= k <= e <= b + c && RunOf(cw, slot, k, e)
    && (e == b + c || e == |slot| || slot[e] != cw)
  }

  lemma ChunkOf(b: nat, c: nat, x: nat)
    requires c > 0 && b % c == 0 && b <= x < b + c
    ensures x / c == b / c
  {
    DivRange(x, c, b / c);
  }

  /** Of a run of at least two lines, each is like a neighbour. */
  lemma LinesInRun(slot: seq<Word>, cw: Word, b: nat, c: nat, k: nat, tmp: nat)
    requires c > 0 && c % 1024 == 0 && b % c == 0 && b <= k && k % 8 == 0 && tmp % 8 == 0 && tmp > 8
    requires k + tmp <= b + c && RunOf(cw, slot, k, k + tmp)
    ensures forall x :: k <= x < k + tmp && x % 8 == 0 ==> LineInRun(slot, c, x)
  {
    forall x | k <= x < k + tmp && x % 8 == 0
      ensures LineInRun(slot, c, x)
    {
      var y := if x + 16 <= k + tmp then x else x - 8;
      LineInside(k, tmp, x);
      ChunkOf(b, c, y);
      ChunkOf(b, c, y + 8);
      assert SameLines(slot, c, y);
    }
  }

  lemma LineInside(k: nat, tmp: nat, x: nat)
    requires k % 8 == 0 && tmp % 8 == 0 && x % 8 == 0 && tmp > 8 && k <= x < k + tmp
    ensures x + 8 <= k + tmp && (x + 16 <= k + tmp || x - 8 >= k) && (x + 16 > k + tmp ==> (x - 8) % 8 == 0)
  {
  }

  /** Behind a run that stops at e, rounded down to lines, there is no other line of it. */
  lemma NoMoreLines(slot: seq<Word>, cw: Word, b: nat, c: nat, k: nat, e: nat, tmp: nat)
    requires c > 0 && c % 1024 == 0 && b % c == 0 && k % 8 == 0 && RunStops(slot, cw, b, c, k, e)
    requires tmp == RoundDown(e - k, 8) && tmp >= 8
    ensures !SameLines(slot, c, k + tmp - 8)
  {
    if SameLines(slot, c, k + tmp - 8) {
      StopsWithin(slot, cw, b, c, k, e, k + tmp - 8);
    }
  }

  /** Two equal lines, of which the first begins in the run, are both in it. */
  lemma StopsWithin(slot: seq<Word>, cw: Word, b: nat, c: nat, k: nat, e: nat, x: nat)
    requires c > 0 && c % 1024 == 0 && b % c == 0 && RunStops(slot, cw, b, c, k, e)
    requires k <= x <= e && x < b + c && SameLines(slot, c, x) && slot[x] == cw
    ensures x + 16 <= e
  {
    LinesInChunk(b, c, x);
  }

  lemma LinesInChunk(b: nat, c: nat, x: nat)
    requires c > 0 && c % 1024 == 0 && b % c == 0 && x % 8 == 0 && b <= x < b + c && x / c == (x + 8) / c
    ensures x + 16 <= b + c
  {
    Multiple8(b, c);
    ChunkOf(b, c, x);
    assert x + 8 == (x + 8) / c * c + (x + 8) % c;
    assert x + 8 < b + c;
  }

  /** The run goes to the end of the chunk, or to the last lines of the slot, and is not printed yet. */
  lemma FlagCounted(out: seq<Token>, slot: seq<Word>, b: nat, c: nat, k: nat, count: nat, cw: Word, tmp: nat)
    requires c > 0 && b % c == 0 && b <= k && k % 8 == 0 && Flagged(out, slot, c, k, count)
    requires tmp % 8 == 0 && tmp > 8 && k + tmp <= b + c && k + tmp <= |slot| && RunOf(cw, slot, k, k + tmp)
    requires k + tmp == b + c || k + tmp + 8 > |slot|
    ensures Flagged(out, slot, c, k + tmp, count + tmp)
  {
    hide LineInRun, SameLines, RunFlags, InRuns;
    LinesInRun(slot, cw, b, c, k, tmp);
    NextMultiple(b, c);
    WholeLinesMore(k, count, tmp);
  }

  lemma WholeLinesMore(k: nat, count: nat, tmp: nat)
    requires k % 8 == 0 && count % 8 == 0 && tmp % 8 == 0
    ensures (k + tmp) % 8 == 0 && (count + tmp) % 8 == 0 && k + tmp - (count + tmp) == k - count
  {
  }

  lemma NextMultiple(b: nat, c: nat)
    requires c > 0 && b % c == 0
    ensures (b + c) % c == 0
  {
    MultipleMod(b / c + 1, c);
  }

  /** The row in front of a chunk is in another one. */
  lemma PreviousChunk(c: nat, k: nat)
    requires c > 0 && k >= 8 && k % c == 0
    ensures (k - 8) / c != k / c
  {
    assert k == k / c * c;
    assert k - 8 == (k - 8) / c * c + (k - 8) % c;
  }

  /** The run is printed: what was counted before, and whole lines up to where it stops. */
  lemma FlagFlushed(out: seq<Token>, slot: seq<Word>, b: nat, c: nat, k: nat, count: nat, cw: Word, e: nat, tmp: nat,
                    t: Token)
    requires c > 0 && b % c == 0 && k % 8 == 0 && Flagged(out, slot, c, k, count) && RunStops(slot, cw, b, c, k, e)
    requires e <= |slot| && tmp == RoundDown(e - k, 8) && tmp > 8 && t.Times? && t.count == (count + tmp) / 2
    ensures Flagged(out + [t], slot, c, k + tmp, 0)
  {
    RoundDownBounds(e - k, 8);
    LinesInRun(slot, cw, b, c, k, tmp);
    NoMoreLines(slot, cw, b, c, k, e, tmp);
    hide LineInRun, SameLines, RunFlags, InRuns, RunStops, RoundDown;
    WholeLinesMore(k, count, tmp);
    FlagTrue(out, slot, c, k + tmp, count + tmp, t);
  }

  /** The same if the run does not go on in this chunk. */
  lemma FlagEnded(out: seq<Token>, slot: seq<Word>, c: nat, k: nat, count: nat, t: Token)
    requires c > 0 && k % 8 == 0 && Flagged(out, slot, c, k, count) && count > 0 && t.Times? && t.count == count / 2
    ensures Flagged(out + [t], slot, c, k, 0)
  {
    hide LineInRun, RunFlags, InRuns;
    FlagTrue(out, slot, c, k, count, t);
    if k >= 8 && k % c == 0 {
      PreviousChunk(c, k);
    }
  }

  /** The flags of a printed run. */
  lemma FlagTrue(out: seq<Token>, slot: seq<Word>, c: nat, k: nat, count: nat, t: Token)
    requires c > 0 && count <= k && k % 8 == 0 && count % 8 == 0 && t.Times? && t.count == count / 2
    requires InRuns(out) == RunFlags(slot, c, (k - count) / 2)
    requires forall x :: k - count <= x < k && x % 8 == 0 ==> LineInRun(slot, c, x)
    ensures InRuns(out + [t]) == RunFlags(slot, c, k / 2)
  {
    hide LineInRun, InRuns, RunFlags;
    InRunsMore(out, t);
    forall x: nat | (k - count) / 2 <= x < k / 2
      ensures LineInRun(slot, c, x / 4 * 8)
    {
      LineOf(k, count, x);
    }
    HalfRows(k, count);
    TrueFlags(slot, c, (k - count) / 2, count / 2);
  }

  lemma HalfRows(k: nat, count: nat)
    requires count <= k && k % 8 == 0 && count % 8 == 0
    ensures (k - count) / 2 + count / 2 == k / 2
  {
    var lines, counted := k / 8, count / 8;
    assert k == 8 * lines && count == 8 * counted;
  }

  lemma TrueFlags(slot: seq<Word>, c: nat, m: nat, more: nat)
    requires c > 0 && forall x: nat :: m <= x < m + more ==> LineInRun(slot, c, x / 4 * 8)
    ensures RunFlags(slot, c, m + more) == RunFlags(slot, c, m) + seq(more, _ => true)
  {
    hide LineInRun;
  }

  lemma FalseFlag(slot: seq<Word>, c: nat, m: nat)
    requires c > 0 && !LineInRun(slot, c, m / 4 * 8)
    ensures RunFlags(slot, c, m + 1) == RunFlags(slot, c, m) + [false]
  {
    hide LineInRun;
  }

  lemma LineOf(k: nat, count: nat, x: nat)
    requires count <= k && k % 8 == 0 && count % 8 == 0 && (k - count) / 2 <= x < k / 2
    ensures k - count <= x / 4 * 8 < k && x / 4 * 8 % 8 == 0
  {
    var lines, counted := k / 8, count / 8;
    assert k == 8 * lines && count == 8 * counted;
    assert (k - count) / 2 == 4 * (lines - counted) && k / 2 == 4 * lines;
  }

  /** Without a run, a line of single words begins. */
  lemma FlagSingle(out: seq<Token>, slot: seq<Word>, b: nat, c: nat, k: nat, e: nat)
    requires c > 0 && b % c == 0 && k % 8 == 0 && k < |slot| && k < b + c && Flagged(out, slot, c, k, 0)
    requires RunStops(slot, slot[k], b, c, k, e) && RoundDown(e - k, 8) <= 8
    ensures InSingleLine(out, slot, c, k)
  {
    RoundDownBounds(e - k, 8);
    if SameLines(slot, c, k) {
      StopsWithin(slot, slot[k], b, c, k, e, k);
    }
  }

  /** A run that may go on fills the chunk up to its end, or leaves less than a line of the slot. */
  lemma ToChunkEnd(b: nat, c: nat, rows: nat, e: nat, k: nat, tmp: nat)
    requires c > 0 && c % 1024 == 0 && b % c == 0 && k % 8 == 0 && k <= e
    requires tmp == RoundDown(e - k, WPL) && (e == b + c || e == rows)
    ensures k + tmp == b + c || k + tmp + 8 > rows
  {
    hide RoundDown;
    RoundDownBounds(e - k, WPL);
    if e == b + c {
      Multiple8(b, c);
      WholeLinesMore(b, 0, c);
      WholeRun(e, k);
    }
  }

  lemma WholeRun(e: nat, k: nat)
    requires k <= e && e % 8 == 0 && k % 8 == 0
    ensures RoundDown(e - k, 8) == e - k
  {
    RoundDownExact(e - k, 8);
  }

  /** What becomes of the words of a run that stops at e: they are counted if it may go on, or printed; or there is
      no run. */
  lemma FlagRun(out: seq<Token>, slot: seq<Word>, b: nat, c: nat, k: nat, count: nat, cw: Word, e: nat, tmp: nat)
    requires c > 0 && b % c == 0 && k % 8 == 0 && k < |slot| && k < b + c && Flagged(out, slot, c, k, count)
    requires RunStops(slot, cw, b, c, k, e) && tmp == RoundDown(e - k, WPL) && (count == 0 ==> cw == slot[k])
    ensures k + tmp <= |slot| && RunOf(cw, slot, k, k + tmp)
    ensures tmp > 8 && (e == b + c || e == |slot|) ==> Flagged(out, slot, c, k + tmp, count + tmp)
    ensures tmp > 8 ==> Flagged(out + [Times((count + tmp) / 2, Long(cw, cw))], slot, c, k + tmp, 0)
    ensures tmp <= 8 && count > 0 ==> Flagged(out + [Times(count / 2, Long(cw, cw))], slot, c, k, 0)
    ensures tmp <= 8 && count == 0 ==> InSingleLine(out, slot, c, k)
  {
    RoundDownBounds(e - k, 8);
    assert c % 1024 == 0 && count % 8 == 0 && e <= |slot| && RunOf(cw, slot, k, k + tmp);
    hide Flagged, InSingleLine, RunOf, RoundDown;
    if tmp > 8 {
      FlagFlushed(out, slot, b, c, k, count, cw, e, tmp, Times((count + tmp) / 2, Long(cw, cw)));
      if e == b + c || e == |slot| {
        ToChunkEnd(b, c, |slot|, e, k, tmp);
        FlagCounted(out, slot, b, c, k, count, cw, tmp);
      }
    } else if count > 0 {
      FlagEnded(out, slot, c, k, count, Times(count / 2, Long(cw, cw)));
    } else {
      FlagSingle(out, slot, b, c, k, e);
    }
  }

  /** One more word of such a line. */
  lemma FlagWord(out: seq<Token>, slot: seq<Word>, c: nat, k: nat, t: Token)
    requires c > 0 && k < |slot| && InSingleLine(out, slot, c, k) && t.One?
    ensures Flagged(if k % 2 == 0 then out else out + [t], slot, c, k + 1, 0)
  {
    LastOfLine(slot, c, k);
    hide LineInRun, SameLines, RunFlags, InRuns;
    NextInLine(k);
    if k % 2 == 1 {
      InRunsMore(out, t);
      assert seq(|Words(t)|, _ => t.Times?) == [false];
      FalseFlag(slot, c, k / 2);
      Halves(k);
    }
  }

  lemma Halves(k: nat)
    ensures k % 2 == 1 ==> (k + 1) / 2 == k / 2 + 1
    ensures k % 2 == 0 ==> (k + 1) / 2 == k / 2
  {
  }

  lemma LastOfLine(slot: seq<Word>, c: nat, k: nat)
    requires c > 0 && !LineInRun(slot, c, k / 8 * 8)
    ensures if (k + 1) % 8 == 0 then !SameLines(slot, c, k + 1 - 8) else !LineInRun(slot, c, (k + 1) / 8 * 8)
  {
    if (k + 1) % 8 == 0 {
      assert k / 8 * 8 == k + 1 - 8;
    } else {
      assert (k + 1) / 8 == k / 8;
    }
  }

  lemma Multiple8(b: nat, c: nat)
    requires c > 0 && c % 1024 == 0 && b % c == 0
    ensures b % 8 == 0 && c % 8 == 0
  {
    var q, blocks := b / c, c / 1024;
    assert c == 1024 * blocks && b == q * c;
    assert q * (1024 * blocks) == 128 * (q * blocks) * 8;
    MultipleMod(128 * (q * blocks), 8);
  }

  // ---- the printer's place in the bitmap and in the buffer ----

  /** Slot p of peers, in a bitmap of n words, printed through a buffer of c rows. */
  datatype Grid = Grid(n: nat, peers: nat, p: nat, c: nat)

  ghost predicate ValidGrid(g: Grid) {
    g.p < g.peers && g.n % 1024 == 0 && g.c > 0 && g.c % 1024 == 0
  }

  function Cap(g: Grid): (r: nat) { g.c * g.peers }

  /** Rows the buffer has room for: a whole number of 4k blocks of each slot. */
  lemma ChunkRows(bufWords: nat, peers: nat) returns (c: nat)
    requires 0 < peers && 1024 * peers <= bufWords
    ensures c > 0 && c % 1024 == 0 && RoundDown(4 * bufWords, 4096 * peers) == 4 * (c * peers)
        && 4 * peers <= 4 * (c * peers) <= 4 * bufWords
  {
    RoundDownBounds(4 * bufWords, 4096 * peers);
    var q := 4 * bufWords / (4096 * peers);
    c := q * 1024;
    assert q * (4096 * peers) == 4 * (c * peers);
    MulCancel(1, q, 4096 * peers);
    MulMonotone(1, c, peers);
  }

  /** The part of the bitmap that is read next, in words: as much as fits, or all that is left. */
  lemma NextChunk(n: nat, b: nat, peers: nat, p: nat, hardSect: nat, maxChunk: nat)
    requires p < peers && n % 1024 == 0 && b % 1024 == 0 && b * peers + p < n && hardSect > 0 && 4096 % hardSect == 0
    ensures RoundDown(b * peers + p, peers) == b * peers && b * peers % 1024 == 0
    ensures RoundUp((n - b * peers) * 4, hardSect) == (n - b * peers) * 4
  {
    DivRange(b * peers + p, peers, b);
    var q := b / 1024;
    assert b * peers == q * peers * 1024;
    MultipleMod(q * peers, 1024);
    ChunkAligned(n - b * peers, hardSect);
  }

  lemma ChunkAligned(words: nat, hardSect: nat)
    requires words % 1024 == 0 && hardSect > 0 && 4096 % hardSect == 0
    ensures RoundUp(words * 4, hardSect) == words * 4
  {
    var q, s := words / 1024, 4096 / hardSect;
    assert 4096 == s * hardSect;
    assert words * 4 == q * s * hardSect;
    MultipleMod(q * s, hardSect);
    RoundUpExact(words * 4, hardSect);
  }

  /** Index in the bitmap of the first word of row b. */
  function Base(g: Grid, b: nat): (r: nat) { b * g.peers }

  /** Index of the slot's word in row x. */
  function At(g: Grid, x: nat): (r: nat) { x * g.peers + g.p }

  /** The printer is at word k of the slot, word r of the bitmap and word i of the buffer; the buffer starts at
      row b and holds size words: all it can hold, or all there is. */
  ghost predicate Position(g: Grid, b: nat, k: nat, r: nat, i: nat, size: nat) {
    && ValidGrid(g) && b % 1024 == 0 && b <= k <= b + g.c && k <= SlotRows(g.n, g.peers, g.p)
    && i == At(g, k - b) && r == At(g, k) == Base(g, b) + i && (r < g.n <==> k < SlotRows(g.n, g.peers, g.p))
    && size <= Cap(g) && (r < g.n ==> size == Cap(g) || Base(g, b) + size == g.n)
  }

  ghost predicate Holding(g: Grid, buf: seq<Word>, disk: seq<Word>, b: nat, size: nat) {
    |disk| == g.n && Holds(buf, disk, Base(g, b), size)
  }

  lemma RowOf(g: Grid, buf: seq<Word>, disk: seq<Word>, b: nat, size: nat, k: nat)
    requires ValidGrid(g) && Holding(g, buf, disk, b, size) && b <= k && At(g, k - b) < size
    ensures k < SlotRows(g.n, g.peers, g.p) && buf[At(g, k - b)] == Slot(disk, g.peers, g.p)[k]
  {
    Rows(b, k - b, g.peers, g.p);
    SlotIndex(g.n, g.peers, g.p, k);
  }

  /** What the printer sees at its position. */
  lemma Here(g: Grid, buf: seq<Word>, disk: seq<Word>, b: nat, k: nat, r: nat, i: nat, size: nat)
    requires Position(g, b, k, r, i, size) && Holding(g, buf, disk, b, size) && r < g.n && i < Cap(g)
    ensures i < size <= |buf| && k < |Slot(disk, g.peers, g.p)| && buf[i] == Slot(disk, g.peers, g.p)[k]
    ensures i / g.peers % 2 == k % 2 && (i % (WPL * g.peers) == g.p <==> k % 8 == 0)
    ensures ValidGrid(g) && b <= k && i == At(g, k - b)
  {
    assert i < size && i == At(g, k - b);
    RowOf(g, buf, disk, b, size, k);
    LineStart(b, k, g.peers, g.p, i);
  }

  lemma LineStart(b: nat, k: nat, peers: nat, p: nat, i: nat)
    requires p < peers && b % 1024 == 0 && b <= k && i == (k - b) * peers + p
    ensures i / peers % 2 == k % 2 && (i % (WPL * peers) == p <==> k % 8 == 0)
  {
    RowIndex(k - b, peers, p);
    Residues(k - b, b / 1024);
  }

  lemma Residues(x: nat, q: nat)
    ensures (x + 1024 * q) % 8 == x % 8 && (x + 1024 * q) % 2 == x % 2
  {
  }

  lemma Start(g: Grid, size: nat)
    requires ValidGrid(g) && size <= Cap(g) && (g.p < g.n ==> size == Cap(g) || size == g.n)
    ensures Position(g, 0, 0, g.p, g.p, size)
  {
    SlotIndex(g.n, g.peers, g.p, 0);
  }

  lemma Advance(g: Grid, b: nat, k: nat, r: nat, i: nat, size: nat, t: nat)
    requires Position(g, b, k, r, i, size) && r < g.n && k + t <= SlotRows(g.n, g.peers, g.p)
    requires At(g, k - b + t) < size + g.peers
    ensures Position(g, b, k + t, r + t * g.peers, i + t * g.peers, size)
  {
    Rows(k - b, t, g.peers, g.p);
    Rows(k, t, g.peers, g.p);
    SlotIndex(g.n, g.peers, g.p, k + t);
    MulCancel(k - b + t, g.c, g.peers);
  }

  lemma Next(g: Grid, b: nat, k: nat, r: nat, i: nat, size: nat)
    requires Position(g, b, k, r, i, size) && i < size && r < g.n
    ensures k < SlotRows(g.n, g.peers, g.p) && Position(g, b, k + 1, r + g.peers, i + g.peers, size)
  {
    Rows(k - b, 1, g.peers, g.p);
    Advance(g, b, k, r, i, size, 1);
  }

  /** At the end of a full buffer, the next chunk starts where it ends. */
  lemma Wrap(g: Grid, b: nat, k: nat, r: nat, i: nat, size: nat)
    requires Position(g, b, k, r, i, size) && i >= Cap(g) && r < g.n
    ensures k == b + g.c && i == Cap(g) + g.p && r == Base(g, k) + g.p && size == Cap(g)
    ensures Base(g, k) == Base(g, b) + size && k % 1024 == 0
  {
    hide SlotRows, At, Base, Cap;
    assert k == b + g.c by {
      AtCapacity(g, k - b);
    }
    CapacityRows(g, b);
    assert (b + g.c) % 1024 == 0;
  }

  lemma AtCapacity(g: Grid, x: nat)
    requires g.p < g.peers && x <= g.c && At(g, x) >= Cap(g)
    ensures x == g.c
  {
    MulCancel(g.c, x, g.peers);
  }

  lemma CapacityRows(g: Grid, b: nat)
    ensures At(g, g.c) == Cap(g) + g.p && Base(g, b + g.c) == Base(g, b) + Cap(g)
    ensures At(g, b + g.c) == Base(g, b + g.c) + g.p
  {
    Rows(b, g.c, g.peers, 0);
  }

  lemma Wrapped(g: Grid, k: nat, size: nat)
    requires ValidGrid(g) && k % 1024 == 0 && Base(g, k) + g.p < g.n && size <= Cap(g)
    requires size == Cap(g) || Base(g, k) + size == g.n
    ensures Position(g, k, k, Base(g, k) + g.p, g.p, size)
  {
    SlotIndex(g.n, g.peers, g.p, k);
  }

  // ---- the printer ----

  /** Reads the next chunk; the printer is at the first row of it. */
  method Refill(bitmap: array<Word>, buffer: array<Word>, off: nat, n: nat, r: nat, peers: nat, hardSect: nat,
                maxChunk: nat, ghost g: Grid, ghost disk: seq<Word>, ghost k: nat)
    returns (size: nat, off': nat)
    requires bitmap != buffer && ValidGrid(g) && g.n == n == |disk| && disk <= bitmap[..] && g.peers == peers
        && hardSect > 0 && 4096 % hardSect == 0
    requires maxChunk == 4 * Cap(g) <= 4 * buffer.Length
    requires k % 1024 == 0 && r == Base(g, k) + g.p < n && off == 4 * Base(g, k)
    modifies buffer
    ensures Holding(g, buffer[..], disk, k, size) && Position(g, k, k, r, g.p, size)
    ensures off' == 4 * (Base(g, k) + size)
  {
    NextChunk(g.n, k, peers, g.p, hardSect, maxChunk);
    var chunk := RoundUp((n - RoundDown(r, peers)) * 4, hardSect);
    if chunk > maxChunk {
      chunk := maxChunk;
    }
    ReadWords(bitmap, buffer, off / 4, chunk / 4);
    size := chunk / 4;
    off' := off + chunk;
    Wrapped(g, k, size);
  }

  /** Where the run of equal 64-bit words of this slot ends, within the buffer. */
  method RunEnd(buffer: array<Word>, i: nat, size: nat, cw: Word, peers: nat,
                ghost g: Grid, ghost disk: seq<Word>, ghost b: nat, ghost k: nat)
    returns (j: nat, ghost e: nat)
    requires ValidGrid(g) && g.peers == peers && Holding(g, buffer[..], disk, b, size)
    requires b <= k && i == At(g, k - b) < size
    ensures k <= e && j == At(g, e - b) < size + peers
    ensures RunOf(cw, Slot(disk, peers, g.p), k, e)
    ensures j < size ==> e < |Slot(disk, peers, g.p)| && Slot(disk, peers, g.p)[e] != cw
  {
    j, e := i, k;
    RowOf(g, buffer[..], disk, b, size, k);
    while j < size && buffer[j] == cw
      invariant k <= e && j == At(g, e - b) < size + peers
      invariant RunOf(cw, Slot(disk, peers, g.p), k, e)
      decreases size + peers - j
    {
      RowOf(g, buffer[..], disk, b, size, e);
      Rows(e - b, 1, peers, g.p);
      j, e := j + peers, e + 1;
    }
    if j < size {
      RowOf(g, buffer[..], disk, b, size, e);
    }
  }

  /** Where the run stops: at another word, at the end of the chunk, or at the end of the slot. */
  lemma Stops(g: Grid, disk: seq<Word>, cw: Word, b: nat, k: nat, r: nat, i: nat, size: nat, j: nat, e: nat)
    requires Position(g, b, k, r, i, size) && r < g.n == |disk| && k <= e && j == At(g, e - b) < size + g.peers
    requires RunOf(cw, Slot(disk, g.peers, g.p), k, e) && i < size
    requires j < size ==> e < |Slot(disk, g.peers, g.p)| && Slot(disk, g.peers, g.p)[e] != cw
    ensures k < b + g.c && e <= SlotRows(g.n, g.peers, g.p)
    ensures RunStops(Slot(disk, g.peers, g.p), cw, b, g.c, k, e)
    ensures j >= size ==> e == b + g.c || e == |Slot(disk, g.peers, g.p)|
  {
    hide SlotRows, At, Cap;
    RowsBelow(g, e - b, size);
    RowsBelow(g, k - b, size);
    if j >= size && size != Cap(g) {
      EndOfSlot(g, b, e, size);
    }
  }

  lemma RowsBelow(g: Grid, x: nat, size: nat)
    requires ValidGrid(g) && At(g, x) < size + g.peers && size <= Cap(g)
    ensures x <= g.c && (size == Cap(g) && At(g, x) >= size ==> x == g.c) && (At(g, x) < size ==> x < g.c)
  {
    MulCancel(x, g.c, g.peers);
    if size == Cap(g) && At(g, x) >= size {
      MulCancel(g.c, x, g.peers);
    }
    if At(g, x) < size {
      MulCancel(x + 1, g.c, g.peers);
    }
  }

  lemma EndOfSlot(g: Grid, b: nat, e: nat, size: nat)
    requires ValidGrid(g) && b <= e <= SlotRows(g.n, g.peers, g.p) && At(g, e - b) >= size && Base(g, b) + size == g.n
    ensures e == SlotRows(g.n, g.peers, g.p)
  {
    hide SlotRows;
    Rows(b, e - b, g.peers, g.p);
    SlotIndex(g.n, g.peers, g.p, e);
  }

  /** The run that ends in front of row e, rounded down to tmp words, a whole number of lines. */
  lemma WholeLines(g: Grid, b: nat, k: nat, r: nat, i: nat, size: nat, j: nat, e: nat, tmp: nat, d: nat)
    requires Position(g, b, k, r, i, size) && r < g.n && g.peers > 0
    requires k <= e <= SlotRows(g.n, g.peers, g.p) && j == At(g, e - b) < size + g.peers
    requires tmp == RoundDown(e - k, WPL) && d == tmp * g.peers
    ensures tmp % 8 == 0 && k + tmp <= e && (tmp > 0 ==> d > 0)
    ensures Position(g, b, k + tmp, r + d, i + d, size) && i + d <= j
  {
    RoundDownBounds(e - k, WPL);
    MulMonotone(k - b + tmp, e - b, g.peers);
    if tmp > 0 {
      MulMonotone(1, tmp, g.peers);
    }
    Rows(k - b, tmp, g.peers, g.p);
    Advance(g, b, k, r, i, size, tmp);
  }

  lemma RunRows(g: Grid, b: nat, k: nat, i: nat, j: nat, e: nat)
    requires ValidGrid(g) && b <= k <= e && i == At(g, k - b) && j == At(g, e - b)
    ensures j / g.peers - i / g.peers == e - k
  {
    RowIndex(k - b, g.peers, g.p);
    RowIndex(e - b, g.peers, g.p);
  }

  /** Prints the counted run. */
  method PrintCounted(out: seq<Token>, bitsSet: nat, count: nat, cw: Word, ghost slot: seq<Word>, ghost k: nat,
                      ghost lw: Word, ghost peers: nat, ghost p: nat)
    returns (out': seq<Token>, bitsSet': nat)
    requires Progress(out, bitsSet, slot, k, count, cw, lw) && Lined(out, k, count) && count > 0
    requires Placed(out, peers, p)
    ensures out' == out + [Times(count / 2, Long(cw, cw))]
    ensures Progress(out', bitsSet', slot, k, 0, cw, lw) && Lined(out', k, 0) && Placed(out', peers, p)
  {
    hide Progress, Lined, Placed, U32;
    var t := Times(count / 2, Long(cw, cw));
    PlaceRun(out, bitsSet, slot, k, count, cw, lw, t, peers, p);
    FlushRun(out, bitsSet, slot, k, count, cw, lw);
    FlushLined(out, bitsSet, slot, k, count, cw, lw, t);
    out', bitsSet' := out + [t], U32(bitsSet + count * Ones(cw));
  }

  /** Begins a line, unless one has been begun for a run that goes on. */
  method StartLine(out: seq<Token>, count: nat, r: nat, ghost peers: nat, p: nat, ghost bitsSet: nat,
                   ghost slot: seq<Word>, ghost c: nat, ghost k: nat, ghost cw: Word, ghost lw: Word)
    returns (out': seq<Token>)
    requires Progress(out, bitsSet, slot, k, count, cw, lw) && Lined(out, k, count) && c > 0
    requires Flagged(out, slot, c, k, count) && Placed(out, peers, p) && k % 8 == 0 && r == k * peers + p
    ensures Progress(out', bitsSet, slot, k, count, cw, lw) && Begun(out', k)
    ensures Flagged(out', slot, c, k, count) && Placed(out', peers, p)
  {
    hide Progress, Lined, Begun, Flagged, Placed;
    BeginLine(out, bitsSet, slot, k, count, cw, lw, Eol(r % 64 == p));
    out' := out;
    if count == 0 {
      FlagLine(out, slot, c, k, 0, Eol(r % 64 == p));
      PlaceLine(out, bitsSet, slot, k, cw, lw, r, peers, p);
      out' := out + [Eol(r % 64 == p)];
    }
  }

  /** At the start of a line: takes a run of cw into the count, and prints the counted run if it ends here. With
      again, the loop goes on from where the printer is now; without, there is no run, and a line has been begun. */
  method TakeRun(buffer: array<Word>, n: nat, r: nat, i: nat, size: nat, peers: nat, p: nat, cw: Word, count: nat,
                 out: seq<Token>, bitsSet: nat,
                 ghost g: Grid, ghost disk: seq<Word>, ghost b: nat, ghost k: nat, ghost lw: Word)
    returns (r': nat, i': nat, count': nat, out': seq<Token>, bitsSet': nat, again: bool, ghost k': nat)
    requires g.n == n && g.peers == peers && Position(g, b, k, r, i, size) && Holding(g, buffer[..], disk, b, size)
    requires r < n && i < Cap(g) && k % 8 == 0
    requires Progress(out, bitsSet, Slot(disk, peers, g.p), k, count, cw, lw) && Lined(out, k, count)
    requires Flagged(out, Slot(disk, peers, g.p), g.c, k, count) && b % g.c == 0
    requires (count == 0 ==> cw == buffer[i]) && g.p == p && Placed(out, peers, p)
    ensures Position(g, b, k', r', i', size)
    ensures if again then Flagged(out', Slot(disk, peers, g.p), g.c, k', count')
            else InSingleLine(out', Slot(disk, peers, g.p), g.c, k')
    ensures Placed(out', peers, p)
    ensures Progress(out', bitsSet', Slot(disk, peers, g.p), k', count', cw, lw)
    ensures again ==> Lined(out', k', count') && (r' > r || (r' == r && count' < count))
    ensures again && count' > 0 ==> r' < n
    ensures !again ==> Begun(out', k) && r' == r && i' == i && k' == k && count == count' == 0 && bitsSet' == bitsSet
  {
    hide Progress, RoundDown, U32, Lined, Begun, LayoutOf, Flagged, InSingleLine, RunStops, RunOf, Placed;
    r', i', count', out', bitsSet', again, k' := r, i, count, out, bitsSet, false, k;
    ghost var slot := Slot(disk, peers, g.p);
    var j;
    ghost var e;
    Here(g, buffer[..], disk, b, k, r, i, size);
    out' := StartLine(out, count, r, peers, p, bitsSet, slot, g.c, k, cw, lw);
    j, e := RunEnd(buffer, i, size, cw, peers, g, disk, b, k);
    Stops(g, disk, cw, b, k, r, i, size, j, e);
    RunRows(g, b, k, i, j, e);
    var tmp := RoundDown(j / peers - i / peers, WPL);
    WholeLines(g, b, k, r, i, size, j, e, tmp, tmp * peers);
    FlagRun(out', slot, b, g.c, k, count, cw, e, tmp);
    if tmp > WPL {
      CountRun(out', bitsSet, slot, k, count, cw, lw, tmp);
      count', r', i', again, k' := count + tmp, r + tmp * peers, i + tmp * peers, true, k + tmp;
      RunLined(out', k, count, tmp);
      if j >= size && r' < n {
        return;
      }
    } else if count > 0 {
      RunLined(out', k, count, 0);
    }
    if count' > 0 {
      out', bitsSet' := PrintCounted(out', bitsSet, count', cw, slot, k', lw, peers, p);
      count', again := 0, true;
    }
  }

  /** One 32-bit word: the low half is kept back, the high half completes a 64-bit word. */
  method TakeWord(w: Word, lw: Word, even: bool, out: seq<Token>, bitsSet: nat, ghost slot: seq<Word>, ghost c: nat,
                  ghost k: nat, ghost cw: Word, ghost peers: nat, ghost p: nat)
    returns (lw': Word, out': seq<Token>, bitsSet': nat)
    requires Progress(out, bitsSet, slot, k, 0, cw, lw) && k < |slot| && w == slot[k] && even == (k % 2 == 0)
    requires Begun(out, k) && c > 0 && InSingleLine(out, slot, c, k) && Placed(out, peers, p)
    ensures Progress(out', bitsSet', slot, k + 1, 0, cw, lw') && Lined(out', k + 1, 0)
    ensures Flagged(out', slot, c, k + 1, 0) && Placed(out', peers, p)
  {
    hide Progress, U32, Begun, Lined, Flagged, InSingleLine, Placed;
    FlagWord(out, slot, c, k, One(Long(w, lw)));
    PrintWord(out, bitsSet, slot, k, cw, lw);
    WordLined(out, k, One(Long(w, lw)));
    lw', out' := lw, out;
    if even {
      lw' := w;
    } else {
      PlaceWord(out, bitsSet, slot, k, cw, lw, One(Long(w, lw)), peers, p);
      out' := out + [One(Long(w, lw))];
    }
    bitsSet' := U32(bitsSet + Ones(w));
  }

  /** What is printed of a bitmap: the number of its words is kept in 32 bits. */
  function Counted(disk: seq<Word>): seq<Word> {
    disk[..U32(|disk|)]
  }

  /** Rows of the chunks in which a slot is read: the buffer, rounded down to 4k for each peer. */
  function ChunkRowsOf(bufWords: nat, peers: nat): (c: nat)
    requires 0 < peers && 1024 * peers <= bufWords
    ensures c > 0
  {
    WholeBuffer(bufWords, peers);
    RoundDown(4 * bufWords, 4096 * peers) / (4 * peers)
  }

  lemma WholeBuffer(bufWords: nat, peers: nat)
    requires 0 < peers && 1024 * peers <= bufWords
    ensures RoundDown(4 * bufWords, 4096 * peers) / (4 * peers) > 0
    ensures forall c: nat :: RoundDown(4 * bufWords, 4096 * peers) == 4 * (c * peers) ==>
                              c == RoundDown(4 * bufWords, 4096 * peers) / (4 * peers)
  {
    var d := ChunkRows(bufWords, peers);
    forall c: nat | RoundDown(4 * bufWords, 4096 * peers) == 4 * (c * peers)
      ensures c == RoundDown(4 * bufWords, 4096 * peers) / (4 * peers)
    {
      assert 4 * (c * peers) == c * (4 * peers);
      DivRange(c * (4 * peers), 4 * peers, c);
    }
  }

  /** Prints slot p of the first n words of the on-disk bitmap. */
  method PrintSlot(bitmap: array<Word>, buffer: array<Word>, n: nat, peers: nat, p: nat, hardSect: nat,
                   ghost disk: seq<Word>)
    returns (out: seq<Token>, bitsSet: nat)
    requires bitmap != buffer && n % 1024 == 0 && p < peers && hardSect > 0 && 4096 % hardSect == 0
    requires 1024 * peers <= buffer.Length && disk <= bitmap[..] && |disk| == n
    modifies buffer
    ensures Expand(out) == Longs(Slot(disk, peers, p), |Slot(disk, peers, p)| / 2)
    ensures bitsSet == U32(TotalOnes(Slot(disk, peers, p)))
    ensures !LayoutOf(out).Irregular? && (LayoutOf(out).Blank? <==> |Slot(disk, peers, p)| % 8 == 1)
    ensures InRuns(out)
         == RunFlags(Slot(disk, peers, p), ChunkRowsOf(buffer.Length, peers), |Slot(disk, peers, p)| / 2)
    ensures Placed(out, peers, p)
  {
    hide Position, Holding, Progress, RoundDown, U32, RunOf, Lined, Begun, LayoutOf, Flagged, InSingleLine, ChunkRowsOf;
    hide InRuns, RunFlags, Longs, Expand, TotalOnes, SlotRows, Placed;
    var maxChunk := RoundDown(4 * buffer.Length, 4096 * peers);
    ghost var c := ChunkRows(buffer.Length, peers);
    ghost var g, slot := Grid(n, peers, p, c), Slot(disk, peers, p);
    var i: nat, r: nat, off: nat, size: nat, count: nat := p, p, 0, 0, 0;
    var cw, lw := AllOnes(), AllOnes();
    out, bitsSet := [], 0;
    ghost var b: nat, k: nat := 0, 0;
    if r < n {
      size, off := Refill(bitmap, buffer, off, n, r, peers, hardSect, maxChunk, g, disk, 0);
    } else {
      Start(g, size);
    }
    NothingPrinted(slot, cw, lw);
    NothingFlagged(slot, c);
    NothingPlaced(peers, p);
    while r < n
      invariant Position(g, b, k, r, i, size)
      invariant r < n ==> Holding(g, buffer[..], disk, b, size) && off == 4 * (Base(g, b) + size)
      invariant Progress(out, bitsSet, slot, k, count, cw, lw) && Lined(out, k, count)
      invariant Flagged(out, slot, c, k, count) && b % c == 0 && Placed(out, peers, p)
      invariant count > 0 ==> r < n
      decreases n - r, count
    {
      if i * 4 >= maxChunk {
        Wrap(g, b, k, r, i, size);
        NextMultiple(b, c);
        i, b := i - maxChunk / 4, k;
        size, off := Refill(bitmap, buffer, off, n, r, peers, hardSect, maxChunk, g, disk, k);
      }
      Here(g, buffer[..], disk, b, k, r, i, size);
      if count == 0 {
        ChooseWord(out, bitsSet, slot, k, cw, buffer[i], lw);
        cw := buffer[i];
      }
      if i % (WPL * peers) == p {
        var again;
        r, i, count, out, bitsSet, again, k :=
          TakeRun(buffer, n, r, i, size, peers, p, cw, count, out, bitsSet, g, disk, b, k, lw);
        if again {
          continue;
        }
      } else {
        BeginLine(out, bitsSet, slot, k, count, cw, lw, Eol(false));
        WithinLine(out, slot, c, k, count);
      }
      lw, out, bitsSet := TakeWord(buffer[i], lw, i / peers % 2 == 0, out, bitsSet, slot, c, k, cw,
                                   peers, p);
      Next(g, b, k, r, i, size);
      r, i, k := r + peers, i + peers, k + 1;
    }
    Done(g, b, k, r, i, size);
    AllPrinted(out, bitsSet, slot, cw, lw);
    AllFlagged(out, slot, c, buffer.Length, peers);
  }

  lemma WithinLine(out: seq<Token>, slot: seq<Word>, c: nat, k: nat, count: nat)
    requires c > 0 && Flagged(out, slot, c, k, count) && k % 8 != 0 && count == 0
    ensures InSingleLine(out, slot, c, k)
  {
  }

  lemma AllFlagged(out: seq<Token>, slot: seq<Word>, c: nat, bufWords: nat, peers: nat)
    requires 0 < peers && 1024 * peers <= bufWords && c > 0 && Flagged(out, slot, c, |slot|, 0)
    requires RoundDown(4 * bufWords, 4096 * peers) == 4 * (c * peers)
    ensures InRuns(out) == RunFlags(slot, ChunkRowsOf(bufWords, peers), |slot| / 2)
  {
    hide RunFlags, InRuns, RoundDown;
    WholeBuffer(bufWords, peers);
  }

  /** Prints slot p of the on-disk bitmap, and reports the number of bits set in it. */
  method PrintBitmap(bitmap: array<Word>, buffer: array<Word>, peers: nat, p: nat, hardSect: nat)
    returns (out: seq<Token>, bitsSet: nat)
    requires bitmap != buffer && bitmap.Length % 1024 == 0 && p < peers <= 32 && hardSect > 0 && 4096 % hardSect == 0
    requires 32 * 1024 <= buffer.Length
    modifies buffer
    ensures Expand(out) == Longs(Slot(Counted(bitmap[..]), peers, p), |Slot(Counted(bitmap[..]), peers, p)| / 2)
    ensures bitsSet == U32(TotalOnes(Slot(Counted(bitmap[..]), peers, p)))
    ensures !LayoutOf(out).Irregular? && (LayoutOf(out).Blank? <==> |Slot(Counted(bitmap[..]), peers, p)| % 8 == 1)
    ensures InRuns(out) == RunFlags(Slot(Counted(bitmap[..]), peers, p), ChunkRowsOf(buffer.Length, peers),
                                    |Slot(Counted(bitmap[..]), peers, p)| / 2)
    ensures Placed(out, peers, p)
  {
    WholeBlocks(bitmap[..]);
    out, bitsSet := PrintSlot(bitmap, buffer, U32(bitmap.Length), peers, p, hardSect, Counted(bitmap[..]));
  }

  lemma Done(g: Grid, b: nat, k: nat, r: nat, i: nat, size: nat)
    requires Position(g, b, k, r, i, size) && r >= g.n
    ensures k == SlotRows(g.n, g.peers, g.p)
  {
  }

  lemma WholeBlocks(disk: seq<Word>)
    requires |disk| % 1024 == 0
    ensures |Counted(disk)| == U32(|disk|) && Counted(disk) <= disk
    ensures U32(|disk|) % 1024 == 0 && U32(|disk|) + 32 <= 0x1_0000_0000
  {
  }

  /** The dump is complete exactly for bitmaps of less than 16 GiB. */
  lemma DumpComplete(disk: seq<Word>, peers: nat)
    requires peers > 0
    ensures (forall p :: 0 <= p < peers ==> Slot(Counted(disk), peers, p) == Slot(disk, peers, p))
        <==> 4 * |disk| < 0x4_0000_0000
  {
    if |disk| < 0x1_0000_0000 {
      assert Counted(disk) == disk;
    } else {
      var k, p := (|disk| - 1) / peers, (|disk| - 1) % peers;
      SlotIndex(|disk|, peers, p, k);
      SlotIndex(U32(|disk|), peers, p, k);
      assert |Slot(Counted(disk), peers, p)| != |Slot(disk, peers, p)|;
    }
  }
}
