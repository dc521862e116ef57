/** drbd-verify.py's decoder of a bitmap dump: a second reader of what fprintf_bm prints, line by line. */
module VerifyDecoder {
  import opened Arith
  import opened ApplyAlSpec
  import opened BitmapDump
  import opened Layout
  import opened Word32
  import opened Wrappers

  /** The lines of a dump, from the one with the opening brace on. Comment lines, which are skipped, are left out. */
  function Lines(out: seq<Token>): (r: seq<seq<Token>>)
    ensures |r| > 0
  {
    if out == [] then [[]]
    else
      var (ls, t) := (Lines(out[..|out| - 1]), out[|out| - 1]);
      if t.Eol? then ls + [[]] else ls[..|ls| - 1] + [ls[|ls| - 1] + [t]]
  }

  // ---- what the decoder takes from a line ----

  predicate HasRun(line: seq<Token>) {
    exists k :: 0 <= k < |line| && line[k].Times?
  }

  predicate HasSingle(line: seq<Token>) {
    exists k :: 0 <= k < |line| && line[k].One?
  }

  /** The words of the runs of a line, or of its single words. */
  function Picked(line: seq<Token>, runs: bool): seq<Long> {
    if line == [] then []
    else
      var t := line[|line| - 1];
      Picked(line[..|line| - 1], runs) + if (runs && t.Times?) || (!runs && t.One?) then Words(t) else []
  }

  /** Runs hide single words on the same line; a line with neither is an error. */
  function DecodeLine(line: seq<Token>): Option<seq<Long>> {
    if HasRun(line) then Some(Picked(line, true))
    else if HasSingle(line) then Some(Picked(line, false))
    else None
  }

  function Decode(lines: seq<seq<Token>>): Option<seq<Long>> {
    if lines == [] then Some([])
    else
      match (Decode(lines[..|lines| - 1]), DecodeLine(lines[|lines| - 1]))
      case (Some(a), Some(b)) => Some(a + b)
      case _ => None
  }

  // ---- the decoder ----

  method PickFromLine(line: seq<Token>, runs: bool) returns (found: bool, words: seq<Long>)
    ensures words == Picked(line, runs)
    ensures found <==> if runs then HasRun(line) else HasSingle(line)
  {
    found, words := false, [];
    for k := 0 to |line|
      invariant words == Picked(line[..k], runs)
      invariant found <==> exists l :: 0 <= l < k && if runs then line[l].Times? else line[l].One?
    {
      assert line[..k + 1][..k] == line[..k];
      if (runs && line[k].Times?) || (!runs && line[k].One?) {
        found, words := true, words + Words(line[k]);
      }
    }
    assert line[..|line|] == line;
  }

  /** parse_bitmap_for_peer, once it is at the peer's bitmap section. None stands for the exception. */
  method ParseBitmapForPeer(lines: seq<seq<Token>>) returns (r: Option<seq<Long>>)
    ensures r == Decode(lines)
  {
    var result := [];
    for k := 0 to |lines|
      invariant Decode(lines[..k]) == Some(result)
    {
      DecodeNext(lines, k);
      var found, words := PickFromLine(lines[k], true);
      if !found {
        found, words := PickFromLine(lines[k], false);
        if !found {
          DecodeFails(lines, k);
          return None;
        }
      }
      result := result + words;
    }
    assert lines[..|lines|] == lines;
    return Some(result);
  }

  lemma DecodeNext(lines: seq<seq<Token>>, k: nat)
    requires k < |lines| && Decode(lines[..k]).Some?
    ensures Decode(lines[..k + 1]) == match DecodeLine(lines[k])
                                     case Some(b) => Some(Decode(lines[..k]).value + b)
                                     case None => None
  {
    assert lines[..k + 1][..k] == lines[..k];
  }

  lemma {:induction false} DecodeFails(lines: seq<seq<Token>>, k: nat)
    requires k < |lines| && DecodeLine(lines[k]).None?
    ensures Decode(lines).None?
    decreases |lines|
  {
    var init := lines[..|lines| - 1];
    if k < |init| {
      DecodeFails(init, k);
    }
  }

  /** iterate_oos_offsets: the numbers of the set bits. */
  predicate LongBit(w: Long, j: nat) {
    if j < 32 then Bit(w.lo, j) else Bit(w.hi, j - 32)
  }

  predicate BitOf(data: seq<Long>, b: nat) {
    b / 64 < |data| && LongBit(data[b / 64], b % 64)
  }

  predicate Increasing(s: seq<nat>) {
    forall i, j :: 0 <= i < j < |s| ==> s[i] < s[j]
  }

  /** offsets lists the set bits below limit, in increasing order. */
  ghost predicate ListsBits(offsets: seq<nat>, data: seq<Long>, limit: nat) {
    && Increasing(offsets)
    && (forall b: nat :: b in offsets <==> b < limit && BitOf(data, b))
  }

  lemma ListMore(offsets: seq<nat>, data: seq<Long>, limit: nat)
    requires ListsBits(offsets, data, limit)
    ensures ListsBits(if BitOf(data, limit) then offsets + [limit] else offsets, data, limit + 1)
  {
    var next := if BitOf(data, limit) then offsets + [limit] else offsets;
    forall i | 0 <= i < |offsets|
      ensures offsets[i] < limit
    {
      assert offsets[i] in offsets;
    }
    forall b: nat
      ensures b in next <==> b < limit + 1 && BitOf(data, b)
    {
    }
  }

  lemma SkipZero(offsets: seq<nat>, data: seq<Long>, k: nat)
    requires k < |data| && ListsBits(offsets, data, 64 * k) && forall j :: 0 <= j < 64 ==> !LongBit(data[k], j)
    ensures ListsBits(offsets, data, 64 * k + 64)
  {
    forall b: nat | 64 * k <= b < 64 * k + 64
      ensures !BitOf(data, b)
    {
      assert b / 64 == k;
    }
  }

  method IterateOosOffsets(data: seq<Long>) returns (offsets: seq<nat>)
    ensures ListsBits(offsets, data, 64 * |data|)
  {
    hide ListsBits, BitOf;
    offsets := [];
    NoBits(data);
    for k := 0 to |data|
      invariant ListsBits(offsets, data, 64 * k)
    {
      if forall j :: 0 <= j < 64 ==> !LongBit(data[k], j) {
        SkipZero(offsets, data, k);
      } else {
        for j := 0 to 64
          invariant ListsBits(offsets, data, 64 * k + j)
        {
          ListMore(offsets, data, 64 * k + j);
          BitNumber(data, k, j);
          if LongBit(data[k], j) {
            offsets := offsets + [64 * k + j];
          }
        }
      }
    }
  }

  lemma NoBits(data: seq<Long>)
    ensures ListsBits([], data, 0)
  {
  }

  lemma BitNumber(data: seq<Long>, k: nat, j: nat)
    requires k < |data| && j < 64
    ensures BitOf(data, 64 * k + j) <==> LongBit(data[k], j)
  {
  }

  // ---- what it makes of one line ----

  /** Words from runs, and words from single tokens, are all there are. */
  lemma {:induction false} PickedBoth(line: seq<Token>)
    requires forall k :: 0 <= k < |line| ==> !line[k].Eol?
    ensures |Picked(line, true)| + |Picked(line, false)| == |Expand(line)|
    ensures Picked(line, false) == [] ==> Picked(line, true) == Expand(line)
    ensures Picked(line, true) == [] ==> Picked(line, false) == Expand(line)
  {
    hide Words;
    if line != [] {
      var init := line[..|line| - 1];
      PickedBoth(init);
    }
  }

  lemma {:induction false} PickedAny(line: seq<Token>)
    requires forall k :: 0 <= k < |line| ==> Words(line[k]) != []
    ensures Picked(line, true) != [] <==> HasRun(line)
    ensures Picked(line, false) != [] <==> HasSingle(line)
  {
    hide Words;
    if line != [] {
      hide HasRun, HasSingle;
      var init, t := line[..|line| - 1], line[|line| - 1];
      PickedAny(init);
      KindsMore(init, t);
      assert line == init + [t] && Words(t) != [];
      assert |Picked(line, true)| == |Picked(init, true)| + if t.Times? then |Words(t)| else 0;
      assert |Picked(line, false)| == |Picked(init, false)| + if t.One? then |Words(t)| else 0;
    }
  }

  lemma KindsMore(init: seq<Token>, t: Token)
    ensures HasRun(init + [t]) <==> HasRun(init) || t.Times?
    ensures HasSingle(init + [t]) <==> HasSingle(init) || t.One?
  {
    var line := init + [t];
    assert line[|init|] == t;
    assert forall k :: 0 <= k < |init| ==> line[k] == init[k];
  }

  /** A line decodes to all its words exactly if it has any, and not both runs and single words; if it has both, the
      single words are lost. */
  lemma DecodesLineExactly(line: seq<Token>)
    requires forall k :: 0 <= k < |line| ==> !line[k].Eol? && Words(line[k]) != []
    ensures DecodeLine(line) == Some(Expand(line))
            <==> line != [] && !((exists k :: 0 <= k < |line| && line[k].Times?)
                                 && exists k :: 0 <= k < |line| && line[k].One?)
    ensures (exists k :: 0 <= k < |line| && line[k].Times?) ==> DecodeLine(line) == Some(Picked(line, true))
    ensures line == [] <==> DecodeLine(line).None?
  {
    PickedBoth(line);
    PickedAny(line);
    if line != [] {
      assert line[0].Times? || line[0].One?;
    }
  }

  /** For instance a word behind a run. */
  lemma WordBehindRun(count: nat, word: Long, other: Long)
    ensures DecodeLine([Times(count, word), One(other)]) == Some(Repeated(count, word))
    ensures DecodeLine([One(other), Times(count, word)]) == Some(Repeated(count, word))
  {
    var a, b := [Times(count, word), One(other)], [One(other), Times(count, word)];
    assert a[0].Times? && b[1].Times?;
    assert a[..1] == [Times(count, word)] && a[..1][..0] == [] && b[..1] == [One(other)] && b[..1][..0] == [];
    assert [] + Repeated(count, word) == Repeated(count, word) == Repeated(count, word) + [];
    assert Picked(a[..1], true) == Repeated(count, word);
    assert Picked(b[..1], true) == [];
    assert Picked(a, true) == Repeated(count, word) && Picked(b, true) == Repeated(count, word);
  }

  // ---- what it makes of a regular dump ----

  /** What the lines of a dump hold, by the layout of its last line. */
  ghost predicate Regular(out: seq<Token>) {
    var ls := Lines(out);
    var line := ls[|ls| - 1];
    match LayoutOf(out)
    case Header => |ls| == 1 && line == [] && Expand(out) == []
    case Blank => |ls| > 1 && line == [] && Decode(ls[1..|ls| - 1]) == Some(Expand(out))
    case Singles => |ls| > 1 && !HasRun(line) && HasSingle(line) && Decode(ls[1..]) == Some(Expand(out))
    case Run => |ls| > 1 && Decode(ls[1..]) == Some(Expand(out))
    case Irregular => true
  }

  lemma DecodeSnoc(lines: seq<seq<Token>>, line: seq<Token>)
    ensures Decode(lines + [line]) == match (Decode(lines), DecodeLine(line))
                                      case (Some(a), Some(b)) => Some(a + b)
                                      case _ => None
  {
    assert (lines + [line])[..|lines|] == lines;
  }

  lemma PickedSnoc(line: seq<Token>, t: Token, runs: bool)
    ensures Picked(line + [t], runs)
        == Picked(line, runs) + if (runs && t.Times?) || (!runs && t.One?) then Words(t) else []
  {
    assert (line + [t])[..|line|] == line;
  }

  lemma StartLine(ls: seq<seq<Token>>)
    requires |ls| > 0
    ensures (ls + [[]])[1..|ls|] == ls[1..]
  {
  }

  lemma RegularEol(out: seq<Token>, t: Token)
    requires Regular(out) && t.Eol? && !LayoutOf(out + [t]).Irregular?
    ensures Regular(out + [t])
  {
    LayoutMore(out, t);
    ExpandMore(out, t);
    assert (out + [t])[..|out|] == out;
    var ls := Lines(out);
    assert Lines(out + [t]) == ls + [[]];
    StartLine(ls);
    assert Expand(out) + [] == Expand(out);
  }

  /** Appending t to the last of the lines. */
  lemma LinesMore(out: seq<Token>, t: Token)
    requires !t.Eol?
    ensures var ls := Lines(out); Lines(out + [t]) == ls[..|ls| - 1] + [ls[|ls| - 1] + [t]]
  {
    assert (out + [t])[..|out|] == out;
  }

  /** Decoding all lines after the first but the last, and then the last one. */
  lemma DecodeLast(ls: seq<seq<Token>>, line: seq<Token>)
    requires |ls| > 1
    ensures Decode((ls[..|ls| - 1] + [line])[1..]) == match (Decode(ls[1..|ls| - 1]), DecodeLine(line))
                                                      case (Some(a), Some(b)) => Some(a + b)
                                                      case _ => None
  {
    assert (ls[..|ls| - 1] + [line])[1..] == ls[1..|ls| - 1] + [line];
    DecodeSnoc(ls[1..|ls| - 1], line);
  }

  lemma RegularRun(out: seq<Token>, t: Token)
    requires Regular(out) && t.Times? && LayoutOf(out).Blank?
    ensures Regular(out + [t])
  {
    hide Decode, Picked, Expand, LayoutOf, Lines, HasRun, HasSingle;
    LayoutMore(out, t);
    ExpandMore(out, t);
    LinesMore(out, t);
    var ls := Lines(out);
    assert ls[|ls| - 1] + [t] == [t];
    DecodeLast(ls, [t]);
    RunLine(t);
  }

  lemma RegularSingle(out: seq<Token>, t: Token)
    requires Regular(out) && t.One? && (LayoutOf(out).Blank? || LayoutOf(out).Singles?)
    ensures Regular(out + [t])
  {
    hide Decode, Picked, Expand, LayoutOf, Lines, HasRun, HasSingle;
    LayoutMore(out, t);
    ExpandMore(out, t);
    LinesMore(out, t);
    var ls := Lines(out);
    var line := ls[|ls| - 1];
    SingleLine(line, t);
    DecodeLast(ls, line + [t]);
    PickedSnoc(line, t, false);
    var before := Decode(ls[1..|ls| - 1]);
    if LayoutOf(out).Blank? {
      PickedNothing();
      assert [] + Words(t) == Words(t);
    } else {
      DecodeLast(ls, line);
      assert ls == ls[..|ls| - 1] + [line];
      assert before.value + Picked(line, false) + Words(t) == before.value + (Picked(line, false) + Words(t));
    }
  }

  lemma PickedNothing()
    ensures Picked([], true) == [] && Picked([], false) == []
  {
  }

  lemma RunLine(t: Token)
    requires t.Times?
    ensures HasRun([t]) && DecodeLine([t]) == Some(Words(t))
  {
    assert [t][0].Times?;
    PickedNothing();
    PickedSnoc([], t, true);
    assert [] + [t] == [t] && [] + Words(t) == Words(t);
  }

  lemma SingleLine(line: seq<Token>, t: Token)
    requires t.One? && (line == [] || !HasRun(line))
    ensures !HasRun(line + [t]) && HasSingle(line + [t])
  {
    assert (line + [t])[|line|] == t;
  }

  lemma {:induction false} RegularDump(out: seq<Token>)
    requires !LayoutOf(out).Irregular?
    ensures Regular(out)
  {
    if out != [] {
      var init, t := out[..|out| - 1], out[|out| - 1];
      RegularDump(init);
      assert out == init + [t];
      if t.Eol? {
        RegularEol(init, t);
      } else if t.Times? {
        LayoutMore(init, t);
        RegularRun(init, t);
      } else {
        LayoutMore(init, t);
        RegularSingle(init, t);
      }
    }
  }

  /** A regular dump decodes to its words, unless its last line is blank. */
  lemma DecodesDump(out: seq<Token>)
    requires !LayoutOf(out).Irregular?
    ensures Decode(Lines(out)[1..]) == if LayoutOf(out).Blank? then None else Some(Expand(out))
  {
    RegularDump(out);
    var ls := Lines(out);
    if LayoutOf(out).Blank? {
      DecodeFails(ls[1..], |ls| - 2);
    }
  }

  /** Bit b of slot p is set in the interleaved bitmap. */
  predicate OutOfSync(disk: seq<Word>, peers: nat, p: nat, b: nat) {
    WordIndex(peers, p, b) < |disk| && BitAt(disk, peers, p, b)
  }

  /** Bit b of a slot, in the 64-bit words of its dump and in the interleaved bitmap. */
  lemma BitsAgree(disk: seq<Word>, peers: nat, p: nat, b: nat)
    requires p < peers && b < 64 * (|Slot(disk, peers, p)| / 2)
    ensures BitOf(Longs(Slot(disk, peers, p), |Slot(disk, peers, p)| / 2), b) <==> OutOfSync(disk, peers, p, b)
  {
    hide BitAt;
    var slot := Slot(disk, peers, p);
    SlotIndex(|disk|, peers, p, b / 32);
    assert slot[b / 32] == disk[WordIndex(peers, p, b)];
    HalfBit(slot, b);
    assert BitAt(disk, peers, p, b) <==> Bit(slot[b / 32], b % 32) by {
      BitInWord(disk, peers, p, b);
    }
  }

  lemma BitInWord(disk: seq<Word>, peers: nat, p: nat, b: nat)
    requires WordIndex(peers, p, b) < |disk|
    ensures BitAt(disk, peers, p, b) <==> Bit(disk[WordIndex(peers, p, b)], b % 32)
  {
  }

  lemma HalfBit(slot: seq<Word>, b: nat)
    requires b < 64 * (|slot| / 2)
    ensures BitOf(Longs(slot, |slot| / 2), b) <==> Bit(slot[b / 32], b % 32)
  {
    if b % 64 < 32 {
      assert b / 32 == 2 * (b / 64) && b % 32 == b % 64;
    } else {
      assert b / 32 == 2 * (b / 64) + 1 && b % 32 == b % 64 - 32;
    }
  }

  /** offsets lists the bits of slot p that are set and whose 64-bit word is complete, in increasing order. */
  ghost predicate Reports(offsets: seq<nat>, disk: seq<Word>, peers: nat, p: nat)
    requires p < peers
  {
    && Increasing(offsets)
    && forall b: nat :: b in offsets <==> b < 64 * (SlotRows(|disk|, peers, p) / 2) && OutOfSync(disk, peers, p, b)
  }

  lemma OffsetsReport(offsets: seq<nat>, disk: seq<Word>, peers: nat, p: nat)
    requires p < peers
    requires var data := Longs(Slot(disk, peers, p), |Slot(disk, peers, p)| / 2); ListsBits(offsets, data, 64 * |data|)
    ensures Reports(offsets, disk, peers, p)
  {
    hide OutOfSync, BitOf;
    var data := Longs(Slot(disk, peers, p), |Slot(disk, peers, p)| / 2);
    forall b: nat | b < 64 * |data|
      ensures BitOf(data, b) <==> OutOfSync(disk, peers, p, b)
    {
      BitsAgree(disk, peers, p, b);
    }
  }

  /** Two decoders agree with one encoder: drbd-verify, reading what fprintf_bm prints for slot p, reports exactly the
      printed bits that are set in slot p of the bitmap on disk. It raises an exception instead exactly if the slot has
      one word more than a multiple of 8. */
  method PrintAndVerify(bitmap: array<Word>, buffer: array<Word>, peers: nat, p: nat, hardSect: nat)
    returns (r: Option<seq<nat>>)
    requires bitmap != buffer && bitmap.Length % 1024 == 0 && p < peers <= 32 && hardSect > 0 && 4096 % hardSect == 0
    requires 32 * 1024 <= buffer.Length
    modifies buffer
    ensures r.None? <==> SlotRows(|Counted(bitmap[..])|, peers, p) % 8 == 1
    ensures r.Some? ==> Reports(r.value, Counted(bitmap[..]), peers, p)
  {
    hide Reports, ListsBits, LayoutOf, Longs, Slot, Counted, SlotRows;
    var out, _ := PrintBitmap(bitmap, buffer, peers, p, hardSect);
    DecodesDump(out);
    var data := ParseBitmapForPeer(Lines(out)[1..]);
    if data.None? {
      return None;
    }
    var offsets := IterateOosOffsets(data.value);
    OffsetsReport(offsets, Counted(bitmap[..]), peers, p);
    return Some(offsets);
  }

  lemma RowsOfMultiple(q: nat, peers: nat, p: nat)
    requires p < peers
    ensures SlotRows(q * peers, peers, p) == q
  {
    if q > 0 {
      MulMonotone(1, q, peers);
      DivRange(q * peers - p - 1, peers, q - 1);
    }
  }

  lemma RowsOfBlocks(blocks: nat, rows: nat, peers: nat, p: nat)
    requires rows * peers == 1024 && rows % 8 == 0 && p < peers
    ensures SlotRows(blocks * 1024, peers, p) % 8 == 0
  {
    assert blocks * rows * peers == blocks * (rows * peers);
    RowsOfMultiple(blocks * rows, peers, p);
    assert blocks * rows == blocks * (rows / 8) * 8;
    MultipleMod(blocks * (rows / 8), 8);
  }

  /** A bitmap is whole blocks of 1024 words, so with a power of two of peers every slot is whole lines. */
  lemma PowerOfTwoPeers(n: nat, peers: nat, p: nat)
    requires n % 1024 == 0 && peers in {1, 2, 4, 8, 16, 32} && p < peers
    ensures SlotRows(n, peers, p) % 8 == 0
  {
    RowsOfBlocks(n / 1024, 1024 / peers, peers, p);
  }

  /** For instance, with seven peers the dump of a device of 60 MiB is not readable from its second slot on. */
  lemma UnreadableDump(p: nat)
    requires p < 7
    ensures BmBytes(4096, 7, 60 * 2048) / 4 == 4096
    ensures SlotRows(4096, 7, p) % 8 == 1 <==> p >= 1
  {
    DivRange(4096 - p - 1, 7, if p == 0 then 585 else 584);
  }
}
