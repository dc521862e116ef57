/** drbdmon's glob patterns: splitting a pattern at its asterisks, and greedy matching of the fragments. */
module GlobMatch {
  import opened Wrappers

  const PATTERN_LIMIT: nat := 20

  // ---- what a glob pattern means ----

  /** The part of the pattern from i on denotes the part of the text from j on. */
  ghost predicate Denotes(p: string, i: nat, t: string, j: nat)
    requires i <= |p| && j <= |t|
    decreases |p| - i, 0
  {
    if i == |p| then j == |t|
    else if p[i] == '*' then SomeDenotes(p, i + 1, t, j)
    else j < |t| && t[j] == p[i] && Denotes(p, i + 1, t, j + 1)
  }

  /** It denotes some end of the text. */
  ghost predicate SomeDenotes(p: string, i: nat, t: string, j: nat)
    requires i <= |p| && j <= |t|
    decreases |p| - i, 1
  {
    exists n :: j <= n <= |t| && Denotes(p, i, t, n)
  }

  predicate OccursAt(t: string, f: string, k: nat) {
    k + |f| <= |t| && forall x :: 0 <= x < |f| ==> t[k + x] == f[x]
  }

  /** The text from j on is the fragments in order, the first one at the start, the last one at the end, with anything
      in between them. */
  ghost predicate Glob(items: seq<string>, t: string, j: nat)
    requires j <= |t|
    decreases |items|, 0
  {
    if items == [] then false
    else if |items| == 1 then OccursAt(t, items[0], j) && j + |items[0]| == |t|
    else OccursAt(t, items[0], j) && SomeGlob(items[1..], t, j + |items[0]|)
  }

  ghost predicate SomeGlob(items: seq<string>, t: string, j: nat)
    requires j <= |t|
    decreases |items|, 1
  {
    exists n :: j <= n <= |t| && Glob(items, t, n)
  }

  // ---- splitting ----

  /** pattern.find('*', o), the length of the pattern if there is none. */
  function Star(p: string, o: nat): (r: nat)
    requires o <= |p|
    ensures o <= r <= |p| && (r < |p| ==> p[r] == '*') && forall x :: o <= x < r ==> p[x] != '*'
    decreases |p| - o
  {
    if o == |p| || p[o] == '*' then o else Star(p, o + 1)
  }

  /** The fragments from offset o on; empty ones are kept only at the start and at the end. */
  function Fragments(p: string, o: nat): (r: seq<string>)
    requires o <= |p|
    ensures r != []
    decreases |p| - o
  {
    var e := Star(p, o);
    var f := p[o..e];
    if e == |p| then [f]
    else (if f != "" || o == 0 then [f] else []) + Fragments(p, e + 1)
  }

  lemma KeptFragment(p: string, o: nat, list: seq<string>, list': seq<string>)
    requires o <= |p|
    requires var f := p[o..Star(p, o)]; list' == if |f| != 0 || o == 0 || o == |p| then list + [f] else list
    ensures Star(p, o) < |p| ==> list + Fragments(p, o) == list' + Fragments(p, Star(p, o) + 1)
    ensures Star(p, o) == |p| ==> list + Fragments(p, o) == list'
  {
    var (e, f) := (Star(p, o), p[o..Star(p, o)]);
    if e < |p| {
      var rest := Fragments(p, e + 1);
      assert list + ([f] + rest) == list + [f] + rest && list + ([] + rest) == list + rest;
    }
  }

  /** process_pattern; None stands for PatternLimitException. */
  method ProcessPattern(p: string) returns (r: Option<seq<string>>)
    ensures r == if |Fragments(p, 0)| > PATTERN_LIMIT then None else Some(Fragments(p, 0))
  {
    hide Fragments;
    var list: seq<string> := [];
    var offset: nat, more := 0, true;
    ghost var all := Fragments(p, 0);
    assert [] + all == all;
    while more
      invariant offset <= |p| && |list| <= PATTERN_LIMIT
      invariant all == if more then list + Fragments(p, offset) else list
      decreases more, |p| - offset
    {
      var split := Star(p, offset);
      var fragment, list' := p[offset..split], list;
      if |fragment| != 0 || offset == 0 || offset == |p| {
        list' := list + [fragment];
      }
      KeptFragment(p, offset, list, list');
      if |list'| > PATTERN_LIMIT {
        return None;
      }
      list := list';
      more := split != |p|;
      if more {
        offset := split + 1;
      }
    }
    return Some(list);
  }

  // ---- splitting keeps the meaning ----

  lemma {:induction false} LiteralRun(p: string, o: nat, e: nat, t: string, j: nat)
    requires o <= e <= |p| && j <= |t| && forall x :: o <= x < e ==> p[x] != '*'
    ensures Denotes(p, o, t, j) <==> OccursAt(t, p[o..e], j) && Denotes(p, e, t, j + (e - o))
    decreases e - o
  {
    if o < e {
      if j < |t| && t[j] == p[o] {
        LiteralRun(p, o + 1, e, t, j + 1);
        assert p[o..e] == [p[o]] + p[o + 1..e];
        assert OccursAt(t, p[o..e], j) <==> OccursAt(t, p[o + 1..e], j + 1) by {
          OccursCons(t, p[o], p[o + 1..e], j);
        }
      } else {
        NotHere(t, p[o..e], j);
      }
    }
  }

  lemma OccursCons(t: string, c: char, f: string, j: nat)
    requires j < |t| && t[j] == c
    ensures OccursAt(t, [c] + f, j) <==> OccursAt(t, f, j + 1)
  {
    if OccursAt(t, [c] + f, j) {
      forall x | 0 <= x < |f|
        ensures t[j + 1 + x] == f[x]
      {
        assert ([c] + f)[x + 1] == f[x];
        assert t[j + (x + 1)] == ([c] + f)[x + 1];
      }
    }
    if OccursAt(t, f, j + 1) {
      forall x | 0 <= x < |[c] + f|
        ensures t[j + x] == ([c] + f)[x]
      {
        if x > 0 {
          assert t[j + 1 + (x - 1)] == f[x - 1];
        }
      }
    }
  }

  lemma NotHere(t: string, f: string, j: nat)
    requires f != "" && j <= |t| && (j == |t| || t[j] != f[0])
    ensures !OccursAt(t, f, j)
  {
    if j < |t| && j + |f| <= |t| {
      assert t[j + 0] != f[0];
    }
  }

  /** One fragment, up to the next asterisk or to the end. */
  lemma DenotesFragment(p: string, o: nat, t: string, j: nat)
    requires o <= |p| && j <= |t|
    ensures var (e, f) := (Star(p, o), p[o..Star(p, o)]);
            Denotes(p, o, t, j) <==>
            OccursAt(t, f, j) && if e == |p| then j + |f| == |t| else SomeDenotes(p, e + 1, t, j + |f|)
  {
    LiteralRun(p, o, Star(p, o), t, j);
  }

  /** Behind an asterisk, the fragments match as the pattern does, although empty fragments are dropped. */
  lemma {:induction false} SomeFragments(p: string, o: nat, t: string, j: nat)
    requires 0 < o <= |p| && j <= |t|
    ensures SomeDenotes(p, o, t, j) <==> SomeGlob(Fragments(p, o), t, j)
    decreases |p| - o
  {
    var (e, f) := (Star(p, o), p[o..Star(p, o)]);
    if e < |p| && f == "" {
      SomeFragments(p, e + 1, t, j);
      TwoAsterisks(p, o, t, j);
      assert [] + Fragments(p, e + 1) == Fragments(p, e + 1);
    } else {
      forall n | j <= n <= |t|
        ensures Denotes(p, o, t, n) <==> Glob(Fragments(p, o), t, n)
      {
        KeptDenotes(p, o, t, n);
      }
    }
  }

  lemma KeptDenotes(p: string, o: nat, t: string, n: nat)
    requires o <= |p| && n <= |t| && (Star(p, o) == |p| || p[o..Star(p, o)] != "" || o == 0)
    ensures Denotes(p, o, t, n) <==> Glob(Fragments(p, o), t, n)
    decreases |p| - o, 0
  {
    hide Denotes, SomeDenotes, SomeGlob;
    var (e, f) := (Star(p, o), p[o..Star(p, o)]);
    DenotesFragment(p, o, t, n);
    if e < |p| {
      var rest := Fragments(p, e + 1);
      assert Fragments(p, o) == [f] + rest && ([f] + rest)[1..] == rest;
      if OccursAt(t, f, n) {
        SomeFragments(p, e + 1, t, n + |f|);
      }
    }
  }

  /** Two asterisks in a row are one. */
  lemma TwoAsterisks(p: string, o: nat, t: string, j: nat)
    requires o < |p| && p[o] == '*' && j <= |t|
    ensures SomeDenotes(p, o, t, j) <==> SomeDenotes(p, o + 1, t, j)
  {
    if SomeDenotes(p, o + 1, t, j) {
      assert Denotes(p, o, t, j);
    }
    if SomeDenotes(p, o, t, j) {
      var n := Witness(p, o, t, j);
      var m := Witness(p, o + 1, t, n);
    }
  }

  lemma Witness(p: string, o: nat, t: string, j: nat) returns (n: nat)
    requires o <= |p| && j <= |t| && SomeDenotes(p, o, t, j)
    ensures j <= n <= |t| && Denotes(p, o, t, n)
  {
    n :| j <= n <= |t| && Denotes(p, o, t, n);
  }

  /** Splitting keeps the meaning of a pattern. */
  lemma FragmentsMeanPattern(p: string, t: string)
    ensures Denotes(p, 0, t, 0) <==> Glob(Fragments(p, 0), t, 0)
  {
    KeptDenotes(p, 0, t, 0);
  }

  // ---- matching ----

  /** text.find(f, o) */
  function Find(t: string, f: string, o: nat): (r: Option<nat>)
    requires o <= |t|
    ensures r.Some? ==> o <= r.value && OccursAt(t, f, r.value)
    ensures forall i :: o <= i && (r.Some? ==> i < r.value) ==> !OccursAt(t, f, i)
    decreases |t| - o
  {
    if OccursAt(t, f, o) then Some(o)
    else if o == |t| then None
    else Find(t, f, o + 1)
  }

  /** text.rfind(f), looking for places up to o */
  function FindLast(t: string, f: string, o: nat): (r: Option<nat>)
    ensures r.Some? ==> r.value <= o && OccursAt(t, f, r.value)
    ensures forall i :: 0 <= i <= o && (r.Some? ==> i > r.value) ==> !OccursAt(t, f, i)
  {
    if OccursAt(t, f, o) then Some(o)
    else if o == 0 then None
    else FindLast(t, f, o - 1)
  }

  predicate IsSuffix(t: string, f: string) {
    |f| <= |t| && OccursAt(t, f, |t| - |f|)
  }

  /** The end of the last of the fragments, each placed as early as possible behind the one before. */
  function Place(fs: seq<string>, t: string, o: nat): (r: Option<nat>)
    requires o <= |t|
    ensures r.Some? ==> o <= r.value <= |t|
  {
    if fs == [] then Some(o)
    else
      match Find(t, fs[0], o)
      case None => None
      case Some(i) => Place(fs[1..], t, i + |fs[0]|)
  }

  /** What match_text accepts from item k on, with the cursor at o. */
  predicate AcceptsFrom(items: seq<string>, k: nat, t: string, o: nat)
    requires 0 < k < |items| && o <= |t|
    decreases |items| - k
  {
    if k == |items| - 1 then IsSuffix(t, items[k])
    else
      match Find(t, items[k], o)
      case None => false
      case Some(i) => AcceptsFrom(items, k + 1, t, i + |items[k]|)
  }

  predicate Accepts(items: seq<string>, t: string) {
    if items == [] then true
    else if |items| == 1 then t == items[0]
    else OccursAt(t, items[0], 0) && AcceptsFrom(items, 1, t, |items[0]|)
  }

  /** match_text */
  method MatchText(t: string, items: seq<string>) returns (matched: bool)
    ensures matched == Accepts(items, t)
  {
    matched := true;
    var k, offset: nat, anchorStart := 0, 0, true;
    while matched && k < |items|
      invariant k <= |items| && offset <= |t| && (anchorStart <==> k == 0) && (k == 0 ==> offset == 0)
      invariant 0 < k < |items| && matched ==> (Accepts(items, t) <==> AcceptsFrom(items, k, t, offset))
      invariant k == |items| && matched ==> Accepts(items, t)
      invariant !matched ==> !Accepts(items, t)
      decreases matched, |items| - k
    {
      var item, anchorEnd := items[k], k + 1 == |items|;
      var idx := if anchorEnd then FindLast(t, item, |t|) else Find(t, item, offset);
      AtBothEnds(t, item);
      matched := idx.Some? && (!anchorStart || idx.value == 0) && (!anchorEnd || idx.value == |t| - |item|);
      if matched {
        offset, anchorStart, k := idx.value + |item|, false, k + 1;
      }
    }
  }

  lemma AtBothEnds(t: string, f: string)
    ensures OccursAt(t, f, 0) && |f| == |t| <==> t == f
    ensures forall i :: 0 <= i <= |t| && OccursAt(t, f, i) ==> i <= |t| - |f|
  {
    if OccursAt(t, f, 0) && |f| == |t| {
      forall x | 0 <= x < |t|
        ensures t[x] == f[x]
      {
        assert t[0 + x] == f[x];
      }
    }
  }

  // ---- what is accepted, and what should be ----

  /** The fragments can be placed disjointly, in order, between o and e. */
  ghost predicate Fits(fs: seq<string>, t: string, o: nat, e: nat) {
    if fs == [] then o <= e
    else exists i: nat :: o <= i && OccursAt(t, fs[0], i) && Fits(fs[1..], t, i + |fs[0]|, e)
  }

  lemma {:induction false} FitsEarlier(fs: seq<string>, t: string, o: nat, o': nat, e: nat)
    requires o' <= o && Fits(fs, t, o, e)
    ensures Fits(fs, t, o', e)
  {
  }

  /** Placing each fragment as early as possible leaves the most room for the others. */
  lemma {:induction false} GreedyFits(fs: seq<string>, t: string, o: nat, e: nat)
    requires o <= |t|
    ensures Fits(fs, t, o, e) <==> Place(fs, t, o).Some? && Place(fs, t, o).value <= e
  {
    if fs != [] {
      var first := Find(t, fs[0], o);
      if first.Some? {
        GreedyFits(fs[1..], t, first.value + |fs[0]|, e);
      }
      if Fits(fs, t, o, e) {
        var i: nat :| o <= i && OccursAt(t, fs[0], i) && Fits(fs[1..], t, i + |fs[0]|, e);
        FitsEarlier(fs[1..], t, i + |fs[0]|, first.value + |fs[0]|, e);
      }
    }
  }

  function Middle(items: seq<string>, k: nat): seq<string>
    requires k < |items|
  {
    items[k..|items| - 1]
  }

  lemma {:induction false} AcceptsPlaces(items: seq<string>, k: nat, t: string, o: nat)
    requires 0 < k < |items| && o <= |t|
    ensures AcceptsFrom(items, k, t, o) <==> Place(Middle(items, k), t, o).Some? && IsSuffix(t, items[|items| - 1])
    decreases |items| - k
  {
    if k < |items| - 1 {
      assert Middle(items, k)[1..] == Middle(items, k + 1);
      var first := Find(t, items[k], o);
      if first.Some? {
        AcceptsPlaces(items, k + 1, t, first.value + |items[k]|);
      }
    }
  }

  lemma {:induction false} GlobFits(items: seq<string>, t: string, o: nat)
    requires items != [] && o <= |t|
    ensures SomeGlob(items, t, o) <==>
            var last := items[|items| - 1];
            IsSuffix(t, last) && Fits(Middle(items, 0), t, o, |t| - |last|)
  {
    var last := items[|items| - 1];
    if |items| == 1 {
      if IsSuffix(t, last) && o <= |t| - |last| {
        assert Glob(items, t, |t| - |last|);
      }
    } else {
      assert Middle(items, 0)[1..] == Middle(items[1..], 0) && items[1..][|items| - 2] == last;
      forall i: nat | o <= i <= |t| && OccursAt(t, items[0], i)
        ensures Glob(items, t, i) <==> IsSuffix(t, last) && Fits(Middle(items, 0)[1..], t, i + |items[0]|, |t| - |last|)
      {
        GlobFits(items[1..], t, i + |items[0]|);
      }
      if SomeGlob(items, t, o) {
        var i := GlobWitness(items, t, o);
        assert OccursAt(t, items[0], i);
      }
    }
  }

  lemma GlobWitness(items: seq<string>, t: string, o: nat) returns (i: nat)
    requires o <= |t| && SomeGlob(items, t, o)
    ensures o <= i <= |t| && Glob(items, t, i)
  {
    i :| o <= i <= |t| && Glob(items, t, i);
  }

  /** With two or more fragments, a text is accepted exactly if all but the last can be placed disjointly and in order,
      the first one at the start, and the last is a suffix. The suffix may overlap with the others. */
  lemma AcceptsExactly(items: seq<string>, t: string)
    requires |items| >= 2
    ensures Accepts(items, t) <==>
            OccursAt(t, items[0], 0) && Fits(Middle(items, 1), t, |items[0]|, |t|) && IsSuffix(t, items[|items| - 1])
  {
    if OccursAt(t, items[0], 0) {
      AcceptsPlaces(items, 1, t, |items[0]|);
      GreedyFits(Middle(items, 1), t, |items[0]|, |t|);
    }
  }

  /** The last fragment starts at or behind the place where the others end. */
  predicate SuffixIsClear(items: seq<string>, t: string)
    requires Accepts(items, t)
  {
    |items| >= 2 ==>
      (AcceptsPlaces(items, 1, t, |items[0]|);
       Place(Middle(items, 1), t, |items[0]|).value <= |t| - |items[|items| - 1]|)
  }

  /** A text that the fragments mean is accepted, and an accepted text is one exactly if the suffix is clear. */
  lemma GlobExactly(items: seq<string>, t: string)
    requires items != []
    ensures Glob(items, t, 0) <==> Accepts(items, t) && SuffixIsClear(items, t)
  {
    if |items| == 1 {
      AtBothEnds(t, items[0]);
    } else if OccursAt(t, items[0], 0) {
      var last := items[|items| - 1];
      assert Middle(items[1..], 0) == Middle(items, 1) && items[1..][|items| - 2] == last;
      GlobFits(items[1..], t, |items[0]|);
      AcceptsPlaces(items, 1, t, |items[0]|);
      if IsSuffix(t, last) {
        GreedyFits(Middle(items, 1), t, |items[0]|, |t| - |last|);
      }
    }
  }

  /** The same for patterns. */
  lemma PatternExactly(p: string, t: string)
    ensures Denotes(p, 0, t, 0) <==> Accepts(Fragments(p, 0), t) && SuffixIsClear(Fragments(p, 0), t)
  {
    FragmentsMeanPattern(p, t);
    GlobExactly(Fragments(p, 0), t);
  }

  /** With one asterisk, an accepted text is wrong exactly if it is shorter than the two fragments together. */
  lemma OneAsterisk(f: string, g: string, t: string)
    ensures Accepts([f, g], t) ==> (Glob([f, g], t, 0) <==> |f| + |g| <= |t|)
  {
    if Accepts([f, g], t) {
      GlobExactly([f, g], t);
      assert Middle([f, g], 1) == [];
    }
  }

  /** For instance, the pattern ab*b matches ab. */
  lemma OverlapAccepted()
    ensures Accepts(Fragments("ab*b", 0), "ab") && !Denotes("ab*b", 0, "ab", 0)
  {
    var p := "ab*b";
    assert Star(p, 0) == 2 && Star(p, 3) == 4;
    assert p[0..2] == "ab" && p[3..4] == "b";
    assert Fragments(p, 0) == ["ab", "b"];
    assert OccursAt("ab", "ab", 0) && OccursAt("ab", "b", 1);
    FragmentsMeanPattern(p, "ab");
    OneAsterisk("ab", "b", "ab");
  }
}
