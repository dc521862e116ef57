/** drbd-verify's determine_datasets: grouping nodes by pairs without out-of-sync data. */
module Datasets {
  import opened Wrappers

  datatype Node = Node(name: string)

  /** KiB out of sync, by the set of the two nodes compared. */
  type OosResults = map<set<Node>, int>

  // ---- the relation ----

  /** Two nodes were compared and nothing was out of sync. */
  predicate Linked(oos: OosResults, a: Node, b: Node) {
    a != b && {a, b} in oos && oos[{a, b}] == 0
  }

  predicate Chain(oos: OosResults, p: seq<Node>) {
    |p| > 0 && forall i :: 0 <= i < |p| - 1 ==> Linked(oos, p[i], p[i + 1])
  }

  /** The reflexive and transitive closure. */
  ghost predicate Connected(oos: OosResults, a: Node, b: Node) {
    exists p :: Chain(oos, p) && p[0] == a && p[|p| - 1] == b
  }

  lemma ConnectedSelf(oos: OosResults, a: Node)
    ensures Connected(oos, a, a)
  {
    assert Chain(oos, [a]);
  }

  lemma ConnectedStep(oos: OosResults, a: Node, b: Node, c: Node)
    requires Connected(oos, a, b) && Linked(oos, b, c)
    ensures Connected(oos, a, c)
  {
    var p :| Chain(oos, p) && p[0] == a && p[|p| - 1] == b;
    var q := p + [c];
    forall i | 0 <= i < |q| - 1
      ensures Linked(oos, q[i], q[i + 1])
    {
      assert i < |p| - 1 ==> Linked(oos, p[i], p[i + 1]);
    }
    assert Chain(oos, q);
  }

  lemma ChainPrefix(oos: OosResults, p: seq<Node>)
    requires Chain(oos, p) && |p| > 1
    ensures Chain(oos, p[..|p| - 1])
  {
    var q := p[..|p| - 1];
    forall i | 0 <= i < |q| - 1
      ensures Linked(oos, q[i], q[i + 1])
    {
      assert Linked(oos, p[i], p[i + 1]);
    }
  }

  lemma {:induction false} ConnectedAlong(oos: OosResults, a: Node, p: seq<Node>)
    requires Chain(oos, p) && Connected(oos, a, p[0])
    ensures Connected(oos, a, p[|p| - 1])
  {
    if |p| > 1 {
      var q := p[..|p| - 1];
      ChainPrefix(oos, p);
      ConnectedAlong(oos, a, q);
      assert Linked(oos, p[|p| - 2], p[|p| - 2 + 1]);
      ConnectedStep(oos, a, q[|q| - 1], p[|p| - 1]);
    }
  }

  lemma ConnectedTransitive(oos: OosResults, a: Node, b: Node, c: Node)
    requires Connected(oos, a, b) && Connected(oos, b, c)
    ensures Connected(oos, a, c)
  {
    var p :| Chain(oos, p) && p[0] == b && p[|p| - 1] == c;
    ConnectedAlong(oos, a, p);
  }

  lemma ConnectedSymmetric(oos: OosResults, a: Node, b: Node)
    requires Connected(oos, a, b)
    ensures Connected(oos, b, a)
  {
    var p :| Chain(oos, p) && p[0] == a && p[|p| - 1] == b;
    var q := seq(|p|, i requires 0 <= i < |p| => p[|p| - 1 - i]);
    forall i | 0 <= i < |q| - 1
      ensures Linked(oos, q[i], q[i + 1])
    {
      assert Linked(oos, p[|p| - 2 - i], p[|p| - 2 - i + 1]);
      assert {q[i], q[i + 1]} == {p[|p| - 2 - i], p[|p| - 1 - i]};
    }
    assert Chain(oos, q);
  }

  // ---- grouping ----

  /** same[n] is a set of nodes for each node: they are classes, each within a component. */
  ghost predicate Classes(same: map<Node, set<Node>>, nodes: set<Node>) {
    && same.Keys == nodes
    && (forall n :: n in nodes ==> n in same[n] && same[n] <= nodes)
    && forall n, m :: n in nodes && m in same[n] ==> same[m] == same[n]
  }

  ghost predicate Sound(same: map<Node, set<Node>>, oos: OosResults) {
    forall n, m :: n in same && m in same[n] ==> Connected(oos, n, m)
  }

  lemma MergeSound(same: map<Node, set<Node>>, nodes: set<Node>, oos: OosResults, a: Node, b: Node)
    requires Classes(same, nodes) && Sound(same, oos) && a in nodes && b in nodes && Linked(oos, a, b)
    ensures forall n, m :: n in same[a] + same[b] && m in same[a] + same[b] ==> Connected(oos, n, m)
  {
    forall n | n in same[a] + same[b]
      ensures Connected(oos, a, n) && Connected(oos, n, a)
    {
      if n !in same[a] {
        ConnectedSelf(oos, a);
        ConnectedStep(oos, a, a, b);
        ConnectedTransitive(oos, a, b, n);
      }
      ConnectedSymmetric(oos, a, n);
    }
    forall n, m | n in same[a] + same[b] && m in same[a] + same[b]
      ensures Connected(oos, n, m)
    {
      ConnectedTransitive(oos, n, a, m);
    }
  }

  /** All members of the united class now refer to it. */
  method AssignAll(same: map<Node, set<Node>>, combined: set<Node>) returns (same': map<Node, set<Node>>)
    requires combined <= same.Keys
    ensures same'.Keys == same.Keys
    ensures forall n :: n in same ==> same'[n] == if n in combined then combined else same[n]
  {
    same' := same;
    var rest := combined;
    while rest != {}
      invariant rest <= combined && same'.Keys == same.Keys
      invariant forall n :: n in same ==> same'[n] == if n in combined - rest then combined else same[n]
      decreases |rest|
    {
      var n :| n in rest;
      same' := same'[n := combined];
      rest := rest - {n};
    }
  }

  /** The code looks up both nodes of such a pair. */
  ghost predicate NodesKnown(oos: OosResults, nodes: set<Node>) {
    forall pair :: pair in oos && oos[pair] == 0 && |pair| == 2 ==> pair <= nodes
  }

  lemma PairOf(pair: set<Node>, a: Node, b: Node)
    requires |pair| == 2 && a in pair && b in pair && a != b
    ensures pair == {a, b}
  {
    assert |pair - {a} - {b}| == 0;
    assert pair == pair - {a} - {b} + {a, b};
  }

  lemma TwoOf(pair: set<Node>, a: Node)
    requires |pair| == 2 && a in pair
    ensures pair - {a} != {}
  {
    assert |pair - {a}| == 1;
  }

  lemma LinkedBy(oos: OosResults, a: Node, b: Node)
    requires a != b && {a, b} in oos && oos[{a, b}] == 0
    ensures Linked(oos, a, b)
  {
  }

  /** The pairs looked at so far no longer separate their nodes. */
  ghost predicate Joined(same: map<Node, set<Node>>, oos: OosResults, rest: set<set<Node>>) {
    forall a, b :: Linked(oos, a, b) && {a, b} !in rest ==> a in same && b in same && same[a] == same[b]
  }

  /** The loop over all pairs, in whatever order. */
  method GroupNodes(oos: OosResults, nodes: set<Node>) returns (same: map<Node, set<Node>>)
    requires NodesKnown(oos, nodes)
    ensures Classes(same, nodes) && Sound(same, oos) && Joined(same, oos, {})
  {
    same := map n | n in nodes :: {n};
    OnlySelf(same, nodes, oos);
    hide Classes, Sound, Joined, Linked;
    var rest := oos.Keys;
    while rest != {}
      invariant rest <= oos.Keys && Classes(same, nodes) && Sound(same, oos) && Joined(same, oos, rest)
      decreases |rest|
    {
      var pair :| pair in rest;
      assert rest == rest - {pair} + {pair};
      rest := rest - {pair};
      if oos[pair] == 0 && |pair| == 2 {
        var a :| a in pair;
        TwoOf(pair, a);
        var b :| b in pair - {a};
        PairOf(pair, a, b);
        LinkedBy(oos, a, b);
        KnownClasses(same, nodes, a);
        KnownClasses(same, nodes, b);
        ghost var before := same;
        same := AssignAll(same, same[a] + same[b]);
        Merged(before, same, nodes, oos, a, b, rest);
      } else {
        Irrelevant(same, oos, pair, rest);
      }
    }
  }

  lemma KnownClasses(same: map<Node, set<Node>>, nodes: set<Node>, a: Node)
    requires Classes(same, nodes) && a in nodes
    ensures a in same && same[a] <= same.Keys == nodes
  {
  }

  lemma Merged(before: map<Node, set<Node>>, same: map<Node, set<Node>>, nodes: set<Node>, oos: OosResults,
               a: Node, b: Node, rest: set<set<Node>>)
    requires Classes(before, nodes) && Sound(before, oos) && Joined(before, oos, rest + {{a, b}})
    requires a in nodes && b in nodes && Linked(oos, a, b) && same.Keys == nodes
    requires forall n :: n in nodes ==>
               same[n] == if n in before[a] + before[b] then before[a] + before[b] else before[n]
    ensures Classes(same, nodes) && Sound(same, oos) && Joined(same, oos, rest)
  {
    MergeSound(before, nodes, oos, a, b);
    MergedClasses(before, same, nodes, before[a], before[b]);
    MergedJoined(before, same, nodes, oos, a, b, rest);
  }

  lemma MergedClasses(before: map<Node, set<Node>>, same: map<Node, set<Node>>, nodes: set<Node>, left: set<Node>,
                      right: set<Node>)
    requires Classes(before, nodes) && same.Keys == nodes && left <= nodes && right <= nodes
    requires forall n :: n in left ==> before[n] == left
    requires forall n :: n in right ==> before[n] == right
    requires forall n :: n in nodes ==> same[n] == if n in left + right then left + right else before[n]
    ensures Classes(same, nodes)
  {
  }

  lemma MergedJoined(before: map<Node, set<Node>>, same: map<Node, set<Node>>, nodes: set<Node>, oos: OosResults,
                     a: Node, b: Node, rest: set<set<Node>>)
    requires Classes(before, nodes) && Joined(before, oos, rest + {{a, b}}) && a in nodes && b in nodes
        && same.Keys == nodes
    requires forall n :: n in nodes ==>
               same[n] == if n in before[a] + before[b] then before[a] + before[b] else before[n]
    ensures Joined(same, oos, rest)
  {
    hide Linked;
    forall c, d | Linked(oos, c, d) && {c, d} !in rest
      ensures c in same && d in same && same[c] == same[d]
    {
      if {c, d} == {a, b} {
        assert c in {a, b} && d in {a, b};
      } else {
        assert before[c] == before[d] && c in before[c] && d in before[d];
      }
    }
  }

  lemma OnlySelf(same: map<Node, set<Node>>, nodes: set<Node>, oos: OosResults)
    requires same.Keys == nodes && forall n :: n in nodes ==> same[n] == {n}
    ensures Classes(same, nodes) && Sound(same, oos) && Joined(same, oos, oos.Keys)
  {
    forall n | n in same
      ensures Connected(oos, n, n)
    {
      ConnectedSelf(oos, n);
    }
  }

  lemma Irrelevant(same: map<Node, set<Node>>, oos: OosResults, pair: set<Node>, rest: set<set<Node>>)
    requires pair in oos && !(oos[pair] == 0 && |pair| == 2) && Joined(same, oos, rest + {pair})
    ensures Joined(same, oos, rest)
  {
    forall a, b | Linked(oos, a, b)
      ensures {a, b} != pair
    {
      assert |{a, b}| == 2;
    }
  }

  lemma {:induction false} ChainStays(same: map<Node, set<Node>>, nodes: set<Node>, oos: OosResults, p: seq<Node>)
    requires Classes(same, nodes) && Joined(same, oos, {}) && Chain(oos, p) && p[0] in nodes
    ensures p[|p| - 1] in same[p[0]]
  {
    if |p| > 1 {
      var q := p[..|p| - 1];
      ChainPrefix(oos, p);
      ChainStays(same, nodes, oos, q);
      assert Linked(oos, p[|p| - 2], p[|p| - 2 + 1]);
    }
  }

  /** The classes are the components of the relation. */
  lemma ClassesAreComponents(same: map<Node, set<Node>>, nodes: set<Node>, oos: OosResults, n: Node, m: Node)
    requires Classes(same, nodes) && Sound(same, oos) && Joined(same, oos, {}) && n in nodes
    ensures m in same[n] <==> Connected(oos, n, m)
  {
    if Connected(oos, n, m) {
      var p :| Chain(oos, p) && p[0] == n && p[|p| - 1] == m;
      ChainStays(same, nodes, oos, p);
    }
  }

  // ---- the datasets ----

  /** A list of the components of the nodes, each once. */
  ghost predicate Components(datasets: seq<set<Node>>, oos: OosResults, nodes: set<Node>) {
    && (forall i :: 0 <= i < |datasets| ==> datasets[i] != {} && datasets[i] <= nodes)
    && (forall i, j :: 0 <= i < j < |datasets| ==> datasets[i] !! datasets[j])
    && (forall n :: n in nodes ==> exists i :: 0 <= i < |datasets| && n in datasets[i])
    && forall i :: 0 <= i < |datasets| ==> IsComponent(datasets[i], oos)
  }

  ghost predicate IsComponent(s: set<Node>, oos: OosResults) {
    forall n, m :: n in s ==> (m in s <==> Connected(oos, n, m))
  }

  /** The classes that have been seen, each once. */
  ghost predicate Listed(datasets: seq<set<Node>>, same: map<Node, set<Node>>, seen: set<set<Node>>) {
    && (forall s :: s in seen <==> s in datasets)
    && (forall i :: 0 <= i < |datasets| ==> IsClass(datasets[i], same))
    && forall i, j :: 0 <= i < j < |datasets| ==> datasets[i] != datasets[j]
  }

  ghost predicate IsClass(s: set<Node>, same: map<Node, set<Node>>) {
    exists n :: n in same && s == same[n]
  }

  lemma NothingListed(same: map<Node, set<Node>>)
    ensures Listed([], same, {})
  {
  }

  lemma ListMore(datasets: seq<set<Node>>, same: map<Node, set<Node>>, seen: set<set<Node>>, node: Node)
    requires Listed(datasets, same, seen) && node in same && same[node] !in seen
    ensures Listed(datasets + [same[node]], same, seen + {same[node]})
  {
    assert IsClass(same[node], same);
  }

  /** Unique datasets, in whatever order of the nodes. */
  method CollectDatasets(same: map<Node, set<Node>>, oos: OosResults, nodes: set<Node>)
    returns (datasets: seq<set<Node>>)
    requires Classes(same, nodes) && Sound(same, oos) && Joined(same, oos, {})
    ensures Components(datasets, oos, nodes)
  {
    assert same.Keys == nodes;
    hide Listed, Classes, Sound, Joined;
    datasets := [];
    var seen: set<set<Node>>, rest := {}, nodes;
    NothingListed(same);
    while rest != {}
      invariant rest <= nodes && Listed(datasets, same, seen)
      invariant forall n :: n in nodes && n !in rest ==> same[n] in seen
      decreases |rest|
    {
      var node :| node in rest;
      rest := rest - {node};
      if same[node] !in seen {
        ListMore(datasets, same, seen, node);
        seen := seen + {same[node]};
        datasets := datasets + [same[node]];
      }
    }
    ListedComponents(same, oos, nodes, datasets, seen);
  }

  lemma ListedComponents(same: map<Node, set<Node>>, oos: OosResults, nodes: set<Node>, datasets: seq<set<Node>>,
                         seen: set<set<Node>>)
    requires Classes(same, nodes) && Sound(same, oos) && Joined(same, oos, {}) && Listed(datasets, same, seen)
    requires forall n :: n in nodes ==> same[n] in seen
    ensures Components(datasets, oos, nodes)
  {
    DistinctClasses(same, nodes, datasets, seen);
    forall i | 0 <= i < |datasets|
      ensures IsComponent(datasets[i], oos)
    {
      forall n, m | n in datasets[i]
        ensures m in datasets[i] <==> Connected(oos, n, m)
      {
        ClassesAreComponents(same, nodes, oos, n, m);
      }
    }
  }

  lemma DistinctClasses(same: map<Node, set<Node>>, nodes: set<Node>, datasets: seq<set<Node>>, seen: set<set<Node>>)
    requires Classes(same, nodes) && Listed(datasets, same, seen)
    ensures forall i, j :: 0 <= i < j < |datasets| ==> datasets[i] !! datasets[j]
    ensures forall i, n :: 0 <= i < |datasets| && n in datasets[i] ==> n in nodes && datasets[i] == same[n]
  {
  }

  // ---- checking pairs between datasets ----

  /** The values reported for pairs of one node each. */
  function Values(oos: OosResults, left: set<Node>, right: set<Node>): set<int> {
    set a, b | a in left && b in right && {a, b} in oos :: oos[{a, b}]
  }

  /** expected_oos is the one value seen so far, if any. */
  predicate Expected(expected: Option<int>, seen: set<int>) {
    match expected
    case None => seen == {}
    case Some(v) => seen == {v}
  }

  ghost predicate Differ(values: set<int>) {
    exists v, w :: v in values && w in values && v != w
  }

  /** One node against the other dataset; false stands for the exception. */
  method CheckRow(oos: OosResults, a: Node, right: set<Node>, expected: Option<int>, ghost seen: set<int>)
    returns (ok: bool, expected': Option<int>)
    requires Expected(expected, seen)
    ensures ok ==> Expected(expected', seen + Values(oos, {a}, right))
    ensures !ok ==> Differ(seen + Values(oos, {a}, right))
  {
    hide Values, Differ;
    expected', ok := expected, true;
    var rest := right;
    ghost var found := seen;
    NoValues(oos, a);
    assert right - rest == {};
    while rest != {}
      invariant rest <= right && Expected(expected', found) && found == seen + Values(oos, {a}, right - rest)
      decreases |rest|
    {
      var b :| b in rest;
      ghost var before := right - rest;
      rest := rest - {b};
      assert right - rest == before + {b};
      MoreValues(oos, a, before, b);
      if {a, b} in oos {
        var value := oos[{a, b}];
        if expected' == None {
          expected' := Some(value);
        } else if value != expected'.value {
          ValuesGrow(oos, {a}, right - rest, {a}, right);
          Different(seen + Values(oos, {a}, right), value, expected'.value);
          return false, expected';
        }
        found := found + {value};
      }
    }
    assert right - rest == right;
  }

  lemma Different(values: set<int>, v: int, w: int)
    requires v in values && w in values && v != w
    ensures Differ(values)
  {
  }

  lemma NoValues(oos: OosResults, a: Node)
    ensures Values(oos, {a}, {}) == {}
  {
  }

  lemma MoreValues(oos: OosResults, a: Node, before: set<Node>, b: Node)
    ensures Values(oos, {a}, before + {b}) == Values(oos, {a}, before) + if {a, b} in oos then {oos[{a, b}]} else {}
  {
  }

  lemma ValuesGrow(oos: OosResults, left: set<Node>, right: set<Node>, moreLeft: set<Node>, moreRight: set<Node>)
    requires left <= moreLeft && right <= moreRight
    ensures Values(oos, left, right) <= Values(oos, moreLeft, moreRight)
  {
  }

  lemma ValuesSplit(oos: OosResults, left: set<Node>, a: Node, right: set<Node>)
    ensures Values(oos, left + {a}, right) == Values(oos, left, right) + Values(oos, {a}, right)
  {
  }

  /** Two datasets; false stands for the exception. */
  method CheckPair(oos: OosResults, left: set<Node>, right: set<Node>) returns (ok: bool)
    ensures ok <==> !Differ(Values(oos, left, right))
  {
    var expected: Option<int> := None;
    var rest := left;
    while rest != {}
      invariant rest <= left && Expected(expected, Values(oos, left - rest, right))
      decreases |rest|
    {
      var a :| a in rest;
      ghost var before := left - rest;
      rest := rest - {a};
      assert left - rest == before + {a};
      ValuesSplit(oos, before, a, right);
      ValuesGrow(oos, left - rest, right, left, right);
      ok, expected := CheckRow(oos, a, right, expected, Values(oos, before, right));
      if !ok {
        return;
      }
    }
    assert left - rest == left;
    ok := true;
  }

  /** Two reported pairs of nodes of the first n datasets violate transitivity: they are between the same two datasets,
      and differ. */
  ghost predicate Violated(oos: OosResults, datasets: seq<set<Node>>, n: nat) {
    exists i, j :: 0 <= i < n && i < j < |datasets| && Differ(Values(oos, datasets[i], datasets[j]))
  }

  /** The check of all pairs of datasets; false stands for the exception. */
  method CheckTransitivity(oos: OosResults, datasets: seq<set<Node>>) returns (ok: bool)
    ensures ok <==> !Violated(oos, datasets, |datasets|)
  {
    hide Differ, Values;
    for i := 0 to |datasets|
      invariant !Violated(oos, datasets, i)
    {
      for j := i + 1 to |datasets|
        invariant forall k :: i < k < j ==> !Differ(Values(oos, datasets[i], datasets[k]))
      {
        ok := CheckPair(oos, datasets[i], datasets[j]);
        if !ok {
          return;
        }
      }
    }
    ok := true;
  }

  /** The same without naming datasets: two pairs, with connected nodes on either side, that are not connected
      themselves, report different values. */
  ghost predicate Inconsistent(oos: OosResults, nodes: set<Node>) {
    exists a, b, a', b' :: Conflict(oos, nodes, a, b, a', b')
  }

  ghost predicate Conflict(oos: OosResults, nodes: set<Node>, a: Node, b: Node, a': Node, b': Node) {
    && a in nodes && b in nodes && a' in nodes && b' in nodes
    && !Connected(oos, a, b) && Connected(oos, a, a') && Connected(oos, b, b')
    && {a, b} in oos && {a', b'} in oos && oos[{a, b}] != oos[{a', b'}]
  }

  lemma SameDataset(datasets: seq<set<Node>>, oos: OosResults, nodes: set<Node>, i: nat, n: Node, m: Node)
    requires Components(datasets, oos, nodes) && i < |datasets| && n in datasets[i]
    ensures n in nodes && (m in datasets[i] <==> Connected(oos, n, m))
  {
    hide Connected;
    assert IsComponent(datasets[i], oos);
  }

  lemma DatasetOf(datasets: seq<set<Node>>, oos: OosResults, nodes: set<Node>, n: Node) returns (i: nat)
    requires Components(datasets, oos, nodes) && n in nodes
    ensures i < |datasets| && n in datasets[i]
  {
    hide IsComponent;
    i :| 0 <= i < |datasets| && n in datasets[i];
  }

  lemma Disjoint(datasets: seq<set<Node>>, oos: OosResults, nodes: set<Node>, i: nat, j: nat, n: Node)
    requires Components(datasets, oos, nodes) && i < j < |datasets| && n in datasets[j]
    ensures n !in datasets[i]
  {
    hide IsComponent;
  }

  lemma ReportedPair(oos: OosResults, left: set<Node>, right: set<Node>, v: int) returns (a: Node, b: Node)
    requires v in Values(oos, left, right)
    ensures a in left && b in right && {a, b} in oos && oos[{a, b}] == v
  {
    a, b :| a in left && b in right && {a, b} in oos && oos[{a, b}] == v;
  }

  lemma ReportedValue(oos: OosResults, left: set<Node>, right: set<Node>, a: Node, b: Node)
    requires a in left && b in right && {a, b} in oos
    ensures oos[{a, b}] in Values(oos, left, right)
  {
  }

  lemma DatasetsInconsistent(oos: OosResults, nodes: set<Node>, datasets: seq<set<Node>>, i: nat, j: nat)
    requires Components(datasets, oos, nodes) && i < j < |datasets| && Differ(Values(oos, datasets[i], datasets[j]))
    ensures Inconsistent(oos, nodes)
  {
    hide Connected, Components, Values;
    var v, w :| v in Values(oos, datasets[i], datasets[j]) && w in Values(oos, datasets[i], datasets[j]) && v != w;
    var a, b := ReportedPair(oos, datasets[i], datasets[j], v);
    var a', b' := ReportedPair(oos, datasets[i], datasets[j], w);
    SameDataset(datasets, oos, nodes, i, a, a');
    SameDataset(datasets, oos, nodes, i, a', a);
    SameDataset(datasets, oos, nodes, j, b, b');
    SameDataset(datasets, oos, nodes, j, b', b);
    SameDataset(datasets, oos, nodes, i, a, b);
    Disjoint(datasets, oos, nodes, i, j, b);
    assert Conflict(oos, nodes, a, b, a', b');
  }

  lemma InconsistentDatasets(oos: OosResults, nodes: set<Node>, datasets: seq<set<Node>>, a: Node, b: Node,
                             a': Node, b': Node)
    requires Components(datasets, oos, nodes) && Conflict(oos, nodes, a, b, a', b')
    ensures Violated(oos, datasets, |datasets|)
  {
    hide Connected, Components, Values;
    var i := DatasetOf(datasets, oos, nodes, a);
    var j := DatasetOf(datasets, oos, nodes, b);
    SameDataset(datasets, oos, nodes, i, a, a');
    SameDataset(datasets, oos, nodes, j, b, b');
    SameDataset(datasets, oos, nodes, i, a, b);
    assert {a, b} == {b, a} && {a', b'} == {b', a'};
    if i < j {
      ReportedValue(oos, datasets[i], datasets[j], a, b);
      ReportedValue(oos, datasets[i], datasets[j], a', b');
      Different(Values(oos, datasets[i], datasets[j]), oos[{a, b}], oos[{a', b'}]);
    } else {
      ReportedValue(oos, datasets[j], datasets[i], b, a);
      ReportedValue(oos, datasets[j], datasets[i], b', a');
      Different(Values(oos, datasets[j], datasets[i]), oos[{a, b}], oos[{a', b'}]);
    }
  }

  lemma ViolatedIsInconsistent(oos: OosResults, nodes: set<Node>, datasets: seq<set<Node>>)
    requires Components(datasets, oos, nodes)
    ensures Violated(oos, datasets, |datasets|) <==> Inconsistent(oos, nodes)
  {
    hide Components, Conflict, Differ, Values;
    if Violated(oos, datasets, |datasets|) {
      var i, j :| 0 <= i < |datasets| && i < j < |datasets| && Differ(Values(oos, datasets[i], datasets[j]));
      DatasetsInconsistent(oos, nodes, datasets, i, j);
    }
    if Inconsistent(oos, nodes) {
      var a, b, a', b' :| Conflict(oos, nodes, a, b, a', b');
      InconsistentDatasets(oos, nodes, datasets, a, b, a', b');
    }
  }

  /** determine_datasets: the connected components, or an exception exactly if the reports are inconsistent. */
  method DetermineDatasets(oos: OosResults, nodes: set<Node>) returns (r: Option<seq<set<Node>>>)
    requires NodesKnown(oos, nodes)
    ensures r.None? <==> Inconsistent(oos, nodes)
    ensures r.Some? ==> Components(r.value, oos, nodes)
  {
    hide Components, Inconsistent, Violated, Classes, Sound, Joined;
    var same := GroupNodes(oos, nodes);
    var datasets := CollectDatasets(same, oos, nodes);
    var ok := CheckTransitivity(oos, datasets);
    ViolatedIsInconsistent(oos, nodes, datasets);
    return if ok then Some(datasets) else None;
  }
}
