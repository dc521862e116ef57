/** drbdadm's compare_volumes: merging configured and running volumes, two linked lists ordered by volume number. */
module VolumeMerge {

  class Volume {
    const vnr: nat
    const minor: nat
    /** The disk and its meta data, as one number; 0 for none. */
    const disk: nat
    var next: Volume?
    // what has to be done, out of the adj_ flags
    var addMinor: bool
    var delMinor: bool
    var attach: bool
    var detach: bool
    /** The running volumes this one was compared with. */
    ghost var compared: seq<Volume>

    constructor (vnr: nat, minor: nat, disk: nat)
      ensures this.vnr == vnr && this.minor == minor && this.disk == disk && next == null
      ensures !addMinor && !delMinor && !attach && !detach && compared == []
    {
      this.vnr, this.minor, this.disk, next := vnr, minor, disk, null;
      addMinor, delMinor, attach, detach, compared := false, false, false, false, [];
    }
  }

  ghost function Nodes(s: seq<Volume>): set<Volume> {
    set x | x in s
  }

  /** The list that starts at head. */
  ghost predicate Linked(head: Volume?, s: seq<Volume>)
    reads Nodes(s)`next
  {
    && head == At(s, 0)
    && forall i {:trigger s[i]} :: 0 <= i < |s| ==> s[i].next == At(s, i + 1)
  }

  ghost function At(s: seq<Volume>, i: nat): Volume? {
    if i < |s| then s[i] else null
  }

  /** Strictly ordered by volume number. */
  ghost predicate Ordered(s: seq<Volume>) {
    forall i, j :: 0 <= i < j < |s| ==> s[i].vnr < s[j].vnr
  }

  /** Index behind all volumes up to that number. */
  ghost function Place(s: seq<Volume>, vnr: nat): (p: nat)
    ensures p <= |s|
  {
    if s == [] || s[0].vnr > vnr then 0 else 1 + Place(s[1..], vnr)
  }

  ghost function Inserted(s: seq<Volume>, item: Volume): seq<Volume> {
    s[..Place(s, item.vnr)] + [item] + s[Place(s, item.vnr)..]
  }

  lemma {:induction false} PlaceMeaning(s: seq<Volume>, vnr: nat)
    requires Ordered(s)
    ensures forall i :: 0 <= i < |s| ==> (s[i].vnr <= vnr <==> i < Place(s, vnr))
  {
    if s != [] && s[0].vnr <= vnr {
      var rest := s[1..];
      forall i, j | 0 <= i < j < |rest|
        ensures rest[i].vnr < rest[j].vnr
      {
        assert s[i + 1].vnr < s[j + 1].vnr;
      }
      PlaceMeaning(rest, vnr);
      forall i | 0 <= i < |s|
        ensures s[i].vnr <= vnr <==> i < Place(s, vnr)
      {
        if i > 0 {
          assert s[i] == rest[i - 1];
        }
      }
    } else {
      forall i | 0 <= i < |s|
        ensures s[i].vnr > vnr
      {
        assert s[0].vnr > vnr;
      }
    }
  }

  /** The loop of INSERT_SORTED: t is the first volume with a larger number, p the one in front of it. */
  method FindPlace(list: Volume?, vnr: nat, ghost s: seq<Volume>) returns (p: Volume?, t: Volume?)
    requires Linked(list, s) && Ordered(s)
    ensures var k := Place(s, vnr); t == At(s, k) && p == if k == 0 then null else s[k - 1]
  {
    PlaceMeaning(s, vnr);
    t, p := list, null;
    ghost var k := 0;
    while t != null && t.vnr <= vnr
      invariant k <= Place(s, vnr) && t == At(s, k) && p == if k == 0 then null else s[k - 1]
      decreases |s| - k
    {
      p, t, k := t, t.next, k + 1;
    }
  }

  /** The links once the item has been put in at its place. */
  lemma LinkedInserted(head: Volume?, s: seq<Volume>, item: Volume)
    requires var k := Place(s, item.vnr);
             && head == (if k == 0 then item else s[0])
             && (k > 0 ==> s[k - 1].next == item) && item.next == At(s, k)
             && forall i {:trigger s[i]} :: 0 <= i < |s| && i != k - 1 ==> s[i].next == At(s, i + 1)
    ensures Linked(head, Inserted(s, item))
  {
    hide Inserted, Place;
    var k, r := Place(s, item.vnr), Inserted(s, item);
    forall i | 0 <= i < |r|
      ensures r[i].next == At(r, i + 1)
    {
      InsertedAt(s, item, i);
      InsertedAt(s, item, i + 1);
    }
    InsertedAt(s, item, 0);
  }

  lemma InsertedAt(s: seq<Volume>, item: Volume, i: nat)
    ensures var k := Place(s, item.vnr);
            At(Inserted(s, item), i) == if i < k then s[i] else if i == k then item else At(s, i - 1)
    ensures |Inserted(s, item)| == |s| + 1
  {
  }

  /** INSERT_SORTED. An item that is in the list already stays where it is. */
  method InsertSorted(list: Volume?, item: Volume, ghost s: seq<Volume>) returns (head: Volume?)
    requires Linked(list, s) && Ordered(s)
    requires item in s || forall i :: 0 <= i < |s| ==> s[i].vnr != item.vnr
    modifies Nodes(s)`next, item`next
    ensures item in s ==> head == list && Linked(head, s)
    ensures item !in s ==> Linked(head, Inserted(s, item))
  {
    PlaceMeaning(s, item.vnr);
    head := list;
    var p, t := FindPlace(list, item.vnr, s);
    if p != null {
      p.next := item;
    } else {
      head := item;
    }
    item.next := t;
    if item !in s {
      LinkedInserted(head, s, item);
    }
  }

  // ---- comparing ----

  ghost predicate Has(s: seq<Volume>, vnr: nat) {
    exists i :: 0 <= i < |s| && s[i].vnr == vnr
  }

  /** The running volumes that are not configured. */
  ghost function KernelOnly(cs: seq<Volume>, ks: seq<Volume>): seq<Volume> {
    if ks == [] then []
    else
      var k := ks[|ks| - 1];
      KernelOnly(cs, ks[..|ks| - 1]) + if Has(cs, k.vnr) then [] else [k]
  }

  /** A volume that exists to be deleted. */
  ghost predicate IsTemplate(x: Volume, k: Volume)
    reads x`addMinor, x`delMinor, x`attach, x`detach
  {
    x.vnr == k.vnr && x.minor == k.minor && x.disk == k.disk && x.delMinor && x.detach == (k.disk != 0)
        && !x.addMinor && !x.attach
  }

  ghost predicate Templates(xs: seq<Volume>, ks: seq<Volume>)
    reads Nodes(xs)`addMinor, Nodes(xs)`delMinor,
          Nodes(xs)`attach, Nodes(xs)`detach
  {
    |xs| == |ks| && forall i :: 0 <= i < |xs| ==> IsTemplate(xs[i], ks[i])
  }

  /** new_to_be_deleted_minor_from_template */
  method NewTemplate(kern: Volume) returns (conf: Volume)
    ensures fresh(conf) && IsTemplate(conf, kern) && conf.next == null && conf.compared == []
  {
    conf := new Volume(kern.vnr, kern.minor, kern.disk);
    conf.detach, conf.delMinor := kern.disk != 0, true;
  }

  /** compare_volume, without the options that are compared. */
  method CompareVolume(conf: Volume, kern: Volume)
    modifies conf`addMinor, conf`delMinor, conf`attach, conf`detach, conf`compared
    ensures conf.compared == old(conf.compared) + [kern]
    ensures conf.addMinor == conf.delMinor == (conf.minor != kern.minor)
    ensures var again := conf.disk != kern.disk || conf.minor != kern.minor;
            && conf.attach == (if again then conf.disk != 0 else old(conf.attach))
            && conf.detach == if again then kern.disk != 0
                              else old(conf.detach) || (old(conf.attach) && kern.disk != 0)
  {
    conf.compared := conf.compared + [kern];
    conf.addMinor := conf.minor != kern.minor;
    conf.delMinor := conf.addMinor;
    if conf.disk != kern.disk || conf.addMinor {
      conf.attach := conf.disk != 0;
      conf.detach := kern.disk != 0;
    }
    if conf.attach && kern.disk != 0 {
      conf.detach := true;
    }
  }

  /** No flags yet, as parsing leaves a volume. */
  ghost predicate Clear(c: Volume)
    reads c`addMinor, c`delMinor, c`attach, c`detach, c`compared
  {
    !c.addMinor && !c.delMinor && !c.attach && !c.detach && c.compared == []
  }

  /** What is to be done with a volume that is only configured. */
  ghost predicate ToBeAdded(c: Volume)
    reads c`addMinor, c`delMinor, c`attach, c`detach, c`compared
  {
    c.addMinor && c.attach && !c.delMinor && !c.detach && c.compared == []
  }

  /** What is to be done with one that is also running. */
  ghost predicate ComparedWith(c: Volume, k: Volume)
    reads c`addMinor, c`delMinor, c`attach, c`detach, c`compared
  {
    && c.compared == [k] && c.addMinor == c.delMinor == (c.minor != k.minor)
    && var again := c.disk != k.disk || c.minor != k.minor;
       c.attach == (again && c.disk != 0) && c.detach == (again && k.disk != 0)
  }

  /** The flags go with the volume of the same number in the other list, if any. */
  ghost predicate Judged(c: Volume, ks: seq<Volume>)
    reads c`addMinor, c`delMinor, c`attach, c`detach, c`compared
  {
    && (!Has(ks, c.vnr) ==> ToBeAdded(c))
    && forall j :: 0 <= j < |ks| && ks[j].vnr == c.vnr ==> ComparedWith(c, ks[j])
  }

  /** The two lists have been merged up to i and j. */
  ghost predicate MergedTo(cs: seq<Volume>, ks: seq<Volume>, i: nat, j: nat) {
    && i <= |cs| && j <= |ks|
    && (forall a, b :: 0 <= a < i && j <= b < |ks| ==> cs[a].vnr < ks[b].vnr)
    && forall a, b :: i <= a < |cs| && 0 <= b < j ==> ks[b].vnr < cs[a].vnr
  }

  lemma NotConfigured(cs: seq<Volume>, ks: seq<Volume>, i: nat, j: nat)
    requires Ordered(cs) && Ordered(ks) && MergedTo(cs, ks, i, j) && j < |ks| && (i == |cs| || ks[j].vnr < cs[i].vnr)
    ensures !Has(cs, ks[j].vnr) && MergedTo(cs, ks, i, j + 1)
    ensures KernelOnly(cs, ks[..j + 1]) == KernelOnly(cs, ks[..j]) + [ks[j]]
  {
    assert ks[..j + 1][..j] == ks[..j];
    assert !Has(cs, ks[j].vnr);
  }

  lemma NotRunning(cs: seq<Volume>, ks: seq<Volume>, i: nat, j: nat)
    requires Ordered(cs) && Ordered(ks) && MergedTo(cs, ks, i, j) && i < |cs| && (j == |ks| || ks[j].vnr > cs[i].vnr)
    ensures !Has(ks, cs[i].vnr) && MergedTo(cs, ks, i + 1, j)
  {
  }

  lemma Both(cs: seq<Volume>, ks: seq<Volume>, i: nat, j: nat)
    requires Ordered(cs) && Ordered(ks) && MergedTo(cs, ks, i, j) && i < |cs| && j < |ks| && ks[j].vnr == cs[i].vnr
    ensures MergedTo(cs, ks, i + 1, j + 1) && Has(ks, cs[i].vnr)
    ensures forall b :: 0 <= b < |ks| && ks[b].vnr == cs[i].vnr ==> b == j
    ensures KernelOnly(cs, ks[..j + 1]) == KernelOnly(cs, ks[..j])
  {
    assert ks[..j + 1][..j] == ks[..j];
    assert Has(cs, ks[j].vnr);
    assert KernelOnly(cs, ks[..j]) + [] == KernelOnly(cs, ks[..j]);
  }

  lemma AtTheEnd(s: seq<Volume>, item: Volume)
    requires Ordered(s) && forall i :: 0 <= i < |s| ==> s[i].vnr < item.vnr
    ensures Inserted(s, item) == s + [item] && Ordered(s + [item])
  {
    PlaceMeaning(s, item.vnr);
  }

  /** The volumes to be deleted so far: a list of new volumes, one for each running one in front of ks[j] that is not
      configured. */
  ghost predicate Deleting(head: Volume?, deleted: seq<Volume>, cs: seq<Volume>, ks: seq<Volume>, j: nat)
    requires j <= |ks|
    reads Nodes(deleted)`next, Nodes(deleted)`addMinor,
          Nodes(deleted)`delMinor, Nodes(deleted)`attach, Nodes(deleted)`detach
  {
    && Linked(head, deleted) && Ordered(deleted) && Templates(deleted, KernelOnly(cs, ks[..j]))
    && forall a, b :: 0 <= a < |deleted| && j <= b < |ks| ==> deleted[a].vnr < ks[b].vnr
  }

  lemma MoreDeleting(list: Volume?, deleted: seq<Volume>, cs: seq<Volume>, ks: seq<Volume>, j: nat, template: Volume)
    requires j < |ks| && Ordered(ks) && Deleting(list, deleted, cs, ks, j) && IsTemplate(template, ks[j])
    ensures Inserted(deleted, template) == deleted + [template] && Ordered(deleted) && Ordered(deleted + [template])
    ensures forall i :: 0 <= i < |deleted| ==> deleted[i].vnr != template.vnr
    ensures forall a, b :: 0 <= a <= |deleted| && j + 1 <= b < |ks| ==> (deleted + [template])[a].vnr < ks[b].vnr
  {
    assert forall i :: 0 <= i < |deleted| ==> deleted[i].vnr < ks[j].vnr;
    AtTheEnd(deleted, template);
  }

  lemma MoreTemplates(deleted: seq<Volume>, only: seq<Volume>, template: Volume, kern: Volume)
    requires Templates(deleted, only) && IsTemplate(template, kern)
    ensures Templates(deleted + [template], only + [kern])
  {
  }

  /** One running volume that is not configured. */
  method DeleteLater(list: Volume?, kern: Volume, ghost deleted: seq<Volume>, ghost cs: seq<Volume>,
                     ghost ks: seq<Volume>, ghost j: nat,
                     ghost others: set<Volume>)
    returns (head: Volume?, template: Volume)
    requires j < |ks| && kern == ks[j] && Ordered(ks) && Deleting(list, deleted, cs, ks, j)
    requires KernelOnly(cs, ks[..j + 1]) == KernelOnly(cs, ks[..j]) + [kern]
    modifies Nodes(deleted)`next
    ensures fresh(template) && template !in others && Deleting(head, deleted + [template], cs, ks, j + 1)
  {
    hide Ordered, Inserted, KernelOnly;
    template := NewTemplate(kern);
    MoreDeleting(list, deleted, cs, ks, j, template);
    head := InsertSorted(list, template, deleted);
    MoreTemplates(deleted, KernelOnly(cs, ks[..j]), template, kern);
  }

  lemma NoneToDelete(list: Volume?, deleted: seq<Volume>, cs: seq<Volume>, ks: seq<Volume>, j: nat)
    requires j < |ks| && Deleting(list, deleted, cs, ks, j) && KernelOnly(cs, ks[..j + 1]) == KernelOnly(cs, ks[..j])
    ensures Deleting(list, deleted, cs, ks, j + 1)
  {
  }

  lemma NextOf(head: Volume?, s: seq<Volume>, i: nat)
    requires Linked(head, s) && i < |s|
    ensures s[i].next == At(s, i + 1)
  {
  }

  lemma Heads(confList: Volume?, kernList: Volume?, cs: seq<Volume>, ks: seq<Volume>)
    requires Linked(confList, cs) && Linked(kernList, ks)
    ensures confList == At(cs, 0) && kernList == At(ks, 0)
  {
  }

  lemma NodesMore(s: seq<Volume>, x: Volume)
    ensures Nodes(s + [x]) == Nodes(s) + {x}
  {
  }

  lemma Distinct(s: seq<Volume>)
    requires Ordered(s)
    ensures forall a, b :: 0 <= a < b < |s| ==> s[a] != s[b]
  {
  }

  lemma JudgedAlone(c: Volume, ks: seq<Volume>)
    requires ToBeAdded(c) && !Has(ks, c.vnr)
    ensures Judged(c, ks)
  {
  }

  lemma JudgedWith(c: Volume, ks: seq<Volume>, j: nat)
    requires j < |ks| && ComparedWith(c, ks[j]) && Has(ks, c.vnr)
    requires forall b :: 0 <= b < |ks| && ks[b].vnr == c.vnr ==> b == j
    ensures Judged(c, ks)
  {
  }

  /** The first i volumes have been judged, the others are as they were. */
  ghost predicate JudgedTo(cs: seq<Volume>, ks: seq<Volume>, i: nat)
    reads Nodes(cs)`addMinor, Nodes(cs)`delMinor, Nodes(cs)`attach, Nodes(cs)`detach,
          Nodes(cs)`compared
  {
    (forall a :: 0 <= a < |cs| && a < i ==> Judged(cs[a], ks)) && forall a :: i <= a < |cs| ==> Clear(cs[a])
  }

  /** The flags of a configured volume that is not running. */
  method JudgeAlone(conf: Volume, ghost cs: seq<Volume>, ghost ks: seq<Volume>, ghost i: nat)
    requires i < |cs| && conf == cs[i] && Ordered(cs) && JudgedTo(cs, ks, i) && !Has(ks, conf.vnr)
    modifies conf`addMinor, conf`attach
    ensures JudgedTo(cs, ks, i + 1)
  {
    hide Judged, Has, Ordered;
    Distinct(cs);
    conf.addMinor, conf.attach := true, true;
    JudgedAlone(conf, ks);
  }

  /** And of one that is. */
  method JudgeBoth(conf: Volume, kern: Volume, ghost cs: seq<Volume>, ghost ks: seq<Volume>, ghost i: nat, ghost j: nat)
    requires i < |cs| && conf == cs[i] && Ordered(cs) && JudgedTo(cs, ks, i)
    requires j < |ks| && kern == ks[j] && Has(ks, conf.vnr)
    requires forall b :: 0 <= b < |ks| && ks[b].vnr == conf.vnr ==> b == j
    modifies conf`addMinor, conf`delMinor, conf`attach, conf`detach, conf`compared
    ensures JudgedTo(cs, ks, i + 1)
  {
    hide Judged, Has, Ordered;
    Distinct(cs);
    CompareVolume(conf, kern);
    JudgedWith(conf, ks, j);
  }

  /** State of the merge: it has come to cs[i] and ks[j]. */
  ghost predicate Merging(confList: Volume?, kernList: Volume?, cs: seq<Volume>, ks: seq<Volume>, i: nat, j: nat,
                          toBeDeleted: Volume?, deleted: seq<Volume>)
    reads Nodes(cs)`addMinor, Nodes(cs)`delMinor, Nodes(cs)`attach, Nodes(cs)`detach,
          Nodes(cs)`compared, Nodes(cs)`next, Nodes(ks)`next,
          Nodes(deleted)`next, Nodes(deleted)`addMinor, Nodes(deleted)`delMinor, Nodes(deleted)`attach,
          Nodes(deleted)`detach
  {
    && Linked(confList, cs) && Linked(kernList, ks) && Ordered(cs) && Ordered(ks) && Nodes(cs) !! Nodes(ks)
    && MergedTo(cs, ks, i, j) && JudgedTo(cs, ks, i)
    && Deleting(toBeDeleted, deleted, cs, ks, j) && Nodes(deleted) !! Nodes(cs) + Nodes(ks)
  }

  /** A running volume that is not configured. */
  method StepDelete(confList: Volume?, kernList: Volume?, kern: Volume, toBeDeleted: Volume?,
                    ghost cs: seq<Volume>, ghost ks: seq<Volume>, ghost i: nat, ghost j: nat,
                    ghost deleted: seq<Volume>)
    returns (head: Volume?, next: Volume?, ghost template: Volume)
    requires Merging(confList, kernList, cs, ks, i, j, toBeDeleted, deleted)
    requires j < |ks| && kern == ks[j] && (i == |cs| || kern.vnr < cs[i].vnr)
    modifies Nodes(deleted)`next
    ensures fresh(template) && Merging(confList, kernList, cs, ks, i, j + 1, head, deleted + [template])
    ensures next == At(ks, j + 1)
  {
    hide KernelOnly, Has, Ordered, JudgedTo, Deleting, Linked, MergedTo;
    NotConfigured(cs, ks, i, j);
    var t;
    head, t := DeleteLater(toBeDeleted, kern, deleted, cs, ks, j, Nodes(cs) + Nodes(ks));
    template := t;
    NodesMore(deleted, template);
    NextOf(kernList, ks, j);
    next := kern.next;
  }

  /** A configured volume that is not running. */
  method StepAlone(confList: Volume?, kernList: Volume?, conf: Volume, ghost toBeDeleted: Volume?,
                   ghost cs: seq<Volume>, ghost ks: seq<Volume>, ghost i: nat, ghost j: nat, ghost deleted: seq<Volume>)
    returns (next: Volume?)
    requires Merging(confList, kernList, cs, ks, i, j, toBeDeleted, deleted)
    requires i < |cs| && conf == cs[i] && (j == |ks| || ks[j].vnr > conf.vnr)
    modifies conf`addMinor, conf`attach
    ensures Merging(confList, kernList, cs, ks, i + 1, j, toBeDeleted, deleted) && next == At(cs, i + 1)
  {
    hide Judged, Has, Ordered, KernelOnly, JudgedTo, Deleting, Linked, MergedTo;
    NotRunning(cs, ks, i, j);
    assert conf in Nodes(cs);
    NextOf(confList, cs, i);
    JudgeAlone(conf, cs, ks, i);
    next := conf.next;
  }

  /** One that is. */
  method StepBoth(confList: Volume?, kernList: Volume?, conf: Volume, kern: Volume, ghost toBeDeleted: Volume?,
                  ghost cs: seq<Volume>, ghost ks: seq<Volume>, ghost i: nat, ghost j: nat, ghost deleted: seq<Volume>)
    returns (nextConf: Volume?, nextKern: Volume?)
    requires Merging(confList, kernList, cs, ks, i, j, toBeDeleted, deleted)
    requires i < |cs| && conf == cs[i] && j < |ks| && kern == ks[j] && kern.vnr == conf.vnr
    modifies conf`addMinor, conf`delMinor, conf`attach, conf`detach, conf`compared
    ensures Merging(confList, kernList, cs, ks, i + 1, j + 1, toBeDeleted, deleted)
    ensures nextConf == At(cs, i + 1) && nextKern == At(ks, j + 1)
  {
    hide Judged, Has, Ordered, KernelOnly, JudgedTo, Deleting, Linked, MergedTo;
    Both(cs, ks, i, j);
    assert conf in Nodes(cs);
    NextOf(confList, cs, i);
    NextOf(kernList, ks, j);
    JudgeBoth(conf, kern, cs, ks, i, j);
    NoneToDelete(toBeDeleted, deleted, cs, ks, j);
    nextConf, nextKern := conf.next, kern.next;
  }

  /** One round of the merge. */
  method Step(confList: Volume?, kernList: Volume?, conf: Volume?, kern: Volume?, toBeDeleted: Volume?,
              ghost cs: seq<Volume>, ghost ks: seq<Volume>, ghost i: nat, ghost j: nat, ghost deleted: seq<Volume>)
    returns (conf': Volume?, kern': Volume?, head: Volume?, ghost i': nat, ghost j': nat, ghost deleted': seq<Volume>)
    requires Merging(confList, kernList, cs, ks, i, j, toBeDeleted, deleted) && conf == At(cs, i) && kern == At(ks, j)
    requires conf != null || kern != null
    modifies Nodes(cs)`addMinor, Nodes(cs)`delMinor, Nodes(cs)`attach, Nodes(cs)`detach, Nodes(cs)`compared,
        Nodes(deleted)`next
    ensures Merging(confList, kernList, cs, ks, i', j', head, deleted') && conf' == At(cs, i') && kern' == At(ks, j')
    ensures i <= i' <= |cs| && j <= j' <= |ks| && i + j < i' + j'
    ensures fresh(Nodes(deleted') - Nodes(deleted))
  {
    Here(confList, kernList, cs, ks, i, j, toBeDeleted, deleted);
    hide Merging, Linked, Ordered, Clear, Nodes, At;
    conf', kern', head, i', j', deleted' := conf, kern, toBeDeleted, i, j, deleted;
    if kern != null && (conf == null || kern.vnr < conf.vnr) {
      ghost var template;
      head, kern', template := StepDelete(confList, kernList, kern, toBeDeleted, cs, ks, i, j, deleted);
      NodesMore(deleted, template);
      deleted', j' := deleted + [template], j + 1;
    } else if conf != null && (kern == null || kern.vnr > conf.vnr) {
      conf' := StepAlone(confList, kernList, conf, toBeDeleted, cs, ks, i, j, deleted);
      i' := i + 1;
    } else {
      conf', kern' := StepBoth(confList, kernList, conf, kern, toBeDeleted, cs, ks, i, j, deleted);
      i', j' := i + 1, j + 1;
    }
  }

  /** The merge: judges every configured volume, and collects those to be deleted. */
  method Compare(confList: Volume?, kernList: Volume?, ghost cs: seq<Volume>, ghost ks: seq<Volume>)
    returns (toBeDeleted: Volume?, ghost deleted: seq<Volume>)
    requires Linked(confList, cs) && Linked(kernList, ks) && Ordered(cs) && Ordered(ks) && Nodes(cs) !! Nodes(ks)
    requires forall a :: 0 <= a < |cs| ==> Clear(cs[a])
    modifies Nodes(cs)`addMinor, Nodes(cs)`delMinor, Nodes(cs)`attach, Nodes(cs)`detach, Nodes(cs)`compared
    ensures Merging(confList, kernList, cs, ks, |cs|, |ks|, toBeDeleted, deleted) && fresh(Nodes(deleted))
  {
    var conf, kern := confList, kernList;
    ghost var i: nat, j: nat := 0, 0;
    toBeDeleted, deleted := null, [];
    StartMerge(confList, kernList, cs, ks);
    hide Merging, Linked, Ordered, Clear, Nodes;
    while conf != null || kern != null
      invariant i <= |cs| && j <= |ks| && conf == At(cs, i) && kern == At(ks, j) && fresh(Nodes(deleted))
      invariant Merging(confList, kernList, cs, ks, i, j, toBeDeleted, deleted)
      decreases |cs| - i + |ks| - j
    {
      conf, kern, toBeDeleted, i, j, deleted := Step(confList, kernList, conf, kern, toBeDeleted, cs, ks, i, j,
          deleted);
    }
  }

  lemma StartMerge(confList: Volume?, kernList: Volume?, cs: seq<Volume>, ks: seq<Volume>)
    requires Linked(confList, cs) && Linked(kernList, ks) && Ordered(cs) && Ordered(ks) && Nodes(cs) !! Nodes(ks)
    requires forall a :: 0 <= a < |cs| ==> Clear(cs[a])
    ensures Merging(confList, kernList, cs, ks, 0, 0, null, []) && confList == At(cs, 0) && kernList == At(ks, 0)
    ensures Nodes([]) == {}
  {
  }

  lemma Here(confList: Volume?, kernList: Volume?, cs: seq<Volume>, ks: seq<Volume>, i: nat, j: nat,
             toBeDeleted: Volume?, deleted: seq<Volume>)
    requires Merging(confList, kernList, cs, ks, i, j, toBeDeleted, deleted)
    ensures i <= |cs| && j <= |ks|
    ensures At(cs, i) == null <==> i == |cs|
    ensures At(ks, j) == null <==> j == |ks|
    ensures i < |cs| ==> At(cs, i) == cs[i] && cs[i] in Nodes(cs) && cs[i] !in Nodes(deleted)
    ensures j < |ks| ==> At(ks, j) == ks[j]
  {
  }

  // ---- splicing ----

  /** The list that is returned: only the first of the volumes to be deleted gets into it. */
  ghost function Spliced(cs: seq<Volume>, deleted: seq<Volume>): seq<Volume> {
    if deleted == [] then cs else Inserted(cs, deleted[0])
  }

  lemma InsertedOrdered(s: seq<Volume>, item: Volume)
    requires Ordered(s) && forall i :: 0 <= i < |s| ==> s[i].vnr != item.vnr
    ensures Ordered(Inserted(s, item)) && item in Inserted(s, item) && Nodes(Inserted(s, item)) == Nodes(s) + {item}
  {
    PlaceMeaning(s, item.vnr);
    assert Inserted(s, item)[Place(s, item.vnr)] == item;
    InsertedNodes(s, item, Place(s, item.vnr));
  }

  lemma InsertedNodes(s: seq<Volume>, item: Volume, k: nat)
    requires k <= |s|
    ensures Nodes(s[..k] + [item] + s[k..]) == Nodes(s) + {item}
  {
    assert s == s[..k] + s[k..];
  }

  /** The last loop of compare_volumes inserts the volumes to be deleted. The insertion rewrites the next that the
      loop follows, so from the second round on it walks the volumes that are in the list already. */
  method Splice(confList: Volume?, toBeDeleted: Volume?, ghost cs: seq<Volume>, ghost deleted: seq<Volume>)
    returns (head: Volume?)
    requires Linked(confList, cs) && Linked(toBeDeleted, deleted) && Ordered(cs) && Nodes(cs) !! Nodes(deleted)
    requires deleted != [] ==> !Has(cs, deleted[0].vnr)
    modifies Nodes(cs)`next, Nodes(deleted)`next
    ensures Linked(head, Spliced(cs, deleted))
  {
    hide Ordered, Has, Inserted, Linked;
    Heads(confList, toBeDeleted, cs, deleted);
    head := confList;
    var conf := toBeDeleted;
    // the list so far, and the place in it that the loop has come to, once it is in it
    ghost var s, q: nat, inList := cs, 0, false;
    if deleted != [] {
      First(cs, deleted);
    }
    while conf != null
      invariant Linked(head, s) && Ordered(s)
      invariant !inList ==> s == cs && conf == At(deleted, 0) && Linked(toBeDeleted, deleted)
      invariant inList ==> deleted != [] && s == Inserted(cs, deleted[0]) && q <= |s| && conf == At(s, q)
      decreases !inList, |s| - q
    {
      ghost var r := if inList then s else Inserted(cs, deleted[0]);
      ghost var k := if inList then q else Place(cs, conf.vnr);
      assert conf == r[k] && (inList ==> conf in s);
      head := InsertSorted(head, conf, s);
      s, q, inList := r, k + 1, true;
      NextOf(head, s, k);
      conf := conf.next;
    }
  }

  lemma First(cs: seq<Volume>, deleted: seq<Volume>)
    requires Ordered(cs) && deleted != [] && !Has(cs, deleted[0].vnr) && Nodes(cs) !! Nodes(deleted)
    ensures (forall i :: 0 <= i < |cs| ==> cs[i].vnr != deleted[0].vnr) && deleted[0] !in cs
    ensures var (k, r) := (Place(cs, deleted[0].vnr), Inserted(cs, deleted[0]));
            && Ordered(r) && k < |r| && r[k] == deleted[0]
            && forall x :: x in r ==> x in Nodes(cs) || x in Nodes(deleted)
  {
    InsertedOrdered(cs, deleted[0]);
    assert deleted[0] in Nodes(deleted);
    forall x | x in Inserted(cs, deleted[0])
      ensures x in Nodes(cs) || x in Nodes(deleted)
    {
      assert x in Nodes(Inserted(cs, deleted[0]));
    }
  }

  /** compare_volumes. Every configured volume is judged, and there is a template for every running volume that is not
      configured, but of these at most the first is in the list that is returned. */
  method CompareVolumes(conf: Volume?, kern: Volume?, ghost cs: seq<Volume>, ghost ks: seq<Volume>)
    returns (head: Volume?, ghost deleted: seq<Volume>)
    requires Linked(conf, cs) && Linked(kern, ks) && Ordered(cs) && Ordered(ks) && Nodes(cs) !! Nodes(ks)
    requires forall a :: 0 <= a < |cs| ==> Clear(cs[a])
    modifies Nodes(cs)
    ensures forall a :: 0 <= a < |cs| ==> Judged(cs[a], ks)
    ensures Templates(deleted, KernelOnly(cs, ks)) && Ordered(deleted) && fresh(Nodes(deleted))
    ensures Linked(head, Spliced(cs, deleted))
  {
    hide KernelOnly, Judged, MergedTo;
    var toBeDeleted;
    toBeDeleted, deleted := Compare(conf, kern, cs, ks);
    assert ks[..|ks|] == ks;
    FirstIsNew(deleted, cs, ks);
    head := Splice(conf, toBeDeleted, cs, deleted);
  }

  lemma {:induction false} OnlyInKernel(cs: seq<Volume>, ks: seq<Volume>)
    ensures forall i :: 0 <= i < |KernelOnly(cs, ks)| ==>
              KernelOnly(cs, ks)[i] in ks && !Has(cs, KernelOnly(cs, ks)[i].vnr)
    ensures forall k :: k in ks && !Has(cs, k.vnr) ==> k in KernelOnly(cs, ks)
  {
    if ks != [] {
      var init, k := ks[..|ks| - 1], ks[|ks| - 1];
      OnlyInKernel(cs, init);
      assert ks == init + [k];
    }
  }

  lemma FirstIsNew(deleted: seq<Volume>, cs: seq<Volume>, ks: seq<Volume>)
    requires Templates(deleted, KernelOnly(cs, ks))
    ensures forall i :: 0 <= i < |deleted| ==> !Has(cs, deleted[i].vnr)
  {
    OnlyInKernel(cs, ks);
  }

  /** The list holds all of the configured volumes and of those to be deleted, in order. */
  ghost predicate IsSortedUnion(r: seq<Volume>, cs: seq<Volume>, deleted: seq<Volume>) {
    Ordered(r) && Nodes(r) == Nodes(cs) + Nodes(deleted)
  }

  /** The list that is returned holds the first of the volumes to be deleted, and so is the sorted union exactly if at
      most one running volume is not configured. */
  lemma SplicedExactly(cs: seq<Volume>, ks: seq<Volume>, deleted: seq<Volume>)
    requires Ordered(cs) && Ordered(deleted) && Templates(deleted, KernelOnly(cs, ks)) && Nodes(cs) !! Nodes(deleted)
    ensures IsSortedUnion(Spliced(cs, deleted), cs, deleted) <==> |KernelOnly(cs, ks)| <= 1
    ensures Ordered(Spliced(cs, deleted))
    ensures Nodes(Spliced(cs, deleted)) == Nodes(cs) + if deleted == [] then {} else {deleted[0]}
  {
    hide KernelOnly, Inserted;
    FirstIsNew(deleted, cs, ks);
    if deleted != [] {
      assert forall i :: 0 <= i < |cs| ==> cs[i].vnr != deleted[0].vnr;
      InsertedOrdered(cs, deleted[0]);
      if |deleted| > 1 {
        assert deleted[0].vnr < deleted[1].vnr;
        assert deleted[1] in Nodes(deleted) && deleted[1] !in Nodes(cs);
      } else {
        assert Nodes(deleted) == {deleted[0]};
      }
    } else {
      assert Nodes(cs) + Nodes(deleted) == Nodes(cs);
    }
  }
}
