/** drbd-verify's map_oos_to_partitions: attributing out-of-sync blocks to partitions. */
module OosAccounting {
  import opened Arith
  import opened Wrappers
  import VerifyDecoder

  datatype Partition = Partition(name: string, start: nat, length: nat, fstype: Option<string>)

  /** KiB out of sync, the file system found there, and the numbers of the blocks. */
  datatype Info = Info(kib: nat, fstype: Option<string>, blocks: seq<nat>)

  const UNPARTITIONED: string := "unpartitioned"

  /** Sectors of a block and of a partition overlap, as the code tests it. */
  predicate Overlaps(x: Partition, offset: nat, size: nat) {
    offset / 512 <= x.start + x.length - 1 && (offset + size - 1) / 512 >= x.start
  }

  predicate InBoth(x: Partition, offset: nat, size: nat, byteNr: nat) {
    offset <= byteNr < offset + size && x.start * 512 <= byteNr < (x.start + x.length) * 512
  }

  /** For a partition with any sectors, that is: some byte of the block is in the partition. */
  lemma OverlapsBytes(x: Partition, offset: nat, size: nat)
    requires size > 0 && x.length > 0
    ensures Overlaps(x, offset, size) <==> exists byteNr :: InBoth(x, offset, size, byteNr)
  {
    assert Overlaps(x, offset, size) <==> offset < (x.start + x.length) * 512 && x.start * 512 <= offset + size - 1;
    if Overlaps(x, offset, size) {
      assert InBoth(x, offset, size, if offset >= x.start * 512 then offset else x.start * 512);
    }
  }

  /** The sector test means that, for all blocks, exactly for partitions that have sectors or start at sector 0. */
  lemma OverlapsExactly(x: Partition)
    ensures (forall offset: nat, size: nat | size > 0 ::
               Overlaps(x, offset, size) <==> exists byteNr :: InBoth(x, offset, size, byteNr))
            <==> x.length > 0 || x.start == 0
  {
    if x.length > 0 {
      forall offset: nat, size: nat | size > 0
        ensures Overlaps(x, offset, size) <==> exists byteNr :: InBoth(x, offset, size, byteNr)
      {
        OverlapsBytes(x, offset, size);
      }
    } else if x.start > 0 {
      var offset := x.start * 512 - 512;
      assert Overlaps(x, offset, 1024) && !exists byteNr :: InBoth(x, offset, 1024, byteNr);
    }
  }

  function FirstOverlap(parts: seq<Partition>, offset: nat, size: nat): Option<string> {
    if parts == [] then None
    else if Overlaps(parts[0], offset, size) then Some(parts[0].name)
    else FirstOverlap(parts[1..], offset, size)
  }

  /** get_partition_for_offset */
  method GetPartitionForOffset(parts: seq<Partition>, offset: nat, size: nat) returns (r: Option<string>)
    ensures r == FirstOverlap(parts, offset, size)
  {
    assert parts[0..] == parts;
    for k := 0 to |parts|
      invariant FirstOverlap(parts, offset, size) == FirstOverlap(parts[k..], offset, size)
    {
      assert parts[k..][1..] == parts[k + 1..];
      if Overlaps(parts[k], offset, size) {
        return Some(parts[k].name);
      }
    }
    return None;
  }

  /** The bucket of a block: the first partition it overlaps, unless that has no name. */
  function Bucket(parts: seq<Partition>, bit: nat, bytesPerBit: nat): string {
    match FirstOverlap(parts, bit * bytesPerBit, bytesPerBit)
    case None => UNPARTITIONED
    case Some(name) => if name == "" then UNPARTITIONED else name
  }

  /** Partition k overlaps, and none before it does. */
  predicate FirstAt(parts: seq<Partition>, offset: nat, size: nat, k: int) {
    && 0 <= k < |parts| && Overlaps(parts[k], offset, size)
    && forall l :: 0 <= l < k ==> !Overlaps(parts[l], offset, size)
  }

  /** It is the name of a partition the block overlaps, or there is none of any name. */
  lemma {:induction false} BucketOverlaps(parts: seq<Partition>, offset: nat, size: nat)
    ensures match FirstOverlap(parts, offset, size)
            case Some(name) => exists k :: FirstAt(parts, offset, size, k) && parts[k].name == name
            case None => forall k :: 0 <= k < |parts| ==> !Overlaps(parts[k], offset, size)
  {
    if parts != [] && !Overlaps(parts[0], offset, size) {
      var rest := parts[1..];
      BucketOverlaps(rest, offset, size);
      assert forall k :: 0 < k < |parts| ==> parts[k] == rest[k - 1];
      if FirstOverlap(rest, offset, size).Some? {
        var k :| FirstAt(rest, offset, size, k) && rest[k].name == FirstOverlap(rest, offset, size).value;
        assert FirstAt(parts, offset, size, k + 1);
      }
    }
  }

  /** Names of their own: distinct, as keys of a dictionary are, and none that stands for no partition. */
  predicate ProperNames(parts: seq<Partition>) {
    && (forall i, j :: 0 <= i < j < |parts| ==> parts[i].name != parts[j].name)
    && forall k :: 0 <= k < |parts| ==> parts[k].name != "" && parts[k].name != UNPARTITIONED
  }

  /** So the buckets mean what they say, as long as no name stands for no partition. */
  lemma BucketMeaning(parts: seq<Partition>, bit: nat, bytesPerBit: nat)
    requires forall k :: 0 <= k < |parts| ==> parts[k].name != "" && parts[k].name != UNPARTITIONED
    ensures var bucket := Bucket(parts, bit, bytesPerBit);
            && (bucket == UNPARTITIONED
                <==> forall k :: 0 <= k < |parts| ==> !Overlaps(parts[k], bit * bytesPerBit, bytesPerBit))
            && (bucket != UNPARTITIONED ==>
                  exists k :: FirstAt(parts, bit * bytesPerBit, bytesPerBit, k) && parts[k].name == bucket)
  {
    BucketOverlaps(parts, bit * bytesPerBit, bytesPerBit);
  }

  /** The file system entered for a name. */
  function FsType(parts: seq<Partition>, name: string): Option<string> {
    if parts == [] then None
    else if parts[|parts| - 1].name == name then parts[|parts| - 1].fstype
    else FsType(parts[..|parts| - 1], name)
  }

  /** None for a name that no partition has: that of the unpartitioned bucket. */
  lemma {:induction false} NoFsType(parts: seq<Partition>, name: string)
    requires forall k :: 0 <= k < |parts| ==> parts[k].name != name
    ensures FsType(parts, name) == None
  {
    if parts != [] {
      NoFsType(parts[..|parts| - 1], name);
    }
  }

  /** With distinct names, that of the partition of this name. */
  lemma {:induction false} FsTypeOf(parts: seq<Partition>, k: nat)
    requires k < |parts| && forall i, j :: 0 <= i < j < |parts| ==> parts[i].name != parts[j].name
    ensures FsType(parts, parts[k].name) == parts[k].fstype
  {
    if k < |parts| - 1 {
      FsTypeOf(parts[..|parts| - 1], k);
    }
  }

  /** The blocks of one bucket, in order. */
  function BlocksOf(bits: seq<nat>, parts: seq<Partition>, bytesPerBit: nat, name: string): seq<nat> {
    if bits == [] then []
    else
      var b := bits[|bits| - 1];
      BlocksOf(bits[..|bits| - 1], parts, bytesPerBit, name) + if Bucket(parts, b, bytesPerBit) == name then [b] else []
  }

  /** The dictionary's keys. */
  function Names(parts: seq<Partition>): set<string> {
    {UNPARTITIONED} + set k | 0 <= k < |parts| :: parts[k].name
  }

  lemma BucketIsName(parts: seq<Partition>, bit: nat, bytesPerBit: nat)
    ensures Bucket(parts, bit, bytesPerBit) in Names(parts)
  {
    BucketOverlaps(parts, bit * bytesPerBit, bytesPerBit);
  }

  /** Every bucket holds its blocks so far. */
  ghost predicate Accounted(result: map<string, Info>, bits: seq<nat>, parts: seq<Partition>, bytesPerBit: nat) {
    && result.Keys == Names(parts)
    && forall name :: name in result ==>
         var blocks := BlocksOf(bits, parts, bytesPerBit, name);
         result[name] == Info(|blocks| * (bytesPerBit / 1024), FsType(parts, name), blocks)
  }

  lemma BlocksMore(bits: seq<nat>, bit: nat, parts: seq<Partition>, bytesPerBit: nat, name: string)
    ensures BlocksOf(bits + [bit], parts, bytesPerBit, name)
         == BlocksOf(bits, parts, bytesPerBit, name) + if Bucket(parts, bit, bytesPerBit) == name then [bit] else []
  {
    assert (bits + [bit])[..|bits|] == bits;
  }

  /** One more block in a bucket. */
  function AddBlock(x: Info, bit: nat, bytesPerBit: nat): Info {
    Info(x.kib + bytesPerBit / 1024, x.fstype, x.blocks + [bit])
  }

  lemma AddKib(n: nat, k: nat)
    ensures (n + 1) * k == n * k + k
  {
  }

  lemma AccountOne(result: map<string, Info>, bits: seq<nat>, bit: nat, parts: seq<Partition>, bytesPerBit: nat)
    requires Accounted(result, bits, parts, bytesPerBit)
    ensures var name := Bucket(parts, bit, bytesPerBit);
            name in result
            && Accounted(result[name := AddBlock(result[name], bit, bytesPerBit)], bits + [bit], parts, bytesPerBit)
  {
    hide Bucket, BlocksOf, Names;
    BucketIsName(parts, bit, bytesPerBit);
    var bucket := Bucket(parts, bit, bytesPerBit);
    forall name | name in result
      ensures BlocksOf(bits + [bit], parts, bytesPerBit, name)
           == BlocksOf(bits, parts, bytesPerBit, name) + if bucket == name then [bit] else []
    {
      BlocksMore(bits, bit, parts, bytesPerBit, name);
    }
    var blocks := BlocksOf(bits, parts, bytesPerBit, bucket);
    AddKib(|blocks|, bytesPerBit / 1024);
    assert forall name :: name in result && name != bucket ==>
      BlocksOf(bits, parts, bytesPerBit, name) + [] == BlocksOf(bits, parts, bytesPerBit, name);
  }

  /** Empty buckets for these partitions. */
  predicate Prepared(result: map<string, Info>, parts: seq<Partition>) {
    && result.Keys == Names(parts)
    && forall name :: name in result ==> result[name] == Info(0, FsType(parts, name), [])
  }

  lemma PrepareFirst()
    ensures Prepared(map[UNPARTITIONED := Info(0, None, [])], [])
  {
  }

  lemma PrepareOne(result: map<string, Info>, parts: seq<Partition>, x: Partition)
    requires Prepared(result, parts)
    ensures Prepared(result[x.name := Info(0, x.fstype, [])], parts + [x])
  {
    var more := parts + [x];
    assert more[..|more| - 1] == parts;
    assert forall k :: 0 <= k < |parts| ==> more[k] == parts[k];
    assert Names(more) == Names(parts) + {x.name} by {
      assert more[|parts|] == x;
    }
  }

  lemma NothingAccounted(result: map<string, Info>, parts: seq<Partition>, bytesPerBit: nat)
    requires Prepared(result, parts)
    ensures Accounted(result, [], parts, bytesPerBit)
  {
  }

  /** The loop over all blocks. */
  method Account(bits: seq<nat>, parts: seq<Partition>, bytesPerBit: nat) returns (result: map<string, Info>)
    ensures Accounted(result, bits, parts, bytesPerBit)
  {
    hide Accounted, Prepared, Names, FirstOverlap;
    result := map[UNPARTITIONED := Info(0, None, [])];
    PrepareFirst();
    for k := 0 to |parts|
      invariant Prepared(result, parts[..k])
    {
      PrepareOne(result, parts[..k], parts[k]);
      assert parts[..k + 1] == parts[..k] + [parts[k]];
      result := result[parts[k].name := Info(0, parts[k].fstype, [])];
    }
    assert parts[..|parts|] == parts;
    NothingAccounted(result, parts, bytesPerBit);
    assert bits[..0] == [];
    for k := 0 to |bits|
      invariant Accounted(result, bits[..k], parts, bytesPerBit)
    {
      AccountOne(result, bits[..k], bits[k], parts, bytesPerBit);
      assert bits[..k + 1] == bits[..k] + [bits[k]];
      var found := GetPartitionForOffset(parts, bits[k] * bytesPerBit, bytesPerBit);
      var name := if found.Some? && found.value != "" then found.value else UNPARTITIONED;
      assert name == Bucket(parts, bits[k], bytesPerBit);
      result := result[name := AddBlock(result[name], bits[k], bytesPerBit)];
    }
    assert bits[..|bits|] == bits;
  }

  // ---- conservation ----

  /** Each block is in one bucket, and only there; buckets keep the order of the blocks. */
  lemma {:induction false} BlocksOfMeaning(bits: seq<nat>, parts: seq<Partition>, bytesPerBit: nat, name: string)
    ensures forall b: nat :: b in BlocksOf(bits, parts, bytesPerBit, name)
                             <==> b in bits && Bucket(parts, b, bytesPerBit) == name
    ensures VerifyDecoder.Increasing(bits) ==> VerifyDecoder.Increasing(BlocksOf(bits, parts, bytesPerBit, name))
  {
    if bits != [] {
      var init, b := bits[..|bits| - 1], bits[|bits| - 1];
      BlocksOfMeaning(init, parts, bytesPerBit, name);
      assert bits == init + [b];
      if VerifyDecoder.Increasing(bits) {
        InFrontOf(BlocksOf(init, parts, bytesPerBit, name), init, b);
      }
    }
  }

  lemma InFrontOf(blocks: seq<nat>, init: seq<nat>, b: nat)
    requires VerifyDecoder.Increasing(init + [b]) && forall x :: x in blocks ==> x in init
    ensures VerifyDecoder.Increasing(init)
    ensures VerifyDecoder.Increasing(blocks) ==> VerifyDecoder.Increasing(blocks + [b])
  {
    var bits := init + [b];
    forall i | 0 <= i < |blocks|
      ensures blocks[i] < b
    {
      assert blocks[i] in blocks;
      var k :| 0 <= k < |init| && init[k] == blocks[i];
      assert bits[k] < bits[|init|];
    }
    forall i, j | 0 <= i < j < |init|
      ensures init[i] < init[j]
    {
      assert bits[i] < bits[j];
    }
  }

  /** Sum of the KiB of these buckets. */
  function TotalKib(names: seq<string>, result: map<string, Info>): nat {
    if names == [] then 0
    else TotalKib(names[1..], result) + if names[0] in result then result[names[0]].kib else 0
  }

  /** Sum of the blocks of these buckets. */
  function TotalBlocks(names: seq<string>, bits: seq<nat>, parts: seq<Partition>, bytesPerBit: nat): nat {
    if names == [] then 0
    else TotalBlocks(names[1..], bits, parts, bytesPerBit) + |BlocksOf(bits, parts, bytesPerBit, names[0])|
  }

  predicate Distinct(names: seq<string>) {
    forall i, j :: 0 <= i < j < |names| ==> names[i] != names[j]
  }

  lemma {:induction false} NoBlocks(names: seq<string>, parts: seq<Partition>, bytesPerBit: nat)
    ensures TotalBlocks(names, [], parts, bytesPerBit) == 0
  {
    if names != [] {
      NoBlocks(names[1..], parts, bytesPerBit);
    }
  }

  /** A block adds one to the sum over distinct buckets if its own is among them. */
  lemma {:induction false} OneMoreBlock(names: seq<string>, bits: seq<nat>, bit: nat, parts: seq<Partition>,
                                        bytesPerBit: nat)
    requires Distinct(names)
    ensures TotalBlocks(names, bits + [bit], parts, bytesPerBit)
         == TotalBlocks(names, bits, parts, bytesPerBit) + if Bucket(parts, bit, bytesPerBit) in names then 1 else 0
  {
    hide Bucket;
    if names != [] {
      var rest := names[1..];
      assert Distinct(rest) && names[0] !in rest;
      OneMoreBlock(rest, bits, bit, parts, bytesPerBit);
      BlocksMore(bits, bit, parts, bytesPerBit, names[0]);
      assert names == [names[0]] + rest;
    }
  }

  lemma {:induction false} AllBlocksCounted(names: seq<string>, bits: seq<nat>, parts: seq<Partition>, bytesPerBit: nat)
    requires Distinct(names) && forall name :: name in Names(parts) ==> name in names
    ensures TotalBlocks(names, bits, parts, bytesPerBit) == |bits|
  {
    if bits == [] {
      NoBlocks(names, parts, bytesPerBit);
    } else {
      var init, b := bits[..|bits| - 1], bits[|bits| - 1];
      AllBlocksCounted(names, init, parts, bytesPerBit);
      OneMoreBlock(names, init, b, parts, bytesPerBit);
      BucketIsName(parts, b, bytesPerBit);
      assert bits == init + [b];
    }
  }

  /** What map_oos_to_partitions returns. */
  ghost predicate Filtered(r: map<string, Info>, bits: seq<nat>, parts: seq<Partition>, bytesPerBit: nat) {
    && (forall name :: name in r <==>
          name in Names(parts) && |BlocksOf(bits, parts, bytesPerBit, name)| * (bytesPerBit / 1024) > 0)
    && forall name :: name in r ==>
         var blocks := BlocksOf(bits, parts, bytesPerBit, name);
         r[name] == Info(|blocks| * (bytesPerBit / 1024), FsType(parts, name), blocks)
  }

  /** map_oos_to_partitions: buckets without KiB are dropped. */
  method MapOosToPartitions(bits: seq<nat>, parts: seq<Partition>, bytesPerBit: nat)
    returns (filtered: map<string, Info>)
    ensures Filtered(filtered, bits, parts, bytesPerBit)
  {
    hide BlocksOf, Names;
    var result := Account(bits, parts, bytesPerBit);
    filtered := map name | name in result && result[name].kib > 0 :: result[name];
  }

  lemma {:induction false} KibOfBlocks(names: seq<string>, r: map<string, Info>, bits: seq<nat>,
                                       parts: seq<Partition>, bytesPerBit: nat)
    requires Filtered(r, bits, parts, bytesPerBit) && forall k :: 0 <= k < |names| ==> names[k] in Names(parts)
    ensures TotalKib(names, r) == TotalBlocks(names, bits, parts, bytesPerBit) * (bytesPerBit / 1024)
  {
    hide BlocksOf, Names;
    if names != [] {
      KibOfBlocks(names[1..], r, bits, parts, bytesPerBit);
      Distribute(TotalBlocks(names[1..], bits, parts, bytesPerBit), |BlocksOf(bits, parts, bytesPerBit, names[0])|,
          bytesPerBit / 1024);
    }
  }

  lemma Distribute(a: nat, b: nat, k: nat)
    ensures (a + b) * k == a * k + b * k
  {
  }

  /** The KiB of all buckets that are returned are those of all the set bits. */
  lemma KibConserved(names: seq<string>, r: map<string, Info>, bits: seq<nat>, parts: seq<Partition>, bytesPerBit: nat)
    requires Filtered(r, bits, parts, bytesPerBit) && Distinct(names)
    requires forall name :: name in Names(parts) <==> name in names
    ensures TotalKib(names, r) == |bits| * (bytesPerBit / 1024)
  {
    assert forall k :: 0 <= k < |names| ==> names[k] in names;
    KibOfBlocks(names, r, bits, parts, bytesPerBit);
    AllBlocksCounted(names, bits, parts, bytesPerBit);
  }

  /** Every set bit is in a bucket that is returned exactly if bits stand for at least one KiB. */
  lemma BlocksKept(r: map<string, Info>, bits: seq<nat>, parts: seq<Partition>, bytesPerBit: nat)
    requires Filtered(r, bits, parts, bytesPerBit) && bits != []
    ensures (forall b: nat :: b in bits ==>
               Bucket(parts, b, bytesPerBit) in r && b in r[Bucket(parts, b, bytesPerBit)].blocks)
            <==> bytesPerBit >= 1024
  {
    hide Bucket, BlocksOf, Names;
    forall b: nat | b in bits
      ensures Bucket(parts, b, bytesPerBit) in r <==> bytesPerBit >= 1024
      ensures Bucket(parts, b, bytesPerBit) in r ==> b in r[Bucket(parts, b, bytesPerBit)].blocks
    {
      var name := Bucket(parts, b, bytesPerBit);
      BucketIsName(parts, b, bytesPerBit);
      BlocksOfMeaning(bits, parts, bytesPerBit, name);
      Positive(|BlocksOf(bits, parts, bytesPerBit, name)|, bytesPerBit / 1024);
    }
    assert bits[0] in bits;
  }

  lemma Reported(r: map<string, Info>, bits: seq<nat>, parts: seq<Partition>, bytesPerBit: nat, name: string, b: nat)
    requires Filtered(r, bits, parts, bytesPerBit) && name in Names(parts) && bytesPerBit >= 1024
    ensures name in r && b in r[name].blocks <==> b in bits && Bucket(parts, b, bytesPerBit) == name
  {
    hide Bucket, BlocksOf, Names;
    BlocksOfMeaning(bits, parts, bytesPerBit, name);
    if b in BlocksOf(bits, parts, bytesPerBit, name) {
      Positive(|BlocksOf(bits, parts, bytesPerBit, name)|, bytesPerBit / 1024);
    }
  }

  /** What is reported for a partition: the set bits whose blocks overlap it and none before it. */
  lemma ReportedForPartition(r: map<string, Info>, bits: seq<nat>, parts: seq<Partition>, bytesPerBit: nat, k: nat,
                             b: nat)
    requires Filtered(r, bits, parts, bytesPerBit) && ProperNames(parts) && k < |parts| && bytesPerBit >= 1024
    ensures parts[k].name in r && b in r[parts[k].name].blocks
            <==> b in bits && FirstAt(parts, b * bytesPerBit, bytesPerBit, k)
  {
    hide Filtered, Bucket;
    assert parts[k].name in Names(parts);
    Reported(r, bits, parts, bytesPerBit, parts[k].name, b);
    BucketMeaning(parts, b, bytesPerBit);
  }

  /** And as unpartitioned: those whose blocks overlap none. */
  lemma ReportedUnpartitioned(r: map<string, Info>, bits: seq<nat>, parts: seq<Partition>, bytesPerBit: nat, b: nat)
    requires Filtered(r, bits, parts, bytesPerBit) && ProperNames(parts) && bytesPerBit >= 1024
    ensures UNPARTITIONED in r && b in r[UNPARTITIONED].blocks
            <==> b in bits && forall k :: 0 <= k < |parts| ==> !Overlaps(parts[k], b * bytesPerBit, bytesPerBit)
  {
    hide Filtered, Bucket;
    Reported(r, bits, parts, bytesPerBit, UNPARTITIONED, b);
    BucketMeaning(parts, b, bytesPerBit);
  }

  lemma Positive(n: nat, k: nat)
    requires n > 0
    ensures n * k > 0 <==> k > 0
  {
    if k > 0 {
      MulMonotone(1, n, k);
    }
  }
}
