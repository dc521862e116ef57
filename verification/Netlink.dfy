/** libnla: netlink attributes in a message buffer, written with nla_put and nla_nest_start/end, read with
    nla_for_each_attr. Integers of a header are taken to be in little-endian host order. */
module Netlink {
  import Arith
  import opened BlockDevice
  import opened Wrappers

  const NLA_HDRLEN: nat := 4
  const NLA_F_NESTED: nat := 0x8000
  const NLA_TYPE_MASK: nat := 0x3FFF

  // ---- sizes ----

  function NlaAlign(len: nat): (r: nat)
    ensures len <= r < len + 4 && r % 4 == 0
  {
    (len + 3) / 4 * 4
  }

  function AttrSize(payload: nat): nat {
    NLA_HDRLEN + payload
  }

  function TotalSize(payload: nat): nat {
    NlaAlign(AttrSize(payload))
  }

  function PadLen(payload: nat): nat {
    TotalSize(payload) - AttrSize(payload)
  }

  // ---- what is written ----

  function U16Bytes(x: nat): (r: seq<byte>)
    ensures |r| == 2
  {
    [(x % 0x100) as byte, (x / 0x100 % 0x100) as byte]
  }

  function U16Of(b: seq<byte>, at: nat): (r: nat)
    requires at + 2 <= |b|
    ensures r < 0x1_0000
  {
    b[at] as nat + 0x100 * (b[at + 1] as nat)
  }

  lemma TwoBytes(x: nat)
    ensures x % 0x100 + 0x100 * (x / 0x100 % 0x100) == x % 0x1_0000
  {
    var high := x / 0x100;
    assert x == 0x100 * high + x % 0x100;
    assert high == 0x100 * (high / 0x100) + high % 0x100;
    Arith.DivRange(x, 0x1_0000, high / 0x100);
  }

  lemma U16RoundTrip(x: nat)
    ensures U16Of(U16Bytes(x), 0) == x % 0x1_0000
  {
    TwoBytes(x);
  }

  /** The header: length and type, both truncated to 16 bits. */
  function Header(len: nat, typ: nat): (r: seq<byte>)
    ensures |r| == NLA_HDRLEN
  {
    U16Bytes(len) + U16Bytes(typ)
  }

  /** Where __nla_reserve clears the padding: it adds up the length that was just stored in 16 bits. */
  function PadOffset(payload: nat): nat {
    AttrSize(payload) % 0x1_0000
  }

  /** The header of an attribute with that payload. If the length is truncated, clearing the padding can hit it. */
  function LeafHeader(payload: nat, typ: nat): (r: seq<byte>)
    ensures |r| == NLA_HDRLEN
  {
    var (h, off, pad) := (Header(AttrSize(payload), typ), PadOffset(payload), PadLen(payload));
    seq(NLA_HDRLEN, i requires 0 <= i < NLA_HDRLEN => if off <= i < off + pad then 0 else h[i])
  }

  /** The stored length survives; the type does if the length is not truncated. */
  lemma LeafHeaderFields(payload: nat, typ: nat)
    ensures U16Of(LeafHeader(payload, typ), 0) == AttrSize(payload) % 0x1_0000
    ensures AttrSize(payload) < 0x1_0000 ==> LeafHeader(payload, typ) == Header(AttrSize(payload), typ)
  {
    var off := PadOffset(payload);
    U16RoundTrip(AttrSize(payload));
    assert off <= 1 ==> (AttrSize(payload) / 0x100) % 0x100 == 0;
    assert off == 0 ==> PadLen(payload) == 0;
  }

  /** An attribute: a payload of bytes, or nested attributes. */
  datatype Attr = Leaf(typ: nat, payload: seq<byte>) | Nest(typ: nat, children: seq<Attr>)

  function Encode(a: Attr): (r: seq<byte>)
    ensures |r| >= NLA_HDRLEN && |r| % 4 == 0
  {
    match a
    case Leaf(typ, payload) =>
      var r := LeafHeader(|payload|, typ) + payload + Repeat(0, PadLen(|payload|));
      assert |r| == TotalSize(|payload|);
      r
    case Nest(typ, children) =>
      var body := EncodeAll(children);
      SumAligned(NLA_HDRLEN, |body|);
      Header(AttrSize(|body|), WithFlag(typ)) + body
  }

  function EncodeAll(attrs: seq<Attr>): (r: seq<byte>)
    ensures |r| % 4 == 0
  {
    if attrs == [] then []
    else
      var (first, rest) := (Encode(attrs[0]), EncodeAll(attrs[1..]));
      SumAligned(|first|, |rest|);
      first + rest
  }

  lemma SumAligned(a: nat, b: nat)
    requires a % 4 == 0 && b % 4 == 0
    ensures (a + b) % 4 == 0
  {
  }

  /** typ | NLA_F_NESTED */
  function WithFlag(typ: nat): nat {
    if typ / NLA_F_NESTED % 2 == 1 then typ else typ + NLA_F_NESTED
  }

  // ---- what is read ----

  /** An attribute as the iteration sees it. */
  datatype View = View(rawType: nat, payload: seq<byte>)

  /** nla_ok */
  predicate NlaOk(buf: seq<byte>) {
    |buf| >= NLA_HDRLEN && NLA_HDRLEN <= U16Of(buf, 0) <= |buf|
  }

  function Head(buf: seq<byte>): View
    requires NlaOk(buf)
  {
    View(U16Of(buf, 2), buf[NLA_HDRLEN..U16Of(buf, 0)])
  }

  /** nla_next; an attribute whose padding is missing is the last one. */
  function Rest(buf: seq<byte>): (r: seq<byte>)
    requires NlaOk(buf)
    ensures |r| < |buf|
  {
    if NlaAlign(U16Of(buf, 0)) <= |buf| then buf[NlaAlign(U16Of(buf, 0))..] else []
  }

  /** nla_for_each_attr, for any bytes. */
  function Attributes(buf: seq<byte>): seq<View>
    decreases |buf|
  {
    if NlaOk(buf) then [Head(buf)] + Attributes(Rest(buf)) else []
  }

  // ---- round trip ----

  /** Bytes up to the padding. */
  function Size(a: Attr): (r: nat)
    ensures r >= NLA_HDRLEN
  {
    match a
    case Leaf(_, payload) => AttrSize(|payload|)
    case Nest(_, children) => AttrSize(|EncodeAll(children)|)
  }

  /** What a reader should see of an attribute. */
  function Expected(a: Attr): View {
    match a
    case Leaf(typ, payload) => View(typ % 0x1_0000, payload)
    case Nest(typ, children) => View(WithFlag(typ) % 0x1_0000, EncodeAll(children))
  }

  function AllExpected(attrs: seq<Attr>): (r: seq<View>)
    ensures |r| == |attrs|
  {
    seq(|attrs|, k requires 0 <= k < |attrs| => Expected(attrs[k]))
  }

  /** The header of an encoded attribute. */
  function HeaderOf(a: Attr): (r: seq<byte>)
    ensures |r| == NLA_HDRLEN
  {
    match a
    case Leaf(typ, payload) => LeafHeader(|payload|, typ)
    case Nest(typ, children) => Header(AttrSize(|EncodeAll(children)|), WithFlag(typ))
  }

  /** An encoded attribute is its header, its payload and padding. */
  lemma EncodedShape(a: Attr)
    ensures |Encode(a)| == NlaAlign(Size(a)) && Size(a) == NLA_HDRLEN + |Expected(a).payload|
    ensures Encode(a)[..Size(a)] == HeaderOf(a) + Expected(a).payload
  {
    hide Header, LeafHeader, NlaAlign, EncodeAll, Repeat;
    match a
    case Leaf(typ, payload) =>
      var shown := HeaderOf(a) + payload;
      assert (shown + Repeat(0, PadLen(|payload|)))[..|shown|] == shown;
    case Nest(typ, children) =>
      var shown := HeaderOf(a) + EncodeAll(children);
      Aligned(|shown|);
      assert shown[..|shown|] == shown;
  }

  lemma Aligned(n: nat)
    ensures n % 4 == 0 ==> NlaAlign(n) == n
  {
  }

  lemma HeaderFields(a: Attr)
    ensures U16Of(HeaderOf(a), 0) == Size(a) % 0x1_0000
    ensures Size(a) < 0x1_0000 ==> U16Of(HeaderOf(a), 2) == Expected(a).rawType
  {
    hide LeafHeader;
    var typ := if a.Leaf? then a.typ else WithFlag(a.typ);
    U16RoundTrip(Size(a));
    U16RoundTrip(typ);
    if a.Leaf? {
      LeafHeaderFields(|a.payload|, a.typ);
    }
  }

  lemma FieldsInFront(h: seq<byte>, more: seq<byte>)
    requires |h| == NLA_HDRLEN
    ensures U16Of(h + more, 0) == U16Of(h, 0) && U16Of(h + more, 2) == U16Of(h, 2)
  {
  }

  /** The parts of an encoded attribute in front of more bytes. */
  lemma EncodedParts(a: Attr, more: seq<byte>)
    ensures var buf := Encode(a) + more;
            && |buf| >= NLA_HDRLEN && U16Of(buf, 0) == Size(a) % 0x1_0000
            && (Size(a) < 0x1_0000 ==> U16Of(buf, 2) == Expected(a).rawType)
            && |Encode(a)| == NlaAlign(Size(a)) && buf[NLA_HDRLEN..Size(a)] == Expected(a).payload
  {
    hide Encode, Size, Expected, U16Of, HeaderOf;
    var buf := Encode(a) + more;
    EncodedShape(a);
    var tail := Expected(a).payload + buf[Size(a)..];
    assert buf == HeaderOf(a) + tail;
    HeaderFields(a);
    FieldsInFront(HeaderOf(a), tail);
    assert buf[NLA_HDRLEN..Size(a)] == Expected(a).payload;
  }

  /** An attribute whose size fits into 16 bits is read back, and reading goes on behind it. */
  lemma ReadsFirst(a: Attr, more: seq<byte>)
    requires Size(a) < 0x1_0000
    ensures Attributes(Encode(a) + more) == [Expected(a)] + Attributes(more)
  {
    hide Encode, Expected, U16Of, Size;
    var buf := Encode(a) + more;
    EncodedParts(a, more);
    assert buf[|Encode(a)|..] == more;
    assert Size(a) % 0x1_0000 == Size(a);
    assert Head(buf) == Expected(a) && Rest(buf) == more;
  }

  /** One that does not fit is not read back. */
  lemma LosesFirst(a: Attr, more: seq<byte>)
    requires Size(a) >= 0x1_0000
    ensures var views := Attributes(Encode(a) + more); views == [] || views[0] != Expected(a)
  {
    EncodedParts(a, more);
    var buf := Encode(a) + more;
    if NlaOk(buf) {
      assert |Head(buf).payload| < |Expected(a).payload|;
    }
  }

  predicate Fit(attrs: seq<Attr>) {
    forall k :: 0 <= k < |attrs| ==> Size(attrs[k]) < 0x1_0000
  }

  /** Attributes written one after the other are read back with their types and payloads, in order, exactly if each
      of them fits into 16 bits. */
  lemma {:induction false} AttributesRoundTrip(attrs: seq<Attr>)
    ensures Attributes(EncodeAll(attrs)) == AllExpected(attrs) <==> Fit(attrs)
  {
    if attrs != [] {
      var a, rest := attrs[0], attrs[1..];
      if Size(a) < 0x1_0000 {
        AttributesRoundTrip(rest);
        ReadsFirst(a, EncodeAll(rest));
        assert AllExpected(attrs) == [Expected(a)] + AllExpected(rest);
        FitSplit(attrs);
        ConsCancel(Expected(a), Attributes(EncodeAll(rest)), AllExpected(rest));
      } else {
        LosesFirst(a, EncodeAll(rest));
        assert AllExpected(attrs)[0] == Expected(a);
      }
    }
  }

  lemma FitSplit(attrs: seq<Attr>)
    requires attrs != []
    ensures Fit(attrs) <==> Size(attrs[0]) < 0x1_0000 && Fit(attrs[1..])
  {
    if Size(attrs[0]) < 0x1_0000 && Fit(attrs[1..]) {
      forall k | 0 <= k < |attrs|
        ensures Size(attrs[k]) < 0x1_0000
      {
        if k > 0 {
          assert attrs[k] == attrs[1..][k - 1];
        }
      }
    }
  }

  lemma ConsCancel(x: View, s: seq<View>, t: seq<View>)
    ensures [x] + s == [x] + t <==> s == t
  {
    assert ([x] + s)[1..] == s && ([x] + t)[1..] == t;
  }

  // ---- nested attributes ----

  /** Reading nested attributes as such, by their flag, to any depth. */
  function Decode(buf: seq<byte>): seq<Attr>
    decreases |buf|, 1
  {
    if NlaOk(buf) then [DecodeFirst(buf)] + Decode(Rest(buf)) else []
  }

  function DecodeFirst(buf: seq<byte>): Attr
    requires NlaOk(buf)
    decreases |buf|, 0
  {
    var v := Head(buf);
    if v.rawType >= NLA_F_NESTED then Nest(v.rawType - NLA_F_NESTED, Decode(v.payload)) else Leaf(v.rawType, v.payload)
  }

  /** The flag is not part of any type. */
  predicate Plain(attrs: seq<Attr>) {
    forall k :: 0 <= k < |attrs| ==> PlainAttr(attrs[k])
  }

  predicate PlainAttr(a: Attr) {
    a.typ < NLA_F_NESTED && (a.Nest? ==> Plain(a.children))
  }

  lemma PartsOfAll(attrs: seq<Attr>)
    requires attrs != []
    ensures Size(attrs[0]) <= |EncodeAll(attrs)| && |EncodeAll(attrs[1..])| <= |EncodeAll(attrs)|
  {
    EncodedParts(attrs[0], EncodeAll(attrs[1..]));
  }

  /** What fits inside an attribute that fits. */
  lemma {:induction false} InnerFit(attrs: seq<Attr>)
    requires |EncodeAll(attrs)| < 0x1_0000
    ensures Fit(attrs)
  {
    if attrs != [] {
      PartsOfAll(attrs);
      InnerFit(attrs[1..]);
      FitSplit(attrs);
    }
  }

  lemma DecodesFirst(a: Attr, more: seq<byte>)
    requires Size(a) < 0x1_0000 && PlainAttr(a)
    ensures Decode(Encode(a) + more)
         == [if a.Nest? then Nest(a.typ, Decode(EncodeAll(a.children))) else a] + Decode(more)
  {
    hide Encode, U16Of, Size, EncodeAll, Decode;
    var buf := Encode(a) + more;
    EncodedParts(a, more);
    assert buf[|Encode(a)|..] == more;
    assert Size(a) % 0x1_0000 == Size(a);
    assert Head(buf) == Expected(a) && Rest(buf) == more;
    DecodeOk(buf);
  }

  lemma DecodeOk(buf: seq<byte>)
    requires NlaOk(buf)
    ensures Decode(buf) == [DecodeFirst(buf)] + Decode(Rest(buf))
  {
  }

  lemma {:induction false} NestedFits(attrs: seq<Attr>)
    requires Plain(attrs) && Fit(attrs)
    ensures Decode(EncodeAll(attrs)) == attrs
  {
    if attrs != [] {
      var a := attrs[0];
      FitSplit(attrs);
      assert PlainAttr(a);
      NestedFits(attrs[1..]);
      if a.Nest? {
        InnerFit(a.children);
        NestedFits(a.children);
      }
      DecodesFirst(a, EncodeAll(attrs[1..]));
    }
  }

  lemma EncodeAllCons(a: Attr, rest: seq<Attr>)
    ensures EncodeAll([a] + rest) == Encode(a) + EncodeAll(rest) && |Encode(a)| == NlaAlign(Size(a))
  {
    assert ([a] + rest)[1..] == rest;
    EncodedParts(a, []);
  }

  lemma AlignMonotone(a: nat, b: nat)
    ensures a <= b ==> NlaAlign(a) <= NlaAlign(b)
    ensures NlaAlign(NlaAlign(a)) == NlaAlign(a) && NlaAlign(4 + a) == 4 + NlaAlign(a)
    ensures NlaAlign(a) <= b ==> NlaAlign(a) + NlaAlign(b - NlaAlign(a)) == NlaAlign(b)
  {
  }

  /** Whatever bytes are read, what is read does not take more room than they do, up to padding. */
  lemma {:induction false} DecodedSize(buf: seq<byte>)
    ensures |EncodeAll(Decode(buf))| <= NlaAlign(|buf|)
    decreases |buf|, 1
  {
    hide EncodeAll, Encode, Size, NlaAlign, DecodeFirst, Head;
    if NlaOk(buf) {
      var len := U16Of(buf, 0);
      DecodedFirstSize(buf);
      DecodedSize(Rest(buf));
      EncodeAllCons(DecodeFirst(buf), Decode(Rest(buf)));
      AlignMonotone(len, |buf|);
    } else {
      EncodeNothing(|buf|);
    }
  }

  lemma {:induction false} DecodedFirstSize(buf: seq<byte>)
    requires NlaOk(buf)
    ensures NlaAlign(Size(DecodeFirst(buf))) <= NlaAlign(U16Of(buf, 0))
    decreases |buf|, 0
  {
    hide EncodeAll, NlaAlign;
    var v := Head(buf);
    assert U16Of(buf, 0) == 4 + |v.payload|;
    DecodedSize(v.payload);
    AlignMonotone(|v.payload|, 0);
    AlignMonotone(Size(DecodeFirst(buf)), 4 + NlaAlign(|v.payload|));
    AlignMonotone(4 + |v.payload|, 0);
  }

  lemma EncodeNothing(n: nat)
    ensures |EncodeAll([])| == 0 <= NlaAlign(n) && NlaAlign(0) == 0
  {
  }

  /** The first attribute that does not fit comes back with a shorter payload, or with less nested in it. */
  lemma TooBig(a: Attr, more: seq<byte>)
    requires Size(a) >= 0x1_0000 && NlaOk(Encode(a) + more)
    ensures DecodeFirst(Encode(a) + more) != a
  {
    hide Encode, U16Of, EncodeAll;
    var buf := Encode(a) + more;
    EncodedParts(a, more);
    DecodedSize(Head(buf).payload);
  }

  lemma {:induction false} NestedRoundTripFits(attrs: seq<Attr>)
    requires Plain(attrs) && Decode(EncodeAll(attrs)) == attrs
    ensures Fit(attrs)
  {
    hide Encode, U16Of, Size, DecodeFirst;
    if attrs != [] {
      var a, more := attrs[0], EncodeAll(attrs[1..]);
      assert PlainAttr(a);
      FitSplit(attrs);
      if Size(a) < 0x1_0000 {
        DecodesFirst(a, more);
        assert Decode(more) == attrs[1..];
        NestedRoundTripFits(attrs[1..]);
      } else {
        assert NlaOk(Encode(a) + more);
        TooBig(a, more);
      }
    }
  }

  /** Attributes nested to any depth are read back as they were written exactly if the outermost ones fit into
      16 bits. */
  lemma NestedRoundTrip(attrs: seq<Attr>)
    requires Plain(attrs)
    ensures Decode(EncodeAll(attrs)) == attrs <==> Fit(attrs)
  {
    if Fit(attrs) {
      NestedFits(attrs);
    } else if Decode(EncodeAll(attrs)) == attrs {
      NestedRoundTripFits(attrs);
    }
  }

  // ---- the message buffer ----

  class MsgBuff {
    var tail: nat
    const data: array<byte>

    /** The room behind the tail is as msg_new left it. */
    ghost predicate Valid()
      reads this, data
    {
      tail % 4 == 0 && tail <= data.Length && forall i :: tail <= i < data.Length ==> data[i] == 0
    }

    ghost function Contents(): (r: seq<byte>)
      requires Valid()
      reads this, data
    {
      data[..tail]
    }

    /** msg_new */
    constructor (size: nat)
      ensures Valid() && fresh(data) && data.Length == size && Contents() == []
    {
      data := new byte[size](_ => 0);
      tail := 0;
    }

    /** Bytes copied behind the tail, at the given distance. */
    method CopyIn(at: nat, bytes: seq<byte>)
      requires at + |bytes| <= data.Length
      modifies data
      ensures data[..] == Blit(old(data[..]), at, bytes)
    {
      for i := 0 to |bytes|
        invariant forall k :: 0 <= k < data.Length ==>
                    data[k] == if at <= k < at + i then bytes[k - at] else old(data[k])
      {
        data[at + i] := bytes[i];
      }
    }

    /** __nla_reserve, for callers that have checked the room: header and padding; the payload is left as it is. */
    method NlaReserveUnchecked(typ: nat, len: nat) returns (nla: nat)
      requires Valid() && tail + TotalSize(len) <= data.Length
      modifies this`tail, data
      ensures Valid() && nla == old(tail) && tail == nla + TotalSize(len)
      ensures data[..] == Blit(Blit(old(data[..]), nla, Header(AttrSize(len), typ)),
                               nla + PadOffset(len), Repeat(0, PadLen(len)))
    {
      nla := tail;
      PadInside(len);
      tail := tail + TotalSize(len);
      CopyIn(nla, Header(AttrSize(len), typ));
      CopyIn(nla + PadOffset(len), Repeat(0, PadLen(len)));
      assert forall i :: tail <= i < data.Length ==> data[..][i] == old(data[..])[i];
    }

    /** __nla_put */
    method NlaPutUnchecked(typ: nat, payload: seq<byte>)
      requires Valid() && tail + TotalSize(|payload|) <= data.Length
      modifies this`tail, data
      ensures Valid() && Contents() == old(Contents()) + Encode(Leaf(typ, payload))
    {
      var nla := NlaReserveUnchecked(typ, |payload|);
      CopyIn(nla + NLA_HDRLEN, payload);
      PutBytes(old(data[..]), data[..], nla, typ, payload);
    }

    /** nla_put; false stands for -EMSGSIZE. */
    method NlaPut(typ: nat, payload: seq<byte>) returns (ok: bool)
      requires Valid()
      modifies this`tail, data
      ensures Valid()
      ensures ok <==> old(tail) + |Encode(Leaf(typ, payload))| <= data.Length
      ensures Contents() == old(Contents()) + if ok then Encode(Leaf(typ, payload)) else []
    {
      assert Contents() + [] == Contents();
      if data.Length - tail < TotalSize(|payload|) {
        return false;
      }
      NlaPutUnchecked(typ, payload);
      return true;
    }

    /** nla_nest_start: the place of the container's header. */
    method NlaNestStart(typ: nat) returns (start: Option<nat>)
      requires Valid()
      modifies this`tail, data
      ensures Valid()
      ensures start.Some? <==> old(tail) + NLA_HDRLEN <= data.Length
      ensures start.Some? ==> start.value == old(tail)
      ensures Contents() == old(Contents()) + if start.Some? then Header(NLA_HDRLEN, WithFlag(typ)) else []
    {
      var place := tail;
      EmptyLeaf(WithFlag(typ));
      var ok := NlaPut(WithFlag(typ), []);
      return if ok then Some(place) else None;
    }

    /** nla_nest_end: patches the length of the container, and returns the length of the message. */
    method NlaNestEnd(start: nat) returns (len: nat)
      requires Valid() && start + NLA_HDRLEN <= tail
      modifies data
      ensures Valid() && len == tail
      ensures Contents() == Blit(old(Contents()), start, U16Bytes(tail - start))
    {
      CopyIn(start, U16Bytes(tail - start));
      assert Contents() == Blit(old(Contents()), start, U16Bytes(tail - start));
      return tail;
    }
  }

  lemma PadInside(len: nat)
    ensures PadOffset(len) + PadLen(len) <= TotalSize(len) && TotalSize(len) % 4 == 0
    ensures AttrSize(len) < 0x1_0000 ==> PadOffset(len) == AttrSize(len)
    ensures AttrSize(len) >= 0x1_0000 ==> PadOffset(len) + PadLen(len) <= AttrSize(len)
  {
  }

  /** The bytes that header, padding and payload leave behind what was there. */
  lemma PutBytes(before: seq<byte>, after: seq<byte>, nla: nat, typ: nat, payload: seq<byte>)
    requires nla + TotalSize(|payload|) <= |before| && PadOffset(|payload|) + PadLen(|payload|) <= TotalSize(|payload|)
    requires forall i :: nla <= i < |before| ==> before[i] == 0
    requires after == Blit(Blit(Blit(before, nla, Header(AttrSize(|payload|), typ)),
                                nla + PadOffset(|payload|), Repeat(0, PadLen(|payload|))), nla + NLA_HDRLEN, payload)
    ensures after[..nla + TotalSize(|payload|)] == before[..nla] + Encode(Leaf(typ, payload))
    ensures forall i :: nla + TotalSize(|payload|) <= i < |before| ==> after[i] == 0
  {
    hide Header;
    PadInside(|payload|);
    var l, r := after[..nla + TotalSize(|payload|)], before[..nla] + Encode(Leaf(typ, payload));
    forall i | 0 <= i < |l|
      ensures l[i] == r[i]
    {
    }
  }

  /** Writing an attribute: nla_put, or nla_nest_start, the nested attributes, and nla_nest_end. */
  method PutAttr(msg: MsgBuff, a: Attr) returns (ok: bool)
    requires msg.Valid()
    modifies msg`tail, msg.data
    ensures msg.Valid() && old(msg.Contents()) <= msg.Contents()
    ensures ok <==> |old(msg.Contents())| + |Encode(a)| <= msg.data.Length
    ensures ok ==> msg.Contents() == old(msg.Contents()) + Encode(a)
    decreases a
  {
    match a
    case Leaf(typ, payload) =>
      ok := msg.NlaPut(typ, payload);
    case Nest(typ, children) =>
      ghost var before := msg.Contents();
      var start := msg.NlaNestStart(typ);
      if start.None? {
        return false;
      }
      ok := PutAttrs(msg, children);
      if ok {
        PatchedNest(before, typ, children);
        var _ := msg.NlaNestEnd(start.value);
      }
  }

  method PutAttrs(msg: MsgBuff, attrs: seq<Attr>) returns (ok: bool)
    requires msg.Valid()
    modifies msg`tail, msg.data
    ensures msg.Valid() && old(msg.Contents()) <= msg.Contents()
    ensures ok <==> |old(msg.Contents())| + |EncodeAll(attrs)| <= msg.data.Length
    ensures ok ==> msg.Contents() == old(msg.Contents()) + EncodeAll(attrs)
    decreases attrs
  {
    ghost var before := msg.Contents();
    if attrs == [] {
      assert before + [] == before;
      return true;
    }
    ok := PutAttr(msg, attrs[0]);
    if ok {
      assert before + Encode(attrs[0]) + EncodeAll(attrs[1..]) == before + EncodeAll(attrs);
      ok := PutAttrs(msg, attrs[1..]);
    }
  }

  /** nla_nest_end makes the header that of a container of all that was written since. */
  lemma PatchedNest(before: seq<byte>, typ: nat, children: seq<Attr>)
    ensures var body := EncodeAll(children);
            Blit(before + Header(NLA_HDRLEN, WithFlag(typ)) + body, |before|, U16Bytes(AttrSize(|body|)))
            == before + Encode(Nest(typ, children))
  {
  }

  lemma EmptyLeaf(typ: nat)
    ensures Encode(Leaf(typ, [])) == Header(NLA_HDRLEN, typ)
  {
  }

  // ---- parsing ----

  /** nla_type */
  function NlaType(v: View): nat {
    v.rawType % (NLA_TYPE_MASK + 1)
  }

  /** The first attribute of that type. */
  function FirstOf(views: seq<View>, typ: nat): Option<View> {
    if views == [] then None
    else if NlaType(views[0]) == typ then Some(views[0])
    else FirstOf(views[1..], typ)
  }

  /** The last attribute of that type. */
  function LastOf(views: seq<View>, typ: nat): Option<View> {
    if views == [] then None
    else if NlaType(views[|views| - 1]) == typ then Some(views[|views| - 1])
    else LastOf(views[..|views| - 1], typ)
  }

  lemma {:induction false} FirstMeaning(views: seq<View>, typ: nat)
    ensures FirstOf(views, typ).None? <==> forall k :: 0 <= k < |views| ==> NlaType(views[k]) != typ
    ensures FirstOf(views, typ).Some? ==>
              exists k :: 0 <= k < |views| && views[k] == FirstOf(views, typ).value && NlaType(views[k]) == typ
                          && forall l :: 0 <= l < k ==> NlaType(views[l]) != typ
  {
    if views != [] && NlaType(views[0]) != typ {
      var rest := views[1..];
      FirstMeaning(rest, typ);
      if FirstOf(rest, typ).Some? {
        var k :| 0 <= k < |rest| && rest[k] == FirstOf(rest, typ).value && NlaType(rest[k]) == typ
                 && forall l :: 0 <= l < k ==> NlaType(rest[l]) != typ;
        assert views[k + 1] == rest[k];
        forall l | 0 <= l < k + 1
          ensures NlaType(views[l]) != typ
        {
          assert l > 0 ==> views[l] == rest[l - 1];
        }
      } else {
        forall k | 0 <= k < |views|
          ensures NlaType(views[k]) != typ
        {
          assert k > 0 ==> views[k] == rest[k - 1];
        }
      }
    }
  }

  lemma {:induction false} LastMeaning(views: seq<View>, typ: nat)
    ensures LastOf(views, typ).None? <==> forall k :: 0 <= k < |views| ==> NlaType(views[k]) != typ
    ensures LastOf(views, typ).Some? ==>
              exists k :: 0 <= k < |views| && views[k] == LastOf(views, typ).value && NlaType(views[k]) == typ
                          && forall l :: k < l < |views| ==> NlaType(views[l]) != typ
  {
    if views != [] && NlaType(views[|views| - 1]) != typ {
      LastMeaning(views[..|views| - 1], typ);
    }
  }

  /** The attributes nla_parse looks at a policy for. */
  predicate InRange(v: View, maxtype: nat) {
    0 < NlaType(v) <= maxtype
  }

  /** Attributes up to the first one in range that violates the policy. */
  function Accepted(views: seq<View>, maxtype: nat, policy: View -> bool): seq<View> {
    if views == [] || (InRange(views[0], maxtype) && !policy(views[0])) then []
    else [views[0]] + Accepted(views[1..], maxtype, policy)
  }

  /** nla_find */
  method NlaFind(buf: seq<byte>, typ: nat) returns (r: Option<View>)
    ensures r == FirstOf(Attributes(buf), typ)
  {
    var pos := buf;
    while NlaOk(pos)
      invariant FirstOf(Attributes(pos), typ) == FirstOf(Attributes(buf), typ)
      decreases |pos|
    {
      assert Attributes(pos)[1..] == Attributes(Rest(pos));
      if NlaType(Head(pos)) == typ {
        return Some(Head(pos));
      }
      pos := Rest(pos);
    }
    return None;
  }

  /** nla_parse, with a policy as a test on attributes; no policy is one that accepts all. The table keeps the last
      attribute of each type in range, out of those in front of the first violation. */
  method NlaParse(tb: array<Option<View>>, buf: seq<byte>, policy: View -> bool) returns (ok: bool)
    requires tb.Length > 0
    modifies tb
    ensures ok <==> Accepted(Attributes(buf), tb.Length - 1, policy) == Attributes(buf)
    ensures tb[0] == None
    ensures forall t :: 0 < t < tb.Length ==> tb[t] == LastOf(Accepted(Attributes(buf), tb.Length - 1, policy), t)
  {
    for t := 0 to tb.Length
      invariant forall u :: 0 <= u < t ==> tb[u] == None
    {
      tb[t] := None;
    }
    hide Attributes, Accepted, LastOf, NlaOk, Rest, Head;
    var pos, maxtype := buf, tb.Length - 1;
    ghost var seen: seq<View> := [];
    ParseStart(buf, maxtype, policy);
    while NlaOk(pos)
      invariant Attributes(buf) == seen + Attributes(pos)
      invariant Accepted(Attributes(buf), maxtype, policy) == seen + Accepted(Attributes(pos), maxtype, policy)
      invariant tb[0] == None
      invariant forall t :: 0 < t < tb.Length ==> tb[t] == LastOf(seen, t)
      decreases |pos|
    {
      var v := Head(pos);
      ParseNext(seen, pos, maxtype, policy);
      if InRange(v, maxtype) {
        if !policy(v) {
          assert |seen + Attributes(pos)| > |seen|;
          return false;
        }
        tb[NlaType(v)] := Some(v);
      }
      LastNext(seen, v);
      seen := seen + [v];
      pos := Rest(pos);
    }
    ParseEnd(seen, pos, maxtype, policy);
    return true;
  }

  lemma ParseStart(buf: seq<byte>, maxtype: nat, policy: View -> bool)
    ensures Attributes(buf) == [] + Attributes(buf)
    ensures Accepted(Attributes(buf), maxtype, policy) == [] + Accepted(Attributes(buf), maxtype, policy)
    ensures forall t: nat :: LastOf([], t) == None
  {
  }

  /** One attribute: a violation ends the accepted ones, anything else is one of them. */
  lemma ParseNext(seen: seq<View>, pos: seq<byte>, maxtype: nat, policy: View -> bool)
    requires NlaOk(pos)
    ensures |Rest(pos)| < |pos|
    ensures Attributes(pos) != [] && seen + Attributes(pos) == seen + [Head(pos)] + Attributes(Rest(pos))
    ensures InRange(Head(pos), maxtype) && !policy(Head(pos)) ==>
              Accepted(Attributes(pos), maxtype, policy) == [] && seen + [] == seen
    ensures !(InRange(Head(pos), maxtype) && !policy(Head(pos))) ==>
              seen + Accepted(Attributes(pos), maxtype, policy)
                  == seen + [Head(pos)] + Accepted(Attributes(Rest(pos)), maxtype, policy)
  {
    hide NlaOk, Head, Rest, InRange, Accepted;
    var v, views := Head(pos), Attributes(Rest(pos));
    assert Attributes(pos) == [v] + views;
    AcceptNext(v, views, maxtype, policy);
    ConsAppend(seen, v, views);
    ConsAppend(seen, v, Accepted(views, maxtype, policy));
  }

  lemma ConsAppend(seen: seq<View>, v: View, views: seq<View>)
    ensures seen + ([v] + views) == seen + [v] + views
    ensures |seen + ([v] + views)| > |seen| && seen + [] == seen
  {
  }

  lemma AcceptNext(v: View, views: seq<View>, maxtype: nat, policy: View -> bool)
    ensures Accepted([v] + views, maxtype, policy)
         == if InRange(v, maxtype) && !policy(v) then [] else [v] + Accepted(views, maxtype, policy)
  {
    assert ([v] + views)[1..] == views;
  }

  lemma LastNext(seen: seq<View>, v: View)
    ensures forall t: nat :: LastOf(seen + [v], t) == if NlaType(v) == t then Some(v) else LastOf(seen, t)
  {
    assert (seen + [v])[..|seen|] == seen;
  }

  lemma ParseEnd(seen: seq<View>, pos: seq<byte>, maxtype: nat, policy: View -> bool)
    requires !NlaOk(pos)
    ensures seen + Attributes(pos) == seen && seen + Accepted(Attributes(pos), maxtype, policy) == seen
  {
  }

  // ---- what is on the wire ----

  /** The bytes of an attribute: length and type, low byte first, with the top bit of the type set for a container; then
      the payload, and zeros up to a multiple of 4. */
  lemma WireFormat(a: Attr)
    requires Size(a) < 0x1_0000 && a.typ < 0x1_0000
    ensures var e, payload := Encode(a), if a.Leaf? then a.payload else EncodeAll(a.children);
            var len := 4 + |payload|;
            && len <= |e| < len + 4 && |e| % 4 == 0
            && e[0] as int == len % 256 && e[1] as int == len / 256
            && e[2] as int == a.typ % 256
            && e[3] as int == (if a.Nest? then a.typ / 256 % 128 + 128 else a.typ / 256)
            && e[4..len] == payload && forall i :: len <= i < |e| ==> e[i] == 0
  {
    hide Encode, EncodeAll, Size, Expected, U16Of;
    var e := Encode(a);
    assert e + [] == e;
    EncodedParts(a, []);
    EncodedShape(a);
    TwoBytesOf(e, 0, 4 + |Expected(a).payload|);
    TypeBytes(a, e);
    Padding(a);
  }

  lemma TypeBytes(a: Attr, e: seq<byte>)
    requires a.typ < 0x1_0000 && |e| >= 4 && U16Of(e, 2) == Expected(a).rawType
    ensures e[2] as int == a.typ % 256
    ensures e[3] as int == (if a.Nest? then a.typ / 256 % 128 + 128 else a.typ / 256)
    ensures Expected(a).payload == if a.Leaf? then a.payload else EncodeAll(a.children)
  {
    hide U16Of, Expected;
    ExpectedFields(a);
    FlagByte(a.typ);
    TwoBytesOf(e, 2, if a.Leaf? then a.typ else a.typ % 0x8000 + 0x8000);
  }

  lemma ExpectedFields(a: Attr)
    requires a.typ < 0x1_0000
    ensures Expected(a).rawType == if a.Leaf? then a.typ else a.typ % 0x8000 + 0x8000
    ensures Expected(a).payload == if a.Leaf? then a.payload else EncodeAll(a.children)
  {
    FlagByte(a.typ);
  }

  lemma TwoBytesOf(e: seq<byte>, at: nat, x: nat)
    requires at + 2 <= |e| && U16Of(e, at) == x
    ensures e[at] as int == x % 256 && e[at + 1] as int == x / 256
  {
  }

  lemma Padding(a: Attr)
    ensures Size(a) <= |Encode(a)| && forall i :: Size(a) <= i < |Encode(a)| ==> Encode(a)[i] == 0
  {
    EncodedShape(a);
    if a.Nest? {
      Aligned(Size(a));
      assert Size(a) % 4 == 0;
    }
  }

  lemma FlagByte(typ: nat)
    requires typ < 0x1_0000
    ensures WithFlag(typ) == typ % 0x8000 + 0x8000
    ensures (typ % 0x8000 + 0x8000) % 256 == typ % 256 && (typ % 0x8000 + 0x8000) / 256 == typ / 256 % 128 + 128
  {
  }

  // ---- finding what was written ----

  /** The two flags at the top are not part of the type that is looked for. */
  lemma TypeWithoutFlags(typ: nat, flags: nat, payload: seq<byte>)
    requires typ < 0x4000 && flags < 4
    ensures NlaType(View(flags * 0x4000 + typ, payload)) == typ
  {
  }

  lemma TypeOfExpected(a: Attr)
    requires a.typ < 0x4000
    ensures NlaType(Expected(a)) == a.typ
  {
    TypeWithoutFlags(a.typ, if a.Leaf? then 0 else 2, Expected(a).payload);
  }

  /** Types without flags, as the enumerations of message attributes have them. */
  predicate SmallTypes(attrs: seq<Attr>) {
    forall k :: 0 <= k < |attrs| ==> attrs[k].typ < 0x4000
  }

  lemma {:induction false} FirstExpected(attrs: seq<Attr>, typ: nat, k: nat)
    requires SmallTypes(attrs) && k <= |attrs| && forall l :: 0 <= l < k ==> attrs[l].typ != typ
    requires k < |attrs| ==> attrs[k].typ == typ
    ensures FirstOf(AllExpected(attrs), typ) == if k < |attrs| then Some(Expected(attrs[k])) else None
  {
    if attrs != [] {
      var rest := attrs[1..];
      TypeOfExpected(attrs[0]);
      assert AllExpected(attrs)[1..] == AllExpected(rest);
      if k > 0 {
        FirstExpected(rest, typ, k - 1);
      }
    }
  }

  lemma {:induction false} LastExpected(attrs: seq<Attr>, typ: nat, k: int)
    requires SmallTypes(attrs) && -1 <= k < |attrs| && forall l :: k < l < |attrs| ==> attrs[l].typ != typ
    requires k >= 0 ==> attrs[k].typ == typ
    ensures LastOf(AllExpected(attrs), typ) == if k >= 0 then Some(Expected(attrs[k])) else None
  {
    if attrs != [] {
      var init, last := attrs[..|attrs| - 1], |attrs| - 1;
      TypeOfExpected(attrs[last]);
      assert AllExpected(attrs)[..last] == AllExpected(init);
      if k < last {
        LastExpected(init, typ, k);
      }
    }
  }

  /** Looking for a type finds the first attribute that was written with it, a container or not; none if there is none
      (then k is past the end). */
  lemma FindsWritten(attrs: seq<Attr>, typ: nat, k: nat)
    requires Fit(attrs) && SmallTypes(attrs)
    requires k <= |attrs| && (forall l :: 0 <= l < k ==> attrs[l].typ != typ) && (k < |attrs| ==> attrs[k].typ == typ)
    ensures FirstOf(Attributes(EncodeAll(attrs)), typ) == if k < |attrs| then Some(Expected(attrs[k])) else None
  {
    hide Attributes, EncodeAll, AllExpected, Expected;
    AttributesRoundTrip(attrs);
    FirstExpected(attrs, typ, k);
  }

  /** Attribute j is the first that is in range and violates the policy, or there is none and j is past the end. */
  predicate FirstViolation(attrs: seq<Attr>, maxtype: nat, policy: View -> bool, j: nat) {
    && j <= |attrs|
    && (forall l :: 0 <= l < j && 0 < attrs[l].typ <= maxtype ==> policy(Expected(attrs[l])))
    && (j < |attrs| ==> 0 < attrs[j].typ <= maxtype && !policy(Expected(attrs[j])))
  }

  lemma {:induction false} AcceptedExpected(attrs: seq<Attr>, maxtype: nat, policy: View -> bool, j: nat)
    requires SmallTypes(attrs) && FirstViolation(attrs, maxtype, policy, j)
    ensures Accepted(AllExpected(attrs), maxtype, policy) == AllExpected(attrs[..j])
  {
    if attrs != [] {
      var rest := attrs[1..];
      TypeOfExpected(attrs[0]);
      assert AllExpected(attrs) == [Expected(attrs[0])] + AllExpected(rest);
      AcceptNext(Expected(attrs[0]), AllExpected(rest), maxtype, policy);
      if j > 0 {
        AcceptedExpected(rest, maxtype, policy, j - 1);
        assert attrs[..j] == [attrs[0]] + rest[..j - 1];
      }
    }
  }

  /** Parsing keeps, for each type, the last attribute written with it, out of those in front of the first one that
      violates the policy; none if there is none (then k is -1). */
  lemma ParsesWritten(attrs: seq<Attr>, maxtype: nat, policy: View -> bool, j: nat, typ: nat, k: int)
    requires Fit(attrs) && SmallTypes(attrs) && FirstViolation(attrs, maxtype, policy, j)
    requires -1 <= k < j && (forall l :: k < l < j ==> attrs[l].typ != typ) && (k >= 0 ==> attrs[k].typ == typ)
    ensures LastOf(Accepted(Attributes(EncodeAll(attrs)), maxtype, policy), typ)
         == if k >= 0 then Some(Expected(attrs[k])) else None
    ensures Accepted(Attributes(EncodeAll(attrs)), maxtype, policy) == Attributes(EncodeAll(attrs)) <==> j == |attrs|
  {
    hide Attributes, EncodeAll, Expected, Accepted;
    AttributesRoundTrip(attrs);
    AcceptedExpected(attrs, maxtype, policy, j);
    LastExpected(attrs[..j], typ, k);
    assert j == |attrs| ==> attrs[..j] == attrs;
  }
}
