/**
 The resource table message (src/lib/bcmp/bcmp_resource_discovery.cpp): a header, the published names
 and the subscribed names, each behind its length, in little-endian bytes.
 */
module ResourceTable {

  type byte = x: int | 0 <= x < 0x100
  type u16 = x: int | 0 <= x < 0x1_0000
  type u64 = x: int | 0 <= x < 0x1_0000_0000_0000_0000

  datatype Option<T> = None | Some(value: T)

  type Name = s: seq<byte> | |s| < 0x1_0000

  datatype Table = Table(nodeId: u64, pubs: seq<Name>, subs: seq<Name>)

  const HEADER := 12

  // ---- the message as bytes ----

  // The `width` low bytes of a number, lowest first.
  function LittleEndian(n: nat, width: nat): (b: seq<byte>)
    ensures |b| == width
    decreases width
  {
    if width == 0 then [] else [n % 0x100] + LittleEndian(n / 0x100, width - 1)
  }

  function Number(b: seq<byte>): nat {
    if b == [] then 0 else b[0] + 0x100 * Number(b[1..])
  }

  function Power(k: nat): (p: nat)
    ensures p > 0
  {
    if k == 0 then 1 else 0x100 * Power(k - 1)
  }

  function EntryBytes(name: Name): seq<byte> {
    LittleEndian(|name|, 2) + name
  }

  function ListBytes(names: seq<Name>): seq<byte> {
    if names == [] then [] else EntryBytes(names[0]) + ListBytes(names[1..])
  }

  function HeaderBytes(t: Table): (b: seq<byte>)
    ensures |b| == HEADER
  {
    LittleEndian(t.nodeId, 8) + LittleEndian(|t.pubs| % 0x1_0000, 2) + LittleEndian(|t.subs| % 0x1_0000, 2)
  }

  function Encode(t: Table): seq<byte> {
    HeaderBytes(t) + ListBytes(t.pubs) + ListBytes(t.subs)
  }

  // `count` names from `offset` on and where they end; None if they run out of the message.
  function Walk(b: seq<byte>, offset: nat, count: nat): (r: Option<(seq<Name>, nat)>)
    ensures r.Some? ==> |r.value.0| == count && offset <= r.value.1
    ensures r.Some? && count > 0 ==> r.value.1 <= |b|
    decreases count
  {
    if count == 0 then Some(([], offset))
    else if offset + 2 > |b| then None
    else
      var len := Number(b[offset..offset + 2]);
      if offset + 2 + len > |b| then None
      else match Walk(b, offset + 2 + len, count - 1)
        case None => None
        case Some((names, end)) =>
          NumberFits(b[offset..offset + 2]);
          var name: Name := b[offset + 2..offset + 2 + len];
          Some(([name] + names, end))
  }

  function Decode(b: seq<byte>): Option<Table> {
    if |b| < HEADER then None
    else
      NumberFits(b[..8]); NumberFits(b[8..10]); NumberFits(b[10..12]);
      match Walk(b, HEADER, Number(b[8..10]))
      case None => None
      case Some((pubs, middle)) =>
        match Walk(b, middle, Number(b[10..12]))
        case None => None
        case Some((subs, _)) => Some(Table(Number(b[..8]), pubs, subs))
  }

  lemma {:induction false} NumberFits(b: seq<byte>)
    ensures Number(b) < Power(|b|)
    ensures |b| == 2 ==> Number(b) < 0x1_0000
    ensures |b| == 8 ==> Number(b) < 0x1_0000_0000_0000_0000
  {
    if b == [] {
    } else {
      NumberFits(b[1..]);
    }
    PowerOfEight();
  }

  lemma {:induction false} PowerOfEight()
    ensures Power(2) == 0x1_0000 && Power(8) == 0x1_0000_0000_0000_0000
  {
    assert Power(2) == 0x100 * Power(1) && Power(1) == 0x100;
    assert Power(4) == 0x100 * Power(3) && Power(3) == 0x100 * Power(2);
    assert Power(6) == 0x100 * Power(5) && Power(5) == 0x100 * Power(4);
    assert Power(8) == 0x100 * Power(7) && Power(7) == 0x100 * Power(6);
  }

  lemma {:induction false} NumberOfBytes(n: nat, width: nat)
    requires n < Power(width)
    ensures Number(LittleEndian(n, width)) == n
    decreases width
  {
    if width == 0 {
    } else {
      assert n / 0x100 < Power(width - 1);
      NumberOfBytes(n / 0x100, width - 1);
    }
  }

  lemma {:induction false} BytesOfNumber(b: seq<byte>)
    ensures LittleEndian(Number(b), |b|) == b
  {
    if b == [] {
    } else {
      assert Number(b) / 0x100 == Number(b[1..]) && Number(b) % 0x100 == b[0];
      BytesOfNumber(b[1..]);
    }
  }

  /** The order of the bytes: byte i of a number is its i-th from the low end, on both sides. */
  lemma {:induction false} LittleEndianAt(n: nat, width: nat, i: nat)
    requires i < width
    ensures LittleEndian(n, width)[i] == n / Power(i) % 0x100
    decreases i
  {
    hide LittleEndian, Power;
    NextByte(n, width, i);
    if i > 0 {
      LittleEndianAt(n / 0x100, width - 1, i - 1);
      QuotientOfQuotient(n, Power(i - 1));
    }
  }

  lemma {:induction false} NextByte(n: nat, width: nat, i: nat)
    requires width > 0
    ensures LittleEndian(n, width) == [n % 0x100] + LittleEndian(n / 0x100, width - 1)
    ensures Power(i) == if i == 0 then 1 else 0x100 * Power(i - 1)
  {
  }

  lemma {:induction false} QuotientOfQuotient(n: nat, p: nat)
    requires p > 0
    ensures n / 0x100 / p == n / (0x100 * p)
  {
    var q, r := n / 0x100, n % 0x100;
    var q', r' := q / p, q % p;
    assert n == 0x100 * (p * q' + r') + r;
    assert n == (0x100 * p) * q' + (0x100 * r' + r);
    QuotientIs(n, 0x100 * p, q', 0x100 * r' + r);
  }

  lemma {:induction false} QuotientIs(a: nat, d: nat, q: nat, r: nat)
    requires d > 0 && a == d * q + r && r < d
    ensures a / d == q && a % d == r
  {
    var k := a / d;
    assert a == d * k + a % d;
    assert k > q ==> d * k >= d * (q + 1);
    assert k < q ==> d * (k + 1) <= d * q;
  }

  // A length or a count takes two bytes, the low one first, and is read so.
  lemma {:induction false} TwoBytes(low: byte, high: byte)
    ensures LittleEndian(low + 0x100 * high, 2) == [low, high] && Number([low, high]) == low + 0x100 * high
  {
    QuotientIs(low + 0x100 * high, 0x100, high, low);
    QuotientIs(high, 0x100, 0, high);
    assert LittleEndian(high, 1) == [high] + LittleEndian(0, 0);
    assert [low, high][1..] == [high] && [high][1..] == [];
    assert Number([high]) == high;
  }

  // ---- the round trips ----

  // The names of a walk put behind those found before it.
  function Behind(names: seq<Name>, r: Option<(seq<Name>, nat)>): Option<(seq<Name>, nat)> {
    if r == None then None else Some((names + r.value.0, r.value.1))
  }

  lemma {:induction false} WalkEntry(b: seq<byte>, offset: nat, count: nat, name: Name)
    requires count > 0 && offset + 2 + |name| <= |b|
    requires b[offset..offset + 2] == LittleEndian(|name|, 2) && b[offset + 2..offset + 2 + |name|] == name
    ensures Walk(b, offset, count) == Behind([name], Walk(b, offset + 2 + |name|, count - 1))
  {
    hide Number, LittleEndian, Power;
    PowerOfEight();
    NumberOfBytes(|name|, 2);
  }

  /** The walk finds the names it was written from, in their order, wherever the list stands. */
  lemma {:induction false} WalkOfList(before: seq<byte>, names: seq<Name>, after: seq<byte>)
    ensures Walk(before + ListBytes(names) + after, |before|, |names|)
         == Some((names, |before| + |ListBytes(names)|))
    decreases |names|
  {
    hide Walk, LittleEndian, ListBytes;
    if names == [] {
      WalkEnds(before + ListBytes(names) + after, |before|);
      NoEntries();
    } else {
      var name, rest := names[0], ListBytes(names[1..]);
      var b := before + ListBytes(names) + after;
      var len := LittleEndian(|name|, 2);
      NextEntry(names);
      assert b == before + (len + (name + (rest + after)));
      Slices(before, len, name, rest + after);
      WalkEntry(b, |before|, |names|, name);
      assert b == (before + EntryBytes(name)) + rest + after;
      WalkOfList(before + EntryBytes(name), names[1..], after);
      assert names == [name] + names[1..];
    }
  }

  lemma {:induction false} Slices(before: seq<byte>, a: seq<byte>, c: seq<byte>, after: seq<byte>)
    ensures var b := before + (a + (c + after));
            && b[|before|..|before| + |a|] == a
            && b[|before| + |a|..|before| + |a| + |c|] == c
  {
  }

  /** What the walk finds is what is written there. */
  lemma {:induction false} ListOfWalk(b: seq<byte>, offset: nat, count: nat)
    requires offset <= |b| && Walk(b, offset, count).Some?
    ensures var (names, end) := Walk(b, offset, count).value;
            end <= |b| && b[offset..end] == ListBytes(names)
    decreases count
  {
    hide Walk, LittleEndian, Number, ListBytes;
    if count > 0 {
      var len := FirstOfWalk(b, offset, count);
      ListOfWalk(b, offset + 2 + len, count - 1);
      var (rest, end) := Walk(b, offset + 2 + len, count - 1).value;
      FirstAndRest(b[offset + 2..offset + 2 + len], rest);
      ThreeSlices(b, offset, offset + 2, offset + 2 + len, end);
    } else {
      WalkEnds(b, offset);
      NoEntries();
    }
  }

  lemma {:induction false} ThreeSlices(b: seq<byte>, i: nat, j: nat, k: nat, n: nat)
    requires i <= j <= k <= n <= |b|
    ensures b[i..n] == b[i..j] + b[j..k] + b[k..n]
  {
  }

  lemma {:induction false} FirstAndRest(name: Name, rest: seq<Name>)
    ensures ListBytes([name] + rest) == LittleEndian(|name|, 2) + name + ListBytes(rest)
  {
    hide LittleEndian;
    assert ([name] + rest)[1..] == rest;
  }

  lemma {:induction false} FirstOfWalk(b: seq<byte>, offset: nat, count: nat) returns (len: nat)
    requires count > 0 && Walk(b, offset, count).Some?
    ensures offset + 2 + len <= |b| && len < 0x1_0000
    ensures b[offset..offset + 2] == LittleEndian(len, 2)
    ensures Walk(b, offset + 2 + len, count - 1).Some?
    ensures Walk(b, offset, count) == Behind([b[offset + 2..offset + 2 + len]], Walk(b, offset + 2 + len, count - 1))
  {
    hide Number, LittleEndian;
    len := Number(b[offset..offset + 2]);
    NumberFits(b[offset..offset + 2]);
    BytesOfNumber(b[offset..offset + 2]);
  }

  /** Reading a written table gives the same names in the same order, split as they were: exactly when
      both counts fit in 16 bits. */
  lemma {:induction false} RoundTripIff(t: Table)
    ensures Decode(Encode(t)) == Some(t) <==> |t.pubs| < 0x1_0000 && |t.subs| < 0x1_0000
  {
    hide Walk, ListBytes, LittleEndian, Number, Decode, Power;
    var b, h := Encode(t), HeaderBytes(t);
    HeaderFields(t);
    if |t.pubs| < 0x1_0000 && |t.subs| < 0x1_0000 {
      var middle := |h| + |ListBytes(t.pubs)|;
      WalkOfList(h, t.pubs, ListBytes(t.subs));
      assert b == (h + ListBytes(t.pubs)) + ListBytes(t.subs) + [];
      WalkOfList(h + ListBytes(t.pubs), t.subs, []);
      DecodeFrom(b, t, middle, middle + |ListBytes(t.subs)|);
    } else if Decode(b).Some? {
      var _, _ := DecodeParts(b);
    }
  }

  lemma {:induction false} DecodeFrom(b: seq<byte>, t: Table, middle: nat, end: nat)
    requires |b| >= HEADER && Number(b[..8]) == t.nodeId
    requires Walk(b, HEADER, Number(b[8..10])) == Some((t.pubs, middle))
    requires Walk(b, middle, Number(b[10..12])) == Some((t.subs, end))
    ensures Decode(b) == Some(t)
  {
    hide Walk, Number, Power;
  }

  lemma {:induction false} DecodeParts(b: seq<byte>) returns (middle: nat, end: nat)
    requires Decode(b).Some?
    ensures |b| >= HEADER
    ensures var t := Decode(b).value;
            && Number(b[..8]) == t.nodeId && Number(b[8..10]) == |t.pubs| && Number(b[10..12]) == |t.subs|
            && Walk(b, HEADER, |t.pubs|) == Some((t.pubs, middle))
            && Walk(b, middle, |t.subs|) == Some((t.subs, end))
    ensures middle <= |b|
  {
    hide Walk, Number, Power;
    NumberFits(b[..8]);
    NumberFits(b[8..10]);
    NumberFits(b[10..12]);
    middle := Walk(b, HEADER, Number(b[8..10])).value.1;
    end := Walk(b, middle, Number(b[10..12])).value.1;
    WalkEnds(b, HEADER);
  }

  lemma {:induction false} HeaderFields(t: Table)
    ensures var b := Encode(t);
            && |b| >= HEADER && Number(b[..8]) == t.nodeId
            && Number(b[8..10]) == |t.pubs| % 0x1_0000 && Number(b[10..12]) == |t.subs| % 0x1_0000
  {
    hide ListBytes, Number, LittleEndian, Power;
    var b := Encode(t);
    PowerOfEight();
    NumberOfBytes(t.nodeId, 8);
    NumberOfBytes(|t.pubs| % 0x1_0000, 2);
    NumberOfBytes(|t.subs| % 0x1_0000, 2);
    FirstParts(LittleEndian(t.nodeId, 8), LittleEndian(|t.pubs| % 0x1_0000, 2), LittleEndian(|t.subs| % 0x1_0000, 2),
               ListBytes(t.pubs), ListBytes(t.subs));
  }

  lemma {:induction false} FirstParts(id: seq<byte>, np: seq<byte>, ns: seq<byte>, pubs: seq<byte>, subs: seq<byte>)
    requires |id| == 8 && |np| == 2 && |ns| == 2
    ensures var b := id + np + ns + pubs + subs;
            b[..8] == id && b[8..10] == np && b[10..12] == ns
  {
  }

  /** A message that reads as a table begins with that table's own bytes. */
  lemma {:induction false} WhatIsReadWasWritten(b: seq<byte>)
    requires Decode(b).Some?
    ensures Encode(Decode(b).value) <= b
  {
    hide Walk, ListBytes, LittleEndian, Number, Decode, Power;
    var t := Decode(b).value;
    var middle, end := DecodeParts(b);
    ListOfWalk(b, HEADER, |t.pubs|);
    ListOfWalk(b, middle, |t.subs|);
    BytesOfNumber(b[..8]);
    BytesOfNumber(b[8..10]);
    BytesOfNumber(b[10..12]);
    NumberFits(b[8..10]);
    NumberFits(b[10..12]);
    assert HeaderBytes(t) == b[..8] + b[8..10] + b[10..12] == b[..12];
    assert Encode(t) == b[..12] + b[12..middle] + b[middle..end] == b[..end];
  }

  // ---- sending ----

  const BCMP_HEADER := 13
  const MAX_PAYLOAD := 1460

  /** What bcmp_tx, whose length parameter has 16 bits, does with the message. */
  function Transmit(b: seq<byte>): Option<seq<byte>> {
    var len := |b| % 0x1_0000;
    if len + BCMP_HEADER > MAX_PAYLOAD then None else Some(b[..len])
  }

  /** A table that fits in a packet, of 1460 bytes with 13 of its header, is sent whole and read back as it
      was; no other is sent whole. */
  lemma {:induction false} SentWholeIff(t: Table)
    ensures Transmit(Encode(t)) == Some(Encode(t)) <==> |Encode(t)| <= 1447
    ensures Transmit(Encode(t)) == None <==> |Encode(t)| % 0x1_0000 > 1447
    ensures Transmit(Encode(t)) == Some(Encode(t)) ==> Decode(Transmit(Encode(t)).value) == Some(t)
  {
    hide Decode, HeaderBytes;
    var b := Encode(t);
    if |b| + BCMP_HEADER <= MAX_PAYLOAD {
      AtLeastTwoEach(t.pubs);
      AtLeastTwoEach(t.subs);
      RoundTripIff(t);
      assert b[..|b|] == b;
    }
  }

  lemma {:induction false} AtLeastTwoEach(names: seq<Name>)
    ensures |ListBytes(names)| >= 2 * |names|
  {
    if names == [] {
    } else {
      AtLeastTwoEach(names[1..]);
    }
  }

  /** What is sent of a table with 16-bit counts reads as that table if it was sent whole, and otherwise,
      when the length wraps and the message is cut short, as no table. */
  lemma {:induction false} ReadIffWhole(t: Table)
    requires |t.pubs| < 0x1_0000 && |t.subs| < 0x1_0000
    requires Transmit(Encode(t)).Some?
    ensures var sent := Transmit(Encode(t)).value;
            Decode(sent) == if sent == Encode(t) then Some(t) else None
  {
    hide Decode, Encode;
    var b, sent := Encode(t), Transmit(Encode(t)).value;
    RoundTripIff(t);
    if Decode(sent).Some? {
      DecodeOfPrefix(sent, b);
      WhatIsReadWasWritten(sent);
      assert |b| <= |sent|;
      assert sent == b[..|sent|] == b;
    }
  }

  /** Where everything stands in a message, byte by byte. */
  lemma {:induction false} LayoutIs(t: Table)
    ensures var b := Encode(t);
            && |b| == 12 + |ListBytes(t.pubs)| + |ListBytes(t.subs)|
            && (forall i :: 0 <= i < 8 ==> b[i] == LittleEndian(t.nodeId, 8)[i])
            && b[8] == |t.pubs| % 0x100 && b[9] == |t.pubs| / 0x100 % 0x100
            && b[10] == |t.subs| % 0x100 && b[11] == |t.subs| / 0x100 % 0x100
            && b[12..12 + |ListBytes(t.pubs)|] == ListBytes(t.pubs)
            && b[12 + |ListBytes(t.pubs)|..] == ListBytes(t.subs)
  {
    hide LittleEndian, ListBytes;
    LowBytes(|t.pubs|);
    LowBytes(|t.subs|);
  }

  /** And every name stands behind those before it, as its length, the low byte first, and its characters. */
  lemma {:induction false} NameStands(before: seq<Name>, name: Name, after: seq<Name>)
    ensures var b, at := ListBytes(before + [name] + after), |ListBytes(before)|;
            && at + 2 + |name| <= |b| && b[..at] == ListBytes(before)
            && b[at] == |name| % 0x100 && b[at + 1] == |name| / 0x100 && b[at + 2..at + 2 + |name|] == name
            && b[at + 2 + |name|..] == ListBytes(after)
    decreases |before|
  {
    hide LittleEndian, ListBytes, EntryBytes;
    var names := before + [name] + after;
    NextEntry(names);
    EntryIs(names[0]);
    if before == [] {
      NoEntries();
      assert names[1..] == after;
    } else {
      NextEntry(before);
      NameStands(before[1..], name, after);
      assert names[1..] == before[1..] + [name] + after;
    }
  }

  lemma {:induction false} EntryIs(name: Name)
    ensures EntryBytes(name) == [|name| % 0x100, |name| / 0x100] + name
  {
    LowBytes(|name|);
    hide LittleEndian;
  }

  lemma {:induction false} LowBytes(n: nat)
    ensures LittleEndian(n % 0x1_0000, 2) == [n % 0x100, n / 0x100 % 0x100]
  {
    hide LittleEndian;
    var low, high, rest := n % 0x100, n / 0x100 % 0x100, n / 0x100 / 0x100;
    assert n == 0x1_0000 * rest + (low + 0x100 * high);
    QuotientIs(n, 0x1_0000, rest, low + 0x100 * high);
    TwoBytes(low, high);
  }

  // Where a message can be read, so can every longer one that begins with it, to the same end.
  lemma {:induction false} DecodeOfPrefix(a: seq<byte>, b: seq<byte>)
    requires a <= b && Decode(a).Some?
    ensures Decode(b) == Decode(a)
  {
    hide Walk, Number, Power;
    var t := Decode(a).value;
    var middle, end := DecodeParts(a);
    assert a[..8] == b[..8] && a[8..10] == b[8..10] && a[10..12] == b[10..12];
    WalkOfPrefix(a, b, HEADER, |t.pubs|);
    WalkOfPrefix(a, b, middle, |t.subs|);
    DecodeFrom(b, t, middle, end);
  }

  lemma {:induction false} WalkOfPrefix(a: seq<byte>, b: seq<byte>, offset: nat, count: nat)
    requires a <= b && offset <= |a| && Walk(a, offset, count).Some?
    ensures Walk(b, offset, count) == Walk(a, offset, count)
    decreases count
  {
    hide Walk, Number, LittleEndian;
    if count == 0 {
      WalkEnds(a, offset);
      WalkEnds(b, offset);
    } else {
      var len := FirstOfWalk(a, offset, count);
      WalkOfPrefix(a, b, offset + 2 + len, count - 1);
      var name := a[offset + 2..offset + 2 + len];
      assert b[offset..offset + 2] == a[offset..offset + 2] && b[offset + 2..offset + 2 + len] == name;
      WalkEntry(a, offset, count, name);
      WalkEntry(b, offset, count, name);
    }
  }

  // One name of 65535 bytes is enough to wrap the length.
  lemma {:induction false} LongTableIsCutShort(t: Table)
    requires |t.pubs| == 1 && |t.pubs[0]| == 0xFFFF && t.subs == []
    ensures Transmit(Encode(t)).Some? && Transmit(Encode(t)).value != Encode(t)
    ensures Decode(Transmit(Encode(t)).value) == None
  {
    hide Decode;
    assert t.pubs[1..] == [];
    assert |Encode(t)| == 0x1_000D;
    ReadIffWhole(t);
  }

  // ---- the code ----

  class Node {
    const name: Name
    var next: Node?

    constructor (name: Name)
      ensures this.name == name && next == null
    {
      this.name := name;
      next := null;
    }
  }

  function Names(ns: seq<Node>): (r: seq<Name>)
    ensures |r| == |ns|
    ensures forall i :: 0 <= i < |ns| ==> r[i] == ns[i].name
  {
    seq(|ns|, i requires 0 <= i < |ns| => ns[i].name)
  }

  // memcmp over the new name's length: true when it is a prefix of the old name. An old name that is
  // shorter is compared with what follows it in memory too, and `spill` says how that comes out.
  predicate Listed(names: seq<Name>, name: Name, spill: bool) {
    exists i :: 0 <= i < |names| && SameBytes(name, names[i], spill)
  }

  predicate SameBytes(name: Name, listed: Name, spill: bool) {
    name <= listed || (listed < name && spill)
  }

  /** A list of published or subscribed names. */
  class ResourceList {
    var start: Node?
    var end: Node?
    var numResources: u16
    ghost var nodes: seq<Node>
    ghost var repr: set<Node>

    ghost predicate Valid()
      reads this, repr
    {
      Linked() && numResources == |nodes| % 0x1_0000
    }

    ghost predicate Linked()
      reads this, repr
    {
      && (forall n :: n in nodes ==> n in repr)
      && (forall i, j :: 0 <= i < j < |nodes| ==> nodes[i] != nodes[j])
      && start == At(0) && end == (if nodes == [] then null else nodes[|nodes| - 1])
      && (forall i :: 0 <= i < |nodes| ==> nodes[i].next == At(i + 1))
    }

    ghost function At(i: nat): Node?
      reads this`nodes
    {
      if i < |nodes| then nodes[i] else null
    }

    ghost function Contents(): (names: seq<Name>)
      reads this`nodes
    {
      Names(nodes)
    }

    // A fresh node put behind the last one.
    twostate lemma {:induction false} Appended(new node: Node)
      requires old(Linked()) && node !in old(repr) && node.next == null
      requires nodes == old(nodes) + [node] && repr == old(repr) + {node} && end == node
      requires start == if old(nodes) == [] then node else old(start)
      requires old(nodes) != [] ==> old(nodes[|nodes| - 1]).next == node
      requires forall n ::
        n in old(repr) && (old(nodes) == [] || n != old(nodes[|nodes| - 1])) ==> n.next == old(n.next)
      ensures Linked()
    {
    }

    lemma {:induction false} AtTheEnd()
      requires Linked()
      ensures nodes == [] <==> start == null
      ensures nodes != [] ==> end == nodes[|nodes| - 1] && end in repr
    {
    }

    lemma {:induction false} InTheList(i: nat)
      requires Linked() && i <= |nodes|
      ensures i < |nodes| ==> nodes[i].next == At(i + 1)
      ensures start == At(0)
    {
    }

    constructor ()
      ensures Valid() && repr == {} && Contents() == []
    {
      start, end, numResources, nodes, repr := null, null, 0, [], {};
    }

    method Find(name: Name, spill: bool) returns (found: bool)
      requires Valid()
      ensures found == Listed(Contents(), name, spill)
    {
      var cur := start;
      ghost var i := 0;
      while cur != null
        invariant i <= |nodes| && cur == At(i)
        invariant forall j :: 0 <= j < i ==> !SameBytes(name, nodes[j].name, spill)
        decreases |nodes| - i
      {
        if name <= cur.name || (cur.name < name && spill) {
          assert SameBytes(name, Contents()[i], spill);
          return true;
        }
        cur, i := cur.next, i + 1;
      }
      return false;
    }

    /** A name is put at the end of the list, unless Find takes it for one that is there. */
    method Add(name: Name, spill: bool) returns (added: bool)
      requires Valid()
      modifies this, repr
      ensures Valid() && fresh(repr - old(repr))
      ensures Contents() == AddTo(old(Contents()), name, spill)
      ensures added == (Contents() != old(Contents()))
    {
      hide Names, Listed, SameBytes, Linked;
      AtTheEnd();
      NamesAppended(nodes);
      var found := Find(name, spill);
      if found { return false; }
      var node := new Node(name);
      if start == null {
        start := node;
      } else {
        end.next := node;
      }
      end := node;
      numResources := (numResources + 1) % 0x1_0000;
      nodes, repr := nodes + [node], repr + {node};
      Appended(node);
      added := true;
    }

    /** Adds the bytes this list takes to `msgLen`. */
    method ComputeListSize(msgLen: nat) returns (total: nat)
      requires Valid()
      ensures total == msgLen + |ListBytes(Contents())|
    {
      total := msgLen;
      var cur := start;
      ghost var i := 0;
      assert Contents()[0..] == Contents();
      while cur != null
        invariant i <= |nodes| && cur == At(i)
        invariant total + |ListBytes(Contents()[i..])| == msgLen + |ListBytes(Contents())|
        decreases |nodes| - i
      {
        assert Contents()[i..][1..] == Contents()[i + 1..];
        total := total + 2 + |cur.name|;
        cur, i := cur.next, i + 1;
      }
    }

    /** Writes the number of names at `countAt` and the names from `offset` on; nothing else of the
        message is touched. */
    method PopulateMsgData(buf: array<byte>, countAt: nat, offset: nat) returns (newOffset: nat)
      requires Valid() && countAt + 2 <= offset && offset + |ListBytes(Contents())| <= buf.Length
      modifies buf
      ensures newOffset == offset + |ListBytes(Contents())|
      ensures buf[..] == Splice(Splice(old(buf[..]), countAt, LittleEndian(|Contents()| % 0x1_0000, 2)), offset,
        ListBytes(Contents()))
    {
      hide ListBytes, LittleEndian, Names, Linked, Splice, EntryBytes;
      var _ := CopyInto(buf, countAt, LittleEndian(numResources, 2));
      newOffset := offset;
      ghost var was, all := buf[..], ListBytes(Contents());
      var cur := start;
      ghost var i := 0;
      assert Contents()[0..] == Contents();
      NothingSpliced(was, offset);
      NoEntries();
      InTheList(0);
      while cur != null
        invariant Valid() && i <= |nodes| && cur == At(i)
        invariant newOffset + |ListBytes(Contents()[i..])| == offset + |all|
        invariant offset <= newOffset
        invariant buf[..] == Splice(was, offset, all[..newOffset - offset])
        invariant all[newOffset - offset..] == ListBytes(Contents()[i..])
        decreases |nodes| - i
      {
        InTheList(i);
        NextEntry(Contents()[i..]);
        assert Contents()[i..][1..] == Contents()[i + 1..];
        assert all[newOffset - offset..][..|EntryBytes(cur.name)|] == EntryBytes(cur.name);
        SpliceOnward(was, offset, all, newOffset - offset, EntryBytes(cur.name));
        newOffset := CopyInto(buf, newOffset, EntryBytes(cur.name));
        cur, i := cur.next, i + 1;
      }
      assert Contents()[i..] == [];
      assert all[..newOffset - offset] == all;
    }
  }

  lemma {:induction false} NamesAppended(ns: seq<Node>)
    ensures forall n: Node :: Names(ns + [n]) == Names(ns) + [n.name]
  {
    hide Names;
  }

  lemma {:induction false} NoEntries()
    ensures ListBytes([]) == []
  {
  }

  lemma {:induction false} NextEntry(names: seq<Name>)
    requires names != []
    ensures ListBytes(names) == EntryBytes(names[0]) + ListBytes(names[1..])
  {
  }

  // Bytes with some of them overwritten.
  function Splice(b: seq<byte>, offset: nat, bytes: seq<byte>): (r: seq<byte>)
    requires offset + |bytes| <= |b|
    ensures |r| == |b|
  {
    b[..offset] + bytes + b[offset + |bytes|..]
  }

  lemma {:induction false} NothingSpliced(b: seq<byte>, offset: nat)
    requires offset <= |b|
    ensures Splice(b, offset, []) == b
  {
  }

  // Overwriting a part and then the next part.
  lemma {:induction false} SpliceOnward(b: seq<byte>, offset: nat, all: seq<byte>, k: nat, next: seq<byte>)
    requires offset + |all| <= |b| && k + |next| <= |all| && all[k..k + |next|] == next
    ensures Splice(Splice(b, offset, all[..k]), offset + k, next) == Splice(b, offset, all[..k + |next|])
  {
    assert all[..k + |next|] == all[..k] + next;
  }

  /** memcpy. */
  method CopyInto(buf: array<byte>, offset: nat, bytes: seq<byte>) returns (end: nat)
    requires offset + |bytes| <= buf.Length
    modifies buf
    ensures end == offset + |bytes|
    ensures buf[..] == Splice(old(buf[..]), offset, bytes)
  {
    for i := 0 to |bytes|
      invariant forall k :: 0 <= k < i ==> buf[offset + k] == bytes[k]
      invariant forall k :: 0 <= k < offset || offset + i <= k < buf.Length ==> buf[k] == old(buf[k])
    {
      buf[offset + i] := bytes[i];
    }
    end := offset + |bytes|;
  }

  /** The reply to a request: the size is computed first, and is just what is then written. */
  method BuildReply(nodeId: u64, pubList: ResourceList, subList: ResourceList) returns (buf: array<byte>)
    requires pubList.Valid() && subList.Valid()
    ensures fresh(buf) && buf[..] == Encode(Table(nodeId, pubList.Contents(), subList.Contents()))
  {
    hide ListBytes, LittleEndian, Names, Splice, ResourceList.Valid, ResourceList.Linked, ResourceList.Contents;
    var msgLen := pubList.ComputeListSize(HEADER);
    msgLen := subList.ComputeListSize(msgLen);
    buf := new byte[msgLen](_ => 0);
    ghost var b0, pubs, subs := buf[..], pubList.Contents(), subList.Contents();
    ghost var id, np, ns := LittleEndian(nodeId, 8), LittleEndian(|pubs| % 0x1_0000, 2),
      LittleEndian(|subs| % 0x1_0000, 2);
    ghost var pubBytes, subBytes := ListBytes(pubs), ListBytes(subs);
    var _ := CopyInto(buf, 0, LittleEndian(nodeId, 8));
    assert buf[..] == Splice(b0, 0, id) && pubList.Contents() == pubs && subList.Contents() == subs;
    var offset := pubList.PopulateMsgData(buf, 8, HEADER);
    assert buf[..] == Splice(Splice(Splice(b0, 0, id), 8, np), HEADER, pubBytes) && subList.Contents() == subs;
    offset := subList.PopulateMsgData(buf, 10, offset);
    assert offset == msgLen;
    Assembled(b0, id, np, ns, pubBytes, subBytes);
  }

  lemma {:induction false} Assembled(b: seq<byte>, id: seq<byte>, np: seq<byte>, ns: seq<byte>, pubs: seq<byte>,
      subs: seq<byte>)
    requires |id| == 8 && |np| == 2 && |ns| == 2 && |b| == HEADER + |pubs| + |subs|
    ensures Splice(Splice(Splice(Splice(Splice(b, 0, id), 8, np), HEADER, pubs), 10, ns), HEADER + |pubs|, subs)
         == id + np + ns + pubs + subs
  {
    var b1 := Splice(b, 0, id);
    var b2 := Splice(b1, 8, np);
    assert b2[..10] == id + np;
    var b3 := Splice(b2, HEADER, pubs);
    assert b3[..10] == id + np && b3[HEADER..HEADER + |pubs|] == pubs;
    var b4 := Splice(b3, 10, ns);
    assert b4[..HEADER] == id + np + ns && b4[HEADER..HEADER + |pubs|] == pubs;
    assert b4[..HEADER + |pubs|] == id + np + ns + pubs;
  }

  /** What becomes of a reply: it is ignored, handed to the caller that asked for it, or printed. */
  datatype Handling = Ignored | HandedOver | Printed(table: Option<Table>)

  /** The reply handler.  A reply that names another node than its sender is ignored; without a callback
      for the sender the names are printed, or None where it would read beyond the message. */
  method ProcessReply(buf: array<byte>, sender: u64, callback: bool) returns (r: Handling)
    requires buf.Length >= 8
    ensures r == if Number(buf[..8]) != sender then Ignored else if callback then HandedOver
      else Printed(Decode(buf[..]))
  {
    hide Walk, Number, Power, Decode;
    if Number(buf[..8]) != sender { return Ignored; }
    if callback { return HandedOver; }
    var table := PrintTable(buf);
    r := Printed(table);
  }

  method PrintTable(buf: array<byte>) returns (r: Option<Table>)
    ensures r == Decode(buf[..])
  {
    hide Walk, Number, Power;
    if buf.Length < HEADER { return None; }
    NumberFits(buf[..8]);
    NumberFits(buf[8..10]);
    NumberFits(buf[10..12]);
    assert buf[..][..8] == buf[..8] && buf[..][8..10] == buf[8..10] && buf[..][10..12] == buf[10..12];
    var numPubs, numSubs := Number(buf[8..10]), Number(buf[10..12]);
    var pubs := PrintList(buf, HEADER, numPubs);
    if pubs == None { return None; }
    var subs := PrintList(buf, pubs.value.1, numSubs);
    if subs == None { return None; }
    r := Some(Table(Number(buf[..8]), pubs.value.0, subs.value.0));
  }

  method PrintList(buf: array<byte>, start: nat, count: nat) returns (r: Option<(seq<Name>, nat)>)
    ensures r == Walk(buf[..], start, count)
  {
    hide Walk, Number, Power;
    var names: seq<Name>, offset: nat, left := [], start, count;
    BehindNothing(Walk(buf[..], start, count));
    while left > 0
      invariant 0 <= left
      invariant Behind(names, Walk(buf[..], offset, left)) == Walk(buf[..], start, count)
    {
      WalkStep(names, buf[..], offset, left);
      if offset + 2 > buf.Length { return None; }
      assert buf[..][offset..offset + 2] == buf[offset..offset + 2];
      NumberFits(buf[offset..offset + 2]);
      var len := Number(buf[offset..offset + 2]);
      if offset + 2 + len > buf.Length { return None; }
      assert buf[..][offset + 2..offset + 2 + len] == buf[offset + 2..offset + 2 + len];
      names := names + [buf[offset + 2..offset + 2 + len]];
      offset, left := offset + 2 + len, left - 1;
    }
    WalkEnds(buf[..], offset);
    r := Some((names, offset));
    assert names + [] == names;
  }

  lemma {:induction false} BehindNothing(r: Option<(seq<Name>, nat)>)
    ensures Behind([], r) == r
  {
    if r.Some? { assert [] + r.value.0 == r.value.0; }
  }

  lemma {:induction false} WalkEnds(b: seq<byte>, offset: nat)
    ensures Walk(b, offset, 0) == Some(([], offset))
  {
  }

  lemma {:induction false} WalkStep(names: seq<Name>, b: seq<byte>, offset: nat, count: nat)
    requires count > 0
    ensures offset + 2 > |b| ==> Walk(b, offset, count) == None
    ensures offset + 2 <= |b| ==>
      var len := Number(b[offset..offset + 2]);
      && len < 0x1_0000
      && (offset + 2 + len > |b| ==> Walk(b, offset, count) == None)
      && (offset + 2 + len <= |b| ==>
          Behind(names, Walk(b, offset, count))
          == Behind(names + [b[offset + 2..offset + 2 + len]], Walk(b, offset + 2 + len, count - 1)))
  {
    if offset + 2 <= |b| {
      NumberFits(b[offset..offset + 2]);
      var len := Number(b[offset..offset + 2]);
      if offset + 2 + len <= |b| {
        var rest := Walk(b, offset + 2 + len, count - 1);
        if rest.Some? {
          var name := b[offset + 2..offset + 2 + len];
          assert names + ([name] + rest.value.0) == names + [name] + rest.value.0;
        }
      }
    }
  }

  // ---- the lists ----

  // No name is a prefix of an earlier one; so no name is there twice.
  predicate NoLaterPrefix(names: seq<Name>) {
    forall i, j :: 0 <= i < j < |names| ==> !(names[j] <= names[i])
  }

  function AddTo(names: seq<Name>, name: Name, spill: bool): seq<Name> {
    if Listed(names, name, spill) then names else names + [name]
  }

  function AddAll(names: seq<Name>, adds: seq<(Name, bool)>): seq<Name>
    decreases |adds|
  {
    if adds == [] then names else AddAll(AddTo(names, adds[0].0, adds[0].1), adds[1..])
  }

  /** Over every run of additions the names stay distinct and keep the order of their first addition. */
  lemma {:induction false} NamesStayDistinct(names: seq<Name>, adds: seq<(Name, bool)>)
    requires NoLaterPrefix(names)
    ensures NoLaterPrefix(AddAll(names, adds)) && names <= AddAll(names, adds)
    ensures forall i, j :: 0 <= i < j < |AddAll(names, adds)| ==> AddAll(names, adds)[i] != AddAll(names, adds)[j]
    decreases |adds|
  {
    if adds == [] {
    } else {
      NamesStayDistinct(AddTo(names, adds[0].0, adds[0].1), adds[1..]);
    }
  }

  /** A new name is added exactly when it does not begin a listed one, and no listed one begins it with
      memory that happens to go on as it does. */
  lemma {:induction false} NewNameIsAddedIff(names: seq<Name>, name: Name, spill: bool)
    requires name !in names
    ensures AddTo(names, name, spill) == names + [name]
       <==> forall i :: 0 <= i < |names| ==> !(name < names[i]) && !(names[i] < name && spill)
  {
    assert AddTo(names, name, spill) == names + [name] <==> !Listed(names, name, spill);
    forall i | 0 <= i < |names|
      ensures SameBytes(name, names[i], spill) <==> name < names[i] || (names[i] < name && spill)
    {
      assert name != names[i];
    }
  }

  // The name [1] is refused where [1, 2] is listed, and [1, 2] where [1] is, if a 2 happens to follow it.
  lemma {:induction false} RefusedNames()
    ensures var short: Name, long: Name := [1], [1, 2];
            AddTo([long], short, false) == [long] && AddTo([short], long, true) == [short]
  {
    var short: Name, long: Name := [1], [1, 2];
    assert SameBytes(short, [long][0], false) && SameBytes(long, [short][0], true);
  }
}
