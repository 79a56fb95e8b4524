/**
 The persisted list of configuration CRCs (src/apps/bridge/sm_config_crc_list.cpp), stored as a CBOR
 array of unsigned integers (RFC 8949, section 3) at the start of a fixed slot. Items of other types in
 the array are skipped, and whatever follows it in the slot is left as it was.
 */
module CrcList {

  type byte = x: int | 0 <= x < 0x100
  type u32 = x: int | 0 <= x < 0x1_0000_0000
  type u64 = x: int | 0 <= x < 0x1_0000_0000_0000_0000

  datatype Option<+T> = None | Some(value: T)

  const MAX_BUFFER_SIZE := 50
  const MAX_LIST_SIZE := 9

  // ---- CBOR heads: a major type and an unsigned argument ----

  const UNSIGNED := 0
  const BYTES := 2
  const TEXT := 3
  const ARRAY := 4
  const MAP := 5
  const TAG := 6
  const SIMPLE := 7
  const BREAK := 0xFF

  function BigEndian(n: nat, width: nat): (b: seq<byte>)
    ensures |b| == width
    decreases width
  {
    if width == 0 then [] else BigEndian(n / 0x100, width - 1) + [n % 0x100]
  }

  function Number(b: seq<byte>): nat {
    if b == [] then 0 else 0x100 * Number(b[..|b| - 1]) + b[|b| - 1]
  }

  function Power(k: nat): nat {
    if k == 0 then 1 else 0x100 * Power(k - 1)
  }

  // Bytes that follow the initial byte of a head, from its additional information.
  function Extra(info: nat): (k: nat)
    ensures k <= 8
  {
    if info == 24 then 1 else if info == 25 then 2 else if info == 26 then 4 else if info == 27 then 8 else 0
  }

  function Info(n: u64): (info: nat)
    ensures info <= 27
  {
    if n < 24 then n else if n < 0x100 then 24 else if n < 0x1_0000 then 25 else if n < 0x1_0000_0000 then 26 else 27
  }

  function Head(major: nat, n: u64): (b: seq<byte>)
    requires major < SIMPLE
    ensures |b| == 1 + Extra(Info(n))
  {
    [major * 32 + Info(n)] + BigEndian(n, Extra(Info(n)))
  }

  // A head at an offset: the major type, the argument, and where it ends. None for heads of indefinite
  // length, reserved ones, simple values below 32 in two bytes, and heads that do not fit.
  function ReadHead(b: seq<byte>, offset: nat): (r: Option<(nat, nat, nat)>)
    ensures r.Some? ==> offset < r.value.2 <= |b|
  {
    if offset >= |b| then None
    else
      var info := b[offset] % 32;
      var end := offset + 1 + Extra(info);
      if info > 27 || end > |b| then None
      else if b[offset] / 32 == SIMPLE && info == 24 && b[offset + 1] < 32 then None
      else Some((b[offset] / 32, if info < 24 then info else Number(b[offset + 1..end]), end))
  }

  lemma {:induction false} NumberOfBytes(n: nat, width: nat)
    requires n < Power(width)
    ensures Number(BigEndian(n, width)) == n
    decreases width
  {
    if width == 0 {
    } else {
      var b := BigEndian(n, width);
      assert b[..|b| - 1] == BigEndian(n / 0x100, width - 1);
      NumberOfBytes(n / 0x100, width - 1);
    }
  }

  lemma {:induction false} Powers()
    ensures Power(1) == 0x100 && Power(2) == 0x1_0000 && Power(4) == 0x1_0000_0000
    ensures Power(8) == 0x1_0000_0000_0000_0000
  {
    assert Power(4) == 0x100 * Power(3) && Power(3) == 0x100 * Power(2) && Power(2) == 0x100 * Power(1);
    assert Power(6) == 0x100 * Power(5) && Power(5) == 0x100 * Power(4);
    assert Power(8) == 0x100 * Power(7) && Power(7) == 0x100 * Power(6);
  }

  /** A head is read back wherever it stands. */
  lemma {:induction false} HeadRoundTrip(before: seq<byte>, major: nat, n: u64, after: seq<byte>)
    requires major < SIMPLE
    ensures ReadHead(before + Head(major, n) + after, |before|) == Some((major, n, |before| + |Head(major, n)|))
  {
    hide BigEndian, Number, Power;
    Powers();
    var b, k := before + Head(major, n) + after, Extra(Info(n));
    if n >= 24 { NumberOfBytes(n, k); }
    assert b[|before|] == major * 32 + Info(n);
    assert b[|before| + 1..|before| + 1 + k] == BigEndian(n, k);
  }

  // ---- the stored list ----

  function Items(crcs: seq<u32>): seq<byte> {
    if crcs == [] then [] else Head(UNSIGNED, crcs[0]) + Items(crcs[1..])
  }

  function Encoded(crcs: seq<u32>): seq<byte>
    requires |crcs| < 0x1_0000_0000
  {
    Head(ARRAY, |crcs|) + Items(crcs)
  }

  // An item of indefinite length starts here (section 3.2): a string, an array or a map.
  predicate Indefinite(b: seq<byte>, offset: nat) {
    offset < |b| && b[offset] % 32 == 31 && BYTES <= b[offset] / 32 <= MAP
  }

  // Some item starts here.
  predicate Begins(b: seq<byte>, offset: nat) {
    ReadHead(b, offset).Some? || Indefinite(b, offset)
  }

  // Where the item at an offset ends, with all that is nested in it.
  function Skip(b: seq<byte>, offset: nat): (r: Option<nat>)
    requires offset <= |b|
    ensures r.Some? ==> offset < r.value <= |b|
    decreases |b| - offset, 0
  {
    if Indefinite(b, offset) then
      var major := b[offset] / 32;
      if major == BYTES || major == TEXT then SkipChunks(b, offset + 1, major)
      else SkipToBreak(b, offset + 1, if major == MAP then 2 else 1)
    else match ReadHead(b, offset)
      case None => None
      case Some((major, n, end)) =>
        if major == BYTES || major == TEXT then (if end + n <= |b| then Some(end + n) else None)
        else if major == ARRAY then SkipAll(b, end, n)
        else if major == MAP then SkipAll(b, end, 2 * n)
        else if major == TAG then Skip(b, end)
        else Some(end)
  }

  // So many items.
  function SkipAll(b: seq<byte>, offset: nat, items: nat): (r: Option<nat>)
    requires offset <= |b|
    ensures r.Some? ==> offset <= r.value <= |b|
    decreases |b| - offset, 1
  {
    if items == 0 then Some(offset)
    else match Skip(b, offset)
      case None => None
      case Some(next) => SkipAll(b, next, items - 1)
  }

  // Items up to a break, one by one or, in a map, two by two.
  function SkipToBreak(b: seq<byte>, offset: nat, step: nat): (r: Option<nat>)
    requires offset <= |b| && step > 0
    ensures r.Some? ==> offset < r.value <= |b|
    decreases |b| - offset, 2
  {
    if offset == |b| then None
    else if b[offset] == BREAK then Some(offset + 1)
    else match SkipAll(b, offset, step)
      case None => None
      case Some(next) => if next > offset then SkipToBreak(b, next, step) else None
  }

  // The chunks of a string, up to a break.
  function SkipChunks(b: seq<byte>, offset: nat, major: nat): (r: Option<nat>)
    requires offset <= |b|
    ensures r.Some? ==> offset < r.value <= |b|
    decreases |b| - offset
  {
    if offset == |b| then None
    else if b[offset] == BREAK then Some(offset + 1)
    else match ReadHead(b, offset)
      case None => None
      case Some((m, n, end)) => if m == major && end + n <= |b| then SkipChunks(b, end + n, major) else None
  }

  // The unsigned integers among the items from an offset on: among `count` of them, or those before the
  // first that cannot be read. They are kept in 32 bits. A tag is stepped over and is no item.
  function ReadItems(b: seq<byte>, offset: nat, count: nat): (crcs: seq<u32>)
    requires offset <= |b|
    ensures |crcs| <= count
    decreases |b| - offset
  {
    if count == 0 then []
    else
      var head := ReadHead(b, offset);
      if head.Some? && head.value.0 == TAG then ReadItems(b, head.value.2, count)
      else
        (if head.Some? && head.value.0 == UNSIGNED then [head.value.1 % 0x1_0000_0000] else [])
          + match Skip(b, offset)
            case None => []
            case Some(next) => ReadItems(b, next, count - 1)
  }

  // The list in the store; None when there is none, or what is there is not an array, or no item starts
  // where its first one should.
  function Stored(store: Option<seq<byte>>): Option<seq<u32>> {
    match store
    case None => None
    case Some(b) =>
      match ReadHead(b, 0)
      case Some((4, count, end)) =>
        if count > 0 && !Begins(b, end) then None else Some(ReadItems(b, end, count))
      case _ => None
  }

  // What decode() makes of the store: anything but an array counts as an empty list.
  function Listed(store: Option<seq<byte>>): seq<u32> {
    match Stored(store)
    case None => []
    case Some(crcs) => crcs
  }

  lemma {:induction false} ItemsRoundTrip(before: seq<byte>, crcs: seq<u32>, after: seq<byte>)
    ensures ReadItems(before + Items(crcs) + after, |before|, |crcs|) == crcs
    decreases |crcs|
  {
    hide Head, ReadHead, Skip;
    if crcs == [] {
    } else {
      var b, head, rest := before + Items(crcs) + after, Head(UNSIGNED, crcs[0]), Items(crcs[1..]);
      HeadRoundTrip(before, UNSIGNED, crcs[0], rest + after);
      assert b == before + head + (rest + after) == (before + head) + rest + after;
      NextItem(b, |before|, |crcs|);
      ItemsRoundTrip(before + head, crcs[1..], after);
    }
  }

  /** Decoding what was encoded gives the list back, whatever its length and whatever follows it. */
  lemma {:induction false} StoreRoundTrip(crcs: seq<u32>, after: seq<byte>)
    requires |crcs| < 0x1_0000_0000
    ensures Stored(Some(Encoded(crcs) + after)) == Some(crcs)
  {
    hide Head, ReadHead, Items, ReadItems, Indefinite;
    var head := Head(ARRAY, |crcs|);
    HeadRoundTrip([], ARRAY, |crcs|, Items(crcs) + after);
    assert [] + head + (Items(crcs) + after) == Encoded(crcs) + after == head + Items(crcs) + after;
    assert [] + head == head;
    ItemsRoundTrip(head, crcs, after);
    FirstItem(head, crcs, after);
  }

  lemma {:induction false} FirstItem(before: seq<byte>, crcs: seq<u32>, after: seq<byte>)
    ensures crcs != [] ==> Begins(before + Items(crcs) + after, |before|)
  {
    hide Head, ReadHead, Indefinite;
    if crcs != [] {
      HeadRoundTrip(before, UNSIGNED, crcs[0], Items(crcs[1..]) + after);
      assert before + Items(crcs) + after == before + Head(UNSIGNED, crcs[0]) + (Items(crcs[1..]) + after);
    }
  }

  lemma {:induction false} ItemsLength(crcs: seq<u32>)
    ensures |Items(crcs)| <= 5 * |crcs|
  {
    if crcs == [] {
    } else {
      ItemsLength(crcs[1..]);
    }
  }

  /** Nine are the most that are sure to fit the buffer. */
  lemma {:induction false} FitsIff(count: u32)
    ensures (forall crcs: seq<u32> | |crcs| == count :: |Encoded(crcs)| <= MAX_BUFFER_SIZE) <==> count <= MAX_LIST_SIZE
  {
    forall crcs: seq<u32> | |crcs| == count <= MAX_LIST_SIZE ensures |Encoded(crcs)| <= MAX_BUFFER_SIZE {
      ItemsLength(crcs);
    }
    var largest: seq<u32> := seq(count, _ => 0xFFFF_FFFF);
    LargestLength(largest);
    assert count > MAX_LIST_SIZE ==> |Encoded(largest)| > MAX_BUFFER_SIZE;
  }

  lemma {:induction false} LargestLength(crcs: seq<u32>)
    requires forall i :: 0 <= i < |crcs| ==> crcs[i] == 0xFFFF_FFFF
    ensures |Items(crcs)| == 5 * |crcs|
  {
    if crcs == [] {
    } else {
      LargestLength(crcs[1..]);
    }
  }

  // ---- the bytes, and any items ----

  /** The bytes of a head, whatever the major type: the type in the high three bits, and the argument in the
      rest or in one, two, four or eight bytes behind, the high one first. */
  lemma {:induction false} HeadBytes(major: nat, n: u64)
    requires major < SIMPLE
    ensures n < 24 ==> Head(major, n) == [major * 32 + n]
    ensures 24 <= n < 0x100 ==> Head(major, n) == [major * 32 + 24, n]
    ensures 0x100 <= n < 0x1_0000 ==> Head(major, n) == [major * 32 + 25, n / 0x100, n % 0x100]
    ensures 0x1_0000 <= n < 0x1_0000_0000 ==>
              Head(major, n) == [major * 32 + 26] + BigEndian(n / 0x1_0000, 2) + BigEndian(n % 0x1_0000, 2)
    ensures 0x1_0000_0000 <= n ==> Head(major, n) == [major * 32 + 27] + BigEndian(n, 8)
  {
    hide BigEndian;
    var b := n % 0x100;
    TwoBytes(n % 0x1_0000);
    TwoBytes(n / 0x1_0000 % 0x1_0000);
    Halves(n);
    OneByte(n);
    assert [major * 32 + 25] + [n / 0x100 % 0x100, n % 0x100] == [major * 32 + 25, n / 0x100 % 0x100, n % 0x100];
    assert [major * 32 + 24] + [n % 0x100] == [major * 32 + 24, n % 0x100];
    assert [major * 32 + n % 24] + [] == [major * 32 + n % 24];
  }

  lemma {:induction false} OneByte(n: nat)
    ensures BigEndian(n, 0) == [] && BigEndian(n, 1) == [n % 0x100]
  {
  }

  lemma {:induction false} TwoBytes(n: nat)
    ensures BigEndian(n, 2) == [n / 0x100 % 0x100, n % 0x100]
  {
    OneByte(n / 0x100);
  }

  lemma {:induction false} Halves(n: nat)
    ensures BigEndian(n, 4) == BigEndian(n / 0x1_0000, 2) + BigEndian(n % 0x1_0000, 2)
    ensures n < 0x1_0000 ==> BigEndian(n, 2) == [n / 0x100, n % 0x100]
  {
    TwoBytes(n);
    TwoBytes(n % 0x1_0000);
    assert BigEndian(n, 4) == BigEndian(n / 0x100, 3) + [n % 0x100];
    assert BigEndian(n / 0x100, 3) == BigEndian(n / 0x100 / 0x100, 2) + [n / 0x100 % 0x100];
    assert n / 0x100 / 0x100 == n / 0x1_0000;
    assert n % 0x1_0000 / 0x100 % 0x100 == n / 0x100 % 0x100 && n % 0x1_0000 % 0x100 == n % 0x100;
  }

  // 0x12345678 in a list by itself.
  lemma {:induction false} OneCrcEncoded()
    ensures Encoded([0x1234_5678]) == [0x81, 0x1A, 0x12, 0x34, 0x56, 0x78]
  {
    hide Head, BigEndian;
    HeadBytes(ARRAY, 1);
    HeadBytes(UNSIGNED, 0x1234_5678);
    TwoBytes(0x1234);
    TwoBytes(0x5678);
    OneItemBytes(0x1234_5678);
    assert Head(UNSIGNED, 0x1234_5678) == [0x1A, 0x12, 0x34, 0x56, 0x78];
  }

  lemma {:induction false} OneItemBytes(crc: u32)
    ensures Items([crc]) == Head(UNSIGNED, crc)
  {
    hide Head;
    assert [crc][1..] == [];
  }

  /** Data items (RFC 8949, sections 3.1 to 3.3); a map's keys and values alternate. */
  datatype Item =
    | Unsigned(n: u64)
    | Negative(n: u64)
    | String(major: nat, b: seq<byte>)
    | Array(items: seq<Item>)
    | Map(items: seq<Item>)
    | Tagged(tag: u64, item: Item)
    | Simple(value: nat)
    | Float(b: seq<byte>)
    | Chunked(major: nat, chunks: seq<seq<byte>>)
    | OpenArray(items: seq<Item>)
    | OpenMap(items: seq<Item>)

  predicate WellFormed(item: Item)
    decreases item
  {
    match item
    case Unsigned(_) => true
    case Negative(_) => true
    case String(major, b) => (major == 2 || major == 3) && |b| < 0x1_0000_0000_0000_0000
    case Array(items) => |items| < 0x1_0000_0000_0000_0000 && AllWellFormed(items)
    case Map(items) => |items| < 0x1_0000_0000_0000_0000 && |items| % 2 == 0 && AllWellFormed(items)
    case Tagged(_, inner) => WellFormed(inner)
    case Simple(n) => n < 24
    case Float(b) => |b| == 2 || |b| == 4 || |b| == 8
    case Chunked(major, chunks) =>
      (major == 2 || major == 3) && forall i :: 0 <= i < |chunks| ==> |chunks[i]| < 0x1_0000_0000_0000_0000
    case OpenArray(items) => AllWellFormed(items)
    case OpenMap(items) => |items| % 2 == 0 && AllWellFormed(items)
  }

  predicate AllWellFormed(items: seq<Item>)
    decreases items
  {
    items == [] || (WellFormed(items[0]) && AllWellFormed(items[1..]))
  }

  function Bytes(item: Item): seq<byte>
    requires WellFormed(item)
    decreases item
  {
    match item
    case Unsigned(n) => Head(0, n)
    case Negative(n) => Head(1, n)
    case String(major, b) => Head(major, |b|) + b
    case Array(items) => Head(4, |items|) + AllBytes(items)
    case Map(items) => Head(5, |items| / 2) + AllBytes(items)
    case Tagged(tag, inner) => Head(6, tag) + Bytes(inner)
    case Simple(n) => [0xE0 + n]
    case Float(b) => [if |b| == 2 then 0xF9 else if |b| == 4 then 0xFA else 0xFB] + b
    case Chunked(major, chunks) => [major * 32 + 31] + (ChunkBytes(major, chunks) + [0xFF])
    case OpenArray(items) => [0x9F] + (AllBytes(items) + [0xFF])
    case OpenMap(items) => [0xBF] + (AllBytes(items) + [0xFF])
  }

  function AllBytes(items: seq<Item>): seq<byte>
    requires AllWellFormed(items)
    decreases items
  {
    if items == [] then [] else Bytes(items[0]) + AllBytes(items[1..])
  }

  function ChunkBytes(major: nat, chunks: seq<seq<byte>>): seq<byte>
    requires major == 2 || major == 3
    requires forall i :: 0 <= i < |chunks| ==> |chunks[i]| < 0x1_0000_0000_0000_0000
    decreases |chunks|
  {
    if chunks == [] then [] else Head(major, |chunks[0]|) + chunks[0] + ChunkBytes(major, chunks[1..])
  }

  // The numbers that an item adds to the list: an unsigned one itself, also behind tags, in 32 bits.
  function Numbers(item: Item): seq<u32>
    decreases item
  {
    match item
    case Unsigned(n) => [n % 0x1_0000_0000]
    case Tagged(_, inner) => Numbers(inner)
    case _ => []
  }

  function AllNumbers(items: seq<Item>): seq<u32> {
    if items == [] then [] else Numbers(items[0]) + AllNumbers(items[1..])
  }

  // No item begins like a break.
  lemma {:induction false} FirstByte(item: Item)
    requires WellFormed(item)
    ensures Bytes(item) != [] && Bytes(item)[0] != 0xFF
  {
    hide BigEndian, AllBytes, ChunkBytes;
  }

  // Any item is skipped from its first byte to its last, with all that is nested in it.
  lemma {:induction false} SkipsItem(before: seq<byte>, item: Item, after: seq<byte>)
    requires WellFormed(item)
    ensures Skip(before + Bytes(item) + after, |before|) == Some(|before| + |Bytes(item)|)
    decreases item, 1
  {
    hide WellFormed, Bytes, Skip;
    match item
    case Unsigned(_) => SkipsPlain(before, item, after);
    case Negative(_) => SkipsPlain(before, item, after);
    case String(_, _) => SkipsPlain(before, item, after);
    case Simple(_) => SkipsPlain(before, item, after);
    case Float(_) => SkipsPlain(before, item, after);
    case Array(_) => SkipsNested(before, item, after);
    case Map(_) => SkipsNested(before, item, after);
    case Tagged(_, _) => SkipsNested(before, item, after);
    case Chunked(_, _) => SkipsOpen(before, item, after);
    case OpenArray(_) => SkipsOpen(before, item, after);
    case OpenMap(_) => SkipsOpen(before, item, after);
  }

  lemma {:induction false} SkipsPlain(before: seq<byte>, item: Item, after: seq<byte>)
    requires WellFormed(item)
    requires item.Unsigned? || item.Negative? || item.String? || item.Simple? || item.Float?
    ensures Skip(before + Bytes(item) + after, |before|) == Some(|before| + |Bytes(item)|)
  {
    hide Head, ReadHead, Indefinite, Skip;
    SkipIs(before + Bytes(item) + after, |before|);
    match item
    case Unsigned(n) => HeadStands(before, 0, n, [], after);
    case Negative(n) => HeadStands(before, 1, n, [], after);
    case String(major, bytes) => HeadStands(before, major, |bytes|, bytes, after);
    case Simple(n) => SimpleStands(before, n, after);
    case Float(bytes) => FloatStands(before, bytes, after);
    case _ =>
  }

  lemma {:induction false} SkipsNested(before: seq<byte>, item: Item, after: seq<byte>)
    requires WellFormed(item) && (item.Array? || item.Map? || item.Tagged?)
    ensures Skip(before + Bytes(item) + after, |before|) == Some(|before| + |Bytes(item)|)
    decreases item, 0
  {
    hide Head, ReadHead, Indefinite, Skip, SkipAll, AllBytes, AllWellFormed;
    SkipIs(before + Bytes(item) + after, |before|);
    match item
    case Array(items) =>
      HeadStands(before, 4, |items|, AllBytes(items), after);
      SkipsItems(before + Head(4, |items|), items, after);
    case Map(items) =>
      HeadStands(before, 5, |items| / 2, AllBytes(items), after);
      SkipsItems(before + Head(5, |items| / 2), items, after);
    case Tagged(tag, inner) =>
      HeadStands(before, 6, tag, Bytes(inner), after);
      SkipsItem(before + Head(6, tag), inner, after);
    case _ =>
  }

  lemma {:induction false} SkipsOpen(before: seq<byte>, item: Item, after: seq<byte>)
    requires WellFormed(item) && (item.Chunked? || item.OpenArray? || item.OpenMap?)
    ensures Skip(before + Bytes(item) + after, |before|) == Some(|before| + |Bytes(item)|)
    decreases item, 0
  {
    hide Indefinite, Skip, SkipToBreak, SkipChunks, AllBytes, ChunkBytes, AllWellFormed;
    SkipIs(before + Bytes(item) + after, |before|);
    match item
    case Chunked(major, chunks) =>
      OpenStands(before, major * 32 + 31, ChunkBytes(major, chunks), after);
      SkipsChunks(before + [major * 32 + 31], major, chunks, after);
    case OpenArray(items) =>
      OpenStands(before, 0x9F, AllBytes(items), after);
      SkipsToBreak(before + [0x9F], items, 1, after);
    case OpenMap(items) =>
      OpenStands(before, 0xBF, AllBytes(items), after);
      SkipsToBreak(before + [0xBF], items, 2, after);
    case _ =>
  }

  lemma {:induction false} SkipIs(b: seq<byte>, o: nat)
    requires o < |b|
    ensures Indefinite(b, o) ==>
              var major := b[o] / 32;
              Skip(b, o) == if major == 2 || major == 3 then SkipChunks(b, o + 1, major)
                            else SkipToBreak(b, o + 1, if major == 5 then 2 else 1)
    ensures !Indefinite(b, o) && ReadHead(b, o).Some? ==>
              var (major, n, end) := ReadHead(b, o).value;
              Skip(b, o) == if major == 2 || major == 3 then (if end + n <= |b| then Some(end + n) else None)
                            else if major == 4 then SkipAll(b, end, n)
                            else if major == 5 then SkipAll(b, end, 2 * n)
                            else if major == 6 then Skip(b, end)
                            else Some(end)
  {
    hide ReadHead, SkipAll, SkipToBreak, SkipChunks;
  }

  // A head with its contents behind it is read where it stands, and is not of indefinite length.
  lemma {:induction false} HeadStands(before: seq<byte>, major: nat, n: u64, contents: seq<byte>, after: seq<byte>)
    requires major < SIMPLE
    ensures var b := before + (Head(major, n) + contents) + after;
            && ReadHead(b, |before|) == Some((major, n, |before| + |Head(major, n)|))
            && !Indefinite(b, |before|)
            && b == (before + Head(major, n)) + contents + after
    ensures Head(major, n) + [] == Head(major, n)
  {
    hide ReadHead, BigEndian;
    var b := before + (Head(major, n) + contents) + after;
    HeadRoundTrip(before, major, n, contents + after);
    assert b == before + Head(major, n) + (contents + after);
    assert b[|before|] == major * 32 + Info(n);
  }

  lemma {:induction false} SimpleStands(before: seq<byte>, n: nat, after: seq<byte>)
    requires n < 24
    ensures var b := before + [0xE0 + n] + after;
            ReadHead(b, |before|) == Some((7, n, |before| + 1)) && !Indefinite(b, |before|)
  {
    assert (before + [0xE0 + n] + after)[|before|] == 0xE0 + n;
  }

  lemma {:induction false} FloatStands(before: seq<byte>, bytes: seq<byte>, after: seq<byte>)
    requires |bytes| == 2 || |bytes| == 4 || |bytes| == 8
    ensures var b := before + ([if |bytes| == 2 then 0xF9 else if |bytes| == 4 then 0xFA else 0xFB] + bytes) + after;
            && ReadHead(b, |before|).Some? && ReadHead(b, |before|).value.0 == 7
            && ReadHead(b, |before|).value.2 == |before| + 1 + |bytes| && !Indefinite(b, |before|)
  {
    hide Number;
    var first := if |bytes| == 2 then 0xF9 else if |bytes| == 4 then 0xFA else 0xFB;
    assert (before + ([first] + bytes) + after)[|before|] == first;
  }

  lemma {:induction false} OpenStands(before: seq<byte>, first: byte, contents: seq<byte>, after: seq<byte>)
    requires first == 0x5F || first == 0x7F || first == 0x9F || first == 0xBF
    ensures var b := before + ([first] + (contents + [0xFF])) + after;
            && b[|before|] == first && Indefinite(b, |before|)
            && b == (before + [first]) + contents + ([0xFF] + after)
  {
    var b := before + ([first] + (contents + [0xFF])) + after;
    assert b[|before|] == first;
  }

  lemma {:induction false} SkipsItems(before: seq<byte>, items: seq<Item>, after: seq<byte>)
    requires AllWellFormed(items)
    ensures SkipAll(before + AllBytes(items) + after, |before|, |items|) == Some(|before| + |AllBytes(items)|)
    decreases items, 1
  {
    hide Skip, Bytes, WellFormed;
    if items == [] {
    } else {
      var first, rest := Bytes(items[0]), AllBytes(items[1..]);
      assert before + AllBytes(items) + after == before + first + (rest + after) == (before + first) + rest + after;
      SkipsItem(before, items[0], rest + after);
      SkipsItems(before + first, items[1..], after);
    }
  }

  lemma {:induction false} SkipsToBreak(before: seq<byte>, items: seq<Item>, step: nat, after: seq<byte>)
    requires AllWellFormed(items) && (step == 1 || step == 2) && |items| % step == 0
    ensures SkipToBreak(before + AllBytes(items) + ([0xFF] + after), |before|, step)
         == Some(|before| + |AllBytes(items)| + 1)
    decreases items, 2
  {
    hide Skip, SkipAll, SkipToBreak, Bytes, AllBytes, WellFormed, AllWellFormed;
    var b := before + AllBytes(items) + ([0xFF] + after);
    BreakOrItems(b, |before|, step);
    if items == [] {
      NoItemsNoBytes();
      assert b[|before|] == 0xFF;
    } else {
      FirstItems(items, step);
      assert |items| == step ==> items[..step] == items;
      var first, rest := AllBytes(items[..step]), AllBytes(items[step..]);
      assert b == before + first + (rest + ([0xFF] + after)) == (before + first) + rest + ([0xFF] + after);
      assert b[|before|] == first[0];
      SkipsItems(before, items[..step], rest + ([0xFF] + after));
      SkipsToBreak(before + first, items[step..], step, after);
    }
  }

  lemma {:induction false} BreakOrItems(b: seq<byte>, o: nat, step: nat)
    requires o < |b| && step > 0
    ensures b[o] == 0xFF ==> SkipToBreak(b, o, step) == Some(o + 1)
    ensures b[o] != 0xFF && SkipAll(b, o, step).Some? && SkipAll(b, o, step).value > o ==>
              SkipToBreak(b, o, step) == SkipToBreak(b, SkipAll(b, o, step).value, step)
  {
    hide SkipAll;
  }

  lemma {:induction false} FirstItems(items: seq<Item>, step: nat)
    requires AllWellFormed(items) && 1 <= step <= 2 && step <= |items|
    ensures AllWellFormed(items[..step]) && AllWellFormed(items[step..])
    ensures AllBytes(items) == AllBytes(items[..step]) + AllBytes(items[step..])
    ensures AllBytes(items[..step]) != [] && AllBytes(items[..step])[0] != 0xFF
  {
    hide Bytes, WellFormed;
    FirstByte(items[0]);
    OneItem(items[0]);
    if step == 1 {
      assert items[..1] == [items[0]];
    } else {
      var rest := items[1..];
      OneItem(rest[0]);
      assert items[..2][0] == items[0] && items[..2][1..] == [rest[0]] && rest[1..] == items[2..];
    }
  }

  lemma {:induction false} OneItem(item: Item)
    ensures AllWellFormed([item]) <==> WellFormed(item)
    ensures WellFormed(item) ==> AllBytes([item]) == Bytes(item)
  {
    hide Bytes, WellFormed;
    assert [item][1..] == [];
  }

  lemma {:induction false} SkipsChunks(before: seq<byte>, major: nat, chunks: seq<seq<byte>>, after: seq<byte>)
    requires major == 2 || major == 3
    requires forall i :: 0 <= i < |chunks| ==> |chunks[i]| < 0x1_0000_0000_0000_0000
    ensures SkipChunks(before + ChunkBytes(major, chunks) + ([0xFF] + after), |before|, major)
         == Some(|before| + |ChunkBytes(major, chunks)| + 1)
    decreases |chunks|
  {
    hide Head, ReadHead, SkipChunks, Indefinite;
    var b := before + ChunkBytes(major, chunks) + ([0xFF] + after);
    if chunks == [] {
      assert b[|before|] == 0xFF;
      EndOfChunks(b, |before|, major);
    } else {
      var head, first, rest := Head(major, |chunks[0]|), chunks[0], ChunkBytes(major, chunks[1..]);
      HeadStands(before, major, |first|, first, rest + ([0xFF] + after));
      assert b == before + (head + first) + (rest + ([0xFF] + after));
      assert b == (before + head + first) + rest + ([0xFF] + after);
      NotABreak(major, |first|);
      assert b[|before|] == head[0];
      NextChunk(b, |before|, major);
      SkipsChunks(before + head + first, major, chunks[1..], after);
    }
  }

  lemma {:induction false} EndOfChunks(b: seq<byte>, o: nat, major: nat)
    requires o < |b| && b[o] == 0xFF
    ensures SkipChunks(b, o, major) == Some(o + 1)
  {
  }

  lemma {:induction false} NextChunk(b: seq<byte>, o: nat, major: nat)
    requires o < |b| && b[o] != 0xFF && ReadHead(b, o).Some?
    ensures var (m, n, end) := ReadHead(b, o).value;
            m == major && end + n <= |b| ==> SkipChunks(b, o, major) == SkipChunks(b, end + n, major)
  {
    hide ReadHead;
  }

  lemma {:induction false} NotABreak(major: nat, n: u64)
    requires major < SIMPLE
    ensures Head(major, n)[0] != 0xFF
  {
  }

  /** What decoding makes of any stored array: the unsigned integers among its items, also behind tags, in
      their order; all other items are skipped. */
  lemma {:induction false} NumbersAreRead(items: seq<Item>, after: seq<byte>)
    requires AllWellFormed(items) && |items| < 0x1_0000_0000_0000_0000
    ensures Stored(Some(Head(ARRAY, |items|) + AllBytes(items) + after)) == Some(AllNumbers(items))
  {
    hide Head, ReadHead, ReadItems, AllBytes, AllNumbers;
    var head := Head(ARRAY, |items|);
    HeadStands([], ARRAY, |items|, AllBytes(items), after);
    assert [] + (head + AllBytes(items)) + after == head + AllBytes(items) + after;
    ReadsItems(head, items, after, |items|);
    NoItems(head + AllBytes(items) + after, |head + AllBytes(items)|);
    assert AllNumbers(items) + [] == AllNumbers(items);
    if items != [] { ItemBegins(head, items, after); }
  }

  /** And of one that is cut off: if some item is there, the numbers up to the cut; if none is although some
      are announced, no list. */
  lemma {:induction false} CutOffIsReadSoFar(items: seq<Item>, count: u64)
    requires AllWellFormed(items) && |items| < count
    ensures Stored(Some(Head(ARRAY, count) + AllBytes(items)))
         == if items == [] then None else Some(AllNumbers(items))
  {
    hide Head, ReadHead, ReadItems, AllBytes, AllNumbers;
    var head := Head(ARRAY, count);
    var b := head + AllBytes(items);
    HeadStands([], ARRAY, count, AllBytes(items), []);
    assert [] + b + [] == b && head + AllBytes(items) + [] == b;
    ReadsItems(head, items, [], count);
    NothingBehind(b, count - |items|);
    assert AllNumbers(items) + [] == AllNumbers(items);
    if items == [] {
      NoItemsNoBytes();
    } else {
      ItemBegins(head, items, []);
    }
  }

  lemma {:induction false} NoItemsNoBytes()
    ensures AllBytes([]) == [] && AllNumbers([]) == []
  {
  }

  lemma {:induction false} NothingBehind(b: seq<byte>, count: nat)
    ensures ReadItems(b, |b|, count) == [] && !Begins(b, |b|)
  {
  }

  /** Anything but an array of definite length is no list. */
  lemma {:induction false} OtherItemIsNoList(item: Item, after: seq<byte>)
    requires WellFormed(item) && !item.Array?
    ensures Stored(Some(Bytes(item) + after)) == None
  {
    hide Head, ReadHead, Indefinite, ReadItems, AllBytes, ChunkBytes, AllWellFormed;
    var b := [] + Bytes(item) + after;
    assert b == Bytes(item) + after;
    match item
    case Unsigned(n) => HeadStands([], 0, n, [], after);
    case Negative(n) => HeadStands([], 1, n, [], after);
    case String(major, bytes) => HeadStands([], major, |bytes|, bytes, after);
    case Map(items) => HeadStands([], 5, |items| / 2, AllBytes(items), after);
    case Tagged(tag, inner) => HeadStands([], 6, tag, Bytes(inner), after);
    case Simple(n) => SimpleStands([], n, after);
    case Float(bytes) => FloatStands([], bytes, after);
    case Chunked(major, chunks) =>
      OpenStands([], major * 32 + 31, ChunkBytes(major, chunks), after);
      NoHead(b, 0);
    case OpenArray(items) =>
      OpenStands([], 0x9F, AllBytes(items), after);
      NoHead(b, 0);
    case OpenMap(items) =>
      OpenStands([], 0xBF, AllBytes(items), after);
      NoHead(b, 0);
    case _ =>
  }

  // Heads that no item has: reserved ones, and the simple values below 32 in two bytes.
  lemma {:induction false} MalformedHeads(b: seq<byte>, offset: nat)
    requires offset + 1 < |b|
    requires 28 <= b[offset] % 32 <= 30 || (b[offset] == 0xF8 && b[offset + 1] < 32)
    ensures ReadHead(b, offset) == None && !Begins(b, offset)
  {
  }

  // And what cannot be skipped: a break where an item should start, a string beyond the end, and a chunk of
  // the other kind of string.
  lemma {:induction false} MalformedItems(b: seq<byte>, offset: nat, major: nat)
    requires offset < |b|
    ensures b[offset] == 0xFF ==> Skip(b, offset) == None
    ensures ReadHead(b, offset).Some? ==>
              var (m, n, end) := ReadHead(b, offset).value;
              && ((m == 2 || m == 3) && end + n > |b| ==> Skip(b, offset) == None)
              && (b[offset] != 0xFF && (m != major || end + n > |b|) ==> SkipChunks(b, offset, major) == None)
  {
  }

  lemma {:induction false} ReadsItems(before: seq<byte>, items: seq<Item>, after: seq<byte>, count: nat)
    requires AllWellFormed(items) && count >= |items|
    ensures var b := before + AllBytes(items) + after;
            ReadItems(b, |before|, count)
            == AllNumbers(items) + ReadItems(b, |before| + |AllBytes(items)|, count - |items|)
    decreases |items|
  {
    hide ReadItems, Bytes, WellFormed, Numbers;
    if items == [] {
    } else {
      var first, rest := Bytes(items[0]), AllBytes(items[1..]);
      assert before + AllBytes(items) + after == before + first + (rest + after) == (before + first) + rest + after;
      ReadsItem(before, items[0], rest + after, count);
      ReadsItems(before + first, items[1..], after, count - 1);
    }
  }

  lemma {:induction false} ReadsItem(before: seq<byte>, item: Item, after: seq<byte>, count: nat)
    requires WellFormed(item) && count > 0
    ensures var b := before + Bytes(item) + after;
            ReadItems(b, |before|, count) == Numbers(item) + ReadItems(b, |before| + |Bytes(item)|, count - 1)
    decreases item
  {
    hide Head, ReadHead, Skip, ReadItems, AllBytes, ChunkBytes, AllWellFormed;
    var b := before + Bytes(item) + after;
    SkipsItem(before, item, after);
    NextItem(b, |before|, count);
    match item
    case Unsigned(n) => HeadStands(before, 0, n, [], after);
    case Negative(n) => HeadStands(before, 1, n, [], after);
    case String(major, bytes) => HeadStands(before, major, |bytes|, bytes, after);
    case Array(items) => HeadStands(before, 4, |items|, AllBytes(items), after);
    case Map(items) => HeadStands(before, 5, |items| / 2, AllBytes(items), after);
    case Tagged(tag, inner) =>
      HeadStands(before, 6, tag, Bytes(inner), after);
      ReadsItem(before + Head(6, tag), inner, after, count);
    case Simple(n) => SimpleStands(before, n, after);
    case Float(bytes) => FloatStands(before, bytes, after);
    case Chunked(major, chunks) =>
      OpenStands(before, major * 32 + 31, ChunkBytes(major, chunks), after);
      NoHead(b, |before|);
    case OpenArray(items) =>
      OpenStands(before, 0x9F, AllBytes(items), after);
      NoHead(b, |before|);
    case OpenMap(items) =>
      OpenStands(before, 0xBF, AllBytes(items), after);
      NoHead(b, |before|);
  }

  lemma {:induction false} NoHead(b: seq<byte>, offset: nat)
    requires Indefinite(b, offset)
    ensures ReadHead(b, offset) == None
  {
  }

  lemma {:induction false} ItemBegins(before: seq<byte>, items: seq<Item>, after: seq<byte>)
    requires AllWellFormed(items) && items != []
    ensures Begins(before + AllBytes(items) + after, |before|)
  {
    hide ReadHead, Skip, Bytes, Indefinite;
    var b := before + AllBytes(items) + after;
    assert b == before + Bytes(items[0]) + (AllBytes(items[1..]) + after);
    SkipsItem(before, items[0], AllBytes(items[1..]) + after);
    OnlyItemsAreSkipped(b, |before|);
  }

  lemma {:induction false} OnlyItemsAreSkipped(b: seq<byte>, offset: nat)
    requires offset <= |b| && Skip(b, offset).Some?
    ensures Begins(b, offset)
  {
  }

  // ---- a bounded, duplicate-free queue ----

  function Newest(history: seq<u32>): (crcs: seq<u32>)
    ensures |crcs| <= MAX_LIST_SIZE
  {
    if |history| <= MAX_LIST_SIZE then history else history[..MAX_LIST_SIZE]
  }

  function Pushed(crcs: seq<u32>, crc: u32): seq<u32> {
    if crc in crcs then crcs else Newest([crc] + crcs)
  }

  datatype Op = Add(crc: u32) | Contains(crc: u32) | Clear

  function Step(crcs: seq<u32>, op: Op): seq<u32> {
    match op
    case Add(crc) => Pushed(crcs, crc)
    case Contains(_) => crcs
    case Clear => []
  }

  function Run(crcs: seq<u32>, ops: seq<Op>): seq<u32>
    decreases |ops|
  {
    if ops == [] then crcs else Run(Step(crcs, ops[0]), ops[1..])
  }

  predicate Distinct(crcs: seq<u32>) {
    forall i, j :: 0 <= i < j < |crcs| ==> crcs[i] != crcs[j]
  }

  // Every CRC that was added since the list was last cleared while it was not listed, newest first.
  ghost function History(history: seq<u32>, ops: seq<Op>): seq<u32>
    decreases |ops|
  {
    if ops == [] then history
    else match ops[0]
      case Add(crc) => History(if crc in Newest(history) then history else [crc] + history, ops[1..])
      case Contains(_) => History(history, ops[1..])
      case Clear => History([], ops[1..])
  }

  /** Over every run the list is what was added, newest first, up to the ninth: the oldest is pushed
      out; and no CRC is listed twice. */
  lemma {:induction false} ListIsNewest(history: seq<u32>, ops: seq<Op>)
    requires Distinct(Newest(history))
    ensures Run(Newest(history), ops) == Newest(History(history, ops))
    ensures Distinct(Run(Newest(history), ops)) && |Run(Newest(history), ops)| <= MAX_LIST_SIZE
    decreases |ops|
  {
    if ops == [] {
    } else {
      match ops[0]
      case Add(crc) =>
        var next := if crc in Newest(history) then history else [crc] + history;
        assert Pushed(Newest(history), crc) == Newest(next);
        assert Distinct(Newest(next));
        ListIsNewest(next, ops[1..]);
      case Contains(_) => ListIsNewest(history, ops[1..]);
      case Clear => ListIsNewest([], ops[1..]);
    }
  }

  // A CRC just added is listed, first if it is new; nothing is lost but the ninth before it.
  lemma {:induction false} AddKeepsOthers(crcs: seq<u32>, crc: u32)
    requires Distinct(crcs) && |crcs| <= MAX_LIST_SIZE
    ensures crc in Pushed(crcs, crc)
    ensures forall c :: c in Pushed(crcs, crc) && c != crc ==> c in crcs
    ensures forall c ::
      c in crcs && c !in Pushed(crcs, crc) ==> |crcs| == MAX_LIST_SIZE && c == crcs[MAX_LIST_SIZE - 1] && crc !in crcs
  {
    if crc !in crcs {
      assert Pushed(crcs, crc)[0] == crc;
      if |crcs| < MAX_LIST_SIZE {
        assert Pushed(crcs, crc) == [crc] + crcs;
      } else {
        assert Pushed(crcs, crc) == [crc] + crcs[..MAX_LIST_SIZE - 1];
        assert crcs == crcs[..MAX_LIST_SIZE - 1] + [crcs[MAX_LIST_SIZE - 1]];
      }
    }
  }

  // ---- the code ----

  // What a slot holds after some bytes were written to its start.
  function Overwritten(slot: seq<byte>, bytes: seq<byte>): (after: seq<byte>)
    requires |bytes| <= |slot|
    ensures |after| == |slot|
    ensures forall i :: 0 <= i < |slot| ==> after[i] == if i < |bytes| then bytes[i] else slot[i]
  {
    bytes + slot[|bytes|..]
  }

  class ConfigCrcList {
    const crcs: array<u32>
    var num: nat

    // The configuration's slot for the list, if it has one yet, and what a new one would hold.
    var store: Option<seq<byte>>
    const unused: seq<byte>

    ghost predicate Valid()
      reads this
    {
      crcs.Length == MAX_LIST_SIZE && num <= MAX_LIST_SIZE && |unused| == |Slot()| == MAX_BUFFER_SIZE
    }

    function Slot(): seq<byte>
      reads this`store
    {
      if store == None then unused else store.value
    }

    // The slot after a list was written.
    ghost function With(list: seq<u32>): Option<seq<byte>>
      requires |unused| == |Slot()| == MAX_BUFFER_SIZE && |list| <= MAX_LIST_SIZE
      reads this`store
    {
      FitsIff(|list|);
      Some(Overwritten(Slot(), Encoded(list)))
    }

    /** The list starts empty beside whatever the configuration holds. */
    constructor (store: Option<seq<byte>>, unused: seq<byte>)
      requires |unused| == MAX_BUFFER_SIZE && (store.Some? ==> |store.value| == MAX_BUFFER_SIZE)
      ensures Valid() && fresh(crcs) && this.store == store && this.unused == unused && num == 0
    {
      crcs := new u32[MAX_LIST_SIZE](_ => 0);
      num := 0;
      this.store, this.unused := store, unused;
    }

    /** Whether the stored list holds the CRC. The source does not check that the list fits; here `fits`
        says whether it does. */
    method Contains(crc: u32) returns (fits: bool, found: bool)
      requires Valid()
      modifies this`num, this`store, crcs
      ensures Valid() && fits == (|Listed(old(store))| <= MAX_LIST_SIZE)
      ensures Listed(store) == Listed(old(store)) && (fits ==> crcs[..num] == Listed(store))
      ensures Stored(old(store)).Some? ==> store == old(store)
      ensures fits ==> found == (crc in Listed(store))
    {
      hide Listed, Stored, ConfigCrcList.With;
      fits := Decode();
      if !fits { return false, false; }
      for i := 0 to num
        invariant forall k :: 0 <= k < i ==> crcs[k] != crc
      {
        if crcs[i] == crc {
          assert crcs[..num][i] == crc;
          return true, true;
        }
      }
      return true, false;
    }

    method Add(crc: u32) returns (fits: bool)
      requires Valid()
      modifies this`num, this`store, crcs
      ensures Valid() && fits == (|Listed(old(store))| <= MAX_LIST_SIZE)
      ensures Listed(store) == if fits then Step(Listed(old(store)), Op.Add(crc)) else Listed(old(store))
    {
      hide Listed, Stored, ConfigCrcList.With;
      var found;
      fits, found := Contains(crc);
      if !fits || found { return; }
      PushFront(crc);
      Encode();
    }

    // Every CRC moves one place on, and the new one comes first.
    method PushFront(crc: u32)
      requires crcs.Length == MAX_LIST_SIZE && num <= MAX_LIST_SIZE && crc !in crcs[..num]
      modifies this`num, crcs
      ensures num <= MAX_LIST_SIZE && crcs[..num] == Pushed(old(crcs[..num]), crc)
    {
      ghost var was, n := crcs[..], num;
      for i := MAX_LIST_SIZE - 1 downto 0
        invariant num == n && forall k :: 0 <= k <= i ==> crcs[k] == was[k]
        invariant forall k :: i < k < MAX_LIST_SIZE ==> crcs[k] == was[k - 1]
      {
        crcs[i + 1] := crcs[i];
      }
      crcs[0] := crc;
      if num < MAX_LIST_SIZE { num := num + 1; }
      MovedOn(was, n, crc, crcs[..]);
      assert crcs[..num] == crcs[..][..num] && was[..n] == old(crcs[..num]);
    }

    method Clear()
      requires Valid()
      modifies this`num, this`store
      ensures Valid() && num == 0 && store == old(With([])) && Listed(store) == Step(Listed(old(store)), Op.Clear)
    {
      num := 0;
      Encode();
    }

    /** Reads the list from the store, which is rewritten as an empty array if it holds no array. Where the
        source would write beyond its array, the result is false. */
    method Decode() returns (fits: bool)
      requires Valid()
      modifies this`num, this`store, crcs
      ensures Valid() && fits == (|Listed(old(store))| <= MAX_LIST_SIZE)
      ensures Listed(store) == Listed(old(store)) && (fits ==> crcs[..num] == Listed(store))
      ensures store == if Stored(old(store)).Some? then old(store) else old(With([]))
    {
      hide Head, Items, ReadHead, ReadItems, Listed, Stored, Encoded, Indefinite;
      num := 0;
      NothingStored();
      if store == None { Clear(); return true; }
      var b := store.value;
      var head := ReadHead(b, 0);
      StoredFrom(b);
      if head == None || head.value.0 != ARRAY { Clear(); return true; }
      if head.value.1 > 0 && !Begins(b, head.value.2) { Clear(); return true; }
      fits := DecodeItems(b, head.value.2, head.value.1);
    }

    // The loop of decode() over the array's items.
    method DecodeItems(b: seq<byte>, start: nat, items: nat) returns (fits: bool)
      requires start <= |b| && crcs.Length == MAX_LIST_SIZE && num == 0
      modifies this`num, crcs
      ensures fits == (|ReadItems(b, start, items)| <= MAX_LIST_SIZE)
      ensures num <= MAX_LIST_SIZE && (fits ==> crcs[..num] == ReadItems(b, start, items))
    {
      hide ReadHead, ReadItems, Skip;
      var count, offset := items, start;
      ghost var all := ReadItems(b, offset, count);
      while count > 0
        invariant 0 <= count && offset <= |b| && num <= MAX_LIST_SIZE
        invariant all == crcs[..num] + ReadItems(b, offset, count)
        decreases |b| - offset
      {
        NextItem(b, offset, count);
        var head := ReadHead(b, offset);
        if head.Some? && head.value.0 == TAG {
          offset := head.value.2;
          continue;
        }
        var next := Skip(b, offset);
        ghost var done, rest := crcs[..num], if next == None then [] else ReadItems(b, next.value, count - 1);
        if head.Some? && head.value.0 == UNSIGNED {
          if num == MAX_LIST_SIZE { return false; }
          var crc := head.value.1 % 0x1_0000_0000;
          OneMoreRead(done, crc, rest);
          crcs[num] := crc;
          assert crcs[..num + 1] == done + [crc];
          num := num + 1;
        }
        assert all == crcs[..num] + rest;
        if next == None { return true; }
        offset, count := next.value, count - 1;
      }
      NoItems(b, offset);
      fits := true;
    }

    /** Writes the list to the start of its slot; the buffer is never too small. */
    method Encode()
      requires Valid()
      modifies this`store
      ensures Valid() && store == old(With(crcs[..num])) && Listed(store) == crcs[..num]
    {
      hide Encoded, Listed, Stored;
      var ok, bytes := EncodeList();
      StoreRoundTrip(crcs[..num], Slot()[|bytes|..]);
      ListedAs(Some(Overwritten(Slot(), bytes)), crcs[..num]);
      if ok { store := Some(Overwritten(Slot(), bytes)); }
    }

    method EncodeList() returns (ok: bool, bytes: seq<byte>)
      requires crcs.Length == MAX_LIST_SIZE && num <= MAX_LIST_SIZE
      ensures ok && bytes == Encoded(crcs[..num]) && |bytes| <= MAX_BUFFER_SIZE
    {
      hide Head, Items;
      var buffer := new byte[MAX_BUFFER_SIZE](_ => 0);
      var size;
      ok, size := AppendHead(buffer, 0, ARRAY, num);
      HeadLengths(num);
      NoItemBytes();
      assert crcs[..0] == [];
      for i := 0 to num
        invariant ok && size <= 1 + 5 * i
        invariant buffer[..size] == Head(ARRAY, num) + Items(crcs[..i])
      {
        HeadLengths(crcs[i]);
        OneMoreItem(crcs[..i], crcs[i]);
        assert crcs[..i + 1] == crcs[..i] + [crcs[i]];
        ok, size := AppendHead(buffer, size, UNSIGNED, crcs[i]);
        if !ok { break; }
      }
      bytes := buffer[..size];
    }
  }

  lemma {:induction false} MovedOn(was: seq<u32>, n: nat, crc: u32, after: seq<u32>)
    requires |was| == |after| == MAX_LIST_SIZE && n <= MAX_LIST_SIZE && crc !in was[..n]
    requires after[0] == crc && forall k :: 0 < k < MAX_LIST_SIZE ==> after[k] == was[k - 1]
    ensures after[..if n < MAX_LIST_SIZE then n + 1 else n] == Pushed(was[..n], crc)
  {
  }

  lemma {:induction false} ListedAs(store: Option<seq<byte>>, crcs: seq<u32>)
    requires Stored(store) == Some(crcs)
    ensures Listed(store) == crcs
  {
  }

  lemma {:induction false} HeadLengths(n: u32)
    ensures |Head(UNSIGNED, n)| <= 5 && (n < 24 ==> |Head(ARRAY, n)| == 1)
  {
  }

  lemma {:induction false} OneMoreItem(crcs: seq<u32>, crc: u32)
    ensures Items(crcs + [crc]) == Items(crcs) + Head(UNSIGNED, crc)
  {
    hide Head;
    if crcs == [] {
      assert [crc][1..] == [];
    } else {
      assert (crcs + [crc])[1..] == crcs[1..] + [crc];
      OneMoreItem(crcs[1..], crc);
    }
  }

  // An item is skipped, and kept if it is an unsigned integer; a tag is stepped over.
  lemma {:induction false} NextItem(b: seq<byte>, offset: nat, count: nat)
    requires offset <= |b| && count > 0
    ensures var head, next := ReadHead(b, offset), Skip(b, offset);
            ReadItems(b, offset, count)
            == if head.Some? && head.value.0 == TAG then ReadItems(b, head.value.2, count)
               else (if head.Some? && head.value.0 == UNSIGNED then [head.value.1 % 0x1_0000_0000] else [])
                    + if next == None then [] else ReadItems(b, next.value, count - 1)
    ensures var head := ReadHead(b, offset);
            head.Some? && head.value.0 == UNSIGNED ==> Skip(b, offset) == Some(head.value.2)
  {
  }

  lemma {:induction false} OneMoreRead(done: seq<u32>, crc: u32, rest: seq<u32>)
    ensures done + ([crc] + rest) == done + [crc] + rest
  {
  }

  lemma {:induction false} NoItemBytes()
    ensures Items([]) == []
  {
  }

  lemma {:induction false} NoItems(b: seq<byte>, offset: nat)
    requires offset <= |b|
    ensures ReadItems(b, offset, 0) == []
  {
  }

  // The store holds an array exactly when its first head is an array's, and an item begins behind it
  // unless it is empty; and then its list follows.
  lemma {:induction false} StoredFrom(b: seq<byte>)
    ensures var h := ReadHead(b, 0);
            if h.Some? && h.value.0 == ARRAY && (h.value.1 == 0 || Begins(b, h.value.2)) then
              var crcs := ReadItems(b, h.value.2, h.value.1);
              Stored(Some(b)) == Some(crcs) && Listed(Some(b)) == crcs
            else
              Stored(Some(b)) == None && Listed(Some(b)) == []
  {
    hide ReadHead;
  }

  lemma {:induction false} NothingStored()
    ensures Stored(None) == None && Listed(None) == []
  {
  }

  /** Appends one CBOR head, unless it would not fit. */
  method AppendHead(buffer: array<byte>, size: nat, major: nat, n: u64) returns (ok: bool, newSize: nat)
    requires major < SIMPLE && size <= buffer.Length
    modifies buffer
    ensures ok == (size + |Head(major, n)| <= buffer.Length)
    ensures newSize == if ok then size + |Head(major, n)| else size
    ensures buffer[..newSize] == old(buffer[..size]) + if ok then Head(major, n) else []
  {
    var head := Head(major, n);
    if size + |head| > buffer.Length { return false, size; }
    forall k | 0 <= k < |head| { buffer[size + k] := head[k]; }
    return true, size + |head|;
  }
}
