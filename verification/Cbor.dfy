/** The CBOR subset of the protocol. */
module Cbor {
  import opened Bytes

  // The CBOR subset of the protocol (RFC 8949 section 3): integers up to 32 bits,
  // byte and text strings, arrays and maps with text keys, definite lengths only.

  const MAX_DEPTH := 8
  const TWO_32 := 0x1_0000_0000

  datatype Kind = Uint | NegInt | Bytes | Text | Array | Map {
    function Major(): (m: nat)
      ensures m < 6 && KindOf(m) == Some(this)
    {
      match this
      case Uint => 0 case NegInt => 1 case Bytes => 2 case Text => 3 case Array => 4 case Map => 5
    }

    predicate IsString() { Bytes? || Text? }
  }

  function KindOf(major: nat): Option<Kind> {
    match major
    case 0 => Some(Uint) case 1 => Some(NegInt) case 2 => Some(Bytes)
    case 3 => Some(Text) case 4 => Some(Array) case 5 => Some(Map)
    case _ => None
  }

  /** An item's own part: for a string its bytes as well, for an array or a map
      only the count. */
  datatype Item = Item(kind: Kind, value: nat, data: seq<u8>)

  // ----------------------------------------------------- what reading means

  /** The argument after an initial byte, and where it ends. */
  function ArgumentAt(buf: seq<u8>, pos: nat, info: nat): (r: Option<Found<nat>>)
    ensures r.Some? && pos <= |buf| ==> pos <= r.value.end <= |buf|
    ensures r.Some? ==> r.value.value < TWO_32
  {
    if info < 24 then Some(Found(info, pos))
    else if info < 27 then
      var n := if info == 24 then 1 else if info == 25 then 2 else 4;
      if pos + n > |buf| then None
      else
        ValueBound(buf[pos..pos + n]);
        Some(Found(FromBigEndian(buf[pos..pos + n]), pos + n))
    else None
  }

  lemma ValueBound(b: seq<u8>)
    requires |b| <= 4
    ensures FromBigEndian(b) < TWO_32
  {
    BigEndianBound(b);
    assert Power256(0) == 1 && Power256(1) == 256 && Power256(2) == 0x1_0000;
    assert Power256(3) == 0x100_0000 && Power256(4) == TWO_32;
  }

  /** The item whose initial byte is at pos, and where its own part ends. */
  function ItemAt(buf: seq<u8>, pos: nat): (r: Option<Found<Item>>)
    ensures r.Some? ==> pos < r.value.end <= |buf| && r.value.value.value < TWO_32
    ensures r.Some? ==> |r.value.value.data| == if r.value.value.kind.IsString() then r.value.value.value else 0
  {
    if pos >= |buf| then None
    else
      match ArgumentAt(buf, pos + 1, buf[pos] % 32)
      case None => None
      case Some(arg) =>
        match KindOf(buf[pos] / 32)
        case None => None
        case Some(kind) =>
          if !kind.IsString() then Some(Found(Item(kind, arg.value, []), arg.end))
          else if arg.value > |buf| - arg.end then None
          else Some(Found(Item(kind, arg.value, buf[arg.end..arg.end + arg.value]), arg.end + arg.value))
  }

  /** The number of items that belong to an array or a map. */
  function Children(item: Item): nat {
    match item.kind
    case Array => item.value
    case Map => 2 * item.value
    case _ => 0
  }

  /** Where the complete item at pos ends, children included. */
  function EndOf(buf: seq<u8>, pos: nat, depth: nat): (r: Option<nat>)
    ensures r.Some? ==> pos < r.value <= |buf|
    decreases if pos <= |buf| then |buf| - pos else 0, 0, 0
  {
    if depth > MAX_DEPTH then None
    else
      match ItemAt(buf, pos)
      case None => None
      case Some(it) => EndOfAll(buf, it.end, depth + 1, Children(it.value))
  }

  /** Where n complete items from pos end. */
  function EndOfAll(buf: seq<u8>, pos: nat, depth: nat, n: nat): (r: Option<nat>)
    requires pos <= |buf|
    ensures r.Some? ==> pos <= r.value <= |buf|
    decreases |buf| - pos, 1, n
  {
    if n == 0 then Some(pos)
    else
      match EndOf(buf, pos, depth)
      case None => None
      case Some(next) => EndOfAll(buf, next, depth, n - 1)
  }

  /** Where the value under a key stands among n pairs from pos: the first pair with
      the key decides, and the values before it are skipped from the given depth. */
  function ValueUnder(buf: seq<u8>, pos: nat, n: nat, key: seq<u8>, depth: nat): (r: Option<nat>)
    ensures r.Some? ==> pos < r.value <= |buf|
    decreases n
  {
    if n == 0 then None
    else
      match ItemAt(buf, pos)
      case None => None
      case Some(k) =>
        if !k.value.kind.Text? then None
        else if k.value.data == key then Some(k.end)
        else
          match EndOf(buf, k.end, depth)
          case None => None
          case Some(next) => ValueUnder(buf, next, n - 1, key, depth)
  }

  /** Where the value under a key of the map at pos stands. */
  function MapAt(buf: seq<u8>, pos: nat, key: seq<u8>, depth: nat): (r: Option<nat>)
    ensures r.Some? ==> pos < r.value <= |buf|
  {
    match ItemAt(buf, pos)
    case None => None
    case Some(head) =>
      if head.value.kind.Map? then ValueUnder(buf, head.end, head.value.value, key, depth) else None
  }

  /** The item under a key of the map that a buffer starts with. */
  function MapFind(buf: seq<u8>, key: seq<u8>): Option<Item> {
    var p :- MapAt(buf, 0, key, 1);
    var it :- ItemAt(buf, p);
    Some(it.value)
  }

  // ------------------------------------------------------------- value trees

  datatype Value =
    | VUint(n: nat)
    | VNegInt(n: nat)
    | VBytes(bytes: seq<u8>)
    | VText(text: seq<u8>)
    | VArray(items: seq<Value>)
    | VMap(pairs: seq<Pair>)

  datatype Pair = Pair(key: seq<u8>, value: Value)

  /** Every number and length fits 32 bits. */
  predicate Fits(v: Value) {
    match v
    case VUint(n) => n < TWO_32
    case VNegInt(n) => n < TWO_32
    case VBytes(b) => |b| < TWO_32
    case VText(t) => |t| < TWO_32
    case VArray(items) => |items| < TWO_32 && AllFit(items)
    case VMap(pairs) => |pairs| < TWO_32 && PairsFit(pairs)
  }

  predicate AllFit(items: seq<Value>) {
    |items| == 0 || (Fits(items[0]) && AllFit(items[1..]))
  }

  predicate PairsFit(pairs: seq<Pair>) {
    |pairs| == 0 || (|pairs[0].key| < TWO_32 && Fits(pairs[0].value) && PairsFit(pairs[1..]))
  }

  function Max(a: nat, b: nat): nat { if a > b then a else b }

  /** Nesting: a leaf has none, and neither has an empty array or map. */
  function Height(v: Value): nat {
    match v
    case VArray(items) => HeightOfAll(items)
    case VMap(pairs) => HeightOfPairs(pairs)
    case _ => 0
  }

  function HeightOfAll(items: seq<Value>): nat {
    if |items| == 0 then 0 else Max(1 + Height(items[0]), HeightOfAll(items[1..]))
  }

  function HeightOfPairs(pairs: seq<Pair>): nat {
    if |pairs| == 0 then 0 else Max(1 + Height(pairs[0].value), HeightOfPairs(pairs[1..]))
  }

  /** An initial byte with its argument, in the shortest form. */
  function HeadBytes(major: nat, value: nat): (b: seq<u8>)
    requires major < 8 && value < TWO_32
    ensures 1 <= |b| <= 5
  {
    if value < 24 then [32 * major + value]
    else if value < 0x100 then [32 * major + 24] + ToBigEndian(value, 1)
    else if value < 0x1_0000 then [32 * major + 25] + ToBigEndian(value, 2)
    else [32 * major + 26] + ToBigEndian(value, 4)
  }

  function Encode(v: Value): seq<u8>
    requires Fits(v)
  {
    match v
    case VUint(n) => HeadBytes(0, n)
    case VNegInt(n) => HeadBytes(1, n)
    case VBytes(b) => HeadBytes(2, |b|) + b
    case VText(t) => HeadBytes(3, |t|) + t
    case VArray(items) => HeadBytes(4, |items|) + EncodeAll(items)
    case VMap(pairs) => HeadBytes(5, |pairs|) + EncodePairs(pairs)
  }

  function EncodeAll(items: seq<Value>): seq<u8>
    requires AllFit(items)
  {
    if |items| == 0 then [] else Encode(items[0]) + EncodeAll(items[1..])
  }

  function EncodeText(text: seq<u8>): seq<u8>
    requires |text| < TWO_32
  {
    HeadBytes(3, |text|) + text
  }

  function EncodePairs(pairs: seq<Pair>): seq<u8>
    requires PairsFit(pairs)
  {
    if |pairs| == 0 then []
    else EncodeText(pairs[0].key) + (Encode(pairs[0].value) + EncodePairs(pairs[1..]))
  }

  // ------------------------------------------------- reading what was written

  /** The first part of an encoded value. */
  function HeadItem(v: Value): Item {
    match v
    case VUint(n) => Item(Uint, n, [])
    case VNegInt(n) => Item(NegInt, n, [])
    case VBytes(b) => Item(Bytes, |b|, b)
    case VText(t) => Item(Text, |t|, t)
    case VArray(items) => Item(Array, |items|, [])
    case VMap(pairs) => Item(Map, |pairs|, [])
  }

  /** What follows the head of an encoded value. */
  function Body(v: Value): seq<u8>
    requires Fits(v)
  {
    match v
    case VBytes(b) => b
    case VText(t) => t
    case VArray(items) => EncodeAll(items)
    case VMap(pairs) => EncodePairs(pairs)
    case _ => []
  }

  lemma EncodeIsHeadAndBody(v: Value)
    requires Fits(v)
    ensures HeadItem(v).value < TWO_32
    ensures Encode(v) == HeadBytes(HeadItem(v).kind.Major(), HeadItem(v).value) + Body(v)
  {
    hide HeadBytes, EncodeAll, EncodePairs, AllFit, PairsFit;
  }

  lemma ArgumentReadsBack(buf: seq<u8>, pos: nat, value: nat, n: nat)
    requires (n == 1 && value < 0x100) || (n == 2 && value < 0x1_0000) || (n == 4 && value < TWO_32)
    requires Stands(buf, pos, ToBigEndian(value, n))
    ensures ArgumentAt(buf, pos, if n == 1 then 24 else if n == 2 then 25 else 26) == Some(Found(value, pos + n))
  {
    hide ToBigEndian;
    assert Power256(0) == 1 && Power256(1) == 256 && Power256(2) == 0x1_0000;
    assert Power256(3) == 0x100_0000 && Power256(4) == TWO_32;
    BigEndianRoundTrip(value, n);
  }

  lemma HeadReadsBack(buf: seq<u8>, pos: nat, major: nat, value: nat)
    requires major < 8 && value < TWO_32 && Stands(buf, pos, HeadBytes(major, value))
    ensures buf[pos] / 32 == major
    ensures ArgumentAt(buf, pos + 1, buf[pos] % 32) == Some(Found(value, pos + |HeadBytes(major, value)|))
  {
    hide ToBigEndian, FromBigEndian, Stands;
    var h := HeadBytes(major, value);
    var n := |h| - 1;
    assert h == h[..1] + h[1..];
    StandsSplit(buf, pos, h[..1], h[1..]);
    StandsFirst(buf, pos, h);
    if value >= 24 {
      assert h[1..] == ToBigEndian(value, n);
      ArgumentReadsBack(buf, pos + 1, value, n);
    }
  }

  /** Reading at a head: for a string the bytes behind it belong to the item. */
  lemma HeadIsRead(buf: seq<u8>, pos: nat, kind: Kind, value: nat, body: seq<u8>)
    requires value < TWO_32 && Stands(buf, pos, HeadBytes(kind.Major(), value) + body)
    requires kind.IsString() ==> |body| == value
    ensures var end := pos + |HeadBytes(kind.Major(), value)|;
      Stands(buf, end, body)
      && ItemAt(buf, pos) == Some(if kind.IsString() then Found(Item(kind, value, body), end + value)
                                  else Found(Item(kind, value, []), end))
  {
    var head := HeadBytes(kind.Major(), value);
    StandsSplit(buf, pos, head, body);
    StandsRange(buf, pos + |head|, body);
    HeadReadsBack(buf, pos, kind.Major(), value);
    hide HeadBytes, ArgumentAt;
  }

  lemma OnlyStringsHaveBytes(v: Value)
    requires Fits(v)
    ensures HeadItem(v).kind.IsString() ==> Body(v) == HeadItem(v).data && |Body(v)| == HeadItem(v).value
    ensures !HeadItem(v).kind.IsString() ==> HeadItem(v).data == []
    ensures !HeadItem(v).kind.IsString() && !v.VArray? && !v.VMap? ==> Body(v) == []
  {
    hide EncodeAll, EncodePairs, Encode, Fits;
  }

  /** Reading at the start of an encoded value finds its head, and a string's bytes. */
  lemma ItemReadsBack(buf: seq<u8>, pos: nat, v: Value)
    requires Fits(v) && Stands(buf, pos, Encode(v))
    ensures ItemAt(buf, pos).Some? && ItemAt(buf, pos).value.value == HeadItem(v)
    ensures !v.VArray? && !v.VMap? ==> ItemAt(buf, pos).value.end == pos + |Encode(v)|
    ensures (v.VArray? || v.VMap?) ==> Stands(buf, ItemAt(buf, pos).value.end, Body(v))
    ensures (v.VArray? || v.VMap?) ==> ItemAt(buf, pos).value.end + |Body(v)| == pos + |Encode(v)|
  {
    EncodeIsHeadAndBody(v);
    OnlyStringsHaveBytes(v);
    assert v.VArray? || v.VMap? ==> !HeadItem(v).kind.IsString();
    hide *;
    HeadIsRead(buf, pos, HeadItem(v).kind, HeadItem(v).value, Body(v));
  }

  lemma TextReadsBack(buf: seq<u8>, pos: nat, t: seq<u8>)
    requires |t| < TWO_32 && Stands(buf, pos, EncodeText(t))
    ensures ItemAt(buf, pos) == Some(Found(Item(Text, |t|, t), pos + |EncodeText(t)|))
  {
    assert Encode(VText(t)) == EncodeText(t);
    ItemReadsBack(buf, pos, VText(t));
  }

  /** Skipping an encoded value consumes exactly its bytes when its nesting stays
      within the limit, and is refused otherwise. */
  lemma {:induction false} SkipConsumesTheValue(buf: seq<u8>, pos: nat, v: Value, depth: nat)
    requires Fits(v) && Stands(buf, pos, Encode(v))
    ensures EndOf(buf, pos, depth) == if depth + Height(v) <= 8 then Some(pos + |Encode(v)|) else None
    decreases v
  {
    hide Encode, ItemAt, Stands, HeadBytes;
    if depth <= MAX_DEPTH {
      ItemReadsBack(buf, pos, v);
      var end := ItemAt(buf, pos).value.end;
      match v
      case VArray(items) =>
        SkipConsumesAll(buf, end, items, depth + 1);
      case VMap(pairs) =>
        SkipConsumesPairs(buf, end, pairs, depth + 1);
      case _ =>
        assert Children(HeadItem(v)) == 0;
    }
  }

  lemma {:induction false} SkipConsumesAll(buf: seq<u8>, pos: nat, items: seq<Value>, depth: nat)
    requires AllFit(items) && Stands(buf, pos, EncodeAll(items))
    ensures EndOfAll(buf, pos, depth, |items|)
         == if depth + HeightOfAll(items) <= MAX_DEPTH + 1 || |items| == 0 then Some(pos + |EncodeAll(items)|) else None
    decreases items
  {
    hide Encode, ItemAt, EndOf, Stands;
    if |items| == 0 {
      StandsRange(buf, pos, []);
    } else {
      StandsSplit(buf, pos, Encode(items[0]), EncodeAll(items[1..]));
      SkipConsumesTheValue(buf, pos, items[0], depth);
      SkipConsumesAll(buf, pos + |Encode(items[0])|, items[1..], depth);
      StandsRange(buf, pos, Encode(items[0]));
    }
  }

  lemma {:induction false} SkipConsumesPairs(buf: seq<u8>, pos: nat, pairs: seq<Pair>, depth: nat)
    requires PairsFit(pairs) && Stands(buf, pos, EncodePairs(pairs))
    ensures EndOfAll(buf, pos, depth, 2 * |pairs|)
         == if depth + HeightOfPairs(pairs) <= MAX_DEPTH + 1 || |pairs| == 0 then Some(pos + |EncodePairs(pairs)|) else None
    decreases pairs
  {
    hide Encode, ItemAt, EndOf, Stands, EncodeText;
    if |pairs| == 0 {
      StandsRange(buf, pos, []);
    } else {
      var key, value := EncodeText(pairs[0].key), Encode(pairs[0].value);
      StandsSplit(buf, pos, key, value + EncodePairs(pairs[1..]));
      StandsSplit(buf, pos + |key|, value, EncodePairs(pairs[1..]));
      StandsRange(buf, pos, key);
      StandsRange(buf, pos + |key|, value);
      KeyIsSkipped(buf, pos, pairs[0].key, depth);
      SkipConsumesTheValue(buf, pos + |key|, pairs[0].value, depth);
      SkipConsumesPairs(buf, pos + |key| + |value|, pairs[1..], depth);
      assert 2 * |pairs| == 2 * |pairs[1..]| + 2;
    }
  }

  lemma KeyIsSkipped(buf: seq<u8>, pos: nat, key: seq<u8>, depth: nat)
    requires |key| < TWO_32 && Stands(buf, pos, EncodeText(key))
    ensures EndOf(buf, pos, depth) == if depth <= MAX_DEPTH then Some(pos + |EncodeText(key)|) else None
  {
    hide ItemAt;
    TextReadsBack(buf, pos, key);
  }

  // -------------------------------------------- the tree, and the first match

  /** The value that a caller reading item by item builds from the bytes at pos. */
  function ValueAt(buf: seq<u8>, pos: nat): (r: Option<Found<Value>>)
    ensures r.Some? ==> pos < r.value.end <= |buf|
    decreases if pos <= |buf| then |buf| - pos else 0, 0, 0
  {
    match ItemAt(buf, pos)
    case None => None
    case Some(it) =>
      match it.value.kind
      case Uint => Some(Found(VUint(it.value.value), it.end))
      case NegInt => Some(Found(VNegInt(it.value.value), it.end))
      case Bytes => Some(Found(VBytes(it.value.data), it.end))
      case Text => Some(Found(VText(it.value.data), it.end))
      case Array =>
        (match ValuesAt(buf, it.end, it.value.value)
         case None => None
         case Some(all) => Some(Found(VArray(all.value), all.end)))
      case Map =>
        match PairsAt(buf, it.end, it.value.value)
        case None => None
        case Some(all) => Some(Found(VMap(all.value), all.end))
  }

  function ValuesAt(buf: seq<u8>, pos: nat, n: nat): (r: Option<Found<seq<Value>>>)
    requires pos <= |buf|
    ensures r.Some? ==> pos <= r.value.end <= |buf|
    decreases |buf| - pos, 1, n
  {
    if n == 0 then Some(Found([], pos))
    else
      match ValueAt(buf, pos)
      case None => None
      case Some(first) =>
        match ValuesAt(buf, first.end, n - 1)
        case None => None
        case Some(rest) => Some(Found([first.value] + rest.value, rest.end))
  }

  function PairsAt(buf: seq<u8>, pos: nat, n: nat): (r: Option<Found<seq<Pair>>>)
    requires pos <= |buf|
    ensures r.Some? ==> pos <= r.value.end <= |buf|
    decreases |buf| - pos, 1, n
  {
    if n == 0 then Some(Found([], pos))
    else
      match ItemAt(buf, pos)
      case None => None
      case Some(key) =>
        if !key.value.kind.Text? then None
        else
          match ValueAt(buf, key.end)
          case None => None
          case Some(first) =>
            match PairsAt(buf, first.end, n - 1)
            case None => None
            case Some(rest) => Some(Found([Pair(key.value.data, first.value)] + rest.value, rest.end))
  }

  /** Reading a written value gives the value back, and ends where it ends. */
  lemma {:induction false} ReadingReturnsTheTree(buf: seq<u8>, pos: nat, v: Value)
    requires Fits(v) && Stands(buf, pos, Encode(v))
    ensures ValueAt(buf, pos) == Some(Found(v, pos + |Encode(v)|))
    decreases v
  {
    hide Encode, ItemAt, Stands, HeadBytes;
    ItemReadsBack(buf, pos, v);
    var end := ItemAt(buf, pos).value.end;
    match v
    case VArray(items) => ReadingReturnsAll(buf, end, items);
    case VMap(pairs) => ReadingReturnsPairs(buf, end, pairs);
    case _ =>
  }

  lemma {:induction false} ReadingReturnsAll(buf: seq<u8>, pos: nat, items: seq<Value>)
    requires AllFit(items) && Stands(buf, pos, EncodeAll(items))
    ensures pos <= |buf| && ValuesAt(buf, pos, |items|) == Some(Found(items, pos + |EncodeAll(items)|))
    decreases items
  {
    hide Encode, ItemAt, ValueAt, Stands;
    StandsRange(buf, pos, EncodeAll(items));
    if |items| > 0 {
      StandsSplit(buf, pos, Encode(items[0]), EncodeAll(items[1..]));
      ReadingReturnsTheTree(buf, pos, items[0]);
      ReadingReturnsAll(buf, pos + |Encode(items[0])|, items[1..]);
      assert items == [items[0]] + items[1..];
    }
  }

  lemma {:induction false} ReadingReturnsPairs(buf: seq<u8>, pos: nat, pairs: seq<Pair>)
    requires PairsFit(pairs) && Stands(buf, pos, EncodePairs(pairs))
    ensures pos <= |buf| && PairsAt(buf, pos, |pairs|) == Some(Found(pairs, pos + |EncodePairs(pairs)|))
    decreases pairs
  {
    hide Encode, ItemAt, ValueAt, Stands, EncodeText;
    StandsRange(buf, pos, EncodePairs(pairs));
    if |pairs| > 0 {
      var key, value := EncodeText(pairs[0].key), Encode(pairs[0].value);
      StandsSplit(buf, pos, key, value + EncodePairs(pairs[1..]));
      StandsSplit(buf, pos + |key|, value, EncodePairs(pairs[1..]));
      TextReadsBack(buf, pos, pairs[0].key);
      ReadingReturnsTheTree(buf, pos + |key|, pairs[0].value);
      ReadingReturnsPairs(buf, pos + |key| + |value|, pairs[1..]);
      assert pairs == [Pair(pairs[0].key, pairs[0].value)] + pairs[1..];
    }
  }

  /** Two different values are never written alike. */
  lemma EncodingIsInjective(v: Value, w: Value)
    requires Fits(v) && Fits(w) && Encode(v) == Encode(w)
    ensures v == w
  {
    hide *;
    var buf := Encode(v);
    assert Stands(buf, 0, Encode(v)) by { StandsWhole(buf); }
    assert Stands(buf, 0, Encode(w)) by { StandsWhole(buf); }
    ReadingReturnsTheTree(buf, 0, v);
    ReadingReturnsTheTree(buf, 0, w);
  }

  /** What a lookup in a map should give: the first value under the key, provided
      the values before it are not nested too deeply to be skipped. */
  function FirstUnder(pairs: seq<Pair>, key: seq<u8>, depth: nat): Option<Value> {
    if |pairs| == 0 then None
    else if pairs[0].key == key then Some(pairs[0].value)
    else if depth + Height(pairs[0].value) > MAX_DEPTH then None
    else FirstUnder(pairs[1..], key, depth)
  }

  /** The value found stands where the lookup says. */
  ghost predicate FoundIn(buf: seq<u8>, p: Option<nat>, value: Option<Value>) {
    && (p.Some? <==> value.Some?)
    && (p.Some? ==> Fits(value.value) && Stands(buf, p.value, Encode(value.value)))
  }

  lemma {:induction false} ValueUnderReadsBack(buf: seq<u8>, pos: nat, pairs: seq<Pair>, key: seq<u8>, depth: nat)
    requires PairsFit(pairs) && Stands(buf, pos, EncodePairs(pairs))
    ensures FoundIn(buf, ValueUnder(buf, pos, |pairs|, key, depth), FirstUnder(pairs, key, depth))
    decreases pairs
  {
    hide Encode, ItemAt, EndOf, Stands, EncodeText, Height;
    if |pairs| > 0 {
      var text, value := EncodeText(pairs[0].key), Encode(pairs[0].value);
      StandsSplit(buf, pos, text, value + EncodePairs(pairs[1..]));
      StandsSplit(buf, pos + |text|, value, EncodePairs(pairs[1..]));
      TextReadsBack(buf, pos, pairs[0].key);
      if pairs[0].key != key {
        SkipConsumesTheValue(buf, pos + |text|, pairs[0].value, depth);
        ValueUnderReadsBack(buf, pos + |text| + |value|, pairs[1..], key, depth);
      }
    }
  }

  lemma MapReadsBack(buf: seq<u8>, pos: nat, pairs: seq<Pair>, key: seq<u8>, depth: nat)
    requires |pairs| < TWO_32 && PairsFit(pairs) && Stands(buf, pos, Encode(VMap(pairs)))
    ensures FoundIn(buf, MapAt(buf, pos, key, depth), FirstUnder(pairs, key, depth))
  {
    hide Encode, ItemAt, Stands, ValueUnder, FirstUnder;
    ItemReadsBack(buf, pos, VMap(pairs));
    ValueUnderReadsBack(buf, ItemAt(buf, pos).value.end, pairs, key, depth);
  }

  /** Looking a key up in a written map finds the first value under it. */
  lemma MapFindFindsTheFirst(pairs: seq<Pair>, key: seq<u8>)
    requires |pairs| < TWO_32 && PairsFit(pairs)
    ensures MapFind(Encode(VMap(pairs)), key)
         == (match FirstUnder(pairs, key, 1) case None => None case Some(v) => Some(HeadItem(v)))
  {
    hide Encode, ItemAt, Stands, MapAt, FirstUnder, PairsFit, HeadItem, Height;
    var buf := Encode(VMap(pairs));
    StandsWhole(buf);
    MapReadsBack(buf, 0, pairs, key, 1);
    if FirstUnder(pairs, key, 1).Some? {
      ItemReadsBack(buf, MapAt(buf, 0, key, 1).value, FirstUnder(pairs, key, 1).value);
    }
  }

  predicate DistinctKeys(pairs: seq<Pair>) {
    forall i, j | 0 <= i < j < |pairs| :: pairs[i].key != pairs[j].key
  }

  /** Without repeated keys and within the nesting limit, a lookup is membership: the
      order of a map's pairs does not matter. */
  lemma {:induction false} LookupIsMembership(pairs: seq<Pair>, key: seq<u8>, depth: nat)
    requires DistinctKeys(pairs) && depth + HeightOfPairs(pairs) <= MAX_DEPTH + 1
    ensures FirstUnder(pairs, key, depth).Some? ==> Pair(key, FirstUnder(pairs, key, depth).value) in pairs
    ensures forall pair | pair in pairs && pair.key == key :: FirstUnder(pairs, key, depth) == Some(pair.value)
  {
    if |pairs| > 0 {
      assert pairs == [pairs[0]] + pairs[1..];
      assert pairs[0] == Pair(pairs[0].key, pairs[0].value);
      LookupIsMembership(pairs[1..], key, depth);
      forall pair | pair in pairs && pair.key == key ensures FirstUnder(pairs, key, depth) == Some(pair.value) {
        var k :| 0 <= k < |pairs| && pairs[k] == pair;
        if k > 0 {
          assert pairs[0].key != pairs[k].key;
          assert pairs[1..][k - 1] == pair;
        }
      }
    }
  }

  /** The value of the first pair with a key, whatever stands before it. */
  function NamedIn(pairs: seq<Pair>, key: seq<u8>): Option<Value> {
    if |pairs| == 0 then None else if pairs[0].key == key then Some(pairs[0].value) else NamedIn(pairs[1..], key)
  }

  lemma {:induction false} NamedIsFirst(pairs: seq<Pair>, key: seq<u8>, depth: nat)
    requires depth + HeightOfPairs(pairs) <= MAX_DEPTH + 1
    ensures FirstUnder(pairs, key, depth) == NamedIn(pairs, key)
  {
    if |pairs| > 0 { NamedIsFirst(pairs[1..], key, depth); }
  }
}
