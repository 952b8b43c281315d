/** EIP-1559 signing payloads. */
module EthTx {
  import opened Bytes

  // EIP-1559 signing payloads: what the encoder writes, what the reader accepts,
  // and that the two are inverse (Appendix B of the Ethereum Yellow Paper, EIP-1559).

  const ETH_MAX_DATA := 768
  const BODY_CAPACITY := ETH_MAX_DATA + 160
  const AGAIN_CAPACITY := ETH_MAX_DATA + 192

  /** A big-endian integer of at most 32 bytes; the encoder's own ones carry no leading zeros. */
  type Quantity = seq<u8>

  predicate Minimal(q: seq<u8>) { |q| == 0 || q[0] != 0 }

  /** The contract creation has no recipient. */
  datatype Tx = Tx(chainId: nat, nonce: Quantity, maxPriorityFee: Quantity, maxFee: Quantity,
                   gasLimit: Quantity, to: Option<seq<u8>>, value: Quantity, data: seq<u8>)

  /** What the fields of the structure can hold. */
  predicate Held(tx: Tx) {
    && tx.chainId < 0x1_0000_0000_0000_0000
    && |tx.nonce| <= 32 && |tx.maxPriorityFee| <= 32 && |tx.maxFee| <= 32 && |tx.gasLimit| <= 32 && |tx.value| <= 32
    && (tx.to.Some? ==> |tx.to.value| == 20)
    && |tx.data| <= ETH_MAX_DATA
  }

  predicate MinimalQuantities(tx: Tx) {
    && Minimal(tx.nonce) && Minimal(tx.maxPriorityFee) && Minimal(tx.maxFee)
    && Minimal(tx.gasLimit) && Minimal(tx.value)
  }

  // ------------------------------------------------------------- quantities

  function Stripped(bytes: seq<u8>): (q: seq<u8>)
    ensures Minimal(q) && |q| <= |bytes|
    ensures FromBigEndian(q) == FromBigEndian(bytes)
  {
    if |bytes| > 0 && bytes[0] == 0 then
      LeadingZero(bytes);
      Stripped(bytes[1..])
    else bytes
  }

  lemma {:induction false} LeadingZero(b: seq<u8>)
    requires |b| > 0 && b[0] == 0
    ensures FromBigEndian(b[1..]) == FromBigEndian(b)
  {
    if |b| > 1 {
      LeadingZero(b[..|b| - 1]);
      assert b[..|b| - 1][1..] == b[1..][..|b[1..]| - 1];
    }
  }

  lemma StrippedMinimal(q: seq<u8>)
    requires Minimal(q)
    ensures Stripped(q) == q
  {}

  /** The minimal bytes of a chain identifier. */
  function ChainBytes(chainId: nat): (q: seq<u8>)
    ensures Minimal(q) && |q| <= 8
  {
    Stripped(ToBigEndian(chainId, 8))
  }

  lemma ChainRoundTrip(chainId: nat)
    requires chainId < 0x1_0000_0000_0000_0000
    ensures FromBigEndian(ChainBytes(chainId)) == chainId
  {
    assert Power256(4) == 0x1_0000_0000;
    assert Power256(6) == 0x1_0000_0000_0000 && Power256(8) == 0x1_0000_0000_0000_0000;
    BigEndianRoundTrip(chainId, 8);
  }

  // ---------------------------------------------------------------- encoding

  /** The bytes of a length, without leading zeros. */
  function LengthBytes(n: nat): (b: seq<u8>)
    ensures n > 0 ==> |b| > 0
  {
    if n == 0 then [] else LengthBytes(n / 256) + [n % 256]
  }

  lemma {:induction false} LengthBytesBound(n: nat, k: nat)
    requires n < Power256(k)
    ensures |LengthBytes(n)| <= k
  {
    if n > 0 && k > 0 { LengthBytesBound(n / 256, k - 1); }
  }

  /** A length prefix: offset 0x80 for strings, 0xC0 for lists. Lengths are those
      of a 64-bit machine word. */
  function Header(n: nat, offset: u8): seq<u8>
    requires n < Power256(8) && (offset == 0x80 || offset == 0xC0)
  {
    LengthBytesBound(n, 8);
    if n <= 55 then [offset + n] else [offset + 55 + |LengthBytes(n)|] + LengthBytes(n)
  }

  function RlpString(data: seq<u8>): seq<u8>
    requires |data| < Power256(8)
  {
    if |data| == 1 && data[0] < 0x80 then data else Header(|data|, 0x80) + data
  }

  lemma Small(n: nat)
    requires n < 0x1_0000
    ensures n < Power256(8)
  {
    assert Power256(2) == 0x1_0000;
    assert Power256(4) == 0x1_0000_0000 && Power256(8) == 0x1_0000_0000_0000_0000;
  }

  /** Any string short enough for the buffers here. */
  function Field(data: seq<u8>): seq<u8>
    requires |data| < 0x1_0000
  {
    Small(|data|);
    RlpString(data)
  }

  function ToField(to: Option<seq<u8>>): seq<u8> {
    if to.Some? then to.value else []
  }

  /** The parts one behind the other. */
  function Concat(parts: seq<seq<u8>>): (all: seq<u8>) {
    if |parts| == 0 then [] else Concat(parts[..|parts| - 1]) + parts[|parts| - 1]
  }

  /** The five numbers every transaction starts with: chain, nonce, the two fees, gas. */
  function Numbers(tx: Tx): (n: seq<Quantity>)
    requires Held(tx)
    ensures |n| == 5 && AllShort(n)
  {
    [ChainBytes(tx.chainId), tx.nonce, tx.maxPriorityFee, tx.maxFee, tx.gasLimit]
  }

  predicate AllShort(n: seq<Quantity>) { forall i | 0 <= i < |n| :: |n[i]| <= 32 }

  function Fields(data: seq<Quantity>): (f: seq<seq<u8>>)
    requires AllShort(data)
    ensures |f| == |data| && forall i | 0 <= i < |data| :: f[i] == Field(data[i])
  {
    if |data| == 0 then [] else Fields(data[..|data| - 1]) + [Field(data[|data| - 1])]
  }

  /** The nine fields, the last of them the empty access list. */
  function Parts(tx: Tx): seq<seq<u8>>
    requires Held(tx)
  {
    Fields(Numbers(tx)) + [Field(ToField(tx.to)), Field(tx.value), Field(tx.data), [0xC0]]
  }

  function Body(tx: Tx): seq<u8>
    requires Held(tx)
  {
    Concat(Parts(tx))
  }

  lemma ConcatPair(a: seq<seq<u8>>, x: seq<u8>)
    ensures Concat(a + [x]) == Concat(a) + x
  {
    assert (a + [x])[..|a|] == a;
  }

  /** The payload, before any buffer limits it. */
  function Payload(tx: Tx): seq<u8>
    requires Held(tx) && |Body(tx)| < 0x1_0000
  {
    Small(|Body(tx)|);
    [0x02] + Header(|Body(tx)|, 0xC0) + Body(tx)
  }

  /** What the encoder writes, or nothing when a buffer is too small. */
  function Encoded(tx: Tx, capacity: nat): (r: Option<seq<u8>>)
    requires Held(tx)
    ensures r.Some? ==> 2 <= |r.value| <= capacity && |r.value| <= BODY_CAPACITY + 4
  {
    if capacity < 2 || |Body(tx)| > BODY_CAPACITY then None
    else
      PayloadSize(tx);
      if |Payload(tx)| > capacity then None else Some(Payload(tx))
  }

  lemma PayloadSize(tx: Tx)
    requires Held(tx) && |Body(tx)| <= BODY_CAPACITY
    ensures 2 <= |Payload(tx)| <= |Body(tx)| + 4
  {
    var n := |Body(tx)|;
    assert Power256(2) == 0x1_0000;
    LengthBytesBound(n, 2);
    hide Body;
  }

  // ----------------------------------------------------------------- reading

  datatype RlpItem = RlpItem(list: bool, data: seq<u8>)

  /** The item at pos, when all that it announces is inside the buffer. */
  function ItemAt(buf: seq<u8>, pos: nat): (r: Option<Found<RlpItem>>)
    ensures r.Some? ==> pos < r.value.end <= |buf| && |r.value.value.data| <= |buf|
  {
    if pos >= |buf| then None
    else
      var b := buf[pos];
      if b < 0x80 then Some(Found(RlpItem(false, buf[pos..pos + 1]), pos + 1))
      else
        var list := b >= 0xC0;
        var short := if list then b - 0xC0 else b - 0x80;
        if short <= 55 then Sized(buf, pos + 1, list, short) else Announced(buf, pos + 1, list, short - 55)
  }

  /** An item whose length takes bytes of its own, at most two of them. */
  function Announced(buf: seq<u8>, pos: nat, list: bool, lengths: nat): (r: Option<Found<RlpItem>>)
    requires pos <= |buf|
    ensures r.Some? ==> pos <= r.value.end <= |buf| && |r.value.value.data| <= |buf|
  {
    if lengths > 2 || lengths > |buf| - pos then None
    else Sized(buf, pos + lengths, list, FromBigEndian(buf[pos..pos + lengths]))
  }

  function Sized(buf: seq<u8>, pos: nat, list: bool, n: nat): (r: Option<Found<RlpItem>>)
    requires pos <= |buf|
    ensures r.Some? ==> pos <= r.value.end <= |buf| && |r.value.value.data| <= |buf|
  {
    if n > |buf| - pos then None else Some(Found(RlpItem(list, buf[pos..pos + n]), pos + n))
  }

  function QuantityAt(buf: seq<u8>, pos: nat): (r: Option<Found<Quantity>>)
    ensures r.Some? ==> pos < r.value.end <= |buf| && |r.value.value| <= 32 && Minimal(r.value.value)
  {
    var it :- ItemAt(buf, pos);
    if it.value.list || |it.value.data| > 32 then None else Some(Found(Stripped(it.value.data), it.end))
  }

  /** n quantities, one behind the other. */
  function QuantitiesAt(buf: seq<u8>, pos: nat, n: nat): (r: Option<Found<seq<Quantity>>>)
    ensures r.Some? ==> |r.value.value| == n && AllShort(r.value.value)
    ensures r.Some? ==> forall i | 0 <= i < n :: Minimal(r.value.value[i])
  {
    if n == 0 then Some(Found([], pos))
    else
      var first :- QuantitiesAt(buf, pos, n - 1);
      var last :- QuantityAt(buf, first.end);
      Some(Found(first.value + [last.value], last.end))
  }

  function RecipientAt(buf: seq<u8>, pos: nat): (r: Option<Found<Option<seq<u8>>>>)
    ensures r.Some? ==> pos < r.value.end <= |buf|
    ensures r.Some? && r.value.value.Some? ==> |r.value.value.value| == 20
  {
    var it :- ItemAt(buf, pos);
    if it.value.list || (|it.value.data| != 0 && |it.value.data| != 20) then None
    else Some(Found(if |it.value.data| == 20 then Some(it.value.data) else None, it.end))
  }

  function DataAt(buf: seq<u8>, pos: nat): (r: Option<Found<seq<u8>>>)
    ensures r.Some? ==> pos < r.value.end <= |buf| && |r.value.value| <= ETH_MAX_DATA
  {
    var it :- ItemAt(buf, pos);
    if it.value.list || |it.value.data| > ETH_MAX_DATA then None else Some(Found(it.value.data, it.end))
  }

  predicate EndsWithEmptyList(buf: seq<u8>, pos: nat) {
    var r := ItemAt(buf, pos);
    r.Some? && r.value.value.list && |r.value.value.data| == 0 && r.value.end == |buf|
  }

  /** The fields of a body, before what was read is encoded again. */
  function FieldsOf(b: seq<u8>): (r: Option<Tx>)
    ensures r.Some? ==> Held(r.value) && MinimalQuantities(r.value)
  {
    var numbers :- QuantitiesAt(b, 0, 5);
    if |numbers.value[0]| > 8 then None else RestOf(b, numbers.end, numbers.value)
  }

  function RestOf(b: seq<u8>, pos: nat, n: seq<Quantity>): (r: Option<Tx>)
    requires |n| == 5 && |n[0]| <= 8 && AllShort(n)
    ensures r.Some? ==> Held(r.value)
    ensures r.Some? && (forall i | 0 <= i < 5 :: Minimal(n[i])) ==> MinimalQuantities(r.value)
  {
    var to :- RecipientAt(b, pos);
    var value :- QuantityAt(b, to.end);
    var data :- DataAt(b, value.end);
    if EndsWithEmptyList(b, data.end) then Some(WithFields(n, to.value, value.value, data.value)) else None
  }

  function WithFields(n: seq<Quantity>, to: Option<seq<u8>>, value: Quantity, data: seq<u8>): (tx: Tx)
    requires |n| == 5 && |n[0]| <= 8 && AllShort(n)
    ensures tx.chainId < 0x1_0000_0000_0000_0000
  {
    ChainFits(n[0]);
    Tx(FromBigEndian(n[0]), n[1], n[2], n[3], n[4], to, value, data)
  }

  lemma ChainFits(q: seq<u8>)
    requires |q| <= 8
    ensures FromBigEndian(q) < 0x1_0000_0000_0000_0000
  {
    BigEndianBound(q);
    assert Power256(0) == 1 && Power256(1) == 256 && Power256(2) == 0x1_0000 && Power256(3) == 0x100_0000;
    assert Power256(4) == 0x1_0000_0000 && Power256(5) == 0x100_0000_0000;
    assert Power256(6) == 0x1_0000_0000_0000 && Power256(7) == 0x100_0000_0000_0000;
    assert Power256(8) == 0x1_0000_0000_0000_0000;
  }

  function ListBody(raw: seq<u8>): Option<seq<u8>> {
    if |raw| < 2 || raw[0] != 0x02 then None
    else
      var body :- ItemAt(raw, 1);
      if body.value.list && body.end == |raw| then Some(body.value.data) else None
  }

  /** The reader: the fields, on condition that they encode to the very bytes read. */
  function FromRlp(raw: seq<u8>): (r: Option<Tx>)
    ensures r.Some? ==> Held(r.value) && MinimalQuantities(r.value)
  {
    var body :- ListBody(raw);
    var tx :- FieldsOf(body);
    if Encoded(tx, AGAIN_CAPACITY) == Some(raw) then Some(tx) else None
  }

  // -------------------------------------------------------------- round trip

  lemma {:induction false} LengthReadsBack(n: nat)
    ensures FromBigEndian(LengthBytes(n)) == n
  {
    if n > 0 {
      LengthReadsBack(n / 256);
      assert LengthBytes(n)[..|LengthBytes(n)| - 1] == LengthBytes(n / 256);
    }
  }

  lemma {:induction false} ShortPrefix(buf: seq<u8>, pos: nat, n: nat, list: bool)
    requires n <= 55 && Stands(buf, pos, [if list then 0xC0 + n else 0x80 + n])
    ensures ItemAt(buf, pos) == Sized(buf, pos + 1, list, n)
  {
    StandsFirst(buf, pos, [if list then 0xC0 + n else 0x80 + n]);
  }

  lemma {:induction false} LongPrefix(buf: seq<u8>, pos: nat, lengths: seq<u8>, list: bool)
    requires 1 <= |lengths| <= 2
    requires Stands(buf, pos, [if list then 0xF7 + |lengths| else 0xB7 + |lengths|]) && Stands(buf, pos + 1, lengths)
    ensures pos + 1 + |lengths| <= |buf|
    ensures ItemAt(buf, pos) == Sized(buf, pos + 1 + |lengths|, list, FromBigEndian(lengths))
  {
    StandsFirst(buf, pos, [if list then 0xF7 + |lengths| else 0xB7 + |lengths|]);
    hide FromBigEndian, Sized;
  }

  lemma SizedReadsBack(buf: seq<u8>, pos: nat, data: seq<u8>, list: bool)
    requires Stands(buf, pos, data)
    ensures Sized(buf, pos, list, |data|) == Some(Found(RlpItem(list, data), pos + |data|))
  {}

  lemma {:induction false} HeaderByCases(n: nat, offset: u8)
    requires n < 0x1_0000 && n < Power256(8) && (offset == 0x80 || offset == 0xC0)
    ensures n <= 55 ==> Header(n, offset) == [offset + n]
    ensures n > 55 ==> 1 <= |LengthBytes(n)| <= 2 && FromBigEndian(LengthBytes(n)) == n
    ensures n > 55 ==> Header(n, offset) == [offset + 55 + |LengthBytes(n)|] + LengthBytes(n)
  {
    TwoLengthBytes(n);
    LengthReadsBack(n);
    hide FromBigEndian, LengthBytes, Power256;
  }

  lemma {:induction false} TwoLengthBytes(n: nat)
    requires n < 0x1_0000
    ensures |LengthBytes(n)| <= 2
  {
    assert Power256(2) == 0x1_0000;
    LengthBytesBound(n, 2);
  }

  /** A prefix and what it announces are read as one item. */
  lemma {:induction false} PrefixedReadsBack(buf: seq<u8>, pos: nat, data: seq<u8>, list: bool)
    requires |data| < 0x1_0000 && |data| < Power256(8)
    requires Stands(buf, pos, Header(|data|, if list then 0xC0 else 0x80) + data)
    ensures Finds(ItemAt(buf, pos), RlpItem(list, data), pos + |Header(|data|, if list then 0xC0 else 0x80)| + |data|)
  {
    hide Stands, Header, LengthBytes, FromBigEndian, ItemAt, Sized, Power256;
    var n := |data|;
    var offset: u8 := if list then 0xC0 else 0x80;
    var header := Header(n, offset);
    HeaderByCases(n, offset);
    StandsSplit(buf, pos, header, data);
    if n <= 55 {
      ShortPrefix(buf, pos, n, list);
    } else {
      var lengths := LengthBytes(n);
      StandsSplit(buf, pos, [offset + 55 + |lengths|], lengths);
      LongPrefix(buf, pos, lengths, list);
    }
    SizedReadsBack(buf, pos + |header|, data, list);
  }

  lemma FieldReadsBack(buf: seq<u8>, pos: nat, data: seq<u8>)
    requires |data| < 0x1_0000 && Stands(buf, pos, Field(data))
    ensures Finds(ItemAt(buf, pos), RlpItem(false, data), pos + |Field(data)|)
  {
    Small(|data|);
    if |data| == 1 && data[0] < 0x80 {
      StandsFirst(buf, pos, data);
      StandsRange(buf, pos, data);
      assert buf[pos..pos + 1] == data;
    } else {
      hide ItemAt, Stands;
      PrefixedReadsBack(buf, pos, data, false);
    }
  }

  lemma QuantityReadsBack(buf: seq<u8>, pos: nat, q: Quantity)
    requires |q| <= 32 && Stands(buf, pos, Field(q))
    ensures Finds(QuantityAt(buf, pos), Stripped(q), pos + |Field(q)|)
  {
    hide ItemAt, Stands, Field;
    FieldReadsBack(buf, pos, q);
  }

  /** A transaction with its quantities stripped of leading zeros. */
  function Canonical(tx: Tx): (c: Tx)
    ensures MinimalQuantities(c)
    ensures MinimalQuantities(tx) ==> c == tx
    ensures Held(tx) ==> Held(c)
  {
    tx.(nonce := Stripped(tx.nonce), maxPriorityFee := Stripped(tx.maxPriorityFee),
        maxFee := Stripped(tx.maxFee), gasLimit := Stripped(tx.gasLimit), value := Stripped(tx.value))
  }

  lemma {:induction false} NumbersReadBack(buf: seq<u8>, q: seq<Quantity>)
    requires AllShort(q) && Stands(buf, 0, Concat(Fields(q)))
    ensures Finds(QuantitiesAt(buf, 0, |q|), AllStripped(q), |Concat(Fields(q))|)
  {
    hide Field, QuantityAt, Stands, Stripped;
    if |q| > 0 {
      var rest, last := q[..|q| - 1], q[|q| - 1];
      ConcatPair(Fields(rest), Field(last));
      StandsSplit(buf, 0, Concat(Fields(rest)), Field(last));
      NumbersReadBack(buf, rest);
      QuantityReadsBack(buf, |Concat(Fields(rest))|, last);
    }
  }

  function AllStripped(q: seq<Quantity>): (r: seq<Quantity>)
    ensures AllShort(q) ==> AllShort(r)
    ensures |r| == |q| && forall i | 0 <= i < |q| :: r[i] == Stripped(q[i])
  {
    if |q| == 0 then [] else AllStripped(q[..|q| - 1]) + [Stripped(q[|q| - 1])]
  }

  /** The parts of a body stand in it one behind the other. */
  lemma {:induction false} PartsStand(b: seq<u8>, tx: Tx) returns (p5: nat, p6: nat, p7: nat, p8: nat)
    requires Held(tx) && b == Body(tx)
    ensures p5 == |Concat(Fields(Numbers(tx)))| && p6 == p5 + |Field(ToField(tx.to))|
    ensures p7 == p6 + |Field(tx.value)| && p8 == p7 + |Field(tx.data)|
    ensures Stands(b, 0, Concat(Fields(Numbers(tx)))) && Stands(b, p5, Field(ToField(tx.to)))
    ensures Stands(b, p6, Field(tx.value)) && Stands(b, p7, Field(tx.data))
    ensures Stands(b, p8, [0xC0]) && |b| == p8 + 1
  {
    var f5 := Fields(Numbers(tx));
    var to, value, data := Field(ToField(tx.to)), Field(tx.value), Field(tx.data);
    assert Parts(tx) == f5 + [to] + [value] + [data] + [[0xC0]];
    BodyIsConcat(tx);
    hide *;
    ConcatPair(f5, to);
    ConcatPair(f5 + [to], value);
    ConcatPair(f5 + [to] + [value], data);
    ConcatPair(f5 + [to] + [value] + [data], [0xC0]);
    p5, p6, p7, p8 := FiveStand(b, Concat(f5), to, value, data);
  }

  lemma FiveStand(b: seq<u8>, first: seq<u8>, to: seq<u8>, value: seq<u8>, data: seq<u8>)
      returns (p5: nat, p6: nat, p7: nat, p8: nat)
    requires b == first + to + value + data + [0xC0]
    ensures p5 == |first| && p6 == p5 + |to| && p7 == p6 + |value| && p8 == p7 + |data| && |b| == p8 + 1
    ensures Stands(b, 0, first) && Stands(b, p5, to) && Stands(b, p6, value) && Stands(b, p7, data)
    ensures Stands(b, p8, [0xC0])
  {
    hide Stands;
    p5, p6 := |first|, |first + to|;
    p7, p8 := |first + to + value|, |first + to + value + data|;
    StandsWhole(b);
    StandsSplit(b, 0, first + to + value + data, [0xC0]);
    StandsSplit(b, 0, first + to + value, data);
    StandsSplit(b, 0, first + to, value);
    StandsSplit(b, 0, first, to);
  }

  lemma BodyIsConcat(tx: Tx)
    requires Held(tx)
    ensures Body(tx) == Concat(Parts(tx))
  {}

  lemma RecipientReadsBack(buf: seq<u8>, pos: nat, to: Option<seq<u8>>)
    requires (to.Some? ==> |to.value| == 20) && Stands(buf, pos, Field(ToField(to)))
    ensures Finds(RecipientAt(buf, pos), to, pos + |Field(ToField(to))|)
  {
    hide ItemAt, Stands, Field;
    FieldReadsBack(buf, pos, ToField(to));
  }

  lemma DataReadsBack(buf: seq<u8>, pos: nat, data: seq<u8>)
    requires |data| <= ETH_MAX_DATA && Stands(buf, pos, Field(data))
    ensures Finds(DataAt(buf, pos), data, pos + |Field(data)|)
  {
    hide ItemAt, Stands, Field;
    FieldReadsBack(buf, pos, data);
  }

  lemma EmptyListReadsBack(buf: seq<u8>, pos: nat)
    requires Stands(buf, pos, [0xC0]) && |buf| == pos + 1
    ensures EndsWithEmptyList(buf, pos)
  {
    StandsFirst(buf, pos, [0xC0]);
  }

  lemma {:induction false} RestReadsBack(tx: Tx, n: seq<Quantity>)
    requires Held(tx) && |n| == 5 && |n[0]| <= 8 && AllShort(n)
    ensures RestOf(Body(tx), |Concat(Fields(Numbers(tx)))|, n)
         == Some(WithFields(n, tx.to, Stripped(tx.value), tx.data))
  {
    assert (tx.to.Some? ==> |tx.to.value| == 20) && |tx.data| <= ETH_MAX_DATA && |ToField(tx.to)| < 0x1_0000 && |tx.value| <= 32;
    hide ToField, RecipientAt, QuantityAt, DataAt, EndsWithEmptyList, WithFields, RestOf, Stands, Field, Body, Concat, Fields, Numbers,
      Stripped, Held, AllShort;
    var b := Body(tx);
    var p5, p6, p7, p8 := PartsStand(b, tx);
    RecipientReadsBack(b, p5, tx.to);
    QuantityReadsBack(b, p6, tx.value);
    DataReadsBack(b, p7, tx.data);
    EmptyListReadsBack(b, p8);
    RestFound(b, p5, n, tx.to, p6, Stripped(tx.value), p7, tx.data, p8);
  }

  lemma RestFound(b: seq<u8>, pos: nat, n: seq<Quantity>, to: Option<seq<u8>>, p6: nat, value: Quantity, p7: nat,
                  data: seq<u8>, p8: nat)
    requires |n| == 5 && |n[0]| <= 8 && AllShort(n)
    requires Finds(RecipientAt(b, pos), to, p6) && Finds(QuantityAt(b, p6), value, p7)
    requires Finds(DataAt(b, p7), data, p8) && EndsWithEmptyList(b, p8)
    ensures RestOf(b, pos, n) == Some(WithFields(n, to, value, data))
  {
    hide RecipientAt, QuantityAt, DataAt, EndsWithEmptyList, WithFields;
  }

  lemma {:induction false} FieldsReadBack(tx: Tx)
    requires Held(tx)
    ensures FieldsOf(Body(tx)) == Some(Canonical(tx))
  {
    var b, numbers := Body(tx), Numbers(tx);
    var n := AllStripped(numbers);
    var p5, p6, p7, p8 := PartsStand(b, tx);
    StrippedMinimal(ChainBytes(tx.chainId));
    ChainRoundTrip(tx.chainId);
    assert |n[0]| <= 8 && WithFields(n, tx.to, Stripped(tx.value), tx.data) == Canonical(tx) by {
      hide FromBigEndian, Stripped, AllStripped, ChainBytes;
    }
    hide Stands, Body, QuantitiesAt, RestOf, Concat, Fields, AllStripped, WithFields, Canonical;
    NumbersReadBack(b, numbers);
    RestReadsBack(tx, n);
  }

  lemma ListReadsBack(tx: Tx)
    requires Held(tx) && |Body(tx)| <= BODY_CAPACITY
    ensures ListBody(Payload(tx)) == Some(Body(tx))
  {
    hide Body, ItemAt, Header;
    var raw := Payload(tx);
    PayloadSize(tx);
    Small(|Body(tx)|);
    StandsWhole(raw);
    var rest := Header(|Body(tx)|, 0xC0) + Body(tx);
    assert raw == [0x02] + rest;
    StandsSplit(raw, 0, [0x02], rest);
    PrefixedReadsBack(raw, 1, Body(tx), true);
  }

  /** Encoding, then reading, returns the transaction exactly when its quantities
      carry no leading zeros; the reader refuses every other encoding. */
  lemma ReaderInvertsTheEncoder(tx: Tx, capacity: nat)
    requires Held(tx) && Encoded(tx, capacity).Some?
    ensures MinimalQuantities(tx) ==> FromRlp(Encoded(tx, capacity).value) == Some(tx)
    ensures !MinimalQuantities(tx) ==> FromRlp(Encoded(tx, capacity).value) != Some(tx)
  {
    hide Body, ListBody, FieldsOf, Payload;
    ListReadsBack(tx);
    FieldsReadBack(tx);
    PayloadSize(tx);
  }

  /** The reader accepts exactly the encodings of transactions with minimal quantities. */
  lemma ReaderAcceptsExactlyTheImage(raw: seq<u8>, tx: Tx)
    ensures FromRlp(raw) == Some(tx)
       <==> Held(tx) && MinimalQuantities(tx) && Encoded(tx, AGAIN_CAPACITY) == Some(raw)
  {
    hide Encoded, ListBody, FieldsOf;
    if Held(tx) && MinimalQuantities(tx) && Encoded(tx, AGAIN_CAPACITY) == Some(raw) {
      ReaderInvertsTheEncoder(tx, AGAIN_CAPACITY);
    }
  }

  /** No two transactions with minimal quantities are hashed from the same bytes. */
  lemma EncodingIsInjective(a: Tx, b: Tx, m: nat, n: nat)
    requires Held(a) && MinimalQuantities(a) && Held(b) && MinimalQuantities(b)
    requires Encoded(a, m).Some? && Encoded(a, m) == Encoded(b, n)
    ensures a == b
  {
    hide *;
    ReaderInvertsTheEncoder(a, m);
    ReaderInvertsTheEncoder(b, n);
  }

  // ---------------------------------------------------------- what is encoded

  /** The bytes that a length takes in front of what it announces. */
  function HeaderSize(n: nat): nat { if n <= 55 then 1 else if n < 0x100 then 2 else 3 }

  function FieldSize(data: seq<u8>): nat {
    if |data| == 1 && data[0] < 0x80 then 1 else HeaderSize(|data|) + |data|
  }

  lemma HeaderTakes(n: nat, offset: u8)
    requires n < 0x1_0000 && (offset == 0x80 || offset == 0xC0)
    ensures n < Power256(8) && |Header(n, offset)| == HeaderSize(n)
  {
    Small(n);
    if n < 0x100 {
      assert Power256(1) == 0x100;
      LengthBytesBound(n, 1);
    } else {
      assert Power256(2) == 0x1_0000;
      LengthBytesBound(n, 2);
      assert |LengthBytes(n / 256)| > 0;
    }
  }

  lemma FieldTakes(data: seq<u8>)
    requires |data| < 0x1_0000
    ensures |Field(data)| == FieldSize(data)
  {
    HeaderTakes(|data|, 0x80);
    hide Header;
  }

  /** The body's length, field by field; the access list takes one byte. */
  function BodySize(tx: Tx): nat {
    FieldSize(ChainBytes(tx.chainId)) + FieldSize(tx.nonce) + FieldSize(tx.maxPriorityFee) + FieldSize(tx.maxFee)
    + FieldSize(tx.gasLimit) + FieldSize(ToField(tx.to)) + FieldSize(tx.value) + FieldSize(tx.data) + 1
  }

  function Sizes(parts: seq<seq<u8>>): nat {
    if |parts| == 0 then 0 else Sizes(parts[..|parts| - 1]) + |parts[|parts| - 1]|
  }

  lemma {:induction false} ConcatTakes(parts: seq<seq<u8>>)
    ensures |Concat(parts)| == Sizes(parts)
  {
    if |parts| > 0 { ConcatTakes(parts[..|parts| - 1]); }
  }

  lemma OneMorePart(a: seq<seq<u8>>, x: seq<u8>)
    ensures Sizes(a + [x]) == Sizes(a) + |x|
  {
    assert (a + [x])[..|a|] == a;
  }

  lemma NoParts() ensures Sizes([]) == 0 {}

  lemma FourParts(p: seq<seq<u8>>, a: seq<u8>, b: seq<u8>, c: seq<u8>, d: seq<u8>)
    ensures Sizes(p + [a, b, c, d]) == Sizes(p) + |a| + |b| + |c| + |d|
  {
    hide Sizes;
    OneMorePart(p, a);
    OneMorePart(p + [a], b);
    OneMorePart(p + [a] + [b], c);
    OneMorePart(p + [a] + [b] + [c], d);
    assert p + [a] + [b] + [c] + [d] == p + [a, b, c, d];
  }

  lemma BodyTakes(tx: Tx)
    requires Held(tx)
    ensures |Body(tx)| == BodySize(tx)
  {
    var n := Numbers(tx);
    var f := Fields(n);
    assert f == [f[0]] + [f[1], f[2], f[3], f[4]];
    forall i | 0 <= i < 5 ensures |f[i]| == FieldSize(n[i]) { FieldTakes(n[i]); }
    FieldTakes(ToField(tx.to));
    FieldTakes(tx.value);
    FieldTakes(tx.data);
    hide Field, FieldSize, Concat, Sizes, Fields, ChainBytes;
    var none: seq<seq<u8>> := [];
    NoParts();
    OneMorePart(none, f[0]);
    assert none + [f[0]] == [f[0]];
    FourParts([f[0]], f[1], f[2], f[3], f[4]);
    FourParts(f, Field(ToField(tx.to)), Field(tx.value), Field(tx.data), [0xC0]);
    ConcatTakes(Parts(tx));
  }

  /** A transaction is encoded exactly when its fields together fit the body buffer, and the
      body with its type byte and list header fits the output. */
  lemma EncodedExactlyWhenItFits(tx: Tx, capacity: nat)
    requires Held(tx)
    ensures Encoded(tx, capacity).Some? <==>
      BodySize(tx) <= BODY_CAPACITY && 1 + HeaderSize(BodySize(tx)) + BodySize(tx) <= capacity
    ensures Encoded(tx, capacity).Some? ==>
      |Encoded(tx, capacity).value| == 1 + HeaderSize(BodySize(tx)) + BodySize(tx)
  {
    BodyTakes(tx);
    hide Body, BodySize, Header;
    if BodySize(tx) <= BODY_CAPACITY { HeaderTakes(BodySize(tx), 0xC0); }
  }

  /** In the buffers that are hashed from and read again in, only the body's length decides. */
  lemma OnlyTheBodyLimits(tx: Tx)
    requires Held(tx)
    ensures Encoded(tx, AGAIN_CAPACITY).Some? <==> BodySize(tx) <= 928
  {
    EncodedExactlyWhenItFits(tx, AGAIN_CAPACITY);
    hide Encoded, BodySize;
  }

  /** The body buffer is smaller than the worst case: a transaction whose fields are
      all as long as they can be is never encoded, whatever the output can take. */
  lemma WorstCaseIsRefused(tx: Tx, capacity: nat)
    requires Held(tx) && |tx.data| == 768 && tx.to.Some? && |tx.value| == 32
    requires |tx.nonce| == |tx.maxPriorityFee| == |tx.maxFee| == |tx.gasLimit| == 32
    ensures Encoded(tx, capacity) == None
  {
    EncodedExactlyWhenItFits(tx, capacity);
    hide Encoded, ChainBytes;
  }
}
