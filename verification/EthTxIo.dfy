/** The transaction encoder and reader as they run over buffers and a cursor. */
module EthTxIo {
  import opened Buffers
  import opened Bytes
  import opened EthTx

  // ------------------------------------------------------------- quantities

  /** Leading zeros are dropped; what remains must fit 32 bytes. */
  method QuantitySet(bytes: seq<u8>) returns (q: Option<Quantity>)
    ensures q == if |Stripped(bytes)| <= 32 then Some(Stripped(bytes)) else None
  {
    var start := 0;
    while start < |bytes| && bytes[start] == 0
      invariant start <= |bytes| && Stripped(bytes) == Stripped(bytes[start..])
    {
      assert bytes[start..][1..] == bytes[start + 1..];
      start := start + 1;
    }
    assert Stripped(bytes) == bytes[start..];
    if |bytes| - start > 32 { return None; }
    q := Some(bytes[start..]);
  }

  /** A 64-bit number, its bytes taken from the low end. */
  method QuantitySetU64(value: nat) returns (q: Quantity)
    requires value < 0x1_0000_0000_0000_0000
    ensures q == ChainBytes(value)
  {
    var be := new u8[8];
    var v, i := value, 8;
    while i > 0
      invariant 0 <= i <= 8
      invariant ToBigEndian(value, 8) == ToBigEndian(v, i) + be[i..]
    {
      i := i - 1;
      be[i] := v % 256;
      assert be[i..] == [v % 256] + be[i + 1..];
      v := v / 256;
    }
    assert be[..] == ToBigEndian(value, 8);
    var r := QuantitySet(be[..]);
    q := r.value;
  }

  // ---------------------------------------------------------------- encoding

  /** The bytes of a length, low end first. */
  method LowBytesFirst(n: nat) returns (be: array<u8>, k: nat)
    requires n < Power256(8)
    ensures fresh(be) && k <= be.Length && Reversed(be[..], k) == LengthBytes(n)
  {
    LengthBytesBound(n, 8);
    be := new u8[8];
    var v := n;
    k := 0;
    while v > 0
      invariant k + |LengthBytes(v)| == |LengthBytes(n)|
      invariant LengthBytes(n) == LengthBytes(v) + Reversed(be[..], k)
      decreases v
    {
      NonzeroHasBytes(v);
      ghost var was := be[..];
      be[k] := v % 256;
      assert Reversed(be[..], k) == Reversed(was, k);
      assert Reversed(be[..], k + 1) == [v % 256] + Reversed(was, k);
      k := k + 1;
      v := v / 256;
    }
  }

  method RlpHeader(w: BoundedBuffer, n: nat, offset: u8)
    requires w.Valid() && n < Power256(8) && (offset == 0x80 || offset == 0xC0)
    modifies w, w.buf
    ensures w.Valid() && w.intended == old(w.intended) + Header(n, offset)
  {
    hide *;
    HeaderIs(n, offset);
    if n <= 55 {
      w.Put(offset + n);
      return;
    }
    ghost var was := w.intended;
    var be, k := LowBytesFirst(n);
    ReversedLength(be[..], k);
    w.Put(offset + 55 + k);
    PutReversed(w, be, k);
    assert w.intended == was + ([offset + 55 + k] + LengthBytes(n));
  }

  lemma HeaderIs(n: nat, offset: u8)
    requires n < Power256(8) && (offset == 0x80 || offset == 0xC0)
    ensures |LengthBytes(n)| <= 8
    ensures Header(n, offset) == if n <= 55 then [offset + n] else [offset + 55 + |LengthBytes(n)|] + LengthBytes(n)
  {
    LengthBytesBound(n, 8);
    hide LengthBytes, Power256;
  }

  lemma ReversedLength(s: seq<u8>, k: nat)
    requires k <= |s|
    ensures |Reversed(s, k)| == k
  {}

  lemma NonzeroHasBytes(v: nat)
    ensures v > 0 ==> LengthBytes(v) == LengthBytes(v / 256) + [v % 256]
  {}

  /** The first k elements, last first. */
  function Reversed(s: seq<u8>, k: nat): (r: seq<u8>)
    requires k <= |s|
    ensures |r| == k && forall i | 0 <= i < k :: r[i] == s[k - 1 - i]
  {
    if k == 0 then [] else [s[k - 1]] + Reversed(s, k - 1)
  }

  method PutReversed(w: BoundedBuffer, be: array<u8>, k: nat)
    requires w.Valid() && k <= be.Length && be != w.buf
    modifies w, w.buf
    ensures w.Valid() && w.intended == old(w.intended) + Reversed(be[..], k)
  {
    hide *;
    var i := k;
    ghost var bytes, was := be[..], w.intended;
    ReversedEnds(bytes, k);
    while i > 0
      invariant 0 <= i <= k && w.Valid() && be[..] == bytes
      invariant w.intended + Reversed(bytes, i) == was + Reversed(bytes, k)
    {
      ReversedEnds(bytes, i);
      Shifted(w.intended, bytes[i - 1], Reversed(bytes, i - 1));
      w.Put(be[i - 1]);
      i := i - 1;
    }
    ReversedEnds(bytes, 0);
  }

  lemma Shifted(a: seq<u8>, b: u8, c: seq<u8>)
    ensures a + [b] + c == a + ([b] + c)
  {}

  lemma ReversedEnds(s: seq<u8>, k: nat)
    requires k <= |s|
    ensures Reversed(s, k) == if k == 0 then [] else [s[k - 1]] + Reversed(s, k - 1)
  {}

  method RlpFieldTo(w: BoundedBuffer, data: seq<u8>)
    requires w.Valid() && |data| < 0x1_0000
    modifies w, w.buf
    ensures w.Valid() && w.intended == old(w.intended) + Field(data)
  {
    hide *;
    FieldIs(data);
    if |data| == 1 && data[0] < 0x80 {
      w.Put(data[0]);
      assert data == [data[0]];
      return;
    }
    RlpHeader(w, |data|, 0x80);
    w.PutAll(data);
  }

  lemma FieldIs(data: seq<u8>)
    requires |data| < 0x1_0000
    ensures |data| < Power256(8)
    ensures Field(data) == if |data| == 1 && data[0] < 0x80 then data else Header(|data|, 0x80) + data
  {
    Small(|data|);
    hide Power256, Header;
  }

  /** The signing payload, or 0 when it does not fit. */
  method TxEncode(tx: Tx, out: array<u8>) returns (n: nat)
    requires Held(tx)
    modifies out
    ensures n == 0 <==> Encoded(tx, out.Length) == None
    ensures n > 0 ==> n <= out.Length && Encoded(tx, out.Length) == Some(out[..n])
  {
    if out.Length < 2 { return 0; }
    var body := new u8[BODY_CAPACITY];
    var b := new BoundedBuffer(body);
    BodyTo(b, tx);
    if b.overflow { return 0; }
    WrittenInFull(b);
    var o := new BoundedBuffer(out);
    var written := body[..b.length];
    Small(|written|);
    EncodedIs(tx, out.Length);
    n := PayloadTo(o, written);
    WrittenInFull(o);
  }

  lemma EncodedIs(tx: Tx, capacity: nat)
    requires Held(tx) && capacity >= 2 && |Body(tx)| <= BODY_CAPACITY
    ensures |Body(tx)| < Power256(8)
    ensures Encoded(tx, capacity)
         == var p := [0x02] + Header(|Body(tx)|, 0xC0) + Body(tx); if |p| <= capacity then Some(p) else None
    ensures 2 <= |[0x02] + Header(|Body(tx)|, 0xC0) + Body(tx)|
  {
    PayloadSize(tx);
    Small(|Body(tx)|);
    hide Body, Header, Power256;
  }

  /** Type byte, list header, body: the length written, or 0 on overflow. */
  method PayloadTo(o: BoundedBuffer, body: seq<u8>) returns (n: nat)
    requires o.Valid() && o.intended == [] && |body| < Power256(8)
    modifies o, o.buf
    ensures o.Valid() && o.intended == [0x02] + Header(|body|, 0xC0) + body
    ensures n == if o.overflow then 0 else o.length
  {
    hide Power256;
    o.Put(0x02);
    RlpHeader(o, |body|, 0xC0);
    o.PutAll(body);
    n := if o.overflow then 0 else o.length;
  }

  method BodyTo(b: BoundedBuffer, tx: Tx)
    requires Held(tx) && b.Valid() && b.intended == []
    modifies b, b.buf
    ensures b.Valid() && b.intended == Body(tx)
  {
    assert |tx.value| <= 32 && |tx.data| <= ETH_MAX_DATA && tx.chainId < 0x1_0000_0000_0000_0000;
    ToFieldIs(tx);
    BodyIs(tx);
    SmallEmptyList();
    hide *;
    var chain := QuantitySetU64(tx.chainId);
    NumbersTo(b, tx, chain);
    var to := if tx.to.Some? then tx.to.value else [];
    RlpFieldTo(b, to);
    RlpFieldTo(b, tx.value);
    RlpFieldTo(b, tx.data);
    RlpHeader(b, 0, 0xC0);
  }

  lemma BodyIs(tx: Tx)
    requires Held(tx)
    ensures |ToField(tx.to)| < 0x1_0000
    ensures Body(tx) == Concat(Fields(Numbers(tx))) + Field(ToField(tx.to)) + Field(tx.value) + Field(tx.data) + [0xC0]
  {
    hide Field, Concat, ToField;
    ToFieldIs(tx);
    var f5 := Fields(Numbers(tx));
    var to, value, data := Field(ToField(tx.to)), Field(tx.value), Field(tx.data);
    assert Parts(tx) == f5 + [to] + [value] + [data] + [[0xC0]];
    BodyIsConcat(tx);
    hide *;
    ConcatPair(f5, to);
    ConcatPair(f5 + [to], value);
    ConcatPair(f5 + [to] + [value], data);
    ConcatPair(f5 + [to] + [value] + [data], [0xC0]);
  }

  lemma ToFieldIs(tx: Tx)
    requires Held(tx)
    ensures ToField(tx.to) == if tx.to.Some? then tx.to.value else []
    ensures |ToField(tx.to)| <= 20
  {}

  lemma SmallEmptyList()
    ensures 0 < Power256(8) && Header(0, 0xC0) == [0xC0]
  {}

  method NumbersTo(b: BoundedBuffer, tx: Tx, chain: Quantity)
    requires Held(tx) && b.Valid() && b.intended == [] && chain == ChainBytes(tx.chainId)
    modifies b, b.buf
    ensures b.Valid() && b.intended == Concat(Fields(Numbers(tx)))
  {
    var numbers := [chain, tx.nonce, tx.maxPriorityFee, tx.maxFee, tx.gasLimit];
    assert numbers == Numbers(tx) && AllShort(numbers);
    assert Concat(Fields(numbers[..0])) == [];
    hide *;
    var i := 0;
    while i < 5
      invariant 0 <= i <= 5 && b.Valid() && AllShort(numbers[..i]) && b.intended == Concat(Fields(numbers[..i]))
    {
      FieldsGrow(numbers, i);
      RlpFieldTo(b, numbers[i]);
      i := i + 1;
    }
    assert numbers[..5] == numbers;
  }

  lemma FieldsGrow(numbers: seq<Quantity>, i: nat)
    requires AllShort(numbers) && i < |numbers|
    ensures AllShort(numbers[..i]) && AllShort(numbers[..i + 1]) && |numbers[i]| <= 32
    ensures Concat(Fields(numbers[..i + 1])) == Concat(Fields(numbers[..i])) + Field(numbers[i])
  {
    hide Field, Concat;
    assert numbers[..i + 1][..i] == numbers[..i];
    ConcatPair(Fields(numbers[..i]), Field(numbers[i]));
  }

  // ----------------------------------------------------------------- reading

  class Cursor {
    const buf: seq<u8>
    var pos: nat

    constructor (buf: seq<u8>)
      ensures this.buf == buf && pos == 0
    {
      this.buf := buf;
      pos := 0;
    }

    method Next() returns (r: Option<RlpItem>)
      requires pos <= |buf|
      modifies this
      ensures pos <= |buf|
      ensures r.Some? <==> ItemAt(buf, old(pos)).Some?
      ensures r.Some? ==> Finds(ItemAt(buf, old(pos)), r.value, pos)
    {
      hide FromBigEndian;
      if pos >= |buf| { return None; }
      var b := buf[pos];
      pos := pos + 1;
      if b < 0x80 { return Some(RlpItem(false, buf[pos - 1..pos])); }
      var list := b >= 0xC0;
      var n: nat;
      if b <= 0xB7 || 0xC0 <= b <= 0xF7 {
        n := b - if list then 0xC0 else 0x80;
      } else {
        var lengths := b - if list then 0xF7 else 0xB7;
        if lengths > 2 || lengths > |buf| - pos { return None; }
        n := TakeLength(lengths);
      }
      if n > |buf| - pos { return None; }
      r := Some(RlpItem(list, buf[pos..pos + n]));
      pos := pos + n;
    }

    method TakeLength(lengths: nat) returns (n: nat)
      requires pos + lengths <= |buf|
      modifies this
      ensures pos == old(pos) + lengths && n == FromBigEndian(buf[old(pos)..pos])
    {
      ghost var start := pos;
      n := 0;
      var i := 0;
      while i < lengths
        invariant 0 <= i <= lengths && pos == start + i && n == FromBigEndian(buf[start..pos])
      {
        n := 256 * n + (buf[pos] as int);
        assert buf[start..pos + 1][..i] == buf[start..pos];
        pos := pos + 1;
        i := i + 1;
      }
    }

    method TakeQuantity() returns (q: Option<Quantity>)
      requires pos <= |buf|
      modifies this
      ensures pos <= |buf|
      ensures q.Some? <==> QuantityAt(buf, old(pos)).Some?
      ensures q.Some? ==> Finds(QuantityAt(buf, old(pos)), q.value, pos)
    {
      hide ItemAt, Stripped;
      var it := Next();
      if it.None? || it.value.list || |it.value.data| > 32 { return None; }
      q := QuantitySet(it.value.data);
    }
  }

  /** The five leading numbers, or nothing. */
  method TakeNumbers(c: Cursor) returns (numbers: Option<seq<Quantity>>)
    requires c.pos == 0
    modifies c
    ensures c.pos <= |c.buf|
    ensures numbers.Some? <==> QuantitiesAt(c.buf, 0, 5).Some?
    ensures numbers.Some? ==> Finds(QuantitiesAt(c.buf, 0, 5), numbers.value, c.pos)
  {
    hide QuantityAt;
    var taken: seq<Quantity> := [];
    var i := 0;
    while i < 5
      invariant 0 <= i <= 5 && c.pos <= |c.buf|
      invariant Finds(QuantitiesAt(c.buf, 0, i), taken, c.pos)
    {
      var q := c.TakeQuantity();
      if q.None? {
        NoMoreQuantities(c.buf, i + 1, 5);
        return None;
      }
      taken := taken + [q.value];
      i := i + 1;
    }
    numbers := Some(taken);
  }

  lemma {:induction false} NoMoreQuantities(buf: seq<u8>, k: nat, n: nat)
    requires k <= n && QuantitiesAt(buf, 0, k).None?
    ensures QuantitiesAt(buf, 0, n).None?
  {
    hide QuantityAt;
    if k < n { NoMoreQuantities(buf, k, n - 1); }
  }

  /** The rest of a body: recipient, value, data and an empty access list. */
  method TakeRest(c: Cursor, n: seq<Quantity>) returns (tx: Option<Tx>)
    requires c.pos <= |c.buf| && |n| == 5 && |n[0]| <= 8 && AllShort(n)
    modifies c
    ensures tx == RestOf(c.buf, old(c.pos), n)
  {
    hide ItemAt, Stripped, FromBigEndian;
    var to := c.Next();
    if to.None? || to.value.list || (|to.value.data| != 0 && |to.value.data| != 20) { return None; }
    var value := c.TakeQuantity();
    if value.None? { return None; }
    var data := c.Next();
    if data.None? || data.value.list || |data.value.data| > ETH_MAX_DATA { return None; }
    var access := c.Next();
    if access.None? || !access.value.list || |access.value.data| != 0 || c.pos != |c.buf| { return None; }
    tx := Some(WithFields(n, if |to.value.data| == 20 then Some(to.value.data) else None, value.value, data.value.data));
  }

  /** Read a payload: only what encodes to the very same bytes is accepted. */
  method TxFromRlp(raw: seq<u8>) returns (tx: Option<Tx>)
    ensures tx == FromRlp(raw)
  {
    hide ItemAt, QuantitiesAt, RestOf, Encoded;
    if |raw| < 2 || raw[0] != 0x02 { return None; }
    var outer := new Cursor(raw);
    outer.pos := 1;
    var body := outer.Next();
    if body.None? || !body.value.list || outer.pos != |raw| { return None; }
    var c := new Cursor(body.value.data);
    var numbers := TakeNumbers(c);
    if numbers.None? || |numbers.value[0]| > 8 { return None; }
    tx := TakeRest(c, numbers.value);
    if tx.None? { return; }
    var again := new u8[AGAIN_CAPACITY];
    var n := TxEncode(tx.value, again);
    if !(n == |raw| && again[..n] == raw) { return None; }
  }
}
