/** The signature that goes back to the host, byte by byte. */
module Eip4527Signature {
  import opened Bytes
  import opened Cbor
  import opened Eip4527
  import opened Eip4527Order
  import Io = Eip4527Io

  // The answer in the bytes that EIP-4527 prescribes for it.

  /** A map of two or three pairs: 1, tag 37 and the id; 2 and the signature; 3 and the
      origin. */
  function OnTheWire(id: seq<u8>, signature: seq<u8>, origin: Option<seq<u8>>): seq<u8>
    requires |id| == 16 && |signature| == 65 && (origin.Some? ==> |origin.value| <= 64)
  {
    [if origin.Some? then 0xA3 else 0xA2] + ([0x01, 0xD8, 0x25, 0x50] + id + ([0x02, 0x58, 0x41] + signature
    + match origin
      case None => []
      case Some(o) => (if |o| < 24 then [0x03, 0x60 + |o|] else [0x03, 0x78, |o|]) + o))
  }

  lemma Tail(n: nat)
    requires n < 0x100
    ensures ToBigEndian(n, 1) == [n]
  {
    assert ToBigEndian(n / 256, 0) == [];
  }

  lemma IdBytes(id: seq<u8>)
    requires |id| == 16
    ensures WrittenId(id) == [0x01, 0xD8, 0x25, 0x50] + id
  {
    Tail(37);
    assert HeadBytes(0, 1) + HeadBytes(6, TAG_UUID) == [0x01, 0xD8, 0x25];
    hide HeadBytes, ToBigEndian;
    assert HeadBytes(2, 16) == [0x50] by { SixteenBytes(); }
    assert Encode(VBytes(id)) == [0x50] + id;
    hide Encode;
    assert [0x01, 0xD8, 0x25] + ([0x50] + id) == [0x01, 0xD8, 0x25, 0x50] + id;
  }

  lemma SixteenBytes() ensures HeadBytes(2, 16) == [0x50] {}

  lemma SignatureBytes(signature: seq<u8>)
    requires |signature| == 65
    ensures WrittenSignature(signature) == [0x02, 0x58, 0x41] + signature
  {
    Tail(65);
    assert HeadBytes(0, 2) == [0x02] && HeadBytes(2, 65) == [0x58, 0x41];
    hide HeadBytes, ToBigEndian;
    assert [0x02] + ([0x58, 0x41] + signature) == [0x02, 0x58, 0x41] + signature;
  }

  lemma OriginBytes(o: seq<u8>)
    requires |o| <= 64
    ensures WrittenOrigin(o) == (if |o| < 24 then [0x03, 0x60 + |o|] else [0x03, 0x78, |o|]) + o
  {
    OriginHead(|o|);
    assert WrittenOrigin(o) == HeadBytes(0, 3) + (HeadBytes(3, |o|) + o);
    hide *;
    Joined(HeadBytes(0, 3), HeadBytes(3, |o|), o);
  }

  lemma OriginHead(n: nat)
    requires n <= 64
    ensures HeadBytes(0, 3) + HeadBytes(3, n) == if n < 24 then [0x03, 0x60 + n] else [0x03, 0x78, n]
  {
    Tail(n);
    assert HeadBytes(3, n) == if n < 24 then [0x60 + n] else [0x78, n];
  }

  /** What is written is that, and decoding it gives the three parts. */
  lemma AnswerOnTheWire(id: seq<u8>, signature: seq<u8>, origin: Option<seq<u8>>)
    requires |id| == 16 && |signature| == 65 && (origin.Some? ==> |origin.value| <= 64)
    ensures Written(id, signature, origin) == OnTheWire(id, signature, origin)
    ensures var r := Decode(Signature, OnTheWire(id, signature, origin));
      r.Ok? && Io.DocOf(r.value) == Io.SignatureDoc(id, signature, origin)
  {
    assert MAX_ORIGIN == 64;
    var a, b := WrittenId(id), WrittenSignature(signature);
    IdBytes(id);
    SignatureBytes(signature);
    if origin.Some? { OriginBytes(origin.value); }
    WrittenAs(id, signature, origin);
    SignatureReadsBack(id, signature, origin);
    hide *;
    DocIs(id, signature, origin);
  }

  lemma WrittenAs(id: seq<u8>, signature: seq<u8>, origin: Option<seq<u8>>)
    requires |id| == 16 && |signature| == 65 && (origin.Some? ==> |origin.value| <= MAX_ORIGIN)
    ensures Written(id, signature, origin) == [if origin.Some? then 0xA3 else 0xA2]
      + (WrittenId(id) + (WrittenSignature(signature) + if origin.Some? then WrittenOrigin(origin.value) else []))
  {
    assert HeadBytes(5, 2) == [0xA2] && HeadBytes(5, 3) == [0xA3];
    hide *;
    var head := [if origin.Some? then 0xA3 else 0xA2];
    var a, b, c := WrittenId(id), WrittenSignature(signature), if origin.Some? then WrittenOrigin(origin.value) else [];
    Io.WrittenInTurn(id, signature, origin);
    Joined(head + a, b, c);
    Joined(head, a, b + c);
  }

  lemma DocIs(id: seq<u8>, signature: seq<u8>, origin: Option<seq<u8>>)
    ensures Io.DocOf(SignatureFields(id, signature, origin)) == Io.SignatureDoc(id, signature, origin)
  {}

  /** What may stand under a key of an answer. */
  predicate Allowed(key: nat, f: Field) {
    f.FBytes?
    && match key
       case 1 => |f.bytes| == 16
       case 2 => |f.bytes| == 65
       case 3 => |f.bytes| <= 64
       case _ => false
  }

  ghost predicate AllAllowed(fields: Fields) { forall key | key in fields :: Allowed(key, fields[key]) }

  lemma ReadFieldIsAllowed(buf: seq<u8>, pos: nat, key: nat)
    requires 1 <= key <= Signature.Keys() && FieldAt(Signature, buf, pos, key).Ok?
    ensures Allowed(key, FieldAt(Signature, buf, pos, key).value)
  {
    hide HeadAt;
  }

  lemma {:induction false} ReadFieldsAreAllowed(buf: seq<u8>, pos: nat, n: nat, fields: Fields)
    requires AllAllowed(fields) && PairsFrom(Signature, buf, pos, n, fields).Ok?
    ensures AllAllowed(PairsFrom(Signature, buf, pos, n, fields).value)
    decreases n
  {
    hide FieldAt, ArgOf, Allowed;
    if n > 0 {
      var key := ArgOf(buf, pos, 0);
      ReadFieldIsAllowed(buf, key.end, key.value);
      var f := FieldAt(Signature, buf, key.end, key.value);
      ReadFieldsAreAllowed(buf, f.end, n - 1, fields[key.value := f.value]);
    }
  }

  /** Every answer that is accepted has an id of 16 bytes, a signature of 65, an origin of
      at most 64 or none, and nothing else in it or behind it. */
  lemma AcceptedIsAnAnswer(buf: seq<u8>)
    requires Decode(Signature, buf).Ok?
    ensures var r := Decode(Signature, buf); var doc := Io.DocOf(r.value);
      r.end == |buf| && {1, 2} <= r.value.Keys <= {1, 2, 3}
      && |doc.requestId| == 16 && |doc.signature| == 65 && (doc.origin.Some? ==> |doc.origin.value| <= 64)
  {
    var head := ArgOf(buf, 0, 5);
    assert AllAllowed(map[]);
    hide ArgOf, PairsFrom, Allowed;
    ReadFieldsAreAllowed(buf, head.end, head.value, map[]);
    var fields := Decode(Signature, buf).value;
    assert AllAllowed(fields);
    hide Decode;
    AllowedIsAnAnswer(fields);
  }

  lemma AllowedIsAnAnswer(fields: Fields)
    requires AllAllowed(fields) && 1 in fields && 2 in fields
    ensures fields.Keys <= {1, 2, 3}
    ensures var doc := Io.DocOf(fields);
      |doc.requestId| == 16 && |doc.signature| == 65 && (doc.origin.Some? ==> |doc.origin.value| <= 64)
  {
    assert Allowed(1, fields[1]) && Allowed(2, fields[2]);
    assert 3 in fields ==> Allowed(3, fields[3]);
    forall key | key in fields ensures key in {1, 2, 3} { assert Allowed(key, fields[key]); }
  }
}
