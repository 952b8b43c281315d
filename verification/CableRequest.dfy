/** A request for a signature as a host writes it. */
module CableRequest {
  import opened Bytes
  import opened Cbor
  import Decimal
  import opened EthTx
  import opened EthTxStandard
  import opened SigningEntrances
  import opened SigningSlot

  // Which key of the request becomes which field of the transaction, and the bytes whose
  // hash is signed.

  // The keys of a request, letter by letter.
  const CHAIN_ID: seq<u8> := [99, 104, 97, 105, 110, 73, 100]
  const NONCE: seq<u8> := [110, 111, 110, 99, 101]
  const PRIORITY_FEE: seq<u8> := [109, 97, 120, 80, 114, 105, 111, 114, 105, 116, 121, 70, 101, 101, 80, 101, 114, 71, 97, 115]
  const FEE: seq<u8> := [109, 97, 120, 70, 101, 101, 80, 101, 114, 71, 97, 115]
  const GAS: seq<u8> := [103, 97, 115]
  const TO: seq<u8> := [116, 111]
  const VALUE: seq<u8> := [118, 97, 108, 117, 101]
  const DATA: seq<u8> := [100, 97, 116, 97]

  lemma ChainIdKey() ensures Ascii("chainId") == CHAIN_ID { AsciiIs("chainId", CHAIN_ID); }

  lemma NonceKey() ensures Ascii("nonce") == NONCE { AsciiIs("nonce", NONCE); }

  lemma PriorityFeeKey() ensures Ascii("maxPriorityFeePerGas") == PRIORITY_FEE { AsciiIs("maxPriorityFeePerGas", PRIORITY_FEE); }

  lemma FeeKey() ensures Ascii("maxFeePerGas") == FEE { AsciiIs("maxFeePerGas", FEE); }

  lemma GasKey() ensures Ascii("gas") == GAS { AsciiIs("gas", GAS); }

  lemma ToKey() ensures Ascii("to") == TO { AsciiIs("to", TO); }

  lemma ValueKey() ensures Ascii("value") == VALUE { AsciiIs("value", VALUE); }

  lemma DataKey() ensures Ascii("data") == DATA { AsciiIs("data", DATA); }

  /** The bytes under a key, or none. */
  function BytesUnder(pairs: seq<Pair>, key: seq<u8>): Option<seq<u8>> {
    var v := NamedIn(pairs, key);
    if v.Some? && v.value.VBytes? then Some(v.value.bytes) else None
  }

  function UintUnder(pairs: seq<Pair>, key: seq<u8>): Option<nat> {
    var v := NamedIn(pairs, key);
    if v.Some? && v.value.VUint? then Some(v.value.n) else None
  }

  predicate Written(pairs: seq<Pair>) { |pairs| < TWO_32 && PairsFit(pairs) && HeightOfPairs(pairs) <= MAX_DEPTH }

  lemma Found(pairs: seq<Pair>, key: seq<u8>)
    requires Written(pairs)
    ensures var it := MapFind(Encode(VMap(pairs)), key);
      (IsBytes(it) <==> BytesUnder(pairs, key).Some?) && (IsBytes(it) ==> it.value.data == BytesUnder(pairs, key).value)
      && (IsUint(it) <==> UintUnder(pairs, key).Some?) && (IsUint(it) ==> it.value.value == UintUnder(pairs, key).value)
  {
    hide MapFind, Encode, FirstUnder, NamedIn, PairsFit, HeightOfPairs;
    MapFindFindsTheFirst(pairs, key);
    NamedIsFirst(pairs, key, 1);
  }

  /** A number in as few bytes as it takes; what is missing, or needs more than 32, is zero. */
  ghost predicate IsAmount(q: seq<u8>, bytes: Option<seq<u8>>) {
    if bytes.None? || FromBigEndian(bytes.value) >= Power256(32) then q == []
    else FromBigEndian(q) == FromBigEndian(bytes.value) && |q| <= 32 && (|q| > 0 ==> q[0] != 0)
  }

  lemma {:induction false} MinimalIsLarge(q: seq<u8>)
    requires |q| > 0 && q[0] != 0
    ensures FromBigEndian(q) >= Power256(|q| - 1)
  {
    if |q| > 1 { MinimalIsLarge(q[..|q| - 1]); } else { assert q[..0] == []; }
  }

  lemma ShortWhenStripped(b: seq<u8>)
    ensures |Stripped(b)| <= 32 <==> FromBigEndian(b) < Power256(32)
  {
    var q := Stripped(b);
    hide FromBigEndian, Power256, Stripped;
    if |q| <= 32 {
      BigEndianBound(q);
      Decimal.PowersGrow(|q|, 32);
    } else {
      MinimalIsLarge(q);
      Decimal.PowersGrow(32, |q| - 1);
    }
  }

  lemma AmountIs(pairs: seq<Pair>, name: string, key: seq<u8>)
    requires Written(pairs) && Ascii(name) == key
    ensures IsAmount(QuantityUnder(Encode(VMap(pairs)), name), BytesUnder(pairs, key))
  {
    hide MapFind, Encode, BytesUnder, FromBigEndian, Power256, Stripped, Written, Ascii;
    Found(pairs, key);
    if BytesUnder(pairs, key).Some? { ShortWhenStripped(BytesUnder(pairs, key).value); }
  }

  /** Likewise, from a number; zero when there is none. */
  predicate NonceOf(q: seq<u8>, n: Option<nat>) {
    FromBigEndian(q) == (if n.Some? then n.value else 0) && (|q| > 0 ==> q[0] != 0)
  }

  /** The transaction that the pairs of a request describe. */
  ghost predicate Describes(pairs: seq<Pair>, tx: Tx) {
    && UintUnder(pairs, CHAIN_ID) == Some(tx.chainId)
    && NonceOf(tx.nonce, UintUnder(pairs, NONCE))
    && IsAmount(tx.maxPriorityFee, BytesUnder(pairs, PRIORITY_FEE)) && IsAmount(tx.maxFee, BytesUnder(pairs, FEE))
    && IsAmount(tx.gasLimit, BytesUnder(pairs, GAS)) && IsAmount(tx.value, BytesUnder(pairs, VALUE))
    && tx.to == (if BytesUnder(pairs, TO).Some? && |BytesUnder(pairs, TO).value| == 20 then BytesUnder(pairs, TO) else None)
    && tx.data == (if BytesUnder(pairs, DATA).Some? then BytesUnder(pairs, DATA).value else [])
  }

  /** A written request gives the transaction that its pairs describe. It is refused exactly
      when no chain is named, the value needs more than 32 bytes, or the calldata is longer
      than 768. */
  lemma CableRequestIsRead(pairs: seq<Pair>)
    requires Written(pairs)
    ensures var tx := CableTx(Encode(VMap(pairs))); var value, data := BytesUnder(pairs, VALUE), BytesUnder(pairs, DATA);
      (tx.Some? <==> UintUnder(pairs, CHAIN_ID).Some? && (value.Some? ==> FromBigEndian(value.value) < Power256(32))
                     && (data.Some? ==> |data.value| <= 768))
      && (tx.Some? ==> Describes(pairs, tx.value))
  {
    var payload := Encode(VMap(pairs));
    hide *;
    CableParts(payload);
    ChainIs(pairs);
    ValueIs(pairs);
    DataIs(pairs);
    if CableTx(payload).Some? {
      NonceIs(pairs);
      RecipientIs(pairs);
      Keys();
      AmountIs(pairs, "maxPriorityFeePerGas", PRIORITY_FEE);
      AmountIs(pairs, "maxFeePerGas", FEE);
      AmountIs(pairs, "gas", GAS);
      AmountIs(pairs, "value", VALUE);
      AllDescribed(pairs, CableTx(payload).value);
    }
  }

  lemma CableParts(payload: seq<u8>)
    ensures var tx := CableTx(payload); var chain := MapFind(payload, Ascii("chainId"));
      (tx.Some? <==> IsUint(chain) && ValueFits(payload) && DataFits(payload))
      && (tx.Some? ==>
            tx.value.chainId == chain.value.value && tx.value.nonce == NonceUnder(payload)
            && tx.value.maxPriorityFee == QuantityUnder(payload, "maxPriorityFeePerGas")
            && tx.value.maxFee == QuantityUnder(payload, "maxFeePerGas") && tx.value.gasLimit == QuantityUnder(payload, "gas")
            && tx.value.to == RecipientUnder(payload) && tx.value.value == QuantityUnder(payload, "value")
            && tx.value.data == DataUnder(payload))
  {
    hide MapFind, Ascii, NonceUnder, QuantityUnder, RecipientUnder, DataUnder, ValueFits, DataFits;
  }

  lemma AllDescribed(pairs: seq<Pair>, tx: Tx)
    requires UintUnder(pairs, CHAIN_ID) == Some(tx.chainId) && NonceOf(tx.nonce, UintUnder(pairs, NONCE))
    requires IsAmount(tx.maxPriorityFee, BytesUnder(pairs, PRIORITY_FEE)) && IsAmount(tx.maxFee, BytesUnder(pairs, FEE))
    requires IsAmount(tx.gasLimit, BytesUnder(pairs, GAS)) && IsAmount(tx.value, BytesUnder(pairs, VALUE))
    requires tx.to == (if BytesUnder(pairs, TO).Some? && |BytesUnder(pairs, TO).value| == 20 then BytesUnder(pairs, TO) else None)
    requires tx.data == (if BytesUnder(pairs, DATA).Some? then BytesUnder(pairs, DATA).value else [])
    ensures Describes(pairs, tx)
  {
    hide IsAmount, BytesUnder, UintUnder, NonceOf;
  }

  lemma ChainIs(pairs: seq<Pair>)
    requires Written(pairs)
    ensures var chain := MapFind(Encode(VMap(pairs)), Ascii("chainId"));
      (IsUint(chain) <==> UintUnder(pairs, CHAIN_ID).Some?)
      && (IsUint(chain) ==> UintUnder(pairs, CHAIN_ID) == Some(chain.value.value))
  {
    hide *;
    Keys();
    Found(pairs, CHAIN_ID);
  }

  lemma ValueIs(pairs: seq<Pair>)
    requires Written(pairs)
    ensures var value := BytesUnder(pairs, VALUE);
      ValueFits(Encode(VMap(pairs))) <==> (value.Some? ==> FromBigEndian(value.value) < Power256(32))
  {
    hide MapFind, Encode, BytesUnder, FromBigEndian, Power256, Stripped, Ascii, VALUE;
    Keys();
    Found(pairs, VALUE);
    if BytesUnder(pairs, VALUE).Some? { ShortWhenStripped(BytesUnder(pairs, VALUE).value); }
  }

  lemma DataIs(pairs: seq<Pair>)
    requires Written(pairs)
    ensures var data := BytesUnder(pairs, DATA); var payload := Encode(VMap(pairs));
      (DataFits(payload) <==> (data.Some? ==> |data.value| <= 768))
      && DataUnder(payload) == if data.Some? then data.value else []
  {
    hide MapFind, Encode, BytesUnder, Ascii, DATA;
    Keys();
    Found(pairs, DATA);
  }

  lemma NonceIs(pairs: seq<Pair>)
    requires Written(pairs)
    ensures NonceOf(NonceUnder(Encode(VMap(pairs))), UintUnder(pairs, NONCE))
  {
    var payload := Encode(VMap(pairs));
    hide *;
    NonceKey();
    Found(pairs, NONCE);
    NonceFrom(payload, UintUnder(pairs, NONCE));
  }

  lemma NonceFrom(payload: seq<u8>, n: Option<nat>)
    requires IsUint(MapFind(payload, Ascii("nonce"))) <==> n.Some?
    requires n.Some? ==> MapFind(payload, Ascii("nonce")).value.value == n.value
    ensures NonceOf(NonceUnder(payload), n)
  {
    SmallNumber(payload, Ascii("nonce"));
    hide MapFind, Ascii, ChainBytes, Power256, ToBigEndian;
    if n.Some? { ChainRoundTrip(n.value); }
  }

  lemma RecipientIs(pairs: seq<Pair>)
    requires Written(pairs)
    ensures var to := BytesUnder(pairs, TO);
      RecipientUnder(Encode(VMap(pairs))) == if to.Some? && |to.value| == 20 then to else None
  {
    hide MapFind, Encode, BytesUnder, Ascii, TO;
    Keys();
    Found(pairs, TO);
  }

  lemma Keys()
    ensures Ascii("chainId") == CHAIN_ID && Ascii("nonce") == NONCE && Ascii("maxPriorityFeePerGas") == PRIORITY_FEE
    ensures Ascii("maxFeePerGas") == FEE && Ascii("gas") == GAS && Ascii("to") == TO
    ensures Ascii("value") == VALUE && Ascii("data") == DATA
  {
    hide *;
    ChainIdKey();
    NonceKey();
    PriorityFeeKey();
    FeeKey();
    GasKey();
    ToKey();
    ValueKey();
    DataKey();
  }

  lemma SmallNumber(payload: seq<u8>, key: seq<u8>)
    ensures IsUint(MapFind(payload, key)) ==> MapFind(payload, key).value.value < 0x1_0000_0000
  {
    ItemIsSmall(payload, key);
  }

  /** What is hashed for the signature is 0x02 and the list of the nine fields. */
  lemma SignedPayload(keccak: Hash, tx: Tx)
    requires DigestOf(keccak, tx).Some?
    ensures Held(tx) && |Concat(Items(tx))| < 0x1_0000
    ensures DigestOf(keccak, tx) == Some(keccak([2] + RList(Items(tx))))
  {
    hide Encoded, Items, RList, Concat;
    EncodedIsTheStandardPayload(tx, PAYLOAD_CAPACITY);
  }
}
