/** The signing payload, as its standards define it. */
module EthTxStandard {
  import opened Bytes
  import opened EthTx

  // RLP as in Appendix B of the Ethereum Yellow Paper and the transaction of EIP-1559,
  // written down apart from the encoder, and that the encoder writes just that.

  /** BE: a positive number in as few bytes as it takes. */
  function Be(n: nat): (b: seq<u8>)
    ensures |b| >= 1
  {
    if n < 256 then [n] else Be(n / 256) + [n % 256]
  }

  lemma {:induction false} BeIsShort(n: nat, k: nat)
    requires n < Power256(k) && k >= 1
    ensures |Be(n)| <= k
  {
    if n >= 256 && k > 1 { BeIsShort(n / 256, k - 1); }
  }

  lemma TwoBytes(n: nat)
    requires n < 0x1_0000
    ensures |Be(n)| <= 2
  {
    assert Power256(2) == 0x1_0000;
    BeIsShort(n, 2);
  }

  /** A string: itself if it is one byte below 128, else its length and itself. */
  function RString(x: seq<u8>): seq<u8>
    requires |x| < 0x1_0000
  {
    TwoBytes(|x|);
    if |x| == 1 && x[0] < 128 then x
    else if |x| < 56 then [128 + |x|] + x
    else [183 + |Be(|x|)|] + Be(|x|) + x
  }

  /** A list of items that are already encoded. */
  function RList(items: seq<seq<u8>>): seq<u8>
    requires |Concat(items)| < 0x1_0000
  {
    var s := Concat(items);
    TwoBytes(|s|);
    if |s| < 56 then [192 + |s|] + s else [247 + |Be(|s|)|] + Be(|s|) + s
  }

  lemma {:induction false} LengthBytesAreBe(n: nat)
    requires n > 0
    ensures LengthBytes(n) == Be(n)
  {
    if n >= 256 { LengthBytesAreBe(n / 256); } else { assert LengthBytes(0) == []; }
  }

  lemma FieldIsString(x: seq<u8>)
    requires |x| < 0x1_0000
    ensures Field(x) == RString(x)
  {
    if |x| > 0 { LengthBytesAreBe(|x|); }
    hide LengthBytes, Be;
    Small(|x|);
  }

  lemma HeaderOfList(items: seq<seq<u8>>)
    requires |Concat(items)| < 0x1_0000
    ensures |Concat(items)| < Power256(8) && Header(|Concat(items)|, 0xC0) + Concat(items) == RList(items)
  {
    var n := |Concat(items)|;
    if n > 0 { LengthBytesAreBe(n); }
    Small(n);
    hide LengthBytes, Be, Concat;
  }

  /** The fields of the transaction in the order of EIP-1559. */
  function Items(tx: Tx): (items: seq<seq<u8>>)
    requires Held(tx)
  {
    [RString(ChainBytes(tx.chainId)), RString(tx.nonce), RString(tx.maxPriorityFee), RString(tx.maxFee), RString(tx.gasLimit),
     RString(if tx.to.Some? then tx.to.value else []), RString(tx.value), RString(tx.data), [192]]
  }

  lemma PartsAreItems(tx: Tx)
    requires Held(tx)
    ensures Parts(tx) == Items(tx)
  {
    hide Field, RString, ChainBytes;
    FieldIsString(ChainBytes(tx.chainId));
    FieldIsString(tx.nonce);
    FieldIsString(tx.maxPriorityFee);
    FieldIsString(tx.maxFee);
    FieldIsString(tx.gasLimit);
    FieldIsString(if tx.to.Some? then tx.to.value else []);
    FieldIsString(tx.value);
    FieldIsString(tx.data);
  }

  /** What is hashed and signed is 0x02 and the list of the nine fields, the access list
      empty. */
  lemma EncodedIsTheStandardPayload(tx: Tx, capacity: nat)
    requires Held(tx) && Encoded(tx, capacity).Some?
    ensures |Concat(Items(tx))| < 0x1_0000 && Encoded(tx, capacity).value == [2] + RList(Items(tx))
  {
    hide Items, Parts, Header, Concat, RList;
    PartsAreItems(tx);
    HeaderOfList(Items(tx));
    Joined([0x02], Header(|Body(tx)|, 0xC0), Body(tx));
  }

  /** And what is read is such a payload of the transaction read. */
  lemma ReadIsTheStandardPayload(raw: seq<u8>)
    requires FromRlp(raw).Some?
    ensures var tx := FromRlp(raw).value;
      |Concat(Items(tx))| < 0x1_0000 && raw == [2] + RList(Items(tx)) && Minimal(tx.nonce) && Minimal(tx.value)
      && FromBigEndian(ChainBytes(tx.chainId)) == tx.chainId
  {
    hide Items, RList, Encoded, ListBody, FieldsOf, Concat;
    var tx := FromRlp(raw).value;
    EncodedIsTheStandardPayload(tx, AGAIN_CAPACITY);
    ChainRoundTrip(tx.chainId);
  }
}
