/** A typed-data document that was written from its parts, and what the device makes of it. */
module Eip712Written {
  import opened Bytes
  import opened Cbor
  import opened Eip712
  import opened Eip712Order
  import opened Eip712Standard
  import opened Eip712Types
  import opened Eip712Walk

  // hashStruct and encodeData of EIP-712 as functions of the document's tree, and that the
  // walk over its bytes computes them; then whole documents.

  // ------------------------------------------------------------ encodeData

  /** The value under a key. */
  function Named(v: Value, key: seq<u8>): Option<Value> {
    if v.VMap? then NamedIn(v.pairs, key) else None
  }

  /** What the user reads above a value: the names on the way to it, with points between. */
  function Caption(path: seq<u8>, name: Name): seq<u8> {
    (if |path| == 0 then [] else path + [46]) + UpToNul(name)
  }

  /** hashStruct, and the single values below it in order; at most three structs deep. */
  ghost function HashStruct(table: Table, keccak: Hash, name: Name, v: Value, depth: nat, path: seq<u8>): Option<Walk>
    requires name in table
    decreases if depth <= 3 then 4 - depth else 0, 2, 0
  {
    if depth > 3 then None
    else
      var text :- EncodeType(table, name, 512);
      var rest :- EncodeData(table, keccak, table[name], v, depth, path);
      Some(Walk(keccak(keccak(text) + rest.data), rest.events))
  }

  /** The words of the fields, one behind the other as they are declared. */
  ghost function EncodeData(table: Table, keccak: Hash, fields: Fields, v: Value, depth: nat, path: seq<u8>): Option<Walk>
    requires depth <= 3
    decreases 4 - depth, 1, |fields|
  {
    if |fields| == 0 then Some(Walk([], []))
    else
      var field :- fields[0];
      var value :- Named(v, field.name);
      var one :- OneValue(table, keccak, field, value, depth, path);
      var rest :- EncodeData(table, keccak, fields[1..], v, depth, path);
      Some(Walk(one.data + rest.data, one.events + rest.events))
  }

  /** A struct adds its hash, anything else its word. */
  ghost function OneValue(table: Table, keccak: Hash, field: FieldDef, v: Value, depth: nat, path: seq<u8>): Option<Walk>
    requires depth <= 3
    decreases 4 - depth, 0, 0
  {
    var t := Classify(table, field.kind);
    if t.AbiStruct? then
      if v.VMap? && depth < 3 then
        var caption := Caption(path, field.name);
        var inner :- HashStruct(table, keccak, t.name, v, depth + 1, if |caption| < 21 then caption else []);
        Some(Walk(inner.data, (if |caption| < 21 then [] else [Overlong]) + inner.events))
      else None
    else
      var word :- LeafWord(keccak, t, HeadItem(v));
      Some(Walk(word, [Leaf(path, field.name, t, HeadItem(v))]))
  }

  lemma {:induction false} DataBehind(table: Table, keccak: Hash, fields: Fields, last: Option<FieldDef>, v: Value, depth: nat, path: seq<u8>)
    requires depth <= 3
    ensures EncodeData(table, keccak, fields + [last], v, depth, path) ==
      (match EncodeData(table, keccak, fields, v, depth, path)
       case None => None
       case Some(before) =>
         match Single(table, keccak, last, v, depth, path)
         case None => None
         case Some(one) => Some(Join(before, one)))
    decreases |fields|
  {
    hide OneValue, Named;
    if |fields| == 0 {
      assert (fields + [last])[1..] == [];
      assert EncodeData(table, keccak, [], v, depth, path) == Some(Walk([], []));
      var one := Single(table, keccak, last, v, depth, path);
      if one.Some? { NothingJoined(one.value); }
    } else {
      assert (fields + [last])[1..] == fields[1..] + [last];
      DataBehind(table, keccak, fields[1..], last, v, depth, path);
      var first, rest, one := Single(table, keccak, fields[0], v, depth, path),
        EncodeData(table, keccak, fields[1..], v, depth, path), Single(table, keccak, last, v, depth, path);
      if first.Some? && rest.Some? && one.Some? { WalksJoin(first.value, rest.value, one.value); }
    }
  }

  lemma NothingJoined(w: Walk)
    ensures Join(w, Walk([], [])) == w == Join(Walk([], []), w)
  {
    assert w.data + [] == w.data == [] + w.data && w.events + [] == w.events == [] + w.events;
  }

  lemma WalksJoin(a: Walk, b: Walk, c: Walk)
    ensures Join(a, Join(b, c)) == Join(Join(a, b), c)
  {
    assert a.data + (b.data + c.data) == a.data + b.data + c.data;
    assert a.events + (b.events + c.events) == a.events + b.events + c.events;
  }

  ghost function Single(table: Table, keccak: Hash, field: Option<FieldDef>, v: Value, depth: nat, path: seq<u8>): Option<Walk>
    requires depth <= 3
  {
    var f :- field;
    var value :- Named(v, f.name);
    OneValue(table, keccak, f, value, depth, path)
  }

  // ------------------------------------------------------- the walk computes it

  /** Looking a key up at a written value. */
  lemma LookedUp(buf: seq<u8>, pos: nat, v: Value, key: seq<u8>)
    requires At(buf, pos, v)
    ensures MapAt(buf, pos, key, 0).Some? <==> Named(v, key).Some?
    ensures Named(v, key).Some? ==> At(buf, MapAt(buf, pos, key, 0).value, Named(v, key).value)
  {
    hide MapAt, Encode, Stands, FirstUnder, Fits, NoRepeats, NamedIn, Height;
    if v.VMap? {
      FitsInside(v.pairs);
      HeightIs(v);
      MapReadsBack(buf, pos, v.pairs, key, 0);
      NamedIsFirst(v.pairs, key, 0);
      if Named(v, key).Some? { FoundIsWellFormed(v.pairs, key); }
    } else {
      NotAMap(buf, pos, v, key);
    }
  }

  lemma {:induction false} StructIsHashed(d: Doc, name: Name, pos: nat, depth: nat, path: seq<u8>, v: Value)
    requires name in d.table && At(d.buf, pos, v)
    ensures StructAt(d, name, pos, depth, path) == HashStruct(d.table, d.keccak, name, v, depth, path)
    decreases if depth <= 3 then 4 - depth else 0, 2, 0
  {
    hide EncodeType, FieldsAt, EncodeData, At;
    if depth <= 3 {
      FieldsAreEncoded(d, name, |d.table[name]|, pos, depth, path, v);
      assert d.table[name][..|d.table[name]|] == d.table[name];
    }
  }

  lemma {:induction false} FieldsAreEncoded(d: Doc, name: Name, n: nat, pos: nat, depth: nat, path: seq<u8>, v: Value)
    requires name in d.table && n <= |d.table[name]| && depth <= 3 && At(d.buf, pos, v)
    ensures FieldsAt(d, name, n, pos, depth, path) == EncodeData(d.table, d.keccak, d.table[name][..n], v, depth, path)
    decreases 4 - depth, 1, n
  {
    hide FieldAt, At, Join, Single, OneValue, Named;
    if n > 0 {
      var field := d.table[name][n - 1];
      FieldsAreEncoded(d, name, n - 1, pos, depth, path, v);
      assert d.table[name][..n] == d.table[name][..n - 1] + [field];
      DataBehind(d.table, d.keccak, d.table[name][..n - 1], field, v, depth, path);
      FieldIsEncoded(d, field, pos, depth, path, v);
      hide EncodeData;
    }
  }

  lemma {:induction false} FieldIsEncoded(d: Doc, field: Option<FieldDef>, pos: nat, depth: nat, path: seq<u8>, v: Value)
    requires depth <= 3 && At(d.buf, pos, v)
    ensures Single(d.table, d.keccak, field, v, depth, path) ==
      match field case None => None case Some(f) => FieldAt(d, f, pos, depth, path)
    decreases 4 - depth, 0, 1
  {
    hide MapAt, ValueAs, OneValue, At, Named, Classify;
    if field.Some? {
      LookedUp(d.buf, pos, v, field.value.name);
      if Named(v, field.value.name).Some? {
        ValueIsEncoded(d, field.value, MapAt(d.buf, pos, field.value.name, 0).value, depth, path, Named(v, field.value.name).value);
      }
    }
  }

  lemma {:induction false} ValueIsEncoded(d: Doc, field: FieldDef, at: nat, depth: nat, path: seq<u8>, v: Value)
    requires depth <= 3 && At(d.buf, at, v)
    ensures OneValue(d.table, d.keccak, field, v, depth, path) ==
      ValueAs(d, Classify(d.table, field.kind), field.name, at, depth, path)
    decreases 4 - depth, 0, 0
  {
    ItemIs(d.buf, at, v);
    HeadOfMap(v);
    assert Label(path, field.name) == Caption(path, field.name);
    hide ItemAt, At, StructAt, HashStruct, Label, Caption, HeadItem, Elementary, LeafWord;
    var t := Classify(d.table, field.kind);
    if t.AbiStruct? && v.VMap? && depth < 3 {
      StructIsHashed(d, t.name, at, depth + 1, NestedPrefix(Label(path, field.name)), v);
    }
  }

  lemma ItemIs(buf: seq<u8>, pos: nat, v: Value)
    requires At(buf, pos, v)
    ensures ItemAt(buf, pos).Some? && ItemAt(buf, pos).value.value == HeadItem(v)
  {
    hide Encode, Stands, Fits, NoRepeats, Height, ItemAt;
    ItemReadsBack(buf, pos, v);
  }

  // ------------------------------------------------------------ the document

  /** A struct type as a document declares it. */
  datatype StructType = StructType(name: seq<u8>, members: seq<FieldDef>)

  // The keys of a document, in bytes: types, primaryType, domain, message; name, type.
  const TYPES: seq<u8> := [116, 121, 112, 101, 115]
  const PRIMARY_TYPE: seq<u8> := [112, 114, 105, 109, 97, 114, 121, 84, 121, 112, 101]
  const DOMAIN: seq<u8> := [100, 111, 109, 97, 105, 110]
  const MESSAGE: seq<u8> := [109, 101, 115, 115, 97, 103, 101]
  const NAME: seq<u8> := [110, 97, 109, 101]
  const TYPE: seq<u8> := [116, 121, 112, 101]
  const EIP712_DOMAIN: seq<u8> := [69, 73, 80, 55, 49, 50, 68, 111, 109, 97, 105, 110]

  function MemberMap(m: FieldDef): Value { VMap([Pair(NAME, VText(m.name)), Pair(TYPE, VText(m.kind))]) }

  function MemberMaps(members: seq<FieldDef>): (v: seq<Value>)
    ensures |v| == |members| && forall i | 0 <= i < |v| :: v[i] == MemberMap(members[i])
  {
    seq(|members|, i requires 0 <= i < |members| => MemberMap(members[i]))
  }

  function TypePairs(types: seq<StructType>): (p: seq<Pair>)
    ensures |p| == |types| && forall i | 0 <= i < |p| :: p[i] == Pair(types[i].name, VArray(MemberMaps(types[i].members)))
  {
    seq(|types|, i requires 0 <= i < |types| => Pair(types[i].name, VArray(MemberMaps(types[i].members))))
  }

  function Document(types: seq<StructType>, primary: seq<u8>, domain: seq<Pair>, message: seq<Pair>): Value {
    VMap([Pair(TYPES, VMap(TypePairs(types))), Pair(PRIMARY_TYPE, VText(primary)),
          Pair(DOMAIN, VMap(domain)), Pair(MESSAGE, VMap(message))])
  }

  /** A table holds the types under their names, and nothing else. */
  ghost predicate Holds(table: Table, types: seq<StructType>) {
    && (forall x :: x in table <==> exists i | 0 <= i < |types| :: types[i].name == x)
    && (forall i | 0 <= i < |types| :: table[types[i].name] == Declared(types[i].members))
  }

  function Declared(members: seq<FieldDef>): (f: Fields)
    ensures |f| == |members| && forall i | 0 <= i < |f| :: f[i] == Some(members[i])
  {
    seq(|members|, i requires 0 <= i < |members| => Some(members[i]))
  }

  lemma KeysAreSpelled()
    ensures Ascii("name") == NAME && Ascii("type") == TYPE
  {
    AsciiIs("name", NAME);
    AsciiIs("type", TYPE);
  }

  lemma TextIsRead(buf: seq<u8>, pos: nat, v: Value, key: seq<u8>)
    requires At(buf, pos, v) && Named(v, key).Some?
    ensures var found := Named(v, key).value;
      TextUnder(buf, pos, key) == if found.VText? then Some(found.text) else None
    ensures ItemUnder(buf, pos, key) == Some(HeadItem(Named(v, key).value))
  {
    hide At, MapAt, ItemAt, NamedIn;
    LookedUp(buf, pos, v, key);
    ItemIs(buf, MapAt(buf, pos, key, 0).value, Named(v, key).value);
  }

  /** One field map is read as its field. */
  lemma MemberIsRead(buf: seq<u8>, pos: nat, m: FieldDef)
    requires At(buf, pos, MemberMap(m))
    ensures TextUnder(buf, pos, Ascii("name")) == Some(m.name) && TextUnder(buf, pos, Ascii("type")) == Some(m.kind)
  {
    var v := MemberMap(m);
    assert NAME[0] != TYPE[0];
    assert v.pairs[1..] == [Pair(TYPE, VText(m.kind))];
    assert NamedIn(v.pairs[1..], TYPE) == Some(VText(m.kind));
    assert Named(v, NAME) == Some(VText(m.name)) && Named(v, TYPE) == Some(VText(m.kind));
    hide *;
    KeysAreSpelled();
    TextIsRead(buf, pos, v, NAME);
    TextIsRead(buf, pos, v, TYPE);
  }

  lemma FieldsAreRead(buf: seq<u8>, def: TypeDef, pair: Pair, members: seq<FieldDef>)
    requires Records(buf, def, pair) && pair.value == VArray(MemberMaps(members))
    ensures DeclaredFields(buf, def) == Declared(members)
  {
    var f := DeclaredFields(buf, def);
    assert |f| == |members|;
    forall k | 0 <= k < |members| ensures f[k] == Some(members[k]) {
      hide TextUnder, EndOfAll, At, Records, MemberMap;
      FieldAtPlace(buf, def, pair, k);
      MemberIsRead(buf, EndOfAll(buf, def.fieldsPos, 0, k).value, members[k]);
    }
  }

  lemma TableIsRead(buf: seq<u8>, defs: seq<TypeDef>, types: seq<StructType>)
    requires AllRecorded(buf, defs, TypePairs(types)) && DistinctKeys(TypePairs(types))
    ensures Holds(TableOf(buf, defs), types)
  {
    var pairs, table := TypePairs(types), TableOf(buf, defs);
    hide TableOf, Records, DistinctKeys, DeclaredFields;
    forall i | 0 <= i < |types| ensures types[i].name in table && table[types[i].name] == Declared(types[i].members) {
      TableHolds(buf, defs, pairs, i);
      FieldsAreRead(buf, defs[i], pairs[i], types[i].members);
    }
    forall x | x in table ensures exists i | 0 <= i < |types| :: types[i].name == x {
      var i := TableHoldsNoMore(buf, defs, pairs, x);
    }
  }

  lemma DocumentKeys()
    ensures Ascii("types") == TYPES && Ascii("primaryType") == PRIMARY_TYPE
    ensures Ascii("domain") == DOMAIN && Ascii("message") == MESSAGE && Ascii("EIP712Domain") == EIP712_DOMAIN
  {
    hide Ascii;
    TypesKey();
    PrimaryTypeKey();
    DomainKey();
    MessageKey();
    DomainTypeName();
  }

  lemma TypesKey() ensures Ascii("types") == TYPES { AsciiIs("types", TYPES); }

  lemma PrimaryTypeKey() ensures Ascii("primaryType") == PRIMARY_TYPE { AsciiIs("primaryType", PRIMARY_TYPE); }

  lemma DomainKey() ensures Ascii("domain") == DOMAIN { AsciiIs("domain", DOMAIN); }

  lemma MessageKey() ensures Ascii("message") == MESSAGE { AsciiIs("message", MESSAGE); }

  lemma DomainTypeName() ensures Ascii("EIP712Domain") == EIP712_DOMAIN { AsciiIs("EIP712Domain", EIP712_DOMAIN); }

  lemma DocumentParts(types: seq<StructType>, primary: seq<u8>, domain: seq<Pair>, message: seq<Pair>)
    ensures var v := Document(types, primary, domain, message);
      Named(v, TYPES) == Some(VMap(TypePairs(types))) && Named(v, PRIMARY_TYPE) == Some(VText(primary))
      && Named(v, DOMAIN) == Some(VMap(domain)) && Named(v, MESSAGE) == Some(VMap(message))
  {
    var p := Document(types, primary, domain, message).pairs;
    assert |TYPES| == 5 && |PRIMARY_TYPE| == 11 && |DOMAIN| == 6 && |MESSAGE| == 7;
    hide TypePairs;
    var last := [p[3]];
    assert p[1..] == [p[1], p[2], p[3]] && p[1..][1..] == [p[2], p[3]] && p[1..][1..][1..] == last;
    assert NamedIn(last, MESSAGE) == Some(VMap(message));
    assert NamedIn(p[1..][1..], MESSAGE) == Some(VMap(message)) && NamedIn(p[1..][1..], DOMAIN) == Some(VMap(domain));
    assert NamedIn(p[1..], MESSAGE) == Some(VMap(message)) && NamedIn(p[1..], DOMAIN) == Some(VMap(domain));
    assert NamedIn(p[1..], PRIMARY_TYPE) == Some(VText(primary));
  }

  /** A map under a key of the document, where it stands. */
  lemma MapIsFound(buf: seq<u8>, v: Value, key: seq<u8>, pairs: seq<Pair>)
    requires At(buf, 0, v) && Named(v, key) == Some(VMap(pairs))
    ensures MapUnder(buf, key).Some? && MapUnder(buf, key) == MapAt(buf, 0, key, 0) && At(buf, MapUnder(buf, key).value, VMap(pairs))
  {
    hide At, MapAt, ItemAt, NamedIn;
    LookedUp(buf, 0, v, key);
    ItemIs(buf, MapAt(buf, 0, key, 0).value, VMap(pairs));
  }

  /** Eight types of twelve fields, and a primary type of 31 letters, is what a document may
      have. */
  ghost predicate Small(types: seq<StructType>, primary: seq<u8>) {
    |types| <= 8 && |primary| <= 31 && forall i | 0 <= i < |types| :: |types[i].members| <= 12
  }

  /** The type table of a written document. */
  lemma TypesAreRead(buf: seq<u8>, v: Value, types: seq<StructType>)
    requires At(buf, 0, v) && Named(v, TYPES) == Some(VMap(TypePairs(types)))
    ensures TypeDefs(buf).Some? <==> Small(types, [])
    ensures TypeDefs(buf).Some? ==> Holds(TableOf(buf, TypeDefs(buf).value), types)
  {
    var pairs := TypePairs(types);
    hide At, MapAt, ItemAt, TypesFrom, TableOf, NamedIn, Holds, Definable, AllRecorded, DistinctKeys, AllWellFormed, Ascii, TypePairs;
    TypesKey();
    LookedUp(buf, 0, v, TYPES);
    var p := MapAt(buf, 0, TYPES, 0).value;
    var at := MapIsRead(buf, p, VMap(pairs));
    ItemIs(buf, p, VMap(pairs));
    DefinitionsRead(buf, at, pairs, 0);
    DefinableInAnyOrder(pairs, 0);
    if Definable(pairs, 0) { TableIsRead(buf, TypesFrom(buf, at, |pairs|, 0).value, types); }
  }

  /** A document of four keys is read as its parts, exactly when it is small enough. */
  lemma DocumentIsRead(types: seq<StructType>, primary: seq<u8>, domain: seq<Pair>, message: seq<Pair>)
    requires WellFormed(Document(types, primary, domain, message))
    ensures Fits(Document(types, primary, domain, message))
    ensures var buf := Encode(Document(types, primary, domain, message));
      (RequestOf(buf).Some? <==> Small(types, primary))
      && (RequestOf(buf).Some? ==>
            var r := RequestOf(buf).value;
            Holds(r.table, types) && r.primary == primary
            && At(buf, r.domainPos, VMap(domain)) && At(buf, r.messagePos, VMap(message)))
  {
    var v := Document(types, primary, domain, message);
    WellFormedFits(v);
    var buf := Encode(v);
    StandsWhole(buf);
    assert At(buf, 0, v);
    assert Small(types, primary) <==> Small(types, []) && |primary| + 1 <= PRIMARY_SIZE;
    hide At, Encode, TypeDefs, TableOf, MapUnder, TextUnder, Named, Holds, Ascii, Document, Small, WellFormed, Fits, TypePairs;
    DocumentKeys();
    DocumentParts(types, primary, domain, message);
    TypesAreRead(buf, v, types);
    TextIsRead(buf, 0, v, PRIMARY_TYPE);
    MapIsFound(buf, v, DOMAIN, domain);
    MapIsFound(buf, v, MESSAGE, message);
  }

  // --------------------------------------------------------------- the digest

  /** The hash of a struct of the table, if it is in the table. */
  ghost function HashOf(table: Table, keccak: Hash, name: Name, v: Value): Option<Walk> {
    if name in table then HashStruct(table, keccak, name, v, 0, []) else None
  }

  /** What a document must be answered with: it is unhashable when one of its two structs is,
      and otherwise the digest is taken over their hashes, the domain's first; it is accepted
      when every value of the message is shown, and there is one. */
  ghost predicate Follows(outcome: Outcome, keccak: Hash, primary: Name, shown: Domain, d: Option<Walk>, m: Option<Walk>) {
    if d.None? || m.None? then outcome.Unhashable?
    else
      var screen := ShownAll(keccak, Screen([], false), m.value.events);
      && (outcome.Ok? || outcome.Unrenderable?)
      && outcome.digest == keccak([0x19, 0x01] + (d.value.data + m.value.data))
      && (outcome.Ok? <==> !screen.overflow && |screen.fields| > 0)
      && outcome.render.primary == primary && outcome.render.fields == screen.fields && outcome.render.domain == shown
  }

  /** The three fields of the domain worth showing, by their keys: name (printable and of at
      most 23 characters), chainId (in either spelling, up to 64 bits), verifyingContract. */
  ghost function ShownDomain(domain: Value): Domain {
    var name, chain := Named(domain, NAME), Named(domain, CHAIN_ID);
    var contract := Named(domain, VERIFYING_CONTRACT);
    Domain(if name.Some? && name.value.VText? && |name.value.text| <= 23
              && forall i | 0 <= i < |name.value.text| :: 32 <= name.value.text[i] <= 126
           then Some(name.value.text) else None,
           if chain.Some? && chain.value.VUint? then Some(chain.value.n)
           else if chain.Some? && chain.value.VBytes? && |chain.value.bytes| <= 8 then Some(FromBigEndian(chain.value.bytes))
           else None,
           if contract.Some? && contract.value.VBytes? && |contract.value.bytes| == 20 then Some(contract.value.bytes) else None)
  }

  const CHAIN_ID: seq<u8> := [99, 104, 97, 105, 110, 73, 100]
  const VERIFYING_CONTRACT: seq<u8> := [118, 101, 114, 105, 102, 121, 105, 110, 103, 67, 111, 110, 116, 114, 97, 99, 116]

  lemma ChainIdKey() ensures Ascii("chainId") == CHAIN_ID { AsciiIs("chainId", CHAIN_ID); }

  lemma ContractKey()
    ensures Ascii("verifyingContract") == VERIFYING_CONTRACT
  {
    AsciiIs("verifyingContract", VERIFYING_CONTRACT);
  }

  lemma NothingIsRead(buf: seq<u8>, pos: nat, v: Value, key: seq<u8>)
    requires At(buf, pos, v) && Named(v, key).None?
    ensures ItemUnder(buf, pos, key).None?
  {
    hide At, MapAt, NamedIn;
    LookedUp(buf, pos, v, key);
  }

  lemma UnderKey(buf: seq<u8>, pos: nat, v: Value, key: seq<u8>)
    requires At(buf, pos, v)
    ensures ItemUnder(buf, pos, key) == match Named(v, key) case None => None case Some(x) => Some(HeadItem(x))
  {
    hide *;
    if Named(v, key).Some? { TextIsRead(buf, pos, v, key); } else { NothingIsRead(buf, pos, v, key); }
  }

  lemma DomainIsShown(buf: seq<u8>, pos: nat, v: Value)
    requires At(buf, pos, v)
    ensures DomainAt(buf, pos) == ShownDomain(v)
  {
    hide At, ItemUnder, Named, Ascii, FromBigEndian;
    KeysAreSpelled();
    ChainIdKey();
    ContractKey();
    UnderKey(buf, pos, v, NAME);
    UnderKey(buf, pos, v, CHAIN_ID);
    UnderKey(buf, pos, v, VERIFYING_CONTRACT);
  }

  /** What the user signs for a written document is the digest that EIP-712 defines over its
      tree, and what is shown are the values below its message. */
  lemma TypedDataDigest(types: seq<StructType>, primary: seq<u8>, domain: seq<Pair>, message: seq<Pair>, keccak: Hash)
    returns (table: Table)
    requires WellFormed(Document(types, primary, domain, message))
    ensures Fits(Document(types, primary, domain, message))
    ensures var outcome := Prepared(Encode(Document(types, primary, domain, message)), keccak);
      if !Small(types, primary) then outcome.Malformed?
      else
        Holds(table, types)
        && Follows(outcome, keccak, primary, ShownDomain(VMap(domain)),
                   HashOf(table, keccak, EIP712_DOMAIN, VMap(domain)), HashOf(table, keccak, primary, VMap(message)))
  {
    table := map[];
    hide *;
    DocumentIsRead(types, primary, domain, message);
    var buf := Encode(Document(types, primary, domain, message));
    if Small(types, primary) {
      var r := RequestOf(buf).value;
      table := r.table;
      WalksAreHashes(buf, keccak, r, VMap(domain), VMap(message));
    } else {
      Malformation(buf, keccak);
    }
  }

  lemma Malformation(buf: seq<u8>, keccak: Hash)
    requires RequestOf(buf).None?
    ensures Prepared(buf, keccak).Malformed?
  {}

  /** The two walks over the document, by its tree. */
  lemma WalksAreHashes(buf: seq<u8>, keccak: Hash, r: Request, domain: Value, message: Value)
    requires RequestOf(buf) == Some(r) && At(buf, r.domainPos, domain) && At(buf, r.messagePos, message)
    ensures Follows(Prepared(buf, keccak), keccak, r.primary, ShownDomain(domain),
                    HashOf(r.table, keccak, EIP712_DOMAIN, domain), HashOf(r.table, keccak, r.primary, message))
  {
    hide *;
    DomainIsHashed(buf, keccak, r, domain);
    MessageIsHashed(buf, keccak, r, message);
    DomainIsShown(buf, r.domainPos, domain);
    Outcomes(buf, keccak, r);
  }

  lemma DomainIsHashed(buf: seq<u8>, keccak: Hash, r: Request, v: Value)
    requires At(buf, r.domainPos, v)
    ensures DomainWalk(buf, keccak, r) == HashOf(r.table, keccak, EIP712_DOMAIN, v)
  {
    hide At, StructAt, HashStruct, Ascii;
    DomainTypeName();
    if EIP712_DOMAIN in r.table { StructIsHashed(Doc(buf, r.table, keccak), EIP712_DOMAIN, r.domainPos, 0, [], v); }
  }

  lemma MessageIsHashed(buf: seq<u8>, keccak: Hash, r: Request, v: Value)
    requires At(buf, r.messagePos, v)
    ensures MessageWalk(buf, keccak, r) == HashOf(r.table, keccak, r.primary, v)
  {
    hide At, StructAt, HashStruct;
    if r.primary in r.table { StructIsHashed(Doc(buf, r.table, keccak), r.primary, r.messagePos, 0, [], v); }
  }

  lemma Outcomes(buf: seq<u8>, keccak: Hash, r: Request)
    requires RequestOf(buf) == Some(r)
    ensures Follows(Prepared(buf, keccak), keccak, r.primary, DomainAt(buf, r.domainPos), DomainWalk(buf, keccak, r), MessageWalk(buf, keccak, r))
  {
    hide RequestOf, ShownAll, DomainAt, DomainWalk, MessageWalk;
    var d, m := DomainWalk(buf, keccak, r), MessageWalk(buf, keccak, r);
    if d.Some? && m.Some? { Joined([0x19, 0x01], d.value.data, m.value.data); }
  }
}
