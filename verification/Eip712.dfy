/** A typed-data request as a whole. */
module Eip712 {
  import opened Bytes
  import opened Cbor
  import opened Eip712Types
  import opened Eip712Walk

  // A typed-data request as a whole: the type table read from the document, the two
  // hashes, the screen, and the digest.

  // --------------------------------------------------------- the type table

  /** A definition as it is recorded: where its field maps start, and how many. */
  datatype TypeDef = TypeDef(name: Name, fieldsPos: nat, fieldCount: nat)

  /** One definition and where the next one starts, with so many recorded before. */
  function EntryAt(buf: seq<u8>, pos: nat, have: nat): (r: Option<Found<TypeDef>>)
    ensures r.Some? ==> have < EIP712_MAX_TYPES && r.value.value.fieldsPos <= r.value.end <= |buf|
  {
    match ItemAt(buf, pos)
    case None => None
    case Some(k) =>
      match ItemAt(buf, k.end)
      case None => None
      case Some(v) =>
        if !k.value.kind.Text? || !v.value.kind.Array? || v.value.value > EIP712_MAX_FIELDS || have >= EIP712_MAX_TYPES then None
        else
          match EndOfAll(buf, v.end, 0, v.value.value)
          case None => None
          case Some(next) => Some(Found(TypeDef(k.value.data, v.end, v.value.value), next))
  }

  /** n definitions from pos, with so many recorded before. */
  function TypesFrom(buf: seq<u8>, pos: nat, n: nat, have: nat): (r: Option<seq<TypeDef>>)
    ensures r.Some? ==> |r.value| == n && (have + n <= EIP712_MAX_TYPES || n == 0)
    ensures r.Some? ==> forall i | 0 <= i < |r.value| :: r.value[i].fieldsPos <= |buf|
    decreases n
  {
    if n == 0 then Some([])
    else
      match EntryAt(buf, pos, have)
      case None => None
      case Some(entry) =>
        match TypesFrom(buf, entry.end, n - 1, have + 1)
        case None => None
        case Some(rest) => Some([entry.value] + rest)
  }

  function TypeDefs(buf: seq<u8>): (r: Option<seq<TypeDef>>)
    ensures r.Some? ==> |r.value| <= EIP712_MAX_TYPES
    ensures r.Some? ==> forall i | 0 <= i < |r.value| :: r.value[i].fieldsPos <= |buf|
  {
    var p :- MapAt(buf, 0, Ascii("types"), 0);
    var head :- ItemAt(buf, p);
    if head.value.kind.Map? then TypesFrom(buf, head.end, head.value.value, 0) else None
  }

  /** The text under a key of the map at pos. */
  function TextUnder(buf: seq<u8>, pos: nat, key: seq<u8>): Option<seq<u8>> {
    var p :- MapAt(buf, pos, key, 0);
    var it :- ItemAt(buf, p);
    if it.value.kind.Text? then Some(it.value.data) else None
  }

  /** The i-th declared field, found by walking the field maps from the first. */
  function DeclaredField(buf: seq<u8>, def: TypeDef, i: nat): Option<FieldDef> {
    if def.fieldsPos > |buf| then None
    else
      var p :- EndOfAll(buf, def.fieldsPos, 0, i);
      var name :- TextUnder(buf, p, Ascii("name"));
      var kind :- TextUnder(buf, p, Ascii("type"));
      Some(FieldDef(name, kind))
  }

  function DeclaredFields(buf: seq<u8>, def: TypeDef): (f: Fields)
    ensures |f| == def.fieldCount && forall i | 0 <= i < |f| :: f[i] == DeclaredField(buf, def, i)
  {
    seq(def.fieldCount, i requires 0 <= i < def.fieldCount => DeclaredField(buf, def, i))
  }

  /** The table by name; the first of two definitions of one name counts. */
  function TableOf(buf: seq<u8>, defs: seq<TypeDef>): (t: Table)
    ensures forall x :: x in t <==> exists i | 0 <= i < |defs| :: defs[i].name == x
  {
    if |defs| == 0 then map[]
    else
      var later := TableOf(buf, defs[1..]);
      assert defs == [defs[0]] + defs[1..];
      later[defs[0].name := DeclaredFields(buf, defs[0])]
  }

  lemma {:induction false} FirstDefinitionCounts(buf: seq<u8>, defs: seq<TypeDef>, i: nat)
    requires i < |defs| && forall k | 0 <= k < i :: defs[k].name != defs[i].name
    ensures defs[i].name in TableOf(buf, defs) && TableOf(buf, defs)[defs[i].name] == DeclaredFields(buf, defs[i])
  {
    if i > 0 { FirstDefinitionCounts(buf, defs[1..], i - 1); }
  }

  // -------------------------------------------------------------- the result

  const PRIMARY_SIZE := 32
  const DOMAIN_NAME_SIZE := 24

  /** What the confirmation shows beside the pages. */
  datatype Domain = Domain(name: Option<seq<u8>>, chainId: Option<nat>, contract: Option<seq<u8>>)

  datatype Render = Render(primary: Name, domain: Domain, fields: seq<Field>)

  datatype Outcome =
    | Malformed
    | Unhashable
    | Unrenderable(digest: seq<u8>, render: Render)
    | Ok(digest: seq<u8>, render: Render)

  function ItemUnder(buf: seq<u8>, pos: nat, key: seq<u8>): Option<Item> {
    var p :- MapAt(buf, pos, key, 0);
    var it :- ItemAt(buf, p);
    Some(it.value)
  }

  /** Where the map under a key stands. */
  function MapUnder(buf: seq<u8>, key: seq<u8>): Option<nat> {
    var p :- MapAt(buf, 0, key, 0);
    var it :- ItemAt(buf, p);
    if it.value.kind.Map? then Some(p) else None
  }

  function DomainName(item: Option<Item>): Option<seq<u8>> {
    if item.Some? && item.value.kind.Text? && |item.value.data| + 1 <= DOMAIN_NAME_SIZE && Printable(item.value.data)
    then Some(item.value.data) else None
  }

  function ChainId(item: Option<Item>): Option<nat> {
    if item.None? then None
    else if item.value.kind.Uint? then Some(item.value.value)
    else if item.value.kind.Bytes? && |item.value.data| <= 8 then Some(FromBigEndian(item.value.data))
    else None
  }

  function Contract(item: Option<Item>): Option<seq<u8>> {
    if item.Some? && item.value.kind.Bytes? && |item.value.data| == 20 then Some(item.value.data) else None
  }

  function DomainAt(buf: seq<u8>, pos: nat): Domain {
    Domain(DomainName(ItemUnder(buf, pos, Ascii("name"))), ChainId(ItemUnder(buf, pos, Ascii("chainId"))),
           Contract(ItemUnder(buf, pos, Ascii("verifyingContract"))))
  }

  /** Everything the request must contain to be looked at: the type table, the primary
      type's name, and where the two maps stand. */
  datatype Request = Request(table: Table, primary: Name, domainPos: nat, messagePos: nat)

  function RequestOf(buf: seq<u8>): (r: Option<Request>)
  {
    var defs :- TypeDefs(buf);
    var primary :- TextUnder(buf, 0, Ascii("primaryType"));
    if |primary| + 1 > PRIMARY_SIZE then None
    else
      var domainPos :- MapUnder(buf, Ascii("domain"));
      var messagePos :- MapUnder(buf, Ascii("message"));
      Some(Request(TableOf(buf, defs), primary, domainPos, messagePos))
  }

  function DomainWalk(buf: seq<u8>, keccak: Hash, r: Request): Option<Walk> {
    if Ascii("EIP712Domain") !in r.table then None
    else StructAt(Doc(buf, r.table, keccak), Ascii("EIP712Domain"), r.domainPos, 0, [])
  }

  function MessageWalk(buf: seq<u8>, keccak: Hash, r: Request): Option<Walk> {
    if r.primary !in r.table then None else StructAt(Doc(buf, r.table, keccak), r.primary, r.messagePos, 0, [])
  }

  /** The 0x19 byte keeps a typed-data digest apart from any RLP payload. */
  function Digest(keccak: Hash, domain: seq<u8>, message: seq<u8>): seq<u8> {
    keccak([0x19, 0x01] + domain + message)
  }

  ghost function Prepared(buf: seq<u8>, keccak: Hash): Outcome {
    match RequestOf(buf)
    case None => Malformed
    case Some(r) =>
      match DomainWalk(buf, keccak, r)
      case None => Unhashable
      case Some(domain) =>
        match MessageWalk(buf, keccak, r)
        case None => Unhashable
        case Some(message) =>
          var screen := ShownAll(keccak, Screen([], false), message.events);
          var digest := Digest(keccak, domain.data, message.data);
          var render := Render(r.primary, DomainAt(buf, r.domainPos), screen.fields);
          if screen.overflow || |screen.fields| == 0 then Unrenderable(digest, render) else Ok(digest, render)
  }

  // --------------------------------------------------------------- theorems

  /** The texts on the pages. */
  function Texts(fields: seq<Field>): (t: seq<string>)
    ensures |t| == |fields| && forall i | 0 <= i < |t| :: t[i] == fields[i].value
  {
    seq(|fields|, i requires 0 <= i < |fields| => fields[i].value)
  }

  /** What an accepted document consists of. */
  lemma OkParts(buf: seq<u8>, keccak: Hash) returns (r: Request, domain: Walk, message: Walk)
    requires Prepared(buf, keccak).Ok?
    ensures RequestOf(buf) == Some(r) && r.primary in r.table
    ensures DomainWalk(buf, keccak, r) == Some(domain) && MessageWalk(buf, keccak, r) == Some(message)
    ensures StructAt(Doc(buf, r.table, keccak), r.primary, r.messagePos, 0, []) == Some(message)
    ensures !ShownAll(keccak, Screen([], false), message.events).overflow
    ensures Prepared(buf, keccak).render.fields == ShownAll(keccak, Screen([], false), message.events).fields
    ensures |Prepared(buf, keccak).render.fields| > 0
    ensures Prepared(buf, keccak).digest == Digest(keccak, domain.data, message.data)
  {
    hide RequestOf, StructAt, ShownAll, DomainAt, Digest, DomainWalk;
    r := RequestOf(buf).value;
    domain, message := DomainWalk(buf, keccak, r).value, MessageWalk(buf, keccak, r).value;
  }

  lemma SameTextsShown(f: seq<Field>, g: seq<Field>)
    requires Texts(f) == Texts(g)
    ensures |f| == |g| && forall i | 0 <= i < |f| :: f[i].value == g[i].value
  {
    assert |f| == |Texts(f)| == |Texts(g)| == |g|;
    forall i | 0 <= i < |f| ensures f[i].value == g[i].value { assert Texts(f)[i] == Texts(g)[i]; }
  }

  /** Two documents that are accepted, have one type table and one primary type, and
      whose pages show the same texts. */
  ghost predicate ShowTheSame(a: seq<u8>, b: seq<u8>, keccak: Hash) {
    && Prepared(a, keccak).Ok? && Prepared(b, keccak).Ok?
    && RequestOf(a).Some? && RequestOf(b).Some?
    && RequestOf(a).value.table == RequestOf(b).value.table && RequestOf(a).value.primary == RequestOf(b).value.primary
    && Texts(Prepared(a, keccak).render.fields) == Texts(Prepared(b, keccak).render.fields)
  }

  /** What you see is what you sign: such documents have the same message hash; their
      digests then differ only through the domain separator. */
  lemma ScreenDeterminesMessage(a: seq<u8>, b: seq<u8>, keccak: Hash)
    requires ShowTheSame(a, b, keccak)
    ensures MessageHash(a, keccak).Some? && MessageHash(a, keccak) == MessageHash(b, keccak)
    ensures DomainHash(a, keccak).Some? && DomainHash(b, keccak).Some?
    ensures DomainHash(a, keccak) == DomainHash(b, keccak) ==> Prepared(a, keccak).digest == Prepared(b, keccak).digest
  {
    hide RequestOf, StructAt, ShownAll, Prepared, Digest, DomainWalk, MessageWalk, Texts;
    var r, c, v := OkParts(a, keccak);
    var s, d, w := OkParts(b, keccak);
    SameTextsShown(Prepared(a, keccak).render.fields, Prepared(b, keccak).render.fields);
    ScreenDeterminesStructHash(Doc(a, r.table, keccak), Doc(b, s.table, keccak), r.primary, r.messagePos, s.messagePos, v, w);
  }

  /** The hash of the message alone, and of the domain alone. */
  function MessageHash(buf: seq<u8>, keccak: Hash): Option<seq<u8>> {
    var r :- RequestOf(buf);
    var w :- MessageWalk(buf, keccak, r);
    Some(w.data)
  }

  function DomainHash(buf: seq<u8>, keccak: Hash): Option<seq<u8>> {
    var r :- RequestOf(buf);
    var w :- DomainWalk(buf, keccak, r);
    Some(w.data)
  }

  /** Whatever has a digest has it over the bytes 0x19 and 0x01, the domain's hash and the
      message's, in this order and with nothing behind them; what is accepted shows one to six
      values. */
  lemma SignedBytes(buf: seq<u8>, keccak: Hash)
    ensures var outcome := Prepared(buf, keccak);
      (outcome.Ok? || outcome.Unrenderable? ==>
         DomainHash(buf, keccak).Some? && MessageHash(buf, keccak).Some?
         && outcome.digest == keccak([0x19, 0x01] + DomainHash(buf, keccak).value + MessageHash(buf, keccak).value))
      && (outcome.Ok? ==> 1 <= |outcome.render.fields| <= 6)
  {
    hide RequestOf, StructAt, ShownAll, DomainAt, DomainWalk, MessageWalk;
    if Prepared(buf, keccak).Ok? {
      NoOverflowShowsAll(keccak, MessageWalk(buf, keccak, RequestOf(buf).value).value.events);
    }
  }

  /** A document that is signed by default shows every leaf of its message, one page
      each, and at least one. */
  lemma OkShowsEveryLeaf(buf: seq<u8>, keccak: Hash) returns (message: Walk)
    requires Prepared(buf, keccak).Ok?
    ensures RequestOf(buf).Some? && MessageWalk(buf, keccak, RequestOf(buf).value) == Some(message)
    ensures 1 <= |message.events| <= EIP712_MAX_RENDER_FIELDS
    ensures InFull(keccak, Prepared(buf, keccak).render.fields, message.events)
  {
    hide RequestOf, StructAt, ShownAll, Prepared, MessageWalk, LeafText;
    var r, domain;
    r, domain, message := OkParts(buf, keccak);
    NoOverflowShowsAll(keccak, message.events);
  }
}
