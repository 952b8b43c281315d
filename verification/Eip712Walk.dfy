/** What is shown determines what is hashed. */
module Eip712Walk {
  import opened Bytes
  import opened Cbor
  import opened Decimal
  import opened Eip712Types

  // A message is hashed and shown in the same walk over it. This is that walk, and the
  // theorem that what is shown determines what is hashed. The hash function is a
  // parameter; nothing is assumed of it.

  const EIP712_MAX_RENDER_FIELDS := 6
  const EIP712_MAX_LABEL := 21
  const EIP712_MAX_VALUE := 80

  type Hash = seq<u8> -> seq<u8>

  // --------------------------------------------------------------- ABI types

  datatype AbiType =
    | AbiAddress | AbiBool | AbiString | AbiBytes | AbiBytesN(size: nat)
    | AbiUint(bits: nat) | AbiInt(bits: nat) | AbiStruct(name: Name) | AbiUnsupported

  predicate StartsWith(s: Name, prefix: Name) { |s| >= |prefix| && s[..|prefix|] == prefix }

  /** A decimal number up to 256. */
  function NumberOf(s: Name): Option<nat> {
    if |s| == 0 then Some(0)
    else
      var before :- NumberOf(s[..|s| - 1]);
      var c := s[|s| - 1];
      if c < 48 || c > 57 || before * 10 + (c - 48) > 256 then None else Some(before * 10 + (c - 48))
  }

  /** The number behind a prefix; nothing at all there is not a number. */
  function TrailingNumber(s: Name, prefix: nat): Option<nat> {
    if |s| <= prefix then None else NumberOf(s[prefix..])
  }

  /** A number behind a type name, if it is one the type can have. */
  function Sized(n: Option<nat>, least: nat, most: nat, step: nat): Option<nat>
    requires step > 0
  {
    if n.Some? && least <= n.value <= most && n.value % step == 0 then n else None
  }

  /** The elementary types by spelling; None for a spelling that is none of them. */
  function Elementary(kind: Name): (t: Option<AbiType>)
    ensures t.Some? ==> !t.value.AbiStruct?
  {
    if BRACKET in kind then Some(AbiUnsupported)
    else if kind == Ascii("address") then Some(AbiAddress)
    else if kind == Ascii("bool") then Some(AbiBool)
    else if kind == Ascii("string") then Some(AbiString)
    else if kind == Ascii("bytes") then Some(AbiBytes)
    else if StartsWith(kind, Ascii("bytes")) then
      var n := Sized(TrailingNumber(kind, 5), 1, 32, 1);
      Some(if n.Some? then AbiBytesN(n.value) else AbiUnsupported)
    else if StartsWith(kind, Ascii("uint")) then
      var n := Sized(TrailingNumber(kind, 4), 8, 256, 8);
      Some(if n.Some? then AbiUint(n.value) else AbiUnsupported)
    else if StartsWith(kind, Ascii("int")) then
      var n := Sized(TrailingNumber(kind, 3), 8, 256, 8);
      Some(if n.Some? then AbiInt(n.value) else AbiUnsupported)
    else None
  }

  function Classify(table: Table, kind: Name): (t: AbiType)
    ensures t.AbiStruct? ==> t.name in table
  {
    match Elementary(kind)
    case Some(t) => t
    case None => if kind in table then AbiStruct(kind) else AbiUnsupported
  }

  // ------------------------------------------------------------ hashed words

  function ZeroBytes(n: nat): (z: seq<u8>)
    ensures |z| == n
  {
    seq(n, i => 0)
  }

  /** A number in either of its two spellings, as a word of 32 bytes; wider than its
      type it is refused. */
  function WordFromInt(item: Item, bits: nat): (r: Option<seq<u8>>)
    requires bits <= 256
    ensures r.Some? ==> |r.value| == 32
  {
    match item.kind
    case Uint => Narrow(ZeroBytes(28) + ToBigEndian(item.value, 4), bits)
    case Bytes => if |item.data| > 32 then None else Narrow(ZeroBytes(32 - |item.data|) + item.data, bits)
    case _ => None
  }

  function Narrow(word: seq<u8>, bits: nat): Option<seq<u8>>
    requires |word| == 32 && bits <= 256
  {
    if forall i | 0 <= i < (256 - bits) / 8 :: word[i] == 0 then Some(word) else None
  }

  /** What a single value adds to the hash; a shape its type does not have is refused. */
  function LeafWord(keccak: Hash, abi: AbiType, item: Item): Option<seq<u8>>
  {
    match abi
    case AbiAddress => if item.kind.Bytes? && |item.data| == 20 then Some(ZeroBytes(12) + item.data) else None
    case AbiBool => if item.kind.Uint? && item.value <= 1 then Some(ZeroBytes(31) + [item.value]) else None
    case AbiUint(bits) => if bits <= 256 then WordFromInt(item, bits) else None
    case AbiInt(bits) => if bits <= 256 then WordFromInt(item, bits) else None
    case AbiString => if item.kind.Text? then Some(keccak(item.data)) else None
    case AbiBytes => if item.kind.Bytes? then Some(keccak(item.data)) else None
    case AbiBytesN(size) =>
      if item.kind.Bytes? && |item.data| == size && size <= 32 then Some(item.data + ZeroBytes(32 - size)) else None
    case _ => None
  }

  // ------------------------------------------------------------- shown texts

  predicate Printable(s: seq<u8>) { forall i | 0 <= i < |s| :: 0x20 <= s[i] <= 0x7E }

  function AsText(s: seq<u8>): (t: string)
    ensures |t| == |s| && forall i | 0 <= i < |s| :: t[i] == s[i] as char
  {
    seq(|s|, i requires 0 <= i < |s| => s[i] as char)
  }

  function HexDigit(n: nat): (c: char)
    requires n < 16
  {
    if n < 10 then '0' + n as char else 'a' + (n - 10) as char
  }

  function Hex(data: seq<u8>): (t: string)
    ensures |t| == 2 * |data|
  {
    if |data| == 0 then "" else [HexDigit(data[0] / 16), HexDigit(data[0] % 16)] + Hex(data[1..])
  }

  predicate IsLowerHexLetter(c: char) { 'a' <= c <= 'f' }

  function Upper(c: char): char
    requires IsLowerHexLetter(c)
  {
    c - 'a' + 'A'
  }

  function Nibble(digest: seq<u8>, i: nat): nat {
    if i / 2 >= |digest| then 0 else if i % 2 == 0 then digest[i / 2] / 16 else digest[i / 2] % 16
  }

  /** Letters whose nibble of the digest is 8 or more become capitals (EIP-55). */
  function Checksummed(hex: string, digest: seq<u8>): (t: string)
    ensures |t| == |hex|
  {
    seq(|hex|, i requires 0 <= i < |hex| =>
      if IsLowerHexLetter(hex[i]) && Nibble(digest, i) >= 8 then Upper(hex[i]) else hex[i])
  }

  function AddressText(keccak: Hash, address: seq<u8>): string {
    "0x" + Checksummed(Hex(address), keccak(TextBytes(Hex(address))))
  }

  function TextBytes(s: string): seq<u8> {
    seq(|s|, i requires 0 <= i < |s| => s[i] as int % 256)
  }

  /** The text a single value is shown as, or nothing when the row cannot hold it. */
  function LeafText(keccak: Hash, abi: AbiType, item: Item): Option<string>
  {
    match abi
    case AbiAddress => Some(AddressText(keccak, item.data))
    case AbiBool => Some(if item.value != 0 then "true" else "false")
    case AbiUint(bits) => NumberText(LeafWord(keccak, abi, item))
    case AbiInt(bits) => NumberText(LeafWord(keccak, abi, item))
    case AbiString => if |item.data| + 1 <= EIP712_MAX_VALUE && Printable(item.data) then Some(AsText(item.data)) else None
    case AbiBytes => if 2 * |item.data| + 3 <= EIP712_MAX_VALUE then Some("0x" + Hex(item.data)) else None
    case AbiBytesN(size) => if 2 * |item.data| + 3 <= EIP712_MAX_VALUE then Some("0x" + Hex(item.data)) else None
    case _ => None
  }

  function NumberText(word: Option<seq<u8>>): Option<string> {
    if word.None? then None
    else
      var text := Digits(FromBigEndian(word.value));
      if |text| + 1 <= EIP712_MAX_VALUE then Some(text) else None
  }

  // ---------------------------------------------- what is shown fixes the word

  lemma {:induction false} HexIsInjective(a: seq<u8>, b: seq<u8>)
    requires Hex(a) == Hex(b)
    ensures a == b
  {
    assert |Hex(a)| == 2 * |a| && |Hex(b)| == 2 * |b|;
    if |a| > 0 {
      assert Hex(a)[0] == Hex(b)[0] && Hex(a)[1] == Hex(b)[1];
      assert Hex(a)[2..] == Hex(a[1..]) && Hex(b)[2..] == Hex(b[1..]);
      HexIsInjective(a[1..], b[1..]);
      HexPair(a[0], b[0]);
      assert a == [a[0]] + a[1..] && b == [b[0]] + b[1..];
    }
  }

  lemma HexPair(x: u8, y: u8)
    requires HexDigit(x / 16) == HexDigit(y / 16) && HexDigit(x % 16) == HexDigit(y % 16)
    ensures x == y
  {
    assert x == 16 * (x / 16) + x % 16 && y == 16 * (y / 16) + y % 16;
  }

  /** Letter case apart, the two texts are the same. */
  function Lowered(c: char): char {
    if 'A' <= c <= 'F' then c - 'A' + 'a' else c
  }

  predicate LowerHex(s: string) { forall i | 0 <= i < |s| :: '0' <= s[i] <= '9' || IsLowerHexLetter(s[i]) }

  lemma {:induction false} HexIsLower(data: seq<u8>)
    ensures LowerHex(Hex(data))
  {
    if |data| > 0 { HexIsLower(data[1..]); }
  }

  lemma ChecksumKeepsTheDigits(hex: string, other: string, d: seq<u8>, e: seq<u8>)
    requires LowerHex(hex) && LowerHex(other) && Checksummed(hex, d) == Checksummed(other, e)
    ensures hex == other
  {
    assert |hex| == |Checksummed(hex, d)| && |other| == |Checksummed(other, e)|;
    forall i | 0 <= i < |hex| ensures hex[i] == other[i] {
      assert Lowered(Checksummed(hex, d)[i]) == hex[i];
      assert Lowered(Checksummed(other, e)[i]) == other[i];
    }
  }

  lemma AddressTextIsInjective(keccak: Hash, a: seq<u8>, b: seq<u8>)
    requires AddressText(keccak, a) == AddressText(keccak, b)
    ensures a == b
  {
    hide Hex, Checksummed;
    HexIsLower(a);
    HexIsLower(b);
    var d, e := keccak(TextBytes(Hex(a))), keccak(TextBytes(Hex(b)));
    assert AddressText(keccak, a)[2..] == Checksummed(Hex(a), d);
    assert AddressText(keccak, b)[2..] == Checksummed(Hex(b), e);
    ChecksumKeepsTheDigits(Hex(a), Hex(b), d, e);
    HexIsInjective(a, b);
  }

  lemma AsTextIsInjective(a: seq<u8>, b: seq<u8>)
    requires AsText(a) == AsText(b)
    ensures a == b
  {
    assert |a| == |AsText(a)| == |b|;
    forall i | 0 <= i < |a| ensures a[i] == b[i] {
      assert AsText(a)[i] as int == a[i] && AsText(b)[i] as int == b[i];
    }
  }

  lemma NumberTextIsInjective(v: seq<u8>, w: seq<u8>)
    requires |v| == |w| && NumberText(Some(v)).Some? && NumberText(Some(v)) == NumberText(Some(w))
    ensures v == w
  {
    hide Digits, FromBigEndian;
    DigitsAreInjective(FromBigEndian(v), FromBigEndian(w));
    BigEndianReprint(v);
    BigEndianReprint(w);
  }

  lemma HexTextIsInjective(a: seq<u8>, b: seq<u8>)
    requires "0x" + Hex(a) == "0x" + Hex(b)
    ensures a == b
  {
    assert ("0x" + Hex(a))[2..] == Hex(a) && ("0x" + Hex(b))[2..] == Hex(b);
    HexIsInjective(a, b);
  }

  /** Two values of one type that are shown alike are hashed alike, whatever spelling
      each of them came in. */
  lemma TextDeterminesWord(keccak: Hash, abi: AbiType, a: Item, b: Item)
    requires LeafWord(keccak, abi, a).Some? && LeafWord(keccak, abi, b).Some?
    requires LeafText(keccak, abi, a).Some? && LeafText(keccak, abi, a) == LeafText(keccak, abi, b)
    ensures LeafWord(keccak, abi, a) == LeafWord(keccak, abi, b)
  {
    hide Digits, Hex, AddressText, FromBigEndian, ToBigEndian, AsText, NumberText, WordFromInt;
    match abi
    case AbiAddress => AddressTextIsInjective(keccak, a.data, b.data);
    case AbiBool =>
      assert "true"[0] != "false"[0];
    case AbiUint(bits) => NumberTextIsInjective(LeafWord(keccak, abi, a).value, LeafWord(keccak, abi, b).value);
    case AbiInt(bits) => NumberTextIsInjective(LeafWord(keccak, abi, a).value, LeafWord(keccak, abi, b).value);
    case AbiString => AsTextIsInjective(a.data, b.data);
    case AbiBytes => HexTextIsInjective(a.data, b.data);
    case AbiBytesN(size) => HexTextIsInjective(a.data, b.data);
    case _ =>
  }

  // ------------------------------------------------------------ the traversal

  /** The document's bytes, its type table, and the hash in use. */
  datatype Doc = Doc(buf: seq<u8>, table: Table, keccak: Hash)

  /** What the traversal hands to the screen: a value, or a nested label that no row holds. */
  datatype Event = Leaf(prefix: seq<u8>, name: Name, abi: AbiType, item: Item) | Overlong

  /** What hashing a struct, or some of its fields, produces. */
  datatype Walk = Walk(data: seq<u8>, events: seq<Event>)

  /** Text up to a terminator, as the label is printed. */
  function UpToNul(s: seq<u8>): (t: seq<u8>)
    ensures |t| <= |s|
  {
    if |s| == 0 || s[0] == 0 then [] else [s[0]] + UpToNul(s[1..])
  }

  const DOT: u8 := 46

  function Label(prefix: seq<u8>, name: Name): seq<u8> {
    if |prefix| > 0 then prefix + [DOT] + UpToNul(name) else UpToNul(name)
  }

  /** hashStruct of the map at pos: keccak of the typeHash and one word per field. */
  function StructAt(d: Doc, name: Name, pos: nat, depth: nat, prefix: seq<u8>): Option<Walk>
    requires name in d.table
    decreases if depth <= EIP712_MAX_DEPTH then EIP712_MAX_DEPTH + 1 - depth else 0, |d.table[name]| + 2
  {
    if depth > EIP712_MAX_DEPTH then None
    else
      match EncodeType(d.table, name, ENCODED_TYPE_SIZE)
      case None => None
      case Some(encoded) =>
        match FieldsAt(d, name, |d.table[name]|, pos, depth, prefix)
        case None => None
        case Some(fields) => Some(Walk(d.keccak(d.keccak(encoded) + fields.data), fields.events))
  }

  /** The first n declared fields, looked up by name. */
  function FieldsAt(d: Doc, name: Name, n: nat, pos: nat, depth: nat, prefix: seq<u8>): Option<Walk>
    requires name in d.table && n <= |d.table[name]| && depth <= EIP712_MAX_DEPTH
    decreases EIP712_MAX_DEPTH + 1 - depth, n + 1
  {
    if n == 0 then Some(Walk([], []))
    else
      match FieldsAt(d, name, n - 1, pos, depth, prefix)
      case None => None
      case Some(before) =>
        match d.table[name][n - 1]
        case None => None
        case Some(field) =>
          match FieldAt(d, field, pos, depth, prefix)
          case None => None
          case Some(one) => Some(Join(before, one))
  }

  function Join(v: Walk, w: Walk): Walk { Walk(v.data + w.data, v.events + w.events) }

  /** What the value of a declared field adds to the hash, and the leaves it has to show. */
  function FieldAt(d: Doc, field: FieldDef, pos: nat, depth: nat, prefix: seq<u8>): Option<Walk>
    requires depth <= EIP712_MAX_DEPTH
    decreases EIP712_MAX_DEPTH + 1 - depth, 0, 1
  {
    match MapAt(d.buf, pos, field.name, 0)
    case None => None
    case Some(at) => ValueAs(d, Classify(d.table, field.kind), field.name, at, depth, prefix)
  }

  /** The value at a place, as the given type. */
  function ValueAs(d: Doc, abi: AbiType, name: Name, at: nat, depth: nat, prefix: seq<u8>): Option<Walk>
    requires depth <= EIP712_MAX_DEPTH && (abi.AbiStruct? ==> abi.name in d.table)
    decreases EIP712_MAX_DEPTH + 1 - depth, 0, 0
  {
    match ItemAt(d.buf, at)
    case None => None
    case Some(it) =>
      if !abi.AbiStruct? then LeafWalk(d.keccak, prefix, name, abi, it.value)
      else if !it.value.kind.Map? || depth + 1 > EIP712_MAX_DEPTH then None
      else
        match StructAt(d, abi.name, at, depth + 1, NestedPrefix(Label(prefix, name)))
        case None => None
        case Some(inner) => Some(Walk(inner.data, LabelEvents(Label(prefix, name)) + inner.events))
  }

  function LeafWalk(keccak: Hash, prefix: seq<u8>, name: Name, abi: AbiType, item: Item): Option<Walk>
  {
    match LeafWord(keccak, abi, item)
    case None => None
    case Some(word) => Some(Walk(word, [Leaf(prefix, name, abi, item)]))
  }

  /** A nested label that no row holds leaves its leaves without a prefix, and the
      whole document unshowable. */
  function NestedPrefix(caption: seq<u8>): seq<u8> { if |caption| >= EIP712_MAX_LABEL then [] else caption }

  function LabelEvents(caption: seq<u8>): seq<Event> { if |caption| >= EIP712_MAX_LABEL then [Overlong] else [] }

  // --------------------------------------------------------------- the screen

  datatype Field = Field(caption: seq<u8>, value: string, isAddress: bool, address: seq<u8>, unlimited: bool, isDeadline: bool)

  /** The pages so far, and whether something could not be shown. */
  datatype Screen = Screen(fields: seq<Field>, overflow: bool)

  function LowerByte(b: u8): u8 { if 65 <= b <= 90 then b + 32 else b }

  function LowerName(name: Name): (l: Name)
    ensures |l| == |name|
  {
    seq(|name|, i requires 0 <= i < |name| => LowerByte(name[i]))
  }

  /** The needle occurs in the name, letter case apart. */
  ghost predicate Hints(name: Name, needle: Name) {
    exists i: nat :: OccursAt(LowerName(name), needle, i)
  }

  predicate OccursAt(s: seq<u8>, part: seq<u8>, i: nat) { i + |part| <= |s| && s[i..i + |part|] == part }

  ghost predicate IsDeadline(name: Name) {
    Hints(name, Ascii("deadline")) || Hints(name, Ascii("expir")) || Hints(name, Ascii("validuntil"))
    || Hints(name, Ascii("validbefore"))
  }

  /** The upper half of a type of at least 64 bits. */
  predicate IsUnlimited(word: seq<u8>, bits: nat) {
    bits >= 64 && bits <= 256 && |word| == 32 && word[32 - bits / 8] >= 128
  }

  /** The page of a single value; text that no row holds is left empty. */
  ghost function PageOf(keccak: Hash, caption: seq<u8>, name: Name, abi: AbiType, item: Item): Field
  {
    var text := LeafText(keccak, abi, item);
    var number := abi.AbiUint? || abi.AbiInt?;
    var deadline := number && IsDeadline(name);
    var word := LeafWord(keccak, abi, item);
    Field(caption, if text.Some? then text.value else "", abi.AbiAddress?, if abi.AbiAddress? then item.data else [],
          !deadline && abi.AbiUint? && word.Some? && IsUnlimited(word.value, abi.bits), deadline)
  }

  /** How one event changes the screen; a page is claimed only while one is left and
      its label fits. */
  ghost function Shown(keccak: Hash, s: Screen, e: Event): (t: Screen)
    ensures s.overflow ==> t.overflow
    ensures |s.fields| <= |t.fields| && t.fields[..|s.fields|] == s.fields
  {
    if e.Overlong? then s.(overflow := true)
    else
      var caption := Label(e.prefix, e.name);
      if |s.fields| >= EIP712_MAX_RENDER_FIELDS || |caption| >= EIP712_MAX_LABEL then s.(overflow := true)
      else
        Screen(s.fields + [PageOf(keccak, caption, e.name, e.abi, e.item)],
               s.overflow || LeafText(keccak, e.abi, e.item).None?)
  }

  ghost function ShownAll(keccak: Hash, s: Screen, events: seq<Event>): (t: Screen)
    ensures s.overflow ==> t.overflow
  {
    if |events| == 0 then s
    else
      Shown(keccak, ShownAll(keccak, s, events[..|events| - 1]), events[|events| - 1])
  }

  lemma {:induction false} ShownInTwo(keccak: Hash, s: Screen, a: seq<Event>, b: seq<Event>)
    ensures ShownAll(keccak, s, a + b) == ShownAll(keccak, ShownAll(keccak, s, a), b)
  {
    hide Shown;
    if |b| == 0 {
      assert a + b == a;
    } else {
      assert (a + b)[..|a + b| - 1] == a + b[..|b| - 1];
      ShownInTwo(keccak, s, a, b[..|b| - 1]);
    }
  }

  /** Nothing overflowed: every event is a value, and its page shows its text. */
  ghost predicate InFull(keccak: Hash, fields: seq<Field>, events: seq<Event>)
  {
    |fields| == |events| && forall i | 0 <= i < |events| ::
      events[i].Leaf?
      && fields[i].caption == Label(events[i].prefix, events[i].name)
      && LeafText(keccak, events[i].abi, events[i].item) == Some(fields[i].value)
  }

  lemma ShownWithoutOverflow(keccak: Hash, s: Screen, e: Event)
    requires !Shown(keccak, s, e).overflow
    ensures !s.overflow && e.Leaf? && |s.fields| < EIP712_MAX_RENDER_FIELDS
    ensures LeafText(keccak, e.abi, e.item).Some?
    ensures Shown(keccak, s, e).fields == s.fields + [PageOf(keccak, Label(e.prefix, e.name), e.name, e.abi, e.item)]
    ensures PageOf(keccak, Label(e.prefix, e.name), e.name, e.abi, e.item).caption == Label(e.prefix, e.name)
    ensures Some(PageOf(keccak, Label(e.prefix, e.name), e.name, e.abi, e.item).value) == LeafText(keccak, e.abi, e.item)
  {
    hide LeafText, LeafWord, Label;
  }

  /** Without overflow the pages are exactly the leaves. */
  lemma {:induction false} NoOverflowShowsAll(keccak: Hash, events: seq<Event>)
    requires !ShownAll(keccak, Screen([], false), events).overflow
    ensures InFull(keccak, ShownAll(keccak, Screen([], false), events).fields, events)
    ensures |events| <= EIP712_MAX_RENDER_FIELDS
  {
    hide Shown, PageOf, LeafText, Label;
    if |events| > 0 {
      var before := events[..|events| - 1];
      ShownWithoutOverflow(keccak, ShownAll(keccak, Screen([], false), before), events[|events| - 1]);
      NoOverflowShowsAll(keccak, before);
    }
  }

  // -------------------------------------------------------- screen fixes hash

  /** Same labels and types in the same order. */
  ghost predicate SameShape(a: seq<Event>, b: seq<Event>) {
    |a| == |b| && forall i | 0 <= i < |a| :: SameSlot(a[i], b[i])
  }

  predicate SameSlot(a: Event, b: Event) {
    (a.Overlong? && b.Overlong?) || (a.Leaf? && b.Leaf? && a.prefix == b.prefix && a.name == b.name && a.abi == b.abi)
  }

  /** Every event shows a text, and the same one. */
  ghost predicate SameTexts(keccak: Hash, a: seq<Event>, b: seq<Event>)
  {
    |a| == |b| && forall i | 0 <= i < |a| :: SameText(keccak, a[i], b[i])
  }

  predicate SameText(keccak: Hash, a: Event, b: Event)
  {
    a.Leaf? && b.Leaf? && LeafText(keccak, a.abi, a.item).Some?
    && LeafText(keccak, a.abi, a.item) == LeafText(keccak, b.abi, b.item)
  }

  lemma TextsSplit(keccak: Hash, a: seq<Event>, b: seq<Event>, c: seq<Event>, e: seq<Event>)
    requires |a| == |c| && SameTexts(keccak, a + b, c + e)
    ensures SameTexts(keccak, a, c) && SameTexts(keccak, b, e)
  {
    hide SameText;
    forall i | 0 <= i < |a| ensures SameText(keccak, a[i], c[i]) {
      assert (a + b)[i] == a[i] && (c + e)[i] == c[i];
    }
    assert |b| == |e|;
    forall i | 0 <= i < |b| ensures SameText(keccak, b[i], e[i]) {
      assert (a + b)[|a| + i] == b[i] && (c + e)[|c| + i] == e[i];
    }
  }

  /** Two walks of the same shape, whose words agree wherever their texts do. */
  ghost predicate Agree(keccak: Hash, v: Walk, w: Walk) {
    && SameShape(v.events, w.events)
    && (SameTexts(keccak, v.events, w.events) ==> v.data == w.data)
  }

  lemma AgreeJoin(keccak: Hash, v1: Walk, v2: Walk, w1: Walk, w2: Walk)
    requires Agree(keccak, v1, w1) && Agree(keccak, v2, w2)
    ensures Agree(keccak, Join(v1, v2), Join(w1, w2))
  {
    hide SameTexts, SameSlot;
    if SameTexts(keccak, v1.events + v2.events, w1.events + w2.events) {
      TextsSplit(keccak, v1.events, v2.events, w1.events, w2.events);
    }
  }

  lemma AgreeLeaf(keccak: Hash, prefix: seq<u8>, name: Name, abi: AbiType, a: Item, b: Item)
    requires LeafWalk(keccak, prefix, name, abi, a).Some? && LeafWalk(keccak, prefix, name, abi, b).Some?
    ensures Agree(keccak, LeafWalk(keccak, prefix, name, abi, a).value, LeafWalk(keccak, prefix, name, abi, b).value)
  {
    var v, w := LeafWalk(keccak, prefix, name, abi, a).value, LeafWalk(keccak, prefix, name, abi, b).value;
    hide LeafWord, LeafText;
    if SameTexts(keccak, v.events, w.events) {
      assert SameText(keccak, v.events[0], w.events[0]);
      TextDeterminesWord(keccak, abi, a, b);
    }
  }

  /** The same table and hash over another document. */
  function Over(d: Doc, other: seq<u8>): (e: Doc)
    ensures e.table == d.table && e.keccak == d.keccak && e.buf == other
  {
    d.(buf := other)
  }

  /** Two documents over the same table, walked at the same type: the leaves have the
      same labels and types, and if they are shown alike the hashes are equal. */
  lemma {:induction false} StructsAgree(d: Doc, other: seq<u8>, name: Name, p: nat, q: nat, depth: nat, prefix: seq<u8>)
    requires name in d.table
    requires StructAt(d, name, p, depth, prefix).Some? && StructAt(Over(d, other), name, q, depth, prefix).Some?
    ensures Agree(d.keccak, StructAt(d, name, p, depth, prefix).value, StructAt(Over(d, other), name, q, depth, prefix).value)
    decreases if depth <= EIP712_MAX_DEPTH then EIP712_MAX_DEPTH + 1 - depth else 0, |d.table[name]| + 2
  {
    FieldsAgree(d, other, name, |d.table[name]|, p, q, depth, prefix);
    hide EncodeType, FieldsAt, SameTexts, SameShape;
  }

  lemma {:induction false} FieldsAgree(d: Doc, other: seq<u8>, name: Name, n: nat, p: nat, q: nat, depth: nat, prefix: seq<u8>)
    requires name in d.table && n <= |d.table[name]|
    requires depth <= EIP712_MAX_DEPTH
    requires FieldsAt(d, name, n, p, depth, prefix).Some? && FieldsAt(Over(d, other), name, n, q, depth, prefix).Some?
    ensures Agree(d.keccak, FieldsAt(d, name, n, p, depth, prefix).value, FieldsAt(Over(d, other), name, n, q, depth, prefix).value)
    decreases EIP712_MAX_DEPTH + 1 - depth, n + 1
  {
    hide *;
    if n == 0 {
      NoFieldsAgree(d, name, p, depth, prefix);
      NoFieldsAgree(Over(d, other), name, q, depth, prefix);
      NothingAgrees(d.keccak);
    } else {
      FieldsSplit(d, name, n, p, depth, prefix);
      FieldsSplit(Over(d, other), name, n, q, depth, prefix);
      FieldsAgree(d, other, name, n - 1, p, q, depth, prefix);
      FieldAgrees(d, other, d.table[name][n - 1].value, p, q, depth, prefix);
      JoinedAgree(d, other, name, n, p, q, depth, prefix);
    }
  }

  lemma NoFieldsAgree(d: Doc, name: Name, p: nat, depth: nat, prefix: seq<u8>)
    requires name in d.table && depth <= EIP712_MAX_DEPTH
    ensures FieldsAt(d, name, 0, p, depth, prefix) == Some(Walk([], []))
  {}

  lemma NothingAgrees(keccak: Hash)
    ensures Agree(keccak, Walk([], []), Walk([], []))
  {}

  lemma {:induction false} JoinedAgree(d: Doc, other: seq<u8>, name: Name, n: nat, p: nat, q: nat, depth: nat, prefix: seq<u8>)
    requires name in d.table && 0 < n <= |d.table[name]| && depth <= EIP712_MAX_DEPTH
    requires FieldsAt(d, name, n, p, depth, prefix).Some? && FieldsAt(Over(d, other), name, n, q, depth, prefix).Some?
    requires d.table[name][n - 1].Some?
    requires FieldsAt(d, name, n - 1, p, depth, prefix).Some? && FieldsAt(Over(d, other), name, n - 1, q, depth, prefix).Some?
    requires Agree(d.keccak, FieldsAt(d, name, n - 1, p, depth, prefix).value, FieldsAt(Over(d, other), name, n - 1, q, depth, prefix).value)
    requires FieldAt(d, d.table[name][n - 1].value, p, depth, prefix).Some?
    requires FieldAt(Over(d, other), d.table[name][n - 1].value, q, depth, prefix).Some?
    requires Agree(d.keccak, FieldAt(d, d.table[name][n - 1].value, p, depth, prefix).value,
                   FieldAt(Over(d, other), d.table[name][n - 1].value, q, depth, prefix).value)
    ensures Agree(d.keccak, FieldsAt(d, name, n, p, depth, prefix).value, FieldsAt(Over(d, other), name, n, q, depth, prefix).value)
  {
    hide *;
    FieldsSplit(d, name, n, p, depth, prefix);
    FieldsSplit(Over(d, other), name, n, q, depth, prefix);
    var v1, v2 := FieldsAt(d, name, n - 1, p, depth, prefix).value, FieldAt(d, d.table[name][n - 1].value, p, depth, prefix).value;
    var w1 := FieldsAt(Over(d, other), name, n - 1, q, depth, prefix).value;
    var w2 := FieldAt(Over(d, other), d.table[name][n - 1].value, q, depth, prefix).value;
    AgreeJoin(d.keccak, v1, v2, w1, w2);
  }

  lemma {:induction false} FieldsSplit(d: Doc, name: Name, n: nat, p: nat, depth: nat, prefix: seq<u8>)
    requires name in d.table && 0 < n <= |d.table[name]| && depth <= EIP712_MAX_DEPTH
    requires FieldsAt(d, name, n, p, depth, prefix).Some?
    ensures d.table[name][n - 1].Some? && FieldsAt(d, name, n - 1, p, depth, prefix).Some?
    ensures FieldAt(d, d.table[name][n - 1].value, p, depth, prefix).Some?
    ensures FieldsAt(d, name, n, p, depth, prefix).value
         == Join(FieldsAt(d, name, n - 1, p, depth, prefix).value, FieldAt(d, d.table[name][n - 1].value, p, depth, prefix).value)
  {
    hide FieldAt, Join;
  }

  lemma {:induction false} FieldAgrees(d: Doc, other: seq<u8>, field: FieldDef, p: nat, q: nat, depth: nat, prefix: seq<u8>)
    requires depth <= EIP712_MAX_DEPTH
    requires FieldAt(d, field, p, depth, prefix).Some? && FieldAt(Over(d, other), field, q, depth, prefix).Some?
    ensures Agree(d.keccak, FieldAt(d, field, p, depth, prefix).value, FieldAt(Over(d, other), field, q, depth, prefix).value)
    decreases EIP712_MAX_DEPTH + 1 - depth, 0
  {
    hide Classify, LeafWalk, StructAt, Label, MapAt, ItemAt, Agree, LabelEvents;
    var abi := Classify(d.table, field.kind);
    var at, to := MapAt(d.buf, p, field.name, 0).value, MapAt(other, q, field.name, 0).value;
    if abi.AbiStruct? {
      var nested := NestedPrefix(Label(prefix, field.name));
      StructsAgree(d, other, abi.name, at, to, depth + 1, nested);
      AgreeNested(d.keccak, Label(prefix, field.name), StructAt(d, abi.name, at, depth + 1, nested).value,
                  StructAt(Over(d, other), abi.name, to, depth + 1, nested).value);
    } else {
      AgreeLeaf(d.keccak, prefix, field.name, abi, ItemAt(d.buf, at).value.value, ItemAt(other, to).value.value);
    }
  }

  lemma AgreeNested(keccak: Hash, caption: seq<u8>, v: Walk, w: Walk)
    requires Agree(keccak, v, w)
    ensures Agree(keccak, Walk(v.data, LabelEvents(caption) + v.events), Walk(w.data, LabelEvents(caption) + w.events))
  {
    var before := Walk([], LabelEvents(caption));
    LabelsAgree(keccak, caption);
    hide Agree;
    AgreeJoin(keccak, before, v, before, w);
    assert [] + v.data == v.data && [] + w.data == w.data;
  }

  lemma LabelsAgree(keccak: Hash, caption: seq<u8>)
    ensures Agree(keccak, Walk([], LabelEvents(caption)), Walk([], LabelEvents(caption)))
  {}

  /** What is shown determines what is hashed: two messages of one type, over one
      table, that are both shown in full and show the same texts, have the same hash. */
  lemma ScreenDeterminesStructHash(d: Doc, e: Doc, name: Name, p: nat, q: nat, v: Walk, w: Walk)
    requires d.table == e.table && d.keccak == e.keccak && name in d.table
    requires StructAt(d, name, p, 0, []) == Some(v) && StructAt(e, name, q, 0, []) == Some(w)
    requires var s := ShownAll(d.keccak, Screen([], false), v.events); var t := ShownAll(d.keccak, Screen([], false), w.events);
      !s.overflow && !t.overflow && |s.fields| == |t.fields|
      && forall i | 0 <= i < |s.fields| :: s.fields[i].value == t.fields[i].value
    ensures v.data == w.data
  {
    hide StructAt, ShownAll, LeafText;
    assert e == Over(d, e.buf);
    StructsAgree(d, e.buf, name, p, q, 0, []);
    NoOverflowShowsAll(d.keccak, v.events);
    NoOverflowShowsAll(d.keccak, w.events);
    forall i | 0 <= i < |v.events|
      ensures v.events[i].Leaf? && w.events[i].Leaf?
      ensures LeafText(d.keccak, v.events[i].abi, v.events[i].item) == LeafText(d.keccak, w.events[i].abi, w.events[i].item)
      ensures LeafText(d.keccak, v.events[i].abi, v.events[i].item).Some?
    {}
    assert SameTexts(d.keccak, v.events, w.events);
  }
}
