/** Sign requests as a host writes them. */
module Eip4527Request {
  import opened Bytes
  import opened Cbor
  import opened Eip4527
  import opened Eip4527Order
  import opened Eip4527Path
  import Io = Eip4527Io

  // A keypath and a sign request in the bytes that EIP-4527 and its schemas prescribe, and
  // that decoding them gives what was written: every component with its flag, the
  // fingerprint and the depth, and every field of the request.

  // ---------------------------------------------------------------- components

  /** A component is its index, or an empty array for the wildcard, and whether it is
      hardened. */
  function WrittenComponent(c: Component): seq<u8>
    requires c.index < TWO_32
  {
    (if c.wildcard then [0x80] else HeadBytes(0, c.index)) + [if c.hardened then 0xF5 else 0xF4]
  }

  predicate ComponentFits(c: Component) { c.index < TWO_32 && (c.wildcard ==> c.index == 0) }

  predicate ComponentsFit(cs: seq<Component>) { forall i | 0 <= i < |cs| :: ComponentFits(cs[i]) }

  function WrittenComponents(cs: seq<Component>): seq<u8>
    requires ComponentsFit(cs)
  {
    if |cs| == 0 then [] else WrittenComponent(cs[0]) + WrittenComponents(cs[1..])
  }

  lemma BoolIsRead(buf: seq<u8>, pos: nat, on: bool)
    requires Stands(buf, pos, [if on then 0xF5 else 0xF4])
    ensures BoolAt(buf, pos) == Ok(on, pos + 1)
  {
    StandsFirst(buf, pos, [if on then 0xF5 else 0xF4]);
  }

  lemma NumberIsRead(buf: seq<u8>, pos: nat, major: nat, n: nat)
    requires major < 7 && n < TWO_32 && Stands(buf, pos, HeadBytes(major, n))
    ensures ArgOf(buf, pos, major) == Ok(n, pos + |HeadBytes(major, n)|)
  {
    Eip4527Order.HeadIsRead(buf, pos, major, n);
    hide HeadBytes, HeadAt;
  }

  lemma HeadOfUint(n: nat)
    requires n < TWO_32
    ensures |HeadBytes(0, n)| > 0 && HeadBytes(0, n)[0] < 32
  {}

  lemma ComponentIsRead(buf: seq<u8>, pos: nat, c: Component)
    requires ComponentFits(c) && Stands(buf, pos, WrittenComponent(c))
    ensures ComponentAt(buf, pos) == Ok(c, pos + |WrittenComponent(c)|)
  {
    var front := if c.wildcard then [0x80] else HeadBytes(0, c.index);
    var flag := [if c.hardened then 0xF5 else 0xF4];
    assert WrittenComponent(c) == front + flag;
    HeadOfUint(c.index);
    StandsSplit(buf, pos, front, flag);
    StandsFirst(buf, pos, front);
    BoolIsRead(buf, pos + |front|, c.hardened);
    if !c.wildcard { NumberIsRead(buf, pos, 0, c.index); }
    hide HeadBytes, ArgOf, BoolAt, Stands, WrittenComponent;
  }

  lemma {:induction false} ComponentsAreRead(buf: seq<u8>, pos: nat, cs: seq<Component>)
    requires ComponentsFit(cs) && Stands(buf, pos, WrittenComponents(cs))
    ensures ComponentsAt(buf, pos, |cs|) == Ok(cs, pos + |WrittenComponents(cs)|)
    decreases |cs|
  {
    hide WrittenComponent, ComponentAt, Stands;
    if |cs| > 0 {
      assert ComponentFits(cs[0]);
      StandsSplit(buf, pos, WrittenComponent(cs[0]), WrittenComponents(cs[1..]));
      ComponentIsRead(buf, pos, cs[0]);
      ComponentsAreRead(buf, pos + |WrittenComponent(cs[0])|, cs[1..]);
      assert cs == [cs[0]] + cs[1..];
    }
  }

  // ------------------------------------------------------------------- keypath

  predicate KeypathFits(kp: Keypath) {
    |kp.components| <= 12 && ComponentsFit(kp.components)
    && (kp.fingerprint.Some? ==> kp.fingerprint.value < TWO_32) && (kp.depth.Some? ==> kp.depth.value < TWO_32)
  }

  /** The three pairs of a keypath: an array of two items a component, and two numbers. */
  function ComponentsPair(kp: Keypath): seq<u8>
    requires KeypathFits(kp)
  {
    HeadBytes(0, 1) + (HeadBytes(4, 2 * |kp.components|) + WrittenComponents(kp.components))
  }

  function NumberPair(key: nat, n: nat): seq<u8>
    requires key < 24 && n < TWO_32
  {
    HeadBytes(0, key) + HeadBytes(0, n)
  }

  function PathParts(kp: Keypath): seq<seq<u8>>
    requires KeypathFits(kp)
  {
    [ComponentsPair(kp)] + (if kp.fingerprint.Some? then [NumberPair(2, kp.fingerprint.value)] else [])
    + (if kp.depth.Some? then [NumberPair(3, kp.depth.value)] else [])
  }

  function WrittenKeypath(kp: Keypath): seq<u8>
    requires KeypathFits(kp)
  {
    HeadBytes(5, |PathParts(kp)|) + Concat(PathParts(kp))
  }

  lemma ArrayIsRead(buf: seq<u8>, pos: nat, cs: seq<Component>)
    requires |cs| <= MAX_COMPONENTS && ComponentsFit(cs)
    requires Stands(buf, pos, HeadBytes(4, 2 * |cs|) + WrittenComponents(cs))
    ensures PathArrayAt(buf, pos) == Ok(cs, pos + |HeadBytes(4, 2 * |cs|)| + |WrittenComponents(cs)|)
  {
    hide *;
    FewComponents();
    var n := 2 * |cs|;
    var a, c := HeadBytes(4, n), WrittenComponents(cs);
    StandsSplit(buf, pos, a, c);
    NumberIsRead(buf, pos, 4, n);
    ComponentsAreRead(buf, pos + |a|, cs);
    ArrayIsReadIf(buf, pos, |cs|, pos + |a|, cs, pos + |a| + |c|);
  }

  lemma FewComponents()
    ensures 2 * MAX_COMPONENTS < TWO_32
  {}

  lemma ArrayIsReadIf(buf: seq<u8>, pos: nat, n: nat, start: nat, cs: seq<Component>, end: nat)
    requires n <= MAX_COMPONENTS && ArgOf(buf, pos, 4) == Ok(2 * n, start) && ComponentsAt(buf, start, n) == Ok(cs, end)
    ensures PathArrayAt(buf, pos) == Ok(cs, end)
  {
    assert 2 * n % 2 == 0 && 2 * n / 2 == n;
    hide ArgOf, ComponentsAt;
  }

  lemma ComponentsPairIs(kp: Keypath, into: Keypath)
    requires KeypathFits(kp)
    ensures var w := ComponentsPair(kp);
      IsPathPair(w) && PathKey(w) == 1 && With(w, into) == into.(components := kp.components)
  {
    hide HeadBytes, ArgOf, PathArrayAt, Stands, WrittenComponents, ComponentsFit;
    var w, h, a := ComponentsPair(kp), HeadBytes(0, 1), HeadBytes(4, 2 * |kp.components|) + WrittenComponents(kp.components);
    assert w == h + a;
    StandsWhole(w);
    StandsSplit(w, 0, h, a);
    NumberIsRead(w, 0, 0, 1);
    ArrayIsRead(w, |h|, kp.components);
  }

  lemma NumberPairIs(key: nat, n: nat, into: Keypath)
    requires (key == 2 || key == 3) && n < TWO_32
    ensures var w := NumberPair(key, n);
      IsPathPair(w) && PathKey(w) == key
      && With(w, into) == if key == 2 then into.(fingerprint := Some(n)) else into.(depth := Some(n))
  {
    var w, h, a := NumberPair(key, n), HeadBytes(0, key), HeadBytes(0, n);
    StandsWhole(w);
    StandsSplit(w, 0, h, a);
    NumberIsRead(w, 0, 0, key);
    NumberIsRead(w, |h|, 0, n);
    hide HeadBytes, ArgOf, Stands;
  }

  /** The pairs of a keypath, put together, are the keypath. */
  lemma PartsMakeTheKeypath(kp: Keypath)
    requires KeypathFits(kp)
    ensures AllPathPairs(PathParts(kp)) && AllPut(PathParts(kp), NO_PATH, {}) == Some(kp)
  {
    hide IsPathPair, PathKey, With, AllPut, AllPathPairs, ComponentsPair, NumberPair, ComponentsFit;
    var first := ComponentsPair(kp);
    var one := NO_PATH.(components := kp.components);
    ComponentsPairIs(kp, NO_PATH);
    var two := if kp.fingerprint.Some? then one.(fingerprint := kp.fingerprint) else one;
    var last := if kp.depth.Some? then [NumberPair(3, kp.depth.value)] else [];
    var some: set<nat> := {1, 2, 3};
    NothingToPut(kp, {1, 3});
    NothingToPut(kp, {1, 2, 3});
    NothingToPut(kp, {1, 2});
    NothingToPut(kp, {1});
    var seen: set<nat> := if kp.fingerprint.Some? then {1, 2} else {1};
    if kp.depth.Some? {
      NumberPairIs(3, kp.depth.value, two);
      assert last == [NumberPair(3, kp.depth.value)] + [];
      PutStep(last, NumberPair(3, kp.depth.value), [], two, seen);
      assert seen + {3} == {1, 2, 3} || seen + {3} == {1, 3};
    }
    assert AllPathPairs(last) && AllPut(last, two, seen) == Some(kp);
    var tail := (if kp.fingerprint.Some? then [NumberPair(2, kp.fingerprint.value)] else []) + last;
    if kp.fingerprint.Some? {
      NumberPairIs(2, kp.fingerprint.value, one);
      PutStep(tail, NumberPair(2, kp.fingerprint.value), last, one, {1});
      assert {1} + {2} == {1, 2};
    } else {
      assert tail == last;
    }
    assert PathParts(kp) == [first] + tail;
    PutStep(PathParts(kp), first, tail, NO_PATH, {});
    assert {} + {1} == {1};
  }

  lemma NothingToPut(kp: Keypath, seen: set<nat>)
    ensures AllPathPairs([]) && AllPut([], kp, seen) == Some(kp)
  {}

  /** Whatever keypath is written, it is read back: every index, flag and wildcard in its
      place, the fingerprint and the depth if any. */
  lemma KeypathReadsBack(kp: Keypath, buf: seq<u8>, pos: nat)
    requires KeypathFits(kp) && Stands(buf, pos, WrittenKeypath(kp))
    ensures KeypathAt(buf, pos) == Ok(kp, pos + |WrittenKeypath(kp)|)
  {
    hide *;
    PartsMakeTheKeypath(kp);
    FewParts(kp);
    HeadOfMap(|PathParts(kp)|);
    KeypathIsPut(HeadBytes(5, |PathParts(kp)|), PathParts(kp), buf, pos);
  }

  lemma FewParts(kp: Keypath)
    requires KeypathFits(kp)
    ensures |PathParts(kp)| < TWO_32 && WrittenKeypath(kp) == HeadBytes(5, |PathParts(kp)|) + Concat(PathParts(kp))
  {
    hide ComponentsPair, NumberPair, HeadBytes, Concat;
  }

  // -------------------------------------------------------------- the request

  /** What a host fills in; a request that names no chain means chain 1. */
  datatype Asked = Asked(
    requestId: Option<seq<u8>>, signData: seq<u8>, dataType: nat, chain: Option<nat>,
    path: Keypath, address: Option<seq<u8>>, origin: Option<seq<u8>>)

  predicate Sensible(q: Asked) {
    && (q.requestId.Some? ==> |q.requestId.value| == 16) && |q.signData| <= 1024 && 1 <= q.dataType <= 4
    && (q.chain.Some? ==> q.chain.value < TWO_32) && KeypathFits(q.path)
    && (q.address.Some? ==> |q.address.value| == 20) && (q.origin.Some? ==> |q.origin.value| <= 64)
  }

  predicate Has(q: Asked, key: nat) {
    match key
    case 1 => q.requestId.Some?
    case 4 => q.chain.Some?
    case 6 => q.address.Some?
    case 7 => q.origin.Some?
    case _ => key == 2 || key == 3 || key == 5
  }

  function WrittenString(major: nat, s: seq<u8>): seq<u8>
    requires major < 8 && |s| < TWO_32
  {
    HeadBytes(major, |s|) + s
  }

  /** The value under a key, as the schema has it. */
  function WrittenValue(q: Asked, key: nat): seq<u8>
    requires Sensible(q) && Has(q, key)
  {
    match key
    case 1 => [0xD8, 37] + WrittenString(2, q.requestId.value)
    case 2 => WrittenString(2, q.signData)
    case 3 => HeadBytes(0, q.dataType)
    case 4 => HeadBytes(0, q.chain.value)
    case 5 => [0xD9, 0x01, 0x30] + WrittenKeypath(q.path)
    case 6 => WrittenString(2, q.address.value)
    case _ => WrittenString(3, q.origin.value)
  }

  /** A pair: the key, then the value. */
  function Row(q: Asked, key: nat): seq<u8>
    requires Sensible(q) && Has(q, key)
  {
    HeadBytes(0, key) + WrittenValue(q, key)
  }

  function FieldFor(q: Asked, key: nat): Field
    requires Has(q, key)
  {
    match key
    case 1 => FBytes(q.requestId.value)
    case 2 => FBytes(q.signData)
    case 3 => FNumber(q.dataType)
    case 4 => FNumber(q.chain.value)
    case 5 => FPath(q.path)
    case 6 => FBytes(q.address.value)
    case _ => FBytes(q.origin.value)
  }

  /** The keys that are written, in ascending order. */
  function KeysFrom(q: Asked, key: nat): (keys: seq<nat>)
    ensures forall i | 0 <= i < |keys| :: key <= keys[i] <= 7 && Has(q, keys[i])
    decreases 8 - key
  {
    if key > 7 then [] else (if Has(q, key) then [key] else []) + KeysFrom(q, key + 1)
  }

  function Rows(q: Asked): (rows: seq<seq<u8>>)
    requires Sensible(q)
    ensures |rows| == |KeysFrom(q, 1)| && forall i | 0 <= i < |rows| :: rows[i] == Row(q, KeysFrom(q, 1)[i])
  {
    var keys := KeysFrom(q, 1);
    seq(|keys|, i requires 0 <= i < |keys| => Row(q, keys[i]))
  }

  function WrittenRequest(q: Asked): seq<u8>
    requires Sensible(q)
  {
    assert |Rows(q)| < TWO_32 by { FewKeys(q, 1); }
    HeadBytes(5, |Rows(q)|) + Concat(Rows(q))
  }

  lemma {:induction false} FewKeys(q: Asked, key: nat)
    requires key <= 8
    ensures |KeysFrom(q, key)| <= 8 - key
    decreases 8 - key
  {
    if key < 8 { FewKeys(q, key + 1); }
  }

  predicate Ascends(keys: seq<nat>) { forall i, j | 0 <= i < j < |keys| :: keys[i] < keys[j] }

  lemma OneInFront(key: nat, rest: seq<nat>)
    requires Ascends(rest) && forall i | 0 <= i < |rest| :: key < rest[i]
    ensures Ascends([key] + rest)
  {}

  lemma {:induction false} KeysAscend(q: Asked, key: nat)
    ensures Ascends(KeysFrom(q, key))
    decreases 8 - key
  {
    hide Has, Ascends;
    if key <= 7 {
      KeysAscend(q, key + 1);
      KeysStep(q, key);
      if Has(q, key) { OneInFront(key, KeysFrom(q, key + 1)); }
    } else {
      NoKeysAscend();
    }
  }

  lemma NoKeysAscend()
    ensures Ascends([])
  {}

  lemma KeysStep(q: Asked, key: nat)
    requires key <= 7
    ensures KeysFrom(q, key) == if Has(q, key) then [key] + KeysFrom(q, key + 1) else KeysFrom(q, key + 1)
  {
    hide Has;
  }

  lemma {:induction false} KeyIsListed(q: Asked, key: nat, k: nat)
    requires key <= k <= 7 && Has(q, k)
    ensures k in KeysFrom(q, key)
    decreases 8 - key
  {
    KeysStep(q, key);
    hide Has, KeysFrom;
    if k > key { KeyIsListed(q, key + 1, k); }
  }

  // ------------------------------------------------------- each row is a pair

  lemma TagIsRead(buf: seq<u8>, pos: nat, tag: nat, b: seq<u8>)
    requires Stands(buf, pos, b) && ((tag == 37 && b == [0xD8, 37]) || (tag == 304 && b == [0xD9, 0x01, 0x30]))
    ensures TagAt(buf, pos, tag) == Ok(tag, pos + |b|)
  {
    TagBytes();
    assert b == HeadBytes(6, tag);
    hide HeadBytes, HeadAt;
    Eip4527Order.HeadIsRead(buf, pos, 6, tag);
  }

  lemma TagBytes()
    ensures HeadBytes(6, 37) == [0xD8, 37] && HeadBytes(6, 304) == [0xD9, 0x01, 0x30]
  {
    assert ToBigEndian(37, 1) == [37];
    assert ToBigEndian(304, 2) == ToBigEndian(1, 1) + [0x30] && ToBigEndian(1, 1) == [1];
  }

  /** A value that is read behind its key. */
  lemma RowIsPairIf(q: Asked, key: nat)
    requires Sensible(q) && Has(q, key) && 1 <= key <= 7
    requires FieldAt(SignRequest, Row(q, key), |HeadBytes(0, key)|, key) == Ok(FieldFor(q, key), |Row(q, key)|)
    ensures IsPair(SignRequest, Row(q, key)) && KeyOf(SignRequest, Row(q, key)) == key
    ensures FieldOf(SignRequest, Row(q, key)) == FieldFor(q, key)
  {
    hide WrittenValue, HeadBytes, ArgOf, FieldAt, FieldFor, Has, Sensible, Stands;
    var w := Row(q, key);
    StandsWhole(w);
    StandsSplit(w, 0, HeadBytes(0, key), WrittenValue(q, key));
    NumberIsRead(w, 0, 0, key);
  }

  lemma ValueStands(q: Asked, key: nat)
    requires Sensible(q) && Has(q, key) && 1 <= key <= 7
    ensures Stands(Row(q, key), |HeadBytes(0, key)|, WrittenValue(q, key))
    ensures |Row(q, key)| == |HeadBytes(0, key)| + |WrittenValue(q, key)|
  {
    hide WrittenValue, HeadBytes, Has, Sensible, Stands;
    StandsWhole(Row(q, key));
    StandsSplit(Row(q, key), 0, HeadBytes(0, key), WrittenValue(q, key));
  }

  lemma IdRow(q: Asked)
    requires Sensible(q) && Has(q, 1)
    ensures FieldAt(SignRequest, Row(q, 1), |HeadBytes(0, 1)|, 1) == Ok(FieldFor(q, 1), |Row(q, 1)|)
  {
    var w, at, id := Row(q, 1), |HeadBytes(0, 1)|, q.requestId.value;
    ValueStands(q, 1);
    hide HeadBytes, TagAt, StringAt, Row, KeypathFits, WrittenKeypath;
    StandsSplit(w, at, [0xD8, 37], WrittenString(2, id));
    TagIsRead(w, at, 37, [0xD8, 37]);
    StringIsRead(w, at + 2, 2, id, 16, 16);
  }

  lemma PathRow(q: Asked)
    requires Sensible(q)
    ensures FieldAt(SignRequest, Row(q, 5), |HeadBytes(0, 5)|, 5) == Ok(FieldFor(q, 5), |Row(q, 5)|)
  {
    var w, at := Row(q, 5), |HeadBytes(0, 5)|;
    ValueStands(q, 5);
    hide HeadBytes, TagAt, KeypathAt, Row, KeypathFits, WrittenKeypath;
    StandsSplit(w, at, [0xD9, 0x01, 0x30], WrittenKeypath(q.path));
    TagIsRead(w, at, 304, [0xD9, 0x01, 0x30]);
    KeypathReadsBack(q.path, w, at + 3);
  }

  lemma StringRow(q: Asked, key: nat)
    requires Sensible(q) && Has(q, key) && (key == 2 || key == 6 || key == 7)
    ensures FieldAt(SignRequest, Row(q, key), |HeadBytes(0, key)|, key) == Ok(FieldFor(q, key), |Row(q, key)|)
  {
    var w, at := Row(q, key), |HeadBytes(0, key)|;
    ValueStands(q, key);
    hide HeadBytes, StringAt, Row, KeypathFits, WrittenKeypath;
    match key
    case 2 => StringIsRead(w, at, 2, q.signData, MAX_SIGN_DATA, 0);
    case 6 => StringIsRead(w, at, 2, q.address.value, 20, 20);
    case _ => StringIsRead(w, at, 3, q.origin.value, MAX_ORIGIN, 0);
  }

  lemma NumberRow(q: Asked, key: nat)
    requires Sensible(q) && Has(q, key) && (key == 3 || key == 4)
    ensures FieldAt(SignRequest, Row(q, key), |HeadBytes(0, key)|, key) == Ok(FieldFor(q, key), |Row(q, key)|)
  {
    var w, at := Row(q, key), |HeadBytes(0, key)|;
    ValueStands(q, key);
    hide HeadBytes, ArgOf, Row, KeypathFits, WrittenKeypath;
    NumberIsRead(w, at, 0, if key == 3 then q.dataType else q.chain.value);
  }

  lemma RowIsPair(q: Asked, key: nat)
    requires Sensible(q) && Has(q, key) && 1 <= key <= 7
    ensures IsPair(SignRequest, Row(q, key)) && KeyOf(SignRequest, Row(q, key)) == key
    ensures FieldOf(SignRequest, Row(q, key)) == FieldFor(q, key)
  {
    hide FieldAt, Row, FieldFor, Sensible, HeadBytes, IsPair, KeyOf, FieldOf;
    if key == 1 { IdRow(q); } else if key == 5 { PathRow(q); } else if key == 3 || key == 4 { NumberRow(q, key); } else { StringRow(q, key); }
    RowIsPairIf(q, key);
  }

  // ------------------------------------------------------------ the whole request

  /** The table of what was asked. */
  function FieldsOf(q: Asked): (f: Fields) {
    map k: nat | k in {1, 2, 3, 4, 5, 6, 7} && Has(q, k) :: FieldFor(q, k)
  }

  lemma RowsAreTheTable(q: Asked)
    requires Sensible(q)
    ensures AllPairs(SignRequest, Rows(q)) && Eip4527Order.DistinctKeys(SignRequest, Rows(q))
    ensures Merged(SignRequest, Rows(q), map[]) == FieldsOf(q)
  {
    hide Row, FieldFor, Sensible, IsPair, KeyOf, FieldOf, Merged, KeysFrom;
    var rows, keys := Rows(q), KeysFrom(q, 1);
    KeysAscend(q, 1);
    forall i | 0 <= i < |rows|
      ensures IsPair(SignRequest, rows[i]) && KeyOf(SignRequest, rows[i]) == keys[i] && FieldOf(SignRequest, rows[i]) == FieldFor(q, keys[i])
    {
      RowIsPair(q, keys[i]);
    }
    var m, f := Merged(SignRequest, rows, map[]), FieldsOf(q);
    forall k | k in m ensures k in f { MergedHoldsNoMore(SignRequest, rows, map[], k); }
    forall k | k in f ensures k in m && m[k] == f[k] {
      KeyIsListed(q, 1, k);
      var i: nat :| i < |keys| && keys[i] == k;
      MergedHolds(SignRequest, rows, map[], i);
    }
  }

  /** Whatever request is written, decoding gives it: its id, data, type, chain, keypath,
      address and origin, and chain 1 when none was named. */
  lemma RequestReadsBack(q: Asked)
    requires Sensible(q)
    ensures var r := Decode(SignRequest, WrittenRequest(q));
      r.Ok? && Io.RequestOf(r.value) == Io.Request(
        q.requestId, q.signData, q.dataType, if q.chain.Some? then q.chain.value else 1, q.path, q.address, q.origin)
  {
    hide *;
    var rows := Rows(q);
    FewKeys(q, 1);
    RowsCount(q);
    HeadOfMap(|rows|);
    RowsAreTheTable(q);
    DocumentDecodes(SignRequest, HeadBytes(5, |rows|), rows);
    TableIsTheRequest(q);
  }

  lemma RowsCount(q: Asked)
    requires Sensible(q)
    ensures |Rows(q)| == |KeysFrom(q, 1)| <= 7 < TWO_32 && WrittenRequest(q) == HeadBytes(5, |Rows(q)|) + Concat(Rows(q))
  {
    FewKeys(q, 1);
    hide HeadBytes, Concat, Rows;
  }

  lemma TableIsTheRequest(q: Asked)
    requires Sensible(q)
    ensures var f := FieldsOf(q);
      SignRequest.Required() <= f.Keys
      && Io.RequestOf(if 4 !in f then f[4 := FNumber(1)] else f) == Io.Request(
        q.requestId, q.signData, q.dataType, if q.chain.Some? then q.chain.value else 1, q.path, q.address, q.origin)
  {
    hide KeypathFits;
  }

  // ------------------------------------------------------ nothing else is taken

  lemma ReadComponentFits(buf: seq<u8>, pos: nat)
    ensures ComponentAt(buf, pos).Ok? ==> ComponentFits(ComponentAt(buf, pos).value)
  {
    hide HeadAt;
  }

  lemma {:induction false} ReadComponentsFit(buf: seq<u8>, pos: nat, n: nat)
    ensures ComponentsAt(buf, pos, n).Ok? ==> ComponentsFit(ComponentsAt(buf, pos, n).value)
    decreases n
  {
    hide ComponentAt, ComponentFits;
    if n > 0 {
      ReadComponentFits(buf, pos);
      if ComponentAt(buf, pos).Ok? { ReadComponentsFit(buf, ComponentAt(buf, pos).end, n - 1); }
    }
  }

  lemma ReadPathFieldFits(buf: seq<u8>, pos: nat, key: nat, kp: Keypath)
    requires 1 <= key <= 3 && KeypathFits(kp) && PathFieldAt(buf, pos, key, kp).Ok?
    ensures KeypathFits(PathFieldAt(buf, pos, key, kp).value)
  {
    hide ComponentsFit, ComponentsAt, HeadAt;
    if key == 1 {
      var n := ArgOf(buf, pos, 4);
      ReadComponentsFit(buf, n.end, n.value / 2);
    }
  }

  lemma {:induction false} ReadPathFits(buf: seq<u8>, pos: nat, n: nat, kp: Keypath, seen: set<nat>)
    requires KeypathFits(kp) && PathPairs(buf, pos, n, kp, seen).Ok?
    ensures KeypathFits(PathPairs(buf, pos, n, kp, seen).value)
    decreases n
  {
    hide KeypathFits, PathFieldAt, ArgOf;
    if n > 0 {
      var key := ArgOf(buf, pos, 0);
      ReadPathFieldFits(buf, key.end, key.value, kp);
      var next := PathFieldAt(buf, key.end, key.value, kp);
      ReadPathFits(buf, next.end, n - 1, next.value, seen + {key.value});
    }
  }

  /** What may stand under a key of a sign request. */
  predicate Allowed(key: nat, f: Field) {
    match key
    case 1 => f.FBytes? && |f.bytes| == 16
    case 2 => f.FBytes? && |f.bytes| <= 1024
    case 3 => f.FNumber? && 1 <= f.n <= 4
    case 4 => f.FNumber? && f.n < TWO_32
    case 5 => f.FPath? && KeypathFits(f.path)
    case 6 => f.FBytes? && |f.bytes| == 20
    case 7 => f.FBytes? && |f.bytes| <= 64
    case _ => false
  }

  lemma NoPathYet()
    ensures KeypathFits(Keypath([], None, None))
  {}

  lemma ReadFieldIsAllowed(buf: seq<u8>, pos: nat, key: nat)
    requires 1 <= key <= 7 && FieldAt(SignRequest, buf, pos, key).Ok?
    ensures Allowed(key, FieldAt(SignRequest, buf, pos, key).value)
  {
    hide HeadAt, PathPairs, KeypathFits;
    if key == 5 {
      var start := TagAt(buf, pos, TAG_KEYPATH).end;
      var head := ArgOf(buf, start, 5);
      NoPathYet();
      ReadPathFits(buf, head.end, head.value, Keypath([], None, None), {});
    }
  }

  ghost predicate AllAllowed(fields: Fields) { forall key | key in fields :: Allowed(key, fields[key]) }

  lemma {:induction false} ReadFieldsAreAllowed(buf: seq<u8>, pos: nat, n: nat, fields: Fields)
    requires AllAllowed(fields) && PairsFrom(SignRequest, buf, pos, n, fields).Ok?
    ensures AllAllowed(PairsFrom(SignRequest, buf, pos, n, fields).value)
    decreases n
  {
    hide FieldAt, ArgOf, Allowed;
    if n > 0 {
      var key := ArgOf(buf, pos, 0);
      ReadFieldIsAllowed(buf, key.end, key.value);
      var f := FieldAt(SignRequest, buf, key.end, key.value);
      ReadFieldsAreAllowed(buf, f.end, n - 1, fields[key.value := f.value]);
    }
  }

  /** Every request that is accepted could have been written so: all of its fields are in
      their bounds, nothing stands behind it, and data, type and keypath are there. */
  lemma AcceptedIsSensible(buf: seq<u8>)
    requires Decode(SignRequest, buf).Ok?
    ensures var r := Decode(SignRequest, buf); var q := Io.RequestOf(r.value);
      r.end == |buf| && 2 in r.value && 3 in r.value && 5 in r.value && 4 in r.value
      && Sensible(Asked(q.requestId, q.signData, q.dataType, Some(q.chainId), q.path, q.address, q.origin))
  {
    var head := ArgOf(buf, 0, 5);
    assert AllAllowed(map[]);
    hide ArgOf, PairsFrom, Allowed;
    ReadFieldsAreAllowed(buf, head.end, head.value, map[]);
    var fields := Decode(SignRequest, buf).value;
    OneIsAllowed();
    assert AllAllowed(fields);
    hide Decode;
    AllowedIsSensible(fields);
  }

  lemma OneIsAllowed()
    ensures Allowed(4, FNumber(1))
  {}

  lemma AllowedIsSensible(fields: Fields)
    requires AllAllowed(fields) && 2 in fields && 3 in fields && 4 in fields && 5 in fields
    ensures var q := Io.RequestOf(fields);
      Sensible(Asked(q.requestId, q.signData, q.dataType, Some(q.chainId), q.path, q.address, q.origin))
  {
    assert 1 in fields ==> Allowed(1, fields[1]);
    assert 6 in fields ==> Allowed(6, fields[6]);
    assert 7 in fields ==> Allowed(7, fields[7]);
    hide KeypathFits;
  }
}
