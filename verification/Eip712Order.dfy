/** The order in which a host lists the keys of its maps does not matter: two
    well-formed documents that differ in nothing else are prepared alike. */
module Eip712Order {
  import opened Bytes
  import opened Cbor
  import opened Eip712
  import opened Eip712Types
  import opened Eip712Walk

  /** No map repeats a key. */
  predicate NoRepeats(v: Value) {
    match v
    case VArray(items) => forall i | 0 <= i < |items| :: NoRepeats(items[i])
    case VMap(pairs) => DistinctKeys(pairs) && forall i | 0 <= i < |pairs| :: NoRepeats(pairs[i].value)
    case _ => true
  }

  /** Writable, without repeated keys, and nested within what can be skipped. */
  predicate WellFormed(v: Value) { Fits(v) && NoRepeats(v) && Height(v) <= MAX_DEPTH + 1 }

  /** The first pair with a key, or the number of pairs. */
  function IndexOf(pairs: seq<Pair>, key: seq<u8>): (i: nat)
    ensures i <= |pairs| && (i < |pairs| ==> pairs[i].key == key)
    ensures forall k | 0 <= k < i :: pairs[k].key != key
  {
    if |pairs| == 0 then 0
    else if pairs[0].key == key then 0
    else
      var i := IndexOf(pairs[1..], key);
      assert forall k | 0 < k < i + 1 :: pairs[k] == pairs[1..][k - 1];
      i + 1
  }

  /** Equal but for the order of map keys, at any depth. */
  ghost predicate Same(v: Value, w: Value)
    decreases v
  {
    match v
    case VArray(items) =>
      w.VArray? && |items| == |w.items| && forall i | 0 <= i < |items| :: Same(items[i], w.items[i])
    case VMap(pairs) =>
      w.VMap? && |pairs| == |w.pairs|
      && (forall j | 0 <= j < |w.pairs| :: IndexOf(pairs, w.pairs[j].key) < |pairs|)
      && (forall i | 0 <= i < |pairs| ::
            IndexOf(w.pairs, pairs[i].key) < |pairs| && Same(pairs[i].value, w.pairs[IndexOf(w.pairs, pairs[i].key)].value))
    case _ => v == w
  }

  ghost predicate SamePair(x: Pair, y: Pair) { x.key == y.key && Same(x.value, y.value) }

  lemma DistinctIndex(pairs: seq<Pair>, i: nat)
    requires DistinctKeys(pairs) && i < |pairs|
    ensures IndexOf(pairs, pairs[i].key) == i
  {}

  lemma {:induction false} SameAsItself(v: Value)
    requires NoRepeats(v)
    ensures Same(v, v)
  {
    match v
    case VArray(items) => forall i | 0 <= i < |items| ensures Same(items[i], items[i]) { SameAsItself(items[i]); }
    case VMap(pairs) =>
      forall i | 0 <= i < |pairs| ensures Same(pairs[i].value, pairs[i].value) && IndexOf(pairs, pairs[i].key) == i {
        SameAsItself(pairs[i].value);
        DistinctIndex(pairs, i);
      }
    case _ =>
  }

  lemma FoundIn(x: Pair, q: seq<Pair>)
    requires x in q && DistinctKeys(q)
    ensures IndexOf(q, x.key) < |q| && q[IndexOf(q, x.key)] == x
  {
    var j :| 0 <= j < |q| && q[j] == x;
    DistinctIndex(q, j);
  }

  lemma ShuffledMembers(p: seq<Pair>, q: seq<Pair>)
    requires multiset(p) == multiset(q)
    ensures |p| == |q| && forall x :: x in p <==> x in q
  {
    assert |p| == |multiset(p)| == |multiset(q)| == |q|;
    forall x ensures x in p <==> x in q { assert x in multiset(p) <==> x in multiset(q); }
  }

  /** Any other order of a map's pairs. */
  lemma ShuffledIsSame(p: seq<Pair>, q: seq<Pair>)
    requires multiset(p) == multiset(q) && NoRepeats(VMap(p)) && DistinctKeys(q)
    ensures Same(VMap(p), VMap(q))
  {
    hide IndexOf;
    ShuffledMembers(p, q);
    forall j | 0 <= j < |q| ensures IndexOf(p, q[j].key) < |p| { FoundIn(q[j], p); }
    forall i | 0 <= i < |p|
      ensures IndexOf(q, p[i].key) < |q| && Same(p[i].value, q[IndexOf(q, p[i].key)].value)
    {
      FoundIn(p[i], q);
      SameAsItself(p[i].value);
    }
  }

  lemma Partner(p: seq<Pair>, q: seq<Pair>, i: nat) returns (j: nat)
    requires Same(VMap(p), VMap(q)) && i < |p|
    ensures j < |q| && SamePair(p[i], q[j])
  {
    j := IndexOf(q, p[i].key);
  }

  lemma PartnerBack(p: seq<Pair>, q: seq<Pair>, j: nat) returns (i: nat)
    requires Same(VMap(p), VMap(q)) && j < |q| && DistinctKeys(q)
    ensures i < |p| && SamePair(p[i], q[j])
  {
    hide IndexOf;
    i := IndexOf(p, q[j].key);
    DistinctIndex(q, j);
  }

  lemma SameHeads(v: Value, w: Value)
    requires Same(v, w)
    ensures HeadItem(v) == HeadItem(w)
  {}

  // ------------------------------------------------------------------ lookups

  /** A well-formed value stands at a place. */
  ghost predicate At(buf: seq<u8>, pos: nat, v: Value) { WellFormed(v) && Stands(buf, pos, Encode(v)) }

  lemma {:induction false} PairsAreWellFormed(pairs: seq<Pair>, i: nat)
    requires i < |pairs| && PairsFit(pairs)
    ensures |pairs[i].key| < TWO_32 && Fits(pairs[i].value) && 1 + Height(pairs[i].value) <= HeightOfPairs(pairs)
  {
    if i > 0 { PairsAreWellFormed(pairs[1..], i - 1); }
  }

  lemma {:induction false} ItemsAreWellFormed(items: seq<Value>, i: nat)
    requires i < |items| && AllFit(items)
    ensures Fits(items[i]) && 1 + Height(items[i]) <= HeightOfAll(items)
  {
    if i > 0 { ItemsAreWellFormed(items[1..], i - 1); }
  }

  /** One position in each of two documents, holding the same value or none. */
  ghost predicate SameSpot(a: seq<u8>, b: seq<u8>, p: Option<nat>, q: Option<nat>, v: Option<Value>, w: Option<Value>) {
    && (p.Some? <==> v.Some?) && (q.Some? <==> w.Some?) && (v.Some? <==> w.Some?)
    && (v.Some? ==> At(a, p.value, v.value) && At(b, q.value, w.value) && Same(v.value, w.value))
  }

  lemma FoundIsWellFormed(pairs: seq<Pair>, key: seq<u8>)
    requires WellFormed(VMap(pairs)) && FirstUnder(pairs, key, 0).Some?
    ensures WellFormed(FirstUnder(pairs, key, 0).value)
    ensures exists i | 0 <= i < |pairs| :: pairs[i].key == key && pairs[i].value == FirstUnder(pairs, key, 0).value
  {
    hide FirstUnder, Fits;
    assert PairsFit(pairs) by { FitsInside(pairs); }
    LookupIsMembership(pairs, key, 0);
    var i :| 0 <= i < |pairs| && pairs[i] == Pair(key, FirstUnder(pairs, key, 0).value);
    PairsAreWellFormed(pairs, i);
  }

  lemma FitsInside(pairs: seq<Pair>)
    requires Fits(VMap(pairs))
    ensures PairsFit(pairs) && |pairs| < TWO_32
  {}

  lemma HalfSame(p: seq<Pair>, q: seq<Pair>, key: seq<u8>)
    requires WellFormed(VMap(p)) && WellFormed(VMap(q)) && Same(VMap(p), VMap(q)) && FirstUnder(p, key, 0).Some?
    ensures FirstUnder(q, key, 0).Some? && Same(FirstUnder(p, key, 0).value, FirstUnder(q, key, 0).value)
  {
    hide FirstUnder, Fits, Same;
    FoundIsWellFormed(p, key);
    var i :| 0 <= i < |p| && p[i].key == key && p[i].value == FirstUnder(p, key, 0).value;
    var j := Partner(p, q, i);
    LookupIsMembership(q, key, 0);
    assert q[j] in q;
  }

  lemma OtherHalfSame(p: seq<Pair>, q: seq<Pair>, key: seq<u8>)
    requires WellFormed(VMap(p)) && WellFormed(VMap(q)) && Same(VMap(p), VMap(q)) && FirstUnder(q, key, 0).Some?
    ensures FirstUnder(p, key, 0).Some?
  {
    hide FirstUnder, Fits, Same;
    FoundIsWellFormed(q, key);
    var j :| 0 <= j < |q| && q[j].key == key && q[j].value == FirstUnder(q, key, 0).value;
    var i := PartnerBack(p, q, j);
    LookupIsMembership(p, key, 0);
    assert p[i] in p;
  }

  /** The same key leads to the same value in both documents. */
  lemma LookupsAgree(a: seq<u8>, b: seq<u8>, p: nat, q: nat, v: Value, w: Value, key: seq<u8>) returns (x: Option<Value>, y: Option<Value>)
    requires At(a, p, v) && At(b, q, w) && Same(v, w)
    ensures SameSpot(a, b, MapAt(a, p, key, 0), MapAt(b, q, key, 0), x, y)
  {
    hide MapAt, Encode, Stands, FirstUnder, Fits, Height, NoRepeats, Same;
    SameKinds(v, w);
    if v.VMap? {
      FitsInside(v.pairs);
      FitsInside(w.pairs);
      MapReadsBack(a, p, v.pairs, key, 0);
      MapReadsBack(b, q, w.pairs, key, 0);
      x, y := FirstUnder(v.pairs, key, 0), FirstUnder(w.pairs, key, 0);
      if x.Some? {
        HalfSame(v.pairs, w.pairs, key);
        FoundIsWellFormed(v.pairs, key);
        FoundIsWellFormed(w.pairs, key);
      } else if y.Some? {
        OtherHalfSame(v.pairs, w.pairs, key);
      }
    } else {
      NotAMap(a, p, v, key);
      NotAMap(b, q, w, key);
      x, y := None, None;
    }
  }

  lemma SameKinds(v: Value, w: Value)
    requires Same(v, w)
    ensures v.VMap? <==> w.VMap?
  {}

  lemma NotAMap(buf: seq<u8>, pos: nat, v: Value, key: seq<u8>)
    requires At(buf, pos, v) && !v.VMap?
    ensures MapAt(buf, pos, key, 0) == None
  {
    hide ItemAt, Encode, Stands, Fits, NoRepeats, Height;
    ItemReadsBack(buf, pos, v);
  }

  /** The items at two such places are one and the same. */
  lemma ItemsAgree(a: seq<u8>, b: seq<u8>, p: nat, q: nat, v: Value, w: Value)
    requires At(a, p, v) && At(b, q, w) && Same(v, w)
    ensures ItemAt(a, p).Some? && ItemAt(b, q).Some?
    ensures ItemAt(a, p).value.value == ItemAt(b, q).value.value == HeadItem(v)
  {
    hide ItemAt, Encode, Stands, Fits, NoRepeats, Height, HeadItem, Same;
    ItemReadsBack(a, p, v);
    ItemReadsBack(b, q, w);
    SameHeads(v, w);
  }

  lemma TextsAgree(a: seq<u8>, b: seq<u8>, p: nat, q: nat, v: Value, w: Value, key: seq<u8>)
    requires At(a, p, v) && At(b, q, w) && Same(v, w)
    ensures TextUnder(a, p, key) == TextUnder(b, q, key)
    ensures ItemUnder(a, p, key) == ItemUnder(b, q, key)
  {
    hide MapAt, ItemAt, At, Same, HeadItem;
    var x, y := LookupsAgree(a, b, p, q, v, w, key);
    if x.Some? {
      ItemsAgree(a, b, MapAt(a, p, key, 0).value, MapAt(b, q, key, 0).value, x.value, y.value);
    }
  }

  // ------------------------------------------------------------ the traversal

  lemma {:induction false} StructsSame(d: Doc, other: seq<u8>, name: Name, p: nat, q: nat, depth: nat, prefix: seq<u8>,
                                       v: Value, w: Value)
    requires name in d.table && At(d.buf, p, v) && At(other, q, w) && Same(v, w)
    ensures StructAt(d, name, p, depth, prefix) == StructAt(Over(d, other), name, q, depth, prefix)
    decreases if depth <= EIP712_MAX_DEPTH then EIP712_MAX_DEPTH + 1 - depth else 0, |d.table[name]| + 2
  {
    hide EncodeType, FieldsAt, At, Same;
    if depth <= EIP712_MAX_DEPTH {
      FieldsSame(d, other, name, |d.table[name]|, p, q, depth, prefix, v, w);
    }
  }

  lemma {:induction false} FieldsSame(d: Doc, other: seq<u8>, name: Name, n: nat, p: nat, q: nat, depth: nat, prefix: seq<u8>,
                                      v: Value, w: Value)
    requires name in d.table && n <= |d.table[name]| && depth <= EIP712_MAX_DEPTH
    requires At(d.buf, p, v) && At(other, q, w) && Same(v, w)
    ensures FieldsAt(d, name, n, p, depth, prefix) == FieldsAt(Over(d, other), name, n, q, depth, prefix)
    decreases EIP712_MAX_DEPTH + 1 - depth, n + 1
  {
    hide FieldAt, At, Same, Join;
    if n > 0 {
      FieldsSame(d, other, name, n - 1, p, q, depth, prefix, v, w);
      var field := d.table[name][n - 1];
      if field.Some? {
        FieldSame(d, other, field.value, p, q, depth, prefix, v, w);
      }
    }
  }

  lemma {:induction false} FieldSame(d: Doc, other: seq<u8>, field: FieldDef, p: nat, q: nat, depth: nat, prefix: seq<u8>,
                                     v: Value, w: Value)
    requires depth <= EIP712_MAX_DEPTH && At(d.buf, p, v) && At(other, q, w) && Same(v, w)
    ensures FieldAt(d, field, p, depth, prefix) == FieldAt(Over(d, other), field, q, depth, prefix)
    decreases EIP712_MAX_DEPTH + 1 - depth, 0, 1
  {
    hide MapAt, ValueAs, At, Same, Classify;
    var x, y := LookupsAgree(d.buf, other, p, q, v, w, field.name);
    if x.Some? {
      ValueSame(d, other, Classify(d.table, field.kind), field.name, MapAt(d.buf, p, field.name, 0).value,
                MapAt(other, q, field.name, 0).value, depth, prefix, x.value, y.value);
    }
  }

  lemma {:induction false} ValueSame(d: Doc, other: seq<u8>, abi: AbiType, name: Name, p: nat, q: nat, depth: nat, prefix: seq<u8>,
                                     v: Value, w: Value)
    requires depth <= EIP712_MAX_DEPTH && (abi.AbiStruct? ==> abi.name in d.table)
    requires At(d.buf, p, v) && At(other, q, w) && Same(v, w)
    ensures ValueAs(d, abi, name, p, depth, prefix) == ValueAs(Over(d, other), abi, name, q, depth, prefix)
    decreases EIP712_MAX_DEPTH + 1 - depth, 0, 0
  {
    hide ItemAt, At, Same, StructAt, LeafWalk, Label, HeadItem;
    ItemsAgree(d.buf, other, p, q, v, w);
    if abi.AbiStruct? && depth + 1 <= EIP712_MAX_DEPTH {
      StructsSame(d, other, abi.name, p, q, depth + 1, NestedPrefix(Label(prefix, name)), v, w);
    }
  }

  // ----------------------------------------------------------- the type table

  /** The pairs can be read as definitions. */
  predicate Definable(pairs: seq<Pair>, have: nat) {
    |pairs| == 0 || (Takes(pairs[0], have) && Definable(pairs[1..], have + 1))
  }

  /** Whether they can does not depend on their order. */
  lemma {:induction false} DefinableInAnyOrder(pairs: seq<Pair>, have: nat)
    ensures Definable(pairs, have) <==> (
      (|pairs| == 0 || have + |pairs| <= EIP712_MAX_TYPES)
      && forall i | 0 <= i < |pairs| :: pairs[i].value.VArray? && |pairs[i].value.items| <= EIP712_MAX_FIELDS)
  {
    if |pairs| > 0 {
      DefinableInAnyOrder(pairs[1..], have + 1);
      assert forall i | 0 < i < |pairs| :: pairs[i] == pairs[1..][i - 1];
    }
  }

  /** A definition records the pair it was read from. */
  ghost predicate Records(buf: seq<u8>, def: TypeDef, pair: Pair) {
    && def.name == pair.key && pair.value.VArray? && WellFormed(pair.value)
    && def.fieldCount == |pair.value.items| && Stands(buf, def.fieldsPos, EncodeItems(pair.value))
  }

  ghost function EncodeItems(v: Value): seq<u8> {
    if v.VArray? && Fits(v) then EncodeAll(v.items) else []
  }

  ghost predicate AllRecorded(buf: seq<u8>, defs: seq<TypeDef>, pairs: seq<Pair>) {
    |defs| == |pairs| && forall i | 0 <= i < |pairs| :: Records(buf, defs[i], pairs[i])
  }

  ghost predicate AllWellFormed(pairs: seq<Pair>) {
    PairsFit(pairs) && forall i | 0 <= i < |pairs| :: WellFormed(pairs[i].value) && Height(pairs[i].value) <= MAX_DEPTH
  }

  lemma {:induction false} DefinitionsRead(buf: seq<u8>, pos: nat, pairs: seq<Pair>, have: nat)
    requires AllWellFormed(pairs) && Stands(buf, pos, EncodePairs(pairs))
    ensures TypesFrom(buf, pos, |pairs|, have).Some? <==> Definable(pairs, have)
    ensures Definable(pairs, have) ==> AllRecorded(buf, TypesFrom(buf, pos, |pairs|, have).value, pairs)
    decreases |pairs|
  {
    hide *;
    if |pairs| == 0 {
      NoDefinitions(buf, pos, pairs, have);
    } else {
      FirstIsWellFormed(pairs);
      FitsAll(pairs);
      FirstDefinition(buf, pos, pairs);
      if Takes(pairs[0], have) {
        var next := pos + |EncodeText(pairs[0].key)| + |Encode(pairs[0].value)|;
        DefinitionsRead(buf, next, pairs[1..], have + 1);
        DefinitionsStep(buf, pos, pairs, have, next);
      } else {
        NoDefinition(buf, pos, pairs, have);
      }
    }
  }

  lemma NoDefinitions(buf: seq<u8>, pos: nat, pairs: seq<Pair>, have: nat)
    requires |pairs| == 0
    ensures TypesFrom(buf, pos, 0, have) == Some([]) && Definable(pairs, have) && AllRecorded(buf, [], pairs)
  {}

  lemma FirstIsWellFormed(pairs: seq<Pair>)
    requires AllWellFormed(pairs) && |pairs| > 0
    ensures |pairs[0].key| < TWO_32 && Fits(pairs[0].value) && WellFormed(pairs[0].value)
    ensures Height(pairs[0].value) <= MAX_DEPTH && AllWellFormed(pairs[1..])
  {
    hide WellFormed, Height;
    assert forall i | 0 <= i < |pairs[1..]| :: pairs[1..][i] == pairs[i + 1];
    WellFormedFits(pairs[0].value);
  }

  /** The key and the value of the first definition, as they are read. */
  lemma FirstDefinition(buf: seq<u8>, pos: nat, pairs: seq<Pair>)
    requires |pairs| > 0 && PairsFit(pairs) && Stands(buf, pos, EncodePairs(pairs))
    ensures |pairs[0].key| < TWO_32 && Fits(pairs[0].value) && PairsFit(pairs[1..])
    ensures var at := pos + |EncodeText(pairs[0].key)|; var v := pairs[0].value;
      Finds(ItemAt(buf, pos), Item(Text, |pairs[0].key|, pairs[0].key), at)
      && ItemAt(buf, at).Some? && ItemAt(buf, at).value.value == HeadItem(v)
      && Stands(buf, at, Encode(v)) && Stands(buf, at + |Encode(v)|, EncodePairs(pairs[1..]))
      && (v.VArray? ==> Stands(buf, ItemAt(buf, at).value.end, Body(v)))
  {
    hide Encode, ItemAt, Stands, EncodeText, HeadItem;
    var text, v := EncodeText(pairs[0].key), pairs[0].value;
    StandsSplit(buf, pos, text, Encode(v) + EncodePairs(pairs[1..]));
    StandsSplit(buf, pos + |text|, Encode(v), EncodePairs(pairs[1..]));
    TextReadsBack(buf, pos, pairs[0].key);
    ItemReadsBack(buf, pos + |text|, v);
  }

  lemma FitsAll(pairs: seq<Pair>)
    requires AllWellFormed(pairs)
    ensures PairsFit(pairs)
  {}

  predicate Takes(pair: Pair, have: nat) {
    pair.value.VArray? && |pair.value.items| <= EIP712_MAX_FIELDS && have < EIP712_MAX_TYPES
  }

  lemma NoDefinition(buf: seq<u8>, pos: nat, pairs: seq<Pair>, have: nat)
    requires |pairs| > 0 && AllWellFormed(pairs) && Stands(buf, pos, EncodePairs(pairs)) && !Takes(pairs[0], have)
    ensures TypesFrom(buf, pos, |pairs|, have).None? && !Definable(pairs, have)
  {
    hide WellFormed, Height, Encode, EncodeText, EncodePairs, ItemAt, Stands, EndOfAll, PairsFit;
    FitsAll(pairs);
    FirstDefinition(buf, pos, pairs);
  }

  lemma DefinitionsStep(buf: seq<u8>, pos: nat, pairs: seq<Pair>, have: nat, next: nat)
    requires |pairs| > 0 && AllWellFormed(pairs) && Stands(buf, pos, EncodePairs(pairs)) && Takes(pairs[0], have)
    requires |pairs[0].key| < TWO_32 && Fits(pairs[0].value)
    requires next == pos + |EncodeText(pairs[0].key)| + |Encode(pairs[0].value)|
    requires TypesFrom(buf, next, |pairs| - 1, have + 1).Some? <==> Definable(pairs[1..], have + 1)
    requires Definable(pairs[1..], have + 1) ==>
      AllRecorded(buf, TypesFrom(buf, next, |pairs| - 1, have + 1).value, pairs[1..])
    ensures TypesFrom(buf, pos, |pairs|, have).Some? <==> Definable(pairs, have)
    ensures Definable(pairs, have) ==> AllRecorded(buf, TypesFrom(buf, pos, |pairs|, have).value, pairs)
  {
    hide WellFormed, Height, Encode, EncodeText, EncodePairs, ItemAt, Stands, EndOfAll, AllWellFormed, Records, Fits, Body,
         AllRecorded, Definable;
    var at, v := pos + |EncodeText(pairs[0].key)|, pairs[0].value;
    FirstIsWellFormed(pairs);
    FitsAll(pairs);
    FirstDefinition(buf, pos, pairs);
    ArraySkipped(buf, at, v);
    DefinableStep(pairs, have);
    DefinitionRecords(buf, ItemAt(buf, at).value.end, pairs[0]);
    if Definable(pairs, have) {
      RecordedStep(buf, TypeDef(pairs[0].key, ItemAt(buf, at).value.end, |v.items|),
                   TypesFrom(buf, next, |pairs| - 1, have + 1).value, pairs);
    }
  }

  lemma DefinableStep(pairs: seq<Pair>, have: nat)
    requires |pairs| > 0
    ensures Definable(pairs, have) <==> Takes(pairs[0], have) && Definable(pairs[1..], have + 1)
  {}

  lemma RecordedStep(buf: seq<u8>, def: TypeDef, rest: seq<TypeDef>, pairs: seq<Pair>)
    requires |pairs| > 0 && Records(buf, def, pairs[0]) && AllRecorded(buf, rest, pairs[1..])
    ensures AllRecorded(buf, [def] + rest, pairs)
  {
    hide Records;
    assert pairs == [pairs[0]] + pairs[1..];
  }

  lemma WellFormedFits(v: Value)
    requires WellFormed(v)
    ensures Fits(v)
  {}

  lemma DefinitionRecords(buf: seq<u8>, at: nat, pair: Pair)
    requires pair.value.VArray? && WellFormed(pair.value) && Fits(pair.value) && Stands(buf, at, Body(pair.value))
    ensures Records(buf, TypeDef(pair.key, at, |pair.value.items|), pair)
  {
    hide Stands, WellFormed;
  }

  /** Stepping over the field maps of a definition ends where the definition ends. */
  lemma ArraySkipped(buf: seq<u8>, pos: nat, v: Value)
    requires v.VArray? && Fits(v) && Stands(buf, pos, Encode(v)) && Height(v) <= MAX_DEPTH
    ensures ItemAt(buf, pos).Some? && ItemAt(buf, pos).value.end <= |buf|
    ensures EndOfAll(buf, ItemAt(buf, pos).value.end, 0, |v.items|) == Some(pos + |Encode(v)|)
  {
    hide Encode, ItemAt, EndOfAll, Stands, EncodeAll;
    ItemReadsBack(buf, pos, v);
    assert Height(v) == HeightOfAll(v.items) && AllFit(v.items) && Body(v) == EncodeAll(v.items);
    SkipConsumesAll(buf, ItemAt(buf, pos).value.end, v.items, 0);
  }

  /** The k-th field map of a definition stands where the walk over those before it ends. */
  lemma {:induction false} FieldMapStands(buf: seq<u8>, pos: nat, items: seq<Value>, k: nat)
    requires AllFit(items) && k < |items| && HeightOfAll(items) <= MAX_DEPTH + 1 && Stands(buf, pos, EncodeAll(items))
    ensures pos <= |buf| && EndOfAll(buf, pos, 0, k).Some?
    ensures Fits(items[k]) && Stands(buf, EndOfAll(buf, pos, 0, k).value, Encode(items[k]))
    decreases items
  {
    hide Encode, EndOf, Stands, Height;
    StandsSplit(buf, pos, Encode(items[0]), EncodeAll(items[1..]));
    StandsRange(buf, pos, EncodeAll(items));
    if k > 0 {
      SkipConsumesTheValue(buf, pos, items[0], 0);
      FieldMapStands(buf, pos + |Encode(items[0])|, items[1..], k - 1);
    }
  }

  lemma FieldAtPlace(buf: seq<u8>, def: TypeDef, pair: Pair, k: nat)
    requires Records(buf, def, pair) && k < def.fieldCount
    ensures def.fieldsPos <= |buf| && EndOfAll(buf, def.fieldsPos, 0, k).Some?
    ensures At(buf, EndOfAll(buf, def.fieldsPos, 0, k).value, pair.value.items[k])
  {
    hide Stands, EndOfAll, Encode, EncodeAll;
    var items := pair.value.items;
    assert AllFit(items) && Height(pair.value) == HeightOfAll(items);
    FieldMapStands(buf, def.fieldsPos, items, k);
    ItemsAreWellFormed(items, k);
  }

  /** Definitions of the same pair declare the same fields. */
  lemma FieldsDeclaredAlike(a: seq<u8>, b: seq<u8>, def: TypeDef, other: TypeDef, x: Pair, y: Pair)
    requires Records(a, def, x) && Records(b, other, y) && SamePair(x, y)
    ensures DeclaredFields(a, def) == DeclaredFields(b, other)
  {
    hide TextUnder, EndOfAll, At, Height, Fits, NoRepeats, Stands, EncodeItems;
    var f, g := DeclaredFields(a, def), DeclaredFields(b, other);
    assert |f| == def.fieldCount == |x.value.items| == |y.value.items| == other.fieldCount == |g|;
    forall k | 0 <= k < |f| ensures f[k] == g[k] {
      FieldAtPlace(a, def, x, k);
      FieldAtPlace(b, other, y, k);
      var p, q := EndOfAll(a, def.fieldsPos, 0, k).value, EndOfAll(b, other.fieldsPos, 0, k).value;
      TextsAgree(a, b, p, q, x.value.items[k], y.value.items[k], Ascii("name"));
      TextsAgree(a, b, p, q, x.value.items[k], y.value.items[k], Ascii("type"));
    }
  }

  lemma TableHolds(buf: seq<u8>, defs: seq<TypeDef>, pairs: seq<Pair>, i: nat)
    requires AllRecorded(buf, defs, pairs) && DistinctKeys(pairs) && i < |pairs|
    ensures pairs[i].key in TableOf(buf, defs) && TableOf(buf, defs)[pairs[i].key] == DeclaredFields(buf, defs[i])
  {
    hide TableOf, WellFormed, Stands, EncodeItems;
    assert Records(buf, defs[i], pairs[i]);
    forall k | 0 <= k < i ensures defs[k].name != defs[i].name { assert Records(buf, defs[k], pairs[k]); }
    FirstDefinitionCounts(buf, defs, i);
  }

  lemma TableHoldsNoMore(buf: seq<u8>, defs: seq<TypeDef>, pairs: seq<Pair>, name: Name) returns (i: nat)
    requires AllRecorded(buf, defs, pairs) && name in TableOf(buf, defs)
    ensures i < |pairs| && pairs[i].key == name
  {
    hide WellFormed, Stands, EncodeItems;
    var k :| 0 <= k < |defs| && defs[k].name == name;
    assert Records(buf, defs[k], pairs[k]);
    i := k;
  }

  lemma HalfTable(a: seq<u8>, b: seq<u8>, d: seq<TypeDef>, e: seq<TypeDef>, p: seq<Pair>, q: seq<Pair>, name: Name)
    requires AllRecorded(a, d, p) && AllRecorded(b, e, q) && DistinctKeys(p) && DistinctKeys(q) && Same(VMap(p), VMap(q))
    requires name in TableOf(a, d)
    ensures name in TableOf(b, e) && TableOf(a, d)[name] == TableOf(b, e)[name]
  {
    hide TableOf, Same, Records, DistinctKeys, DeclaredFields;
    var i := TableHoldsNoMore(a, d, p, name);
    var j := Partner(p, q, i);
    TableHolds(a, d, p, i);
    TableHolds(b, e, q, j);
    FieldsDeclaredAlike(a, b, d[i], e[j], p[i], q[j]);
  }

  lemma OtherHalfTable(a: seq<u8>, b: seq<u8>, d: seq<TypeDef>, e: seq<TypeDef>, p: seq<Pair>, q: seq<Pair>, name: Name)
    requires AllRecorded(a, d, p) && AllRecorded(b, e, q) && DistinctKeys(p) && DistinctKeys(q) && Same(VMap(p), VMap(q))
    requires name in TableOf(b, e)
    ensures name in TableOf(a, d)
  {
    hide TableOf, Same, Records, DistinctKeys, DeclaredFields;
    var j := TableHoldsNoMore(b, e, q, name);
    var i := PartnerBack(p, q, j);
    TableHolds(a, d, p, i);
  }

  lemma TablesAgree(a: seq<u8>, b: seq<u8>, d: seq<TypeDef>, e: seq<TypeDef>, p: seq<Pair>, q: seq<Pair>)
    requires AllRecorded(a, d, p) && AllRecorded(b, e, q) && DistinctKeys(p) && DistinctKeys(q) && Same(VMap(p), VMap(q))
    ensures TableOf(a, d) == TableOf(b, e)
  {
    hide *;
    forall name | name in TableOf(a, d) ensures name in TableOf(b, e) && TableOf(a, d)[name] == TableOf(b, e)[name] {
      HalfTable(a, b, d, e, p, q, name);
    }
    forall name | name in TableOf(b, e) ensures name in TableOf(a, d) {
      OtherHalfTable(a, b, d, e, p, q, name);
    }
  }

  lemma {:induction false} AllAreWellFormed(v: Value)
    requires v.VMap? && WellFormed(v)
    ensures AllWellFormed(v.pairs) && DistinctKeys(v.pairs)
  {
    hide PairsFit, Height, HeightOfPairs, Fits;
    FitsInside(v.pairs);
    assert Height(v) == HeightOfPairs(v.pairs) by { HeightIs(v); }
    forall i | 0 <= i < |v.pairs| ensures WellFormed(v.pairs[i].value) && Height(v.pairs[i].value) <= MAX_DEPTH {
      PairsAreWellFormed(v.pairs, i);
    }
  }

  lemma HeightIs(v: Value)
    requires v.VMap?
    ensures Height(v) == HeightOfPairs(v.pairs)
  {}

  lemma MapIsRead(buf: seq<u8>, pos: nat, v: Value) returns (at: nat)
    requires At(buf, pos, v) && v.VMap?
    ensures ItemAt(buf, pos).Some? && ItemAt(buf, pos).value.end == at
    ensures ItemAt(buf, pos).value.value.value == |v.pairs|
    ensures AllWellFormed(v.pairs) && DistinctKeys(v.pairs) && Stands(buf, at, EncodePairs(v.pairs))
  {
    hide Encode, ItemAt, Stands, AllWellFormed, DistinctKeys, EncodePairs;
    AllAreWellFormed(v);
    ItemReadsBack(buf, pos, v);
    at := ItemAt(buf, pos).value.end;
  }

  lemma HalfDefinable(p: seq<Pair>, q: seq<Pair>)
    requires Same(VMap(p), VMap(q)) && |p| == |q| && DistinctKeys(q) && Definable(p, 0)
    ensures Definable(q, 0)
  {
    hide Definable, Same, DistinctKeys;
    DefinableInAnyOrder(p, 0);
    DefinableInAnyOrder(q, 0);
    forall j | 0 <= j < |q| ensures q[j].value.VArray? && |q[j].value.items| <= EIP712_MAX_FIELDS {
      var i := PartnerBack(p, q, j);
      SameArrays(p[i].value, q[j].value);
    }
  }

  lemma HalfDefinableBack(p: seq<Pair>, q: seq<Pair>)
    requires Same(VMap(p), VMap(q)) && |p| == |q| && Definable(q, 0)
    ensures Definable(p, 0)
  {
    hide Definable, Same, DistinctKeys;
    DefinableInAnyOrder(p, 0);
    DefinableInAnyOrder(q, 0);
    forall i | 0 <= i < |p| ensures p[i].value.VArray? && |p[i].value.items| <= EIP712_MAX_FIELDS {
      var j := Partner(p, q, i);
      SameArrays(p[i].value, q[j].value);
    }
  }

  lemma SameArrays(v: Value, w: Value)
    requires Same(v, w)
    ensures v.VArray? <==> w.VArray?
    ensures v.VArray? ==> |v.items| == |w.items|
  {}

  lemma SameSizes(v: Value, w: Value)
    requires Same(v, w) && v.VMap?
    ensures w.VMap? && |v.pairs| == |w.pairs|
  {}

  /** The two tables are one and the same. */
  lemma DefinitionsAgree(a: seq<u8>, b: seq<u8>, p: nat, q: nat, v: Value, w: Value)
      returns (va: nat, wa: nat)
    requires At(a, p, v) && At(b, q, w) && Same(v, w) && v.VMap? && w.VMap?
    ensures ItemAt(a, p).Some? && ItemAt(a, p).value.end == va && ItemAt(a, p).value.value.value == |v.pairs|
    ensures ItemAt(b, q).Some? && ItemAt(b, q).value.end == wa && ItemAt(b, q).value.value.value == |w.pairs|
    ensures TypesFrom(a, va, |v.pairs|, 0).Some? <==> TypesFrom(b, wa, |w.pairs|, 0).Some?
    ensures TypesFrom(a, va, |v.pairs|, 0).Some? ==>
      TableOf(a, TypesFrom(a, va, |v.pairs|, 0).value) == TableOf(b, TypesFrom(b, wa, |w.pairs|, 0).value)
  {
    hide *;
    SameSizes(v, w);
    assert v == VMap(v.pairs) && w == VMap(w.pairs);
    va := MapIsRead(a, p, v);
    wa := MapIsRead(b, q, w);
    DefinitionsRead(a, va, v.pairs, 0);
    DefinitionsRead(b, wa, w.pairs, 0);
    if Definable(v.pairs, 0) {
      HalfDefinable(v.pairs, w.pairs);
      TablesAgree(a, b, TypesFrom(a, va, |v.pairs|, 0).value, TypesFrom(b, wa, |w.pairs|, 0).value, v.pairs, w.pairs);
    } else if Definable(w.pairs, 0) {
      HalfDefinableBack(v.pairs, w.pairs);
    }
  }

  lemma TypeDefsAgree(a: seq<u8>, b: seq<u8>, v: Value, w: Value)
    requires At(a, 0, v) && At(b, 0, w) && Same(v, w)
    ensures TypeDefs(a).Some? <==> TypeDefs(b).Some?
    ensures TypeDefs(a).Some? ==> TableOf(a, TypeDefs(a).value) == TableOf(b, TypeDefs(b).value)
  {
    hide At, Same, MapAt, ItemAt, TypesFrom, TableOf, Ascii, HeadItem;
    var x, y := LookupsAgree(a, b, 0, 0, v, w, Ascii("types"));
    if x.Some? {
      var p, q := MapAt(a, 0, Ascii("types"), 0).value, MapAt(b, 0, Ascii("types"), 0).value;
      ItemsAgree(a, b, p, q, x.value, y.value);
      SameKinds(x.value, y.value);
      HeadOfMap(x.value);
      if x.value.VMap? {
        var va, wa := DefinitionsAgree(a, b, p, q, x.value, y.value);
      }
    }
  }

  lemma HeadOfMap(v: Value)
    ensures HeadItem(v).kind.Map? <==> v.VMap?
  {}

  /** The two requests have the same table and primary type, and their domain and
      message maps stand where the same values stand. */
  ghost predicate SameRequest(a: seq<u8>, b: seq<u8>, r: Request, s: Request) {
    && r.table == s.table && r.primary == s.primary
    && (exists x, y :: At(a, r.domainPos, x) && At(b, s.domainPos, y) && Same(x, y))
    && (exists x, y :: At(a, r.messagePos, x) && At(b, s.messagePos, y) && Same(x, y))
  }

  lemma MapsUnderAgree(a: seq<u8>, b: seq<u8>, v: Value, w: Value, key: seq<u8>)
    requires At(a, 0, v) && At(b, 0, w) && Same(v, w)
    ensures MapUnder(a, key).Some? <==> MapUnder(b, key).Some?
    ensures MapUnder(a, key).Some? ==>
      exists x, y :: At(a, MapUnder(a, key).value, x) && At(b, MapUnder(b, key).value, y) && Same(x, y)
  {
    hide At, Same, MapAt, ItemAt, HeadItem;
    var x, y := LookupsAgree(a, b, 0, 0, v, w, key);
    if x.Some? {
      ItemsAgree(a, b, MapAt(a, 0, key, 0).value, MapAt(b, 0, key, 0).value, x.value, y.value);
    }
  }

  lemma RequestsAgree(a: seq<u8>, b: seq<u8>, v: Value, w: Value)
    requires At(a, 0, v) && At(b, 0, w) && Same(v, w)
    ensures RequestOf(a).Some? <==> RequestOf(b).Some?
    ensures RequestOf(a).Some? ==> SameRequest(a, b, RequestOf(a).value, RequestOf(b).value)
  {
    hide At, Same, MapUnder, TypeDefs, TextUnder, Ascii, TableOf;
    TypeDefsAgree(a, b, v, w);
    TextsAgree(a, b, 0, 0, v, w, Ascii("primaryType"));
    MapsUnderAgree(a, b, v, w, Ascii("domain"));
    MapsUnderAgree(a, b, v, w, Ascii("message"));
  }

  lemma WalksAgree(a: seq<u8>, b: seq<u8>, keccak: Hash, r: Request, s: Request)
    requires SameRequest(a, b, r, s)
    ensures DomainWalk(a, keccak, r) == DomainWalk(b, keccak, s)
    ensures MessageWalk(a, keccak, r) == MessageWalk(b, keccak, s)
    ensures DomainAt(a, r.domainPos) == DomainAt(b, s.domainPos)
  {
    hide At, Same, StructAt, ItemUnder, Ascii;
    var d := Doc(a, r.table, keccak);
    assert Over(d, b) == Doc(b, s.table, keccak);
    var x, y :| At(a, r.domainPos, x) && At(b, s.domainPos, y) && Same(x, y);
    var v, w :| At(a, r.messagePos, v) && At(b, s.messagePos, w) && Same(v, w);
    if Ascii("EIP712Domain") in r.table {
      StructsSame(d, b, Ascii("EIP712Domain"), r.domainPos, s.domainPos, 0, [], x, y);
    }
    if r.primary in r.table {
      StructsSame(d, b, r.primary, r.messagePos, s.messagePos, 0, [], v, w);
    }
    TextsAgree(a, b, r.domainPos, s.domainPos, x, y, Ascii("name"));
    TextsAgree(a, b, r.domainPos, s.domainPos, x, y, Ascii("chainId"));
    TextsAgree(a, b, r.domainPos, s.domainPos, x, y, Ascii("verifyingContract"));
  }

  /** Well-formed documents that are equal but for the order of their map keys, at any
      depth, have the same result, the same digest and the same screen. */
  lemma KeyOrderDoesNotMatter(v: Value, w: Value, keccak: Hash)
    requires WellFormed(v) && WellFormed(w) && Same(v, w)
    ensures Fits(v) && Fits(w)
    ensures Prepared(Encode(v), keccak) == Prepared(Encode(w), keccak)
  {
    hide Encode, Same, RequestOf, DomainWalk, MessageWalk, DomainAt, ShownAll, Fits, NoRepeats, Height, SameRequest;
    var a, b := Encode(v), Encode(w);
    StandsWhole(a);
    StandsWhole(b);
    RequestsAgree(a, b, v, w);
    if RequestOf(a).Some? {
      var r, s := RequestOf(a).value, RequestOf(b).value;
      WalksAgree(a, b, keccak, r, s);
      SamePrimary(a, b, r, s);
    }
  }

  lemma SamePrimary(a: seq<u8>, b: seq<u8>, r: Request, s: Request)
    requires SameRequest(a, b, r, s)
    ensures r.primary == s.primary
  {}

  /** A request of four keys. */
  function RequestTree(types: seq<Pair>, primary: seq<u8>, domain: seq<Pair>, message: seq<Pair>): Value {
    VMap([Pair(Ascii("types"), VMap(types)), Pair(Ascii("primaryType"), VText(primary)),
          Pair(Ascii("domain"), VMap(domain)), Pair(Ascii("message"), VMap(message))])
  }

  /** In particular the pairs of `types`, `domain` and `message` may come in any order. */
  lemma ShufflingDoesNotMatter(types: seq<Pair>, types': seq<Pair>, primary: seq<u8>, domain: seq<Pair>, domain': seq<Pair>,
                               message: seq<Pair>, message': seq<Pair>, keccak: Hash)
    requires multiset(types) == multiset(types') && multiset(domain) == multiset(domain')
    requires multiset(message) == multiset(message')
    requires WellFormed(RequestTree(types, primary, domain, message))
    requires WellFormed(RequestTree(types', primary, domain', message'))
    ensures Prepared(Encode(RequestTree(types, primary, domain, message)), keccak)
         == Prepared(Encode(RequestTree(types', primary, domain', message')), keccak)
  {
    var v, w := RequestTree(types, primary, domain, message), RequestTree(types', primary, domain', message');
    RequestParts(types, primary, domain, message);
    RequestParts(types', primary, domain', message');
    hide *;
    ShuffledIsSame(types, types');
    ShuffledIsSame(domain, domain');
    ShuffledIsSame(message, message');
    SameRequests(types, types', primary, domain, domain', message, message');
    KeyOrderDoesNotMatter(v, w, keccak);
  }

  lemma RequestParts(types: seq<Pair>, primary: seq<u8>, domain: seq<Pair>, message: seq<Pair>)
    requires WellFormed(RequestTree(types, primary, domain, message))
    ensures DistinctKeys(RequestTree(types, primary, domain, message).pairs)
    ensures NoRepeats(VMap(types)) && NoRepeats(VMap(domain)) && NoRepeats(VMap(message))
    ensures DistinctKeys(types) && DistinctKeys(domain) && DistinctKeys(message)
  {
    var v := RequestTree(types, primary, domain, message);
    PartsAreWellFormed(v);
    hide NoRepeats, DistinctKeys, WellFormed, Ascii;
    assert v.pairs[0].value == VMap(types) && v.pairs[2].value == VMap(domain) && v.pairs[3].value == VMap(message);
    PartIsDistinct(types);
    PartIsDistinct(domain);
    PartIsDistinct(message);
  }

  lemma SameRequests(types: seq<Pair>, types': seq<Pair>, primary: seq<u8>, domain: seq<Pair>, domain': seq<Pair>,
                     message: seq<Pair>, message': seq<Pair>)
    requires Same(VMap(types), VMap(types')) && Same(VMap(domain), VMap(domain')) && Same(VMap(message), VMap(message'))
    requires DistinctKeys(RequestTree(types, primary, domain, message).pairs)
    requires DistinctKeys(RequestTree(types', primary, domain', message').pairs)
    ensures Same(RequestTree(types, primary, domain, message), RequestTree(types', primary, domain', message'))
  {
    hide Same, DistinctKeys, Ascii;
    SameAsItself(VText(primary));
    SamePairwise(RequestTree(types, primary, domain, message).pairs, RequestTree(types', primary, domain', message').pairs);
  }

  lemma PartsAreWellFormed(v: Value)
    requires v.VMap? && WellFormed(v)
    ensures DistinctKeys(v.pairs) && forall i | 0 <= i < |v.pairs| :: NoRepeats(v.pairs[i].value)
  {
    hide Fits, Height;
  }

  lemma PartIsDistinct(pairs: seq<Pair>)
    requires NoRepeats(VMap(pairs))
    ensures DistinctKeys(pairs)
  {}

  lemma SamePairwise(p: seq<Pair>, q: seq<Pair>)
    requires |p| == |q| && DistinctKeys(p) && DistinctKeys(q) && forall i | 0 <= i < |p| :: SamePair(p[i], q[i])
    ensures Same(VMap(p), VMap(q))
  {
    hide IndexOf;
    forall i | 0 <= i < |p| ensures IndexOf(q, p[i].key) == i && IndexOf(p, q[i].key) == i && SamePair(p[i], q[i]) {
      DistinctIndex(p, i);
      DistinctIndex(q, i);
    }
  }
}
