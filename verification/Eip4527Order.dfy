/** The pairs of an EIP-4527 map may come in any order, and a written signature is read
    back whole. */
module Eip4527Order {
  import opened Bytes
  import opened Cbor
  import opened Eip4527

  // -------------------------------------------------------- documents as pairs

  /** The bytes of one pair: a key of the schema and the value that belongs to it. */
  predicate IsPair(schema: Schema, pair: seq<u8>) {
    var key := ArgOf(pair, 0, 0);
    key.Ok? && 1 <= key.value <= schema.Keys()
    && FieldAt(schema, pair, key.end, key.value).Ok? && FieldAt(schema, pair, key.end, key.value).end == |pair|
  }

  function KeyOf(schema: Schema, pair: seq<u8>): nat
    requires IsPair(schema, pair)
  {
    ArgOf(pair, 0, 0).value
  }

  function FieldOf(schema: Schema, pair: seq<u8>): Field
    requires IsPair(schema, pair)
  {
    FieldAt(schema, pair, ArgOf(pair, 0, 0).end, KeyOf(schema, pair)).value
  }

  predicate AllPairs(schema: Schema, pairs: seq<seq<u8>>) { forall i | 0 <= i < |pairs| :: IsPair(schema, pairs[i]) }

  function Concat(pairs: seq<seq<u8>>): seq<u8> {
    if |pairs| == 0 then [] else pairs[0] + Concat(pairs[1..])
  }

  /** A map head that announces n pairs, in any of its encodings. */
  predicate MapHead(head: seq<u8>, n: nat) { ArgOf(head, 0, 5) == Ok(n, |head|) }

  predicate DistinctKeys(schema: Schema, pairs: seq<seq<u8>>)
    requires AllPairs(schema, pairs)
  {
    forall i, j | 0 <= i < j < |pairs| :: KeyOf(schema, pairs[i]) != KeyOf(schema, pairs[j])
  }

  predicate NoneRead(schema: Schema, pairs: seq<seq<u8>>, fields: Fields)
    requires AllPairs(schema, pairs)
  {
    forall i | 0 <= i < |pairs| :: KeyOf(schema, pairs[i]) !in fields
  }

  /** The fields that pairs add to those already read. */
  function Merged(schema: Schema, pairs: seq<seq<u8>>, fields: Fields): Fields
    requires AllPairs(schema, pairs)
    decreases |pairs|
  {
    if |pairs| == 0 then fields
    else
      assert AllPairs(schema, pairs[1..]) by { forall i | 0 <= i < |pairs[1..]| ensures IsPair(schema, pairs[1..][i]) { assert pairs[1..][i] == pairs[i + 1]; } }
      Merged(schema, pairs[1..], fields[KeyOf(schema, pairs[0]) := FieldOf(schema, pairs[0])])
  }

  /** What it takes for a pair to be read. */
  lemma PairIsReadIf(schema: Schema, pair: seq<u8>, buf: seq<u8>, pos: nat, n: nat, fields: Fields, start: nat)
    requires IsPair(schema, pair) && n > 0
    requires ArgOf(buf, pos, 0) == Ok(KeyOf(schema, pair), start)
    requires FieldAt(schema, buf, start, KeyOf(schema, pair)) == Ok(FieldOf(schema, pair), pos + |pair|)
    ensures KeyOf(schema, pair) in fields ==> PairsFrom(schema, buf, pos, n, fields) == Err(DuplicateField)
    ensures KeyOf(schema, pair) !in fields ==>
      PairsFrom(schema, buf, pos, n, fields)
      == PairsFrom(schema, buf, pos + |pair|, n - 1, fields[KeyOf(schema, pair) := FieldOf(schema, pair)])
  {
    assert 1 <= KeyOf(schema, pair) <= schema.Keys();
    hide IsPair, KeyOf, FieldOf, ArgOf, FieldAt;
  }

  lemma StandsAlike(buf: seq<u8>, pos: nat, part: seq<u8>)
    requires Stands(buf, pos, part)
    ensures Alike(part, 0, buf, pos, |part|)
  {
    assert part[0..0 + |part|] == part;
  }

  lemma PairMoves(schema: Schema, pair: seq<u8>, buf: seq<u8>, pos: nat) returns (start: nat)
    requires IsPair(schema, pair) && Stands(buf, pos, pair)
    ensures ArgOf(buf, pos, 0) == Ok(KeyOf(schema, pair), start)
    ensures FieldAt(schema, buf, start, KeyOf(schema, pair)) == Ok(FieldOf(schema, pair), pos + |pair|)
  {
    StandsAlike(buf, pos, pair);
    hide ArgOf, FieldAt, Alike, Stands;
    ArgMoves(pair, 0, buf, pos, |pair|, 0);
    var key := ArgOf(pair, 0, 0);
    start := pos + key.end;
    AlikeAt(pair, 0, buf, pos, |pair|, key.end);
    FieldMoves(schema, pair, key.end, buf, start, |pair| - key.end, key.value);
  }

  /** A pair is read as itself wherever it stands. */
  lemma PairIsRead(schema: Schema, pair: seq<u8>, buf: seq<u8>, pos: nat, n: nat, fields: Fields)
    requires IsPair(schema, pair) && Stands(buf, pos, pair) && n > 0
    ensures KeyOf(schema, pair) in fields ==> PairsFrom(schema, buf, pos, n, fields) == Err(DuplicateField)
    ensures KeyOf(schema, pair) !in fields ==>
      PairsFrom(schema, buf, pos, n, fields)
      == PairsFrom(schema, buf, pos + |pair|, n - 1, fields[KeyOf(schema, pair) := FieldOf(schema, pair)])
  {
    hide *;
    var start := PairMoves(schema, pair, buf, pos);
    PairIsReadIf(schema, pair, buf, pos, n, fields, start);
  }

  lemma RestArePairs(schema: Schema, pairs: seq<seq<u8>>)
    requires |pairs| > 0 && AllPairs(schema, pairs)
    ensures IsPair(schema, pairs[0]) && AllPairs(schema, pairs[1..])
  {
    hide IsPair;
    forall i | 0 <= i < |pairs[1..]| ensures IsPair(schema, pairs[1..][i]) { assert pairs[1..][i] == pairs[i + 1]; }
  }

  lemma NoPairs(schema: Schema, pairs: seq<seq<u8>>, buf: seq<u8>, pos: nat, fields: Fields)
    requires |pairs| == 0 && AllPairs(schema, pairs)
    ensures PairsFrom(schema, buf, pos, 0, fields) == Ok(fields, pos) && Concat(pairs) == []
    ensures DistinctKeys(schema, pairs) && NoneRead(schema, pairs, fields) && Merged(schema, pairs, fields) == fields
  {}

  lemma MergedStep(schema: Schema, pairs: seq<seq<u8>>, fields: Fields, more: Fields)
    requires |pairs| > 0 && AllPairs(schema, pairs) && IsPair(schema, pairs[0]) && AllPairs(schema, pairs[1..])
    requires more == fields[KeyOf(schema, pairs[0]) := FieldOf(schema, pairs[0])]
    ensures Merged(schema, pairs, fields) == Merged(schema, pairs[1..], more)
  {
    hide IsPair, KeyOf, FieldOf, AllPairs;
  }

  lemma ConcatStep(pairs: seq<seq<u8>>)
    requires |pairs| > 0
    ensures Concat(pairs) == pairs[0] + Concat(pairs[1..])
  {}

  /** Pairs one behind the other are all read exactly when no key repeats. */
  lemma {:induction false} PairsAreRead(schema: Schema, pairs: seq<seq<u8>>, buf: seq<u8>, pos: nat, fields: Fields)
    requires AllPairs(schema, pairs) && Stands(buf, pos, Concat(pairs))
    ensures PairsFrom(schema, buf, pos, |pairs|, fields).Ok? <==> DistinctKeys(schema, pairs) && NoneRead(schema, pairs, fields)
    ensures PairsFrom(schema, buf, pos, |pairs|, fields).Ok? ==>
      PairsFrom(schema, buf, pos, |pairs|, fields).value == Merged(schema, pairs, fields)
      && PairsFrom(schema, buf, pos, |pairs|, fields).end == pos + |Concat(pairs)|
    decreases |pairs|
  {
    hide *;
    if |pairs| == 0 {
      NoPairs(schema, pairs, buf, pos, fields);
    } else {
      RestArePairs(schema, pairs);
      ConcatStep(pairs);
      StandsSplit(buf, pos, pairs[0], Concat(pairs[1..]));
      PairIsRead(schema, pairs[0], buf, pos, |pairs|, fields);
      var key := KeyOf(schema, pairs[0]);
      var more := fields[key := FieldOf(schema, pairs[0])];
      PairsAreRead(schema, pairs[1..], buf, pos + |pairs[0]|, more);
      FirstAndRest(schema, pairs, fields, more);
      MergedStep(schema, pairs, fields, more);
    }
  }

  lemma FirstAndRest(schema: Schema, pairs: seq<seq<u8>>, fields: Fields, more: Fields)
    requires |pairs| > 0 && AllPairs(schema, pairs) && IsPair(schema, pairs[0]) && AllPairs(schema, pairs[1..])
    requires more == fields[KeyOf(schema, pairs[0]) := FieldOf(schema, pairs[0])]
    ensures DistinctKeys(schema, pairs) && NoneRead(schema, pairs, fields) <==>
      KeyOf(schema, pairs[0]) !in fields && DistinctKeys(schema, pairs[1..]) && NoneRead(schema, pairs[1..], more)
  {
    hide IsPair, KeyOf, FieldOf;
    assert forall i | 0 <= i < |pairs[1..]| :: pairs[1..][i] == pairs[i + 1];
    if KeyOf(schema, pairs[0]) !in fields && DistinctKeys(schema, pairs[1..]) && NoneRead(schema, pairs[1..], more) {
      forall i | 0 < i < |pairs| ensures KeyOf(schema, pairs[i]) !in more {
        assert KeyOf(schema, pairs[1..][i - 1]) !in more;
      }
      forall i, j | 0 <= i < j < |pairs| ensures KeyOf(schema, pairs[i]) != KeyOf(schema, pairs[j]) {
        if i > 0 { assert KeyOf(schema, pairs[1..][i - 1]) != KeyOf(schema, pairs[1..][j - 1]); }
      }
    }
  }

  // ------------------------------------------------------------------ any order

  /** A list without the element at k. */
  function Without<T>(a: seq<T>, k: nat): seq<T>
    requires k < |a|
  {
    a[..k] + a[k + 1..]
  }

  /** One half of a reordering: where each element of the second list is in the first. */
  predicate Leads(a: seq<seq<u8>>, b: seq<seq<u8>>, to: seq<nat>, from: seq<nat>) {
    |a| == |b| == |to| == |from| && forall i | 0 <= i < |b| :: to[i] < |a| && b[i] == a[to[i]] && from[to[i]] == i
  }

  /** The second list is the first in another order. */
  predicate Reorders(a: seq<seq<u8>>, b: seq<seq<u8>>, to: seq<nat>, from: seq<nat>) {
    Leads(a, b, to, from) && Leads(b, a, from, to)
  }

  /** The first element of one list, found in the other, and the two lists without it. */
  lemma FoundIn(a: seq<seq<u8>>, b: seq<seq<u8>>) returns (k: nat)
    requires |a| > 0 && multiset(a) == multiset(b)
    ensures k < |b| == |a| && b[k] == a[0] && multiset(a[1..]) == multiset(Without(b, k))
  {
    assert |a| == |multiset(a)| == |multiset(b)| == |b|;
    assert a[0] in multiset(b);
    k :| 0 <= k < |b| && b[k] == a[0];
    TakenOut(a, 0);
    TakenOut(b, k);
    assert Without(a, 0) == a[1..];
  }

  lemma TakenOut(s: seq<seq<u8>>, k: nat)
    requires k < |s|
    ensures multiset(Without(s, k)) == multiset(s) - multiset{s[k]}
  {
    assert s == s[..k] + [s[k]] + s[k + 1..];
  }

  function OneMoreTo(t: seq<nat>, k: nat): (to: seq<nat>)
    requires k <= |t|
    ensures |to| == |t| + 1
  {
    seq(|t| + 1, i requires 0 <= i <= |t| => if i < k then t[i] + 1 else if i == k then 0 else t[i - 1] + 1)
  }

  function OneMoreFrom(f: seq<nat>, k: nat): (from: seq<nat>)
    requires k <= |f|
    ensures |from| == |f| + 1
  {
    seq(|f| + 1, j requires 0 <= j <= |f| => if j == 0 then k else if f[j - 1] < k then f[j - 1] else f[j - 1] + 1)
  }

  lemma LeadsOneMore(a: seq<seq<u8>>, b: seq<seq<u8>>, k: nat, t: seq<nat>, f: seq<nat>)
    requires k < |b| == |a| && b[k] == a[0] && Leads(a[1..], Without(b, k), t, f)
    ensures Leads(a, b, OneMoreTo(t, k), OneMoreFrom(f, k))
  {
    var rest, to, from := Without(b, k), OneMoreTo(t, k), OneMoreFrom(f, k);
    forall i | 0 <= i < |b| ensures to[i] < |a| && b[i] == a[to[i]] && from[to[i]] == i {
      if i != k {
        var m := if i < k then i else i - 1;
        assert b[i] == rest[m] && a[1..][t[m]] == a[t[m] + 1];
      }
    }
  }

  lemma LedOneMore(a: seq<seq<u8>>, b: seq<seq<u8>>, k: nat, t: seq<nat>, f: seq<nat>)
    requires k < |b| == |a| && b[k] == a[0] && Leads(Without(b, k), a[1..], f, t)
    ensures Leads(b, a, OneMoreFrom(f, k), OneMoreTo(t, k))
  {
    var rest, to, from := Without(b, k), OneMoreTo(t, k), OneMoreFrom(f, k);
    forall j | 0 <= j < |a| ensures from[j] < |b| && a[j] == b[from[j]] && to[from[j]] == j {
      if j > 0 {
        var m := f[j - 1];
        assert a[j] == a[1..][j - 1] == rest[m];
        assert rest[m] == b[from[j]];
      }
    }
  }

  lemma BothLead(a: seq<seq<u8>>, b: seq<seq<u8>>, to: seq<nat>, from: seq<nat>)
    ensures Reorders(a, b, to, from) <==> Leads(a, b, to, from) && Leads(b, a, from, to)
    ensures Leads(a, b, to, from) ==> |to| == |from| == |a| == |b|
  {}

  /** Lists with the same elements are each other's reorderings. */
  lemma {:induction false} Reordering(a: seq<seq<u8>>, b: seq<seq<u8>>) returns (to: seq<nat>, from: seq<nat>)
    requires multiset(a) == multiset(b)
    ensures Reorders(a, b, to, from)
    decreases |a|
  {
    if |a| == 0 {
      assert |b| == |multiset(b)| == 0;
      to, from := [], [];
    } else {
      hide *;
      var k := FoundIn(a, b);
      var t, f := Reordering(a[1..], Without(b, k));
      BothLead(a[1..], Without(b, k), t, f);
      LeadsOneMore(a, b, k, t, f);
      LedOneMore(a, b, k, t, f);
      to, from := OneMoreTo(t, k), OneMoreFrom(f, k);
      BothLead(a, b, to, from);
    }
  }

  lemma ReorderedIsDistinct(schema: Schema, a: seq<seq<u8>>, b: seq<seq<u8>>, to: seq<nat>, from: seq<nat>)
    requires Reorders(a, b, to, from) && AllPairs(schema, a)
    ensures AllPairs(schema, b)
    ensures DistinctKeys(schema, a) ==> DistinctKeys(schema, b)
  {
    hide IsPair, KeyOf;
    if DistinctKeys(schema, a) {
      forall i, j | 0 <= i < j < |b| ensures KeyOf(schema, b[i]) != KeyOf(schema, b[j]) {
        assert to[i] != to[j];
        if to[i] < to[j] {
          assert KeyOf(schema, a[to[i]]) != KeyOf(schema, a[to[j]]);
        } else {
          assert KeyOf(schema, a[to[j]]) != KeyOf(schema, a[to[i]]);
        }
      }
    }
  }

  /** With distinct keys, what was read is a table of the pairs. */
  lemma {:induction false} MergedHolds(schema: Schema, pairs: seq<seq<u8>>, fields: Fields, i: nat)
    requires AllPairs(schema, pairs) && DistinctKeys(schema, pairs) && i < |pairs|
    ensures var m := Merged(schema, pairs, fields);
      KeyOf(schema, pairs[i]) in m && m[KeyOf(schema, pairs[i])] == FieldOf(schema, pairs[i])
    decreases |pairs|
  {
    hide IsPair, KeyOf, FieldOf;
    RestArePairs(schema, pairs);
    var more := fields[KeyOf(schema, pairs[0]) := FieldOf(schema, pairs[0])];
    RestAreDistinct(schema, pairs);
    if i > 0 {
      MergedHolds(schema, pairs[1..], more, i - 1);
    } else {
      MergedKeeps(schema, pairs[1..], more, KeyOf(schema, pairs[0]));
    }
  }

  lemma RestAreDistinct(schema: Schema, pairs: seq<seq<u8>>)
    requires |pairs| > 0 && AllPairs(schema, pairs) && DistinctKeys(schema, pairs) && AllPairs(schema, pairs[1..])
    ensures DistinctKeys(schema, pairs[1..])
    ensures forall j | 0 <= j < |pairs[1..]| :: KeyOf(schema, pairs[1..][j]) != KeyOf(schema, pairs[0])
  {
    hide IsPair, KeyOf;
    assert forall i | 0 <= i < |pairs[1..]| :: pairs[1..][i] == pairs[i + 1];
  }

  lemma {:induction false} MergedKeeps(schema: Schema, pairs: seq<seq<u8>>, fields: Fields, key: nat)
    requires AllPairs(schema, pairs) && key in fields && forall j | 0 <= j < |pairs| :: KeyOf(schema, pairs[j]) != key
    ensures key in Merged(schema, pairs, fields) && Merged(schema, pairs, fields)[key] == fields[key]
    decreases |pairs|
  {
    hide IsPair, KeyOf, FieldOf;
    if |pairs| > 0 {
      RestArePairs(schema, pairs);
      assert forall i | 0 <= i < |pairs[1..]| :: pairs[1..][i] == pairs[i + 1];
      MergedKeeps(schema, pairs[1..], fields[KeyOf(schema, pairs[0]) := FieldOf(schema, pairs[0])], key);
    }
  }

  lemma {:induction false} MergedHoldsNoMore(schema: Schema, pairs: seq<seq<u8>>, fields: Fields, key: nat)
    requires AllPairs(schema, pairs) && key in Merged(schema, pairs, fields)
    ensures key in fields || exists i :: 0 <= i < |pairs| && KeyOf(schema, pairs[i]) == key
    decreases |pairs|
  {
    hide IsPair, KeyOf, FieldOf;
    if |pairs| > 0 {
      RestArePairs(schema, pairs);
      MergedHoldsNoMore(schema, pairs[1..], fields[KeyOf(schema, pairs[0]) := FieldOf(schema, pairs[0])], key);
      assert forall i | 0 <= i < |pairs[1..]| :: pairs[1..][i] == pairs[i + 1];
    }
  }

  lemma HalfMerged(schema: Schema, a: seq<seq<u8>>, b: seq<seq<u8>>, to: seq<nat>, from: seq<nat>, key: nat)
    requires AllPairs(schema, a) && AllPairs(schema, b) && DistinctKeys(schema, a) && DistinctKeys(schema, b)
    requires Reorders(a, b, to, from) && key in Merged(schema, a, map[])
    ensures key in Merged(schema, b, map[]) && Merged(schema, b, map[])[key] == Merged(schema, a, map[])[key]
  {
    hide IsPair, KeyOf, FieldOf, Merged;
    MergedHoldsNoMore(schema, a, map[], key);
    var j: nat :| j < |a| && KeyOf(schema, a[j]) == key;
    MergedHolds(schema, a, map[], j);
    MergedHolds(schema, b, map[], from[j]);
  }

  lemma MergedAlike(schema: Schema, a: seq<seq<u8>>, b: seq<seq<u8>>, to: seq<nat>, from: seq<nat>)
    requires AllPairs(schema, a) && AllPairs(schema, b) && DistinctKeys(schema, a) && DistinctKeys(schema, b)
    requires Reorders(a, b, to, from)
    ensures Merged(schema, a, map[]) == Merged(schema, b, map[])
  {
    hide AllPairs, DistinctKeys, Merged;
    assert Reorders(b, a, from, to);
    forall key | key in Merged(schema, a, map[])
      ensures key in Merged(schema, b, map[]) && Merged(schema, b, map[])[key] == Merged(schema, a, map[])[key]
    {
      HalfMerged(schema, a, b, to, from, key);
    }
    forall key | key in Merged(schema, b, map[]) ensures key in Merged(schema, a, map[]) {
      HalfMerged(schema, b, a, from, to, key);
    }
  }

  /** What a document of pairs decodes to: nothing about the order is left in it, and
      neither is it in the reason for a refusal. */
  lemma DocumentDecodes(schema: Schema, head: seq<u8>, pairs: seq<seq<u8>>)
    requires MapHead(head, |pairs|) && AllPairs(schema, pairs)
    ensures var buf := head + Concat(pairs); var m := Merged(schema, pairs, map[]);
      Decode(schema, buf) ==
        if !DistinctKeys(schema, pairs) then Err(DuplicateField)
        else if !(schema.Required() <= m.Keys) then Err(MissingField)
        else Ok(if schema.SignRequest? && 4 !in m then m[4 := FNumber(1)] else m, |buf|)
  {
    var buf := head + Concat(pairs);
    DocumentBegins(schema, head, Concat(pairs), |pairs|);
    StandsWhole(buf);
    StandsSplit(buf, 0, head, Concat(pairs));
    hide ArgOf, PairsFrom, Merged, AllPairs, IsPair, DistinctKeys, Stands, MapHead, Decode;
    PairsAreRead(schema, pairs, buf, |head|, map[]);
    PairsRepeat(schema, pairs, buf, |head|, map[]);
    NothingSeen(schema, pairs);
  }

  lemma NothingSeen(schema: Schema, pairs: seq<seq<u8>>)
    requires AllPairs(schema, pairs)
    ensures NoneRead(schema, pairs, map[])
  {}

  /** A document is its head, then the pairs, then the checks on the whole. */
  lemma DocumentBegins(schema: Schema, head: seq<u8>, rest: seq<u8>, n: nat)
    requires MapHead(head, n)
    ensures var buf := head + rest; var r := PairsFrom(schema, buf, |head|, n, map[]);
      Decode(schema, buf) ==
        if r.Err? then Err(r.code)
        else if r.end != |buf| then Err(TrailingData)
        else if !(schema.Required() <= r.value.Keys) then Err(MissingField)
        else Ok(if schema.SignRequest? && 4 !in r.value then r.value[4 := FNumber(1)] else r.value, r.end)
  {
    var buf := head + rest;
    assert Alike(head, 0, buf, 0, |head|) by { assert head[0..0 + |head|] == head && buf[0..0 + |head|] == head; }
    HeadIsNoTag(head, n);
    assert buf[0] == head[0];
    hide ArgOf, PairsFrom, Alike;
    ArgMoves(head, 0, buf, 0, |head|, 5);
  }

  /** Pairs are refused only because a key repeats. */
  lemma {:induction false} PairsRepeat(schema: Schema, pairs: seq<seq<u8>>, buf: seq<u8>, pos: nat, fields: Fields)
    requires AllPairs(schema, pairs) && Stands(buf, pos, Concat(pairs))
    ensures PairsFrom(schema, buf, pos, |pairs|, fields).Err? ==>
      PairsFrom(schema, buf, pos, |pairs|, fields) == Err(DuplicateField)
    decreases |pairs|
  {
    hide *;
    if |pairs| == 0 {
      NoPairs(schema, pairs, buf, pos, fields);
    } else {
      RestArePairs(schema, pairs);
      ConcatStep(pairs);
      StandsSplit(buf, pos, pairs[0], Concat(pairs[1..]));
      PairIsRead(schema, pairs[0], buf, pos, |pairs|, fields);
      PairsRepeat(schema, pairs[1..], buf, pos + |pairs[0]|, fields[KeyOf(schema, pairs[0]) := FieldOf(schema, pairs[0])]);
    }
  }

  lemma HeadIsNoTag(head: seq<u8>, n: nat)
    requires MapHead(head, n)
    ensures |head| > 0 && head[0] / 32 == 5
  {}

  lemma {:induction false} ConcatWithout(a: seq<seq<u8>>, k: nat)
    requires k < |a|
    ensures |Concat(a)| == |a[k]| + |Concat(Without(a, k))|
  {
    if k == 0 {
      assert Without(a, 0) == a[1..];
    } else {
      ConcatWithout(a[1..], k - 1);
      assert Without(a, k) == [a[0]] + Without(a[1..], k - 1) && Without(a, k)[1..] == Without(a[1..], k - 1);
    }
  }

  /** The same elements have the same bytes in all. */
  lemma {:induction false} SameSize(a: seq<seq<u8>>, b: seq<seq<u8>>)
    requires multiset(a) == multiset(b)
    ensures |Concat(a)| == |Concat(b)|
    decreases |a|
  {
    if |a| == 0 {
      assert |b| == |multiset(b)| == 0;
    } else {
      hide *;
      var k := FoundIn(a, b);
      ConcatWithout(b, k);
      ConcatStep(a);
      SameSize(a[1..], Without(b, k));
    }
  }

  /** Decoding gives the same result whatever the order of the pairs, down to the reason
      for a refusal. */
  lemma PairOrderDoesNotMatter(schema: Schema, head: seq<u8>, a: seq<seq<u8>>, b: seq<seq<u8>>)
    requires MapHead(head, |a|) && AllPairs(schema, a) && multiset(a) == multiset(b)
    ensures Decode(schema, head + Concat(a)) == Decode(schema, head + Concat(b))
  {
    var to, from := Reordering(a, b);
    assert Reorders(b, a, from, to);
    ReorderedIsDistinct(schema, a, b, to, from);
    ReorderedIsDistinct(schema, b, a, from, to);
    SameSize(a, b);
    DocumentDecodes(schema, head, a);
    DocumentDecodes(schema, head, b);
    hide AllPairs, DistinctKeys, Merged, Decode, MapHead, Reorders, Concat;
    if DistinctKeys(schema, a) { MergedAlike(schema, a, b, to, from); }
  }

  /** Every accepted document is such a series of pairs, so the above is about all of them. */
  lemma AcceptedIsPairs(schema: Schema, buf: seq<u8>) returns (head: seq<u8>, pairs: seq<seq<u8>>)
    requires Decode(schema, buf).Ok?
    ensures MapHead(head, |pairs|) && AllPairs(schema, pairs) && buf == head + Concat(pairs)
  {
    hide PairsFrom, IsPair;
    var n := ArgOf(buf, 0, 5);
    head := buf[..n.end];
    assert Alike(buf, 0, head, 0, n.end) by { assert buf[0..0 + n.end] == head[0..0 + n.end]; }
    ArgMoves(buf, 0, head, 0, n.end, 5);
    pairs := PairsInside(schema, buf, n.end, n.value, map[]);
    assert buf == head + buf[n.end..];
  }

  lemma {:induction false} PairsInside(schema: Schema, buf: seq<u8>, pos: nat, n: nat, fields: Fields) returns (pairs: seq<seq<u8>>)
    requires pos <= |buf| && PairsFrom(schema, buf, pos, n, fields).Ok?
    ensures PairsFrom(schema, buf, pos, n, fields).end <= |buf|
    ensures |pairs| == n && AllPairs(schema, pairs) && Concat(pairs) == buf[pos..PairsFrom(schema, buf, pos, n, fields).end]
    decreases n
  {
    hide ArgOf, FieldAt, IsPair;
    if n == 0 {
      pairs := [];
    } else {
      var key := ArgOf(buf, pos, 0);
      var f := FieldAt(schema, buf, key.end, key.value);
      var rest := PairsInside(schema, buf, f.end, n - 1, fields[key.value := f.value]);
      PairInside(schema, buf, pos);
      pairs := [buf[pos..f.end]] + rest;
      var end := PairsFrom(schema, buf, pos, n, fields).end;
      PairsFromEnds(schema, buf, f.end, n - 1, fields[key.value := f.value]);
      assert buf[pos..f.end] + buf[f.end..end] == buf[pos..end];
    }
  }

  lemma PairsFromEnds(schema: Schema, buf: seq<u8>, pos: nat, n: nat, fields: Fields)
    requires pos <= |buf| && PairsFrom(schema, buf, pos, n, fields).Ok?
    ensures pos <= PairsFrom(schema, buf, pos, n, fields).end <= |buf|
  {}

  lemma PairInside(schema: Schema, buf: seq<u8>, pos: nat)
    requires ArgOf(buf, pos, 0).Ok? && 1 <= ArgOf(buf, pos, 0).value <= schema.Keys()
    requires FieldAt(schema, buf, ArgOf(buf, pos, 0).end, ArgOf(buf, pos, 0).value).Ok?
    ensures IsPair(schema, buf[pos..FieldAt(schema, buf, ArgOf(buf, pos, 0).end, ArgOf(buf, pos, 0).value).end])
  {
    hide ArgOf, FieldAt, Alike;
    var key := ArgOf(buf, pos, 0);
    var end := FieldAt(schema, buf, key.end, key.value).end;
    var pair := buf[pos..end];
    var n := end - pos;
    SliceIsAlike(buf, pos, end);
    ArgMoves(buf, pos, pair, 0, n, 0);
    AlikeAt(buf, pos, pair, 0, n, key.end - pos);
    FieldMoves(schema, buf, key.end, pair, key.end - pos, end - key.end, key.value);
  }

  lemma SliceIsAlike(buf: seq<u8>, pos: nat, end: nat)
    requires pos <= end <= |buf|
    ensures Alike(buf, pos, buf[pos..end], 0, end - pos)
  {
    assert buf[pos..end][0..0 + (end - pos)] == buf[pos..end];
  }

  // ------------------------------------------------- when the order does show

  /** A piece that is refused wherever it stands and whatever follows it: it does not begin
      with a key, its key is none of the schema, or what follows the key is no value for it. */
  ghost predicate IsRefused(schema: Schema, piece: seq<u8>) {
    match ArgOf(piece, 0, 0)
    case Err(c) => forall pre: seq<u8>, more: seq<u8> :: ArgOf(pre + piece + more, |pre|, 0) == Err(c)
    case Ok(key, end) =>
      1 <= key <= schema.Keys() ==>
        var f := FieldAt(schema, piece, end, key);
        f.Err? && forall pre: seq<u8>, more: seq<u8> :: FieldAt(schema, pre + piece + more, |pre| + end, key) == Err(f.code)
  }

  /** The reason such a piece is refused for. */
  ghost function Refusal(schema: Schema, piece: seq<u8>): Code
    requires IsRefused(schema, piece)
  {
    match ArgOf(piece, 0, 0)
    case Err(c) => c
    case Ok(key, end) => if key < 1 || key > schema.Keys() then UnknownField else FieldAt(schema, piece, end, key).code
  }

  ghost predicate IsPiece(schema: Schema, piece: seq<u8>) { IsPair(schema, piece) || IsRefused(schema, piece) }

  ghost predicate AllPieces(schema: Schema, pieces: seq<seq<u8>>) { forall i | 0 <= i < |pieces| :: IsPiece(schema, pieces[i]) }

  /** The key of a piece; 0, which is the key of no field, where there is none. */
  ghost function PieceKey(schema: Schema, piece: seq<u8>): nat
    requires IsPiece(schema, piece)
  {
    var key := ArgOf(piece, 0, 0);
    if key.Ok? then key.value else 0
  }

  ghost predicate Known(schema: Schema, piece: seq<u8>)
    requires IsPiece(schema, piece)
  {
    1 <= PieceKey(schema, piece) <= schema.Keys()
  }

  /** The first refusal that is met, when the keys in `seen` were read before. */
  ghost function Outcome(schema: Schema, pieces: seq<seq<u8>>, seen: set<nat>): Option<Code>
    requires AllPieces(schema, pieces)
    decreases |pieces|
  {
    if |pieces| == 0 then None
    else
      var p := pieces[0];
      assert IsPiece(schema, p);
      if Known(schema, p) && PieceKey(schema, p) in seen then Some(DuplicateField)
      else if IsRefused(schema, p) then Some(Refusal(schema, p))
      else Outcome(schema, pieces[1..], seen + {PieceKey(schema, p)})
  }

  /** What it takes for a piece to be refused. */
  lemma RefusedIsReadIf(schema: Schema, buf: seq<u8>, pos: nat, n: nat, fields: Fields, key: nat, start: nat, c: Code)
    requires n > 0 && ArgOf(buf, pos, 0) == Ok(key, start)
    requires if key < 1 || key > schema.Keys() then c == UnknownField else FieldAt(schema, buf, start, key) == Err(c)
    ensures PairsFrom(schema, buf, pos, n, fields) == Err(if 1 <= key <= schema.Keys() && key in fields then DuplicateField else c)
  {
    hide ArgOf, FieldAt;
  }

  /** A turn that meets no key ends there. */
  lemma NoKeyIsRead(schema: Schema, buf: seq<u8>, pos: nat, n: nat, fields: Fields, c: Code)
    requires n > 0 && ArgOf(buf, pos, 0) == Err(c)
    ensures PairsFrom(schema, buf, pos, n, fields) == Err(c)
  {
    hide ArgOf, FieldAt;
  }

  /** What was refused in the piece is refused where the piece stands. */
  lemma RefusalMoves(schema: Schema, piece: seq<u8>, buf: seq<u8>, pos: nat)
    requires IsRefused(schema, piece) && Stands(buf, pos, piece)
    ensures match ArgOf(piece, 0, 0)
            case Err(c) => ArgOf(buf, pos, 0) == Err(c)
            case Ok(key, end) =>
              1 <= key <= schema.Keys() ==> FieldAt(schema, buf, pos + end, key) == Err(Refusal(schema, piece))
  {
    hide ArgOf, FieldAt, Stands;
    var pre, more := Around(buf, pos, piece);
  }

  lemma Around(buf: seq<u8>, pos: nat, part: seq<u8>) returns (pre: seq<u8>, more: seq<u8>)
    requires Stands(buf, pos, part)
    ensures buf == pre + part + more && |pre| == pos
  {
    pre, more := buf[..pos], buf[pos + |part|..];
  }

  lemma RefusedIsRead(schema: Schema, piece: seq<u8>, buf: seq<u8>, pos: nat, n: nat, fields: Fields)
    requires IsRefused(schema, piece) && Stands(buf, pos, piece) && n > 0
    ensures PairsFrom(schema, buf, pos, n, fields) ==
            Err(if Known(schema, piece) && PieceKey(schema, piece) in fields then DuplicateField else Refusal(schema, piece))
  {
    RefusalMoves(schema, piece, buf, pos);
    StandsAlike(buf, pos, piece);
    hide ArgOf, FieldAt, Alike, Stands, PairsFrom, IsRefused;
    ArgMoves(piece, 0, buf, pos, |piece|, 0);
    match ArgOf(piece, 0, 0)
    case Err(c) => NoKeyIsRead(schema, buf, pos, n, fields, c);
    case Ok(key, end) => RefusedIsReadIf(schema, buf, pos, n, fields, key, pos + end, Refusal(schema, piece));
  }

  lemma PieceIsPair(schema: Schema, piece: seq<u8>)
    requires IsPair(schema, piece)
    ensures IsPiece(schema, piece) && !IsRefused(schema, piece)
    ensures Known(schema, piece) && PieceKey(schema, piece) == KeyOf(schema, piece)
  {
    hide ArgOf, FieldAt;
  }

  lemma RestArePieces(schema: Schema, pieces: seq<seq<u8>>)
    requires |pieces| > 0 && AllPieces(schema, pieces)
    ensures IsPiece(schema, pieces[0]) && AllPieces(schema, pieces[1..])
  {
    hide IsPiece;
    forall i | 0 <= i < |pieces[1..]| ensures IsPiece(schema, pieces[1..][i]) { assert pieces[1..][i] == pieces[i + 1]; }
  }

  /** The first refusal is the one reported. */
  lemma {:induction false} PiecesAreRead(schema: Schema, pieces: seq<seq<u8>>, buf: seq<u8>, pos: nat, fields: Fields)
    requires AllPieces(schema, pieces) && Stands(buf, pos, Concat(pieces))
    ensures var r := Outcome(schema, pieces, fields.Keys);
      r.Some? ==> PairsFrom(schema, buf, pos, |pieces|, fields) == Err(r.value)
    decreases |pieces|
  {
    hide IsPiece, IsRefused, Refusal, IsPair, KeyOf, FieldOf, PieceKey, Known, Stands, PairsFrom, AllPieces;
    if |pieces| > 0 {
      var p := pieces[0];
      RestArePieces(schema, pieces);
      StandsSplit(buf, pos, p, Concat(pieces[1..]));
      if IsRefused(schema, p) {
        RefusedIsRead(schema, p, buf, pos, |pieces|, fields);
      } else {
        NotRefused(schema, p);
        PieceIsPair(schema, p);
        PairIsRead(schema, p, buf, pos, |pieces|, fields);
        var more := fields[KeyOf(schema, p) := FieldOf(schema, p)];
        assert more.Keys == fields.Keys + {KeyOf(schema, p)};
        PiecesAreRead(schema, pieces[1..], buf, pos + |p|, more);
      }
    }
  }

  lemma NotRefused(schema: Schema, piece: seq<u8>)
    requires IsPiece(schema, piece) && !IsRefused(schema, piece)
    ensures IsPair(schema, piece)
  {}

  lemma PiecesDecode(schema: Schema, head: seq<u8>, pieces: seq<seq<u8>>)
    requires MapHead(head, |pieces|) && AllPieces(schema, pieces) && Outcome(schema, pieces, {}).Some?
    ensures Decode(schema, head + Concat(pieces)) == Err(Outcome(schema, pieces, {}).value)
  {
    hide Outcome, AllPieces, MapHead, PairsFrom, Decode, Stands;
    var buf := head + Concat(pieces);
    DocumentBegins(schema, head, Concat(pieces), |pieces|);
    StandsWhole(buf);
    StandsSplit(buf, 0, head, Concat(pieces));
    var none: Fields := map[];
    assert none.Keys == {};
    PiecesAreRead(schema, pieces, buf, |head|, none);
  }

  /** Every refused piece is refused for this reason. */
  ghost predicate AllRefusedFor(schema: Schema, pieces: seq<seq<u8>>, c: Code) {
    forall p | p in pieces && IsRefused(schema, p) :: Refusal(schema, p) == c
  }

  /** No valid pair shares its key with another piece. */
  ghost predicate NoClash(schema: Schema, pieces: seq<seq<u8>>)
    requires AllPieces(schema, pieces)
  {
    forall i, j | 0 <= i < |pieces| && 0 <= j < |pieces| && i != j && IsPair(schema, pieces[i]) ::
      PieceKey(schema, pieces[i]) != PieceKey(schema, pieces[j])
  }

  ghost predicate NoneSeen(schema: Schema, pieces: seq<seq<u8>>, seen: set<nat>)
    requires AllPieces(schema, pieces)
  {
    forall i | 0 <= i < |pieces| :: PieceKey(schema, pieces[i]) !in seen
  }

  ghost predicate OneReason(schema: Schema, pieces: seq<seq<u8>>, c: Code)
    requires AllPieces(schema, pieces)
  {
    AllRefusedFor(schema, pieces, c) && (c == DuplicateField || NoClash(schema, pieces))
  }

  /** What holds of the pieces holds of the rest, once a valid pair was read. */
  lemma RestIsLike(schema: Schema, pieces: seq<seq<u8>>, seen: set<nat>, c: Code)
    requires |pieces| > 0 && AllPieces(schema, pieces) && AllPieces(schema, pieces[1..]) && AllRefusedFor(schema, pieces, c)
    requires IsPair(schema, pieces[0]) && !IsRefused(schema, pieces[0])
    requires c == DuplicateField || (NoClash(schema, pieces) && NoneSeen(schema, pieces, seen))
    requires exists p :: p in pieces && IsRefused(schema, p)
    ensures AllRefusedFor(schema, pieces[1..], c) && exists p :: p in pieces[1..] && IsRefused(schema, p)
    ensures c == DuplicateField
      || (NoClash(schema, pieces[1..]) && NoneSeen(schema, pieces[1..], seen + {PieceKey(schema, pieces[0])}))
  {
    hide IsPiece, IsRefused, Refusal, IsPair, PieceKey, Known;
    assert forall i | 0 <= i < |pieces[1..]| :: pieces[1..][i] == pieces[i + 1];
    assert pieces == [pieces[0]] + pieces[1..];
  }

  /** With one reason only, that is the one. */
  lemma {:induction false} OutcomeIs(schema: Schema, pieces: seq<seq<u8>>, seen: set<nat>, c: Code)
    requires AllPieces(schema, pieces) && AllRefusedFor(schema, pieces, c)
    requires c == DuplicateField || (NoClash(schema, pieces) && NoneSeen(schema, pieces, seen))
    requires exists p :: p in pieces && IsRefused(schema, p)
    ensures Outcome(schema, pieces, seen) == Some(c)
    decreases |pieces|
  {
    var p := pieces[0];
    assert NoneSeen(schema, pieces, seen) ==> PieceKey(schema, p) !in seen;
    hide IsPiece, IsRefused, Refusal, IsPair, PieceKey, Known, NoClash, NoneSeen, AllPieces;
    RestArePieces(schema, pieces);
    if !IsRefused(schema, p) && !(Known(schema, p) && PieceKey(schema, p) in seen) {
      NotRefused(schema, p);
      RestIsLike(schema, pieces, seen, c);
      OutcomeIs(schema, pieces[1..], seen + {PieceKey(schema, p)}, c);
    }
  }

  /** One reason only, in one order, is one reason only in every other. */
  lemma OneReasonInAnyOrder(schema: Schema, a: seq<seq<u8>>, b: seq<seq<u8>>, c: Code)
    requires AllPieces(schema, a) && multiset(a) == multiset(b) && OneReason(schema, a, c)
    ensures AllPieces(schema, b) && OneReason(schema, b, c)
  {
    var to, from := Reordering(a, b);
    hide IsPiece, IsRefused, Refusal, IsPair, PieceKey;
    assert AllPieces(schema, b);
    forall p | p in b && IsRefused(schema, p) ensures Refusal(schema, p) == c {
      assert p in multiset(a);
    }
    if c != DuplicateField {
      forall i, j | 0 <= i < |b| && 0 <= j < |b| && i != j && IsPair(schema, b[i])
        ensures PieceKey(schema, b[i]) != PieceKey(schema, b[j])
      {
        assert to[i] != to[j];
        assert PieceKey(schema, a[to[i]]) != PieceKey(schema, a[to[j]]);
      }
    }
  }

  /** The same pieces with the k-th one first. */
  function ToFront(a: seq<seq<u8>>, k: nat): (b: seq<seq<u8>>)
    requires k < |a|
    ensures multiset(b) == multiset(a) && |b| == |a| && b[0] == a[k]
  {
    assert a == a[..k] + [a[k]] + a[k + 1..];
    [a[k]] + Without(a, k)
  }

  lemma SamePieces(schema: Schema, a: seq<seq<u8>>, b: seq<seq<u8>>)
    requires AllPieces(schema, a) && multiset(a) == multiset(b)
    ensures AllPieces(schema, b) && |a| == |b|
  {
    hide IsPiece;
    assert |a| == |multiset(a)| == |multiset(b)| == |b|;
    forall i | 0 <= i < |b| ensures IsPiece(schema, b[i]) { assert b[i] in multiset(a); }
  }

  /** A refused piece that comes first gives the reason. */
  lemma RefusedFirst(schema: Schema, head: seq<u8>, a: seq<seq<u8>>, k: nat)
    requires MapHead(head, |a|) && AllPieces(schema, a) && k < |a| && IsRefused(schema, a[k])
    ensures Decode(schema, head + Concat(ToFront(a, k))) == Err(Refusal(schema, a[k]))
  {
    hide IsRefused, Refusal, PieceKey, Known, Decode, MapHead, Concat, ToFront;
    SamePieces(schema, a, ToFront(a, k));
    PiecesDecode(schema, head, ToFront(a, k));
  }

  lemma DoubleIsMet(schema: Schema, b: seq<seq<u8>>)
    requires AllPieces(schema, b) && |b| >= 2 && IsPair(schema, b[0]) && PieceKey(schema, b[0]) == PieceKey(schema, b[1])
    ensures Outcome(schema, b, {}) == Some(DuplicateField)
  {
    PieceIsPair(schema, b[0]);
    RestArePieces(schema, b);
    hide IsPair, IsPiece, IsRefused, Refusal, AllPieces;
    assert b[1..][0] == b[1];
    var key := PieceKey(schema, b[0]);
    assert {} + {key} == {key};
    assert Outcome(schema, b[1..], {key}) == Some(DuplicateField);
  }

  /** The same pieces with the i-th one first and the j-th one second. */
  lemma TwoToFront(a: seq<seq<u8>>, i: nat, j: nat) returns (b: seq<seq<u8>>)
    requires i < |a| && j < |a| && i != j
    ensures multiset(b) == multiset(a) && |b| == |a| && b[0] == a[i] && b[1] == a[j]
  {
    var front, k := ToFront(a, j), if i < j then i + 1 else i;
    assert front[k] == a[i];
    b := ToFront(front, k);
  }

  /** A valid pair that comes first, with its double behind it, gives another reason. */
  lemma ClashFirst(schema: Schema, head: seq<u8>, a: seq<seq<u8>>, i: nat, j: nat) returns (b: seq<seq<u8>>)
    requires MapHead(head, |a|) && AllPieces(schema, a) && i < |a| && j < |a| && i != j
    requires IsPair(schema, a[i]) && PieceKey(schema, a[i]) == PieceKey(schema, a[j])
    ensures multiset(b) == multiset(a) && Decode(schema, head + Concat(b)) == Err(DuplicateField)
  {
    hide *;
    b := TwoToFront(a, i, j);
    SamePieces(schema, a, b);
    DoubleIsMet(schema, b);
    PiecesDecode(schema, head, b);
  }

  /** A document with a refused piece is refused, and the reason reported is the same in
      every order exactly when all refused pieces are refused for one reason, and no valid
      pair has a double that could be met first and reported for another. */
  lemma ReasonIsFixed(schema: Schema, head: seq<u8>, a: seq<seq<u8>>, r: nat)
    requires MapHead(head, |a|) && AllPieces(schema, a) && r < |a| && IsRefused(schema, a[r])
    ensures OneReason(schema, a, Refusal(schema, a[r])) <==>
      forall b | multiset(b) == multiset(a) :: Decode(schema, head + Concat(b)) == Err(Refusal(schema, a[r]))
  {
    hide IsPair, IsPiece, IsRefused, Refusal, PieceKey, Decode, MapHead, Concat, Outcome, AllPieces, NoClash;
    var c := Refusal(schema, a[r]);
    if OneReason(schema, a, c) {
      forall b | multiset(b) == multiset(a) ensures Decode(schema, head + Concat(b)) == Err(c) {
        OneReasonInAnyOrder(schema, a, b, c);
        SamePieces(schema, a, b);
        assert a[r] in multiset(b);
        NoneSeenYet(schema, b);
        OutcomeIs(schema, b, {}, c);
        PiecesDecode(schema, head, b);
      }
    } else {
      var b := OtherReason(schema, head, a, c);
      assert Decode(schema, head + Concat(b)) != Err(c);
    }
  }

  lemma NoneSeenYet(schema: Schema, pieces: seq<seq<u8>>)
    requires AllPieces(schema, pieces)
    ensures NoneSeen(schema, pieces, {})
  {}

  lemma OtherReason(schema: Schema, head: seq<u8>, a: seq<seq<u8>>, c: Code) returns (b: seq<seq<u8>>)
    requires MapHead(head, |a|) && AllPieces(schema, a) && !OneReason(schema, a, c)
    ensures multiset(b) == multiset(a) && Decode(schema, head + Concat(b)) != Err(c)
  {
    hide IsPair, IsPiece, IsRefused, Refusal, PieceKey, Decode, MapHead, Concat, ToFront;
    if !AllRefusedFor(schema, a, c) {
      var p :| p in a && IsRefused(schema, p) && Refusal(schema, p) != c;
      var k :| 0 <= k < |a| && a[k] == p;
      b := ToFront(a, k);
      RefusedFirst(schema, head, a, k);
    } else {
      var i, j :| 0 <= i < |a| && 0 <= j < |a| && i != j && IsPair(schema, a[i]) && PieceKey(schema, a[i]) == PieceKey(schema, a[j]);
      b := ClashFirst(schema, head, a, i, j);
    }
  }

  /** A pair under a text, where a number should be. */
  lemma TextForAKey(schema: Schema)
    ensures IsRefused(schema, [0x61, 0x61, 0]) && Refusal(schema, [0x61, 0x61, 0]) == Malformed
  {
    var a: seq<u8> := [0x61, 0x61, 0];
    assert ArgOf(a, 0, 0) == Err(Malformed);
    forall pre: seq<u8>, more: seq<u8> ensures ArgOf(pre + a + more, |pre|, 0) == Err(Malformed) {
      assert (pre + a + more)[|pre|] == 0x61;
    }
    hide ArgOf, FieldAt;
  }

  /** A pair under a key of no schema, and a data type that there is not. */
  lemma IllFormedPairs()
    ensures IsRefused(SignRequest, [8, 0]) && Refusal(SignRequest, [8, 0]) == UnknownField
    ensures IsRefused(SignRequest, [3, 9]) && Refusal(SignRequest, [3, 9]) == InvalidDataType
  {
    var a, b: seq<u8> := [8, 0], [3, 9];
    assert ArgOf(a, 0, 0) == Ok(8, 1) && ArgOf(b, 0, 0) == Ok(3, 1);
    forall pre: seq<u8>, more: seq<u8> ensures FieldAt(SignRequest, pre + b + more, |pre| + 1, 3) == Err(InvalidDataType) {
      var buf := pre + b + more;
      assert buf[|pre| + 1] == 9;
      assert ArgOf(buf, |pre| + 1, 0) == Ok(9, |pre| + 2);
      hide ArgOf;
    }
    var none: seq<u8> := [];
    assert none + b + none == b && FieldAt(SignRequest, none + b + none, |none| + 1, 3) == Err(InvalidDataType);
    hide ArgOf, FieldAt;
  }

  lemma TwoRefused(schema: Schema, head: seq<u8>, p: seq<u8>, q: seq<u8>)
    requires MapHead(head, 2) && IsRefused(schema, p) && IsRefused(schema, q)
    ensures Decode(schema, head + Concat([p, q])) == Err(Refusal(schema, p))
  {
    var pieces := [p, q];
    assert AllPieces(schema, pieces) && Without(pieces, 0) == [q];
    assert ToFront(pieces, 0) == pieces;
    hide *;
    RefusedFirst(schema, head, pieces, 0);
  }

  /** Two of those in either order: each document is refused for the one that comes first. */
  lemma RefusalsDependOnOrder()
    ensures Decode(SignRequest, [0xA2] + Concat([[8, 0], [3, 9]])) == Err(UnknownField)
    ensures Decode(SignRequest, [0xA2] + Concat([[3, 9], [8, 0]])) == Err(InvalidDataType)
    ensures Decode(SignRequest, [0xA2] + Concat([[0x61, 0x61, 0], [8, 0]])) == Err(Malformed)
    ensures Decode(SignRequest, [0xA2] + Concat([[8, 0], [0x61, 0x61, 0]])) == Err(UnknownField)
  {
    assert MapHead([0xA2], 2);
    hide *;
    IllFormedPairs();
    TextForAKey(SignRequest);
    TwoRefused(SignRequest, [0xA2], [0x61, 0x61, 0], [8, 0]);
    TwoRefused(SignRequest, [0xA2], [8, 0], [0x61, 0x61, 0]);
    TwoRefused(SignRequest, [0xA2], [8, 0], [3, 9]);
    TwoRefused(SignRequest, [0xA2], [3, 9], [8, 0]);
  }

  // ----------------------------------------------------------- the signature

  function WrittenId(id: seq<u8>): seq<u8>
    requires |id| == 16
  {
    HeadBytes(0, 1) + HeadBytes(6, TAG_UUID) + Encode(VBytes(id))
  }

  function WrittenSignature(signature: seq<u8>): seq<u8>
    requires |signature| == 65
  {
    HeadBytes(0, 2) + Encode(VBytes(signature))
  }

  function WrittenOrigin(origin: seq<u8>): seq<u8>
    requires |origin| <= MAX_ORIGIN
  {
    HeadBytes(0, 3) + EncodeText(origin)
  }

  /** What the encoder writes: the pairs in ascending order of their keys. */
  function SignaturePairs(id: seq<u8>, signature: seq<u8>, origin: Option<seq<u8>>): seq<seq<u8>>
    requires |id| == 16 && |signature| == 65 && (origin.Some? ==> |origin.value| <= MAX_ORIGIN)
  {
    [WrittenId(id), WrittenSignature(signature)] + if origin.Some? then [WrittenOrigin(origin.value)] else []
  }

  function Written(id: seq<u8>, signature: seq<u8>, origin: Option<seq<u8>>): seq<u8>
    requires |id| == 16 && |signature| == 65 && (origin.Some? ==> |origin.value| <= MAX_ORIGIN)
  {
    HeadBytes(5, if origin.Some? then 3 else 2) + Concat(SignaturePairs(id, signature, origin))
  }

  lemma HeadIsRead(buf: seq<u8>, pos: nat, major: nat, value: nat)
    requires major < 7 && value < TWO_32 && Stands(buf, pos, HeadBytes(major, value))
    ensures HeadAt(buf, pos) == Ok(Head(major, value), pos + |HeadBytes(major, value)|)
  {
    StandsRange(buf, pos, HeadBytes(major, value));
    HeadReadsBack(buf, pos, major, value);
    hide HeadBytes, ArgumentAt, Stands;
  }

  lemma StringIsRead(buf: seq<u8>, pos: nat, major: nat, s: seq<u8>, cap: nat, exact: nat)
    requires major < 7 && |s| < TWO_32 && |s| <= cap && (exact == 0 || |s| == exact)
    requires Stands(buf, pos, HeadBytes(major, |s|) + s)
    ensures StringAt(buf, pos, major, cap, exact) == Ok(s, pos + |HeadBytes(major, |s|)| + |s|)
  {
    StandsSplit(buf, pos, HeadBytes(major, |s|), s);
    HeadIsRead(buf, pos, major, |s|);
    hide HeadBytes, HeadAt;
  }

  lemma IdIsPair(id: seq<u8>)
    requires |id| == 16
    ensures IsPair(Signature, WrittenId(id)) && KeyOf(Signature, WrittenId(id)) == 1 && FieldOf(Signature, WrittenId(id)) == FBytes(id)
  {
    var w := WrittenId(id);
    var h, t, b := HeadBytes(0, 1), HeadBytes(6, TAG_UUID), HeadBytes(2, 16) + id;
    assert Encode(VBytes(id)) == b && w == h + t + b;
    StandsWhole(w);
    StandsSplit(w, 0, h + t, b);
    StandsSplit(w, 0, h, t);
    HeadIsRead(w, 0, 0, 1);
    HeadIsRead(w, |h|, 6, TAG_UUID);
    StringIsRead(w, |h| + |t|, 2, id, 16, 16);
    assert |w| == |h| + |t| + |HeadBytes(2, 16)| + 16;
    hide HeadBytes, HeadAt, StringAt, Stands, Encode;
  }

  lemma SignatureIsPair(signature: seq<u8>)
    requires |signature| == 65
    ensures var w := WrittenSignature(signature);
      IsPair(Signature, w) && KeyOf(Signature, w) == 2 && FieldOf(Signature, w) == FBytes(signature)
  {
    var w := WrittenSignature(signature);
    var h, b := HeadBytes(0, 2), HeadBytes(2, 65) + signature;
    assert Encode(VBytes(signature)) == b && w == h + b;
    StandsWhole(w);
    StandsSplit(w, 0, h, b);
    HeadIsRead(w, 0, 0, 2);
    StringIsRead(w, |h|, 2, signature, 65, 65);
    assert |w| == |h| + |HeadBytes(2, 65)| + 65;
    hide HeadBytes, HeadAt, StringAt, Stands, Encode;
  }

  lemma OriginIsPair(origin: seq<u8>)
    requires |origin| <= MAX_ORIGIN
    ensures var w := WrittenOrigin(origin);
      IsPair(Signature, w) && KeyOf(Signature, w) == 3 && FieldOf(Signature, w) == FBytes(origin)
  {
    var w := WrittenOrigin(origin);
    var h, b := HeadBytes(0, 3), HeadBytes(3, |origin|) + origin;
    assert EncodeText(origin) == b && w == h + b;
    StandsWhole(w);
    StandsSplit(w, 0, h, b);
    HeadIsRead(w, 0, 0, 3);
    StringIsRead(w, |h|, 3, origin, MAX_ORIGIN, 0);
    assert |w| == |h| + |HeadBytes(3, |origin|)| + |origin|;
    hide HeadBytes, HeadAt, StringAt, Stands, EncodeText;
  }

  lemma HeadOfMap(n: nat)
    requires n < TWO_32
    ensures MapHead(HeadBytes(5, n), n)
  {
    StandsWhole(HeadBytes(5, n));
    HeadIsRead(HeadBytes(5, n), 0, 5, n);
    hide HeadBytes, HeadAt;
  }

  /** The fields of a signature. */
  function SignatureFields(id: seq<u8>, signature: seq<u8>, origin: Option<seq<u8>>): Fields {
    var both: Fields := map[1 := FBytes(id), 2 := FBytes(signature)];
    if origin.Some? then both[3 := FBytes(origin.value)] else both
  }

  /** The i-th pair carries the key i + 1 and its value from the table. */
  predicate IsRow(pairs: seq<seq<u8>>, fields: Fields, i: nat)
    requires i < |pairs|
  {
    IsPair(Signature, pairs[i]) && KeyOf(Signature, pairs[i]) == i + 1
    && i + 1 in fields && FieldOf(Signature, pairs[i]) == fields[i + 1]
  }

  lemma SignatureHasRows(id: seq<u8>, signature: seq<u8>, origin: Option<seq<u8>>)
    requires |id| == 16 && |signature| == 65 && (origin.Some? ==> |origin.value| <= MAX_ORIGIN)
    ensures var pairs, fields := SignaturePairs(id, signature, origin), SignatureFields(id, signature, origin);
      forall i | 0 <= i < |pairs| :: IsRow(pairs, fields, i)
  {
    hide IsPair, KeyOf, FieldOf, WrittenId, WrittenSignature, WrittenOrigin;
    IdIsPair(id);
    SignatureIsPair(signature);
    if origin.Some? { OriginIsPair(origin.value); }
  }

  lemma SignatureShape(id: seq<u8>, signature: seq<u8>, origin: Option<seq<u8>>)
    requires |id| == 16 && |signature| == 65 && (origin.Some? ==> |origin.value| <= MAX_ORIGIN)
    ensures var pairs, fields := SignaturePairs(id, signature, origin), SignatureFields(id, signature, origin);
      2 <= |pairs| <= 3 && (forall k | k in fields :: 1 <= k <= |pairs|) && Signature.Required() <= fields.Keys
      && Written(id, signature, origin) == HeadBytes(5, |pairs|) + Concat(pairs)
  {
    hide WrittenId, WrittenSignature, WrittenOrigin, Concat, HeadBytes;
  }

  /** Pairs keyed 1, 2, ... with the values of a table are read as that table. */
  lemma MergedIsTable(pairs: seq<seq<u8>>, fields: Fields)
    requires forall i | 0 <= i < |pairs| :: IsRow(pairs, fields, i)
    requires forall k | k in fields :: 1 <= k <= |pairs|
    ensures AllPairs(Signature, pairs) && DistinctKeys(Signature, pairs) && Merged(Signature, pairs, map[]) == fields
  {
    hide IsPair, KeyOf, FieldOf, Merged;
    forall i | 0 <= i < |pairs| ensures IsPair(Signature, pairs[i]) && KeyOf(Signature, pairs[i]) == i + 1 { assert IsRow(pairs, fields, i); }
    var m := Merged(Signature, pairs, map[]);
    forall k | k in m ensures k in fields {
      MergedHoldsNoMore(Signature, pairs, map[], k);
      assert IsRow(pairs, fields, k - 1);
    }
    forall k | k in fields ensures k in m && m[k] == fields[k] {
      assert IsRow(pairs, fields, k - 1);
      MergedHolds(Signature, pairs, map[], k - 1);
    }
  }

  /** Whatever was written is read back: the id, the signature, and the origin if any. */
  lemma SignatureReadsBack(id: seq<u8>, signature: seq<u8>, origin: Option<seq<u8>>)
    requires |id| == 16 && |signature| == 65 && (origin.Some? ==> |origin.value| <= MAX_ORIGIN)
    ensures var r := Decode(Signature, Written(id, signature, origin));
      r.Ok? && r.value == SignatureFields(id, signature, origin)
  {
    hide *;
    var pairs, fields := SignaturePairs(id, signature, origin), SignatureFields(id, signature, origin);
    SmallMaps();
    SignatureShape(id, signature, origin);
    SignatureHasRows(id, signature, origin);
    MergedIsTable(pairs, fields);
    SignatureDecodes(HeadBytes(5, |pairs|), pairs, fields);
  }

  lemma SmallMaps()
    ensures 3 < TWO_32 && MapHead(HeadBytes(5, 2), 2) && MapHead(HeadBytes(5, 3), 3)
  {
    HeadOfMap(2);
    HeadOfMap(3);
  }

  lemma SignatureDecodes(head: seq<u8>, pairs: seq<seq<u8>>, fields: Fields)
    requires MapHead(head, |pairs|) && AllPairs(Signature, pairs) && DistinctKeys(Signature, pairs)
    requires Merged(Signature, pairs, map[]) == fields && Signature.Required() <= fields.Keys
    ensures var r := Decode(Signature, head + Concat(pairs)); r.Ok? && r.value == fields
  {
    hide MapHead, AllPairs, DistinctKeys, Merged, Decode, Concat;
    DocumentDecodes(Signature, head, pairs);
  }
}
