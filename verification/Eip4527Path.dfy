/** The pairs of an EIP-4527 keypath. */
module Eip4527Path {
  import opened Bytes
  import opened Cbor
  import opened Eip4527
  import opened Eip4527Order

  // A keypath is a map of its own inside a sign request, read into one structure by a loop
  // of its own. The order of its pairs does not matter either, wherever the map stands.

  const NO_PATH := Keypath([], None, None)

  /** The bytes of one pair of a keypath. */
  predicate IsPathPair(pair: seq<u8>) {
    var key := ArgOf(pair, 0, 0);
    key.Ok? && 1 <= key.value <= 3
    && PathFieldAt(pair, key.end, key.value, NO_PATH).Ok? && PathFieldAt(pair, key.end, key.value, NO_PATH).end == |pair|
  }

  predicate AllPathPairs(pairs: seq<seq<u8>>) { forall i | 0 <= i < |pairs| :: IsPathPair(pairs[i]) }

  function PathKey(pair: seq<u8>): nat
    requires IsPathPair(pair)
  {
    ArgOf(pair, 0, 0).value
  }

  /** One field, put into a keypath. */
  function Put(key: nat, said: Keypath, kp: Keypath): Keypath {
    if key == 1 then kp.(components := said.components)
    else if key == 2 then kp.(fingerprint := said.fingerprint)
    else kp.(depth := said.depth)
  }

  function With(pair: seq<u8>, kp: Keypath): Keypath
    requires IsPathPair(pair)
  {
    Put(PathKey(pair), PathFieldAt(pair, ArgOf(pair, 0, 0).end, PathKey(pair), NO_PATH).value, kp)
  }

  /** What pairs one behind the other come to; none when a key repeats. */
  function AllPut(pairs: seq<seq<u8>>, kp: Keypath, seen: set<nat>): Option<Keypath>
    requires AllPathPairs(pairs)
    decreases |pairs|
  {
    if |pairs| == 0 then Some(kp)
    else if PathKey(pairs[0]) in seen then None
    else
      RestArePathPairs(pairs);
      AllPut(pairs[1..], With(pairs[0], kp), seen + {PathKey(pairs[0])})
  }

  lemma RestArePathPairs(pairs: seq<seq<u8>>)
    requires |pairs| > 0 && AllPathPairs(pairs)
    ensures IsPathPair(pairs[0]) && AllPathPairs(pairs[1..])
  {
    hide IsPathPair;
    forall i | 0 <= i < |pairs[1..]| ensures IsPathPair(pairs[1..][i]) { assert pairs[1..][i] == pairs[i + 1]; }
  }

  // ------------------------------------------------------- as they are read

  /** A field reads the same whatever the structure holds already. */
  lemma FieldIsPut(buf: seq<u8>, pos: nat, key: nat, kp: Keypath)
    requires 1 <= key <= 3
    ensures var f := PathFieldAt(buf, pos, key, NO_PATH);
      PathFieldAt(buf, pos, key, kp) == if f.Err? then Err(f.code) else Ok(Put(key, f.value, kp), f.end)
  {
    hide ArgOf, PathArrayAt;
  }

  lemma PathPairMoves(pair: seq<u8>, buf: seq<u8>, pos: nat, kp: Keypath) returns (start: nat)
    requires IsPathPair(pair) && Stands(buf, pos, pair)
    ensures ArgOf(buf, pos, 0) == Ok(PathKey(pair), start)
    ensures PathFieldAt(buf, start, PathKey(pair), kp) == Ok(With(pair, kp), pos + |pair|)
  {
    StandsAlike(buf, pos, pair);
    hide ArgOf, PathFieldAt, Alike, Stands;
    ArgMoves(pair, 0, buf, pos, |pair|, 0);
    var key := ArgOf(pair, 0, 0);
    start := pos + key.end;
    AlikeAt(pair, 0, buf, pos, |pair|, key.end);
    PathFieldMoves(pair, key.end, buf, start, |pair| - key.end, key.value, NO_PATH);
    FieldIsPut(buf, start, key.value, kp);
  }

  lemma PathPairIsRead(pair: seq<u8>, buf: seq<u8>, pos: nat, n: nat, kp: Keypath, seen: set<nat>)
    requires IsPathPair(pair) && Stands(buf, pos, pair) && n > 0
    ensures PathPairs(buf, pos, n, kp, seen) ==
      if PathKey(pair) in seen then Err(DuplicateField)
      else PathPairs(buf, pos + |pair|, n - 1, With(pair, kp), seen + {PathKey(pair)})
  {
    assert 1 <= PathKey(pair) <= 3;
    hide *;
    var start := PathPairMoves(pair, buf, pos, kp);
    PathTurn(buf, pos, n, kp, seen, PathKey(pair), start, With(pair, kp), pos + |pair|);
  }

  /** One turn of the loop over the pairs. */
  lemma PathTurn(buf: seq<u8>, pos: nat, n: nat, kp: Keypath, seen: set<nat>, key: nat, start: nat, next: Keypath, end: nat)
    requires n > 0 && ArgOf(buf, pos, 0) == Ok(key, start)
    requires 1 <= key <= 3 && PathFieldAt(buf, start, key, kp) == Ok(next, end)
    ensures PathPairs(buf, pos, n, kp, seen) ==
      if key in seen then Err(DuplicateField) else PathPairs(buf, end, n - 1, next, seen + {key})
  {
    hide ArgOf, PathFieldAt;
  }

  lemma {:induction false} PathPairsAreRead(pairs: seq<seq<u8>>, buf: seq<u8>, pos: nat, kp: Keypath, seen: set<nat>)
    requires AllPathPairs(pairs) && Stands(buf, pos, Concat(pairs))
    ensures PathPairs(buf, pos, |pairs|, kp, seen) ==
      match AllPut(pairs, kp, seen)
      case None => Err(DuplicateField)
      case Some(whole) => Ok(whole, pos + |Concat(pairs)|)
    decreases |pairs|
  {
    hide IsPathPair, PathKey, With, PathPairs, Stands, AllPathPairs;
    if |pairs| == 0 {
      NoPathPairs(buf, pos, kp, seen);
    } else {
      RestArePathPairs(pairs);
      StandsSplit(buf, pos, pairs[0], Concat(pairs[1..]));
      PathPairIsRead(pairs[0], buf, pos, |pairs|, kp, seen);
      PathPairsAreRead(pairs[1..], buf, pos + |pairs[0]|, With(pairs[0], kp), seen + {PathKey(pairs[0])});
    }
  }

  lemma NoPathPairs(buf: seq<u8>, pos: nat, kp: Keypath, seen: set<nat>)
    ensures PathPairs(buf, pos, 0, kp, seen) == Ok(kp, pos)
  {}

  // ------------------------------------------------------------------ any order

  lemma PutStep(pairs: seq<seq<u8>>, first: seq<u8>, rest: seq<seq<u8>>, kp: Keypath, seen: set<nat>)
    requires pairs == [first] + rest && IsPathPair(first) && AllPathPairs(rest)
    ensures AllPathPairs(pairs)
    ensures AllPut(pairs, kp, seen) ==
      if PathKey(first) in seen then None else AllPut(rest, With(first, kp), seen + {PathKey(first)})
  {
    hide IsPathPair, PathKey, With;
    assert pairs[1..] == rest;
  }

  lemma PutsCommute(x: seq<u8>, y: seq<u8>, kp: Keypath)
    requires IsPathPair(x) && IsPathPair(y) && PathKey(x) != PathKey(y)
    ensures With(y, With(x, kp)) == With(x, With(y, kp))
  {
    hide ArgOf, PathFieldAt;
  }

  lemma NeighboursSwap(x: seq<u8>, y: seq<u8>, rest: seq<seq<u8>>, kp: Keypath, seen: set<nat>)
    requires IsPathPair(x) && IsPathPair(y) && AllPathPairs(rest)
    ensures AllPathPairs([x] + ([y] + rest)) && AllPathPairs([y] + ([x] + rest))
    ensures AllPut([x] + ([y] + rest), kp, seen) == AllPut([y] + ([x] + rest), kp, seen)
  {
    hide *;
    var j, k := PathKey(x), PathKey(y);
    PutStep([y] + rest, y, rest, With(x, kp), seen + {j});
    PutStep([x] + rest, x, rest, With(y, kp), seen + {k});
    PutStep([x] + ([y] + rest), x, [y] + rest, kp, seen);
    PutStep([y] + ([x] + rest), y, [x] + rest, kp, seen);
    if j != k {
      PutsCommute(x, y, kp);
      assert seen + {j} + {k} == seen + {k} + {j};
    }
  }

  /** Any pair may come first. */
  lemma {:induction false} AnyFirst(pairs: seq<seq<u8>>, k: nat, kp: Keypath, seen: set<nat>)
    requires AllPathPairs(pairs) && k < |pairs|
    ensures IsPathPair(pairs[k]) && AllPathPairs(Without(pairs, k)) && AllPathPairs([pairs[k]] + Without(pairs, k))
    ensures AllPut(pairs, kp, seen) == AllPut([pairs[k]] + Without(pairs, k), kp, seen)
    decreases k
  {
    hide IsPathPair, PathKey, With, AllPut;
    if k == 0 {
      assert pairs == [pairs[0]] + Without(pairs, 0);
    } else {
      RestArePathPairs(pairs);
      var first, rest, less := pairs[0], pairs[1..], Without(pairs[1..], k - 1);
      AnyFirst(rest, k - 1, With(first, kp), seen + {PathKey(first)});
      assert pairs == [first] + rest && Without(pairs, k) == [first] + less && rest[k - 1] == pairs[k];
      PutStep(pairs, first, rest, kp, seen);
      PutStep([first] + ([pairs[k]] + less), first, [pairs[k]] + less, kp, seen);
      NeighboursSwap(first, pairs[k], less, kp, seen);
    }
  }

  lemma {:induction false} AnyOrderPuts(a: seq<seq<u8>>, b: seq<seq<u8>>, kp: Keypath, seen: set<nat>)
    requires AllPathPairs(a) && multiset(a) == multiset(b)
    ensures AllPathPairs(b) && AllPut(a, kp, seen) == AllPut(b, kp, seen)
    decreases |a|
  {
    hide IsPathPair, PathKey, With, AllPut;
    forall i | 0 <= i < |b| ensures IsPathPair(b[i]) { assert b[i] in multiset(a); }
    if |a| == 0 {
      assert |b| == |multiset(b)| == 0;
    } else {
      hide AllPathPairs;
      var k := Eip4527Order.FoundIn(a, b);
      RestArePathPairs(a);
      AnyFirst(b, k, kp, seen);
      AnyOrderPuts(a[1..], Without(b, k), With(a[0], kp), seen + {PathKey(a[0])});
      PutStep(a, a[0], a[1..], kp, seen);
      PutStep([b[k]] + Without(b, k), b[k], Without(b, k), kp, seen);
    }
  }

  /** The keypath that a head and pairs make, wherever they stand. */
  lemma KeypathIsPut(head: seq<u8>, pairs: seq<seq<u8>>, buf: seq<u8>, pos: nat)
    requires MapHead(head, |pairs|) && AllPathPairs(pairs) && Stands(buf, pos, head + Concat(pairs))
    ensures KeypathAt(buf, pos) ==
      match AllPut(pairs, NO_PATH, {})
      case None => Err(DuplicateField)
      case Some(whole) => Ok(whole, pos + |head| + |Concat(pairs)|)
  {
    hide IsPathPair, AllPathPairs, AllPut, PathPairs, ArgOf, Concat, Stands, Alike;
    StandsSplit(buf, pos, head, Concat(pairs));
    StandsAlike(buf, pos, head);
    ArgMoves(head, 0, buf, pos, |head|, 5);
    PathPairsAreRead(pairs, buf, pos + |head|, NO_PATH, {});
  }

  ghost predicate DistinctPathKeys(pairs: seq<seq<u8>>, seen: set<nat>)
    requires AllPathPairs(pairs)
  {
    (forall i | 0 <= i < |pairs| :: PathKey(pairs[i]) !in seen)
    && forall i, j | 0 <= i < j < |pairs| :: PathKey(pairs[i]) != PathKey(pairs[j])
  }

  lemma {:induction false} PutUnlessRepeated(pairs: seq<seq<u8>>, kp: Keypath, seen: set<nat>)
    requires AllPathPairs(pairs)
    ensures AllPut(pairs, kp, seen).Some? <==> DistinctPathKeys(pairs, seen)
    decreases |pairs|
  {
    hide IsPathPair, PathKey, With;
    if |pairs| > 0 {
      RestArePathPairs(pairs);
      assert forall i | 0 <= i < |pairs[1..]| :: pairs[1..][i] == pairs[i + 1];
      var now := seen + {PathKey(pairs[0])};
      PutUnlessRepeated(pairs[1..], With(pairs[0], kp), now);
      if PathKey(pairs[0]) !in seen && DistinctPathKeys(pairs[1..], now) {
        forall i | 0 < i < |pairs| ensures PathKey(pairs[i]) !in now { assert PathKey(pairs[1..][i - 1]) !in now; }
        forall i, j | 0 <= i < j < |pairs| ensures PathKey(pairs[i]) != PathKey(pairs[j]) {
          if i > 0 { assert PathKey(pairs[1..][i - 1]) != PathKey(pairs[1..][j - 1]); }
        }
      }
    }
  }

  /** Pairs make a keypath exactly when no key repeats; that is all they can be refused for. */
  lemma KeypathIsRead(head: seq<u8>, pairs: seq<seq<u8>>, buf: seq<u8>, pos: nat)
    requires MapHead(head, |pairs|) && AllPathPairs(pairs) && Stands(buf, pos, head + Concat(pairs))
    ensures KeypathAt(buf, pos).Ok? <==> DistinctPathKeys(pairs, {})
    ensures KeypathAt(buf, pos).Err? ==> KeypathAt(buf, pos) == Err(DuplicateField)
  {
    hide *;
    KeypathIsPut(head, pairs, buf, pos);
    PutUnlessRepeated(pairs, NO_PATH, {});
  }

  /** A keypath is the same, and is refused the same, in every order of its pairs. */
  lemma PathOrderDoesNotMatter(head: seq<u8>, a: seq<seq<u8>>, b: seq<seq<u8>>, pre: seq<u8>, more: seq<u8>)
    requires MapHead(head, |a|) && AllPathPairs(a) && multiset(a) == multiset(b)
    ensures KeypathAt(pre + (head + Concat(a)) + more, |pre|) == KeypathAt(pre + (head + Concat(b)) + more, |pre|)
  {
    assert |a| == |multiset(a)| == |multiset(b)| == |b|;
    hide *;
    AnyOrderPuts(a, b, NO_PATH, {});
    SameSize(a, b);
    Inside(pre, head + Concat(a), more);
    Inside(pre, head + Concat(b), more);
    KeypathIsPut(head, a, pre + (head + Concat(a)) + more, |pre|);
    KeypathIsPut(head, b, pre + (head + Concat(b)) + more, |pre|);
  }

  lemma Inside(pre: seq<u8>, part: seq<u8>, more: seq<u8>)
    ensures Stands(pre + part + more, |pre|, part)
  {
    assert (pre + part + more)[|pre|..|pre| + |part|] == part;
  }

  // --------------------------------------------- every keypath is such a map

  lemma KeypathIsPairs(buf: seq<u8>, pos: nat) returns (head: seq<u8>, pairs: seq<seq<u8>>)
    requires KeypathAt(buf, pos).Ok?
    ensures MapHead(head, |pairs|) && AllPathPairs(pairs) && Stands(buf, pos, head + Concat(pairs))
    ensures KeypathAt(buf, pos).end == pos + |head| + |Concat(pairs)|
  {
    hide PathPairs, IsPathPair, AllPathPairs;
    var n := ArgOf(buf, pos, 5);
    head := buf[pos..n.end];
    SliceIsAlike(buf, pos, n.end);
    ArgMoves(buf, pos, head, 0, n.end - pos, 5);
    pairs := PathPairsInside(buf, n.end, n.value, NO_PATH, {});
    assert head + buf[n.end..KeypathAt(buf, pos).end] == buf[pos..KeypathAt(buf, pos).end];
  }

  lemma {:induction false} PathPairsInside(buf: seq<u8>, pos: nat, n: nat, kp: Keypath, seen: set<nat>) returns (pairs: seq<seq<u8>>)
    requires pos <= |buf| && PathPairs(buf, pos, n, kp, seen).Ok?
    ensures pos <= PathPairs(buf, pos, n, kp, seen).end <= |buf|
    ensures |pairs| == n && AllPathPairs(pairs) && Concat(pairs) == buf[pos..PathPairs(buf, pos, n, kp, seen).end]
    decreases n
  {
    hide ArgOf, PathFieldAt, IsPathPair;
    if n == 0 {
      pairs := [];
    } else {
      var key := ArgOf(buf, pos, 0);
      var f := PathFieldAt(buf, key.end, key.value, kp);
      var rest := PathPairsInside(buf, f.end, n - 1, f.value, seen + {key.value});
      FieldIsPut(buf, key.end, key.value, kp);
      PathPairInside(buf, pos);
      pairs := [buf[pos..f.end]] + rest;
      var end := PathPairs(buf, pos, n, kp, seen).end;
      assert buf[pos..f.end] + buf[f.end..end] == buf[pos..end];
    }
  }

  lemma PathPairInside(buf: seq<u8>, pos: nat)
    requires ArgOf(buf, pos, 0).Ok? && 1 <= ArgOf(buf, pos, 0).value <= 3
    requires PathFieldAt(buf, ArgOf(buf, pos, 0).end, ArgOf(buf, pos, 0).value, NO_PATH).Ok?
    ensures IsPathPair(buf[pos..PathFieldAt(buf, ArgOf(buf, pos, 0).end, ArgOf(buf, pos, 0).value, NO_PATH).end])
  {
    hide ArgOf, PathFieldAt, Alike;
    var key := ArgOf(buf, pos, 0);
    var end := PathFieldAt(buf, key.end, key.value, NO_PATH).end;
    var pair := buf[pos..end];
    var n := end - pos;
    SliceIsAlike(buf, pos, end);
    ArgMoves(buf, pos, pair, 0, n, 0);
    AlikeAt(buf, pos, pair, 0, n, key.end - pos);
    PathFieldMoves(buf, key.end, pair, key.end - pos, end - key.end, key.value, NO_PATH);
  }
}
