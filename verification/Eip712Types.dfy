/** The type table and encodeType. */
module Eip712Types {
  import opened Bytes

  // The type table of a typed-data document and the encodeType string that its
  // typeHash is taken over ("Definition of encodeType" in EIP-712).

  const EIP712_MAX_DEPTH := 3
  const EIP712_MAX_FIELDS := 12
  const EIP712_MAX_TYPES := 8
  const ENCODED_TYPE_SIZE := 512

  const OPENING: u8 := 40
  const CLOSING: u8 := 41
  const COMMA: u8 := 44
  const SPACE: u8 := 32
  const BRACKET: u8 := 91

  /** A name as it stands in the document. */
  type Name = seq<u8>

  /** One entry of a struct type: what it is called, and the spelling of its type. */
  datatype FieldDef = FieldDef(name: Name, kind: Name)

  /** The fields of a struct in declared order; one that cannot be read is None. */
  type Fields = seq<Option<FieldDef>>

  type Table = map<Name, Fields>

  // -------------------------------------------------------------- name order

  /** Bytewise order, the shorter first on a common prefix. */
  predicate Before(a: Name, b: Name) {
    if |b| == 0 then false
    else if |a| == 0 then true
    else if a[0] != b[0] then a[0] < b[0]
    else Before(a[1..], b[1..])
  }

  lemma {:induction false} BeforeIsTotal(a: Name, b: Name)
    ensures Before(a, b) || a == b || Before(b, a)
    ensures !(Before(a, b) && Before(b, a))
  {
    if |a| > 0 && |b| > 0 && a[0] == b[0] {
      BeforeIsTotal(a[1..], b[1..]);
      assert a == [a[0]] + a[1..] && b == [b[0]] + b[1..];
    }
  }

  lemma {:induction false} BeforeIsTransitive(a: Name, b: Name, c: Name)
    requires Before(a, b) && Before(b, c)
    ensures Before(a, c)
  {
    if |a| > 0 && a[0] == b[0] == c[0] { BeforeIsTransitive(a[1..], b[1..], c[1..]); }
  }

  lemma {:induction false} NotBeforeItself(a: Name)
    ensures !Before(a, a)
  {
    BeforeIsTotal(a, a);
  }

  predicate Ascending(s: seq<Name>) { forall i, j | 0 <= i < j < |s| :: Before(s[i], s[j]) }

  predicate Distinct(s: seq<Name>) { forall i, j | 0 <= i < j < |s| :: s[i] != s[j] }

  /** x put behind everything that is not after it. */
  function Insert(s: seq<Name>, x: Name): (r: seq<Name>)
    ensures |r| == |s| + 1
    ensures forall y :: y in r <==> y in s || y == x
  {
    if |s| == 0 || !Before(x, s[|s| - 1]) then s + [x]
    else
      assert s == s[..|s| - 1] + [s[|s| - 1]];
      Insert(s[..|s| - 1], x) + [s[|s| - 1]]
  }

  function Sorted(s: seq<Name>): (r: seq<Name>)
    ensures |r| == |s|
    ensures forall y :: y in r <==> y in s
  {
    if |s| == 0 then []
    else
      assert s == s[..|s| - 1] + [s[|s| - 1]];
      Insert(Sorted(s[..|s| - 1]), s[|s| - 1])
  }

  lemma {:induction false} InsertKeepsOrder(s: seq<Name>, x: Name)
    requires Ascending(s) && x !in s
    ensures Ascending(Insert(s, x))
  {
    if |s| > 0 {
      var rest, last := s[..|s| - 1], s[|s| - 1];
      BeforeIsTotal(x, last);
      if Before(x, last) {
        InsertKeepsOrder(rest, x);
        var r := Insert(rest, x);
        forall i | 0 <= i < |r| ensures Before(r[i], last) {
          assert r[i] in r;
          if r[i] != x { var k :| 0 <= k < |rest| && rest[k] == r[i]; assert Before(s[k], s[|s| - 1]); }
        }
      } else {
        forall i | 0 <= i < |s| ensures Before(s[i], x) {
          if i < |s| - 1 { BeforeIsTransitive(s[i], last, x); }
        }
      }
    }
  }

  lemma {:induction false} SortedAscends(s: seq<Name>)
    requires Distinct(s)
    ensures Ascending(Sorted(s))
  {
    if |s| > 0 {
      var rest, last := s[..|s| - 1], s[|s| - 1];
      SortedAscends(rest);
      assert last !in rest;
      InsertKeepsOrder(Sorted(rest), last);
    }
  }

  /** The members of a set have one ascending order only. */
  lemma {:induction false} AscendingIsUnique(s: seq<Name>, t: seq<Name>)
    requires Ascending(s) && Ascending(t)
    requires forall y :: y in s <==> y in t
    ensures s == t
  {
    assert |t| > 0 ==> t[0] in s;
    assert |s| > 0 ==> s[0] in t;
    if |s| > 0 {
      FirstIsLeast(s, t[0]);
      FirstIsLeast(t, s[0]);
      BeforeIsTotal(s[0], t[0]);
      assert s == [s[0]] + s[1..] && t == [t[0]] + t[1..];
      NotBeforeItself(s[0]);
      forall y ensures y in s[1..] <==> y in t[1..] {
        MemberOfRest(s, y);
        MemberOfRest(t, y);
      }
      AscendingIsUnique(s[1..], t[1..]);
    }
  }

  lemma FirstIsLeast(s: seq<Name>, y: Name)
    requires Ascending(s) && y in s
    ensures y == s[0] || Before(s[0], y)
  {}

  lemma MemberOfRest(s: seq<Name>, y: Name)
    requires Ascending(s) && |s| > 0
    ensures y in s[1..] <==> y in s && y != s[0]
  {
    NotBeforeItself(s[0]);
    assert s == [s[0]] + s[1..];
  }

  // --------------------------------------------------------- referenced types

  /** Every struct type that fields from i on refer to, found depth first, added to
      those already seen; arrays are refused, and so is nesting past the limit. */
  function RefsFrom(table: Table, fields: Fields, i: nat, root: Name, deps: seq<Name>, depth: nat): (r: Option<seq<Name>>)
    requires i <= |fields|
    ensures r.Some? ==> |deps| <= |r.value| && r.value[..|deps|] == deps
    decreases if depth <= EIP712_MAX_DEPTH then EIP712_MAX_DEPTH + 1 - depth else 0, |fields| - i
  {
    if depth > EIP712_MAX_DEPTH then None
    else if i == |fields| then Some(deps)
    else
      match fields[i]
      case None => None
      case Some(field) =>
        var ref := field.kind;
        if BRACKET in ref then None
        else if ref !in table || ref == root || ref in deps then RefsFrom(table, fields, i + 1, root, deps, depth)
        else if |deps| >= EIP712_MAX_TYPES then None
        else
          match RefsFrom(table, table[ref], 0, root, deps + [ref], depth + 1)
          case None => None
          case Some(more) =>
            assert more[..|deps|] == more[..|deps + [ref]|][..|deps|];
            RefsFrom(table, fields, i + 1, root, more, depth)
  }

  function Refs(table: Table, root: Name): Option<seq<Name>>
    requires root in table
  {
    RefsFrom(table, table[root], 0, root, [], 0)
  }

  /** Some field from i on, below n, has struct type b. */
  ghost predicate Mentions(table: Table, fields: Fields, i: nat, b: Name) {
    b in table && exists k | i <= k < |fields| :: fields[k].Some? && fields[k].value.kind == b
  }

  ghost predicate RefersTo(table: Table, a: Name, b: Name) {
    a in table && Mentions(table, table[a], 0, b)
  }

  /** b is reached from a in so many references. */
  ghost predicate Reaches(table: Table, a: Name, b: Name, steps: nat)
    decreases steps
  {
    if steps == 0 then a == b
    else exists m :: Reaches(table, a, m, steps - 1) && RefersTo(table, m, b)
  }

  ghost predicate Reachable(table: Table, a: Name, b: Name) {
    exists steps: nat :: Reaches(table, a, b, steps)
  }

  /** Everything the fields from i on refer to is among deps, or is the root. */
  ghost predicate ClosedUnder(table: Table, fields: Fields, i: nat, root: Name, deps: seq<Name>) {
    forall b | Mentions(table, fields, i, b) :: b == root || b in deps
  }

  ghost predicate AllNew(table: Table, root: Name, deps: seq<Name>, out: seq<Name>) {
    forall x | x in out && x !in deps :: x in table && ClosedUnder(table, table[x], 0, root, out)
  }

  lemma ClosedGrows(table: Table, fields: Fields, i: nat, root: Name, deps: seq<Name>, out: seq<Name>)
    requires ClosedUnder(table, fields, i, root, deps) && |deps| <= |out| && out[..|deps|] == deps
    ensures ClosedUnder(table, fields, i, root, out)
  {
    forall b | Mentions(table, fields, i, b) ensures b == root || b in out {
      if b != root {
        var k :| 0 <= k < |deps| && deps[k] == b;
        assert out[k] == out[..|deps|][k];
      }
    }
  }

  lemma ClosedStep(table: Table, fields: Fields, i: nat, root: Name, out: seq<Name>)
    requires i < |fields| && fields[i].Some? && ClosedUnder(table, fields, i + 1, root, out)
    requires fields[i].value.kind in table ==> fields[i].value.kind == root || fields[i].value.kind in out
    ensures ClosedUnder(table, fields, i, root, out)
  {
    forall b | Mentions(table, fields, i, b) ensures b == root || b in out {
      var k :| i <= k < |fields| && fields[k].Some? && fields[k].value.kind == b;
      if k > i { assert Mentions(table, fields, i + 1, b); }
    }
  }

  lemma StillIn(deps: seq<Name>, out: seq<Name>, x: Name)
    requires |deps| <= |out| && out[..|deps|] == deps && x in deps
    ensures x in out
  {
    assert x in out[..|deps|];
  }

  /** What was found is complete: the fields looked at, and every type added, refer
      to nothing outside. */
  lemma {:induction false} FoundIsClosed(table: Table, fields: Fields, i: nat, root: Name, deps: seq<Name>, depth: nat,
                                         out: seq<Name>)
    requires i <= |fields| && RefsFrom(table, fields, i, root, deps, depth) == Some(out)
    ensures ClosedUnder(table, fields, i, root, out)
    ensures AllNew(table, root, deps, out)
    decreases if depth <= EIP712_MAX_DEPTH then EIP712_MAX_DEPTH + 1 - depth else 0, |fields| - i
  {
    hide ClosedUnder;
    if i == |fields| {
      NothingLeft(table, fields, root, out);
    } else {
      var ref := fields[i].value.kind;
      if ref !in table || ref == root || ref in deps {
        FoundIsClosed(table, fields, i + 1, root, deps, depth, out);
        if ref in deps { StillIn(deps, out, ref); }
        ClosedStep(table, fields, i, root, out);
      } else {
        var more := RefsFrom(table, table[ref], 0, root, deps + [ref], depth + 1).value;
        FoundIsClosed(table, table[ref], 0, root, deps + [ref], depth + 1, more);
        FoundIsClosed(table, fields, i + 1, root, more, depth, out);
        StillIn(deps + [ref], more, ref);
        StillIn(more, out, ref);
        ClosedStep(table, fields, i, root, out);
        forall x | x in out && x !in deps ensures x in table && ClosedUnder(table, table[x], 0, root, out) {
          if x in more {
            ClosedGrows(table, table[if x == ref then ref else x], 0, root, more, out);
          }
        }
      }
    }
  }

  lemma NothingLeft(table: Table, fields: Fields, root: Name, out: seq<Name>)
    ensures ClosedUnder(table, fields, |fields|, root, out)
  {}

  /** What was found is sound: distinct types of the table, none of them the root,
      each reached from the struct whose fields were looked at. */
  ghost predicate Found(table: Table, root: Name, deps: seq<Name>) {
    Distinct(deps) && forall x | x in deps :: x in table && x != root && Reachable(table, root, x)
  }

  lemma {:induction false} FoundIsReachable(table: Table, from: Name, i: nat, root: Name, deps: seq<Name>, depth: nat,
                                            out: seq<Name>)
    requires from in table && i <= |table[from]| && Reachable(table, root, from) && Found(table, root, deps)
    requires RefsFrom(table, table[from], i, root, deps, depth) == Some(out)
    ensures Found(table, root, out)
    decreases if depth <= EIP712_MAX_DEPTH then EIP712_MAX_DEPTH + 1 - depth else 0, |table[from]| - i
  {
    hide Reachable;
    var fields := table[from];
    if i < |fields| {
      var ref := fields[i].value.kind;
      if ref !in table || ref == root || ref in deps {
        FoundIsReachable(table, from, i + 1, root, deps, depth, out);
      } else {
        var more := RefsFrom(table, table[ref], 0, root, deps + [ref], depth + 1).value;
        assert Mentions(table, fields, 0, ref);
        OneStepFurther(table, root, from, ref);
        FoundIsReachable(table, ref, 0, root, deps + [ref], depth + 1, more);
        FoundIsReachable(table, from, i + 1, root, more, depth, out);
      }
    }
  }

  lemma OneStepFurther(table: Table, a: Name, m: Name, b: Name)
    requires Reachable(table, a, m) && RefersTo(table, m, b)
    ensures Reachable(table, a, b)
  {
    var steps: nat :| Reaches(table, a, m, steps);
    assert Reaches(table, a, b, steps + 1);
  }

  lemma {:induction false} ClosedHoldsReached(table: Table, root: Name, out: seq<Name>, b: Name, steps: nat)
    requires root in table && ClosedUnder(table, table[root], 0, root, out) && AllNew(table, root, [], out)
    requires Reaches(table, root, b, steps)
    ensures b == root || b in out
    decreases steps
  {
    if steps > 0 {
      var m :| Reaches(table, root, m, steps - 1) && RefersTo(table, m, b);
      ClosedHoldsReached(table, root, out, m, steps - 1);
    }
  }

  /** The referenced types are exactly the transitive references, root excluded, each once. */
  lemma RefsAreTheClosure(table: Table, root: Name)
    requires root in table && Refs(table, root).Some?
    ensures Distinct(Refs(table, root).value)
    ensures forall b :: b in Refs(table, root).value <==> b != root && Reachable(table, root, b)
  {
    var out := Refs(table, root).value;
    assert Reaches(table, root, root, 0);
    FoundIsReachable(table, root, 0, root, [], 0, out);
    FoundIsClosed(table, table[root], 0, root, [], 0, out);
    forall b | Reachable(table, root, b) ensures b == root || b in out {
      var steps: nat :| Reaches(table, root, b, steps);
      ClosedHoldsReached(table, root, out, b, steps);
    }
  }

  // -------------------------------------------------------------- encodeType

  /** The first n fields: type, space, name, separated by commas. */
  function FieldList(fields: Fields, n: nat): Option<seq<u8>>
    requires n <= |fields|
  {
    if n == 0 then Some([])
    else
      var before :- FieldList(fields, n - 1);
      var f :- fields[n - 1];
      Some(before + (if n > 1 then [COMMA] else []) + f.kind + [SPACE] + f.name)
  }

  /** One struct: its name, and its fields in parentheses. */
  function Fragment(table: Table, name: Name): Option<seq<u8>>
    requires name in table
  {
    var list :- FieldList(table[name], |table[name]|);
    Some(name + [OPENING] + list + [CLOSING])
  }

  function Fragments(table: Table, names: seq<Name>): Option<seq<u8>>
    requires forall x | x in names :: x in table
  {
    if |names| == 0 then Some([])
    else
      assert forall x | x in names[..|names| - 1] :: x in names;
      var before :- Fragments(table, names[..|names| - 1]);
      var last :- Fragment(table, names[|names| - 1]);
      Some(before + last)
  }

  lemma {:induction false} RefsAreKnown(table: Table, fields: Fields, i: nat, root: Name, deps: seq<Name>, depth: nat)
    requires i <= |fields| && forall x | x in deps :: x in table
    ensures RefsFrom(table, fields, i, root, deps, depth).Some? ==>
      forall x | x in RefsFrom(table, fields, i, root, deps, depth).value :: x in table
    decreases if depth <= EIP712_MAX_DEPTH then EIP712_MAX_DEPTH + 1 - depth else 0, |fields| - i
  {
    if depth <= EIP712_MAX_DEPTH && i < |fields| && fields[i].Some? {
      var ref := fields[i].value.kind;
      if ref !in table || ref == root || ref in deps {
        RefsAreKnown(table, fields, i + 1, root, deps, depth);
      } else {
        RefsAreKnown(table, table[ref], 0, root, deps + [ref], depth + 1);
        var more := RefsFrom(table, table[ref], 0, root, deps + [ref], depth + 1);
        if more.Some? { RefsAreKnown(table, fields, i + 1, root, more.value, depth); }
      }
    }
  }

  /** The struct, then its references in name order; what does not fit the buffer is refused. */
  function EncodeType(table: Table, root: Name, size: nat): (r: Option<seq<u8>>)
    requires root in table
    ensures r.Some? ==> |r.value| < size
  {
    RefsAreKnown(table, table[root], 0, root, [], 0);
    var deps :- Refs(table, root);
    var first :- Fragment(table, root);
    var rest :- Fragments(table, Sorted(deps));
    if |first + rest| < size then Some(first + rest) else None
  }

  /** encodeType, when it succeeds, is the struct followed by exactly its transitive
      references, each once and in bytewise name order. */
  lemma EncodeTypeIsTheOrderedClosure(table: Table, root: Name, size: nat) returns (names: seq<Name>)
    requires root in table && EncodeType(table, root, size).Some?
    ensures Ascending(names)
    ensures forall b :: b in names <==> b != root && Reachable(table, root, b)
    ensures forall x | x in names :: x in table
    ensures Fragment(table, root).Some? && Fragments(table, names).Some?
    ensures EncodeType(table, root, size) == Some(Fragment(table, root).value + Fragments(table, names).value)
  {
    hide Fragment, Fragments, Refs;
    RefsAreTheClosure(table, root);
    names := Sorted(Refs(table, root).value);
    SortedAscends(Refs(table, root).value);
  }

  /** Only what is reachable matters, and the order in which it was found does not:
      any list of exactly the reachable types, in name order, gives the same string. */
  lemma OnlyOneOrderedClosure(table: Table, root: Name, size: nat, names: seq<Name>)
    requires root in table && EncodeType(table, root, size).Some?
    requires Ascending(names) && forall b :: b in names <==> b != root && Reachable(table, root, b)
    ensures (forall x | x in names :: x in table) && Fragment(table, root).Some? && Fragments(table, names).Some?
    ensures EncodeType(table, root, size) == Some(Fragment(table, root).value + Fragments(table, names).value)
  {
    hide *;
    var sorted := EncodeTypeIsTheOrderedClosure(table, root, size);
    AscendingIsUnique(sorted, names);
  }
}
