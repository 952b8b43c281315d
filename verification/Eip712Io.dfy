/** The typed-data code as it runs: the recorded type table, the reference list sorted
    in place, the encodeType buffer, and the traversal that fills the screen. */
module Eip712Io {
  import opened Bytes
  import opened Cbor
  import opened CborIo
  import opened Decimal
  import opened Eip712
  import Eip712Text
  import opened Eip712Types
  import opened Eip712Walk

  // --------------------------------------------------------- the type table

  /** What was read so far, before what is still to come. */
  function Behind(types: seq<TypeDef>, more: Option<seq<TypeDef>>): Option<seq<TypeDef>> {
    if more.None? then None else Some(types + more.value)
  }

  method ParseEntry(r: CborReader, have: nat) returns (def: Option<TypeDef>)
    requires r.Valid()
    modifies r
    ensures r.Valid()
    ensures def.Some? <==> EntryAt(r.buf, old(r.pos), have).Some?
    ensures def.Some? ==> Finds(EntryAt(r.buf, old(r.pos), have), def.value, r.pos)
  {
    hide ItemAt, EndOfAll;
    var k := r.Read();
    if k.None? || !k.value.kind.Text? { return None; }
    var v := r.Read();
    if v.None? || !v.value.kind.Array? { return None; }
    if v.value.value > EIP712_MAX_FIELDS { return None; }
    if have >= EIP712_MAX_TYPES { return None; }
    def := Some(TypeDef(k.value.data, r.pos, v.value.value));
    ghost var taken;
    var ok;
    ok, taken := SkipEach(r, v.value.value);
    if !ok { return None; }
  }

  /** Step over items one by one, each skipped from the top of its own nesting. */
  method SkipEach(r: CborReader, count: nat) returns (ok: bool, ghost taken: nat)
    requires r.Valid()
    modifies r
    ensures r.Valid() && old(r.pos) <= r.pos
    ensures ok <==> EndOfAll(r.buf, old(r.pos), 0, count).Some?
    ensures ok ==> EndOfAll(r.buf, old(r.pos), 0, count) == Some(r.pos)
  {
    hide EndOf;
    taken := 0;
    var i := 0;
    while i < count
      invariant 0 <= i <= count && r.Valid() && old(r.pos) <= r.pos
      invariant EndOfAll(r.buf, old(r.pos), 0, count) == EndOfAll(r.buf, r.pos, 0, count - i)
    {
      ok := r.Skip();
      if !ok { return; }
      i := i + 1;
    }
    ok := true;
  }

  method ParseEntries(r: CborReader, count: nat) returns (types: Option<seq<TypeDef>>)
    requires r.Valid()
    modifies r
    ensures types == TypesFrom(r.buf, old(r.pos), count, 0)
  {
    hide EntryAt;
    var defs := [];
    var i := 0;
    ghost var start := r.pos;
    NothingBehind(TypesFrom(r.buf, start, count, 0));
    while i < count
      invariant 0 <= i <= count && r.Valid() && |defs| == i
      invariant TypesFrom(r.buf, start, count, 0) == Behind(defs, TypesFrom(r.buf, r.pos, count - i, i))
    {
      var def := ParseEntry(r, |defs|);
      if def.None? { return None; }
      OneBehind(defs, def.value, TypesFrom(r.buf, r.pos, count - i - 1, i + 1));
      defs := defs + [def.value];
      i := i + 1;
    }
    assert defs + [] == defs;
    types := Some(defs);
  }

  lemma NothingBehind(more: Option<seq<TypeDef>>)
    ensures Behind([], more) == more
  {
    if more.Some? { assert [] + more.value == more.value; }
  }

  lemma OneBehind(types: seq<TypeDef>, def: TypeDef, more: Option<seq<TypeDef>>)
    ensures Behind(types, if more.None? then None else Some([def] + more.value)) == Behind(types + [def], more)
  {
    if more.Some? { assert types + ([def] + more.value) == types + [def] + more.value; }
  }

  /** Types are recorded, not validated: only the ones a document uses matter. */
  method ParseTypes(buf: seq<u8>) returns (types: Option<seq<TypeDef>>)
    ensures types == TypeDefs(buf)
  {
    hide ItemAt, MapAt, TypesFrom, Ascii;
    var at := FindInMap(buf, 0, Ascii("types"), 0);
    if at.None? { return None; }
    var r := new CborReader(buf);
    r.pos := at.value;
    var head := r.Read();
    if head.None? || !head.value.kind.Map? { return None; }
    types := ParseEntries(r, head.value.value);
  }

  /** The entry is the one that a lookup by its name finds. */
  ghost predicate First(types: seq<TypeDef>, t: nat) {
    t < |types| && forall k | 0 <= k < t :: types[k].name != types[t].name
  }

  method FindType(ghost buf: seq<u8>, types: seq<TypeDef>, name: Name) returns (t: int)
    ensures t >= 0 ==> First(types, t) && types[t].name == name && name in TableOf(buf, types)
    ensures t < 0 ==> t == -1 && name !in TableOf(buf, types)
  {
    hide DeclaredFields;
    t := 0;
    while t < |types|
      invariant 0 <= t <= |types| && forall k | 0 <= k < t :: types[k].name != name
    {
      if types[t].name == name { return; }
      t := t + 1;
    }
    t := -1;
  }

  method TextOf(buf: seq<u8>, pos: nat, key: seq<u8>) returns (text: Option<seq<u8>>)
    requires pos <= |buf|
    ensures text == TextUnder(buf, pos, key)
  {
    hide ItemAt, MapAt;
    var at := FindInMap(buf, pos, key, 0);
    if at.None? { return None; }
    var r := new CborReader(buf);
    r.pos := at.value;
    var item := r.Read();
    text := if item.Some? && item.value.kind.Text? then Some(item.value.data) else None;
  }

  /** The declared field of an entry, walking its field maps from the first each time. */
  method TypeField(buf: seq<u8>, def: TypeDef, index: nat) returns (field: Option<FieldDef>)
    ensures field == if index < def.fieldCount then DeclaredField(buf, def, index) else None
  {
    hide EndOfAll, TextUnder, Ascii;
    if index >= def.fieldCount || def.fieldsPos > |buf| { return None; }
    var r := new CborReader(buf);
    r.pos := def.fieldsPos;
    ghost var taken;
    var ok;
    ok, taken := SkipEach(r, index);
    if !ok { return None; }
    var name := TextOf(buf, r.pos, Ascii("name"));
    if name.None? { return None; }
    var kind := TextOf(buf, r.pos, Ascii("type"));
    if kind.None? { return None; }
    field := Some(FieldDef(name.value, kind.value));
  }

  // ------------------------------------------------------------- references

  /** The entries referred to so far. */
  class Deps {
    const ids: array<nat>
    var n: nat

    ghost predicate Valid(types: seq<TypeDef>)
      reads this, ids
    {
      ids.Length == EIP712_MAX_TYPES && n <= ids.Length && AllFirst(types, ids[..n])
    }

    ghost function Listed(types: seq<TypeDef>): seq<Name>
      requires Valid(types)
      reads this, ids
    {
      Names(types, ids[..n])
    }

    lemma Listing(types: seq<TypeDef>)
      requires Valid(types)
      ensures ids.Length == EIP712_MAX_TYPES && n == |Listed(types)| && n <= ids.Length
      ensures AllFirst(types, ids[..n]) && Listed(types) == Names(types, ids[..n])
    {}

    constructor ()
      ensures fresh(ids) && n == 0 && ids.Length == EIP712_MAX_TYPES
    {
      ids := new nat[EIP712_MAX_TYPES];
      n := 0;
    }
  }

  ghost predicate AllFirst(types: seq<TypeDef>, ids: seq<nat>) { forall i | 0 <= i < |ids| :: First(types, ids[i]) }

  ghost function Names(types: seq<TypeDef>, ids: seq<nat>): (names: seq<Name>)
    requires AllFirst(types, ids)
    ensures |names| == |ids| && forall i | 0 <= i < |ids| :: ids[i] < |types| && names[i] == types[ids[i]].name
  {
    seq(|ids|, i requires 0 <= i < |ids| => types[ids[i]].name)
  }

  lemma SameFirst(types: seq<TypeDef>, s: nat, t: nat)
    requires First(types, s) && First(types, t)
    ensures types[s].name == types[t].name <==> s == t
  {}

  lemma NamesGrow(types: seq<TypeDef>, ids: seq<nat>, t: nat)
    requires AllFirst(types, ids) && First(types, t)
    ensures AllFirst(types, ids + [t]) && Names(types, ids + [t]) == Names(types, ids) + [types[t].name]
  {}

  method Seen(ghost types: seq<TypeDef>, deps: Deps, r: nat) returns (seen: bool)
    requires deps.Valid(types) && First(types, r)
    ensures seen <==> types[r].name in deps.Listed(types)
  {
    var j := 0;
    while j < deps.n
      invariant 0 <= j <= deps.n && forall k | 0 <= k < j :: deps.ids[k] != r
    {
      if deps.ids[j] == r {
        assert Names(types, deps.ids[..deps.n])[j] == types[r].name;
        return true;
      }
      j := j + 1;
    }
    forall k | 0 <= k < deps.n ensures Names(types, deps.ids[..deps.n])[k] != types[r].name {
      assert First(types, deps.ids[..deps.n][k]);
      SameFirst(types, deps.ids[k], r);
    }
    seen := false;
  }

  /** The reference list after the rest of the work, as the specification has it. */
  ghost function RefsLeft(buf: seq<u8>, types: seq<TypeDef>, t: nat, i: nat, root: nat, names: seq<Name>, depth: nat): Option<seq<Name>>
    requires First(types, t) && First(types, root) && i <= types[t].fieldCount
  {
    FirstDefinitionCounts(buf, types, t);
    RefsFrom(TableOf(buf, types), DeclaredFields(buf, types[t]), i, types[root].name, names, depth)
  }

  /** One field's worth of the reference search. */
  lemma RefsStep(buf: seq<u8>, types: seq<TypeDef>, t: nat, i: nat, root: nat, names: seq<Name>, depth: nat, field: Option<FieldDef>)
    requires First(types, t) && First(types, root) && i < types[t].fieldCount && depth <= EIP712_MAX_DEPTH
    requires field == DeclaredField(buf, types[t], i)
    ensures field.None? ==> RefsLeft(buf, types, t, i, root, names, depth).None?
    ensures field.Some? && BRACKET in field.value.kind ==> RefsLeft(buf, types, t, i, root, names, depth).None?
    ensures field.Some? && BRACKET !in field.value.kind
      && (field.value.kind !in TableOf(buf, types) || field.value.kind == types[root].name || field.value.kind in names)
      ==> RefsLeft(buf, types, t, i, root, names, depth) == RefsLeft(buf, types, t, i + 1, root, names, depth)
  {
    hide TableOf;
  }

  /** The step into a type not seen before. */
  lemma RefsDescend(buf: seq<u8>, types: seq<TypeDef>, t: nat, i: nat, root: nat, names: seq<Name>, depth: nat, r: nat)
    requires First(types, t) && First(types, root) && First(types, r) && i < types[t].fieldCount && depth <= EIP712_MAX_DEPTH
    requires DeclaredField(buf, types[t], i).Some? && DeclaredField(buf, types[t], i).value.kind == types[r].name
    requires BRACKET !in types[r].name && types[r].name != types[root].name && types[r].name !in names
    ensures |names| >= EIP712_MAX_TYPES ==> RefsLeft(buf, types, t, i, root, names, depth).None?
    ensures |names| < EIP712_MAX_TYPES && RefsLeft(buf, types, r, 0, root, names + [types[r].name], depth + 1).None? ==>
      RefsLeft(buf, types, t, i, root, names, depth).None?
    ensures |names| < EIP712_MAX_TYPES && RefsLeft(buf, types, r, 0, root, names + [types[r].name], depth + 1).Some? ==>
      RefsLeft(buf, types, t, i, root, names, depth)
        == RefsLeft(buf, types, t, i + 1, root, RefsLeft(buf, types, r, 0, root, names + [types[r].name], depth + 1).value, depth)
  {
    hide TableOf;
    FirstDefinitionCounts(buf, types, r);
  }

  /** Every struct type an entry refers to, transitively, the root excluded; arrays are
      refused right here. */
  method CollectRefs(buf: seq<u8>, types: seq<TypeDef>, t: nat, root: nat, deps: Deps, depth: nat) returns (ok: bool)
    requires First(types, t) && First(types, root) && deps.Valid(types) && depth <= EIP712_MAX_DEPTH + 1
    modifies deps, deps.ids
    ensures deps.Valid(types)
    ensures !ok ==> RefsLeft(buf, types, t, 0, root, old(deps.Listed(types)), depth) == None
    ensures ok ==> RefsLeft(buf, types, t, 0, root, old(deps.Listed(types)), depth) == Some(deps.Listed(types))
    decreases EIP712_MAX_DEPTH + 1 - depth, 1
  {
    hide *;
    ghost var was := deps.Listed(types);
    KnownCount(types, t);
    if depth > EIP712_MAX_DEPTH {
      TooDeep(buf, types, t, root, was, depth);
      return false;
    }
    var i := 0;
    while i < types[t].fieldCount
      invariant 0 <= i <= types[t].fieldCount && deps.Valid(types)
      invariant RefsLeft(buf, types, t, 0, root, was, depth) == RefsLeft(buf, types, t, i, root, deps.Listed(types), depth)
    {
      ok := VisitField(buf, types, t, i, root, deps, depth);
      if !ok { return; }
      i := i + 1;
    }
    RefsEnd(buf, types, t, root, deps.Listed(types), depth);
    ok := true;
  }

  method VisitField(buf: seq<u8>, types: seq<TypeDef>, t: nat, i: nat, root: nat, deps: Deps, depth: nat) returns (ok: bool)
    requires First(types, t) && First(types, root) && deps.Valid(types) && depth <= EIP712_MAX_DEPTH && i < types[t].fieldCount
    modifies deps, deps.ids
    ensures deps.Valid(types)
    ensures !ok ==> RefsLeft(buf, types, t, i, root, old(deps.Listed(types)), depth) == None
    ensures ok ==>
      RefsLeft(buf, types, t, i, root, old(deps.Listed(types)), depth) == RefsLeft(buf, types, t, i + 1, root, deps.Listed(types), depth)
    decreases EIP712_MAX_DEPTH + 1 - depth, 0
  {
    hide *;
    KnownCount(types, t);
    KnownCount(types, root);
    ghost var names := deps.Listed(types);
    var field := TypeField(buf, types[t], i);
    RefsStep(buf, types, t, i, root, names, depth, field);
    if field.None? || BRACKET in field.value.kind { return false; }
    var r := FindType(buf, types, field.value.kind);
    if r < 0 || r == root { return true; }
    SameFirst(types, r, root);
    var seen := Seen(types, deps, r);
    if seen { return true; }
    RefsDescend(buf, types, t, i, root, names, depth, r);
    deps.Listing(types);
    if deps.n >= EIP712_MAX_TYPES { return false; }
    Append(types, deps, r);
    ok := CollectRefs(buf, types, r, root, deps, depth + 1);
  }

  lemma KnownCount(types: seq<TypeDef>, t: nat)
    requires First(types, t)
    ensures t < |types|
  {}

  lemma TooDeep(buf: seq<u8>, types: seq<TypeDef>, t: nat, root: nat, names: seq<Name>, depth: nat)
    requires First(types, t) && First(types, root) && depth > EIP712_MAX_DEPTH
    ensures RefsLeft(buf, types, t, 0, root, names, depth) == None
  {}

  lemma RefsEnd(buf: seq<u8>, types: seq<TypeDef>, t: nat, root: nat, names: seq<Name>, depth: nat)
    requires First(types, t) && First(types, root) && depth <= EIP712_MAX_DEPTH
    ensures RefsLeft(buf, types, t, types[t].fieldCount, root, names, depth) == Some(names)
  {}

  method Append(ghost types: seq<TypeDef>, deps: Deps, r: nat)
    requires deps.Valid(types) && First(types, r) && deps.n < EIP712_MAX_TYPES
    modifies deps, deps.ids
    ensures deps.Valid(types) && deps.n == old(deps.n) + 1
    ensures deps.Listed(types) == old(deps.Listed(types)) + [types[r].name]
  {
    ghost var was := deps.ids[..deps.n];
    deps.ids[deps.n] := r;
    deps.n := deps.n + 1;
    assert deps.ids[..deps.n] == was + [r];
    NamesGrow(types, was, r);
  }

  // ------------------------------------------------------------------ sorting

  /** memcmp over the common length, then the shorter first. */
  method ComesBefore(a: Name, b: Name) returns (before: bool)
    ensures before == Before(a, b)
  {
    var n := if |a| < |b| then |a| else |b|;
    var i := 0;
    while i < n && a[i] == b[i]
      invariant 0 <= i <= n && Before(a, b) == Before(a[i..], b[i..])
    {
      assert a[i..][1..] == a[i + 1..] && b[i..][1..] == b[i + 1..];
      i := i + 1;
    }
    before := if i < n then a[i] < b[i] else |a| < |b|;
  }

  function NameAt(types: seq<TypeDef>, t: nat): Name { if t < |types| then types[t].name else [] }

  /** The insertion on entries instead of names. */
  function InsertId(types: seq<TypeDef>, s: seq<nat>, x: nat): (r: seq<nat>)
    ensures |r| == |s| + 1
  {
    if |s| == 0 || !Before(NameAt(types, x), NameAt(types, s[|s| - 1])) then s + [x]
    else InsertId(types, s[..|s| - 1], x) + [s[|s| - 1]]
  }

  function SortedIds(types: seq<TypeDef>, s: seq<nat>): (r: seq<nat>)
    ensures |r| == |s|
  {
    if |s| == 0 then [] else InsertId(types, SortedIds(types, s[..|s| - 1]), s[|s| - 1])
  }

  lemma {:induction false} InsertIdNames(types: seq<TypeDef>, s: seq<nat>, x: nat)
    requires AllFirst(types, s) && First(types, x)
    ensures AllFirst(types, InsertId(types, s, x))
    ensures Names(types, InsertId(types, s, x)) == Insert(Names(types, s), types[x].name)
  {
    hide First;
    if |s| > 0 {
      assert s == s[..|s| - 1] + [s[|s| - 1]] && First(types, s[|s| - 1]);
      FirstIsListed(types, x);
      FirstIsListed(types, s[|s| - 1]);
      assert Names(types, s)[..|s| - 1] == Names(types, s[..|s| - 1]);
      if Before(NameAt(types, x), NameAt(types, s[|s| - 1])) {
        InsertIdNames(types, s[..|s| - 1], x);
        NamesGrow(types, InsertId(types, s[..|s| - 1], x), s[|s| - 1]);
      } else {
        NamesGrow(types, s, x);
      }
    }
  }

  lemma FirstIsListed(types: seq<TypeDef>, t: nat)
    requires First(types, t)
    ensures t < |types| && NameAt(types, t) == types[t].name
  {}

  /** Sorting the entries sorts their names. */
  lemma {:induction false} SortedIdsNames(types: seq<TypeDef>, s: seq<nat>)
    requires AllFirst(types, s)
    ensures AllFirst(types, SortedIds(types, s)) && Names(types, SortedIds(types, s)) == Sorted(Names(types, s))
  {
    hide First;
    if |s| > 0 {
      assert First(types, s[|s| - 1]);
      SortedIdsNames(types, s[..|s| - 1]);
      InsertIdNames(types, SortedIds(types, s[..|s| - 1]), s[|s| - 1]);
      assert Names(types, s)[..|s| - 1] == Names(types, s[..|s| - 1]);
    }
  }

  lemma InsertShifts(types: seq<TypeDef>, s: seq<nat>, j: nat, x: nat)
    requires j <= |s|
    ensures j > 0 && Before(NameAt(types, x), NameAt(types, s[j - 1])) ==>
      InsertId(types, s[..j], x) == InsertId(types, s[..j - 1], x) + [s[j - 1]]
    ensures j == 0 || !Before(NameAt(types, x), NameAt(types, s[j - 1])) ==> InsertId(types, s[..j], x) == s[..j] + [x]
  {
    if j > 0 { assert s[..j][..j - 1] == s[..j - 1]; }
  }

  /** Move the entry at i to its place among those before it, shifting the ones after. */
  method InsertInPlace(types: seq<TypeDef>, ids: array<nat>, i: nat)
    requires i < ids.Length
    modifies ids
    ensures ids[..i + 1] == InsertId(types, old(ids[..i]), old(ids[i])) && ids[i + 1..] == old(ids[i + 1..])
  {
    var key := ids[i];
    ghost var was := ids[..];
    hide *;
    var j := i;
    while j > 0
      invariant 0 <= j <= i && Shifted(ids[..], was, j, i)
      invariant InsertId(types, was[..i], key) == InsertId(types, was[..j], key) + was[j..i]
    {
      InsertShifts(types, was, j, key);
      ShiftedAt(ids[..], was, j, i);
      var after := ComesBefore(NameAt(types, key), NameAt(types, ids[j - 1]));
      if !after { break; }
      ShiftedStep(ids[..], was, j, i);
      InsertStep(InsertId(types, was[..j - 1], key), was, j, i);
      ids[j] := ids[j - 1];
      j := j - 1;
    }
    InsertShifts(types, was, j, key);
    ShiftedEnd(ids[..], was, j, i, key);
    ids[j] := key;
  }

  /** The entries from j on have moved up by one. */
  ghost predicate Shifted(now: seq<nat>, was: seq<nat>, j: nat, i: nat) {
    |now| == |was| && j <= i < |was| && now[..j] == was[..j] && now[j + 1..i + 1] == was[j..i] && now[i + 1..] == was[i + 1..]
  }

  lemma ShiftedAt(now: seq<nat>, was: seq<nat>, j: nat, i: nat)
    requires Shifted(now, was, j, i) && j > 0
    ensures now[j - 1] == was[j - 1] && |now| == |was|
  {
    assert now[..j][j - 1] == was[..j][j - 1];
  }

  lemma ShiftedStep(now: seq<nat>, was: seq<nat>, j: nat, i: nat)
    requires Shifted(now, was, j, i) && j > 0
    ensures Shifted(now[j := now[j - 1]], was, j - 1, i)
  {
    ShiftedAt(now, was, j, i);
    var next := now[j := now[j - 1]];
    assert next[..j - 1] == now[..j][..j - 1] == was[..j][..j - 1] == was[..j - 1];
    assert next[j..i + 1] == [was[j - 1]] + now[j + 1..i + 1] == [was[j - 1]] + was[j..i] == was[j - 1..i];
    assert next[i + 1..] == now[i + 1..];
  }

  lemma InsertStep(before: seq<nat>, was: seq<nat>, j: nat, i: nat)
    requires 0 < j <= i < |was|
    ensures before + [was[j - 1]] + was[j..i] == before + was[j - 1..i]
  {
    assert [was[j - 1]] + was[j..i] == was[j - 1..i];
  }

  lemma ShiftedEnd(now: seq<nat>, was: seq<nat>, j: nat, i: nat, key: nat)
    requires Shifted(now, was, j, i)
    ensures now[j := key][..i + 1] == was[..j] + [key] + was[j..i] && now[j := key][i + 1..] == was[i + 1..]
  {
    var next := now[j := key];
    assert next[..i + 1] == next[..j] + [next[j]] + next[j + 1..i + 1];
    assert next[..j] == now[..j] && next[j + 1..i + 1] == now[j + 1..i + 1];
  }

  /** Referenced types by name: an insertion sort over the list itself. */
  method SortTypes(types: seq<TypeDef>, ids: array<nat>, n: nat)
    requires n <= ids.Length
    modifies ids
    ensures ids[..n] == SortedIds(types, old(ids[..n])) && ids[n..] == old(ids[n..])
  {
    ghost var was := ids[..];
    hide SortedIds;
    var i := 1;
    SortedSmall(types, was);
    while i < n
      invariant n == 0 ==> ids[..] == was
      invariant n >= 1 ==> 1 <= i <= n && ids[i..] == was[i..] && ids[..i] == SortedIds(types, was[..i])
      decreases n - i
    {
      SortedStep(types, was, i);
      InsertInPlace(types, ids, i);
      i := i + 1;
    }
    assert was[..n] == old(ids[..n]);
    assert n == 0 ==> ids[..n] == [];
  }

  lemma SortedSmall(types: seq<TypeDef>, s: seq<nat>)
    ensures SortedIds(types, s[..0]) == [] && (|s| >= 1 ==> SortedIds(types, s[..1]) == s[..1])
  {}

  lemma SortedStep(types: seq<TypeDef>, s: seq<nat>, i: nat)
    requires i < |s|
    ensures SortedIds(types, s[..i + 1]) == InsertId(types, SortedIds(types, s[..i]), s[i])
  {
    assert s[..i + 1][..i] == s[..i];
  }

  // ------------------------------------------------------- the encoded type

  /** The buffer that encodeType is put into, piece by piece. */
  class TypeText {
    const out: array<u8>
    var used: nat

    ghost predicate Valid()
      reads this
    {
      used < out.Length
    }

    ghost function Text(): seq<u8>
      requires Valid()
      reads this, out
    {
      out[..used]
    }

    constructor (out: array<u8>)
      requires out.Length > 0
      ensures Valid() && Text() == [] && this.out == out
    {
      this.out := out;
      used := 0;
    }

    /** Append, always leaving room for the terminator. */
    method Put(data: seq<u8>) returns (ok: bool)
      requires Valid()
      modifies this, out
      ensures Valid()
      ensures ok <==> |old(Text())| + |data| < out.Length
      ensures ok ==> Text() == old(Text()) + data
    {
      if used + |data| >= out.Length { return false; }
      ghost var was := out[..used];
      var i := 0;
      while i < |data|
        invariant 0 <= i <= |data| && used == old(used) && out[..used + i] == was + data[..i]
      {
        out[used + i] := data[i];
        assert out[..used + i + 1] == out[..used + i] + [data[i]];
        assert data[..i + 1] == data[..i] + [data[i]];
        i := i + 1;
      }
      assert data[..i] == data;
      used := used + |data|;
      ok := true;
    }
  }

  /** Something was appended whole; or else it is not there, or it does not fit. */
  ghost predicate Appended(ok: bool, before: seq<u8>, after: seq<u8>, size: nat, text: Option<seq<u8>>) {
    && (ok ==> text.Some? && after == before + text.value)
    && (!ok ==> text.None? || |before| + |text.value| >= size)
  }

  lemma {:induction false} FieldListGrows(fields: Fields, i: nat, n: nat)
    requires i <= n <= |fields| && FieldList(fields, n).Some?
    ensures FieldList(fields, i).Some? && |FieldList(fields, i).value| <= |FieldList(fields, n).value|
  {
    if i < n { FieldListGrows(fields, i, n - 1); }
  }

  /** One field behind those before it. */
  function FieldText(i: nat, field: FieldDef): seq<u8> {
    (if i > 0 then [COMMA] else []) + field.kind + [SPACE] + field.name
  }

  lemma FieldListStep(fields: Fields, i: nat)
    requires i < |fields|
    ensures FieldList(fields, i).Some? && fields[i].Some? ==>
      FieldList(fields, i + 1) == Some(FieldList(fields, i).value + FieldText(i, fields[i].value))
    ensures fields[i].None? ==> FieldList(fields, i + 1).None?
  {
    if FieldList(fields, i).Some? && fields[i].Some? {
      var list, f := FieldList(fields, i).value, fields[i].value;
      assert list + FieldText(i, f) == list + (if i > 0 then [COMMA] else []) + f.kind + [SPACE] + f.name;
    }
  }

  method AppendFields(buf: seq<u8>, def: TypeDef, w: TypeText) returns (ok: bool)
    requires w.Valid()
    modifies w, w.out
    ensures w.Valid() && Appended(ok, old(w.Text()), w.Text(), w.out.Length, FieldList(DeclaredFields(buf, def), def.fieldCount))
  {
    ghost var before := w.Text();
    ghost var fields := DeclaredFields(buf, def);
    NoFieldsYet(fields, before);
    hide *;
    var i := 0;
    while i < def.fieldCount
      invariant 0 <= i <= def.fieldCount && w.Valid() && |fields| == def.fieldCount
      invariant FieldsAppended(fields, i, before, w.Text())
    {
      var field := TypeField(buf, def, i);
      FieldIsDeclared(buf, def, i);
      if field.None? {
        FieldMissing(fields, i, before, w.Text(), w.out.Length);
        return false;
      }
      ghost var sofar := w.Text();
      FieldsAppendedStep(fields, i, before, sofar, w.out.Length);
      ok := w.Put(FieldText(i, field.value));
      if !ok { return; }
      i := i + 1;
    }
    ok := true;
    AllAppended(fields, before, w.Text(), w.out.Length);
  }

  ghost predicate FieldsAppended(fields: Fields, i: nat, before: seq<u8>, after: seq<u8>) {
    i <= |fields| && FieldList(fields, i).Some? && after == before + FieldList(fields, i).value
  }

  lemma NoFieldsYet(fields: Fields, before: seq<u8>)
    ensures FieldsAppended(fields, 0, before, before)
  {
    assert before + [] == before;
  }

  lemma FieldIsDeclared(buf: seq<u8>, def: TypeDef, i: nat)
    requires i < def.fieldCount
    ensures DeclaredFields(buf, def)[i] == DeclaredField(buf, def, i)
  {}

  lemma FieldMissing(fields: Fields, i: nat, before: seq<u8>, after: seq<u8>, size: nat)
    requires i < |fields| && fields[i].None?
    ensures Appended(false, before, after, size, FieldList(fields, |fields|))
  {
    FieldListStep(fields, i);
    if FieldList(fields, |fields|).Some? { FieldListGrows(fields, i + 1, |fields|); }
  }

  lemma FieldsAppendedStep(fields: Fields, i: nat, before: seq<u8>, sofar: seq<u8>, size: nat)
    requires i < |fields| && fields[i].Some? && FieldsAppended(fields, i, before, sofar)
    ensures FieldsAppended(fields, i + 1, before, sofar + FieldText(i, fields[i].value))
    ensures |sofar| + |FieldText(i, fields[i].value)| >= size ==>
      forall after :: Appended(false, before, after, size, FieldList(fields, |fields|))
  {
    hide FieldText, FieldList;
    FieldListStep(fields, i);
    if FieldList(fields, |fields|).Some? { FieldListGrows(fields, i + 1, |fields|); }
  }

  lemma AllAppended(fields: Fields, before: seq<u8>, after: seq<u8>, size: nat)
    requires FieldsAppended(fields, |fields|, before, after)
    ensures Appended(true, before, after, size, FieldList(fields, |fields|))
  {}

  lemma FragmentIs(buf: seq<u8>, types: seq<TypeDef>, t: nat)
    requires First(types, t) && types[t].name in TableOf(buf, types)
    ensures var list := FieldList(DeclaredFields(buf, types[t]), types[t].fieldCount);
      Fragment(TableOf(buf, types), types[t].name)
        == if list.None? then None else Some(types[t].name + [OPENING] + list.value + [CLOSING])
  {
    hide TableOf, FieldList, DeclaredField;
    FirstDefinitionCounts(buf, types, t);
  }

  /** Append one struct's fragment, or tell that it did not fit. */
  method AppendFragment(buf: seq<u8>, types: seq<TypeDef>, t: nat, w: TypeText) returns (ok: bool)
    requires First(types, t) && types[t].name in TableOf(buf, types) && w.Valid()
    modifies w, w.out
    ensures w.Valid()
    ensures Appended(ok, old(w.Text()), w.Text(), w.out.Length, Fragment(TableOf(buf, types), types[t].name))
  {
    assert t < |types|;
    ghost var before := w.Text();
    var name := types[t].name;
    ghost var list := FieldList(DeclaredFields(buf, types[t]), types[t].fieldCount);
    FragmentIs(buf, types, t);
    FragmentAppended(before, name, list, w.out.Length, Fragment(TableOf(buf, types), name));
    hide *;
    ok := w.Put(name + [OPENING]);
    if !ok { return; }
    ok := AppendFields(buf, types[t], w);
    FieldsOf(ok, before + (name + [OPENING]), w.Text(), w.out.Length, list);
    if !ok { return; }
    ok := w.Put([CLOSING]);
  }

  lemma FieldsOf(ok: bool, before: seq<u8>, after: seq<u8>, size: nat, list: Option<seq<u8>>)
    requires Appended(ok, before, after, size, list)
    ensures ok ==> list.Some? && after == before + list.value
    ensures !ok ==> list.None? || |before| + |list.value| >= size
  {}

  /** How the three pieces of a fragment add up. */
  lemma FragmentAppended(before: seq<u8>, name: Name, list: Option<seq<u8>>, size: nat, text: Option<seq<u8>>)
    requires text == if list.None? then None else Some(name + [OPENING] + list.value + [CLOSING])
    ensures list.Some? ==>
      Appended(true, before, before + (name + [OPENING]) + list.value + [CLOSING], size, text)
    ensures |before| + |name + [OPENING]| >= size || list.None? || |before + (name + [OPENING])| + |list.value| + 1 >= size ==>
      forall after :: Appended(false, before, after, size, text)
  {
    if list.Some? {
      Joined(before, name + [OPENING], list.value);
      Joined(before, name + [OPENING] + list.value, [CLOSING]);
    }
  }

  lemma {:induction false} FragmentsGrow(table: Table, names: seq<Name>, i: nat)
    requires i <= |names| && (forall x | x in names :: x in table) && Fragments(table, names).Some?
    ensures (forall x | x in names[..i] :: x in table) && Fragments(table, names[..i]).Some?
    ensures |Fragments(table, names[..i]).value| <= |Fragments(table, names).value|
  {
    hide Fragment;
    if i == |names| {
      assert names[..i] == names;
    } else {
      assert names[..|names| - 1][..i] == names[..i];
      assert forall x | x in names[..|names| - 1] :: x in names;
      FragmentsGrow(table, names[..|names| - 1], i);
    }
  }

  lemma FragmentsStep(table: Table, names: seq<Name>, i: nat)
    requires i < |names| && forall x | x in names :: x in table
    ensures (forall x | x in names[..i + 1] :: x in table) && (forall x | x in names[..i] :: x in table)
    ensures names[i] in table
    ensures Fragments(table, names[..i]).Some? && Fragment(table, names[i]).Some? ==>
      Fragments(table, names[..i + 1]) == Some(Fragments(table, names[..i]).value + Fragment(table, names[i]).value)
    ensures Fragment(table, names[i]).None? ==> Fragments(table, names[..i + 1]).None?
  {
    hide Fragment;
    assert names[i] in names;
    assert names[..i + 1][..i] == names[..i];
  }

  ghost predicate FragmentsAppended(table: Table, names: seq<Name>, i: nat, before: seq<u8>, after: seq<u8>) {
    && i <= |names| && (forall x | x in names[..i] :: x in table)
    && Fragments(table, names[..i]).Some? && after == before + Fragments(table, names[..i]).value
  }

  lemma NoFragmentsYet(table: Table, names: seq<Name>, before: seq<u8>)
    ensures FragmentsAppended(table, names, 0, before, before)
  {
    assert names[..0] == [] && before + [] == before;
  }

  lemma FragmentsAppendedStep(table: Table, names: seq<Name>, i: nat, before: seq<u8>, sofar: seq<u8>, size: nat, ok: bool, after: seq<u8>)
    requires i < |names| && (forall x | x in names :: x in table) && FragmentsAppended(table, names, i, before, sofar)
    requires Appended(ok, sofar, after, size, Fragment(table, names[i]))
    ensures ok ==> FragmentsAppended(table, names, i + 1, before, after)
    ensures !ok ==> Appended(false, before, after, size, Fragments(table, names))
  {
    hide Fragment, Fragments;
    FragmentsStep(table, names, i);
    if Fragments(table, names).Some? { FragmentsGrow(table, names, i + 1); }
    if Fragment(table, names[i]).Some? { Joined(before, Fragments(table, names[..i]).value, Fragment(table, names[i]).value); }
  }

  lemma AllFragmentsAppended(table: Table, names: seq<Name>, before: seq<u8>, after: seq<u8>, size: nat)
    requires (forall x | x in names :: x in table) && FragmentsAppended(table, names, |names|, before, after)
    ensures Appended(true, before, after, size, Fragments(table, names))
  {
    assert names[..|names|] == names;
  }

  method AppendAll(buf: seq<u8>, types: seq<TypeDef>, ids: seq<nat>, w: TypeText) returns (ok: bool)
    requires AllFirst(types, ids) && (forall x | x in Names(types, ids) :: x in TableOf(buf, types)) && w.Valid()
    modifies w, w.out
    ensures w.Valid()
    ensures Appended(ok, old(w.Text()), w.Text(), w.out.Length, Fragments(TableOf(buf, types), Names(types, ids)))
  {
    ghost var before := w.Text();
    ghost var table, names := TableOf(buf, types), Names(types, ids);
    hide *;
    NoFragmentsYet(table, names, before);
    var i := 0;
    while i < |ids|
      invariant 0 <= i <= |ids| == |names| && w.Valid() && FragmentsAppended(table, names, i, before, w.Text())
    {
      IdIsFirst(types, ids, i);
      assert names[i] in names;
      ghost var sofar := w.Text();
      ok := AppendFragment(buf, types, ids[i], w);
      FragmentsAppendedStep(table, names, i, before, sofar, w.out.Length, ok, w.Text());
      if !ok { return; }
      i := i + 1;
    }
    ok := true;
    AllFragmentsAppended(table, names, before, w.Text(), w.out.Length);
  }

  lemma IdIsFirst(types: seq<TypeDef>, ids: seq<nat>, i: nat)
    requires AllFirst(types, ids) && i < |ids|
    ensures First(types, ids[i]) && ids[i] < |types| && Names(types, ids)[i] == types[ids[i]].name
  {}

  lemma RefsAre(buf: seq<u8>, types: seq<TypeDef>, t: nat)
    requires First(types, t)
    ensures types[t].name in TableOf(buf, types)
    ensures RefsLeft(buf, types, t, 0, t, [], 0) == Refs(TableOf(buf, types), types[t].name)
    ensures Refs(TableOf(buf, types), types[t].name).Some? ==>
      forall x | x in Refs(TableOf(buf, types), types[t].name).value :: x in TableOf(buf, types)
  {
    hide TableOf;
    FirstDefinitionCounts(buf, types, t);
    RefsAreKnown(TableOf(buf, types), TableOf(buf, types)[types[t].name], 0, types[t].name, [], 0);
  }

  /** The struct's own fragment and those of its references make up encodeType. */
  lemma EncodeTypeIs(table: Table, root: Name, size: nat, ok: bool, first: seq<u8>, all: seq<u8>)
    requires root in table && Refs(table, root).Some? && (forall x | x in Sorted(Refs(table, root).value) :: x in table)
    requires Fragment(table, root) == Some(first)
    requires Appended(ok, first, all, size, Fragments(table, Sorted(Refs(table, root).value))) && |all| < size
    ensures ok ==> EncodeType(table, root, size) == Some(all)
    ensures !ok ==> EncodeType(table, root, size) == None
  {
    hide Fragment, Fragments, Refs, Sorted;
  }

  lemma NoEncodeType(table: Table, root: Name, size: nat)
    requires root in table && (Refs(table, root).None? || Fragment(table, root).None? || |Fragment(table, root).value| >= size)
    ensures EncodeType(table, root, size) == None
  {
    hide Fragment, Fragments, Refs, Sorted;
  }

  /** encodeType into the buffer: the struct, then its references in name order. */
  method EncodeTypeAt(buf: seq<u8>, types: seq<TypeDef>, t: nat, w: TypeText) returns (ok: bool)
    requires First(types, t) && types[t].name in TableOf(buf, types) && w.Valid() && w.Text() == []
    modifies w, w.out
    ensures w.Valid()
    ensures ok ==> EncodeType(TableOf(buf, types), types[t].name, w.out.Length) == Some(w.Text())
    ensures !ok ==> EncodeType(TableOf(buf, types), types[t].name, w.out.Length) == None
  {
    assert t < |types|;
    ghost var table, root := TableOf(buf, types), types[t].name;
    hide *;
    var ids := SortedRefs(buf, types, t);
    if ids.None? {
      NoEncodeType(table, root, w.out.Length);
      return false;
    }
    ok := AppendType(buf, types, t, ids.value, w);
  }

  /** The struct's own fragment, then those of the entries listed. */
  method AppendType(buf: seq<u8>, types: seq<TypeDef>, t: nat, ids: seq<nat>, w: TypeText) returns (ok: bool)
    requires First(types, t) && types[t].name in TableOf(buf, types) && w.Valid() && w.Text() == []
    requires AllFirst(types, ids) && Refs(TableOf(buf, types), types[t].name).Some?
    requires Names(types, ids) == Sorted(Refs(TableOf(buf, types), types[t].name).value)
    requires forall x | x in Names(types, ids) :: x in TableOf(buf, types)
    modifies w, w.out
    ensures w.Valid()
    ensures ok ==> EncodeType(TableOf(buf, types), types[t].name, w.out.Length) == Some(w.Text())
    ensures !ok ==> EncodeType(TableOf(buf, types), types[t].name, w.out.Length) == None
  {
    assert t < |types|;
    ghost var table, root := TableOf(buf, types), types[t].name;
    ghost var nothing := w.Text();
    hide *;
    ok := AppendFragment(buf, types, t, w);
    ghost var first := w.Text();
    FirstFragment(ok, nothing, first, w.out.Length, Fragment(table, root));
    if !ok {
      NoEncodeType(table, root, w.out.Length);
      return;
    }
    ok := AppendAll(buf, types, ids, w);
    WithinTheBuffer(w);
    EncodeTypeIs(table, root, w.out.Length, ok, first, w.Text());
  }

  lemma FirstFragment(ok: bool, nothing: seq<u8>, after: seq<u8>, size: nat, text: Option<seq<u8>>)
    requires Appended(ok, nothing, after, size, text) && nothing == []
    ensures ok ==> text == Some(after)
    ensures !ok ==> text.None? || |text.value| >= size
  {
    if text.Some? { assert nothing + text.value == text.value; }
  }

  /** The referenced entries in name order, or nothing when they cannot be collected. */
  method SortedRefs(buf: seq<u8>, types: seq<TypeDef>, t: nat) returns (ids: Option<seq<nat>>)
    requires First(types, t) && types[t].name in TableOf(buf, types)
    ensures ids.None? <==> Refs(TableOf(buf, types), types[t].name).None?
    ensures ids.Some? ==> AllFirst(types, ids.value)
    ensures ids.Some? ==> Names(types, ids.value) == Sorted(Refs(TableOf(buf, types), types[t].name).value)
    ensures ids.Some? ==> forall x | x in Names(types, ids.value) :: x in TableOf(buf, types)
  {
    assert 0 <= EIP712_MAX_DEPTH + 1;
    hide *;
    RefsAre(buf, types, t);
    var deps := new Deps();
    NoDeps(types, deps);
    var ok := CollectRefs(buf, types, t, t, deps, 0);
    if !ok { return None; }
    deps.Listing(types);
    ghost var was := deps.ids[..deps.n];
    SortTypes(types, deps.ids, deps.n);
    SortedIdsNames(types, was);
    ids := Some(deps.ids[..deps.n]);
  }

  lemma WithinTheBuffer(w: TypeText)
    requires w.Valid()
    ensures |w.Text()| < w.out.Length
  {}

  lemma NoDeps(types: seq<TypeDef>, deps: Deps)
    requires deps.n == 0 && deps.ids.Length == EIP712_MAX_TYPES
    ensures deps.Valid(types) && deps.Listed(types) == []
  {}

  /** The typeHash of an entry, by way of a buffer of its own. */
  method TypeHash(buf: seq<u8>, types: seq<TypeDef>, t: nat, keccak: Hash) returns (hash: Option<seq<u8>>)
    requires First(types, t) && types[t].name in TableOf(buf, types)
    ensures var encoded := EncodeType(TableOf(buf, types), types[t].name, ENCODED_TYPE_SIZE);
      hash == if encoded.None? then None else Some(keccak(encoded.value))
  {
    hide First, TableOf, EncodeType;
    var encoded := new u8[ENCODED_TYPE_SIZE];
    var w := new TypeText(encoded);
    var ok := EncodeTypeAt(buf, types, t, w);
    if !ok { return None; }
    hash := Some(keccak(encoded[..w.used]));
  }

  // ------------------------------------------------------------ ABI types

  /** A trailing decimal, up to 256; an empty tail is not a number. */
  method TrailingDecimal(s: Name, prefix: nat) returns (n: Option<nat>)
    ensures n == TrailingNumber(s, prefix)
  {
    if |s| <= prefix { return None; }
    var tail := s[prefix..];
    var value: nat, i: nat := 0, 0;
    while i < |tail|
      invariant 0 <= i <= |tail| && NumberOf(tail[..i]) == Some(value)
    {
      var c: int := tail[i];
      NumberStep(tail, i);
      if c < 48 || c > 57 || value * 10 + (c - 48) > 256 {
        return None;
      }
      value := value * 10 + (c - 48);
      i := i + 1;
    }
    assert tail[..i] == tail;
    n := Some(value);
  }

  lemma NumberStep(tail: Name, i: nat)
    requires i < |tail| && NumberOf(tail[..i]).Some?
    ensures var value := NumberOf(tail[..i]).value; var c: int := tail[i];
      (c < 48 || c > 57 || value * 10 + (c - 48) > 256 ==> NumberOf(tail).None?)
      && (!(c < 48 || c > 57 || value * 10 + (c - 48) > 256) ==> NumberOf(tail[..i + 1]) == Some(value * 10 + (c - 48)))
  {
    assert tail[..i + 1][..i] == tail[..i];
    if NumberOf(tail[..i + 1]).None? { NotANumber(tail, i + 1); }
  }

  lemma {:induction false} NotANumber(s: Name, i: nat)
    requires i <= |s| && NumberOf(s[..i]).None?
    ensures NumberOf(s).None?
  {
    if i < |s| {
      assert s[..|s| - 1][..i] == s[..i];
      NotANumber(s[..|s| - 1], i);
    } else {
      assert s[..i] == s;
    }
  }

  /** The ABI type of a spelling, and the entry it names if it is a struct. */
  method ClassifyType(ghost buf: seq<u8>, types: seq<TypeDef>, kind: Name) returns (abi: AbiType, structId: int)
    ensures abi == Classify(TableOf(buf, types), kind)
    ensures abi.AbiStruct? ==> structId >= 0 && First(types, structId) && types[structId].name == abi.name
  {
    hide TableOf, Ascii, First, TrailingNumber;
    structId := -1;
    if BRACKET in kind { return AbiUnsupported, -1; }
    if kind == Ascii("address") { return AbiAddress, -1; }
    if kind == Ascii("bool") { return AbiBool, -1; }
    if kind == Ascii("string") { return AbiString, -1; }
    if kind == Ascii("bytes") { return AbiBytes, -1; }
    if StartsWith(kind, Ascii("bytes")) {
      var n := TrailingDecimal(kind, 5);
      abi := if n.Some? && 1 <= n.value <= 32 then AbiBytesN(n.value) else AbiUnsupported;
      return;
    }
    if StartsWith(kind, Ascii("uint")) || StartsWith(kind, Ascii("int")) {
      var isUint := StartsWith(kind, Ascii("uint"));
      var n := TrailingDecimal(kind, if isUint then 4 else 3);
      if n.Some? && 8 <= n.value <= 256 && n.value % 8 == 0 {
        abi := if isUint then AbiUint(n.value) else AbiInt(n.value);
      } else {
        abi := AbiUnsupported;
      }
      return;
    }
    structId := FindType(buf, types, kind);
    abi := if structId >= 0 then AbiStruct(kind) else AbiUnsupported;
  }

  // ---------------------------------------------------------------- values

  /** A value in either spelling into a left-padded word; too wide, it is refused. */
  method WordOf(item: Item, bits: nat) returns (word: Option<seq<u8>>)
    requires bits <= 256
    ensures word == WordFromInt(item, bits)
  {
    hide ToBigEndian, ZeroBytes;
    var w: seq<u8>;
    if item.kind.Uint? {
      w := ZeroBytes(28) + ToBigEndian(item.value, 4);
    } else if item.kind.Bytes? {
      if |item.data| > 32 { return None; }
      w := ZeroBytes(32 - |item.data|) + item.data;
    } else {
      return None;
    }
    var spare := (256 - bits) / 8;
    var i := 0;
    while i < spare
      invariant 0 <= i <= spare && forall k | 0 <= k < i :: w[k] == 0
    {
      if w[i] != 0 { return None; }
      i := i + 1;
    }
    word := Some(w);
  }

  /** The needle occurs in the name, letter case apart. */
  method NameHints(name: Name, needle: Name) returns (found: bool)
    ensures found <==> Hints(name, needle)
  {
    var lower := LowerName(name);
    hide LowerName;
    var i := 0;
    while i + |needle| <= |lower|
      invariant 0 <= i && forall k: nat | k < i :: !OccursAt(lower, needle, k)
    {
      var j := 0;
      while j < |needle| && lower[i + j] == needle[j]
        invariant 0 <= j <= |needle| && lower[i..i + j] == needle[..j]
      {
        assert lower[i..i + j + 1] == lower[i..i + j] + [lower[i + j]];
        assert needle[..j + 1] == needle[..j] + [needle[j]];
        j := j + 1;
      }
      if j == |needle| {
        assert needle[..j] == needle;
        assert OccursAt(lower, needle, i);
        return true;
      }
      assert lower[i..i + |needle|][j] != needle[j];
      i := i + 1;
    }
    found := false;
  }

  method DeadlineHints(name: Name) returns (found: bool)
    ensures found <==> IsDeadline(name)
  {
    hide Hints, Ascii;
    found := NameHints(name, Ascii("deadline"));
    if !found { found := NameHints(name, Ascii("expir")); }
    if !found { found := NameHints(name, Ascii("validuntil")); }
    if !found { found := NameHints(name, Ascii("validbefore")); }
  }

  /** The pages claimed so far, and whether anything could not be shown; that stays so. */
  class Collector {
    var fields: seq<Field>
    var overflow: bool

    constructor ()
      ensures fields == [] && !overflow
    {
      fields, overflow := [], false;
    }

    ghost function State(): Screen
      reads this
    {
      Screen(fields, overflow)
    }
  }

  /** Claim the next page for a value, or mark the document unshowable. */
  method ShowLeaf(keccak: Hash, col: Collector, prefix: seq<u8>, name: Name, abi: AbiType, item: Item)
    requires abi.AbiAddress? ==> |item.data| == 20
    modifies col
    ensures col.State() == Shown(keccak, old(col.State()), Leaf(prefix, name, abi, item))
  {
    hide LeafText, LeafWord, Label, IsDeadline;
    if |col.fields| >= EIP712_MAX_RENDER_FIELDS {
      col.overflow := true;
      return;
    }
    var caption := Label(prefix, name);
    if |caption| >= EIP712_MAX_LABEL {
      col.overflow := true;
      return;
    }
    var number := abi.AbiUint? || abi.AbiInt?;
    var deadline := false;
    if number { deadline := DeadlineHints(name); }
    var word := LeafWord(keccak, abi, item);
    var unlimited := !deadline && abi.AbiUint? && word.Some? && IsUnlimited(word.value, abi.bits);
    var text := Eip712Text.RenderLeaf(keccak, abi, item);
    var page := Field(caption, if text.Some? then text.value else "", abi.AbiAddress?,
                      if abi.AbiAddress? then item.data else [], unlimited, deadline);
    col.fields := col.fields + [page];
    if text.None? { col.overflow := true; }
  }

  // ------------------------------------------------------------ the traversal

  /** What a part of the traversal must have done to the screen, if there is one. */
  ghost predicate ShownOn(keccak: Hash, before: Screen, after: Screen, w: Option<Walk>) {
    w.Some? ==> after == ShownAll(keccak, before, w.value.events)
  }

  lemma ShownOne(keccak: Hash, s: Screen, e: Event)
    ensures ShownAll(keccak, s, [e]) == Shown(keccak, s, e)
  {
    hide Shown;
    assert [e][..0] == [];
    assert ShownAll(keccak, s, []) == s;
  }

  ghost function StateOf(col: Collector?): Screen
    reads col
  {
    if col == null then Screen([], false) else col.State()
  }

  /** What a declared field adds: its word is returned, its page claimed, from one reading. */
  method EncodeField(buf: seq<u8>, types: seq<TypeDef>, keccak: Hash, abi: AbiType, structId: int, name: Name, at: nat,
                     depth: nat, col: Collector?, prefix: seq<u8>, ghost d: Doc) returns (word: Option<seq<u8>>)
    requires depth <= EIP712_MAX_DEPTH && at <= |buf| && d == Doc(buf, TableOf(buf, types), keccak)
    requires abi.AbiStruct? ==> structId >= 0 && First(types, structId) && types[structId].name == abi.name && abi.name in d.table
    modifies col
    ensures Did(keccak, word, ValueAs(d, abi, name, at, depth, prefix), col != null, old(StateOf(col)), StateOf(col))
    decreases EIP712_MAX_DEPTH + 1 - depth, 0, 0
  {
    hide First, TableOf, ItemAt, LeafWalk, Label, ShownAll, Shown, StructAt, Did;
    ghost var before := StateOf(col);
    var r := new CborReader(buf);
    r.pos := at;
    var item := r.Read();
    if item.None? || (abi.AbiStruct? && (!item.value.kind.Map? || depth + 1 > EIP712_MAX_DEPTH)) {
      NothingDone(keccak, ValueAs(d, abi, name, at, depth, prefix), col != null, before, StateOf(col));
      return None;
    }
    if abi.AbiStruct? {
      var caption := Label(prefix, name);
      if |caption| >= EIP712_MAX_LABEL && col != null { col.overflow := true; }
      ghost var middle := StateOf(col);
      KnownCount(types, structId);
      word := HashStruct(buf, types, keccak, structId, at, depth + 1, col, NestedPrefix(caption), d);
      NestedDone(keccak, word, StructAt(d, abi.name, at, depth + 1, NestedPrefix(caption)), ValueAs(d, abi, name, at, depth, prefix),
                 caption, col != null, before, middle, StateOf(col));
    } else {
      word := EncodeLeaf(keccak, col, prefix, name, abi, item.value);
    }
  }

  /** A value that is no struct. */
  method EncodeLeaf(keccak: Hash, col: Collector?, prefix: seq<u8>, name: Name, abi: AbiType, item: Item)
      returns (word: Option<seq<u8>>)
    modifies col
    ensures Did(keccak, word, LeafWalk(keccak, prefix, name, abi, item), col != null, old(StateOf(col)), StateOf(col))
  {
    hide WordFromInt, ShownAll, Shown;
    if (abi.AbiUint? || abi.AbiInt?) && abi.bits <= 256 {
      word := WordOf(item, abi.bits);
    } else {
      word := LeafWord(keccak, abi, item);
    }
    assert abi.AbiAddress? && word.Some? ==> |item.data| == 20;
    hide LeafWord;
    if word.None? { return; }
    if col != null {
      ShownOne(keccak, StateOf(col), Leaf(prefix, name, abi, item));
      ShowLeaf(keccak, col, prefix, name, abi, item);
    }
  }

  lemma NothingDone(keccak: Hash, w: Option<Walk>, shown: bool, before: Screen, after: Screen)
    requires w.None?
    ensures Did(keccak, None, w, shown, before, after)
  {}

  /** A nested struct adds its hash as one word, and its own pages. */
  lemma NestedDone(keccak: Hash, word: Option<seq<u8>>, inner: Option<Walk>, w: Option<Walk>, caption: seq<u8>, shown: bool,
                   before: Screen, middle: Screen, after: Screen)
    requires w == if inner.None? then None else Some(Walk(inner.value.data, LabelEvents(caption) + inner.value.events))
    requires shown ==> middle == if |caption| >= EIP712_MAX_LABEL then before.(overflow := true) else before
    requires Did(keccak, word, inner, shown, middle, after)
    ensures Did(keccak, word, w, shown, before, after)
  {
    if shown { LabelShown(keccak, before, middle, after, caption, inner); }
  }

  /** The overflow of a nested label, then what the nested struct shows. */
  lemma LabelShown(keccak: Hash, before: Screen, middle: Screen, after: Screen, caption: seq<u8>, inner: Option<Walk>)
    requires middle == if |caption| >= EIP712_MAX_LABEL then before.(overflow := true) else before
    requires ShownOn(keccak, middle, after, inner)
    ensures inner.Some? ==> after == ShownAll(keccak, before, LabelEvents(caption) + inner.value.events)
  {
    if inner.Some? {
      ShownInTwo(keccak, before, LabelEvents(caption), inner.value.events);
      if |caption| >= EIP712_MAX_LABEL { ShownOne(keccak, before, Overlong); }
    }
  }

  /** hashStruct: the typeHash, then one word per declared field, in declared order. */
  method HashStruct(buf: seq<u8>, types: seq<TypeDef>, keccak: Hash, t: nat, at: nat, depth: nat, col: Collector?,
                    prefix: seq<u8>, ghost d: Doc) returns (hash: Option<seq<u8>>)
    requires First(types, t) && t < |types| && types[t].name in d.table && at <= |buf| && depth <= EIP712_MAX_DEPTH + 1
    requires d == Doc(buf, TableOf(buf, types), keccak)
    modifies col
    ensures Did(keccak, hash, StructAt(d, types[t].name, at, depth, prefix), col != null, old(StateOf(col)), StateOf(col))
    decreases EIP712_MAX_DEPTH + 1 - depth, 2
  {
    FirstDefinitionCounts(buf, types, t);
    DeclaredCount(buf, types[t]);
    hide First, TableOf, FieldsAt, ShownAll, DeclaredFields, EncodeType, Did;
    ghost var before := StateOf(col);
    var typeHash := None;
    if depth <= EIP712_MAX_DEPTH { typeHash := TypeHash(buf, types, t, keccak); }
    if typeHash.None? {
      NothingDone(keccak, StructAt(d, types[t].name, at, depth, prefix), col != null, before, before);
      return None;
    }
    var data := HashFields(buf, types, keccak, t, at, depth, col, prefix, d);
    hash := if data.None? then None else Some(keccak(typeHash.value + data.value));
    HashedDone(d, types[t].name, at, depth, prefix, typeHash.value, data, hash, col != null, before, StateOf(col));
  }

  lemma HashedDone(d: Doc, name: Name, at: nat, depth: nat, prefix: seq<u8>, typeHash: seq<u8>, data: Option<seq<u8>>,
                   hash: Option<seq<u8>>, shown: bool, before: Screen, after: Screen)
    requires name in d.table && depth <= EIP712_MAX_DEPTH
    requires EncodeType(d.table, name, ENCODED_TYPE_SIZE).Some? && typeHash == d.keccak(EncodeType(d.table, name, ENCODED_TYPE_SIZE).value)
    requires Did(d.keccak, data, FieldsAt(d, name, |d.table[name]|, at, depth, prefix), shown, before, after)
    requires hash == if data.None? then None else Some(d.keccak(typeHash + data.value))
    ensures Did(d.keccak, hash, StructAt(d, name, at, depth, prefix), shown, before, after)
  {
    hide EncodeType, FieldsAt, ShownAll;
  }

  /** What a part of the traversal returned and showed is what the specification has. */
  ghost predicate Did(keccak: Hash, result: Option<seq<u8>>, w: Option<Walk>, shown: bool, before: Screen, after: Screen) {
    && (result.None? <==> w.None?)
    && (result.Some? ==> result.value == w.value.data)
    && (shown ==> ShownOn(keccak, before, after, w))
  }

  method HashFields(buf: seq<u8>, types: seq<TypeDef>, keccak: Hash, t: nat, at: nat, depth: nat, col: Collector?,
                    prefix: seq<u8>, ghost d: Doc) returns (data: Option<seq<u8>>)
    requires t < |types| && at <= |buf| && depth <= EIP712_MAX_DEPTH && d == Doc(buf, TableOf(buf, types), keccak)
    requires types[t].name in d.table && d.table[types[t].name] == DeclaredFields(buf, types[t])
    modifies col
    ensures Did(keccak, data, FieldsAt(d, types[t].name, types[t].fieldCount, at, depth, prefix), col != null,
                old(StateOf(col)), StateOf(col))
    decreases EIP712_MAX_DEPTH + 1 - depth, 1
  {
    hide *;
    ghost var before, shown := StateOf(col), col != null;
    ghost var name, n := types[t].name, types[t].fieldCount;
    DeclaredCount(buf, types[t]);
    Started(d, name, at, depth, prefix, before, shown);
    var bytes := [];
    var i := 0;
    while i < types[t].fieldCount
      invariant 0 <= i <= n && Progress(d, name, i, at, depth, prefix, bytes, before, StateOf(col), shown)
    {
      ghost var sofar := StateOf(col);
      var field := TypeField(buf, types[t], i);
      FieldIsDeclared(buf, types[t], i);
      var word := None;
      if field.Some? {
        word := EncodeNamed(buf, types, keccak, field.value, at, depth, col, prefix, d);
      }
      if word.None? {
        Stopped(d, name, i, n, at, depth, prefix, field, before, StateOf(col), shown, sofar);
        return None;
      }
      Proceeded(d, name, i, at, depth, prefix, bytes, before, sofar, StateOf(col), shown, word.value);
      bytes := bytes + word.value;
      i := i + 1;
    }
    data := Some(bytes);
    Finished(d, name, at, depth, prefix, bytes, before, StateOf(col), shown);
  }

  lemma DeclaredCount(buf: seq<u8>, def: TypeDef)
    ensures |DeclaredFields(buf, def)| == def.fieldCount
  {}

  /** After i fields: their words, and what they have shown. */
  ghost predicate Progress(d: Doc, name: Name, i: nat, at: nat, depth: nat, prefix: seq<u8>, bytes: seq<u8>, before: Screen,
                           after: Screen, shown: bool) {
    && name in d.table && i <= |d.table[name]| && depth <= EIP712_MAX_DEPTH
    && FieldsAt(d, name, i, at, depth, prefix).Some?
    && FieldsAt(d, name, i, at, depth, prefix).value.data == bytes
    && (shown ==> after == ShownAll(d.keccak, before, FieldsAt(d, name, i, at, depth, prefix).value.events))
  }

  lemma Started(d: Doc, name: Name, at: nat, depth: nat, prefix: seq<u8>, before: Screen, shown: bool)
    requires name in d.table && depth <= EIP712_MAX_DEPTH
    ensures Progress(d, name, 0, at, depth, prefix, [], before, before, shown)
  {}

  lemma Proceeded(d: Doc, name: Name, i: nat, at: nat, depth: nat, prefix: seq<u8>, bytes: seq<u8>, before: Screen,
                  sofar: Screen, after: Screen, shown: bool, word: seq<u8>)
    requires Progress(d, name, i, at, depth, prefix, bytes, before, sofar, shown) && depth <= EIP712_MAX_DEPTH
    requires name in d.table && i < |d.table[name]| && d.table[name][i].Some?
    requires Did(d.keccak, Some(word), FieldAt(d, d.table[name][i].value, at, depth, prefix), shown, sofar, after)
    ensures Progress(d, name, i + 1, at, depth, prefix, bytes + word, before, after, shown)
  {
    hide FieldAt, FieldsAt, ShownAll, ShownOn;
    var field := d.table[name][i].value;
    FieldsStep(d, name, i, at, depth, prefix, field);
    if shown {
      ShownFurther(d.keccak, before, sofar, after, FieldsAt(d, name, i, at, depth, prefix).value, FieldAt(d, field, at, depth, prefix));
    }
  }

  lemma Stopped(d: Doc, name: Name, i: nat, n: nat, at: nat, depth: nat, prefix: seq<u8>, field: Option<FieldDef>,
                before: Screen, after: Screen, shown: bool, sofar: Screen)
    requires name in d.table && i < n <= |d.table[name]| && depth <= EIP712_MAX_DEPTH && d.table[name][i] == field
    requires field.Some? ==> Did(d.keccak, None, FieldAt(d, field.value, at, depth, prefix), shown, sofar, after)
    ensures Did(d.keccak, None, FieldsAt(d, name, n, at, depth, prefix), shown, before, after)
  {
    hide FieldAt;
    NoMoreFields(d, name, i, n, at, depth, prefix);
  }

  lemma Finished(d: Doc, name: Name, at: nat, depth: nat, prefix: seq<u8>, bytes: seq<u8>, before: Screen, after: Screen, shown: bool)
    requires name in d.table && Progress(d, name, |d.table[name]|, at, depth, prefix, bytes, before, after, shown)
    requires depth <= EIP712_MAX_DEPTH
    ensures Did(d.keccak, Some(bytes), FieldsAt(d, name, |d.table[name]|, at, depth, prefix), shown, before, after)
  {
    hide FieldsAt, ShownAll;
  }

  lemma ShownFurther(keccak: Hash, before: Screen, sofar: Screen, after: Screen, v: Walk, w: Option<Walk>)
    requires sofar == ShownAll(keccak, before, v.events) && w.Some? && ShownOn(keccak, sofar, after, w)
    ensures after == ShownAll(keccak, before, Join(v, w.value).events)
  {
    ShownInTwo(keccak, before, v.events, w.value.events);
  }

  lemma FieldsStep(d: Doc, name: Name, i: nat, at: nat, depth: nat, prefix: seq<u8>, field: FieldDef)
    requires name in d.table && i < |d.table[name]| && depth <= EIP712_MAX_DEPTH && d.table[name][i] == Some(field)
    requires FieldsAt(d, name, i, at, depth, prefix).Some?
    ensures var w := FieldAt(d, field, at, depth, prefix); var v := FieldsAt(d, name, i, at, depth, prefix).value;
      (w.None? ==> FieldsAt(d, name, i + 1, at, depth, prefix).None?)
      && (w.Some? ==> FieldsAt(d, name, i + 1, at, depth, prefix) == Some(Join(v, w.value))
                      && Join(v, w.value).data == v.data + w.value.data)
  {
    hide FieldAt;
  }

  lemma {:induction false} NoMoreFields(d: Doc, name: Name, i: nat, n: nat, at: nat, depth: nat, prefix: seq<u8>)
    requires name in d.table && i < n <= |d.table[name]| && depth <= EIP712_MAX_DEPTH
    requires d.table[name][i].None? || FieldAt(d, d.table[name][i].value, at, depth, prefix).None?
    ensures FieldsAt(d, name, n, at, depth, prefix).None?
  {
    hide FieldAt;
    if n > i + 1 { NoMoreFields(d, name, i, n - 1, at, depth, prefix); }
  }

  /** The value under a declared name, wherever in its map it stands. */
  method EncodeNamed(buf: seq<u8>, types: seq<TypeDef>, keccak: Hash, field: FieldDef, pos: nat, depth: nat,
                     col: Collector?, prefix: seq<u8>, ghost d: Doc) returns (word: Option<seq<u8>>)
    requires pos <= |buf| && depth <= EIP712_MAX_DEPTH && d == Doc(buf, TableOf(buf, types), keccak)
    modifies col
    ensures Did(keccak, word, FieldAt(d, field, pos, depth, prefix), col != null, old(StateOf(col)), StateOf(col))
    decreases EIP712_MAX_DEPTH + 1 - depth, 0, 1
  {
    hide TableOf, First, MapAt, ValueAs, ShownAll, Classify, Did;
    ghost var before := StateOf(col);
    var abi, structId := ClassifyType(buf, types, field.kind);
    if abi.AbiUnsupported? {
      Unsupported(d, field, pos, depth, prefix);
      NothingDone(keccak, FieldAt(d, field, pos, depth, prefix), col != null, before, before);
      return None;
    }
    var at := FindInMap(buf, pos, field.name, 0);
    if at.None? {
      NothingDone(keccak, FieldAt(d, field, pos, depth, prefix), col != null, before, before);
      return None;
    }
    word := EncodeField(buf, types, keccak, abi, structId, field.name, at.value, depth, col, prefix, d);
  }

  lemma Unsupported(d: Doc, field: FieldDef, pos: nat, depth: nat, prefix: seq<u8>)
    requires depth <= EIP712_MAX_DEPTH && Classify(d.table, field.kind) == AbiUnsupported
    ensures FieldAt(d, field, pos, depth, prefix) == None
  {
    hide Classify, MapAt, ItemAt;
  }

  // ---------------------------------------------------------------- the whole

  method ReadItem(buf: seq<u8>, pos: nat, key: seq<u8>) returns (item: Option<Item>)
    requires pos <= |buf|
    ensures item == ItemUnder(buf, pos, key)
  {
    hide MapAt, ItemAt;
    var at := FindInMap(buf, pos, key, 0);
    if at.None? { return None; }
    var r := new CborReader(buf);
    r.pos := at.value;
    item := r.Read();
  }

  method FindMap(buf: seq<u8>, key: seq<u8>) returns (at: Option<nat>)
    ensures at == MapUnder(buf, key)
  {
    hide MapAt, ItemAt;
    at := FindInMap(buf, 0, key, 0);
    if at.None? { return; }
    var r := new CborReader(buf);
    r.pos := at.value;
    var item := r.Read();
    if item.None? || !item.value.kind.Map? { return None; }
  }

  method ReadDomain(buf: seq<u8>, pos: nat) returns (domain: Domain)
    requires pos <= |buf|
    ensures domain == DomainAt(buf, pos)
  {
    hide ItemUnder, Ascii, FromBigEndian;
    var name := ReadItem(buf, pos, Ascii("name"));
    var chain := ReadItem(buf, pos, Ascii("chainId"));
    var contract := ReadItem(buf, pos, Ascii("verifyingContract"));
    domain := Domain(DomainName(name), ChainId(chain), Contract(contract));
  }

  /** The hash of the struct named, or nothing: a type the document never defines has none. */
  method HashNamed(buf: seq<u8>, types: seq<TypeDef>, keccak: Hash, name: Name, pos: nat, col: Collector?)
      returns (hash: Option<seq<u8>>)
    requires pos <= |buf|
    modifies col
    ensures var w := if name in TableOf(buf, types) then StructAt(Doc(buf, TableOf(buf, types), keccak), name, pos, 0, []) else None;
      (hash.None? <==> w.None?) && (hash.Some? ==> hash.value == w.value.data)
      && (col != null ==> ShownOn(keccak, old(StateOf(col)), StateOf(col), w))
  {
    hide TableOf, First, StructAt, ShownAll;
    var t := FindType(buf, types, name);
    if t < 0 { return None; }
    KnownCount(types, t);
    hash := HashStruct(buf, types, keccak, t, pos, 0, col, [], Doc(buf, TableOf(buf, types), keccak));
  }

  /** The request as a whole, tables, domain and message: result, digest and pages. */
  method Prepare(buf: seq<u8>, keccak: Hash) returns (outcome: Outcome)
    ensures outcome == Prepared(buf, keccak)
    ensures outcome.Ok? || outcome.Unrenderable? ==> DomainHash(buf, keccak).Some? && MessageHash(buf, keccak).Some?
    ensures outcome.Ok? || outcome.Unrenderable? ==>
      outcome.digest == keccak([0x19, 0x01] + DomainHash(buf, keccak).value + MessageHash(buf, keccak).value)
    ensures outcome.Ok? ==> 1 <= |outcome.render.fields| <= 6
  {
    hide TableOf, StructAt, ShownAll, TypeDefs, TextUnder, MapUnder, DomainAt, Ascii, Digest, DomainHash, MessageHash;
    SignedBytes(buf, keccak);
    var types := ParseTypes(buf);
    if types.None? { return Malformed; }
    var primary := TextOf(buf, 0, Ascii("primaryType"));
    if primary.None? || |primary.value| + 1 > PRIMARY_SIZE { return Malformed; }
    var domainPos := FindMap(buf, Ascii("domain"));
    if domainPos.None? { return Malformed; }
    var messagePos := FindMap(buf, Ascii("message"));
    if messagePos.None? { return Malformed; }
    Positions(buf, Ascii("domain"));
    Positions(buf, Ascii("message"));
    var domainHash := HashNamed(buf, types.value, keccak, Ascii("EIP712Domain"), domainPos.value, null);
    if domainHash.None? { return Unhashable; }
    var col := new Collector();
    var messageHash := HashNamed(buf, types.value, keccak, primary.value, messagePos.value, col);
    if messageHash.None? { return Unhashable; }
    var domain := ReadDomain(buf, domainPos.value);
    var digest := Digest(keccak, domainHash.value, messageHash.value);
    var render := Render(primary.value, domain, col.fields);
    if col.overflow || |col.fields| == 0 {
      outcome := Unrenderable(digest, render);
    } else {
      outcome := Ok(digest, render);
    }
  }

  lemma Positions(buf: seq<u8>, key: seq<u8>)
    ensures MapUnder(buf, key).Some? ==> MapUnder(buf, key).value <= |buf|
  {
    hide MapAt, ItemAt;
  }
}
