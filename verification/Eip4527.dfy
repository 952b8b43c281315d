/** The EIP-4527 schemas. */
module Eip4527 {
  import opened Bytes
  import opened Cbor

  // The EIP-4527 schemas: what a sign request or a signature must look like on the wire,
  // that the order of a map's pairs does not matter, and that a written signature is
  // read back.

  const TAG_UUID := 37
  const TAG_KEYPATH := 304
  const MAX_COMPONENTS := 12
  const MAX_SIGN_DATA := 1024
  const MAX_ORIGIN := 64

  datatype Code =
    | WrongTag | BadLength | DuplicateField | UnknownField | MissingField | InvalidDataType | TrailingData | Malformed

  /** A value and where it ends, or why it was refused. */
  datatype Res<+T> = Ok(value: T, end: nat) | Err(code: Code) {
    predicate IsFailure() { Err? }

    function PropagateFailure<U>(): Res<U>
      requires Err?
    {
      Err(code)
    }

    function Extract(): T
      requires Ok?
    {
      value
    }
  }

  // --------------------------------------------------------------- primitives

  datatype Head = Head(major: nat, arg: nat)

  /** The head of an item; one with no 32-bit argument, and any simple value, is refused. */
  function HeadAt(buf: seq<u8>, pos: nat): (r: Res<Head>)
    ensures r.Ok? ==> pos < r.end <= |buf| && r.value.major < 7 && r.value.arg < TWO_32
  {
    if pos >= |buf| || buf[pos] / 32 == 7 then Err(Malformed)
    else
      match ArgumentAt(buf, pos + 1, buf[pos] % 32)
      case None => Err(Malformed)
      case Some(a) => Ok(Head(buf[pos] / 32, a.value), a.end)
  }

  function ArgOf(buf: seq<u8>, pos: nat, major: nat): (r: Res<nat>)
    ensures r.Ok? ==> pos < r.end <= |buf| && r.value < TWO_32
  {
    match HeadAt(buf, pos)
    case Err(c) => Err(c)
    case Ok(h, end) => if h.major == major then Ok(h.arg, end) else Err(Malformed)
  }

  /** Exactly this tag; no variant accepts any tag. */
  function TagAt(buf: seq<u8>, pos: nat, tag: nat): (r: Res<nat>)
    ensures r.Ok? ==> pos < r.end <= |buf|
  {
    match HeadAt(buf, pos)
    case Err(c) => Err(c)
    case Ok(h, end) => if h.major != 6 then Err(Malformed) else if h.arg != tag then Err(WrongTag) else Ok(tag, end)
  }

  /** A byte or text string of at most `cap` bytes, or of exactly `exact`. */
  function StringAt(buf: seq<u8>, pos: nat, major: nat, cap: nat, exact: nat): (r: Res<seq<u8>>)
    ensures r.Ok? ==> pos < r.end <= |buf| && |r.value| <= cap && (exact != 0 ==> |r.value| == exact)
  {
    match ArgOf(buf, pos, major)
    case Err(c) => Err(c)
    case Ok(n, end) =>
      if (exact != 0 && n != exact) || n > cap then Err(BadLength)
      else if n > |buf| - end then Err(Malformed)
      else Ok(buf[end..end + n], end + n)
  }

  function BoolAt(buf: seq<u8>, pos: nat): (r: Res<bool>)
    ensures r.Ok? ==> pos < r.end <= |buf|
  {
    if pos >= |buf| then Err(Malformed)
    else if buf[pos] == 0xF4 then Ok(false, pos + 1)
    else if buf[pos] == 0xF5 then Ok(true, pos + 1)
    else Err(Malformed)
  }

  // ------------------------------------------------------------------ keypath

  datatype Component = Component(index: nat, hardened: bool, wildcard: bool)

  datatype Keypath = Keypath(components: seq<Component>, fingerprint: Option<nat>, depth: Option<nat>)

  function ComponentAt(buf: seq<u8>, pos: nat): (r: Res<Component>)
    ensures r.Ok? ==> pos < r.end <= |buf|
  {
    if pos < |buf| && buf[pos] == 0x80 then
      match BoolAt(buf, pos + 1)
      case Err(c) => Err(c)
      case Ok(h, end) => Ok(Component(0, h, true), end)
    else
      match ArgOf(buf, pos, 0)
      case Err(c) => Err(c)
      case Ok(index, mid) =>
        match BoolAt(buf, mid)
        case Err(c) => Err(c)
        case Ok(h, end) => Ok(Component(index, h, false), end)
  }

  function ComponentsAt(buf: seq<u8>, pos: nat, n: nat): (r: Res<seq<Component>>)
    ensures r.Ok? ==> (pos <= |buf| ==> pos <= r.end <= |buf|) && |r.value| == n
    decreases n
  {
    if n == 0 then Ok([], pos)
    else
      match ComponentAt(buf, pos)
      case Err(c) => Err(c)
      case Ok(first, next) =>
        match ComponentsAt(buf, next, n - 1)
        case Err(c) => Err(c)
        case Ok(rest, end) => Ok([first] + rest, end)
  }

  function PathArrayAt(buf: seq<u8>, pos: nat): (r: Res<seq<Component>>)
    ensures r.Ok? ==> pos < r.end <= |buf| && |r.value| <= MAX_COMPONENTS
  {
    match ArgOf(buf, pos, 4)
    case Err(c) => Err(c)
    case Ok(n, start) =>
      if n % 2 != 0 then Err(Malformed)
      else if n / 2 > MAX_COMPONENTS then Err(BadLength)
      else ComponentsAt(buf, start, n / 2)
  }

  /** One pair of a keypath. */
  function PathFieldAt(buf: seq<u8>, pos: nat, key: nat, kp: Keypath): (r: Res<Keypath>)
    requires 1 <= key <= 3
    ensures r.Ok? ==> pos < r.end <= |buf|
  {
    if key == 1 then
      match PathArrayAt(buf, pos)
      case Err(c) => Err(c)
      case Ok(cs, end) => Ok(kp.(components := cs), end)
    else
      match ArgOf(buf, pos, 0)
      case Err(c) => Err(c)
      case Ok(v, end) => Ok(if key == 2 then kp.(fingerprint := Some(v)) else kp.(depth := Some(v)), end)
  }

  function PathPairs(buf: seq<u8>, pos: nat, n: nat, kp: Keypath, seen: set<nat>): (r: Res<Keypath>)
    ensures r.Ok? && pos <= |buf| ==> pos <= r.end <= |buf|
    decreases n
  {
    if n == 0 then Ok(kp, pos)
    else
      match ArgOf(buf, pos, 0)
      case Err(c) => Err(c)
      case Ok(key, start) =>
        if key < 1 || key > 3 then Err(UnknownField)
        else if key in seen then Err(DuplicateField)
        else
          match PathFieldAt(buf, start, key, kp)
          case Err(c) => Err(c)
          case Ok(next, end) => PathPairs(buf, end, n - 1, next, seen + {key})
  }

  function KeypathAt(buf: seq<u8>, pos: nat): (r: Res<Keypath>)
    ensures r.Ok? ==> pos < r.end <= |buf|
  {
    match ArgOf(buf, pos, 5)
    case Err(c) => Err(c)
    case Ok(n, start) => PathPairs(buf, start, n, Keypath([], None, None), {})
  }

  // ------------------------------------------------------------------- fields

  datatype Schema = SignRequest | Signature {
    function Keys(): nat { if SignRequest? then 7 else 3 }

    function Required(): set<nat> { if SignRequest? then {2, 3, 5} else {1, 2} }
  }

  datatype Field = FBytes(bytes: seq<u8>) | FNumber(n: nat) | FPath(path: Keypath)

  function AsBytes(r: Res<seq<u8>>): Res<Field> { if r.Err? then Err(r.code) else Ok(FBytes(r.value), r.end) }

  function AsNumber(r: Res<nat>): Res<Field> { if r.Err? then Err(r.code) else Ok(FNumber(r.value), r.end) }

  function AsPath(r: Res<Keypath>): Res<Field> { if r.Err? then Err(r.code) else Ok(FPath(r.value), r.end) }

  function RequestIdAt(buf: seq<u8>, pos: nat): (r: Res<Field>)
    ensures r.Ok? ==> pos < r.end <= |buf|
  {
    match TagAt(buf, pos, TAG_UUID)
    case Err(c) => Err(c)
    case Ok(t, start) => AsBytes(StringAt(buf, start, 2, 16, 16))
  }

  function DataTypeAt(buf: seq<u8>, pos: nat): (r: Res<Field>)
    ensures r.Ok? ==> pos < r.end <= |buf|
  {
    match ArgOf(buf, pos, 0)
    case Err(c) => Err(c)
    case Ok(v, end) => if v < 1 || v > 4 then Err(InvalidDataType) else Ok(FNumber(v), end)
  }

  function TaggedPathAt(buf: seq<u8>, pos: nat): (r: Res<Field>)
    ensures r.Ok? ==> pos < r.end <= |buf|
  {
    match TagAt(buf, pos, TAG_KEYPATH)
    case Err(c) => Err(c)
    case Ok(t, start) => AsPath(KeypathAt(buf, start))
  }

  /** The value of a field, by its key. */
  function FieldAt(schema: Schema, buf: seq<u8>, pos: nat, key: nat): (r: Res<Field>)
    requires 1 <= key <= schema.Keys()
    ensures r.Ok? ==> pos < r.end <= |buf|
  {
    if schema.SignRequest? then
      match key
      case 1 => RequestIdAt(buf, pos)
      case 2 => AsBytes(StringAt(buf, pos, 2, MAX_SIGN_DATA, 0))
      case 3 => DataTypeAt(buf, pos)
      case 4 => AsNumber(ArgOf(buf, pos, 0))
      case 5 => TaggedPathAt(buf, pos)
      case 6 => AsBytes(StringAt(buf, pos, 2, 20, 20))
      case _ => AsBytes(StringAt(buf, pos, 3, MAX_ORIGIN, 0))
    else
      match key
      case 1 => RequestIdAt(buf, pos)
      case 2 => AsBytes(StringAt(buf, pos, 2, 65, 65))
      case _ => AsBytes(StringAt(buf, pos, 3, MAX_ORIGIN, 0))
  }

  /** The fields read so far, each key once. */
  type Fields = map<nat, Field>

  function PairsFrom(schema: Schema, buf: seq<u8>, pos: nat, n: nat, fields: Fields): (r: Res<Fields>)
    ensures r.Ok? && pos <= |buf| ==> pos <= r.end <= |buf|
    decreases n
  {
    if n == 0 then Ok(fields, pos)
    else
      match ArgOf(buf, pos, 0)
      case Err(c) => Err(c)
      case Ok(key, start) =>
        if key < 1 || key > schema.Keys() then Err(UnknownField)
        else if key in fields then Err(DuplicateField)
        else
          match FieldAt(schema, buf, start, key)
          case Err(c) => Err(c)
          case Ok(f, next) => PairsFrom(schema, buf, next, n - 1, fields[key := f])
  }

  /** What decoding a whole document gives; nothing is handed out on refusal. The chain
      defaults to 1 when a sign request names none. */
  function Decode(schema: Schema, buf: seq<u8>): Res<Fields> {
    if |buf| > 0 && buf[0] / 32 == 6 then Err(WrongTag)
    else
      match ArgOf(buf, 0, 5)
      case Err(c) => Err(c)
      case Ok(n, start) =>
        match PairsFrom(schema, buf, start, n, map[])
        case Err(c) => Err(c)
        case Ok(fields, end) =>
          if end != |buf| then Err(TrailingData)
          else if !(schema.Required() <= fields.Keys) then Err(MissingField)
          else Ok(if schema.SignRequest? && 4 !in fields then fields[4 := FNumber(1)] else fields, end)
  }

  // ------------------------------------------------- the work that can be done

  /** How many pairs are read successfully before the loop stops. */
  function Turns(schema: Schema, buf: seq<u8>, pos: nat, n: nat, fields: Fields): nat
    decreases n
  {
    if n == 0 then 0
    else
      match ArgOf(buf, pos, 0)
      case Err(c) => 0
      case Ok(key, start) =>
        if key < 1 || key > schema.Keys() || key in fields then 0
        else
          match FieldAt(schema, buf, start, key)
          case Err(c) => 0
          case Ok(f, next) => 1 + Turns(schema, buf, next, n - 1, fields[key := f])
  }

  /** The keys not read yet. */
  function Unread(schema: Schema, fields: Fields): set<nat> {
    set k: nat | 1 <= k <= schema.Keys() && k !in fields
  }

  /** Whatever number of pairs is declared, no more are read than there are keys. */
  lemma {:induction false} FewTurns(schema: Schema, buf: seq<u8>, pos: nat, n: nat, fields: Fields)
    ensures Turns(schema, buf, pos, n, fields) <= |Unread(schema, fields)|
    decreases n
  {
    hide ArgOf, FieldAt;
    if n > 0 && ArgOf(buf, pos, 0).Ok? {
      var key := ArgOf(buf, pos, 0).value;
      if 1 <= key <= schema.Keys() && key !in fields {
        var f := FieldAt(schema, buf, ArgOf(buf, pos, 0).end, key);
        if f.Ok? {
          FewTurns(schema, buf, f.end, n - 1, fields[key := f.value]);
          assert Unread(schema, fields[key := f.value]) == Unread(schema, fields) - {key};
        }
      }
    }
  }

  lemma AtMostSevenTurns(schema: Schema, buf: seq<u8>, pos: nat, n: nat)
    ensures Turns(schema, buf, pos, n, map[]) <= 7
  {
    hide Turns;
    FewTurns(schema, buf, pos, n, map[]);
    var all: set<nat> := {1, 2, 3, 4, 5, 6, 7};
    assert Unread(schema, map[]) <= all;
    Smaller(Unread(schema, map[]), all);
  }

  lemma Smaller(a: set<nat>, b: set<nat>)
    requires a <= b
    ensures |a| <= |b|
  {
    assert b == a + (b - a);
  }

  // ----------------------------------------------- reading is local to a place

  /** n bytes of one buffer are n bytes of another. */
  ghost predicate Alike(a: seq<u8>, p: nat, b: seq<u8>, q: nat, n: nat) {
    p + n <= |a| && q + n <= |b| && a[p..p + n] == b[q..q + n]
  }

  lemma AlikeAt(a: seq<u8>, p: nat, b: seq<u8>, q: nat, n: nat, i: nat)
    requires Alike(a, p, b, q, n) && i <= n
    ensures i < n ==> a[p + i] == b[q + i]
    ensures Alike(a, p + i, b, q + i, n - i) && Alike(a, p, b, q, i)
  {
    var x, y := a[p..p + n], b[q..q + n];
    if i < n { assert x[i] == y[i]; }
    Cuts(a, p, n, i);
    Cuts(b, q, n, i);
  }

  lemma Cuts(a: seq<u8>, p: nat, n: nat, i: nat)
    requires p + n <= |a| && i <= n
    ensures a[p..p + n][i..] == a[p + i..p + i + (n - i)] && a[p..p + n][..i] == a[p..p + i]
  {
    var x, y, z := a[p..p + n], a[p + i..p + n], a[p..p + i];
    assert |x[i..]| == |y| && |x[..i]| == |z|;
    forall k | 0 <= k < n - i ensures x[i..][k] == y[k] {}
    forall k | 0 <= k < i ensures x[..i][k] == z[k] {}
  }

  /** The same result, at another place. */
  ghost predicate Moved<T>(r: Res<T>, p: nat, s: Res<T>, q: nat, n: nat) {
    r.Ok? && p <= r.end <= p + n ==> s.Ok? && s.value == r.value && s.end == q + (r.end - p)
  }

  lemma HeadMoves(a: seq<u8>, p: nat, b: seq<u8>, q: nat, n: nat)
    requires Alike(a, p, b, q, n)
    ensures Moved(HeadAt(a, p), p, HeadAt(b, q), q, n)
  {
    hide FromBigEndian;
    if n > 0 {
      AlikeAt(a, p, b, q, n, 0);
      AlikeAt(a, p, b, q, n, 1);
      var k := if a[p] % 32 == 24 then 1 else if a[p] % 32 == 25 then 2 else 4;
      if 24 <= a[p] % 32 < 27 && 1 + k <= n { AlikeAt(a, p + 1, b, q + 1, n - 1, k); }
    }
  }

  lemma ArgMoves(a: seq<u8>, p: nat, b: seq<u8>, q: nat, n: nat, major: nat)
    requires Alike(a, p, b, q, n)
    ensures Moved(ArgOf(a, p, major), p, ArgOf(b, q, major), q, n)
  {
    HeadMoves(a, p, b, q, n);
    hide HeadAt, Alike;
  }

  lemma TagMoves(a: seq<u8>, p: nat, b: seq<u8>, q: nat, n: nat, tag: nat)
    requires Alike(a, p, b, q, n)
    ensures Moved(TagAt(a, p, tag), p, TagAt(b, q, tag), q, n)
  {
    HeadMoves(a, p, b, q, n);
    hide HeadAt, Alike;
  }

  lemma StringMoves(a: seq<u8>, p: nat, b: seq<u8>, q: nat, n: nat, major: nat, cap: nat, exact: nat)
    requires Alike(a, p, b, q, n)
    ensures Moved(StringAt(a, p, major, cap, exact), p, StringAt(b, q, major, cap, exact), q, n)
  {
    hide ArgOf, Alike;
    ArgMoves(a, p, b, q, n, major);
    var r := ArgOf(a, p, major);
    InBounds(a, p, b, q, n);
    if r.Ok? && r.end - p <= n && r.end + r.value <= p + n {
      AlikeAt(a, p, b, q, n, r.end - p);
      AlikeAt(a, r.end, b, q + (r.end - p), n - (r.end - p), r.value);
      SameSlice(a, r.end, b, q + (r.end - p), r.value);
    }
  }

  lemma SameSlice(a: seq<u8>, p: nat, b: seq<u8>, q: nat, n: nat)
    requires Alike(a, p, b, q, n)
    ensures p + n <= |a| && q + n <= |b| && a[p..p + n] == b[q..q + n]
  {}

  lemma BoolMoves(a: seq<u8>, p: nat, b: seq<u8>, q: nat, n: nat)
    requires Alike(a, p, b, q, n)
    ensures Moved(BoolAt(a, p), p, BoolAt(b, q), q, n)
  {
    if n > 0 { AlikeAt(a, p, b, q, n, 0); }
  }

  lemma ComponentMoves(a: seq<u8>, p: nat, b: seq<u8>, q: nat, n: nat)
    requires Alike(a, p, b, q, n)
    ensures Moved(ComponentAt(a, p), p, ComponentAt(b, q), q, n)
  {
    hide ArgOf, BoolAt, Alike;
    if n > 0 {
      AlikeAt(a, p, b, q, n, 0);
      AlikeAt(a, p, b, q, n, 1);
      BoolMoves(a, p + 1, b, q + 1, n - 1);
      ArgMoves(a, p, b, q, n, 0);
      var mid := ArgOf(a, p, 0);
      if mid.Ok? && mid.end <= p + n {
        AlikeAt(a, p, b, q, n, mid.end - p);
        BoolMoves(a, mid.end, b, q + (mid.end - p), n - (mid.end - p));
      }
      InBounds(a, p, b, q, n);
    }
  }

  lemma InBounds(a: seq<u8>, p: nat, b: seq<u8>, q: nat, n: nat)
    requires Alike(a, p, b, q, n)
    ensures p + n <= |a| && q + n <= |b|
  {}

  lemma {:induction false} ComponentsMove(a: seq<u8>, p: nat, b: seq<u8>, q: nat, n: nat, k: nat)
    requires Alike(a, p, b, q, n)
    ensures Moved(ComponentsAt(a, p, k), p, ComponentsAt(b, q, k), q, n)
    decreases k
  {
    hide ComponentAt, Alike;
    if k > 0 {
      ComponentMoves(a, p, b, q, n);
      var first := ComponentAt(a, p);
      if first.Ok? && first.end <= p + n {
        AlikeAt(a, p, b, q, n, first.end - p);
        ComponentsMove(a, first.end, b, q + (first.end - p), n - (first.end - p), k - 1);
      }
    }
  }

  lemma PathArrayMoves(a: seq<u8>, p: nat, b: seq<u8>, q: nat, n: nat)
    requires Alike(a, p, b, q, n)
    ensures Moved(PathArrayAt(a, p), p, PathArrayAt(b, q), q, n)
  {
    hide ArgOf, ComponentsAt, Alike;
    ArgMoves(a, p, b, q, n, 4);
    var r := ArgOf(a, p, 4);
    if r.Ok? && r.end <= p + n {
      AlikeAt(a, p, b, q, n, r.end - p);
      ComponentsMove(a, r.end, b, q + (r.end - p), n - (r.end - p), r.value / 2);
    }
  }

  lemma PathFieldMoves(a: seq<u8>, p: nat, b: seq<u8>, q: nat, n: nat, key: nat, kp: Keypath)
    requires Alike(a, p, b, q, n) && 1 <= key <= 3
    ensures Moved(PathFieldAt(a, p, key, kp), p, PathFieldAt(b, q, key, kp), q, n)
  {
    hide ArgOf, PathArrayAt, Alike;
    PathArrayMoves(a, p, b, q, n);
    ArgMoves(a, p, b, q, n, 0);
  }

  lemma {:induction false} PathPairsMove(a: seq<u8>, p: nat, b: seq<u8>, q: nat, n: nat, k: nat, kp: Keypath, seen: set<nat>)
    requires Alike(a, p, b, q, n)
    ensures Moved(PathPairs(a, p, k, kp, seen), p, PathPairs(b, q, k, kp, seen), q, n)
    decreases k
  {
    hide ArgOf, PathFieldAt, Alike;
    if k > 0 {
      ArgMoves(a, p, b, q, n, 0);
      var key := ArgOf(a, p, 0);
      if key.Ok? && key.end <= p + n && 1 <= key.value <= 3 && key.value !in seen {
        AlikeAt(a, p, b, q, n, key.end - p);
        var q', n' := q + (key.end - p), n - (key.end - p);
        PathFieldMoves(a, key.end, b, q', n', key.value, kp);
        var f := PathFieldAt(a, key.end, key.value, kp);
        if f.Ok? && f.end <= p + n {
          AlikeAt(a, key.end, b, q', n', f.end - key.end);
          PathPairsMove(a, f.end, b, q' + (f.end - key.end), n' - (f.end - key.end), k - 1, f.value, seen + {key.value});
        }
      }
      InBounds(a, p, b, q, n);
    }
  }

  lemma KeypathMoves(a: seq<u8>, p: nat, b: seq<u8>, q: nat, n: nat)
    requires Alike(a, p, b, q, n)
    ensures Moved(KeypathAt(a, p), p, KeypathAt(b, q), q, n)
  {
    hide ArgOf, PathPairs, Alike;
    ArgMoves(a, p, b, q, n, 5);
    var r := ArgOf(a, p, 5);
    if r.Ok? && r.end <= p + n {
      AlikeAt(a, p, b, q, n, r.end - p);
      PathPairsMove(a, r.end, b, q + (r.end - p), n - (r.end - p), r.value, Keypath([], None, None), {});
    }
  }

  lemma RequestIdMoves(a: seq<u8>, p: nat, b: seq<u8>, q: nat, n: nat)
    requires Alike(a, p, b, q, n)
    ensures Moved(RequestIdAt(a, p), p, RequestIdAt(b, q), q, n)
  {
    hide TagAt, StringAt, Alike;
    TagMoves(a, p, b, q, n, TAG_UUID);
    var r := TagAt(a, p, TAG_UUID);
    if r.Ok? && r.end <= p + n {
      AlikeAt(a, p, b, q, n, r.end - p);
      StringMoves(a, r.end, b, q + (r.end - p), n - (r.end - p), 2, 16, 16);
    }
  }

  lemma TaggedPathMoves(a: seq<u8>, p: nat, b: seq<u8>, q: nat, n: nat)
    requires Alike(a, p, b, q, n)
    ensures Moved(TaggedPathAt(a, p), p, TaggedPathAt(b, q), q, n)
  {
    hide TagAt, KeypathAt, Alike;
    TagMoves(a, p, b, q, n, TAG_KEYPATH);
    var r := TagAt(a, p, TAG_KEYPATH);
    if r.Ok? && r.end <= p + n {
      AlikeAt(a, p, b, q, n, r.end - p);
      KeypathMoves(a, r.end, b, q + (r.end - p), n - (r.end - p));
    }
  }

  lemma FieldMoves(schema: Schema, a: seq<u8>, p: nat, b: seq<u8>, q: nat, n: nat, key: nat)
    requires Alike(a, p, b, q, n) && 1 <= key <= schema.Keys()
    ensures Moved(FieldAt(schema, a, p, key), p, FieldAt(schema, b, q, key), q, n)
  {
    hide ArgOf, StringAt, RequestIdAt, TaggedPathAt, Alike;
    if key == 1 {
      RequestIdMoves(a, p, b, q, n);
    } else if schema.Signature? {
      if key == 2 { StringMoves(a, p, b, q, n, 2, 65, 65); } else { StringMoves(a, p, b, q, n, 3, MAX_ORIGIN, 0); }
    } else {
      match key
      case 2 => StringMoves(a, p, b, q, n, 2, MAX_SIGN_DATA, 0);
      case 3 => ArgMoves(a, p, b, q, n, 0);
      case 4 => ArgMoves(a, p, b, q, n, 0);
      case 5 => TaggedPathMoves(a, p, b, q, n);
      case 6 => StringMoves(a, p, b, q, n, 2, 20, 20);
      case _ => StringMoves(a, p, b, q, n, 3, MAX_ORIGIN, 0);
    }
  }
}
