/** The EIP-4527 reader that walks borrowed bytes, the two decoders that fill a caller's
    structure, and the writer of a signature. */
module Eip4527Io {
  import opened Buffers
  import opened Bytes
  import opened Cbor
  import CborIo
  import opened Eip4527
  import opened Eip4527Order

  // ------------------------------------------------------------------ reader

  class Reader {
    const buf: seq<u8>
    var pos: nat

    predicate Valid()
      reads this
    {
      pos <= |buf|
    }

    constructor (buf: seq<u8>)
      ensures Valid() && this.buf == buf && pos == 0
    {
      this.buf := buf;
      pos := 0;
    }

    method ReadByte() returns (r: Res<u8>)
      requires Valid()
      modifies this
      ensures Valid() && pos == old(pos) + (if r.Ok? then 1 else 0)
      ensures r == if old(pos) < |buf| then Ok(buf[old(pos)], pos) else Err(Malformed)
    {
      if |buf| - pos < 1 { return Err(Malformed); }
      r := Ok(buf[pos], pos + 1);
      pos := pos + 1;
    }

    method ReadHead() returns (r: Res<Head>)
      requires Valid()
      modifies this
      ensures Valid() && r == HeadAt(buf, old(pos)) && (r.Ok? ==> pos == r.end)
    {
      var ib :- ReadByte();
      var major, info := ib / 32, ib % 32;
      if major == 7 { return Err(Malformed); }
      if info >= 28 { return Err(Malformed); }
      var value: nat := info;
      if info >= 24 {
        var n := if info == 24 then 1 else if info == 25 then 2 else if info == 26 then 4 else 8;
        if n > 4 { return Err(Malformed); }
        value := 0;
        ghost var start := pos;
        var i := 0;
        while i < n
          invariant 0 <= i <= n && pos == start + i && Valid()
          invariant value == FromBigEndian(buf[start..pos])
        {
          var b :- ReadByte();
          value := 256 * value + (b as int);
          CborIo.OneMoreByte(buf, start, pos - 1);
          i := i + 1;
        }
      }
      r := Ok(Head(major, value), pos);
    }

    method ExpectMajor(want: nat) returns (r: Res<nat>)
      requires Valid()
      modifies this
      ensures Valid() && r == ArgOf(buf, old(pos), want) && (r.Ok? ==> pos == r.end)
    {
      hide HeadAt;
      var head :- ReadHead();
      if head.major != want { return Err(Malformed); }
      r := Ok(head.arg, pos);
    }

    method ExpectTag(want: nat) returns (r: Res<nat>)
      requires Valid()
      modifies this
      ensures Valid() && r == TagAt(buf, old(pos), want) && (r.Ok? ==> pos == r.end)
    {
      hide HeadAt;
      var head :- ReadHead();
      if head.major != 6 { return Err(Malformed); }
      if head.arg != want { return Err(WrongTag); }
      r := Ok(want, pos);
    }

    method ExpectBytes(cap: nat, exact: nat) returns (r: Res<seq<u8>>)
      requires Valid()
      modifies this
      ensures Valid() && r == StringAt(buf, old(pos), 2, cap, exact) && (r.Ok? ==> pos == r.end)
    {
      hide ArgOf;
      var n :- ExpectMajor(2);
      if exact != 0 && n != exact { return Err(BadLength); }
      if n > cap { return Err(BadLength); }
      if n > |buf| - pos { return Err(Malformed); }
      r := Ok(buf[pos..pos + n], pos + n);
      pos := pos + n;
    }

    method ExpectText(cap: nat) returns (r: Res<seq<u8>>)
      requires Valid()
      modifies this
      ensures Valid() && r == StringAt(buf, old(pos), 3, cap, 0) && (r.Ok? ==> pos == r.end)
    {
      hide ArgOf;
      var n :- ExpectMajor(3);
      if n > cap { return Err(BadLength); }
      if n > |buf| - pos { return Err(Malformed); }
      r := Ok(buf[pos..pos + n], pos + n);
      pos := pos + n;
    }

    method ExpectBool() returns (r: Res<bool>)
      requires Valid()
      modifies this
      ensures Valid() && r == BoolAt(buf, old(pos)) && (r.Ok? ==> pos == r.end)
    {
      var b :- ReadByte();
      if b == 0xF4 { return Ok(false, pos); }
      if b == 0xF5 { return Ok(true, pos); }
      r := Err(Malformed);
    }

    method ReadComponent() returns (r: Res<Component>)
      requires Valid()
      modifies this
      ensures Valid() && r == ComponentAt(buf, old(pos)) && (r.Ok? ==> pos == r.end)
    {
      hide BoolAt;
      var wildcard := pos < |buf| && buf[pos] == 0x80;
      var index := 0;
      if wildcard {
        assert ArgOf(buf, pos, 4) == Ok(0, pos + 1);
        var zero := ExpectMajor(4);  // the one byte just seen
      } else {
        hide ArgOf;
        index :- ExpectMajor(0);
      }
      var hardened :- ExpectBool();
      r := Ok(Component(index, hardened, wildcard), pos);
    }

    /** n items, two for each component. */
    method ReadComponents(n: nat) returns (r: Res<seq<Component>>)
      requires Valid() && n % 2 == 0
      modifies this
      ensures Valid() && r == ComponentsAt(buf, old(pos), n / 2) && (r.Ok? ==> pos == r.end)
    {
      hide ComponentAt;
      ghost var start := pos;
      var components: seq<Component> := [];
      AfterNone(ComponentsAt(buf, start, n / 2));
      var i := 0;
      while i < n
        invariant 0 <= i <= n && i % 2 == 0 && Valid()
        invariant ComponentsAt(buf, start, n / 2) == After(components, ComponentsAt(buf, pos, (n - i) / 2))
        decreases n - i
      {
        ghost var from, done := pos, components;
        var c :- ReadComponent();
        components := components + [c];
        AfterOne(buf, from, (n - i) / 2, done, c, pos);
        i := i + 2;
      }
      assert components + [] == components;
      r := Ok(components, pos);
    }

    method ReadPathComponents() returns (r: Res<seq<Component>>)
      requires Valid()
      modifies this
      ensures Valid() && r == PathArrayAt(buf, old(pos)) && (r.Ok? ==> pos == r.end)
    {
      hide ArgOf, ComponentsAt;
      var n :- ExpectMajor(4);
      if n % 2 != 0 { return Err(Malformed); }
      if n / 2 > MAX_COMPONENTS { return Err(BadLength); }
      r := ReadComponents(n);
    }

    /** Positioned past the tag of a keypath. */
    method ReadKeypathBody() returns (r: Res<Keypath>)
      requires Valid()
      modifies this
      ensures Valid() && r == KeypathAt(buf, old(pos)) && (r.Ok? ==> pos == r.end)
    {
      hide ArgOf, PathArrayAt;
      var pairs :- ExpectMajor(5);
      ghost var start := pos;
      var kp := Keypath([], None, None);
      var seen := new bool[4](_ => false);
      ghost var read: set<nat> := {};
      var i := 0;
      while i < pairs
        invariant 0 <= i <= pairs && Valid()
        invariant forall k | 1 <= k <= 3 :: seen[k] <==> k in read
        invariant PathPairs(buf, start, pairs, Keypath([], None, None), {}) == PathPairs(buf, pos, pairs - i, kp, read)
      {
        var key :- ExpectMajor(0);
        if key < 1 || key > 3 { return Err(UnknownField); }
        if seen[key] { return Err(DuplicateField); }
        seen[key] := true;
        read := read + {key};
        if key == 1 {
          var components :- ReadPathComponents();
          kp := kp.(components := components);
        } else {
          var v :- ExpectMajor(0);
          kp := if key == 2 then kp.(fingerprint := Some(v)) else kp.(depth := Some(v));
        }
        i := i + 1;
      }
      r := Ok(kp, pos);
    }

    /** A UUID: its tag and 16 bytes. */
    method ReadRequestId() returns (r: Res<seq<u8>>)
      requires Valid()
      modifies this
      ensures Valid() && AsBytes(r) == RequestIdAt(buf, old(pos)) && (r.Ok? ==> pos == r.end)
    {
      hide TagAt, StringAt;
      var tag :- ExpectTag(TAG_UUID);
      r := ExpectBytes(16, 16);
    }

    method ReadPath() returns (r: Res<Keypath>)
      requires Valid()
      modifies this
      ensures Valid() && AsPath(r) == TaggedPathAt(buf, old(pos)) && (r.Ok? ==> pos == r.end)
    {
      hide TagAt, KeypathAt;
      var tag :- ExpectTag(TAG_KEYPATH);
      r := ReadKeypathBody();
    }

    method ReadDataType() returns (r: Res<nat>)
      requires Valid()
      modifies this
      ensures Valid() && AsNumber(r) == DataTypeAt(buf, old(pos)) && (r.Ok? ==> pos == r.end)
    {
      hide ArgOf;
      var v :- ExpectMajor(0);
      if v < 1 || v > 4 { return Err(InvalidDataType); }
      r := Ok(v, pos);
    }
  }

  /** Components read before those a result holds. */
  ghost function After(first: seq<Component>, rest: Res<seq<Component>>): Res<seq<Component>> {
    match rest
    case Err(c) => Err(c)
    case Ok(cs, end) => Ok(first + cs, end)
  }

  lemma AfterNone(rest: Res<seq<Component>>)
    ensures After([], rest) == rest
  {
    if rest.Ok? { assert [] + rest.value == rest.value; }
  }

  lemma AfterOne(buf: seq<u8>, pos: nat, n: nat, first: seq<Component>, c: Component, next: nat)
    requires n > 0 && ComponentAt(buf, pos) == Ok(c, next)
    ensures After(first, ComponentsAt(buf, pos, n)) == After(first + [c], ComponentsAt(buf, next, n - 1))
  {
    hide ComponentAt;
    var rest := ComponentsAt(buf, next, n - 1);
    if rest.Ok? { assert first + ([c] + rest.value) == (first + [c]) + rest.value; }
  }

  // ------------------------------------------------------------ sign request

  datatype Request = Request(
    requestId: Option<seq<u8>>, signData: seq<u8>, dataType: nat, chainId: nat,
    path: Keypath, address: Option<seq<u8>>, origin: Option<seq<u8>>)

  function BytesOf(f: Field): seq<u8> { if f.FBytes? then f.bytes else [] }

  function NumberOf(f: Field): nat { if f.FNumber? then f.n else 0 }

  function PathOf(f: Field): Keypath { if f.FPath? then f.path else Keypath([], None, None) }

  function Optional(fields: Fields, key: nat): Option<seq<u8>> { if key in fields then Some(BytesOf(fields[key])) else None }

  /** The structure a table of fields fills; what was not read stays zero. */
  function RequestOf(fields: Fields): Request {
    Request(
      Optional(fields, 1),
      if 2 in fields then BytesOf(fields[2]) else [],
      if 3 in fields then NumberOf(fields[3]) else 0,
      if 4 in fields then NumberOf(fields[4]) else 0,
      if 5 in fields then PathOf(fields[5]) else Keypath([], None, None),
      Optional(fields, 6),
      Optional(fields, 7))
  }

  /** One field stored into the structure. */
  function Stored(request: Request, key: nat, f: Field): Request {
    match key
    case 1 => request.(requestId := Some(BytesOf(f)))
    case 2 => request.(signData := BytesOf(f))
    case 3 => request.(dataType := NumberOf(f))
    case 4 => request.(chainId := NumberOf(f))
    case 5 => request.(path := PathOf(f))
    case 6 => request.(address := Some(BytesOf(f)))
    case _ => request.(origin := Some(BytesOf(f)))
  }

  lemma StoredIsRequestOf(fields: Fields, key: nat, f: Field)
    requires 1 <= key <= 7
    ensures RequestOf(fields[key := f]) == Stored(RequestOf(fields), key, f)
  {
    hide BytesOf, NumberOf, PathOf;
  }

  /** The branch of the sign request's switch for one key. */
  method ReadRequestField(r: Reader, key: nat, request: Request) returns (next: Res<Request>)
    requires r.Valid() && 1 <= key <= 7
    modifies r
    ensures r.Valid()
    ensures match FieldAt(SignRequest, r.buf, old(r.pos), key)
      case Ok(f, end) => next == Ok(Stored(request, key, f), end) && r.pos == end
      case Err(c) => next == Err(c)
  {
    hide ArgOf, StringAt, RequestIdAt, DataTypeAt, TaggedPathAt;
    match key {
      case 1 =>
        var id :- r.ReadRequestId();
        next := Ok(request.(requestId := Some(id)), r.pos);
      case 2 =>
        var data :- r.ExpectBytes(MAX_SIGN_DATA, 0);
        next := Ok(request.(signData := data), r.pos);
      case 3 =>
        var v :- r.ReadDataType();
        next := Ok(request.(dataType := v), r.pos);
      case 4 =>
        var chain :- r.ExpectMajor(0);
        next := Ok(request.(chainId := chain), r.pos);
      case 5 =>
        var path :- r.ReadPath();
        next := Ok(request.(path := path), r.pos);
      case 6 =>
        var address :- r.ExpectBytes(20, 20);
        next := Ok(request.(address := Some(address)), r.pos);
      case _ =>
        var origin :- r.ExpectText(MAX_ORIGIN);
        next := Ok(request.(origin := Some(origin)), r.pos);
    }
  }

  /** A caller's structure. */
  class Out<T> {
    var value: T

    constructor (value: T)
      ensures this.value == value
    {
      this.value := value;
    }
  }

  /** The pairs of a sign request, each read into the structure. */
  method ReadRequestPairs(r: Reader, pairs: nat) returns (rc: Res<Request>, seen: array<bool>, ghost fields: Fields)
    requires r.Valid()
    modifies r
    ensures r.Valid() && fresh(seen) && seen.Length == 8
    ensures match PairsFrom(SignRequest, r.buf, old(r.pos), pairs, map[])
      case Ok(all, end) =>
        rc == Ok(RequestOf(fields), end) && r.pos == end && fields == all
        && forall k | 1 <= k <= 7 :: seen[k] <==> k in fields
      case Err(c) => rc == Err(c)
  {
    hide ArgOf, FieldAt, RequestOf, Stored;
    var request := Request(None, [], 0, 0, Keypath([], None, None), None, None);
    NothingRead();
    seen := new bool[8](_ => false);
    fields := map[];
    ghost var start := r.pos;
    var i := 0;
    while i < pairs
      invariant 0 <= i <= pairs && r.Valid()
      invariant request == RequestOf(fields)
      invariant forall k | 1 <= k <= 7 :: seen[k] <==> k in fields
      invariant PairsFrom(SignRequest, r.buf, start, pairs, map[]) == PairsFrom(SignRequest, r.buf, r.pos, pairs - i, fields)
    {
      var key := r.ExpectMajor(0);
      if key.Err? { return Err(key.code), seen, fields; }
      if key.value < 1 || key.value > 7 { return Err(UnknownField), seen, fields; }
      if seen[key.value] { return Err(DuplicateField), seen, fields; }
      seen[key.value] := true;
      ghost var f := FieldAt(SignRequest, r.buf, r.pos, key.value);
      var next := ReadRequestField(r, key.value, request);
      if next.Err? { return Err(next.code), seen, fields; }
      StoredIsRequestOf(fields, key.value, f.value);
      request := next.value;
      fields := fields[key.value := f.value];
      i := i + 1;
    }
    rc := Ok(request, r.pos);
  }

  lemma NothingRead()
    ensures RequestOf(map[]) == Request(None, [], 0, 0, Keypath([], None, None), None, None)
  {}

  /** Refused if the document carries a tag at all. */
  predicate IsTagged(buf: seq<u8>) { |buf| > 0 && buf[0] / 32 == 6 }

  /** Decode a sign request into the caller's structure, which is untouched on refusal. */
  method DecodeSignRequest(buf: seq<u8>, out: Out<Request>) returns (rc: Option<Code>)
    modifies out
    ensures match Decode(SignRequest, buf)
      case Ok(fields, end) => rc.None? && out.value == RequestOf(fields)
      case Err(c) => rc == Some(c) && out.value == old(out.value)
  {
    hide ArgOf, PairsFrom, RequestOf;
    var r := new Reader(buf);
    if IsTagged(buf) { return Some(WrongTag); }
    var pairs := r.ExpectMajor(5);
    if pairs.Err? { return Some(pairs.code); }
    var tmp, seen;
    ghost var fields;
    tmp, seen, fields := ReadRequestPairs(r, pairs.value);
    if tmp.Err? { return Some(tmp.code); }
    if r.pos != |buf| { return Some(TrailingData); }
    if !seen[2] || !seen[3] || !seen[5] { return Some(MissingField); }
    var request := tmp.value;
    if !seen[4] {
      request := request.(chainId := 1);
      DefaultChain(fields);
    }
    out.value := request;
    rc := None;
  }

  lemma DefaultChain(fields: Fields)
    ensures RequestOf(fields[4 := FNumber(1)]) == RequestOf(fields).(chainId := 1)
  {
    StoredIsRequestOf(fields, 4, FNumber(1));
  }

  // --------------------------------------------------------------- signature

  datatype SignatureDoc = SignatureDoc(requestId: seq<u8>, signature: seq<u8>, origin: Option<seq<u8>>)

  function DocOf(fields: Fields): SignatureDoc {
    SignatureDoc(
      if 1 in fields then BytesOf(fields[1]) else [],
      if 2 in fields then BytesOf(fields[2]) else [],
      Optional(fields, 3))
  }

  /** Decode a signature into the caller's structure, which is untouched on refusal. */
  method DecodeSignature(buf: seq<u8>, out: Out<SignatureDoc>) returns (rc: Option<Code>)
    modifies out
    ensures match Decode(Signature, buf)
      case Ok(fields, end) => rc.None? && out.value == DocOf(fields)
      case Err(c) => rc == Some(c) && out.value == old(out.value)
  {
    hide ArgOf, StringAt, RequestIdAt;
    var r := new Reader(buf);
    if IsTagged(buf) { return Some(WrongTag); }
    var pairs := r.ExpectMajor(5);
    if pairs.Err? { return Some(pairs.code); }
    var tmp := SignatureDoc([], [], None);
    var seen := new bool[4](_ => false);
    ghost var fields: Fields := map[];
    ghost var start := r.pos;
    var i := 0;
    while i < pairs.value
      invariant 0 <= i <= pairs.value && r.Valid()
      invariant tmp == DocOf(fields) && out.value == old(out.value)
      invariant forall k | 1 <= k <= 3 :: seen[k] <==> k in fields
      invariant PairsFrom(Signature, buf, start, pairs.value, map[]) == PairsFrom(Signature, buf, r.pos, pairs.value - i, fields)
    {
      var key := r.ExpectMajor(0);
      if key.Err? { return Some(key.code); }
      if key.value < 1 || key.value > 3 { return Some(UnknownField); }
      if seen[key.value] { return Some(DuplicateField); }
      seen[key.value] := true;
      var field: Res<seq<u8>>;
      if key.value == 1 {
        field := r.ReadRequestId();
      } else if key.value == 2 {
        field := r.ExpectBytes(65, 65);
      } else {
        field := r.ExpectText(MAX_ORIGIN);
      }
      if field.Err? { return Some(field.code); }
      if key.value == 1 {
        tmp := tmp.(requestId := field.value);
      } else if key.value == 2 {
        tmp := tmp.(signature := field.value);
      } else {
        tmp := tmp.(origin := Some(field.value));
      }
      fields := fields[key.value := FBytes(field.value)];
      i := i + 1;
    }
    if r.pos != |buf| { return Some(TrailingData); }
    if !seen[1] || !seen[2] { return Some(MissingField); }
    out.value := tmp;
    rc := None;
  }

  // ------------------------------------------------------------------ writer

  /** A tag in its shortest form. */
  method WriteTag(w: BoundedBuffer, tag: nat)
    requires w.Valid() && tag < 0x1_0000
    modifies w, w.buf
    ensures w.Valid() && w.intended == old(w.intended) + HeadBytes(6, tag)
  {
    CborIo.HeadByCases(6, tag);
    hide *;
    ghost var was := w.intended;
    if tag < 24 {
      w.Put(0xC0 + tag);
    } else if tag < 0x100 {
      w.Put(0xD8);
      w.Put(tag);
      CborIo.OneByte(tag);
      Joined(was, [0xD8], [tag]);
    } else {
      w.Put(0xD9);
      w.Put(tag / 256);
      w.Put(tag % 256);
      CborIo.TwoBytes(tag);
      CborIo.TopBytesAre(tag);
      assert w.intended == was + ([0xD9] + [tag / 256, tag % 256]);
    }
  }

  lemma PartsOfId(id: seq<u8>)
    requires |id| == 16
    ensures TAG_UUID < 0x1_0000 && |id| < TWO_32 && 1 < TWO_32
    ensures WrittenId(id) == Encode(VUint(1)) + HeadBytes(6, TAG_UUID) + Encode(VBytes(id))
  {}

  method WriteId(w: BoundedBuffer, id: seq<u8>)
    requires w.Valid() && |id| == 16
    modifies w, w.buf
    ensures w.Valid() && w.intended == old(w.intended) + WrittenId(id)
  {
    PartsOfId(id);
    hide *;
    ghost var was := w.intended;
    CborIo.WriteUint(w, 1);
    WriteTag(w, TAG_UUID);
    CborIo.WriteBytes(w, id);
    Joined(was, Encode(VUint(1)), HeadBytes(6, TAG_UUID));
    Joined(was, Encode(VUint(1)) + HeadBytes(6, TAG_UUID), Encode(VBytes(id)));
  }

  lemma PartsOfSignature(signature: seq<u8>)
    requires |signature| == 65
    ensures 2 < TWO_32 && |signature| < TWO_32
    ensures WrittenSignature(signature) == Encode(VUint(2)) + Encode(VBytes(signature))
  {}

  method WriteSignature(w: BoundedBuffer, signature: seq<u8>)
    requires w.Valid() && |signature| == 65
    modifies w, w.buf
    ensures w.Valid() && w.intended == old(w.intended) + WrittenSignature(signature)
  {
    PartsOfSignature(signature);
    hide *;
    ghost var was := w.intended;
    CborIo.WriteUint(w, 2);
    CborIo.WriteBytes(w, signature);
    Joined(was, Encode(VUint(2)), Encode(VBytes(signature)));
  }

  lemma PartsOfOrigin(origin: seq<u8>)
    requires |origin| <= MAX_ORIGIN
    ensures 3 < TWO_32 && |origin| < TWO_32
    ensures WrittenOrigin(origin) == Encode(VUint(3)) + EncodeText(origin)
  {}

  method WriteOrigin(w: BoundedBuffer, origin: seq<u8>)
    requires w.Valid() && |origin| <= MAX_ORIGIN
    modifies w, w.buf
    ensures w.Valid() && w.intended == old(w.intended) + WrittenOrigin(origin)
  {
    PartsOfOrigin(origin);
    hide *;
    ghost var was := w.intended;
    CborIo.WriteUint(w, 3);
    CborIo.WriteText(w, origin);
    Joined(was, Encode(VUint(3)), EncodeText(origin));
  }

  lemma ConcatOfTwo(a: seq<u8>, b: seq<u8>)
    ensures Concat([a, b]) == a + b
  {
    assert [a, b][1..] == [b] && [b][1..] == [];
    assert Concat([b]) == b + [];
  }

  lemma ConcatOfThree(a: seq<u8>, b: seq<u8>, c: seq<u8>)
    ensures Concat([a, b, c]) == a + b + c
  {
    assert [a, b, c][1..] == [b, c];
    ConcatOfTwo(b, c);
  }

  lemma WrittenInTurn(id: seq<u8>, signature: seq<u8>, origin: Option<seq<u8>>)
    requires |id| == 16 && |signature| == 65 && (origin.Some? ==> |origin.value| <= MAX_ORIGIN)
    ensures Written(id, signature, origin) ==
            (HeadBytes(5, if origin.Some? then 3 else 2) + WrittenId(id) + WrittenSignature(signature)
             + if origin.Some? then WrittenOrigin(origin.value) else [])
  {
    hide HeadBytes, WrittenId, WrittenSignature, WrittenOrigin, Concat;
    var a, b := WrittenId(id), WrittenSignature(signature);
    if origin.Some? {
      ConcatOfThree(a, b, WrittenOrigin(origin.value));
      assert SignaturePairs(id, signature, origin) == [a, b, WrittenOrigin(origin.value)];
    } else {
      ConcatOfTwo(a, b);
      assert SignaturePairs(id, signature, origin) == [a, b];
    }
  }

  lemma NotEmpty(id: seq<u8>, signature: seq<u8>, origin: Option<seq<u8>>)
    requires |id| == 16 && |signature| == 65 && (origin.Some? ==> |origin.value| <= MAX_ORIGIN)
    ensures |Written(id, signature, origin)| > 0 && 3 < TWO_32
  {
    assert |HeadBytes(5, if origin.Some? then 3 else 2)| > 0;
    hide HeadBytes, WrittenId, WrittenSignature, WrittenOrigin, Concat;
  }

  /** The signature in its map, in the writer's order. */
  method WriteAll(w: BoundedBuffer, id: seq<u8>, signature: seq<u8>, origin: Option<seq<u8>>)
    requires w.Valid() && w.intended == []
    requires |id| == 16 && |signature| == 65 && (origin.Some? ==> |origin.value| <= MAX_ORIGIN)
    modifies w, w.buf
    ensures w.Valid() && w.intended == Written(id, signature, origin)
  {
    hide *;
    WrittenInTurn(id, signature, origin);
    NotEmpty(id, signature, origin);
    CborIo.WriteMap(w, if origin.Some? then 3 else 2);
    assert w.intended == HeadBytes(5, if origin.Some? then 3 else 2);
    WriteId(w, id);
    WriteSignature(w, signature);
    if origin.Some? {
      WriteOrigin(w, origin.value);
    } else {
      assert w.intended + [] == w.intended;
    }
  }

  /** The number of bytes written, or 0 when they do not fit or the origin is too long.
      What was written decodes to what was given. */
  method EncodeSignature(id: seq<u8>, signature: seq<u8>, origin: Option<seq<u8>>, out: array<u8>) returns (n: nat)
    requires |id| == 16 && |signature| == 65
    modifies out
    ensures n > 0 <==>
      (origin.Some? ==> |origin.value| <= MAX_ORIGIN) && |Written(id, signature, origin)| <= out.Length
    ensures n > 0 ==>
      n <= out.Length && out[..n] == Written(id, signature, origin)
      && Decode(Signature, out[..n]).Ok? && Decode(Signature, out[..n]).value == SignatureFields(id, signature, origin)
  {
    hide *;
    if origin.Some? && |origin.value| > MAX_ORIGIN { return 0; }
    SignatureReadsBack(id, signature, origin);
    NotEmpty(id, signature, origin);
    var w := new BoundedBuffer(out);
    WriteAll(w, id, signature, origin);
    WrittenInFull(w);
    n := if w.overflow then 0 else w.length;
  }
}
