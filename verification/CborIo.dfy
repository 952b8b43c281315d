/** The writer that fills a caller's buffer and the reader that borrows one. */
module CborIo {
  import opened Buffers
  import opened Bytes
  import opened Cbor

  // ------------------------------------------------------------------ writer

  /** Type byte and argument, in the shortest form. */
  method Head(w: BoundedBuffer, major: nat, value: nat)
    requires w.Valid() && major < 8 && value < TWO_32
    modifies w, w.buf
    ensures w.Valid() && w.intended == old(w.intended) + HeadBytes(major, value)
  {
    hide *;
    var m := 32 * major;
    ghost var was := w.intended;
    if value < 24 {
      w.Put(m + value);
    } else if value < 0x100 {
      w.Put(m + 24);
      w.Put(value);
      OneByte(value);
      Joined(was, [m + 24], [value]);
    } else if value < 0x1_0000 {
      w.Put(m + 25);
      PutTwo(w, value);
      Joined(was, [m + 25], TopBytes(value));
      TwoBytes(value);
    } else {
      w.Put(m + 26);
      PutFour(w, value);
      Joined(was, [m + 26], ToBigEndian(value, 4));
    }
    HeadByCases(major, value);
  }

  method PutTwo(w: BoundedBuffer, value: nat)
    requires w.Valid() && value < 0x1_0000
    modifies w, w.buf
    ensures w.Valid() && w.intended == old(w.intended) + TopBytes(value)
  {
    w.Put(value / 256);
    w.Put(value % 256);
  }

  method PutFour(w: BoundedBuffer, value: nat)
    requires w.Valid() && value < TWO_32
    modifies w, w.buf
    ensures w.Valid() && w.intended == old(w.intended) + ToBigEndian(value, 4)
  {
    hide *;
    ghost var was := w.intended;
    FourBytes(value);
    PutTwo(w, value / 0x1_0000);
    w.Put(value / 256 % 256);
    w.Put(value % 256);
    assert w.intended == was + (TopBytes(value / 0x1_0000) + [value / 256 % 256, value % 256]);
  }

  method WriteUint(w: BoundedBuffer, value: nat)
    requires w.Valid() && value < TWO_32
    modifies w, w.buf
    ensures w.Valid() && w.intended == old(w.intended) + Encode(VUint(value))
  {
    Head(w, 0, value);
  }

  method WriteInt(w: BoundedBuffer, value: int)
    requires w.Valid() && -0x8000_0000 <= value < 0x8000_0000
    modifies w, w.buf
    ensures w.Valid()
    ensures w.intended == old(w.intended) + Encode(if value >= 0 then VUint(value) else VNegInt(-1 - value))
  {
    if value >= 0 {
      Head(w, 0, value);
    } else {
      Head(w, 1, -(value + 1));
    }
  }

  method WriteBytes(w: BoundedBuffer, data: seq<u8>)
    requires w.Valid() && |data| < TWO_32
    modifies w, w.buf
    ensures w.Valid() && w.intended == old(w.intended) + Encode(VBytes(data))
  {
    hide HeadBytes;
    ghost var was := w.intended;
    Head(w, 2, |data|);
    w.PutAll(data);
    Joined(was, HeadBytes(2, |data|), data);
  }

  method WriteText(w: BoundedBuffer, text: seq<u8>)
    requires w.Valid() && |text| < TWO_32
    modifies w, w.buf
    ensures w.Valid() && w.intended == old(w.intended) + EncodeText(text)
  {
    hide HeadBytes;
    ghost var was := w.intended;
    Head(w, 3, |text|);
    w.PutAll(text);
    Joined(was, HeadBytes(3, |text|), text);
  }

  /** Then a key and a value for each pair. */
  method WriteMap(w: BoundedBuffer, pairs: nat)
    requires w.Valid() && pairs < TWO_32
    modifies w, w.buf
    ensures w.Valid() && w.intended == old(w.intended) + HeadBytes(5, pairs)
  {
    Head(w, 5, pairs);
  }

  lemma LowByte(value: nat, n: nat)
    ensures ToBigEndian(value, n + 1) == ToBigEndian(value / 256, n) + [value % 256]
  {}

  lemma OneByte(value: nat)
    requires value < 0x100
    ensures ToBigEndian(value, 1) == [value]
  {
    assert ToBigEndian(value / 256, 0) == [];
  }

  lemma TwoBytes(value: nat)
    requires value < 0x1_0000
    ensures ToBigEndian(value, 2) == TopBytes(value)
  {
    assert value / 256 < 256;
    hide ToBigEndian;
    LowByte(value, 1);
    OneByte(value / 256);
  }

  lemma DividedTwice(value: nat)
    ensures value / 256 / 256 == value / 0x1_0000
  {}

  lemma FourBytes(value: nat)
    requires value < TWO_32
    ensures value / 0x1_0000 < 0x1_0000
    ensures ToBigEndian(value, 4) == TopBytes(value / 0x1_0000) + [value / 256 % 256, value % 256]
  {
    hide ToBigEndian;
    LowByte(value, 3);
    LowByte(value / 256, 2);
    DividedTwice(value);
    TwoBytes(value / 0x1_0000);
  }

  function TopBytes(value: nat): seq<u8>
    requires value < 0x1_0000
  {
    [value / 256, value % 256]
  }

  lemma TopBytesAre(value: nat)
    requires value < 0x1_0000
    ensures value / 256 < 256 && TopBytes(value) == [value / 256, value % 256]
  {}

  lemma HeadByCases(major: nat, value: nat)
    requires major < 8 && value < TWO_32
    ensures value < 24 ==> HeadBytes(major, value) == [32 * major + value]
    ensures 24 <= value < 0x100 ==> HeadBytes(major, value) == [32 * major + 24] + ToBigEndian(value, 1)
    ensures 0x100 <= value < 0x1_0000 ==> HeadBytes(major, value) == [32 * major + 25] + ToBigEndian(value, 2)
    ensures 0x1_0000 <= value ==> HeadBytes(major, value) == [32 * major + 26] + ToBigEndian(value, 4)
  {
    hide ToBigEndian;
  }

  // ------------------------------------------------------------------ reader

  lemma OneMoreByte(buf: seq<u8>, start: nat, end: nat)
    requires start <= end < |buf|
    ensures FromBigEndian(buf[start..end + 1]) == 256 * FromBigEndian(buf[start..end]) + buf[end] as int
  {
    assert buf[start..end + 1][..end - start] == buf[start..end];
  }

  /** Reads one item after another from borrowed bytes. */
  class CborReader {
    const buf: seq<u8>
    var pos: nat

    predicate Valid()
      reads this
    {
      pos <= |buf|
    }

    constructor (buf: seq<u8>)
      ensures Valid() && this.buf == buf && pos == 0
    {
      this.buf := buf;
      pos := 0;
    }

    method TakeByte() returns (r: Option<u8>)
      requires Valid()
      modifies this
      ensures Valid()
      ensures r == if old(pos) < |buf| then Some(buf[old(pos)]) else None
      ensures pos == if old(pos) < |buf| then old(pos) + 1 else old(pos)
    {
      if pos >= |buf| { return None; }
      r := Some(buf[pos]);
      pos := pos + 1;
    }

    /** The argument after a type byte; 64-bit, indefinite and reserved forms are refused. */
    method ReadArgument(info: nat) returns (r: Option<nat>)
      requires Valid()
      modifies this
      ensures Valid() && old(pos) <= pos
      ensures r.Some? <==> ArgumentAt(buf, old(pos), info).Some?
      ensures r.Some? ==> ArgumentAt(buf, old(pos), info) == Some(Found(r.value, pos))
    {
      ghost var start := pos;
      if info < 24 { return Some(info); }
      if info >= 27 { return None; }
      var n := if info == 24 then 1 else if info == 25 then 2 else 4;
      var value: nat := 0;
      var i := 0;
      while i < n
        invariant 0 <= i <= n && pos == start + i && Valid()
        invariant value == FromBigEndian(buf[start..pos])
      {
        var b := TakeByte();
        if b.None? { return None; }
        value := 256 * value + (b.value as int);
        OneMoreByte(buf, start, pos - 1);
        i := i + 1;
      }
      r := Some(value);
    }

    /** The next item: a type byte, its argument, and for a string its bytes. */
    method Read() returns (r: Option<Item>)
      requires Valid()
      modifies this
      ensures Valid() && old(pos) <= pos
      ensures r.Some? <==> ItemAt(buf, old(pos)).Some?
      ensures r.Some? ==> ItemAt(buf, old(pos)) == Some(Found(r.value, pos))
    {
      hide ArgumentAt;
      var initial := TakeByte();
      if initial.None? { return None; }
      var major, info := initial.value / 32, initial.value % 32;
      var arg := ReadArgument(info);
      if arg.None? { return None; }
      var kind := KindOf(major);
      if kind.None? { return None; }
      if kind.value.IsString() {
        if arg.value > |buf| - pos { return None; }
        r := Some(Item(kind.value, arg.value, buf[pos..pos + arg.value]));
        pos := pos + arg.value;
      } else {
        r := Some(Item(kind.value, arg.value, []));
      }
    }

    /** Skip one complete item, children included. Every item read took a byte, so
        no declared count can make the work exceed the bytes that are there. */
    method SkipItem(depth: nat) returns (ok: bool, ghost taken: nat)
      requires Valid() && depth <= MAX_DEPTH + 1
      modifies this
      ensures Valid() && old(pos) <= pos
      ensures ok <==> EndOf(buf, old(pos), depth).Some?
      ensures ok ==> EndOf(buf, old(pos), depth) == Some(pos)
      ensures taken <= pos - old(pos) + if ok then 0 else 1
      decreases MAX_DEPTH + 1 - depth, 1
    {
      taken := 0;
      if depth > MAX_DEPTH { return false, 0; }
      hide ItemAt;
      var item := Read();
      if item.None? { return false, 1; }
      taken := 1;
      ghost var more;
      ok, more := SkipItems(depth + 1, Children(item.value));
      taken := taken + more;
    }

    /** The children: an array's items, or a map's keys and values in turn. */
    method SkipItems(depth: nat, count: nat) returns (ok: bool, ghost taken: nat)
      requires Valid() && 0 < depth <= MAX_DEPTH + 1
      modifies this
      ensures Valid() && old(pos) <= pos
      ensures ok <==> EndOfAll(buf, old(pos), depth, count).Some?
      ensures ok ==> EndOfAll(buf, old(pos), depth, count) == Some(pos)
      ensures taken <= pos - old(pos) + if ok then 0 else 1
      decreases MAX_DEPTH + 1 - depth, 2
    {
      hide EndOf;
      taken := 0;
      var i := 0;
      while i < count
        invariant 0 <= i <= count && Valid() && old(pos) <= pos
        invariant EndOfAll(buf, old(pos), depth, count) == EndOfAll(buf, pos, depth, count - i)
        invariant taken <= pos - old(pos)
      {
        ghost var more;
        ok, more := SkipItem(depth);
        taken := taken + more;
        if !ok { return; }
        i := i + 1;
      }
      ok := true;
    }

    method Skip() returns (ok: bool)
      requires Valid()
      modifies this
      ensures Valid() && old(pos) <= pos
      ensures ok <==> EndOf(buf, old(pos), 0).Some?
      ensures ok ==> EndOf(buf, old(pos), 0) == Some(pos)
    {
      ghost var taken;
      ok, taken := SkipItem(0);
    }
  }

  /** Walk the map at pos for a key: where its value stands. */
  method FindInMap(buf: seq<u8>, pos: nat, key: seq<u8>, depth: nat) returns (at: Option<nat>)
    requires pos <= |buf| && depth <= MAX_DEPTH
    ensures at == MapAt(buf, pos, key, depth)
  {
    hide ItemAt, EndOf;
    var r := new CborReader(buf);
    r.pos := pos;
    var head := r.Read();
    if head.None? || !head.value.kind.Map? { return None; }
    var count := head.value.value;
    ghost var start := r.pos;
    var i := 0;
    while i < count
      invariant 0 <= i <= count && r.Valid()
      invariant ValueUnder(buf, start, count, key, depth) == ValueUnder(buf, r.pos, count - i, key, depth)
    {
      var k := r.Read();
      if k.None? || !k.value.kind.Text? { return None; }
      if k.value.data == key { return Some(r.pos); }
      ghost var taken;
      var ok;
      ok, taken := r.SkipItem(depth);
      if !ok { return None; }
      i := i + 1;
    }
    at := None;
  }

  /** The item under a key of a top-level map. */
  method CborMapFind(buf: seq<u8>, key: seq<u8>) returns (out: Option<Item>)
    ensures out == MapFind(buf, key)
  {
    hide ItemAt, MapAt;
    var at := FindInMap(buf, 0, key, 1);
    if at.None? { return None; }
    var r := new CborReader(buf);
    r.pos := at.value;
    out := r.Read();
  }
}
