/** Calldata as the contract ABI defines it. */
module AbiStandard {
  import opened AbiCalls
  import opened AbiDecode
  import opened AbiStatic
  import opened AbiWords
  import opened AquaProgram
  import opened Bytes

  // The encodings that the decoders are proved exact for, held against the definitions:
  // heads and tails of a tuple, words as numbers, the instruction list of the program, and
  // where a strategy keeps its maker and its program.

  // ----------------------------------------------------------- heads and tails

  /** A member of a tuple: a word, or something of varying length. */
  datatype Member = Word32(word: seq<u8>) | Tail(bytes: seq<u8>)

  function Heads(members: seq<Member>, tailAt: nat): seq<u8> {
    if |members| == 0 then []
    else
      match members[0]
      case Word32(w) => w + Heads(members[1..], tailAt)
      case Tail(b) => SizeWord(tailAt) + Heads(members[1..], tailAt + |b|)
  }

  function Tails(members: seq<Member>): seq<u8> {
    if |members| == 0 then []
    else (match members[0] case Word32(_) => [] case Tail(b) => b) + Tails(members[1..])
  }

  /** enc of a tuple: a head for every member, the offsets counted from the start of the
      tuple, then the tails in order. */
  function Tuple(members: seq<Member>): seq<u8> { Heads(members, 32 * |members|) + Tails(members) }

  lemma HeadsStep(m: Member, rest: seq<Member>, tailAt: nat)
    ensures Heads([m] + rest, tailAt) ==
      match m case Word32(w) => w + Heads(rest, tailAt) case Tail(b) => SizeWord(tailAt) + Heads(rest, tailAt + |b|)
    ensures Tails([m] + rest) == (match m case Word32(_) => [] case Tail(b) => b) + Tails(rest)
  {
    assert ([m] + rest)[1..] == rest;
    hide SizeWord;
  }

  lemma NoMembers(tailAt: nat)
    ensures Heads([], tailAt) == [] && Tails([]) == []
  {}

  /** One word, then two things of varying length: disperseToken. */
  lemma DisperseIsATuple(v: Disperse)
    requires DisperseOk(v)
    ensures DisperseArgs(v) == Tuple([Word32(AddressWord(v.token)), Tail(AddressArray(v.tos)), Tail(WordArray(v.amounts))])
  {
    hide *;
    DisperseParts(v);
    OneWordTwoTails(AddressWord(v.token), AddressArray(v.tos), WordArray(v.amounts));
  }

  lemma DisperseParts(v: Disperse)
    requires DisperseOk(v)
    ensures |v.token| == 20 && AllAddresses(v.tos) && AllWords(v.amounts)
    ensures |AddressArray(v.tos)| == 32 + 32 * |v.tos|
    ensures DisperseArgs(v) == (AddressWord(v.token) + SizeWord(96) + SizeWord(128 + 32 * |v.tos|)
                                + AddressArray(v.tos) + WordArray(v.amounts))
  {}

  lemma OneWordTwoTails(w: seq<u8>, x: seq<u8>, y: seq<u8>)
    ensures Tuple([Word32(w), Tail(x), Tail(y)]) == w + SizeWord(96) + SizeWord(96 + |x|) + x + y
  {
    var l := [Word32(w)] + ([Tail(x)] + [Tail(y)]);
    assert [Word32(w), Tail(x), Tail(y)] == l;
    hide *;
    var a, b := SizeWord(96), SizeWord(96 + |x|);
    LastTwo(x, y, 96);
    HeadsStep(Word32(w), [Tail(x)] + [Tail(y)], 96);
    NoneBehind(x + y);
    TupleIs(l, w + (a + b), x + y);
    Joined(w, a, b);
    Joined(w + a + b, x, y);
  }

  lemma TupleIs(members: seq<Member>, heads: seq<u8>, tails: seq<u8>)
    requires Heads(members, 32 * |members|) == heads && Tails(members) == tails
    ensures Tuple(members) == heads + tails
  {
    hide Heads, Tails;
  }

  lemma LastOne(z: seq<u8>, tailAt: nat)
    ensures Heads([Tail(z)], tailAt) == SizeWord(tailAt) && Tails([Tail(z)]) == z
  {
    hide *;
    assert [Tail(z)] == [Tail(z)] + [];
    HeadsStep(Tail(z), [], tailAt);
    NoMembers(tailAt + |z|);
    NoneBehind(SizeWord(tailAt));
    NoneBehind(z);
  }

  lemma LastTwo(y: seq<u8>, z: seq<u8>, tailAt: nat)
    ensures Heads([Tail(y)] + [Tail(z)], tailAt) == SizeWord(tailAt) + SizeWord(tailAt + |y|)
    ensures Tails([Tail(y)] + [Tail(z)]) == y + z
  {
    hide *;
    LastOne(z, tailAt + |y|);
    HeadsStep(Tail(y), [Tail(z)], tailAt);
  }

  /** dock: two words and a tail. */
  lemma DockIsATuple(v: Dock)
    requires DockOk(v)
    ensures DockArgs(v) == Tuple([Word32(AddressWord(v.app)), Word32(v.hash), Tail(AddressArray(v.tokens))])
  {
    hide *;
    DockParts(v);
    TwoWordsOneTail(AddressWord(v.app), v.hash, AddressArray(v.tokens));
  }

  lemma DockParts(v: Dock)
    requires DockOk(v)
    ensures |v.app| == 20 && AllAddresses(v.tokens)
    ensures DockArgs(v) == AddressWord(v.app) + v.hash + SizeWord(96) + AddressArray(v.tokens)
  {}

  lemma TwoWordsOneTail(w: seq<u8>, x: seq<u8>, y: seq<u8>)
    ensures Tuple([Word32(w), Word32(x), Tail(y)]) == w + x + SizeWord(96) + y
  {
    var l := [Word32(w)] + ([Word32(x)] + [Tail(y)]);
    assert [Word32(w), Word32(x), Tail(y)] == l;
    hide *;
    LastOne(y, 96);
    HeadsStep(Word32(x), [Tail(y)], 96);
    HeadsStep(Word32(w), [Word32(x)] + [Tail(y)], 96);
    NoneBehind(y);
    TupleIs(l, w + (x + SizeWord(96)), y);
    Joined(w, x, SizeWord(96));
  }

  /** deployEquity and deployBond begin with two strings. */
  lemma StringsAreATuple(v: Strings)
    ensures StringsArgs(v) == Tuple([Tail(Counted(v.name)), Tail(Counted(v.symbol))])
  {
    hide *;
    StringsParts(v);
    TwoTails(Counted(v.name), Counted(v.symbol));
  }

  lemma StringsParts(v: Strings)
    ensures |Counted(v.name)| == 32 + PaddedLength(|v.name|)
    ensures StringsArgs(v) == SizeWord(64) + SizeWord(96 + PaddedLength(|v.name|)) + Counted(v.name) + Counted(v.symbol)
  {}

  lemma TwoTails(x: seq<u8>, y: seq<u8>)
    ensures Tuple([Tail(x), Tail(y)]) == SizeWord(64) + SizeWord(64 + |x|) + x + y
  {
    var l := [Tail(x)] + [Tail(y)];
    assert [Tail(x), Tail(y)] == l;
    hide *;
    LastTwo(x, y, 64);
    TupleIs(l, SizeWord(64) + SizeWord(64 + |x|), x + y);
    Joined(SizeWord(64) + SizeWord(64 + |x|), x, y);
  }

  lemma NoneBehind(s: seq<u8>)
    ensures s + [] == s && [] + s == s
  {}

  /** ship: a word and three tails. */
  lemma ShipIsATuple(v: Ship)
    requires ShipOk(v)
    ensures ShipArgs(v) == Tuple(
      [Word32(AddressWord(v.app)), Tail(Counted(v.strategy)), Tail(AddressArray(v.tokens)), Tail(WordArray(v.amounts))])
  {
    hide *;
    ShipParts(v);
    OneWordThreeTails(AddressWord(v.app), Counted(v.strategy), AddressArray(v.tokens), WordArray(v.amounts));
  }

  lemma ShipParts(v: Ship)
    requires ShipOk(v)
    ensures |v.app| == 20 && AllAddresses(v.tokens) && AllWords(v.amounts)
    ensures |Counted(v.strategy)| == 32 + PaddedLength(|v.strategy|) && |AddressArray(v.tokens)| == 32 + 32 * |v.tokens|
    ensures ShipArgs(v) == (AddressWord(v.app) + SizeWord(128) + SizeWord(160 + PaddedLength(|v.strategy|))
                            + SizeWord(192 + PaddedLength(|v.strategy|) + 32 * |v.tokens|)
                            + Counted(v.strategy) + AddressArray(v.tokens) + WordArray(v.amounts))
  {
    hide StrategyOk, PaddedLength;
  }

  lemma OneWordThreeTails(w: seq<u8>, x: seq<u8>, y: seq<u8>, z: seq<u8>)
    ensures Tuple([Word32(w), Tail(x), Tail(y), Tail(z)]) ==
            w + SizeWord(128) + SizeWord(128 + |x|) + SizeWord(128 + |x| + |y|) + x + y + z
  {
    hide *;
    var a, b, c := SizeWord(128), SizeWord(128 + |x|), SizeWord(128 + |x| + |y|);
    var rest := [Tail(x)] + ([Tail(y)] + [Tail(z)]);
    FourMembers(w, x, y, z);
    LastThree(x, y, z, 128);
    HeadsStep(Word32(w), rest, 128);
    NoneBehind(x + (y + z));
    TupleIs([Word32(w)] + rest, w + (a + (b + c)), x + (y + z));
    FourInFront(w, a, b, c);
    FourBehind(w + a + b + c, x, y, z);
  }

  lemma FourMembers(w: seq<u8>, x: seq<u8>, y: seq<u8>, z: seq<u8>)
    ensures var l := [Word32(w)] + ([Tail(x)] + ([Tail(y)] + [Tail(z)]));
      [Word32(w), Tail(x), Tail(y), Tail(z)] == l && |l| == 4
  {}

  lemma LastThree(x: seq<u8>, y: seq<u8>, z: seq<u8>, tailAt: nat)
    ensures var l := [Tail(x)] + ([Tail(y)] + [Tail(z)]);
      Heads(l, tailAt) == SizeWord(tailAt) + (SizeWord(tailAt + |x|) + SizeWord(tailAt + |x| + |y|)) && Tails(l) == x + (y + z)
  {
    hide *;
    LastTwo(y, z, tailAt + |x|);
    HeadsStep(Tail(x), [Tail(y)] + [Tail(z)], tailAt);
  }

  lemma FourInFront(w: seq<u8>, a: seq<u8>, b: seq<u8>, c: seq<u8>)
    ensures w + (a + (b + c)) == w + a + b + c
  {}

  lemma FourBehind(w: seq<u8>, x: seq<u8>, y: seq<u8>, z: seq<u8>)
    ensures w + (x + (y + z)) == w + x + y + z
  {}

  // --------------------------------------------------------------------- words

  /** The word of a value: 32 bytes that are the number, modulo 2^256 for a negative one;
      an address is a number of 160 bits, and only fixed bytes are aligned to the left. */
  lemma WordsAreNumbers(t: ArgType, v: Value)
    requires t.Legal() && Belongs(t, v)
    ensures match v
            case VNumber(n) => 0 <= Power256(32) + n && FromBigEndian(Word(t, v)) == if n >= 0 then n else Power256(32) + n
            case VBool(b) => FromBigEndian(Word(t, v)) == if b then 1 else 0
            case VAddress(a) => FromBigEndian(Word(t, v)) == FromBigEndian(a)
            case VBytes(b) => |b| <= 32 && Word(t, v)[..|b|] == b && forall i | |b| <= i < 32 :: Word(t, v)[i] == 0
  {
    hide FromBigEndian, ToBigEndian, Power256, Repeated;
    match t
    case Address =>
      assert AddressWord(v.address) == Repeated(0, 12) + v.address by { ZerosAreRepeated(12); }
      PaddedNumber(0, v.address);
    case Bool =>
      var b: seq<u8> := [if v.b then 1 else 0];
      assert Word(t, v) == Repeated(0, 31) + b by { ZerosAreRepeated(31); }
      PaddedNumber(0, b);
      OneByteNumber(b[0]);
    case Uint(k) =>
      InRange(t, v);
      BigEndianRoundTrip(v.n, 32);
    case Int(k) =>
      InRange(t, v);
      WrappedIsBelow(v.n);
      BigEndianRoundTrip(Wrapped(v.n), 32);
    case BytesN(k) =>
  }

  lemma ZerosAreRepeated(n: nat)
    ensures ZeroBytes(n) == Repeated(0, n)
  {}

  lemma OneByteNumber(b: u8)
    ensures FromBigEndian([b]) == b
  {
    assert [b][..0] == [];
  }

  lemma WrappedIsBelow(n: int)
    requires 0 <= Power256(32) + n && n < Power256(32)
    ensures Wrapped(n) < Power256(32)
  {
    hide Power256;
  }

  /** A length or an offset is such a word as well. */
  lemma SizesAreNumbers(n: nat)
    requires n < 0x1_0000_0000
    ensures FromBigEndian(SizeWord(n)) == n
  {
    hide FromBigEndian, ToBigEndian, Power256, Repeated;
    ZerosAreRepeated(28);
    PaddedNumber(0, ToBigEndian(n, 4));
    FourBytesOfPower();
    BigEndianRoundTrip(n, 4);
  }

  // ------------------------------------------------------------------- programs

  /** The closed list of instructions: these opcodes with these many argument bytes, salt
      (20) with any. Jumps (10 to 12) and extruction (32) are not on it. */
  lemma ClosedList(i: Instruction)
    ensures Allowed(i) <==>
      (i.opcode, |i.args|) in {(13, 5), (14, 20), (15, 52), (16, 28), (17, 0), (18, 64), (19, 2), (21, 4), (31, 160), (33, 20)}
      || (i.opcode == 20 && |i.args| < 256)
  {}

  /** A strategy: a tuple's offset, the maker, traits, the offset of the data and its length.
      Bytes 4 and 5 of the traits say where in the data the program begins. */
  lemma StrategyLayout(maker: seq<u8>, traits: seq<u8>, data: seq<u8>, padding: seq<u8>)
    requires |maker| == 20 && |traits| == 32 && |data| < 0x1000_0000
    ensures var s := SizeWord(0x20) + AddressWord(maker) + traits + SizeWord(0x60) + SizeWord(|data|) + data + padding;
      MakerOf(s) == Some(maker)
      && var start := 256 * (traits[4] as int) + traits[5] as int;
      if start <= |data| then
        ProgramBounds(s) == Some((160 + start, 160 + |data|)) && s[160 + start..160 + |data|] == data[start..]
      else ProgramBounds(s) == None
    ensures var s := SizeWord(0x20) + AddressWord(maker) + traits + SizeWord(0x60) + SizeWord(|data|) + data + padding;
      var start := 256 * (traits[4] as int) + traits[5] as int;
      (StrategyOk(Router(), s) <==> start <= |data| && Program(data[start..]).Some?)
      && forall app | app != Router() :: StrategyOk(app, s)
  {
    StrategyStands(maker, traits, data, padding);
    hide Program, ProgramBounds, MakerOf, SizeWord, AddressWord, Router;
  }

  /** Any strategy names its maker in the second word, behind a tuple's offset. */
  lemma MakerIsTheSecondWord(s: seq<u8>, maker: seq<u8>)
    ensures MakerOf(s) == Some(maker) <==>
      |maker| == 20 && |s| >= 64 && s[..32] == SizeWord(32) && s[32..64] == AddressWord(maker)
  {
    SmallWords();
    hide SizeWord, AddressWord, AddressAt, ZeroBytes;
    AddressIsExact(s, 32, maker);
  }

  /** A router's strategy is accepted in no other layout. */
  lemma AcceptedIsLaidOut(s: seq<u8>) returns (maker: seq<u8>, size: nat)
    requires StrategyOk(Router(), s) && |s| < 0x1000_0000
    ensures |maker| == 20 && 160 + size <= |s|
    ensures s[..32] == SizeWord(0x20) && s[32..64] == AddressWord(maker)
    ensures s[96..128] == SizeWord(0x60) && s[128..160] == SizeWord(size)
    ensures 256 * (s[68] as int) + (s[69] as int) <= size
  {
    maker, size := MakerOf(s).value, SizeAt(s, 0x80, |s| - 0xa0).value;
    SmallWords();
    hide SizeWord, AddressWord, SizeAt, AddressAt, ZeroBytes, Program, Router;
    AddressIsExact(s, 32, maker);
    SizeIsExact(s, 0x80, |s| - 0xa0, size);
  }

  /** The router is the contract at 0x111111338c5091e8440b67b168bae16a668ac0de. */
  lemma RouterAddress()
    ensures var r := Router();
      FromBigEndian(r[..4]) == 0x11111133 && FromBigEndian(r[4..8]) == 0x8c5091e8 && FromBigEndian(r[8..12]) == 0x440b67b1
      && FromBigEndian(r[12..16]) == 0x68bae16a && FromBigEndian(r[16..]) == 0x668ac0de
  {
    var r := Router();
    FourBytesAre(r[..4]);
    FourBytesAre(r[4..8]);
    FourBytesAre(r[8..12]);
    FourBytesAre(r[12..16]);
    FourBytesAre(r[16..]);
    hide FromBigEndian;
  }

  lemma StrategyStands(maker: seq<u8>, traits: seq<u8>, data: seq<u8>, padding: seq<u8>)
    requires |maker| == 20 && |traits| == 32 && |data| < 0x1000_0000
    ensures var s := SizeWord(0x20) + AddressWord(maker) + traits + SizeWord(0x60) + SizeWord(|data|) + data + padding;
      MakerOf(s) == Some(maker)
      && var start := 256 * (traits[4] as int) + traits[5] as int;
      if start <= |data| then
        ProgramBounds(s) == Some((160 + start, 160 + |data|)) && s[160 + start..160 + |data|] == data[start..]
      else ProgramBounds(s) == None
  {
    var s := SizeWord(0x20) + AddressWord(maker) + traits + SizeWord(0x60) + SizeWord(|data|) + data + padding;
    SmallWords();
    hide SizeWord, AddressWord, SizeAt, AddressAt, ZeroBytes;
    assert s[..32] == SizeWord(0x20) && s[32..64] == AddressWord(maker) && s[64..96] == traits && s[0x60..0x80] == SizeWord(0x60);
    assert s[128..160] == SizeWord(|data|) && s[160..160 + |data|] == data;
    assert Stands(s, 32, AddressWord(maker)) && Stands(s, 0x80, SizeWord(|data|));
    AddressIsExact(s, 32, maker);
    SizeIsExact(s, 0x80, |s| - 0xa0, |data|);
    assert s[0x44] == traits[4] && s[0x45] == traits[5];
    var start := 256 * (traits[4] as int) + traits[5] as int;
    if start <= |data| { assert s[160 + start..160 + |data|] == data[start..]; }
  }

  lemma SmallWords()
    ensures SizeWord(0x20) == ZeroBytes(31) + [0x20] && SizeWord(0x60) == ZeroBytes(31) + [0x60]
  {
    SmallWord(0x20);
    SmallWord(0x60);
  }

  lemma SmallWord(n: u8)
    ensures SizeWord(n) == ZeroBytes(31) + [n]
  {
    FourBytes(n);
    hide ToBigEndian;
    assert ZeroBytes(31) == ZeroBytes(28) + [0, 0, 0];
  }

  lemma FourBytes(n: u8)
    ensures ToBigEndian(n, 4) == [0, 0, 0, n]
  {
    assert ToBigEndian(0, 1) == [0] && ToBigEndian(0, 2) == [0, 0] && ToBigEndian(0, 3) == [0, 0, 0];
    assert n / 256 == 0 && n % 256 == n;
    assert ToBigEndian(n, 4) == ToBigEndian(0, 3) + [n];
  }

  // -------------------------------------------------------------------- bounds

  /** What is read is small enough to be shown whole, and the two strings are printable
      ASCII without a space at either end. */
  lemma ReadIsShowable(args: seq<u8>)
    ensures DisperseAt(args).Some? ==> 1 <= |DisperseAt(args).value.tos| <= 9
    ensures DockAt(args).Some? ==> 1 <= |DockAt(args).value.tokens| <= 4
    ensures ShipAt(args).Some? ==> 1 <= |ShipAt(args).value.tokens| <= 4
    ensures StringsAt(args).Some? ==>
      var v := StringsAt(args).value;
      1 <= |v.name| <= 64 && 1 <= |v.symbol| <= 12 && (forall c | c in v.name + v.symbol :: 32 <= c <= 126)
      && v.name[0] != 32 && v.name[|v.name| - 1] != 32 && v.symbol[0] != 32 && v.symbol[|v.symbol| - 1] != 32
  {
    hide AddressAt, SizeAt, CountedAt, StrategyOk, WordArrayAt, DisperseAt, DockAt, ShipAt, StringsAt, StringsRead, PaddedLength;
    if DisperseAt(args).Some? { DisperseByParts(args, DisperseAt(args).value); }
    if DockAt(args).Some? { DockByParts(args, DockAt(args).value); }
    if ShipAt(args).Some? { ShipFound(args, ShipAt(args).value); }
    if StringsAt(args).Some? { StringsByParts(args, StringsAt(args).value); }
  }
}
