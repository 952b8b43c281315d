/** What the pages of a decoded call read when they are drawn. */
module AbiRender {
  import opened AbiStatic
  import opened AbiWords
  import opened AquaProgram
  import opened Bytes
  import EthTx
  import EthTxIo

  // The accessors for one-word arguments and for the instructions of a program. Each reads
  // the calldata again, from the buffer it is handed; over the calldata that was decoded,
  // each gives the value that was decoded, and together they give all of it.

  /** One page's worth of an argument. A bool is drawn from its word. */
  datatype Shown = AddressShown(a: seq<u8>) | QuantityShown(q: EthTx.Quantity) | WordShown(w: seq<u8>)

  method ArgWord(types: seq<ArgType>, data: seq<u8>, i: int) returns (w: Option<seq<u8>>)
    ensures w == if 0 <= i < |types| && 4 + 32 * i + 32 <= |data| then Some(WordOf(data, i)) else None
  {
    if i < 0 || i >= |types| { return None; }
    var off := 4 + 32 * i;
    if off + 32 > |data| { return None; }
    w := Some(data[off..off + 32]);
  }

  /** What an argument of calldata that was decoded shows. */
  function ShownOf(types: seq<ArgType>, data: seq<u8>, i: nat): Shown
    requires i < |types| && 4 + 32 * i + 32 <= |data|
  {
    match types[i]
    case Address => AddressShown(WordOf(data, i)[12..])
    case Bool => WordShown(WordOf(data, i))
    case _ => QuantityShown(EthTx.Stripped(WordOf(data, i)))
  }

  method ArgAddress(types: seq<ArgType>, data: seq<u8>, i: int) returns (a: Option<seq<u8>>)
    ensures a == if 0 <= i < |types| && 4 + 32 * i + 32 <= |data| && types[i].Address? then Some(ShownOf(types, data, i).a) else None
  {
    var w :- ArgWord(types, data, i);
    if !types[i].Address? { return None; }
    a := Some(w[12..]);
  }

  method ArgQuantity(types: seq<ArgType>, data: seq<u8>, i: int) returns (q: Option<EthTx.Quantity>)
    ensures q == if 0 <= i < |types| && 4 + 32 * i + 32 <= |data| && !types[i].Address? && !types[i].Bool?
                 then Some(ShownOf(types, data, i).q) else None
  {
    var w :- ArgWord(types, data, i);
    if types[i].Address? || types[i].Bool? { return None; }
    q := EthTxIo.QuantitySet(w);
  }

  /** The warning for an unlimited amount: half the range of its type or more, for types of
      at least 64 bits. */
  method ArgUnlimited(types: seq<ArgType>, data: seq<u8>, i: int) returns (warn: bool)
    requires AllLegal(types)
    ensures warn ==
      (0 <= i < |types| && 4 + 32 * i + 32 <= |data|
       && types[i].Uint? && 8 * types[i].width >= 64
       && FromBigEndian(data[4 + 32 * i..36 + 32 * i][32 - types[i].width..]) >= 128 * Power256(types[i].width - 1))
  {
    var w := ArgWord(types, data, i);
    if w.None? { return false; }
    if !types[i].Uint? || types[i].width < 8 { return false; }
    var k := types[i].width;
    FirstByteDecides(w.value[32 - k..]);
    warn := w.value[32 - k] >= 128;
  }

  /** What is shown of an argument is its value: a number as it stands in the word. */
  lemma ShownIsDrawn(types: seq<ArgType>, data: seq<u8>, i: nat)
    requires AllLegal(types) && Decodes(types, data) && i < |types|
    ensures var v := Drawn(types, data)[i];
      match ShownOf(types, data, i)
      case AddressShown(a) => v == VAddress(a)
      case WordShown(w) => v.VBool? && w == Word(Bool, v)
      case QuantityShown(q) =>
        (v.VNumber? && InWord(v.n) && FromBigEndian(q) == Wrapped(v.n))
        || (v.VBytes? && |v.bytes| <= 32 && FromBigEndian(q) == FromBigEndian(v.bytes + ZeroBytes(32 - |v.bytes|)))
  {
    var w := WordOf(data, i);
    MatchedIsEncoded(types[i], w);
    hide Matches, Decodes, FromBigEndian, ToBigEndian, Power256, EthTx.Stripped;
    match types[i]
    case Address =>
    case Bool =>
    case Uint(_) => NumberShows(types[i], w);
    case Int(_) => NumberShows(types[i], w);
    case BytesN(_) =>
  }

  predicate InWord(n: int) { 0 <= Power256(32) + n && n < Power256(32) }

  lemma NumberShows(t: ArgType, w: seq<u8>)
    requires t.Legal() && |w| == 32 && Matches(t, w) && (t.Uint? || t.Int?)
    ensures ValueOf(t, w).VNumber? && InWord(ValueOf(t, w).n)
    ensures FromBigEndian(w) == Wrapped(ValueOf(t, w).n)
  {
    MatchedIsEncoded(t, w);
    var n := ValueOf(t, w).n;
    InRange(t, ValueOf(t, w));
    hide Matches, ValueOf, FromBigEndian, ToBigEndian, Power256;
    WrappedFits(n);
    BigEndianRoundTrip(Wrapped(n), 32);
  }

  lemma WrappedFits(n: int)
    requires InWord(n)
    ensures Wrapped(n) < Power256(32)
  {
    hide Power256;
  }

  /** And nothing of the arguments is left out: accepted calldata for one signature that
      shows the same, argument by argument, is the same behind its selector. */
  lemma ShownDeterminesWords(types: seq<ArgType>, a: seq<u8>, b: seq<u8>)
    requires AllLegal(types) && Decodes(types, a) && Decodes(types, b)
    requires forall i | 0 <= i < |types| :: ShownOf(types, a, i) == ShownOf(types, b, i)
    ensures a[4..] == b[4..]
  {
    forall i | 0 <= i < |types| ensures WordOf(a, i) == WordOf(b, i) { SameShownSameWord(types, a, b, i); }
    hide Decodes, ShownOf, Drawn, Words, AllBelong;
    SameValues(types, a, b);
    AcceptedIsEncoded(types, a);
    AcceptedIsEncoded(types, b);
    Behind(a, Words(types, Drawn(types, a)));
    Behind(b, Words(types, Drawn(types, b)));
  }

  lemma Behind(a: seq<u8>, w: seq<u8>)
    requires |a| >= 4 && a == a[..4] + w
    ensures a[4..] == w
  {}

  lemma SameValues(types: seq<ArgType>, a: seq<u8>, b: seq<u8>)
    requires AllLegal(types) && Decodes(types, a) && Decodes(types, b)
    requires forall i | 0 <= i < |types| :: WordOf(a, i) == WordOf(b, i)
    ensures Drawn(types, a) == Drawn(types, b) && |a| >= 4 && |b| >= 4
  {
    hide Matches, ValueOf, WordOf;
  }

  lemma SameShownSameWord(types: seq<ArgType>, a: seq<u8>, b: seq<u8>, i: nat)
    requires AllLegal(types) && Decodes(types, a) && Decodes(types, b) && i < |types|
    requires ShownOf(types, a, i) == ShownOf(types, b, i)
    ensures WordOf(a, i) == WordOf(b, i)
  {
    var v, w := WordOf(a, i), WordOf(b, i);
    hide FromBigEndian, ToBigEndian, Power256, EthTx.Stripped;
    match types[i]
    case Address =>
      assert v == v[..12] + v[12..] && w == w[..12] + w[12..];
      assert v[..12] == w[..12];
    case Bool =>
    case _ =>
      BigEndianReprint(v);
      BigEndianReprint(w);
  }

  // ------------------------------------------------------------- instructions

  /** The one figure that is drawn of an instruction: a number, an address, or none. */
  datatype Figure = Number(q: EthTx.Quantity) | Party(a: seq<u8>) | NoFigure

  /** The figure of an instruction. */
  function FigureOf(i: Instruction): Figure {
    if i.opcode == 13 || i.opcode == 21 || i.opcode == 19 then Number(EthTx.Stripped(i.args))
    else if i.opcode == 14 || i.opcode == 33 then Party(i.args)
    else NoFigure
  }

  /** The instruction at an offset: opcode, count, and as many argument bytes. */
  predicate ArgsInside(data: seq<u8>, o: nat) { o + 2 <= |data| && o + 2 + data[o + 1] <= |data| }

  function InstructionAt(data: seq<u8>, o: nat): Instruction
    requires ArgsInside(data, o)
  {
    Instruction(data[o], data[o + 2..o + 2 + data[o + 1]])
  }

  /** The figure for page i, taken from the calldata at hand; none where that is too short. */
  method InstrFigure(data: seq<u8>, offsets: seq<nat>, i: int) returns (f: Figure)
    ensures InstrAt(data, offsets, i).None? || !ArgsInside(data, offsets[i]) ==> f == NoFigure
    ensures InstrAt(data, offsets, i).Some? && ArgsInside(data, offsets[i]) && Takes(data[offsets[i]], data[offsets[i] + 1]) ==>
      f == FigureOf(InstructionAt(data, offsets[i]))
  {
    hide ArityOf, Takes, FigureOf, InstructionAt, NumberOf, PartyOf;
    var opcode := InstrLookup(data, offsets, i);
    if opcode.None? { return NoFigure; }
    var off := offsets[i];
    var n := data[off + 1];
    var start := off + 2;
    if start + n > |data| { return NoFigure; }
    match opcode.value {
      case 13 => f := NumberFigure(data, start, 5);
      case 21 => f := NumberFigure(data, start, 4);
      case 19 => f := NumberFigure(data, start, 2);
      case 14 => f := PartyFigure(data, start);
      case 33 => f := PartyFigure(data, start);
      case _ => f := NoFigure;
    }
    if Takes(data[off], n) { FigureIsThere(data, off); }
  }

  /** An instruction of its fixed width has its figure in that many bytes, all present. */
  lemma FigureIsThere(data: seq<u8>, o: nat)
    requires ArgsInside(data, o) && Takes(data[o], data[o + 1])
    ensures var f := FigureOf(InstructionAt(data, o)); var start := o + 2; var op := data[o];
      if op == 13 then NumberOf(data, start, 5) == f
      else if op == 21 then NumberOf(data, start, 4) == f
      else if op == 19 then NumberOf(data, start, 2) == f
      else if op == 14 || op == 33 then PartyOf(data, start) == f
      else f == NoFigure
  {
    hide EthTx.Stripped;
  }

  function NumberOf(data: seq<u8>, start: nat, n: nat): Figure {
    if start + n <= |data| then Number(EthTx.Stripped(data[start..start + n])) else NoFigure
  }

  function PartyOf(data: seq<u8>, start: nat): Figure {
    if start + 20 <= |data| then Party(data[start..start + 20]) else NoFigure
  }

  method NumberFigure(data: seq<u8>, start: nat, n: nat) returns (f: Figure)
    requires n <= 32
    ensures f == NumberOf(data, start, n)
  {
    if start + n > |data| { return NoFigure; }
    var q := EthTxIo.QuantitySet(data[start..start + n]);
    f := Number(q.value);
  }

  method PartyFigure(data: seq<u8>, start: nat) returns (f: Figure)
    ensures f == PartyOf(data, start)
  {
    f := if start + 20 <= |data| then Party(data[start..start + 20]) else NoFigure;
  }

  /** Over the calldata of a program that was walked, that is the figure of the instruction
      the page is about. */
  lemma RecordedFigure(data: seq<u8>, progOff: nat, progLen: nat, k: nat)
    requires progOff + progLen <= |data| && Program(data[progOff..progOff + progLen]).Some?
    requires k < |Program(data[progOff..progOff + progLen]).value|
    ensures var p := Program(data[progOff..progOff + progLen]).value; var o := Offsets(p, progOff)[k];
      InstrAt(data, Offsets(p, progOff), k).Some? && ArgsInside(data, o) && Takes(data[o], data[o + 1])
      && InstructionAt(data, o) == p[k]
  {
    var prog := data[progOff..progOff + progLen];
    var p := Program(prog).value;
    AcceptsExactlyPrograms(prog, p);
    assert Allowed(p[k]);
    hide Program, Offsets, ArityOf, FigureOf;
    LookupFindsTheProgram(data, progOff, progLen, k);
    RecordedIsFound(data, progOff, progLen, k);
  }
}
