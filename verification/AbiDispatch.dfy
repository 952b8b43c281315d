/** The whole decoder of calldata. */
module AbiDispatch {
  import opened AbiCalls
  import opened AbiDecode
  import opened AbiSignature
  import opened AbiStatic
  import opened Bytes
  import Decimal

  // The whole decoder of calldata: a row of the table is chosen by hashing its signature,
  // and decoded by its shape. What is understood is exactly what would be sent.

  const MAX_DATA := 768

  type Hash = string -> seq<u8>

  datatype Shape =
    | NoArgs | OneUint | AddrUint | AddrAddrUint | AddrBool
    | FromSignature | ShipShape | DockShape | TwoStrings | DisperseShape

  datatype Row = Row(sig: string, shape: Shape)

  const U256 := Uint(32)

  /** The words of a row that are read one by one; None for dynamic or unreadable ones. */
  function TypesOf(row: Row): (t: Option<seq<ArgType>>)
    ensures t.Some? ==> AllLegal(t.value)
  {
    match row.shape
    case NoArgs => Some([])
    case OneUint => Some([U256])
    case AddrUint => Some([Address, U256])
    case AddrAddrUint => Some([Address, Address, U256])
    case AddrBool => Some([Address, Bool])
    case FromSignature => ParseSignature(row.sig)
    case _ => None
  }

  /** The parameter list of the rows whose shape is written out in the table. */
  function Parameters(shape: Shape): seq<string> {
    match shape
    case OneUint => ["uint256"]
    case AddrUint => ["address", "uint256"]
    case AddrAddrUint => ["address", "address", "uint256"]
    case AddrBool => ["address", "bool"]
    case _ => []
  }

  lemma ParametersAreTypes()
    ensures ParseType("uint256") == Some(U256) && ParseType("address") == Some(Address) && ParseType("bool") == Some(Bool)
  {
    assert Decimal.Digits(2) == "2" && Decimal.Digits(25) == "25" && Decimal.Digits(256) == "256";
    assert NameOf(U256) == "uint256";
    NameIsParsed(U256);
    NameIsParsed(Address);
    NameIsParsed(Bool);
  }

  /** Such a shape is what reading the signature would have given: a row's words are those
      of the types its hash covers. */
  lemma ShapesAgreeWithSignatures(name: string, shape: Shape)
    requires '(' !in name && (shape.NoArgs? || shape.OneUint? || shape.AddrUint? || shape.AddrAddrUint? || shape.AddrBool?)
    ensures var sig := Signature(name, Parameters(shape)); ParseSignature(sig) == TypesOf(Row(sig, shape))
  {
    ParametersAreTypes();
    hide ParseType, ParseSignature, Signature;
    SignatureIsParsed(name, Parameters(shape), TypesOf(Row("", shape)).value);
  }

  /** Any other plain row is read by its own signature: its words are the types named there. */
  lemma SignatureRowsReadTheirTypes(name: string, names: seq<string>, types: seq<ArgType>)
    requires '(' !in name && Mean(names, types) && |names| <= 6
    ensures TypesOf(Row(Signature(name, names), FromSignature)) == Some(types)
  {
    SignatureIsParsed(name, names, types);
  }

  // ------------------------------------------------------------ what is understood

  datatype Arguments =
    | Plain(types: seq<ArgType>, values: seq<Value>)
    | ShipArguments(ship: Ship)
    | DockArguments(dock: Dock)
    | StringArguments(strings: Strings)
    | DisperseArguments(disperse: Disperse)

  datatype Meaning = NothingSent | NotUnderstood | Call(row: nat, args: Arguments)

  predicate Selects(keccak: Hash, row: Row, data: seq<u8>) {
    |data| >= SELECTOR && |keccak(row.sig)| >= SELECTOR && keccak(row.sig)[..SELECTOR] == data[..SELECTOR]
  }

  /** The first row from i on whose signature hashes to the selector. */
  function RowFor(keccak: Hash, rows: seq<Row>, data: seq<u8>, i: nat): (r: nat)
    requires i <= |rows|
    ensures i <= r <= |rows| && (r < |rows| ==> Selects(keccak, rows[r], data))
    ensures forall j | i <= j < r :: !Selects(keccak, rows[j], data)
    decreases |rows| - i
  {
    if i == |rows| || Selects(keccak, rows[i], data) then i else RowFor(keccak, rows, data, i + 1)
  }

  /** The arguments that a row reads from calldata. */
  function ArgumentsAt(row: Row, data: seq<u8>): Option<Arguments>
    requires |data| >= SELECTOR
  {
    var args := data[SELECTOR..];
    match row.shape
    case ShipShape => var v :- ShipAt(args); Some(ShipArguments(v))
    case DockShape => var v :- DockAt(args); Some(DockArguments(v))
    case TwoStrings => var v :- StringsAt(args); Some(StringArguments(v))
    case DisperseShape => var v :- DisperseAt(args); Some(DisperseArguments(v))
    case _ =>
      var types :- TypesOf(row);
      if Decodes(types, data) then Some(Plain(types, Drawn(types, data))) else None
  }

  function MeaningOf(keccak: Hash, rows: seq<Row>, data: seq<u8>): Meaning {
    if |data| == 0 then NothingSent
    else if |data| < SELECTOR then NotUnderstood
    else
      var i := RowFor(keccak, rows, data, 0);
      if i == |rows| then NotUnderstood
      else
        var args := ArgumentsAt(rows[i], data);
        if args.None? then NotUnderstood else Call(i, args.value)
  }

  // --------------------------------------------------------------- what is sent

  /** The arguments are ones a row can take. */
  predicate Fits(row: Row, args: Arguments) {
    match row.shape
    case ShipShape => args.ShipArguments? && ShipOk(args.ship)
    case DockShape => args.DockArguments? && DockOk(args.dock)
    case TwoStrings => args.StringArguments? && StringsOk(args.strings)
    case DisperseShape => args.DisperseArguments? && DisperseOk(args.disperse)
    case _ => args.Plain? && TypesOf(row) == Some(args.types) && AllLegal(args.types) && AllBelong(args.types, args.values)
  }

  /** The canonical encoding of a row's arguments. */
  function Encoding(row: Row, args: Arguments): seq<u8>
    requires Fits(row, args)
  {
    match args
    case Plain(types, values) => Words(types, values)
    case ShipArguments(v) => ShipArgs(v)
    case DockArguments(v) => DockArgs(v)
    case StringArguments(v) => StringsArgs(v)
    case DisperseArguments(v) => DisperseArgs(v)
  }

  lemma PlainIsExact(row: Row, types: seq<ArgType>, data: seq<u8>)
    requires |data| >= SELECTOR && TypesOf(row) == Some(types)
    ensures Decodes(types, data) ==>
      AllBelong(types, Drawn(types, data)) && data[SELECTOR..] == Words(types, Drawn(types, data))
    ensures forall values | AllBelong(types, values) && data[SELECTOR..] == Words(types, values) ::
      Decodes(types, data) && Drawn(types, data) == values
  {
    hide Decodes, Words, Drawn, AllBelong, TypesOf, ParseSignature;
    if Decodes(types, data) {
      AcceptedIsEncoded(types, data);
      assert data == data[..4] + data[SELECTOR..];
    }
    forall values | AllBelong(types, values) && data[SELECTOR..] == Words(types, values)
      ensures Decodes(types, data) && Drawn(types, data) == values
    {
      EncodedIsAccepted(types, values, data[..4]);
      assert data == data[..4] + data[SELECTOR..];
    }
  }

  /** A row reads arguments from calldata exactly when their encoding is all that stands
      behind the selector. */
  lemma ArgumentsAreExact(row: Row, data: seq<u8>, args: Arguments)
    requires SELECTOR <= |data| <= MAX_DATA
    ensures ArgumentsAt(row, data) == Some(args) <==> Fits(row, args) && data[SELECTOR..] == Encoding(row, args)
  {
    var rest := data[SELECTOR..];
    hide ShipAt, ShipOk, ShipArgs, DockAt, DockOk, DockArgs, StringsAt, StringsOk, StringsArgs, DisperseAt, DisperseOk, DisperseArgs;
    hide Decodes, Words, Drawn, AllBelong, TypesOf, AllLegal;
    match row.shape
    case ShipShape => if args.ShipArguments? { ShipIsExact(rest, args.ship); }
    case DockShape => if args.DockArguments? { DockIsExact(rest, args.dock); }
    case TwoStrings => if args.StringArguments? { StringsAreExact(rest, args.strings); }
    case DisperseShape => if args.DisperseArguments? { DisperseIsExact(rest, args.disperse); }
    case _ => if TypesOf(row).Some? { PlainIsExact(row, TypesOf(row).value, data); }
  }

  /** What is understood is what is sent: the selector of the row shown and the encoding
      of the arguments shown, with nothing before, between or behind them. */
  lemma UnderstoodIsSent(keccak: Hash, rows: seq<Row>, data: seq<u8>)
    requires |data| <= MAX_DATA && MeaningOf(keccak, rows, data).Call?
    ensures var m := MeaningOf(keccak, rows, data);
      m.row < |rows| && Fits(rows[m.row], m.args) && |keccak(rows[m.row].sig)| >= SELECTOR
      && data == keccak(rows[m.row].sig)[..SELECTOR] + Encoding(rows[m.row], m.args)
  {
    hide ArgumentsAt, Fits, Encoding;
    var m := MeaningOf(keccak, rows, data);
    ArgumentsAreExact(rows[m.row], data, m.args);
    assert data == data[..SELECTOR] + data[SELECTOR..];
  }

  /** Two calls that are understood alike are the same bytes. */
  lemma MeaningDeterminesSent(keccak: Hash, rows: seq<Row>, a: seq<u8>, b: seq<u8>)
    requires |a| <= MAX_DATA && |b| <= MAX_DATA
    requires MeaningOf(keccak, rows, a) == MeaningOf(keccak, rows, b) && !MeaningOf(keccak, rows, a).NotUnderstood?
    ensures a == b
  {
    hide ArgumentsAt, Fits, Encoding;
    if MeaningOf(keccak, rows, a).Call? {
      UnderstoodIsSent(keccak, rows, a);
      UnderstoodIsSent(keccak, rows, b);
    }
  }

  /** Every encoding of arguments that a row can take is understood as that row and those
      arguments, unless an earlier row hashes to the same selector. */
  lemma SentIsUnderstood(keccak: Hash, rows: seq<Row>, i: nat, args: Arguments)
    requires i < |rows| && Fits(rows[i], args) && |keccak(rows[i].sig)| >= SELECTOR
    requires SELECTOR + |Encoding(rows[i], args)| <= MAX_DATA
    requires forall j | 0 <= j < i :: |keccak(rows[j].sig)| >= SELECTOR ==> keccak(rows[j].sig)[..SELECTOR] != keccak(rows[i].sig)[..SELECTOR]
    ensures MeaningOf(keccak, rows, keccak(rows[i].sig)[..SELECTOR] + Encoding(rows[i], args)) == Call(i, args)
  {
    hide ArgumentsAt, Fits, Encoding;
    var selector := keccak(rows[i].sig)[..SELECTOR];
    var data := selector + Encoding(rows[i], args);
    assert data[..SELECTOR] == selector && data[SELECTOR..] == Encoding(rows[i], args);
    ArgumentsAreExact(rows[i], data, args);
  }

  // -------------------------------------------------------------- the decoder

  /** What the renderer is given: where things stand in the calldata. */
  datatype Decoded =
    | Empty
    | Unknown
    | Static(row: nat, types: seq<ArgType>)
    | Aqua(row: nat, aqua: AquaCall)
    | Named(row: nat, names: StringsCall)
    | Batch(row: nat, batch: DisperseCall)

  /** The offsets handed out are those of the arguments understood. */
  ghost predicate Tells(d: Decoded, m: Meaning, data: seq<u8>) {
    match m
    case NothingSent => d.Empty?
    case NotUnderstood => d.Unknown?
    case Call(i, Plain(types, _)) => d == Static(i, types)
    case Call(i, ShipArguments(v)) => d.Aqua? && d.row == i && ShipRecorded(data, v, d.aqua)
    case Call(i, DockArguments(v)) => d == Aqua(i, AquaCall(v.app, WordOffsets(132, |v.tokens|), None, None))
    case Call(i, StringArguments(v)) =>
      d.Named? && d.row == i
      && d.names.nameOff + d.names.nameLen <= |data| && data[d.names.nameOff..d.names.nameOff + d.names.nameLen] == v.name
      && d.names.symbolOff + d.names.symbolLen <= |data|
      && data[d.names.symbolOff..d.names.symbolOff + d.names.symbolLen] == v.symbol
    case Call(i, DisperseArguments(v)) =>
      d == Batch(i, DisperseCall(v.token, WordOffsets(144, |v.tos|), WordOffsets(164 + 32 * |v.tos|, |v.tos|)))
  }

  method FindRow(keccak: Hash, rows: seq<Row>, data: seq<u8>) returns (i: nat)
    ensures i == RowFor(keccak, rows, data, 0)
  {
    hide Selects;
    i := 0;
    while i < |rows|
      invariant i <= |rows| && RowFor(keccak, rows, data, 0) == RowFor(keccak, rows, data, i)
    {
      if Selects(keccak, rows[i], data) { return; }
      i := i + 1;
    }
  }

  /** A row's arguments, each one word. */
  method DecodeWords(row: Row, i: nat, data: seq<u8>) returns (d: Decoded)
    requires |data| >= SELECTOR && !row.shape.ShipShape? && !row.shape.DockShape? && !row.shape.TwoStrings? && !row.shape.DisperseShape?
    ensures d == if ArgumentsAt(row, data).Some? then Static(i, ArgumentsAt(row, data).value.types) else Unknown
    ensures ArgumentsAt(row, data).Some? ==> ArgumentsAt(row, data).value.Plain?
  {
    hide Decodes, ParseSignature, Drawn;
    var types := TypesOf(row);
    if row.shape.FromSignature? {
      types := ParseSignatureArgs(row.sig);
    }
    if types.None? { return Unknown; }
    var ok := DecodeStatic(types.value, data);
    d := if ok then Static(i, types.value) else Unknown;
  }

  method DecodeRow(row: Row, i: nat, data: seq<u8>) returns (d: Decoded)
    requires |data| >= SELECTOR
    ensures Tells(d, if ArgumentsAt(row, data).Some? then Call(i, ArgumentsAt(row, data).value) else NotUnderstood, data)
  {
    hide ShipAt, DockAt, StringsAt, DisperseAt, ShipRecorded, TypesOf, Decodes, Drawn;
    match row.shape {
      case DisperseShape =>
        var call := DecodeDisperse(data);
        return if call.Some? then Batch(i, call.value) else Unknown;
      case TwoStrings =>
        var call := DecodeTwoStrings(data);
        return if call.Some? then Named(i, call.value) else Unknown;
      case ShipShape =>
        var call := DecodeShip(data);
        return if call.Some? then Aqua(i, call.value) else Unknown;
      case DockShape =>
        var call := DecodeDock(data);
        return if call.Some? then Aqua(i, call.value) else Unknown;
      case _ =>
        d := DecodeWords(row, i, data);
    }
  }

  method DecodeCall(keccak: Hash, rows: seq<Row>, data: seq<u8>) returns (d: Decoded)
    ensures Tells(d, MeaningOf(keccak, rows, data), data)
  {
    hide ArgumentsAt, RowFor, Tells;
    Plainly(data);
    if |data| == 0 { return Empty; }
    if |data| < SELECTOR { return Unknown; }
    var i := FindRow(keccak, rows, data);
    if i == |rows| { return Unknown; }
    d := DecodeRow(rows[i], i, data);
  }

  lemma Plainly(data: seq<u8>)
    ensures Tells(Empty, NothingSent, data) && Tells(Unknown, NotUnderstood, data)
  {}
}
