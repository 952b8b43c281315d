/** The decoders as they run, and the accessors. */
module AbiDecode {
  import opened AbiCalls
  import opened AbiWords
  import opened AquaProgram
  import opened Bytes

  // The decoders as they run over calldata, recording offsets, and the accessors that
  // read the same values back when a page is drawn.

  const SELECTOR := 4

  /** Offsets into the calldata, as the renderer uses them. */
  datatype DisperseCall = DisperseCall(token: seq<u8>, toOff: seq<nat>, amountOff: seq<nat>)

  datatype AquaCall = AquaCall(app: seq<u8>, tokenOff: seq<nat>, amountOff: Option<seq<nat>>, programOff: Option<seq<nat>>)

  datatype StringsCall = StringsCall(nameOff: nat, nameLen: nat, symbolOff: nat, symbolLen: nat)

  /** n offsets from a base, a word apart. */
  function WordOffsets(base: nat, n: nat): (o: seq<nat>)
    ensures |o| == n && forall i | 0 <= i < n :: o[i] == base + 32 * i
  {
    seq(n, i requires 0 <= i < n => base + 32 * i)
  }

  /** Check an array of address words, one by one, and record where each stands. */
  method RecordAddresses(data: seq<u8>, off: nat, n: nat, skip: nat) returns (ok: bool, offsets: seq<nat>)
    requires |data| >= SELECTOR && SELECTOR + off + 32 * n <= |data|
    ensures ok <==> AddressesAt(data[SELECTOR..], off, n).Some?
    ensures ok ==> offsets == WordOffsets(SELECTOR + off + skip, n)
  {
    hide AddressAt;
    var args := data[SELECTOR..];
    offsets := [];
    var i := 0;
    while i < n
      invariant 0 <= i <= n && AddressesAt(args, off, i).Some? && offsets == WordOffsets(SELECTOR + off + skip, i)
    {
      AddressesStop(args, off, i + 1, n);
      var token := ReadAddress(args, off + 32 * i);
      if token.None? { return false, offsets; }
      offsets := offsets + [SELECTOR + off + 32 * i + skip];
      i := i + 1;
    }
    ok := true;
  }

  lemma {:induction false} AddressesStop(args: seq<u8>, off: nat, k: nat, n: nat)
    requires k <= n
    ensures AddressesAt(args, off, k).None? ==> AddressesAt(args, off, n).None?
  {
    hide AddressAt;
    if k < n { AddressesStop(args, off, k, n - 1); }
  }

  method DecodeDisperse(data: seq<u8>) returns (call: Option<DisperseCall>)
    ensures call.Some? <==> |data| >= SELECTOR && DisperseAt(data[SELECTOR..]).Some?
    ensures call.Some? ==> var v := DisperseAt(data[SELECTOR..]).value; var n := |v.tos|;
      call.value == DisperseCall(v.token, WordOffsets(144, n), WordOffsets(164 + 32 * n, n))
  {
    hide AddressAt, SizeAt, AddressesAt, WordsAt;
    if |data| < SELECTOR + 96 {
      if |data| >= SELECTOR { TooShort(data[SELECTOR..]); }
      return None;
    }
    var args := data[SELECTOR..];
    var span := |args|;
    var token := ReadAddress(args, 0);
    if token.None? { return None; }
    var offR := ReadSize(args, 32, span);
    var offV := ReadSize(args, 64, span);
    if offR.None? || offV.None? || offR.value != 96 { return None; }
    var count := ReadSize(args, 96, span);
    if count.None? || count.value == 0 || count.value > MAX_RECIPIENTS { return None; }
    var n := count.value;
    if 128 + n * 32 > span { return None; }
    var ok, tos := RecordAddresses(data, 128, n, 12);
    if offV.value != 128 + n * 32 { return None; }
    var m := ReadSize(args, offV.value, span);
    if m.None? || m.value != n || offV.value + 32 + n * 32 != span { return None; }
    if !ok { return None; }
    call := Some(DisperseCall(token.value, tos, WordOffsets(164 + 32 * n, n)));
  }

  lemma TooShort(args: seq<u8>)
    requires |args| < 96
    ensures DisperseAt(args) == None && DockAt(args) == None
  {}

  lemma {:induction false} AddressInPlace(args: seq<u8>, off: nat, n: nat, i: nat)
    requires AddressesAt(args, off, n).Some? && i < n
    ensures off + 32 * i + 32 <= |args| && AddressAt(args, off + 32 * i) == Some(AddressesAt(args, off, n).value[i])
    ensures AddressesAt(args, off, n).value[i] == args[off + 32 * i + 12..off + 32 * i + 32]
  {
    if i < n - 1 { AddressInPlace(args, off, n - 1, i); }
  }

  method DecodeDock(data: seq<u8>) returns (call: Option<AquaCall>)
    ensures call.Some? <==> |data| >= SELECTOR && DockAt(data[SELECTOR..]).Some?
    ensures call.Some? ==> var v := DockAt(data[SELECTOR..]).value;
      call.value == AquaCall(v.app, WordOffsets(132, |v.tokens|), None, None)
  {
    hide AddressAt, SizeAt, AddressesAt;
    if |data| < SELECTOR + 96 {
      if |data| >= SELECTOR { TooShort(data[SELECTOR..]); }
      return None;
    }
    var args := data[SELECTOR..];
    var span := |args|;
    var app := ReadAddress(args, 0);
    if app.None? { return None; }
    var offT := ReadSize(args, 64, span);
    if offT.None? || offT.value != 96 { return None; }
    var legs := ReadSize(args, 96, span);
    if legs.None? || legs.value == 0 || legs.value > MAX_LEGS { return None; }
    if span != 128 + legs.value * 32 { return None; }
    var ok, tokens := RecordAddresses(data, 128, legs.value, 0);
    if !ok { return None; }
    call := Some(AquaCall(app.value, tokens, None, None));
  }

  /** The recorded places of the two strings hold them. */
  ghost predicate StringsRecorded(data: seq<u8>, v: Strings, c: StringsCall) {
    c.nameOff + c.nameLen <= |data| && data[c.nameOff..c.nameOff + c.nameLen] == v.name
    && c.symbolOff + c.symbolLen <= |data| && data[c.symbolOff..c.symbolOff + c.symbolLen] == v.symbol
  }

  method DecodeTwoStrings(data: seq<u8>) returns (call: Option<StringsCall>)
    ensures call.Some? <==> |data| >= SELECTOR && StringsAt(data[SELECTOR..]).Some?
    ensures call.Some? ==> StringsRecorded(data, StringsAt(data[SELECTOR..]).value, call.value)
  {
    hide SizeAt, CountedAt, PaddedLength;
    if |data| < SELECTOR { return None; }
    var args := data[SELECTOR..];
    var span := |args|;
    var offN := ReadSize(args, 0, span);
    var offS := ReadSize(args, 32, span);
    if offN.None? || offS.None? || offN.value != 64 { return None; }
    var name := ReadCounted(args, 64);
    if name.None? || |name.value| > MAX_NAME { return None; }
    var drawable := IsDrawable(name.value);
    if !drawable || offS.value != 96 + PaddedLength(|name.value|) { return None; }
    var symbol := ReadCounted(args, offS.value);
    if symbol.None? || |symbol.value| > MAX_SYMBOL { return None; }
    drawable := IsDrawable(symbol.value);
    if !drawable || offS.value + 32 + PaddedLength(|symbol.value|) != span { return None; }
    CountedInPlace(args, 64);
    CountedInPlace(args, offS.value);
    call := Some(StringsCall(100, |name.value|, SELECTOR + offS.value + 32, |symbol.value|));
    Dropped(data, SELECTOR, 96, 96 + |name.value|);
    Dropped(data, SELECTOR, offS.value + 32, offS.value + 32 + |symbol.value|);
  }

  lemma CountedInPlace(args: seq<u8>, off: nat)
    ensures CountedAt(args, off).Some? ==>
      var s := CountedAt(args, off).value; off + 32 + |s| <= |args| && args[off + 32..off + 32 + |s|] == s
  {
    hide SizeAt;
  }

  method IsDrawable(s: seq<u8>) returns (ok: bool)
    ensures ok <==> Drawable(s)
  {
    if |s| == 0 || s[0] == 0x20 || s[|s| - 1] == 0x20 { return false; }
    var i := 0;
    while i < |s|
      invariant 0 <= i <= |s| && forall k | 0 <= k < i :: 0x20 <= s[k] <= 0x7E
    {
      if s[i] < 0x20 || s[i] > 0x7E { return false; }
      i := i + 1;
    }
    ok := true;
  }

  lemma SliceOfSlice(data: seq<u8>, at: nat, n: nat, start: nat, end: nat)
    requires at + n <= |data| && start <= end <= n
    ensures data[at..at + n][start..end] == data[at + start..at + end]
  {
    var a, b := data[at..at + n][start..end], data[at + start..at + end];
    assert |a| == |b|;
    forall i | 0 <= i < |a| ensures a[i] == b[i] {}
  }

  /** A word that is just a small number in its last byte. */
  method IsByteWord(s: seq<u8>, off: nat, b: u8) returns (ok: bool)
    requires off + 32 <= |s|
    ensures ok <==> s[off..off + 32] == ZeroBytes(31) + [b]
  {
    FilledIsZero(s, off, off + 31);
    var high := AllAre(s, off, off + 31, 0);
    ok := high && s[off + 31] == b;
    assert s[off..off + 32] == s[off..off + 31] + [s[off + 31]];
  }

  method ReadMaker(strategy: seq<u8>) returns (maker: Option<seq<u8>>)
    ensures maker == MakerOf(strategy)
  {
    hide AddressAt;
    if |strategy| < 64 { return None; }
    var tuple := IsByteWord(strategy, 0, 0x20);
    if !tuple { return None; }
    maker := ReadAddress(strategy, 32);
  }

  method FindProgram(strategy: seq<u8>) returns (bounds: Option<(nat, nat)>)
    ensures bounds == ProgramBounds(strategy)
  {
    hide SizeAt;
    if |strategy| < 0xa0 { return None; }
    var shaped := IsByteWord(strategy, 0x60, 0x60);
    if !shaped { return None; }
    var dataLen := ReadSize(strategy, 0x80, |strategy| - 0xa0);
    if dataLen.None? { return None; }
    var start := 256 * (strategy[0x44] as int) + strategy[0x45] as int;
    bounds := if start > dataLen.value then None else Some((0xa0 + start, 0xa0 + dataLen.value));
  }

  /** The router's program inside a strategy that stands in the calldata. */
  method SwapvmProgram(data: seq<u8>, at: nat, strategy: seq<u8>) returns (offsets: Option<seq<nat>>)
    requires at + |strategy| <= |data| && data[at..at + |strategy|] == strategy
    ensures var b := ProgramBounds(strategy);
      (offsets.Some? <==> b.Some? && Program(strategy[b.value.0..b.value.1]).Some?)
      && (offsets.Some? ==> offsets.value == Offsets(Program(strategy[b.value.0..b.value.1]).value, at + b.value.0))
  {
    hide Program, Offsets, ProgramBounds;
    var bounds := FindProgram(strategy);
    if bounds.None? { return None; }
    var start, end := bounds.value.0, bounds.value.1;
    SliceOfSlice(data, at, |strategy|, start, end);
    var off := new nat[MAX_INSTRUCTIONS];
    var ok, count := ProgramWalk(data, at + start, end - start, off);
    if !ok { return None; }
    offsets := Some(off[..count]);
  }

  method DecodeShip(data: seq<u8>) returns (call: Option<AquaCall>)
    ensures call.Some? <==> |data| >= SELECTOR && ShipAt(data[SELECTOR..]).Some?
    ensures call.Some? ==> ShipRecorded(data, ShipAt(data[SELECTOR..]).value, call.value)
  {
    hide AddressAt, SizeAt, CountedAt, StrategyOk, LegsAt, PaddedLength, ShipRecorded;
    if |data| < SELECTOR { return None; }
    var args := data[SELECTOR..];
    var span := |args|;
    var app := ReadAddress(args, 0);
    if app.None? { return None; }
    var offS := ReadSize(args, 32, span);
    var offT := ReadSize(args, 64, span);
    var offA := ReadSize(args, 96, span);
    if offS.None? || offT.None? || offA.None? || offS.value != 128 { return None; }
    var strategy := ReadCounted(args, 128);
    if strategy.None? || offT.value != 160 + PaddedLength(|strategy.value|) { return None; }
    var understood, program := ReadStrategy(data, app.value, strategy.value);
    if !understood { return None; }
    LegsKeep(args, app.value, strategy.value, offT.value, offA.value);
    call := ReadLegs(data, app.value, strategy.value, offT.value, offA.value, program);
  }

  /** The maker, and for the router its program. */
  method ReadStrategy(data: seq<u8>, app: seq<u8>, strategy: seq<u8>) returns (ok: bool, program: Option<seq<nat>>)
    requires |data| >= SELECTOR && CountedAt(data[SELECTOR..], 128) == Some(strategy)
    ensures ok <==> StrategyOk(app, strategy)
    ensures ok && app != Router() ==> program.None?
    ensures ok && app == Router() ==>
      program == Some(Offsets(Program(strategy[ProgramBounds(strategy).value.0..ProgramBounds(strategy).value.1]).value,
                              164 + ProgramBounds(strategy).value.0))
  {
    program := None;
    CountedInPlace(data[SELECTOR..], 128);
    hide CountedAt, MakerOf, ProgramBounds, Program, Offsets, Router;
    var maker := ReadMaker(strategy);
    if maker.None? { return false, None; }
    if app == Router() {
      assert data[SELECTOR..] == data[SELECTOR..SELECTOR + (|data| - SELECTOR)];
      SliceOfSlice(data, SELECTOR, |data| - SELECTOR, 160, 160 + |strategy|);
      program := SwapvmProgram(data, 164, strategy);
      return program.Some?, program;
    }
    ok := true;
  }

  /** The recorded offsets of a ship: tokens, amounts, and the program's instructions. */
  ghost predicate ShipRecorded(data: seq<u8>, v: Ship, call: AquaCall) {
    && call.app == v.app
    && var base := 164 + PaddedLength(|v.strategy|); var n := |v.tokens|;
    && call.tokenOff == WordOffsets(base + 32, n) && call.amountOff == Some(WordOffsets(base + 64 + 32 * n, n))
    && (v.app != Router() ==> call.programOff.None?)
    && (v.app == Router() && ProgramBounds(v.strategy).Some?
        && Program(v.strategy[ProgramBounds(v.strategy).value.0..ProgramBounds(v.strategy).value.1]).Some? ==>
          call.programOff == Some(Offsets(Program(v.strategy[ProgramBounds(v.strategy).value.0..ProgramBounds(v.strategy).value.1]).value,
                                          164 + ProgramBounds(v.strategy).value.0)))
  }

  method ReadLegs(data: seq<u8>, app: seq<u8>, strategy: seq<u8>, offT: nat, offA: nat, program: Option<seq<nat>>)
      returns (call: Option<AquaCall>)
    requires |data| >= SELECTOR && offT == 160 + PaddedLength(|strategy|) && StrategyOk(app, strategy)
    requires app != Router() ==> program.None?
    requires app == Router() ==>
      program == Some(Offsets(Program(strategy[ProgramBounds(strategy).value.0..ProgramBounds(strategy).value.1]).value,
                              164 + ProgramBounds(strategy).value.0))
    ensures call.Some? <==> LegsAt(data[SELECTOR..], app, strategy, offT, offA).Some?
    ensures call.Some? ==> ShipRecorded(data, LegsAt(data[SELECTOR..], app, strategy, offT, offA).value, call.value)
  {
    hide SizeAt, AddressesAt, WordsAt, MakerOf, ProgramBounds, Program, Offsets, Router, PaddedLength;
    var args := data[SELECTOR..];
    var span := |args|;
    var legs := ReadSize(args, offT, span);
    if legs.None? || legs.value == 0 || legs.value > MAX_LEGS { return None; }
    var n := legs.value;
    if offT + 32 + n * 32 > span || offA != offT + 32 + n * 32 { return None; }
    var amounts := ReadSize(args, offA, span);
    if amounts.None? || amounts.value != n || span != offA + 32 + n * 32 { return None; }
    var ok, tokens := RecordAddresses(data, offT + 32, n, 0);
    if !ok { return None; }
    call := Some(AquaCall(app, tokens, Some(WordOffsets(SELECTOR + offA + 32, n)), program));
  }

  lemma WordArrayInPlace(args: seq<u8>, off: nat, n: nat, i: nat)
    requires WordArrayAt(args, off, n).Some? && i < n
    ensures off + 32 + 32 * i + 32 <= |args|
    ensures WordArrayAt(args, off, n).value[i] == args[off + 32 + 32 * i..off + 32 + 32 * i + 32]
  {
    hide SizeAt;
  }

  lemma AddressArrayInPlace(args: seq<u8>, off: nat, most: nat, i: nat)
    requires AddressArrayAt(args, off, most).Some? && i < |AddressArrayAt(args, off, most).value|
    ensures off + 32 + 32 * i + 32 <= |args|
    ensures AddressAt(args, off + 32 + 32 * i) == Some(AddressArrayAt(args, off, most).value[i])
  {
    hide SizeAt, AddressAt;
    AddressInPlace(args, off + 32, |AddressArrayAt(args, off, most).value|, i);
  }

  /** A slice behind the selector, counted from the start. */
  lemma Dropped(data: seq<u8>, k: nat, i: nat, j: nat)
    requires i <= j && k + j <= |data|
    ensures data[k..][i..j] == data[k + i..k + j]
  {
    var a, b := data[k..][i..j], data[k + i..k + j];
    assert |a| == |b|;
    forall m | 0 <= m < |a| ensures a[m] == b[m] {}
  }

  /** The same 32 bytes are the same address, wherever they stand. */
  lemma AddressMoves(a: seq<u8>, p: nat, b: seq<u8>, q: nat)
    requires p + 32 <= |a| && q + 32 <= |b| && a[p..p + 32] == b[q..q + 32]
    ensures AddressAt(a, p) == AddressAt(b, q)
  {
    var w := a[p..p + 32];
    SliceOfSlice(a, p, 32, 0, 12);
    SliceOfSlice(a, p, 32, 12, 32);
    SliceOfSlice(b, q, 32, 0, 12);
    SliceOfSlice(b, q, 32, 12, 32);
    assert a[p..p + 12] == w[0..12] == b[q..q + 12] && a[p + 12..p + 32] == w[12..32] == b[q + 12..q + 32];
  }

  // --------------------------------------------------- reading when a page is drawn

  /** What an accessor returns for entry i, from the buffer it is handed at that moment. */
  function Recorded(data: seq<u8>, offsets: seq<nat>, i: int, size: nat): Option<seq<u8>> {
    if 0 <= i < |offsets| && offsets[i] + size <= |data| then Some(data[offsets[i]..offsets[i] + size]) else None
  }

  /** The same for a token: a word that must still be an address. */
  function RecordedToken(data: seq<u8>, offsets: seq<nat>, i: int): Option<seq<u8>> {
    var w :- Recorded(data, offsets, i, 32);
    AddressAt(w, 0)
  }

  method ReadBack(data: seq<u8>, offsets: seq<nat>, i: int, size: nat) returns (value: Option<seq<u8>>)
    ensures value == Recorded(data, offsets, i, size)
  {
    if i < 0 || i >= |offsets| { return None; }
    var off := offsets[i];
    if off > |data| || |data| - off < size { return None; }
    value := Some(data[off..off + size]);
  }

  method ReadToken(data: seq<u8>, offsets: seq<nat>, i: int) returns (token: Option<seq<u8>>)
    ensures token == RecordedToken(data, offsets, i)
  {
    var w :- ReadBack(data, offsets, i, 32);
    token := ReadAddress(w, 0);
  }

  datatype Which = Name | Symbol

  /** The string that a page asks for; an empty one, or one beyond the buffer at hand, is
      none. */
  function StringOf(call: StringsCall, data: seq<u8>, which: Which): Option<seq<u8>> {
    var off, n := if which.Name? then call.nameOff else call.symbolOff, if which.Name? then call.nameLen else call.symbolLen;
    if n > 0 && off + n <= |data| then Some(data[off..off + n]) else None
  }

  /** Copy it into a row, with the zero behind it; a row too short stays empty. */
  method ReadString(call: StringsCall, data: seq<u8>, which: Which, row: array<u8>) returns (ok: bool)
    modifies row
    ensures var s := StringOf(call, data, which);
      ok == (s.Some? && |s.value| < row.Length)
      && (ok ==> row[..] == s.value + [0] + old(row[..])[|s.value| + 1..])
      && (!ok && row.Length > 0 ==> row[..] == [0] + old(row[..])[1..])
  {
    if row.Length == 0 { return false; }
    row[0] := 0;
    var off, n := if which.Name? then call.nameOff else call.symbolOff, if which.Name? then call.nameLen else call.symbolLen;
    if n == 0 || off > |data| || n > |data| - off || n + 1 > row.Length { return false; }
    forall k | 0 <= k < n { row[k] := data[off + k]; }
    row[n] := 0;
    ok := true;
  }

  /** What is drawn of the two strings is what was decoded, each whole in a row of its
      size. */
  lemma StringsReadBack(data: seq<u8>, call: StringsCall)
    requires |data| >= SELECTOR && StringsAt(data[SELECTOR..]).Some?
    requires StringsRecorded(data, StringsAt(data[SELECTOR..]).value, call)
    ensures var v := StringsAt(data[SELECTOR..]).value;
      StringOf(call, data, Name) == Some(v.name) && StringOf(call, data, Symbol) == Some(v.symbol)
      && |v.name| <= MAX_NAME && |v.symbol| <= MAX_SYMBOL && 0 !in v.name && 0 !in v.symbol
  {
    hide SizeAt, CountedAt, StringsAt, StringsRead, PaddedLength, Drawable;
    var v := StringsAt(data[SELECTOR..]).value;
    StringsByParts(data[SELECTOR..], v);
    NoZeroIsDrawn(v.name);
    NoZeroIsDrawn(v.symbol);
  }

  lemma NoZeroIsDrawn(s: seq<u8>)
    requires Drawable(s)
    ensures |s| > 0 && 0 !in s
  {}

  /** What is drawn of a disperse is what was decoded: entry by entry the recipient and the
      amount, and no further entry. */
  lemma DisperseReadsBack(data: seq<u8>, call: DisperseCall, i: int)
    requires |data| >= SELECTOR && DisperseAt(data[SELECTOR..]).Some?
    requires var v := DisperseAt(data[SELECTOR..]).value; var n := |v.tos|;
      call == DisperseCall(v.token, WordOffsets(144, n), WordOffsets(164 + 32 * n, n))
    ensures var v := DisperseAt(data[SELECTOR..]).value;
      |v.amounts| == |v.tos|
      && Recorded(data, call.toOff, i, 20) == (if 0 <= i < |v.tos| then Some(v.tos[i]) else None)
      && Recorded(data, call.amountOff, i, 32) == (if 0 <= i < |v.tos| then Some(v.amounts[i]) else None)
  {
    assert SELECTOR == 4;
    hide AddressAt, SizeAt, DisperseAt, AddressArrayAt, WordArrayAt;
    var args := data[SELECTOR..];
    var v := DisperseAt(args).value;
    DisperseByParts(args, v);
    AsManyWords(args, 128 + 32 * |v.tos|, |v.tos|);
    if 0 <= i < |v.tos| {
      RecipientStands(args, v, i);
      WordArrayInPlace(args, 128 + 32 * |v.tos|, |v.tos|, i);
      Dropped(data, SELECTOR, 140 + 32 * i, 160 + 32 * i);
      Dropped(data, SELECTOR, 160 + 32 * |v.tos| + 32 * i, 192 + 32 * |v.tos| + 32 * i);
    }
  }

  lemma AsManyWords(args: seq<u8>, off: nat, n: nat)
    requires WordArrayAt(args, off, n).Some?
    ensures |WordArrayAt(args, off, n).value| == n
  {
    hide SizeAt;
  }

  lemma RecipientStands(args: seq<u8>, v: Disperse, i: nat)
    requires AddressArrayAt(args, 96, MAX_RECIPIENTS) == Some(v.tos) && i < |v.tos|
    ensures 160 + 32 * i <= |args| && v.tos[i] == args[140 + 32 * i..160 + 32 * i]
  {
    hide SizeAt, AddressAt;
    AddressInPlace(args, 128, |v.tos|, i);
  }

  /** A word behind the selector, read as an address on its own. */
  lemma TokenInPlace(data: seq<u8>, offsets: seq<nat>, i: int, at: nat)
    requires |data| >= SELECTOR && 0 <= i < |offsets| && offsets[i] == SELECTOR + at && at + 32 <= |data| - SELECTOR
    ensures RecordedToken(data, offsets, i) == AddressAt(data[SELECTOR..], at)
  {
    hide AddressAt;
    var w, args := data[offsets[i]..offsets[i] + 32], data[SELECTOR..];
    Dropped(data, SELECTOR, at, at + 32);
    assert w[0..0 + 32] == w;
    AddressMoves(w, 0, args, at);
  }

  lemma WordInPlace(data: seq<u8>, offsets: seq<nat>, i: int, at: nat)
    requires |data| >= SELECTOR && 0 <= i < |offsets| && offsets[i] == SELECTOR + at && at + 32 <= |data| - SELECTOR
    ensures Recorded(data, offsets, i, 32) == Some(data[SELECTOR..][at..at + 32])
  {
    Dropped(data, SELECTOR, at, at + 32);
  }

  /** Where a ship's tokens and amounts stand behind the selector. */
  lemma TokenStands(args: seq<u8>, v: Ship, i: nat, t: nat)
    requires ShipAt(args) == Some(v) && i < |v.tokens| && t == 192 + PaddedLength(|v.strategy|) + 32 * i
    ensures t + 32 <= |args| && AddressAt(args, t) == Some(v.tokens[i])
  {
    hide ShipAt, AddressAt, SizeAt, CountedAt, StrategyOk, PaddedLength, AddressArrayAt, WordArrayAt;
    ShipFound(args, v);
    AddressArrayInPlace(args, 160 + PaddedLength(|v.strategy|), MAX_LEGS, i);
  }

  lemma AmountStands(args: seq<u8>, v: Ship, i: nat, a: nat)
    requires ShipAt(args) == Some(v) && i < |v.tokens| && a == 224 + PaddedLength(|v.strategy|) + 32 * |v.tokens| + 32 * i
    ensures i < |v.amounts| && a + 32 <= |args| && args[a..a + 32] == v.amounts[i]
  {
    var n, off := |v.tokens|, 192 + PaddedLength(|v.strategy|) + 32 * |v.tokens|;
    hide ShipAt, AddressAt, SizeAt, CountedAt, StrategyOk, PaddedLength, AddressArrayAt, WordArrayAt;
    ShipFound(args, v);
    WordArrayInPlace(args, off, n, i);
  }

  lemma AsManyAmounts(args: seq<u8>, v: Ship)
    requires ShipAt(args) == Some(v)
    ensures |v.amounts| == |v.tokens|
  {
    hide ShipAt, AddressAt, SizeAt, CountedAt, StrategyOk, PaddedLength, AddressArrayAt;
    ShipFound(args, v);
  }

  /** The offsets recorded of a ship. */
  lemma ShipOffsets(data: seq<u8>, v: Ship, call: AquaCall, i: int)
    requires ShipRecorded(data, v, call)
    ensures var p, n := PaddedLength(|v.strategy|), |v.tokens|;
      call.amountOff.Some? && |call.tokenOff| == |call.amountOff.value| == n
      && (0 <= i < n ==> call.tokenOff[i] == SELECTOR + (192 + p + 32 * i)
                         && call.amountOff.value[i] == SELECTOR + (224 + p + 32 * n + 32 * i))
  {
    hide PaddedLength, ProgramBounds, Program, Offsets, Router;
  }

  lemma RecordedOutside(data: seq<u8>, offsets: seq<nat>, i: int)
    ensures i < 0 || i >= |offsets| ==> Recorded(data, offsets, i, 32) == None && RecordedToken(data, offsets, i) == None
  {}

  /** What is drawn of a ship is what was decoded: every token and every amount. */
  lemma ShipReadsBack(data: seq<u8>, call: AquaCall, i: int)
    requires |data| >= SELECTOR && ShipAt(data[SELECTOR..]).Some? && ShipRecorded(data, ShipAt(data[SELECTOR..]).value, call)
    ensures var v := ShipAt(data[SELECTOR..]).value;
      |v.amounts| == |v.tokens| && call.amountOff.Some?
      && RecordedToken(data, call.tokenOff, i) == (if 0 <= i < |v.tokens| then Some(v.tokens[i]) else None)
      && Recorded(data, call.amountOff.value, i, 32) == (if 0 <= i < |v.tokens| then Some(v.amounts[i]) else None)
  {
    assert SELECTOR == 4;
    hide *;
    var args := data[SELECTOR..];
    var v := ShipAt(args).value;
    AsManyAmounts(args, v);
    ShipOffsets(data, v, call, i);
    RecordedOutside(data, call.tokenOff, i);
    RecordedOutside(data, call.amountOff.value, i);
    if 0 <= i < |v.tokens| {
      var t, a := 192 + PaddedLength(|v.strategy|) + 32 * i, 224 + PaddedLength(|v.strategy|) + 32 * |v.tokens| + 32 * i;
      TokenStands(args, v, i, t);
      TokenInPlace(data, call.tokenOff, i, t);
      AmountStands(args, v, i, a);
      WordInPlace(data, call.amountOff.value, i, a);
    }
  }

  /** The same of a dock: every token. */
  lemma DockReadsBack(data: seq<u8>, i: int)
    requires |data| >= SELECTOR && DockAt(data[SELECTOR..]).Some?
    ensures var v := DockAt(data[SELECTOR..]).value;
      RecordedToken(data, WordOffsets(132, |v.tokens|), i) == if 0 <= i < |v.tokens| then Some(v.tokens[i]) else None
  {
    hide AddressAt, SizeAt, AddressArrayAt;
    var args := data[SELECTOR..];
    var v := DockAt(args).value;
    DockByParts(args, v);
    if 0 <= i < |v.tokens| {
      AddressArrayInPlace(args, 96, MAX_LEGS, i);
      TokenInPlace(data, WordOffsets(132, |v.tokens|), i, 128 + 32 * i);
    }
  }
}
