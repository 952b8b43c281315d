/** Calls with dynamic arguments. */
module AbiCalls {
  import opened AbiWords
  import opened AquaProgram
  import opened Bytes

  // The four calls with dynamic arguments that the device reads in full: each decoder
  // accepts exactly the canonical encoding of its arguments, within its bounds.

  const MAX_RECIPIENTS := 9
  const MAX_LEGS := 4
  const MAX_NAME := 64
  const MAX_SYMBOL := 12

  /** Parts stand one behind the other exactly when their concatenation stands. */
  lemma FourParts(buf: seq<u8>, a: seq<u8>, p: nat, b: seq<u8>, q: nat, c: seq<u8>, r: nat, d: seq<u8>)
    requires p == |a| && q == p + |b| && r == q + |c|
    ensures Stands(buf, 0, a + b + c + d) <==> Stands(buf, 0, a) && Stands(buf, p, b) && Stands(buf, q, c) && Stands(buf, r, d)
  {
    hide Stands;
    BothStand(buf, 0, a, b);
    BothStand(buf, 0, a + b, c);
    BothStand(buf, 0, a + b + c, d);
  }

  lemma WholeStands(buf: seq<u8>, all: seq<u8>)
    ensures buf == all <==> Stands(buf, 0, all) && |all| == |buf|
  {}

  // ------------------------------------------------------------ disperseToken

  datatype Disperse = Disperse(token: seq<u8>, tos: seq<seq<u8>>, amounts: seq<seq<u8>>)

  predicate DisperseOk(v: Disperse) {
    |v.token| == 20 && 1 <= |v.tos| <= 9 && AllAddresses(v.tos) && |v.amounts| == |v.tos| && AllWords(v.amounts)
  }

  /** Token, two offsets, the recipients, the amounts, and nothing more. */
  function DisperseArgs(v: Disperse): seq<u8>
    requires DisperseOk(v)
  {
    AddressWord(v.token) + SizeWord(96) + SizeWord(128 + 32 * |v.tos|) + AddressArray(v.tos) + WordArray(v.amounts)
  }

  function DisperseAt(args: seq<u8>): Option<Disperse> {
    var token :- AddressAt(args, 0);
    var offR :- SizeAt(args, 32, |args|);
    var offV :- SizeAt(args, 64, |args|);
    if offR != 96 then None
    else
      var tos :- AddressArrayAt(args, offR, MAX_RECIPIENTS);
      if offV != offR + 32 + 32 * |tos| then None
      else
        var amounts :- WordArrayAt(args, offV, |tos|);
        if offV + 32 + 32 * |tos| != |args| then None else Some(Disperse(token, tos, amounts))
  }

  /** What each read must find. */
  predicate DisperseReads(args: seq<u8>, v: Disperse) {
    && AddressAt(args, 0) == Some(v.token) && SizeAt(args, 32, |args|) == Some(96)
    && SizeAt(args, 64, |args|) == Some(128 + 32 * |v.tos|)
    && AddressArrayAt(args, 96, MAX_RECIPIENTS) == Some(v.tos)
    && WordArrayAt(args, 128 + 32 * |v.tos|, |v.tos|) == Some(v.amounts)
    && 160 + 64 * |v.tos| == |args|
  }

  lemma DisperseByParts(args: seq<u8>, v: Disperse)
    ensures DisperseAt(args) == Some(v) <==> DisperseReads(args, v)
    ensures DisperseReads(args, v) ==> DisperseOk(v)
  {
    hide AddressAt, SizeAt, AddressArrayAt, WordArrayAt;
  }

  /** What must stand where. */
  ghost predicate DisperseLies(args: seq<u8>, v: Disperse)
    requires DisperseOk(v)
  {
    && Stands(args, 0, AddressWord(v.token)) && Stands(args, 32, SizeWord(96)) && Stands(args, 64, SizeWord(128 + 32 * |v.tos|))
    && Stands(args, 96, AddressArray(v.tos)) && Stands(args, 128 + 32 * |v.tos|, WordArray(v.amounts))
    && 160 + 64 * |v.tos| == |args|
  }

  lemma DisperseReadsWhatLies(args: seq<u8>, v: Disperse)
    requires DisperseOk(v)
    ensures DisperseReads(args, v) <==> DisperseLies(args, v)
  {
    hide AddressAt, SizeAt, AddressArrayAt, WordArrayAt, Stands, AddressWord, SizeWord, AddressArray, WordArray;
    var n := |v.tos|;
    if 160 + 64 * n == |args| {
      AddressIsExact(args, 0, v.token);
      SizeIsExact(args, 32, |args|, 96);
      SizeIsExact(args, 64, |args|, 128 + 32 * n);
      AddressArrayIsExact(args, 96, MAX_RECIPIENTS, v.tos);
      WordArrayIsExact(args, 128 + 32 * n, n, v.amounts);
    }
  }

  lemma DisperseLiesInFull(args: seq<u8>, v: Disperse)
    requires DisperseOk(v)
    ensures DisperseLies(args, v) <==> args == DisperseArgs(v)
  {
    hide Stands, AddressWord, SizeWord, AddressArray, WordArray;
    var a, b, c := AddressWord(v.token), SizeWord(96), SizeWord(128 + 32 * |v.tos|);
    var d, e := AddressArray(v.tos), WordArray(v.amounts);
    FourParts(args, a, 32, b, 64, c, 96, d);
    BothStand(args, 0, a + b + c + d, e);
    assert |a + b + c + d| == 128 + 32 * |v.tos|;
    WholeStands(args, a + b + c + d + e);
  }

  /** disperseToken is decoded exactly from the canonical encoding of its arguments. */
  lemma DisperseIsExact(args: seq<u8>, v: Disperse)
    ensures DisperseAt(args) == Some(v) <==> DisperseOk(v) && args == DisperseArgs(v)
  {
    hide *;
    DisperseByParts(args, v);
    if DisperseOk(v) {
      DisperseReadsWhatLies(args, v);
      DisperseLiesInFull(args, v);
    }
  }

  // --------------------------------------------------------------------- dock

  datatype Dock = Dock(app: seq<u8>, hash: seq<u8>, tokens: seq<seq<u8>>)

  predicate DockOk(v: Dock) {
    |v.app| == 20 && |v.hash| == 32 && 1 <= |v.tokens| <= 4 && AllAddresses(v.tokens)
  }

  function DockArgs(v: Dock): seq<u8>
    requires DockOk(v)
  {
    AddressWord(v.app) + v.hash + SizeWord(96) + AddressArray(v.tokens)
  }

  function DockAt(args: seq<u8>): Option<Dock> {
    if |args| < 96 then None
    else
      var app :- AddressAt(args, 0);
      var offT :- SizeAt(args, 64, |args|);
      if offT != 96 then None
      else
        var tokens :- AddressArrayAt(args, offT, MAX_LEGS);
        if |args| != offT + 32 + 32 * |tokens| then None else Some(Dock(app, args[32..64], tokens))
  }

  predicate DockReads(args: seq<u8>, v: Dock) {
    && AddressAt(args, 0) == Some(v.app) && |args| >= 96 && v.hash == args[32..64] && SizeAt(args, 64, |args|) == Some(96)
    && AddressArrayAt(args, 96, MAX_LEGS) == Some(v.tokens) && 128 + 32 * |v.tokens| == |args|
  }

  lemma DockByParts(args: seq<u8>, v: Dock)
    ensures DockAt(args) == Some(v) <==> DockReads(args, v)
    ensures DockReads(args, v) ==> DockOk(v)
  {
    hide AddressAt, SizeAt, AddressArrayAt;
  }

  lemma DockReadsWhatLies(args: seq<u8>, v: Dock)
    requires DockOk(v)
    ensures DockReads(args, v) <==> args == DockArgs(v)
  {
    hide AddressAt, SizeAt, AddressArrayAt, AddressWord, SizeWord, AddressArray;
    AddressIsExact(args, 0, v.app);
    SizeIsExact(args, 64, |args|, 96);
    AddressArrayIsExact(args, 96, MAX_LEGS, v.tokens);
    FourParts(args, AddressWord(v.app), 32, v.hash, 64, SizeWord(96), 96, AddressArray(v.tokens));
    WholeStands(args, AddressWord(v.app) + v.hash + SizeWord(96) + AddressArray(v.tokens));
    HashStands(args, v.hash);
  }

  lemma HashStands(args: seq<u8>, hash: seq<u8>)
    requires |hash| == 32
    ensures |args| >= 96 ==> (Stands(args, 32, hash) <==> hash == args[32..64])
  {}

  /** dock is decoded exactly from the canonical encoding of its arguments. */
  lemma DockIsExact(args: seq<u8>, v: Dock)
    ensures DockAt(args) == Some(v) <==> DockOk(v) && args == DockArgs(v)
  {
    hide *;
    DockByParts(args, v);
    if DockOk(v) { DockReadsWhatLies(args, v); }
  }

  // ---------------------------------------------- deployEquity and deployBond

  datatype Strings = Strings(name: seq<u8>, symbol: seq<u8>)

  /** Printable, and without a space that would not be seen at either end. */
  predicate Drawable(s: seq<u8>) {
    |s| > 0 && s[0] != 0x20 && s[|s| - 1] != 0x20 && forall i | 0 <= i < |s| :: 0x20 <= s[i] <= 0x7E
  }

  predicate StringsOk(v: Strings) {
    |v.name| <= 64 && Drawable(v.name) && |v.symbol| <= 12 && Drawable(v.symbol)
  }

  function StringsArgs(v: Strings): seq<u8> {
    SizeWord(64) + SizeWord(96 + PaddedLength(|v.name|)) + Counted(v.name) + Counted(v.symbol)
  }

  function StringsAt(args: seq<u8>): Option<Strings> {
    var offN :- SizeAt(args, 0, |args|);
    var offS :- SizeAt(args, 32, |args|);
    if offN != 64 then None
    else
      var name :- CountedAt(args, offN);
      if |name| > MAX_NAME || !Drawable(name) || offS != offN + 32 + PaddedLength(|name|) then None
      else
        var symbol :- CountedAt(args, offS);
        if |symbol| > MAX_SYMBOL || !Drawable(symbol) || offS + 32 + PaddedLength(|symbol|) != |args| then None
        else Some(Strings(name, symbol))
  }

  predicate StringsRead(args: seq<u8>, v: Strings) {
    && SizeAt(args, 0, |args|) == Some(64) && SizeAt(args, 32, |args|) == Some(96 + PaddedLength(|v.name|))
    && CountedAt(args, 64) == Some(v.name) && CountedAt(args, 96 + PaddedLength(|v.name|)) == Some(v.symbol)
    && 128 + PaddedLength(|v.name|) + PaddedLength(|v.symbol|) == |args|
  }

  lemma StringsByParts(args: seq<u8>, v: Strings)
    ensures StringsAt(args) == Some(v) <==> StringsRead(args, v) && StringsOk(v)
  {
    hide SizeAt, CountedAt, Drawable, PaddedLength;
  }

  ghost predicate StringsLie(args: seq<u8>, v: Strings) {
    && Stands(args, 0, SizeWord(64)) && Stands(args, 32, SizeWord(96 + PaddedLength(|v.name|)))
    && Stands(args, 64, Counted(v.name)) && Stands(args, 96 + PaddedLength(|v.name|), Counted(v.symbol))
    && 128 + PaddedLength(|v.name|) + PaddedLength(|v.symbol|) == |args|
  }

  lemma StringsReadWhatLies(args: seq<u8>, v: Strings)
    requires StringsOk(v)
    ensures StringsRead(args, v) <==> StringsLie(args, v)
  {
    var p := PaddedLength(|v.name|);
    assert |v.name| <= 64 && |v.symbol| <= 12 && p <= 96;
    hide SizeAt, CountedAt, Drawable, PaddedLength, Stands, SizeWord, Counted, StringsOk;
    if 128 + p + PaddedLength(|v.symbol|) == |args| {
      SizeIsExact(args, 0, |args|, 64);
      SizeIsExact(args, 32, |args|, 96 + p);
      CountedIsExact(args, 64, v.name);
      CountedIsExact(args, 96 + p, v.symbol);
    }
  }

  lemma StringsLieInFull(args: seq<u8>, v: Strings)
    ensures StringsLie(args, v) <==> args == StringsArgs(v)
  {
    hide PaddedLength, Stands, SizeWord, Counted;
    var p := PaddedLength(|v.name|);
    var a, b, c, d := SizeWord(64), SizeWord(96 + p), Counted(v.name), Counted(v.symbol);
    FourParts(args, a, 32, b, 64, c, 96 + p, d);
    assert |a + b + c + d| == 128 + p + PaddedLength(|v.symbol|);
    WholeStands(args, a + b + c + d);
  }

  /** The two strings are decoded exactly from the canonical encoding of drawable ones. */
  lemma StringsAreExact(args: seq<u8>, v: Strings)
    ensures StringsAt(args) == Some(v) <==> StringsOk(v) && args == StringsArgs(v)
  {
    hide *;
    StringsByParts(args, v);
    if StringsOk(v) {
      StringsReadWhatLies(args, v);
      StringsLieInFull(args, v);
    }
  }

  // --------------------------------------------------------------------- ship

  datatype Ship = Ship(app: seq<u8>, strategy: seq<u8>, tokens: seq<seq<u8>>, amounts: seq<seq<u8>>)

  /** The router whose opcode table is the one in AquaProgram. */
  function Router(): (r: seq<u8>)
    ensures |r| == 20
  {
    [0x11, 0x11, 0x11, 0x33, 0x8c, 0x50, 0x91, 0xe8, 0x44, 0x0b, 0x67, 0xb1, 0x68, 0xba, 0xe1, 0x6a, 0x66, 0x8a, 0xc0, 0xde]
  }

  /** The maker: a dynamic tuple's head, then an address. */
  function MakerOf(strategy: seq<u8>): Option<seq<u8>> {
    if |strategy| < 64 || strategy[..32] != ZeroBytes(31) + [0x20] then None else AddressAt(strategy, 32)
  }

  /** Where the program inside a router strategy stands: its start and its end. */
  function ProgramBounds(strategy: seq<u8>): (r: Option<(nat, nat)>)
    ensures r.Some? ==> r.value.0 <= r.value.1 <= |strategy|
  {
    if |strategy| < 0xa0 || strategy[0x60..0x80] != ZeroBytes(31) + [0x60] then None
    else
      var dataLen :- SizeAt(strategy, 0x80, |strategy| - 0xa0);
      var start := 256 * (strategy[0x44] as int) + strategy[0x45] as int;
      if start > dataLen then None else Some((0xa0 + start, 0xa0 + dataLen))
  }

  /** A strategy names its maker; for the router its whole program is understood. */
  predicate StrategyOk(app: seq<u8>, strategy: seq<u8>) {
    MakerOf(strategy).Some?
    && (app == Router() ==>
          ProgramBounds(strategy).Some?
          && Program(strategy[ProgramBounds(strategy).value.0..ProgramBounds(strategy).value.1]).Some?)
  }

  predicate ShipOk(v: Ship) {
    |v.app| == 20 && |v.strategy| < 0x1000_0000 && StrategyOk(v.app, v.strategy)
    && 1 <= |v.tokens| <= 4 && AllAddresses(v.tokens) && |v.amounts| == |v.tokens| && AllWords(v.amounts)
  }

  function ShipArgs(v: Ship): seq<u8>
    requires ShipOk(v)
  {
    AddressWord(v.app) + SizeWord(128) + SizeWord(160 + PaddedLength(|v.strategy|))
    + SizeWord(192 + PaddedLength(|v.strategy|) + 32 * |v.tokens|)
    + Counted(v.strategy) + AddressArray(v.tokens) + WordArray(v.amounts)
  }

  function ShipAt(args: seq<u8>): Option<Ship> {
    var app :- AddressAt(args, 0);
    var offS :- SizeAt(args, 32, |args|);
    var offT :- SizeAt(args, 64, |args|);
    var offA :- SizeAt(args, 96, |args|);
    if offS != 128 then None
    else
      var strategy :- CountedAt(args, offS);
      if offT != offS + 32 + PaddedLength(|strategy|) || !StrategyOk(app, strategy) then None
      else LegsAt(args, app, strategy, offT, offA)
  }

  /** The tokens and amounts behind the strategy, up to the very end. */
  function LegsAt(args: seq<u8>, app: seq<u8>, strategy: seq<u8>, offT: nat, offA: nat): Option<Ship> {
    var tokens :- AddressArrayAt(args, offT, MAX_LEGS);
    if offA != offT + 32 + 32 * |tokens| then None
    else
      var amounts :- WordArrayAt(args, offA, |tokens|);
      if |args| != offA + 32 + 32 * |tokens| then None else Some(Ship(app, strategy, tokens, amounts))
  }

  predicate ShipReads(args: seq<u8>, v: Ship, p: nat, n: nat) {
    && AddressAt(args, 0) == Some(v.app) && SizeAt(args, 32, |args|) == Some(128)
    && SizeAt(args, 64, |args|) == Some(160 + p) && SizeAt(args, 96, |args|) == Some(192 + p + 32 * n)
    && CountedAt(args, 128) == Some(v.strategy)
    && AddressArrayAt(args, 160 + p, MAX_LEGS) == Some(v.tokens)
    && WordArrayAt(args, 192 + p + 32 * n, n) == Some(v.amounts) && 224 + p + 64 * n == |args|
  }

  lemma LegsByParts(args: seq<u8>, v: Ship, offT: nat, offA: nat)
    ensures LegsAt(args, v.app, v.strategy, offT, offA) == Some(v) <==>
      AddressArrayAt(args, offT, MAX_LEGS) == Some(v.tokens) && offA == offT + 32 + 32 * |v.tokens|
      && WordArrayAt(args, offA, |v.tokens|) == Some(v.amounts) && |args| == offA + 32 + 32 * |v.tokens|
  {
    hide AddressArrayAt, WordArrayAt;
  }

  lemma LegsKeep(args: seq<u8>, app: seq<u8>, strategy: seq<u8>, offT: nat, offA: nat)
    ensures var r := LegsAt(args, app, strategy, offT, offA);
      r.Some? ==> r.value.app == app && r.value.strategy == strategy
  {
    hide AddressArrayAt, WordArrayAt;
  }

  lemma ShipFound(args: seq<u8>, v: Ship)
    requires ShipAt(args) == Some(v)
    ensures ShipReads(args, v, PaddedLength(|v.strategy|), |v.tokens|) && StrategyOk(v.app, v.strategy)
  {
    hide AddressAt, SizeAt, CountedAt, StrategyOk, LegsAt, PaddedLength, AddressArrayAt, WordArrayAt;
    var app, strategy := AddressAt(args, 0).value, CountedAt(args, 128).value;
    LegsKeep(args, app, strategy, SizeAt(args, 64, |args|).value, SizeAt(args, 96, |args|).value);
    LegsByParts(args, v, SizeAt(args, 64, |args|).value, SizeAt(args, 96, |args|).value);
  }

  lemma ShipFinds(args: seq<u8>, v: Ship)
    requires ShipReads(args, v, PaddedLength(|v.strategy|), |v.tokens|) && StrategyOk(v.app, v.strategy)
    ensures ShipAt(args) == Some(v)
  {
    hide AddressAt, SizeAt, CountedAt, StrategyOk, LegsAt, PaddedLength, AddressArrayAt, WordArrayAt;
    var p := PaddedLength(|v.strategy|);
    LegsByParts(args, v, 160 + p, 192 + p + 32 * |v.tokens|);
  }

  lemma ReadsMakeOk(args: seq<u8>, v: Ship)
    requires ShipReads(args, v, PaddedLength(|v.strategy|), |v.tokens|) && StrategyOk(v.app, v.strategy) && |args| < 0x1000_0000
    ensures ShipOk(v)
  {
    CountedFits(args, 128, v.strategy);
    hide AddressAt, SizeAt, CountedAt, StrategyOk, AddressArrayAt, WordArrayAt, PaddedLength;
  }

  lemma CountedFits(args: seq<u8>, off: nat, s: seq<u8>)
    ensures CountedAt(args, off) == Some(s) ==> |s| <= |args|
  {}

  ghost predicate ShipLies(args: seq<u8>, v: Ship, p: nat, n: nat)
    requires ShipOk(v)
  {
    && Stands(args, 0, AddressWord(v.app)) && Stands(args, 32, SizeWord(128)) && Stands(args, 64, SizeWord(160 + p))
    && Stands(args, 96, SizeWord(192 + p + 32 * n)) && Stands(args, 128, Counted(v.strategy))
    && Stands(args, 160 + p, AddressArray(v.tokens)) && Stands(args, 192 + p + 32 * n, WordArray(v.amounts))
    && 224 + p + 64 * n == |args|
  }

  lemma ShipReadsWhatLies(args: seq<u8>, v: Ship, p: nat, n: nat)
    requires ShipOk(v) && p == PaddedLength(|v.strategy|) && n == |v.tokens|
    ensures ShipReads(args, v, p, n) <==> ShipLies(args, v, p, n)
  {
    hide AddressAt, SizeAt, CountedAt, StrategyOk, AddressArrayAt, WordArrayAt, PaddedLength, Stands, Counted,
         AddressArray, WordArray, AddressWord, SizeWord;
    if 224 + p + 64 * n == |args| {
      AddressIsExact(args, 0, v.app);
      SizeIsExact(args, 32, |args|, 128);
      SizeIsExact(args, 64, |args|, 160 + p);
      SizeIsExact(args, 96, |args|, 192 + p + 32 * n);
      CountedIsExact(args, 128, v.strategy);
      AddressArrayIsExact(args, 160 + p, MAX_LEGS, v.tokens);
      WordArrayIsExact(args, 192 + p + 32 * n, n, v.amounts);
    }
  }

  lemma ShipLiesInFull(args: seq<u8>, v: Ship, p: nat, n: nat)
    requires ShipOk(v) && p == PaddedLength(|v.strategy|) && n == |v.tokens|
    ensures ShipLies(args, v, p, n) <==> args == ShipArgs(v)
  {
    hide Stands, AddressWord, SizeWord, Counted, AddressArray, WordArray, PaddedLength, StrategyOk;
    var a, b, c, d := AddressWord(v.app), SizeWord(128), SizeWord(160 + p), SizeWord(192 + p + 32 * n);
    var e, f, g := Counted(v.strategy), AddressArray(v.tokens), WordArray(v.amounts);
    FourParts(args, a, 32, b, 64, c, 96, d);
    FourParts(args, a + b + c + d, 128, e, 160 + p, f, 192 + p + 32 * n, g);
    WholeStands(args, a + b + c + d + e + f + g);
    assert |a + b + c + d + e + f + g| == 224 + p + 64 * n;
  }

  /** ship is decoded exactly from the canonical encoding of its arguments. */
  lemma ShipIsExact(args: seq<u8>, v: Ship)
    requires |args| < 0x1000_0000
    ensures ShipAt(args) == Some(v) <==> ShipOk(v) && args == ShipArgs(v)
  {
    ShipStrategies(v);
    hide *;
    if ShipAt(args) == Some(v) {
      ShipFound(args, v);
      ReadsMakeOk(args, v);
    }
    if ShipOk(v) {
      ShipReadsWhatLies(args, v, PaddedLength(|v.strategy|), |v.tokens|);
      ShipLiesInFull(args, v, PaddedLength(|v.strategy|), |v.tokens|);
      if args == ShipArgs(v) { ShipFinds(args, v); }
    }
  }

  lemma ShipStrategies(v: Ship)
    ensures ShipOk(v) ==> StrategyOk(v.app, v.strategy)
  {}
}
