/** The two ways into the transaction slot. */
module SigningEntrances {
  import opened Bytes
  import opened Cbor
  import CborIo
  import Eip4527
  import Eip4527Io
  import opened EthTx
  import EthTxIo
  import opened SigningSlot

  // The request over the cable and the one over the air gap, return by return. Each is a
  // run of its task through the state machine of the slot, and whichever return it takes,
  // a slot it claimed is given back cleared.

  // ------------------------------------------------------------ the surroundings

  /** m/44'/60'/account'/0/index. */
  datatype HdPath = HdPath(account: nat, index: nat)

  predicate InRange(p: HdPath) { p.account <= 0x7FFF_FFFF && p.index <= 0x7FFF_FFFF }

  datatype Answer = Pending | Approved | Rejected

  /** What a request finds: the session and the lock, the wallet before and after the
      prompt, the user's answer, and what a request's own path fields name. */
  datatype World = World(
    authenticated: bool, unlocked: bool,
    requestPath: seq<u8> -> HdPath,
    decodable: Tx -> bool, blindSigning: bool,
    fingerprint: Option<nat>, address: HdPath -> Option<seq<u8>>,
    answer: Answer, addressAfter: HdPath -> Option<seq<u8>>,
    sign: (HdPath, seq<u8>) -> Option<seq<u8>>)

  datatype Refusal =
    | SessionRequired | Locked | Busy | Malformed | ChainIdRequired | ValueTooLarge | DataTooLarge | PathOutOfRange
    | PathMismatch | Undecodable | NoWallet | TimedOut | Declined | WalletChanged | Unencodable | SignFailed

  datatype Reply = Signed(signature: seq<u8>) | Refused(reason: Refusal)

  // -------------------------------------------------------------------- the slot

  function PathOf(p: HdPath): Path { [44, 60, p.account, 0, p.index] }

  /** The slot, and as a ghost the system it is part of: every step that any task has
      taken so far. */
  class Slot {
    var tx: Tx
    var busy: bool
    const keccak: Hash
    ghost const tasks: nat
    ghost var steps: Schedule

    ghost function System(): System
      reads this
    {
      Run(keccak, Start(tasks), steps)
    }

    ghost predicate Valid()
      reads this
    {
      System().slot == tx && System().busy == busy
    }

    /** Task t is at this point. */
    ghost predicate At(t: nat, pc: Pc)
      reads this
    {
      t < |System().tasks| && System().tasks[t] == pc
    }

    constructor (keccak: Hash, tasks: nat)
      ensures Valid() && System() == Start(tasks) && this.keccak == keccak
    {
      this.keccak, this.tasks := keccak, tasks;
      tx, busy, steps := CLEARED, false, [];
    }

    ghost method Did(t: nat, a: Action)
      modifies this`steps
      ensures steps == old(steps) + [(t, a)] && System() == Act(keccak, old(System()), (t, a))
    {
      steps := steps + [(t, a)];
      assert steps[..|steps| - 1] == old(steps);
    }

    /** The atomic exchange; the slot is zeroed for whoever wins it. */
    method Claim(t: nat, ask: Ask) returns (won: bool)
      requires Valid() && At(t, Away)
      modifies this
      ensures Valid() && old(steps) <= steps && won == !old(busy)
      ensures !won ==> System() == old(System())
      ensures won ==>
        var was := old(System());
        System() == was.(busy := true, slot := CLEARED, claims := was.claims + 1, tasks := was.tasks[t := Filling(ask)])
    {
      ghost var was := System();
      Did(t, Request(ask));
      Did(t, Action.Claim);
      hide Run;
      assert was.tasks[t := Asking(ask)][t := Away] == was.tasks;
      assert was.tasks[t := Asking(ask)][t := Filling(ask)] == was.tasks[t := Filling(ask)];
      won := !busy;
      if won { tx, busy := CLEARED, true; }
    }

    method Fill(t: nat, ask: Ask, next: Tx)
      requires Valid() && At(t, Filling(ask))
      modifies this
      ensures Valid() && old(steps) <= steps && System() == old(System()).(slot := next) && tx == next
    {
      Did(t, Write(next));
      hide Run;
      tx := next;
    }

    /** A step of the owner that leaves the slot as it is. */
    ghost method Moves(t: nat, a: Action, pc: Pc)
      requires Valid() && t < |System().tasks|
      requires Next(keccak, System(), t, a) == Some(System().(tasks := System().tasks[t := pc]))
      modifies this`steps
      ensures Valid() && old(steps) <= steps && System() == old(System()).(tasks := old(System()).tasks[t := pc])
    {
      Did(t, a);
    }

    /** Zero the slot and give it back, from wherever in the request. */
    method Release(t: nat)
      requires Valid() && t < |System().tasks| && Owns(System().tasks[t]) && !System().tasks[t].Cleared?
      modifies this
      ensures Valid() && old(steps) <= steps
      ensures var was := old(System());
        System() == was.(slot := CLEARED, busy := false, releases := was.releases + 1, tasks := was.tasks[t := Away])
    {
      ghost var was := System();
      if !System().tasks[t].Leaving? { Did(t, Refuse); }
      Did(t, Clear);
      Did(t, Action.Release);
      hide Run;
      assert was.tasks[t := Leaving][t := Cleared][t := Away] == was.tasks[t := Away];
      assert was.tasks[t := Cleared][t := Away] == was.tasks[t := Away];
      tx, busy := CLEARED, false;
    }
  }

  /** Whatever the methods here have done, by whichever tasks and in whichever turns, is a
      run of the state machine, so all that holds over its runs holds of the slot. */
  lemma SlotKeepsInv(slot: Slot)
    ensures Inv(slot.keccak, slot.System())
  {
    hide Run, Inv, Start;
    StartIsOk(slot.keccak, slot.tasks);
    RunKeepsInv(slot.keccak, Start(slot.tasks), slot.steps);
  }

  // ------------------------------------------------------- deciding and signing

  /** The signature over a transaction, when everything holds that must. */
  function SignatureFor(keccak: Hash, tx: Tx, path: HdPath, w: World): Option<seq<u8>> {
    if !w.decodable(tx) && !(tx.to.Some? && w.blindSigning) then None
    else if w.address(path).None? || w.answer != Answer.Approved || w.addressAfter(path) != w.address(path) then None
    else
      var digest :- DigestOf(keccak, tx);
      w.sign(path, digest)
  }

  /** Between the two states only task t has moved; nothing was claimed or given back. */
  ghost predicate OnlyMoved(was: System, now: System, t: nat) {
    t < |was.tasks| == |now.tasks| && now.tasks == was.tasks[t := now.tasks[t]]
    && now.slot == was.slot && now.busy == was.busy && now.claims == was.claims && now.releases == was.releases
  }

  /** A signature was given out, and it answers an approval of this transaction at this
      path; or none was. */
  ghost predicate SignedFor(was: System, now: System, keccak: Hash, tx: Tx, ask: Ask, r: Reply) {
    if r.Signed? then
      DigestOf(keccak, tx).Some? && now.approvals == was.approvals + [Approval(tx, ask)]
      && now.signatures == was.signatures + [Signature(DigestOf(keccak, tx).value, ask.path, |was.approvals|)]
    else now.signatures == was.signatures
  }

  /** The digest of the encoding, or nothing when there is none. */
  method HashTx(keccak: Hash, tx: Tx) returns (digest: Option<seq<u8>>)
    ensures digest == DigestOf(keccak, tx)
  {
    hide Encoded;
    if !Held(tx) { return None; }
    var payload := new u8[PAYLOAD_CAPACITY];
    var n := EthTxIo.TxEncode(tx, payload);
    if n == 0 { return None; }
    digest := Some(keccak(payload[..n]));
  }

  /** What was approved is hashed, and the digest signed, where it stands. */
  method HashAndSign(slot: Slot, t: nat, ask: Ask, ghost approval: nat, path: HdPath, w: World) returns (r: Reply)
    requires slot.Valid() && slot.At(t, Pc.Approved(ask, slot.tx, approval)) && ask.path == PathOf(path)
    modifies slot
    ensures slot.Valid() && old(slot.steps) <= slot.steps && OnlyMoved(old(slot.System()), slot.System(), t)
    ensures Owns(slot.System().tasks[t]) && !slot.System().tasks[t].Cleared? && slot.System().approvals == old(slot.System().approvals)
    ensures var digest := DigestOf(slot.keccak, old(slot.tx));
      (if r.Signed? then Some(r.signature) else None) == (if digest.Some? then w.sign(path, digest.value) else None)
      && slot.System().signatures == old(slot.System().signatures)
        + if r.Signed? then [Signature(digest.value, ask.path, approval)] else []
    ensures r.Refused? ==> r.reason == if DigestOf(slot.keccak, old(slot.tx)).None? then Unencodable else SignFailed
  {
    hide Run, DigestOf;
    var digest := HashTx(slot.keccak, slot.tx);
    slot.Did(t, DigestTx);
    if digest.None? { return Refused(Unencodable); }
    var signature := w.sign(path, digest.value);
    if signature.None? { return Refused(SignFailed); }
    slot.Did(t, Sign);
    r := Signed(signature.value);
  }

  /** Show the transaction and wait. The reasons to go no further, in their order: it cannot
      be explained, there is no address, no answer, a no, or another wallet since. */
  method Confirm(slot: Slot, t: nat, ask: Ask, path: HdPath, w: World) returns (refusal: Option<Refusal>)
    requires slot.Valid() && slot.At(t, Ready(ask))
    modifies slot
    ensures slot.Valid() && old(slot.steps) <= slot.steps && OnlyMoved(old(slot.System()), slot.System(), t)
    ensures slot.tx == old(slot.tx) && slot.System().signatures == old(slot.System().signatures)
    ensures Owns(slot.System().tasks[t]) && !slot.System().tasks[t].Cleared?
    ensures var shown := w.decodable(slot.tx) || (slot.tx.to.Some? && w.blindSigning);
      refusal ==
        if !shown then Some(Undecodable)
        else if w.address(path) == None then Some(NoWallet)
        else if w.answer == Pending then Some(TimedOut)
        else if w.answer == Rejected then Some(Declined)
        else if w.addressAfter(path) != w.address(path) then Some(WalletChanged)
        else None
    ensures var was := old(slot.System().approvals); var now := slot.System().approvals;
      now == was || (w.answer == Answer.Approved && now == was + [Approval(slot.tx, ask)])
    ensures refusal.None? ==>
      slot.At(t, Pc.Approved(ask, slot.tx, |old(slot.System().approvals)|)) && slot.System().approvals != old(slot.System().approvals)
  {
    hide Run, DigestOf;
    var tx := slot.tx;
    if !w.decodable(tx) && !(tx.to.Some? && w.blindSigning) { return Some(Undecodable); }
    var from := w.address(path);
    if from.None? { return Some(NoWallet); }
    slot.Moves(t, Show, Showing(ask, tx));
    if w.answer.Pending? { return Some(TimedOut); }
    if w.answer != Answer.Approved { return Some(Declined); }
    slot.Did(t, Approve);
    if w.addressAfter(path) != from { return Some(WalletChanged); }
    refusal := None;
  }

  /** From a complete transaction to a signature: what is shown, approved, hashed and
      signed is the slot. */
  method SignOwnedTx(slot: Slot, t: nat, ask: Ask, path: HdPath, w: World) returns (r: Reply)
    requires slot.Valid() && slot.At(t, Ready(ask)) && ask.path == PathOf(path)
    modifies slot
    ensures slot.Valid() && old(slot.steps) <= slot.steps && OnlyMoved(old(slot.System()), slot.System(), t)
    ensures Owns(slot.System().tasks[t]) && !slot.System().tasks[t].Cleared?
    ensures SignatureFor(slot.keccak, old(slot.tx), path, w) == if r.Signed? then Some(r.signature) else None
    ensures SignedFor(old(slot.System()), slot.System(), slot.keccak, old(slot.tx), ask, r) && r != Refused(Busy)
    ensures r.Signed? ==>
      w.answer == Answer.Approved && w.address(path).Some? && w.addressAfter(path) == w.address(path)
      && (w.decodable(old(slot.tx)) || (old(slot.tx).to.Some? && w.blindSigning))
      && DigestOf(slot.keccak, old(slot.tx)).Some? && w.sign(path, DigestOf(slot.keccak, old(slot.tx)).value) == Some(r.signature)
    ensures (w.answer == Answer.Approved && w.address(path).Some? && w.addressAfter(path) == w.address(path)
             && (w.decodable(old(slot.tx)) || (old(slot.tx).to.Some? && w.blindSigning))
             && DigestOf(slot.keccak, old(slot.tx)).Some? && w.sign(path, DigestOf(slot.keccak, old(slot.tx)).value).Some?)
      ==> r.Signed?
    ensures slot.System().approvals != old(slot.System().approvals) ==> w.answer == Answer.Approved
    ensures w.address(path).Some? && (w.decodable(old(slot.tx)) || (old(slot.tx).to.Some? && w.blindSigning)) ==>
      (r == Refused(TimedOut) <==> w.answer == Pending) && (r == Refused(Declined) <==> w.answer == Rejected)
  {
    hide Run, DigestOf;
    ghost var was := slot.System();
    var refusal := Confirm(slot, t, ask, path, w);
    if refusal.Some? { return Refused(refusal.value); }
    r := HashAndSign(slot, t, ask, |was.approvals|, path, w);
  }

  // ------------------------------------------------------------ over the cable

  predicate IsBytes(it: Option<Item>) { it.Some? && it.value.kind.Bytes? }

  predicate IsUint(it: Option<Item>) { it.Some? && it.value.kind.Uint? }

  /** A quantity under a key; what is too long for one leaves it zero. */
  function QuantityUnder(payload: seq<u8>, key: string): Quantity {
    var it := MapFind(payload, Ascii(key));
    if IsBytes(it) && |Stripped(it.value.data)| <= 32 then Stripped(it.value.data) else []
  }

  function NonceUnder(payload: seq<u8>): Quantity {
    var it := MapFind(payload, Ascii("nonce"));
    if IsUint(it) then ChainBytes(it.value.value) else []
  }

  function RecipientUnder(payload: seq<u8>): Option<seq<u8>> {
    var it := MapFind(payload, Ascii("to"));
    if IsBytes(it) && |it.value.data| == 20 then Some(it.value.data) else None
  }

  /** The transaction that the host's fields describe, or nothing when the chain is
      missing, the value is too large, or the calldata is too large to show. */
  function CableTx(payload: seq<u8>): Option<Tx> {
    var chain := MapFind(payload, Ascii("chainId"));
    if !IsUint(chain) || !ValueFits(payload) || !DataFits(payload) then None
    else Some(Tx(chain.value.value, NonceUnder(payload), QuantityUnder(payload, "maxPriorityFeePerGas"),
                 QuantityUnder(payload, "maxFeePerGas"), QuantityUnder(payload, "gas"), RecipientUnder(payload),
                 QuantityUnder(payload, "value"), DataUnder(payload)))
  }

  method ReadQuantity(payload: seq<u8>, key: string) returns (q: Quantity)
    ensures q == QuantityUnder(payload, key)
  {
    hide MapFind;
    var it := CborIo.CborMapFind(payload, Ascii(key));
    if !IsBytes(it) { return []; }
    var stored := EthTxIo.QuantitySet(it.value.data);
    q := if stored.Some? then stored.value else [];
  }

  lemma ItemIsSmall(payload: seq<u8>, key: seq<u8>)
    ensures MapFind(payload, key).Some? ==> MapFind(payload, key).value.value < TWO_32
  {
    hide MapAt;
  }

  method FillNonce(slot: Slot, t: nat, ask: Ask, payload: seq<u8>)
    requires slot.Valid() && slot.At(t, Filling(ask)) && slot.tx.nonce == []
    modifies slot
    ensures slot.Valid() && old(slot.steps) <= slot.steps && slot.System() == old(slot.System()).(slot := slot.tx)
    ensures slot.tx == old(slot.tx).(nonce := NonceUnder(payload))
  {
    hide Run, MapFind;
    var nonce := CborIo.CborMapFind(payload, Ascii("nonce"));
    if IsUint(nonce) {
      ItemIsSmall(payload, Ascii("nonce"));
      var q := EthTxIo.QuantitySetU64(nonce.value.value);
      slot.Fill(t, ask, slot.tx.(nonce := q));
    }
  }

  method FillRecipient(slot: Slot, t: nat, ask: Ask, payload: seq<u8>)
    requires slot.Valid() && slot.At(t, Filling(ask)) && slot.tx.to == None
    modifies slot
    ensures slot.Valid() && old(slot.steps) <= slot.steps && slot.System() == old(slot.System()).(slot := slot.tx)
    ensures slot.tx == old(slot.tx).(to := RecipientUnder(payload))
  {
    hide Run, MapFind;
    var to := CborIo.CborMapFind(payload, Ascii("to"));
    if IsBytes(to) && |to.value.data| == 20 {
      slot.Fill(t, ask, slot.tx.(to := Some(to.value.data)));
    }
  }

  predicate ValueFits(payload: seq<u8>) {
    var value := MapFind(payload, Ascii("value")); IsBytes(value) ==> |Stripped(value.value.data)| <= 32
  }

  predicate DataFits(payload: seq<u8>) {
    var data := MapFind(payload, Ascii("data")); IsBytes(data) ==> |data.value.data| <= ETH_MAX_DATA
  }

  method FillValue(slot: Slot, t: nat, ask: Ask, payload: seq<u8>) returns (ok: bool)
    requires slot.Valid() && slot.At(t, Filling(ask)) && slot.tx.value == []
    modifies slot
    ensures slot.Valid() && old(slot.steps) <= slot.steps && slot.System() == old(slot.System()).(slot := slot.tx)
    ensures ok == ValueFits(payload) && (ok ==> slot.tx == old(slot.tx).(value := QuantityUnder(payload, "value")))
  {
    hide Run, MapFind;
    var value := CborIo.CborMapFind(payload, Ascii("value"));
    if IsBytes(value) {
      var q := EthTxIo.QuantitySet(value.value.data);
      if q.None? { return false; }
      slot.Fill(t, ask, slot.tx.(value := q.value));
    }
    ok := true;
  }

  function DataUnder(payload: seq<u8>): seq<u8> {
    var data := MapFind(payload, Ascii("data")); if IsBytes(data) then data.value.data else []
  }

  method FillData(slot: Slot, t: nat, ask: Ask, payload: seq<u8>) returns (ok: bool)
    requires slot.Valid() && slot.At(t, Filling(ask)) && slot.tx.data == []
    modifies slot
    ensures slot.Valid() && old(slot.steps) <= slot.steps && slot.System() == old(slot.System()).(slot := slot.tx)
    ensures ok == DataFits(payload) && (ok ==> slot.tx == old(slot.tx).(data := DataUnder(payload)))
  {
    hide Run, MapFind;
    var data := CborIo.CborMapFind(payload, Ascii("data"));
    if IsBytes(data) {
      if |data.value.data| > ETH_MAX_DATA { return false; }
      slot.Fill(t, ask, slot.tx.(data := data.value.data));
    }
    ok := true;
  }

  /** Fill the claimed slot, field by field. */
  method FillFromCable(slot: Slot, t: nat, ask: Ask, payload: seq<u8>) returns (refusal: Option<Refusal>)
    requires slot.Valid() && slot.At(t, Filling(ask)) && slot.tx == CLEARED
    modifies slot
    ensures slot.Valid() && old(slot.steps) <= slot.steps && slot.System() == old(slot.System()).(slot := slot.tx)
    ensures CableTx(payload) == if refusal.None? then Some(slot.tx) else None
    ensures refusal != Some(Busy)
  {
    hide Run, MapFind, Ascii, QuantityUnder, NonceUnder, RecipientUnder, ValueFits, DataFits, DataUnder;
    var chain := CborIo.CborMapFind(payload, Ascii("chainId"));
    if !IsUint(chain) { return Some(ChainIdRequired); }
    slot.Fill(t, ask, slot.tx.(chainId := chain.value.value));
    FillNonce(slot, t, ask, payload);
    FillRecipient(slot, t, ask, payload);
    var ok := FillValue(slot, t, ask, payload);
    if !ok { return Some(ValueTooLarge); }
    FillFees(slot, t, ask, payload);
    ok := FillData(slot, t, ask, payload);
    if !ok { return Some(DataTooLarge); }
    refusal := None;
  }

  /** The fees and the gas limit, which are zero when they are missing or too long. */
  method FillFees(slot: Slot, t: nat, ask: Ask, payload: seq<u8>)
    requires slot.Valid() && slot.At(t, Filling(ask))
    modifies slot
    ensures slot.Valid() && old(slot.steps) <= slot.steps && slot.System() == old(slot.System()).(slot := slot.tx)
    ensures slot.tx == old(slot.tx).(maxFee := QuantityUnder(payload, "maxFeePerGas"),
                                     maxPriorityFee := QuantityUnder(payload, "maxPriorityFeePerGas"),
                                     gasLimit := QuantityUnder(payload, "gas"))
  {
    hide Run, QuantityUnder;
    var fee := ReadQuantity(payload, "maxFeePerGas");
    slot.Fill(t, ask, slot.tx.(maxFee := fee));
    var tip := ReadQuantity(payload, "maxPriorityFeePerGas");
    slot.Fill(t, ask, slot.tx.(maxPriorityFee := tip));
    var gas := ReadQuantity(payload, "gas");
    slot.Fill(t, ask, slot.tx.(gasLimit := gas));
  }

  /** What a whole request does to the slot: every task is where it was; what was claimed
      was given back, once; and what was given back is zero. */
  ghost predicate GivenBack(was: System, now: System) {
    && now.tasks == was.tasks
    && now.claims - was.claims == now.releases - was.releases
    && was.claims <= now.claims <= was.claims + 1
    && (now.claims > was.claims ==> !was.busy && !now.busy && now.slot == CLEARED)
    && (now.claims == was.claims ==> now == was)
  }

  /** Task t claimed the slot since then and still owns it. */
  ghost predicate Owned(was: System, now: System, t: nat) {
    && t < |was.tasks| == |now.tasks| && was.tasks[t] == Away && now.tasks == was.tasks[t := now.tasks[t]]
    && Owns(now.tasks[t]) && !now.tasks[t].Cleared?
    && !was.busy && now.busy && now.claims == was.claims + 1 && now.releases == was.releases
  }

  /** The last thing on every path behind the claim. */
  method GiveBack(slot: Slot, t: nat, ghost was: System)
    requires slot.Valid() && Owned(was, slot.System(), t)
    modifies slot
    ensures slot.Valid() && old(slot.steps) <= slot.steps && GivenBack(was, slot.System())
    ensures slot.System().claims > was.claims && slot.System().approvals == old(slot.System().approvals)
  {
    hide Run;
    slot.Release(t);
    assert slot.System().tasks == was.tasks;
  }

  /** The branch for signTransaction, with all its returns. */
  method SignTransaction(slot: Slot, t: nat, payload: seq<u8>, w: World) returns (r: Reply)
    requires slot.Valid() && slot.At(t, Away)
    modifies slot
    ensures slot.Valid() && old(slot.steps) <= slot.steps && GivenBack(old(slot.System()), slot.System())
    ensures slot.System().claims > old(slot.System().claims) <==> w.authenticated && w.unlocked && !old(slot.busy)
    ensures r == Refused(Busy) <==> w.authenticated && w.unlocked && old(slot.busy)
    ensures var path := w.requestPath(payload);
      (if r.Signed? then Some(r.signature) else None) ==
        if w.authenticated && w.unlocked && !old(slot.busy) && CableTx(payload).Some? && InRange(path)
        then SignatureFor(slot.keccak, CableTx(payload).value, path, w) else None
    ensures r.Signed? ==>
      var path := w.requestPath(payload); var tx := CableTx(payload);
      w.answer == Answer.Approved && w.address(path).Some? && w.addressAfter(path) == w.address(path)
      && tx.Some? && (w.decodable(tx.value) || (tx.value.to.Some? && w.blindSigning))
      && w.authenticated && w.unlocked && path.account < 0x8000_0000 && path.index < 0x8000_0000
      && DigestOf(slot.keccak, tx.value).Some? && w.sign(path, DigestOf(slot.keccak, tx.value).value) == Some(r.signature)
    ensures var path := w.requestPath(payload); var tx := CableTx(payload);
      (w.authenticated && w.unlocked && !old(slot.busy) && path.account < 0x8000_0000 && path.index < 0x8000_0000
       && w.answer == Answer.Approved && w.address(path).Some? && w.addressAfter(path) == w.address(path)
       && tx.Some? && (w.decodable(tx.value) || (tx.value.to.Some? && w.blindSigning))
       && DigestOf(slot.keccak, tx.value).Some? && w.sign(path, DigestOf(slot.keccak, tx.value).value).Some?)
      ==> r.Signed?
    ensures slot.System().approvals != old(slot.System().approvals) ==> w.answer == Answer.Approved
    ensures w.authenticated && w.unlocked && !old(slot.busy) && CableTx(payload).Some? && InRange(w.requestPath(payload)) ==>
      var path := w.requestPath(payload); var tx := CableTx(payload).value;
      w.address(path).Some? && (w.decodable(tx) || (tx.to.Some? && w.blindSigning)) ==>
        (r == Refused(TimedOut) <==> w.answer == Pending) && (r == Refused(Declined) <==> w.answer == Rejected)
  {
    hide Run, CableTx, SignatureFor, SignedFor;
    ghost var was := slot.System();
    if !w.authenticated { return Refused(SessionRequired); }
    if !w.unlocked { return Refused(Locked); }
    var path := w.requestPath(payload);
    var ask := Ask(PathOf(path), None);
    var won := slot.Claim(t, ask);
    if !won { return Refused(Busy); }
    var refusal := FillFromCable(slot, t, ask, payload);
    if refusal.Some? {
      GiveBack(slot, t, was);
      return Refused(refusal.value);
    }
    if !InRange(path) {
      GiveBack(slot, t, was);
      return Refused(PathOutOfRange);
    }
    slot.Moves(t, Complete, Ready(ask));
    r := SignOwnedTx(slot, t, ask, path, w);
    GiveBack(slot, t, was);
  }

  // ------------------------------------------------------------ over the air gap

  const TYPED_TRANSACTION := 4

  predicate ComponentFits(c: Eip4527.Component, i: nat) { !c.wildcard && c.hardened == (i < 3) }

  /** Only paths of the one shape have a place in the structure. */
  function HdPathOf(kp: Eip4527.Keypath): Option<HdPath> {
    if |kp.components| != 5 || exists i | 0 <= i < 5 :: !ComponentFits(kp.components[i], i) then None
    else if kp.components[0].index != 44 || kp.components[1].index != 60 || kp.components[3].index != 0 then None
    else
      var p := HdPath(kp.components[2].index, kp.components[4].index);
      if InRange(p) then Some(p) else None
  }

  /** m/44'/60'/account'/0/index with both numbers below 2^31, and no other path. */
  lemma OneShapeOnly(kp: Eip4527.Keypath)
    ensures var c := kp.components;
      HdPathOf(kp).Some? <==>
        |c| == 5 && (forall i | 0 <= i < 5 :: !c[i].wildcard)
        && c[0].hardened && c[1].hardened && c[2].hardened && !c[3].hardened && !c[4].hardened
        && c[0].index == 44 && c[1].index == 60 && c[3].index == 0
        && c[2].index < 0x8000_0000 && c[4].index < 0x8000_0000
    ensures HdPathOf(kp).Some? ==>
      PathOf(HdPathOf(kp).value) == [44, 60, kp.components[2].index, 0, kp.components[4].index]
  {
    var c := kp.components;
    if |c| == 5 {
      assert ComponentFits(c[0], 0) <==> !c[0].wildcard && c[0].hardened;
      assert ComponentFits(c[1], 1) <==> !c[1].wildcard && c[1].hardened;
      assert ComponentFits(c[2], 2) <==> !c[2].wildcard && c[2].hardened;
      assert ComponentFits(c[3], 3) <==> !c[3].wildcard && !c[3].hardened;
      assert ComponentFits(c[4], 4) <==> !c[4].wildcard && !c[4].hardened;
    }
  }

  method KeypathToHdpath(kp: Eip4527.Keypath) returns (p: Option<HdPath>)
    ensures p == HdPathOf(kp)
  {
    if |kp.components| != 5 { return None; }
    var i := 0;
    while i < 5
      invariant 0 <= i <= 5 && forall j | 0 <= j < i :: ComponentFits(kp.components[j], j)
    {
      if !ComponentFits(kp.components[i], i) { return None; }
      i := i + 1;
    }
    if kp.components[0].index != 44 || kp.components[1].index != 60 || kp.components[3].index != 0 { return None; }
    var path := HdPath(kp.components[2].index, kp.components[4].index);
    if !InRange(path) { return None; }
    p := Some(path);
  }

  /** What is checked before the slot is claimed: the path, when all of it holds. */
  function Admitted(req: Eip4527Io.Request, w: World): Option<HdPath> {
    if !w.unlocked || req.requestId.None? || req.dataType != TYPED_TRANSACTION then None
    else
      var path :- HdPathOf(req.path);
      if (req.path.fingerprint.Some? && w.fingerprint != req.path.fingerprint) || req.address.None? || w.address(path) != req.address
      then None else Some(path)
  }

  /** What it takes to be admitted: an unlocked device, an id to answer, a transaction, a
      path of the one shape, the fingerprint of this seed if one is named, and the address
      that is derived here. */
  lemma AdmittedMeans(req: Eip4527Io.Request, w: World)
    ensures Admitted(req, w).Some? <==>
      w.unlocked && req.requestId.Some? && req.dataType == 4 && HdPathOf(req.path).Some?
      && (req.path.fingerprint == None || req.path.fingerprint == w.fingerprint)
      && req.address.Some? && w.address(HdPathOf(req.path).value) == req.address
    ensures Admitted(req, w).Some? ==> Admitted(req, w) == HdPathOf(req.path)
  {
    hide HdPathOf;
  }

  method Admit(req: Eip4527Io.Request, w: World) returns (path: Option<HdPath>, refusal: Refusal)
    ensures path == Admitted(req, w) && refusal != Busy
  {
    hide HdPathOf;
    if !w.unlocked { return None, Locked; }
    if req.requestId.None? || req.dataType != TYPED_TRANSACTION { return None, Malformed; }
    path := KeypathToHdpath(req.path);
    if path.None? { return None, Malformed; }
    if req.path.fingerprint.Some? {
      if w.fingerprint.None? { return None, NoWallet; }
      if w.fingerprint != req.path.fingerprint { return None, PathMismatch; }
    }
    if req.address.None? { return None, Malformed; }
    var derived := w.address(path.value);
    if derived.None? { return None, NoWallet; }
    if derived != req.address { return None, PathMismatch; }
    refusal := Malformed;
  }

  /** The transaction inside a scanned request: read canonically, and naming the chain
      that the request names. */
  function ScannedTx(req: Eip4527Io.Request): Option<Tx> {
    var tx :- FromRlp(req.signData);
    if tx.chainId == req.chainId then Some(tx) else None
  }

  /** The claimed slot takes the scanned transaction, or is given back. */
  method SignScanned(slot: Slot, t: nat, req: Eip4527Io.Request, path: HdPath, w: World, ghost was: System) returns (r: Reply)
    requires slot.Valid() && slot.At(t, Filling(Ask(PathOf(path), Some(req.signData)))) && Owned(was, slot.System(), t)
    modifies slot
    ensures slot.Valid() && old(slot.steps) <= slot.steps && GivenBack(was, slot.System()) && slot.System().claims > was.claims
    ensures (if r.Signed? then Some(r.signature) else None) ==
            if ScannedTx(req).Some? then SignatureFor(slot.keccak, ScannedTx(req).value, path, w) else None
    ensures r.Signed? ==>
      w.answer == Answer.Approved && w.address(path).Some? && w.addressAfter(path) == w.address(path)
      && FromRlp(req.signData).Some? && FromRlp(req.signData).value.chainId == req.chainId
      && var tx := FromRlp(req.signData).value;
      (w.decodable(tx) || (tx.to.Some? && w.blindSigning)) && w.sign(path, slot.keccak(req.signData)) == Some(r.signature)
    ensures var tx := FromRlp(req.signData);
      (w.answer == Answer.Approved && w.address(path).Some? && w.addressAfter(path) == w.address(path)
       && tx.Some? && tx.value.chainId == req.chainId && (w.decodable(tx.value) || (tx.value.to.Some? && w.blindSigning))
       && w.sign(path, slot.keccak(req.signData)).Some?)
      ==> r.Signed?
    ensures slot.System().approvals != old(slot.System().approvals) ==> w.answer == Answer.Approved
    ensures var tx := ScannedTx(req);
      tx.Some? && w.address(path).Some? && (w.decodable(tx.value) || (tx.value.to.Some? && w.blindSigning)) ==>
        (r == Refused(TimedOut) <==> w.answer == Pending) && (r == Refused(Declined) <==> w.answer == Rejected)
    ensures r != Refused(Busy)
  {
    hide Run, SignatureFor, SignedFor, FromRlp, DigestOf;
    var ask := Ask(PathOf(path), Some(req.signData));
    var tx := EthTxIo.TxFromRlp(req.signData);
    if tx.None? {
      GiveBack(slot, t, was);
      return Refused(Malformed);
    }
    slot.Fill(t, ask, tx.value);
    if req.chainId != slot.tx.chainId {
      GiveBack(slot, t, was);
      return Refused(Malformed);
    }
    slot.Moves(t, Complete, Ready(ask));
    ReadIsHashed(slot.keccak, req.signData, tx.value);
    r := SignOwnedTx(slot, t, ask, path, w);
    GiveBack(slot, t, was);
  }

  /** A scanned request, with all its returns. */
  method AirgapSign(slot: Slot, t: nat, req: Eip4527Io.Request, w: World) returns (r: Reply)
    requires slot.Valid() && slot.At(t, Away)
    modifies slot
    ensures slot.Valid() && old(slot.steps) <= slot.steps && GivenBack(old(slot.System()), slot.System())
    ensures slot.System().claims > old(slot.System().claims) <==> Admitted(req, w).Some? && !old(slot.busy)
    ensures r == Refused(Busy) <==> Admitted(req, w).Some? && old(slot.busy)
    ensures (if r.Signed? then Some(r.signature) else None) ==
            if Admitted(req, w).Some? && !old(slot.busy) && ScannedTx(req).Some?
            then SignatureFor(slot.keccak, ScannedTx(req).value, Admitted(req, w).value, w) else None
    ensures r.Signed? ==>
      w.unlocked && req.requestId.Some? && req.dataType == 4 && HdPathOf(req.path).Some?
      && var path := HdPathOf(req.path).value;
      w.answer == Answer.Approved && req.address.Some? && w.address(path) == req.address && w.addressAfter(path) == req.address
      && (req.path.fingerprint == None || req.path.fingerprint == w.fingerprint)
      && FromRlp(req.signData).Some? && FromRlp(req.signData).value.chainId == req.chainId
      && var tx := FromRlp(req.signData).value;
      (w.decodable(tx) || (tx.to.Some? && w.blindSigning)) && w.sign(path, slot.keccak(req.signData)) == Some(r.signature)
    ensures w.unlocked && req.requestId.Some? && req.dataType == 4 && HdPathOf(req.path).Some? && !old(slot.busy) ==>
      var path := HdPathOf(req.path).value; var tx := FromRlp(req.signData);
      (w.answer == Answer.Approved && req.address.Some? && w.address(path) == req.address && w.addressAfter(path) == req.address
       && (req.path.fingerprint == None || req.path.fingerprint == w.fingerprint)
       && tx.Some? && tx.value.chainId == req.chainId && (w.decodable(tx.value) || (tx.value.to.Some? && w.blindSigning))
       && w.sign(path, slot.keccak(req.signData)).Some?)
      ==> r.Signed?
    ensures slot.System().approvals != old(slot.System().approvals) ==> w.answer == Answer.Approved
    ensures var tx := ScannedTx(req);
      Admitted(req, w).Some? && !old(slot.busy) && tx.Some? && (w.decodable(tx.value) || (tx.value.to.Some? && w.blindSigning)) ==>
        (r == Refused(TimedOut) <==> w.answer == Pending) && (r == Refused(Declined) <==> w.answer == Rejected)
  {
    hide Run, Admitted, HdPathOf, SignatureFor, ScannedTx, FromRlp;
    ghost var was := slot.System();
    var path, refusal := Admit(req, w);
    AdmittedMeans(req, w);
    if path.None? { return Refused(refusal); }
    var ask := Ask(PathOf(path.value), Some(req.signData));
    var won := slot.Claim(t, ask);
    if !won { return Refused(Busy); }
    r := SignScanned(slot, t, req, path.value, w, was);
  }
}
