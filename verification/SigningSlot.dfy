/** The one transaction slot. */
module SigningSlot {
  import opened Bytes
  import opened EthTx

  // The one transaction slot, and every task that signs through it, as interleaved
  // atomic steps: any number of tasks, in any order, with any answers from the user,
  // the wallet and the screen.

  const PAYLOAD_CAPACITY := ETH_MAX_DATA + 192

  type Hash = seq<u8> -> seq<u8>
  type Path = seq<nat>

  /** The slot after it is cleared. */
  const CLEARED: Tx := Tx(0, [], [], [], [], None, [], [])

  /** What is asked for: the path to sign at and, at the air-gap entrance, the bytes of
      the payload; the cable's requests arrive as fields. */
  datatype Ask = Ask(path: Path, raw: Option<seq<u8>>)

  /** A yes from the user: what the screen showed, and the request it answers. */
  datatype Approval = Approval(tx: Tx, ask: Ask)

  /** A signature given out: the digest signed, the path signed at, and which approval
      it answers. */
  datatype Signature = Signature(digest: seq<u8>, path: Path, approval: nat)

  /** Where a task stands. */
  datatype Pc =
    | Away                                              // not in a signing request
    | Asking(ask: Ask)                                  // checked, about to claim
    | Filling(ask: Ask)                                 // owns the slot and writes it
    | Ready(ask: Ask)                                   // the transaction is complete
    | Showing(ask: Ask, shown: Tx)                      // the screen renders the slot
    | Approved(ask: Ask, shown: Tx, approval: nat)      // the user said yes
    | Hashed(ask: Ask, shown: Tx, approval: nat, digest: seq<u8>)
    | Leaving                                           // about to clear the slot
    | Cleared                                           // about to give it back

  predicate Owns(pc: Pc) { !pc.Away? && !pc.Asking? }

  /** What a task does in one step. */
  datatype Action =
    | Request(ask: Ask)       // a request passed the checks before the claim
    | Claim                   // the atomic exchange on the busy flag
    | Write(tx: Tx)           // one of the writes that fill the slot
    | Complete                // the last of them
    | Show                    // decodable, or blind signing is on; address derived
    | Approve                 // the user confirms
    | DigestTx                // the wallet has not moved; the digest is taken
    | Sign                    // the wallet signs the digest at the path
    | Refuse                  // any failure or refusal along the way
    | Clear                   // zero the slot
    | Release                 // give the flag back

  datatype System = System(slot: Tx, busy: bool, tasks: seq<Pc>, approvals: seq<Approval>, signatures: seq<Signature>,
                           claims: nat, releases: nat)

  function DigestOf(keccak: Hash, tx: Tx): Option<seq<u8>> {
    if !Held(tx) then None
    else
      var payload :- Encoded(tx, PAYLOAD_CAPACITY);
      Some(keccak(payload))
  }

  /** The system after task t does one thing; None when it is not at that point. */
  function Next(keccak: Hash, s: System, t: nat, a: Action): Option<System> {
    if t >= |s.tasks| then None
    else
      var pc := s.tasks[t];
      match a
      case Request(ask) => if pc.Away? then Some(s.(tasks := s.tasks[t := Asking(ask)])) else None
      case Claim =>
        if !pc.Asking? then None
        else if s.busy then Some(s.(tasks := s.tasks[t := Away]))
        else Some(s.(busy := true, slot := CLEARED, claims := s.claims + 1, tasks := s.tasks[t := Filling(pc.ask)]))
      case Write(tx) => if pc.Filling? then Some(s.(slot := tx)) else None
      case Complete =>
        if pc.Filling? && (pc.ask.raw.Some? ==> FromRlp(pc.ask.raw.value) == Some(s.slot))
        then Some(s.(tasks := s.tasks[t := Ready(pc.ask)])) else None
      case Show => if pc.Ready? then Some(s.(tasks := s.tasks[t := Showing(pc.ask, s.slot)])) else None
      case Approve =>
        if !pc.Showing? then None
        else Some(s.(approvals := s.approvals + [Approval(pc.shown, pc.ask)],
                     tasks := s.tasks[t := Approved(pc.ask, pc.shown, |s.approvals|)]))
      case DigestTx =>
        if !pc.Approved? then None
        else
          var digest := DigestOf(keccak, s.slot);
          Some(s.(tasks := s.tasks[t := if digest.Some? then Hashed(pc.ask, pc.shown, pc.approval, digest.value) else Leaving]))
      case Sign =>
        if !pc.Hashed? then None
        else Some(s.(signatures := s.signatures + [Signature(pc.digest, pc.ask.path, pc.approval)], tasks := s.tasks[t := Leaving]))
      case Refuse =>
        if pc.Asking? then Some(s.(tasks := s.tasks[t := Away]))
        else if Owns(pc) && !pc.Leaving? && !pc.Cleared? then Some(s.(tasks := s.tasks[t := Leaving]))
        else None
      case Clear => if pc.Leaving? then Some(s.(slot := CLEARED, tasks := s.tasks[t := Cleared])) else None
      case Release =>
        if pc.Cleared? then Some(s.(busy := false, releases := s.releases + 1, tasks := s.tasks[t := Away])) else None
  }

  /** A schedule: which task acts, and what it does. Steps that are not enabled are skipped. */
  type Schedule = seq<(nat, Action)>

  function Run(keccak: Hash, s: System, schedule: Schedule): System {
    if |schedule| == 0 then s
    else
      Act(keccak, Run(keccak, s, schedule[..|schedule| - 1]), schedule[|schedule| - 1])
  }

  function Act(keccak: Hash, s: System, step: (nat, Action)): System {
    var after := Next(keccak, s, step.0, step.1);
    if after.Some? then after.value else s
  }

  function Start(tasks: nat): System {
    System(CLEARED, false, seq(tasks, i => Away), [], [], 0, 0)
  }

  // -------------------------------------------------------------- invariants

  /** What must hold of a task that owns the slot. */
  ghost predicate TaskOk(keccak: Hash, s: System, pc: Pc) {
    match pc
    case Ready(ask) => Parsed(ask, s.slot)
    case Showing(ask, shown) => s.slot == shown && Parsed(ask, shown)
    case Approved(ask, shown, approval) =>
      s.slot == shown && approval < |s.approvals| && s.approvals[approval] == Approval(shown, ask) && Unused(s, approval)
      && Parsed(ask, shown)
    case Hashed(ask, shown, approval, digest) =>
      s.slot == shown && approval < |s.approvals| && s.approvals[approval] == Approval(shown, ask) && Unused(s, approval)
      && Parsed(ask, shown) && DigestOf(keccak, shown) == Some(digest)
    case Cleared => s.slot == CLEARED
    case _ => true
  }

  /** A payload that came as bytes was read canonically, or not at all. */
  predicate Parsed(ask: Ask, tx: Tx) {
    ask.raw.Some? ==> FromRlp(ask.raw.value) == Some(tx)
  }

  ghost predicate Unused(s: System, approval: nat) {
    forall k | 0 <= k < |s.signatures| :: s.signatures[k].approval != approval
  }

  /** A signature is over the encoding of what was approved, at the path approved; and
      where the request came as bytes, over those very bytes. */
  ghost predicate SignatureOk(keccak: Hash, s: System, sig: Signature) {
    && sig.approval < |s.approvals|
    && var approved := s.approvals[sig.approval];
    && sig.path == approved.ask.path
    && DigestOf(keccak, approved.tx) == Some(sig.digest)
    && (approved.ask.raw.Some? ==> sig.digest == keccak(approved.ask.raw.value))
  }

  /** What is read from bytes is hashed as those bytes. */
  lemma ReadIsHashed(keccak: Hash, raw: seq<u8>, tx: Tx)
    requires FromRlp(raw) == Some(tx)
    ensures DigestOf(keccak, tx) == Some(keccak(raw))
  {
    ReaderAcceptsExactlyTheImage(raw, tx);
    hide Encoded, FromRlp;
  }

  ghost predicate OneOwner(s: System) {
    forall i, j | 0 <= i < |s.tasks| && 0 <= j < |s.tasks| && Owns(s.tasks[i]) && Owns(s.tasks[j]) :: i == j
  }

  ghost predicate SomeOwner(s: System) { exists i :: 0 <= i < |s.tasks| && Owns(s.tasks[i]) }

  ghost predicate Inv(keccak: Hash, s: System) {
    && OneOwner(s)
    && (s.busy <==> SomeOwner(s))
    && s.claims == s.releases + (if s.busy then 1 else 0)
    && (!s.busy ==> s.slot == CLEARED)
    && (forall i | 0 <= i < |s.tasks| :: TaskOk(keccak, s, s.tasks[i]))
    && (forall k | 0 <= k < |s.signatures| :: SignatureOk(keccak, s, s.signatures[k]))
    && (forall j, k | 0 <= j < k < |s.signatures| :: s.signatures[j].approval != s.signatures[k].approval)
  }

  lemma StartIsOk(keccak: Hash, tasks: nat)
    ensures Inv(keccak, Start(tasks))
  {}

  /** Nobody else is where the slot matters. */
  lemma OthersAreAway(keccak: Hash, s: System, t: nat, i: nat)
    requires Inv(keccak, s) && t < |s.tasks| && i < |s.tasks| && i != t && Owns(s.tasks[t])
    ensures !Owns(s.tasks[i])
  {}

  lemma OwnerMakesBusy(s: System, t: nat)
    requires t < |s.tasks| && Owns(s.tasks[t])
    ensures SomeOwner(s)
  {}

  /** The owner after a step by the owner: its own new place decides. */
  lemma OwnershipAfter(keccak: Hash, s: System, t: nat, pc: Pc, after: System)
    requires Inv(keccak, s) && t < |s.tasks| && after.tasks == s.tasks[t := pc]
    requires Owns(s.tasks[t]) || !s.busy || !Owns(pc)
    ensures OneOwner(after)
    ensures SomeOwner(after) <==> (Owns(pc) || (s.busy && !Owns(s.tasks[t])))
  {
    if Owns(pc) {
      assert Owns(after.tasks[t]);
      forall i | 0 <= i < |s.tasks| && i != t ensures !Owns(after.tasks[i]) {
        if Owns(s.tasks[t]) { OthersAreAway(keccak, s, t, i); }
      }
    } else if s.busy && !Owns(s.tasks[t]) {
      var o :| 0 <= o < |s.tasks| && Owns(s.tasks[o]);
      assert Owns(after.tasks[o]);
    }
  }

  /** What the others need survives a step of the owner, because they need nothing. */
  lemma OthersStayOk(keccak: Hash, s: System, t: nat, after: System)
    requires Inv(keccak, s) && t < |s.tasks| && Owns(s.tasks[t])
    requires |after.tasks| == |s.tasks| && forall i | 0 <= i < |s.tasks| && i != t :: after.tasks[i] == s.tasks[i]
    ensures forall i | 0 <= i < |s.tasks| && i != t :: TaskOk(keccak, after, after.tasks[i])
  {
    forall i | 0 <= i < |s.tasks| && i != t ensures TaskOk(keccak, after, after.tasks[i]) {
      OthersAreAway(keccak, s, t, i);
    }
  }

  lemma StepKeepsOwnership(keccak: Hash, s: System, t: nat, a: Action)
    requires Inv(keccak, s) && Next(keccak, s, t, a).Some?
    ensures var n := Next(keccak, s, t, a).value;
      OneOwner(n) && (n.busy <==> SomeOwner(n)) && n.claims == n.releases + (if n.busy then 1 else 0)
  {
    hide TaskOk, SignatureOk, DigestOf, OneOwner, SomeOwner, FromRlp;
    var n := Next(keccak, s, t, a).value;
    if Owns(s.tasks[t]) { OwnerMakesBusy(s, t); }
    if a.Write? {
      OwnershipAfter(keccak, s, t, s.tasks[t], n);
    } else {
      OwnershipAfter(keccak, s, t, n.tasks[t], n);
    }
  }

  lemma StepKeepsTasks(keccak: Hash, s: System, t: nat, a: Action)
    requires Inv(keccak, s) && Next(keccak, s, t, a).Some?
    ensures var n := Next(keccak, s, t, a).value;
      (!n.busy ==> n.slot == CLEARED) && forall i | 0 <= i < |n.tasks| :: TaskOk(keccak, n, n.tasks[i])
  {
    hide SignatureOk, DigestOf, OneOwner, SomeOwner, FromRlp;
    var n := Next(keccak, s, t, a).value;
    if Owns(s.tasks[t]) {
      OwnerMakesBusy(s, t);
      OthersStayOk(keccak, s, t, n);
      assert TaskOk(keccak, s, s.tasks[t]);
      assert TaskOk(keccak, n, n.tasks[t]) by {
        if a.Approve? { NewApprovalIsUnused(keccak, s); }
      }
    } else if a.Claim? && !s.busy {
      forall i | 0 <= i < |n.tasks| ensures TaskOk(keccak, n, n.tasks[i]) { if i != t { NobodyOwns(s, i); } }
    } else {
      forall i | 0 <= i < |n.tasks| ensures TaskOk(keccak, n, n.tasks[i]) { assert TaskOk(keccak, s, s.tasks[i]); }
    }
  }

  lemma NobodyOwns(s: System, i: nat)
    requires !SomeOwner(s) && i < |s.tasks|
    ensures !Owns(s.tasks[i])
  {}

  lemma NewApprovalIsUnused(keccak: Hash, s: System)
    requires Inv(keccak, s)
    ensures Unused(s, |s.approvals|)
  {
    forall k | 0 <= k < |s.signatures| ensures s.signatures[k].approval != |s.approvals| {
      assert SignatureOk(keccak, s, s.signatures[k]);
    }
  }

  lemma StepKeepsSignatures(keccak: Hash, s: System, t: nat, a: Action)
    requires Inv(keccak, s) && Next(keccak, s, t, a).Some?
    ensures var n := Next(keccak, s, t, a).value;
      (forall k | 0 <= k < |n.signatures| :: SignatureOk(keccak, n, n.signatures[k]))
      && (forall j, k | 0 <= j < k < |n.signatures| :: n.signatures[j].approval != n.signatures[k].approval)
  {
    hide DigestOf, OneOwner, SomeOwner, FromRlp;
    var n := Next(keccak, s, t, a).value;
    assert TaskOk(keccak, s, s.tasks[t]);
    if a.Sign? && s.tasks[t].ask.raw.Some? { ReadIsHashed(keccak, s.tasks[t].ask.raw.value, s.tasks[t].shown); }
    forall k | 0 <= k < |n.signatures| ensures SignatureOk(keccak, n, n.signatures[k]) {
      if k < |s.signatures| { assert SignatureOk(keccak, s, s.signatures[k]); }
    }
  }

  /** Every step of every task keeps the invariant. */
  lemma StepKeepsInv(keccak: Hash, s: System, t: nat, a: Action)
    requires Inv(keccak, s) && Next(keccak, s, t, a).Some?
    ensures Inv(keccak, Next(keccak, s, t, a).value)
  {
    StepKeepsOwnership(keccak, s, t, a);
    StepKeepsTasks(keccak, s, t, a);
    StepKeepsSignatures(keccak, s, t, a);
    hide Next, TaskOk, SignatureOk, OneOwner, SomeOwner;
  }

  lemma {:induction false} RunKeepsInv(keccak: Hash, s: System, schedule: Schedule)
    requires Inv(keccak, s)
    ensures Inv(keccak, Run(keccak, s, schedule))
  {
    hide Inv, Next;
    if |schedule| > 0 {
      var before := Run(keccak, s, schedule[..|schedule| - 1]);
      var step := schedule[|schedule| - 1];
      RunKeepsInv(keccak, s, schedule[..|schedule| - 1]);
      if Next(keccak, before, step.0, step.1).Some? { StepKeepsInv(keccak, before, step.0, step.1); }
    }
  }

  // ------------------------------------------------------------- whole runs

  /** In every interleaving of any number of tasks: at most one owns the slot, and every
      claim but the present owner's has been given back exactly once. */
  lemma OneOwnerAlways(keccak: Hash, tasks: nat, schedule: Schedule)
    ensures var s := Run(keccak, Start(tasks), schedule);
      OneOwner(s) && s.claims == s.releases + (if SomeOwner(s) then 1 else 0)
  {
    StartIsOk(keccak, tasks);
    RunKeepsInv(keccak, Start(tasks), schedule);
  }

  /** From display to hashing the slot holds what was displayed, whatever the others do. */
  lemma SlotUnchangedWhileShown(keccak: Hash, tasks: nat, schedule: Schedule, t: nat)
    ensures var s := Run(keccak, Start(tasks), schedule);
      t < |s.tasks| && (s.tasks[t].Showing? || s.tasks[t].Approved? || s.tasks[t].Hashed?) ==> s.slot == s.tasks[t].shown
  {
    StartIsOk(keccak, tasks);
    RunKeepsInv(keccak, Start(tasks), schedule);
    var s := Run(keccak, Start(tasks), schedule);
    if t < |s.tasks| { assert TaskOk(keccak, s, s.tasks[t]); }
  }

  /** Every signature ever given out is over the encoding of a transaction that the user
      approved, at the path that was approved with it; and no approval is used twice. */
  lemma SignaturesMatchApprovals(keccak: Hash, tasks: nat, schedule: Schedule)
    ensures var s := Run(keccak, Start(tasks), schedule);
      (forall k | 0 <= k < |s.signatures| :: SignatureOk(keccak, s, s.signatures[k]))
      && (forall j, k | 0 <= j < k < |s.signatures| :: s.signatures[j].approval != s.signatures[k].approval)
      && |s.signatures| <= |s.approvals|
  {
    StartIsOk(keccak, tasks);
    RunKeepsInv(keccak, Start(tasks), schedule);
    var s := Run(keccak, Start(tasks), schedule);
    DistinctBelow(seq(|s.signatures|, k requires 0 <= k < |s.signatures| => s.signatures[k].approval), |s.approvals|) by {
      forall k | 0 <= k < |s.signatures| ensures s.signatures[k].approval < |s.approvals| {
        assert SignatureOk(keccak, s, s.signatures[k]);
      }
    }
  }

  /** Distinct numbers below n are at most n. */
  lemma {:induction false} DistinctBelow(x: seq<nat>, n: nat)
    requires forall i | 0 <= i < |x| :: x[i] < n
    requires forall i, j | 0 <= i < j < |x| :: x[i] != x[j]
    ensures |x| <= n
  {
    assert |x| > 0 ==> 0 <= x[0] < n;
    if n > 0 && n - 1 in x {
      var k :| 0 <= k < |x| && x[k] == n - 1;
      var rest := x[..k] + x[k + 1..];
      DistinctBelow(rest, n - 1);
    } else if n > 0 {
      DistinctBelow(x, n - 1);
    }
  }
}
