/** The PIN counter and the wipe, under power cuts. */
module PinWipe {
  import opened Bytes

  // The PIN counter, the retired verifier's migration and the device wipe, when power
  // can be cut before any write to flash. Each operation runs with a supply of writes;
  // when the supply is used up the power is gone and nothing further happens. Flash may
  // also refuse a write while the power stays on: of the attempt counter, of the vault, or
  // of the wipe marker. The firmware goes on all the same, and what is promised then is
  // stated with a count of those times.

  const PIN_MAX_ATTEMPTS := 3
  const PIN_MIN_LENGTH := 4
  const PIN_MAX_LENGTH := 8

  type Pin = string

  /** Four to eight decimal digits. */
  predicate IsPin(pin: Pin) { 4 <= |pin| <= 8 && forall i | 0 <= i < |pin| :: '0' <= pin[i] <= '9' }

  method IsValidFormat(pin: Pin) returns (ok: bool)
    ensures ok <==> IsPin(pin)
  {
    if |pin| < PIN_MIN_LENGTH || |pin| > PIN_MAX_LENGTH { return false; }
    var i := 0;
    while i < |pin|
      invariant 0 <= i <= |pin| && forall j | 0 <= j < i :: '0' <= pin[j] <= '9'
    {
      if pin[i] < '0' || pin[i] > '9' { return false; }
      i := i + 1;
    }
    ok := true;
  }

  /** What the person holding the device, the power supply, or the flash does next. A cut
      comes before the write numbered `power`, counted from 0; `refused` says that the
      attempt counter cannot be written meanwhile, and `denied` at which counts of writes
      left the vault cannot. */
  datatype Event =
    | Start(power: nat, chance: Chance)
    | Guess(pin: Pin, refused: bool, denied: set<nat>, power: nat, chance: Chance)
    | Change(pin: Pin, newPin: Pin, refused: bool, denied: set<nat>, power: nat)
    | SetUp(pin: Pin, refused: bool, denied: set<nat>, power: nat)
    | StoreWallet(power: nat)
    | AskWipe(power: nat, chance: Chance)

  /** What is left open about erasing: which entry of a namespace goes first, what a
      half-erased partition still mounts as, whether a handle keeps it from being erased,
      and whether flash refuses the marker beforehand. */
  datatype Chance =
    Chance(verifierFirst: bool, counterFirst: bool, markerSurvives: bool, unmountable: bool, busy: bool, unmarked: bool)

  function Least(a: int, b: int): int { if a < b then a else b }

  class Device {
    // ---- flash
    /** The stored attempt counter. */
    var attempts: Option<nat>
    /** The PIN that the retired verifier answers to. */
    var retired: Option<Pin>
    /** The PIN that the vault's verifier answers to. */
    var vault: Option<Pin>
    /** Encrypted mnemonics are stored. */
    var mnemonics: bool
    /** The wipe marker. */
    var marker: bool
    /** The partition does not mount. */
    var torn: bool

    // ---- memory
    var on: bool
    /** The user interface runs: the boot sequence is over. */
    var started: bool
    var remaining: nat
    var verified: bool

    /** Writes left before the power is cut. */
    var power: nat

    /** Flash refuses the attempt counter. */
    var refuses: bool
    /** Flash refuses the vault when so many writes are left. */
    var denied: set<nat>

    /** Comparisons of a PIN since the last success or wipe. */
    ghost var guesses: nat
    /** Those of them that flash refused to charge for. */
    ghost var unspent: nat
    /** A wipe without a marker was begun, and none was completed since. */
    ghost var unguarded: bool

    // ------------------------------------------------------------- invariants

    /** The counter as the next boot will read it. */
    function Stored(): (n: nat)
      reads this
      ensures n <= PIN_MAX_ATTEMPTS
    {
      if attempts.Some? && attempts.value <= PIN_MAX_ATTEMPTS then attempts.value else PIN_MAX_ATTEMPTS
    }

    /** The one PIN that opens the device: the vault's verifier is the authority. */
    function Opener(): Option<Pin>
      reads this
    {
      if vault.Some? then vault else retired
    }

    /** No mnemonics and no PIN. */
    ghost predicate Empty()
      reads this
    {
      !mnemonics && vault.None? && retired.None?
    }

    /** A wipe is complete. */
    ghost predicate Blank()
      reads this
    {
      Empty() && attempts.None? && !marker && !torn
    }

    /** A wipe was begun, or there is nothing left to wipe. */
    ghost predicate Doomed()
      reads this
    {
      marker || torn || Empty()
    }

    /** The attempts that can still be made, now or after the next boot. */
    function Left(): nat
      reads this
    {
      if on && started && remaining > Stored() then remaining else Stored()
    }

    ghost predicate OneVerifier()
      reads this
    {
      vault.None? || retired.None?
    }

    /** A wipe that may erase now: it is marked, or it could not be. */
    ghost predicate UnderWay()
      reads this
    {
      marker || (unguarded && OneVerifier())
    }

    /** Comparisons made and attempts left never add up to more than were allowed and were
        not charged for; mnemonics are never left without their verifier unless a wipe is
        under way or was begun without its marker; and the interface never runs in the
        middle of a marked wipe, nor with two verifiers. */
    ghost predicate Valid()
      reads this
    {
      && guesses + Left() <= PIN_MAX_ATTEMPTS + unspent && unspent <= guesses
      && (on && started ==> remaining <= PIN_MAX_ATTEMPTS && !marker && !torn && OneVerifier())
      && (mnemonics ==> vault.Some? || marker || unguarded)
      && (Opener().None? ==> guesses == 0)
      && (torn ==> !mnemonics && vault.None? && retired.None? && attempts.None? && guesses == 0)
      && (started ==> on)
    }

    /** A new device, or one that an older firmware left behind. */
    constructor (attempts: Option<nat>, retired: Option<Pin>, vault: Option<Pin>, mnemonics: bool)
      requires mnemonics ==> vault.Some?
      ensures Valid() && !on && guesses == 0 && unspent == 0 && !unguarded
      ensures this.attempts == attempts && this.retired == retired && this.vault == vault && this.mnemonics == mnemonics
    {
      this.attempts, this.retired, this.vault, this.mnemonics := attempts, retired, vault, mnemonics;
      marker, torn, on, started, verified := false, false, false, false, false;
      remaining, power, refuses, denied := PIN_MAX_ATTEMPTS, 0, false, {};
      guesses, unspent, unguarded := 0, 0, false;
    }

    // ------------------------------------------------------------------ writes

    /** A write is about to be made: is there still power for it? */
    method Write() returns (alive: bool)
      requires on
      modifies this`power, this`on, this`started
      ensures alive <==> old(power) > 0
      ensures on == alive && (alive ==> started == old(started)) && (!alive ==> !started)
      ensures power == if alive then old(power) - 1 else 0
    {
      alive := power > 0;
      if alive {
        power := power - 1;
      } else {
        on, started := false, false;
      }
    }

    /** The power is cut between two operations. */
    method CutPower()
      requires Valid()
      modifies this`on, this`started
      ensures Valid() && !on
    {
      on, started := false, false;
    }

    /** The vault's one record is written, so that its verifier answers to this PIN. */
    method WriteVault(pin: Pin) returns (alive: bool, ok: bool)
      requires on
      modifies this`power, this`on, this`started, this`vault
      ensures on == alive && (alive ==> started == old(started)) && (!alive ==> !started)
      ensures vault == if ok then Some(pin) else old(vault)
      ensures (alive <==> old(power) > 0) && (alive ==> power == old(power) - 1)
      ensures (ok ==> alive) && (alive && denied == {} ==> ok)
    {
      alive := Write();
      ok := alive && power !in denied;
      if ok { vault := Some(pin); }
    }

    // --------------------------------------------------------------- the PIN

    method PersistAttempts(n: nat) returns (alive: bool)
      requires on && n <= PIN_MAX_ATTEMPTS
      modifies this`power, this`on, this`started, this`attempts
      ensures on == alive && (alive ==> started == old(started)) && (!alive ==> !started)
      ensures alive <==> old(power) > 0
      ensures attempts == if alive && !refuses then Some(n) else old(attempts)
      ensures alive ==> power == old(power) - 1
    {
      alive := Write();
      if alive && !refuses { attempts := Some(n); }
    }

    /** After a PIN was found right: full attempts again, in memory and, unless refused, in flash. */
    method AdoptPin() returns (alive: bool)
      requires on
      modifies this`power, this`on, this`started, this`attempts, this`remaining, this`verified
      ensures on == alive && (alive ==> started == old(started)) && (!alive ==> !started)
      ensures attempts == if alive && !refuses then Some(PIN_MAX_ATTEMPTS) else old(attempts)
      ensures alive <==> old(power) > 0
      ensures remaining == PIN_MAX_ATTEMPTS
      ensures alive ==> remaining == PIN_MAX_ATTEMPTS && verified && power == old(power) - 1
    {
      verified := true;
      remaining := PIN_MAX_ATTEMPTS;
      alive := PersistAttempts(PIN_MAX_ATTEMPTS);
    }

    /** Only the retired key goes: the attempt counter in the same namespace must survive. */
    method EraseRetired() returns (alive: bool)
      requires on
      modifies this`power, this`on, this`started, this`retired
      ensures on == alive && (alive ==> started == old(started)) && (!alive ==> !started)
      ensures retired == if alive then None else old(retired)
      ensures old(retired).None? || old(power) > 0 ==> alive
      ensures alive ==> power >= old(power) - 1
    {
      alive := true;
      if retired.Some? {
        alive := Write();
        if alive { retired := None; }
      }
    }

    /** The vault's verifier is the only one. */
    ghost predicate Moved(pin: Pin)
      reads this
    {
      vault == Some(pin) && retired.None?
    }

    /** Move a device off the retired verifier: the strong verifier is written first, for
        the same PIN, and only then is the old one erased. When the strong one cannot be
        written the old one stays, and the move waits for the next unlock. */
    method Migrate(pin: Pin) returns (alive: bool)
      requires on && Opener() == Some(pin)
      modifies this`power, this`on, this`started, this`retired, this`vault
      ensures on == alive && (alive ==> started == old(started)) && (!alive ==> !started)
      ensures Opener() == Some(pin) && (old(vault).Some? ==> vault == old(vault))
      ensures alive ==> Moved(pin) || (denied != {} && old(vault).None? && vault.None? && retired == old(retired))
      ensures old(power) >= 2 ==> alive && power >= old(power) - 2
    {
      alive := true;
      if retired.None? { return; }
      if vault.None? {
        var ok;
        alive, ok := WriteVault(pin);
        if !ok { return; }
      }
      alive := EraseRetired();
    }

    /** A PIN that was proved correct: the strong verifier first, then the attempt back. */
    method Settle(pin: Pin) returns (alive: bool)
      requires Valid() && on && started && Opener() == Some(pin) && guesses == 0
      modifies this`power, this`on, this`started, this`retired, this`vault, this`attempts, this`remaining, this`verified
      ensures Valid() && on == alive && (alive ==> started)
      ensures Opener() == Some(pin) && (old(vault).Some? ==> vault == old(vault))
      ensures alive ==> remaining == PIN_MAX_ATTEMPTS && verified
      ensures alive ==> Moved(pin) || (denied != {} && old(vault).None? && vault.None? && retired == old(retired))
      ensures refuses ==> attempts == old(attempts)
      ensures alive && !refuses ==> attempts == Some(PIN_MAX_ATTEMPTS)
      ensures !alive ==> attempts == old(attempts)
      ensures remaining >= old(remaining)
      ensures old(power) >= 3 ==> alive && power >= old(power) - 3
    {
      alive := Migrate(pin);
      if !alive { return; }
      alive := AdoptPin();
    }

    /** Charge for one comparison. */
    method Spend() returns (alive: bool)
      requires Valid() && on && started && remaining > 0
      modifies this`power, this`on, this`started, this`attempts, this`remaining
      ensures on == started == alive && (alive <==> old(power) > 0)
      ensures !alive ==> attempts == old(attempts)
      ensures refuses ==> Stored() == old(Stored())
      ensures remaining == old(remaining) - 1 && (alive ==> power == old(power) - 1)
      ensures alive && !refuses ==> attempts == Some(remaining)
      ensures Left() + (if alive && !refuses then 1 else 0) <= old(Left())
      ensures alive ==> remaining < PIN_MAX_ATTEMPTS
    {
      remaining := remaining - 1;
      alive := PersistAttempts(remaining);
    }

    /** After a comparison that was charged for, or that flash refused to charge for. */
    method Conclude(pin: Pin, same: bool) returns (match_: bool)
      requires Valid() && on && started && Opener().Some? && same == (Opener() == Some(pin))
      requires guesses + 1 + Left() <= PIN_MAX_ATTEMPTS + unspent + if refuses then 1 else 0
      modifies this`power, this`on, this`started, this`retired, this`vault, this`attempts, this`remaining, this`verified
      modifies this`guesses, this`unspent
      ensures Valid() && (on ==> started)
      ensures Opener() == old(Opener()) && (old(vault).Some? ==> vault == old(vault))
      ensures match_ <==> same && on
      ensures match_ ==> remaining == PIN_MAX_ATTEMPTS && verified
      ensures match_ ==> Moved(pin) || (denied != {} && old(vault).None? && vault.None? && retired == old(retired))
      ensures !same ==> on && Left() == old(Left()) && retired == old(retired)
      ensures remaining >= old(remaining)
      ensures attempts == if match_ && !refuses then Some(PIN_MAX_ATTEMPTS) else old(attempts)
      ensures same && old(power) >= 3 ==> match_ && power >= old(power) - 3
      ensures if same then guesses == unspent == 0
              else guesses == old(guesses) + 1 && unspent == old(unspent) + if refuses then 1 else 0
      ensures refuses ==> Stored() == old(Stored())
    {
      if same {
        guesses, unspent := 0, 0;
        match_ := Settle(pin);
      } else {
        guesses := guesses + 1;
        if refuses { unspent := unspent + 1; }
        match_ := false;
      }
    }

    /** Check a PIN. The attempt is spent before anything is compared, and the spending is
        durable unless flash refuses it. */
    method Verify(pin: Pin) returns (match_: bool, ghost compared: bool)
      requires Valid() && on && started
      modifies this
      ensures Valid() && (on ==> started) && refuses == old(refuses) && denied == old(denied) && unguarded == old(unguarded)
      ensures Opener() == old(Opener()) && mnemonics == old(mnemonics) && marker == old(marker) && torn == old(torn)
      ensures old(vault).Some? ==> vault == old(vault)
      ensures match_ ==> remaining == PIN_MAX_ATTEMPTS && verified
      ensures match_ ==> Moved(pin) || (denied != {} && old(vault).None? && vault.None? && retired == old(retired))
      ensures match_ <==> IsPin(pin) && old(remaining) > 0 && Opener() == Some(pin) && on
      ensures compared <==> IsPin(pin) && old(remaining) > 0 && old(Opener()).Some? && old(power) > 0
      ensures (match_ ==> compared) && (compared ==> old(Left()) > 0)
      ensures match_ && !refuses ==> attempts == Some(PIN_MAX_ATTEMPTS)
      ensures !match_ ==> remaining >= old(remaining) - 1 && Stored() >= Least(old(remaining) - 1, old(Stored()))
      ensures IsPin(pin) && old(remaining) > 0 && old(Opener()) == Some(pin) && old(power) >= 4 ==>
        match_ && power >= old(power) - 4
      ensures old(Opener()) != Some(pin) || !compared ==>
        Left() + (if compared && !refuses then 1 else 0) <= old(Left()) && retired == old(retired)
      ensures if !compared then guesses == old(guesses) && unspent == old(unspent)
              else if old(Opener()) == Some(pin) then guesses == unspent == 0
              else guesses == old(guesses) + 1 && unspent == old(unspent) + if refuses then 1 else 0
      ensures refuses ==> Stored() == old(Stored())
    {
      match_, compared := false, false;
      var valid := IsValidFormat(pin);
      if !valid { return; }
      if remaining == 0 { return; }
      var alive := Spend();
      if !alive { return; }
      var same: bool;
      if vault.Some? {
        same := vault == Some(pin);
      } else if retired.Some? {
        same := retired == Some(pin);
      } else {
        return;
      }
      compared := true;
      match_ := Conclude(pin, same);
    }

    /** Change the PIN: the vault moves by one atomic write, and only after the old PIN
        was proved; if it cannot be written the PIN is unchanged. */
    method ChangePin(pin: Pin, newPin: Pin) returns (ok: bool)
      requires Valid() && on && started
      modifies this
      ensures Valid() && refuses == old(refuses) && unspent <= old(unspent) + if refuses then 1 else 0
      ensures unguarded == old(unguarded)
      ensures mnemonics == old(mnemonics) && marker == old(marker) && torn == old(torn)
      ensures Opener() == old(Opener()) || (old(Opener()) == Some(pin) && Opener() == Some(newPin) && vault == Some(newPin))
      ensures ok ==> on && old(Opener()) == Some(pin) && Opener() == Some(newPin)
      ensures !ok && on ==> Opener() == old(Opener())
      ensures IsPin(newPin) && IsPin(pin) && old(remaining) > 0 && old(Opener()) == Some(pin) && denied == {} && old(power) >= 7 ==> ok
      ensures Opener() != old(Opener()) ==> IsPin(newPin)
      ensures ok ==> retired.None? && remaining == PIN_MAX_ATTEMPTS && (!refuses ==> attempts == Some(PIN_MAX_ATTEMPTS))
      ensures on ==> started
    {
      ok := false;
      var valid := IsValidFormat(newPin);
      if !valid { return; }
      ghost var compared;
      var same;
      same, compared := Verify(pin);
      if !same { return; }
      ok := MoveTo(newPin);
    }

    /** The vault takes a new PIN, or keeps what there is. */
    method MoveTo(newPin: Pin) returns (ok: bool)
      requires Valid() && on && started && guesses == 0
      modifies this`power, this`on, this`started, this`retired, this`vault, this`attempts, this`remaining, this`verified
      ensures Valid() && (on ==> started)
      ensures (vault == old(vault) && retired == old(retired)) || vault == Some(newPin)
      ensures ok ==> on && vault == Some(newPin) && retired.None? && remaining == PIN_MAX_ATTEMPTS
      ensures denied == {} && old(power) >= 3 ==> ok
      ensures ok && !refuses ==> attempts == Some(PIN_MAX_ATTEMPTS)
      ensures !ok && on ==> vault == old(vault) && retired == old(retired)
    {
      var alive;
      alive, ok := WriteVault(newPin);
      if !ok { return; }
      ok := false;
      alive := EraseRetired();
      if !alive { return; }
      alive := AdoptPin();
      ok := alive;
    }

    /** Set the PIN. A vault that has one keeps it, and the PIN given must be that one; a
        vault without gets this one, whatever a retired verifier answers to. */
    method SetPin(pin: Pin) returns (ok: bool)
      requires Valid() && on && started
      modifies this
      ensures Valid() && unspent <= old(unspent) && unguarded == old(unguarded)
      ensures old(vault).Some? ==> vault == old(vault) && (ok <==> IsPin(pin) && vault == Some(pin) && on)
      ensures old(vault).None? ==> vault.None? || vault == Some(pin)
      ensures vault != old(vault) ==> IsPin(pin)
      ensures vault.None? ==> retired == old(retired)
      ensures mnemonics == old(mnemonics) && marker == old(marker) && torn == old(torn)
      ensures ok ==> Opener() == Some(pin) && retired.None? && remaining == PIN_MAX_ATTEMPTS
      ensures ok && !refuses ==> attempts == Some(PIN_MAX_ATTEMPTS)
      ensures !ok && on ==> vault == old(vault) && retired == old(retired)
      ensures IsPin(pin) && (old(vault) == Some(pin) || (old(vault).None? && denied == {})) && old(power) >= 3 ==> ok
      ensures on ==> started
    {
      ok := false;
      var valid := IsValidFormat(pin);
      if !valid { return; }
      var alive := true;
      if vault.Some? {
        if vault != Some(pin) { return; }
      } else {
        alive, ok := WriteVault(pin);
        if !ok { return; }
        ok := false;
      }
      guesses, unspent := 0, 0;
      alive := EraseRetired();
      if !alive { return; }
      alive := AdoptPin();
      ok := alive;
    }

    // --------------------------------------------------------------- the wipe

    /** Erase the vault's namespace, entry by entry. */
    method WipeWallet(verifierFirst: bool) returns (alive: bool)
      requires Valid() && on && UnderWay() && !torn && !started
      modifies this`power, this`on, this`started, this`vault, this`mnemonics, this`guesses, this`unspent
      ensures Valid() && on == alive && !started && UnderWay()
      ensures alive ==> vault.None? && !mnemonics && guesses == 0 && power == old(power) - 2
      ensures guesses <= old(guesses) && unspent <= old(unspent)
      ensures (mnemonics ==> old(mnemonics)) && (vault == old(vault) || vault.None?)
      ensures alive <==> old(power) >= 2
      ensures old(power) == 1 && verifierFirst ==> vault.None? && mnemonics == old(mnemonics)
    {
      alive := Write();
      if !alive { return; }
      if verifierFirst {
        vault := None;
        if retired.None? { guesses, unspent := 0, 0; }
      } else {
        mnemonics := false;
      }
      alive := Write();
      if !alive { return; }
      vault, mnemonics := None, false;
      guesses, unspent := 0, 0;
    }

    /** Erase the PIN's namespace, entry by entry. */
    method WipePin(counterFirst: bool) returns (alive: bool)
      requires Valid() && on && UnderWay() && !torn && !started && vault.None? && !mnemonics && guesses == 0
      modifies this`power, this`on, this`started, this`attempts, this`retired, this`remaining, this`verified
      ensures Valid() && on == alive && !started
      ensures alive ==> attempts.None? && retired.None?
      ensures old(power) >= 2 ==> alive && power == old(power) - 2
      ensures retired == old(retired) || retired.None?
      ensures old(power) == 1 && counterFirst ==> !alive && attempts.None? && retired == old(retired)
    {
      alive := Write();
      if !alive { return; }
      if counterFirst { attempts := None; } else { retired := None; }
      alive := Write();
      if !alive { return; }
      attempts, retired := None, None;
      remaining := PIN_MAX_ATTEMPTS;
      verified := false;
    }

    /** Erase the partition itself. Cut short, it may or may not mount again, and the
        marker may or may not be on a page that survived. */
    method Scrub(c: Chance) returns (alive: bool)
      requires Valid() && on && !torn && !started && vault.None? && !mnemonics && attempts.None? && retired.None? && guesses == 0
      modifies this`power, this`on, this`started, this`marker, this`torn
      ensures Valid() && on == alive && !started
      ensures alive ==> !torn
      ensures old(power) >= 2 ==> alive && power >= old(power) - 2
      ensures !old(marker) ==> !marker
    {
      alive := true;
      if c.busy { return; }
      alive := Write();
      if !alive { return; }
      marker := marker && c.markerSurvives;
      torn := c.unmountable;
      alive := Write();
      if !alive { return; }
      marker, torn := false, false;
    }

    /** Vault, then PIN, then the partition: at every cut, mnemonics that are left still have
        the counter they had. */
    method EraseEverything(c: Chance) returns (alive: bool)
      requires Valid() && on && UnderWay() && !torn && !started
      modifies this
      ensures Valid() && on == alive && !started && unguarded == old(unguarded)
      ensures old(marker) || old(Empty()) ==> Doomed()
      ensures !old(marker) ==> !marker && (Opener() == old(Opener()) || Opener().None?)
      ensures mnemonics ==> attempts == old(attempts)
      ensures alive ==> !mnemonics && vault.None? && retired.None? && attempts.None? && !torn && guesses == 0
      ensures old(power) >= 6 ==> alive && power >= old(power) - 6
      ensures guesses <= old(guesses) && unspent <= old(unspent)
      ensures old(power) == 1 && c.verifierFirst ==> !alive && vault.None? && mnemonics == old(mnemonics) && marker == old(marker)
      ensures old(power) == 3 && c.counterFirst ==> !alive && attempts.None? && vault.None? && retired == old(retired) && !torn
    {
      alive := WipeWallet(c.verifierFirst);
      if !alive { return; }
      alive := WipePin(c.counterFirst);
      if !alive { return; }
      alive := Scrub(c);
    }

    method ClearMarker() returns (alive: bool)
      requires Valid() && on && !started && !torn && !mnemonics && vault.None? && retired.None? && attempts.None? && guesses == 0
      modifies this`power, this`on, this`started, this`marker
      ensures Valid() && on == alive && !started && Doomed()
      ensures alive ==> Blank()
      ensures old(power) > 0 ==> alive && power == old(power) - 1
    {
      alive := Write();
      if alive { marker := false; }
    }

    /** Wipe the device: the intent is made durable before anything is destroyed. If that
        cannot be, the device is wiped unguarded. */
    method Wipe(c: Chance) returns (done: bool)
      requires Valid() && on && started
      modifies this
      ensures Valid() && (on ==> started)
      ensures (done <==> on) && (old(power) >= 8 ==> done)
      ensures done ==> Blank() && remaining == PIN_MAX_ATTEMPTS && !unguarded
      ensures !c.unmarked && !done ==>
        Doomed() || (mnemonics == old(mnemonics) && vault == old(vault) && retired == old(retired) && attempts == old(attempts))
      ensures c.unmarked && !done ==> Opener() == old(Opener()) || Opener().None?
      ensures old(Empty()) ==> Doomed()
      ensures unguarded ==> old(unguarded) || c.unmarked
      ensures mnemonics ==> attempts == old(attempts)
      ensures guesses <= old(guesses) && unspent <= old(unspent)
      ensures old(power) == 2 && c.verifierFirst ==> !done && vault.None? && mnemonics == old(mnemonics) && marker == !c.unmarked
      ensures old(power) == 4 && c.counterFirst && c.unmarked ==>
        !done && attempts.None? && vault.None? && retired == old(retired) && !marker && !torn
    {
      hide Valid, UnderWay, Stored;
      done := false;
      var alive := Mark(c.unmarked);
      if !alive { return; }
      alive := EraseEverything(c);
      if !alive { return; }
      alive := ClearMarker();
      if !alive { return; }
      Restart();
      done := true;
    }

    /** Record the intent, or go on without. */
    method Mark(refused: bool) returns (alive: bool)
      requires Valid() && on && started
      modifies this`power, this`on, this`started, this`marker, this`unguarded
      ensures Valid() && on == alive && !started && !torn && !old(marker)
      ensures alive ==> UnderWay() && marker == !refused && power == old(power) - 1 && unguarded == (old(unguarded) || refused)
      ensures !alive ==> old(power) == 0 && !marker && unguarded == old(unguarded)
    {
      started := false;
      alive := Write();
      if alive {
        if refused { unguarded := true; } else { marker := true; }
      }
    }

    /** The interface goes on, on a blank device. */
    method Restart()
      requires Valid() && on && Blank()
      modifies this`remaining, this`started, this`unguarded
      ensures Valid() && started && remaining == PIN_MAX_ATTEMPTS && !unguarded
    {
      remaining, started, unguarded := PIN_MAX_ATTEMPTS, true, false;
    }

    // -------------------------------------------------------------- the boot

    /** Mount the flash, and finish any wipe that was begun. */
    method FinishWipe(c: Chance) returns (alive: bool)
      requires Valid() && on && !started
      modifies this
      ensures Valid() && on == alive && !started && guesses <= old(guesses) && unspent <= old(unspent) && unguarded == old(unguarded)
      ensures old(marker) || old(torn) ==> Doomed() && (alive ==> Blank())
      ensures !old(marker) && !old(torn) ==>
        alive && !marker && !torn && attempts == old(attempts) && vault == old(vault) && retired == old(retired)
        && mnemonics == old(mnemonics) && power == old(power)
      ensures alive ==> !marker && !torn
      ensures old(power) >= 8 ==> alive && power >= old(power) - 8
      ensures mnemonics ==> attempts == old(attempts)
    {
      alive := true;
      if torn {
        alive := Write();
        if !alive { return; }
        torn, marker := false, false;
      }
      if marker {
        alive := EraseEverything(c);
        if !alive { return; }
        alive := ClearMarker();
      }
    }

    /** Read the counter, and drop a retired verifier that the vault makes redundant. */
    method ReadCounter() returns (alive: bool)
      requires Valid() && on && !started && !marker && !torn
      modifies this`remaining, this`retired, this`power, this`on, this`started
      ensures Valid() && on == alive == started && (alive ==> remaining == Stored())
      ensures vault.None? ==> alive && power == old(power) && retired == old(retired)
      ensures Opener() == old(Opener()) && (old(retired).None? ==> alive && retired.None?)
      ensures old(power) > 0 ==> alive && power >= old(power) - 1
    {
      remaining := Stored();
      alive := true;
      if vault.Some? {
        alive := EraseRetired();
        if !alive { return; }
      }
      started := true;
    }

    /** All attempts are used up, and only a retired verifier is there to be wiped. */
    ghost predicate OwesWipe()
      reads this
    {
      !marker && !torn && vault.None? && retired.Some? && Stored() == 0
    }

    /** From power-on to the user interface: finish any wipe, read the counter, and begin a
        wipe that was owed and not begun. */
    method Boot(c: Chance)
      requires Valid() && !on
      modifies this
      ensures Valid() && (on <==> started)
      ensures old(Doomed()) ==> Doomed() && (on ==> Empty())
      ensures (old(marker) || old(torn)) && on ==> Blank()
      ensures old(power) >= 17 ==> on
      ensures !c.unmarked ==> Doomed() || (attempts == old(attempts) && Opener() == old(Opener()) && Left() == old(Left()))
      ensures Doomed() || Opener() == old(Opener()) || (c.unmarked && Opener().None?)
      ensures !old(marker) && !old(torn) && old(Stored()) > 0 ==>
        !marker && !torn && attempts == old(attempts) && Opener() == old(Opener()) && mnemonics == old(mnemonics)
      ensures unguarded ==> old(unguarded) || c.unmarked
      ensures on ==> !marker && !torn && remaining == Stored() && (Stored() > 0 || Opener().None?)
      ensures mnemonics ==> attempts == old(attempts)
      ensures guesses <= old(guesses) && unspent <= old(unspent)
      ensures !old(marker) && !old(torn) && old(retired).None? && old(Stored()) > 0 ==>
        on && Stored() == old(Stored()) && vault == old(vault) && retired.None?
      ensures old(OwesWipe()) && old(power) == 4 && c.counterFirst && c.unmarked ==>
        !on && attempts.None? && vault.None? && retired == old(retired) && !marker && !torn
    {
      on, started, verified := true, false, false;
      var alive := FinishWipe(c);
      if !alive { return; }
      alive := ReadCounter();
      if !alive { return; }
      if Opener().Some? && remaining == 0 {
        var done := Wipe(c);
      }
    }

    /** Encrypt and store mnemonics, on a device that is unlocked. */
    method StoreMnemonics()
      requires Valid() && on && started
      modifies this`power, this`on, this`started, this`mnemonics
      ensures Valid() && (on ==> started)
      ensures mnemonics == (old(mnemonics) || (verified && vault.Some? && old(power) > 0))
    {
      if !verified || vault.None? { return; }
      var alive := Write();
      if alive { mnemonics := true; }
    }

    // ----------------------------------------------------------- whole lives

    /** The interface never runs in the middle of a wipe. */
    lemma UpIsWhole()
      requires Valid() && on && started
      ensures !marker && !torn
    {}

    /** The writes there is power for, and what flash refuses meanwhile. */
    method Supply(writes: nat, refused: bool, denied: set<nat>)
      modifies this`power, this`refuses, this`denied
      ensures power == writes && refuses == refused && Valid() == old(Valid()) && Left() == old(Left())
    {
      power, refuses, this.denied := writes, refused, denied;
    }

    /** The attempts that are left both in memory and in flash. */
    function Margin(): nat
      reads this
    {
      if started && remaining < Stored() then remaining else Stored()
    }

    /** A guess at the prompt; one that fails and was the last is followed by the wipe. */
    method GuessAtPrompt(pin: Pin, c: Chance) returns (ghost compared: bool)
      requires Valid() && on && started
      modifies this
      ensures Valid() && (on ==> started)
      ensures Opener() == old(Opener()) || Doomed() || (c.unmarked && Opener().None?)
      ensures old(Doomed()) ==> Doomed()
      ensures on ==> remaining > 0
      ensures unguarded ==> old(unguarded) || c.unmarked
      ensures unspent <= old(unspent) + if old(refuses) then 1 else 0
      ensures compared ==> old(Left()) > 0 && old(Opener()).Some?
      ensures old(Margin()) > (if Settles(pin, old(Opener()), old(refuses), old(power)) then 0 else 1) ==>
        !marker && !torn && Opener() == old(Opener()) && mnemonics == old(mnemonics)
        && Margin() >= (if Settles(pin, old(Opener()), old(refuses), old(power)) then PIN_MAX_ATTEMPTS else old(Margin()) - 1)
      ensures old(Opener()) != Some(pin) && !Doomed() && !c.unmarked ==>
        Left() + (if compared && !old(refuses) then 1 else 0) <= old(Left())
    {
      var same;
      same, compared := Verify(pin);
      if on && !same && remaining == 0 {
        var done := Wipe(c);
      }
    }

    /** One event. A device that is off only takes a start; a failed guess that was the
        last one is followed by the wipe, as the interface does it. */
    method Happens(e: Event) returns (ghost compared: bool)
      requires Valid() && (on ==> started)
      modifies this
      ensures Valid() && (on ==> started)
      ensures Opener() == old(Opener()) || Doomed() || SetsPin(e, Opener()) || (Unmarked(e) && Opener().None?)
      ensures old(Doomed()) ==> Doomed() || SetsPin(e, Opener())
      ensures unspent <= old(unspent) + if Refuses(e) then 1 else 0
      ensures compared ==> e.Guess? && old(Left()) > 0 && old(Opener()).Some? && !old(marker) && !old(torn)
      ensures unguarded ==> old(unguarded) || Unmarked(e)
      ensures !old(marker) && !old(torn) && old(Margin()) > Cost(e, old(Opener())) && (e.Start? || e.Guess?) ==>
        !marker && !torn && Opener() == old(Opener()) && mnemonics == old(mnemonics)
        && Margin() >= old(Margin()) - Cost(e, old(Opener()))
      ensures e.Guess? && old(on) && old(Margin()) > 0 && Cost(e, old(Opener())) == 0 ==> Stored() == PIN_MAX_ATTEMPTS
      ensures Harmless(e, old(Opener())) && !Doomed() ==>
        Left() + (if compared && !Refuses(e) then 1 else 0) <= old(Left()) + if Unmarked(e) then PIN_MAX_ATTEMPTS else 0
    {
      if on { UpIsWhole(); }
      hide Valid, Left, Stored;
      compared := false;
      match e
      case Start(p, c) =>
        if !on {
          Supply(p, false, {});
          Boot(c);
        }
      case Guess(pin, r, v, p, c) =>
        if on {
          Supply(p, r, v);
          compared := GuessAtPrompt(pin, c);
        }
      case Change(pin, newPin, r, v, p) =>
        if on {
          Supply(p, r, v);
          var ok := ChangePin(pin, newPin);
        }
      case SetUp(pin, r, v, p) =>
        if on && Opener().None? {
          Supply(p, r, v);
          var ok := SetPin(pin);
        }
      case StoreWallet(p) =>
        if on {
          Supply(p, false, {});
          StoreMnemonics();
        }
      case AskWipe(p, c) =>
        if on {
          Supply(p, false, {});
          var done := Wipe(c);
        }
    }
  }

  /** The right PIN, with power for all that follows and nothing refused. */
  predicate Settles(pin: Pin, opener: Option<Pin>, refused: bool, power: nat) {
    IsPin(pin) && opener == Some(pin) && !refused && power >= 4
  }

  /** What a start or a guess may cost the owner. */
  function Cost(e: Event, opener: Option<Pin>): nat {
    if e.Guess? && !Settles(e.pin, opener, e.refused, e.power) then 1 else 0
  }

  function Costs(events: seq<Event>, opener: Option<Pin>): nat {
    if |events| == 0 then 0 else Costs(events[..|events| - 1], opener) + Cost(events[|events| - 1], opener)
  }

  /** The event gives the device this PIN. */
  predicate SetsPin(e: Event, pin: Option<Pin>) {
    pin.Some? && ((e.Change? && e.newPin == pin.value) || (e.SetUp? && e.pin == pin.value))
  }

  /** What someone who does not know the PIN can do: turn the device on, and guess wrong. */
  predicate Harmless(e: Event, opener: Option<Pin>) {
    e.Start? || (e.Guess? && opener != Some(e.pin))
  }

  /** Flash refuses the attempt counter during this event. */
  predicate Refuses(e: Event) { (e.Guess? || e.Change? || e.SetUp?) && e.refused }

  /** Flash refuses the marker of a wipe during this event. */
  predicate Unmarked(e: Event) { (e.Start? || e.Guess? || e.AskWipe?) && e.chance.unmarked }

  function UnmarkedWipes(events: seq<Event>): nat {
    if |events| == 0 then 0 else UnmarkedWipes(events[..|events| - 1]) + if Unmarked(events[|events| - 1]) then 1 else 0
  }

  function Refusals(events: seq<Event>): nat {
    if |events| == 0 then 0 else Refusals(events[..|events| - 1]) + if Refuses(events[|events| - 1]) then 1 else 0
  }

  /** Any life of a device, with power cut anywhere: its invariant holds throughout; at
      most three comparisons are made between successes or wipes, and one more for each
      time flash refused the counter; the only PINs that ever open it are the first one
      and those given to it by a change or a set-up; and mnemonics have their verifier or
      the marker of a wipe, unless flash once refused the marker. */
  method LiveThrough(d: Device, events: seq<Event>)
    requires d.Valid() && !d.on && d.unspent == 0 && !d.unguarded
    modifies d
    ensures d.Valid() && d.guesses <= 3 + Refusals(events)
    ensures d.Opener().Some? && d.Opener() != old(d.Opener()) ==>
      d.Doomed() || exists i | 0 <= i < |events| :: SetsPin(events[i], d.Opener())
    ensures d.mnemonics && UnmarkedWipes(events) == 0 ==> d.vault.Some? || d.marker
  {
    ghost var first := d.Opener();
    var k := 0;
    while k < |events|
      invariant 0 <= k <= |events| && d.Valid() && (d.on ==> d.started) && d.unspent <= Refusals(events[..k])
      invariant d.unguarded ==> UnmarkedWipes(events[..k]) > 0
      invariant d.Opener().Some? && d.Opener() != first ==>
        d.Doomed() || exists i | 0 <= i < k :: SetsPin(events[i], d.Opener())
    {
      ghost var compared := d.Happens(events[k]);
      assert events[..k + 1][..k] == events[..k];
      if SetsPin(events[k], d.Opener()) { assert SetsPin(events[k], d.Opener()); }
      k := k + 1;
    }
    assert events[..k] == events;
  }

  /** What is charged for is given back: with fewer wrong or cut-short guesses than there are
      attempts, any number of starts and of right guesses leaves the owner's PIN and
      mnemonics where they are, and no wipe is ever begun. */
  method OwnerKeepsWallet(d: Device, events: seq<Event>)
    requires d.Valid() && !d.on && !d.marker && !d.torn
    requires forall i | 0 <= i < |events| :: events[i].Start? || events[i].Guess?
    requires Costs(events, d.Opener()) < d.Stored()
    modifies d
    ensures d.Valid() && !d.marker && !d.torn && d.Stored() > 0
    ensures d.Opener() == old(d.Opener()) && d.mnemonics == old(d.mnemonics)
  {
    ghost var opener, stored := d.Opener(), d.Stored();
    var k := 0;
    while k < |events|
      invariant 0 <= k <= |events| && d.Valid() && (d.on ==> d.started) && !d.marker && !d.torn
      invariant d.Opener() == opener && d.mnemonics == old(d.mnemonics)
      invariant d.Margin() >= stored - Costs(events[..k], opener)
    {
      CostsGrow(events, k + 1, opener);
      assert events[..k + 1][..k] == events[..k];
      ghost var compared := d.Happens(events[k]);
      k := k + 1;
    }
    assert events[..k] == events;
  }

  lemma {:induction false} CostsGrow(events: seq<Event>, k: nat, opener: Option<Pin>)
    requires k <= |events|
    ensures Costs(events[..k], opener) <= Costs(events, opener)
  {
    if k < |events| {
      CostsGrow(events[..|events| - 1], k, opener);
      assert events[..|events| - 1][..k] == events[..k];
    } else {
      assert events[..k] == events;
    }
  }

  /** Someone who does not know the PIN gets at most three comparisons in all, one more for
      each time flash refused the counter and three for each time it refused the marker,
      however often the power is cut and the device started again. */
  method GuessWithoutKnowing(d: Device, events: seq<Event>) returns (ghost comparisons: nat)
    requires d.Valid() && !d.on && d.guesses == 0
    requires forall i | 0 <= i < |events| :: Harmless(events[i], d.Opener())
    modifies d
    ensures comparisons <= 3 * (1 + UnmarkedWipes(events)) + Refusals(events)
  {
    ghost var first := d.Opener();
    comparisons := 0;
    var k := 0;
    while k < |events|
      invariant 0 <= k <= |events| && d.Valid() && (d.on ==> d.started)
      invariant comparisons <= PIN_MAX_ATTEMPTS * (1 + UnmarkedWipes(events[..k])) + Refusals(events[..k])
      invariant d.Doomed() || d.Opener() == first || d.Opener().None?
      invariant d.Doomed() || comparisons + d.Left() <= PIN_MAX_ATTEMPTS * (1 + UnmarkedWipes(events[..k])) + Refusals(events[..k])
    {
      ghost var compared := d.Happens(events[k]);
      assert events[..k + 1][..k] == events[..k];
      if compared { comparisons := comparisons + 1; }
      k := k + 1;
    }
    assert events[..k] == events;
  }

  /** That count is needed: while flash refuses the counter, any number of wrong PINs is
      compared and the stored attempts stay what they were. */
  method RefusedSpendsAreFree(d: Device, pin: Pin, n: nat, c: Chance) returns (ghost comparisons: nat)
    requires d.Valid() && !d.on && !d.marker && !d.torn && d.retired.None? && d.Stored() > 0
    requires IsPin(pin) && d.vault.Some? && d.vault != Some(pin)
    modifies d
    ensures d.Valid() && comparisons == n && d.Stored() == old(d.Stored()) && d.vault == old(d.vault)
  {
    comparisons := 0;
    var k := 0;
    while k < n
      invariant 0 <= k <= n && comparisons == k
      invariant d.Valid() && !d.on && !d.marker && !d.torn && d.retired.None?
      invariant d.Stored() == old(d.Stored()) && d.vault == old(d.vault)
    {
      d.Boot(c);
      d.Supply(1, true, {});
      ghost var compared;
      var same;
      same, compared := d.Verify(pin);
      comparisons := comparisons + if compared then 1 else 0;
      d.CutPower();
      k := k + 1;
    }
  }

  /** That exception is needed too: a wipe that flash would not mark, cut short, leaves
      mnemonics with neither verifier nor marker. The counter they had is still there. */
  method UnmarkedWipeOrphans(d: Device, c: Chance)
    requires d.Valid() && d.on && d.started && d.mnemonics && c.unmarked && c.verifierFirst
    modifies d
    ensures d.Valid() && d.mnemonics && d.vault.None? && !d.marker && d.attempts == old(d.attempts)
  {
    d.Supply(2, false, {});
    var done := d.Wipe(c);
  }

  /** And so are the three: on a device that never had a vault, such a wipe can take the
      used-up counter and leave the retired verifier to be guessed at again. */
  method UnmarkedWipeRefills(d: Device, c: Chance)
    requires d.Valid() && !d.on && d.OwesWipe()
    requires c.unmarked && c.counterFirst
    modifies d
    ensures d.Valid() && !d.on && d.Opener() == old(d.Opener()) && d.Stored() == PIN_MAX_ATTEMPTS
  {
    d.Supply(4, false, {});
    d.Boot(c);
  }

  /** Once a wipe is begun, no number of interrupted starts brings the device back: the
      first one that reaches the interface finds no mnemonics and no PIN. */
  method StartUntilUp(d: Device, starts: seq<Event>)
    requires d.Valid() && !d.on && d.Doomed()
    requires forall i | 0 <= i < |starts| :: starts[i].Start?
    modifies d
    ensures d.Valid() && d.Doomed()
    ensures d.started ==> d.Empty()
  {
    var k := 0;
    while k < |starts| && !d.on
      invariant 0 <= k <= |starts| && d.Valid() && d.Doomed() && (d.on ==> d.started)
    {
      ghost var compared := d.Happens(starts[k]);
      k := k + 1;
    }
  }
}
