/** The handlers as they are: they check and then update the accounts in place. */
module Program {
  import opened Bytes
  import opened Wrappers
  import opened ProgramState
  import P = ProgramSteps

  datatype Outcome = Done | Failed(error: ProgramError)

  class Program {
    const hash: P.Hash
    var config: Option<Config>
    var rounds: map<RoundKey, Round>
    var commitments: map<(RoundKey, Key), Commitment>
    var auditors: map<Key, Auditor>

    constructor (hash: P.Hash)
      ensures Accounts() == EMPTY && this.hash == hash
    {
      this.hash := hash;
      config := None;
      rounds := map[];
      commitments := map[];
      auditors := map[];
    }

    function Accounts(): State
      reads this
    {
      State(config, rounds, commitments, auditors)
    }

    /** The outcome and the accounts are those of the step. */
    ghost predicate Follows(step: P.Step, before: State, r: Outcome)
      reads this
    {
      match step
      case Ok(s) => r == Done && Accounts() == s
      case Err(e) => r == Failed(e) && Accounts() == before
    }

    method Initialize(now: I64, admin: Key) returns (r: Outcome)
      modifies this
      ensures Follows(P.Initialize(old(Accounts()), now, admin), old(Accounts()), r)
    {
      if config.Some? {
        return Failed(AccountInUse);
      }
      config := Some(Config(admin, PROTOCOL_VERSION, false, DUST_FREE_UNIT, BURNER_TTL_MAX_SECONDS,
                            BURNER_TTL_MIN_SECONDS,
                            BURNER_REGISTRY_CAP_PER_OWNER, MIX_MIN_PARTICIPANTS, MIX_MAX_PARTICIPANTS,
                            MIX_REVEAL_WINDOW_SECONDS, AUDITOR_COSIGN_LAMPORTS, now));
      r := Done;
    }

    method ConfigUpdate(now: I64, signer: Key, field: ConfigField) returns (r: Outcome)
      modifies this
      ensures Follows(P.ConfigUpdate(old(Accounts()), now, signer, field), old(Accounts()), r)
    {
      if config.None? {
        return Failed(AccountMissing);
      }
      var c := config.value;
      if c.admin != signer {
        return Failed(NotAdmin);
      }
      match field {
        case Paused(v) =>
          c := c.(paused := v);
        case DustFreeUnit(v) =>
          if v == 0 {
            return Failed(AmountBelowDustFloor);
          }
          c := c.(dustFreeUnit := v);
        case BurnerTtlMax(v) =>
          if v <= c.burnerTtlMin {
            return Failed(BurnerTtlOutOfRange);
          }
          c := c.(burnerTtlMax := v);
        case BurnerTtlMin(v) =>
          if v >= c.burnerTtlMax {
            return Failed(BurnerTtlOutOfRange);
          }
          c := c.(burnerTtlMin := v);
        case BurnerRegistryCap(v) =>
          if v == 0 {
            return Failed(BurnerCapReached);
          }
          c := c.(burnerRegistryCap := v);
        case MixMinParticipants(v) =>
          if v < 2 {
            return Failed(MixBelowMinimum);
          }
          c := c.(mixMin := v);
        case MixMaxParticipants(v) =>
          if v < c.mixMin {
            return Failed(MixBelowMinimum);
          }
          c := c.(mixMax := v);
        case MixRevealWindow(v) =>
          if v <= 0 {
            return Failed(MixRevealTimeout);
          }
          c := c.(mixRevealWindow := v);
        case AuditorCosignLamports(v) =>
          c := c.(auditorCosignLamports := v);
        case Admin(v) =>
          c := c.(admin := v);
      }
      config := Some(c.(lastUpdated := now));
      r := Done;
    }

    method MixInit(now: I64, host: Key, key: RoundKey, denomination: U64, capacity: U8, window: I64)
      returns (r: Outcome)
      modifies this
      ensures Follows(P.MixInit(old(Accounts()), now, host, key, denomination, capacity, window), old(Accounts()), r)
    {
      if config.None? {
        return Failed(AccountMissing);
      }
      if key in rounds {
        return Failed(AccountInUse);
      }
      if config.value.paused {
        return Failed(ProgramPaused);
      }
      if capacity < MIX_MIN_PARTICIPANTS || capacity > MIX_MAX_PARTICIPANTS {
        return Failed(MixBelowMinimum);
      }
      if denomination == 0 {
        return Failed(MixDenominationMismatch);
      }
      if window <= 0 {
        return Failed(MixRevealTimeout);
      }
      var commitClose := SaturatingAdd(now, window);
      var revealClose := SaturatingAdd(commitClose, config.value.mixRevealWindow);
      rounds := rounds[key := Round(key.mint, denomination, host, capacity, 0, 0, Phase.Commit, now, commitClose,
                                    revealClose, 0)];
      r := Done;
    }

    method MixCommit(now: I64, participant: Key, key: RoundKey, bytes: seq<Byte>) returns (r: Outcome)
      modifies this
      ensures Follows(P.MixCommit(old(Accounts()), now, participant, key, bytes), old(Accounts()), r)
    {
      if config.None? || key !in rounds {
        return Failed(AccountMissing);
      }
      if (key, participant) in commitments {
        return Failed(AccountInUse);
      }
      if config.value.paused {
        return Failed(ProgramPaused);
      }
      var round := rounds[key];
      if round.phase != Phase.Commit || now >= round.commitCloseAt {
        return Failed(MixNotInCommit);
      }
      if round.committed >= round.capacity {
        return Failed(MixRoundFull);
      }
      commitments :=
        commitments[(key, participant) := Commitment(key, participant, bytes, false, Zeros(), round.committed, now, 0)];
      round := round.(committed := Increment(round.committed));
      if round.committed == round.capacity || now >= round.commitCloseAt {
        round := round.(phase := Phase.Reveal);
      }
      rounds := rounds[key := round];
      r := Done;
    }

    method MixReveal(now: I64, participant: Key, key: RoundKey, preimage: seq<Byte>, signal: seq<Byte>)
      returns (r: Outcome)
      modifies this
      ensures Follows(P.MixReveal(hash, old(Accounts()), now, participant, key, preimage, signal), old(Accounts()), r)
    {
      if config.None? || key !in rounds || (key, participant) !in commitments {
        return Failed(AccountMissing);
      }
      if config.value.paused {
        return Failed(ProgramPaused);
      }
      var round, entry := rounds[key], commitments[(key, participant)];
      if round.phase != Phase.Reveal {
        return Failed(MixNotInReveal);
      }
      if now > round.revealCloseAt {
        return Failed(MixRevealTimeout);
      }
      if entry.revealed {
        return Failed(MixAlreadyCommitted);
      }
      if entry.participant != participant {
        return Failed(KeyMismatch);
      }
      if hash(preimage + signal) != entry.commitment {
        return Failed(MixRevealMismatch);
      }
      commitments :=
        commitments[(key, participant) := entry.(revealed := true, revealSignal := signal, revealedAt := now)];
      round := round.(revealed := Increment(round.revealed));
      if round.revealed == round.committed {
        round := round.(phase := Settling);
      }
      rounds := rounds[key := round];
      r := Done;
    }

    method MixSettle(now: I64, signer: Key, key: RoundKey) returns (r: Outcome)
      modifies this
      ensures Follows(P.MixSettle(old(Accounts()), now, signer, key), old(Accounts()), r)
    {
      if config.None? || key !in rounds {
        return Failed(AccountMissing);
      }
      var round := rounds[key];
      if round.host != signer {
        return Failed(WrongHost);
      }
      if config.value.paused {
        return Failed(ProgramPaused);
      }
      match round.phase {
        case Settling =>
          if round.revealed < config.value.mixMin {
            return Failed(MixBelowMinimum);
          }
          round := round.(phase := Settled, settledAt := now);
        case Reveal =>
          if now <= round.revealCloseAt {
            return Failed(MixNotInReveal);
          }
          if round.revealed >= config.value.mixMin {
            round := round.(phase := Settled, settledAt := now);
          } else {
            round := round.(phase := Aborted, settledAt := now);
          }
        case _ =>
          return Failed(MixNotInReveal);
      }
      rounds := rounds[key := round];
      r := Done;
    }

    method AuditorRegister(now: I64, admin: Key, mint: Key, pubkey: seq<Byte>, proofOk: bool, cooldown: I64)
      returns (r: Outcome)
      modifies this
      ensures Follows(P.AuditorRegister(old(Accounts()), now, admin, mint, pubkey, proofOk, cooldown), old(Accounts()),
                      r)
    {
      if config.None? {
        return Failed(AccountMissing);
      }
      if mint in auditors {
        return Failed(AccountInUse);
      }
      if config.value.paused {
        return Failed(ProgramPaused);
      }
      if config.value.admin != admin {
        return Failed(NotAdmin);
      }
      if !proofOk {
        return Failed(ProofRejected);
      }
      auditors := auditors[mint := Auditor(mint, pubkey, now, now, cooldown, admin)];
      r := Done;
    }

    method AuditorRotate(now: I64, admin: Key, mint: Key, pubkey: seq<Byte>, proofOk: bool) returns (r: Outcome)
      modifies this
      ensures Follows(P.AuditorRotate(old(Accounts()), now, admin, mint, pubkey, proofOk), old(Accounts()), r)
    {
      if config.None? || mint !in auditors {
        return Failed(AccountMissing);
      }
      var entry := auditors[mint];
      if entry.admin != admin {
        return Failed(WrongAdmin);
      }
      if config.value.paused {
        return Failed(ProgramPaused);
      }
      if config.value.admin != admin {
        return Failed(NotAdmin);
      }
      var elapsed := SaturatingSub(now, entry.lastRotatedAt);
      if elapsed < entry.cooldown {
        return Failed(AuditorRotationTooSoon);
      }
      if !proofOk {
        return Failed(ProofRejected);
      }
      auditors := auditors[mint := entry.(pubkey := pubkey, lastRotatedAt := now)];
      r := Done;
    }

    /** Dispatch; a run of instructions leaves the accounts of the run of steps. */
    method Execute(e: P.Event) returns (r: Outcome)
      modifies this
      ensures Follows(P.Try(hash, old(Accounts()), e), old(Accounts()), r)
      ensures Accounts() == P.Exec(hash, old(Accounts()), e)
    {
      match e.action {
        case DoInitialize(admin) => r := Initialize(e.now, admin);
        case DoConfigUpdate(signer, field) => r := ConfigUpdate(e.now, signer, field);
        case DoMixInit(host, key, denomination, capacity, window) =>
          r := MixInit(e.now, host, key, denomination, capacity, window);
        case DoMixCommit(participant, key, bytes) => r := MixCommit(e.now, participant, key, bytes);
        case DoMixReveal(participant, key, preimage, signal) =>
          r := MixReveal(e.now, participant, key, preimage, signal);
        case DoMixSettle(signer, key) => r := MixSettle(e.now, signer, key);
        case DoAuditorRegister(admin, mint, pubkey, proofOk, cooldown) =>
          r := AuditorRegister(e.now, admin, mint, pubkey, proofOk, cooldown);
        case DoAuditorRotate(admin, mint, pubkey, proofOk) => r := AuditorRotate(e.now, admin, mint, pubkey, proofOk);
      }
    }

    /** From the empty ledger, any sequence of instructions. */
    method ExecuteAll(events: seq<P.Event>)
      requires Accounts() == EMPTY
      modifies this
      ensures Accounts() == P.After(hash, events)
    {
      for i := 0 to |events|
        invariant Accounts() == P.After(hash, events[..i])
      {
        assert events[..i + 1][..i] == events[..i];
        var r := Execute(events[i]);
      }
      assert events[..|events|] == events;
    }
  }
}
