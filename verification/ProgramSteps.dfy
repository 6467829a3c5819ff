/** The handlers as functions of the accounts: every check in its order, and the accounts they leave behind.
    The clock is the argument `now`; the hash and the verdicts of the proof program are arguments too. */
module ProgramSteps {
  import opened Bytes
  import opened Wrappers
  import opened ProgramState

  type Hash = seq<Byte> -> seq<Byte>

  type Step = Result<State, ProgramError>

  function Initialize(s: State, now: I64, admin: Key): Step {
    if s.config.Some? then Err(AccountInUse)
    else
      Ok(s.(config := Some(Config(admin, PROTOCOL_VERSION, false, DUST_FREE_UNIT, BURNER_TTL_MAX_SECONDS,
                                  BURNER_TTL_MIN_SECONDS,
                                  BURNER_REGISTRY_CAP_PER_OWNER, MIX_MIN_PARTICIPANTS, MIX_MAX_PARTICIPANTS,
                                  MIX_REVEAL_WINDOW_SECONDS, AUDITOR_COSIGN_LAMPORTS, now))))
  }

  function SetField(c: Config, field: ConfigField): Result<Config, ProgramError> {
    match field
    case Paused(v) => Ok(c.(paused := v))
    case DustFreeUnit(v) => if v > 0 then Ok(c.(dustFreeUnit := v)) else Err(AmountBelowDustFloor)
    case BurnerTtlMax(v) => if v > c.burnerTtlMin then Ok(c.(burnerTtlMax := v)) else Err(BurnerTtlOutOfRange)
    case BurnerTtlMin(v) => if v < c.burnerTtlMax then Ok(c.(burnerTtlMin := v)) else Err(BurnerTtlOutOfRange)
    case BurnerRegistryCap(v) => if v > 0 then Ok(c.(burnerRegistryCap := v)) else Err(BurnerCapReached)
    case MixMinParticipants(v) => if v >= 2 then Ok(c.(mixMin := v)) else Err(MixBelowMinimum)
    case MixMaxParticipants(v) => if v >= c.mixMin then Ok(c.(mixMax := v)) else Err(MixBelowMinimum)
    case MixRevealWindow(v) => if v > 0 then Ok(c.(mixRevealWindow := v)) else Err(MixRevealTimeout)
    case AuditorCosignLamports(v) => Ok(c.(auditorCosignLamports := v))
    case Admin(v) => Ok(c.(admin := v))
  }

  /** Not gated by the pause. */
  function ConfigUpdate(s: State, now: I64, signer: Key, field: ConfigField): Step {
    if s.config.None? then Err(AccountMissing)
    else if s.config.value.admin != signer then Err(NotAdmin)
    else
      var c :- SetField(s.config.value, field);
      Ok(s.(config := Some(c.(lastUpdated := now))))
  }

  function MixInit(s: State, now: I64, host: Key, key: RoundKey, denomination: U64, capacity: U8, window: I64): Step {
    if s.config.None? then Err(AccountMissing)
    else if key in s.rounds then Err(AccountInUse)
    else if s.config.value.paused then Err(ProgramPaused)
    else if !(MIX_MIN_PARTICIPANTS <= capacity <= MIX_MAX_PARTICIPANTS) then Err(MixBelowMinimum)
    else if denomination == 0 then Err(MixDenominationMismatch)
    else if window <= 0 then Err(MixRevealTimeout)
    else
      var commitClose := SaturatingAdd(now, window);
      var round := Round(key.mint, denomination, host, capacity, 0, 0, Phase.Commit, now, commitClose,
                         SaturatingAdd(commitClose, s.config.value.mixRevealWindow), 0);
      Ok(s.(rounds := s.rounds[key := round]))
  }

  function MixCommit(s: State, now: I64, participant: Key, key: RoundKey, bytes: seq<Byte>): Step {
    if s.config.None? || key !in s.rounds then Err(AccountMissing)
    else if (key, participant) in s.commitments then Err(AccountInUse)
    else if s.config.value.paused then Err(ProgramPaused)
    else
      var round := s.rounds[key];
      if round.phase != Phase.Commit then Err(MixNotInCommit)
      else if now >= round.commitCloseAt then Err(MixNotInCommit)
      else if round.committed >= round.capacity then Err(MixRoundFull)
      else
        var entry := Commitment(key, participant, bytes, false, Zeros(), round.committed, now, 0);
        var committed := Increment(round.committed);
        var phase := if committed == round.capacity || now >= round.commitCloseAt then Phase.Reveal else round.phase;
        Ok(s.(rounds := s.rounds[key := round.(committed := committed, phase := phase)],
              commitments := s.commitments[(key, participant) := entry]))
  }

  function MixReveal(hash: Hash, s: State, now: I64, participant: Key, key: RoundKey, preimage: seq<Byte>,
                     signal: seq<Byte>): Step {
    if s.config.None? || key !in s.rounds || (key, participant) !in s.commitments then Err(AccountMissing)
    else if s.config.value.paused then Err(ProgramPaused)
    else
      var round, entry := s.rounds[key], s.commitments[(key, participant)];
      if round.phase != Phase.Reveal then Err(MixNotInReveal)
      else if now > round.revealCloseAt then Err(MixRevealTimeout)
      else if entry.revealed then Err(MixAlreadyCommitted)
      else if entry.participant != participant then Err(KeyMismatch)
      else if hash(preimage + signal) != entry.commitment then Err(MixRevealMismatch)
      else
        var revealed := Increment(round.revealed);
        var phase := if revealed == round.committed then Phase.Settling else round.phase;
        Ok(s.(rounds := s.rounds[key := round.(revealed := revealed, phase := phase)],
              commitments :=
                s.commitments[(key, participant) := entry.(revealed := true, revealSignal := signal,
                                                           revealedAt := now)]))
  }

  function MixSettle(s: State, now: I64, signer: Key, key: RoundKey): Step {
    if s.config.None? || key !in s.rounds then Err(AccountMissing)
    else if s.rounds[key].host != signer then Err(WrongHost)
    else if s.config.value.paused then Err(ProgramPaused)
    else
      var round, least := s.rounds[key], s.config.value.mixMin;
      match round.phase
      case Settling =>
        if round.revealed < least then Err(MixBelowMinimum)
        else Ok(s.(rounds := s.rounds[key := round.(phase := Settled, settledAt := now)]))
      case Reveal =>
        if now <= round.revealCloseAt then Err(MixNotInReveal)
        else if round.revealed >= least
        then Ok(s.(rounds := s.rounds[key := round.(phase := Settled, settledAt := now)]))
        else Ok(s.(rounds := s.rounds[key := round.(phase := Aborted, settledAt := now)]))
      case _ => Err(MixNotInReveal)
  }

  /** `proofOk` is the verdict of the proof program. */
  function AuditorRegister(s: State, now: I64, admin: Key, mint: Key, pubkey: seq<Byte>, proofOk: bool,
                           cooldown: I64): Step {
    if s.config.None? then Err(AccountMissing)
    else if mint in s.auditors then Err(AccountInUse)
    else if s.config.value.paused then Err(ProgramPaused)
    else if s.config.value.admin != admin then Err(NotAdmin)
    else if !proofOk then Err(ProofRejected)
    else Ok(s.(auditors := s.auditors[mint := Auditor(mint, pubkey, now, now, cooldown, admin)]))
  }

  function AuditorRotate(s: State, now: I64, admin: Key, mint: Key, pubkey: seq<Byte>, proofOk: bool): Step {
    if s.config.None? || mint !in s.auditors then Err(AccountMissing)
    else if s.auditors[mint].admin != admin then Err(WrongAdmin)
    else if s.config.value.paused then Err(ProgramPaused)
    else if s.config.value.admin != admin then Err(NotAdmin)
    else
      var entry := s.auditors[mint];
      if SaturatingSub(now, entry.lastRotatedAt) < entry.cooldown then Err(AuditorRotationTooSoon)
      else if !proofOk then Err(ProofRejected)
      else Ok(s.(auditors := s.auditors[mint := entry.(pubkey := pubkey, lastRotatedAt := now)]))
  }

  // ---------------------------------------------------------------- runs

  datatype Action =
    | DoInitialize(admin: Key)
    | DoConfigUpdate(signer: Key, field: ConfigField)
    | DoMixInit(host: Key, key: RoundKey, denomination: U64, capacity: U8, window: I64)
    | DoMixCommit(participant: Key, key: RoundKey, bytes: seq<Byte>)
    | DoMixReveal(participant: Key, key: RoundKey, preimage: seq<Byte>, signal: seq<Byte>)
    | DoMixSettle(signer: Key, key: RoundKey)
    | DoAuditorRegister(admin: Key, mint: Key, pubkey: seq<Byte>, proofOk: bool, cooldown: I64)
    | DoAuditorRotate(admin: Key, mint: Key, pubkey: seq<Byte>, proofOk: bool)

  datatype Event = Event(now: I64, action: Action)

  function Try(hash: Hash, s: State, e: Event): Step {
    match e.action
    case DoInitialize(admin) => Initialize(s, e.now, admin)
    case DoConfigUpdate(signer, field) => ConfigUpdate(s, e.now, signer, field)
    case DoMixInit(host, key, denomination, capacity, window) =>
      MixInit(s, e.now, host, key, denomination, capacity, window)
    case DoMixCommit(participant, key, bytes) => MixCommit(s, e.now, participant, key, bytes)
    case DoMixReveal(participant, key, preimage, signal) =>
      MixReveal(hash, s, e.now, participant, key, preimage, signal)
    case DoMixSettle(signer, key) => MixSettle(s, e.now, signer, key)
    case DoAuditorRegister(admin, mint, pubkey, proofOk, cooldown) =>
      AuditorRegister(s, e.now, admin, mint, pubkey, proofOk, cooldown)
    case DoAuditorRotate(admin, mint, pubkey, proofOk) => AuditorRotate(s, e.now, admin, mint, pubkey, proofOk)
  }

  /** A failed instruction leaves every account as it was. */
  function Exec(hash: Hash, s: State, e: Event): State {
    match Try(hash, s, e)
    case Ok(s') => s'
    case Err(_) => s
  }

  /** The accounts after a run from the empty ledger. */
  function After(hash: Hash, events: seq<Event>): State {
    if events == [] then EMPTY
    else Exec(hash, After(hash, events[..|events| - 1]), events[|events| - 1])
  }

  lemma AfterNone(hash: Hash)
    ensures After(hash, []) == EMPTY
  {
  }

  lemma AfterOne(hash: Hash, events: seq<Event>, e: Event)
    ensures After(hash, events + [e]) == Exec(hash, After(hash, events), e)
  {
    assert (events + [e])[..|events|] == events;
  }
}
