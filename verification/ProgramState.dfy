/** The accounts of the on-chain program, as maps from the seeds of their addresses. */
module ProgramState {
  import opened Bytes
  import opened Wrappers

  const I64_MIN: int := -0x8000_0000_0000_0000
  const I64_MAX: int := 0x7fff_ffff_ffff_ffff

  type I64 = x: int | I64_MIN <= x <= I64_MAX
  type U64 = x: int | 0 <= x < 0x1_0000_0000_0000_0000
  type U16 = x: int | 0 <= x < 0x1_0000
  type U8 = x: int | 0 <= x < 0x100

  /** Public keys, and the seeds (mint, round number) of a round. */
  type Key = nat

  datatype RoundKey = RoundKey(mint: Key, id: U64)

  const MIX_MIN_PARTICIPANTS: U8 := 4
  const MIX_MAX_PARTICIPANTS: U8 := 16
  const MIX_REVEAL_WINDOW_SECONDS: I64 := 600
  const BURNER_TTL_MAX_SECONDS: I64 := 2592000
  const BURNER_TTL_MIN_SECONDS: I64 := 60
  const BURNER_REGISTRY_CAP_PER_OWNER: U16 := 64
  const DUST_FREE_UNIT: U64 := 1000
  const AUDITOR_COSIGN_LAMPORTS: U64 := 5000
  const PROTOCOL_VERSION: U16 := 0x0401

  datatype Config = Config(
    admin: Key, version: U16, paused: bool, dustFreeUnit: U64, burnerTtlMax: I64, burnerTtlMin: I64,
    burnerRegistryCap: U16, mixMin: U8, mixMax: U8, mixRevealWindow: I64, auditorCosignLamports: U64, lastUpdated: I64)

  /** `Open` is declared by the program but no handler stores it. */
  datatype Phase = Open | Commit | Reveal | Settling | Settled | Aborted

  datatype Round = Round(
    mint: Key, denomination: U64, host: Key, capacity: U8, committed: U8, revealed: U8, phase: Phase,
    openedAt: I64, commitCloseAt: I64, revealCloseAt: I64, settledAt: I64)

  datatype Commitment = Commitment(
    round: RoundKey, participant: Key, commitment: seq<Byte>, revealed: bool, revealSignal: seq<Byte>,
    index: U8, committedAt: I64, revealedAt: I64)

  datatype Auditor = Auditor(
    mint: Key, pubkey: seq<Byte>, registeredAt: I64, lastRotatedAt: I64, cooldown: I64, admin: Key)

  datatype ConfigField =
    | Paused(paused: bool)
    | DustFreeUnit(unit: U64)
    | BurnerTtlMax(ttl: I64)
    | BurnerTtlMin(ttl: I64)
    | BurnerRegistryCap(cap: U16)
    | MixMinParticipants(n: U8)
    | MixMaxParticipants(n: U8)
    | MixRevealWindow(seconds: I64)
    | AuditorCosignLamports(lamports: U64)
    | Admin(admin: Key)

  datatype ProgramError =
    | AccountMissing | AccountInUse | WrongHost | WrongAdmin | KeyMismatch
    | ProgramPaused | NotAdmin | ProofRejected | AuditorRotationTooSoon
    | MixBelowMinimum | MixDenominationMismatch | MixRevealTimeout | MixNotInCommit | MixRoundFull
    | MixNotInReveal | MixAlreadyCommitted | MixRevealMismatch
    | AmountBelowDustFloor | BurnerTtlOutOfRange | BurnerCapReached

  datatype State = State(
    config: Option<Config>,
    rounds: map<RoundKey, Round>,
    commitments: map<(RoundKey, Key), Commitment>,
    auditors: map<Key, Auditor>)

  const EMPTY: State := State(None, map[], map[], map[])

  function Clamp(x: int): I64 {
    if x < I64_MIN then I64_MIN else if x > I64_MAX then I64_MAX else x
  }

  function SaturatingAdd(a: I64, b: I64): I64 {
    Clamp(a + b)
  }

  function SaturatingSub(a: I64, b: I64): I64 {
    Clamp(a - b)
  }

  function Increment(n: U8): U8 {
    if n == 255 then 255 else n + 1
  }

  function Zeros(): seq<Byte> {
    seq(32, _ => 0 as Byte)
  }
}
