/** What every reachable state of the program keeps about its mix rounds. */
module MixInvariant {
  import opened Bytes
  import opened Wrappers
  import opened ProgramState
  import opened ProgramSteps

  /** The participants that committed to a round, and those that revealed. */
  ghost function Entries(s: State, key: RoundKey): set<Key> {
    set k | k in s.commitments && k.0 == key :: k.1
  }

  ghost function Opened(s: State, key: RoundKey): set<Key> {
    set k | k in s.commitments && k.0 == key && s.commitments[k].revealed :: k.1
  }

  /** The indices of the entries are exactly 0..n-1, each once. */
  ghost predicate Indexed(s: State, key: RoundKey, n: int) {
    && (forall p :: (key, p) in s.commitments ==> s.commitments[(key, p)].index < n)
    && (forall p, p' :: (key, p) in s.commitments && (key, p') in s.commitments && p != p' ==>
        s.commitments[(key, p)].index != s.commitments[(key, p')].index)
    && (forall i: nat :: i < n ==> HasIndex(s, key, i))
  }

  ghost predicate HasIndex(s: State, key: RoundKey, i: int) {
    exists p :: (key, p) in s.commitments && s.commitments[(key, p)].index == i
  }

  /** What the phase says about the counters and the times. */
  predicate PhaseOk(r: Round) {
    match r.phase
    case Open => false
    case Commit => r.committed < r.capacity && r.revealed == 0 && r.settledAt == 0
    case Reveal => r.revealed < r.committed == r.capacity && r.settledAt == 0
    case Settling => r.revealed == r.committed == r.capacity && r.settledAt == 0
    case Settled => 2 <= r.revealed <= r.committed == r.capacity
    case Aborted => r.revealed < r.committed == r.capacity && r.settledAt > r.revealCloseAt
  }

  ghost predicate RoundOk(s: State, key: RoundKey)
    requires key in s.rounds
  {
    var r := s.rounds[key];
    && r.mint == key.mint && r.denomination > 0
    && MIX_MIN_PARTICIPANTS <= r.capacity <= MIX_MAX_PARTICIPANTS
    && r.openedAt <= r.commitCloseAt <= r.revealCloseAt
    && PhaseOk(r)
    && r.committed == |Entries(s, key)| && r.revealed == |Opened(s, key)|
    && Indexed(s, key, r.committed)
  }

  ghost predicate Opens(hash: Hash, preimage: seq<Byte>, c: Commitment) {
    hash(preimage + c.revealSignal) == c.commitment
  }

  /** An entry belongs to its round and its participant; if revealed, its signal opens its commitment. */
  ghost predicate EntryOk(hash: Hash, s: State, k: (RoundKey, Key))
    requires k in s.commitments
  {
    var c := s.commitments[k];
    && k.0 in s.rounds && c.round == k.0 && c.participant == k.1
    && (c.revealed ==> exists preimage: seq<Byte> :: Opens(hash, preimage, c))
  }

  predicate ConfigOk(c: Config) {
    && c.mixMin >= 2 && c.mixRevealWindow > 0 && c.dustFreeUnit > 0
    && c.burnerTtlMin < c.burnerTtlMax && c.burnerRegistryCap > 0
  }

  ghost predicate Inv(hash: Hash, s: State) {
    && (match s.config
        case None => s.rounds == map[] && s.commitments == map[] && s.auditors == map[]
        case Some(c) => ConfigOk(c))
    && (forall key :: key in s.rounds ==> RoundOk(s, key))
    && (forall k :: k in s.commitments ==> EntryOk(hash, s, k))
  }

  // ---------------------------------------------------------------- rounds that a step does not touch

  ghost predicate SameEntries(s: State, s': State, key: RoundKey) {
    forall p :: ((key, p) in s.commitments <==> (key, p) in s'.commitments)
             && ((key, p) in s.commitments ==> s.commitments[(key, p)] == s'.commitments[(key, p)])
  }

  lemma SameCounts(s: State, s': State, key: RoundKey)
    requires SameEntries(s, s', key)
    ensures Entries(s, key) == Entries(s', key) && Opened(s, key) == Opened(s', key)
    ensures forall n: int :: Indexed(s, key, n) ==> Indexed(s', key, n)
  {
    forall p
      ensures (p in Entries(s, key) <==> p in Entries(s', key)) && (p in Opened(s, key) <==> p in Opened(s', key)) {
      assert p in Entries(s, key) <==> (key, p) in s.commitments;
      assert p in Entries(s', key) <==> (key, p) in s'.commitments;
    }
    forall n: int | Indexed(s, key, n) ensures Indexed(s', key, n) {
      forall i: nat | i < n ensures HasIndex(s', key, i) {
        assert HasIndex(s, key, i);
        var p :| (key, p) in s.commitments && s.commitments[(key, p)].index == i;
        assert (key, p) in s'.commitments && s'.commitments[(key, p)].index == i;
      }
    }
  }

  lemma RoundKept(s: State, s': State, key: RoundKey)
    requires key in s.rounds && key in s'.rounds && RoundOk(s, key) && SameEntries(s, s', key)
    requires s'.rounds[key] == s.rounds[key]
    ensures RoundOk(s', key)
  {
    SameCounts(s, s', key);
  }

  // ---------------------------------------------------------------- each step

  lemma EntriesHaveRounds(hash: Hash, s: State)
    requires Inv(hash, s)
    ensures forall k :: k in s.commitments ==> k.0 in s.rounds
  {
    hide RoundOk;
    forall k | k in s.commitments ensures k.0 in s.rounds {
      assert EntryOk(hash, s, k);
    }
  }

  lemma InitKeeps(hash: Hash, s: State, now: I64, host: Key, key: RoundKey, denomination: U64, capacity: U8,
                  window: I64)
    requires Inv(hash, s) && MixInit(s, now, host, key, denomination, capacity, window).Ok?
    ensures Inv(hash, MixInit(s, now, host, key, denomination, capacity, window).value)
  {
    var s' := MixInit(s, now, host, key, denomination, capacity, window).value;
    EntriesHaveRounds(hash, s);
    forall k | k in s'.rounds ensures RoundOk(s', k) {
      if k != key {
        RoundKept(s, s', k);
      } else {
        assert forall p :: (key, p) !in s.commitments;
        assert Entries(s', key) == {} && Opened(s', key) == {};
      }
    }
    forall k | k in s'.commitments ensures EntryOk(hash, s', k) {
      assert EntryOk(hash, s, k);
    }
  }

  /** One more entry, with the next index and not revealed. */
  lemma EntryAdded(s: State, s': State, key: RoundKey, p: Key, c: Commitment, n: int)
    requires (key, p) !in s.commitments && s'.commitments == s.commitments[(key, p) := c]
    requires Indexed(s, key, n) && c.index == n && !c.revealed
    ensures Entries(s', key) == Entries(s, key) + {p} && p !in Entries(s, key) && Opened(s', key) == Opened(s, key)
    ensures Indexed(s', key, n + 1)
  {
    forall x ensures x in Entries(s', key) <==> x in Entries(s, key) + {p} {
      assert x in Entries(s, key) <==> (key, x) in s.commitments;
      assert x in Entries(s', key) <==> (key, x) in s'.commitments;
    }
    forall x ensures x in Opened(s', key) <==> x in Opened(s, key) {
      assert x in Opened(s, key) <==> (key, x) in s.commitments && s.commitments[(key, x)].revealed;
      assert x in Opened(s', key) <==> (key, x) in s'.commitments && s'.commitments[(key, x)].revealed;
    }
    forall i: nat | i < n + 1 ensures HasIndex(s', key, i) {
      if i == n {
        assert (key, p) in s'.commitments && s'.commitments[(key, p)].index == i;
      } else {
        assert HasIndex(s, key, i);
        var x :| (key, x) in s.commitments && s.commitments[(key, x)].index == i;
        assert (key, x) in s'.commitments && s'.commitments[(key, x)].index == i;
      }
    }
  }

  lemma OthersSame(s: State, s': State, key: RoundKey, p: Key, c: Commitment, other: RoundKey)
    requires s'.commitments == s.commitments[(key, p) := c] && other != key
    ensures SameEntries(s, s', other)
  {
  }

  lemma CommitKeeps(hash: Hash, s: State, now: I64, p: Key, key: RoundKey, bytes: seq<Byte>)
    requires Inv(hash, s) && MixCommit(s, now, p, key, bytes).Ok?
    ensures Inv(hash, MixCommit(s, now, p, key, bytes).value)
  {
    hide Entries, Opened, Indexed, SameEntries;
    var s' := MixCommit(s, now, p, key, bytes).value;
    var r, c := s.rounds[key], s'.commitments[(key, p)];
    assert RoundOk(s, key);
    EntryAdded(s, s', key, p, c, r.committed);
    forall k | k in s'.rounds ensures RoundOk(s', k) {
      if k != key {
        OthersSame(s, s', key, p, c, k);
        RoundKept(s, s', k);
      }
    }
    forall k | k in s'.commitments ensures EntryOk(hash, s', k) {
      if k != (key, p) {
        assert EntryOk(hash, s, k);
      }
    }
  }

  /** One entry changes from not revealed to revealed. */
  lemma EntryOpened(s: State, s': State, key: RoundKey, p: Key, c: Commitment, n: int)
    requires (key, p) in s.commitments && s'.commitments == s.commitments[(key, p) := c] && Indexed(s, key, n)
    requires !s.commitments[(key, p)].revealed && c.revealed && c.index == s.commitments[(key, p)].index
    ensures Entries(s', key) == Entries(s, key)
    ensures Opened(s', key) == Opened(s, key) + {p} && p !in Opened(s, key) && Opened(s', key) <= Entries(s', key)
    ensures Indexed(s', key, n)
  {
    forall x ensures x in Entries(s', key) <==> x in Entries(s, key) {
      assert x in Entries(s, key) <==> (key, x) in s.commitments;
      assert x in Entries(s', key) <==> (key, x) in s'.commitments;
    }
    forall x ensures x in Opened(s', key) <==> x in Opened(s, key) + {p} {
      assert x in Opened(s, key) <==> (key, x) in s.commitments && s.commitments[(key, x)].revealed;
      assert x in Opened(s', key) <==> (key, x) in s'.commitments && s'.commitments[(key, x)].revealed;
    }
    forall i: nat | i < n ensures HasIndex(s', key, i) {
      assert HasIndex(s, key, i);
      var x :| (key, x) in s.commitments && s.commitments[(key, x)].index == i;
      assert (key, x) in s'.commitments && s'.commitments[(key, x)].index == i;
    }
  }

  lemma RevealKeeps(hash: Hash, s: State, now: I64, p: Key, key: RoundKey, preimage: seq<Byte>, signal: seq<Byte>)
    requires Inv(hash, s) && MixReveal(hash, s, now, p, key, preimage, signal).Ok?
    ensures Inv(hash, MixReveal(hash, s, now, p, key, preimage, signal).value)
  {
    hide Entries, Opened, Indexed, SameEntries;
    var s' := MixReveal(hash, s, now, p, key, preimage, signal).value;
    var r, c := s.rounds[key], s'.commitments[(key, p)];
    assert RoundOk(s, key);
    EntryOpened(s, s', key, p, c, r.committed);
    forall k | k in s'.rounds ensures RoundOk(s', k) {
      if k != key {
        OthersSame(s, s', key, p, c, k);
        RoundKept(s, s', k);
      }
    }
    forall k | k in s'.commitments ensures EntryOk(hash, s', k) {
      assert EntryOk(hash, s, k);
      if k == (key, p) {
        assert Opens(hash, preimage, c);
      }
    }
  }

  lemma SettleKeeps(hash: Hash, s: State, now: I64, signer: Key, key: RoundKey)
    requires Inv(hash, s) && MixSettle(s, now, signer, key).Ok?
    ensures Inv(hash, MixSettle(s, now, signer, key).value)
  {
    hide Entries, Opened, Indexed, SameEntries;
    var s' := MixSettle(s, now, signer, key).value;
    assert RoundOk(s, key);
    forall k | k in s'.rounds ensures RoundOk(s', k) {
      Unchanged(s, s', k);
      SameCounts(s, s', k);
      if k != key {
        RoundKept(s, s', k);
      }
    }
    forall k | k in s'.commitments ensures EntryOk(hash, s', k) {
      assert EntryOk(hash, s, k);
    }
  }

  lemma Unchanged(s: State, s': State, key: RoundKey)
    requires s'.commitments == s.commitments
    ensures SameEntries(s, s', key)
  {
  }

  /** Steps that touch neither rounds nor entries. */
  lemma OthersKeep(hash: Hash, s: State, s': State)
    requires Inv(hash, s) && s'.rounds == s.rounds && s'.commitments == s.commitments
    requires s'.config.Some? && ConfigOk(s'.config.value)
    ensures Inv(hash, s')
  {
    hide Entries, Opened, Indexed, SameEntries;
    forall k | k in s'.rounds ensures RoundOk(s', k) {
      Unchanged(s, s', k);
      RoundKept(s, s', k);
    }
    forall k | k in s'.commitments ensures EntryOk(hash, s', k) {
      assert EntryOk(hash, s, k);
    }
  }

  /** Every step keeps the invariant. */
  lemma StepKeeps(hash: Hash, s: State, e: Event)
    requires Inv(hash, s)
    ensures Inv(hash, Exec(hash, s, e))
  {
    hide RoundOk, EntryOk;
    if Try(hash, s, e).Ok? {
      match e.action
      case DoMixInit(host, key, denomination, capacity, window) =>
        InitKeeps(hash, s, e.now, host, key, denomination, capacity, window);
      case DoMixCommit(participant, key, bytes) =>
        CommitKeeps(hash, s, e.now, participant, key, bytes);
      case DoMixReveal(participant, key, preimage, signal) =>
        RevealKeeps(hash, s, e.now, participant, key, preimage, signal);
      case DoMixSettle(signer, key) =>
        SettleKeeps(hash, s, e.now, signer, key);
      case DoInitialize(_) =>
        OthersKeep(hash, s, Exec(hash, s, e));
      case DoConfigUpdate(_, _) =>
        OthersKeep(hash, s, Exec(hash, s, e));
      case DoAuditorRegister(_, _, _, _, _) =>
        OthersKeep(hash, s, Exec(hash, s, e));
      case DoAuditorRotate(_, _, _, _) =>
        OthersKeep(hash, s, Exec(hash, s, e));
    }
  }

  /** So every reachable state has it, whatever the instructions, their order and their clock. */
  lemma {:induction false} ReachableOk(hash: Hash, events: seq<Event>)
    ensures Inv(hash, After(hash, events))
  {
    hide Exec, RoundOk, EntryOk;
    if events != [] {
      ReachableOk(hash, events[..|events| - 1]);
      StepKeeps(hash, After(hash, events[..|events| - 1]), events[|events| - 1]);
    }
  }
}
