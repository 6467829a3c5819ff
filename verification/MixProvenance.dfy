/** Where the contents of rounds and entries come from, over whole runs; and hence exactly when instructions succeed. */
module MixProvenance {
  import opened Bytes
  import opened Wrappers
  import opened ProgramState
  import opened ProgramSteps
  import opened MixInvariant
  import opened MixHistory

  /** The n-th instruction of the run succeeded. */
  predicate Succeeded(hash: Hash, events: seq<Event>, n: nat) {
    n < |events| && Try(hash, After(hash, events[..n]), events[n]).Ok?
  }

  lemma SucceededBefore(hash: Hash, events: seq<Event>, n: nat)
    requires events != [] && n < |events| - 1
    ensures events[..|events| - 1][..n] == events[..n] && events[..|events| - 1][n] == events[n]
    ensures Succeeded(hash, events[..|events| - 1], n) <==> Succeeded(hash, events, n)
  {
    assert events[..|events| - 1][..n] == events[..n];
  }

  // ---------------------------------------------------------------- entries

  /** The n-th instruction is a successful commit, or reveal, of participant p in the round. */
  predicate Commits(hash: Hash, events: seq<Event>, key: RoundKey, p: Key, n: nat) {
    && Succeeded(hash, events, n)
    && events[n].action.DoMixCommit? && events[n].action.key == key && events[n].action.participant == p
  }

  predicate Opening(hash: Hash, events: seq<Event>, key: RoundKey, p: Key, n: nat) {
    && Succeeded(hash, events, n)
    && events[n].action.DoMixReveal? && events[n].action.key == key && events[n].action.participant == p
  }

  predicate IsCommit(e: Event, key: RoundKey, p: Key) {
    e.action.DoMixCommit? && e.action.key == key && e.action.participant == p
  }

  predicate IsReveal(e: Event, key: RoundKey, p: Key) {
    e.action.DoMixReveal? && e.action.key == key && e.action.participant == p
  }

  /** What one step does to one entry. */
  lemma EntryStep(hash: Hash, s: State, e: Event, key: RoundKey, p: Key)
    ensures var s' := Exec(hash, s, e);
            var ok := Try(hash, s, e).Ok?;
            if IsCommit(e, key, p) && ok then
              && (key, p) !in s.commitments && key in s.rounds && (key, p) in s'.commitments
              && s'.commitments[(key, p)]
                 == Commitment(key, p, e.action.bytes, false, Zeros(), s.rounds[key].committed, e.now, 0)
            else if IsReveal(e, key, p) && ok then
              && (key, p) in s.commitments && !s.commitments[(key, p)].revealed && (key, p) in s'.commitments
              && hash(e.action.preimage + e.action.signal) == s.commitments[(key, p)].commitment
              && s'.commitments[(key, p)]
                 == s.commitments[(key, p)].(revealed := true, revealSignal := e.action.signal, revealedAt := e.now)
            else
              && ((key, p) in s'.commitments <==> (key, p) in s.commitments)
              && ((key, p) in s.commitments ==> s'.commitments[(key, p)] == s.commitments[(key, p)])
  {
    match e.action
    case DoMixCommit(_, _, _) =>
    case DoMixReveal(_, _, _, _) =>
    case _ => assert Exec(hash, s, e).commitments == s.commitments;
  }

  lemma CommitsSplit(hash: Hash, events: seq<Event>, key: RoundKey, p: Key, n: nat)
    requires events != []
    ensures var last := |events| - 1;
            Commits(hash, events, key, p, n) <==>
              || (n < last && Commits(hash, events[..last], key, p, n))
              || (n == last && IsCommit(events[last], key, p)
                  && Try(hash, After(hash, events[..last]), events[last]).Ok?)
    ensures n < |events| - 1 ==> events[..|events| - 1][..n] == events[..n] && events[..|events| - 1][n] == events[n]
  {
    hide Try, After;
    if n < |events| - 1 {
      SucceededBefore(hash, events, n);
    }
  }

  lemma OpeningSplit(hash: Hash, events: seq<Event>, key: RoundKey, p: Key, n: nat)
    requires events != []
    ensures var last := |events| - 1;
            Opening(hash, events, key, p, n) <==>
              || (n < last && Opening(hash, events[..last], key, p, n))
              || (n == last && IsReveal(events[last], key, p)
                  && Try(hash, After(hash, events[..last]), events[last]).Ok?)
    ensures n < |events| - 1 ==> events[..|events| - 1][..n] == events[..n] && events[..|events| - 1][n] == events[n]
  {
    hide Try, After;
    if n < |events| - 1 {
      SucceededBefore(hash, events, n);
    }
  }

  /** The entry is the one that the commit e stored, in the accounts as they were. */
  ghost predicate StoredBy(c: Commitment, e: Event, before: State, key: RoundKey) {
    && e.action.DoMixCommit? && c.commitment == e.action.bytes && c.committedAt == e.now
    && key in before.rounds && c.index == before.rounds[key].committed
  }

  /** An entry exists exactly if its participant has committed, once; and holds the bytes and the time of that
      commit. */
  ghost predicate FromCommit(hash: Hash, events: seq<Event>, key: RoundKey, p: Key) {
    var s := After(hash, events);
    && ((key, p) in s.commitments <==> exists n: nat :: Commits(hash, events, key, p, n))
    && (forall n: nat :: Commits(hash, events, key, p, n) ==>
          && n < |events| && (forall m: nat :: Commits(hash, events, key, p, m) ==> m == n)
          && (key, p) in s.commitments && StoredBy(s.commitments[(key, p)], events[n], After(hash, events[..n]), key))
  }

  lemma {:induction false} CommitProvenance(hash: Hash, events: seq<Event>, key: RoundKey, p: Key)
    ensures FromCommit(hash, events, key, p)
  {
    hide Exec, Try;
    if events != [] {
      var last := |events| - 1;
      var s, e := After(hash, events[..last]), events[last];
      CommitProvenance(hash, events[..last], key, p);
      EntryStep(hash, s, e, key, p);
      forall n: nat
        ensures Commits(hash, events, key, p, n) <==>
                  || (n < last && Commits(hash, events[..last], key, p, n))
                  || (n == last && IsCommit(e, key, p) && Try(hash, s, e).Ok?)
        ensures n < last ==> events[..last][..n] == events[..n] && events[..last][n] == events[n]
      {
        CommitsSplit(hash, events, key, p, n);
      }
      hide Commits, IsCommit, IsReveal;
    } else {
      assert forall n: nat :: !Commits(hash, events, key, p, n);
    }
  }

  /** The signal and the time are those of the reveal e, which opens the commitment. */
  ghost predicate ShownBy(hash: Hash, c: Commitment, e: Event) {
    && e.action.DoMixReveal? && c.revealed && c.revealSignal == e.action.signal && c.revealedAt == e.now
    && hash(e.action.preimage + e.action.signal) == c.commitment
  }

  /** It is revealed exactly if its participant has revealed, once, and then holds the signal and the time of that
      reveal. */
  ghost predicate FromReveal(hash: Hash, events: seq<Event>, key: RoundKey, p: Key) {
    var s := After(hash, events);
    && ((key, p) in s.commitments && s.commitments[(key, p)].revealed <==> exists n: nat ::
          Opening(hash, events, key, p, n))
    && (forall n: nat :: Opening(hash, events, key, p, n) ==>
          && n < |events| && (forall m: nat :: Opening(hash, events, key, p, m) ==> m == n)
          && (key, p) in s.commitments && ShownBy(hash, s.commitments[(key, p)], events[n]))
    && ((key, p) in s.commitments && !s.commitments[(key, p)].revealed ==>
          s.commitments[(key, p)].revealSignal == Zeros() && s.commitments[(key, p)].revealedAt == 0)
  }

  lemma {:induction false} RevealProvenance(hash: Hash, events: seq<Event>, key: RoundKey, p: Key)
    ensures FromReveal(hash, events, key, p)
  {
    hide Exec, Try;
    if events != [] {
      var last := |events| - 1;
      var s, e := After(hash, events[..last]), events[last];
      RevealProvenance(hash, events[..last], key, p);
      EntryStep(hash, s, e, key, p);
      forall n: nat
        ensures Opening(hash, events, key, p, n) <==>
                  || (n < last && Opening(hash, events[..last], key, p, n))
                  || (n == last && IsReveal(e, key, p) && Try(hash, s, e).Ok?)
        ensures n < last ==> events[..last][n] == events[n]
      {
        OpeningSplit(hash, events, key, p, n);
      }
      hide Opening, IsCommit, IsReveal, Zeros;
    } else {
      assert forall n: nat :: !Opening(hash, events, key, p, n);
    }
  }

  // ---------------------------------------------------------------- rounds

  predicate OpensRound(hash: Hash, events: seq<Event>, key: RoundKey, n: nat) {
    Succeeded(hash, events, n) && events[n].action.DoMixInit? && events[n].action.key == key
  }

  predicate IsInit(e: Event, key: RoundKey) {
    e.action.DoMixInit? && e.action.key == key
  }

  function AtMost(x: int, bound: int): int {
    if x < bound then x else bound
  }

  /** The terms of the round are those of an instruction, at its time and under the configuration then in force. */
  ghost predicate TermsOf(r: Round, e: Event, c: Config) {
    && e.action.DoMixInit?
    && r.mint == e.action.key.mint && r.host == e.action.host && r.denomination == e.action.denomination
    && r.capacity == e.action.capacity && r.openedAt == e.now
    && r.commitCloseAt == AtMost(e.now + e.action.window, I64_MAX)
    && r.revealCloseAt == AtMost(r.commitCloseAt + c.mixRevealWindow, I64_MAX)
  }

  predicate SameTerms(r: Round, r': Round) {
    && r.mint == r'.mint && r.host == r'.host && r.denomination == r'.denomination && r.capacity == r'.capacity
    && r.openedAt == r'.openedAt && r.commitCloseAt == r'.commitCloseAt && r.revealCloseAt == r'.revealCloseAt
  }

  lemma InitTerms(hash: Hash, s: State, e: Event, key: RoundKey)
    requires Inv(hash, s) && IsInit(e, key) && Try(hash, s, e).Ok?
    ensures var s' := Exec(hash, s, e);
            && s.config.Some? && key !in s.rounds && key in s'.rounds && TermsOf(s'.rounds[key], e, s.config.value)
  {
    WindowPositive(hash, s);
    hide Inv;
  }

  lemma CommitTerms(s: State, now: I64, p: Key, key: RoundKey, bytes: seq<Byte>)
    requires MixCommit(s, now, p, key, bytes).Ok?
    ensures var s' := MixCommit(s, now, p, key, bytes).value;
            s'.rounds.Keys == s.rounds.Keys && forall k :: k in s.rounds ==> SameTerms(s.rounds[k], s'.rounds[k])
  {
  }

  lemma RevealTerms(hash: Hash, s: State, now: I64, p: Key, key: RoundKey, preimage: seq<Byte>, signal: seq<Byte>)
    requires MixReveal(hash, s, now, p, key, preimage, signal).Ok?
    ensures var s' := MixReveal(hash, s, now, p, key, preimage, signal).value;
            s'.rounds.Keys == s.rounds.Keys && forall k :: k in s.rounds ==> SameTerms(s.rounds[k], s'.rounds[k])
  {
  }

  lemma SettleTerms(s: State, now: I64, signer: Key, key: RoundKey)
    requires MixSettle(s, now, signer, key).Ok?
    ensures var s' := MixSettle(s, now, signer, key).value;
            s'.rounds.Keys == s.rounds.Keys && forall k :: k in s.rounds ==> SameTerms(s.rounds[k], s'.rounds[k])
  {
  }

  lemma OtherInit(s: State, now: I64, host: Key, k: RoundKey, denomination: U64, capacity: U8, window: I64,
                  key: RoundKey)
    requires k != key
    ensures var r := MixInit(s, now, host, k, denomination, capacity, window);
            r.Ok? ==> (key in r.value.rounds <==> key in s.rounds)
                      && (key in s.rounds ==> r.value.rounds[key] == s.rounds[key])
  {
  }

  /** The other instructions neither add rounds nor change their terms. */
  lemma TermsKept(hash: Hash, s: State, e: Event, key: RoundKey)
    requires !(IsInit(e, key) && Try(hash, s, e).Ok?)
    ensures var s' := Exec(hash, s, e);
            (key in s'.rounds <==> key in s.rounds) && (key in s.rounds ==> SameTerms(s.rounds[key], s'.rounds[key]))
  {
    if Try(hash, s, e).Ok? {
      match e.action
      case DoMixInit(host, k, denomination, capacity, window) =>
        OtherInit(s, e.now, host, k, denomination, capacity, window, key);
      case DoMixCommit(p, k, bytes) =>
        hide MixCommit;
        CommitTerms(s, e.now, p, k, bytes);
      case DoMixReveal(p, k, preimage, signal) =>
        hide MixReveal;
        RevealTerms(hash, s, e.now, p, k, preimage, signal);
      case DoMixSettle(signer, k) =>
        hide MixSettle;
        SettleTerms(s, e.now, signer, k);
      case _ => assert Exec(hash, s, e).rounds == s.rounds;
    }
  }

  lemma WindowPositive(hash: Hash, s: State)
    requires Inv(hash, s)
    ensures s.config.Some? ==> s.config.value.mixRevealWindow > 0
  {
    hide RoundOk, EntryOk;
  }

  lemma OpensSplit(hash: Hash, events: seq<Event>, key: RoundKey, n: nat)
    requires events != []
    ensures var last := |events| - 1;
            OpensRound(hash, events, key, n) <==>
              || (n < last && OpensRound(hash, events[..last], key, n))
              || (n == last && IsInit(events[last], key) && Try(hash, After(hash, events[..last]), events[last]).Ok?)
    ensures n < |events| - 1 ==> events[..|events| - 1][..n] == events[..n] && events[..|events| - 1][n] == events[n]
  {
    hide Try, After;
    if n < |events| - 1 {
      SucceededBefore(hash, events, n);
    }
  }

  /** A round exists exactly if it was opened, once; and keeps the terms of that instruction for ever: host,
      denomination, capacity, and the deadlines from its time, its window and the reveal window then configured. */
  ghost predicate FromInit(hash: Hash, events: seq<Event>, key: RoundKey) {
    var s := After(hash, events);
    && (key in s.rounds <==> exists n: nat :: OpensRound(hash, events, key, n))
    && (forall n: nat :: OpensRound(hash, events, key, n) ==>
          && n < |events| && (forall m: nat :: OpensRound(hash, events, key, m) ==> m == n)
          && key in s.rounds && After(hash, events[..n]).config.Some?
          && TermsOf(s.rounds[key], events[n], After(hash, events[..n]).config.value))
  }

  lemma {:induction false} RoundProvenance(hash: Hash, events: seq<Event>, key: RoundKey)
    ensures FromInit(hash, events, key)
  {
    hide Exec, Try, Inv;
    if events != [] {
      var last := |events| - 1;
      var s, e := After(hash, events[..last]), events[last];
      RoundProvenance(hash, events[..last], key);
      ReachableOk(hash, events[..last]);
      if IsInit(e, key) && Try(hash, s, e).Ok? {
        InitTerms(hash, s, e, key);
      } else {
        TermsKept(hash, s, e, key);
      }
      forall n: nat
        ensures OpensRound(hash, events, key, n) <==>
                  || (n < last && OpensRound(hash, events[..last], key, n))
                  || (n == last && IsInit(e, key) && Try(hash, s, e).Ok?)
        ensures n < last ==> events[..last][..n] == events[..n] && events[..last][n] == events[n]
      {
        OpensSplit(hash, events, key, n);
      }
      hide OpensRound, IsInit;
    } else {
      assert forall n: nat :: !OpensRound(hash, events, key, n);
    }
  }

  // ---------------------------------------------------------------- exactly when instructions succeed

  /** The round is in the given phase and the program is not paused. */
  ghost predicate InPhase(s: State, key: RoundKey, phase: Phase) {
    s.config.Some? && !s.config.value.paused && key in s.rounds && s.rounds[key].phase == phase
  }

  lemma EntryFacts(hash: Hash, s: State, key: RoundKey, p: Key)
    requires Inv(hash, s) && (key, p) in s.commitments
    ensures key in s.rounds && s.commitments[(key, p)].participant == p && s.commitments[(key, p)].round == key
            && s.config.Some?
  {
    hide RoundOk;
    assert EntryOk(hash, s, (key, p));
  }

  /** In every reachable state a commit succeeds exactly if the round is in its commit phase, its window is open, the
      program is not paused and the participant has not committed: there is always room. */
  lemma CommitExactly(hash: Hash, events: seq<Event>, now: I64, key: RoundKey, p: Key, bytes: seq<Byte>)
    ensures var s := After(hash, events);
            MixCommit(s, now, p, key, bytes).Ok? <==>
              && InPhase(s, key, Phase.Commit) && now < s.rounds[key].commitCloseAt
              && forall n: nat :: !Commits(hash, events, key, p, n)
  {
    hide Inv, After, Commits;
    ReachableOk(hash, events);
    var s := After(hash, events);
    CommitProvenance(hash, events, key, p);
    if key in s.rounds {
      CounterFacts(hash, s, key);
    }
  }

  /** In every reachable state a participant can reveal a preimage and a signal exactly if the bytes of its one
      successful commit are their hash, it has not revealed, the round is in its reveal phase, the window has not
      passed and the program is not paused. */
  lemma RevealExactly(hash: Hash, events: seq<Event>, now: I64, key: RoundKey, p: Key, preimage: seq<Byte>,
                      signal: seq<Byte>)
    ensures var s := After(hash, events);
            MixReveal(hash, s, now, p, key, preimage, signal).Ok? <==>
              && InPhase(s, key, Reveal) && now <= s.rounds[key].revealCloseAt
              && (exists n: nat ::
                    Commits(hash, events, key, p, n) && events[n].action.bytes == hash(preimage + signal))
              && (forall n: nat :: !Opening(hash, events, key, p, n))
  {
    hide Inv, After, Commits, Opening;
    ReachableOk(hash, events);
    var s := After(hash, events);
    CommitProvenance(hash, events, key, p);
    RevealProvenance(hash, events, key, p);
    if (key, p) in s.commitments {
      EntryFacts(hash, s, key, p);
      var n: nat :| Commits(hash, events, key, p, n);
      assert StoredBy(s.commitments[(key, p)], events[n], After(hash, events[..n]), key);
    }
  }

  /** So the honest participant, whose commit was the hash of preimage and signal and who has not revealed, can reveal
      them exactly while the round is in its reveal phase, the window is open and the program is not paused. */
  lemma HonestReveal(hash: Hash, events: seq<Event>, now: I64, key: RoundKey, p: Key, preimage: seq<Byte>,
                     signal: seq<Byte>, n: nat)
    requires Commits(hash, events, key, p, n) && events[n].action.bytes == hash(preimage + signal)
    requires forall m: nat :: !Opening(hash, events, key, p, m)
    ensures var s := After(hash, events);
            MixReveal(hash, s, now, p, key, preimage, signal).Ok?
            <==> InPhase(s, key, Reveal) && now <= s.rounds[key].revealCloseAt
  {
    hide MixReveal, After, Commits, Opening;
    RevealExactly(hash, events, now, key, p, preimage, signal);
  }

  /** Only the host who opened the round can settle it: with the configured minimum of reveals once all have
      revealed, and otherwise only after the reveal window. */
  lemma SettleExactly(hash: Hash, events: seq<Event>, now: I64, key: RoundKey, signer: Key)
    ensures var s := After(hash, events);
            MixSettle(s, now, signer, key).Ok? <==>
              && (exists n: nat :: OpensRound(hash, events, key, n) && events[n].action.host == signer)
              && (|| (InPhase(s, key, Settling) && s.rounds[key].capacity >= s.config.value.mixMin)
                  || (InPhase(s, key, Reveal) && now > s.rounds[key].revealCloseAt))
  {
    hide Inv, After, OpensRound;
    ReachableOk(hash, events);
    var s := After(hash, events);
    RoundProvenance(hash, events, key);
    if key in s.rounds {
      CounterFacts(hash, s, key);
      HasConfig(hash, s, key);
      var n: nat :| OpensRound(hash, events, key, n);
      assert n < |events| && TermsOf(s.rounds[key], events[n], After(hash, events[..n]).config.value);
    }
  }

  /** A round can be opened exactly if its number is new, the terms are in range and the program is not paused. */
  lemma InitExactly(hash: Hash, events: seq<Event>, now: I64, host: Key, key: RoundKey, denomination: U64,
                    capacity: U8, window: I64)
    ensures var s := After(hash, events);
            MixInit(s, now, host, key, denomination, capacity, window).Ok? <==>
              && s.config.Some? && !s.config.value.paused && (forall n: nat :: !OpensRound(hash, events, key, n))
              && 4 <= capacity <= 16 && denomination > 0 && window > 0
  {
    hide After, OpensRound;
    RoundProvenance(hash, events, key);
  }

  /** What each error says; two of them never occur: a round in its commit phase is never full, and an entry always
      belongs to the participant it is stored under. */
  lemma CommitErrors(hash: Hash, events: seq<Event>, now: I64, key: RoundKey, p: Key, bytes: seq<Byte>)
    ensures var s := After(hash, events);
            var r := MixCommit(s, now, p, key, bytes);
            && r != Err(MixRoundFull)
            && (r == Err(AccountMissing) ==> key !in s.rounds) && (r == Err(AccountInUse) ==> (key, p) in s.commitments)
            && (r == Err(ProgramPaused) ==> s.config.Some? && s.config.value.paused)
            && (r == Err(MixNotInCommit) ==>
                key in s.rounds && (s.rounds[key].phase != Phase.Commit || now >= s.rounds[key].commitCloseAt))
            && (r.Err? ==> r.error in {AccountMissing, AccountInUse, ProgramPaused, MixNotInCommit})
  {
    hide Inv, After;
    ReachableOk(hash, events);
    var s := After(hash, events);
    if key in s.rounds {
      CounterFacts(hash, s, key);
      HasConfig(hash, s, key);
    }
  }

  lemma RevealErrors(hash: Hash, events: seq<Event>, now: I64, key: RoundKey, p: Key, preimage: seq<Byte>,
                     signal: seq<Byte>)
    ensures var s := After(hash, events);
            var r := MixReveal(hash, s, now, p, key, preimage, signal);
            && r != Err(KeyMismatch)
            && (r == Err(AccountMissing) ==> (key, p) !in s.commitments)
            && (r == Err(ProgramPaused) ==> s.config.Some? && s.config.value.paused)
            && (r == Err(MixNotInReveal) ==> key in s.rounds && s.rounds[key].phase != Reveal)
            && (r == Err(MixRevealTimeout) ==> key in s.rounds && now > s.rounds[key].revealCloseAt)
            && (r == Err(MixAlreadyCommitted) ==> (key, p) in s.commitments && s.commitments[(key, p)].revealed)
            && (r == Err(MixRevealMismatch) ==>
                (key, p) in s.commitments && hash(preimage + signal) != s.commitments[(key, p)].commitment)
            && (r.Err? ==>
                  r.error in {AccountMissing, ProgramPaused, MixNotInReveal, MixRevealTimeout, MixAlreadyCommitted,
                                       MixRevealMismatch})
  {
    hide Inv, After;
    ReachableOk(hash, events);
    var s := After(hash, events);
    if (key, p) in s.commitments {
      EntryFacts(hash, s, key, p);
    }
  }
}
