/** Properties of whole runs: how rounds end, and how many instructions ever touch one. */
module MixHistory {
  import opened Bytes
  import opened Wrappers
  import opened ProgramState
  import opened ProgramSteps
  import opened MixInvariant

  predicate Finished(r: Round) {
    r.phase == Settled || r.phase == Aborted
  }

  // ---------------------------------------------------------------- finished rounds

  /** Rounds are never removed; settled and aborted rounds, with their entries, never change again. */
  lemma FinishedStays(hash: Hash, s: State, e: Event, key: RoundKey)
    requires key in s.rounds
    ensures key in Exec(hash, s, e).rounds
    ensures Finished(s.rounds[key]) ==>
              Exec(hash, s, e).rounds[key] == s.rounds[key] && SameEntries(s, Exec(hash, s, e), key)
  {
    match e.action
    case DoMixCommit(_, k, _) => assert k != key || Finished(s.rounds[key]) ==> SameEntries(s, Exec(hash, s, e), key);
    case DoMixReveal(_, k, _, _) =>
      assert k != key || Finished(s.rounds[key]) ==> SameEntries(s, Exec(hash, s, e), key);
    case _ =>
  }

  /** What the invariant says about the counters of a round. */
  lemma CounterFacts(hash: Hash, s: State, key: RoundKey)
    requires Inv(hash, s) && key in s.rounds
    ensures PhaseOk(s.rounds[key]) && MIX_MIN_PARTICIPANTS <= s.rounds[key].capacity <= MIX_MAX_PARTICIPANTS
  {
    hide EntryOk, ConfigOk;
    assert RoundOk(s, key);
  }

  lemma {:induction false} FinishedForever(hash: Hash, before: seq<Event>, later: seq<Event>, key: RoundKey)
    requires key in After(hash, before).rounds && Finished(After(hash, before).rounds[key])
    ensures key in After(hash, before + later).rounds
    ensures After(hash, before + later).rounds[key] == After(hash, before).rounds[key]
    ensures SameEntries(After(hash, before), After(hash, before + later), key)
    decreases |later|
  {
    hide Exec, Inv, Finished;
    if later == [] {
      assert before + later == before;
    } else {
      var n := |later| - 1;
      FinishedForever(hash, before, later[..n], key);
      assert (before + later)[..|before + later| - 1] == before + later[..n]
          && (before + later)[|before + later| - 1] == later[n];
      ReachableOk(hash, before + later[..n]);
      FinishedStays(hash, After(hash, before + later[..n]), later[n], key);
    }
  }

  /** The n-th instruction settled or aborted the round, against the minimum then in force. */
  ghost predicate FinishedAt(hash: Hash, events: seq<Event>, key: RoundKey, r: Round, n: nat) {
    && n < |events|
    && (var s, e := After(hash, events[..n]), events[n];
        && key in s.rounds && s.config.Some?
        && (s.rounds[key].phase == Reveal || s.rounds[key].phase == Settling)
        && e.action == DoMixSettle(r.host, key)
        && r == s.rounds[key].(phase := r.phase, settledAt := e.now)
        && (s.rounds[key].phase == Reveal ==> e.now > r.revealCloseAt)
        && (r.phase == Settled ==> r.revealed >= s.config.value.mixMin)
        && (r.phase == Aborted ==> r.revealed < s.config.value.mixMin && e.now > r.revealCloseAt))
  }

  lemma FinishingStep(hash: Hash, s: State, e: Event, key: RoundKey)
    requires key in Exec(hash, s, e).rounds && Finished(Exec(hash, s, e).rounds[key])
    requires key in s.rounds ==> !Finished(s.rounds[key])
    ensures key in s.rounds && s.config.Some? && (s.rounds[key].phase == Reveal || s.rounds[key].phase == Settling)
    ensures var r := Exec(hash, s, e).rounds[key];
            && e.action == DoMixSettle(r.host, key)
            && r == s.rounds[key].(phase := r.phase, settledAt := e.now)
            && (s.rounds[key].phase == Reveal ==> e.now > r.revealCloseAt)
            && (r.phase == Settled ==> r.revealed >= s.config.value.mixMin)
            && (r.phase == Aborted ==> r.revealed < s.config.value.mixMin && e.now > r.revealCloseAt)
  {
    OnlySettleFinishes(hash, s, e, key);
    SettleOutcome(s, e.now, e.action.signer, key);
  }

  lemma OnlySettleFinishes(hash: Hash, s: State, e: Event, key: RoundKey)
    requires key in Exec(hash, s, e).rounds && Finished(Exec(hash, s, e).rounds[key])
    requires key in s.rounds ==> !Finished(s.rounds[key])
    ensures e.action.DoMixSettle? && e.action.key == key && Try(hash, s, e).Ok?
  {
    match e.action
    case DoMixInit(_, _, _, _, _) =>
    case DoMixCommit(_, _, _) =>
    case DoMixReveal(_, _, _, _) =>
    case DoMixSettle(_, _) =>
    case _ =>
  }

  lemma SettleOutcome(s: State, now: I64, signer: Key, key: RoundKey)
    requires MixSettle(s, now, signer, key).Ok?
    ensures key in s.rounds && s.config.Some? && (s.rounds[key].phase == Reveal || s.rounds[key].phase == Settling)
    ensures var r := MixSettle(s, now, signer, key).value.rounds[key];
            && signer == r.host && r == s.rounds[key].(phase := r.phase, settledAt := now) && Finished(r)
            && (s.rounds[key].phase == Reveal ==> now > r.revealCloseAt)
            && (r.phase == Settled ==> r.revealed >= s.config.value.mixMin)
            && (r.phase == Aborted ==> r.revealed < s.config.value.mixMin && now > r.revealCloseAt)
  {
  }

  /** Every settled round had revealed at least the minimum in force when it settled; every aborted round was below the
      minimum in force when it aborted, after its reveal window. */
  lemma {:induction false} FinishedHistory(hash: Hash, events: seq<Event>, key: RoundKey) returns (n: nat)
    requires key in After(hash, events).rounds && Finished(After(hash, events).rounds[key])
    ensures FinishedAt(hash, events, key, After(hash, events).rounds[key], n)
  {
    hide Exec, Inv, Finished;
    var last := |events| - 1;
    var s, e := After(hash, events[..last]), events[last];
    ReachableOk(hash, events[..last]);
    if key in s.rounds && Finished(s.rounds[key]) {
      n := FinishedHistory(hash, events[..last], key);
      FinishedStays(hash, s, e, key);
      assert events[..last][..n] == events[..n];
    } else {
      FinishingStep(hash, s, e, key);
      n := last;
    }
  }

  // ---------------------------------------------------------------- the minimum over a run

  /** No instruction asks for a minimum below m. */
  predicate Floor(events: seq<Event>, m: U8) {
    forall e :: e in events && e.action.DoConfigUpdate? && e.action.field.MixMinParticipants? ==> e.action.field.n >= m
  }

  lemma StepMinimum(hash: Hash, s: State, e: Event, m: U8)
    requires m <= MIX_MIN_PARTICIPANTS && (s.config.Some? ==> s.config.value.mixMin >= m)
    requires e.action.DoConfigUpdate? && e.action.field.MixMinParticipants? ==> e.action.field.n >= m
    ensures var s' := Exec(hash, s, e); s'.config.Some? ==> s'.config.value.mixMin >= m
  {
    match e.action
    case DoInitialize(_) =>
    case DoConfigUpdate(_, _) =>
    case _ => assert Exec(hash, s, e).config == s.config;
  }

  lemma {:induction false} MinimumKept(hash: Hash, events: seq<Event>, m: U8)
    requires Floor(events, m) && m <= MIX_MIN_PARTICIPANTS
    ensures After(hash, events).config.Some? ==> After(hash, events).config.value.mixMin >= m
  {
    hide Exec;
    if events != [] {
      var last := |events| - 1;
      assert events[last] in events;
      assert Floor(events[..last], m);
      MinimumKept(hash, events[..last], m);
      StepMinimum(hash, After(hash, events[..last]), events[last], m);
    }
  }

  /** Settled rounds have at least the smallest minimum ever asked for: four if it was never changed; and two in
      any case, which the invariant of every reachable state says. */
  lemma SettledAboveFloor(hash: Hash, events: seq<Event>, key: RoundKey, m: U8)
    requires Floor(events, m) && m <= MIX_MIN_PARTICIPANTS
    requires key in After(hash, events).rounds && After(hash, events).rounds[key].phase == Settled
    ensures After(hash, events).rounds[key].revealed >= m && After(hash, events).rounds[key].revealed >= 2
  {
    hide Exec, EntryOk, ConfigOk, After;
    var n := FinishedHistory(hash, events, key);
    assert Floor(events[..n], m);
    MinimumKept(hash, events[..n], m);
    ReachableOk(hash, events);
    assert RoundOk(After(hash, events), key);
  }

  // ---------------------------------------------------------------- counting

  datatype Kind = Committing | Revealing | Settlement

  predicate IsKind(a: Action, key: RoundKey, kind: Kind) {
    match kind
    case Committing => a.DoMixCommit? && a.key == key
    case Revealing => a.DoMixReveal? && a.key == key
    case Settlement => a.DoMixSettle? && a.key == key
  }

  /** How many instructions of a kind succeeded on a round. */
  function Successes(hash: Hash, events: seq<Event>, key: RoundKey, kind: Kind): nat {
    if events == [] then 0
    else
      var last := |events| - 1;
      Successes(hash, events[..last], key, kind)
      + if IsKind(events[last].action, key, kind) && Try(hash, After(hash, events[..last]), events[last]).Ok? then 1
        else 0
  }

  function Settlements(r: Round): nat {
    if Finished(r) then 1 else 0
  }

  function Counted(yes: bool): nat {
    if yes then 1 else 0
  }

  /** From r to r' by a step that commits, reveals or settles. */
  predicate CountersMove(r: Round, r': Round, commit: bool, open: bool, settle: bool) {
    && r'.committed == r.committed + Counted(commit)
    && r'.revealed == r.revealed + Counted(open)
    && Settlements(r') == Settlements(r) + Counted(settle)
  }

  lemma CommitCounts(s: State, now: I64, p: Key, key: RoundKey, bytes: seq<Byte>)
    requires MixCommit(s, now, p, key, bytes).Ok? && PhaseOk(s.rounds[key]) && s.rounds[key].capacity <= 16
    ensures CountersMove(s.rounds[key], MixCommit(s, now, p, key, bytes).value.rounds[key], true, false, false)
  {
  }

  lemma RevealCounts(hash: Hash, s: State, now: I64, p: Key, key: RoundKey, preimage: seq<Byte>, signal: seq<Byte>)
    requires MixReveal(hash, s, now, p, key, preimage, signal).Ok?
    requires PhaseOk(s.rounds[key]) && s.rounds[key].capacity <= 16
    ensures var s' := MixReveal(hash, s, now, p, key, preimage, signal).value;
            CountersMove(s.rounds[key], s'.rounds[key], false, true, false)
  {
  }

  lemma SettleCounts(s: State, now: I64, signer: Key, key: RoundKey)
    requires MixSettle(s, now, signer, key).Ok?
    requires PhaseOk(s.rounds[key])
    ensures CountersMove(s.rounds[key], MixSettle(s, now, signer, key).value.rounds[key], false, false, true)
  {
    SettleOutcome(s, now, signer, key);
  }

  /** The steps that succeed on a round find it there; the others leave it alone. */
  lemma OtherSteps(hash: Hash, s: State, e: Event, key: RoundKey)
    ensures var s' := Exec(hash, s, e);
            var touches := Try(hash, s, e).Ok? && exists kind :: IsKind(e.action, key, kind);
            && (touches ==> key in s.rounds)
            && (key in s.rounds ==> key in s'.rounds && (!touches ==> s'.rounds[key] == s.rounds[key]))
            && (key !in s.rounds && key in s'.rounds ==>
                s'.rounds[key].committed == 0 && s'.rounds[key].revealed == 0 && !Finished(s'.rounds[key]))
  {
    match e.action
    case DoMixCommit(_, k, _) => assert IsKind(e.action, k, Committing);
    case DoMixReveal(_, k, _, _) => assert IsKind(e.action, k, Revealing);
    case DoMixSettle(_, k) => assert IsKind(e.action, k, Settlement);
    case _ =>
  }

  /** What one step does to the counters of a round. */
  lemma StepCounts(hash: Hash, s: State, e: Event, key: RoundKey)
    requires Inv(hash, s)
    ensures var s' := Exec(hash, s, e);
            var ok := Try(hash, s, e).Ok?;
            && (key !in s.rounds ==> forall kind :: !(IsKind(e.action, key, kind) && ok))
            && (key !in s.rounds && key in s'.rounds ==>
                s'.rounds[key].committed == 0 && s'.rounds[key].revealed == 0 && Settlements(s'.rounds[key]) == 0)
            && (key in s.rounds ==>
                && key in s'.rounds
                && CountersMove(s.rounds[key], s'.rounds[key], IsKind(e.action, key, Committing) && ok,
                                IsKind(e.action, key, Revealing) && ok, IsKind(e.action, key, Settlement) && ok))
  {
    hide Inv, MixInit, MixCommit, MixReveal, MixSettle, Initialize, ConfigUpdate, AuditorRegister, AuditorRotate;
    hide PhaseOk;
    OtherSteps(hash, s, e, key);
    if Try(hash, s, e).Ok? && key in s.rounds {
      CounterFacts(hash, s, key);
      match e.action
      case DoMixCommit(p, k, bytes) =>
        if k == key {
          CommitCounts(s, e.now, p, key, bytes);
        }
      case DoMixReveal(p, k, preimage, signal) =>
        if k == key {
          RevealCounts(hash, s, e.now, p, key, preimage, signal);
        }
      case DoMixSettle(signer, k) =>
        if k == key {
          SettleCounts(s, e.now, signer, key);
        }
      case _ =>
    }
  }

  /** Conservation: the counters of a round are the numbers of instructions that succeeded on it, and it was settled or
      aborted once if it is finished and never otherwise. */
  lemma {:induction false} CountersCount(hash: Hash, events: seq<Event>, key: RoundKey)
    ensures var s := After(hash, events);
            var c, r, f := Successes(hash, events, key, Committing), Successes(hash, events, key, Revealing),
                           Successes(hash, events, key, Settlement);
            if key in s.rounds
            then c == s.rounds[key].committed && r == s.rounds[key].revealed && f == Settlements(s.rounds[key])
            else c == 0 && r == 0 && f == 0
  {
    hide Exec, Inv, Settlements, IsKind;
    if events != [] {
      var last := |events| - 1;
      CountersCount(hash, events[..last], key);
      ReachableOk(hash, events[..last]);
      StepCounts(hash, After(hash, events[..last]), events[last], key);
    }
  }

  /** At most 2*capacity + 1 instructions ever succeed on a round, and fewer while it is not finished. */
  lemma BoundedWork(hash: Hash, events: seq<Event>, key: RoundKey)
    requires key in After(hash, events).rounds
    ensures var r := After(hash, events).rounds[key];
            var total := Successes(hash, events, key, Committing) + Successes(hash, events, key, Revealing)
                         + Successes(hash, events, key, Settlement);
            && total <= 2 * r.capacity + 1 <= 33
            && (total == 2 * r.capacity + 1 <==> r.phase == Settled && r.revealed == r.capacity)
  {
    hide Exec, EntryOk, ConfigOk, After, Successes;
    CountersCount(hash, events, key);
    ReachableOk(hash, events);
    assert RoundOk(After(hash, events), key);
  }

  // ---------------------------------------------------------------- rounds that do not fill

  /** Once the commit window has closed on a round that is not full, nothing changes it or its entries: it can neither
      be revealed, nor settled, nor aborted. */
  lemma {:induction false} LapsedRoundIsStuck(hash: Hash, before: seq<Event>, later: seq<Event>, key: RoundKey)
    requires key in After(hash, before).rounds && After(hash, before).rounds[key].phase == Phase.Commit
    requires forall e :: e in later ==> e.now >= After(hash, before).rounds[key].commitCloseAt
    ensures key in After(hash, before + later).rounds
    ensures After(hash, before + later).rounds[key] == After(hash, before).rounds[key]
    ensures SameEntries(After(hash, before), After(hash, before + later), key)
    decreases |later|
  {
    hide Inv, Exec, After;
    if later == [] {
      assert before + later == before;
    } else {
      var n := |later| - 1;
      LapsedRoundIsStuck(hash, before, later[..n], key);
      AfterOne(hash, before + later[..n], later[n]);
      assert before + later == before + later[..n] + [later[n]];
      assert later[n] in later;
      LapsedStep(hash, After(hash, before + later[..n]), later[n], key);
    }
  }

  lemma LapsedStep(hash: Hash, s: State, e: Event, key: RoundKey)
    requires key in s.rounds && s.rounds[key].phase == Phase.Commit && e.now >= s.rounds[key].commitCloseAt
    ensures key in Exec(hash, s, e).rounds && Exec(hash, s, e).rounds[key] == s.rounds[key]
    ensures SameEntries(s, Exec(hash, s, e), key)
  {
    match e.action
    case DoMixInit(_, _, _, _, _) =>
    case DoMixCommit(_, _, _) =>
    case DoMixReveal(_, _, _, _) =>
    case DoMixSettle(_, _) =>
    case _ =>
  }

  /** Whatever happens from the time t on, the round and its entries stay as they are. */
  ghost predicate StuckFrom(hash: Hash, before: seq<Event>, key: RoundKey, t: I64) {
    forall later: seq<Event> :: (forall e :: e in later ==> e.now >= t) ==> Untouched(hash, before, later, key)
  }

  ghost predicate Untouched(hash: Hash, before: seq<Event>, later: seq<Event>, key: RoundKey) {
    var s, s' := After(hash, before), After(hash, before + later);
    key in s.rounds && key in s'.rounds && s'.rounds[key] == s.rounds[key] && SameEntries(s, s', key)
  }

  /** A round that is not full is stuck from t on exactly when its commit window has closed by then. */
  lemma LapsedExactly(hash: Hash, before: seq<Event>, key: RoundKey, t: I64)
    requires key in After(hash, before).rounds && After(hash, before).rounds[key].phase == Phase.Commit
    ensures StuckFrom(hash, before, key, t) <==> t >= After(hash, before).rounds[key].commitCloseAt
  {
    hide Inv, Exec, After, SameEntries;
    if t >= After(hash, before).rounds[key].commitCloseAt {
      forall later: seq<Event> | forall e :: e in later ==> e.now >= t ensures Untouched(hash, before, later, key) {
        LapsedRoundIsStuck(hash, before, later, key);
      }
    } else {
      var later := StillOpen(hash, before, key, t);
      assert !Untouched(hash, before, later, key);
    }
  }

  /** While the window is open somebody new can commit, if need be after the admin has lifted the pause. */
  lemma StillOpen(hash: Hash, before: seq<Event>, key: RoundKey, t: I64) returns (later: seq<Event>)
    requires key in After(hash, before).rounds && After(hash, before).rounds[key].phase == Phase.Commit
    requires t < After(hash, before).rounds[key].commitCloseAt
    ensures forall e :: e in later ==> e.now >= t
    ensures key in After(hash, before + later).rounds
    ensures After(hash, before + later).rounds[key].committed == After(hash, before).rounds[key].committed + 1
  {
    hide Inv, After;
    ReachableOk(hash, before);
    var s := After(hash, before);
    CounterFacts(hash, s, key);
    HasConfig(hash, s, key);
    var p := FreshKey(s, key);
    var lift := Event(t, DoConfigUpdate(s.config.value.admin, Paused(false)));
    var commit := Event(t, DoMixCommit(p, key, []));
    AfterOne(hash, before, lift);
    AfterOne(hash, before + [lift], commit);
    later := [lift, commit];
    assert before + later == before + [lift] + [commit];
  }

  lemma HasConfig(hash: Hash, s: State, key: RoundKey)
    requires Inv(hash, s) && key in s.rounds
    ensures s.config.Some?
  {
    hide RoundOk, EntryOk;
  }

  lemma FreshKey(s: State, key: RoundKey) returns (p: Key)
    ensures (key, p) !in s.commitments
  {
    p := Above(Entries(s, key));
    assert (key, p) in s.commitments ==> p in Entries(s, key);
  }

  lemma {:induction false} Above(ps: set<Key>) returns (p: Key)
    ensures forall x :: x in ps ==> x < p
    decreases ps
  {
    if ps == {} {
      p := 0;
    } else {
      var x :| x in ps;
      var q := Above(ps - {x});
      p := if q > x then q else x + 1;
      forall y | y in ps ensures y < p {
        assert y == x || y in ps - {x};
      }
    }
  }

  // ---------------------------------------------------------------- rounds without a reveal deadline

  /** A round still in its reveal phase can be settled or aborted at some time exactly when its deadline is not the last
      moment of the clock, at which deadlines saturate. */
  lemma TimeoutExactly(s: State, key: RoundKey)
    requires key in s.rounds && s.rounds[key].phase == Reveal && s.config.Some? && !s.config.value.paused
    ensures (exists now: I64 :: MixSettle(s, now, s.rounds[key].host, key).Ok?)
       <==> s.rounds[key].revealCloseAt < I64_MAX
  {
    if s.rounds[key].revealCloseAt < I64_MAX {
      assert MixSettle(s, I64_MAX, s.rounds[key].host, key).Ok?;
    }
  }

  /** So a round with a saturated deadline is never aborted, and settled only if every participant reveals. */
  lemma SaturatedDeadline(hash: Hash, events: seq<Event>, key: RoundKey)
    requires key in After(hash, events).rounds && After(hash, events).rounds[key].revealCloseAt == I64_MAX
    ensures var r := After(hash, events).rounds[key];
            r.phase != Aborted && (r.phase == Settled ==> r.revealed == r.capacity)
  {
    hide Exec, Inv, After;
    ReachableOk(hash, events);
    CounterFacts(hash, After(hash, events), key);
    if After(hash, events).rounds[key].phase == Settled {
      var n := FinishedHistory(hash, events, key);
      ReachableOk(hash, events[..n]);
      CounterFacts(hash, After(hash, events[..n]), key);
    }
  }

  // ---------------------------------------------------------------- runs to such rounds

  const SAMPLE: RoundKey := RoundKey(7, 0)

  /** A round of four places with k entries, opened at time 0 with the commit window w. */
  ghost predicate Sample(s: State, w: I64, k: nat) {
    && s.config == Initialize(EMPTY, 0, 1).value.config && SAMPLE in s.rounds
    && (var r := s.rounds[SAMPLE];
        && r.capacity == 4 && r.committed == k && r.revealed == 0
        && r.phase == (if k < 4 then Phase.Commit else Phase.Reveal)
        && r.commitCloseAt == w && r.revealCloseAt == SaturatingAdd(w, MIX_REVEAL_WINDOW_SECONDS))
    && (forall p: Key :: p >= k ==> (SAMPLE, p) !in s.commitments)
  }

  /** Both kinds of round are reached: with w = 1 and k < 4 the round is stuck from time 1 on; with w = I64_MAX and
      k = 4 it is in its reveal phase with a saturated deadline. */
  lemma {:induction false} SampleRun(hash: Hash, w: I64, k: nat) returns (events: seq<Event>)
    requires w > 0 && k <= 4
    ensures Sample(After(hash, events), w, k)
  {
    hide After;
    if k == 0 {
      var e0, e1 := Event(0, DoInitialize(1)), Event(0, DoMixInit(1, SAMPLE, 1, 4, w));
      AfterNone(hash);
      AfterOne(hash, [], e0);
      AfterOne(hash, [] + [e0], e1);
      events := [] + [e0] + [e1];
    } else {
      var before := SampleRun(hash, w, k - 1);
      var e := Event(0, DoMixCommit(k - 1, SAMPLE, []));
      AfterOne(hash, before, e);
      events := before + [e];
    }
  }

  // ---------------------------------------------------------------- the pause

  /** While paused, only the configuration can change. */
  lemma PauseFreezes(hash: Hash, s: State, e: Event)
    requires s.config.Some? && s.config.value.paused
    ensures var s' := Exec(hash, s, e);
            && s'.rounds == s.rounds && s'.commitments == s.commitments && s'.auditors == s.auditors
            && (s' != s ==> e.action.DoConfigUpdate? && e.action.signer == s.config.value.admin)
  {
  }
}
