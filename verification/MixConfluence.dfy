/** The order of reveals does not matter. */
module MixConfluence {
  import opened Bytes
  import opened Wrappers
  import opened ProgramState
  import opened ProgramSteps
  import opened MixInvariant
  import opened MixHistory

  /** One reveal instruction for a given round, with the time at which it runs. */
  datatype Opening = Opening(participant: Key, preimage: seq<Byte>, signal: seq<Byte>, now: I64)

  function Attempt(hash: Hash, s: State, key: RoundKey, o: Opening): Step {
    MixReveal(hash, s, o.now, o.participant, key, o.preimage, o.signal)
  }

  /** The reveals one after the other; fails if any fails. */
  function RevealAll(hash: Hash, s: State, key: RoundKey, os: seq<Opening>): Step
    decreases |os|
  {
    if os == [] then Ok(s)
    else
      var s' :- Attempt(hash, s, key, os[0]);
      RevealAll(hash, s', key, os[1..])
  }

  predicate By(os: seq<Opening>, p: Key) {
    exists i :: 0 <= i < |os| && os[i].participant == p
  }

  /** No participant reveals twice. */
  predicate Distinct(os: seq<Opening>) {
    os == [] || (!By(os[1..], os[0].participant) && Distinct(os[1..]))
  }

  /** Every reveal would succeed if it ran first. */
  predicate AllReady(hash: Hash, s: State, key: RoundKey, os: seq<Opening>) {
    forall i :: 0 <= i < |os| ==> Attempt(hash, s, key, os[i]).Ok?
  }

  // ---------------------------------------------------------------- one reveal

  function Shown(c: Commitment, o: Opening): Commitment {
    c.(revealed := true, revealSignal := o.signal, revealedAt := o.now)
  }

  /** The round after n more reveals. */
  function Advanced(r: Round, n: nat): Round {
    if r.revealed + n > 255 then r
    else r.(revealed := r.revealed + n, phase := if r.revealed + n == r.committed then Settling else r.phase)
  }

  ghost predicate Effect(s: State, key: RoundKey, o: Opening, s': State) {
    && key in s.rounds && (key, o.participant) in s.commitments && !s.commitments[(key, o.participant)].revealed
    && s.rounds[key].phase == Reveal && s.rounds[key].revealed < s.rounds[key].committed <= 16
    && s' == s.(rounds := s.rounds[key := Advanced(s.rounds[key], 1)],
                commitments := s.commitments[(key, o.participant) := Shown(s.commitments[(key, o.participant)], o)])
  }

  lemma OneReveal(hash: Hash, s: State, key: RoundKey, o: Opening)
    requires Inv(hash, s) && Attempt(hash, s, key, o).Ok?
    ensures Effect(s, key, o, Attempt(hash, s, key, o).value) && Inv(hash, Attempt(hash, s, key, o).value)
  {
    hide Inv;
    RevealKeeps(hash, s, o.now, o.participant, key, o.preimage, o.signal);
    CounterFacts(hash, s, key);
  }

  /** A round with a closed entry has fewer reveals than commitments. */
  lemma ClosedEntry(hash: Hash, s: State, key: RoundKey, p: Key)
    requires Inv(hash, s)
    ensures key in s.rounds && (key, p) in s.commitments && !s.commitments[(key, p)].revealed ==>
              s.rounds[key].revealed < s.rounds[key].committed
  {
    if key in s.rounds && (key, p) in s.commitments && !s.commitments[(key, p)].revealed {
      assert RoundOk(s, key);
      var all, shown := Entries(s, key), Opened(s, key);
      assert p in all && p !in shown && shown <= all by {
        assert (key, p) in s.commitments;
      }
      Subset(shown, all - {p});
    }
  }

  lemma {:induction false} Subset(a: set<Key>, b: set<Key>)
    requires a <= b
    ensures |a| <= |b|
    decreases a
  {
    if a != {} {
      var x :| x in a;
      Subset(a - {x}, b - {x});
    }
  }

  /** After a reveal by somebody else a reveal is possible exactly if it was before: the round is still in its reveal
      phase, because an entry is still closed. */
  lemma StillReady(hash: Hash, s: State, key: RoundKey, o: Opening, o': Opening)
    requires Inv(hash, s) && Attempt(hash, s, key, o).Ok?
    ensures Attempt(hash, Attempt(hash, s, key, o).value, key, o').Ok?
       <==> o'.participant != o.participant && Attempt(hash, s, key, o').Ok?
  {
    hide Inv;
    OneReveal(hash, s, key, o);
    ClosedEntry(hash, Attempt(hash, s, key, o).value, key, o'.participant);
  }

  lemma ReadyShift(hash: Hash, s: State, key: RoundKey, o: Opening, os: seq<Opening>)
    requires Inv(hash, s) && Attempt(hash, s, key, o).Ok?
    ensures AllReady(hash, Attempt(hash, s, key, o).value, key, os)
       <==> !By(os, o.participant) && AllReady(hash, s, key, os)
  {
    hide Inv, Attempt;
    forall i | 0 <= i < |os|
      ensures Attempt(hash, Attempt(hash, s, key, o).value, key, os[i]).Ok?
         <==> os[i].participant != o.participant && Attempt(hash, s, key, os[i]).Ok?
    {
      StillReady(hash, s, key, o, os[i]);
    }
  }

  /** A list of reveals succeeds exactly when nobody reveals twice and each would succeed on its own. */
  lemma {:induction false} AllSucceed(hash: Hash, s: State, key: RoundKey, os: seq<Opening>)
    requires Inv(hash, s)
    ensures RevealAll(hash, s, key, os).Ok? <==> Distinct(os) && AllReady(hash, s, key, os)
    decreases |os|
  {
    hide Inv, Attempt, By;
    if os != [] {
      assert AllReady(hash, s, key, os) <==> Attempt(hash, s, key, os[0]).Ok? && AllReady(hash, s, key, os[1..]);
      if Attempt(hash, s, key, os[0]).Ok? {
        OneReveal(hash, s, key, os[0]);
        AllSucceed(hash, Attempt(hash, s, key, os[0]).value, key, os[1..]);
        ReadyShift(hash, s, key, os[0], os[1..]);
      }
    }
  }

  // ---------------------------------------------------------------- the outcome of a list of reveals

  /** The entry of participant p after the reveals of a list. */
  function Answered(c: Commitment, p: Key, os: seq<Opening>): Commitment
    decreases |os|
  {
    if os == [] then c
    else Answered(if os[0].participant == p then Shown(c, os[0]) else c, p, os[1..])
  }

  ghost predicate RoundOutcome(s: State, key: RoundKey, n: nat, s': State) {
    && key in s.rounds
    && s'.config == s.config && s'.auditors == s.auditors && s'.rounds == s.rounds[key := Advanced(s.rounds[key], n)]
  }

  ghost predicate EntryOutcome(s: State, key: RoundKey, os: seq<Opening>, s': State) {
    && s'.commitments.Keys == s.commitments.Keys
    && (forall k ::
          k in s.commitments ==>
            s'.commitments[k] == if k.0 == key then Answered(s.commitments[k], k.1, os) else s.commitments[k])
  }

  lemma EntryCompose(s: State, key: RoundKey, os: seq<Opening>, s': State, s'': State)
    requires os != [] && Effect(s, key, os[0], s') && EntryOutcome(s', key, os[1..], s'')
    ensures EntryOutcome(s, key, os, s'')
  {
    hide Shown, Advanced;
    assert s'.commitments.Keys == s.commitments.Keys;
    forall k | k in s.commitments
      ensures s''.commitments[k] == if k.0 == key then Answered(s.commitments[k], k.1, os) else s.commitments[k]
    {
      assert k in s'.commitments;
    }
  }

  /** What a successful list of reveals leaves behind, without running it. */
  lemma {:induction false} RevealAllOutcome(hash: Hash, s: State, key: RoundKey, os: seq<Opening>)
    requires Inv(hash, s) && os != [] && RevealAll(hash, s, key, os).Ok?
    ensures key in s.rounds && s.rounds[key].revealed + |os| <= s.rounds[key].committed <= 16
    ensures RoundOutcome(s, key, |os|, RevealAll(hash, s, key, os).value)
    ensures EntryOutcome(s, key, os, RevealAll(hash, s, key, os).value)
    decreases |os|
  {
    hide Inv, Attempt, EntryOutcome;
    var o, rest := os[0], os[1..];
    OneReveal(hash, s, key, o);
    var s', s'' := Attempt(hash, s, key, o).value, RevealAll(hash, s, key, os).value;
    if rest == [] {
      EntryNothing(s', key, s'');
    } else {
      RevealAllOutcome(hash, s', key, rest);
      Advance(s.rounds[key], |rest|);
    }
    EntryCompose(s, key, os, s', s'');
  }

  lemma EntryNothing(s: State, key: RoundKey, s': State)
    requires s' == s
    ensures EntryOutcome(s, key, [], s')
  {
  }

  lemma Advance(r: Round, n: nat)
    requires r.revealed + 1 + n <= r.committed <= 16
    ensures Advanced(Advanced(r, 1), n) == Advanced(r, 1 + n)
  {
  }

  // ---------------------------------------------------------------- any order

  /** The two lists hold the same reveals, up to the times at which they run. */
  ghost predicate SameReveals(os: seq<Opening>, os': seq<Opening>) {
    && |os| == |os'|
    && (forall i :: 0 <= i < |os| ==> Matched(os[i], os'))
    && (forall i :: 0 <= i < |os'| ==> Matched(os'[i], os))
  }

  ghost predicate Matched(o: Opening, os: seq<Opening>) {
    exists j :: 0 <= j < |os| && os[j].(now := o.now) == o
  }

  ghost predicate SameUpToTimes(s: State, s': State) {
    && s'.config == s.config && s'.auditors == s.auditors && s'.rounds == s.rounds
    && s'.commitments.Keys == s.commitments.Keys
    && (forall k :: k in s.commitments ==> s'.commitments[k].(revealedAt := 0) == s.commitments[k].(revealedAt := 0))
  }

  /** Without a reveal by p the entry is as before; with one it is shown by that one. */
  lemma {:induction false} AnsweredBy(c: Commitment, p: Key, os: seq<Opening>)
    requires Distinct(os)
    ensures !By(os, p) ==> Answered(c, p, os) == c
    ensures forall i :: 0 <= i < |os| && os[i].participant == p ==> Answered(c, p, os) == Shown(c, os[i])
    decreases |os|
  {
    if os != [] {
      var rest := os[1..];
      AnsweredBy(if os[0].participant == p then Shown(c, os[0]) else c, p, rest);
      assert forall i :: 1 <= i < |os| ==> os[i] == rest[i - 1];
    }
  }

  lemma SameAnswer(c: Commitment, p: Key, os: seq<Opening>, os': seq<Opening>)
    requires Distinct(os) && Distinct(os') && SameReveals(os, os')
    ensures Answered(c, p, os).(revealedAt := 0) == Answered(c, p, os').(revealedAt := 0)
  {
    AnsweredBy(c, p, os);
    AnsweredBy(c, p, os');
    hide Answered, Distinct;
    if By(os, p) {
      var i :| 0 <= i < |os| && os[i].participant == p;
      assert Matched(os[i], os');
      var j :| 0 <= j < |os'| && os'[j].(now := os[i].now) == os[i];
      assert os'[j].participant == p;
    }
  }

  // Counting: lists with as many reveals and the same participants are both without repetition or both with.

  function Participants(os: seq<Opening>): (ps: set<Key>)
    ensures forall p :: p in ps <==> By(os, p)
  {
    set i | 0 <= i < |os| :: os[i].participant
  }

  /** No participant reveals twice exactly when there are as many participants as reveals. */
  lemma {:induction false} DistinctCount(os: seq<Opening>)
    ensures |Participants(os)| <= |os|
    ensures Distinct(os) <==> |Participants(os)| == |os|
    decreases |os|
  {
    if os == [] {
      assert Participants(os) == {};
    } else {
      var p, rest := os[0].participant, os[1..];
      DistinctCount(rest);
      forall x ensures By(os, x) <==> x == p || By(rest, x) {
        if By(os, x) && x != p {
          var i :| 0 <= i < |os| && os[i].participant == x;
          assert rest[i - 1].participant == x;
        } else if By(rest, x) {
          var i :| 0 <= i < |rest| && rest[i].participant == x;
          assert os[i + 1].participant == x;
        }
      }
      assert Participants(os) == {p} + Participants(rest);
    }
  }

  lemma SameDistinct(os: seq<Opening>, os': seq<Opening>)
    requires SameReveals(os, os')
    ensures Distinct(os) <==> Distinct(os')
  {
    DistinctCount(os);
    DistinctCount(os');
    hide Distinct, By, Matched;
    forall p ensures By(os, p) <==> By(os', p) {
      if By(os, p) {
        SameBy(os, os', p);
      } else if By(os', p) {
        SameBy(os', os, p);
      }
    }
    assert Participants(os) == Participants(os');
  }

  lemma SameBy(os: seq<Opening>, os': seq<Opening>, p: Key)
    requires By(os, p) && forall i :: 0 <= i < |os| ==> Matched(os[i], os')
    ensures By(os', p)
  {
    var i :| 0 <= i < |os| && os[i].participant == p;
    assert Matched(os[i], os');
    var j :| 0 <= j < |os'| && os'[j].(now := os[i].now) == os[i];
    assert os'[j].participant == p;
  }

  /** A reveal that is possible stays possible at any time in the window. */
  lemma ReadyAnyTime(hash: Hash, s: State, key: RoundKey, o: Opening, now: I64)
    requires Attempt(hash, s, key, o).Ok?
    ensures key in s.rounds && (now <= s.rounds[key].revealCloseAt ==> Attempt(hash, s, key, o.(now := now)).Ok?)
  {
  }

  /** Every order of the same reveals, at any times within the window, succeeds when one does, and reaches the same
      phase, count and entries up to the recorded times. */
  lemma RevealsConfluent(hash: Hash, s: State, key: RoundKey, os: seq<Opening>, os': seq<Opening>)
    requires Inv(hash, s) && key in s.rounds && RevealAll(hash, s, key, os).Ok?
    requires SameReveals(os, os')
    requires forall i :: 0 <= i < |os'| ==> os'[i].now <= s.rounds[key].revealCloseAt
    ensures RevealAll(hash, s, key, os').Ok?
    ensures SameUpToTimes(RevealAll(hash, s, key, os).value, RevealAll(hash, s, key, os').value)
  {
    hide Inv, Attempt, Distinct, RevealAll, Answered, Advanced;
    AllSucceed(hash, s, key, os);
    AllSucceed(hash, s, key, os');
    SameDistinct(os, os');
    forall i | 0 <= i < |os'| ensures Attempt(hash, s, key, os'[i]).Ok? {
      assert Matched(os'[i], os);
      var j :| 0 <= j < |os| && os[j].(now := os'[i].now) == os'[i];
      ReadyAnyTime(hash, s, key, os[j], os'[i].now);
    }
    NothingRevealed(hash, s, key);
    if os != [] {
      RevealAllOutcome(hash, s, key, os);
      RevealAllOutcome(hash, s, key, os');
      var r, r' := RevealAll(hash, s, key, os).value, RevealAll(hash, s, key, os').value;
      forall k | k in r.commitments ensures r'.commitments[k].(revealedAt := 0) == r.commitments[k].(revealedAt := 0) {
        assert k in s.commitments;
        SameAnswer(s.commitments[k], k.1, os, os');
      }
    } else {
      assert os' == [];
    }
  }

  lemma NothingRevealed(hash: Hash, s: State, key: RoundKey)
    ensures RevealAll(hash, s, key, []) == Ok(s)
  {
  }
}
