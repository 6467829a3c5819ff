/** How often an auditor key can rotate. */
module AuditorRate {
  import opened Wrappers
  import opened ProgramState
  import opened ProgramSteps

  /** The times of the successful rotations of a mint's auditor, in order. */
  function Rotations(hash: Hash, events: seq<Event>, mint: Key): seq<int> {
    if events == [] then []
    else
      var last := |events| - 1;
      var e := events[last];
      Rotations(hash, events[..last], mint)
      + if e.action.DoAuditorRotate? && e.action.mint == mint && Try(hash, After(hash, events[..last]), e).Ok?
        then [e.now as int] else []
  }

  /** Each time is at least c after the one before, and the first at least c after the start. */
  predicate Spaced(start: int, times: seq<int>, c: int) {
    forall i :: 0 <= i < |times| ==> times[i] >= Before(start, times, i) + c
  }

  function Before(start: int, times: seq<int>, i: int): int
    requires 0 <= i < |times|
  {
    if i == 0 then start else times[i - 1]
  }

  function Latest(start: int, times: seq<int>): int {
    if times == [] then start else times[|times| - 1]
  }

  lemma StepAuditors(hash: Hash, s: State, e: Event, mint: Key)
    requires mint in s.auditors
    ensures var s' := Exec(hash, s, e);
            var a := s.auditors[mint];
            && mint in s'.auditors
            && (if e.action.DoAuditorRotate? && e.action.mint == mint && Try(hash, s, e).Ok?
                then s'.auditors[mint] == a.(pubkey := e.action.pubkey, lastRotatedAt := e.now)
                  && SaturatingSub(e.now, a.lastRotatedAt) >= a.cooldown
                else s'.auditors[mint] == a)
  {
  }

  lemma StepNoAuditor(hash: Hash, s: State, e: Event, mint: Key)
    requires mint !in s.auditors
    ensures !(e.action.DoAuditorRotate? && e.action.mint == mint && Try(hash, s, e).Ok?)
    ensures mint in Exec(hash, s, e).auditors ==>
              Exec(hash, s, e).auditors[mint].lastRotatedAt == Exec(hash, s, e).auditors[mint].registeredAt
  {
  }

  /** Saturating subtraction does not let a rotation through early. */
  lemma SaturationSafe(now: I64, last: I64, c: I64)
    ensures SaturatingSub(now, last) >= c && c > I64_MIN ==> now - last >= c
  {
  }

  lemma SpacedAppend(start: int, times: seq<int>, c: int, t: int)
    requires Spaced(start, times, c) && t - Latest(start, times) >= c
    ensures Spaced(start, times + [t], c) && Latest(start, times + [t]) == t
  {
    forall i | 0 <= i < |times + [t]| ensures (times + [t])[i] >= Before(start, times + [t], i) + c {
      if i < |times| {
        assert times[i] >= Before(start, times, i) + c;
      }
    }
  }

  /** The successful rotations of an entry with a positive cooldown are spaced by it, counted from the registration. */
  lemma {:induction false} RotationsSpaced(hash: Hash, events: seq<Event>, mint: Key)
    ensures var s := After(hash, events);
            var times := Rotations(hash, events, mint);
            if mint in s.auditors then
              && s.auditors[mint].lastRotatedAt == Latest(s.auditors[mint].registeredAt, times)
              && (s.auditors[mint].cooldown > I64_MIN ==>
                    Spaced(s.auditors[mint].registeredAt, times, s.auditors[mint].cooldown))
            else times == []
  {
    hide Exec, Try;
    if events != [] {
      var last := |events| - 1;
      var s, e := After(hash, events[..last]), events[last];
      RotationsSpaced(hash, events[..last], mint);
      if mint in s.auditors {
        StepAuditors(hash, s, e, mint);
        var a := s.auditors[mint];
        SaturationSafe(e.now, a.lastRotatedAt, a.cooldown);
        var times := Rotations(hash, events[..last], mint);
        assert times + [] == times;
        if a.cooldown > I64_MIN && e.now - a.lastRotatedAt >= a.cooldown {
          SpacedAppend(a.registeredAt, times, a.cooldown, e.now);
        }
      } else {
        StepNoAuditor(hash, s, e, mint);
      }
    }
  }

  lemma {:induction false} SpacedSum(start: int, times: seq<int>, c: int, i: nat, j: nat)
    requires Spaced(start, times, c) && i <= j < |times|
    ensures times[j] - times[i] >= (j - i) * c && times[i] - start >= (i + 1) * c
    decreases j, i
  {
    if i < j {
      SpacedSum(start, times, c, i, j - 1);
      assert (j - i) * c == (j - 1 - i) * c + c;
    } else {
      assert (j - i) * c == 0 && (i + 1) * c == i * c + c;
      assert times[i] >= Before(start, times, i) + c;
      if i > 0 {
        SpacedSum(start, times, c, i - 1, i - 1);
        assert (i - 1 + 1) * c == i * c;
      }
    }
  }

  /** k rotations take k cooldowns from the registration: k*c <= t - registered_at. */
  lemma RotationRate(hash: Hash, events: seq<Event>, mint: Key)
    requires mint in After(hash, events).auditors && After(hash, events).auditors[mint].cooldown > 0
    ensures var a := After(hash, events).auditors[mint];
            |Rotations(hash, events, mint)| * a.cooldown <= a.lastRotatedAt - a.registeredAt
  {
    hide After, Rotations;
    RotationsSpaced(hash, events, mint);
    var a, times := After(hash, events).auditors[mint], Rotations(hash, events, mint);
    if times != [] {
      SpacedSum(a.registeredAt, times, a.cooldown, |times| - 1, |times| - 1);
    }
  }

  /** Any window of length w holds at most w/c + 1 of them. */
  lemma RotationWindow(hash: Hash, events: seq<Event>, mint: Key, i: nat, j: nat, w: nat)
    requires mint in After(hash, events).auditors && After(hash, events).auditors[mint].cooldown > 0
    requires i <= j < |Rotations(hash, events, mint)|
    requires Rotations(hash, events, mint)[j] - Rotations(hash, events, mint)[i] <= w
    ensures j - i + 1 <= w / After(hash, events).auditors[mint].cooldown + 1
  {
    hide After, Rotations;
    RotationsSpaced(hash, events, mint);
    var a, times := After(hash, events).auditors[mint], Rotations(hash, events, mint);
    SpacedSum(a.registeredAt, times, a.cooldown, i, j);
    QuotientBound(w, a.cooldown, j - i);
  }

  lemma QuotientBound(w: nat, c: int, k: nat)
    requires c > 0 && k * c <= w
    ensures k <= w / c
  {
    assert w == c * (w / c) + w % c;
    SmallerFactor(k, w / c + 1, c);
  }

  lemma SmallerFactor(k: int, m: int, c: int)
    requires c > 0
    ensures k * c < c * m ==> k < m
  {
    assert k >= m ==> (k - m) * c >= 0;
  }

  function Fives(k: nat): seq<int> {
    if k == 0 then [] else Fives(k - 1) + [5]
  }

  /** The accounts after an auditor has registered with the cooldown c. */
  ghost function Registered(c: I64): State {
    Initialize(EMPTY, 5, 1).value.(auditors := map[7 := Auditor(7, [], 5, 5, c, 1)])
  }

  /** Without a positive cooldown nothing limits the rate: any number of rotations in the same second. */
  lemma {:induction false} NoCooldownNoLimit(hash: Hash, c: I64, k: nat) returns (events: seq<Event>)
    requires c <= 0
    ensures After(hash, events) == Registered(c) && Rotations(hash, events, 7) == Fives(k) && |Fives(k)| == k
  {
    if k == 0 {
      var e0, e1 := Event(5, DoInitialize(1)), Event(5, DoAuditorRegister(1, 7, [], true, c));
      RunOne(hash, [], e0, Initialize(EMPTY, 5, 1).value);
      RunOne(hash, [e0], e1, Registered(c));
      RotateNone(hash, [], e0, 7);
      RotateNone(hash, [e0], e1, 7);
      assert [e0] == [] + [e0];
      events := [e0] + [e1];
    } else {
      var before := NoCooldownNoLimit(hash, c, k - 1);
      var e := Event(5, DoAuditorRotate(1, 7, [], true));
      var s := Registered(c);
      assert s.auditors[7 := s.auditors[7]] == s.auditors && SaturatingSub(5, 5) == 0;
      RunOne(hash, before, e, s);
      RotateOne(hash, before, e, 7);
      events := before + [e];
    }
  }

  lemma RunOne(hash: Hash, events: seq<Event>, e: Event, s: State)
    requires Try(hash, After(hash, events), e) == Ok(s)
    ensures After(hash, events + [e]) == s
  {
    assert (events + [e])[..|events|] == events;
  }

  lemma RotateOne(hash: Hash, events: seq<Event>, e: Event, mint: Key)
    requires e.action.DoAuditorRotate? && e.action.mint == mint && Try(hash, After(hash, events), e).Ok?
    ensures Rotations(hash, events + [e], mint) == Rotations(hash, events, mint) + [e.now as int]
  {
    assert (events + [e])[..|events|] == events;
  }

  lemma RotateNone(hash: Hash, events: seq<Event>, e: Event, mint: Key)
    requires !e.action.DoAuditorRotate?
    ensures Rotations(hash, events + [e], mint) == Rotations(hash, events, mint)
  {
    assert (events + [e])[..|events|] == events;
  }
}
