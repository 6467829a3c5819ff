/** The SDK's discrete logarithm on H: a table of baby steps, then giant steps. */
module BabyStepGiantStep {
  import opened Bytes
  import opened Wrappers
  import opened Groups
  import opened Scalars
  import opened DiscreteLog
  import opened SdkGroup

  function Lookup(table: map<seq<Byte>, int>, key: seq<Byte>): Option<int> {
    if key in table then Some(table[key]) else None
  }

  /** The entry for a key is the first of the multiples computed so far that has this encoding. */
  ghost predicate IsEntry<T(!new)>(g: Group<T>, H: T, key: seq<Byte>, entry: Option<int>, size: nat) {
    match entry
    case Some(k) =>
      && 0 <= k < size && g.enc(Times(g, k, H)) == key
      && (forall i: nat :: i < k ==> g.enc(Times(g, i, H)) != key)
    case None => forall i: nat :: i < size ==> g.enc(Times(g, i, H)) != key
  }

  ghost predicate IsTable<T(!new)>(g: Group<T>, H: T, table: map<seq<Byte>, int>, size: nat) {
    forall key :: IsEntry(g, H, key, Lookup(table, key), size)
  }

  lemma TableGrows<T(!new)>(g: Group<T>, H: T, table: map<seq<Byte>, int>, size: nat)
    requires IsTable(g, H, table, size)
    ensures var key := g.enc(Times(g, size, H));
            IsTable(g, H, if key in table then table else table[key := size], size + 1)
  {
    hide Times;
    var key := g.enc(Times(g, size, H));
    var bigger := if key in table then table else table[key := size];
    forall k ensures IsEntry(g, H, k, Lookup(bigger, k), size + 1) {
      assert IsEntry(g, H, k, Lookup(table, k), size);
    }
  }

  lemma EmptyTable<T(!new)>(g: Group<T>, H: T)
    ensures IsTable(g, H, map[], 0)
  {
  }

  /** No multiplier below n reaches the target within the bound. */
  ghost predicate NoneBelow<T(!new)>(g: Group<T>, H: T, target: T, bound: int, n: nat) {
    forall m: nat :: m < n && m <= bound ==> Times(g, m, H) != target
  }

  /** Where the current point sits: n steps of H short of the target. */
  lemma Shifted<T(!new)>(g: Group<T>, H: T, target: T, current: T, n: nat, i: nat)
    requires Laws(g) && g.elem(H) && g.elem(current) && g.add(current, Times(g, n, H)) == target
    ensures Times(g, n + i, H) == target <==> g.enc(Times(g, i, H)) == g.enc(current)
  {
    hide Laws;
    TimesElem(g, i, H);
    TimesElem(g, n, H);
    TimesSum(g, i, n, H);
    EncInjective(g, Times(g, i, H), current);
    if Times(g, n + i, H) == target {
      Cancel(g, Times(g, i, H), current, Times(g, n, H));
    }
  }

  /** A giant step that finds nothing rules out the next `step` multipliers. */
  lemma RoundMisses<T(!new)>(g: Group<T>, H: T, target: T, current: T, bound: int, n: nat, step: nat,
                             table: map<seq<Byte>, int>)
    requires Laws(g) && g.elem(H) && g.elem(current) && g.add(current, Times(g, n, H)) == target
    requires IsTable(g, H, table, step + 1) && NoneBelow(g, H, target, bound, n)
    requires var found := Lookup(table, g.enc(current)); found.Some? ==> n + found.value > bound
    ensures NoneBelow(g, H, target, bound, n + step)
  {
    hide Laws, Times;
    forall m: nat | m < n + step && m <= bound ensures Times(g, m, H) != target {
      if m >= n {
        Shifted(g, H, target, current, n, m - n);
        assert IsEntry(g, H, g.enc(current), Lookup(table, g.enc(current)), step + 1);
      }
    }
  }

  /** A giant step that finds a candidate in range has found the least one. */
  lemma RoundHits<T(!new)>(g: Group<T>, H: T, target: T, current: T, bound: int, n: nat, step: nat,
                           table: map<seq<Byte>, int>, found: int)
    requires Laws(g) && g.elem(H) && g.elem(current) && g.add(current, Times(g, n, H)) == target
    requires IsTable(g, H, table, step + 1) && NoneBelow(g, H, target, bound, n)
    requires Lookup(table, g.enc(current)) == Some(found) && n + found <= bound
    ensures IsLeastLog(g, H, target, bound, Some(n + found))
  {
    hide Laws, Times;
    assert IsEntry(g, H, g.enc(current), Lookup(table, g.enc(current)), step + 1);
    Shifted(g, H, target, current, n, found);
    forall m: nat | m < n + found ensures Times(g, m, H) != target {
      if m >= n {
        Shifted(g, H, target, current, n, m - n);
      }
    }
  }

  /** Moving the current point by one giant step. */
  lemma GiantStep<T(!new)>(g: Group<T>, H: T, target: T, current: T, n: nat, step: nat)
    requires Laws(g) && g.elem(H) && g.elem(current) && g.add(current, Times(g, n, H)) == target
    ensures var next := g.add(current, g.neg(Times(g, step, H)));
            g.elem(next) && g.add(next, Times(g, n + step, H)) == target
  {
    hide Laws;
    var s, t := Times(g, step, H), Times(g, n, H);
    TimesElem(g, step, H);
    TimesElem(g, n, H);
    TimesSum(g, step, n, H);
    AddNeg(g, s);
    AddElem(g, current, g.neg(s));
    AddAssociates(g, g.add(current, g.neg(s)), s, t);
    AddAssociates(g, current, g.neg(s), s);
    AddZero(g, current);
  }

  /** n multipliers are ruled out, and current is n steps of H short of the target. */
  ghost predicate Position<T(!new)>(g: Group<T>, H: T, target: T, bound: int, current: T, n: nat) {
    g.elem(current) && g.add(current, Times(g, n, H)) == target && NoneBelow(g, H, target, bound, n)
  }

  lemma StartPosition<T(!new)>(g: Group<T>, H: T, target: T, bound: int)
    requires Laws(g) && g.elem(target)
    ensures Position(g, H, target, bound, target, 0)
  {
    hide Laws;
    AddZero(g, target);
    TimesNext(g, H, 0);
  }

  /** One round: either the least logarithm is found, or the position moves on by one giant step. */
  lemma RoundAdvances<T(!new)>(g: Group<T>, H: T, target: T, current: T, bound: int, n: nat, step: nat,
                               table: map<seq<Byte>, int>)
    requires Laws(g) && g.elem(H) && Position(g, H, target, bound, current, n) && IsTable(g, H, table, step + 1)
    ensures var found := Lookup(table, g.enc(current));
            if found.Some? && n + found.value <= bound
            then ScanFrom(g, H, target, 0, bound) == Some(n + found.value)
            else Position(g, H, target, bound, g.add(current, g.neg(Times(g, step, H))), n + step)
  {
    hide Laws, Times, IsTable, NoneBelow, Lookup, ScanFrom, IsLeastLog;
    var found := Lookup(table, g.enc(current));
    if found.Some? && n + found.value <= bound {
      RoundHits(g, H, target, current, bound, n, step, table, found.value);
      ScanIsLeastLog(g, H, target, bound, Some(n + found.value));
    } else {
      RoundMisses(g, H, target, current, bound, n, step, table);
      GiantStep(g, H, target, current, n, step);
    }
  }

  function GiantRounds(maxBalance: int, step: int): int
    requires step > 0
  {
    maxBalance / step + (if maxBalance % step == 0 then 0 else 1)
  }

  lemma RoundsCover(maxBalance: int, step: int)
    requires step > 0 && maxBalance >= 0
    ensures GiantRounds(maxBalance, step) >= 0 && Offset(GiantRounds(maxBalance, step) + 1, step) > maxBalance
  {
    assert maxBalance == (maxBalance / step) * step + maxBalance % step;
  }

  /** The table of the multiples 0*H .. step*H, both ends included. */
  method BabySteps<T(!new)>(g: Group<T>, H: T, step: nat) returns (table: map<seq<Byte>, int>)
    ensures IsTable(g, H, table, step + 1)
  {
    hide Times, IsTable, Lookup;
    table := map[];
    var babyStep := g.zero;
    EmptyTable(g, H);
    TimesNext(g, H, 0);
    for i := 0 to step + 1
      invariant babyStep == Times(g, if i <= step then i else step, H)
      invariant IsTable(g, H, table, i)
    {
      assert babyStep == Times(g, i, H);
      TableGrows(g, H, table, i);
      TimesNext(g, H, i);
      var key := g.enc(babyStep);
      if key !in table {
        table := table[key := i];
      }
      if i < step {
        babyStep := g.add(babyStep, H);
      }
    }
  }

  /** Baby-step giant-step returns what the linear scan returns: the least m in [0, maxBalance] with m*H = target,
      and None exactly when there is none. */
  method DiscreteLogOnH<T(!new)>(s: Setup<T>, target: T, maxBalance: int, step: int)
    returns (r: Result<Option<int>, SdkError>)
    requires s.Valid() && s.g.elem(target)
    ensures maxBalance < 0 ==> r == Ok(None)
    ensures maxBalance >= 0 && step <= 0 ==> r == Err(InvalidInput)
    ensures maxBalance >= 0 && step >= s.q ==> r == Err(ScalarOutOfRange)
    ensures maxBalance >= 0 && 0 < step < s.q ==> r == Ok(ScanFrom(s.g, s.H, target, 0, maxBalance))
  {
    hide Laws, PrimeOrder, IsTable, Position, Setup<T>.Valid, GiantRounds, ScanFrom, Offset, Times, Lookup;
    SetupFacts(s);
    if maxBalance < 0 {
      return Ok(None);
    }
    if step <= 0 {
      return Err(InvalidInput);
    }
    var g, H := s.g, s.H;
    var table := BabySteps(g, H, step);
    var giant :- Multiply(g, s.q, H, step);
    var giantFactor := g.neg(giant);
    var current := target;
    StartPosition(g, H, target, maxBalance);
    var giantRounds := GiantRounds(maxBalance, step);
    RoundsCover(maxBalance, step);
    OffsetFacts(0, step);
    for j := 0 to giantRounds + 1
      invariant Position(g, H, target, maxBalance, current, Offset(j, step))
    {
      var key := g.enc(current);
      LookupSpec(table, key);
      OffsetFacts(j, step);
      RoundAdvances(g, H, target, current, maxBalance, Offset(j, step), step, table);
      if key in table {
        var candidate := Offset(j, step) + table[key];
        if candidate <= maxBalance {
          return Ok(Some(candidate));
        }
      }
      current := g.add(current, giantFactor);
    }
    NoneFound(g, H, target, maxBalance, current, Offset(giantRounds + 1, step));
    return Ok(None);
  }

  lemma LookupSpec(table: map<seq<Byte>, int>, key: seq<Byte>)
    ensures Lookup(table, key) == if key in table then Some(table[key]) else None
  {
  }

  lemma TimesNext<T>(g: Group<T>, H: T, i: nat)
    ensures Times(g, 0, H) == g.zero && Times(g, i + 1, H) == g.add(Times(g, i, H), H)
  {
  }

  /** The number of multipliers covered by j giant steps. */
  function Offset(j: nat, step: nat): nat {
    j * step
  }

  lemma OffsetFacts(j: nat, step: nat)
    ensures Offset(0, step) == 0 && Offset(j + 1, step) == Offset(j, step) + step
  {
  }

  lemma NoneFound<T(!new)>(g: Group<T>, H: T, target: T, bound: int, current: T, n: nat)
    requires Position(g, H, target, bound, current, n) && n > bound
    ensures ScanFrom(g, H, target, 0, bound) == None
  {
    ScanIsLeastLog(g, H, target, bound, None);
  }
}
