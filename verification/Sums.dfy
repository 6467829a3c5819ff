/** Finite sums in a group. */
module Sums {
  import opened Groups

  function Sum<T>(g: Group<T>, f: nat -> T, n: nat): T {
    if n == 0 then g.zero else g.add(Sum(g, f, n - 1), f(n - 1))
  }

  ghost predicate Terms<T(!new)>(g: Group<T>, f: nat -> T, n: nat) {
    forall i: nat :: i < n ==> g.elem(f(i))
  }

  lemma {:induction false} SumElem<T(!new)>(g: Group<T>, f: nat -> T, n: nat)
    requires Laws(g) && Terms(g, f, n)
    ensures g.elem(Sum(g, f, n))
  {
    hide Laws;
    if n == 0 {
      ZeroElem(g);
    } else {
      SumElem(g, f, n - 1);
      AddElem(g, Sum(g, f, n - 1), f(n - 1));
    }
  }

  /** The first m terms and then n more. */
  lemma {:induction false} SumSplit<T(!new)>(g: Group<T>, f: nat -> T, rest: nat -> T, m: nat, n: nat)
    requires Laws(g) && Terms(g, f, m + n)
    requires forall i: nat :: i < n ==> rest(i) == f(m + i)
    ensures Sum(g, f, m + n) == g.add(Sum(g, f, m), Sum(g, rest, n))
  {
    hide Laws;
    SumElem(g, f, m);
    if n == 0 {
      AddZero(g, Sum(g, f, m));
    } else {
      SumSplit(g, f, rest, m, n - 1);
      assert rest(n - 1) == f(m + (n - 1));
      assert Terms(g, rest, n - 1) by {
        forall i: nat | i < n - 1 ensures g.elem(rest(i)) {
          assert rest(i) == f(m + i);
        }
      }
      SumElem(g, rest, n - 1);
      AddAssociates(g, Sum(g, f, m), Sum(g, rest, n - 1), rest(n - 1));
    }
  }
}
