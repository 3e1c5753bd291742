/** Small shared vocabulary: optional values, sums, and counting in a table.
 *
 *  Tables are sequences of rows in insertion order, so `Sum` and `Count` peel off
 *  the last row: appending a row is then the definition itself.
 */
module Basics {

  datatype Option<+T> = None | Some(value: T)

  /** Instants are whole microseconds, the resolution the stored timestamps have. */
  type Time = int

  const SECOND: int := 1_000_000
  const MINUTE: int := 60 * SECOND
  const HOUR: int := 60 * MINUTE
  const DAY: int := 24 * HOUR

  function Sum(xs: seq<int>): int
  {
    if |xs| == 0 then 0 else Sum(xs[..|xs| - 1]) + xs[|xs| - 1]
  }

  lemma {:induction false} SumUpdate(xs: seq<int>, i: nat, x: int)
    requires i < |xs|
    ensures Sum(xs[i := x]) == Sum(xs) - xs[i] + x
    decreases |xs|
  {
    var n := |xs| - 1;
    if i == n {
      assert xs[i := x][..n] == xs[..n];
    } else {
      assert xs[i := x][..n] == xs[..n][i := x];
      SumUpdate(xs[..n], i, x);
    }
  }

  function Count<T>(xs: seq<T>, p: T -> bool): (n: nat)
    ensures n <= |xs|
  {
    if |xs| == 0 then 0
    else Count(xs[..|xs| - 1], p) + if p(xs[|xs| - 1]) then 1 else 0
  }

  lemma {:induction false} CountNone<T>(xs: seq<T>, p: T -> bool)
    requires forall x :: x in xs ==> !p(x)
    ensures Count(xs, p) == 0
  {
    if |xs| == 0 {
    } else {
      CountNone(xs[..|xs| - 1], p);
    }
  }

  /** Rows counted by `p` all lie at positions lo..hi, so there are at most hi - lo. */
  lemma {:induction false} CountWithin<T>(xs: seq<T>, p: T -> bool, lo: nat, hi: nat)
    requires lo <= hi
    requires forall i {:trigger xs[i]} :: 0 <= i < |xs| && p(xs[i]) ==> lo <= i < hi
    ensures Count(xs, p) <= hi - lo
  {
    if |xs| == 0 {
    } else {
      var init := xs[..|xs| - 1];
      if lo < hi {
        if p(xs[|xs| - 1]) {
          forall i {:trigger init[i]} | 0 <= i < |init| && p(init[i]) ensures lo <= i < hi - 1 {
            assert xs[i] == init[i];
          }
          CountWithin(init, p, lo, hi - 1);
        } else {
          CountWithin(init, p, lo, hi);
        }
      } else {
        CountNone(xs, p);
      }
    }
  }
}
