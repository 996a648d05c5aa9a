/**
  Generic scans over a provider's response entries.

  Every adapter walks the entries of a decoded response in order and asks, for each
  entry, whether it yields a rate (`pick`). Two loop shapes occur:
  - `ScanFirst`: stop at the first entry that yields a rate (a loop with an early `return`);
  - `ScanLast`: keep overwriting the slot, so the last entry that yields a rate wins.
  In both, the slot keeps its `prior` content when no entry yields anything.
 */
module Scan {
  import opened Wrappers

  /** No entry of `xs` yields a value. */
  ghost predicate NoHit<E, T>(xs: seq<E>, pick: E -> Option<T>) {
    forall i | 0 <= i < |xs| :: pick(xs[i]).None?
  }

  /** Entry `i` yields a value and no entry before it does. */
  ghost predicate IsFirstHit<E, T>(xs: seq<E>, pick: E -> Option<T>, i: int) {
    && 0 <= i < |xs|
    && pick(xs[i]).Some?
    && forall j | 0 <= j < i :: pick(xs[j]).None?
  }

  /** Entry `i` yields a value and no entry after it does. */
  ghost predicate IsLastHit<E, T>(xs: seq<E>, pick: E -> Option<T>, i: int) {
    && 0 <= i < |xs|
    && pick(xs[i]).Some?
    && forall j | i < j < |xs| :: pick(xs[j]).None?
  }

  /** The loop that returns at the first entry yielding a value. */
  function ScanFirst<E, T>(xs: seq<E>, pick: E -> Option<T>, prior: Option<T>): (r: Option<T>)
    ensures NoHit(xs, pick) ==> r == prior
    ensures !NoHit(xs, pick) ==> exists i :: IsFirstHit(xs, pick, i) && r == pick(xs[i])
  {
    if |xs| == 0 then prior
    else if pick(xs[0]).Some? then
      assert IsFirstHit(xs, pick, 0);
      pick(xs[0])
    else
      var r := ScanFirst(xs[1..], pick, prior);
      assert !NoHit(xs, pick) ==> exists i :: IsFirstHit(xs, pick, i) && r == pick(xs[i]) by {
        if !NoHit(xs, pick) {
          var k :| 0 <= k < |xs| && pick(xs[k]).Some?;
          assert pick(xs[1..][k - 1]).Some?;
          var i :| IsFirstHit(xs[1..], pick, i) && r == pick(xs[1..][i]);
          assert IsFirstHit(xs, pick, i + 1);
        }
      }
      r
  }

  /** The loop without an early exit that overwrites the slot at every entry yielding a value. */
  function ScanLast<E, T>(xs: seq<E>, pick: E -> Option<T>, prior: Option<T>): (r: Option<T>)
    ensures NoHit(xs, pick) ==> r == prior
    ensures !NoHit(xs, pick) ==> exists i :: IsLastHit(xs, pick, i) && r == pick(xs[i])
  {
    if |xs| == 0 then prior
    else
      var slot := if pick(xs[0]).Some? then pick(xs[0]) else prior;
      var r := ScanLast(xs[1..], pick, slot);
      assert !NoHit(xs, pick) ==> exists i :: IsLastHit(xs, pick, i) && r == pick(xs[i]) by {
        if NoHit(xs[1..], pick) {
          forall j | 1 <= j < |xs| ensures pick(xs[j]).None? {
            assert xs[j] == xs[1..][j - 1];
          }
          if pick(xs[0]).Some? {
            assert IsLastHit(xs, pick, 0);
          }
        } else {
          var i :| IsLastHit(xs[1..], pick, i) && r == pick(xs[1..][i]);
          forall j | i + 1 < j < |xs| ensures pick(xs[j]).None? {
            assert xs[j] == xs[1..][j - 1];
          }
          assert IsLastHit(xs, pick, i + 1);
        }
      }
      r
  }

  /** Index of the first entry satisfying `stop`, or `|xs|` when there is none. */
  function FirstWhere<E>(xs: seq<E>, stop: E -> bool): (k: nat)
    ensures k <= |xs|
    ensures forall i | 0 <= i < k :: !stop(xs[i])
    ensures k < |xs| ==> stop(xs[k])
  {
    if |xs| == 0 then 0
    else if stop(xs[0]) then 0
    else
      var k := FirstWhere(xs[1..], stop) + 1;
      assert forall i | 1 <= i < k :: xs[i] == xs[1..][i - 1];
      k
  }

  /** Whatever the slot held, the first hit alone decides what `ScanFirst` returns. */
  lemma FirstHitDecides<E, T>(xs: seq<E>, pick: E -> Option<T>, prior: Option<T>, i: int)
    requires IsFirstHit(xs, pick, i)
    ensures ScanFirst(xs, pick, prior) == pick(xs[i])
  {
    var k :| IsFirstHit(xs, pick, k) && ScanFirst(xs, pick, prior) == pick(xs[k]);
    FirstHitUnique(xs, pick, i, k);
  }

  /** Whatever the slot held, the last hit alone decides what `ScanLast` returns. */
  lemma LastHitDecides<E, T>(xs: seq<E>, pick: E -> Option<T>, prior: Option<T>, i: int)
    requires IsLastHit(xs, pick, i)
    ensures ScanLast(xs, pick, prior) == pick(xs[i])
  {
    var k :| IsLastHit(xs, pick, k) && ScanLast(xs, pick, prior) == pick(xs[k]);
    LastHitUnique(xs, pick, i, k);
  }

  /** `ScanLast` only sees what `pick` says about the entries actually scanned. */
  lemma {:induction false} ScanLastPointwise<E, T>(xs: seq<E>, p: E -> Option<T>, q: E -> Option<T>, prior: Option<T>)
    requires forall i | 0 <= i < |xs| :: p(xs[i]) == q(xs[i])
    ensures ScanLast(xs, p, prior) == ScanLast(xs, q, prior)
  {
    if |xs| > 0 {
      var slot := if p(xs[0]).Some? then p(xs[0]) else prior;
      assert forall i | 0 <= i < |xs[1..]| :: xs[1..][i] == xs[i + 1];
      ScanLastPointwise(xs[1..], p, q, slot);
    }
  }

  /** At most one entry is the first hit. */
  lemma FirstHitUnique<E, T>(xs: seq<E>, pick: E -> Option<T>, i: int, j: int)
    requires IsFirstHit(xs, pick, i) && IsFirstHit(xs, pick, j)
    ensures i == j
  {
  }

  /** At most one entry is the last hit. */
  lemma LastHitUnique<E, T>(xs: seq<E>, pick: E -> Option<T>, i: int, j: int)
    requires IsLastHit(xs, pick, i) && IsLastHit(xs, pick, j)
    ensures i == j
  {
  }
}
