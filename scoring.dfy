/**
 * The arithmetic that decides a round: average, target and winner.
 *
 * The server computes average = sum / 2 and target = 0.8 * average in
 * floating point, and the winner by reducing the slots' distances
 * |number - target| from an initial distance of Infinity with a strict `<`.
 * Here every quantity is scaled to an integer: the average times 2, the
 * target times 5 and the distance times 5. Scaling by a positive constant
 * keeps every comparison, so the winner is the same.
 */
module Scoring {

  function Abs(x: int): nat
  {
    if x < 0 then -x else x
  }

  /** The sum of the submitted numbers, a reduce from 0. */
  function Sum(xs: seq<int>): int
  {
    if xs == [] then 0 else xs[0] + Sum(xs[1..])
  }

  /** Twice the average: the server divides the sum by 2 whatever the slot count. */
  function AverageTimes2(xs: seq<int>): int
  {
    Sum(xs)
  }

  /** Five times the target: 5 * 0.8 * (sum / 2) == 2 * sum. */
  function TargetTimes5(xs: seq<int>): int
  {
    2 * Sum(xs)
  }

  /** Five times the distance |x - target|. */
  function DistanceTimes5(x: int, xs: seq<int>): nat
  {
    Abs(5 * x - TargetTimes5(xs))
  }

  function Distances(xs: seq<int>): seq<nat>
  {
    seq(|xs|, i requires 0 <= i < |xs| => DistanceTimes5(xs[i], xs))
  }

  /** The reduce's accumulated distance, which starts at Infinity. */
  datatype Distance = Finite(d: nat) | Infinity

  /** The reduce's strict `<`: any finite distance is below Infinity. */
  predicate Below(d: nat, best: Distance)
  {
    best.Infinity? || d < best.d
  }

  /** The reduce over the distances from index `i`, with the best distance and index so far. */
  function ArgMinFrom(ds: seq<nat>, i: nat, best: Distance, bestIndex: int): int
    requires i <= |ds|
    decreases |ds| - i
  {
    if i == |ds| then bestIndex
    else if Below(ds[i], best) then ArgMinFrom(ds, i + 1, Finite(ds[i]), i)
    else ArgMinFrom(ds, i + 1, best, bestIndex)
  }

  /** `k` holds the smallest distance and no earlier index holds one as small. */
  predicate IsFirstMin(ds: seq<nat>, k: int)
  {
    && 0 <= k < |ds|
    && (forall j :: 0 <= j < |ds| ==> ds[k] <= ds[j])
    && (forall j :: 0 <= j < k ==> ds[k] < ds[j])
  }

  lemma {:induction false} ArgMinFromIsFirstMin(ds: seq<nat>, i: nat, best: Distance, bestIndex: int)
    requires i <= |ds|
    requires i == 0 ==> best == Infinity && bestIndex == -1
    requires 0 < i ==> IsFirstMin(ds[..i], bestIndex) && best == Finite(ds[bestIndex])
    ensures |ds| == 0 ==> ArgMinFrom(ds, i, best, bestIndex) == -1
    ensures 0 < |ds| ==> IsFirstMin(ds, ArgMinFrom(ds, i, best, bestIndex))
    decreases |ds| - i
  {
    if i == |ds| {
      if 0 < i {
        assert ds[..i] == ds;
      }
    } else if Below(ds[i], best) {
      assert IsFirstMin(ds[..i + 1], i) by {
        if 0 < i {
          assert forall j :: 0 <= j < i ==> ds[..i + 1][j] == ds[..i][j];
        }
      }
      ArgMinFromIsFirstMin(ds, i + 1, Finite(ds[i]), i);
    } else {
      assert IsFirstMin(ds[..i + 1], bestIndex) by {
        assert forall j :: 0 <= j < i ==> ds[..i + 1][j] == ds[..i][j];
      }
      ArgMinFromIsFirstMin(ds, i + 1, best, bestIndex);
    }
  }

  /**
   * The index of the round's winner: the first slot whose number is closest
   * to the target, or -1 when there are no slots.
   */
  function WinnerIndex(xs: seq<int>): (r: int)
    ensures |xs| == 0 ==> r == -1
    ensures 0 < |xs| ==> IsFirstMin(Distances(xs), r)
  {
    ArgMinFromIsFirstMin(Distances(xs), 0, Infinity, -1);
    ArgMinFrom(Distances(xs), 0, Infinity, -1)
  }

  /** The first minimal index is unique, so the winner is fully determined. */
  lemma FirstMinUnique(ds: seq<nat>, k: int, m: int)
    requires IsFirstMin(ds, k) && IsFirstMin(ds, m)
    ensures k == m
  {
    assert ds[k] == ds[m];
  }

  /** With two numbers a and b, 5|a - target| == |3a - 2b| and 5|b - target| == |3b - 2a|. */
  lemma TwoDistances(a: int, b: int)
    ensures Distances([a, b]) == [Abs(3 * a - 2 * b), Abs(3 * b - 2 * a)]
  {
    assert Sum([a, b]) == a + b by {
      assert [a, b][1..] == [b];
      assert Sum([b]) == b by { assert [b][1..] == []; }
    }
  }

  /** Two slots: slot 1 wins only when strictly closer; otherwise slot 0. */
  lemma TwoPlayerWinner(a: int, b: int)
    ensures WinnerIndex([a, b]) == if Abs(3 * b - 2 * a) < Abs(3 * a - 2 * b) then 1 else 0
  {
    TwoDistances(a, b);
    var ds := Distances([a, b]);
    var r := WinnerIndex([a, b]);
    assert IsFirstMin(ds, r);
    if r == 0 {
      assert ds[0] <= ds[1];
    } else {
      assert ds[1] < ds[0];
    }
  }

  /** The two distances tie exactly when a == b or a == -b. */
  lemma TwoPlayerTie(a: int, b: int)
    ensures DistanceTimes5(a, [a, b]) == DistanceTimes5(b, [a, b]) <==> a == b || a == -b
  {
    TwoDistances(a, b);
    assert DistanceTimes5(a, [a, b]) == Distances([a, b])[0];
    assert DistanceTimes5(b, [a, b]) == Distances([a, b])[1];
  }

  /** With numbers that are not negative, the strictly smaller number wins, and a tie goes to slot 0. */
  lemma NonNegativeSmallerWins(a: int, b: int)
    requires 0 <= a && 0 <= b
    ensures WinnerIndex([a, b]) == if b < a then 1 else 0
  {
    TwoPlayerWinner(a, b);
  }

  /** Numbers (40, 60): average 50, target 40, slot 0 wins. */
  lemma ExampleFortySixty()
    ensures AverageTimes2([40, 60]) == 2 * 50
    ensures TargetTimes5([40, 60]) == 5 * 40
    ensures WinnerIndex([40, 60]) == 0
  {
  }

  /** Numbers (50, 50): both at distance 10 from target 40; the tie goes to slot 0. */
  lemma ExampleTie()
    ensures TargetTimes5([50, 50]) == 5 * 40
    ensures DistanceTimes5(50, [50, 50]) == 5 * 10
    ensures WinnerIndex([50, 50]) == 0
  {
  }
}
