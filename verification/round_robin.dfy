/** How the conductor spreads agents over switches, and how even the spread is. */
module RoundRobin {

  /** Without a reachable switch the choice falls back to all of them. */
  predicate Eligible(reach: seq<bool>, i: nat)
    requires i < |reach|
  {
    reach[i] || true !in reach
  }

  /** The first reachable index among `start`, `start + 1`, ..., counted round, within `n` of them. */
  function Search(reach: seq<bool>, start: nat, n: nat): (t: nat)
    requires |reach| > 0
    ensures start <= t <= start + n
    decreases n
  {
    if n == 0 || reach[start % |reach|] then start else Search(reach, start + 1, n - 1)
  }

  /** The index chosen and the next `rr_index`. */
  function Pick(reach: seq<bool>, rr: nat): (nat, nat)
    requires |reach| > 0
  {
    var t := Search(reach, rr, |reach|);
    if t < rr + |reach| then (t % |reach|, t % |reach| + 1)
    else (rr % |reach|, rr + 1)
  }

  /** One turn of the loop, at a position that is either taken or passed over. */
  lemma OneTurn(reach: seq<bool>, rr: nat, i: nat, idx: nat)
    requires i < |reach| && idx == (rr + i) % |reach|
    requires Search(reach, rr, |reach|) == Search(reach, rr + i, |reach| - i)
    ensures reach[idx] ==> Pick(reach, rr) == (idx, idx + 1)
    ensures !reach[idx] ==> Search(reach, rr, |reach|) == Search(reach, rr + (i + 1), |reach| - (i + 1))
  {
  }

  lemma NoTurnLeft(reach: seq<bool>, rr: nat)
    requires |reach| > 0 && Search(reach, rr, |reach|) == Search(reach, rr + |reach|, 0)
    ensures Pick(reach, rr) == (rr % |reach|, rr + 1)
  {
  }

  /** `k` picks in a row, by a conductor whose list and whose agents' network stay the same. */
  function Picks(reach: seq<bool>, rr: nat, k: nat): seq<nat>
    requires |reach| > 0
    decreases k
  {
    if k == 0 then []
    else
      var (i, next) := Pick(reach, rr);
      [i] + Picks(reach, next, k - 1)
  }

  function Count(s: seq<nat>, i: nat): nat {
    if s == [] then 0 else (if s[0] == i then 1 else 0) + Count(s[1..], i)
  }

  // --- Going round ---

  lemma MulOrder(p: nat, q: nat, n: nat)
    requires p < q
    ensures p * n + n <= q * n
  {
    assert q * n == p * n + n + (q - p - 1) * n;
  }

  lemma DivisionUnique(p: nat, s: nat, q: nat, r: nat, n: nat)
    requires s < n && r < n && p * n + s == q * n + r
    ensures s == r
  {
    if p < q {
      MulOrder(p, q, n);
    } else if q < p {
      MulOrder(q, p, n);
    }
  }

  lemma ModUnique(q: nat, r: nat, n: nat)
    requires r < n
    ensures (q * n + r) % n == r
  {
    DivisionUnique((q * n + r) / n, (q * n + r) % n, q, r, n);
  }

  lemma ModStep(a: nat, n: nat)
    requires n > 0
    ensures (a + 1) % n == if a % n + 1 == n then 0 else a % n + 1
  {
    var q, r := a / n, a % n;
    assert a == q * n + r;
    if r + 1 == n {
      assert a + 1 == (q + 1) * n + 0;
      ModUnique(q + 1, 0, n);
    } else {
      assert a + 1 == q * n + (r + 1);
      ModUnique(q, r + 1, n);
    }
  }

  /** Two cursors at the same index stay at the same index. */
  lemma {:induction false} InStep(a: nat, b: nat, d: nat, n: nat)
    requires n > 0 && a % n == b % n
    ensures (a + d) % n == (b + d) % n
    decreases d
  {
    if d > 0 {
      ModStep(a, n);
      ModStep(b, n);
      InStep(a + 1, b + 1, d - 1, n);
    }
  }

  /** How often a cursor that runs from `from` up to `until` is at index `i` of a ring of `n`. */
  function Passes(from: nat, until: nat, i: nat, n: nat): nat
    requires from <= until && n > 0
    decreases until - from
  {
    if from == until then 0 else (if from % n == i then 1 else 0) + Passes(from + 1, until, i, n)
  }

  lemma {:induction false} PassesSplit(from: nat, mid: nat, until: nat, i: nat, n: nat)
    requires from <= mid <= until && n > 0
    ensures Passes(from, until, i, n) == Passes(from, mid, i, n) + Passes(mid, until, i, n)
    decreases mid - from
  {
    if from < mid {
      PassesSplit(from + 1, mid, until, i, n);
    }
  }

  /** Up to the end of the ring every index ahead is passed once. */
  lemma {:induction false} PassesToEnd(from: nat, m: nat, i: nat, n: nat)
    requires n > 0 && i < n && from % n + m <= n
    ensures Passes(from, from + m, i, n) == if from % n <= i < from % n + m then 1 else 0
    decreases m
  {
    if m > 0 {
      ModStep(from, n);
      if m > 1 {
        PassesToEnd(from + 1, m - 1, i, n);
      }
    }
  }

  lemma EndOfRing(a: nat, n: nat)
    requires n > 0
    ensures (a + n - a % n) % n == 0
  {
    var q := a / n;
    assert a + n - a % n == (q + 1) * n + 0;
    ModUnique(q + 1, 0, n);
  }

  /** Once round every index is passed once. */
  lemma PassesOnceRound(from: nat, i: nat, n: nat)
    requires n > 0 && i < n
    ensures Passes(from, from + n, i, n) == 1
  {
    var p := from % n;
    var turn := from + n - p;
    PassesSplit(from, turn, from + n, i, n);
    PassesToEnd(from, n - p, i, n);
    EndOfRing(from, n);
    PassesToEnd(turn, p, i, n);
  }

  lemma PassesAtMostOnce(from: nat, until: nat, i: nat, n: nat)
    requires from <= until < from + n && i < n
    ensures Passes(from, until, i, n) <= 1
  {
    PassesSplit(from, until, from + n, i, n);
    PassesOnceRound(from, i, n);
  }

  /** However far the cursor runs, it passes any two indices equally often, give or take one. */
  lemma {:induction false} PassesAreEven(from: nat, until: nat, i: nat, j: nat, n: nat)
    requires from <= until && n > 0 && i < n && j < n
    ensures Passes(from, until, i, n) <= Passes(from, until, j, n) + 1
    decreases until - from
  {
    if until - from < n {
      PassesAtMostOnce(from, until, i, n);
    } else {
      PassesSplit(from, from + n, until, i, n);
      PassesSplit(from, from + n, until, j, n);
      PassesOnceRound(from, i, n);
      PassesOnceRound(from, j, n);
      PassesAreEven(from + n, until, i, j, n);
    }
  }

  lemma {:induction false} NoPasses(from: nat, until: nat, i: nat, n: nat)
    requires from <= until && n > 0
    requires forall u :: from <= u < until ==> u % n != i
    ensures Passes(from, until, i, n) == 0
    decreases until - from
  {
    if from < until {
      NoPasses(from + 1, until, i, n);
    }
  }

  // --- Where the search stops ---

  lemma {:induction false} SearchFinds(reach: seq<bool>, start: nat, n: nat)
    requires |reach| > 0
    ensures var t := Search(reach, start, n);
      && (t < start + n ==> reach[t % |reach|])
      && (forall u :: start <= u < t ==> !reach[u % |reach|])
    decreases n
  {
    if n > 0 && !reach[start % |reach|] {
      SearchFinds(reach, start + 1, n - 1);
    }
  }

  /** A search once round the ring misses nothing. */
  lemma SearchMissesNothing(reach: seq<bool>, start: nat)
    requires |reach| > 0
    ensures Search(reach, start, |reach|) == start + |reach| <==> true !in reach
  {
    var n := |reach|;
    SearchFinds(reach, start, n);
    if Search(reach, start, n) == start + n {
      forall i | 0 <= i < n ensures !reach[i] {
        PassesOnceRound(start, i, n);
        if forall u :: start <= u < start + n ==> u % n != i {
          NoPasses(start, start + n, i, n);
        }
      }
    }
  }

  ghost predicate FirstEligible(reach: seq<bool>, from: nat, t: nat)
    requires |reach| > 0
  {
    && from <= t < from + |reach|
    && Eligible(reach, t % |reach|)
    && (forall u :: from <= u < t ==> !Eligible(reach, u % |reach|))
  }

  lemma FirstEligibleMoves(reach: seq<bool>, from: nat, at: nat, d: nat)
    requires |reach| > 0 && at % |reach| == from % |reach| && FirstEligible(reach, from, from + d)
    ensures FirstEligible(reach, at, at + d)
  {
    InStep(at, from, d, |reach|);
    forall u | at <= u < at + d ensures !Eligible(reach, u % |reach|) {
      InStep(at, from, u - at, |reach|);
      assert !Eligible(reach, (from + (u - at)) % |reach|);
    }
  }

  lemma PickFromHere(reach: seq<bool>, rr: nat) returns (t: nat)
    requires |reach| > 0
    ensures FirstEligible(reach, rr, t)
    ensures Pick(reach, rr).0 == t % |reach| && Pick(reach, rr).1 % |reach| == (t + 1) % |reach|
  {
    var n := |reach|;
    t := Search(reach, rr, n);
    SearchFinds(reach, rr, n);
    SearchMissesNothing(reach, rr);
    if t < rr + n {
      assert reach[t % n];
      InStep(t % n, t, 1, n);
    } else {
      t := rr;
    }
  }

  /**
   The cyclic walk: a pick takes the first eligible index at or after the cursor, counted round
   the list, and leaves the cursor just behind it. `at` is any cursor at the same index as `rr`,
   so that positions can be counted upwards although `rr_index` starts over.
   */
  lemma PickIsFirstEligible(reach: seq<bool>, rr: nat, at: nat) returns (t: nat)
    requires |reach| > 0 && at % |reach| == rr % |reach|
    ensures FirstEligible(reach, at, t)
    ensures Pick(reach, rr).0 == t % |reach| && Pick(reach, rr).1 % |reach| == (t + 1) % |reach|
  {
    var found := PickFromHere(reach, rr);
    t := at + (found - rr);
    FirstEligibleMoves(reach, rr, at, found - rr);
    InStep(at, rr, found - rr, |reach|);
    InStep(t, found, 1, |reach|);
  }

  /** Picks are what a cursor passes on its way round, ineligible indices left out. */
  lemma {:induction false} PicksArePasses(reach: seq<bool>, rr: nat, at: nat, k: nat) returns (end: nat)
    requires |reach| > 0 && at % |reach| == rr % |reach|
    ensures at <= end
    ensures forall i :: 0 <= i < |reach| ==>
      Count(Picks(reach, rr, k), i) == if Eligible(reach, i) then Passes(at, end, i, |reach|) else 0
    decreases k
  {
    if k == 0 {
      end := at;
    } else {
      var n := |reach|;
      var next := Pick(reach, rr).1;
      var t := PickIsFirstEligible(reach, rr, at);
      end := PicksArePasses(reach, next, t + 1, k - 1);
      assert Picks(reach, rr, k)[1..] == Picks(reach, next, k - 1);
      forall i | 0 <= i < n
        ensures Count(Picks(reach, rr, k), i) == if Eligible(reach, i) then Passes(at, end, i, n) else 0
      {
        if Eligible(reach, i) {
          NoPasses(at, t, i, n);
          PassesSplit(at, t, end, i, n);
        }
      }
    }
  }

  /**
   Fairness: however many agents of one network come in a row, and wherever the cursor was,
   two switches they can reach get equally many, give or take one, and one they cannot reach
   gets none. If they can reach none, that holds for all switches alike.
   */
  lemma PicksAreFair(reach: seq<bool>, rr: nat, k: nat, i: nat, j: nat)
    requires i < |reach| && j < |reach|
    ensures Eligible(reach, i) && Eligible(reach, j) ==>
      Count(Picks(reach, rr, k), i) <= Count(Picks(reach, rr, k), j) + 1
    ensures !Eligible(reach, i) ==> Count(Picks(reach, rr, k), i) == 0
  {
    var end := PicksArePasses(reach, rr, rr, k);
    PassesAreEven(rr, end, i, j, |reach|);
  }
}
