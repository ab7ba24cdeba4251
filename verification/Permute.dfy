/** In-place permutation by following cycles, with one visited flag per position. */
module Permute {
  import opened Sums

  /** now is was read through p. */
  ghost predicate Permuted<T>(was: seq<T>, now: seq<T>, p: int -> int)
    requires Permutes(p, |was|)
  {
    |now| == |was| && forall i :: 0 <= i < |was| ==> now[i] == was[p(i)]
  }

  /** now is was written through p. */
  ghost predicate PermutedInv<T>(was: seq<T>, now: seq<T>, p: int -> int)
    requires Permutes(p, |was|)
  {
    |now| == |was| && forall i :: 0 <= i < |was| ==> now[p(i)] == was[i]
  }

  function SwapAt<T>(s: seq<T>, i: int, j: int): (r: seq<T>)
    requires 0 <= i < |s| && 0 <= j < |s|
    ensures |r| == |s|
  {
    s[i := s[j]][j := s[i]]
  }

  /** The flags are closed under p in both directions: only whole cycles are marked. */
  ghost predicate Closed(flags: seq<bool>, p: int -> int)
    requires Permutes(p, |flags|)
  {
    forall i, j :: 0 <= i < |flags| && 0 <= j < |flags| && p(i) == j ==> (flags[i] <==> flags[j])
  }

  ghost predicate MarkedUpTo(flags: seq<bool>, k: int) {
    k <= |flags| && forall i :: 0 <= i < k ==> flags[i]
  }

  ghost function Unmarked(flags: seq<bool>): set<int> {
    set i | 0 <= i < |flags| && !flags[i]
  }

  lemma MarkShrinks(flags: seq<bool>, c: int)
    requires 0 <= c < |flags| && !flags[c]
    ensures Unmarked(flags[c := true]) < Unmarked(flags)
  {
    assert c in Unmarked(flags);
  }

  // ------------------------------------------------------------------------- permute

  /** Between two cycles: marked positions are final, the others untouched. */
  ghost predicate Done<T>(was: seq<T>, now: seq<T>, flags: seq<bool>, p: int -> int)
    requires Permutes(p, |was|)
  {
    && |now| == |flags| == |was|
    && Closed(flags, p)
    && forall i :: 0 <= i < |was| ==> now[i] == if flags[i] then was[p(i)] else was[i]
  }

  /** Inside a cycle, the flags: the marked part of the cycle runs from start to previous. A marked current means
   *  that the cycle was complete already. */
  ghost predicate FollowingFlags(flags: seq<bool>, p: int -> int, start: int, current: int, previous: int)
    requires Permutes(p, |flags|)
  {
    && 0 <= start < |flags| && 0 <= current < |flags| && 0 <= previous < |flags|
    && (current != start ==> flags[start] && flags[previous] && p(previous) == current)
    && (forall i, j :: 0 <= i < |flags| && 0 <= j < |flags| && p(i) == j && flags[i] ==> flags[j] || j == current)
    && (forall i, j :: 0 <= i < |flags| && 0 <= j < |flags| && p(i) == j && flags[j] ==> flags[i] || j == start)
    && (flags[current] ==> flags[start] && Closed(flags, p))
  }

  /** Inside a cycle, the values: marked positions are final, and current holds the value of start. */
  ghost predicate FollowingValues<T>(was: seq<T>, now: seq<T>, flags: seq<bool>, p: int -> int,
                                     start: int, current: int)
    requires Permutes(p, |was|)
  {
    && |now| == |flags| == |was| && 0 <= start < |was| && 0 <= current < |was|
    && (forall i :: 0 <= i < |was| && flags[i] ==> now[i] == was[p(i)])
    && (forall i :: 0 <= i < |was| && !flags[i] && i != current ==> now[i] == was[i])
    && (!flags[current] ==> now[current] == was[start])
  }

  ghost predicate Following<T>(was: seq<T>, now: seq<T>, flags: seq<bool>, p: int -> int,
                               start: int, current: int, previous: int)
    requires Permutes(p, |was|)
  {
    && |flags| == |now| == |was| && 0 <= start < |was| && 0 <= current < |was|
    && FollowingFlags(flags, p, start, current, previous)
    && FollowingValues(was, now, flags, p, start, current)
  }

  lemma FollowStepFlags(flags: seq<bool>, p: int -> int, start: int, current: int, previous: int)
    requires Permutes(p, |flags|)
    requires FollowingFlags(flags, p, start, current, previous)
    requires 0 <= p(current) < |flags| && !flags[p(current)]
    ensures !flags[current] && 0 <= p(p(current)) < |flags|
    ensures FollowingFlags(flags[current := true], p, start, p(current), current)
  {
  }

  lemma FollowStepValues<T>(was: seq<T>, now: seq<T>, flags: seq<bool>, p: int -> int,
                            start: int, current: int, previous: int)
    requires Permutes(p, |was|) && |flags| == |was|
    requires FollowingFlags(flags, p, start, current, previous)
    requires FollowingValues(was, now, flags, p, start, current)
    requires 0 <= p(current) < |flags| && !flags[p(current)] && !flags[current]
    ensures FollowingValues(was, SwapAt(now, current, p(current)), flags[current := true], p, start, p(current))
  {
  }

  lemma FollowStep<T>(was: seq<T>, now: seq<T>, flags: seq<bool>, p: int -> int,
                      start: int, current: int, previous: int)
    requires Permutes(p, |was|)
    requires Following(was, now, flags, p, start, current, previous)
    requires 0 <= p(current) < |flags| && !flags[p(current)]
    ensures !flags[current] && 0 <= p(p(current)) < |was|
    ensures Following(was, SwapAt(now, current, p(current)), flags[current := true], p, start, p(current), current)
  {
    hide FollowingFlags, FollowingValues, SwapAt;
    FollowStepFlags(flags, p, start, current, previous);
    FollowStepValues(was, now, flags, p, start, current, previous);
  }

  lemma FollowEnd<T>(was: seq<T>, now: seq<T>, flags: seq<bool>, p: int -> int,
                     start: int, current: int, previous: int)
    requires Permutes(p, |was|)
    requires Following(was, now, flags, p, start, current, previous)
    requires 0 <= p(current) < |flags| && flags[p(current)]
    ensures flags[current := true][start]
    ensures Done(was, now, flags[current := true], p)
  {
  }

  method Permute<T>(values: array<T>, perm: int -> int)
    requires Permutes(perm, values.Length)
    modifies values
    ensures Permuted(old(values[..]), values[..], perm)
  {
    hide Following, Done, MarkedUpTo, Unmarked, Permuted, Permutes, SwapAt;
    var n := values.Length;
    ghost var was := values[..];
    var swapped := seq(n, i => false);
    var start := 0;
    NothingDone(was, swapped, perm);
    while start < n
      invariant start <= n && |swapped| == n && MarkedUpTo(swapped, start)
      invariant Done(was, values[..], swapped, perm)
    {
      var current := start;
      var next := perm(current);
      ghost var previous := start;
      FollowStart(was, values[..], swapped, perm, start);
      while !swapped[next]
        invariant |swapped| == n && MarkedUpTo(swapped, start)
        invariant 0 <= current < n && 0 <= next < n && next == perm(current)
        invariant Following(was, values[..], swapped, perm, start, current, previous)
        decreases Unmarked(swapped)
      {
        ghost var now := values[..];
        FollowStep(was, now, swapped, perm, start, current, previous);
        MarkShrinks(swapped, current);
        MarkKeeps(swapped, start, current);
        swapped := swapped[current := true];
        values[current], values[next] := values[next], values[current];
        SwapIs(now, values[..], current, next);
        previous := current;
        current := next;
        next := perm(current);
      }
      FollowEnd(was, values[..], swapped, perm, start, current, previous);
      MarkKeeps(swapped, start, current);
      swapped := swapped[current := true];
      MarkNext(swapped, start);
      start := start + 1;
    }
    AllDone(was, values[..], swapped, perm);
  }

  lemma NothingDone<T>(was: seq<T>, flags: seq<bool>, p: int -> int)
    requires Permutes(p, |was|)
    requires |flags| == |was| && forall i :: 0 <= i < |flags| ==> !flags[i]
    ensures MarkedUpTo(flags, 0) && Done(was, was, flags, p)
  {
  }

  lemma AllDone<T>(was: seq<T>, now: seq<T>, flags: seq<bool>, p: int -> int)
    requires Permutes(p, |was|)
    requires Done(was, now, flags, p) && MarkedUpTo(flags, |was|)
    ensures Permuted(was, now, p)
  {
  }

  lemma FollowStart<T>(was: seq<T>, now: seq<T>, flags: seq<bool>, p: int -> int, start: int)
    requires Permutes(p, |was|) && 0 <= start < |was|
    requires Done(was, now, flags, p)
    ensures 0 <= p(start) < |was|
    ensures Following(was, now, flags, p, start, start, start)
  {
  }

  lemma MarkKeeps(flags: seq<bool>, k: int, c: int)
    requires MarkedUpTo(flags, k) && 0 <= c < |flags|
    ensures MarkedUpTo(flags[c := true], k)
  {
  }

  lemma MarkNext(flags: seq<bool>, k: int)
    requires 0 <= k < |flags| && MarkedUpTo(flags, k) && flags[k]
    ensures MarkedUpTo(flags, k + 1)
  {
  }

  lemma SwapIs<T>(before: seq<T>, after: seq<T>, i: int, j: int)
    requires 0 <= i < |before| && 0 <= j < |before| == |after|
    requires after[i] == before[j] && after[j] == before[i]
    requires forall k :: 0 <= k < |before| && k != i && k != j ==> after[k] == before[k]
    ensures after == SwapAt(before, i, j)
  {
  }

  // --------------------------------------------------------------------- permute_inv

  ghost predicate DoneInv<T>(was: seq<T>, now: seq<T>, flags: seq<bool>, p: int -> int)
    requires Permutes(p, |was|)
  {
    && |now| == |flags| == |was|
    && Closed(flags, p)
    && (forall i, j :: 0 <= i < |was| && 0 <= j < |was| && p(i) == j && flags[i] ==> now[j] == was[i])
    && (forall i :: 0 <= i < |was| && !flags[i] ==> now[i] == was[i])
  }

  /** Inside a cycle, the flags: the marked part runs from start to previous. */
  ghost predicate FollowingInvFlags(flags: seq<bool>, p: int -> int, start: int, current: int, previous: int)
    requires Permutes(p, |flags|)
  {
    && 0 <= start < |flags| && 0 <= current < |flags| && 0 <= previous < |flags|
    && flags[start] && flags[previous] && p(previous) == current
    && (forall i, j :: 0 <= i < |flags| && 0 <= j < |flags| && p(i) == j && flags[i] && i != previous
          ==> flags[j] && j != start)
    && (forall i, j :: 0 <= i < |flags| && 0 <= j < |flags| && p(i) == j && flags[j]
          ==> (flags[i] && i != previous) || j == start)
  }

  /** Inside a cycle, the values: start holds the value that belongs at current. */
  ghost predicate FollowingInvValues<T>(was: seq<T>, now: seq<T>, flags: seq<bool>, p: int -> int,
                                        start: int, current: int, previous: int)
    requires Permutes(p, |was|)
  {
    && |now| == |flags| == |was| && 0 <= start < |was| && 0 <= current < |was| && 0 <= previous < |was|
    && now[start] == was[previous]
    && (forall i, j :: 0 <= i < |was| && 0 <= j < |was| && p(i) == j && flags[i] && i != previous ==> now[j] == was[i])
    && (forall i :: 0 <= i < |was| && !flags[i] ==> now[i] == was[i])
  }

  ghost predicate FollowingInv<T>(was: seq<T>, now: seq<T>, flags: seq<bool>, p: int -> int,
                                  start: int, current: int, previous: int)
    requires Permutes(p, |was|)
  {
    && |flags| == |now| == |was| && 0 <= start < |was| && 0 <= current < |was|
    && FollowingInvFlags(flags, p, start, current, previous)
    && FollowingInvValues(was, now, flags, p, start, current, previous)
  }

  lemma FollowInvStepFlags(flags: seq<bool>, p: int -> int, start: int, current: int, previous: int)
    requires Permutes(p, |flags|)
    requires FollowingInvFlags(flags, p, start, current, previous) && !flags[current]
    ensures 0 <= p(current) < |flags|
    ensures FollowingInvFlags(flags[current := true], p, start, p(current), current)
  {
  }

  lemma FollowInvStepValues<T>(was: seq<T>, now: seq<T>, flags: seq<bool>, p: int -> int,
                               start: int, current: int, previous: int)
    requires Permutes(p, |was|) && |flags| == |was| && 0 <= p(current) < |flags|
    requires FollowingInvFlags(flags, p, start, current, previous) && !flags[current]
    requires FollowingInvValues(was, now, flags, p, start, current, previous)
    ensures FollowingInvValues(was, SwapAt(now, current, start), flags[current := true], p, start, p(current), current)
  {
  }

  lemma FollowInvStep<T>(was: seq<T>, now: seq<T>, flags: seq<bool>, p: int -> int,
                         start: int, current: int, previous: int)
    requires Permutes(p, |was|)
    requires FollowingInv(was, now, flags, p, start, current, previous)
    requires !flags[current]
    ensures 0 <= p(current) < |was|
    ensures FollowingInv(was, SwapAt(now, current, start), flags[current := true], p, start, p(current), current)
  {
    hide FollowingInvFlags, FollowingInvValues, SwapAt;
    FollowInvStepFlags(flags, p, start, current, previous);
    FollowInvStepValues(was, now, flags, p, start, current, previous);
  }

  method PermuteInv<T>(values: array<T>, perm: int -> int)
    requires Permutes(perm, values.Length)
    modifies values
    ensures PermutedInv(old(values[..]), values[..], perm)
  {
    hide FollowingInv, DoneInv, MarkedUpTo, Unmarked, PermutedInv, Permutes, SwapAt;
    var n := values.Length;
    ghost var was := values[..];
    var swapped := seq(n, i => false);
    var start := 0;
    NothingDoneInv(was, swapped, perm);
    while start < n
      invariant start <= n && |swapped| == n && MarkedUpTo(swapped, start)
      invariant DoneInv(was, values[..], swapped, perm)
    {
      ghost var seen := swapped[start];
      var current := perm(start);
      FollowInvStart(was, values[..], swapped, perm, start);
      MarkKeeps(swapped, start, start);
      swapped := swapped[start := true];
      MarkNext(swapped, start);
      ghost var previous := start;
      while !swapped[current]
        invariant |swapped| == n && MarkedUpTo(swapped, start + 1)
        invariant 0 <= current < n
        invariant seen ==> swapped[current] && DoneInv(was, values[..], swapped, perm)
        invariant !seen ==> FollowingInv(was, values[..], swapped, perm, start, current, previous)
        decreases Unmarked(swapped)
      {
        ghost var now := values[..];
        FollowInvStep(was, now, swapped, perm, start, current, previous);
        MarkShrinks(swapped, current);
        MarkKeeps(swapped, start + 1, current);
        swapped := swapped[current := true];
        values[current], values[start] := values[start], values[current];
        SwapIs(now, values[..], current, start);
        previous := current;
        current := perm(current);
      }
      if !seen {
        FollowInvEnd(was, values[..], swapped, perm, start, current, previous);
      }
      start := start + 1;
    }
    AllDoneInv(was, values[..], swapped, perm);
  }

  lemma NothingDoneInv<T>(was: seq<T>, flags: seq<bool>, p: int -> int)
    requires Permutes(p, |was|)
    requires |flags| == |was| && forall i :: 0 <= i < |flags| ==> !flags[i]
    ensures MarkedUpTo(flags, 0) && DoneInv(was, was, flags, p)
  {
  }

  lemma AllDoneInv<T>(was: seq<T>, now: seq<T>, flags: seq<bool>, p: int -> int)
    requires Permutes(p, |was|)
    requires DoneInv(was, now, flags, p) && MarkedUpTo(flags, |was|)
    ensures PermutedInv(was, now, p)
  {
  }

  lemma FollowInvStart<T>(was: seq<T>, now: seq<T>, flags: seq<bool>, p: int -> int, start: int)
    requires Permutes(p, |was|) && 0 <= start < |was|
    requires DoneInv(was, now, flags, p)
    ensures |flags| == |was| && 0 <= p(start) < |was|
    ensures flags[start] ==> flags[p(start)] && DoneInv(was, now, flags[start := true], p)
    ensures !flags[start] ==> FollowingInv(was, now, flags[start := true], p, start, p(start), start)
  {
    assert flags[start] ==> flags[start := true] == flags;
  }

  lemma FollowInvEnd<T>(was: seq<T>, now: seq<T>, flags: seq<bool>, p: int -> int, start: int, current: int, previous: int)
    requires Permutes(p, |was|)
    requires FollowingInv(was, now, flags, p, start, current, previous)
    requires flags[current]
    ensures DoneInv(was, now, flags, p)
  {
  }

  /** Reading through p and then writing through p restores the list, and so does the other order. */
  lemma PermuteRoundTrip<T>(a: seq<T>, b: seq<T>, c: seq<T>, p: int -> int)
    requires Permutes(p, |a|) && |a| == |b|
    ensures Permuted(a, b, p) && PermutedInv(b, c, p) ==> c == a
    ensures PermutedInv(a, b, p) && Permuted(b, c, p) ==> c == a
  {
    if Permuted(a, b, p) && PermutedInv(b, c, p) {
      forall y | 0 <= y < |a|
        ensures c[y] == a[y]
      {
        var i := PermutesOnto(p, |a|, y);
      }
    }
  }
}
