/**
 The cyclic scan of the server pool, on liveness masks: `mask[i]` says whether the server at index `i`
 is alive. GetNextPeer of the class in ServerPool.dfy is proved to compute `Next`; here are the
 properties of whole sequences of picks.
 */
module RoundRobin {
  import opened Wrappers

  type Mask = seq<bool>

  predicate SomeAlive(mask: Mask) {
    exists i :: 0 <= i < |mask| && mask[i]
  }

  /** IncrementCurrent: one position on, from the last (or from beyond it) back to the first. */
  function Successor(current: int, n: nat): int {
    if current + 1 >= n then 0 else current + 1
  }

  /** How many positions `j` comes after `start` in cyclic order. */
  function Distance(n: nat, start: nat, j: nat): nat
    requires start < n && j < n
  {
    if start <= j then j - start else j + n - start
  }

  /** The position `d` places after `start` in cyclic order. */
  function Shifted(n: nat, start: nat, d: nat): (j: nat)
    requires start < n && d < n
    ensures j < n && Distance(n, start, j) == d
  {
    if start + d < n then start + d else start + d - n
  }

  /** The first alive server at or after `d` places from `start`. */
  function FirstAlive(mask: Mask, start: nat, d: nat): (r: Option<nat>)
    requires start < |mask| && d <= |mask|
    ensures r.Some? ==> r.value < |mask| && mask[r.value] && Distance(|mask|, start, r.value) >= d
    ensures forall j :: 0 <= j < |mask| && mask[j] && Distance(|mask|, start, j) >= d ==>
              r.Some? && Distance(|mask|, start, r.value) <= Distance(|mask|, start, j)
    decreases |mask| - d
  {
    if d == |mask| then None
    else if mask[Shifted(|mask|, start, d)] then Some(Shifted(|mask|, start, d))
    else FirstAlive(mask, start, d + 1)
  }

  /** The server picked when the pointer stands at `current`: the first alive one after it, cyclically. */
  function Next(mask: Mask, current: int): (r: Option<nat>)
    requires current >= -1
    ensures r.None? <==> !SomeAlive(mask)
    ensures r.Some? ==> r.value < |mask| && mask[r.value]
    ensures r.Some? ==> forall j :: 0 <= j < |mask| && mask[j] ==>
              Distance(|mask|, Successor(current, |mask|), r.value) <= Distance(|mask|, Successor(current, |mask|), j)
  {
    if mask == [] then None else FirstAlive(mask, Successor(current, |mask|), 0)
  }

  /** The first alive server is the only one that no alive server precedes. */
  lemma NextIsUnique(mask: Mask, current: int, i: nat)
    requires current >= -1 && i < |mask| && mask[i]
    requires forall j :: 0 <= j < |mask| && mask[j] ==>
               Distance(|mask|, Successor(current, |mask|), i) <= Distance(|mask|, Successor(current, |mask|), j)
    ensures Next(mask, current) == Some(i)
  {
    var r := Next(mask, current).value;
    assert Distance(|mask|, Successor(current, |mask|), r) == Distance(|mask|, Successor(current, |mask|), i);
  }

  /** A scan that has passed `i` dead servers and finds an alive one has found the next one. */
  lemma ScanFinds(mask: Mask, current: int, i: nat)
    requires current >= -1 && i < |mask|
    requires var start := Successor(current, |mask|);
             && (forall d: nat :: d < i ==> !mask[Shifted(|mask|, start, d)])
             && mask[Shifted(|mask|, start, i)]
    ensures Next(mask, current) == Some(Shifted(|mask|, Successor(current, |mask|), i))
  {
    var n, start := |mask|, Successor(current, |mask|);
    forall j | 0 <= j < n && mask[j] ensures i <= Distance(n, start, j) {
      assert j == Shifted(n, start, Distance(n, start, j));
    }
    NextIsUnique(mask, current, Shifted(n, start, i));
  }

  /** A scan that has passed all servers has shown that none is alive. */
  lemma ScanEnds(mask: Mask, current: int)
    requires current >= -1 && mask != []
    requires forall d: nat :: d < |mask| ==> !mask[Shifted(|mask|, Successor(current, |mask|), d)]
    ensures !SomeAlive(mask)
  {
    var n, start := |mask|, Successor(current, |mask|);
    forall j | 0 <= j < n ensures !mask[j] {
      assert j == Shifted(n, start, Distance(n, start, j));
    }
  }

  /** With all servers alive the pick is the next one in the list, the first after the last. */
  lemma NextOfAll(mask: Mask, current: nat)
    requires current < |mask| && forall i :: 0 <= i < |mask| ==> mask[i]
    ensures Next(mask, current) == Some((current + 1) % |mask|)
  {
    NextIsUnique(mask, current, (current + 1) % |mask|);
  }

  // ---------- Fairness with a fixed set of alive servers ----------

  /** How many servers below index `i` are alive. */
  function Rank(mask: Mask, i: nat): nat
    requires i <= |mask|
  {
    if i == 0 then 0 else Rank(mask, i - 1) + if mask[i - 1] then 1 else 0
  }

  function AliveCount(mask: Mask): nat {
    Rank(mask, |mask|)
  }

  lemma {:induction false} RankMonotone(mask: Mask, a: nat, b: nat)
    requires a <= b <= |mask|
    ensures Rank(mask, a) <= Rank(mask, b)
    decreases b
  {
    if a < b {
      RankMonotone(mask, a, b - 1);
    }
  }

  lemma {:induction false} RankOverDead(mask: Mask, a: nat, b: nat)
    requires a <= b <= |mask| && forall j :: a <= j < b ==> !mask[j]
    ensures Rank(mask, a) == Rank(mask, b)
    decreases b
  {
    if a < b {
      RankOverDead(mask, a, b - 1);
    }
  }

  /** Alive servers have different ranks, all below the number of alive servers. */
  lemma RankOfAlive(mask: Mask, i: nat, j: nat)
    requires i < |mask| && j < |mask| && mask[i] && mask[j]
    ensures Rank(mask, i) < AliveCount(mask)
    ensures Rank(mask, i) == Rank(mask, j) ==> i == j
  {
    RankMonotone(mask, i + 1, |mask|);
    if i < j {
      RankMonotone(mask, i + 1, j);
    } else if j < i {
      RankMonotone(mask, j + 1, i);
    }
  }

  /** Between an alive server and the next pick no server is alive. */
  lemma NextGap(mask: Mask, i: nat)
    requires i < |mask| && mask[i]
    ensures Next(mask, i).Some?
    ensures var j := Next(mask, i).value;
            && (j > i ==> forall l :: i < l < j ==> !mask[l])
            && (j <= i ==> forall l :: 0 <= l < j || i < l < |mask| ==> !mask[l])
  {
    var n, start, j := |mask|, Successor(i, |mask|), Next(mask, i).value;
    forall l | 0 <= l < n && mask[l] ensures Distance(n, start, j) <= Distance(n, start, l) {}
  }

  lemma RankUp(mask: Mask, i: nat, j: nat)
    requires i < j < |mask| && mask[i] && forall l :: i < l < j ==> !mask[l]
    ensures Rank(mask, j) == Rank(mask, i) + 1
  {
    RankOverDead(mask, i + 1, j);
  }

  lemma RankAround(mask: Mask, i: nat, j: nat)
    requires j <= i < |mask| && mask[i] && forall l :: 0 <= l < j || i < l < |mask| ==> !mask[l]
    ensures Rank(mask, i) + 1 == AliveCount(mask) && Rank(mask, j) == 0
  {
    RankOverDead(mask, i + 1, |mask|);
    RankOverDead(mask, 0, j);
  }

  /** Picking goes through the ranks in cyclic order. */
  lemma NextRank(mask: Mask, i: nat, j: nat)
    requires i < |mask| && mask[i] && Next(mask, i) == Some(j)
    ensures Rank(mask, j) == if Rank(mask, i) + 1 == AliveCount(mask) then 0 else Rank(mask, i) + 1
  {
    NextGap(mask, i);
    if j > i {
      RankUp(mask, i, j);
      RankOfAlive(mask, j, j);
    } else {
      RankAround(mask, i, j);
    }
  }

  /** The servers picked by `n` calls in a row. */
  function Picks(mask: Mask, current: int, n: nat): (picks: seq<nat>)
    requires current >= -1 && SomeAlive(mask)
    ensures |picks| == n
    ensures forall t :: 0 <= t < n ==> picks[t] < |mask| && mask[picks[t]]
  {
    if n == 0 then []
    else
      var before := Picks(mask, current, n - 1);
      before + [Next(mask, if n == 1 then current else before[n - 2]).value]
  }

  /** Each pick but the first is the next one after the pick before it. */
  ghost predicate Successive(mask: Mask, picks: seq<nat>) {
    forall t, u :: 0 <= t < u < |picks| && u == t + 1 ==> Next(mask, picks[t]) == Some(picks[u])
  }

  lemma SuccessiveAppend(mask: Mask, before: seq<nat>, j: nat)
    requires before != [] && Successive(mask, before) && Next(mask, before[|before| - 1]) == Some(j)
    ensures Successive(mask, before + [j])
  {
    var all := before + [j];
    forall t, u | 0 <= t < u < |all| && u == t + 1 ensures Next(mask, all[t]) == Some(all[u]) {
      if u < |before| {
        assert Next(mask, before[t]) == Some(before[u]);
      }
    }
  }

  lemma OnePickMore(mask: Mask, current: int, n: nat) returns (before: seq<nat>, j: nat)
    requires current >= -1 && SomeAlive(mask) && n > 1
    ensures before == Picks(mask, current, n - 1) && before != [] && Picks(mask, current, n) == before + [j]
    ensures Next(mask, before[|before| - 1]) == Some(j)
  {
    before := Picks(mask, current, n - 1);
    j := Next(mask, before[n - 2]).value;
  }

  lemma {:induction false} PicksSuccessive(mask: Mask, current: int, n: nat)
    requires current >= -1 && SomeAlive(mask)
    ensures Successive(mask, Picks(mask, current, n))
  {
    if n > 1 {
      PicksSuccessive(mask, current, n - 1);
      var before, j := OnePickMore(mask, current, n);
      SuccessiveAppend(mask, before, j);
    }
  }

  /** Numbers below `m` that count up by one and start over after `m - 1`. */
  ghost predicate Cyclic(s: seq<nat>, m: nat) {
    && (forall t :: 0 <= t < |s| ==> s[t] < m)
    && forall t, u :: 0 <= t < u < |s| && u == t + 1 ==> s[u] == if s[t] + 1 == m then 0 else s[t] + 1
  }

  lemma {:induction false} CyclicAt(s: seq<nat>, m: nat, a: nat, d: nat)
    requires Cyclic(s, m) && a + d < |s| && d < m
    ensures s[a + d] == Shifted(m, s[a], d)
    decreases d
  {
    if d > 0 {
      CyclicAt(s, m, a, d - 1);
      assert s[a + (d - 1) + 1] == if s[a + (d - 1)] + 1 == m then 0 else s[a + (d - 1)] + 1;
    }
  }

  /** Among `m` places in a row each number below `m` is at exactly one. */
  lemma CyclicOnce(s: seq<nat>, m: nat, a: nat, x: nat) returns (t: nat)
    requires Cyclic(s, m) && a + m <= |s| && x < m
    ensures a <= t < a + m && s[t] == x
    ensures forall u :: a <= u < a + m && s[u] == x ==> u == t
  {
    t := a + Distance(m, s[a], x);
    CyclicAt(s, m, a, t - a);
    forall u | a <= u < a + m && s[u] == x ensures u == t {
      CyclicAt(s, m, a, u - a);
    }
  }

  ghost function Ranks(mask: Mask, picks: seq<nat>): (ranks: seq<nat>)
    requires forall t :: 0 <= t < |picks| ==> picks[t] < |mask|
    ensures |ranks| == |picks| && forall t :: 0 <= t < |picks| ==> ranks[t] == Rank(mask, picks[t])
  {
    seq(|picks|, t requires 0 <= t < |picks| => Rank(mask, picks[t]))
  }

  /** The ranks of the picked servers run through 0 to m - 1 over and over. */
  lemma RanksCyclic(mask: Mask, current: int, n: nat)
    requires current >= -1 && SomeAlive(mask)
    ensures Cyclic(Ranks(mask, Picks(mask, current, n)), AliveCount(mask))
  {
    var picks := Picks(mask, current, n);
    PicksSuccessive(mask, current, n);
    forall t | 0 <= t < n ensures Rank(mask, picks[t]) < AliveCount(mask) {
      RankOfAlive(mask, picks[t], picks[t]);
    }
    forall t, u | 0 <= t < u < n && u == t + 1
      ensures Rank(mask, picks[u])
           == if Rank(mask, picks[t]) + 1 == AliveCount(mask) then 0 else Rank(mask, picks[t]) + 1
    {
      NextRank(mask, picks[t], picks[u]);
    }
  }

  /** Any `m` calls in a row, with `m` servers alive, pick each alive server exactly once. */
  lemma WindowPicksEachOnce(mask: Mask, current: int, n: nat, a: nat, i: nat) returns (t: nat)
    requires current >= -1 && i < |mask| && mask[i] && a + AliveCount(mask) <= n
    ensures a <= t < a + AliveCount(mask) && Picks(mask, current, n)[t] == i
    ensures forall u :: a <= u < a + AliveCount(mask) && Picks(mask, current, n)[u] == i ==> u == t
  {
    var m, picks := AliveCount(mask), Picks(mask, current, n);
    var ranks := Ranks(mask, picks);
    RanksCyclic(mask, current, n);
    RankOfAlive(mask, i, i);
    t := CyclicOnce(ranks, m, a, Rank(mask, i));
    RankOfAlive(mask, picks[t], i);
    assert forall u :: a <= u < a + m && picks[u] == i ==> ranks[u] == Rank(mask, i);
  }

  /** How often `x` occurs. */
  function Count(s: seq<nat>, x: nat): nat {
    if s == [] then 0 else Count(s[..|s| - 1], x) + if s[|s| - 1] == x then 1 else 0
  }

  /** After `n` calls: completed rounds, and calls made in the round under way. */
  function Rounds(n: nat, m: nat): (r: (nat, nat))
    requires m > 0
    ensures r.1 < m
  {
    if n == 0 then (0, 0)
    else
      var (laps, at) := Rounds(n - 1, m);
      if at + 1 == m then (laps + 1, 0) else (laps, at + 1)
  }

  lemma {:induction false} LastInRound(s: seq<nat>, m: nat)
    requires Cyclic(s, m) && |s| > 0
    ensures Distance(m, s[0], s[|s| - 1]) == Rounds(|s| - 1, m).1
  {
    if |s| > 1 {
      var init := s[..|s| - 1];
      LastInRound(init, m);
      var k := |s| - 2;
      assert s[k + 1] == if s[k] + 1 == m then 0 else s[k] + 1;
    }
  }

  /**
   The exact number of occurrences: every completed round has each number once, and the round under way
   has those whose turn has come.
   */
  lemma {:induction false} CountInRounds(s: seq<nat>, m: nat, first: nat, x: nat)
    requires Cyclic(s, m) && x < m && first < m && (|s| > 0 ==> s[0] == first)
    ensures var (laps, at) := Rounds(|s|, m);
            Count(s, x) == laps + if Distance(m, first, x) < at then 1 else 0
  {
    if |s| > 0 {
      CountInRounds(s[..|s| - 1], m, first, x);
      LastInRound(s, m);
    }
  }

  lemma {:induction false} CountByRank(mask: Mask, picks: seq<nat>, i: nat)
    requires i < |mask| && mask[i] && forall t :: 0 <= t < |picks| ==> picks[t] < |mask| && mask[picks[t]]
    ensures Count(picks, i) == Count(Ranks(mask, picks), Rank(mask, i))
  {
    if picks != [] {
      var init, last := picks[..|picks| - 1], picks[|picks| - 1];
      CountByRank(mask, init, i);
      RankOfAlive(mask, last, i);
      assert Ranks(mask, picks)[..|picks| - 1] == Ranks(mask, init);
    }
  }

  /** After any number of calls the pick counts of two alive servers differ by at most one. */
  lemma PicksAreFair(mask: Mask, current: int, n: nat, i: nat, j: nat)
    requires current >= -1 && i < |mask| && mask[i] && j < |mask| && mask[j]
    ensures -1 <= Count(Picks(mask, current, n), i) - Count(Picks(mask, current, n), j) <= 1
  {
    var m, picks := AliveCount(mask), Picks(mask, current, n);
    var ranks := Ranks(mask, picks);
    RanksCyclic(mask, current, n);
    CountByRank(mask, picks, i);
    CountByRank(mask, picks, j);
    RankOfAlive(mask, i, j);
    RankOfAlive(mask, j, i);
    var first := if n > 0 then ranks[0] else 0;
    CountInRounds(ranks, m, first, Rank(mask, i));
    CountInRounds(ranks, m, first, Rank(mask, j));
  }

  // ---------- No starvation ----------

  /** The pointer after a call: on the picked server, or once around if none is alive. */
  function Pointer(mask: Mask, current: int): (p: int)
    requires current >= -1
    ensures p >= -1
    ensures mask != [] ==> 0 <= p < |mask|
  {
    if mask == [] then current
    else if SomeAlive(mask) then Next(mask, current).value
    else if Successor(current, |mask|) == 0 then |mask| - 1 else Successor(current, |mask|) - 1
  }

  /**
   A call that finds no server alive goes once around: the pointer ends where it was, or on the last
   server if it stood before the first or beyond the last. The next call picks the server that would have
   been due without it.
   */
  lemma OutageKeepsTurn(mask: Mask, current: int, later: Mask)
    requires current >= -1 && mask != [] && !SomeAlive(mask) && |later| == |mask|
    ensures Pointer(mask, current) == if 0 <= current < |mask| then current else |mask| - 1
    ensures Next(later, Pointer(mask, current)) == Next(later, current)
  {
  }

  /** The pick of call number `t`, when `masks[t]` is the liveness of the pool at that call. */
  function PickAt(masks: seq<Mask>, current: int, t: nat): Option<nat>
    requires current >= -1 && t < |masks|
  {
    if t == 0 then Next(masks[0], current) else PickAt(masks[1..], Pointer(masks[0], current), t - 1)
  }

  /** Picks that begin with the one after the pointer and go on with the one after each pick. */
  ghost predicate Called(mask: Mask, current: int, picks: seq<nat>)
    requires current >= -1
  {
    (picks != [] ==> Next(mask, current) == Some(picks[0])) && Successive(mask, picks)
  }

  lemma CalledRest(mask: Mask, current: int, picks: seq<nat>)
    requires current >= -1 && SomeAlive(mask) && Called(mask, current, picks) && picks != []
    ensures Called(mask, Pointer(mask, current), picks[1..])
  {
    var rest := picks[1..];
    assert Pointer(mask, current) == picks[0];
    forall t, u | 0 <= t < u < |rest| && u == t + 1 ensures Next(mask, rest[t]) == Some(rest[u]) {
      assert rest[t] == picks[t + 1] && rest[u] == picks[u + 1];
    }
  }

  lemma {:induction false} CallsMake(masks: seq<Mask>, mask: Mask, current: int, picks: seq<nat>, t: nat)
    requires current >= -1 && SomeAlive(mask) && Called(mask, current, picks)
    requires |masks| == |picks| && t < |masks| && forall u :: 0 <= u < |masks| ==> masks[u] == mask
    ensures PickAt(masks, current, t) == Some(picks[t])
    decreases t
  {
    if t > 0 {
      CalledRest(mask, current, picks);
      CallsMake(masks[1..], mask, Pointer(mask, current), picks[1..], t - 1);
    }
  }

  lemma {:induction false} FirstPick(mask: Mask, current: int, n: nat)
    requires current >= -1 && SomeAlive(mask) && n > 0
    ensures Next(mask, current) == Some(Picks(mask, current, n)[0])
  {
    if n > 1 {
      FirstPick(mask, current, n - 1);
      var before, j := OnePickMore(mask, current, n);
    }
  }

  /** While the liveness does not change, successive calls pick what `Picks` lists. */
  lemma PicksAreCalls(masks: seq<Mask>, mask: Mask, current: int, t: nat)
    requires current >= -1 && SomeAlive(mask) && t < |masks|
    requires forall u :: 0 <= u < |masks| ==> masks[u] == mask
    ensures PickAt(masks, current, t) == Some(Picks(mask, current, |masks|)[t])
  {
    FirstPick(mask, current, |masks|);
    PicksSuccessive(mask, current, |masks|);
    CallsMake(masks, mask, current, Picks(mask, current, |masks|), t);
  }

  /** An upper bound for the calls until server `i` is picked in a pool that grows to at most `n` servers. */
  function Wait(current: int, i: nat, n: nat): int {
    if current < i then i - current else if current < n then n - current + i else i + 1
  }

  lemma WaitShrinks(mask: Mask, current: int, i: nat, n: nat)
    requires current >= -1 && i < |mask| <= n && mask[i] && Next(mask, current) != Some(i)
    ensures 0 < Wait(Pointer(mask, current), i, n) < Wait(current, i, n)
  {
    var j := Next(mask, current).value;
    var start := Successor(current, |mask|);
    assert Distance(|mask|, start, j) <= Distance(|mask|, start, i);
  }

  lemma {:induction false} PickedWithin(masks: seq<Mask>, current: int, i: nat, n: nat) returns (t: nat)
    requires current >= -1 && Wait(current, i, n) <= |masks| && i < n
    requires forall u :: 0 <= u < |masks| ==> i < |masks[u]| <= n && masks[u][i]
    ensures t < Wait(current, i, n) && t < |masks| && PickAt(masks, current, t) == Some(i)
    decreases |masks|
  {
    if Next(masks[0], current) == Some(i) {
      t := 0;
    } else {
      WaitShrinks(masks[0], current, i, n);
      t := PickedWithin(masks[1..], Pointer(masks[0], current), i, n);
      t := t + 1;
    }
  }

  /**
   No starvation: while the liveness of the other servers changes arbitrarily and servers are only
   appended, a server that stays alive is picked within as many calls as the pool has servers at the
   end, wherever the pointer stood (also beyond the end, as a removal may leave it).
   */
  lemma NoStarvation(masks: seq<Mask>, current: int, i: nat) returns (t: nat)
    requires current >= -1 && masks != []
    requires forall u, v :: 0 <= u <= v < |masks| ==> |masks[u]| <= |masks[v]|
    requires forall u :: 0 <= u < |masks| ==> i < |masks[u]| && masks[u][i]
    requires |masks| >= |masks[|masks| - 1]|
    ensures t < |masks[|masks| - 1]| && t < |masks| && PickAt(masks, current, t) == Some(i)
  {
    t := PickedWithin(masks, current, i, |masks[|masks| - 1]|);
  }

  // ---------- Removing a server without moving the pointer ----------

  /** The index a server had before the server at `k` was removed. */
  function OldIndex(k: nat, i: nat): nat {
    if i < k then i else i + 1
  }

  /** The pool's liveness after the server at `k` has been removed. */
  function Removed(mask: Mask, k: nat): (rest: Mask)
    requires k < |mask|
    ensures |rest| == |mask| - 1
    ensures forall i :: 0 <= i < |rest| ==> rest[i] == mask[OldIndex(k, i)]
  {
    mask[..k] + mask[k + 1..]
  }

  /** The index a server other than the one at `k` has after the removal. */
  function NewIndex(k: nat, j: nat): (i: nat)
    requires j != k
    ensures OldIndex(k, i) == j
  {
    if j < k then j else j - 1
  }

  /** The pointer stays: the server whose turn it would be is then behind the scan's start, and is not alone. */
  ghost predicate PassedOver(mask: Mask, k: nat, current: nat)
    requires k < |mask|
  {
    && k <= current < |mask| - 1 && mask[current + 1]
    && exists j :: 0 <= j < |mask| && j != k && j != current + 1 && mask[j]
  }

  /** Which of two servers the scan reaches first is the same before and after the removal. */
  lemma OrderKept(n: nat, k: nat, current: nat, i: nat, j: nat)
    requires n >= 2 && k < n && current < n && i < n && j < n && i != k && j != k
    requires k <= current < n - 1 ==> i != current + 1 && j != current + 1
    ensures Distance(n - 1, Successor(current, n - 1), NewIndex(k, i))
              <= Distance(n - 1, Successor(current, n - 1), NewIndex(k, j))
       <==> Distance(n, Successor(current, n), i) <= Distance(n, Successor(current, n), j)
  {
  }

  /** The servers alive after the removal are those alive before, except the removed one. */
  lemma RemovedAlive(mask: Mask, k: nat)
    requires k < |mask|
    ensures forall j :: 0 <= j < |mask| && mask[k := false][j] ==> Removed(mask, k)[NewIndex(k, j)]
    ensures forall i :: 0 <= i < |mask| - 1 && Removed(mask, k)[i] ==> mask[k := false][OldIndex(k, i)]
    ensures SomeAlive(Removed(mask, k)) <==> SomeAlive(mask[k := false])
  {
    var rest, without := Removed(mask, k), mask[k := false];
    assert forall j :: 0 <= j < |mask| && without[j] ==> rest[NewIndex(k, j)];
  }

  /** What the scan reaches first after the removal it also reached first before. */
  lemma FirstAfterRemoval(mask: Mask, k: nat, current: nat, e: nat, j: nat)
    requires k < |mask| && current < |mask| && Next(Removed(mask, k), current) == Some(e)
    requires !(k <= current < |mask| - 1 && mask[current + 1])
    requires j < |mask| && mask[k := false][j]
    ensures var start := Successor(current, |mask|);
            Distance(|mask|, start, OldIndex(k, e)) <= Distance(|mask|, start, j)
  {
    var n, rest, i := |mask|, Removed(mask, k), NewIndex(k, j);
    assert NewIndex(k, OldIndex(k, e)) == e && OldIndex(k, i) == j && rest[i];
    assert Distance(n - 1, Successor(current, n - 1), e) <= Distance(n - 1, Successor(current, n - 1), i);
    OrderKept(n, k, current, OldIndex(k, e), j);
  }

  /** If the server just after the pointer keeps its place in the scan or is not alive, nothing changes. */
  lemma RemovalKeepsTurn(mask: Mask, k: nat, current: nat)
    requires k < |mask| && current < |mask| && SomeAlive(Removed(mask, k))
    requires !(k <= current < |mask| - 1 && mask[current + 1])
    ensures Next(mask[k := false], current) == Some(OldIndex(k, Next(Removed(mask, k), current).value))
  {
    var without, e := mask[k := false], Next(Removed(mask, k), current).value;
    var start := Successor(current, |mask|);
    assert without[OldIndex(k, e)];
    forall j | 0 <= j < |mask| && without[j]
      ensures Distance(|mask|, start, OldIndex(k, e)) <= Distance(|mask|, start, j)
    {
      FirstAfterRemoval(mask, k, current, e, j);
    }
    NextIsUnique(without, current, OldIndex(k, e));
  }

  /** A server that slides under the pointer comes last in the next scan. */
  lemma RemovalPostpones(mask: Mask, k: nat, current: nat)
    requires k <= current < |mask| - 1 && mask[current + 1]
    ensures Next(mask[k := false], current) == Some(current + 1)
    ensures Next(Removed(mask, k), current).Some?
    ensures Next(Removed(mask, k), current) == Some(current) <==> !PassedOver(mask, k, current)
  {
    NextIsUnique(mask[k := false], current, current + 1);
    RemovedAlive(mask, k);
    var rest := Removed(mask, k);
    if PassedOver(mask, k, current) {
      var j :| 0 <= j < |mask| && j != k && j != current + 1 && mask[j];
      assert rest[NewIndex(k, j)];
    }
  }

  /**
   After a removal, which leaves the pointer where it is, the next pick is the server that would have been
   picked with the removed one dead, unless that server is passed over: the removed one was at or before
   the pointer, the pointer was not on the last server, and another server is alive.
   */
  lemma RemovalSkips(mask: Mask, k: nat, current: nat)
    requires k < |mask| && current < |mask|
    ensures Next(Removed(mask, k), current).Some? <==> Next(mask[k := false], current).Some?
    ensures Next(Removed(mask, k), current).Some? ==>
              (OldIndex(k, Next(Removed(mask, k), current).value) == Next(mask[k := false], current).value
               <==> !PassedOver(mask, k, current))
  {
    RemovedAlive(mask, k);
    if k <= current < |mask| - 1 && mask[current + 1] {
      RemovalPostpones(mask, k, current);
    } else if SomeAlive(Removed(mask, k)) {
      RemovalKeepsTurn(mask, k, current);
    }
  }
}
