/** Group sizes in `allocateMembers` (src/lib/allocate.ts): the target size of
    each group, the round-robin cursor arithmetic, and the bookkeeping of groups
    of member indices (their concatenation and total size). */
module Groups {

  /** `i < remainder ? baseSize + 1 : baseSize` with
      `baseSize = floor(total / groupCount)` and `remainder = total % groupCount`:
      the first `remainder` groups take one member more. */
  function Capacity(total: nat, groupCount: nat, g: nat): nat
    requires groupCount > 0
  {
    if g < total % groupCount then total / groupCount + 1 else total / groupCount
  }

  /** The capacities of the groups before group `k`, added up. */
  function CapacityBefore(total: nat, groupCount: nat, k: nat): nat
    requires groupCount > 0
  {
    if k == 0 then 0 else CapacityBefore(total, groupCount, k - 1) + Capacity(total, groupCount, k - 1)
  }

  lemma {:induction false} CapacityBeforeClosed(total: nat, groupCount: nat, k: nat)
    requires 0 < groupCount && k <= groupCount
    ensures CapacityBefore(total, groupCount, k) ==
            k * (total / groupCount) + (if k < total % groupCount then k else total % groupCount)
  {
    if k > 0 {
      CapacityBeforeClosed(total, groupCount, k - 1);
    }
  }

  /** The capacities of all groups add up to the number of members. */
  lemma CapacitiesSum(total: nat, groupCount: nat)
    requires groupCount > 0
    ensures CapacityBefore(total, groupCount, groupCount) == total
  {
    CapacityBeforeClosed(total, groupCount, groupCount);
  }

  /** Capacities never increase with the group index and differ by at most one. */
  lemma CapacitiesBalanced(total: nat, groupCount: nat, g1: nat, g2: nat)
    requires 0 < groupCount && g1 <= g2
    ensures Capacity(total, groupCount, g2) <= Capacity(total, groupCount, g1) <= Capacity(total, groupCount, g2) + 1
  {
  }

  /** No capacity exceeds `total + 1`. */
  lemma CapacityBound(total: nat, groupCount: nat, g: nat)
    requires groupCount > 0
    ensures Capacity(total, groupCount, g) <= total + 1
  {
    assert (total / groupCount) * groupCount + total % groupCount == total;
    MulAtLeast(groupCount, total / groupCount);
  }

  /** A positive multiple of `n` is at least `n`. */
  lemma {:induction false} MulAtLeast(d: nat, n: nat)
    requires d >= 1
    ensures d * n >= n
  {
    if d > 1 {
      MulAtLeast(d - 1, n);
      assert d * n == (d - 1) * n + n;
    }
  }

  lemma MulDiff(a: nat, b: nat, n: nat)
    requires b <= a
    ensures a * n - b * n == (a - b) * n
  {
  }

  /** Multiplying by `n` keeps the order. */
  lemma MulMonotone(x: nat, y: nat, n: nat)
    ensures x <= y ==> x * n <= y * n
  {
    if x <= y {
      MulDiff(y, x, n);
    }
  }

  /** Multiples of `n > 0` with different factors are at least `n` apart. */
  lemma MulStrict(x: nat, y: nat, n: nat)
    requires n > 0
    ensures x < y ==> x * n + n <= y * n
  {
    if x < y {
      MulAtLeast(y - x, n);
      MulDiff(y, x, n);
    }
  }

  /** `x = q * n + r` with `0 <= r < n` determines `q` and `r`. */
  lemma DivModUnique(x: nat, n: nat, q: nat, r: nat)
    requires 0 <= r < n && x == q * n + r
    ensures q == x / n && r == x % n
  {
    var q0, r0 := x / n, x % n;
    assert q0 * n + r0 == x;
    MulStrict(q, q0, n);
    MulStrict(q0, q, n);
  }

  /** One step of `currentGroupIndex = (currentGroupIndex + 1) % targetGroups`:
      after `k` placements the cursor is `k % n` and `k / n` rounds are full. */
  lemma CursorStep(k: nat, n: nat)
    requires n > 0
    ensures (k % n + 1) % n == (k + 1) % n
    ensures k % n + 1 < n ==> (k + 1) / n == k / n
    ensures k % n + 1 == n ==> (k + 1) / n == k / n + 1
  {
    assert (k / n) * n + k % n == k;
    if k % n + 1 < n {
      DivModUnique(k + 1, n, k / n, k % n + 1);
      DivModUnique(k % n + 1, n, 0, k % n + 1);
    } else {
      assert (k / n + 1) * n == (k / n) * n + n;
      DivModUnique(k + 1, n, k / n + 1, 0);
      DivModUnique(k % n + 1, n, 1, 0);
    }
  }

  /** Positions with the same cursor are at least a full round apart. */
  lemma SameCursorGap(a: nat, k: nat, n: nat)
    requires n > 0 && a < k && a % n == k % n
    ensures a + n <= k
  {
    var qa, qk := a / n, k / n;
    assert qk * n + k % n == k && qa * n + a % n == a;
    MulMonotone(qk, qa, n);
    MulStrict(qa, qk, n);
  }

  /** The round-robin size profile after `k` placements: every group has
      `k / n` members, and the first `k % n` groups one more. */
  function RoundRobinSize(k: nat, n: nat, g: nat): nat
    requires n > 0
  {
    if g < k % n then k / n + 1 else k / n
  }

  /** While fewer than `total` members are placed, the cursor's group still
      has room, so the capacity check of the round-robin pass never fails. */
  lemma RoundRobinFits(k: nat, total: nat, n: nat)
    requires n > 0 && k < total
    ensures RoundRobinSize(k, n, k % n) < Capacity(total, n, k % n)
  {
    var q, r, b, m := k / n, k % n, total / n, total % n;
    assert k == q * n + r && total == b * n + m;
    MulStrict(b, q, n);
  }

  /** After at most `total` round-robin placements no group exceeds its
      capacity. */
  lemma RoundRobinWithinCapacity(k: nat, total: nat, n: nat, g: nat)
    requires n > 0 && k <= total
    ensures RoundRobinSize(k, n, g) <= Capacity(total, n, g)
  {
    var q, r, b, m := k / n, k % n, total / n, total % n;
    assert k == q * n + r && total == b * n + m;
    MulStrict(b, q, n);
  }

  /** The members of all groups, group after group. */
  function Flatten<T>(groups: seq<seq<T>>): seq<T> {
    if groups == [] then [] else Flatten(groups[..|groups| - 1]) + groups[|groups| - 1]
  }

  /** The total number of members in the groups. */
  function TotalSize<T>(groups: seq<seq<T>>): nat {
    if groups == [] then 0 else TotalSize(groups[..|groups| - 1]) + |groups[|groups| - 1]|
  }

  lemma {:induction false} FlattenSize<T>(groups: seq<seq<T>>)
    ensures |Flatten(groups)| == TotalSize(groups)
  {
    if groups != [] {
      FlattenSize(groups[..|groups| - 1]);
    }
  }

  /** Pushing `x` onto one group adds `x` to the members, once. */
  lemma {:induction false} PushAddsOne<T>(groups: seq<seq<T>>, g: nat, x: T)
    requires g < |groups|
    ensures multiset(Flatten(groups[g := groups[g] + [x]])) == multiset(Flatten(groups)) + multiset{x}
    ensures TotalSize(groups[g := groups[g] + [x]]) == TotalSize(groups) + 1
  {
    var after := groups[g := groups[g] + [x]];
    var n := |groups|;
    if g == n - 1 {
      assert after[..n - 1] == groups[..n - 1];
    } else {
      assert after[..n - 1] == groups[..n - 1][g := groups[g] + [x]];
      PushAddsOne(groups[..n - 1], g, x);
    }
  }

  /** Every member of a group occurs in the concatenation. */
  lemma {:induction false} InGroupInFlatten<T>(groups: seq<seq<T>>, g: nat, x: T)
    requires g < |groups| && x in groups[g]
    ensures x in Flatten(groups)
  {
    if g < |groups| - 1 {
      InGroupInFlatten(groups[..|groups| - 1], g, x);
    }
  }

  /** Groups within their capacities hold fewer members than the capacities
      add up to, unless every group is exactly full. */
  lemma {:induction false} FullOrRoom<T>(groups: seq<seq<T>>, total: nat, n: nat, k: nat)
    requires 0 < n && k <= |groups| && k <= n
    requires forall g :: 0 <= g < k ==> |groups[g]| <= Capacity(total, n, g)
    ensures TotalSize(groups[..k]) <= CapacityBefore(total, n, k)
    ensures TotalSize(groups[..k]) == CapacityBefore(total, n, k) ==>
              forall g :: 0 <= g < k ==> |groups[g]| == Capacity(total, n, g)
  {
    if k > 0 {
      FullOrRoom(groups, total, n, k - 1);
      assert groups[..k][..k - 1] == groups[..k - 1];
    }
  }

  /** Groups within their capacities that hold fewer members than there are
      leave room in some group. */
  lemma RoomSomewhere<T>(groups: seq<seq<T>>, total: nat, n: nat) returns (g: nat)
    requires 0 < n == |groups|
    requires forall h :: 0 <= h < n ==> |groups[h]| <= Capacity(total, n, h)
    requires TotalSize(groups) < total
    ensures g < n && |groups[g]| < Capacity(total, n, g)
  {
    CapacitiesSum(total, n);
    assert groups[..n] == groups;
    EqualSizesTotal(groups, total, n, n);
    g :| 0 <= g < n && |groups[g]| != Capacity(total, n, g);
  }

  lemma {:induction false} EqualSizesTotal<T>(groups: seq<seq<T>>, total: nat, n: nat, k: nat)
    requires 0 < n && k <= |groups| && k <= n
    ensures (forall g :: 0 <= g < k ==> |groups[g]| == Capacity(total, n, g)) ==>
              TotalSize(groups[..k]) == CapacityBefore(total, n, k)
  {
    if k > 0 {
      EqualSizesTotal(groups, total, n, k - 1);
      assert groups[..k][..k - 1] == groups[..k - 1];
    }
  }

  /** Groups within their capacities that hold as many members as there are
      are all exactly full. */
  lemma AllFull<T>(groups: seq<seq<T>>, total: nat, n: nat)
    requires 0 < n == |groups|
    requires forall h :: 0 <= h < n ==> |groups[h]| <= Capacity(total, n, h)
    requires TotalSize(groups) == total
    ensures forall h :: 0 <= h < n ==> |groups[h]| == Capacity(total, n, h)
  {
    CapacitiesSum(total, n);
    assert groups[..n] == groups;
    FullOrRoom(groups, total, n, n);
  }

  /** Groups filled exactly to their capacities hold all the members. */
  lemma FullTotal<T>(groups: seq<seq<T>>, total: nat, n: nat)
    requires 0 < n == |groups|
    requires forall h :: 0 <= h < n ==> |groups[h]| == Capacity(total, n, h)
    ensures TotalSize(groups) == total
  {
    CapacitiesSum(total, n);
    EqualSizesTotal(groups, total, n, n);
    assert groups[..n] == groups;
  }

  /** Groups with no members yet. */
  lemma {:induction false} FlattenEmpty<T>(groups: seq<seq<T>>)
    requires forall g :: 0 <= g < |groups| ==> groups[g] == []
    ensures Flatten(groups) == []
  {
    if groups != [] {
      FlattenEmpty(groups[..|groups| - 1]);
    }
  }

  /** Pushing onto the cursor's group after `k` placements gives the size
      profile of `k + 1` placements. */
  lemma RoundRobinGrow<T>(groups: seq<seq<T>>, k: nat, n: nat, x: T)
    requires 0 < n == |groups|
    requires forall g :: 0 <= g < n ==> |groups[g]| == RoundRobinSize(k, n, g)
    ensures var after := groups[k % n := groups[k % n] + [x]];
      forall g :: 0 <= g < n ==> |after[g]| == RoundRobinSize(k + 1, n, g)
  {
    CursorStep(k, n);
  }
}
