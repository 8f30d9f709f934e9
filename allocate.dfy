/** `allocateMembers` and `reAllocate` (src/lib/allocate.ts). Members are
    identified by their position in the input, since the program keeps object
    identities in its sets and maps; the groups under construction are
    sequences of such positions. Every random number comes from the oracle
    described in the `Shuffle` module. */
module Allocate {
  import opened Types
  import opened Strings
  import opened Maps
  import opened Groups
  import opened Duplicates
  import opened Shuffle

  /** The record key of group `g` (counted from 0): `그룹 ${g + 1}`. */
  function GroupName(g: nat): string {
    "그룹 " + NatToString(g + 1)
  }

  /** Different groups get different keys. */
  lemma GroupNamesDistinct(g1: nat, g2: nat)
    requires GroupName(g1) == GroupName(g2)
    ensures g1 == g2
  {
    assert GroupName(g1)[3..] == NatToString(g1 + 1);
    assert GroupName(g2)[3..] == NatToString(g2 + 1);
    NatToStringInjective(g1 + 1, g2 + 1);
  }

  /** The positions below `k`, in increasing order, of the members whose
      earlier group is `l`. */
  function WithLabel(members: seq<Member>, l: string, k: nat): seq<nat>
    requires k <= |members|
  {
    if k == 0 then []
    else WithLabel(members, l, k - 1) + (if members[k - 1].prevGroup == l then [k - 1] else [])
  }

  /** The positions listed are below `k`, carry earlier group `l`, and are
      in increasing order. */
  lemma {:induction false} WithLabelSorted(members: seq<Member>, l: string, k: nat)
    requires k <= |members|
    ensures forall i :: 0 <= i < |WithLabel(members, l, k)| ==>
              WithLabel(members, l, k)[i] < k && members[WithLabel(members, l, k)[i]].prevGroup == l
    ensures forall i, j :: 0 <= i < j < |WithLabel(members, l, k)| ==> WithLabel(members, l, k)[i] < WithLabel(members, l, k)[j]
  {
    if k > 0 {
      WithLabelSorted(members, l, k - 1);
      var r0, r := WithLabel(members, l, k - 1), WithLabel(members, l, k);
      if members[k - 1].prevGroup == l {
        assert r == r0 + [k - 1];
      } else {
        assert r == r0;
      }
    }
  }

  lemma {:induction false} WithLabelMembers(members: seq<Member>, l: string, k: nat)
    requires k <= |members|
    ensures forall x: nat :: x in WithLabel(members, l, k) <==> x < k && members[x].prevGroup == l
  {
    if k > 0 {
      WithLabelMembers(members, l, k - 1);
    }
  }

  lemma {:induction false} WithLabelEmpty(members: seq<Member>, l: string, k: nat)
    requires k <= |members|
    requires forall x :: 0 <= x < k ==> members[x].prevGroup != l
    ensures WithLabel(members, l, k) == []
  {
    if k > 0 {
      WithLabelEmpty(members, l, k - 1);
    }
  }

  /** How many members have earlier group `l`. */
  function LabelCount(members: seq<Member>, l: string): nat {
    |WithLabel(members, l, |members|)|
  }

  /** The last element of `a` occurs in any reordering `b` of `a`, and
      dropping both leaves reorderings of each other. */
  lemma RemoveMatching<T>(a: seq<T>, b: seq<T>) returns (k: nat)
    requires a != [] && multiset(a) == multiset(b)
    ensures k < |b| && b[k] == a[|a| - 1]
    ensures multiset(a[..|a| - 1]) == multiset(b[..k] + b[k + 1..])
  {
    var x, rest := a[|a| - 1], a[..|a| - 1];
    assert a == rest + [x];
    assert x in multiset(b);
    k :| 0 <= k < |b| && b[k] == x;
    var front, back := b[..k], b[k + 1..];
    assert b == front + [x] + back;
    var kept, others := multiset(rest), multiset(front + back);
    assert kept + multiset{x} == others + multiset{x};
    assert kept == kept + multiset{x} - multiset{x};
    assert others == others + multiset{x} - multiset{x};
  }

  /** Positions past `|s|` do not change the positions below it. */
  lemma {:induction false} WithLabelPrefix(s: seq<Member>, t: seq<Member>, l: string, k: nat)
    requires k <= |s|
    ensures WithLabel(s + t, l, k) == WithLabel(s, l, k)
  {
    if k > 0 {
      WithLabelPrefix(s, t, l, k - 1);
    }
  }

  lemma LabelCountSnoc(s: seq<Member>, x: Member, l: string)
    ensures LabelCount(s + [x], l) == LabelCount(s, l) + (if x.prevGroup == l then 1 else 0)
  {
    WithLabelPrefix(s, [x], l, |s|);
  }

  lemma {:induction false} LabelCountConcat(a: seq<Member>, b: seq<Member>, l: string)
    ensures LabelCount(a + b, l) == LabelCount(a, l) + LabelCount(b, l)
  {
    if b != [] {
      var init, last := b[..|b| - 1], b[|b| - 1];
      assert a + b == (a + init) + [last];
      assert b == init + [last];
      LabelCountConcat(a, init, l);
      LabelCountSnoc(a + init, last, l);
      LabelCountSnoc(init, last, l);
    } else {
      assert a + b == a;
    }
  }

  /** How many members carry an earlier group does not depend on their
      order. */
  lemma {:induction false} LabelCountPermutation(a: seq<Member>, b: seq<Member>, l: string)
    requires multiset(a) == multiset(b)
    ensures LabelCount(a, l) == LabelCount(b, l)
  {
    if a == [] {
      assert |multiset(b)| == 0;
    } else {
      var x, rest := a[|a| - 1], a[..|a| - 1];
      var k := RemoveMatching(a, b);
      var others := b[..k] + b[k + 1..];
      assert a == rest + [x];
      assert b == b[..k] + [x] + b[k + 1..];
      LabelCountPermutation(rest, others, l);
      LabelCountSnoc(rest, x, l);
      LabelCountConcat(b[..k] + [x], b[k + 1..], l);
      LabelCountSnoc(b[..k], x, l);
      LabelCountConcat(b[..k], b[k + 1..], l);
    }
  }

  /** The positions of the members with a known earlier group. */
  function LabelledIndices(members: seq<Member>): set<nat> {
    set k: nat | k < |members| && Labelled(members[k])
  }

  /** The positions of all members, as a set: the `assigned` set once
      every member is placed. `Positions` lists the same numbers in order. */
  function Range(n: nat): (r: set<nat>)
    ensures forall x: nat :: x in r <==> x < n
  {
    if n == 0 then {} else Range(n - 1) + {n - 1}
  }

  lemma {:induction false} RangeSize(n: nat)
    ensures |Range(n)| == n
  {
    if n > 0 {
      RangeSize(n - 1);
    }
  }

  /** A set of positions below `n` has at most `n` elements. */
  lemma AllBelow(s: set<nat>, n: nat)
    requires forall x :: x in s ==> x < n
    ensures |s| <= n
  {
    assert Range(n) == s + (Range(n) - s);
    RangeSize(n);
  }

  /** A set of positions below `n` that misses position `m < n` has fewer
      than `n` elements. */
  lemma MissingOneBelow(s: set<nat>, n: nat, m: nat)
    requires forall x :: x in s ==> x < n
    requires m < n && m !in s
    ensures |s| < n
  {
    AllBelow(s + {m}, n);
  }

  /** No position occurs twice. Unlike `DistinctKeys`, which is kept one
      step at a time, this two-index form is what the shuffled copies and the
      filtered lists are compared with through their multisets. */
  predicate NoDup(s: seq<nat>) {
    forall i, j :: 0 <= i < j < |s| ==> s[i] != s[j]
  }

  lemma {:induction false} NoDupCount(s: seq<nat>, x: nat)
    requires NoDup(s)
    ensures multiset(s)[x] <= 1
  {
    if s != [] {
      var init := s[..|s| - 1];
      NoDupCount(init, x);
      assert s == init + [s[|s| - 1]];
      if s[|s| - 1] == x {
        assert x !in init;
      }
    }
  }

  /** Reordering keeps a sequence free of repetitions. */
  lemma PermutationNoDup(a: seq<nat>, b: seq<nat>)
    requires NoDup(a) && multiset(a) == multiset(b)
    ensures NoDup(b)
  {
    forall i, j | 0 <= i < j < |b| ensures b[i] != b[j] {
      TwoOccurrences(b, i, j);
      NoDupCount(a, b[j]);
    }
  }

  /** Equal elements at two positions occur at least twice. */
  lemma TwoOccurrences(b: seq<nat>, i: nat, j: nat)
    requires i < j < |b|
    ensures b[i] == b[j] ==> multiset(b)[b[j]] >= 2
  {
    if b[i] == b[j] {
      assert b == b[..j] + [b[j]] + b[j + 1..];
      assert b[..j][i] == b[i];
      assert b[i] in multiset(b[..j]);
    }
  }

  /** Reordering keeps the same members. */
  lemma PermutationMembers(a: seq<nat>, b: seq<nat>)
    requires multiset(a) == multiset(b)
    ensures forall x :: x in a <==> x in b
  {
    forall x ensures x in a <==> x in b {
      assert x in a <==> x in multiset(a);
      assert x in b <==> x in multiset(b);
    }
  }

  /** The labels known after the first `k` members: none is empty, and every
      member seen with a known earlier group has it among them. */
  predicate LabelsKnown(members: seq<Member>, labels: seq<string>, k: nat)
    requires k <= |members|
  {
    && (forall b :: 0 <= b < |labels| ==> labels[b] != "")
    && (forall x {:trigger Labelled(members[x])} :: 0 <= x < k && Labelled(members[x]) ==> members[x].prevGroup in labels)
  }

  /** Bucket `b` lists, in input order, the positions below `k` of the
      members whose earlier group is `labels[b]`. */
  predicate BucketsMatch(members: seq<Member>, labels: seq<string>, buckets: seq<seq<nat>>, k: nat)
    requires k <= |members|
  {
    && |labels| == |buckets|
    && (forall b :: 0 <= b < |labels| ==> buckets[b] == WithLabel(members, labels[b], k))
  }

  /** The outcome of lines 16-24 after the first `k` members: one bucket per
      known earlier group; each bucket lists the positions of that group's
      members in input order. */
  predicate BucketsUpTo(members: seq<Member>, labels: seq<string>, buckets: seq<seq<nat>>, k: nat)
    requires k <= |members|
  {
    LabelsKnown(members, labels, k) && DistinctKeys(labels) && BucketsMatch(members, labels, buckets, k)
  }

  predicate IsBucketing(members: seq<Member>, labels: seq<string>, buckets: seq<seq<nat>>) {
    BucketsUpTo(members, labels, buckets, |members|)
  }

  /** The `Map` keeps insertion order: every bucket is non-empty and the
      buckets come in the order their first members occur. */
  predicate FirstSeenOrder(buckets: seq<seq<nat>>, k: nat) {
    && (forall b :: 0 <= b < |buckets| ==> buckets[b] != [] && buckets[b][0] < k)
    && (forall b :: 0 < b < |buckets| ==> buckets[b - 1][0] < buckets[b][0])
  }

  /** Any earlier bucket starts with an earlier member. */
  lemma {:induction false} FirstSeenPairwise(buckets: seq<seq<nat>>, k: nat, b1: nat, b2: nat)
    requires FirstSeenOrder(buckets, k) && b1 < b2 < |buckets|
    ensures buckets[b1][0] < buckets[b2][0]
    decreases b2 - b1
  {
    if b1 + 1 < b2 {
      FirstSeenPairwise(buckets, k, b1 + 1, b2);
    }
  }

  /** A known earlier group not seen before becomes a new, distinct label. */
  lemma LabelsOpen(members: seq<Member>, labels: seq<string>, k: nat)
    requires k < |members| && LabelsKnown(members, labels, k) && DistinctKeys(labels)
    requires Labelled(members[k]) && members[k].prevGroup !in labels
    ensures LabelsKnown(members, labels + [members[k].prevGroup], k + 1)
    ensures DistinctKeys(labels + [members[k].prevGroup])
  {
    var labels' := labels + [members[k].prevGroup];
    assert forall b :: 0 <= b <= |labels| ==> labels'[..b] == labels[..b];
  }

  /** A member whose earlier group is unknown or already a label adds no label. */
  lemma LabelsKeep(members: seq<Member>, labels: seq<string>, k: nat)
    requires k < |members| && LabelsKnown(members, labels, k)
    requires Labelled(members[k]) ==> members[k].prevGroup in labels
    ensures LabelsKnown(members, labels, k + 1)
  {
  }

  /** Under known labels, no member seen so far carries a new earlier group. */
  lemma LabelUnseen(members: seq<Member>, labels: seq<string>, k: nat, l: string)
    requires k <= |members| && LabelsKnown(members, labels, k)
    requires l != "" && l !in labels
    ensures WithLabel(members, l, k) == []
  {
    forall x | 0 <= x < k ensures members[x].prevGroup != l {
      if Labelled(members[x]) { assert members[x].prevGroup in labels; }
    }
    WithLabelEmpty(members, l, k);
  }

  /** A new label opens the bucket `[k]`; the other buckets do not change. */
  lemma BucketOpen(members: seq<Member>, labels: seq<string>, buckets: seq<seq<nat>>, k: nat)
    requires k < |members| && BucketsMatch(members, labels, buckets, k)
    requires members[k].prevGroup !in labels && WithLabel(members, members[k].prevGroup, k) == []
    ensures BucketsMatch(members, labels + [members[k].prevGroup], buckets + [[k]], k + 1)
  {
    var l := members[k].prevGroup;
    var labels', buckets' := labels + [l], buckets + [[k]];
    forall b | 0 <= b < |labels'| ensures buckets'[b] == WithLabel(members, labels'[b], k + 1) {
      if b < |labels| {
        assert labels'[b] == labels[b] != l;
      }
    }
  }

  /** A member with an earlier group seen before joins that group's bucket. */
  lemma BucketJoin(members: seq<Member>, labels: seq<string>, buckets: seq<seq<nat>>, k: nat, b: nat)
    requires k < |members| && BucketsMatch(members, labels, buckets, k) && DistinctKeys(labels)
    requires b < |labels| && labels[b] == members[k].prevGroup
    ensures BucketsMatch(members, labels, buckets[b := buckets[b] + [k]], k + 1)
  {
    var buckets' := buckets[b := buckets[b] + [k]];
    forall b' | 0 <= b' < |labels| ensures buckets'[b'] == WithLabel(members, labels[b'], k + 1) {
      if b' != b { DistinctKeysApart(labels, b', b); }
    }
  }

  /** A member with no earlier group joins no bucket. */
  lemma BucketSkip(members: seq<Member>, labels: seq<string>, buckets: seq<seq<nat>>, k: nat)
    requires k < |members| && BucketsMatch(members, labels, buckets, k) && LabelsKnown(members, labels, k)
    requires !Labelled(members[k])
    ensures BucketsMatch(members, labels, buckets, k + 1)
  {
    forall b | 0 <= b < |labels| ensures buckets[b] == WithLabel(members, labels[b], k + 1) {
      assert labels[b] != members[k].prevGroup;
    }
  }

  /** A member with an earlier group not seen before opens a new bucket, last. */
  lemma TurnOpen(members: seq<Member>, labels: seq<string>, buckets: seq<seq<nat>>, k: nat)
    requires k < |members| && BucketsUpTo(members, labels, buckets, k) && FirstSeenOrder(buckets, k)
    requires Labelled(members[k]) && members[k].prevGroup !in labels
    ensures BucketsUpTo(members, labels + [members[k].prevGroup], buckets + [[k]], k + 1)
    ensures FirstSeenOrder(buckets + [[k]], k + 1)
  {
    LabelsOpen(members, labels, k);
    LabelUnseen(members, labels, k, members[k].prevGroup);
    BucketOpen(members, labels, buckets, k);
    OrderOpen(buckets, k);
  }

  /** A member with an earlier group seen before joins that group's bucket. */
  lemma TurnJoin(members: seq<Member>, labels: seq<string>, buckets: seq<seq<nat>>, k: nat, b: nat)
    requires k < |members| && BucketsUpTo(members, labels, buckets, k) && FirstSeenOrder(buckets, k)
    requires b < |labels| && labels[b] == members[k].prevGroup
    ensures BucketsUpTo(members, labels, buckets[b := buckets[b] + [k]], k + 1)
    ensures FirstSeenOrder(buckets[b := buckets[b] + [k]], k + 1)
  {
    LabelsKeep(members, labels, k);
    BucketJoin(members, labels, buckets, k, b);
    OrderJoin(buckets, k, b);
  }

  /** A member with no earlier group changes no bucket. */
  lemma TurnSkip(members: seq<Member>, labels: seq<string>, buckets: seq<seq<nat>>, k: nat)
    requires k < |members| && BucketsUpTo(members, labels, buckets, k) && FirstSeenOrder(buckets, k)
    requires !Labelled(members[k])
    ensures BucketsUpTo(members, labels, buckets, k + 1) && FirstSeenOrder(buckets, k + 1)
  {
    LabelsKeep(members, labels, k);
    BucketSkip(members, labels, buckets, k);
  }

  /** A bucket opened by member `k` goes last. */
  lemma OrderOpen(buckets: seq<seq<nat>>, k: nat)
    requires FirstSeenOrder(buckets, k)
    ensures FirstSeenOrder(buckets + [[k]], k + 1)
  {
    var buckets' := buckets + [[k]];
    assert forall b :: 0 <= b < |buckets| ==> buckets'[b] == buckets[b];
  }

  /** A push leaves every bucket's first member in place. */
  lemma OrderJoin(buckets: seq<seq<nat>>, k: nat, b: nat)
    requires FirstSeenOrder(buckets, k) && b < |buckets|
    ensures FirstSeenOrder(buckets[b := buckets[b] + [k]], k + 1)
  {
    var buckets' := buckets[b := buckets[b] + [k]];
    assert forall b' :: 0 <= b' < |buckets| ==> buckets'[b'] != [] && buckets'[b'][0] == buckets[b'][0];
  }

  /** `prevGroupMap`: members grouped by their known earlier group, the
      groups in the order they first occur. */
  method GroupByLabel(members: seq<Member>) returns (labels: seq<string>, buckets: seq<seq<nat>>)
    ensures IsBucketing(members, labels, buckets)
    ensures FirstSeenOrder(buckets, |members|)
  {
    labels, buckets := [], [];
    for k := 0 to |members|
      invariant BucketsUpTo(members, labels, buckets, k)
      invariant FirstSeenOrder(buckets, k)
    {
      var member := members[k];
      if member.prevGroup != "" {
        var b := IndexOf(labels, member.prevGroup);
        if b == -1 {
          TurnOpen(members, labels, buckets, k);
          // `set(prevGroup, [])` followed by the push
          labels := labels + [member.prevGroup];
          buckets := buckets + [[k]];
        } else {
          TurnJoin(members, labels, buckets, k, b);
          buckets := buckets[b := buckets[b] + [k]];
        }
      } else {
        TurnSkip(members, labels, buckets, k);
      }
    }
  }


  /** Two members of one group share a known earlier group only when more
      members have that earlier group than there are groups. */
  predicate Spread(members: seq<Member>, groupCount: nat, groups: seq<seq<nat>>) {
    forall g, i, j ::
      0 <= g < |groups| && 0 <= i < j < |groups[g]| && groups[g][i] < |members| && groups[g][j] < |members| &&
      Labelled(members[groups[g][i]]) && members[groups[g][i]].prevGroup == members[groups[g][j]].prevGroup
      ==> LabelCount(members, members[groups[g][i]].prevGroup) > groupCount
  }

  /** Pushing `m` onto group `c` keeps the groups spread when every member
      of `c` sharing `m`'s known earlier group is allowed to. */
  lemma SpreadPush(members: seq<Member>, groupCount: nat, groups: seq<seq<nat>>, c: nat, m: nat)
    requires Spread(members, groupCount, groups) && c < |groups| && m < |members|
    requires forall i :: 0 <= i < |groups[c]| && groups[c][i] < |members| &&
               Labelled(members[groups[c][i]]) && members[groups[c][i]].prevGroup == members[m].prevGroup
               ==> LabelCount(members, members[m].prevGroup) > groupCount
    ensures Spread(members, groupCount, groups[c := groups[c] + [m]])
  {
    var after := groups[c := groups[c] + [m]];
    forall g, i, j |
      0 <= g < |after| && 0 <= i < j < |after[g]| && after[g][i] < |members| && after[g][j] < |members| &&
      Labelled(members[after[g][i]]) && members[after[g][i]].prevGroup == members[after[g][j]].prevGroup
      ensures LabelCount(members, members[after[g][i]].prevGroup) > groupCount
    {
      if g == c && j == |groups[c]| {
        assert after[g][i] == groups[c][i] && after[g][j] == m;
      } else {
        assert after[g][i] == groups[g][i] && after[g][j] == groups[g][j];
      }
    }
  }

  /** A member placed at time t sits in group t % groupCount. */
  ghost predicate SlotsMatch(groupCount: nat, groups: seq<seq<nat>>, placed: set<nat>, slot: map<nat, nat>)
    requires 0 < groupCount == |groups|
  {
    forall g, i :: 0 <= g < groupCount && 0 <= i < |groups[g]| ==>
      groups[g][i] in placed && groups[g][i] in slot && slot[groups[g][i]] % groupCount == g
  }

  /** Every placed member has a known earlier group and was placed before now. */
  ghost predicate PlacedBefore(members: seq<Member>, placed: set<nat>, slot: map<nat, nat>) {
    forall x :: x in placed ==> x < |members| && Labelled(members[x]) && x in slot && slot[x] < |placed|
  }

  /** What holds between placements of the round-robin pass (lines 40-57):
      `slot` (ghost) records when each member was placed; the groups have
      the round-robin size profile, hold exactly the placed members, and
      a member placed at time t sits in group t % groupCount. */
  ghost predicate RoundRobinState(members: seq<Member>, groupCount: nat, groups: seq<seq<nat>>,
                                   placed: set<nat>, cursor: nat, slot: map<nat, nat>)
  {
    && 0 < groupCount && |groups| == groupCount && cursor == |placed| % groupCount
    && (forall g :: 0 <= g < groupCount ==> |groups[g]| == RoundRobinSize(|placed|, groupCount, g))
    && multiset(Flatten(groups)) == multiset(placed)
    && PlacedBefore(members, placed, slot)
    && SlotsMatch(groupCount, groups, placed, slot)
    && Spread(members, groupCount, groups)
  }

  /** A member placed at time `k` into group `k % groupCount` shares a known
      earlier group with an earlier member of that group only when that
      earlier group has more than `groupCount` members: both were placed
      while its bucket was being placed, and a full round apart. */
  lemma RoundRobinSpread(members: seq<Member>, groupCount: nat, groups: seq<seq<nat>>,
                         placed: set<nat>, slot: map<nat, nat>, m: nat, prevGroup: string, start: nat)
    requires 0 < groupCount == |groups| && Spread(members, groupCount, groups)
    requires SlotsMatch(groupCount, groups, placed, slot) && PlacedBefore(members, placed, slot)
    requires m < |members| && members[m].prevGroup == prevGroup
    requires start <= |placed| < start + LabelCount(members, prevGroup)
    requires forall y :: y in placed && y < |members| && members[y].prevGroup == prevGroup ==> slot[y] >= start
    ensures var c := |placed| % groupCount;
      Spread(members, groupCount, groups[c := groups[c] + [m]])
  {
    var k, n := |placed|, groupCount;
    var c := k % n;
    forall i | 0 <= i < |groups[c]| && groups[c][i] < |members| &&
               Labelled(members[groups[c][i]]) && members[groups[c][i]].prevGroup == members[m].prevGroup
      ensures LabelCount(members, members[m].prevGroup) > groupCount
    {
      var x := groups[c][i];
      SameCursorGap(slot[x], k, n);
    }
    SpreadPush(members, n, groups, c, m);
  }

  /** The placement records stay consistent when `m` is placed at time
      `|placed|` into the cursor's group. */
  lemma RoundRobinSlots(members: seq<Member>, groupCount: nat, groups: seq<seq<nat>>,
                        placed: set<nat>, slot: map<nat, nat>, m: nat)
    requires 0 < groupCount == |groups|
    requires SlotsMatch(groupCount, groups, placed, slot) && PlacedBefore(members, placed, slot)
    requires m < |members| && Labelled(members[m]) && m !in placed
    ensures var c := |placed| % groupCount;
      && SlotsMatch(groupCount, groups[c := groups[c] + [m]], placed + {m}, slot[m := |placed|])
      && PlacedBefore(members, placed + {m}, slot[m := |placed|])
  {
    var k, n := |placed|, groupCount;
    var c := k % n;
    var groups', placed', slot' := groups[c := groups[c] + [m]], placed + {m}, slot[m := k];
    assert |placed'| == k + 1;
    forall g, i | 0 <= g < n && 0 <= i < |groups'[g]|
      ensures groups'[g][i] in placed' && groups'[g][i] in slot' && slot'[groups'[g][i]] % n == g
    {
      if g == c && i == |groups[c]| {
        assert groups'[g][i] == m;
      } else {
        assert groups'[g][i] == groups[g][i];
      }
    }
  }

  /** Pushing a member not yet placed keeps the groups holding exactly the
      placed members. */
  lemma PushPlaced(groups: seq<seq<nat>>, placed: set<nat>, c: nat, m: nat)
    requires c < |groups| && m !in placed
    requires multiset(Flatten(groups)) == multiset(placed)
    ensures multiset(Flatten(groups[c := groups[c] + [m]])) == multiset(placed + {m})
  {
    PushAddsOne(groups, c, m);
    assert multiset(placed + {m}) == multiset(placed) + multiset{m};
  }

  /** One round-robin placement of member `m` of the bucket of `prevGroup`,
      whose placement started at time `start`. */
  lemma RoundRobinPlace(members: seq<Member>, groupCount: nat, groups: seq<seq<nat>>,
                        placed: set<nat>, cursor: nat, slot: map<nat, nat>, m: nat, prevGroup: string, start: nat)
    requires RoundRobinState(members, groupCount, groups, placed, cursor, slot)
    requires m < |members| && members[m].prevGroup == prevGroup && prevGroup != "" && m !in placed
    requires start <= |placed| < start + LabelCount(members, prevGroup)
    requires forall y :: y in placed && y < |members| && members[y].prevGroup == prevGroup ==> slot[y] >= start
    ensures RoundRobinState(members, groupCount, groups[cursor := groups[cursor] + [m]], placed + {m},
                            (cursor + 1) % groupCount, slot[m := |placed|])
  {
    var k, n := |placed|, groupCount;
    assert |placed + {m}| == k + 1;
    CursorStep(k, n);
    RoundRobinGrow(groups, k, n, m);
    PushPlaced(groups, placed, cursor, m);
    RoundRobinSpread(members, n, groups, placed, slot, m, prevGroup, start);
    RoundRobinSlots(members, n, groups, placed, slot, m);
  }

  /** A reordering of the bucket of `prevGroup` holds exactly the members
      with that earlier group. */
  lemma ShuffledBucketMembers(members: seq<Member>, prevGroup: string, shuffled: seq<nat>)
    requires multiset(shuffled) == multiset(WithLabel(members, prevGroup, |members|))
    ensures forall x: nat :: x in shuffled <==> x < |members| && members[x].prevGroup == prevGroup
  {
    WithLabelMembers(members, prevGroup, |members|);
    PermutationMembers(shuffled, WithLabel(members, prevGroup, |members|));
  }

  /** Progress through the shuffled bucket of `prevGroup`: its first `j`
      members are placed, each at time `start` or later, and nothing else
      joined the members placed before. */
  ghost predicate BucketProgress(members: seq<Member>, prevGroup: string, shuffled: seq<nat>, j: nat,
                                 placed0: set<nat>, placed: set<nat>, slot: map<nat, nat>, start: nat)
  {
    && j <= |shuffled| && |placed| == start + j
    && (forall x: nat :: x in placed <==> x in placed0 || x in shuffled[..j])
    && (forall y :: y in placed && y < |members| && members[y].prevGroup == prevGroup ==> y in slot && slot[y] >= start)
  }

  /** The next member of the bucket is new, and the cursor's group has room
      for it. */
  lemma BucketRoom(members: seq<Member>, groupCount: nat, groups: seq<seq<nat>>, placed: set<nat>, cursor: nat,
                   slot: map<nat, nat>, prevGroup: string, shuffled: seq<nat>, j: nat, placed0: set<nat>, start: nat)
    requires RoundRobinState(members, groupCount, groups, placed, cursor, slot)
    requires BucketProgress(members, prevGroup, shuffled, j, placed0, placed, slot, start)
    requires multiset(shuffled) == multiset(WithLabel(members, prevGroup, |members|)) && NoDup(shuffled)
    requires forall x :: x in placed0 ==> x < |members| && members[x].prevGroup != prevGroup
    requires j < |shuffled|
    ensures shuffled[j] < |members| && members[shuffled[j]].prevGroup == prevGroup && shuffled[j] !in placed
    ensures |groups[cursor]| < Capacity(|members|, groupCount, cursor)
  {
    var m := shuffled[j];
    ShuffledBucketMembers(members, prevGroup, shuffled);
    assert m in shuffled;
    assert m !in shuffled[..j];
    MissingOneBelow(placed, |members|, m);
    RoundRobinFits(|placed|, |members|, groupCount);
  }

  /** Placing the next member of the bucket keeps the round-robin state and
      advances the progress through the bucket. */
  lemma BucketPlace(members: seq<Member>, groupCount: nat, groups: seq<seq<nat>>, placed: set<nat>, cursor: nat,
                    slot: map<nat, nat>, prevGroup: string, shuffled: seq<nat>, j: nat, placed0: set<nat>, start: nat)
    requires RoundRobinState(members, groupCount, groups, placed, cursor, slot)
    requires BucketProgress(members, prevGroup, shuffled, j, placed0, placed, slot, start)
    requires |shuffled| == LabelCount(members, prevGroup) && prevGroup != ""
    requires j < |shuffled|
    requires shuffled[j] < |members| && members[shuffled[j]].prevGroup == prevGroup && shuffled[j] !in placed
    ensures RoundRobinState(members, groupCount, groups[cursor := groups[cursor] + [shuffled[j]]],
                            placed + {shuffled[j]}, (cursor + 1) % groupCount, slot[shuffled[j] := |placed|])
    ensures BucketProgress(members, prevGroup, shuffled, j + 1, placed0,
                           placed + {shuffled[j]}, slot[shuffled[j] := |placed|], start)
  {
    var m := shuffled[j];
    RoundRobinPlace(members, groupCount, groups, placed, cursor, slot, m, prevGroup, start);
    assert shuffled[..j + 1] == shuffled[..j] + [m];
  }

  /** `order` lists placed members by the time they were placed: the member
      at index `t` was placed at time `t`. */
  ghost predicate Timed(order: seq<nat>, placed: set<nat>, slot: map<nat, nat>) {
    forall t :: 0 <= t < |order| ==> order[t] in placed && order[t] in slot && slot[order[t]] == t
  }

  /** Placing `m` at time `|placed|` extends the order by `m`. */
  lemma TimedPush(order: seq<nat>, placed: set<nat>, slot: map<nat, nat>, m: nat)
    requires Timed(order, placed, slot) && |order| == |placed| && m !in placed
    ensures Timed(order + [m], placed + {m}, slot[m := |placed|])
  {
    forall t | 0 <= t < |order| + 1
      ensures (order + [m])[t] in placed + {m} && (order + [m])[t] in slot[m := |placed|]
      ensures slot[m := |placed|][(order + [m])[t]] == t
    {
      if t < |order| {
        assert order[t] in placed;
      }
    }
  }

  /** The order after one more member of the bucket is placed. */
  lemma OrderGrows(order0: seq<nat>, shuffled: seq<nat>, j: nat)
    requires j < |shuffled|
    ensures order0 + shuffled[..j + 1] == order0 + shuffled[..j] + [shuffled[j]]
  {
    assert shuffled[..j + 1] == shuffled[..j] + [shuffled[j]];
  }

  /** The placement order of the round-robin pass: the member placed at time
      `t` sits in group `t % groupCount`, the cursor's value at that time. */
  ghost predicate Dealt(groupCount: nat, groups: seq<seq<nat>>, order: seq<nat>) {
    && 0 < groupCount == |groups|
    && forall t :: 0 <= t < |order| ==> order[t] in groups[t % groupCount]
  }

  /** A member of the concatenation is a member of one of the groups. */
  lemma {:induction false} InFlattenInGroup(groups: seq<seq<nat>>, x: nat) returns (g: nat)
    requires x in Flatten(groups)
    ensures g < |groups| && x in groups[g]
  {
    var k := |groups| - 1;
    if x in groups[k] {
      g := k;
    } else {
      assert Flatten(groups) == Flatten(groups[..k]) + groups[k];
      g := InFlattenInGroup(groups[..k], x);
      assert groups[..k][g] == groups[g];
    }
  }

  /** The round-robin bookkeeping places the member of time `t` in group
      `t % groupCount`. */
  lemma TimedDealt(groupCount: nat, groups: seq<seq<nat>>, placed: set<nat>, slot: map<nat, nat>, order: seq<nat>)
    requires 0 < groupCount == |groups| && SlotsMatch(groupCount, groups, placed, slot)
    requires multiset(Flatten(groups)) == multiset(placed) && Timed(order, placed, slot)
    ensures Dealt(groupCount, groups, order)
  {
    forall t | 0 <= t < |order| ensures order[t] in groups[t % groupCount] {
      var x := order[t];
      assert x in multiset(Flatten(groups));
      var g := InFlattenInGroup(groups, x);
      var i :| 0 <= i < |groups[g]| && groups[g][i] == x;
    }
  }

  /** Lines 44-56: a shuffled copy of one bucket, each member pushed onto the
      cursor's group, which always has room. */
  method PlaceBucket(members: seq<Member>, groupCount: nat, groups0: seq<seq<nat>>, placed0: set<nat>,
                     cursor0: nat, ghost slot0: map<nat, nat>, ghost order0: seq<nat>, prevGroup: string,
                     bucket: seq<nat>, draw: nat -> nat, tick: nat)
      returns (groups: seq<seq<nat>>, placed: set<nat>, cursor: nat, ghost slot: map<nat, nat>,
               ghost order: seq<nat>, ghost dealt: seq<nat>, next: nat)
    requires RoundRobinState(members, groupCount, groups0, placed0, cursor0, slot0)
    requires |order0| == |placed0| && Timed(order0, placed0, slot0)
    requires prevGroup != "" && bucket == WithLabel(members, prevGroup, |members|)
    requires forall x :: x in placed0 ==> x < |members| && members[x].prevGroup != prevGroup
    ensures RoundRobinState(members, groupCount, groups, placed, cursor, slot)
    ensures forall x: nat :: x in placed <==> x in placed0 || (x < |members| && members[x].prevGroup == prevGroup)
    ensures multiset(dealt) == multiset(bucket) && order == order0 + dealt
    ensures |order| == |placed| && Timed(order, placed, slot)
  {
    var shuffledGroupMembers;
    shuffledGroupMembers, next := ShuffledCopy(bucket, draw, tick);
    WithLabelSorted(members, prevGroup, |members|);
    PermutationNoDup(bucket, shuffledGroupMembers);
    var baseSize, remainder := |members| / groupCount, |members| % groupCount;
    groups, placed, cursor, slot := groups0, placed0, cursor0, slot0;
    ghost var start := |placed0|;
    order := order0;
    for j := 0 to |shuffledGroupMembers|
      invariant RoundRobinState(members, groupCount, groups, placed, cursor, slot)
      invariant BucketProgress(members, prevGroup, shuffledGroupMembers, j, placed0, placed, slot, start)
      invariant order == order0 + shuffledGroupMembers[..j]
      invariant Timed(order, placed, slot)
    {
      var member := shuffledGroupMembers[j];
      BucketRoom(members, groupCount, groups, placed, cursor, slot, prevGroup, shuffledGroupMembers, j, placed0, start);
      var targetGroupIndex := cursor;
      var targetSize := if targetGroupIndex < remainder then baseSize + 1 else baseSize;
      if |groups[targetGroupIndex]| < targetSize {
        BucketPlace(members, groupCount, groups, placed, cursor, slot, prevGroup, shuffledGroupMembers, j, placed0, start);
        TimedPush(order, placed, slot, member);
        OrderGrows(order0, shuffledGroupMembers, j);
        slot := slot[member := |placed|];
        order := order + [member];
        groups := groups[targetGroupIndex := groups[targetGroupIndex] + [member]];
        placed := placed + {member};
        cursor := (cursor + 1) % groupCount;
      }
    }
    assert shuffledGroupMembers[..|shuffledGroupMembers|] == shuffledGroupMembers;
    dealt := shuffledGroupMembers;
    ShuffledBucketMembers(members, prevGroup, shuffledGroupMembers);
  }

  /** Every member of a group is one of the placed members. */
  lemma GroupsHoldPlaced(groups: seq<seq<nat>>, placed: set<nat>)
    requires multiset(Flatten(groups)) == multiset(placed)
    ensures forall g, i :: 0 <= g < |groups| && 0 <= i < |groups[g]| ==> groups[g][i] in placed
  {
    forall g, i | 0 <= g < |groups| && 0 <= i < |groups[g]| ensures groups[g][i] in placed {
      InGroupInFlatten(groups, g, groups[g][i]);
      assert groups[g][i] in multiset(Flatten(groups));
    }
  }

  /** Before any member is placed, every group is empty. */
  lemma RoundRobinStart(members: seq<Member>, groupCount: nat)
    requires 0 < groupCount
    ensures RoundRobinState(members, groupCount, seq(groupCount, _ => []), {}, 0, map[])
  {
    var empty: seq<seq<nat>> := seq(groupCount, _ => []);
    FlattenEmpty(empty);
  }

  /** After the first `b` buckets, the placed members are exactly those whose
      earlier group is among the first `b` labels. */
  ghost predicate PassProgress(members: seq<Member>, labels: seq<string>, placed: set<nat>, b: nat)
    requires b <= |labels|
  {
    forall x: nat :: x in placed <==> x < |members| && members[x].prevGroup in labels[..b]
  }

  /** Bucket `b` holds a label not placed yet. */
  lemma PassNext(members: seq<Member>, labels: seq<string>, buckets: seq<seq<nat>>, placed: set<nat>, b: nat)
    requires IsBucketing(members, labels, buckets) && b < |buckets| && PassProgress(members, labels, placed, b)
    ensures labels[b] != "" && buckets[b] == WithLabel(members, labels[b], |members|)
    ensures forall x :: x in placed ==> x < |members| && members[x].prevGroup != labels[b]
  {
    forall x | x in placed ensures x < |members| && members[x].prevGroup != labels[b] {
      var i :| 0 <= i < b && labels[i] == members[x].prevGroup;
    }
  }

  lemma PassStep(members: seq<Member>, labels: seq<string>, placed0: set<nat>, placed: set<nat>, b: nat)
    requires b < |labels| && PassProgress(members, labels, placed0, b)
    requires forall x: nat :: x in placed <==> x in placed0 || (x < |members| && members[x].prevGroup == labels[b])
    ensures PassProgress(members, labels, placed, b + 1)
  {
    assert labels[..b + 1] == labels[..b] + [labels[b]];
  }

  /** Once every bucket is placed, the placed members are the labelled ones. */
  lemma PassDone(members: seq<Member>, labels: seq<string>, buckets: seq<seq<nat>>, placed: set<nat>)
    requires IsBucketing(members, labels, buckets) && PassProgress(members, labels, placed, |labels|)
    ensures placed == LabelledIndices(members)
  {
    assert labels[..|labels|] == labels;
    forall x: nat ensures x in placed <==> x in LabelledIndices(members) {
      if x < |members| && members[x].prevGroup in labels {
        var i :| 0 <= i < |labels| && labels[i] == members[x].prevGroup;
      }
    }
  }

  /** The first `b` buckets, each in the order it was dealt. */
  ghost predicate DealtBuckets(buckets: seq<seq<nat>>, deals: seq<seq<nat>>, b: nat) {
    && |deals| == b <= |buckets|
    && forall i :: 0 <= i < b ==> multiset(deals[i]) == multiset(buckets[i])
  }

  /** Dealing bucket `b` next appends it to the placement order. */
  lemma DealtNext(buckets: seq<seq<nat>>, deals: seq<seq<nat>>, b: nat, dealt: seq<nat>)
    requires DealtBuckets(buckets, deals, b) && b < |buckets| && multiset(dealt) == multiset(buckets[b])
    ensures DealtBuckets(buckets, deals + [dealt], b + 1)
    ensures Flatten(deals + [dealt]) == Flatten(deals) + dealt
  {
    assert (deals + [dealt])[..b] == deals;
  }

  /** Lines 40-57: the buckets in the order their earlier groups first
      occur, each placed round-robin from where the previous one stopped.
      `order` lists the members in the order they were placed; it is the
      buckets one after the other, each in its shuffled order (`deals`), and
      the member placed at time `t` sits in group `t % groupCount`. So every
      bucket takes consecutive cursor positions, starting where the previous
      bucket stopped. */
  method RoundRobinPass(members: seq<Member>, groupCount: nat, labels: seq<string>, buckets: seq<seq<nat>>,
                        draw: nat -> nat, tick: nat)
      returns (groups: seq<seq<nat>>, placed: set<nat>, ghost order: seq<nat>, ghost deals: seq<seq<nat>>, next: nat)
    requires 0 < groupCount && IsBucketing(members, labels, buckets)
    ensures |groups| == groupCount
    ensures placed == LabelledIndices(members)
    ensures multiset(Flatten(groups)) == multiset(placed)
    ensures forall g :: 0 <= g < groupCount ==> |groups[g]| == RoundRobinSize(|placed|, groupCount, g)
    ensures forall g, i :: 0 <= g < groupCount && 0 <= i < |groups[g]| ==> groups[g][i] in placed
    ensures Spread(members, groupCount, groups)
    ensures |deals| == |buckets| && forall b :: 0 <= b < |buckets| ==> multiset(deals[b]) == multiset(buckets[b])
    ensures order == Flatten(deals) && |order| == |placed| && Dealt(groupCount, groups, order)
  {
    groups := seq(groupCount, _ => []);
    placed := {};
    var currentGroupIndex := 0;
    ghost var slot: map<nat, nat> := map[];
    order, deals := [], [];
    next := tick;
    RoundRobinStart(members, groupCount);
    for b := 0 to |buckets|
      invariant RoundRobinState(members, groupCount, groups, placed, currentGroupIndex, slot)
      invariant PassProgress(members, labels, placed, b)
      invariant DealtBuckets(buckets, deals, b)
      invariant order == Flatten(deals) && |order| == |placed| && Timed(order, placed, slot)
    {
      PassNext(members, labels, buckets, placed, b);
      ghost var before := placed;
      ghost var dealt;
      groups, placed, currentGroupIndex, slot, order, dealt, next :=
        PlaceBucket(members, groupCount, groups, placed, currentGroupIndex, slot, order, labels[b], buckets[b], draw, next);
      PassStep(members, labels, before, placed, b);
      DealtNext(buckets, deals, b, dealt);
      deals := deals + [dealt];
    }
    PassDone(members, labels, buckets, placed);
    GroupsHoldPlaced(groups, placed);
    TimedDealt(groupCount, groups, placed, slot, order);
  }

  /** Group `g` is below its target size. */
  predicate HasRoom(groups: seq<seq<nat>>, total: nat, groupCount: nat, g: nat)
    requires 0 < groupCount && g < |groups|
  {
    |groups[g]| < Capacity(total, groupCount, g)
  }

  /** Group `b` is the best fit: it has room, and every group with room is
      larger, or as large and not earlier. */
  predicate IsBestFit(groups: seq<seq<nat>>, total: nat, groupCount: nat, b: int)
    requires 0 < groupCount == |groups|
  {
    && 0 <= b < groupCount && HasRoom(groups, total, groupCount, b)
    && forall g :: 0 <= g < groupCount && HasRoom(groups, total, groupCount, g) ==>
         |groups[b]| < |groups[g]| || (|groups[b]| == |groups[g]| && b <= g)
  }

  /** After scanning groups `0..i-1`: `b` is -1 exactly when none of them
      has room, and otherwise the best fit among them, of size `minSize`;
      while `b` is -1, `minSize` is `total + 1`, which no group with room
      reaches. */
  ghost predicate ScanState(groups: seq<seq<nat>>, total: nat, groupCount: nat, i: nat, b: int, minSize: nat)
    requires 0 < groupCount == |groups| && i <= groupCount
  {
    && -1 <= b < i
    && (b == -1 <==> forall g :: 0 <= g < i ==> !HasRoom(groups, total, groupCount, g))
    && (b == -1 ==> minSize == total + 1)
    && (b != -1 ==>
          && minSize == |groups[b]| && HasRoom(groups, total, groupCount, b)
          && forall g :: 0 <= g < i && HasRoom(groups, total, groupCount, g) ==>
               minSize < |groups[g]| || (minSize == |groups[g]| && b <= g))
  }

  /** Group `i` has room and is smaller than the best so far: it becomes the
      best fit. */
  lemma ScanTake(groups: seq<seq<nat>>, total: nat, groupCount: nat, i: nat, b: int, minSize: nat)
    requires 0 < groupCount == |groups| && i < groupCount
    requires ScanState(groups, total, groupCount, i, b, minSize)
    requires HasRoom(groups, total, groupCount, i) && |groups[i]| < minSize
    ensures ScanState(groups, total, groupCount, i + 1, i, |groups[i]|)
  {
  }

  /** Group `i` is full, or not smaller than the best so far: the best fit
      stays. */
  lemma ScanSkip(groups: seq<seq<nat>>, total: nat, groupCount: nat, i: nat, b: int, minSize: nat)
    requires 0 < groupCount == |groups| && i < groupCount
    requires ScanState(groups, total, groupCount, i, b, minSize)
    requires !(HasRoom(groups, total, groupCount, i) && |groups[i]| < minSize)
    ensures ScanState(groups, total, groupCount, i + 1, b, minSize)
  {
    CapacityBound(total, groupCount, i);
  }

  /** Lines 63-74: the smallest group that has room, the first one on ties,
      or -1 when every group is full. */
  method BestGroup(groups: seq<seq<nat>>, total: nat, groupCount: nat) returns (bestGroupIndex: int)
    requires 0 < groupCount == |groups|
    ensures bestGroupIndex == -1 <==> forall g :: 0 <= g < groupCount ==> !HasRoom(groups, total, groupCount, g)
    ensures bestGroupIndex != -1 ==> IsBestFit(groups, total, groupCount, bestGroupIndex)
  {
    var baseSize, remainder := total / groupCount, total % groupCount;
    bestGroupIndex := -1;
    // no capacity exceeds total + 1, so this bound acts as `Infinity`
    var minSize: nat := total + 1;
    for i := 0 to groupCount
      invariant ScanState(groups, total, groupCount, i, bestGroupIndex, minSize)
    {
      var targetSize := if i < remainder then baseSize + 1 else baseSize;
      var currentSize := |groups[i]|;
      assert targetSize == Capacity(total, groupCount, i);
      if currentSize < targetSize && currentSize < minSize {
        ScanTake(groups, total, groupCount, i, bestGroupIndex, minSize);
        minSize := currentSize;
        bestGroupIndex := i;
      } else {
        ScanSkip(groups, total, groupCount, i, bestGroupIndex, minSize);
      }
    }
  }

  /** What holds while the remaining members are placed (lines 62-80): the
      first `t` of them joined the members placed before, no group exceeds
      its target size, and the groups stay spread. */
  ghost predicate FillState(members: seq<Member>, groupCount: nat, groups: seq<seq<nat>>, placed: set<nat>,
                            placed0: set<nat>, remaining: seq<nat>, t: nat)
  {
    && 0 < groupCount == |groups| && t <= |remaining|
    && (forall g :: 0 <= g < groupCount ==> |groups[g]| <= Capacity(|members|, groupCount, g))
    && multiset(Flatten(groups)) == multiset(placed)
    && (forall x :: x in placed ==> x < |members|)
    && Spread(members, groupCount, groups)
    && (forall x: nat :: x in placed <==> x in placed0 || x in remaining[..t])
  }

  /** The next remaining member is not placed yet, so some group has room. */
  lemma FillRoom(members: seq<Member>, groupCount: nat, groups: seq<seq<nat>>, placed: set<nat>,
                 placed0: set<nat>, remaining: seq<nat>, t: nat)
    requires FillState(members, groupCount, groups, placed, placed0, remaining, t)
    requires NoDup(remaining) && forall x: nat :: x in remaining <==> x < |members| && x !in placed0
    requires t < |remaining|
    ensures remaining[t] < |members| && remaining[t] !in placed
    ensures exists g :: 0 <= g < groupCount && HasRoom(groups, |members|, groupCount, g)
  {
    var m := remaining[t];
    assert m in remaining;
    assert m !in remaining[..t];
    MissingOneBelow(placed, |members|, m);
    FlattenSize(groups);
    assert |multiset(Flatten(groups))| == |Flatten(groups)|;
    var g := RoomSomewhere(groups, |members|, groupCount);
    assert HasRoom(groups, |members|, groupCount, g);
  }

  /** A member with no known earlier group can join any group. */
  lemma SpreadPushUnlabelled(members: seq<Member>, groupCount: nat, groups: seq<seq<nat>>, c: nat, m: nat)
    requires Spread(members, groupCount, groups) && c < |groups| && m < |members| && !Labelled(members[m])
    ensures Spread(members, groupCount, groups[c := groups[c] + [m]])
  {
    SpreadPush(members, groupCount, groups, c, m);
  }

  /** Pushing onto a group with room keeps every group within its target
      size. */
  lemma PushWithinCapacity(groups: seq<seq<nat>>, total: nat, groupCount: nat, c: nat, m: nat)
    requires 0 < groupCount == |groups| && c < groupCount && HasRoom(groups, total, groupCount, c)
    requires forall g :: 0 <= g < groupCount ==> |groups[g]| <= Capacity(total, groupCount, g)
    ensures var after := groups[c := groups[c] + [m]];
      forall g :: 0 <= g < groupCount ==> |after[g]| <= Capacity(total, groupCount, g)
  {
  }

  /** Placing `remaining[t]` extends the placed members by one more of the
      remaining ones. */
  lemma PlaceNextRemaining(placed: set<nat>, placed0: set<nat>, remaining: seq<nat>, t: nat)
    requires t < |remaining|
    requires forall x: nat :: x in placed <==> x in placed0 || x in remaining[..t]
    ensures forall x: nat :: x in placed + {remaining[t]} <==> x in placed0 || x in remaining[..t + 1]
  {
    assert remaining[..t + 1] == remaining[..t] + [remaining[t]];
  }

  /** Placing the next remaining member, who has no known earlier group,
      into a group with room keeps the fill state. */
  lemma FillPlace(members: seq<Member>, groupCount: nat, groups: seq<seq<nat>>, placed: set<nat>,
                  placed0: set<nat>, remaining: seq<nat>, t: nat, c: nat)
    requires FillState(members, groupCount, groups, placed, placed0, remaining, t)
    requires t < |remaining| && remaining[t] < |members| && remaining[t] !in placed
    requires !Labelled(members[remaining[t]])
    requires c < groupCount && HasRoom(groups, |members|, groupCount, c)
    ensures FillState(members, groupCount, groups[c := groups[c] + [remaining[t]]], placed + {remaining[t]},
                      placed0, remaining, t + 1)
  {
    var m := remaining[t];
    PushPlaced(groups, placed, c, m);
    SpreadPushUnlabelled(members, groupCount, groups, c, m);
    PushWithinCapacity(groups, |members|, groupCount, c, m);
    PlaceNextRemaining(placed, placed0, remaining, t);
  }

  /** Once every remaining member is placed, all members are placed and
      every group is exactly at its target size. */
  lemma FillDone(members: seq<Member>, groupCount: nat, groups: seq<seq<nat>>, placed: set<nat>,
                 placed0: set<nat>, remaining: seq<nat>)
    requires FillState(members, groupCount, groups, placed, placed0, remaining, |remaining|)
    requires forall x: nat :: x in remaining <==> x < |members| && x !in placed0
    requires forall x :: x in placed0 ==> x < |members|
    ensures placed == Range(|members|)
    ensures forall g :: 0 <= g < groupCount ==> |groups[g]| == Capacity(|members|, groupCount, g)
  {
    assert remaining[..|remaining|] == remaining;
    forall x: nat ensures x in placed <==> x in Range(|members|) {
    }
    assert placed == Range(|members|);
    RangeSize(|members|);
    FlattenSize(groups);
    calc {
      TotalSize(groups);
      |Flatten(groups)|;
      |multiset(Flatten(groups))|;
      |multiset(placed)|;
      |placed|;
    }
    AllFull(groups, |members|, groupCount);
  }

  /** Lines 59-80: each remaining member, none of whom has a known earlier
      group, goes to the smallest group that still has room; since the
      capacities add up to the number of members, a group with room always
      exists and every group ends exactly full. */
  method BestFitPass(members: seq<Member>, groupCount: nat, groups0: seq<seq<nat>>, placed0: set<nat>,
                     remaining: seq<nat>)
      returns (groups: seq<seq<nat>>, placed: set<nat>)
    requires FillState(members, groupCount, groups0, placed0, placed0, remaining, 0)
    requires NoDup(remaining) && forall x: nat :: x in remaining <==> x < |members| && x !in placed0
    requires forall i :: 0 <= i < |remaining| ==> remaining[i] < |members| && !Labelled(members[remaining[i]])
    ensures |groups| == groupCount && placed == Range(|members|)
    ensures forall g :: 0 <= g < groupCount ==> |groups[g]| == Capacity(|members|, groupCount, g)
    ensures multiset(Flatten(groups)) == multiset(placed)
    ensures Spread(members, groupCount, groups)
  {
    groups, placed := groups0, placed0;
    for t := 0 to |remaining|
      invariant FillState(members, groupCount, groups, placed, placed0, remaining, t)
    {
      var member := remaining[t];
      FillRoom(members, groupCount, groups, placed, placed0, remaining, t);
      var bestGroupIndex := BestGroup(groups, |members|, groupCount);
      if bestGroupIndex != -1 {
        FillPlace(members, groupCount, groups, placed, placed0, remaining, t, bestGroupIndex);
        groups := groups[bestGroupIndex := groups[bestGroupIndex] + [member]];
        placed := placed + {member};
      } else {
        assert false;
      }
    }
    FillDone(members, groupCount, groups, placed, placed0, remaining);
  }

  /** `members.filter(m => !assigned.has(m))` on positions: the positions
      below `n` not in `placed`, in ascending order. */
  function NotPlaced(n: nat, placed: set<nat>): (r: seq<nat>)
    ensures forall x: nat :: x in r <==> x < n && x !in placed
    ensures forall i, j :: 0 <= i < j < |r| ==> r[i] < r[j]
  {
    if n == 0 then []
    else
      var before := NotPlaced(n - 1, placed);
      assert forall i :: 0 <= i < |before| ==> before[i] in before;
      if n - 1 in placed then before else before + [n - 1]
  }

  /** When every position is placed nothing is left over. */
  lemma {:induction false} NotPlacedNone(n: nat, placed: set<nat>)
    requires forall x: nat :: x < n ==> x in placed
    ensures NotPlaced(n, placed) == []
  {
    if n > 0 {
      NotPlacedNone(n - 1, placed);
    }
  }

  /** The members the round-robin pass placed, within the target sizes,
      start the fill. */
  lemma FillStart(members: seq<Member>, groupCount: nat, groups: seq<seq<nat>>, placed: set<nat>, remaining: seq<nat>)
    requires 0 < groupCount == |groups| && placed == LabelledIndices(members)
    requires multiset(Flatten(groups)) == multiset(placed)
    requires forall g :: 0 <= g < groupCount ==> |groups[g]| == RoundRobinSize(|placed|, groupCount, g)
    requires Spread(members, groupCount, groups)
    ensures FillState(members, groupCount, groups, placed, placed, remaining, 0)
    ensures forall x :: x in placed ==> x < |members|
  {
    AllBelow(placed, |members|);
    forall g | 0 <= g < groupCount ensures |groups[g]| <= Capacity(|members|, groupCount, g) {
      RoundRobinWithinCapacity(|placed|, |members|, groupCount, g);
    }
    assert remaining[..0] == [];
  }

  /** The shuffled leftovers of the round-robin pass are the members with
      no known earlier group, each once. */
  lemma RemainingUnlabelled(members: seq<Member>, placed: set<nat>, shuffled: seq<nat>)
    requires placed == LabelledIndices(members)
    requires multiset(shuffled) == multiset(NotPlaced(|members|, placed))
    ensures NoDup(shuffled)
    ensures forall x: nat :: x in shuffled <==> x < |members| && x !in placed
    ensures forall i :: 0 <= i < |shuffled| ==> shuffled[i] < |members| && !Labelled(members[shuffled[i]])
  {
    var remaining := NotPlaced(|members|, placed);
    AscendingNoDup(remaining);
    PermutationNoDup(remaining, shuffled);
    PermutationMembers(shuffled, remaining);
    forall i | 0 <= i < |shuffled| ensures shuffled[i] < |members| && !Labelled(members[shuffled[i]]) {
      assert shuffled[i] in shuffled;
    }
  }

  /** Groups holding exactly the positions below `n` hold each of them once. */
  lemma ExactlyOnce(groups: seq<seq<nat>>, n: nat)
    requires multiset(Flatten<nat>(groups)) == multiset(Range(n))
    ensures forall x: nat :: multiset(Flatten<nat>(groups))[x] == if x < n then 1 else 0
  {
    forall x: nat ensures multiset(Flatten<nat>(groups))[x] == if x < n then 1 else 0 {
      if x < n {
        assert x in Range(n);
        assert multiset(Range(n))[x] == 1;
        assert multiset(Flatten<nat>(groups))[x] == 1;
      } else {
        assert x !in Range(n);
        assert multiset(Range(n))[x] == 0;
      }
    }
  }

  /** An ascending sequence repeats nothing. */
  lemma AscendingNoDup(s: seq<nat>)
    requires forall i, j :: 0 <= i < j < |s| ==> s[i] < s[j]
    ensures NoDup(s)
  {
  }

  /** Lines 4-82 on the positions of the members: the members with a known
      earlier group are spread round-robin, bucket by bucket, the rest fill
      the smallest groups with room. Every position lands in exactly one
      group, every group has its target size, members sharing a known
      earlier group share a group only when that group has more members
      than there are groups, and nothing is left unassigned. */
  method AssignPositions(members: seq<Member>, groupCount: nat, draw: nat -> nat, tick: nat)
      returns (groups: seq<seq<nat>>, unassigned: seq<nat>, next: nat)
    requires 0 < groupCount
    ensures |groups| == groupCount
    ensures forall g :: 0 <= g < groupCount ==> |groups[g]| == Capacity(|members|, groupCount, g)
    ensures forall x: nat :: multiset(Flatten<nat>(groups))[x] == if x < |members| then 1 else 0
    ensures forall g, i :: 0 <= g < groupCount && 0 <= i < |groups[g]| ==> groups[g][i] < |members|
    ensures Spread(members, groupCount, groups)
    ensures unassigned == []
  {
    var labels, buckets := GroupByLabel(members);
    // lines 26-38: the members with and without a known earlier group, each shuffled
    var membersWithPrevGroup: seq<nat> := [];
    var membersWithoutPrevGroup: seq<nat> := [];
    for k := 0 to |members| {
      if Labelled(members[k]) {
        membersWithPrevGroup := membersWithPrevGroup + [k];
      } else {
        membersWithoutPrevGroup := membersWithoutPrevGroup + [k];
      }
    }
    var shuffledWithPrevGroup, shuffledWithoutPrevGroup;
    shuffledWithPrevGroup, next := ShuffledCopy(membersWithPrevGroup, draw, tick);
    shuffledWithoutPrevGroup, next := ShuffledCopy(membersWithoutPrevGroup, draw, next);
    var placed;
    ghost var order, deals;
    groups, placed, order, deals, next := RoundRobinPass(members, groupCount, labels, buckets, draw, next);
    // lines 59-60: the members still unplaced, shuffled
    var remainingMembers := NotPlaced(|members|, placed);
    var shuffledRemaining;
    shuffledRemaining, next := ShuffledCopy(remainingMembers, draw, next);
    RemainingUnlabelled(members, placed, shuffledRemaining);
    FillStart(members, groupCount, groups, placed, shuffledRemaining);
    groups, placed := BestFitPass(members, groupCount, groups, placed, shuffledRemaining);
    GroupsHoldPlaced(groups, placed);
    ExactlyOnce(groups, |members|);
    // line 82: the members left over
    unassigned := NotPlaced(|members|, placed);
    NotPlacedNone(|members|, placed);
  }

  /** The members at the given positions, in order. */
  function Pick(members: seq<Member>, positions: seq<nat>): (r: seq<Member>)
    requires forall i :: 0 <= i < |positions| ==> positions[i] < |members|
    ensures |r| == |positions|
  {
    seq(|positions|, i requires 0 <= i < |positions| => members[positions[i]])
  }

  lemma PickConcat(members: seq<Member>, a: seq<nat>, b: seq<nat>)
    requires forall i :: 0 <= i < |a| ==> a[i] < |members|
    requires forall i :: 0 <= i < |b| ==> b[i] < |members|
    ensures Pick(members, a + b) == Pick(members, a) + Pick(members, b)
  {
  }

  /** The members at two orderings of the same positions are the same
      members. */
  lemma {:induction false} PickPermutation(members: seq<Member>, a: seq<nat>, b: seq<nat>)
    requires forall i :: 0 <= i < |a| ==> a[i] < |members|
    requires forall i :: 0 <= i < |b| ==> b[i] < |members|
    requires multiset(a) == multiset(b)
    ensures multiset(Pick(members, a)) == multiset(Pick(members, b))
  {
    if a == [] {
      assert |multiset(b)| == 0;
    } else {
      var x, rest := a[|a| - 1], a[..|a| - 1];
      var k := RemoveMatching(a, b);
      var others := b[..k] + b[k + 1..];
      assert a == rest + [x];
      assert b == b[..k] + [x] + b[k + 1..];
      PickPermutation(members, rest, others);
      PickConcat(members, rest, [x]);
      PickConcat(members, b[..k], [x]);
      PickConcat(members, b[..k] + [x], b[k + 1..]);
      PickConcat(members, b[..k], b[k + 1..]);
    }
  }

  /** The positions `0, 1, ..., n - 1`, in order: the input list itself
      seen as positions. `Range` is the same numbers as a set. */
  function Positions(n: nat): (r: seq<nat>)
    ensures |r| == n && forall i :: 0 <= i < n ==> r[i] == i
  {
    seq(n, i => i)
  }

  /** Listing the positions `0, ..., n - 1` in order lists the set of them. */
  lemma PositionsRange(n: nat)
    ensures multiset(Positions(n)) == multiset(Range(n))
  {
    AscendingNoDup(Positions(n));
    forall x: nat ensures multiset(Positions(n))[x] == multiset(Range(n))[x] {
      NoDupCount(Positions(n), x);
      if x < n {
        assert Positions(n)[x] == x;
        assert x in Range(n);
      } else {
        assert x !in Positions(n);
        assert x !in Range(n);
      }
    }
  }

  /** Every position in the groups is below `n`. */
  lemma {:induction false} FlattenBelow(groups: seq<seq<nat>>, n: nat)
    requires forall g, i :: 0 <= g < |groups| && 0 <= i < |groups[g]| ==> groups[g][i] < n
    ensures forall i :: 0 <= i < |Flatten<nat>(groups)| ==> Flatten<nat>(groups)[i] < n
  {
    if groups != [] {
      FlattenBelow(groups[..|groups| - 1], n);
    }
  }

  /** The member lists of groups of positions. */
  function PickAll(members: seq<Member>, groups: seq<seq<nat>>): (r: seq<seq<Member>>)
    requires forall g, i :: 0 <= g < |groups| && 0 <= i < |groups[g]| ==> groups[g][i] < |members|
    ensures |r| == |groups| && forall g :: 0 <= g < |groups| ==> r[g] == Pick(members, groups[g])
  {
    seq(|groups|, g requires 0 <= g < |groups| => Pick(members, groups[g]))
  }

  lemma {:induction false} PickAllFlatten(members: seq<Member>, groups: seq<seq<nat>>)
    requires forall g, i :: 0 <= g < |groups| && 0 <= i < |groups[g]| ==> groups[g][i] < |members|
    ensures forall i :: 0 <= i < |Flatten<nat>(groups)| ==> Flatten<nat>(groups)[i] < |members|
    ensures Flatten(PickAll(members, groups)) == Pick(members, Flatten<nat>(groups))
  {
    FlattenBelow(groups, |members|);
    if groups != [] {
      var init := groups[..|groups| - 1];
      PickAllFlatten(members, init);
      assert PickAll(members, groups)[..|groups| - 1] == PickAll(members, init);
      PickConcat(members, Flatten<nat>(init), groups[|groups| - 1]);
    }
  }

  /** Groups holding every position exactly once hold every member exactly
      as often as the input lists it. */
  lemma MembersConserved(members: seq<Member>, groups: seq<seq<nat>>)
    requires forall g, i :: 0 <= g < |groups| && 0 <= i < |groups[g]| ==> groups[g][i] < |members|
    requires forall x: nat :: multiset(Flatten<nat>(groups))[x] == if x < |members| then 1 else 0
    ensures multiset(Flatten(PickAll(members, groups))) == multiset(members)
  {
    PickAllFlatten(members, groups);
    PositionsRange(|members|);
    forall x: nat ensures multiset(Flatten<nat>(groups))[x] == multiset(Positions(|members|))[x] {
      assert x in Range(|members|) <==> x < |members|;
    }
    assert multiset(Flatten<nat>(groups)) == multiset(Positions(|members|));
    PickPermutation(members, Flatten<nat>(groups), Positions(|members|));
    assert Pick(members, Positions(|members|)) == members;
  }

  /** The member lists of the result's groups, in order. */
  function MemberLists(groups: seq<NamedGroup>): (r: seq<seq<Member>>)
    ensures |r| == |groups| && forall g :: 0 <= g < |groups| ==> r[g] == groups[g].members
  {
    seq(|groups|, g requires 0 <= g < |groups| => groups[g].members)
  }

  /** Two members of one group share a known earlier group only when that
      earlier group has more members than there are groups. */
  predicate SpreadMembers(members: seq<Member>, groupCount: nat, lists: seq<seq<Member>>) {
    forall g, i, j :: 0 <= g < |lists| && 0 <= i < j < |lists[g]| &&
      Labelled(lists[g][i]) && lists[g][i].prevGroup == lists[g][j].prevGroup
      ==> LabelCount(members, lists[g][i].prevGroup) > groupCount
  }

  lemma SpreadPicked(members: seq<Member>, groupCount: nat, groups: seq<seq<nat>>)
    requires forall g, i :: 0 <= g < |groups| && 0 <= i < |groups[g]| ==> groups[g][i] < |members|
    requires Spread(members, groupCount, groups)
    ensures SpreadMembers(members, groupCount, PickAll(members, groups))
  {
    var lists := PickAll(members, groups);
    forall g, i, j | 0 <= g < |lists| && 0 <= i < j < |lists[g]| &&
      Labelled(lists[g][i]) && lists[g][i].prevGroup == lists[g][j].prevGroup
      ensures LabelCount(members, lists[g][i].prevGroup) > groupCount
    {
      assert lists[g][i] == members[groups[g][i]] && lists[g][j] == members[groups[g][j]];
    }
  }

  /** A member carries earlier group `l` when the count of `l` is positive. */
  lemma LabelCountWitness(s: seq<Member>, l: string)
    ensures LabelCount(s, l) > 0 ==> exists i :: 0 <= i < |s| && s[i].prevGroup == l
  {
    if LabelCount(s, l) > 0 {
      WithLabelSorted(s, l, |s|);
      var i := WithLabel(s, l, |s|)[0];
      assert 0 <= i < |s| && s[i].prevGroup == l;
    }
  }

  /** A group in which no two members share a known earlier group holds at
      most one member of each known earlier group. */
  lemma {:induction false} AtMostOneEach(s: seq<Member>, l: string)
    requires l != ""
    requires forall i, j :: 0 <= i < j < |s| && Labelled(s[i]) ==> s[i].prevGroup != s[j].prevGroup
    ensures LabelCount(s, l) <= 1
  {
    if s != [] {
      var init, last := s[..|s| - 1], s[|s| - 1];
      assert s == init + [last];
      AtMostOneEach(init, l);
      LabelCountSnoc(init, last, l);
      LabelCountWitness(init, l);
      if last.prevGroup == l && LabelCount(init, l) == 1 {
        assert false;
      }
    }
  }

  /** Groups holding at most one member of earlier group `l` each hold at
      most as many of them as there are groups. */
  lemma {:induction false} AtMostOnePerGroup(lists: seq<seq<Member>>, l: string)
    requires forall g :: 0 <= g < |lists| ==> LabelCount(lists[g], l) <= 1
    ensures LabelCount(Flatten(lists), l) <= |lists|
  {
    if lists != [] {
      var init := lists[..|lists| - 1];
      AtMostOnePerGroup(init, l);
      LabelCountConcat(Flatten(init), lists[|lists| - 1], l);
    }
  }

  /** Groups that are a split of the members and are spread have no
      duplicate exactly when no known earlier group has more members than
      there are groups: when one has, two of its members must share a group. */
  lemma NoDuplicatesIff(members: seq<Member>, groupCount: nat, lists: seq<seq<Member>>)
    requires |lists| == groupCount && multiset(Flatten(lists)) == multiset(members)
    requires SpreadMembers(members, groupCount, lists)
    ensures TotalRepeats(lists) == 0 <==> forall l :: l != "" ==> LabelCount(members, l) <= groupCount
  {
    TotalRepeatsZeroIff(lists);
    forall g | 0 <= g < |lists| {
      NoRepeatsIff(lists[g]);
    }
    if TotalRepeats(lists) == 0 {
      forall l | l != "" ensures LabelCount(members, l) <= groupCount {
        forall g | 0 <= g < |lists| ensures LabelCount(lists[g], l) <= 1 {
          AtMostOneEach(lists[g], l);
        }
        AtMostOnePerGroup(lists, l);
        LabelCountPermutation(Flatten(lists), members, l);
      }
    }
  }

  /** A share of at most the whole, as a percentage, lies between 0 and 100. */
  lemma PercentBounds(part: nat, whole: nat)
    requires 0 < whole && part <= whole
    ensures 0.0 <= part as real / whole as real * 100.0 <= 100.0
    ensures part as real / whole as real * 100.0 == 0.0 <==> part == 0
  {
    var q := part as real / whole as real;
    assert q * whole as real == part as real;
  }

  /** Line 103: the duplicates as a percentage of the members, 0 when there
      are no members. */
  function DuplicateRate(duplicateCount: nat, totalMembers: nat): (r: real)
    requires duplicateCount <= totalMembers
    ensures 0.0 <= r <= 100.0
    ensures r == 0.0 <==> duplicateCount == 0
  {
    if totalMembers > 0 then
      PercentBounds(duplicateCount, totalMembers);
      duplicateCount as real / totalMembers as real * 100.0
    else 0.0
  }

  /** Lines 3-111. Every member lands in exactly one of `targetGroups` groups
      named "그룹 1", "그룹 2", ...; the first `|members| % targetGroups`
      groups take one member more; members sharing a known earlier group
      share a group only when that earlier group has more members than there
      are groups; nothing is left unassigned, so the retry of lines 106-108
      is never taken; and the statistics are those of lines 100-104. */
  method AllocateMembers(members: seq<Member>, targetGroups: nat, draw: nat -> nat, tick: nat)
      returns (result: AllocationResult, next: nat)
    requires 0 < targetGroups
    ensures |result.groups| == targetGroups
    ensures forall g :: 0 <= g < targetGroups ==> result.groups[g].name == GroupName(g)
    ensures forall g :: 0 <= g < targetGroups ==>
              |result.groups[g].members| == Capacity(|members|, targetGroups, g)
    ensures multiset(Flatten(MemberLists(result.groups))) == multiset(members)
    ensures SpreadMembers(members, targetGroups, MemberLists(result.groups))
    ensures result.unassigned == []
    ensures result.stats.totalMembers == |members|
    ensures result.stats.avgPerGroup == |members| as real / targetGroups as real
    ensures TotalRepeats(MemberLists(result.groups)) <= |members|
    ensures result.stats.duplicateRate == DuplicateRate(TotalRepeats(MemberLists(result.groups)), |members|)
    ensures result.stats.duplicateRate == 0.0 <==> forall l :: l != "" ==> LabelCount(members, l) <= targetGroups
  {
    var groups, unassigned;
    groups, unassigned, next := AssignPositions(members, targetGroups, draw, tick);
    var lists := PickAll(members, groups);
    var named := seq(targetGroups, g requires 0 <= g < targetGroups => NamedGroup(GroupName(g), lists[g]));
    assert MemberLists(named) == lists;
    MembersConserved(members, groups);
    SpreadPicked(members, targetGroups, groups);
    // lines 84-98
    var duplicateCount := DuplicateCount(lists);
    FullTotal(lists, |members|, targetGroups);
    // lines 100-104
    var totalMembers := |members|;
    var duplicateRate := if totalMembers > 0 then duplicateCount as real / totalMembers as real * 100.0 else 0.0;
    assert duplicateRate == DuplicateRate(duplicateCount, totalMembers);
    var stats := Stats(totalMembers, totalMembers as real / targetGroups as real, duplicateRate);
    NoDuplicatesIff(members, targetGroups, lists);
    if |unassigned| >= 5 {
      // `reAllocate(members, targetGroups, 1)`: unreachable, `unassigned` is empty
      assert false;
    }
    result := AllocationResult(named, Pick(members, unassigned), stats);
  }

  /** Lines 120-129: a first retry shuffles the members before allocating
      them again, a later one allocates them as given; either way the
      guarantees of `AllocateMembers` hold for the members passed in. */
  method ReAllocate(members: seq<Member>, targetGroups: nat, attempt: int, draw: nat -> nat, tick: nat)
      returns (result: AllocationResult, next: nat)
    requires 0 < targetGroups
    ensures |result.groups| == targetGroups
    ensures forall g :: 0 <= g < targetGroups ==> result.groups[g].name == GroupName(g)
    ensures forall g :: 0 <= g < targetGroups ==>
              |result.groups[g].members| == Capacity(|members|, targetGroups, g)
    ensures multiset(Flatten(MemberLists(result.groups))) == multiset(members)
    ensures SpreadMembers(members, targetGroups, MemberLists(result.groups))
    ensures result.unassigned == []
    ensures result.stats.totalMembers == |members|
    ensures result.stats.avgPerGroup == |members| as real / targetGroups as real
    ensures TotalRepeats(MemberLists(result.groups)) <= |members|
    ensures result.stats.duplicateRate == DuplicateRate(TotalRepeats(MemberLists(result.groups)), |members|)
    ensures result.stats.duplicateRate == 0.0 <==> forall l :: l != "" ==> LabelCount(members, l) <= targetGroups
  {
    if attempt > 1 {
      result, next := AllocateMembers(members, targetGroups, draw, tick);
      return;
    }
    var shuffledMembers;
    shuffledMembers, next := ShuffledCopy(members, draw, tick);
    result, next := AllocateMembers(shuffledMembers, targetGroups, draw, next);
    forall l ensures LabelCount(shuffledMembers, l) == LabelCount(members, l) {
      LabelCountPermutation(shuffledMembers, members, l);
    }
  }
}
