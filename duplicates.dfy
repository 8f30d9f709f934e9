/** The duplicate count of `allocateMembers` (src/lib/allocate.ts:84-98):
    within each group, every member whose earlier group is shared by another
    member of that group counts, except one per earlier group. Members with no
    earlier group ("" is falsy) never count. */
module Duplicates {
  import opened Types
  import opened Maps
  import opened Groups

  /** `if (member.prevGroup)`: the earlier group is known. */
  predicate Labelled(m: Member) {
    m.prevGroup != ""
  }

  /** The known earlier groups occurring in `s`. */
  function Labels(s: seq<Member>): set<string> {
    if s == [] then {}
    else Labels(s[..|s| - 1]) + (if Labelled(s[|s| - 1]) then {s[|s| - 1].prevGroup} else {})
  }

  /** How many members of `s` have a known earlier group. */
  function LabelledCount(s: seq<Member>): nat {
    if s == [] then 0 else LabelledCount(s[..|s| - 1]) + (if Labelled(s[|s| - 1]) then 1 else 0)
  }

  /** The reference count: the members of `s` whose known earlier group already
      occurs before them in `s`. */
  function Repeats(s: seq<Member>): (r: nat)
    ensures r <= LabelledCount(s)
  {
    if s == [] then 0
    else
      var last := s[|s| - 1];
      Repeats(s[..|s| - 1]) + (if Labelled(last) && last.prevGroup in Labels(s[..|s| - 1]) then 1 else 0)
  }

  /** The repeats of all groups, added up. */
  function TotalRepeats(groups: seq<seq<Member>>): nat {
    if groups == [] then 0 else TotalRepeats(groups[..|groups| - 1]) + Repeats(groups[|groups| - 1])
  }

  function Sum(xs: seq<nat>): nat {
    if xs == [] then 0 else Sum(xs[..|xs| - 1]) + xs[|xs| - 1]
  }

  /** A label occurs in `s` exactly when some labelled member carries it. */
  lemma {:induction false} LabelsMembers(s: seq<Member>, l: string)
    ensures l in Labels(s) <==> exists i :: 0 <= i < |s| && Labelled(s[i]) && s[i].prevGroup == l
  {
    if s != [] {
      var init := s[..|s| - 1];
      LabelsMembers(init, l);
      if l in Labels(init) {
        var i :| 0 <= i < |init| && Labelled(init[i]) && init[i].prevGroup == l;
        assert s[i] == init[i];
      }
      if exists i :: 0 <= i < |s| && Labelled(s[i]) && s[i].prevGroup == l {
        var i :| 0 <= i < |s| && Labelled(s[i]) && s[i].prevGroup == l;
        if i < |init| { assert init[i] == s[i]; }
      }
    }
  }

  /** What the per-label counting computes: one member per known earlier
      group is not a repeat, all other labelled members are. */
  lemma {:induction false} RepeatsAreLabelledMinusLabels(s: seq<Member>)
    ensures Repeats(s) + |Labels(s)| == LabelledCount(s)
  {
    if s != [] {
      var init, last := s[..|s| - 1], s[|s| - 1];
      RepeatsAreLabelledMinusLabels(init);
      if Labelled(last) && last.prevGroup !in Labels(init) {
        assert |Labels(init) + {last.prevGroup}| == |Labels(init)| + 1;
      } else if Labelled(last) {
        assert Labels(s) == Labels(init);
      }
    }
  }

  /** A group has no repeat exactly when no two of its members share a known
      earlier group. */
  lemma {:induction false} NoRepeatsIff(s: seq<Member>)
    ensures Repeats(s) == 0 <==>
      forall i, j :: 0 <= i < j < |s| && Labelled(s[i]) ==> s[i].prevGroup != s[j].prevGroup
  {
    if s != [] {
      var init, last := s[..|s| - 1], s[|s| - 1];
      NoRepeatsIff(init);
      LabelsMembers(init, last.prevGroup);
      if Repeats(s) == 0 {
        forall i, j | 0 <= i < j < |s| && Labelled(s[i]) ensures s[i].prevGroup != s[j].prevGroup {
          if j < |s| - 1 {
            assert init[i] == s[i] && init[j] == s[j];
          } else if s[i].prevGroup == s[j].prevGroup {
            assert false;
          }
        }
      } else if Repeats(init) == 0 {
        var i :| 0 <= i < |init| && Labelled(init[i]) && init[i].prevGroup == last.prevGroup;
        assert s[i] == init[i];
      } else {
        var i, j :| 0 <= i < j < |init| && Labelled(init[i]) && init[i].prevGroup == init[j].prevGroup;
        assert s[i] == init[i] && s[j] == init[j];
      }
    }
  }

  /** There are never more duplicates than members. */
  lemma {:induction false} TotalRepeatsBound(groups: seq<seq<Member>>)
    ensures TotalRepeats(groups) <= TotalSize(groups)
  {
    if groups != [] {
      TotalRepeatsBound(groups[..|groups| - 1]);
      LabelledCountBound(groups[|groups| - 1]);
    }
  }

  lemma {:induction false} LabelledCountBound(s: seq<Member>)
    ensures LabelledCount(s) <= |s|
  {
    if s != [] { LabelledCountBound(s[..|s| - 1]); }
  }

  /** The total is zero exactly when no group has a repeat. */
  lemma {:induction false} TotalRepeatsZeroIff(groups: seq<seq<Member>>)
    ensures TotalRepeats(groups) == 0 <==> forall g :: 0 <= g < |groups| ==> Repeats(groups[g]) == 0
  {
    if groups != [] {
      var init := groups[..|groups| - 1];
      TotalRepeatsZeroIff(init);
      if TotalRepeats(groups) == 0 {
        forall g | 0 <= g < |groups| ensures Repeats(groups[g]) == 0 {
          if g < |init| { assert init[g] == groups[g]; }
        }
      } else if TotalRepeats(init) != 0 {
        var g :| 0 <= g < |init| && Repeats(init[g]) != 0;
        assert groups[g] == init[g];
      }
    }
  }

  lemma SumPush(xs: seq<nat>, x: nat)
    ensures Sum(xs + [x]) == Sum(xs) + x
  {
    assert (xs + [x])[..|xs|] == xs;
  }

  lemma {:induction false} SumUpdate(xs: seq<nat>, b: nat, v: nat)
    requires b < |xs|
    ensures Sum(xs[b := v]) + xs[b] == Sum(xs) + v
  {
    var n := |xs|;
    if b < n - 1 {
      assert xs[b := v][..n - 1] == xs[..n - 1][b := v];
      SumUpdate(xs[..n - 1], b, v);
    } else {
      assert xs[b := v][..n - 1] == xs[..n - 1];
    }
  }

  /** After the first `i` members of `group`: `keys` are the known earlier
      groups seen so far and `counts[b]` how often `keys[b]` occurred, so the
      counts exceed the repeats by one per key. */
  ghost predicate Tally(group: seq<Member>, i: nat, keys: seq<string>, counts: seq<nat>)
    requires i <= |group|
  {
    && |keys| == |counts|
    && (forall l :: l in keys <==> l in Labels(group[..i]))
    && (forall b :: 0 <= b < |counts| ==> counts[b] >= 1)
    && Sum(counts) == Repeats(group[..i]) + |keys|
  }

  /** A member with no known earlier group is not counted. */
  lemma TallySkip(group: seq<Member>, i: nat, keys: seq<string>, counts: seq<nat>)
    requires i < |group| && Tally(group, i, keys, counts) && !Labelled(group[i])
    ensures Tally(group, i + 1, keys, counts)
  {
    assert group[..i + 1][..i] == group[..i];
  }

  /** The first member of a known earlier group opens a count of one. */
  lemma TallyNew(group: seq<Member>, i: nat, keys: seq<string>, counts: seq<nat>)
    requires i < |group| && Tally(group, i, keys, counts)
    requires Labelled(group[i]) && group[i].prevGroup !in keys
    ensures Tally(group, i + 1, keys + [group[i].prevGroup], counts + [1])
  {
    assert group[..i + 1][..i] == group[..i];
    SumPush(counts, 1);
  }

  /** A later member of a known earlier group increments its count. */
  lemma TallyOld(group: seq<Member>, i: nat, keys: seq<string>, counts: seq<nat>, b: nat)
    requires i < |group| && Tally(group, i, keys, counts)
    requires Labelled(group[i]) && b < |keys| && keys[b] == group[i].prevGroup
    ensures Tally(group, i + 1, keys, counts[b := counts[b] + 1])
  {
    assert group[..i + 1][..i] == group[..i];
    SumUpdate(counts, b, counts[b] + 1);
  }

  /** The per-group loops: count the members of each known earlier group in
      a `Map`, then add `count - 1` for every count above one. */
  method GroupRepeats(group: seq<Member>) returns (count: nat)
    ensures count == Repeats(group)
  {
    var keys: seq<string> := [];
    var counts: seq<nat> := [];
    for i := 0 to |group|
      invariant Tally(group, i, keys, counts)
    {
      var member := group[i];
      if member.prevGroup != "" {
        var b := IndexOf(keys, member.prevGroup);
        if b == -1 {
          TallyNew(group, i, keys, counts);
          keys := keys + [member.prevGroup];
          counts := counts + [1];
        } else {
          TallyOld(group, i, keys, counts, b);
          counts := counts[b := counts[b] + 1];
        }
      } else {
        TallySkip(group, i, keys, counts);
      }
    }
    assert group[..|group|] == group;
    count := 0;
    for b := 0 to |counts|
      invariant count + b == Sum(counts[..b])
    {
      assert counts[..b + 1][..b] == counts[..b];
      if counts[b] > 1 {
        count := count + (counts[b] - 1);
      }
    }
    assert counts[..|counts|] == counts;
  }

  /** `duplicateCount`: the repeats of every group, added up. */
  method DuplicateCount(groups: seq<seq<Member>>) returns (duplicateCount: nat)
    ensures duplicateCount == TotalRepeats(groups)
    ensures duplicateCount <= TotalSize(groups)
  {
    duplicateCount := 0;
    for g := 0 to |groups|
      invariant duplicateCount == TotalRepeats(groups[..g])
    {
      assert groups[..g + 1][..g] == groups[..g];
      var c := GroupRepeats(groups[g]);
      duplicateCount := duplicateCount + c;
    }
    assert groups[..|groups|] == groups;
    TotalRepeatsBound(groups);
  }
}
