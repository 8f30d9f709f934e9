/** The list logic of the allocation history (src/lib/storage.ts): a list
    kept most-recent-first, at most `MaxHistory` entries long, in which no
    two entries share a short id. The browser store is modelled by a class
    whose one field is the stored list. */
module Storage {
  import opened Types
  import opened Strings

  const MaxHistory: nat := 10

  /** One saved allocation. `id` and `createdAt` are generated outside the
      list logic and are taken as inputs; `title` is optional in the stored
      shape. */
  datatype Entry = Entry(id: string, shortId: string, result: AllocationResult, createdAt: string, title: Option<string>)

  /** The title of a new entry: "<members>명 → <groups>개 조". */
  function Title(result: AllocationResult): string
  {
    NatToString(result.stats.totalMembers) + "명 → " + NatToString(|result.groups|) + "개 조"
  }

  /** The title opens with the member count, written in decimal, followed
      by "명 → "; after it come the number of groups and "개 조". */
  lemma TitleReadsBack(result: AllocationResult)
    ensures var n := NatToString(result.stats.totalMembers);
      && Title(result)[..|n|] == n
      && ParseDecimal(Title(result)[..|n|]) == result.stats.totalMembers
      && Title(result)[|n|..|n| + 4] == "명 → "
      && Title(result)[|Title(result)| - 3..] == "개 조"
      && ParseDecimal(Title(result)[|n| + 4..|Title(result)| - 3]) == |result.groups|
  {
    var n, g := NatToString(result.stats.totalMembers), NatToString(|result.groups|);
    assert Title(result) == n + "명 → " + (g + "개 조");
    assert Title(result)[|n| + 4..|Title(result)| - 3] == g;
    ParseDecimalOfNatToString(result.stats.totalMembers);
    ParseDecimalOfNatToString(|result.groups|);
  }

  /** No two entries share a short id. Stated over the entries' field, not
      over a list of keys, so that `WithoutId` and `Prepend` can be reasoned
      about entry by entry. */
  predicate DistinctShortIds(h: seq<Entry>) {
    forall i, j :: 0 <= i < j < |h| ==> h[i].shortId != h[j].shortId
  }

  /** What every list the operations build satisfies. */
  predicate WellFormed(h: seq<Entry>) {
    |h| <= MaxHistory && DistinctShortIds(h)
  }

  /** `history.some(h => h.shortId === shortId)`. */
  function HasShortId(h: seq<Entry>, shortId: string): (b: bool)
    ensures b <==> exists i :: 0 <= i < |h| && h[i].shortId == shortId
  {
    if h == [] then false else h[0].shortId == shortId || HasShortId(h[1..], shortId)
  }

  /** `[item, ...history].slice(0, MaxHistory)`. */
  function Prepend(h: seq<Entry>, item: Entry): seq<Entry> {
    ([item] + h)[..if |h| + 1 <= MaxHistory then |h| + 1 else MaxHistory]
  }

  /** The list after adding `item`: unchanged when its short id is already
      present, otherwise `item` first, followed by the newest of the old
      entries. */
  function Added(h: seq<Entry>, item: Entry): seq<Entry> {
    if HasShortId(h, item.shortId) then h else Prepend(h, item)
  }

  /** `history.filter(h => h.id !== id)`. */
  function WithoutId(h: seq<Entry>, id: string): (r: seq<Entry>)
    ensures |r| <= |h|
  {
    if h == [] then []
    else (if h[0].id == id then [] else [h[0]]) + WithoutId(h[1..], id)
  }

  /** `history.length > 0 ? history[0] : null`: the list is newest first,
      so the latest allocation is its head. */
  function Latest(h: seq<Entry>): (r: Option<Entry>)
    ensures r == None <==> h == []
    ensures r != None ==> r.value == h[0]
  {
    if |h| > 0 then Some(h[0]) else None
  }

  /** Adding a short id already in the list changes nothing. */
  lemma AddExistingIsNoop(h: seq<Entry>, item: Entry, i: nat)
    requires i < |h| && h[i].shortId == item.shortId
    ensures Added(h, item) == h
  {
  }

  /** Adding a new short id puts the item first and keeps the newest old
      entries, in their order, dropping only the oldest beyond the bound. */
  lemma AddNewPrepends(h: seq<Entry>, item: Entry)
    requires forall i :: 0 <= i < |h| ==> h[i].shortId != item.shortId
    ensures var r := Added(h, item);
      && |r| == (if |h| < MaxHistory then |h| + 1 else MaxHistory)
      && r[0] == item
      && r[1..] == h[..|r| - 1]
  {
    assert !HasShortId(h, item.shortId);
  }

  /** Adding keeps a list well formed. */
  lemma AddPreservesWellFormed(h: seq<Entry>, item: Entry)
    requires WellFormed(h)
    ensures WellFormed(Added(h, item))
  {
    if !HasShortId(h, item.shortId) {
      var r := Prepend(h, item);
      forall i, j | 0 <= i < j < |r| ensures r[i].shortId != r[j].shortId {
        if i == 0 {
          assert r[j] == h[j - 1];
        } else {
          assert r[i] == h[i - 1] && r[j] == h[j - 1];
        }
      }
    }
  }

  /** Removal keeps exactly the entries with another id, in their order. */
  lemma {:induction false} WithoutIdKeepsOthers(h: seq<Entry>, id: string)
    ensures forall e :: e in WithoutId(h, id) <==> e in h && e.id != id
    ensures multiset(WithoutId(h, id)) <= multiset(h)
  {
    if h != [] {
      WithoutIdKeepsOthers(h[1..], id);
      assert h == [h[0]] + h[1..];
    }
  }

  /** Removal works piecewise, so it keeps the relative order of what it
      keeps: filtering a concatenation filters each part in place. */
  lemma {:induction false} WithoutIdConcat(a: seq<Entry>, b: seq<Entry>, id: string)
    ensures WithoutId(a + b, id) == WithoutId(a, id) + WithoutId(b, id)
  {
    if a != [] {
      WithoutIdConcat(a[1..], b, id);
      assert (a + b)[1..] == a[1..] + b;
    } else {
      assert a + b == b;
    }
  }

  /** Removing an id nobody has changes nothing. */
  lemma {:induction false} WithoutAbsentId(h: seq<Entry>, id: string)
    requires forall i :: 0 <= i < |h| ==> h[i].id != id
    ensures WithoutId(h, id) == h
  {
    if h != [] {
      WithoutAbsentId(h[1..], id);
    }
  }

  /** The first entry's short id occurs nowhere after it. */
  lemma HeadApart(h: seq<Entry>)
    requires h != [] && DistinctShortIds(h)
    ensures forall e :: e in h[1..] ==> e.shortId != h[0].shortId
  {
    forall e | e in h[1..] ensures e.shortId != h[0].shortId {
      var k :| 0 <= k < |h| - 1 && h[1..][k] == e;
      assert h[k + 1] == e;
    }
  }

  /** An entry whose short id is new can go in front. */
  lemma ConsDistinct(x: Entry, rest: seq<Entry>)
    requires DistinctShortIds(rest)
    requires forall e :: e in rest ==> e.shortId != x.shortId
    ensures DistinctShortIds([x] + rest)
  {
    var r := [x] + rest;
    forall i, j | 0 <= i < j < |r| ensures r[i].shortId != r[j].shortId {
      assert r[j] == rest[j - 1];
      if i > 0 {
        assert r[i] == rest[i - 1];
      }
    }
  }

  /** Removal keeps a list well formed. */
  lemma {:induction false} RemovePreservesWellFormed(h: seq<Entry>, id: string)
    requires WellFormed(h)
    ensures WellFormed(WithoutId(h, id))
  {
    if h != [] {
      var rest := WithoutId(h[1..], id);
      RemovePreservesWellFormed(h[1..], id);
      if h[0].id != id {
        WithoutIdKeepsOthers(h[1..], id);
        HeadApart(h);
        ConsDistinct(h[0], rest);
        assert WithoutId(h, id) == [h[0]] + rest;
      } else {
        assert WithoutId(h, id) == rest;
      }
    }
  }

  /** The browser's store for the history key. */
  class HistoryStore {
    var stored: seq<Entry>

    constructor ()
      ensures stored == []
    {
      stored := [];
    }

    /** `getHistory`. */
    method GetHistory() returns (h: seq<Entry>)
      ensures h == stored
    {
      h := stored;
    }

    /** `addToHistory`: `id` and `createdAt` are the generated values. */
    method AddToHistory(shortId: string, result: AllocationResult, id: string, createdAt: string)
      modifies this
      ensures stored == Added(old(stored), Entry(id, shortId, result, createdAt, Some(Title(result))))
      ensures HasShortId(old(stored), shortId) ==> stored == old(stored)
      ensures !HasShortId(old(stored), shortId) ==>
        |stored| <= MaxHistory && stored[0].shortId == shortId && stored[1..] == old(stored)[..|stored| - 1]
      ensures old(WellFormed(stored)) ==> WellFormed(stored)
    {
      var history := stored;
      if HasShortId(history, shortId) {
        return;
      }
      var newItem := Entry(id, shortId, result, createdAt, Some(Title(result)));
      AddNewPrepends(history, newItem);
      if WellFormed(history) { AddPreservesWellFormed(history, newItem); }
      stored := Prepend(history, newItem);
    }

    /** `removeFromHistory`. */
    method RemoveFromHistory(id: string)
      modifies this
      ensures stored == WithoutId(old(stored), id)
      ensures forall e :: e in stored <==> e in old(stored) && e.id != id
      ensures old(WellFormed(stored)) ==> WellFormed(stored)
    {
      var history := stored;
      WithoutIdKeepsOthers(history, id);
      if WellFormed(history) { RemovePreservesWellFormed(history, id); }
      stored := WithoutId(history, id);
    }

    /** `clearHistory`: the key is removed, so later reads see an empty list. */
    method ClearHistory()
      modifies this
      ensures stored == []
    {
      stored := [];
    }

    /** `getLastAllocation`. */
    method GetLastAllocation() returns (last: Option<Entry>)
      ensures last == Latest(stored)
      ensures last == None <==> stored == []
    {
      var history := stored;
      last := if |history| > 0 then Some(history[0]) else None;
    }
  }
}
