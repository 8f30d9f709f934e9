# Group allocator: a verified model

This project models the core of a small web tool that splits a class of
people into groups while keeping apart the people who were together before.
The model covers three pieces.

- The allocator, `allocateMembers` with `shuffleArray` and `reAllocate`:
  - Each group gets a capacity of `floor(total / N)`, and the first `total mod N` groups one more.
  - Members with a known earlier group (`prevGroup`) are bucketed by that group, in first-seen order.
  - The buckets are dealt out with one global round-robin cursor, which advances only after a placement.
  - Everyone left is shuffled and placed by best fit: the smallest group with room, lowest index on ties.
  - Each group's duplicates are counted, and the statistics are computed from them.
- The paste parser, `parsePasteData`: pasted spreadsheet text becomes one member per non-blank line.
  The first tab- or comma-separated field, trimmed, is the name, and the second is the earlier group.
- The history list of `storage.ts`: a most-recent-first list of at most 10 saved allocations.
  Entries are deduplicated by short id, removed by id, and the head is the "last allocation".
  The browser store is a class whose one field is that list.

Members are identified by their position in the input, because the program
tracks them by object identity. A group under construction is a sequence of
positions. `Math.random` is an arbitrary oracle: the t-th call of a run
yields `draw(t)`, and the swap partner of position `i` is `draw(t) % (i + 1)`.
Every property is proved for every oracle, so it holds for every outcome of
every shuffle.

Two identifiers of the source are Dafny keywords. The `assigned` set
(`src/lib/allocate.ts:41`) is called `placed` in the model, and the
parameter `array` of `shuffleArray` (`:113`) is called `a`. The distinct
`prevGroup` values that key the buckets are called `labels`.

Main results:

- Every group ends exactly at its capacity.
  - Group sizes therefore differ by at most one, and the larger groups come first.
  - `unassigned` is always empty, and the retry branch (`unassigned.length >= 5`) can never be taken.
- Every input member occurs exactly once in the groups.
- Two members of one group share a known earlier group only if more members have that earlier group than there are groups.
- The duplicate rate is in [0, 100]. It is 0 exactly when no earlier group has more members than there are groups.

Four facts about the code:

- The buckets are built from an unshuffled copy of the input (`src/lib/allocate.ts:14-24`).
  The two lists built and shuffled at `:26-38` are never read again.
  The model builds and shuffles them too, and they take the random numbers they take in the program.
- The retry at `:106-108` calls `reAllocate(members, N, 1)`. That shuffles the input and calls `allocateMembers` again.
  That call could retry again, so the retry is not bounded to one attempt.
  The model proves that the branch is dead, so the question never arises.
- The code never leaves a member unassigned; see `Allocate.AssignPositions`.
- Only `\n` ends a pasted line (`src/lib/parsePaste.ts:4`). `trim` removes a carriage return only at the ends of a field.
  Text with carriage-return-only line endings is therefore one line and gives one member.
  For example, `A,X\rB,Y` gives the single member named `A` whose earlier group is `X\rB`; see `ParsePaste.OnlyNewlineEndsLine`.

## Model

| member | source | states |
|---|---|---|
| Shuffle.ShuffleArray | src/lib/allocate.ts:113-118 | the array is permuted in place: its multiset of elements is unchanged; one random number is drawn per position after the first |
| Shuffle.ShuffledCopy | src/lib/allocate.ts:44-45 | `[...s]` then shuffled: same length, same multiset as `s` |
| Groups.Capacity | src/lib/allocate.ts:49 | defines the target size `i < remainder ? baseSize + 1 : baseSize` with `baseSize` and `remainder` as at :5-6; its properties are `CapacitiesSum` and `CapacitiesBalanced` |
| Groups.CapacitiesSum | src/lib/allocate.ts:5-6 | the capacities `base + 1` for the first `remainder` groups and `base` for the others add up to the number of members |
| Groups.CapacityBeforeClosed | src/lib/allocate.ts:5-6 | the capacities of the first `k` groups add up to `k * base + min(k, remainder)` |
| Groups.CapacitiesBalanced | src/lib/allocate.ts:49 | capacities never grow with the group index and differ by at most one |
| Groups.RoundRobinSize | src/lib/allocate.ts:49-54 | defines the size of each group after `k` round-robin placements: `k / N`, and one more for the first `k % N` groups; `RoundRobinGrow` proves each push keeps it |
| Groups.CursorStep | src/lib/allocate.ts:54 | stepping the cursor from `k % N` gives `(k + 1) % N`, and the full-round count `k / N` rises by one exactly when the cursor wraps |
| Groups.SameCursorGap | src/lib/allocate.ts:54 | two placements at the same cursor position are at least `N` placements apart |
| Groups.RoundRobinFits | src/lib/allocate.ts:48-51 | while fewer than `total` members are placed, the cursor's group is below its capacity, so the test at :51 never fails |
| Groups.RoundRobinWithinCapacity | src/lib/allocate.ts:49-51 | after at most `total` round-robin placements no group exceeds its capacity |
| Groups.RoundRobinGrow | src/lib/allocate.ts:52-54 | a push onto the cursor's group turns the size profile of `k` placements into that of `k + 1` |
| Groups.PushAddsOne | src/lib/allocate.ts:52 | a push onto one group adds exactly that member, once, to all the groups together |
| Groups.RoomSomewhere | src/lib/allocate.ts:66-74 | groups within capacity that hold fewer members than there are leave room in some group |
| Groups.AllFull | src/lib/allocate.ts:62-80 | groups within capacity that hold all the members are each exactly full |
| Groups.FullTotal | src/lib/allocate.ts:62-80 | groups exactly at capacity hold exactly `total` members |
| Maps.IndexOf | src/lib/allocate.ts:19 | `-1` exactly when the key is absent (`!has`); otherwise the key's first position |
| Maps.DistinctKeysApart | src/lib/allocate.ts:16-24 | the keys of a `Map` differ at any two positions |
| Duplicates.Repeats | src/lib/allocate.ts:93-96 | a group's repeats never exceed its number of members with a known earlier group |
| Duplicates.Labelled | src/lib/allocate.ts:18 | defines the truthiness test `if (member.prevGroup)` used at :18, :30 and :88: the earlier group is a non-empty string |
| Duplicates.TotalRepeats | src/lib/allocate.ts:84-98 | defines the reference total over the groups, the sum of each group's `Repeats`; `DuplicateCount` proves the nested loops compute it and `TotalRepeatsBound` bounds it |
| Duplicates.RepeatsAreLabelledMinusLabels | src/lib/allocate.ts:86-97 | the sum of `count - 1` over the labels equals the labelled members minus the distinct labels |
| Duplicates.NoRepeatsIff | src/lib/allocate.ts:86-97 | a group has no repeat exactly when no two of its members share a known earlier group |
| Duplicates.TotalRepeatsBound | src/lib/allocate.ts:84-98 | the duplicate count never exceeds the number of members in the groups |
| Duplicates.TotalRepeatsZeroIff | src/lib/allocate.ts:84-98 | the duplicate count is zero exactly when no group has a repeat |
| Duplicates.LabelsMembers | src/lib/allocate.ts:88-89 | a label is counted in a group exactly when some labelled member of the group carries it |
| Duplicates.TallySkip | src/lib/allocate.ts:88 | a member with an empty earlier group leaves the per-label counts alone |
| Duplicates.TallyNew | src/lib/allocate.ts:89 | the first member of a label sets its count to 1 |
| Duplicates.TallyOld | src/lib/allocate.ts:89 | a later member of a label increments its count |
| Duplicates.GroupRepeats | src/lib/allocate.ts:86-97 | the per-group loops compute exactly the group's repeats |
| Duplicates.DuplicateCount | src/lib/allocate.ts:84-98 | `duplicateCount` is the sum of the groups' repeats and at most the number of members placed |
| Allocate.GroupNamesDistinct | src/lib/allocate.ts:9-11 | the keys "그룹 1" … "그룹 N" are pairwise different |
| Allocate.GroupName | src/lib/allocate.ts:10 | defines the key `그룹 ${i}` of the group with index `i - 1`; `GroupNamesDistinct` proves the keys are pairwise different |
| Allocate.WithLabel | src/lib/allocate.ts:16-24 | defines the reference bucket of a label: its members' positions below `k`, in input order; `GroupByLabel` is proved equal to it |
| Allocate.WithLabelSorted | src/lib/allocate.ts:17-22 | a bucket lists members of its label only, below the current position, in input order |
| Allocate.WithLabelMembers | src/lib/allocate.ts:17-22 | a bucket holds exactly the members with its label |
| Allocate.LabelCountPermutation | src/lib/allocate.ts:125-128 | reordering the members keeps the number of members of every earlier group |
| Allocate.LabelsOpen | src/lib/allocate.ts:19-20 | a label not yet known is added last, keeping the labels distinct and complete |
| Allocate.LabelUnseen | src/lib/allocate.ts:19-20 | a label not yet known has no earlier member, so its new bucket starts empty |
| Allocate.BucketOpen | src/lib/allocate.ts:19-22 | the new label's bucket is `[k]` and the other buckets keep their contents |
| Allocate.BucketJoin | src/lib/allocate.ts:22 | a push goes to the bucket of the member's label and no other |
| Allocate.BucketSkip | src/lib/allocate.ts:18 | a member with an empty earlier group joins no bucket |
| Allocate.TurnOpen | src/lib/allocate.ts:18-22 | one turn that opens a bucket keeps the bucketing invariant and the first-seen order |
| Allocate.TurnJoin | src/lib/allocate.ts:18-22 | one turn that joins a bucket keeps the bucketing invariant and the first-seen order |
| Allocate.TurnSkip | src/lib/allocate.ts:18 | one turn that skips a member keeps the bucketing invariant and the first-seen order |
| Allocate.OrderOpen | src/lib/allocate.ts:20 | a new bucket goes after all existing ones |
| Allocate.OrderJoin | src/lib/allocate.ts:22 | a push leaves every bucket's first member in place |
| Allocate.GroupByLabel | src/lib/allocate.ts:16-24 | `prevGroupMap`: labels non-empty and distinct, one per known earlier group; each bucket holds exactly its label's members in input order; buckets in first-seen order |
| Allocate.FirstSeenPairwise | src/lib/allocate.ts:16-24 | any earlier bucket starts with an earlier member |
| Allocate.SpreadPush | src/lib/allocate.ts:52 | a push keeps "members sharing a label in one group implies the label has more than N members" |
| Allocate.RoundRobinSpread | src/lib/allocate.ts:43-57 | the member placed at the cursor meets no earlier member of its label in that group unless the label has more than N members |
| Allocate.BucketRoom | src/lib/allocate.ts:47-51 | the next member of a bucket is not placed yet and the cursor's group has room for it |
| Allocate.PlaceBucket | src/lib/allocate.ts:44-56 | one bucket's pass keeps the round-robin invariant and places exactly that bucket's members; they are appended to the placement order as one block (`dealt`, a reordering of the bucket), each at the time it was placed |
| Allocate.Timed | src/lib/allocate.ts:52-54 | defines the placement order: the member at index `t` is placed, at time `t` |
| Allocate.TimedPush | src/lib/allocate.ts:52-54 | a placement at the next time (the number of members placed so far) extends the placement order by that member |
| Allocate.Dealt | src/lib/allocate.ts:48-54 | defines "the member placed at time `t` is in group `t % N`", the cursor's value at that time |
| Allocate.TimedDealt | src/lib/allocate.ts:48-54 | with every placed member in the group its time selects, the member placed at time `t` is in group `t % N` |
| Allocate.DealtNext | src/lib/allocate.ts:43-57 | dealing the next bucket appends it to the placement order |
| Allocate.PassNext | src/lib/allocate.ts:43 | the next bucket holds a label none of whose members is placed yet |
| Allocate.PassDone | src/lib/allocate.ts:43-57 | after all buckets, the placed members are exactly those with a known earlier group |
| Allocate.RoundRobinPass | src/lib/allocate.ts:40-57 | places every labelled member once; sizes are the round-robin profile; groups spread; the placement order is the buckets one after another, each as a reordering of itself (`order == Flatten(deals)`), and the member placed at time `t` is in group `t % N`, so every bucket takes consecutive cursor positions, starting where the previous one stopped |
| Allocate.BestGroup | src/lib/allocate.ts:63-74 | `-1` exactly when no group has room; otherwise a group with room of least size, lowest index on ties |
| Allocate.HasRoom | src/lib/allocate.ts:67-70 | defines "group `g` is below its target size", the first half of the test at :70 |
| Allocate.IsBestFit | src/lib/allocate.ts:66-74 | defines the best fit independently of the scan: a group with room that is smaller than every other group with room, or as small and not later |
| Allocate.FillRoom | src/lib/allocate.ts:62-76 | while remaining members are left, the next one is unplaced and some group has room |
| Allocate.FillDone | src/lib/allocate.ts:62-80 | after the best-fit pass every member is placed and every group is exactly full |
| Allocate.BestFitPass | src/lib/allocate.ts:59-80 | places every remaining member; every group ends exactly at capacity; groups stay spread |
| Allocate.NotPlaced | src/lib/allocate.ts:59 | `filter(m => !assigned.has(m))`: exactly the unplaced positions, in input order |
| Allocate.NotPlacedNone | src/lib/allocate.ts:82 | when every member is placed, the filter yields nothing |
| Allocate.RemainingUnlabelled | src/lib/allocate.ts:59-60 | after the round-robin pass the remaining pool holds exactly the unplaced members, each once, none labelled |
| Allocate.ExactlyOnce | src/lib/allocate.ts:52-53 | full groups holding exactly the placed members contain each position exactly once |
| Allocate.AssignPositions | src/lib/allocate.ts:4-82 | every group ends exactly at capacity; each member occurs exactly once; groups spread; `unassigned` is empty |
| Allocate.MembersConserved | src/lib/allocate.ts:52-53 | the groups' members are the input members, as a multiset |
| Allocate.SpreadPicked | src/lib/allocate.ts:43-57 | spreading carries over from positions to the member records |
| Allocate.AtMostOneEach | src/lib/allocate.ts:93-96 | a group without repeats holds at most one member of each known earlier group |
| Allocate.AtMostOnePerGroup | src/lib/allocate.ts:84-98 | groups with at most one member of a label hold at most N members of it |
| Allocate.NoDuplicatesIff | src/lib/allocate.ts:84-98 | in a spread result the duplicate count is 0 exactly when no earlier group has more than N members |
| Allocate.PercentBounds | src/lib/allocate.ts:103 | `part / whole * 100` is in [0, 100], and 0 exactly when `part` is 0 |
| Allocate.DuplicateRate | src/lib/allocate.ts:103 | the rate is in [0, 100], and 0 exactly when the duplicate count is 0 |
| Allocate.AllocateMembers | src/lib/allocate.ts:3-111 | N groups named "그룹 1".."그룹 N", each exactly at capacity; the members conserved as a multiset; groups spread; `unassigned` empty; `totalMembers`, `avgPerGroup` and the rate as defined; the rate is 0 exactly when no earlier group exceeds N members |
| Allocate.ReAllocate | src/lib/allocate.ts:120-129 | on either branch, the same guarantees as `allocateMembers` for the original members |
| ParsePaste.Lines | src/lib/parsePaste.ts:4 | at least one line, none containing `\n` |
| ParsePaste.NonBlank | src/lib/parsePaste.ts:8 | only non-blank lines of the input are kept |
| ParsePaste.IsBlank | src/lib/parsePaste.ts:8 | defines a blank line as all whitespace; `TrimEmptyIff` proves this is `!line.trim()` |
| ParsePaste.BlankLinesSkipped | src/lib/parsePaste.ts:8 | a blank line contributes nothing |
| ParsePaste.Fields | src/lib/parsePaste.ts:10 | one field more than there are tabs and commas |
| ParsePaste.FieldIsClean | src/lib/parsePaste.ts:10 | every field is trimmed and free of tabs, commas and `\n` |
| ParsePaste.LineToMemberClean | src/lib/parsePaste.ts:10-21 | both fields of an emitted member are clean |
| ParsePaste.SingleFieldLine | src/lib/parsePaste.ts:17-21 | a line without tab or comma gives its trimmed text as the name and an empty earlier group |
| ParsePaste.TwoFieldLine | src/lib/parsePaste.ts:12-16 | `name SEP group [SEP …]` gives the trimmed name and group; further fields are ignored |
| ParsePaste.NonBlankLineHasName | src/lib/parsePaste.ts:12-22 | every non-blank line takes one of the two branches, so it yields a member |
| ParsePaste.LineToMember | src/lib/parsePaste.ts:10-21 | defines the member a non-blank line yields: the first field as name, the second or "" as earlier group; its properties are `LineToMemberClean`, `SingleFieldLine` and `TwoFieldLine` |
| ParsePaste.ToMembers | src/lib/parsePaste.ts:7-23 | one member per non-blank line, as many members as lines |
| ParsePaste.Parse | src/lib/parsePaste.ts:3-26 | defines the reference result: trim, split into lines, drop blank ones, one member each; `ParsePasteData` is proved equal to it |
| ParsePaste.ToMembersAt | src/lib/parsePaste.ts:7-23 | the k-th member comes from the k-th non-blank line |
| ParsePaste.NextLine | src/lib/parsePaste.ts:7-23 | one more line adds its member, or nothing when it is blank |
| ParsePaste.ParseWhitespaceOnly | src/lib/parsePaste.ts:4-8 | empty or whitespace-only text yields no member |
| ParsePaste.OnlyNewlineEndsLine | src/lib/parsePaste.ts:4-10 | text without `\n` that is not all whitespace, carriage returns included, is one non-blank line and gives exactly one member |
| ParsePaste.ParsePasteData | src/lib/parsePaste.ts:3-26 | one member per non-blank line, in order, each with clean fields |
| Strings.TrimStartSpec | src/lib/parsePaste.ts:4 | the start trim keeps a suffix and removes exactly the whitespace prefix |
| Strings.TrimEndSpec | src/lib/parsePaste.ts:4 | the end trim keeps a prefix and removes exactly the whitespace suffix |
| Strings.IsWhitespace | src/lib/parsePaste.ts:4 | defines the characters `trim` removes: the ECMAScript WhiteSpace and LineTerminator code points (tab, LF, VT, FF, CR, space, NBSP, U+1680, U+2000–U+200A, U+2028, U+2029, U+202F, U+205F, U+3000, U+FEFF) |
| Strings.TrimStart | src/lib/parsePaste.ts:4 | defines the start half of `trim`: drop leading whitespace; `TrimStartSpec` proves it removes exactly the whitespace prefix |
| Strings.TrimEnd | src/lib/parsePaste.ts:4 | defines the end half of `trim`: drop trailing whitespace; `TrimEndSpec` proves it removes exactly the whitespace suffix |
| Strings.Trim | src/lib/parsePaste.ts:4 | `trim` leaves neither end whitespace and never lengthens |
| Strings.TrimIsSlice | src/lib/parsePaste.ts:10 | `trim` removes exactly a whitespace prefix and a whitespace suffix |
| Strings.TrimEmptyIff | src/lib/parsePaste.ts:8 | `!line.trim()` holds exactly when the line is all whitespace |
| Strings.TrimOfTrimmed | src/lib/parsePaste.ts:10 | a trimmed string is left alone by `trim` |
| Strings.TrimIdempotent | src/lib/parsePaste.ts:4-10 | trimming twice is trimming once |
| Strings.TrimKeepsCharacters | src/lib/parsePaste.ts:10 | `trim` introduces no character |
| Strings.Split | src/lib/parsePaste.ts:10 | `split`: one piece more than separators, no piece containing a separator |
| Strings.JoinSplit | src/lib/parsePaste.ts:4 | joining the pieces with the separator gives the text back |
| Strings.SplitJoin | src/lib/parsePaste.ts:4 | splitting a join of separator-free pieces gives the pieces back |
| Strings.NatToString | src/lib/storage.ts:57 | the template-literal rendering of a number: decimal digits without a leading zero |
| Strings.ParseDecimalOfNatToString | src/lib/storage.ts:57 | reading a rendered number back gives the number |
| Strings.NatToStringInjective | src/lib/allocate.ts:10 | different numbers render differently |
| Storage.TitleReadsBack | src/lib/storage.ts:57 | the title reads "<totalMembers>명 → <number of groups>개 조" |
| Storage.Title | src/lib/storage.ts:57 | defines the title template `${totalMembers}명 → ${groups count}개 조`; `TitleReadsBack` proves both numbers read back |
| Storage.HasShortId | src/lib/storage.ts:48 | `some(h => h.shortId === shortId)` holds exactly when some entry has that short id |
| Storage.AddExistingIsNoop | src/lib/storage.ts:48-50 | adding a short id already present leaves the list unchanged |
| Storage.AddNewPrepends | src/lib/storage.ts:61 | otherwise the item comes first and the newest old entries follow in order, at most 10 in all |
| Storage.Prepend | src/lib/storage.ts:61 | defines `[item, ...history].slice(0, 10)`; `AddNewPrepends` states what it keeps |
| Storage.Added | src/lib/storage.ts:48-61 | defines the list after `addToHistory`: unchanged for a known short id, otherwise `Prepend`; its properties are `AddExistingIsNoop`, `AddNewPrepends` and `AddPreservesWellFormed` |
| Storage.WellFormed | src/lib/storage.ts:12 | defines the list invariant: at most `MAX_HISTORY = 10` entries, short ids pairwise distinct |
| Storage.AddPreservesWellFormed | src/lib/storage.ts:48-61 | adding keeps the list at most 10 long with distinct short ids |
| Storage.WithoutId | src/lib/storage.ts:74 | `filter` never lengthens the list |
| Storage.WithoutIdKeepsOthers | src/lib/storage.ts:74 | removal keeps exactly the entries with another id |
| Storage.WithoutIdConcat | src/lib/storage.ts:74 | removal filters each part in place, so it keeps the order of what it keeps |
| Storage.WithoutAbsentId | src/lib/storage.ts:74 | removing an id no entry has changes nothing |
| Storage.HeadApart | src/lib/storage.ts:74 | in a list with distinct short ids, no later entry shares the head's short id |
| Storage.ConsDistinct | src/lib/storage.ts:74 | an entry with a new short id can go in front of a list with distinct short ids |
| Storage.RemovePreservesWellFormed | src/lib/storage.ts:74 | removal keeps the list at most 10 long with distinct short ids |
| Storage.Latest | src/lib/storage.ts:95 | `null` exactly for an empty list, otherwise the head |
| Storage.HistoryStore.GetHistory | src/lib/storage.ts:28-38 | reads the stored list |
| Storage.HistoryStore.AddToHistory | src/lib/storage.ts:41-66 | stores the list with the new entry added; unchanged for a known short id; keeps the list well formed |
| Storage.HistoryStore.RemoveFromHistory | src/lib/storage.ts:69-79 | stores the list without the entries of that id; keeps the list well formed |
| Storage.HistoryStore.ClearHistory | src/lib/storage.ts:82-90 | the stored list becomes empty |
| Storage.HistoryStore.GetLastAllocation | src/lib/storage.ts:93-96 | the head of the stored list, or `None` exactly when it is empty |

## Left out

- `localStorage`, `JSON.parse`/`JSON.stringify`, the `window` checks and the `try`/`catch` logging are not modelled. The store is a field holding the decoded list, and a read that fails to parse is not modelled.
- `generateUUID` and `new Date().toISOString()` are not modelled: `id` and `createdAt` are parameters of `AddToHistory`.
- The distribution of `Math.random` is not modelled. Shuffles are arbitrary, and every property is proved for all of them.
- `avgPerGroup` and `duplicateRate` are exact reals rather than IEEE doubles; rounding and `toFixed` are not modelled.
- The record of groups is modelled as a sequence of named groups in insertion order. The names are proved pairwise distinct, so it is a faithful record.
- Allocate.AllocateMembers: requires `targetGroups > 0`. With 0 groups there are no group keys, and what happens depends on the members:
  - If any member has an earlier group, the round-robin pass reads `groups[undefined].length` and throws a `TypeError`.
  - Otherwise the round-robin pass does nothing and the scan at `src/lib/allocate.ts:66` finds no group, so every member is unassigned.
  - With no members the call returns normally.
  - With 1 to 4 members it returns them all in `unassigned`, with no groups.
  - With 5 or more it calls `reAllocate` again and again (`:107`, `:128`) until the JavaScript stack overflows with a `RangeError`.
- Allocate.AllocateMembers: `targetGroups` is a `nat`, so a non-integer group count is not modelled. The input form (`src/components/AllocationForm.tsx:31`, `:112`) rejects counts below 2 but lets a value such as 2.5 through.
- Allocate.AllocateMembers: the retry branch at `src/lib/allocate.ts:106-108` is proved unreachable, so the call back into `reAllocate` is never made. The model therefore has no mutual recursion between the two.
- Allocate.ReAllocate: the `attempt > 1` branch is modelled although every caller passes 1.
- `src/lib/api.ts` (network client and short-id generation) and the React components are not part of this model.
- `Strings.Split` models `split` with a separator that matches exactly one character, which is all `\n` and `/\t|,/` ever match.
