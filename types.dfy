/** Shapes of the values exchanged between the allocator, the paste parser and
    the history list (src/types/index.ts). */
module Types {

  /** A person to allocate; `prevGroup` is "" when no earlier group is known. */
  datatype Member = Member(name: string, prevGroup: string)

  /** One entry of the result's group record: its key ("그룹 1", ...) and its
      members, in the order they were pushed. */
  datatype NamedGroup = NamedGroup(name: string, members: seq<Member>)

  /** Summary numbers. `avgPerGroup` and `duplicateRate` are floating point in
      the program; here they are exact reals. */
  datatype Stats = Stats(totalMembers: nat, avgPerGroup: real, duplicateRate: real)

  /** The allocator's output; `groups` keeps the record's insertion order. */
  datatype AllocationResult = AllocationResult(groups: seq<NamedGroup>, unassigned: seq<Member>, stats: Stats)

  datatype Option<+T> = None | Some(value: T)
}
