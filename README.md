# HyParView views: a verified model of the bounded set and the node's view state

This project models two parts of a Rust HyParView implementation in Dafny:

1. `SetWithCapacity`, a set that never grows beyond its capacity (`src/bounded_set.rs`). It has three
   constructors (`new`, `single`, `init`) and the queries `is_full`, `contains`, `len`, `sample_one`
   and `sample`. Its updates are a capacity-gated `insert`, `remove`, and `bounded_union`.
   `bounded_union` rebuilds the set in a fixed fill order: first the merged set, then the old members
   that are not marked for dropping, then the marked ones. It stops as soon as the set is full.
2. The view-owning state of a HyParView node (`src/hpv/mod.rs`). This is the node's `Config` and its
   active and passive views, each a bounded set of peers. It is created by `HyParViewActor::default`
   and reconfigured by `set_config`. `add_passive_view` and `add_active_view` fill the views, and
   `Views::from_hyparview` and the `Inspect` handler take snapshots of them.

Files:

- `collections.dfy` (module `Collections`): `Min`, the element set of a sequence, repetition-free
  sequences, and cardinality facts about them.
- `bounded_set.dfy` (module `BoundedSet`): the class `SetWithCapacity`. `Valid()` is its size
  invariant `|wraps| <= capacity`. The file also holds the predicate `IsBoundedUnion`, which
  specifies every result `bounded_union` can produce, and the lemmas derived from it.
- `hpv.dfy` (module `Hpv`): `Peer`, `Config`, the class `HyParViewActor` and the `Views` snapshot.
  The actor's `Valid()` says both views are within their capacities. It also says each capacity is
  at most the configured maximum for its view, which is the invariant the asserts in `set_config`
  protect.
- `scenarios.dfy` (module `Scenarios`): the unit tests of `src/bounded_set.rs` and the inspection
  test of `src/hpv/test_join.rs`. Each test's expectations are stated as assertions and proved from
  the contracts.

How the model is built:

- A Rust `HashSet` iterates in an order the program does not control. The model writes this
  iteration as `Enumerate`, which lists a set once per member in an arbitrary order, picking each
  member with `:|`.
- `sample_one` takes the first element of that order and `sample(n)` takes the first `n`. Their
  contracts say only what holds for every order.
- `bounded_union` is one loop over the chained enumeration of its three sources, with the source's
  early return when the set is full. Its contract, `IsBoundedUnion`, says the result keeps as many
  members as fit from each prefix of the fill order: the merged set; the merged set plus the
  unmarked old members; and everything.
- `init` and `single` panic when the initial members exceed the capacity. The model turns this into
  a `requires` on the constructors, because the source treats it as a fatal caller error. The same
  goes for the two `assert!`s in `set_config`.
- Rust's `usize` becomes `nat`. Sizes are bounded by the capacities, so no wrap-around can occur.

## Model

| member | source | states |
|---|---|---|
| `BoundedSet.SetWithCapacity.New` | src/bounded_set.rs:14-16 | an empty set with the given capacity, satisfying the size invariant |
| `BoundedSet.SetWithCapacity.Single` | src/bounded_set.rs:18-22 | the set `{x}` with the given capacity; needs capacity at least 1, because `init` panics otherwise |
| `BoundedSet.SetWithCapacity.Init` | src/bounded_set.rs:24-33 | takes the given members and capacity; the caller must supply no more members than the capacity (the source panics otherwise) |
| `BoundedSet.SetWithCapacity.IsFull` | src/bounded_set.rs:176-178 | full exactly when no room is left, i.e. the size has reached the capacity |
| `BoundedSet.SetWithCapacity.Contains` | src/bounded_set.rs:190-192 | true exactly for members |
| `BoundedSet.SetWithCapacity.Len` | src/bounded_set.rs:206-208 | the number of members, which never exceeds the capacity |
| `BoundedSet.SetWithCapacity.SampleOne` | src/bounded_set.rs:180-184 | none exactly when the set is empty, otherwise some member; on a singleton, that element |
| `BoundedSet.SetWithCapacity.Sample` | src/bounded_set.rs:186-188 | a subset of the members with exactly `min(n, len)` elements |
| `BoundedSet.SetWithCapacity.Insert` | src/bounded_set.rs:194-200 | with room: the element is added and the result says whether it was absent; without room: the result is false and nothing changes; the capacity is kept and the size invariant preserved |
| `BoundedSet.SetWithCapacity.Remove` | src/bounded_set.rs:202-204 | the result says whether the element was present; afterwards it is absent, the other members and the capacity are unchanged, and the size drops by one exactly when the result is true |
| `BoundedSet.SetWithCapacity.BoundedUnion` | src/bounded_set.rs:210-226 | the new members are a possible result of the three-stage fill (`IsBoundedUnion`); the capacity is kept and the size invariant preserved |
| `BoundedSet.PrefixFillKeepsMost` | src/bounded_set.rs:219-225 | filling front to back from a sequence and stopping when full keeps as many members of every prefix as fit |
| `BoundedSet.BoundedUnionSize` | src/bounded_set.rs:210-226 | the union has exactly `min(capacity, #(toMerge ∪ old))` members (`#` for size), so never more than the capacity |
| `BoundedSet.BoundedUnionKeepsMerge` | src/bounded_set.rs:213-214 | when `toMerge` fits within the capacity, all of it is present afterwards |
| `BoundedSet.BoundedUnionPrefersMerge` | src/bounded_set.rs:213-224 | when `toMerge` alone fills the capacity, the result lies inside `toMerge` |
| `BoundedSet.BoundedUnionFits` | src/bounded_set.rs:210-226 | when `toMerge ∪ old` fits, the result is exactly that union |
| `BoundedSet.BoundedUnionDropPriority` | src/bounded_set.rs:213-216 | if an old member marked for dropping (and not re-merged) survives, every unmarked old member survived too |
| `BoundedSet.BoundedUnionDropPriorityExample` | src/bounded_set.rs:149-160 | capacity 1, old `{1}`, merging `{2}` with `{1}` marked for dropping gives `{2}` |
| `BoundedSet.BoundedUnionExample` | src/bounded_set.rs:138-147 | capacity 10, old `{1}`, merging `{2}` keeps both 1 and 2 |
| `Hpv.Config.Default` | src/hpv/mod.rs:24-35 | view sizes 4 and 4, walk lengths 3 (active), 2 (passive) and 1 (shuffle), and shuffle samples of 2 active and 2 passive peers |
| `Hpv.HyParViewActor.Default` | src/hpv/mod.rs:56-66 | the default configuration and two fresh, distinct, empty views whose capacities are the configured maximum sizes |
| `Hpv.HyParViewActor.SetConfig` | src/hpv/mod.rs:68-72 | needs new maximum sizes no smaller than the current capacities; replaces the configuration and leaves both views, their capacities included, unchanged |
| `Hpv.InsertAll` | src/hpv/mod.rs:75-77 | inserting a peer set one by one keeps every old member and adds only offered peers; the view ends with `min(capacity, #(old ∪ peers))` members (`#` for size), so every offered peer is present when everything fits |
| `Hpv.HyParViewActor.AddPassiveView` | src/hpv/mod.rs:74-78 | the passive view keeps its old members, stays within `old ∪ peers` and within its capacity, holds every peer when everything fits, and its capacity is kept; the active view and the configuration are unchanged |
| `Hpv.HyParViewActor.AddActiveView` | src/hpv/mod.rs:80-84 | the mirror of `AddPassiveView` for the active view; the passive view and the configuration are unchanged |
| `Hpv.HyParViewActor.Inspect` | src/hpv/mod.rs:109-112 | returns copies equal to the current active and passive views (members and capacities), each within its capacity, and changes nothing |
| `Hpv.Views.FromHyParView` | src/hpv/mod.rs:94-99 | a snapshot equal to the actor's current views, each within its capacity |

## Left out

- `SetConfig` keeps the source's behaviour. `set_config` (src/hpv/mod.rs:68-72) only replaces `config`. It does not give the new maximum sizes to the live views, so their capacities stay as they were. The model does the same, and the actor invariant ties each capacity to at most its configured maximum.
- `Insert` keeps the source's behaviour too. `HashSet::insert` returns false for an element that is already present, so the model's `Insert` also returns false for such an element, with or without room.
- Peer identity: src/hpv/mod.rs:38-39 declares `Peer` as an empty struct. The model follows src/hpv/peer.rs:6-9 instead, where a peer is identified by its recipient. The recipient is the opaque type `Recipient`, whose only property is equality.
- `SampleOne` and `Sample` do not say which members are picked. The source takes the first members in hash order, and that order is not under the program's control. Any distribution, and the bias the source's own comment mentions, is left out.
- The discovery channel (`out`) and the `Receiver` returned by `HyParViewActor::default` are left out. No operation in this core sends on the channel.
- `shuffle_interval` in `Config` is a timer value. It is left out, and so is the copy of `Config` in src/hpv/config.rs.
- The actix `Actor`/`Handler` plumbing and the `println!` in the `Inspect` handler are left out. The handler's `Result` is always `Ok`, so `Inspect` returns the `Views` value directly.
- The protocol handlers (join, forward-join, neighbour, disconnect, shuffle, shuffle reply, shuffle initiation, peer publication) are not part of this model. Their implementations are not among the source files shown; only tests call them.
- src/hpv/libp2p.rs is transport glue with protobuf framing. It is I/O and foreign calls, so it is left out.
- src/hpv/message.rs, src/peer/mod.rs, src/util/channelactor.rs, src/util/logged.rs, build.rs and the test harness are not part of this model. The `Display` of a peer through a hasher is left out as well.
- `capacity` is a public field in Rust. No code in this core reassigns it after construction, so every operation of the model keeps it fixed.
