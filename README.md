# Intrusive doubly-linked list (exercise10_3)

A Dafny model of the intrusive list engine in `exercise10_3/Exercise10_3.c`.
The engine keeps a head, a tail and a count for a list of caller-owned
records. The records carry the list's `next`/`prev` pair inside themselves.
A list finds its pair inside a record through a byte offset fixed at
initialisation. So one record can sit on several lists at once, one embedded
pair per list. The engine never allocates or frees a record.

How the C program is represented:

- An embedded `ListNode` becomes a `Link` object with `next` and `prev` fields of
  type `Rec?` (they point at host records, as the `void*` fields do).
- A host record is a `Rec` with a payload `value` and a fixed sequence `links`
  of embedded pairs.
- The byte offset becomes a *selector* `sel`: the index of the list's pair in
  `links`. Two lists with different selectors thread the same records
  independently, as two offsets do.
- The `List` handle is a class with `head`, `tail`, `count` and `sel`. Its
  ghost field `contents` is the abstract value: the linked records from head
  to tail.
- `Valid()` ties the real fields to `contents`:
  - `count` is its length;
  - `head`/`tail` are null exactly when it is empty, otherwise its first and last records;
  - each record's pair points at its neighbours;
  - the first record's `prev` and the last record's `next` are null;
  - no two records share a pair.
- Each operation is a method with a `modifies` clause. The clause names the
  handle and only the pairs that the C code writes: the new record's pair and
  the old tail's pair for an append, the two neighbours' pairs for a removal.
  So every other pair, in the same record or in other records, and every
  other list is unchanged by construction. `ValidFramed` turns that into the
  statement that another list stays valid.

The code checks nothing about its callers. Its undefined cases become
preconditions:
- `AddNode` requires that the record's pair is not already threaded on the list.
- `RemoveNode` requires membership.
- `AddNode` on an empty list requires the record's `prev` to be null already.
  That path (lines 54-55) writes `next` but never `prev`. `SingletonValid`
  shows that the resulting one-record list is valid exactly when that `prev`
  is null.

The test driver `main` does its set-up with `memset`, so every pair starts
out null. `Drain` proves that draining a list leaves every drained record with
a null `prev`. That is why the driver may refill the list with the same
records.

## Model

| member | source | states |
|---|---|---|
| IntrusiveList.List.Initialize | exercise10_3/Exercise10_3.c:29-35 | the new handle is a valid empty list: head and tail null, count 0, selector the one supplied |
| IntrusiveList.List.AddNode | exercise10_3/Exercise10_3.c:49-64 | appending keeps the list valid; contents become old contents plus `r`; count rises by 1; `r` is the tail and its `next` is null. On an empty list `r` is also the head with a null `prev`. Otherwise the head is unchanged, `r.prev` is the old tail, and the old tail's `next` is `r` while its `prev` is kept. Only `r`'s pair and the old tail's pair may change |
| IntrusiveList.List.SingletonValid | exercise10_3/Exercise10_3.c:52-55 | the one-record list left by the empty-list path of the append is valid if and only if the record's `prev` is null, the field that path never writes |
| IntrusiveList.List.RemoveNode | exercise10_3/Exercise10_3.c:78-97 | removing a member keeps the list valid; contents become the old contents with `r` cut out at its position, and `r` is no longer in them; count drops by 1. Only the handle and the two neighbours' pairs may change; `r`'s own pair keeps its old (stale) values |
| IntrusiveList.List.PopNode | exercise10_3/Exercise10_3.c:110-119 | with count 0 it returns null and changes nothing. Otherwise it returns the old head and leaves `old(contents)[1..]` with count one less. The popped record's own pair is unchanged and its `prev` is null |
| IntrusiveList.List.Locate | exercise10_3/Exercise10_3.c:82-93 | a member of a valid list sits at exactly one index; its `prev` is the record before it (null at the head) and its `next` the record after it (null at the tail). This is what lets the removal find its neighbours from the record alone |
| IntrusiveList.ThreadableCut | exercise10_3/Exercise10_3.c:78-97 | cutting a record out of a sequence whose records use distinct pairs leaves a sequence with the same property that no longer holds that record |
| IntrusiveList.AppendedValid | exercise10_3/Exercise10_3.c:52-60 | writing only the new record's pair and the old tail's pair, as the append does, turns a valid list into a valid list whose contents are one record longer |
| IntrusiveList.SplicedValid | exercise10_3/Exercise10_3.c:82-94 | rewiring only the predecessor's `next` and the successor's `prev`, or moving head or tail when there is none, turns a valid list into a valid list without the record |
| IntrusiveList.ValidFramed | exercise10_3/Exercise10_3.c:11-17 | a list whose handle and pairs were not written is still valid and threads the same pairs: a list only depends on its own handle and on the pair its offset selects |
| Demo.AddToBoth | exercise10_3/Exercise10_3.c:152-164 | appending one record to two lists through pairs kept apart appends it to both, and a third list whose pairs are apart from both stays valid and unchanged |
| Demo.RemoveFromOne | exercise10_3/Exercise10_3.c:78-97 | removing a record from one list leaves another list, holding the same record through another pair, valid and unchanged: same handle, same pairs, record still present |
| Demo.AddAll | exercise10_3/Exercise10_3.c:186-189 | appending distinct records in order to an empty list gives a valid list whose contents are exactly those records. Only the first append takes the empty-list path, so only the first record needs a null `prev` |
| Demo.Drain | exercise10_3/Exercise10_3.c:180-183 | popping until the pop returns null yields the values in list order, empties the list, and leaves every drained record with a null `prev` |
| Demo.RemoveThree | exercise10_3/Exercise10_3.c:191-196 | removing the first, a middle and the last record of a ten-record list leaves seven records, those at indices 1-3 and 5-8 |
| Demo.FifoScenario | exercise10_3/Exercise10_3.c:110-119 | appending N fresh records and popping until null gives back their values in insertion order |
| Demo.TestListStructure | exercise10_3/Exercise10_3.c:133-205 | the full-list part of the driver: ten records appended and drained come out in order with a count of 10; after a refill and the removal of indices 0, 4 and 9 the count is 7 and the drain yields the values at indices 1, 2, 3, 5, 6, 7, 8 |

## Left out

- Byte offsets and `char*`/`void*` arithmetic (lines 51, 57, 80, 85, 92). A list selects its pair by an index into the record's pairs. A mismatched offset is excluded by the preconditions, because a record must embed the selected pair.
- Memory layout. Pairs are separate `Link` objects. Sharing of a pair between records or lists is excluded by `Valid()`, and by the `Separate` layout predicate for the driver's records, rather than by struct layout.
- Undefined misuse: removing a non-member, adding a record twice, adding to an empty list a record with a stale `prev`. Each is excluded by a precondition, not modelled.
- Re-initialising a handle already in use: `ListInitialize` resets an existing `List`, while `List.Initialize` makes a new handle. Both end with an empty handle and the given selector, and neither touches any record's pairs.
- The `int` count. It is a mathematical integer; overflow at `INT_MAX` records is not modelled.
- The even/odd phase of `main` (lines 152-177) is not replayed step by step on the three concrete lists. Its content is stated generally instead. `AddToBoth` states the append to the full list and to the parity list, with a third list untouched. `RemoveFromOne` and `ValidFramed` state that changing one list leaves the others alone. `Drain` states each drain loop.
- `rand() % 100` becomes the `values` parameter of the driver. `printf` output becomes the returned counts and value sequences. `memset` becomes the record constructor, which creates all pairs null.
