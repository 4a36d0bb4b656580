# CustomLinkedList in Dafny

This project models `CustomLinkedList`, a singly-linked list of C# `short`
values. The list keeps a reference to its head node and a cached element count.
Its operations are:

- insertion as the second element (`AddAfterFirst`);
- three queries relative to the average of the values;
- a search for the first value above a threshold;
- trimming the chain after its first maximum;
- removal by index;
- an indexer and an enumerator.

The project has four modules:

- `Shorts` (shorts.dfy) defines the 16-bit element type `int16`. It also
  defines the wrap-around that unchecked `short` addition performs.
- `ListSpec` (list_spec.dfy) defines, on the sequence of values from head to
  tail, what insertion, the average queries, trimming and removal by index
  produce. Its lemmas say what those functions mean:
  - the ordering quirk of repeated insertion after the head;
  - which values lie on each side of the average;
  - where the first maximum is;
  - the multiset of values kept.
- `Lists` (custom_linked_list.dfy) has the real state:
  - `class Node` with `value` and `next`;
  - `class CustomLinkedList` with `head` and `count`.

  Every method walks or relinks the node chain just as the C# code does, with
  `while`/`for` loops and loop invariants. Ghost fields `Contents` (the values)
  and `Nodes` (the node objects) describe the chain. The class invariant
  `Valid()` says two things: the chain from `head` visits exactly `Nodes`,
  holding `Contents` and ending in `null` with no node repeated; and `count`
  is the chain's length. `AddAfterFirst`, `CalculateAverage`,
  `SumGreaterThanAverage`, `GetLessThanAverage`, `RemoveAfterMax` and
  `RemoveAt` are proved against `ListSpec` functions. `FirstGreaterThan`,
  `GetCountFromHead`, `GetNodeAt`, the indexer and the enumerator state their
  effect on `Contents` and `Nodes` directly.
- `Demo` (demo.dfy) replays the calls of the demonstration program on one
  list and proves what each step yields.

The average is a `double` in the source, but it is only ever compared with
16-bit values. The model keeps it as the exact fraction `Ratio(sum, count)`
and decides `v > average` by cross-multiplication. `ListSpec.OnSideMatchesMean`
proves that this comparison gives the same answer as comparing with the real
mean. The integer sum of 16-bit values is exact in a `double`. A non-integral
quotient lies at least `1/count` from every integer, which is far more than
its rounding error. So no comparison with a `short` can change through
rounding.

Inserting 10, 20, 60, 40 and 50 yields 10, 50, 40, 60, 20, because the first
value inserted stays at the head (`CustomLinkedList.cs:57-65`).
`Demo.InitialChain` proves this order. On that chain, the demonstration
program's results follow:

| call | result |
|---|---|
| average | 36 |
| sum above the average | 150 |
| values below the average | 10, 20 |
| trim after the maximum | 10, 50, 40, 60 (count 4) |
| `RemoveAt(1)` | 10, 40, 60 |

## Model

| member | source | states |
|---|---|---|
| Lists.Node.constructor | RiderProjects/CustomLinkedListDemo/CustomLinkedList/CustomLinkedList.cs:25-29 | a new node holds the given value and links to nothing |
| Lists.CustomLinkedList.constructor | RiderProjects/CustomLinkedListDemo/CustomLinkedList/CustomLinkedList.cs:43-47 | a new list is well formed, empty and owns only fresh objects |
| Lists.CustomLinkedList.Count | RiderProjects/CustomLinkedListDemo/CustomLinkedList/CustomLinkedList.cs:38 | the cached count is the number of values in the chain |
| Lists.CustomLinkedList.AddAfterFirst | RiderProjects/CustomLinkedListDemo/CustomLinkedList/CustomLinkedList.cs:53-67 | an empty list becomes [v]; otherwise v becomes the second value, the head stays first and the rest follow unchanged; the list stays well formed and the count grows by one |
| Lists.CustomLinkedList.FirstGreaterThan | RiderProjects/CustomLinkedListDemo/CustomLinkedList/CustomLinkedList.cs:74-86 | nothing is returned exactly when no value exceeds the argument (the empty list included); otherwise the result is a value above it with every earlier value at most the argument, i.e. the first such value |
| Lists.CustomLinkedList.CalculateAverage | RiderProjects/CustomLinkedListDemo/CustomLinkedList/CustomLinkedList.cs:92-104 | the result is the sum of the values over their count, and 0 for the empty list |
| Lists.CustomLinkedList.SumGreaterThanAverage | RiderProjects/CustomLinkedListDemo/CustomLinkedList/CustomLinkedList.cs:110-124 | the result is the 16-bit wrapped sum of exactly the values strictly above the average, in chain order; 0 for the empty list |
| Lists.CustomLinkedList.GetLessThanAverage | RiderProjects/CustomLinkedListDemo/CustomLinkedList/CustomLinkedList.cs:130-144 | the new list is a well-formed, fresh list holding the values strictly below the average, each inserted after the head in scan order; its count is the number of such values; the source list is not modified |
| Lists.CustomLinkedList.RemoveAfterMax | RiderProjects/CustomLinkedListDemo/CustomLinkedList/CustomLinkedList.cs:149-169 | a list of fewer than two values is left alone; otherwise the chain ends at the first occurrence of the maximum; the list stays well formed |
| Lists.CustomLinkedList.CutAfter | RiderProjects/CustomLinkedListDemo/CustomLinkedList/CustomLinkedList.cs:166-168 | setting the k-th node's link to null leaves exactly the first k + 1 nodes and values, and the recount restores the count invariant |
| Lists.CustomLinkedList.GetCountFromHead | RiderProjects/CustomLinkedListDemo/CustomLinkedList/CustomLinkedList.cs:175-185 | the result is the number of nodes reachable from head, even when the cached count is stale |
| Lists.CustomLinkedList.RemoveAt | RiderProjects/CustomLinkedListDemo/CustomLinkedList/CustomLinkedList.cs:192-209 | an index outside [0, Count) fails with the out-of-range error and changes nothing; otherwise exactly that value is removed, the others keep their order, the count drops by one and the list stays well formed |
| Lists.CustomLinkedList.GetNodeAt | RiderProjects/CustomLinkedListDemo/CustomLinkedList/CustomLinkedList.cs:216-224 | following index links from head reaches the index-th node of the chain |
| Lists.CustomLinkedList.Item | RiderProjects/CustomLinkedListDemo/CustomLinkedList/CustomLinkedList.cs:232-242 | an in-range index yields the value at that position, any other index the out-of-range error; nothing is modified |
| Lists.CustomLinkedList.GetEnumerator | RiderProjects/CustomLinkedListDemo/CustomLinkedList/CustomLinkedList.cs:248-256 | the values yielded are the list's values, head to tail |
| Lists.SpellsTail | RiderProjects/CustomLinkedListDemo/CustomLinkedList/CustomLinkedList.cs:199-201 | moving head to its successor leaves a well-formed chain of the remaining values |
| Lists.LinkKeepsSpells | RiderProjects/CustomLinkedListDemo/CustomLinkedList/CustomLinkedList.cs:63-64 | linking a node that is not in the chain between a node and its successor yields a well-formed chain with the value at that position |
| Lists.CutKeepsSpells | RiderProjects/CustomLinkedListDemo/CustomLinkedList/CustomLinkedList.cs:167 | nulling a node's link leaves a well-formed chain of the prefix ending at that node |
| Lists.UnlinkKeepsSpells | RiderProjects/CustomLinkedListDemo/CustomLinkedList/CustomLinkedList.cs:205-206 | linking a node past its successor leaves a well-formed chain without the successor, also when the successor was the last node |
| ListSpec.InsertAfterFirst | RiderProjects/CustomLinkedListDemo/CustomLinkedList/CustomLinkedList.cs:57-65 | insertion lengthens the sequence by one, keeps the head first, puts the value second and shifts the rest by one |
| ListSpec.InsertAfterFirstMultiset | RiderProjects/CustomLinkedListDemo/CustomLinkedList/CustomLinkedList.cs:53-67 | insertion adds exactly one occurrence of the value and nothing else |
| ListSpec.InsertAll | RiderProjects/CustomLinkedListDemo/CustomLinkedList/CustomLinkedList.cs:135-142 | the list a scan builds by inserting each selected value after the head holds one value per insertion; InsertAllOrder and InsertAllMultiset give its order and contents |
| ListSpec.InsertAllOrder | RiderProjects/CustomLinkedListDemo/CustomLinkedList/CustomLinkedList.cs:137-139 | inserting values one by one into an empty list leaves the first in front and the others in reverse order of insertion |
| ListSpec.InsertAllMultiset | RiderProjects/CustomLinkedListDemo/CustomLinkedList/CustomLinkedList.cs:137-139 | a list built by insertions holds exactly the inserted values, with their multiplicities |
| ListSpec.ReversedAt | RiderProjects/CustomLinkedListDemo/CustomLinkedList/CustomLinkedList.cs:137-139 | the reverse order used to describe the built list puts position k at position n - 1 - k |
| ListSpec.SumBounds | RiderProjects/CustomLinkedListDemo/CustomLinkedList/CustomLinkedList.cs:96-102 | `Sum`, the exact total the accumulator adds up, lies between n times -32768 and n times 32767 for n values |
| ListSpec.Mean | RiderProjects/CustomLinkedListDemo/CustomLinkedList/CustomLinkedList.cs:94-103 | the real-valued mean, 0 for the empty list, stays within the 16-bit range |
| ListSpec.Average | RiderProjects/CustomLinkedListDemo/CustomLinkedList/CustomLinkedList.cs:94-103 | the fraction has a positive denominator: the count, or 1 with numerator 0 for the empty list |
| ListSpec.OnSideMatchesMean | RiderProjects/CustomLinkedListDemo/CustomLinkedList/CustomLinkedList.cs:117 | comparing v with the exact fraction by cross-multiplication decides `v > average` and `v < average` as the real-valued mean does, in both directions |
| ListSpec.SelectExactly | RiderProjects/CustomLinkedListDemo/CustomLinkedList/CustomLinkedList.cs:115-122 | `Select`, the scan of lines 115-122 and 135-142, keeps every value on the chosen side of the average, as often as it occurs, and no other value |
| ListSpec.SelectStep | RiderProjects/CustomLinkedListDemo/CustomLinkedList/CustomLinkedList.cs:117-120 | scanning one more value extends the selection by that value when it is on the chosen side, and by nothing otherwise |
| ListSpec.SumAboveAverage | RiderProjects/CustomLinkedListDemo/CustomLinkedList/CustomLinkedList.cs:110-124 | the result is 0 for the empty list, and equals the exact sum of the values strictly above the average whenever that sum fits in a `short` |
| ListSpec.BelowAverageList | RiderProjects/CustomLinkedListDemo/CustomLinkedList/CustomLinkedList.cs:130-144 | the sub-list has exactly as many values as the scan selects strictly below the average |
| ListSpec.BelowAverageListIs | RiderProjects/CustomLinkedListDemo/CustomLinkedList/CustomLinkedList.cs:130-144 | the sub-list holds exactly the values strictly below the average, with multiplicities; the first of them comes first and the rest follow in reverse scan order |
| ListSpec.FirstMaxIndex | RiderProjects/CustomLinkedListDemo/CustomLinkedList/CustomLinkedList.cs:153-164 | the index holds a maximum and every earlier value is strictly smaller, so it is the first maximum |
| ListSpec.FirstMaxIndexStep | RiderProjects/CustomLinkedListDemo/CustomLinkedList/CustomLinkedList.cs:159-162 | scanning one more value moves the maximum only to a strictly greater value, so ties keep the earlier node |
| ListSpec.TrimAfterMax | RiderProjects/CustomLinkedListDemo/CustomLinkedList/CustomLinkedList.cs:149-169 | the result is a prefix, empty only for the empty list, whose last value is the maximum of the whole list and is strictly greater than every value before it |
| ListSpec.TrimAfterMaxIdempotent | RiderProjects/CustomLinkedListDemo/CustomLinkedList/CustomLinkedList.cs:149-169 | trimming an already trimmed list changes nothing |
| ListSpec.Without | RiderProjects/CustomLinkedListDemo/CustomLinkedList/CustomLinkedList.cs:199-206 | removing position i shortens the sequence by one; values before i stay, values after it shift down by one |
| Shorts.Wrap16 | RiderProjects/CustomLinkedListDemo/CustomLinkedList/CustomLinkedList.cs:119 | the 16-bit result is congruent to the mathematical value modulo 2^16, and equal to it when it fits |
| Shorts.CongruentShortsEqual | RiderProjects/CustomLinkedListDemo/CustomLinkedList/CustomLinkedList.cs:119 | two 16-bit values congruent modulo 2^16 are equal |
| Shorts.WrapAdd | RiderProjects/CustomLinkedListDemo/CustomLinkedList/CustomLinkedList.cs:113-123 | wrapping after every addition gives the same `short` as wrapping the mathematical sum once |
| Demo.InitialChain | RiderProjects/CustomLinkedListDemo/CustomLinkedListDemo/Program.cs:11-15 | inserting 10, 20, 60, 40, 50 after the head gives the chain 10, 50, 40, 60, 20 |
| Demo.ChainQueries | RiderProjects/CustomLinkedListDemo/CustomLinkedListDemo/Program.cs:24-29 | on that chain the average is 180/5, the sum above it is 150 and the sub-list below it is 10, 20 |
| Demo.TrimAndRemove | RiderProjects/CustomLinkedListDemo/CustomLinkedListDemo/Program.cs:31-42 | trimming that chain gives 10, 50, 40, 60, and removing position 1 then gives 10, 40, 60 |
| Demo.BuildList | RiderProjects/CustomLinkedListDemo/CustomLinkedListDemo/Program.cs:10-15 | the five insertions on a new list leave a well-formed list holding 10, 50, 40, 60, 20 |
| Demo.Queries | RiderProjects/CustomLinkedListDemo/CustomLinkedListDemo/Program.cs:20-29 | on that list the first value above 25 is 50, the sum above the average is 150 and the sub-list is 10, 20 |
| Demo.ReadAll | RiderProjects/CustomLinkedListDemo/CustomLinkedListDemo/Program.cs:36-39 | reading every index from 0 below Count through the indexer yields the list's values in order |
| Demo.Updates | RiderProjects/CustomLinkedListDemo/CustomLinkedListDemo/Program.cs:31-44 | trimming leaves 10, 50, 40, 60 with count 4, the indexer reads the same values, and removing index 1 leaves 10, 40, 60 |
| Demo.ProgramScenario | RiderProjects/CustomLinkedListDemo/CustomLinkedListDemo/Program.cs:10-50 | the demonstration program's calls, in order, yield each of the results above |

## Left out

- Lists.CustomLinkedList.CalculateAverage: returns the exact fraction sum/count instead of the `double` quotient. IEEE rounding is not modelled; it cannot change any comparison with a 16-bit value (see above).
- Lists.CustomLinkedList.GetEnumerator: returns the values as one sequence. The lazy `yield return` state machine is not modelled. Neither is the behaviour when the list is mutated during enumeration, which the source leaves unguarded.
- The non-generic `IEnumerable.GetEnumerator` bridge (`CustomLinkedList.cs:262-265`) is not modelled: it only forwards to the generic enumerator.
- `ArgumentOutOfRangeException` becomes the `IndexOutOfRange(index)` error value. The exception's parameter name and message text are not modelled.
- The `int` counter `_count` is unbounded in the model. An overflow of it would need more than 2^31 nodes.
- Console output, the UTF-8 output encoding and `PrintList` in `Program.cs` are not modelled. The `Demo` methods return the sequences the program prints.
- The out-of-memory failure of `new Node` is not modelled.
