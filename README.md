# Doubly linked list

A verified model of the `DoublyLinkedList` class of `linked-list.js`: a
mutable sequence of heap nodes `{value, next, prev}` reached from a list
object that keeps `head`, `tail` and a `length` counter. The list
supports insertion at either end, removal of the first node holding a
value, removal by position (walking from the nearer end), order-preserving
pruning of duplicates with a set of values seen so far, `indexOf`, `size`,
`isEmpty`, `toArray` and a forward iterator.

The model keeps the source's imperative shape:

- `LinkedList.Node` and `LinkedList.DoublyLinkedList` are heap classes.
- Every operation updates `head`, `tail`, `length` and the nodes' links
  in place, and every scan is a `while` loop over `current`.
- Two ghost fields give the abstract view. `nodes` lists the nodes from
  head to tail, and `contents` lists their values.
- `Linked()` ties the real links to that view: each node's `next` and
  `prev`, plus the endpoint facts on `head` and `tail`. `Valid()`
  additionally says that `length == |nodes|`.
- Each method is proved against a function on `contents` in module
  `Sequences`:
  - `Excise` cuts out one position.
  - `FirstIndex` gives the first position of a value.
  - `Dedup` keeps each value only at its first occurrence.
- The properties the class promises are lemmas about those functions:
  - removal takes out exactly one copy;
  - pruning keeps every value once and in order;
  - pruning is idempotent;
  - pruning leaves a duplicate-free list alone.

Files:

- `wrappers.dfy`: `Option`, which stands for the `undefined` result of
  `removeAt` and `done` of the iterator.
- `sequences.dfy`: the specification functions and their lemmas.
- `linked_list.dfy`: the node, the list and the iterator cursor.
- `scenario.dfy`:
  - the usage script at the end of `linked-list.js`, replayed on the
    corrected model with the results its calls produce there;
  - a build of any sequence of insertions, proved equal to a plain-sequence
    simulation;
  - an iterator drained to exhaustion.
- `findings.dfy`: the four defective methods as written (`removeAt`
  through the as-written `#nodeAt`), each with a contract that exposes its
  defect, and concrete witnesses.

### Where the model departs from the code

The methods of `LinkedList` follow the behaviour that the file's own usage
script relies on. Each place where this departs from the code carries a
"Deviation" comment:

- `appendHead` takes its value as `value`. As written, the parameter is
  called `node` and the body redeclares it with `const`.
- The forward walk of `#nodeAt` starts at 0.
- `removeAt` and `removeDuplicates` decrement `length`.
- `indexOf` scans the whole list and returns -1 when no node matches,
  including on an empty list.

The code as written is kept in `findings.dfy`.

The script at lines 162-191 builds its list with a final `appendTail(30)`
(line 168), so it holds 30, 10, 20, 20, 15, 30. The literals written next
to its checks expect different values:

- a first array ending in 20 (line 170);
- 20 in the last position after the removals (lines 177, 184);
- two duplicates removed and a final size of 2 (lines 189-191).

The model follows the calls, not those literals. `Scenario.Script` proves
the values the calls produce on the corrected model; the code as written
gives other results (its `indexOf(10)` is -1, and its `size()` would not
drop with `removeAt` or `removeDuplicates`):

- `indexOf(10) == 1` and `indexOf(777) == -1`;
- `remove(30)` leaves 10, 20, 20, 15, 30;
- `removeAt(3)` returns 15 and leaves 10, 20, 20, 30;
- `removeDuplicates()` returns 1 and leaves 10, 20, 30 with size 3;
- a second call returns 0.

## Model

| member | source | states |
|---|---|---|
| LinkedList.Node.constructor | linked-list.js:8-10 | a new node holds the value and is linked to nothing |
| LinkedList.DoublyLinkedList.constructor | linked-list.js:2-6 | a new list is valid and empty, with `length` 0 and no nodes |
| LinkedList.DoublyLinkedList.NodesDiffer | linked-list.js:12-26 | in a well-linked chain two different positions never hold the same node (the chain has no cycle) |
| LinkedList.DoublyLinkedList.DiffersFrom | linked-list.js:12-26 | the node at position k occurs at no other position |
| LinkedList.DoublyLinkedList.Successor | linked-list.js:128-131 | following `next` from position i reaches position i + 1, or null after the tail |
| LinkedList.DoublyLinkedList.RemoveNode | linked-list.js:12-26 | unlinking the node at position k returns its value and cuts position k out of both `nodes` and `contents`; the chain stays well linked; the node ends detached; `length` is untouched; nodes two or more positions away are unchanged |
| LinkedList.DoublyLinkedList.Excised | linked-list.js:14-23 | if the neighbours (or `head`/`tail`) bypass the removed node and every other link is kept, the shortened chain is well linked |
| LinkedList.DoublyLinkedList.NodeAt | linked-list.js:28-46 | the result is null exactly when the index is outside `[0, length)`; otherwise it is the node at that position, whichever end the walk starts from |
| LinkedList.DoublyLinkedList.AppendHead | linked-list.js:48-59 | the value becomes the first element; the rest is unchanged; `length` grows by one; on an empty list the new node is both head and tail |
| LinkedList.DoublyLinkedList.AppendTail | linked-list.js:61-72 | the value becomes the last element; the rest is unchanged; `length` grows by one; on an empty list the new node is both head and tail |
| LinkedList.DoublyLinkedList.Remove | linked-list.js:74-85 | returns true exactly when the value occurs; if so, only its first occurrence is cut out and `length` drops by one; otherwise nothing changes |
| LinkedList.DoublyLinkedList.RemoveAt | linked-list.js:87-90 | in range, returns the element at the index, cuts it out and decrements `length`; out of range, returns None and changes nothing |
| LinkedList.DoublyLinkedList.RemoveDuplicates | linked-list.js:92-108 | the contents become their first-occurrence dedup with no duplicates left; the result is the number of nodes dropped; on a duplicate-free list it returns 0 and changes nothing |
| LinkedList.DoublyLinkedList.IndexOf | linked-list.js:109-118 | returns -1 exactly when the value is absent (so also on an empty list); otherwise returns the least position holding it |
| LinkedList.DoublyLinkedList.Size | linked-list.js:119-121 | the counter equals the number of elements |
| LinkedList.DoublyLinkedList.IsEmpty | linked-list.js:122-124 | true exactly when there are no elements |
| LinkedList.DoublyLinkedList.ToArray | linked-list.js:125-133 | returns the elements from head to tail |
| LinkedList.DoublyLinkedList.Iterate | linked-list.js:135-137 | a fresh cursor over this list that has yielded nothing yet |
| LinkedList.Cursor.constructor | linked-list.js:136-137 | the cursor starts at the head with nothing yielded |
| LinkedList.Cursor.Next | linked-list.js:138-143 | yields the next element in head-to-tail order; reports None (`done`) only once everything has been yielded |
| Sequences.FirstIndex | linked-list.js:109-118 | -1 exactly when the value is absent; otherwise a position holding the value with no earlier occurrence |
| Sequences.Excise | linked-list.js:12-26 | cutting out one position shortens the sequence by one |
| Sequences.ExciseMultiset | linked-list.js:74-90 | cutting out one position removes exactly one copy of the value there |
| Sequences.DedupFrom | linked-list.js:96-106 | the pruning scan never lengthens its input |
| Sequences.DedupFromElements | linked-list.js:96-106 | the scan keeps exactly the values not yet seen, each once |
| Sequences.DedupFromSkip | linked-list.js:97-101 | dropping a value already seen leaves the outcome of the scan unchanged |
| Sequences.DedupFromKeep | linked-list.js:102-105 | keeping a new value and adding it to the seen set leaves the outcome of the scan unchanged |
| Sequences.ScannedEnds | linked-list.js:93-107 | before the scan the outcome is the whole prune; after it, the list as it stands |
| Sequences.Dedup | linked-list.js:92-108 | pruning never lengthens the sequence |
| Sequences.DedupElements | linked-list.js:92-108 | pruning keeps every value that occurs, and each exactly once |
| Sequences.DedupFromSnoc | linked-list.js:96-106 | a value appended to the scanned input is appended to the outcome exactly when it is new |
| Sequences.DedupSnoc | linked-list.js:92-108 | reference characterisation: a value is kept exactly when it has not occurred earlier |
| Sequences.DedupFromOfDistinct | linked-list.js:96-106 | a scan over distinct, unseen values drops nothing |
| Sequences.DedupOfDistinct | linked-list.js:92-108 | pruning a duplicate-free sequence leaves it unchanged |
| Sequences.DedupIdempotent | linked-list.js:92-108 | pruning twice equals pruning once |
| Scenario.Simulate | linked-list.js:48-72 | the plain-sequence meaning of a sequence of insertions has one element per insertion |
| Scenario.SimulateMultiset | linked-list.js:48-72 | a sequence of insertions holds exactly the inserted values, as a multiset |
| Scenario.SimulateTails | linked-list.js:61-72 | tail insertions alone keep insertion order (queue) |
| Scenario.SimulateHeads | linked-list.js:48-59 | head insertions alone reverse insertion order (stack) |
| Scenario.Build | linked-list.js:48-72 | any sequence of `appendHead`/`appendTail` calls on a new list yields the simulated sequence, with matching size |
| Scenario.Spread | linked-list.js:135-145 | draining the iterator yields exactly what `toArray()` returns |
| Scenario.BuildScriptList | linked-list.js:162-168 | the script's insertions produce 30, 10, 20, 20, 15, 30 |
| Scenario.ScriptDedup | linked-list.js:188-190 | pruning 10, 20, 20, 30 gives 10, 20, 30 |
| Scenario.Queries | linked-list.js:170-173 | on the built list, `toArray`, `size` and the two `indexOf` calls give the array, 6, 1 and -1 |
| Scenario.Removals | linked-list.js:174-186 | `remove(30)` returns true; `removeAt(3)` returns 15; the arrays after each are as stated |
| Scenario.Pruning | linked-list.js:188-191 | `removeDuplicates()` returns 1 and leaves 10, 20, 30 of size 3; a second call returns 0 |
| Scenario.Script | linked-list.js:162-191 | the whole script, with every result it produces |
| AsWritten.NodeAtAsWritten | linked-list.js:28-46 | as written, every index in the first half yields the head, so any such index other than 0 yields the wrong node |
| AsWritten.IndexOfAsWritten | linked-list.js:109-118 | as written, only the head is compared and an empty list gives `undefined`; a value present but not at the head is missed |
| AsWritten.RemoveAtAsWritten | linked-list.js:87-90 | as written, an in-range index in the first half removes the head (the as-written `#nodeAt` never walks), a later index removes the node there; either way `length` stays one too high, so the invariant breaks |
| AsWritten.RemoveDuplicatesAsWritten | linked-list.js:92-108 | as written, the pruned contents are right but `length` keeps its old value, so the invariant breaks whenever something is removed |
| AsWritten.IndexOfWitness | linked-list.js:109-118 | on the script's list, as written `indexOf(10)` is -1 while the corrected scan gives 1 |
| AsWritten.NodeAtWitness | linked-list.js:28-46 | on the script's list, as written `#nodeAt(1)` is the node of 30 while the corrected walk gives that of 10 |
| AsWritten.RemoveAtWitness | linked-list.js:87-90 | on the script's list, the as-written `removeAt(3)` returns the head 30, leaves 10, 20, 20, 15, 30, and `length` stays 6 while five values remain |
| AsWritten.RemoveDuplicatesWitness | linked-list.js:92-108 | as written, pruning 10, 20, 20, 30 returns 1 yet leaves `length` at 4 with three values |

## Left out

- The helper `expectedEqual` (linked-list.js:148-160) is not modelled, with its console output, its `JSON.stringify` comparison and the errors it throws. The script's checks become `ensures` clauses of `Scenario.Script`.
- The script's expected literals at lines 170, 177, 184 and 189-191 do not follow from its own calls, and line 178 passes `false` where the message belongs. The model proves the values the calls produce on the corrected model instead.
- Method chaining by `return this` (linked-list.js:58, 71) is not modelled. `AppendHead` and `AppendTail` return nothing.
- `appendHead` as written does not parse (the `const node` at line 49 redeclares the parameter), so it has no as-written member. Only the corrected `value` form is modelled.
- The JavaScript iteration protocol is modelled as `Cursor`, whose `Next` returns an `Option` in place of `{value, done}`. That covers the closure object with its `next` property and `Symbol.iterator`.
- A cursor whose list changes while it is in use is not modelled. `Cursor.Valid()` assumes the list is left alone between calls.
- Dynamic typing and the corner cases of `===`, such as `NaN !== NaN`, are not modelled. Values come from a type `T` with Dafny equality, and `seen` is a `set<T>`.
- `length` is an unbounded `nat`. JavaScript numbers lose integer precision only past 2^53 nodes, which no list reaches.
- Whether `#nodeAt` walks forward or backward is a performance choice. It shows in the model's code, but its contract states only the node found.
- The `#` privacy of `#removeNode` and `#nodeAt` is not modelled. In Dafny they are ordinary members.
- Garbage collection of detached nodes is not modelled. `Repr` simply loses the node.
- `Linked()` requires `Repr` to contain every node of the chain but not to hold only those nodes, so `modifies Repr` does not by itself rule out writes to nodes outside the chain, and `Remove`, `RemoveAt` and `RemoveDuplicates` promise `Repr <= old(Repr)` rather than an exact footprint. The exact conjunct makes the proofs of the node updates too costly for the verifier.

## Findings

| source | as written | input that shows it | evidently intended | confidence | as-written member | corrected member |
|---|---|---|---|---|---|---|
| linked-list.js:109-118 | `return -1` sits inside the loop, so only the head is compared; an empty list falls through to `undefined` | list 30, 10, 20, 20, 15, 30 and `indexOf(10)`: gives -1 | a full scan returning the first position, or -1 when absent (also on an empty list) | not executed | AsWritten.IndexOfAsWritten | LinkedList.DoublyLinkedList.IndexOf |
| linked-list.js:30-36 | `i` is never initialised, `undefined < index` is false, so the forward walk never moves | list 30, 10, 20, 20, 15, 30 and `#nodeAt(1)`: gives the node of 30 | walk from position 0 up to `index` | not executed | AsWritten.NodeAtAsWritten | LinkedList.DoublyLinkedList.NodeAt |
| linked-list.js:87-90 | the node is unlinked but `length` is not decremented; the node comes from the as-written `#nodeAt`, so a first-half index removes the head | list 30, 10, 20, 20, 15, 30 and `removeAt(3)`: returns 30 in place of 20, and `size()` stays 6 with five values | the node at `index` is removed and `length` drops by one | not executed | AsWritten.RemoveAtAsWritten | LinkedList.DoublyLinkedList.RemoveAt |
| linked-list.js:97-101 | duplicates are unlinked but `length` is not decremented | list 10, 20, 20, 30 and `removeDuplicates()`: returns 1, `size()` stays 4 with three values | `length` drops by one per dropped node | not executed | AsWritten.RemoveDuplicatesAsWritten | LinkedList.DoublyLinkedList.RemoveDuplicates |
