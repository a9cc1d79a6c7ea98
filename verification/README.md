# HCPP-Trie in Dafny

A model of the header-only C++ prefix tree `trie<_Value>` (trie.h) and its node
class `trie_node<_Value>` (trie_node.h).

A node has three parts:
- a `char` key;
- an optional value;
- a `std::set` of owned children, ordered by key.

The trie keeps a sentinel root with key `'\0'` and offers a map interface:
- `find`, `count`, `contains`, `at`, `operator[]`;
- `insert`, `emplace`, `insert_or_assign`;
- `erase` by key or by position;
- `clear`, `empty`, `size`.

A bidirectional iterator walks the tree in pre-order and stops on nodes that hold a value.

The model is functional:
- **Nodes.** A node is the immutable datatype `Node(key, value: Option<V>, children: seq<Node<V>>)`. The children are strictly sorted by key; this is `SortedKeys`, the `std::set` invariant.
- **Parent pointers** become paths of keys from the root.
- **A trie** is its root.
- **Its abstract content** is the partial map `ValueAt(root, ·)` from paths to values. Every operation is stated against that map.
- **Stored keys in iteration order** are `KeysOf(root)`. They are proved strictly ascending in lexicographic order.
- **The iterator** is the state `Iter(pos, marker)`. `pos` is `End`, the null pointer, or `At(path)`. `marker` is `None` where the source has `'\0'`, and otherwise the key of the child the last step came up from.
- **`++` and `--`.** `step` is modelled literally. The `while` loops of `++` and `--` are `Run`. `Run` is given `2 * NodeCount(root)` steps, and `TrieWalk.RunOnWalk` proves that this is enough from every tour state, which covers every position that `find`, `begin`, `++` and `--` produce.
- **Iteration order.** The proof builds the Euler tour of `step` states over the tree (`TrieWalk.Tour`). It shows that the stops of the tour are exactly the stored keys:
  - ascending, going forward;
  - descending, going backward.
- **`_Value()`** is passed in as the parameter `zero`.
- **Failures.** `at` throws `out_of_range`, modelled as `Fault.OutOfRange`. Calls through a null pointer are `Fault.NullDereference`. Both come back in a `Result`.

Behaviour kept as the code has it:
- `find` reaches valueless junction nodes, and `""` reaches the root. So `Count` and `Contains` report 1 for the empty key and for every prefix of a stored key, not only for stored keys (`Trie.CountMeaning`).
- `get_key` puts the root's `'\0'` in front of the path.
- With a marker that is not a child key, `has_previous_child` steps past `rend()`, which is undefined. The model reads it as "true when the node has children". Reverse iteration needs exactly this reading, because `operator--` asks with `'\0'` after every descent.
- `insert_or_assign("")` assigns through the `end()` position that `insert` returns for the empty key, a null pointer. `InsertOrAssign` returns `Failure(NullDereference)` for it rather than excluding the empty key.
- `erase("")` finds the root and calls through its null parent (see Findings). `EraseKeyAsWritten` returns `Failure(NullDereference)` for it; the corrected `EraseKey` returns 0 and leaves the trie unchanged.
- `size()` counts in an `unsigned int`, so the result is the number of keys modulo 2^32.

## Model

| member | source | states |
|---|---|---|
| TrieNode.GetChild | trie_node.h:125-135 | a found child is one of the node's children and carries the requested key |
| TrieNode.GetChildMeaning | trie_node.h:125-135 | `get_child(k)` finds a child exactly when some child has key `k`, and in a sorted child set that child is the only one |
| TrieNode.FindChildFirst | trie_node.h:127-129 | `find_if` stops at the first child with the key, never after it |
| TrieNode.GetChildAt | trie_node.h:125-135 | in a sorted child set, the key of the child at any position leads back to that very child |
| TrieNode.Lookup | trie.h:434-441 | following `move_down` along a non-empty path ends, if anywhere, at a node whose key is the path's last character |
| TrieNode.GetKey | trie_node.h:176-185 | the key built by climbing the parents is the root's `'\0'` followed by the node's path, so its length is depth + 1 |
| TrieNode.ChildrenKeysSorted | trie_node.h:192-200 | the key list of a sorted child set is strictly ascending, so it has no repeats |
| TrieNode.ChildrenKeysMembership | trie_node.h:192-200 | a character is in the key list exactly when `has_child` holds for it |
| TrieNode.HasChildrenMeaning | trie_node.h:217-220 | `has_children` holds exactly when `has_child` holds for some key |
| TrieNode.HasPreviousChildMeaning | trie_node.h:207-215 | false without children; for a child key, true exactly when a smaller child key exists; true for any other key when there are children |
| TrieNode.InsertSorted | trie_node.h:261-267 | `std::set::insert`: the result is sorted and contains the old children plus the new node; the set is unchanged when the key is taken |
| TrieNode.InsertChild | trie_node.h:254-267 | on an absent key exactly one new leaf with the given key and value joins the children; on a taken key nothing changes; sortedness, key characters and the no-dangling invariant are kept |
| TrieNode.InsertChildGet | trie_node.h:254-267 | after insertion only the inserted key leads to a different child |
| TrieNode.EraseChild | trie_node.h:237-244 | the child with key `k` goes with its whole subtree; the other children, the node's key and value stay; nothing changes when `k` is absent |
| TrieNode.EraseChildGet | trie_node.h:237-244 | after erasure the erased key leads nowhere and every other key leads where it did before |
| TrieNode.ClearChildren | trie_node.h:246-252 | no child is left, and the node's key and value are unchanged |
| TrieNode.AssignValue | trie_node.h:228-231 | the node holds the value and keeps its key and children |
| TrieNode.EraseValue | trie_node.h:233-235 | the node holds no value and keeps its key and children |
| TrieNode.CopyNodeIsEqual | trie_node.h:101-113 | the deep copy has the same key, value and children all the way down |
| TrieKeys.KeysSorted | trie_node.h:66-70 | with children ordered by key, the stored keys in pre-order are strictly ascending in lexicographic order |
| TrieKeys.KeysMembership | trie.h:28-29 | a path is among the listed keys exactly when a value is stored there |
| TrieKeys.LastKeyIsLeaf | trie.h:245-247 | on a trie without dangling nodes the last stored key's node has no children |
| TrieIterator.GetNextChild | trie.h:64-81 | the result is a child key; with no marker it is the first (forward) or last (backward) child key |
| TrieIterator.FindChildUnique | trie.h:70 | in a sorted child set the key search finds each key at its own position |
| TrieIterator.GetNextChildAt | trie.h:64-81 | from the child at position `i`, the next key is that of `i + 1` (forward) or `i - 1` (backward), or none at the end |
| TrieIterator.GetNextChildIsSibling | trie.h:64-81 | going forward the result is the next larger sibling key, and none exactly when the marker is the largest; going backward the mirror image |
| TrieIterator.Step | trie.h:83-94 | a step from a node of the tree lands on a node of the tree or past the end |
| TrieIterator.StepFromSound | trie.h:83-94 | a descent appends one key to the path; a climb drops the last key and remembers it as the marker; past-the-end is reached only by climbing from the root |
| TrieIterator.Run | trie.h:28-31 | the stepping loop stays on nodes of the tree or past the end |
| TrieIterator.Increment | trie.h:26-33 | `++` from a node of the tree lands on a node of the tree or past the end |
| TrieIterator.Decrement | trie.h:39-46 | `--` from a node of the tree lands on a node of the tree or past the end |
| TrieWalk.StepFromRoot | trie.h:83-91 | from the root with no marker, `step` enters the first child in the walking direction, or leaves the tree when there is none |
| TrieWalk.TourWalk | trie.h:83-94 | repeated `step` from the root passes through every state of the tour, two per node, and ends past the end |
| TrieWalk.BlocksWalk | trie.h:83-94 | the lifted tours of the children follow one another under `step`, and the last one leaves the tree |
| TrieWalk.ReturnToNext | trie.h:64-81 | coming back up from a child, `step` enters the neighbouring child in the walking direction |
| TrieWalk.ReturnToEnd | trie.h:92-93 | coming back up from the last child in the walking direction, `step` climbs out of the node |
| TrieWalk.EnterKeepsBackward | trie.h:41-42 | arriving from above at a node with children, the `--` loop never stops there, because `'\0'` is no child key |
| TrieWalk.EntryStop | trie.h:28-29 | entering a node from above stops on its value, except going backward into a node with children |
| TrieWalk.ReturnStop | trie.h:41-42 | returning from a child stops on the node's value only going backward from its smallest child |
| TrieWalk.ForwardYields | trie.h:26-33 | the stops of the forward tour are exactly the stored keys, in ascending order |
| TrieWalk.BackwardYields | trie.h:39-46 | the stops of the backward tour are exactly the stored keys, in descending order |
| TrieWalk.RunOnWalk | trie.h:28-31 | along the tour, the `while` loop reaches the next stop within its step budget |
| Trie.New | trie.h:165-167 | the new trie is well-formed and stores no key |
| Trie.Copy | trie.h:169-172 | the copy is equal to the source |
| Trie.Find | trie.h:408-417 | the node at path `key` when every character has a child edge, valued or not; end as soon as one is missing |
| Trie.CountMeaning | trie.h:387-394 | `count` is 1 for `""` and for every prefix of a stored key, junction nodes included; on a well-formed trie it is 0 for every other key |
| Trie.StoredKeysAreContained | trie.h:419-422 | every stored key is contained; on a well-formed trie `contains` holds exactly for `""` and the prefixes of stored keys |
| Trie.AtKey | trie.h:184-190 | out of range exactly when `find` fails; otherwise the value slot of the node reached, possibly empty |
| Trie.Insert | trie.h:298-308 | no-op with `(end, false)` for `""`; otherwise true exactly when the key held no value, and then it holds `v`; every other value stays; the position is the key's node, which exists afterwards |
| Trie.InsertShape | trie.h:331-366 | insertion of a key of key characters keeps a valid trie valid and never leaves a dangling node |
| Trie.Emplace | trie.h:324-329 | as insert: no-op with `(end, false)` for `""`; otherwise stores the given value, or `_Value()` when none is given, exactly when the key held no value; every other value and the root stay; the position is the key's node, which exists afterwards |
| Trie.InsertOrAssign | trie.h:316-322 | `""` dereferences end; otherwise the key holds `v` afterwards, the flag says whether it held nothing before, and nothing else changes |
| Trie.InsertOrAssignShape | trie.h:316-322 | `insert_or_assign` keeps a valid trie valid and leaves no dangling node |
| Trie.Index | trie.h:208-214 | on an existing node the slot with no change at all; on a missing path `_Value()` is inserted and its slot returned |
| Trie.IndexAssign | test.cpp:97-101 | `t[key] = v` leaves `v` at `key` and every other value as it was |
| Trie.IndexShape | trie.h:208-214 | `operator[]` and assignment through it keep a valid trie valid and leave no dangling node |
| Trie.EraseKey | trie.h:377-384 | 0 and no change when `find` fails or the key is empty; otherwise 1, with exactly that key's value gone |
| Trie.EraseKeyShape | trie.h:464-474 | erasure keeps a valid trie valid and leaves no valueless, childless node below the root |
| Trie.EraseKeyAsWritten | trie.h:456-474 | as written: every value at or below the key goes; `""` and an emptied root call through a null parent |
| Trie.EraseKeyAsWrittenFails | trie.h:466-471 | as written, erase crashes exactly when the key is found and is `""` or a prefix of every stored key; otherwise the trie stays well-formed |
| Trie.IsEmpty | trie.h:274-276 | an empty trie holds nothing except possibly at the root |
| Trie.EmptyMeansNoKeys | trie.h:274-276 | on a well-formed trie, `empty()` holds exactly when no key is stored |
| Trie.Clear | trie.h:294-296 | after `clear()` the trie is empty, every non-empty path holds nothing, and the root is kept |
| TriePaths.SetValueAtValues | trie_node.h:228-231 | assignment at a path changes the slot at that path alone |
| TriePaths.EmplaceNodeValues | trie.h:331-366 | emplacer stores `v` exactly when the key held no value, and changes no other key |
| TriePaths.EmplaceLastValues | trie.h:351-363 | at the last character: an existing valueless node takes `v`, a missing one is created with `v`, and a valued one is left alone |
| TriePaths.EmplaceNodeOrdered | trie.h:443-454 | creating the nodes along a key of key characters keeps the tree ordered |
| TriePaths.EmplaceNodeNoDangling | trie.h:443-454 | every node emplacer creates lies on the way to the new value |
| TriePaths.RemoveValueValues | trie.h:464-474 | the corrected erase at a path removes that path's value alone |
| TriePaths.RemoveValueShape | trie.h:464-474 | the corrected erase prunes every ancestor left valueless and childless, up to the root |
| TriePaths.RemoveSubtreeValues | trie.h:456-462 | as written, every value at or below the erased path goes |
| TriePaths.RemoveSubtreeShape | trie.h:464-474 | as written, the upward sweep leaves no dangling node below the root |
| TrieTraversal.Begin | trie.h:218-223 | `begin()` is the smallest stored key, or end when there is none |
| TrieTraversal.ForwardIteration | trie.h:26-33 | from `begin()`, the `k`-th `++` is at the `k`-th stored key, each key once and ascending, and then at end |
| TrieTraversal.NextKey | trie.h:26-33 | `++` from a stored key goes to the next larger stored key, or to end after the last |
| TrieTraversal.Size | trie.h:278-284 | the count of `++` steps from `begin()` to `end()` is the number of stored keys modulo 2^32 |
| TrieTraversal.BackwardFromRoot | trie.h:39-46 | repeated `--` from the root visits the stored keys in descending order, then the null position |
| TrieTraversal.RBegin | trie.h:242-249 | `rbegin()` is the largest stored key, or the null position when there is none |
| TrieTraversal.RBeginAsWritten | trie.h:242-249 | as written, with no children the root itself comes back |
| TrieTraversal.RBeginIsLeaf | trie.h:245-247 | the loop of `rbegin()` stops after one `--`, because the last key's node has no children |
| TrieTraversal.BackwardIteration | trie.h:39-46 | from `rbegin()`, the `k`-th `--` is at the `k`-th key from the end, the reverse of forward order, and then at the null position |
| TrieTraversal.EraseIter | trie.h:368-375 | the corrected `erase(pos)` removes the value at `pos` alone |
| TrieTraversal.EraseIterNext | trie.h:368-375 | erasing the `m`-th key through its position removes exactly that key and keeps the trie well-formed; it returns the next key's position, still valid, or end |
| TrieTraversal.EraseKeyKeys | trie.h:377-384 | erasing a stored key returns 1 and removes exactly that key from the iteration, so `size()` drops by one |
| TrieTraversal.EraseIterAsWritten | trie.h:368-375 | as written, `erase(end())` and erasing at the root fail; otherwise the result is `++pos` taken before the removal |
| TrieFindings.EraseKeyLosesExtension | trie.h:456-462 | erasing "a" as written from a trie with "a", "ab" and "b" also loses "ab" |
| TrieFindings.EraseKeyKeepsExtension | trie.h:377-384 | the corrected erase of "a" leaves "ab" and "b" |
| TrieFindings.EraseOnlyKeyCrashes | trie.h:466-471 | erasing the only key as written calls through the root's null parent; the corrected erase empties the trie |
| TrieFindings.EraseEmptyKeyCrashes | trie.h:456-462 | `""` is found, and erasing it as written calls through the root's null parent on every trie; the corrected erase returns 0 and changes nothing |
| TrieFindings.EraseIterDangles | trie.h:368-375 | erasing at "a" as written returns the position of "ab", a node it has just unlinked |
| TrieFindings.EraseIterKeepsNext | trie.h:368-375 | the corrected erase at "a" returns "ab", still in the trie |
| TrieFindings.RBeginOnEmpty | trie.h:242-249 | as written, `rbegin()` of a new trie is the root, which has no value; corrected, it is the null position |

## Left out

- `print_tree`, `print_tree_from_this` and `operator<<`: console output only.
- `max_size`: it depends on `sizeof(trie_node)` and on platform integer widths.
- Raw memory:
  - `new` and `delete`, the destructors, pointer identity and the parent pointers; paths stand in for the pointers;
  - the leak when `insert_child` meets a taken key, which the model shows as the unchanged node;
  - the implicit shallow copy assignment.
- Dead code:
  - the private constructor `trie_node(base, full_key, value)`;
  - the declared but undefined `make_trie_node`;
  - the null guard of `move_up`, which the model only uses as the parent step inside the erase sweep.
- The `std::reverse_iterator` wrapper of `rbegin()` and `rend()`. The model gives the underlying iterator that its `base()` returns, and the `--` walk on it.
- The `const` overloads (`cbegin`, `cend`, `crbegin`, `crend`, const `at` and `find`): they behave as the non-const ones, so each operation is modelled once.
- `operator[](const std::string&)` and `insert_or_assign(const std::string&, _Value&&)`. The first assigns a pair to an iterator; the second calls itself. Neither is instantiated, so only the rvalue overloads are modelled.
- Keys with characters outside 1..127. `Valid` asks for key characters, `IsKeyChar`, because `'\0'` is both the root key and the "from above" marker, and the signedness of `char` is implementation-defined. The operations accept any key, but their shape lemmas keep `Valid` only for key-character keys.
- Trie.InsertOrAssign: assigns `v`, whereas the source assigns the moved-from `value` after `insert` has moved it. The two agree for trivially copyable values such as `int`.
- TrieTraversal.RBegin: models the loop of `rbegin()` as a single `--`. `RBeginIsLeaf` shows that the loop stops there on well-formed tries; on other tries further iterations are not modelled.
- TrieIterator.Run: bounded by `2 * NodeCount(root)` steps. `RunOnWalk` shows the bound suffices from every tour state; from other states, such as an iterator with an arbitrary marker, the bound is not shown to suffice.
- TrieIterator.GetNextChild: going forward with a marker that is not a child key, the source increments `end()`, which is undefined; the model returns "no child".
- Trie.IndexAssign: with the empty key it writes the root's own slot. This breaks `Valid`, so `IndexShape` states validity only for non-empty keys.
- `operator==` of the iterator is `SamePosition`, which compares positions and ignores the marker. No property is stated about it.
- Concurrency: there is none in the source.

## Findings

| source | as written | input that shows it | evidently intended | confidence | as-written member | corrected member |
|---|---|---|---|---|---|---|
| trie.h:456-462 | `erase_at` unlinks the key's node together with its whole subtree | a trie with "a" -> 1, "ab" -> 2, "b" -> 3; `erase("a")` | only the value of "a" goes, so "ab" stays stored | medium, not executed | Trie.EraseKeyAsWritten, TrieFindings.EraseKeyLosesExtension | Trie.EraseKey, TrieFindings.EraseKeyKeepsExtension |
| trie.h:466-471 | `release_path` keeps climbing while the node is valueless and childless, with no check for the root | a trie holding only "a"; `erase("a")` empties the root, and the loop then calls `erase_child` through the root's null parent | the sweep stops at the root | high, not executed | Trie.EraseKeyAsWritten, TrieFindings.EraseOnlyKeyCrashes | Trie.EraseKey, TrieFindings.EraseOnlyKeyCrashes |
| trie.h:456-462 | `erase_at` on the root, reached by `erase("")` because `find("")` succeeds, calls `erase_child` through `move_up(root)`, a null pointer | any trie; `erase("")` | `erase("")` returns 0 and changes nothing, as for any key that holds no value | medium, not executed | Trie.EraseKeyAsWritten, TrieFindings.EraseEmptyKeyCrashes | Trie.EraseKey, TrieFindings.EraseEmptyKeyCrashes |
| trie.h:368-375 | `erase(pos)` returns `++pos` computed before the removal, which can lie inside the removed subtree | a trie with "a", "ab", "b"; `erase(find("a"))` returns the position of "ab", which it has just deleted | the position of the next key that survives | medium, not executed | TrieTraversal.EraseIterAsWritten, TrieFindings.EraseIterDangles | TrieTraversal.EraseIter, TrieFindings.EraseIterKeepsNext |
| trie.h:242-249 | `rbegin()` returns the root's position when the root has no children | a new, empty trie; `rbegin() != rend()`, and a reverse loop reads the root's missing value | `rbegin() == rend()` on an empty trie | high, not executed | TrieTraversal.RBeginAsWritten, TrieFindings.RBeginOnEmpty | TrieTraversal.RBegin |
