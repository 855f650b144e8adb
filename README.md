# Signals, safe references, mutable trees and integer helpers

This project is a Dafny model of four parts of a CS61A coursework repository:

- **blinker's `Signal`.** Bundled in the Ants project, `Signal` keeps four dictionaries:
  - `receivers`;
  - `_by_sender`, from a sender id to the ids of the receivers connected for it;
  - `_by_receiver`, the reverse index;
  - `_weak_senders`.

  `Namespace.signal` returns a named signal, creating it when needed.
  - `SignalSpec` (`signal_spec.dfy`) states every operation as a function on a `Registry` value, together with the invariant those operations keep: the two indices agree, and every connected receiver is registered.
  - `Signals` (`signal.dfy`) holds the `Signal` and `Namespace` classes. Their methods update the dictionaries in place, with loops where the source has them. Each method is proved to leave exactly the registry that the matching `SignalSpec` function computes. `Signal.Valid()` is the invariant on the object's fields; every public method requires it and keeps it.
- **blinker's `_saferef`.** `SafeRef` (`saferef.dfy`) models `BoundMethodWeakref`:
  - the process-wide table that makes one reference per `(id(self), id(func))` pair;
  - the per-reference list of deletion callbacks;
  - the `remove` callback;
  - the `safe_ref` dispatcher.

  Weak references are liveness flags, and the collection of a referent is an explicit step.
- **The lab 8 `Tree` exercises.** `TreeSpec` (`tree_spec.dfy`) defines trees as values and states each exercise as a function, with lemmas giving what the function means:
  - `cumulative_mul` relabels every node with the product of its subtree;
  - `prune_small` keeps the n smallest branches, in order;
  - `delete` splices out every node labelled x and keeps the order of the rest;
  - `max_path_sum` is the largest root-to-leaf sum when no label is negative;
  - `indented` is an outline of the tree.

  `Lab08` (`lab08.dfy`) holds the `Tree` class, whose objects own disjoint subtrees. Its methods change a tree in place and are proved against those functions.
- **Homework 1.** `Hw01` (`hw01.dfy`) models `square`, `a_plus_abs_b`, `two_of_three`, `largest_factor` and `hailstone`.

`Wrappers` (`wrappers.dfy`) holds the `Option` and `Result` types.

### Modelling choices

- Identities (`id()`) are integers. `ANY_ID` is 0, and a real object's id is never 0 (`ObjId`). Python's `None` has the fixed id `NONE_ID`.
- A defaultdict of sets is a `map<int, set<int>>` in which a missing key stands for the empty set. Every `d[k]` read that inserts a key is modelled with `Touch`.
- Where the prose documentation of the library and its code differ, the model follows the code:
  - `disconnect(receiver, sender)` with a specific sender leaves the receiver in `receivers`, even when it is then connected for nothing (base.py:434-436).
  - The `muted()` context manager sets `is_muted` to `False` on exit. It does not restore the earlier value (base.py:250-256).
  - `has_receivers_for` is only optimistic: an empty set left under a sender's key counts as "has receivers". `SignalSpec.HasReceiversForIsOptimistic` exhibits this.
- `receivers_for(ANY)` hashes the `ANY` symbol, whose id is never a key of `_by_sender`, because `connect` records `ANY` as `ANY_ID`. So for `ANY` only the `ANY_ID` bucket is read (base.py:387-392).
- A weakly held receiver's referent can be collected between operations. This is the explicit step `ReceiverCollected`. Its cleanup callback, `CleanupReceiver`, is a separate step that may run later.
- `max_path_sum` starts its running best at 0 (lab08.py:90-92). With labels at least 0 it returns the largest root-to-leaf sum. With a negative label it can return the sum of a path that stops before a leaf. The model states both cases.
- `BoundMethodWeakref(target, on_delete)`: Python runs `__init__` on whatever `__new__` returned. So for a bound method that is already referenced, the `on_delete` appended by `__new__` (_saferef.py:127) is then overwritten by `deletion_methods = [on_delete]` (_saferef.py:174). `SafeRef.Table.Construct` models both steps, and its contract states the result.

## Model

| member | source | states |
|---|---|---|
| Hw01.Square | HW/hw01/hw01.py:3-4 | the square is non-negative and zero exactly for zero |
| Hw01.APlusAbsB | HW/hw01/hw01.py:7-23 | choosing `sub` for negative b and `add` otherwise yields a + \|b\| |
| Hw01.APlusAbsBExamples | HW/hw01/hw01.py:10-17 | the four doctest results |
| Hw01.Sorted3 | HW/hw01/hw01.py:49 | `sorted([i, j, k])` is ascending and a permutation of the three arguments |
| Hw01.Sorted3Unique | HW/hw01/hw01.py:49 | sorting does not depend on argument order |
| Hw01.TwoOfThreeIsSymmetric | HW/hw01/hw01.py:36-49 | the result is symmetric in i, j, k and equals the sum of the three squares minus the square of the largest |
| Hw01.TwoOfThreeExamples | HW/hw01/hw01.py:40-47 | the four doctest results |
| Hw01.FactorsBelow | HW/hw01/hw01.py:73 | the list comprehension holds exactly the x in range with n % x == 0 and x < n |
| Hw01.FactorsBelowAscending | HW/hw01/hw01.py:73 | the comprehension lists the factors in ascending order, as `range` visits them |
| Hw01.MaxOf | HW/hw01/hw01.py:74 | `max` is an element not below any other, and fails on the empty list |
| Hw01.LargestFactor | HW/hw01/hw01.py:62-74 | for n >= 2 the result is a proper factor of n with no proper factor above it; for n < 2 `max` fails |
| Hw01.LargestFactorExamples | HW/hw01/hw01.py:65-70 | 15 gives 5, 80 gives 40, 13 gives 1; 1 fails |
| Hw01.HailstoneFromIsRun | HW/hw01/hw01.py:104-115 | every finished run starts at n, ends at the first value <= 1, and steps by halving evens and mapping odd k to 3k + 1 |
| Hw01.RunIsHailstoneFrom | HW/hw01/hw01.py:104-115 | conversely every such run is the one computed, given enough steps |
| Hw01.Hailstone | HW/hw01/hw01.py:77-115 | the loop emits exactly the hailstone run from n and returns its length, or reports the step bound hit |
| Hw01.HailstoneExamples | HW/hw01/hw01.py:86-99 | hailstone(10) emits 10 5 16 8 4 2 1 (length 7); hailstone(1) emits 1 |
| TreeSpec.ProductAppend | Lab/lab08/lab08.py:19-21 | the running product over a concatenation is the product of the parts' products |
| TreeSpec.CumulativeMulIsSubtreeProducts | Lab/lab08/lab08.py:1-23 | after `cumulative_mul` every label is the product of all labels of that node's original subtree |
| TreeSpec.CumulativeMulKeepsShape | Lab/lab08/lab08.py:1-23 | `cumulative_mul` changes labels only, never the shape |
| TreeSpec.CumulativeMulExample | Lab/lab08/lab08.py:5-12 | the doctest tree becomes Tree(105, [Tree(15, [Tree(5)]), Tree(7)]) |
| TreeSpec.FirstMaxIndex | Lab/lab08/lab08.py:44 | `max(..., key=label)` picks the first branch with the largest label |
| TreeSpec.RemoveAt | Lab/lab08/lab08.py:45 | `remove` deletes exactly that one entry and keeps the rest in order |
| TreeSpec.PruneBranches | Lab/lab08/lab08.py:43-45 | the while loop leaves min(len, n) branches, all taken from the original ones |
| TreeSpec.PruneSmallBounded | Lab/lab08/lab08.py:26-47 | after `prune_small` no node has more than n branches |
| TreeSpec.PruneBranchesKeepsSmallest | Lab/lab08/lab08.py:43-45 | the kept branches are a subsequence, in order, and none has a larger label than any dropped branch |
| TreeSpec.PruneSmallExample | Lab/lab08/lab08.py:30-37 | the t1 and t2 doctest results |
| TreeSpec.DeleteRemovesAll | Lab/lab08/lab08.py:50-76 | after `delete` the root keeps its label and no node below it carries x |
| TreeSpec.DeleteKeepsOrder | Lab/lab08/lab08.py:69-76 | the surviving labels below the root are the original ones, in preorder, with every x removed |
| TreeSpec.PathSumAtMostMax | Lab/lab08/lab08.py:79-93 | no downward path from the root, stopping at any node, sums to more than `max_path_sum` |
| TreeSpec.MaxPathSumIsPathSum | Lab/lab08/lab08.py:79-93 | `max_path_sum` is the sum along some downward path from the root |
| TreeSpec.MaxPathSumIsBestLeafPath | Lab/lab08/lab08.py:79-93 | with labels at least 0, `max_path_sum` is the sum of some root-to-leaf path and no root-to-leaf path sums to more |
| TreeSpec.MaxPathSumStopsEarly | Lab/lab08/lab08.py:90-93 | with a negative label the running best of 0 can win: Tree(1, [Tree(-5)]) gives 1, which is no root-to-leaf sum |
| TreeSpec.MaxPathSumExample | Lab/lab08/lab08.py:82-84 | the doctest tree gives 11 |
| TreeSpec.DigitsRoundTrip | Lab/lab08/lab08.py:134 | `str` of a label reads back as the label |
| TreeSpec.DecimalStringRoundTrip | Lab/lab08/lab08.py:134 | the same holds for negative labels with a leading minus sign |
| TreeSpec.IndentedIsOutline | Lab/lab08/lab08.py:129-134 | `indented` lists every node in preorder, indented by two spaces per level of depth |
| TreeSpec.ReprLeafExample | Lab/lab08/lab08.py:119-124 | a leaf prints as Tree(label) |
| TreeSpec.ReprInnerExample | Lab/lab08/lab08.py:119-124 | an inner node prints its branches in brackets |
| TreeSpec.ReprExample | Lab/lab08/lab08.py:119-124 | a three-level tree prints with nested brackets and comma-separated branches |
| TreeSpec.ReprReadsBack | Lab/lab08/lab08.py:119-124 | the printed text starts with `Tree(`, the text after it up to the first `,` or `)` reads back as the label, and that character is `)` exactly for a leaf |
| TreeSpec.JoinReprsFront | Lab/lab08/lab08.py:122-123 | the joined branch reprs are the first branch's repr, then `", "` and the join of the rest |
| Lab08.Tree.constructor | Lab/lab08/lab08.py:108-114 | the new tree has the given label and branches, and its value is built from theirs |
| Lab08.Tree.IsLeaf | Lab/lab08/lab08.py:116-117 | a tree is a leaf exactly when it has no branches |
| Lab08.CumulativeMul | Lab/lab08/lab08.py:1-23 | relabels the tree in place exactly as `TreeSpec.CumulativeMul` and keeps it well formed |
| Lab08.ProductOfBranchLabels | Lab/lab08/lab08.py:19-21 | the loop computes the product of the branch labels |
| Lab08.FirstLargest | Lab/lab08/lab08.py:44 | finds the first branch with the largest label |
| Lab08.PruneSmall | Lab/lab08/lab08.py:26-47 | prunes the tree in place exactly as `TreeSpec.PruneSmall` |
| Lab08.DropLargest | Lab/lab08/lab08.py:43-45 | the while loop leaves `TreeSpec.PruneBranches` of the branches |
| Lab08.Delete | Lab/lab08/lab08.py:50-76 | deletes in place exactly as `TreeSpec.Delete`, keeping the tree well formed |
| Lab08.DeleteBranches | Lab/lab08/lab08.py:68-76 | the new branch list splices the children of deleted nodes in place of them |
| Lab08.MaxPathSum | Lab/lab08/lab08.py:79-93 | the loop returns `TreeSpec.MaxPathSum` of the tree |
| Lab08.Indented | Lab/lab08/lab08.py:129-134 | the loops return `TreeSpec.Indented` of the tree |
| SignalSpec.SenderId | Project/ants/libs/flask_package/blinker/base.py:145-149 | `ANY`, and only `ANY`, maps to `ANY_ID`; a real object's identity never collides with it |
| SignalSpec.Touch | Project/ants/libs/flask_package/blinker/base.py:108-113 | a defaultdict read adds the key and changes no lookup |
| SignalSpec.EmptyIsConsistent | Project/ants/libs/flask_package/blinker/base.py:106-114 | a new signal is consistent and has no connection |
| SignalSpec.ConnectAddsPair | Project/ants/libs/flask_package/blinker/base.py:151-153 | `connect` adds exactly the (sender, receiver) connection to both indices and registers the receiver, keeping an earlier registration |
| SignalSpec.ConnectWeakSenders | Project/ants/libs/flask_package/blinker/base.py:156-165 | a weak-sender entry is added only for a weakly referenceable non-`ANY` sender without one, and never replaced |
| SignalSpec.ConnectKeepsConsistent | Project/ants/libs/flask_package/blinker/base.py:116-184 | `connect` keeps the invariant |
| SignalSpec.DisconnectAnyForgets | Project/ants/libs/flask_package/blinker/base.py:429-433 | disconnecting from `ANY` removes the receiver from every index and from `receivers`, touching no other connection |
| SignalSpec.DisconnectOneSender | Project/ants/libs/flask_package/blinker/base.py:434-436 | disconnecting from one sender removes only that pair and leaves `receivers` as it was |
| SignalSpec.DisconnectKeepsConsistent | Project/ants/libs/flask_package/blinker/base.py:428-436 | `_disconnect` keeps the invariant |
| SignalSpec.DisconnectAnyIdempotent | Project/ants/libs/flask_package/blinker/base.py:428-440 | a second disconnect from `ANY` (a late cleanup callback) changes nothing |
| SignalSpec.ConnectThenDisconnect | Project/ants/libs/flask_package/blinker/base.py:405-436 | connect followed by disconnect leaves the receiver unknown to the signal |
| SignalSpec.CleanupSenderForgets | Project/ants/libs/flask_package/blinker/base.py:442-448 | after a sender's cleanup nothing is connected for it, every other connection stays, and `receivers` is untouched |
| SignalSpec.CleanupSenderKeepsConsistent | Project/ants/libs/flask_package/blinker/base.py:442-448 | `_cleanup_sender` keeps the invariant |
| SignalSpec.CollectedKeepsConsistent | Project/ants/libs/flask_package/blinker/base.py:156-165 | the death of a receiver's or a sender's referent keeps the invariant and every registered receiver |
| SignalSpec.NonEmptyBucketsExact | Project/ants/libs/flask_package/blinker/base.py:471-474 | pruning drops exactly the keys holding an empty set and changes no lookup |
| SignalSpec.CleanupBookkeepingKeepsConnections | Project/ants/libs/flask_package/blinker/base.py:450-474 | `_cleanup_bookkeeping` keeps every connection and the invariant and leaves no empty set |
| SignalSpec.ClearState | Project/ants/libs/flask_package/blinker/base.py:476-481 | after `_clear_state` nothing is connected and the invariant holds |
| SignalSpec.PurgeStep | Project/ants/libs/flask_package/blinker/base.py:393-401 | each dead receiver met by the loop extends the purge by one receiver, whatever the order |
| SignalSpec.ReceiversForYieldsExactly | Project/ants/libs/flask_package/blinker/base.py:382-403 | a receiver is yielded exactly when it is registered, alive, and connected for the sender or for `ANY` |
| SignalSpec.CollectedNotYielded | Project/ants/libs/flask_package/blinker/base.py:397-401 | a receiver whose referent was collected is never yielded and, once met, is gone from the signal |
| SignalSpec.CollectedReceiverSkipped | Project/ants/libs/flask_package/blinker/base.py:394-401 | a collected referent is not yielded, before or after its cleanup callback |
| SignalSpec.ReceiversForKeepsConsistent | Project/ants/libs/flask_package/blinker/base.py:382-403 | `receivers_for` keeps the invariant |
| SignalSpec.HasReceiversForKeepsConsistent | Project/ants/libs/flask_package/blinker/base.py:366-380 | the insertion `has_receivers_for` makes keeps the invariant |
| SignalSpec.HasReceiversForFalse | Project/ants/libs/flask_package/blinker/base.py:366-380 | when `has_receivers_for` answers false, `receivers_for` yields nothing |
| SignalSpec.HasReceiversForIsOptimistic | Project/ants/libs/flask_package/blinker/base.py:366-380 | the converse fails: after a specific-sender disconnect the answer is true but nothing is yielded |
| SignalSpec.ExtractSender | Project/ants/libs/flask_package/blinker/base.py:343-364 | more than one sender raises `TypeError` (unchecked under `-O` when nothing is connected), no receivers gives the empty marker, no sender means `None`, else the one sender |
| SignalSpec.SendReachesNobody | Project/ants/libs/flask_package/blinker/base.py:297-300 | a muted signal, or one with nothing connected, reaches nobody and changes nothing, unless the argument check fails |
| SignalSpec.SendKeepsConsistent | Project/ants/libs/flask_package/blinker/base.py:279-309 | `send` keeps the invariant |
| Signals.ScrubReceiver | Project/ants/libs/flask_package/blinker/base.py:431-432 | the loop discards the receiver from every bucket |
| Signals.DiscardSender | Project/ants/libs/flask_package/blinker/base.py:447-448 | the loop discards the sender from the bucket of every receiver listed |
| Signals.DropEmpty | Project/ants/libs/flask_package/blinker/base.py:472-474 | the loop drops exactly the empty buckets |
| Signals.Signal.constructor | Project/ants/libs/flask_package/blinker/base.py:92-114 | a new signal is empty, satisfies the invariant, is not muted, and carries its name |
| Signals.Signal.Connect | Project/ants/libs/flask_package/blinker/base.py:116-184 | updates the dictionaries as `SignalSpec.Connect`, keeps the invariant, and returns the receiver |
| Signals.Signal.Disconnect | Project/ants/libs/flask_package/blinker/base.py:405-420 | updates the dictionaries as `SignalSpec.Disconnect` for the sender's id and keeps the invariant |
| Signals.Signal.DisconnectIds | Project/ants/libs/flask_package/blinker/base.py:428-436 | updates the dictionaries as `SignalSpec.Disconnect` |
| Signals.Signal.ReceiverCollected | Project/ants/libs/flask_package/blinker/base.py:397-399 | a weak receiver's referent dies: its reference now answers `None`; the invariant holds |
| Signals.Signal.CleanupReceiver | Project/ants/libs/flask_package/blinker/base.py:438-440 | the callback disconnects the receiver from `ANY` and keeps the invariant |
| Signals.Signal.SenderCollected | Project/ants/libs/flask_package/blinker/base.py:156-165 | a weakly referenced sender dies; the invariant holds |
| Signals.Signal.CleanupSender | Project/ants/libs/flask_package/blinker/base.py:442-448 | updates the dictionaries as `SignalSpec.CleanupSender` and keeps the invariant |
| Signals.Signal.CleanupBookkeeping | Project/ants/libs/flask_package/blinker/base.py:450-474 | updates the dictionaries as `SignalSpec.CleanupBookkeeping` and keeps the invariant |
| Signals.Signal.ClearState | Project/ants/libs/flask_package/blinker/base.py:476-481 | empties the four dictionaries, which satisfies the invariant |
| Signals.Signal.HasReceiversFor | Project/ants/libs/flask_package/blinker/base.py:366-380 | answers and touches the `ANY_ID` bucket as `SignalSpec.HasReceiversFor`, keeping the invariant |
| Signals.Signal.ReceiversFor | Project/ants/libs/flask_package/blinker/base.py:382-403 | yields each live receiver once, exactly the set of `SignalSpec.ReceiversFor`, and leaves its state, whatever order the ids are visited in; the invariant holds afterwards |
| Signals.Signal.YieldLive | Project/ants/libs/flask_package/blinker/base.py:393-403 | the loop yields the live ids and disconnects the dead ones |
| Signals.Signal.Visit | Project/ants/libs/flask_package/blinker/base.py:394-403 | one iteration: an unregistered id is skipped, a dead one is disconnected, a live one is yielded |
| Signals.Signal.Send | Project/ants/libs/flask_package/blinker/base.py:279-309 | a muted signal returns `[]`; otherwise the error or receivers of `SignalSpec.Send`, each called once and paired with what it returned; the invariant holds afterwards |
| Signals.Signal.MutedSend | Project/ants/libs/flask_package/blinker/base.py:245-256 | a send inside `muted()` reaches nobody, changes no dictionary, and the flag is false afterwards |
| Signals.Namespace.constructor | Project/ants/libs/flask_package/blinker/base.py:518-519 | a new namespace holds no signal |
| Signals.Namespace.SignalFor | Project/ants/libs/flask_package/blinker/base.py:521-531 | returns the stored signal for the name, or stores and returns a new empty, consistent signal with that name |
| Signals.SignalForTwice | Project/ants/libs/flask_package/blinker/base.py:521-526 | repeated calls with one name return the same signal object |
| SafeRef.CalculateKey | Project/ants/libs/flask_package/blinker/_saferef.py:183-190 | the key pairs the ids of the method's object and function |
| SafeRef.CalculateKeyIdentifies | Project/ants/libs/flask_package/blinker/_saferef.py:183-190 | two bound targets share a key exactly when they are the same bound method |
| SafeRef.Invoked | Project/ants/libs/flask_package/blinker/_saferef.py:160-173 | the callbacks run are exactly the callable entries, in order, raising ones included |
| SafeRef.InvokedAppend | Project/ants/libs/flask_package/blinker/_saferef.py:160-173 | one callback's exception does not stop the later ones |
| SafeRef.RunCallbacks | Project/ants/libs/flask_package/blinker/_saferef.py:160-173 | the loop runs exactly the callable entries, in order |
| SafeRef.BoundMethodWeakref.constructor | Project/ants/libs/flask_package/blinker/_saferef.py:129-133 | a new reference has its key, only the given callback, and both referents alive |
| SafeRef.BoundMethodWeakref.Init | Project/ants/libs/flask_package/blinker/_saferef.py:174-179 | `__init__` resets the callbacks to the given one, then re-arms both weak references, or raises `TypeError` (leaving the liveness as it was) when the object cannot be weakly referenced |
| SafeRef.BoundMethodWeakref.Call | Project/ants/libs/flask_package/blinker/_saferef.py:215-230 | the bound method comes back exactly while both object and function are alive, and calling changes nothing |
| SafeRef.BoundMethodWeakref.Equals | Project/ants/libs/flask_package/blinker/_saferef.py:209-213 | equal exactly to another reference with the same key |
| SafeRef.EqualsIsEquivalence | Project/ants/libs/flask_package/blinker/_saferef.py:209-213 | reference equality is reflexive, symmetric and transitive, and never holds against a non-reference |
| SafeRef.Table.New | Project/ants/libs/flask_package/blinker/_saferef.py:113-133 | for a known key, returns the filed reference with the callback appended; otherwise files a fresh reference |
| SafeRef.Table.Construct | Project/ants/libs/flask_package/blinker/_saferef.py:113-181 | one reference per key; after the second `__init__` its callbacks are just the latest one; when the object cannot be weakly referenced it raises `TypeError`, a new key leaves the table unchanged, and a filed reference keeps only the latest callback |
| SafeRef.Table.Remove | Project/ants/libs/flask_package/blinker/_saferef.py:152-173 | takes and clears the callback list, drops the key from the table, then runs the callable callbacks taken |
| SafeRef.Table.SelfCollected | Project/ants/libs/flask_package/blinker/_saferef.py:178 | the object dies: `remove` fires and calls now answer `None` |
| SafeRef.Table.FuncCollected | Project/ants/libs/flask_package/blinker/_saferef.py:179 | the function dies: `remove` fires and calls now answer `None` |
| SafeRef.BothCollected | Project/ants/libs/flask_package/blinker/_saferef.py:152-173 | when both referents die, the second firing of `remove` runs no callback |
| SafeRef.SafeReferenceTo | Project/ants/libs/flask_package/blinker/_saferef.py:46-74 | `TypeError` exactly when the object to be weakly referenced cannot be, leaving the table's entries as they were; otherwise a target without `__self__` gets a plain weak reference, whose callback is `on_delete` only when that is callable; a method bound to an object gets the table's reference, alive and with `on_delete` as its only callback, and only that reference may change; a method whose `__self__` is `None` gets `None` |

## Left out

**blinker `Signal`:**
- Meta-signals `receiver_connected` and `receiver_disconnected`, including the disconnect on `TypeError` (base.py:57-90, 167-183, 422-426). Sending them runs code that cannot be seen here.
- `send_async`, coroutine receivers and `_async_wrapper`. There is no concurrency in the model.
- Receivers that call back into the signal while `send` runs. Receivers are modelled by the pure `invoke` parameter.
- Signal state while `receivers_for` is only partly consumed. The model runs the generator to completion.
- The keyword arguments passed to receivers.
- `connect_via`, `connected_to` and `temporarily_connected_to`. These decorators and context managers only call `connect` and `disconnect`.
- `WeakNamespace`, and the eviction from `WeakValueDictionary`. These depend on the garbage collector.
- `__repr__`, doc strings and `lazy_property`.
- `hashable_identity` and `reference` from `_utilities`, which are not part of this model. Identities are integers, and weak references are liveness flags.
- `Signals.Signal.Connect`: whether the sender can be weakly referenced is the parameter `weakable`.
- `Signals.Signal.Connect`: `weak=True` for a receiver that cannot be weakly referenced raises `TypeError` in `reference`. This is not modelled.
- Order of iteration over a set or dictionary. The model proves its results for every order; it does not fix one.

**blinker `_saferef`:**
- Printing of the traceback from a failing callback. Only "the exception is swallowed and the loop goes on" is modelled.
- `__str__`, `__hash__` and `__nonzero__`. `__nonzero__` is `Call().Some?`.
- The `assert` that a bound target has `__func__`. Every `Method` target has one.
- `SafeRef.Table.Construct`: an object that cannot be weakly referenced is the parameter `weakable`; a function always can be.
- `SafeRef.SafeReferenceTo`: whether the target, or the method's `__self__`, can be weakly referenced is the parameter `weakable`.
- Eviction of dead references from `_all_instances`. A `WeakValueDictionary` depends on the garbage collector.

**Lab 8 trees:**
- Aliasing of subtrees. The model requires each subtree to be owned once, as a tree is.
- `Tree.__str__` (lab08.py:126-127).
- `prune_small` with a negative n. n is a natural number here.
- Doctests not restated as lemmas: the second `cumulative_mul` tree, `t3` of `prune_small` and the three `delete` trees. Their general properties are proved instead.
- The default branch list of `Tree.__init__`. The constructor always takes a branch list.
- Labels of any other type. `Tree` accepts any label, but labels here are integers: `repr` of a string label would be quoted, and `max` and `==` are those of `int`.

**Homework 1:**
- `hailstone` printing. The values it would print are returned as a sequence.
- `Hw01.Hailstone`: the unbounded loop is modelled with a `fuel` bound. It returns None when the bound is hit before reaching 1, because termination of the Collatz iteration is an open problem.
- `a_plus_abs_b_syntax_check` and `two_of_three_syntax_check`. These inspect the source code.
