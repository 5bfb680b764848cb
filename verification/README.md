# Verification of the OONF core

A Dafny model of the data structures and protocols underneath the OLSRv2 daemon, with proofs
of what they promise. Each file models one component in its own form: what the source changes
in place is a class with methods, loops are loops, and each method is proved against a
specification on values, about which the properties of whole runs are then shown.

| files | component |
|---|---|
| `list.dfy`, `avl_node.dfy`, `avl_shape.dfy`, `avl_order.dfy`, `avl_tree.dfy` | the AVL tree threaded by a circular list, with groups of equal keys |
| `duplicate_set.dfy` | duplicate detection with a sliding window over wrapping sequence numbers |
| `plugin.dfy`, `plugin_start.dfy`, `plugin_cleanup.dfy`, `subsystem.dfy`, `subsystem_runs.dfy` | starting plugins with their dependencies, and cleaning them up |
| `strarray.dfy`, `cfg_db.dfy`, `cfg_delta.dfy` | packed string arrays, the configuration database and its change notification |
| `isonumber.dfy` | printing and parsing fixed-point numbers |
| `layer2_state.dfy`, `layer2.dfy`, `layer2_events.dfy` | the layer-2 database, the removal of one originator's data and what it tells the listeners |
| `autobuf.dfy`, `packet_socket.dfy` | the growing byte buffer and the packet backlog on it |
| `netaddr.dfy`, `netaddr_text.dfy` | address prefixes and the text of addresses |
| `json.dfy` | JSON output and a reader for it |
| `word.dfy`, `sequences.dfy`, `option.dfy` | shared vocabulary |

`dafny verify dfyconfig.toml` checks the whole project.

## How the source is rendered

- A tree node carries its list links itself, and the head of the list is a node of its own that
  is never in the tree. The ghost field `shape` of a tree is the tree of equal-key groups that
  the pointers spell out; `Order()` is the list. `count` is the length of the list modulo 2^32.
  Code that the source repeats is written once: the relinking of a parent (`ReplaceChild`), the
  choice between single and double rotation (`FixLeft`, `FixRight`), and the replacement of a
  node by its successor or its first follower. A comparator must be a total preorder.
- In the duplicate set, `x & mask` with the mask 2^N-1 is the remainder modulo 2^N, and a
  history word is a number whose bits are read by `Words.Bit`. The tree of entries is a map.
- A plugin's callbacks, and the reload of its library, succeed or fail as an arbitrary function
  of the attempt says. `fold` maps names to what the tree compares. The order of the tree is an
  arbitrary sequence. Ghost stamps record when plugins were started.
- Numbers are mathematical integers; where the C types wrap around, the model says so (`% 2^64`,
  `% 2^32`, 16-bit lengths, the cast to `int`). Subset types show where nothing wraps.
- In the layer-2 database, objects hang below each other by back pointers; the operations are
  proved against functions on the contents, of which the properties are shown. Interfaces,
  neighbors and destinations are looked up by linear search, and a new one comes last.
- The configuration database is a map from section (type and optional name) to a map of value
  lists; names stand for themselves up to letter case. Loops over its trees take the elements in
  any order. The comparison of packed arrays is the comparison of lists, by `StringArrays.Compare`.
- Bytes of an address are read as one number with the first byte on top, so that the first p bits
  are a quotient and masking is division; `inet_ntop`, `inet_pton` and the netmask parser are
  arbitrary functions.
- In JSON texts a character stands for one byte.

## Where code and description differ

The model follows the code.

- `list_merge` puts the second list in front of the first, not behind it.
- `oonf_duplicate_test`, and a call that is not to record, change the counter of too-old numbers
  and can reset the entry (`TestOnlyUnchanged`, `TestOnlyResets`). A number is too old from 32
  behind the newest on, not from more than 32. A verdict on the current number does not end a row
  of too-old ones.
- `_init_plugin` finds dependencies without regard to case, `_cleanup_plugin` compares them
  exactly. A dependency in another spelling can be cleaned up under a plugin that goes on running
  (`Misspelt`; `UnloadPlugin` and `ClosedIff` say exactly when), or before one that goes with it,
  in an unload (`Transient`) and in the final loop (`FinalLoop`; `CleanupFirstIff` and
  `TreeFirstIff` say exactly when). A plugin that joins under the lost name can close a circle of
  names, and then a cleanup never returns (`Revived`; `ReturnsIff` and `TreeReturnsIff` say exactly
  when). A failed start leaves marks on the path to the failure, and a later start that meets one
  is reported as circular (`StaleMark`; `CallInit` says exactly when 1 is returned).
- `isonumber_to_u64` checks only the multiplication by the prefix for overflow, and accepts a text
  with a minus sign (`ParsedIff`, `WrapsUnnoticed`, `NegativeAccepted`). `isonumber_to_s64` checks
  no range, accepts two signs, and applies a minus behind blanks to the whole part alone
  (`SignedIff`, `SignedWraps`, `TwoSigns`).
- With 19 fractional digits the digit loop of the printer can wrap around (`WrittenIff`,
  `WrapsInPrint`), and from 20 on the unit itself does.
- A number printed with a prefix is not read back when it shows more fractional digits than the
  parser was told of, or when the prefix is a small one (`PrefixedIff`, `PrefixRefused`).
- The range loop of `avl.h` that tolerates removals does not find its end when the last node of
  the range is removed (`StopIff`).
- `abuf_pull` can leave no room for the terminating zero.
- `oonf_packet_send` cuts the length of a packet to 16 bits (`FramingIff`) and ignores failing
  allocations (`Send`).
- `oonf_layer2_net_add` looks a name up before it is cut to size and ignores that the tree then
  may not take it (`NetworkAdd`).
- `cfg_db_set_entry_ext` does not bring back the values it was to replace when it fails
  (`SetEntry`).
- With a default section, a handler can hear of the default name twice (`DefaultTwiceIff`).
- A prefix length is cut to 32 bits before it is checked, and may have a minus sign
  (`WrongLengthIff`, `PrefixWraps`, `LengthBehind`).
- `netaddr_from_string` refuses IPv6 texts with an IPv4 address behind six groups
  (`InternetSixIff`, `SixGroups`).
- `_json_printvalue` prints 0 for an empty value that is not a string (`EmptyValue`).

## Model

| member | source | states |
|---|---|---|
| `Rings.InitHead` | src-api/common/list.h:72-75 | A head alone is the ring of no elements. |
| `Rings.ListAdd` | src-api/common/list.h:92-98 | Putting an element between two neighbours of a ring inserts it at exactly that place of the sequence; nothing else moves. |
| `Rings.ListRemove` | src-api/common/list.h:145-159 | Unlinking an element takes exactly it out of the sequence and clears its links. |
| `Rings.ListMerge` | src-api/common/list.h:210-222 | All elements of the second list come in front of those of the first, and the second head is left with an empty ring (the comment in the source says behind). |
| `AvlTrees.AvlTree.constructor` | src-api/common/avl.c:77-87 | A new tree is valid and holds nothing. |
| `AvlTrees.AvlTree.Find` | src-api/common/avl.c:96-108 | The first node of the list whose key is equal, or none exactly when the key falls into a gap of the list. |
| `AvlTrees.AvlTree.FindLessEqual` | src-api/common/avl.c:118-150 | The last node of the list with a key at most the given one, followers included, or none when all keys are larger. |
| `AvlTrees.AvlTree.FindGreaterEqual` | src-api/common/avl.c:160-192 | The first node of the list with a key at least the given one, or none when all keys are smaller. |
| `AvlTrees.AvlTree.FindLast` | src-api/common/avl.c:200-212 | The last node of the equal-key group that a tree node heads. |
| `AvlTrees.AvlTree.Insert` | src-api/common/avl.c:222-292 | The tree stays valid (search order, parent pointers, balance factors, list, flags, count); the node enters the list at its one sorted position, or directly behind the head of its group when duplicates are allowed; otherwise nothing changes and -1 is returned. |
| `AvlTrees.AvlTree.Remove` | src-api/common/avl.c:299-344 | The tree stays valid, exactly that node leaves the list, and its links are cleared. |
| `AvlTrees.AvlTree.RemoveFollower` | src-api/common/avl.c:299-344 | A follower leaves its group and the tree of heads is untouched. |
| `AvlTrees.AvlTree.RemovePromoting` | src-api/common/avl.c:299-344 | When a head with followers leaves, its first follower heads the group in its place. |
| `AvlTrees.AvlTree.FindRec` | src-api/common/avl.c:355-379 | The descent ends at a node next to the place of the key, with all keys on the left of it smaller and on the right of it larger, after at most as many steps as the subtree is high. |
| `AvlTrees.AvlTree.SearchDepth` | src-api/common/avl.c:355-379 | The number of groups bounds the height from below by Fibonacci numbers and hence the depth of a search by twice their logarithm. |
| `AvlShapes.FibonacciBound` | src-api/common/avl.c:355-379 | A balanced tree of height h has at least Fib(h+2)-1 heads. |
| `AvlTrees.AvlTree.RotateRight` | src-api/common/avl.c:386-425 | The pointers rewritten by a right rotation give the rotated tree, with parent pointers and the two recomputed balance factors exact. |
| `AvlTrees.AvlTree.RotateLeft` | src-api/common/avl.c:432-471 | The mirror image of the right rotation. |
| `AvlShapes.RotROrder` | src-api/common/avl.c:386-425 | A right rotation keeps the in-order sequence. |
| `AvlShapes.RotLOrder` | src-api/common/avl.c:432-471 | A left rotation keeps the in-order sequence. |
| `AvlTrees.AvlTree.FixLeft` | src-api/common/avl.c:478-524 | A node two levels too high on its left is balanced by one or two rotations, its order is kept, and the height sinks exactly when the left child was not even. |
| `AvlTrees.AvlTree.FixRight` | src-api/common/avl.c:478-524 | The mirror image for the right side. |
| `AvlShapes.GrowStep` | src-api/common/avl.c:478-524 | What a balance factor after the addition says about the subtree above one that grew by a level. |
| `AvlShapes.ShrinkStep` | src-api/common/avl.c:572-632 | What a balance factor after the subtraction says about the subtree above one that lost a level. |
| `AvlTrees.AvlTree.PostInsert` | src-api/common/avl.c:478-524 | From a subtree that grew by one, the upward recursion ends with the whole tree balanced and its order kept; it terminates on the path to the root. |
| `AvlTrees.AvlTree.PostRemove` | src-api/common/avl.c:572-632 | From a subtree that lost one level, the upward recursion ends with the whole tree balanced and its order kept. |
| `AvlTrees.AvlTree.RemoveWorker` | src-api/common/avl.c:664-799 | Taking a head out of the tree, with the successor swapped in after its own recursive removal has rebalanced, leaves a balanced tree with exactly that head missing from the order. |
| `AvlTrees.AvlTree.FollowerIff` | src-api/common/avl.c:222-344 | In every valid tree a node carries the follower flag exactly when the node before it in the list has an equal key. |
| `AvlTrees.AvlTree.Neighbours` | src-api/common/avl.c:533-565 | The links of the i-th node of the list lead to its neighbours, and to the head at both ends. |
| `AvlTrees.AvlTree.VisitKey` | src-api/common/avl.h:490-493 | The loop over one key visits exactly the nodes with an equal key, each once and in list order. |
| `AvlTrees.AvlTree.RangeIsGroup` | src-api/common/avl.h:356-359 | The range from the first equal node to the last node at most the key is exactly the group of that key. |
| `AvlTrees.AvlTree.EachInRange` | src-api/common/avl.h:508-511 | The loop that tolerates the removal of its current node visits exactly the range, in order, and leaves the list without what its body has removed, when the last node of the range stays. |
| `AvlTrees.AvlTree.StopIff` | src-api/common/avl.h:508-511 | Some place of the list lies behind the last node of the range, which is how the loop knows its end, if and only if that node is still in the tree. |
| `AvlTrees.AvlTree.EachNode` | src-api/common/avl.h:545-548 | The same loop over the whole tree, which asks for the last node each time: every node is visited once and in order, whatever the body removes. |
| `AvlTrees.AvlTree.RemoveAll` | src-api/common/avl.h:587-593 | The tree ends empty; handed out, once each and in order, are the first nodes of the list, as many as the 32-bit counter says, which is every node of fewer than 2^32. |
| `DuplicateSets.DuplicateSet.constructor` | src-plugins/subsystems/oonf_duplicate_set.c:138-148 | A new set is valid and knows no key. |
| `DuplicateSets.ModulusOf` | src-plugins/subsystems/oonf_duplicate_set.c:106-148 | The four widths wrap around at 2^8, 2^16, 2^32 and 2^64. |
| `DuplicateSets.DuplicateSet.SeqnoDifference` | src-plugins/subsystems/oonf_duplicate_set.c:272-288 | For each of the four widths the result is the one representative of the difference in the signed range of that width. |
| `DuplicateSets.RepUnique` | src-plugins/subsystems/oonf_duplicate_set.c:272-288 | There is only one number that is congruent to the difference and in the signed range. |
| `DuplicateSets.DuplicateSet.Test` | src-plugins/subsystems/oonf_duplicate_set.c:301-358 | The update of history, current and counter refines one step on unbounded positions, verdict included. |
| `DuplicateSets.DuplicateSet.EntryAdd` | src-plugins/subsystems/oonf_duplicate_set.c:176-229 | A new key starts with its first number, or is answered as too old without memory; a known one takes one recording step; other keys are untouched. |
| `DuplicateSets.DuplicateSet.TestOnly` | src-plugins/subsystems/oonf_duplicate_set.c:242-270 | An unknown key is reported as first and stays unknown; a known one takes one step that does not record. |
| `DuplicateSets.DuplicateSet.Expire` | src-plugins/subsystems/oonf_duplicate_set.c:394-418 | A key that times out is forgotten and no other is touched. |
| `DuplicateSets.AcceptedIff` | src-plugins/subsystems/oonf_duplicate_set.c:301-358 | Without a reset a number is accepted exactly when its position is ahead of the window or inside it and not seen, and the set of seen positions grows by exactly it. |
| `DuplicateSets.AcceptedOnce` | src-plugins/subsystems/oonf_duplicate_set.c:176-229 | Over every run, no position is accepted twice between two resets, the acceptance by the reset that opens the interval included. |
| `DuplicateSets.ByDifference` | src-plugins/subsystems/oonf_duplicate_set.c:301-358 | For every width and every state, by the signed difference to the current number: from 1 on the number is the newest; from -31 to 0 it is new and gets recorded, or is a duplicate; at -32 or less it is too old, and the ninth such in a row resets. A call that does not record gives the same verdicts. |
| `DuplicateSets.HistoryBits` | src-plugins/subsystems/oonf_duplicate_set.c:318-356 | Bit i of the history word says whether the position i behind the newest one was seen, for i from 0 to 31; the counter never exceeds 8. |
| `DuplicateSets.OutOfOrder` | src-plugins/subsystems/oonf_duplicate_set.c:301-358 | A number 1 to 31 behind the current one that was not seen is new, is recorded, and is a duplicate from then on. |
| `DuplicateSets.SeenGrows` | src-plugins/subsystems/oonf_duplicate_set.c:301-358 | Over every run without a reset, seen positions stay seen and the newest position never moves back. |
| `DuplicateSets.StrikesAreTrailing` | src-plugins/subsystems/oonf_duplicate_set.c:301-358 | The counter is the number of too-old verdicts at the end of the run, looking through verdicts on the current number. |
| `DuplicateSets.ResetExactly` | src-plugins/subsystems/oonf_duplicate_set.c:301-358 | A reset happens exactly at the ninth too-old number of such a row. |
| `DuplicateSets.Readmitted` | src-plugins/subsystems/oonf_duplicate_set.c:301-358 | A sender that restarts with old numbers is let in again at the ninth of them, with a fresh history. |
| `DuplicateSets.TestOnlyUnchanged` | src-plugins/subsystems/oonf_duplicate_set.c:242-270 | A test that is not to record leaves the entry alone exactly when the number is the current one, or is not too old while no strikes are pending (the description promises it always). |
| `DuplicateSets.TestOnlyResets` | src-plugins/subsystems/oonf_duplicate_set.c:242-270 | A concrete entry that such a test resets. |
| `Subsystems.Core.Hook` | src-api/core/oonf_subsystem.c:244-257 | A plugin with a new name joins the tree, one with a known name does not; what runs keeps running on present dependencies; that whatever a running plugin names has been running for longer stays true exactly if no running plugin names the newcomer, which holds whenever the running ones have what they need. |
| `Subsystems.Core.InitPlugin` | src-api/core/oonf_subsystem.c:395-459 | Terminates on every dependency graph; starts each new plugin once, with its dependencies before it and only if its callback and reload succeed, and on success nothing the plugin does not need; a failure comes with the path that leads to a mark, a missing dependency or a failing callback, and with the exact set of marks left behind. |
| `Subsystems.Core.CallInit` | src-api/core/oonf_subsystem.c:343-347 | Each end of a start with the init callbacks it has made and the marks it leaves: up, circular with the path into a mark or into itself, a dependency that is not there, or a reload or callback that failed while everything below was running. When all that can be needed is present, the callbacks succeed and what runs is closed and without cycle, 1 is returned if and only if some path from the plugin runs into a mark or into itself; on a group without cycles, if and only if some path of two plugins or more ends at a marked one. Without marks such a group starts with 0. The running plugins stay closed under dependencies and in order. |
| `SubsystemRuns.StaleMark` | src-api/core/oonf_subsystem.c:395-459 | After a callback has failed, the next start answers 1 although the dependencies have no cycle. |
| `PluginStarts.StartKeepsRanked` | src-api/core/oonf_subsystem.c:395-459 | If the running plugins can be ranked by their dependencies, they still can after a start. |
| `PluginStarts.CycleNeverUp` | src-api/core/oonf_subsystem.c:395-459 | So no plugin whose dependencies lead into a cycle ever comes up. |
| `PluginStarts.StartKeepsClosed` | src-api/core/oonf_subsystem.c:395-459 | Starting plugins in dependency order keeps the running ones closed under dependencies. |
| `Plugins.ClosedReaches` | src-api/core/oonf_subsystem.c:395-459 | When the running plugins are closed, everything reachable from a running one runs. |
| `PluginStarts.StartablePath` | src-api/core/oonf_subsystem.c:395-459 | In a group ranked by its dependencies no path returns to a plugin it has passed. |
| `PluginStarts.NeededWithin` | src-api/core/oonf_subsystem.c:395-459 | What a start needs stays inside a group closed under dependencies. |
| `Subsystems.Core.CleanupPlugin` | src-api/core/oonf_subsystem.c:461-486 | In any state from which the recursion returns it cleans up what the recursion on values does, in that order: the plugin and what names it, directly or through others, each once and after everything running that names it; and after everything running that the start would find asking for it, when whatever asks leads to it by exact names. |
| `Subsystems.Core.UnloadPlugin` | src-api/core/oonf_subsystem.c:495-517 | Refused without support unless final; else taken out of the tree after cleaning up exactly the plugins doomed before the call, those from which running plugins lead to it by exact names; the others still have what they need if and only if every running plugin that finds a doomed one among its dependencies was itself doomed. |
| `PluginCleanups.CleanedIff` | src-api/core/oonf_subsystem.c:461-486 | A cleanup takes down a plugin if and only if a chain of running plugins, each naming the next exactly, leads from it to the one cleaned up. |
| `PluginCleanups.ReturnsIff` | src-api/core/oonf_subsystem.c:461-486 | The recursion returns if and only if no running plugin that names itself in a circle leads to the plugin cleaned up. |
| `PluginCleanups.TreeReturnsIff` | src-api/core/oonf_subsystem.c:139-148 | The final loop returns if and only if no running plugin names itself in a circle. |
| `PluginCleanups.BeforeIff` | src-api/core/oonf_subsystem.c:461-486 | One plugin goes before another in every order in which the same plugins could go, if and only if running plugins lead from it to the other by exact names. |
| `PluginCleanups.FirstIff` | src-api/core/oonf_subsystem.c:461-486 | Every such order takes dependents first, in the sense of the start, if and only if whatever asks for one of the plugins leads to it by exact names. |
| `PluginCleanups.CleanupFirstIff` | src-api/core/oonf_subsystem.c:461-486 | The recursion takes dependents first in whatever order the tree has its plugins, if and only if whatever asks for a plugin that goes leads to it by exact names. |
| `PluginCleanups.TreeFirstIff` | src-api/core/oonf_subsystem.c:139-148 | The same for the final loop and all running plugins. |
| `PluginCleanups.ClosedIff` | src-api/core/oonf_subsystem.c:461-486 | After a cleanup the running plugins are closed under dependencies if and only if doom spreads along every dependency the start would find. |
| `PluginCleanups.ExactCleanupClosed` | src-api/core/oonf_subsystem.c:461-486 | With all dependencies spelt like the names they find, a cleanup keeps the running plugins closed and follows the dependencies the start has used. |
| `SubsystemRuns.Misspelt` | src-api/core/oonf_subsystem.c:395-517 | A whole run: a plugin is started with a dependency in another case, the dependency is unloaded, and the plugin runs on without it (the start compares without regard to case, the cleanup does not). |
| `SubsystemRuns.Transient` | src-api/core/oonf_subsystem.c:395-517 | A whole run in which everything asking for a plugin goes with it, but one of its dependencies goes while the plugin is still running. |
| `SubsystemRuns.FinalLoop` | src-api/core/oonf_subsystem.c:139-148 | A whole run in which the final loop cleans up a dependency before the plugin that asks for it in another spelling. |
| `SubsystemRuns.Revived` | src-api/core/oonf_subsystem.c:250-486 | A whole run after which the cleanup of a plugin never returns: one joins under the name that was unloaded from under it, and asks for it. |
| `Subsystems.Core.SubsystemCleanup` | src-api/core/oonf_subsystem.c:139-148 | The final loop empties the tree and cleans up every running plugin exactly once, each after those that name it exactly; and after those that ask for it in the sense of the start, when all that ask lead to it by exact names. It asks that no running plugin names itself in a circle. |
| `IsoNumbers.PrintFraction` | src-api/common/isonumber.c:308-337 | The loop writes the first three digits of a long division in 64-bit words without trailing zeros, never leaves by its error exit, and never writes past four characters. |
| `IsoNumbers.Scale` | src-api/common/isonumber.c:287-303 | The unit is the base taken up or down in steps until the number has the right size in it, and no multiplication wraps around. |
| `IsoNumbers.ChooseUnit` | src-api/common/isonumber.c:276-303 | The base is the power of ten modulo 2^64, which is not zero before 64 digits, and the unit is reached from it. |
| `IsoNumbers.U64ToString` | src-api/common/isonumber.c:270-349 | The text is the number in the chosen unit as the digit loop writes it, the prefix letter, and as much of the unit text as the buffer holds, with blanks at its end trimmed; it ends in a zero byte inside the buffer. Without fractional digits the unit is the power of 1024 (binary) or 1000 with unit <= n < 1024 or 1000 times the unit. |
| `IsoNumbers.BaseUnits` | src-api/common/isonumber.c:276-287 | The power of ten that the loop computes is nonzero exactly below 64 digits, and the true one up to 19. |
| `IsoNumbers.DigitedIff` | src-api/common/isonumber.c:308-337 | The digits written are never more than the thousandths of the remainder, and are those thousandths if and only if none of the three products wraps around. |
| `IsoNumbers.WrittenIff` | src-api/common/isonumber.c:305-337 | The text written is the number rounded down to thousandths of the unit if and only if none of the three products wraps around. |
| `IsoNumbers.WrapsInPrint` | src-api/common/isonumber.c:308-337 | With 19 digits 2*10^18 is written as .011 instead of .2. |
| `IsoNumbers.UnitBounds` | src-api/common/isonumber.c:287-303 | With no fractional digits the unit is the power of 1000 or 1024 with unit <= n < unit * step, its index stays in the table, and the digit loop cannot wrap around. |
| `IsoNumbers.UnitSteps` | src-api/common/isonumber.c:276-303 | For any number of fractional digits: the power of ten is taken up or down in steps of 1024 (binary) or 1000 until the number has the right size in it or the table ends, and not at all without prefix. |
| `IsoNumbers.SuffixLetters` | src-api/common/isonumber.c:274-275 | The letters behind the number: k, M, G, T, P, E upwards and m, u, n, p, f, a downwards. |
| `IsoNumbers.LabelWhole` | src-api/common/isonumber.c:339-348 | A unit for which there is room stands behind number and letter, and blanks behind it are dropped. |
| `IsoNumbers.LabelRaw` | src-api/common/isonumber.c:339-348 | Without prefix there is neither letter nor unit. |
| `IsoNumbers.DecimalPlaces` | src-api/common/isonumber.c:305-309 | The digits of a number, place by place. |
| `IsoNumbers.RawUnit` | src-api/common/isonumber.c:276-303 | Without prefix the unit stays the power of ten. |
| `IsoNumbers.ShownBounds` | src-api/common/isonumber.c:308-337 | The value rounded down to thousandths of the unit. |
| `IsoNumbers.ToU64` | src-api/common/isonumber.c:170-254 | The parser computes the mantissa with wrap-around, the sign applied to the whole part by the C library, and the prefix with an overflow check. |
| `IsoNumbers.ReadsAs` | src-api/common/isonumber.c:170-254 | The parser on every text with a number at its front (white space, a plus sign, digits, a point and digits, blanks, and what follows them): nothing, if more fractional digits are written than it was told of or something other than one of k, M, G, T, P, E follows; else the digits with the missing fractional zeros, modulo 2^64, times 1024^1..6 (binary) or 1000^1..6, if that is below 2^64. |
| `IsoNumbers.ParsedIff` | src-api/common/isonumber.c:170-254 | It returns the answer meant (the number, or an error for one too large or below zero) if and only if the C library finds the whole part too large, or the mantissa fits into 64 bits and is not below zero, or what the machine word holds instead is too large for the prefix. |
| `IsoNumbers.NegativeAccepted` | src-api/common/isonumber.c:170-190 | -n without fractional digits is read as 2^64 - n for every n from 1 on. |
| `IsoNumbers.WrapsUnnoticed` | src-api/common/isonumber.c:170-254 | 18446744073709551.616 with three digits is read as 0. |
| `IsoNumbers.RawRoundTrip` | src-api/common/isonumber.c:170-337 | Up to 19 fractional digits f, printing without prefix and parsing gives n - n mod 10^max(0, f-3) if and only if no product of the printer wraps around; up to 18 none does. |
| `IsoNumbers.PrintAndParse` | src-api/common/isonumber.c:170-349 | The same through the buffer: what the printer writes goes to the parser. |
| `IsoNumbers.PrefixedIff` | src-api/common/isonumber.c:170-349 | With a prefix the text is refused exactly if it shows more fractional digits than the parser is to look at or the unit was taken down; else it is read as the number rounded down to a thousandth of its unit. |
| `IsoNumbers.PrefixRefused` | src-api/common/isonumber.c:170-349 | 1500 without fractional digits is printed as 1.5k, and that text is refused. |
| `IsoNumbers.FromS64` | src-api/common/isonumber.c:97-125 | The text of the magnitude behind a sign, for every 64-bit number, with prefix and unit. |
| `IsoNumbers.ToS64` | src-api/common/isonumber.c:137-158 | The parsed magnitude as a signed number, negated behind a minus sign. |
| `IsoNumbers.SignedIff` | src-api/common/isonumber.c:137-158 | When the signed parser returns the answer meant (the number, or an error for a second sign or a number out of range): for every text that can be taken apart, exactly under a condition on its sign, its size, its prefix and its digits behind the point. |
| `IsoNumbers.SignedWraps` | src-api/common/isonumber.c:137-158 | n from 2^63 on is stored as n - 2^64. |
| `IsoNumbers.TwoSigns` | src-api/common/isonumber.c:137-158 | --n is read as n. |
| `IsoNumbers.SignedRoundTrip` | src-api/common/isonumber.c:97-158 | What each signed number with up to 19 fractional digits reads back as, if and only if no product of the printer wraps around. |
| `IsoNumbers.IntervalRoundTrip` | src-plugins/subsystems/oonf_clock.h:177-199 | An interval in milliseconds survives its text exactly if it is not INT64_MIN. |
| `Layer2Databases.Database.NetworkAdd` | src-plugins/subsystems/oonf_layer2.c:201-232 | An interface is added once per name, compared without regard to case; a name that equals a present one only after it was cut to size gives an announced object that is in no tree. |
| `Layer2Databases.Database.NeighborAdd` | src-plugins/subsystems/oonf_layer2.c:327-358 | A neighbor is added once per hardware address, below its network; other addresses are refused. |
| `Layer2Databases.Database.DestinationAdd` | src-plugins/subsystems/oonf_layer2.c:446-474 | A destination is added once per address, below its neighbor and with its originator. |
| `Layer2Databases.Database.DestinationRemove` | src-plugins/subsystems/oonf_layer2.c:480-489 | A destination in the tree is announced as removed and taken out; one that is in no tree is left alone. |
| `Layer2Databases.Database.NeighborCleanup` | src-plugins/subsystems/oonf_layer2.c:367-379 | Exactly the slots of the originator are reset, and whether there were any is reported. |
| `Layer2Databases.Database.NeighborRemove` | src-plugins/subsystems/oonf_layer2.c:389-410 | The neighbor loses exactly what comes from the originator and goes exactly if something changed and nothing is left; the events are those of the specification. |
| `Layer2Databases.Database.NeighborCommit` | src-plugins/subsystems/oonf_layer2.c:418-436 | The neighbor goes exactly if it has no destination and no value, and one event says which. |
| `Layer2Databases.Database.DropNeighbor` | src-plugins/subsystems/oonf_layer2.c:642-657 | A neighbor is removed with all its destinations, each announced before it. |
| `Layer2Databases.Database.NetworkCleanup` | src-plugins/subsystems/oonf_layer2.c:241-259 | Exactly the slots of the originator are reset in both tables of the network. |
| `Layer2Databases.Database.NetworkRemove` | src-plugins/subsystems/oonf_layer2.c:268-286 | The network and everything below it lose exactly what comes from the originator, and the events are those of the specification. |
| `Layer2Databases.Database.NetworkCommit` | src-plugins/subsystems/oonf_layer2.c:294-319 | The network goes exactly if it has no neighbor and no value. |
| `Layer2Databases.Database.DropNetwork` | src-plugins/subsystems/oonf_layer2.c:619-636 | A network is removed with all its neighbors and their destinations, children announced first. |
| `Layer2Databases.Database.CleanupOrigin` | src-plugins/subsystems/oonf_layer2.c:187-194 | The loop over the networks refines the cleanup on values, state and events, and keeps the ownership tree sound. |
| `Layer2Databases.Database.Cleanup` | src-plugins/subsystems/oonf_layer2.c:160-165 | The destructor announces everything in the database once, children first, and leaves it empty. |
| `Layer2States.Forgets` | src-plugins/subsystems/oonf_layer2.c:187-194 | After the cleanup the database knows exactly the facts (values and destinations) it knew before from other originators. |
| `Layer2States.Untouched` | src-plugins/subsystems/oonf_layer2.c:187-194 | After the cleanup for a registered originator nothing in the database bears its number. |
| `Layer2States.NetworkGoneIff` | src-plugins/subsystems/oonf_layer2.c:268-319 | A network goes if and only if something in it came from the originator, all its neighbors go, and all its values are the originator's. |
| `Layer2States.NeighborGoneIff` | src-plugins/subsystems/oonf_layer2.c:389-436 | A neighbor goes if and only if something in it came from the originator and nothing in it came from another. |
| `Layer2States.NetworksSplit` | src-plugins/subsystems/oonf_layer2.c:187-194 | The cleanup splits the database, listed children first, into what is announced as removed and what is left, both in that order. |
| `Layer2Databases.ThingsOnce` | src-plugins/subsystems/oonf_layer2.c:187-194 | In a sound database every object is listed once. |
| `Layer2Databases.AnnouncedOnce` | src-plugins/subsystems/oonf_layer2.c:187-194 | So a cleanup announces no object twice and none that is still there, and the two kinds are all there was. |
| `Layer2Events.TellsIff` | src-plugins/subsystems/oonf_layer2.c:187-194 | The cleanup after an originator tells of every object at most once, and of an object behind those that hang on it. A neighbor or network is announced as changed if and only if it stays and a destination below it or a slot in it came from the originator; an object is announced as removed if and only if it goes. |
| `Layer2Events.NeighborTells` | src-plugins/subsystems/oonf_layer2.c:389-436 | For a single neighbor: nothing without something from the originator; else the removals of exactly its destinations and then, last, that the neighbor has changed, if a destination or a value from somewhere else is left, or is removed. |
| `Layer2States.NetworkGoneAnnounced` | src-plugins/subsystems/oonf_layer2.c:268-319 | A network that goes is announced with everything below it, children first. |
| `Layer2States.CleanupTwice` | src-plugins/subsystems/oonf_layer2.c:187-194 | A second cleanup for the same registered originator changes and announces nothing. |
| `Autobufs.Autobuf.constructor` | src-api/common/autobuf.c:81-93 | A new buffer is empty and one page large. |
| `Autobufs.Autobuf.Enlarge` | src-api/common/autobuf.c:373-398 | The contents stay; on success there is room for the new size and a zero byte, in the block there was or in one of whole pages; it fails only with the allocation. |
| `Autobufs.Autobuf.Append` | src-api/common/autobuf.c:224-239 | The bytes come behind the contents, with a zero byte after them, or nothing changes. |
| `Autobufs.Autobuf.Prepend` | src-api/common/autobuf.c:248-265 | The bytes come in front of the contents, or nothing changes. |
| `Autobufs.Autobuf.Pull` | src-api/common/autobuf.c:273-303 | The first bytes go, the rest stays in order; the new block size is exact; the room for the terminating zero is lost exactly when the contents and one page filled the block and a page was given back. |
| `PacketSockets.PacketSocket.constructor` | src-plugins/subsystems/oonf_packet_socket.c:172-189 | A new socket has no backlog and no interest in writing. |
| `PacketSockets.PacketSocket.Send` | src-plugins/subsystems/oonf_packet_socket.c:219-256 | For packets of any length: the buffer stays the frames of the pending packets if and only if the allocations succeed, and gets a part of the frame otherwise; packets are accepted in order, a packet overtakes no pending one, and write interest is on exactly while something is pending. |
| `PacketSockets.PacketSocket.Event` | src-plugins/subsystems/oonf_packet_socket.c:771-808 | A completed write consumes exactly the first pending packet, with its own address and payload, cut to its 16-bit length; what was cut off stays in front of the next frame; a write that would block changes nothing; write interest ends with the backlog. |
| `PacketSockets.UnframeFrame` | src-plugins/subsystems/oonf_packet_socket.c:771-798 | Reading the first frame of a buffer gives back address and payload and leaves the rest. |
| `PacketSockets.FramingIff` | src-plugins/subsystems/oonf_packet_socket.c:243-250 | The framing survives exactly the packets whose length fits into 16 bits. |
| `StringArrays.StringArray.Append` | src-api/common/string.c:317-334 | The list gets the string as its last, or stays as it was without memory. |
| `StringArrays.StringArray.Prepend` | src-api/common/string.c:343-361 | The list gets the string as its first, or stays as it was without memory. |
| `StringArrays.StringArray.Remove` | src-api/common/string.c:369-403 | The list loses exactly the element the pointer leads to, and an array that loses its last one is freed. |
| `StringArrays.StringArray.GetCount` | src-api/common/string.c:409-418 | The number of strings in the list. |
| `StringArrays.StringArray.Get` | src-api/common/string.c:425-437 | A pointer to the string at that place, or none exactly if there is none. |
| `StringArrays.Compare` | src-api/common/string.c:446-475 | Zero exactly for equal lists, otherwise the sign says which packed array comes first byte by byte, a prefix before what it begins. |
| `StringArrays.PackedInjective` | src-api/common/string.c:446-475 | The packed bytes determine the list. |
| `ConfigDbs.Database.AddSection` | src-api/config/cfg_db.c:159-190 | The section is there afterwards, with its type, and nothing else changed, or there was no memory; whether it is new is reported. |
| `ConfigDbs.Database.SetEntry` | src-api/config/cfg_db.c:271-319 | The value comes first or last in the list of that entry, or becomes all of it; nothing else changed. Without memory the additions are taken back, but the values to be replaced are gone and their entry is left without any. |
| `ConfigDbs.Database.RemoveEntry` | src-api/config/cfg_db.c:351-365 | Exactly that entry goes, or -1 says that it was not there. |
| `ConfigDbs.Database.RemoveElement` | src-api/config/cfg_db.c:441-471 | The first of the values that is this one goes, the entry with its last one; -1 says that it was not there. |
| `ConfigDbs.Database.Append` | src-api/config/cfg_db.c:110-148 | The destination becomes the merge of both databases under the filter, types included; where memory ends, a copy in which every list that matches has got a front part of the source's, and -1. |
| `ConfigDbs.MergedLists` | src-api/config/cfg_db.c:110-148 | In a merge, every value list of the source under the type, section name and entry asked for, where these are given, comes behind the destination's; all others, and the sections there are, are as they were. |
| `ConfigDbs.Duplicated` | src-api/config/cfg_db.h:200-212 | A duplicate has every section and every value list of the original. |
| `ConfigDeltas.NeedsDefault` | src-api/config/cfg_schema.c:888-907 | A stand-in is needed exactly when no section of the type has a name. |
| `ConfigDeltas.Engine.HandleName` | src-api/config/cfg_schema.c:1089-1151 | The handler is called exactly if the change concerns the name, with the right sections and with old value, new value and change flag of every entry. |
| `ConfigDeltas.Engine.HandleSection` | src-api/config/cfg_schema.c:935-1011 | Each name of either database is handled once, in some order, and the calls for the unnamed and the default section come last. |
| `ConfigDeltas.Engine.HandleChanges` | src-api/config/cfg_schema.c:918-1014 | Two databases with different schemas, or none, are refused; else this holds for each handler, and the calls of one come before those of the next. |
| `ConfigDeltas.CalledIff` | src-api/config/cfg_schema.c:918-1151 | Without a default section and outside the startup, a handler is called for a name at most once, and if and only if the name is in either database, may be unnamed only in unnamed mode, and came, went (in a named mode) or reads differently. |
| `ConfigDeltas.FireReads` | src-api/config/cfg_schema.c:1089-1151 | A call says which sections there are and lists every entry with its value before and after: that of the named section if it has one, else that of the unnamed section, else the default of the schema, else empty; the change flag is set exactly where the two differ. |
| `ConfigDeltas.CallsRead` | src-api/config/cfg_schema.c:918-1151 | So does every call of a handler, the extra ones included. |
| `ConfigDeltas.DefaultSilent` | src-api/config/cfg_schema.c:918-1151 | Setting an entry to the value it reads anyway (the unnamed section's or the schema default), or removing one that equals it, calls nobody outside the startup and without a default section, unless a section of a named mode comes or goes with it. |
| `ConfigDeltas.NameCalledIff` | src-api/config/cfg_schema.c:935-985 | In every mode, at the startup and later: a name of either database is called for at most once by the loops over the names, and exactly if it is not nameless in a named mode and it is the startup, some value before differs from that afterwards, or in a named mode the section counts as there only before or only afterwards. |
| `ConfigDeltas.ExtraNames` | src-api/config/cfg_schema.c:986-1011 | The calls behind these loops: at the startup for an unnamed section whose type is in neither database, and for the default name when the stand-in comes or goes. |
| `ConfigDeltas.EqualSilent` | src-api/config/cfg_schema.c:918-1151 | Between equal databases nothing is called. |
| `ConfigDeltas.DefaultsReach` | src-api/config/cfg_schema.c:1134-1145 | An edit of the unnamed section concerns exactly the named sections that do not override an edited value. |
| `ConfigDeltas.DefaultTwiceIff` | src-api/config/cfg_schema.c:986-1011 | With a default section the handler hears of that name twice exactly when the stand-in appears or goes while the section is in one of the databases and, but for the startup, a value reads differently. |
| `ConfigDeltas.DefaultTwice` | src-api/config/cfg_schema.c:918-1014 | A pair of databases for which it does: the default section was the last one and goes with its value. |
| `Netaddrs.BinaryIsInSubnet` | src-api/common/netaddr.c:1110-1132 | True exactly if the first bits, as many as the prefix is long, are the same. |
| `Netaddrs.IsInSubnet` | src-api/common/netaddr.c:853-860 | The same for two addresses, which must be of one type. |
| `Netaddrs.SubnetBits` | src-api/common/netaddr.c:1110-1132 | Two addresses share the first p bits as a number if and only if they agree in each of these bits, the highest bit of the first byte being the first. |
| `Netaddrs.Truncate` | src-api/common/netaddr.c:428-456 | The bytes are those of the address with everything behind the prefix zero, in place or into another object. |
| `Netaddrs.TruncatedBits` | src-api/common/netaddr.c:428-456 | A truncated address has exactly the set bits of the address among the first p, and no other. |
| `Netaddrs.InSubnetIff` | src-api/common/netaddr.c:428-456 | An address is in a subnet exactly if both truncate to the same bytes. |
| `Netaddrs.TruncatedTwice` | src-api/common/netaddr.c:428-456 | Truncating twice is truncating to the shorter length; so truncation is idempotent. |
| `Netaddrs.NestedOrDisjoint` | src-api/common/netaddr.c:1110-1132 | Of two prefixes of one type, either every address of the longer one is in the shorter one or none is. |
| `Netaddrs.CreateHost` | src-api/common/netaddr.c:307-353 | The host of an IPv4, IPv6, 48-bit or 64-bit netmask has a prefix length of 32, 128, 48 or 64; in its first 4, 16, 6 or 8 bytes each bit is the netmask's within the prefix and in front of a number that is too short, and otherwise the number's, aligned at the end; the other bytes are the netmask's. The unknown type is refused. |
| `Netaddrs.HostInside` | src-api/common/netaddr.c:307-353 | Such a host lies in its netmask and ends like the number. |
| `NetaddrTexts.MacToString` | src-api/common/netaddr.c:976-1011 | The octets in lower case hexadecimal with separators between them. |
| `NetaddrTexts.MacPlaces` | src-api/common/netaddr.c:976-1011 | Octet by octet, two lower case digits and a separator between octets. |
| `NetaddrTexts.MacFromString` | src-api/common/netaddr.c:1021-1050 | The octets of a text with one or two digits each, or an error. |
| `NetaddrTexts.HexDigits` | src-api/common/netaddr.c:1058-1070 | The digits 0 to 9, a to f and A to F and their values, and lower case digits with the high half first in what is written. |
| `NetaddrTexts.OctetRead` | src-api/common/netaddr.c:1021-1050 | One or two digits are an octet, the first of two counting for 16; what follows the separator is read on its own. |
| `NetaddrTexts.MacRoundTrip` | src-api/common/netaddr.c:976-1050 | Every hardware address is read back as it was written. |
| `NetaddrTexts.Scan` | src-api/common/netaddr.c:605-627 | What the loop over the punctuation finds out about the part before slash or blank. |
| `NetaddrTexts.FromString` | src-api/common/netaddr.c:562-703 | The branches by punctuation, prefix length and its range check, for all kinds of addresses; after an error the target has no address family. |
| `NetaddrTexts.AddressRoundTrip` | src-api/common/netaddr.c:518-703 | A 48-bit address is written with colons and a 64-bit one with hyphens, the length behind it exactly if it is shorter than 48 or 64 or asked for; with any legal length it is read back from its text. |
| `NetaddrTexts.InternetRoundTrip` | src-api/common/netaddr.c:518-703 | So is an IPv4 or IPv6 address, if the C library reads back what it writes; the length is written exactly if it is shorter than 32 or 128 or asked for. |
| `NetaddrTexts.LengthsAccepted` | src-api/common/netaddr.c:599-703 | Behind an address text of each family (told by its punctuation, its octets from the library or from the digits) exactly the lengths 0 to 32, 0 to 128, 0 to 48 and 0 to 64 are accepted; without one the whole address is meant. |
| `NetaddrTexts.LengthBehind` | src-api/common/netaddr.c:599-703 | The same for numbers of any size, with any white space around the parts and with a slash or only blanks between them: accepted exactly if the low 32 bits of a number below 2^64 are such a length; a number that is -1 for the machine is handed to the netmask parser behind an IPv4 address. |
| `NetaddrTexts.TextBehind` | src-api/common/netaddr.c:599-703 | The same for any text behind the address: a number, or behind an IPv4 address what the netmask parser makes of it. |
| `NetaddrTexts.LengthMissing` | src-api/common/netaddr.c:629-641 | A slash with nothing behind it is refused. |
| `NetaddrTexts.InternetSixIff` | src-api/common/netaddr.c:650-688 | A text without hyphens that the C library takes for an IPv6 address is taken for one here if and only if it has two colons in a row or seven in all. |
| `NetaddrTexts.SixGroups` | src-api/common/netaddr.c:650-688 | 1:2:3:4:5:6:7.8.9.0 is refused, whatever the library would say. |
| `NetaddrTexts.Names` | src-api/common/netaddr.c:578-587 | The five named prefixes, in any mixture of cases: 0.0.0.0/0, ::/0, 169.254.0.0/16, fe80::/10 and fc00::/7. |
| `NetaddrTexts.PrefixLength` | src-api/common/netaddr.c:599-701 | What becomes of a hardware address with any number behind it, of any size and with or without a minus sign: accepted exactly if the number is below 2^64 and its low 32 bits, negated behind a minus sign, are a legal length, which is then the length; the cut to the size of the buffer changes nothing. |
| `NetaddrTexts.WrongLengthIff` | src-api/common/netaddr.c:643-700 | A length other than the one written is accepted if and only if that is out of range, is below 2^64 in size, and its low 32 bits are in range. |
| `NetaddrTexts.PrefixWraps` | src-api/common/netaddr.c:643-700 | 4294967304 and -4294967288 behind a 48-bit hardware address are both taken for a length of 8. |
| `Jsons.Session.constructor` | src-api/common/json.c:63-69 | A new session is empty. |
| `Jsons.Session.StartArray` | src-api/common/json.c:76-85 | A comma exactly behind a sibling, and the next call is a first child. |
| `Jsons.Session.EndArray` | src-api/common/json.c:92-98 | The bracket closes and siblings follow. |
| `Jsons.Session.StartObject` | src-api/common/json.c:105-119 | The same for objects, with or without a name. |
| `Jsons.Session.EndObject` | src-api/common/json.c:145-151 | The brace closes and siblings follow. |
| `Jsons.Session.Print` | src-api/common/json.c:128-138 | A pair with its comma and its escaped value. |
| `Jsons.Session.PrintEscaped` | src-api/common/json.c:237-259 | The loop that copies stretches between escapes writes the text escaped character by character. |
| `Jsons.Session.Emit` | src-api/common/json.c:63-151 | Printing any tree through the session gives its text, with commas exactly between siblings. |
| `Jsons.StringRoundTrip` | src-api/common/json.c:227-264 | Every string of bytes is read back from its escaped form by the rules of section 7 of RFC 8259. |
| `Jsons.EscapeForms` | src-api/common/json.c:237-259 | Control characters, 127 and 255 become backslash, u, 00 and two lower case digits; quotation marks and backslashes get a backslash in front; all else stays. |
| `Jsons.EscapedChars` | src-api/common/json.c:237-259 | An escaped text has only printable characters. |
| `Jsons.NodeRoundTrip` | src-api/common/json.c:63-264 | Every printed tree is read back as it was, with the text behind it untouched; a value that is not a string is a number or a literal name of RFC 8259. |
| `Jsons.WrittenNumber` | src-api/common/json.c:227-264 | What the fixed-point printer writes without prefix is a JSON number. |
| `Jsons.EmptyValue` | src-api/common/json.c:227-235 | An empty value that is not a string comes back as the number 0. |

## Left out

- IsoNumbers.U64ToString: takes fewer than 64 fractional digits, because from there on the unit is zero and the source divides by it.
- IsoNumbers.RawRoundTrip: ends at 19 fractional digits, because from 20 on the unit is ten to that power modulo 2^64 and the text has no meaning to return to; the texts printed there are in `U64ToString`.
- IsoNumbers.FrontNumber: the C library functions strtoull and strtoul as the standard describes them, for the decimal base.
- ConfigDeltas.Engine.HandleChanges: does not model handlers that change a database.
- StringArrays.StringArray.Append: does not model the rounding of block sizes.
- NetaddrTexts.FromString: of what a failing call leaves in the target only the address family is promised, because the C library writes the rest.
- Jsons.Session.Emit: prints values whose output buffer always has memory; templates (`json_print_templates`) are not modelled.
- Timers, logging, class events of other objects, sockets and file descriptors; what they return is an argument of the methods concerned.
- Subsystems.Core.InitPlugin: does not model callbacks that start or unload plugins themselves.
- Allocation failure, except in the byte buffer and the packet backlog, the string array, configuration databases, new entries of a duplicate set, and new layer-2 objects.
- `avl_comp_*`, `avl_delete` and the iteration macros other than the two modelled.
- Changing single layer-2 values (`oonf_layer2_change_value`, `oonf_layer2_neigh_query`), which touches one slot.
- Removal of whole sections from a configuration database, `cfg_schema_validate`, and the conversion of values.
- Loading plugins from files, and the callbacks that prepare an unload.
- `netaddr_create_prefix`, `netaddr_create_host`, socket addresses and access control lists.
- The receiving half of the packet socket, and its binding to interfaces.
