# Voxel engine core: verified models

Dafny models of eight parts of the voxel engine whose correctness is not obvious from reading
them, with proofs of what they are for. Loops, in-place updates and mutable objects of the C++
code are methods and classes here; each is proved against a specification on values, and the
properties are proved about those specifications.

- **Crafting** (`Names`, `Recipes`, `BipartiteMatching`, `Shapeless`, `Shaped`, `ShapedContents`,
  `CraftIndex`, `CraftOutputs`, `CraftManager`). The Hopcroft-Karp perfect-matching test, the shapeless
  check with its sorted-merge prefilter, the shaped check with its bounding boxes, the lookup through
  two hash layers, which must find what a scan of all recipes finds, and the index by output, which
  must follow registering and clearing.
- **Emerge queue** (`EmergeQueue`, `EmergeManager`). A state machine whose steps are the critical
  sections of the manager and its workers; runs are arbitrary interleavings. The manager's methods
  are proved to take those steps.
- **Inventories** (`Stacks`, `InventoryOps`, `InventoryLists`, `MoveAction`). Stacks with sixteen-bit
  counts, lists that may be one and the same, moves with partial fits and swaps, and the negotiation
  of a player's move with callbacks that may answer with any limits from zero on.
- **Chat** (`ChatLayout`, `ChatLinks`, `ChatBuffer`). The line breaker with fragments, hanging
  indentation and weblinks, and the scrollback whose formatted view must stay that of its lines.
- **Paths** (`Paths`, `PathPrefixes`). Path normalisation by rewriting from the right, and the prefix
  test.
- **Node timers** (`NodeTimers`, `NodeTimerRuns`). The schedule with its index and next trigger time,
  and whole uses of it, in which a timer that is left alone fires exactly once.
- **Block ids** (`BlockIds`) and **cube surfaces** (`FacePositions`).

`dafny verify dfyconfig.toml` checks everything.

Where the code does not do what its purpose suggests, the model follows the code, a lemma or method
gives a concrete input, and the exact condition is proved:

- a hand item in a group lets a hole match (`Shaped.HoleAccepted`), and the index then misses what a
  scan finds (`CraftIndex.HoleIsMissed`);
- fuel recipes of groups, and items renamed to groups, change place between scan and index
  (`CraftIndex.GroupFuelDiffers`, `CraftIndex.RenamedGroupDiffers`);
- callbacks are dropped unrun for positions beyond the map limit and on exceptions
  (`EmergeQueue.FarPositionLosesCallback`, `EmergeQueue.ExceptionLosesCallback`);
- an http:// address with an https:// behind it in the same text is not shown as a weblink
  (`ChatLinks.PlainBeforeSecure`, `ChatLinks.PlainLinkExactly`);
- a console narrower than three columns gets out of step (`ChatBuffers.NarrowConsoleLosesSync`);
- a new number of rows, and new columns while the top of the view lies inside the last chat line,
  send a scrolled view to the top (`ChatBuffers.MoreRowsShowTop`, `ChatBuffers.MoreColumnsShowTop`);
- clearing while there are rows leaves the view out of range (`ChatBuffers.ClearedViewIsLost`);
- a timer whose trigger time is the value that stands for none is overlooked
  (`NodeTimers.DueTimerIsMissed`).

Conditions on the environment: item definitions, parsing of item strings and aliases are fixed
functions; a stack is emptied together with its name; string hashes are an arbitrary function; times
are real numbers; text is a sequence of characters; spaces are those of the C locale.

## Model

| member | source | states |
|---|---|---|
| BipartiteMatching.HopcroftKarpCanMatchAll | src/craftdef.cpp:503-601 | the matching test answers yes exactly when the graph has a perfect matching, and no exactly when some set of left vertices has fewer neighbours than members |
| BipartiteMatching.HopcroftKarp.CanMatchAllNodes | src/craftdef.cpp:583-601 | the main loop: it ends because every phase matches at least one more vertex, the two pairings stay inverse to one another, and the final count decides the question in both directions |
| BipartiteMatching.HopcroftKarp.Phase | src/craftdef.cpp:589-598 | if the search reached the dummy vertex, one round of depth-first searches augments the matching by at least one |
| BipartiteMatching.HopcroftKarp.DoBfs | src/craftdef.cpp:520-551 | the breadth-first search gives every visited vertex a predecessor one layer nearer to the unmatched ones, and lets no edge from a vertex nearer than the dummy skip a layer; nothing wraps around sixteen bits, and if the dummy is unreachable the visited vertices are closed under alternating edges |
| BipartiteMatching.LayersAreShortest | src/craftdef.cpp:520-551 | layers like these are shortest: no alternating walk from an unmatched vertex reaches the dummy, or a vertex no farther than the dummy, in fewer steps than its layer |
| BipartiteMatching.HopcroftKarp.EnqueueUnmatched | src/craftdef.cpp:523-532 | exactly the unmatched vertices start in the queue, at distance zero |
| BipartiteMatching.HopcroftKarp.ScanNeighbours | src/craftdef.cpp:539-546 | the inner loop visits the partner of every neighbour, and keeps the queue free of duplicates and its distances ascending, the last at most one above the first |
| BipartiteMatching.HopcroftKarp.DoDfs | src/craftdef.cpp:556-577 | on success exactly one augmenting path is flipped and the pairings stay inverse to one another; on failure no pair changes and the vertex and only deeper ones are declared dead |
| BipartiteMatching.HopcroftKarp.TryNeighbour | src/craftdef.cpp:560-572 | one neighbour: the search follows only edges to the next layer and flips the edge after the deeper search succeeded |
| BipartiteMatching.HallViolatorObstructs | src/craftdef.cpp:503-601 | a set of left vertices with too few neighbours excludes a perfect matching |
| BipartiteMatching.VisitedViolatesHall | src/craftdef.cpp:550-600 | when the dummy is unreachable and a vertex is unmatched, the visited vertices are such a set |
| BipartiteMatching.AllReachedAreDead | src/craftdef.cpp:561-576 | if every unmatched vertex was given up, so was everything reached, including the dummy: hence some search of a phase succeeds |
| BipartiteMatching.AllPairedIsPerfect | src/craftdef.cpp:600 | inverse pairings without the dummy are a perfect matching |
| Names.SortedUnique | src/craftdef.cpp:624-631 | two sorted lists with the same contents are equal, so sorting is determined by its contract |
| Names.SetDifference | src/craftdef.cpp:645-648 | the sorted merge leaves exactly the multiset difference |
| Names.SameContentsReordered | src/craftdef.cpp:616-678 | lists with equal contents are permutations of one another |
| Recipes.InputItemMatchesRecipe | src/craftdef.cpp:84-109 | an item satisfies a slot exactly when it is the item named, or the slot is a group list and the item is known and a member of every group listed |
| Recipes.PiecesRejoin | src/craftdef.cpp:94-102 | the groups tokenised from a list, joined by commas, give back the list (up to one trailing comma) |
| Recipes.PlainSlot | src/craftdef.cpp:88-92 | a slot that is no group accepts only the item it names |
| Shapeless.CheckShapeless | src/craftdef.cpp:603-678 | the shapeless test accepts exactly when the recipe has at most 30000 group slots and the non-empty input items can be assigned one-to-one to recipe slots they satisfy; the size assertion in between always holds |
| Shapeless.PrefilterIsExact | src/craftdef.cpp:642-652 | filtering plain slots by the sorted merge first never changes the answer, in both directions |
| Shapeless.PrefilterVerdict | src/craftdef.cpp:642-656 | the same for the lists the code works on, with the size comparison it uses as the criterion |
| Shapeless.GraphMatchingIsAssignment | src/craftdef.cpp:654-677 | a perfect matching of the graph built is an assignment of items to group slots, and vice versa |
| Shapeless.BuildGraph | src/craftdef.cpp:663-674 | the adjacency lists hold exactly the slots each item satisfies |
| Shapeless.PartitionSlots | src/craftdef.cpp:634-640 | the partition keeps order and splits by the group prefix |
| Shapeless.OrderIrrelevant | src/craftdef.cpp:603-678 | the order of items and of slots does not matter |
| Shaped.CheckShaped | src/craftdef.cpp:360-424 | the shaped test accepts exactly when some translation maps the non-empty recipe cells one-to-one onto the non-empty input cells with matching items, provided the hand item is in no group; without that proviso it accepts exactly equal bounding boxes with matching cells |
| Shaped.BoxesAreTranslations | src/craftdef.cpp:398-423 | comparing bounding boxes cell by cell decides whether such a translation exists |
| Shaped.HandConditionIsExact | src/craftdef.cpp:407-421 | the two coincide for all inputs if and only if the hand item is in no group |
| Shaped.HoleAccepted | src/craftdef.cpp:407-421 | a concrete grid where they differ: with the hand in a group, a hole satisfies a group slot |
| Shaped.PositionIrrelevant | src/craftdef.cpp:360-424 | neither the position of the pattern nor the width of the input grid matters |
| Shaped.RecipePositionIrrelevant | src/craftdef.cpp:360-424 | nor does the position of the pattern in the recipe grid, or the width of that grid |
| Shaped.GetBounds | src/craftdef.cpp:158-189 | the coordinate-stepping loop finds the exact bounding box of the non-empty cells, or that there are none |
| Shaped.FillRows | src/craftdef.cpp:370-371 | padding to full rows changes no cell |
| Shaped.CompareBoxes | src/craftdef.cpp:404-423 | the nested loops with their row offsets compare corresponding cells |
| ShapedContents.AcceptedCount | src/craftdef.cpp:360-424 | an accepted input has as many non-empty cells as the recipe |
| ShapedContents.CountTellsHoles | src/craftdef.cpp:360-424 | whatever the hand is a member of, an accepted input has at most as many non-empty cells as the recipe, and as many exactly if the recipe is translated onto it, that is, leaves no hole |
| ShapedContents.AcceptedNames | src/craftdef.cpp:360-424 | an accepted input of a recipe without groups has the same multiset of names |
| CraftIndex.CraftDefinition.Check | src/craftdef.cpp:360-424 | each kind of definition accepts exactly the inputs described for it, with cached names or without |
| CraftIndex.CraftDefinition.InitHash | src/craftdef.cpp:453-464 | the cached names and the hash layer are those of the recipe |
| CraftIndex.CraftDefinition.GetHash | src/craftdef.cpp:442-451 | the hash of a definition in its own layer |
| CraftIndex.CheckToolRepair | src/craftdef.cpp:770-789 | exactly two non-empty stacks, single, of one repairable tool, whose uses left exceed together what the repair costs |
| CraftIndex.EligibleExactly | src/craftdef.cpp:1089-1100 | a recipe that accepts an input is passed over exactly if what it makes does not exist: its output, or the tool that is repaired |
| CraftIndex.CheckSingle | src/craftdef.cpp:849-873 | exactly one non-empty item, which satisfies the slot |
| CraftIndex.PickWins | src/craftdef.cpp:1081-1105 | the back-to-front scan finds an applicable definition of the highest priority, the one registered last among those, and nothing only if none applies |
| CraftIndex.PickOrder | src/craftdef.h:136-150 | the scan finds the last shaped recipe without groups that applies; if there is none, the last shaped one with groups; then the last shapeless, cooking or fuel recipe without groups (a fuel recipe counts as one whatever it names); then the last with groups; a tool repair only if nothing else applies; and nothing exactly if none applies |
| CraftIndex.KindsByPriority | src/craftdef.h:142-150 | two recipes have the same priority exactly if they are of the same of these kinds, and a higher one exactly if theirs goes first |
| CraftIndex.AcceptedHash | src/craftdef.cpp:55-80 | a definition that accepts an input has the hash of the input in the definition's layer, for every kind of recipe and any string hash, exactly if it is no shaped recipe with groups that leaves a hole |
| CraftIndex.ShapedHash | src/craftdef.cpp:442-464 | the same for shaped recipes: sorted names without groups, and counts, which agree exactly without a hole |
| CraftIndex.HandLeavesNoHole | src/craftdef.cpp:407-421 | if the hand item is in no group, no accepted input leaves a hole |
| CraftIndex.ShapelessHash | src/craftdef.cpp:696-716 | the same for shapeless recipes, from assignment to sorted names or counts |
| CraftIndex.WinnerInItsBucket | src/craftdef.cpp:1066-1106 | the definition a full scan chooses is chosen within the bucket the input hashes to exactly if it leaves no hole |
| CraftIndex.BucketBound | src/craftdef.cpp:1078-1105 | no bucket holds an applicable definition of a higher priority than the scan finds, whatever the hand |
| CraftIndex.IndexVersusScan | src/craftdef.cpp:1050-1112 | the index never finds more than a full scan; it finds the scan's winner exactly if that leaves no hole and is not hashed by count while one hashed by names applies with the same priority; it finds the winner's priority exactly if some definition of that priority leaves no hole, which holds if the hand item is in no group |
| CraftIndex.IndexAgreesWithScan | src/craftdef.cpp:1050-1112 | if the written and the normalised item names of each recipe agree on being groups and no fuel recipe uses groups, the index finds the very definition the scan finds exactly if that leaves no hole, and always if the hand item is in no group |
| CraftIndex.PriorityFitsWhen | src/craftdef.cpp:935-945 | that condition, spelled out per kind of recipe |
| CraftIndex.GroupFuelDiffers | src/craftdef.cpp:935-945 | a concrete pair of fuel recipes for which scan and index differ, because the priority of a group fuel is computed from a name not set yet |
| CraftIndex.RenamedGroupDiffers | src/craftdef.cpp:831-844 | another such pair, of cooking recipes: an item written plainly but normalised to a group keeps the priority of a plain one |
| CraftIndex.HoleIsMissed | src/craftdef.cpp:407-421 | a concrete shaped recipe, with the hand item in a group, that a scan finds for an input with a hole and the index does not |
| CraftManager.CraftDefManager.RegisterCraft | src/craftdef.cpp:1208-1218 | a definition is appended to the unhashed layer and to the list of its output name, and every list by output stays that of the registered definitions with this output, in order |
| CraftManager.CraftDefManager.GetCraftRecipes | src/craftdef.cpp:1114-1137 | the answer is the registered definitions with an output, the last registered first, cut at the limit unless that is zero |
| CraftManager.CraftDefManager.ClearCraftsByOutput | src/craftdef.cpp:1139-1154 | exactly the definitions with an output are forgotten, in the layer and in the index alike |
| CraftManager.CraftDefManager.ClearCraftsByInput | src/craftdef.cpp:1156-1187 | exactly the definitions that accept a non-empty input are forgotten, in the layer and in every list by output, and the answer says whether there were any |
| CraftOutputs.ProducingOthers | src/craftdef.cpp:1139-1154 | forgetting one output leaves the lists of all other outputs as they were |
| CraftOutputs.ProducingWithout | src/craftdef.cpp:1172-1184 | erasing definitions from the list of an output gives the list of that output among those that are left |
| CraftOutputs.EraseFromIndex | src/craftdef.cpp:1178-1183 | the loop over all outputs erases from every list |
| CraftManager.CraftDefManager.GetCraftResult | src/craftdef.cpp:1050-1112 | the lookup through the three layers chooses by these kinds over the buckets of all layers, and within a kind the last one of the first layer that has any; nothing for an empty input, or if none applies |
| CraftManager.AnswerChosen | src/craftdef.cpp:1064-1108 | trying the layers one after the other, keeping the best so far, amounts to that choice |
| CraftManager.CraftDefManager.InitHashes | src/craftdef.cpp:1232-1247 | every definition moves to the bucket of its hash, in registration order, and the unhashed list ends empty |
| CraftManager.SameResultAfterHashing | src/craftdef.cpp:1050-1112 | looking an input up before and after hashing returns the same definition exactly if the first leaves no hole and has no rival of its priority in the layer above; always if priorities fit the layers and the hand item is in no group |
| CraftManager.TryBucket | src/craftdef.cpp:1081-1105 | walking a bucket from back to front after an earlier find |
| EmergeQueue.EnqueueKeepsInv | src/emerge.cpp:276-303 | enqueueing keeps the invariant: every recorded position is in exactly one queue exactly once, every peer's counter equals the number of its entries, and every accepted callback is pending, held, has run or was lost, as many times and for the same position as it was accepted |
| EmergeQueue.PopKeepsInv | src/emerge.cpp:511-524 | so does a worker taking a block |
| EmergeQueue.PopStepFields | src/emerge.cpp:500-524 | taking, or cancelling, removes the block at the front of the worker's queue and its entry, lowers its peer's counter, and makes the worker busy with it, drops its callbacks beyond the map limit, or runs them as cancelled |
| EmergeQueue.FinishKeepsInv | src/emerge.cpp:710 | so does running the callbacks of a finished block |
| EmergeQueue.CancelFrontKeepsInv | src/emerge.cpp:480-490 | so does each round of cancelling |
| EmergeQueue.FrontIsEnqueued | src/emerge.cpp:396-416 | the block at the front of a queue has an entry and its peer is counted, so removing it cannot fail |
| EmergeQueue.RunKeepsInv | src/emerge.cpp:276-524 | from any state that satisfies it the invariant holds at every moment of every interleaving of producers and workers |
| EmergeQueue.TakenExactly | src/emerge.cpp:276-303 | a request is taken exactly if it is forced, or the total is below its limit and its peer has fewer entries than the limit for its own flag, or for peer 0 fewer than half the total; its callbacks and flags are then added to the entry of the position, or a new entry goes to the end of the first of the shortest queues; one that is not taken changes no entry, queue or counter |
| EmergeQueue.RunKeepsQuotaOf | src/emerge.cpp:358-372 | at every moment of a run in which a peer's requests are not forced and all allow generation, its entries stay within the limit for generation, and if none does, within the limit for the others; what other peers ask for, forced or not, makes no difference |
| EmergeQueue.EntriesAfter | src/emerge.cpp:374-390 | a request adds to the entries of the peer that asks for a new position and is taken, and to no other's |
| EmergeQueue.EnqueueKeepsQuotas | src/emerge.cpp:358-372 | an admitted request that is not forced stays within the total, the per-peer and the active-block quota |
| EmergeQueue.RunKeepsQuotas | src/emerge.cpp:358-372 | in every run without forced requests the total stays within its limit, each real peer within the larger of its limits, and peer 0 within half of the total, rounded up |
| EmergeQueue.RunLosesExactly | src/emerge.cpp:659-723 | in every run what is lost stays lost, and callbacks are lost exactly by popping a position beyond the map limit that has some and by exceptions of a worker that holds some |
| EmergeQueue.RunLosesNothing | src/emerge.cpp:659-723 | what a caller can rely on: a run without exceptions and without requests beyond the map limit loses no callback |
| EmergeQueue.FarPositionLosesCallback | src/emerge.cpp:668-673 | a single request is accepted at any position, and once its block is taken its callback is lost exactly if the position lies more than 1937 blocks from the origin in some direction, for example 1938 |
| EmergeQueue.ExceptionLosesCallback | src/emerge.cpp:659-723 | a concrete request within the limit whose callback never runs, because its worker leaves with an exception |
| EmergeQueue.RunKeepsDrained | src/emerge.cpp:476-491 | once a worker has cancelled and nobody enqueues, its queue stays empty whatever else happens |
| EmergeQueue.ShutdownDrains | src/emerge.cpp:751 | once every worker has cancelled, all queues and entries are gone, all counters are zero and every accepted callback has run exactly once for its position or was lost |
| EmergeQueue.ShutdownRunsAll | src/emerge.cpp:751 | a run that begins with nothing lost and ends with every worker cancelling has run all the callbacks it accepted exactly if no step dropped any, and always without exceptions and requests beyond the map limit |
| EmergeManager.Manager.PushBlockEmergeData | src/emerge.cpp:348-393 | with exact counters a request is taken exactly if it is forced or the quotas leave room for it among the entries there are; its callbacks and flags are added to the entry of the position, which belongs to the peer that asked first |
| EmergeManager.Manager.EnqueueBlockEmergeEx | src/emerge.cpp:276-303 | the critical section is one enqueue step of the state machine, and answers whether the request was taken, by the same condition |
| EmergeManager.Manager.GetOptimalThread | src/emerge.cpp:419-437 | the first of the shortest worker queues |
| EmergeManager.Manager.PopBlockEmergeData | src/emerge.cpp:396-416 | a recorded position is returned, removed and uncounted; a position or peer that is not recorded makes it answer no |
| EmergeManager.Manager.PopBlockEmerge | src/emerge.cpp:511-524 | the critical section is one pop step of the state machine, including the silent drop of positions beyond the map limit |
| EmergeManager.Manager.FinishBlock | src/emerge.cpp:710 | the end of a worker's round is one finish step |
| EmergeManager.Manager.CancelPendingItems | src/emerge.cpp:476-491 | cancelling empties the queue and equals the repeated cancel step |
| EmergeManager.Manager.RunCompletionCallbacks | src/emerge.cpp:494-508 | each callback is called once, in order |
| Stacks.AddItemMoves | src/inventory.cpp:319-354 | adding to a stack keeps every kind of item over stack and leftover, never wraps around sixteen bits and respects the stack limit |
| Stacks.ItemFitsPredicts | src/inventory.cpp:356-393 | the query predicts leftover and success of the update |
| Stacks.TakeItemMoves | src/inventory.cpp:402-420 | taking splits a stack without losing or creating items, and takes the smaller of request and stack |
| InventoryOps.AddedMoves | src/inventory.cpp:618-655 | adding to a list keeps every kind over list and leftover, and changes stacks in use only by growing them |
| InventoryOps.RoomMeans | src/inventory.cpp:681-692 | the room query holds exactly when a slot is empty or the matching stacks have enough space together |
| InventoryOps.RoomAgreesWithAdding | src/inventory.cpp:618-692 | for a non-empty item there is room exactly when adding leaves nothing over, although the two visit the slots in different orders |
| InventoryOps.RemovedTakes | src/inventory.cpp:713-731 | removal takes the smaller of request and total of the name, from stacks of that name only |
| InventoryOps.RemovedFromBack | src/inventory.cpp:713-731 | a stack loses items only if those of the name behind it are emptied |
| InventoryOps.MatchingNamed | src/inventory.cpp:694-711 | without metadata the containment query counts all items of the name |
| InventoryOps.MatchingKind | src/inventory.cpp:694-711 | with metadata it counts the items of that kind |
| InventoryOps.ContainsMeansRemovable | src/inventory.cpp:694-731 | the list contains an item by name exactly when removal would take the full count |
| InventoryOps.PutBack | src/inventory.cpp:789-794 | a leftover put back on the source never overflows and restores the source stack |
| InventoryOps.MoveStacksMoves | src/inventory.cpp:767-809 | a move between two slots keeps every kind, moves exactly what fits of what was asked, changes nothing if nothing fits and no swap is wanted, and swaps exactly if one is wanted and nothing fits |
| InventoryOps.MovedBetweenConserves | src/inventory.cpp:767-809 | over two lists, or within one, every kind of item is conserved, indices in or out of range |
| InventoryOps.PutBackSomewhere | src/inventory.cpp:759-764 | the leftover of a move to anywhere lands on an empty slot or a stack of its own kind and never exceeds the original stack |
| InventoryOps.MovedSomewhereConserves | src/inventory.cpp:744-765 | a move to anywhere conserves every kind over both lists, also if they are one list |
| InventoryOps.MovedSomewhereMoves | src/inventory.cpp:744-765 | a move to anywhere moves the smaller of what was asked for and the room found, changes nothing if that is nothing, and between two lists changes no other slot of the source and fills the target in the order of adding |
| InventoryOps.AddedLeaves | src/inventory.cpp:618-655 | adding leaves over exactly what exceeds the room: none if a slot is empty, else the free space of the matching stacks |
| InventoryOps.AddedInOrder | src/inventory.cpp:625-652 | a stack in use changes only by growing up to its limit, and only if it matches and no matching one before it has space left; an empty slot changes only if it is the first and no matching stack has space left, and gets exactly what exceeds the space there was |
| InventoryLists.InventoryList.ChangeItem | src/inventory.cpp:598-609 | overwrites a slot and returns its old content |
| InventoryLists.InventoryList.AddItemAt | src/inventory.cpp:657-666 | adds to one slot |
| InventoryLists.InventoryList.AddItemAnywhere | src/inventory.cpp:618-655 | fills the matching stacks in use from the front, each up to its limit before the next, then puts exactly the rest into the first empty slot; what is left over is exactly what exceeds the room, and nothing is lost |
| InventoryLists.InventoryList.RoomForItem | src/inventory.cpp:681-692 | answers whether adding would leave nothing over |
| InventoryLists.InventoryList.ContainsItem | src/inventory.cpp:694-711 | answers whether the matching items reach the count |
| InventoryLists.InventoryList.RemoveItem | src/inventory.cpp:713-731 | removes exactly the smaller of request and total, emptying the stacks of the name from the back, and returns as many items of that name |
| InventoryLists.InventoryList.TakeItemAt | src/inventory.cpp:733-742 | takes from one slot |
| InventoryLists.InventoryList.MoveItem | src/inventory.cpp:767-809 | the move in place, with possibly aliased lists, has exactly that effect on the slots and conserves every kind |
| InventoryLists.InventoryList.MoveItemSomewhere | src/inventory.cpp:744-765 | the move to anywhere in place, with possibly aliased lists, conserves every kind |
| MoveActions.DecisionIsAllowed | src/inventorymanager.cpp:366-455 | for any answers of the callbacks, no more is moved than was asked for, than fits, or than any answer allows; a swap happens exactly if nothing fits, it is no step of a move to anywhere, and both directions allow the whole stacks |
| MoveActions.DecisionSettled | src/inventorymanager.cpp:366-455 | if something fits, the questions are one about the move within an inventory, or the put and the take across two, for the stack that would move, and the count moved is what was wanted and fits or one of the answers, and at most each of them; if nothing fits, each direction of a swap is asked about for its whole stack, the second only if the first was allowed |
| MoveActions.DecisionCarried | src/inventorymanager.cpp:457-494 | moving the settled count carries the decision out, swap included |
| MoveActions.MoveAction.Apply | src/inventorymanager.cpp:342-494 | the single-slot path asks exactly those questions, and moves the smallest of what was wanted, what fits and the answers, or swaps the whole stacks if both directions allow it; it touches only the two slots and conserves every kind over both lists; the assertion that a swap is done exactly when allowed always holds; impossible moves change nothing |
| MoveActions.MoveAction.Negotiate | src/inventorymanager.cpp:366-455 | the questions asked and the count and swap settled are those of the decision |
| MoveActions.MoveAction.AskLimits | src/inventorymanager.cpp:400-422 | the questions of one direction, within an inventory and across two |
| MoveActions.MoveAction.AskBack | src/inventorymanager.cpp:407-439 | the questions of a swap for the other direction leave the action's direction as it was |
| MoveActions.MoveAction.SwapDirections | src/inventorymanager.cpp:158-163 | exchanges the two ends of the action |
| ChatLayout.FormatKeepsText | src/chat.cpp:232-428 | whenever the indentation leaves a column, the texts of all fragments joined are the name in brackets and the message, with or without weblinks |
| ChatLayout.FormatStands | src/chat.cpp:232-428 | at least one line is appended, exactly the first is marked so, none exceeds the columns, and fragments stand at the running offsets from the left or, on further lines, from below the message if the name takes up to half of the columns, else from the third column |
| ChatLayout.FormatNeedsLines | src/chat.cpp:282-427 | a chat line takes at least as many lines as its text needs columns |
| ChatLayout.VisibleExactly | src/chat.cpp:259-275 | for names without null characters a line can be shown exactly from three columns on, or from one column on if it has no name |
| ChatLayout.BreaksAtSpaces | src/chat.cpp:334-400 | outside of weblinks a line is broken after the last space that fits, or filled up if there is none |
| ChatLayout.FormatBreaksWell | src/chat.cpp:282-427 | with or without weblinks, every line but the last ends after a space or at the last column |
| ChatLayout.FormatLinksHold | src/chat.cpp:358-414 | a fragment that carries a weblink shows a part of it, every weblink begins with http:// or https://, and there are none unless they are asked for |
| ChatLayout.FormatChatLine | src/chat.cpp:232-428 | the layout loops terminate and append exactly the lines that the properties here are proved of; the result counts them |
| ChatLinks.FormatShowsLinks | src/chat.cpp:343-411 | with weblinks on, every character of the message is shown by a fragment that carries exactly the weblink it is part of, or none; weblinks begin at the first https:// of a word, and at an http:// that is the first of its word and has no https:// behind it anywhere, and reach to the first space, quote or semicolon, less one comma or full stop; the name carries none |
| ChatLinks.PlainLinkExactly | src/chat.cpp:343-347 | an http:// that is the first of its word is shown as a weblink, complete, exactly if no https:// follows anywhere in the text |
| ChatLinks.SecureLinkAlways | src/chat.cpp:343-411 | an https:// that is the first of its word is always shown as a weblink, complete |
| ChatLinks.ProtocolInLink | src/chat.cpp:343-411 | every https://, and every http:// with no https:// behind it, is shown as part of a weblink that begins with a protocol in the same word |
| ChatLinks.PlainBeforeSecure | src/chat.cpp:343-347 | a concrete text with a plain and a secure address, of which only the secure one becomes a weblink |
| ChatLinks.NextStart | src/chat.cpp:343-350 | outside of a weblink, the protocol that is looked for finds the next weblink, and none begins before it |
| ChatLinks.LinkLengthIs | src/chat.cpp:358-388 | what is cut off at a protocol is the whole weblink |
| ChatLinks.ProduceCarries | src/chat.cpp:324-418 | the fragments produced carry what they should, and end outside of a weblink |
| ChatLayout.ProduceFragments | src/chat.cpp:324-418 | the loop that cuts the text for the next line |
| ChatLayout.CutPiece | src/chat.cpp:333-400 | the choice of the next fragment's length, with its search for weblinks, trailing punctuation and spaces |
| ChatBuffers.DeletionKeepsSync | src/chat.cpp:98-130 | deleting as many groups of formatted lines as chat lines keeps the two in step exactly if all deleted lines are visible or none of the kept ones is |
| ChatBuffers.NarrowConsoleLosesSync | src/chat.cpp:272-275 | a concrete buffer in a console of two columns that loses step |
| ChatBuffers.WideIsSafe | src/chat.cpp:98-130 | from three columns on every deletion is safe |
| ChatBuffers.FormatIsGroup | src/chat.cpp:277-427 | a visible line makes one group that begins with the only line marked as first |
| ChatBuffers.ViewKeepsItsLine | src/chat.cpp:155-198 | when the number of columns changes, a view whose top begins a chat line keeps that chat line on top, as far as the scroll range allows |
| ChatBuffers.AgesDoNotShow | src/chat.cpp:91-96 | growing older changes nothing that is shown |
| ChatBuffers.ChatBuffer.AddLine | src/chat.cpp:51-70 | appends the line and its formatted lines, keeps the scrollback limit, keeps a view at the bottom there and any other on its line unless that line goes, then at the top |
| ChatBuffers.ChatBuffer.DeleteOldest | src/chat.cpp:98-130 | removes the oldest lines with their formatted lines; the sanity check never fires; a view at the bottom stays there and any other stays on its line unless that line goes |
| ChatBuffers.ChatBuffer.LinesToDelete | src/chat.cpp:102-118 | the two counters of the deletion loop |
| ChatBuffers.ChatBuffer.DeleteByAge | src/chat.cpp:132-138 | deletes exactly the longest run of too old lines at the front, with the same effect on the view |
| ChatBuffers.ChatBuffer.Reformat | src/chat.cpp:145-199 | resizes, formats everything anew if the columns changed, keeps a view at the bottom there and puts any other at the first chat line that begins at or below its top, or at the top of the buffer, within the scroll range; the chat line on top stays there exactly under the condition of the next row |
| ChatBuffers.KeepsTopLineExactly | src/chat.cpp:155-197 | when every chat line can be shown, a new size that leaves at least as many lines as rows keeps the chat line on top exactly in these cases: with the same columns, or with the top inside the last chat line, if it is the oldest; otherwise, with the top at its begin, if the bottom of the view range is not before it, and else if the bottom lies within it; with fewer lines than rows nothing stays on top |
| ChatBuffers.MoreRowsShowTop | src/chat.cpp:155-197 | a concrete buffer whose view goes to the top when the console gets a second row |
| ChatBuffers.MoreColumnsShowTop | src/chat.cpp:155-197 | a concrete buffer whose view goes from inside the last chat line to the top when the console gets a second column |
| ChatBuffers.ChatBuffer.Resize | src/chat.cpp:453-458 | sets the limit and deletes what exceeds it, with the same effect on the view |
| ChatBuffers.ChatBuffer.ScrollAbsolute | src/chat.cpp:215-225 | clamps to the scroll range |
| ChatBuffers.ChatBuffer.GetFormattedLine | src/chat.cpp:201-208 | the line on a row of the screen |
| ChatBuffers.ScreenShows | src/chat.cpp:201-208 | a screen that can be filled shows consecutive lines from the top of the view on and no blank row; fewer lines stand in order at the bottom of the screen, below the blank rows |
| ChatBuffers.NewestLineShown | src/chat.cpp:201-208 | a view at the bottom shows the newest chat line, or as much of its end as fits, on the last rows of the screen |
| ChatBuffers.ChatBuffer.Clear | src/chat.cpp:72-78 | forgets everything; the view stays in its range exactly if there are no rows |
| ChatBuffers.ClearedViewIsLost | src/chat.cpp:72-78 | a concrete console of one row whose view clearing leaves out of its range |
| ChatBuffers.ChatBuffer.Execute | src/chat.cpp:51-225 | one operation, whichever it is, keeps formatted and unformatted lines in step and the view in range |
| ChatBuffers.ChatBuffer.ExecuteAll | src/chat.cpp:51-225 | any sequence of operations on a console at least three columns wide does so |
| Paths.RemoveRelativePathComponents | src/filesys.cpp:791-842 | the rewriting from the right returns, character by character, what a forward walk with a stack leads to: a component that follows one that stays keeps the delimiters before it, any other gets a single one, or none at the start of a path without one; it is empty exactly on underflow or if nothing remains, and has no dots and no trailing delimiter |
| Paths.ResolveIsWalk | src/filesys.cpp:808-817 | the names of that walk are those of the walk over components |
| Paths.OutcomeKeep | src/filesys.cpp:795-809 | passing over a component that stays does not change what the rest leads to |
| Paths.OutcomeRemove | src/filesys.cpp:808-831 | nor does rewriting a component away together with the delimiters around it |
| Paths.BackIsWalk | src/filesys.cpp:808-817 | dropping names from the right by a counter agrees with the stack, and the counter ends above zero exactly on underflow |
| Paths.WalkHasNoDots | src/filesys.cpp:808-817 | the walk leaves no dots, and changes nothing where there are none |
| Paths.RemoveOne | src/filesys.cpp:819-831 | rewriting a component away keeps the meaning of the whole path, and the position strictly decreases |
| Paths.KeepOne | src/filesys.cpp:795-809 | so does passing over a component that stays |
| Paths.ComponentsConcat | src/filesys.cpp:795-805 | components of a path cut at a delimiter are those of the parts |
| Paths.Canonical | src/filesys.cpp:791-842 | a path with single delimiters and none at the end is determined by its components and its first character, so for paths without doubled delimiters the result is determined completely |
| Paths.NormaliseTwice | src/filesys.cpp:791-842 | normalising is idempotent |
| PathPrefixes.PathStartsWith | src/filesys.cpp:698-757 | a path starts with a non-empty prefix exactly if both begin with a delimiter or neither does, and the components of the prefix come first |
| NodeTimers.OnePerPosition | src/nodetimer.h:120-121 | the index admits one timer per position |
| NodeTimers.NodeTimerList.Get | src/nodetimer.h:67-75 | the timer at a position with the time elapsed by now |
| NodeTimers.NodeTimerList.Remove | src/nodetimer.h:77-94 | schedule and index lose the timer of that position and nothing else, and the next trigger time stays the first |
| NodeTimers.NodeTimerList.Insert | src/nodetimer.h:96-103 | schedule and index gain the timer, in order, behind those due at the same time |
| NodeTimers.RearmedIsSoonest | src/nodetimer.h:101-102 | inserting keeps the next trigger time that of the first timer exactly if the first timer does not have the value that stands for none, or the new one is no later |
| NodeTimers.TimerOverlooked | src/nodetimer.h:96-103 | a concrete timer, two seconds elapsed of one, set at time zero: its trigger time has that value, so it is due but a step does not see it |
| NodeTimers.DueTimerIsMissed | src/nodetimer.cpp:128-133 | inserted into an empty list, that timer is due and no step forward returns it |
| NodeTimers.NodeTimerList.Set | src/nodetimer.h:105-108 | replaces the timer at a position and nothing else |
| NodeTimers.NodeTimerList.Clear | src/nodetimer.h:110-114 | nothing is left |
| NodeTimers.NodeTimerList.Step | src/nodetimer.cpp:128-150 | timers that are due are returned, in trigger order, each with at least its timeout elapsed, and the others stay; these are all that are due if and only if none is due or the next trigger time is reached and does not stand for none |
| NodeTimers.NodeTimerList.StepAndRearm | src/mapblock.cpp:133-147 | timers whose callback asks for it start again from the beginning, the other elapsed ones are gone, those not elapsed are retained, and there are no others |
| NodeTimerRuns.FiresExactlyOnce | src/nodetimer.cpp:128-150 | in any run of setting, removing, clearing and stepping, a timer whose position is left alone is reported by exactly one command, the first step that reaches its trigger time, exactly once and with its timeout elapsed; if none reaches it, it is never reported and is still there |
| NodeTimerRuns.SetFiresInTime | src/nodetimer.h:96-108 | a timer that is set and then left alone is reported by the first step at which its timeout has elapsed, by the time it was set with and what has passed since, once, with exactly that time, and by no other command |
| NodeTimerRuns.EntryFate | src/nodetimer.cpp:128-150 | until a step reaches its trigger time its entry stays, and from then on there is none at its position |
| NodeTimerRuns.ReportFate | src/nodetimer.cpp:134-143 | a command reports a position left alone once if it is the first to reach the trigger time, else not at all |
| NodeTimerRuns.RunKeepsOneEach | src/nodetimer.h:120-121 | at every moment of a run there is at most one timer at each position |
| NodeTimerRuns.Execute | src/nodetimer.h:67-114 | a command on the list, in place, does what it does in a run exactly if it is no step for which a timer is due while the next trigger time is not reached or stands for none |
| NodeTimerRuns.ExecuteAll | src/nodetimer.cpp:128-150 | any sequence of commands on a list is a run exactly if it has no such step, and it has none if the next trigger time starts as that of the first timer and no timer is set whose trigger time stands for none |
| BlockIds.GetBlockNodeIdMapping | src/mapblock.cpp:222-256 | ids are replaced by their numbers in the order of first occurrence, and the numbers are mapped to the names |
| BlockIds.NumbersInOrder | src/mapblock.cpp:236-251 | equal ids get equal numbers, different ids different ones, and a new id the next free number |
| BlockIds.CorrectBlockNodeIds | src/mapblock.cpp:261-309 | the loop that remembers the last result has the same effect on nodes and registered names as looking up every node by itself, also while unknown names get new ids |
| BlockIds.CorrectedByName | src/mapblock.cpp:287-308 | in the end every node whose id has a name has the id of that name, also if the name was unknown, in which case it has got one of the first free ids, one each, unless these ran out; ids that were registered are kept, and nodes without a name stay as they are |
| BlockIds.RoundTrip | src/mapblock.cpp:222-309 | with known names, numbering and correcting restores the block exactly if every name leads back to its id, and registers nothing |
| BlockIds.StoreAndLoad | src/mapblock.cpp:222-309 | the two loops one after the other on a block restore it |
| FacePositions.FacePositionCache.GenerateFacePosition | src/face_position_cache.cpp:38-110 | for every distance below 32767 each position at that distance is listed exactly once and nothing else, 24*d*d+2 positions, or one for distance zero |
| FacePositions.FacePositionCache.GetFacePositions | src/face_position_cache.cpp:28-36 | the answer from the cache is the very list that generating it would give |
| FacePositions.GeneratedIsShell | src/face_position_cache.cpp:38-110 | that list, in the order of the loops, holds each position at its distance once, and nothing else |
| FacePositions.ShellsAgree | src/face_position_cache.cpp:28-36 | two such lists hold the same positions |
| FacePositions.NearestIsShell | src/face_position_cache.cpp:46-78 | the hand-written sequence for distance one is complete and free of duplicates |
| FacePositions.AddSides | src/face_position_cache.cpp:80-100 | the loops over heights list the sides without the top and bottom, in this order |
| FacePositions.SidesListed | src/face_position_cache.cpp:80-100 | the sides listed height by height are complete and free of duplicates |
| FacePositions.RowsListed | src/face_position_cache.cpp:102-109 | so are the rows of the bottom and top |
| FacePositions.AddBottomAndTop | src/face_position_cache.cpp:102-109 | the last loops complete the list |
| FacePositions.ShellCount | src/face_position_cache.cpp:80-109 | the counts of the loops add up |

## Left out

- Crafting: decrementing inputs and replacements, clearing everything at once, dumping;
  the output of a cooking or fuel recipe beyond its existence. The scan order and buckets are kept.
- Sorting and substring search of the standard library are specified functions, not algorithms of
  their own; the tool repair wear offset is an integer instead of a scaled floating-point number.
- CraftIndex.IndexAgreesWithScan: does not cover group fuel recipes, for which it is false;
  `IndexVersusScan` covers them and says exactly when the two differ.
- Counters, sizes, lengths and scroll positions of 32 bits and more are unbounded integers; only the
  sixteen-bit quantities (stack counts, distances, content ids, coordinates) are bounded.
- Emerge: threads, mutexes and events as such, map generation, Lua and logging; the outcome of a block
  is arbitrary. Active-block flags beyond generation and forcing have no effect on the queue.
- EmergeQueue.ShutdownDrains: callbacks of positions beyond the map limit, and of a block in work when
  an exception ends its worker, are recorded as lost, because the code drops them without running them;
  `RunLosesExactly` says exactly when.
- MoveActions.MoveAction.Apply: limits are not negative; the value -1 for infinite sources and sinks,
  the shift-click loop over many slots, rollback records, notifications and client prediction are not
  modelled, and callbacks do not change the lists while they are asked.
- InventoryLists.InventoryList.MoveItem: both lists share one item definition manager, as in the game;
  change notification flags and resize locks are not modelled.
- Chat: colours and string encodings, the prompt, and reading settings; a fragment's weblink is its text.
- ChatBuffers.ChatBuffer.Execute: does not include Clear, which leaves the view out of range while
  there are rows, as its own contract says.
- Paths: the delimiters and case folding of other platforms, and everything that touches files.
- NodeTimers.NodeTimerList.StepAndRearm: callbacks do not change timers by themselves.
- BlockIds: error messages for unnamed and unallocatable contents; a new id for an unknown name is
  taken from an arbitrary list, and failing to allocate one does not exhaust that list.
- FacePositions: distances from 32767 on, for which the sixteen-bit loops never end.
- Serialization, networking, rendering, physics and the rest of the engine.
