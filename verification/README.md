# Formal model of a voxel game engine's core

This project models seven components of the engine in `src/` and proves properties of them:
crafting, inventory movement, the emerge queue, the disk format of a block's nodes, path
normalisation, node timers and the enumeration of cube shells. `dafny verify dfyconfig.toml`
checks all of it. Each component has modules that say what its operations do and prove laws
about that, and, where the source updates objects or arrays in place, classes and methods
with loops that are proved to do just that.

| component | files |
|---|---|
| shared | `Common` |
| crafting | `Items`, `Strings`, `Permutations`, `Pairings`, `Matching`, `ShapelessRecipe`, `ShapedRecipe`, `Recipes`, `Scans`, `CraftManager` |
| inventory movement | `Stacks`, `Inventory`, `InventoryLists`, `MoveRules`, `MoveSomewhere`, `MoveLimits`, `MoveWalk`, `MoveOutcomes`, `MovePrediction`, `MoveAction` |
| emerge queue and chunk lock | `EmergeQueue`, `EmergeManager`, `ChunkLock`, `EmergeRuns`, `EmergeSafety`, `EmergeGeneration`, `EmergeService` |
| block nodes on disk | `NodeDefs`, `NodeCodec`, `NameIds`, `BlockNodes`, `MapBlocks` |
| paths | `Paths` |
| node timers | `NodeTimers`, `TimerRuns`, `NodeTimerList` |
| cube shells | `FacePositions` |

## How the source is read

- Machine integers are mathematical integers, with `U8` and `U16` where the source relies on
  the width; truncating division, 16-bit indices that become unsigned, 16-bit wrap-around of
  the id search and of written sizes are written out.
- Answers of Lua callbacks are arbitrary integers of at least -1, one set for each time they
  are asked; they change no state.
- The murmur hash is an arbitrary function of a string.
- An item stack has count 0 exactly when it is fully reset; the hand item is in no group.
  A stack may be above its `stack_max`; laws that need it within that say so.
- Times of node timers are real numbers, and saved times are exact.
- An entry of the emerge queue's history (`History`) exists for the proofs only.
- A failing assertion is a returned flag (`aborted`, `holds`); an exception is a missing
  result; a search that would not end is reported as `endless`.

## What was found

Where the code does not do what its comments or uses suggest, the model follows the code and
a lemma says exactly when.

- Fuel priority is computed from `recipe_name` before that is set (`src/craftdef.cpp:941`),
  so group fuel never gets its lower priority and the index can select another definition
  than a plain scan: `CraftManager.FuelIndex` and `CraftManager.FuelIndexCanDiffer`.
- With aliases that make or unmake group slots the same can happen to any craft; exactly
  when: `CraftManager.IndexDiffersIff`.
- Putting back part of an oversized stack drops it (`src/inventory.cpp:682`):
  `Inventory.MoveConservesIff`. It is also the only case in which a predicted single move
  differs from the server's: `MoveRules.PredictionAgrees`.
- Moving a slot onto itself reports the requested number as moved:
  `Inventory.ReportedNumber`. A swap reports an unsigned difference that may wrap:
  `Inventory.SwapReportsDifference`.
- Within one inventory a callback that answers -1 makes the moved items vanish:
  `MoveRules.UnlimitedWithinDestroys`.
- `removeItem` gives all it removes the wear and metadata of the last stack of that name;
  those of other stacks are gone: `InventoryLists.InventoryList.RemoveItem`.
- `roomForItem` of an empty item is false for a list without slots:
  `InventoryLists.InventoryList.RoomForItem`.
- In move-somewhere a count of 0 moves nothing on the server but everything on the client:
  `MoveSomewhere.ZeroMovesNothing`, `MoveSomewhere.ZeroPredictionAgreesIff`.
- At a slot where nothing is tried, which is the source slot itself within one list, and
  every slot once the stack is used up, the move-somewhere loop counts the last `move_count`
  again (`src/inventorymanager.cpp:305-308`, `378-379`). If that is more than is still
  wanted, the assertion at line 307 fails: `MoveOutcomes.EverywhereAbortsIff`,
  `MoveOutcomes.OwnSlotIff` and `MoveOutcomes.AskingForMoreAbortsIff` say exactly when,
  `MoveOutcomes.OwnSlotAborts` and `MoveOutcomes.AskingForMoreAborts` give inputs.
- Otherwise as many items are left behind: `MoveOutcomes.EverywhereLeavesBehind`,
  `MoveOutcomes.EverywhereGivesUpIff`, `MoveOutcomes.OwnSlotIff`, and an input in
  `MoveOutcomes.OwnSlotLeavesBehind`.
- A callback that answers 0 for one slot leaves everything behind and ends the whole loop,
  with later slots offered nothing: `MoveOutcomes.EverywhereGivesUpIff`,
  `MoveOutcomes.RefusalEndsLoop`, `MoveOutcomes.RefusalSkipsRoom`.
- Oversized stacks can be dropped in part, and predicted wrongly, by move-somewhere too:
  `MoveOutcomes.EverywhereKeepsTotalsIff`, `MoveOutcomes.PermittedKeepsTotalsIff`,
  `MoveOutcomes.OversizedIsDropped`, `MovePrediction.SomewherePredictionAgreesIff`.
- `initBlockMake` claims a chunk before looking at the mapgen limit and does not give the
  claim up when it returns (`src/map.cpp:1344-1357`). The claim stays for ever and is
  harmless: `EmergeSafety.LeftoverStays`, `EmergeSafety.StartsUnlessTaken`.
- A block beyond the map limit can be enqueued, but is then dropped together with its
  callbacks: `EmergeSafety.FarBlocksNeverServed`, `EmergeSafety.FarCallbacksNeverRun`,
  `EmergeSafety.FarRequestIsDropped`.
- `allocateId` keeps the start of its search in 16 bits. Once id 65535 has been given out it
  starts at 0 again, and with no id free it then never ends, where its comment promises
  `CONTENT_IGNORE`: `NodeDefs.NodeDefManager.AllocateId`.
- A node whose name gets no id keeps its local number after loading:
  `BlockNodes.CorrectIsRight`.
- A node timer deadline of exactly -1 is taken for "no timer":
  `NodeTimers.InsertCacheIff`, `NodeTimers.StepsRightlyIff`, `TimerRuns.OverdueByOneNeverFires`.
- Bulk node data that ends too early goes unnoticed: `NodeCodec.DeSerializeBulkV1`.
- `generateFacePosition` never ends for distances of 32767 and more:
  `FacePositions.CountsForEverIff`.
- `RemoveRelativePathComponents` gives "" for the root directory as well as for a failure:
  `Paths.RemoveRelativePathComponents`.

## Model

| member | source | states |
|---|---|---|
| `Matching.CanMatchAll` | `src/craftdef.cpp:503-601` | Terminates on every graph of at most 30000 nodes a side, and returns true exactly when some one-to-one assignment along edges covers all nodes. |
| `Matching.Bfs` | `src/craftdef.cpp:520-551` | Every node has a distance or none, distances grow by one along the edges followed, unmatched nodes start at 0; the dummy is reached exactly when its distance is finite. |
| `Matching.Enqueue` | `src/craftdef.cpp:523-532` | All unmatched nodes are queued with distance 0, all others have none. |
| `Matching.Expand` | `src/craftdef.cpp:538-547` | Handling one node leaves every neighbour's partner with a distance, and queues exactly the newly reached ones. |
| `Matching.Dfs` | `src/craftdef.cpp:556-577` | On success the matching stays mutual and covers one more node; on failure nothing but distances changes, and only of nodes without a layered path to the dummy. |
| `Matching.Augment` | `src/craftdef.cpp:566-571` | Swapping an edge after the rest of the path succeeded keeps the matching mutual and extends it by the node the path starts from. |
| `Matching.Backtrack` | `src/craftdef.cpp:560-572` | A failed branch erases only nodes without a layered path, so what can still be matched in this phase is not lost. |
| `Matching.AllDead` | `src/craftdef.cpp:574-576` | When all branches of a node have failed there is no layered path from it, so erasing it is safe. |
| `Matching.LayeredSurvives` | `src/craftdef.cpp:574-576` | A layered path to the dummy survives the erasing of nodes that have none. |
| `Matching.SomeRootLayered` | `src/craftdef.cpp:534-550` | If the dummy was reached, some unmatched node has a layered path to it. |
| `Matching.Phase` | `src/craftdef.cpp:589-598` | A phase whose search reached the dummy matches at least one more node and keeps count of the matched ones. |
| `Matching.NoPerfectMatching` | `src/craftdef.cpp:550-600` | If the search does not reach the dummy although a node is unmatched, no assignment covers all nodes: the reached nodes have fewer neighbours than members. |
| `Matching.FullMatching` | `src/craftdef.cpp:600-600` | As many matched nodes as there are nodes make a perfect matching. |
| `Items.EmptyMatchesOnlyEmpty` | `src/craftdef.cpp:84-109` | With the hand in no group, the empty name can match no slot but the empty one, and the empty slot no name but the empty one. |
| `Items.NamedSlot` | `src/craftdef.cpp:84-109` | A slot that does not begin with `group:` takes the very name it holds and no other. |
| `Items.OneGroup` | `src/craftdef.cpp:93-102` | A slot `group:a`, with no comma in a, takes, besides its own name, exactly the names that are, or are aliases of, a registered item whose rating in a is not 0. |
| `Items.SeveralGroups` | `src/craftdef.cpp:93-103` | A slot `group:a,b`, where b may list more groups, takes exactly what both `group:a` and `group:b` take; a comma at the end adds no group. |
| `Strings.SetDifferenceContents` | `src/craftdef.cpp:645-648` | The sorted merge removes each named slot once, counting duplicates: a multiset difference. |
| `Strings.SortedUnique` | `src/craftdef.cpp:624-631` | A sorted list is determined by its contents. |
| `Pairings.PairableIffAligned` | `src/craftdef.cpp:654-677` | An assignment of indices exists exactly when the two multisets can be laid out row by row. |
| `Pairings.Prefilter` | `src/craftdef.cpp:634-652` | Cancelling the slots that match one name only, against equal inputs, changes nothing: all inputs can be assigned to all slots exactly when the named slots are covered and the remaining inputs can be assigned to the group slots. |
| `ShapelessRecipe.GraphIsPairing` | `src/craftdef.cpp:664-677` | The bipartite graph has a perfect matching exactly when the inputs can be assigned to the slots. |
| `ShapelessRecipe.BuildGraph` | `src/craftdef.cpp:664-674` | An edge for every input and slot that match, and no other. |
| `ShapelessRecipe.Check` | `src/craftdef.cpp:603-678` | True exactly when the method is normal, there are at most 30000 group slots, and all non-empty inputs can be assigned one-to-one to all slots; sorting, partition and prefilter do not show. |
| `ShapedRecipe.GetBounds` | `src/craftdef.cpp:158-189` | The tight bounding box of the occupied cells; failure exactly when there are none. |
| `ShapedRecipe.Pad` | `src/craftdef.cpp:367-370` | Padding the last row changes no cell of the infinite grid. |
| `ShapedRecipe.CompareBoxes` | `src/craftdef.cpp:404-421` | True exactly when all cells of the two boxes match. |
| `ShapedRecipe.BoxFitsIffTranslation` | `src/craftdef.cpp:398-421` | The boxes are equally large and match cell for cell exactly when some translation of the recipe matches the input on the infinite grid. |
| `ShapedRecipe.Check` | `src/craftdef.cpp:360-424` | True exactly when the method is normal, both widths are positive, neither side is empty, and some translation of the recipe matches the input everywhere. |
| `ShapedRecipe.ShiftInvariant` | `src/craftdef.cpp:360-424` | Shifting the input inside its grid does not change the answer. |
| `Recipes.CheckRepair` | `src/craftdef.cpp:770-789` | True exactly when the method is normal and exactly two inputs are given, single tools of one name that may be repaired, whose remaining uses together exceed what the repair costs. |
| `Recipes.CheckSingle` | `src/craftdef.cpp:849-873` | Cooking: exactly one non-empty input, and it matches. |
| `Recipes.Check` | `src/craftdef.cpp:1089-1090` | Every kind of definition is checked by its own rule: shaped by translation, shapeless by assignment, repair, cooking and fuel by their inputs; which names a slot takes is said by `Items.NamedSlot`, `Items.OneGroup` and `Items.SeveralGroups`. |
| `Recipes.FoundUnderItsHash` | `src/craftdef.cpp:1061-1076` | Whatever the hash function, a definition that applies is filed under the very hash of its type that the lookup computes from the input. |
| `Recipes.SameContentsSameHash` | `src/craftdef.cpp:55-80` | Sorted first, grids with the same non-empty names have the same hash. |
| `Scans.ScanFindsWinner` | `src/craftdef.cpp:1079-1105` | A back-to-front scan that only takes strictly better entries finds the last one of the highest priority. |
| `Scans.LayeredScanDiffersIff` | `src/craftdef.cpp:1061-1106` | Scanning two layers one after the other finds something exactly when one scan of everything does, and something else exactly when the winner of that is in the second layer and the first holds an acceptable definition of its priority. |
| `CraftManager.InOneBucket` | `src/craftdef.cpp:1061-1106` | A definition that applies is in exactly one of the two probed buckets. |
| `CraftManager.IndexDiffersIff` | `src/craftdef.cpp:1050-1112` | For every kind of input, every hash function and all aliases: the index finds something exactly when the plain scan does, and something else exactly when the definition the plain scan selects is filed by count and another one that applies, of equal priority, by its names. |
| `CraftManager.IndexIsTransparent` | `src/craftdef.cpp:1050-1112` | For crafting and cooking, and any hash function, the two-layer index selects the very definition the plain scan selects, if no alias makes or unmakes a group slot of a definition that applies. |
| `CraftManager.PlainResultIsBest` | `src/craftdef.cpp:1061-1106` | What either finds is the latest registered among those of highest priority that apply; nothing is found only if none applies. |
| `CraftManager.BestKindIsChosen` | `src/craftdef.h:144-149` | With or without the index, what is found applies and yields a known item, and is of the best kind that does: any shaped recipe goes before all shapeless ones, a repair is chosen only if nothing else applies, and among shaped, shapeless and cooking recipes those without a group slot go first. |
| `CraftManager.LatestOfItsKind` | `src/craftdef.cpp:1079-1105` | Of several that apply and are of that kind the plain lookup chooses none that another was registered after. |
| `CraftManager.FuelIndex` | `src/craftdef.cpp:935-945` | For fuel, whose priority is computed from a name not yet set, both agree on whether anything is found, and differ exactly when the last fuel definition registered that applies names a group and another one that applies names its item. |
| `CraftManager.FuelIndexCanDiffer` | `src/craftdef.cpp:941-944` | A concrete registry, input and pair of fuel definitions for which the index answers differently. |
| `CraftManager.CraftDefManager.RegisterCraft` | `src/craftdef.cpp:1208-1218` | Appends to the unhashed bucket and touches no other. |
| `CraftManager.CraftDefManager.InitHashes` | `src/craftdef.cpp:1232-1247` | Moves every definition to the bucket of its type and hash, in order, and empties the unhashed one. |
| `CraftManager.CraftDefManager.ScanBucket` | `src/craftdef.cpp:1079-1105` | Scanning one bucket continues the scan with the best found so far. |
| `CraftManager.CraftDefManager.GetCraftResult` | `src/craftdef.cpp:1050-1112` | Nothing for an empty input; otherwise the plain scan's result before hashing, the layered one's after it, and in either case a definition of the best kind that applies and yields a known item. |
| `Stacks.FitPredictsAdd` | `src/inventory.cpp:248-285` | What `itemFits` would leave over is what adding leaves over. |
| `Stacks.AddConserves` | `src/inventory.cpp:211-246` | Adding one stack to another creates and destroys nothing of any name and metadata, and what is left over is the same item. |
| `Stacks.AddAccepts` | `src/inventory.cpp:211-246` | The slot gains, and the added stack loses, exactly what is acceptable. |
| `Stacks.AddIsExact` | `src/inventory.cpp:211-246` | An empty slot takes the whole stack; one of the same name and metadata keeps its wear and is topped up to the limit of the item, never losing what it has; any other takes nothing. |
| `Stacks.TakeConserves` | `src/inventory.cpp:294-312` | Taking splits a stack without loss and gives at most what was asked. |
| `Inventory.AddAllConserves` | `src/inventory.cpp:508-545` | Adding to a list keeps the total of every kind of item, the leftover included. |
| `Inventory.AddAllLeftover` | `src/inventory.cpp:508-545` | The leftover is nothing if some slot is empty, else what exceeds the free space of matching slots. |
| `Inventory.AddAllUsesFirstEmpty` | `src/inventory.cpp:508-545` | Empty slots stay empty, but for the first, which takes exactly what the matching stacks have no room for. |
| `Inventory.TopUpInOrder` | `src/inventory.cpp:524-532` | Matching stacks are topped up in slot order: none gains anything before those in front of it are full. |
| `Inventory.DrainRemoves` | `src/inventory.cpp:603-621` | Removing takes the requested number or all there are of that name, and leaves other names alone. |
| `Inventory.DrainFromBack` | `src/inventory.cpp:603-621` | A slot gives items away only if all later ones of its name end empty, and changes in number only. |
| `Inventory.HeldOfKind` | `src/inventory.cpp:584-601` | With metadata asked for, the number held is the total of items of that name and that metadata. |
| `Inventory.HeldByName` | `src/inventory.cpp:584-601` | Otherwise it is the total of items of that name, as if no stack had metadata. |
| `Inventory.MoveSlotsConserves` | `src/inventory.cpp:655-700` | A move between two slots, swaps included, keeps the amount of every kind of item, unless part of an oversized stack cannot be put back. |
| `Inventory.MoveConservesIff` | `src/inventory.cpp:678-682` | Exactly when items are lost: a part of a stack was taken that the destination did not all accept, and the rest in the source slot is above its limit with it. |
| `Inventory.MovedIsExact` | `src/inventory.cpp:671-699` | Without a swap the returned number is what reached the destination, and it is what left the source exactly unless part of an oversized stack is lost on the way back. |
| `Inventory.RelocateAccounts` | `src/inventory.cpp:634-653` | Moving somewhere in another list changes totals by exactly what cannot be put back. |
| `Inventory.RelocateLosesNothing` | `src/inventory.cpp:649-652` | A source stack within its limit always has room for what comes back. |
| `Inventory.RearrangeAccounts` | `src/inventory.cpp:634-653` | The same account when source and destination are one list. |
| `Inventory.RearrangeLosesNothing` | `src/inventory.cpp:649-652` | Within one list nothing is lost either, if the source stack is within its limit. |
| `Inventory.MoveKeepsTotalsIff` | `src/inventory.cpp:655-700` | Over one list or two, for any indices in or out of range, partial fits and swaps: every total is kept exactly unless part of an oversized stack is lost on the way back. |
| `Inventory.NothingAddedIff` | `src/inventory.cpp:508-545` | Adding changes nothing at all exactly when no slot is empty and no matching stack has room. |
| `Inventory.RelocateLosesIff` | `src/inventory.cpp:634-653` | Between two lists something is lost exactly when part of a stack is taken, no slot is empty, the matching stacks have too little room, and what is left brings the source above its limit. |
| `Inventory.RearrangeLosesIff` | `src/inventory.cpp:634-653` | Within one list something is lost exactly when part of a stack is taken, no slot is empty, and all matching stacks together, the source included, have too little room. |
| `Inventory.SomewhereKeepsTotalsIff` | `src/inventory.cpp:634-653` | `moveItemSomewhere` keeps every total, in one list or between two, for stacks of any size, exactly outside those two cases. |
| `Inventory.ReportedNumber` | `src/inventory.cpp:658-659` | Without a swap the returned number misstates what left the source exactly for a slot moved onto itself, where nothing moves, and for an overflow on the way back. |
| `Inventory.SwapReportsDifference` | `src/inventory.cpp:658-700` | A swap returns 0, or, if part of the stack was asked for, by how much that exceeds what was put back before the exchange, in 32 bits: for a stack within its limit a number below 0, wrapped around. |
| `InventoryLists.InventoryList.ChangeItem` | `src/inventory.cpp:490-499` | Exchanges the stack of a slot; out of range the new stack comes back. |
| `InventoryLists.InventoryList.AddItemAt` | `src/inventory.cpp:547-556` | Adds to one slot; out of range everything is left over. |
| `InventoryLists.InventoryList.AddItem` | `src/inventory.cpp:508-545` | First the occupied, then the empty slots, each as far as it accepts. |
| `InventoryLists.InventoryList.ItemFits` | `src/inventory.cpp:558-569` | Tells what adding to a slot would leave over, without adding. |
| `InventoryLists.InventoryList.RoomForItem` | `src/inventory.cpp:571-582` | True exactly when adding would leave nothing over, although slots are visited in another order; an empty item needs a slot to be there. |
| `InventoryLists.InventoryList.ContainsItem` | `src/inventory.cpp:584-601` | True exactly when the list holds at least that many of the name, and of the metadata if asked. |
| `InventoryLists.InventoryList.RemoveItem` | `src/inventory.cpp:603-621` | Removes the smaller of what is asked and what there is by name, from the back; what comes back has the wear and metadata of the last stack of that name, whatever the other stacks had. |
| `InventoryLists.InventoryList.TakeItem` | `src/inventory.cpp:623-632` | Takes up to a number of items off a slot. |
| `InventoryLists.InventoryList.MoveItemSomewhere` | `src/inventory.cpp:634-653` | Both lists, or the one list, end as taking, adding and putting back leaves them. |
| `InventoryLists.InventoryList.MoveItem` | `src/inventory.cpp:655-700` | Both lists, the returned number and the swap flag are those of the move as a function, even if both lists are one object. |
| `MoveRules.SwapAsAnnounced` | `src/inventorymanager.cpp:493-498` | Whatever the callbacks answer, a swap takes place exactly when it was announced, so the assertion holds. |
| `MoveLimits.ApplyMovesAsAllowed` | `src/inventorymanager.cpp:364-450` | The outcome of every single move, within a list or between two, for all answers but "unlimited": if the slot accepts any of the portion asked for, it gains what it accepts of the least of that portion, the take answer and, between inventories, the put answer; if it accepts none, the stacks change places exactly if every answer allows the whole stacks; no other slot ever changes. |
| `MoveLimits.EndlessEnds` | `src/inventorymanager.cpp:500-531` | If -1 is among the answers and there is room: an unlimited source keeps its stack while the destination gets what it would get under 65535 instead; an unlimited destination keeps its stack while the source loses all that may be taken. |
| `MoveLimits.EndlessExchange` | `src/inventorymanager.cpp:500-531` | If there is no room: an unlimited source keeps its stack and the one exchanged for it is put aside; an unlimited destination keeps its stack and the source is emptied; without permission in both directions nothing happens. |
| `MoveRules.PutAsideFirst` | `src/inventorymanager.cpp:508-516` | A stack put aside goes to the first empty slot, or nowhere if there is none. |
| `MoveRules.EndlessSource` | `src/inventorymanager.cpp:500-523` | Within one list or between two, asked for by hand or by move-somewhere: an unlimited source keeps its stack, the destination slot receives what was moved, and a stack exchanged for it goes to the first empty slot. |
| `MoveRules.EndlessDestination` | `src/inventorymanager.cpp:524-531` | In the same generality: an unlimited destination keeps its stack and the source loses the full count; only a stack exchanged with an unlimited source is put into the first empty slot as well. |
| `MoveRules.UnlimitedWithinDestroys` | `src/inventorymanager.cpp:391-531` | Within one inventory, where one answer counts for both ends, -1 leaves the destination as it was and destroys what was moved, unless stacks are exchanged. |
| `MoveRules.ApplyKeepsForm` | `src/inventorymanager.cpp:336-531` | Whatever is answered, -1 included, lists keep their sizes, hold proper stacks only, and the reported number is not negative. |
| `MoveRules.ApplyConservesIff` | `src/inventorymanager.cpp:336-531` | For any answers but "unlimited", one list or two: one applied move never adds to the total of any kind of item, and keeps them all exactly if it does not take part of an oversized stack that has no room on the way back. |
| `MoveRules.SlotsAgree` | `src/inventorymanager.cpp:364-389` | In range and with everything permitted, server and client end with equal slots unless the client drops part of an oversized stack. |
| `MoveRules.PredictionAgrees` | `src/inventorymanager.cpp:631-660` | From equal lists and with everything permitted, for all 16-bit indices and counts, prediction and server agree exactly when the client does not drop part of an oversized stack that is accepted nowhere. |
| `MoveSomewhere.VisitAbortsIff` | `src/inventorymanager.cpp:301-308` | The assertion in the loop fails exactly for a stale count: the source slot is empty, or is the slot visited, and the last count is above what is left to move. |
| `MoveSomewhere.EverywhereAccounts` | `src/inventorymanager.cpp:281-332` | Between two lists, for a stack within its limit, at most as many items as there are and any non-negative answers: the assertion always holds, the source loses exactly the sum of the reported counts and never more than asked, and every total is kept. |
| `MoveWalk.EverywhereIsWalk` | `src/inventorymanager.cpp:281-332` | In one list or between two, for any stack, any number asked for and any non-negative answers, the loop over the lists is a walk of the source stack past the slots as they are at the beginning: it ends with the same source stack and number, fails at the same place, and loses and leaves behind the same numbers of items. |
| `MoveOutcomes.EverywhereKeepsTotalsIff` | `src/inventorymanager.cpp:281-332` | In that generality the total of the moved kind falls by exactly the items lost on that walk, and no other changes. |
| `MoveOutcomes.PermittedKeepsTotalsIff` | `src/inventorymanager.cpp:281-332` | With everything permitted, between two lists, and within one for part of a stack: totals are kept exactly unless part of an oversized stack is asked for and the first occupied slot with room takes too little of it for the rest to go back. |
| `MoveOutcomes.OversizedIsDropped` | `src/inventory.cpp:678-682` | A concrete run: 100 of 200 items are offered to a slot with room for 49, and the totals are not kept. |
| `MoveOutcomes.VisitGivesUpIff` | `src/inventorymanager.cpp:301-308` | For a stack within its limit, fewer items leave the source or stay wanted after a visit than before exactly when a callback allows none at a slot that has room for some, or when nothing is tried and the last number was not 0. |
| `MoveOutcomes.RefusalEndsLoop` | `src/inventorymanager.cpp:447-464` | A refusal ends the loop: no slot after it, in either pass, is offered anything. |
| `MoveOutcomes.EverywhereLeavesBehind` | `src/inventorymanager.cpp:301-328` | In one list or between two, for any stack and number: what has left the source without being lost, what is still wanted, and what was left behind at the slots add up to what was asked for. |
| `MoveOutcomes.EverywhereGivesUpIff` | `src/inventorymanager.cpp:301-328` | For a stack within its limit some of what was asked for neither leaves the source nor stays wanted exactly when some slot is refused by a callback that leaves nothing, or is the source itself or comes after it is used up, with a last number that is not 0. |
| `MoveOutcomes.NothingLeftBehind` | `src/inventorymanager.cpp:301-328` | Between two lists, with everything permitted and no more asked for than there is, nothing is left behind and the assertion holds. |
| `MoveOutcomes.OwnSlotIff` | `src/inventorymanager.cpp:301-308` | Within one list, with everything permitted: with F the free space of the matching slots before the source and L that of the last occupied one, the assertion fails exactly when F is less than the number asked for and L more than what then remains, and L items are left behind when F is less and L is not more. |
| `MoveOutcomes.OwnSlotAborts` | `src/inventorymanager.cpp:301-308` | A concrete list and request, for no more than the stack, that fails the assertion. |
| `MoveOutcomes.OwnSlotLeavesBehind` | `src/inventorymanager.cpp:301-308` | A concrete list in which one item stays behind although everything is permitted and a later slot is free. |
| `MoveOutcomes.RefusalSkipsRoom` | `src/inventorymanager.cpp:447-464` | A concrete run: refused at the first slot, a stack stays where it is although the second slot has room for it. |
| `MoveOutcomes.EverywhereAbortsIff` | `src/inventorymanager.cpp:301-328` | In one list or between two, for any stack, number and non-negative answers: the assertion fails exactly if, on the walk past the slots, the last number is above what is still wanted at the source slot itself or after the stack is used up. |
| `MoveOutcomes.AskingForMoreAbortsIff` | `src/inventorymanager.cpp:301-328` | Between two lists, with everything permitted and a stack within its limit, that is exactly when more is asked for than it holds and what is too much is no multiple of the number the last slot took, with slots enough to notice. |
| `MoveOutcomes.AskingForMoreAborts` | `src/inventorymanager.cpp:305-308` | Of three items and with two empty slots, asking for five fails the assertion and asking for six does not. |
| `MovePrediction.SomewherePredictionAgreesIff` | `src/inventorymanager.cpp:631-660` | Between two lists, with everything permitted, for any stack and any count but 0: the server's loop ends with the client's lists exactly unless part of an oversized stack is moved and either no slot takes any, or the first that does takes too little for the rest to go back and another would take more. |
| `MoveSomewhere.ZeroMovesNothing` | `src/inventorymanager.cpp:319-327` | Asked for 0 the server's loop moves nothing. |
| `MoveSomewhere.ZeroPredictionAgreesIff` | `src/inventorymanager.cpp:652-653` | The client takes 0 to mean everything, so both its lists are then right exactly when there is nothing to move, or no slot is empty and no matching stack has room. |
| `MoveAction.IMoveAction.SwapDirections` | `src/inventorymanager.cpp:158-163` | Exchanges both ends of the action. |
| `MoveAction.IMoveAction.AskCallbacks` | `src/inventorymanager.cpp:391-441` | The limits and the permission to swap that result from the answers; the directions are afterwards as before. |
| `MoveAction.IMoveAction.RefillSource` | `src/inventorymanager.cpp:500-523` | Restores an unlimited source and puts a displaced foreign stack into the first empty slot. |
| `MoveAction.IMoveAction.ResetDestination` | `src/inventorymanager.cpp:524-531` | Restores an unlimited destination and takes the count from the restored source. |
| `MoveAction.IMoveAction.Decide` | `src/inventorymanager.cpp:336-480` | Everything before the move: either nothing happens, or the count, the limits and the swap decision are those of the rules. |
| `MoveAction.IMoveAction.Execute` | `src/inventorymanager.cpp:482-531` | The move itself and what follows for unlimited ends, on the two list objects, which may be one. |
| `MoveAction.IMoveAction.ApplyOnce` | `src/inventorymanager.cpp:336-531` | Lists, count and reported number after one applied move are those of the rules; a move that is not part of move-somewhere, with no unlimited answer, changes the two lists exactly as `MoveLimits.ApplyMovesAsAllowed` says. |
| `MoveAction.IMoveAction.AddToSlots` | `src/inventorymanager.cpp:301-328` | A pass over the occupied, or the empty, slots is the loop of the rules. |
| `MoveAction.IMoveAction.Apply` | `src/inventorymanager.cpp:245-332` | The whole action: nothing without lists, one move, or the loop over all slots with every field restored. |
| `MoveAction.IMoveAction.ClientApply` | `src/inventorymanager.cpp:631-660` | The prediction: nothing unless both ends are the current player's, else the list operation directly. |
| `EmergeQueue.Shortest` | `src/emerge.cpp:486-504` | The first of the shortest queues. |
| `EmergeQueue.QueuedExactlyOnce` | `src/emerge.cpp:343-371` | In a consistent state a position is in the table exactly when it sits in a queue, and it sits in one place only. |
| `EmergeQueue.PopNeverFails` | `src/emerge.cpp:463-483` | In a consistent state the front of any queue is in the table, its peer has a counter, and the counter is not 0. |
| `EmergeQueue.EnqueueConsistent` | `src/emerge.cpp:343-371` | Enqueueing, refused or not, merged or not, keeps table, queues and counters in agreement. |
| `EmergeQueue.PopConsistent` | `src/emerge.cpp:577-590` | So does popping. |
| `EmergeQueue.CancelledEmpties` | `src/emerge.cpp:542-557` | Cancelling leaves the thread's queue empty and the rest in agreement. |
| `EmergeQueue.EnqueueWithinLimits` | `src/emerge.cpp:423-438` | A request that is not forced never takes the queue over the total or a peer's limit. |
| `EmergeQueue.AdmittedIff` | `src/emerge.cpp:423-438` | A request is refused exactly if it is not forced and either the table is full or its peer has as many blocks in it as its share allows: the limit for generating or for loading, or half of the total for nobody's requests. |
| `EmergeQueue.EnqueueOutcome` | `src/emerge.cpp:343-371` | Afterwards a block is in the table exactly if it was there or its request is admitted; an admitted one is merged into the entry and, if new, queued last in the first of the shortest queues; any other request, even for a block that is queued, changes neither table nor queues. |
| `EmergeManager.EmergeManager.PushBlockEmergeData` | `src/emerge.cpp:415-460` | Accepted exactly if forced or within the total and the peer's limit; then the entry is new or merged, and the counter counts new ones only. |
| `EmergeManager.EmergeManager.PopBlockEmergeData` | `src/emerge.cpp:463-483` | Takes the entry out and counts its peer down; without entry or counter, or with a counter of 0, nothing changes and it says which. |
| `EmergeManager.EmergeManager.GetOptimalThread` | `src/emerge.cpp:486-504` | The loop finds the first of the shortest queues. |
| `EmergeManager.EmergeManager.EnqueueBlockEmergeEx` | `src/emerge.cpp:343-371` | Table, counters and thread queues afterwards are those of the enqueue step; in a consistent state the request is accepted exactly if it is admitted. |
| `EmergeManager.EmergeManager.PopBlockEmerge` | `src/emerge.cpp:577-590` | The front of the thread's queue with its data, taken out of queue and table; a front without a table entry is only taken off the queue. |
| `EmergeManager.EmergeManager.CancelPendingItems` | `src/emerge.cpp:542-557` | Takes out everything queued for the thread, in order. |
| `EmergeSafety.QueueAlwaysConsistent` | `src/emerge.cpp:343-371` | After every run of any number of threads, each enqueued position is in exactly one queue once, counters equal the table entries of each peer, and every non-empty queue can be popped. |
| `EmergeSafety.LimitsNeverExceeded` | `src/emerge.cpp:423-438` | After every run without forced requests the total and per-peer limits hold. |
| `EmergeSafety.EntriesMergeRequests` | `src/emerge.cpp:441-460` | After every run a queued entry has the peer of the first, and the flags and callbacks of all, requests accepted since it was queued, in order. |
| `EmergeRuns.CallbacksConserved` | `src/emerge.cpp:542-590` | After every run each accepted callback is in the table, in one thread's hands, has been run, or was dropped with its block: once in all. |
| `EmergeSafety.OnlyFarBlocksDropped` | `src/emerge.cpp:701-702` | After every run only blocks beyond the map limit have been dropped. |
| `EmergeSafety.FarBlocksNeverServed` | `src/emerge.cpp:677-755` | After every run a report about a block beyond the map limit can only be a cancel, and without a thread stopping there is none at all. |
| `EmergeSafety.FarCallbacksNeverRun` | `src/emerge.cpp:677-755` | So while no thread stops, an accepted callback of such a block is waiting, held or dropped, and is never run. |
| `EmergeSafety.FarRequestIsDropped` | `src/emerge.cpp:677-705` | A run of request, pop and fetch after which such a block and its callback are gone and nothing is reported. |
| `EmergeSafety.CallbacksDelivered` | `src/emerge.cpp:677-755` | Within the map limit no callback is lost and none is run more often than it was accepted. |
| `EmergeSafety.ShutdownReportsAll` | `src/emerge.cpp:542-557` | From any reachable state with idle threads, stopping them leaves the table empty and every accepted callback run exactly once, or dropped with its block. |
| `EmergeSafety.NoTwoGenerateOneBlock` | `src/map.cpp:1338-1345` | After every run no block is inside two chunks being generated at once. |
| `EmergeSafety.LockAlwaysHeld` | `src/map.cpp:1338-1463` | After every run whoever generates a chunk has claimed it alone, and any other claim is on a chunk too far out to be generated. |
| `EmergeSafety.StartsUnlessTaken` | `src/map.cpp:1344-1357` | Leftover claims are harmless: a chunk can be claimed exactly when nobody generates it and it lies within the limits. |
| `EmergeSafety.LeftoverStays` | `src/map.cpp:1344-1357` | A claim on a chunk too far out, once made in a run, is still there however the run goes on. |
| `EmergeGeneration.ChunksGeneratedOnce` | `src/map.cpp:1338-1463` | In a run that unloads no block of a chunk in progress, no chunk is started twice. |
| `EmergeService.FrontIsServed` | `src/emerge.cpp:677-755` | In every reachable state an idle thread that is left to run takes the front of its queue and deals with it at once: dropped if too far out; else exactly its callbacks are run, with an outcome that is true of the map: from memory, from disk, generated exactly if that is allowed, free and within the limits, or cancelled. |
| `EmergeService.QueueIsServed` | `src/emerge.cpp:677-755` | Left to run on, it serves any number of blocks of its queue in order, running the callbacks kept for each that is not too far out, and leaves the others as they were. |
| `ChunkLock.FetchOutcome` | `src/emerge.cpp:593-616` | A generated block comes from memory if it is there, else from disk; for any other the generation of its chunk starts exactly if it is allowed, unclaimed and within the limits, and if it is allowed the chunk is claimed in any case. |
| `ChunkLock.ChunksAreCentred` | `src/emerge.cpp:386-393` | The chunk of block 0 starts half a chunk below it, rounded down, and chunks repeat after their size. |
| `ChunkLock.FarthestBlock` | `src/mapblock.h:582-590` | Blocks up to 1937 in each direction are within the map limit, and no others. |
| `ChunkLock.GeneratableIff` | `src/map.cpp:1325-1357` | A chunk can be generated exactly if it and one block around it lie within the configured limit, which is at least 0 and at most 31007 nodes. |
| `ChunkLock.ContainerPosIsFloor` | `src/emerge.cpp:386-393` | The truncating formula rounds down, for negative positions too. |
| `ChunkLock.ChunksPartition` | `src/emerge.cpp:386-393` | A block lies in a chunk exactly when that is its own: chunks partition all positions. |
| `ChunkLock.ServerMap.InitBlockMake` | `src/map.cpp:1338-1401` | Starts exactly when the chunk is unclaimed and within the limits, and then creates all its blocks and those around; the claim stays in either case. |
| `ChunkLock.ServerMap.FinishBlockMake` | `src/map.cpp:1403-1463` | Marks exactly the chunk's blocks in memory as generated and gives the claim up. |
| `ChunkLock.ServerMap.GetBlockOrStartGen` | `src/emerge.cpp:593-616` | Memory before disk before generation, and what each loads or claims. |
| `NodeDefs.ResolveIsLasting` | `src/nodedef.cpp:1378-1427` | An alias resolves to its id before a name does, and only a name that is neither is allocated one; a resolved name is known ever after by that id, and what was known stays known. |
| `NodeDefs.AllocatedIsFresh` | `src/nodedef.cpp:1209-1226` | An allocated id was free, and now carries the name. |
| `NodeDefs.AllocationUsesOne` | `src/nodedef.cpp:1209-1226` | With a free id from the search start on, allocation succeeds and uses up one at most. |
| `NodeDefs.NodeDefManager.AllocateId` | `src/nodedef.cpp:1209-1226` | The first free id from the search start on; without one, failure, or, begun at 0, a search that would never end. |
| `NodeDefs.NodeDefManager.AllocateDummy` | `src/nodedef.cpp:1421-1427` | Gives the name its known id or a newly allocated one. |
| `NodeDefs.NodeDefManager.GetName` | `src/nodedef.h:574-578` | The name registered for an id; `unknown` for ids without one. |
| `NodeCodec.LayoutIsBijective` | `src/mapnode.cpp:648-691` | The bulk format stands for one sequence of nodes, and a sequence of nodes for one string of bytes. |
| `NodeCodec.SerializeBulkV1` | `src/mapnode.cpp:639-657` | Writes the bulk format: contents in two bytes each with the high one first, then first, then second parameters. |
| `NodeCodec.DeSerializeBulkV1` | `src/mapnode.cpp:668-691` | Reads the nodes whose bulk format the stream begins with and leaves what follows; where the stream is too short, the rest comes from what the new buffer happened to hold. |
| `NameIds.SerializeV1` | `src/nameidmapping.cpp:32-42` | Writes a listing of the whole table, in some order, with numbers in two bytes, the high one first; fails exactly if a name is too long. |
| `NameIds.DeSerialize` | `src/nameidmapping.cpp:44-65` | Reads the table, or fails where the code throws. |
| `NameIds.TableRoundTrip` | `src/nameidmapping.cpp:32-65` | A table of at most 65535 entries, written in any order, reads back as itself, up to where it ends in the stream. |
| `BlockNodes.GetBlockNodeIdMapping` | `src/mapblock.cpp:264-307` | Local ids without gaps in order of first occurrence, one per original id, each with its name in the table; parameters unchanged. |
| `BlockNodes.CorrectBlockNodeIds` | `src/mapblock.cpp:312-372` | Nodes and registry end as after one look-up per node: the previous-id shortcut changes nothing, whether the loop ends, a search hangs, or an unknown empty name fails the assertion. |
| `BlockNodes.CorrectIsRight` | `src/mapblock.cpp:327-360` | Every node ends with the id its name is known by, or, without one, as it was. |
| `BlockNodes.RoomForAll` | `src/mapblock.cpp:345-353` | With as many free ids as unknown names, every name gets an id. |
| `BlockNodes.DiskRoundTrip` | `src/mapblock.cpp:264-372` | Saved under one registry and loaded under another with room: every node has the id its old name is now known by, and its parameters. |
| `BlockNodes.SameRegistryRoundTrip` | `src/mapblock.cpp:312-372` | Under the same registry the very nodes return, and leave it unchanged, exactly if each name leads back to its id, or, with no id free, to none while the local id happens to be the old one. |
| `MapBlocks.MapBlock.SerializeNodes` | `src/mapblock.cpp:415-439` | The node part of a block for disk or network, without changing the block. |
| `MapBlocks.MapBlock.DeserializeNodes` | `src/mapblock.cpp:497-538` | Reads the node part back, from a stream of any length and with any table of names, and corrects the ids if it came from disk. |
| `MapBlocks.BlockRoundTrip` | `src/mapblock.cpp:415-538` | The disk round trip through both encodings: names keep their meaning, parameters their values. |
| `Paths.ComponentsSplit` | `src/filesys.cpp:678-729` | Cut at a delimiter, a path falls apart into its components. |
| `Paths.BackwardIsForward` | `src/filesys.cpp:682-718` | Going from the back with a count of pending removals leaves what a stack leaves going from the front; the count ends above 0 exactly when a `..` has nothing to pop. |
| `Paths.ReducedOnce` | `src/filesys.cpp:678-729` | A reduced path is not reduced any further. |
| `Paths.ReducedIsPlain` | `src/filesys.cpp:678-729` | No `.` or `..` is left. |
| `Paths.ParentCancels` | `src/filesys.cpp:682-718` | Anywhere in a path a `..` takes back the one component before it and nothing else. |
| `Paths.CurrentVanishes` | `src/filesys.cpp:682-718` | Anywhere in a path a `.` changes nothing. |
| `Paths.NoParentOfRoot` | `src/filesys.cpp:682-718` | A path that begins with `..` cannot be reduced, whatever follows. |
| `Paths.SlashSeparates` | `src/filesys.cpp:678-729` | A slash separates components everywhere, a backslash on Windows only. |
| `Paths.RemoveRelativePathComponents` | `src/filesys.cpp:678-729` | For every string: the result's components are the stack's, "" exactly when the reduction fails or is empty; absolute stays absolute, relative relative; a path without `.` and `..` only loses trailing delimiters. |
| `NodeTimers.SetRefines` | `src/nodetimer.h:105-108` | Setting a timer replaces the one at its position and touches no other. |
| `NodeTimers.RemoveRefines` | `src/nodetimer.h:77-94` | Removing takes away the timer of one position only. |
| `NodeTimers.InsertCacheIff` | `src/nodetimer.h:96-103` | Inserting breaks the cached minimum exactly when the earliest deadline is -1 and the new one is later. |
| `NodeTimers.RemoveKeepsCache` | `src/nodetimer.h:80-93` | Removing keeps the cached minimum right. |
| `NodeTimers.StepsRightlyIff` | `src/nodetimer.cpp:141-163` | With the cache right, a step fires exactly the due timers, once each, in order of deadline, with the right elapsed time, and keeps the others: unless the earliest deadline is -1 and has been reached. |
| `NodeTimers.DueAreFired` | `src/nodetimer.cpp:148-157` | The due slots are fired once each, in order, with the time they are late. |
| `TimerRuns.RunsRefine` | `src/nodetimer.h:67-114` | Under every sequence of set, remove, clear and step, with no timer set for -1, the slots, the index and the cached minimum together are a map of deadlines. |
| `TimerRuns.FiresOnceAndOnTime` | `src/nodetimer.cpp:141-163` | After any operations on other positions and any steps, none of them setting a timer for -1, a step fires a timer exactly if it is the first step of all or the first to reach its deadline, and reaches it. |
| `TimerRuns.OverdueByOneNeverFires` | `src/nodetimer.h:96-103` | A timer set at time 0 with an elapsed time one above its timeout has the deadline -1: after any number of steps it is due and not fired by the next. |
| `TimerRuns.PackRoundTrip` | `src/nodetimer.cpp:107-115` | A position inside the block is packed as the index of its node, into 16 bits, and survives it. |
| `TimerRuns.ReloadKeepsRemaining` | `src/nodetimer.cpp:61-138` | Saved and loaded at any other time, every timer with a positive timeout has the time remaining that it had, and there is no other. |
| `TimerRuns.ReloadRefines` | `src/nodetimer.cpp:61-138` | If no loaded deadline is -1, the loaded list is a map of deadlines again, cached minimum included, so that everything said about runs goes on to hold. |
| `NodeTimerLists.NodeTimerList.Get` | `src/nodetimer.h:67-75` | The timer with its elapsed time, or the default one. |
| `NodeTimerLists.NodeTimerList.Remove` | `src/nodetimer.h:77-94` | Slots, index and cache after removing. |
| `NodeTimerLists.NodeTimerList.Insert` | `src/nodetimer.h:96-103` | Slots, index and cache after inserting behind all that are not later. |
| `NodeTimerLists.NodeTimerList.SetTimer` | `src/nodetimer.h:105-108` | Removes, then inserts. |
| `NodeTimerLists.NodeTimerList.Advance` | `src/nodetimer.cpp:141-163` | Slots, index, cache and the returned timers after a step. |
| `NodeTimerLists.NodeTimerList.SerializeV1` | `src/nodetimer.cpp:61-79` | The number of timers in 16 bits, and a record of each in order of deadline: the node's index in the block, the timeout, and as elapsed what the time that remains leaves of it. |
| `NodeTimerLists.NodeTimerList.DeserializeV1` | `src/nodetimer.cpp:103-138` | Clears, then loads the records, one the stream ends in with zeros for what is missing included, ignoring those without a positive timeout, second ones for a position, and those missing altogether, which read as zero. |
| `FacePositions.GenerateFacePosition` | `src/face_position_cache.cpp:38-110` | Every position at distance d is listed, no other, none twice: 24*d*d + 2 of them for d above 0; it is endless exactly if a 16-bit coordinate counted up from -d never exceeds d. |
| `FacePositions.CountsForEverIff` | `src/face_position_cache.cpp:80-110` | That is so exactly for distances of 32767 and more. |
| `FacePositions.FirstShell` | `src/face_position_cache.cpp:46-78` | The 26 neighbours, each once. |
| `FacePositions.Level` | `src/face_position_cache.cpp:80-101` | One height of the side faces, above and below the middle. |
| `FacePositions.BottomAndTop` | `src/face_position_cache.cpp:102-109` | The bottom and top faces complete the shell. |
| `FacePositions.FacePositionCache.GetFacePositions` | `src/face_position_cache.cpp:28-36` | The shell of the distance asked for, from the cache or listed and kept; other entries stay. |

## Left out

- Lua scripting, rollback recording, logging, metrics, and the reports to callbacks after a move: foreign calls without effect on the modelled state.
- Callbacks that themselves change inventories or remove lists, for which the source re-reads its lists and locks their size.
- Item strings: recipes hold bare names, outputs are names, and cooking times are not kept.
- `decrementInput`, replacements, the lookup of recipes by output, and clearing of recipes: they would only add easy members.
- Wear: it is carried along but neither compared when stacking nor conserved, as in the source.
- Item stacks and single nodes are values: the source's stack methods that change a stack in place are functions from the old to the new stack.
- Drop and craft actions of the inventory manager.
- The 32-bit width of the queue counters of the emerge manager.
- Thread wake-ups, exceptions thrown by block loading, and the order of callbacks within one report.
- Contents of generated blocks, liquids, lighting and the voxel manipulator: only which blocks exist and which are marked as generated.
- Sectors, block eviction policy and saving: an unloaded block is taken to be on disk as it was.
- Compression, flags, lighting, timestamps, metadata and static objects of a block: only its nodes and their table of names.
- Content features other than their name; groups and removal of nodes.
- Version bytes of the timer list and of the bulk node data, and the errors for unsupported ones.
- Rounding of saved times to thousandths and of times to `float`.
- `MoveSomewhere.EverywhereAccounts`: stated for a stack within its limit; the other cases are in `MoveOutcomes.EverywhereKeepsTotalsIff` and `MoveOutcomes.EverywhereLeavesBehind`.
- `MoveOutcomes.EverywhereGivesUpIff`: stated for a stack within its limit; `MoveOutcomes.EverywhereLeavesBehind` has the numbers for any.
- `MoveWalk.EverywhereIsWalk`: stated for answers that are not negative; of -1 the effect of a single move is in `MoveLimits.EndlessEnds` and `MoveLimits.EndlessExchange`.
- `MoveOutcomes.OwnSlotIff`: stated for no more than a stack within its limit, and `MoveOutcomes.PermittedKeepsTotalsIff` within one list for part of a stack: the general `MoveOutcomes.EverywhereAbortsIff`, `MoveOutcomes.EverywhereLeavesBehind` and `MoveOutcomes.EverywhereKeepsTotalsIff` cover the rest.
- `EmergeService.QueueIsServed`: stated for a thread that runs while the others rest; what they may do meanwhile is covered by the laws over all runs.
- `MoveLimits.ApplyMovesAsAllowed`: stated for answers that are not negative; `MoveLimits.EndlessEnds` and `MoveLimits.EndlessExchange` cover -1.
- `CraftManager.LatestOfItsKind`: stated for the plain lookup; with the index another of the same kind can be found exactly as `CraftManager.IndexDiffersIff` says.
- `CraftManager.IndexIsTransparent`: stated for aliases that make or unmake no group slot; `CraftManager.IndexDiffersIff` covers all.
