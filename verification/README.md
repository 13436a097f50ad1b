# Verified model of the ydelta order-book core

ydelta is an on-chain lending order book. Its seats, resting orders and loans live in
red-black trees whose nodes are addressed by index into one flat account, together with a
free list of unused blocks; its lending arithmetic works on 128-bit fixed-point numbers with
48 fractional bits; a TypeScript client reads the same memory and repeats parts of the
arithmetic. This project models these three parts in Dafny and proves what they promise.

Run `dafny verify dfyconfig.toml` with Dafny 4.11.

## The parts

**The index-addressed tree** (`Hypertree`, `Shape`, `Balance`, `Links`, `Swap`, `FixUp`,
`Order`, `RedBlackTree`, `History`). A class over a shared array of node records mirrors
`lib/src/red_black_tree.rs` write by write. A ghost inductive tree is tied to the array by
`Linked`, and a zipper (`Path`) names the one position that is out of order during a fix-up.
`WellFormed` says: consistent links, black root, no red-red edge, equal black heights, keys in
order, cached maximum correct. `Ord` is an arbitrary total preorder and `PartialEq` an
arbitrary predicate beside it; they are not assumed to coincide. Insertion and removal are
proved to change the sorted sequence of entries by exactly one entry; `History` lifts this to
every run from the empty tree, with the first-in-first-out rule for equal keys.

**The array that several structures share** (`FreeList`, `Arena`, `ArenaRuns`, `Walkers`). The
free list overlays the left link of a node record. An arena owns one array, one free list and
any number of trees; over every run the allocated blocks stay partitioned among them and each
operation leaves the other structures alone. `Walkers` proves the client's own traversal equal
to the program's iterator.

**The lending arithmetic** (`Math`, `RateCalc`, `Ltv`, `Shares`, `TsLtv`). Every operation
rounds and fails where the source does. The results are error bounds, monotonicity,
conservation of interest, exactness of share conversions, the rule that no Fixed loan is born
liquidatable, and the agreement of the client's unbounded arithmetic with the checked one.

**The matching simulation** (`Predictors`). The greedy walk of one bid over the asks, with one
turn for every ask looked at. The contract of the simulation is proved to determine its result.

## Where code and documentation disagree

The code is modelled as it is.

- `lib/src/red_black_tree.rs:588-590` says that the work stack of `lookup_index` never exceeds
  the height of the tree. A tree of one node that equals the probe only in key order already
  needs two entries. The exact bound is height + 1, and `LookupIndex` states precisely when it
  is reached.
- `ts/src/ltv.ts:103-104` says that a borrower is never quoted more than the cap safely allows.
  `QuoteCanExceed` gives a quote that needs more collateral than was offered, and
  `QuoteCanBeRefused` one that has no requirement at all. `QuoteIsSafe` states, for every input,
  exactly when the comment holds, and `QuoteExcess` how far it can be missed.

One expectation about the seven-point curve has an exception in the code: with a used point at
full utilisation the curve ends at the rate of that point, not at the hundred rate.
`CurveMeetsEnds` states exactly when the two differ.

## Model

| member | source | states |
|---|---|---|
| `RedBlackTrees.RedBlackTree.RemoveByIndex` | lib/src/red_black_tree.rs:1144-1203 | Removing NIL does nothing. Removing a node leaves a well-formed tree (links, colours, key order, cached maximum) whose in-order entries are the old ones without exactly that entry; payloads never move and no block outside the tree is written |
| `RedBlackTrees.RedBlackTree.RemoveNode` | lib/src/red_black_tree.rs:1144-1203 | The same for the slot at position `k` of the key order, down to the sequence of slots |
| `RedBlackTrees.RedBlackTree.DropMax` | lib/src/red_black_tree.rs:1151-1158 | The cached maximum after the removal is the last slot of what remains, NIL only for an empty rest or a tree opened without a cache |
| `RedBlackTrees.RedBlackTree.MakeExternal` | lib/src/red_black_tree.rs:1164-1168 | A node with two children trades places with its successor; afterwards it has at most one child and cutting it out leaves the old order without it |
| `RedBlackTrees.RedBlackTree.TradePlaces` | lib/src/red_black_tree.rs:1164-1168 | The trade moves the node from position `k` to `k + 1` of the key order and keeps colours balanced |
| `RedBlackTrees.RedBlackTree.TakeOut` | lib/src/red_black_tree.rs:1160-1203 | Both steps together delete position `k` of the key order and keep the tree balanced with a black root |
| `RedBlackTrees.RedBlackTree.Detach` | lib/src/red_black_tree.rs:1170-1203 | Splicing out a node with at most one child and repairing the colours gives a balanced tree over exactly the remaining slots; the fix-up loop terminates |
| `RedBlackTrees.RedBlackTree.RemoveFix` | lib/src/red_black_tree.rs:1239-1344 | One round on a subtree that is one black node short, possibly empty: it balances the tree or moves the shortage one level up, or below a red parent after the single red-sibling rotation; below a red parent the round is the last one |
| `RedBlackTrees.RedBlackTree.Borrow` | lib/src/red_black_tree.rs:1260-1316 | Case 3a rebuilds the subtree as described by `Borrowed`; the fail-closed return after the four sub-cases is never reached |
| `RedBlackTrees.RedBlackTree.Lift` | lib/src/red_black_tree.rs:1330-1343 | Case 3c lifts the red sibling above the parent and keeps the key order |
| `FixUp.BorrowBalanced` | lib/src/red_black_tree.rs:1260-1305 | After case 3a the whole tree is balanced and the root colour is unchanged |
| `FixUp.MergeBalanced` | lib/src/red_black_tree.rs:1318-1328 | Case 3b passes the shortage to a black parent, one level closer to the root, or ends it at a red one |
| `FixUp.LiftBalanced` | lib/src/red_black_tree.rs:1330-1343 | After case 3c the same subtree is still the only short one and its parent is red |
| `FixUp.SiblingExists` | lib/src/red_black_tree.rs:1252-1258 | A short subtree below the root always has a sibling, and a red sibling has two children and a black parent |
| `FixUp.SpliceRed` | lib/src/red_black_tree.rs:1182-1188 | Cutting out a node when it or its child is red, with the child painted black, keeps balance |
| `FixUp.SpliceBlack` | lib/src/red_black_tree.rs:1190-1196 | Cutting out a black node without a red child makes exactly its place one black node short |
| `RedBlackTrees.RedBlackTree.UpdateParentChild` | lib/src/red_black_tree.rs:544-561 | The node is replaced by its only child, or by nothing, and nothing else of the tree changes |
| `Links.SpliceLinked` | lib/src/red_black_tree.rs:544-561 | The writes of the splice store the tree with that node cut out |
| `Links.SpliceOrder` | lib/src/red_black_tree.rs:544-561 | The key order loses exactly that slot |
| `RedBlackTrees.RedBlackTree.SwapNodeWithSuccessor` | lib/src/red_black_tree.rs:488-541 | The stored tree is the old one with the two slots renamed into each other: shape and the colour at every position stay, also for a direct right child and for the root |
| `RedBlackTrees.RedBlackTree.SwapLinks` | lib/src/red_black_tree.rs:488-540 | All link and colour writes of the exchange, before the root field |
| `Swap.SwapAll` | lib/src/red_black_tree.rs:488-541 | The four groups of writes in program order add up to the exchange, temporary self-links included; payloads and foreign blocks are untouched |
| `Swap.SwapRecord` | lib/src/red_black_tree.rs:499-540 | At every slot the record written is the old record of the other place with the two slots exchanged |
| `Swap.ExchangedAdjacent` | lib/src/red_black_tree.rs:1160-1168 | On the key order the exchange transposes two adjacent entries |
| `FixUp.ExchangedBalanced` | lib/src/red_black_tree.rs:537-540 | Black heights, root colour and balance are unaffected by the exchange |
| `RedBlackTrees.RedBlackTree.RotateLeft` | lib/src/red_black_tree.rs:378-431 | The rotation stores the rotated subtree in the same place, keeps the key order and writes only blocks of this tree |
| `RedBlackTrees.RedBlackTree.RotateRight` | lib/src/red_black_tree.rs:433-486 | The mirror image |
| `Links.RotateLeftLinked` | lib/src/red_black_tree.rs:378-431 | The six writes and the great-grandparent step together store the rotated tree |
| `Links.RotateRightLinked` | lib/src/red_black_tree.rs:433-486 | The mirror image |
| `Links.RotateLeftPointwise` | lib/src/red_black_tree.rs:378-431 | Exactly four records change, each as the rotation intends |
| `Links.RotatedLeftOrder` | lib/src/red_black_tree.rs:378-431 | A left rotation does not change the in-order sequence |
| `Links.RotatedRightOrder` | lib/src/red_black_tree.rs:433-486 | A right rotation does not change the in-order sequence |
| `Links.RecolorLinked` | lib/src/red_black_tree.rs:349-355 | Recolouring changes one colour of the stored tree; on NIL it changes nothing |
| `RedBlackTrees.RedBlackTree.View` | lib/src/red_black_tree.rs:237-279 | What the read helpers return at a position of the stored tree, NIL conventions included |
| `RedBlackTrees.RedBlackTree.Insert` | lib/src/red_black_tree.rs:1092-1141 | Inserting a fresh block leaves a well-formed tree whose entries are the old ones with the new one just before the first that is not less; the cached maximum follows; only blocks of the tree and the new one are written |
| `RedBlackTrees.RedBlackTree.InsertLeaf` | lib/src/red_black_tree.rs:1113-1128 | After the descent the entries already are the final ones and the new red leaf is the only spot whose parent may be red |
| `RedBlackTrees.RedBlackTree.RaiseMax` | lib/src/red_black_tree.rs:1124-1126 | The cache moves to the new slot exactly when its key exceeds the last one; an equal key leaves it |
| `RedBlackTrees.RedBlackTree.InsertRoot` | lib/src/red_black_tree.rs:1095-1111 | The first node becomes a black root and the cached maximum |
| `RedBlackTrees.RedBlackTree.InsertNodeNoFix` | lib/src/red_black_tree.rs:1348-1402 | The leaf is attached so that everything before it is less and everything after it is not |
| `RedBlackTrees.RedBlackTree.FindPlace` | lib/src/red_black_tree.rs:1349-1390 | The descent ends at a node with a free child on the correct side, with all smaller keys before and all others after that place |
| `Links.AttachLinked` | lib/src/red_black_tree.rs:1389-1401 | The writes of the attachment store the tree with the new red leaf |
| `Order.LeafInserted` | lib/src/red_black_tree.rs:1376-1394 | On the level of entries the new leaf is an insertion before the first key that is not less, and the result is sorted |
| `RedBlackTrees.RedBlackTree.FixInserted` | lib/src/red_black_tree.rs:1130-1137 | The fix-up loop ends with a balanced tree, a black root and the same key order |
| `RedBlackTrees.RedBlackTree.InsertFix` | lib/src/red_black_tree.rs:1410-1489 | One round: the tree becomes balanced, or the one possible red-red edge moves up exactly two levels; the root turns black on the way out |
| `RedBlackTrees.RedBlackTree.InsertRotate` | lib/src/red_black_tree.rs:1445-1487 | The four black-uncle cases store the subtree described by `Rotated` |
| `RedBlackTrees.RedBlackTree.InsertRecolor` | lib/src/red_black_tree.rs:1436-1443 | The red-uncle case stores the recoloured subtree |
| `FixUp.RedUncle` | lib/src/red_black_tree.rs:1436-1443 | After the red-uncle case the grandparent is the only node that may have a red parent |
| `FixUp.BlackUncle` | lib/src/red_black_tree.rs:1452-1487 | After any black-uncle case the whole tree is balanced and keeps its root colour |
| `FixUp.LeafSpot` | lib/src/red_black_tree.rs:1113-1128 | A red leaf in a balanced tree starts the fix-up in its invariant |
| `RedBlackTrees.RedBlackTree.LookupMaxIndex` | lib/src/red_black_tree.rs:625-637 | The walk to the right finds the last slot in key order, NIL for an empty tree |
| `RedBlackTrees.RedBlackTree.GetNextLowerIndex` | lib/src/red_black_tree.rs:651-672 | The slot before the given one in key order, NIL for the first and for NIL |
| `RedBlackTrees.RedBlackTree.GetNextHigherIndex` | lib/src/red_black_tree.rs:678-686 | The in-order successor of a node with a right child, which has no left child |
| `RedBlackTrees.RedBlackTree.Iterate` | lib/src/red_black_tree.rs:901-930 | The iterator yields the slots of the tree from last to first, each once, with or without a cached maximum |
| `RedBlackTrees.RedBlackTree.LookupIndex` | lib/src/red_black_tree.rs:580-623 | A hit is equal to the probe in both senses and is found whenever one exists. The work stack holds at most height + 1 entries, and it exceeds the height exactly when the rightmost way down has full height and every node on it equals the probe in key order but not as a payload |
| `RedBlackTrees.RedBlackTree.Visit` | lib/src/red_black_tree.rs:596-620 | One comparison reports the node or replaces it on the stack by the subtrees that can still contain a hit |
| `RedBlackTrees.RedBlackTree.StackHeight` | lib/src/red_black_tree.rs:585-590 | The work stack never exceeds height + 1, and reaching that bound forces the full spine of near misses |
| `RedBlackTrees.OneNearMiss` | lib/src/red_black_tree.rs:588-590 | A concrete search that outgrows its tree: one stored node, a probe equal to it only in key order, two entries on the work stack at height 1 |
| `Order.PruneRight` | lib/src/red_black_tree.rs:613-616 | When a node is greater, nothing to its right can be a hit |
| `Order.PruneLeft` | lib/src/red_black_tree.rs:617-620 | When a node is less, nothing to its left can be a hit |
| `Balance.HeightBound` | lib/src/red_black_tree.rs:577-579 | Two to the height is at most the square of the size plus one: height at most 2·log2(n + 1) for every balanced tree with a black root |
| `Balance.CheckedIsBalanced` | lib/src/red_black_tree.rs:854-894 | The self-check of the source, red nodes with black children and one count of black nodes on every way from the root to a missing child, passes exactly on the balanced trees |
| `RedBlackTrees.RedBlackTree.Unaffected` | lib/src/red_black_tree.rs:349-561 | A change of memory outside its blocks leaves a tree well formed with the same entries |
| `RedBlackTrees.RedBlackTree.constructor` | lib/src/red_black_tree.rs:1207-1218 | Opening a tree takes the stored root and cache as they are |
| `History.Replay` | lib/src/red_black_tree.rs:1090-1204 | Any legal history of insertions and removals from empty keeps the tree well formed with the entries the history says; the cache equals the slow maximum and is NIL exactly for an empty tree; iterating yields the live slots from greatest to least |
| `History.Apply` | lib/src/red_black_tree.rs:1090-1204 | One operation of a history on the stored tree |
| `History.FirstInFirstOut` | lib/src/red_black_tree.rs:1376-1378 | After any history keys ascend and equal keys stand youngest first, so that the descending iterator yields equal keys oldest first |
| `History.StampsForgotten` | lib/src/red_black_tree.rs:1376-1378 | The time stamps used to state the rule do not influence the entries |
| `History.LiveExactlyOnce` | lib/src/red_black_tree.rs:901-930 | After a legal history every live slot occurs exactly once in the sequence and no other slot does |
| `FreeLists.FreeList.Add` | lib/src/free_list.rs:74-89 | A freed block goes to the front: its first word links to the old head and every other word is zero; the debug scan refuses a block exactly when it is among the first 2^20 listed ones, and a refused block changes nothing |
| `FreeLists.FreeList.Scan` | lib/src/free_list.rs:75-84 | The scan finds a block exactly when it is listed within the bound; up to the bound the answer is exact |
| `FreeLists.FreeList.Remove` | lib/src/free_list.rs:92-108 | The most recently freed block is handed out with every word zero and is no longer listed; an empty list gives END and changes nothing |
| `FreeLists.DoubleFree` | lib/src/free_list.rs:66-69 | Without the scan, freeing any listed block again leaves no finite free list behind the new head |
| `FreeLists.FreeList.Unaffected` | lib/src/free_list.rs:74-108 | A change of memory outside its blocks leaves the list as it is |
| `ArenaRuns.PerformAll` | programs/ydelta/src/state/user_account.rs:608-648 | Over every legal run of growing, inserting and releasing, the trees and the free list in one array stay well formed, the blocks stay partitioned, and free list and entries are what the run says |
| `ArenaRuns.Perform` | programs/ydelta/src/state/user_account.rs:608-648 | One operation of such a run |
| `Arenas.Arena.InsertNew` | programs/ydelta/src/state/user_account.rs:611-620 | The first free block moves to the chosen tree and carries the value; without a free block nothing changes; all other trees keep their entries |
| `Arenas.Arena.Release` | programs/ydelta/src/state/user_account.rs:623-632 | The removed node's block becomes the first free one; all other trees keep their entries |
| `Arenas.Arena.Expand` | programs/ydelta/src/state/user_account.rs:634-648 | The next block of the array joins the free list and no tree changes |
| `Arenas.Arena.TakeBlock` | programs/ydelta/src/state/user_account.rs:611-620 | A block leaves the free list and belongs to nobody until it is inserted; every tree is as before |
| `Arenas.Arena.GiveBlock` | programs/ydelta/src/state/user_account.rs:623-632 | A block of nobody joins the free list; every tree is as before |
| `Arenas.Arena.Link` | programs/ydelta/src/state/user_account.rs:611-620 | Inserting the taken block into one tree leaves every other tree and the free list alone |
| `Arenas.Arena.Unlink` | programs/ydelta/src/state/user_account.rs:623-632 | Removing a node from one tree leaves every other tree and the free list alone |
| `Arenas.MoveBlock` | programs/ydelta/src/state/user_account.rs:608-632 | Moving one block between owners keeps the partition of the allocated blocks |
| `Arenas.GrowBlocks` | programs/ydelta/src/state/user_account.rs:634-648 | Adding the next block to one owner keeps the partition of the allocated blocks |
| `Walkers.WalkDescending` | ts/src/accounts/trees.ts:95-110 | The client's descending walk yields the slots in exactly the order of the program's iterator |
| `Walkers.WalkAscending` | ts/src/accounts/trees.ts:113-128 | The ascending walk yields the reverse order, each slot once |
| `Walkers.Predecessor` | ts/src/accounts/trees.ts:61-73 | The slot before the given one in key order, NIL for the first |
| `Walkers.Successor` | ts/src/accounts/trees.ts:76-87 | The slot after the given one in key order, NIL for the last |
| `Walkers.Leftmost` | ts/src/accounts/trees.ts:39-47 | The first slot of a subtree in key order |
| `Walkers.Rightmost` | ts/src/accounts/trees.ts:50-58 | The last slot of a subtree in key order |
| `Math.MulScaleBounds` | programs/ydelta/src/math.rs:242-248 | The scaled product is the exact one rounded down by less than one unit, and overflows exactly when that does not fit |
| `Math.DivScaleBounds` | programs/ydelta/src/math.rs:253-262 | The scaled quotient is the exact one rounded down by less than one unit; a zero divisor and an overflow are told apart, each exactly when it occurs |
| `Math.MulDivBounds` | programs/ydelta/src/math.rs:298-315 | The wide division rounds down, or up on request, by less than one; it overflows exactly when the rounded result does not fit, and a zero divisor is reported as such |
| `Math.FromScaledFloorBounds` | programs/ydelta/src/math.rs:276-278 | Rounding down to whole atoms gives the integer part |
| `Math.FromScaledCeilBounds` | programs/ydelta/src/math.rs:282-292 | Rounding to whole atoms never fails and gives the least integer that covers the value |
| `Math.ScaledRoundTrip` | programs/ydelta/src/math.rs:267-292 | Scaling succeeds exactly below 2^80 and both ways back return the number |
| `RateCalc.InterestRateCurveSevenPoint` | programs/ydelta/src/protocol/marginfi_rate_calc.rs:312-350 | The loop over the points computes the curve defined by recursion over the remaining points, errors included |
| `RateCalc.CurveIsMonotone` | programs/ydelta/src/protocol/marginfi_rate_calc.rs:312-350 | On strictly increasing utilisations and non-decreasing rates the curve never fails, is monotone in utilisation, and stays between the zero and the hundred rate |
| `RateCalc.CurveMeetsKnots` | programs/ydelta/src/protocol/marginfi_rate_calc.rs:312-350 | The curve meets the rate of every used point exactly |
| `RateCalc.CurveMeetsEnds` | programs/ydelta/src/protocol/marginfi_rate_calc.rs:312-350 | The curve meets the zero rate at utilisation zero, and the hundred rate from full utilisation on if and only if no used point at full utilisation decodes to another rate |
| `RateCalc.CurveCanMissHundred` | programs/ydelta/src/protocol/marginfi_rate_calc.rs:325-346 | A rising configuration whose point at full utilisation shadows the hundred rate |
| `RateCalc.CurveAccuracy` | programs/ydelta/src/protocol/marginfi_rate_calc.rs:240-350 | On a rising configuration the curve interpolates between the two neighbouring knots around a utilisation, cut off at one, with no used point between them and the hundred rate only beyond the last used point; there it lies on or below the exact line, by less than 1 + rise/2^48 |
| `RateCalc.CurveStops` | programs/ydelta/src/protocol/marginfi_rate_calc.rs:312-350 | Any configuration, rising or not: the walk passes the used points below the utilisation while they rise strictly and ends at the first that does not rise, or is not below, or behind the last one; the segment that ends there gives the place on its line, or InvalidArgument when it does not rise |
| `RateCalc.LerpAccuracy` | programs/ydelta/src/protocol/marginfi_rate_calc.rs:240-278 | One interpolation: InvalidArgument exactly off a rising segment; otherwise both ends exact, result between them, error less than 1 + rise/2^48 |
| `RateCalc.LerpMonotone` | programs/ydelta/src/protocol/marginfi_rate_calc.rs:240-278 | Interpolation on one rising segment is monotone |
| `RateCalc.KnotsOrdered` | programs/ydelta/src/protocol/marginfi_rate_calc.rs:232-238 | Decoding keeps utilisations strictly and rates weakly ordered |
| `RateCalc.LegacyIsMonotone` | programs/ydelta/src/protocol/marginfi_rate_calc.rs:280-310 | Wherever the two-piece curve returns rates it is monotone, at most the plateau below the optimum and at least the plateau from it on |
| `RateCalc.LegacyBelow` | programs/ydelta/src/protocol/marginfi_rate_calc.rs:293-295 | Up to the optimum it never fails, is zero at zero and the plateau at the optimum, and lies on or below the line between them by less than 1 + plateau/2^48 |
| `RateCalc.LegacyAbove` | programs/ydelta/src/protocol/marginfi_rate_calc.rs:296-309 | Beyond the optimum it lies on or below the line from the plateau towards the maximum at full utilisation, by less than 1 + rise/2^48, cut off at the 128-bit maximum; it stays on the plateau when the maximum is below it |
| `RateCalc.LegacyFits` | programs/ydelta/src/protocol/marginfi_rate_calc.rs:296-309 | Beyond the optimum it overflows exactly when one of its two products does not fit, never up to full utilisation, where it is exactly the maximum, or the plateau if that is larger |
| `RateCalc.LegacyRefuses` | programs/ydelta/src/protocol/marginfi_rate_calc.rs:287-304 | InvalidArgument exactly for an optimum of zero, or for a utilisation beyond an optimum of one or more |
| `RateCalc.BorrowersPayBase` | programs/ydelta/src/protocol/marginfi_rate_calc.rs:352-384 | The borrowing rate is at least the base rate and the lending rate at most base times utilisation, saturation included |
| `RateCalc.RatesAreExact` | programs/ydelta/src/protocol/marginfi_rate_calc.rs:352-384 | By curve type: type 0 takes the two-piece curve, type 1 the seven-point curve, any other is refused as InvalidIntegrationAccount. An error of the curve is passed on; the rates exist exactly when both products fit. Lending is base times utilisation, borrowing base times one plus the relative fees plus the fixed fees, each less than one unit rounded down, with every sum cut off at the 128-bit maximum |
| `RateCalc.LegacyRates` | programs/ydelta/src/protocol/marginfi_rate_calc.rs:280-384 | On type 0 both rates follow from a base rate on one of the two exact lines |
| `RateCalc.SevenPointRates` | programs/ydelta/src/protocol/marginfi_rate_calc.rs:312-384 | On type 1 and a rising configuration both rates follow from a base rate on the line between the two knots next to the utilisation |
| `RateCalc.ProjectionsMonotone` | programs/ydelta/src/protocol/marginfi_rate_calc.rs:408-467 | Both projections of one bank state are at least the stored share value and never fall as time passes |
| `RateCalc.AccruedBounds` | programs/ydelta/src/protocol/marginfi_rate_calc.rs:388-400 | A share value grows by its floored share of the floored period rate and stops at the 128-bit maximum; it fails exactly when one of the two products does not fit and something accrues |
| `RateCalc.ProjectionsExact` | programs/ydelta/src/protocol/marginfi_rate_calc.rs:408-467 | Both projections in plain numbers: unchanged until the clock passes the last update or while a floored total is zero; refused exactly when a total or the utilisation does not fit, or with the error of the rates; otherwise lenders grow at the lending rate and borrowers at the borrowing rate for the seconds in between |
| `RateCalc.InterestIsConserved` | programs/ydelta/src/protocol/marginfi_rate_calc.rs:408-467 | For one bank state, interest credited to lenders exceeds interest charged to borrowers by less than the floored lending period rate plus total liabilities plus liability shares, plus the liability shares times the growth of the liability share value that does not fit 128 bits, in raw units; without due interest neither side moves |
| `RateCalc.GrowthIsConserved` | programs/ydelta/src/protocol/marginfi_rate_calc.rs:352-400 | The same bound without a cut-off term for the uncut growth of both share values, on the bank state alone |
| `RateCalc.SaturationBreaksConservation` | programs/ydelta/src/protocol/marginfi_rate_calc.rs:399-400 | A bank whose saturated liability share value credits lenders beyond the bound without its cut-off term |
| `Ltv.Pow10Loop` | programs/ydelta/src/state/ltv.rs:19-27 | The checked loop returns the power of ten exactly when it fits 128 bits |
| `Ltv.RequiredMonotone` | programs/ydelta/src/state/ltv.rs:34-72 | Where both calls succeed on positive inputs, required collateral is monotone up in debt, debt price and liability weight and down in collateral price and weight |
| `Ltv.WeightedBounds` | programs/ydelta/src/state/ltv.rs:34-72 | For any prices and weights the requirement is debt times its price and liability weight over collateral price times collateral weight, times the power of ten, up to stated rounding on both sides, and cut off at the 64-bit maximum |
| `Ltv.WeightedSucceeds` | programs/ydelta/src/state/ltv.rs:34-72 | A zero price or weight asks for the 64-bit maximum; otherwise there is a requirement exactly when every intermediate result fits its width, the decimal exponent is at most 38 and the divisor is not zero |
| `Ltv.RequiredAtMost` | programs/ydelta/src/state/ltv.rs:82-100 | At a cap the requirement stays at or below a limit exactly when the debt value fits under it at the floored collateral price, or the limit is the 64-bit maximum |
| `Ltv.UnderAsk` | programs/ydelta/src/state/ltv.rs:82-100 | A requirement below the maximum falls short of the exact rational one by less than 10^d units scaling up and less than two units scaling down |
| `Ltv.CapLeavesBuffer` | programs/ydelta/src/state/ltv.rs:109-111 | The effective origination cap and the buffer add up to the maximum LTV, or the cap is zero when the buffer exceeds it |
| `Ltv.NotBornLiquidatable` | programs/ydelta/src/state/ltv.rs:82-111 | Collateral that met the origination cap keeps the Fixed gate shut at the same prices and any debt no larger, as soon as the stamp is at least the effective cap; zero caps and saturated requirements included |
| `Ltv.GapIsEnough` | programs/ydelta/src/state/constants.rs:53-56 | A stamp at least the minimum gap above the maximum LTV meets that condition for every buffer: no Fixed loan is born liquidatable |
| `Ltv.GateOpens` | programs/ydelta/src/state/ltv.rs:177-273 | The Fixed gate opens if and only if debt, collateral, prices and stamp are positive, the widths fit, the collateral is below the 64-bit maximum and the debt value does not fit under it at the floored price; it reports a solvent loan if and only if instead the value fits or the collateral is that maximum; what does not fit its width is reported as an arithmetic error |
| `Ltv.GateRefuses` | programs/ydelta/src/state/ltv.rs:189-225 | Which error each degenerate input gets, in the order of the checks |
| `Ltv.BreachIsReal` | programs/ydelta/src/state/ltv.rs:177-273 | The Fixed gate opens only when the debt is worth strictly more than the collateral at the floored product of its price and the stamped weight, for any decimals |
| `Ltv.SolventIsCovered` | programs/ydelta/src/state/ltv.rs:177-273 | A Fixed loan that the gate calls solvent is covered by its collateral up to the rounding of the requirement |
| `Ltv.DegenerateNeverOpens` | programs/ydelta/src/state/ltv.rs:189-225 | A zero debt, collateral, price or stamp never opens the Fixed gate and is reported as something other than solvency |
| `Shares.FlooredShares` | programs/ydelta/src/protocol/marginfi.rs:373-387 | The floored conversion is the exact quotient rounded down by less than one share; it fails exactly when that does not fit, and a zero share value is a division by zero |
| `Shares.CeilIsLeast` | programs/ydelta/src/protocol/marginfi.rs:507-530 | A share count is worth the target exactly when it is at least the ceiling conversion: the result is the least covering count |
| `Shares.CeilWorth` | programs/ydelta/src/protocol/marginfi.rs:507-530 | The result covers the target, and converts back to exactly the target for share values up to 2^96 |
| `Shares.CeilFails` | programs/ydelta/src/protocol/marginfi.rs:507-530 | The ceiling conversion fails exactly for a zero share value or when the least covering count does not fit; the overflow of the floor and that of the step up are told apart |
| `Shares.FlooredRoundTrip` | programs/ydelta/src/protocol/marginfi.rs:353-387 | Converting to shares and back never gains, loses at most one atom for share values up to 2^96, and is exact if and only if the share value divides the scaled amount |
| `Shares.SharesToAmountIsWorth` | programs/ydelta/src/protocol/marginfi.rs:353-371 | The conversion to atoms succeeds exactly when the floored worth fits 64 bits and then returns it; the two overflows are told apart |
| `Shares.LiabilityAtoms` | programs/ydelta/src/protocol/marginfi.rs:583-591 | Liability atoms are off by less than one fixed-point unit below and less than one atom above the exact debt; they exist exactly when the floored debt fits 64 bits after rounding up, and the two overflows are told apart |
| `Shares.LiabilitySplit` | programs/ydelta/src/protocol/marginfi.rs:583-591 | A position split in two never owes less than the whole by more than one atom |
| `TsLtv.TwinsAgree` | ts/src/ltv.ts:71-97 | Wherever the checked program returns a requirement, the unbounded client computes the same number |
| `TsLtv.TwinsFail` | programs/ydelta/src/state/ltv.rs:34-100 | The program returns a requirement if and only if every intermediate result fits its width, the decimal exponent is at most 38 and the divisor is not zero; it reports a zero divisor exactly when the debt value fits and the client raises |
| `Ltv.SucceedsExactly` | programs/ydelta/src/state/ltv.rs:19-100 | The same condition on the program alone, with the zero divisor told apart from the widths |
| `TsLtv.QuoteParts` | ts/src/ltv.ts:105-125 | A quote in plain numbers for any decimals, at most the 64-bit maximum; one rounding suffices unless the debt asset has more decimals |
| `TsLtv.QuoteIsBacked` | ts/src/ltv.ts:105-125 | With any decimals the quoted debt is worth no more than the weighted collateral |
| `TsLtv.QuoteIsSafe` | ts/src/ltv.ts:103-125 | On all inputs, the requirement of a quote stays within the collateral it was made for if and only if a condition on the inputs holds: the floored collateral price is not zero and flooring it costs less than the other roundings leave; degenerate prices and caps quote nothing, which is refused below the 64-bit maximum |
| `TsLtv.RequirementAtMost` | ts/src/ltv.ts:71-97 | For any decimals a requirement stays at or below a limit exactly when the debt value fits under that limit at the floored collateral price |
| `TsLtv.QuoteCanExceed` | ts/src/ltv.ts:103-125 | A concrete quote that needs 15 atoms where 10 were offered |
| `TsLtv.QuoteCanBeRefused` | ts/src/ltv.ts:103-125 | A concrete quote of 7 atoms whose requirement has a zero divisor |
| `TsLtv.QuoteSafeWhenWhole` | ts/src/ltv.ts:103-125 | For any decimals the comment is true whenever collateral price times cap weight is a positive whole number of units |
| `TsLtv.QuoteExcess` | ts/src/ltv.ts:103-125 | For any decimals, required(maxBorrow(c)) is at most c plus c/d rounded up, where d > 0 is the floored product of price and cap weight, if and only if the debt price is positive or that bound reaches the 64-bit maximum |
| `TsLtv.TsPow10` | ts/src/ltv.ts:38-42 | The unbounded loop returns the power of ten |
| `Predictors.SimulatePlaceOrder` | ts/src/predictors.ts:109-205 | Fills and residual add up to the bid; matched collateral never exceeds the bid's; the pool flag is exact; every ask looked at has one turn in book order, a fill or a skip that was right after the fills before it and while principal was wanted. No sub-vault, by its last record, has more drawn than its total less its deployed principal, nor anything drawn when more is deployed than it has. On a best-first book a residual means that every ask that meets rate and term and is backed by a record was refused for its LTV at its turn, or its sub-vault has drawn and deployed exactly its total or deployed more |
| `Predictors.FillInPlain` | ts/src/predictors.ts:136-196 | Every fill in plain terms: rate and term met, the seat belongs to the sub-vault of the last record of that id, the principal is the smaller of what is wanted and what that sub-vault can still lend, the collateral is the floored pro-rata share, and the LTV is within the limit |
| `Predictors.SkipInPlain` | ts/src/predictors.ts:130-180 | Every skip in plain terms: what each of the seven reasons says about the ask, its seat, its sub-vault and the refused cross |
| `Predictors.EstimatorInPlain` | ts/src/predictors.ts:87-111 | A given estimator is used; the default is principal over collateral in basis points rounded down, and the largest safe number without collateral |
| `Predictors.SimulationDetermined` | ts/src/predictors.ts:109-205 | That contract leaves no choice: two simulations that keep it make the same fills and skips in the same order and end with the same residual |
| `Predictors.AccountsAgree` | ts/src/predictors.ts:127-197 | Two accounts of one walk agree turn by turn as far as both go |
| `Predictors.StopsOnce` | ts/src/predictors.ts:127-136 | A walk that stopped because nothing was wanted, at a too expensive ask or at the end of the book has no longer continuation |
| `Predictors.OneTurn` | ts/src/predictors.ts:130-196 | After the same fills an ask has only one possible fill, or only one reason to be skipped, and never both |
| `Predictors.WalkAsks` | ts/src/predictors.ts:127-197 | The loop gives every ask its turn and stops where the source stops |
| `Predictors.Consider` | ts/src/predictors.ts:127-197 | One affordable ask takes its right turn, a fill drawn from its pool or one entry in the skip list |
| `Predictors.Examine` | ts/src/predictors.ts:136-180 | The fill meets rate, term and LTV and takes all that is wanted or all that is there; a skip names the one reason that applies now |
| `Predictors.BuildPools` | ts/src/predictors.ts:113-123 | The pools start at principal less deployed principal, clamped at zero; a later record of the same id wins |
| `Predictors.ProRata` | ts/src/predictors.ts:167-171 | Floored pro-rata shares never add up to more than the share of what has been filled |
| `Predictors.TakeTurn` | ts/src/predictors.ts:182-196 | A further right turn keeps the account, every refusal, the totals and the pools |
| `Predictors.AllSpent` | ts/src/predictors.ts:127-136 | On a best-first book a walk that ends with principal left has exhausted every usable ask, looked at or not |

## Left out

- Bytes: blocks are slots of an array of records, so 32-bit byte offsets, alignment, padding and `payload_type` are not modelled; `DataIndex` is unbounded, with `NIL` at 2^32 - 1 and arrays no longer than that.
- FreeLists.FreeNode: a free block keeps `left` as its list link and zero in every other word; the all-zero payload is a parameter, and a colour of zero is read as black.
- FreeLists.FreeList.Add: the scan of debug builds is part of the method and its panic is the result `false`; what a release build does on a second free is stated by `DoubleFree`, not by a second method.
- Arenas.Arena.Expand: the growth of the account itself belongs to the caller in the source, so the array has a fixed capacity here; the program-level callers of the arena (`market.rs`, `vault.rs`, seats and positions) are not part of this model.
- RedBlackTrees.RedBlackTree.constructor: the source trusts the stored bytes; here a caller passes the ghost tree that they store.
- RedBlackTrees.RedBlackTree.Iterate: the lazy iterator is a method that returns the whole sequence of slots; the payload references it yields are left out.
- RedBlackTrees.RedBlackTree.RemoveByIndex: what happens on memory that is already corrupt, including the fail-closed return of `remove_fix`, is outside the invariant and therefore unreachable here.
- Walkers.WalkDescending: the generator is a method that returns the sequence it would yield; `walkFreeList` and the payload views are left out.
- Test helpers of the tree (`depth`, printing, the loop of `verify_rb_tree` whose condition is `Checked`), trace macros and the certora variants: no effect on the structure.
- RateCalc.ProjectedLiabilityShareValue: the bank and fee records arrive decoded; the subtraction of the two 64-bit times is modelled where it does not overflow.
- RateCalc.Accrued: `current_lending_apr_bps_ceil` and the byte decoders are left out; they add rounding of the same kind.
- Ltv.AssertLtvBreachFixed: only the Fixed branch, from prices and decimals that have been read; the P2Pool branch asks the foreign bank for its weights.
- Ltv.SolventIsCovered: collateral at the 64-bit maximum is excluded, since it meets a requirement that was cut off there.
- Shares.LiabilityAtoms: no exact ceiling is claimed, because the product is floored before it is rounded up.
- Shares.AmountToAssetShares: the account checks before the conversions and the calls into the foreign lending program (deposit, withdraw, borrow, repay) are left out.
- TsLtv.RequiredCollateralAtoms: inputs are natural numbers; negative or fractional arguments, which the types of the client admit, are left out, as is `actualLtvBps`.
- Predictors.DefaultLtvEstimator: the estimator returns an exact real; the precision of JavaScript numbers above 2^53 and NaN are not modelled. The self-match check is absent in the source as well.
- The processors, the on-chain matcher, oracles, vault and loan state, account plumbing, instruction encoding and the UI helpers: I/O and serialisation, or code whose rules live elsewhere.
