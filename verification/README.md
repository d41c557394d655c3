# BigBang node: a verified model of its ledger, fork, reward and consensus logic

This project models, in Dafny, the in-memory logic of the BigBang multi-fork blockchain node that is derived from a block
tree, and the token arithmetic built on it, and proves what that logic is for.

- **Reorganising ledger** (`BlockTree`, `Ledger`, `Replay`, `CheckBlockFork`, `ForkWitness`, `ForkTxPool`). The checker walks blocks in the
  order of arrival, keeps the block with the best trust, and on a branch switch undoes and redoes blocks in three maps. The
  reference is the replay of the best chain from scratch; after every run that does not roll back below the joint block the
  maps are that replay. The transaction pool is an overlay with tombstones; the reference is a plain set of unspent points, and the next block.
- **Table of valid forks** (`ForkTable`). Each primary block stores a full map of valid forks or an increment against a full
  ancestor. The reference is the fold of all creations along the branch.
- **DeFi rewards** (`SupplyTrack`, `DeFiSupply`, `DeFiMaxHeight`, `SectionReward`, `DeFiStake`, `DeFiPromotion`, `DeFiSection`,
  `PagedPayment`, `RewardPaging`, `PaidTotal`). The supply recurrence with decay, the capped reward of a height range, the maximum reward
  height and the total of all sections, ranks, promotion power against the repository's Python reference, the merge of the two
  pools, the payment of section lists page by page over the blocks of a chain, and the bound on all that a chain pays.
- **Consensus arithmetic** (`Ballot`, `DexSettlement`, `WorkTarget`). The draw between proof of work and delegates, the three
  payments that settle a match of the exchange, and the difficulty of proof of work.
- **Delegated channel** (`DelegatedWindow`). The bounded window over the primary chain, and the bitmaps of delegates.

A block index with its chain of predecessors is a value that contains its predecessor; hashes are natural numbers, 0 is the
null hash. State that the code changes in place is a class whose methods are proved against functions on values; the lemmas
are about these functions. A null dereference or an unhandled failure in the code is a failure of the model. Reals stand for
`double`; 32-bit and 64-bit arithmetic is written out where it can wrap around (`U64`, `U32`).

Some properties that one would expect fail for some inputs. For these the project has an input that shows it and the exact
condition: `BranchCanMissGenesis` with `BranchIsLowest`, `SwitchCanRollBackBelowJoint` with `BranchStaysAbove`,
`OffChainJointLosesLedger` with `InheritIsLedger`, `MeetCanMissLowest` with `MeetIsLowest`, `MeetWithoutTip`,
`MintWithoutTargetStays` with `RemoveBlockUndoes`, `QueriesCanDisagree` with `QueriesAgree`, `SmallGrowthIsNotPaid` with
`RewardIsSupplyGrowth`, `UnitAfterMax` and `PaidAfterStuck` with `MaxRewardHeightIsLast`, `IdleBlockPassesOver` with
`PaidInOrder`, `RewardAfterIdle` with `PaidIsPrefixExactly`, `DataOutOfRangeStays` with `UpdateFollows`, and
`LongGapCountsAsNone` with `SpacingIsMean`. A ballot is undefined exactly where `Defined` is false, and `SettlementCompletes`
says when a match cannot be settled in full.

## Model

| member | source | states |
|---|---|---|
| `BlockTree.GetBranch` | src/bigbang/checkrepair.cpp:946-968 | whatever the block times are, a branch that is returned is a common ancestor of both blocks, and the path is exactly the arm of the new block above it |
| `BlockTree.BranchIsLowest` | src/bigbang/checkrepair.cpp:946-968 | with non-decreasing times the walk ends at the lowest common ancestor if and only if both arms hold equally many blocks whose time ties with that ancestor |
| `BlockTree.BranchWhereTimesRise` | src/bigbang/checkrepair.cpp:946-968 | where times strictly increase along the chain the walk ends at the lowest common ancestor |
| `BlockTree.BranchCanMissGenesis` | src/bigbang/checkrepair.cpp:946-968 | equal block times can send the walk past the first block |
| `BlockTree.BranchIsSymmetric` | src/bigbang/checkrepair.cpp:946-968 | the walk ends at the same block whichever of the two is the reference |
| `BlockTree.BranchStaysAbove` | src/bigbang/checkrepair.cpp:946-968 | with non-decreasing times above a base of both blocks the walk ends at or above that base if and only if both arms tie equally often with the lowest common ancestor, or that ancestor is later than the base |
| `BlockTree.BranchAboveLater` | src/bigbang/checkrepair.cpp:946-968 | where every block is later than a common base the walk ends at or above it, whatever else the times are |
| `BlockTree.GetBlockChanges` | src/bigbang/blockchain.cpp:1615-1643 | the walk, with the 32-bit unsigned sentinel for a missing tip; where it meets, the blocks added and removed are exactly the two arms above that block |
| `BlockTree.MeetIsLowest` | src/bigbang/blockchain.cpp:1615-1643 | with non-decreasing times and a common block the walk meets at the lowest common ancestor if and only if no removed block ties with its time |
| `BlockTree.MeetCanMissLowest` | src/bigbang/blockchain.cpp:1615-1643 | a removed block that ties with the common ancestor sends the walk past the first block |
| `BlockTree.MeetWithoutTip` | src/bigbang/blockchain.cpp:1618-1639 | for a fork without a tip the walk fails for every new chain, unless all of its blocks have the largest 32-bit time, and then it adds all of them |
| `BlockTree.MeetNeedsCommon` | src/bigbang/blockchain.cpp:1618-1639 | from a new chain and a fork's tip without a common block the walk never meets, whatever the times are |
| `Ledger.SpendAllMeaning` | src/bigbang/checkrepair.cpp:1234-1244 | spending inputs works exactly for distinct unspent points, and erases just those |
| `Ledger.ContextMeaning` | src/bigbang/blockchain.cpp:1589-1613 | the stored context of a transaction describes every output it spends, all of them of one address |
| `Ledger.RemoveTxUndoes` | src/bigbang/checkrepair.cpp:1082-1219 | removing a transaction exactly undoes adding it on all three maps, restored type and height included |
| `Ledger.RemoveTxsUndoes` | src/bigbang/checkrepair.cpp:1057-1080 | the same for a list of transactions removed in reverse order, whatever they spend of each other |
| `Ledger.AddBlockKeepsLinked` | src/bigbang/checkrepair.cpp:970-1055 | adding a block keeps the link between the maps: every unspent entry has the type and height of its transaction in the index |
| `Ledger.RemoveBlockUndoes` | src/bigbang/checkrepair.cpp:970-1080 | removing a block exactly undoes adding it if and only if a recorded block's mint transaction has a target |
| `Ledger.MintWithoutTargetStays` | src/bigbang/checkrepair.cpp:1057-1080 | a recorded mint transaction without a target is left in the index, and what it spent stays spent |
| `Replay.UndoIsReplay` | src/bigbang/checkrepair.cpp:900-914 | undoing the blocks above an ancestor, last first, leads back to the replay of the chain up to it |
| `Replay.RedoIsReplay` | src/bigbang/checkrepair.cpp:916-931 | redoing the new arm above the branch block gives the replay of the new chain |
| `Replay.SwitchIsReplay` | src/bigbang/checkrepair.cpp:893-941 | a switch that does not roll back below the joint block succeeds exactly when the walk to the branch does and the new chain can be replayed, and gives that replay; on the primary fork this is every switch |
| `Replay.SwitchMeetsAbove` | src/bigbang/checkrepair.cpp:893-914 | on a joined fork whose times never fall the walk ends inside the fork if and only if both arms tie equally often with the lowest common ancestor, or that ancestor is later than the joint block |
| `Replay.OfferOnJoinedFork` | src/bigbang/checkrepair.cpp:878-944 | under that test a better block is taken exactly when its chain can be replayed, and the maps become that replay |
| `Replay.RunIsReplay` | src/bigbang/checkrepair.cpp:878-944 | after every successful run of offers, none of whose switches rolls back below the joint block, the three maps are the replay from scratch of the best chain, and its trust is at least that of every block ever offered |
| `Replay.LaterRunIsReplay` | src/bigbang/checkrepair.cpp:878-944 | so it is on the primary fork for any block times, and on a joined fork when every block is later than the joint block |
| `ForkWitness.SwitchCanRollBackBelowJoint` | src/bigbang/checkrepair.cpp:893-941 | an origin and a vacant block with the time of the joint block, which verification allows (src/bigbang/blockchain.cpp:788-801 and 1831-1840), make a switch roll back below it; the call succeeds and leaves a transaction of the parent in the fork's own index |
| `Replay.InheritIsReplayAtJoint` | src/bigbang/checkrepair.cpp:1246-1288 | a sub-fork inherits exactly the parent's ledger at the joint block and is a valid start of a run |
| `Replay.InheritIsJoined` | src/bigbang/checkrepair.cpp:1246-1288 | the sub-fork is joined to its parent: same unspent outputs as the parent's ledger at the joint block, and an index that answers for all of the parent's transactions |
| `Replay.InheritOffChain` | src/bigbang/checkrepair.cpp:1246-1288 | for a parent at any depth of joined forks, a joint block off its best chain is never met; the loop also removes the blocks of the forks below, so that the sub-fork starts from the unspent outputs that the primary fork started from |
| `Replay.InheritIsLedger` | src/bigbang/checkrepair.cpp:1246-1288 | a sub-fork gets the unspent outputs at its joint block if and only if that block is on the parent's best chain, or there are no others there than the primary fork's first ones |
| `ForkWitness.OffChainJointLosesLedger` | src/bigbang/checkrepair.cpp:1246-1288 | a joint block off the best chain with an unspent output, above which the sub-fork starts from none |
| `CheckBlockFork.BlockFork.AddBlockSpent` | src/bigbang/checkrepair.cpp:1234-1244 | succeeds exactly for an unspent point and erases it |
| `CheckBlockFork.BlockFork.AddBlockUnspent` | src/bigbang/checkrepair.cpp:1221-1232 | succeeds as adding an unspent output to the value of the maps does, and leaves that value |
| `CheckBlockFork.BlockFork.AddBlockTx` | src/bigbang/checkrepair.cpp:1082-1139 | in-place form of adding a transaction to the three maps, with the same successes and result |
| `CheckBlockFork.BlockFork.RemoveBlockTx` | src/bigbang/checkrepair.cpp:1141-1219 | in-place form of removing a transaction, with the same successes and result |
| `CheckBlockFork.BlockFork.AddBlockData` | src/bigbang/checkrepair.cpp:970-1055 | in-place form of adding a block, with the same successes and result |
| `CheckBlockFork.BlockFork.RemoveBlockData` | src/bigbang/checkrepair.cpp:1057-1080 | in-place form of removing a block, with the same successes and result |
| `CheckBlockFork.BlockFork.AddForkBlock` | src/bigbang/checkrepair.cpp:878-944 | from any state the call does what an offer to the value of the maps does; one that succeeds leaves as best block the better of the two, and unless it rolls back below the joint block it keeps the maps equal to the replay of the best chain |
| `CheckBlockFork.BlockFork.InheritCopyData` | src/bigbang/checkrepair.cpp:1246-1288 | from any state of the parent the call does what inheriting from the value of its maps does; when these are the replay of its best chain and the joint block lies on that chain, the call succeeds and the new fork starts from the replay of the chain up to it |
| `ForkTxPool.TxPool.Spent` | src/bigbang/checkrepair.cpp:752-774 | succeeds if and only if the point is in the effective set, and removes it; tombstones stay on chain and pool outputs off it |
| `ForkTxPool.TxPool.Unspent` | src/bigbang/checkrepair.cpp:776-806 | a non-null output is added if and only if its point is absent from the effective set |
| `ForkTxPool.TxPool.AddTx` | src/bigbang/checkrepair.cpp:726-750 | refines applying the transaction to the plain set of unspent points |
| `ForkTxPool.TxPool.AddAll` | src/bigbang/checkrepair.cpp:844-856 | refines applying all transactions of the pool in order |
| `ForkTxPool.ApplyIsAddTx` | src/bigbang/checkrepair.cpp:726-750 | a pool transaction applies exactly when it could be added to the ledger, and leaves the same points |
| `ForkTxPool.PoolIsNextBlock` | src/bigbang/checkrepair.cpp:726-806 | the pool loads exactly when its transactions could follow on the chain as one block, and leaves the points that block would leave |
| `ForkTable.AnchorAndIncrement` | src/bigbang/forkmanager.cpp:176-235 | the full map of the anchor and the increment above it together are the fold of all creations on the branch |
| `ForkTable.CheckpointsOnlyRepresent` | src/bigbang/forkmanager.cpp:178-214 | which blocks are checkpoints does not change the forks that are decoded |
| `ForkTable.DecodesToFold` | src/bigbang/forkmanager.cpp:475-495 | every entry that is not full refers to a full one, and the two decode to the fold of the branch |
| `ForkTable.EncodesExtends` | src/bigbang/forkmanager.cpp:176-235 | adding the entry of a new block keeps the table an encoding of its branches |
| `ForkTable.KeptIsNew` | src/bigbang/checkrepair.cpp:316-402 | the forks a block creates are new to the branch and to each other |
| `ForkTable.EncodesShrinks` | src/bigbang/forkmanager.cpp:237-240 | removing a block that no other branch runs through keeps the table an encoding |
| `ForkTable.NamesAreDistinct` | src/bigbang/forkmanager.cpp:151-174 | on a branch where every creation was verified the names of valid forks are pairwise distinct |
| `ForkTable.VerifiedIsDisjoint` | src/bigbang/forkmanager.cpp:151-174 | on such a branch increment and referenced map share no fork |
| `ForkTable.QueriesAgree` | src/bigbang/forkmanager.cpp:426-446 | looking in the own map first agrees with the list of valid forks for every fork if and only if increment and referenced map share none |
| `ForkTable.QueriesCanDisagree` | src/bigbang/forkmanager.cpp:426-446 | without verification a fork created twice makes the two queries disagree |
| `ForkTable.ForkManager.GetValidFdForkId` | src/bigbang/forkmanager.cpp:475-495 | returns the fold of the branch of a known block |
| `ForkTable.ForkManager.GetValidForkCreatedHeight` | src/bigbang/forkmanager.cpp:426-446 | returns the height by the own map first, or -1 |
| `ForkTable.ForkManager.VerifyFork` | src/bigbang/forkmanager.cpp:151-174 | accepts a fork exactly when neither its hash nor its name is valid at the block below |
| `ForkTable.ForkManager.AddValidForkContext` | src/bigbang/forkmanager.cpp:176-235 | fails exactly for an unknown block below, and then erases the entry; else writes the entry of the extended branch, also over an old one, and a block that is new or added again in the same way keeps the table an encoding |
| `ForkTable.ForkManager.CollectForks` | src/bigbang/checkrepair.cpp:316-402 | the forks kept are those with a known parent and a valid origin that are new to the branch and to the block, less the cancelled ones; they are pairwise distinct by hash and name |
| `ForkTable.ForkManager.AddBlockForkContext` | src/bigbang/checkrepair.cpp:235-314 | a new block above a known one extends its branch by exactly the forks it creates and keeps every branch verified; above an unknown one nothing changes |
| `ForkTable.ForkManager.AddGenesisForkContext` | src/bigbang/checkrepair.cpp:241-257 | the genesis block gets a full entry with its own fork |
| `ForkTable.ForkManager.RemoveValidForkContext` | src/bigbang/forkmanager.cpp:237-240 | erases the entry of any block; the table stays an encoding when no other branch runs through the block |
| `ForkTable.ForkManager.UpdateCurrent` | src/bigbang/forkmanager.cpp:307-331 | the current forks become those valid at the primary tip and allowed; the ones dropped are reported |
| `SupplyTrack.RewardTelescopes` | src/bigbang/defi.cpp:405-448 | over whole supply cycles the reward telescopes to the growth of the supply, clipped at the cap, up to the cycle where paying stops |
| `SupplyTrack.RewardIsSupplyGrowth` | src/bigbang/defi.cpp:405-448 | on aligned heights the reward is max(0, min(S(end), cap) - S(begin)) if and only if paying does not stop before the cap, or the supply stays flat from there |
| `SupplyTrack.RewardIsNearAccrual` | src/bigbang/defi.cpp:405-448 | between any two heights the reward is the supply that accrues until paying stops, off by at most half a unit for each supply cycle touched |
| `DeFiSupply.SmallGrowthIsNotPaid` | src/bigbang/defi.cpp:415-419 | a cycle that grows by less than a coin is not paid, though the supply grows |
| `DeFiSupply.FastForward` | src/bigbang/defi.cpp:381-403 | the nested decay and supply loops make exactly that many steps of the supply recurrence |
| `DeFiSupply.GetFixedDecayReward` | src/bigbang/defi.cpp:354-449 | -1 before minting, else the reward of the recurrence for any two heights |
| `DeFiSupply.GetSpecificDecayReward` | src/bigbang/defi.cpp:451-546 | the same for a schedule given by segments |
| `DeFiMaxHeight.FlatRate` | src/bigbang/defi.cpp:560-590 | the flat count of cycles decays the rate exactly where the nested loops do |
| `DeFiMaxHeight.GetMaxFixed` | src/bigbang/defi.cpp:558-593 | the endless loop ends, at the first cycle that grows by less than a coin or reaches the cap |
| `DeFiMaxHeight.GetMaxSpecific` | src/bigbang/defi.cpp:594-630 | the same cycle for a schedule given by segments |
| `DeFiMaxHeight.GetMaxRewardHeight` | src/bigbang/defi.cpp:548-635 | -1 without a mint height, else the height computed from the cycle where the recurrence stops; what it means is in `MaxRewardHeightIsLast` |
| `DeFiMaxHeight.BlocksToCapFit` | src/bigbang/defi.cpp:577-582 | in the cycle that reaches the cap at most one cycle of blocks is needed, and the divisor is not zero |
| `DeFiMaxHeight.MaxRewardHeightIsInStopCycle` | src/bigbang/defi.cpp:548-635 | it lies in the cycle where the recurrence stops, or just before it; before the first block for a fork that starts above the cap |
| `DeFiMaxHeight.MaxRewardHeightIsLast` | src/bigbang/defi.cpp:548-635 | no height after it is paid anything if and only if, where the recurrence stops for a growth of less than a coin, no later cycle below the cap grows by a coin again before the supply goes quiet, and where it reaches the cap, the blocks up to it are paid the whole need, by a test in whole numbers |
| `DeFiMaxHeight.StaysStoppedForEver` | src/bigbang/defi.cpp:548-635 | it is enough to look at the cycles up to the first quiet one: at the cap, after the last segment, or where a fixed rate no longer makes the supply grow or adds no coin even to the cap |
| `DeFiMaxHeight.MaxHeightAlmostCovers` | src/bigbang/defi.cpp:577-582 | the blocks counted with the untruncated growth mint, with the truncated one, all that is missing to the cap but less than one unit |
| `DeFiMaxHeight.AtMostOneAfterMax` | src/bigbang/defi.cpp:577-582 | where the cap stops the recurrence, any range of heights after the maximum is paid at most one unit |
| `DeFiMaxHeight.CyclePaysSomething` | src/bigbang/defi.cpp:405-448 | a whole cycle is paid something if and only if it grows by a coin and starts below the cap |
| `DeFiMaxHeight.UnitAfterMax` | src/bigbang/defi.cpp:579-581 | a fork whose tenth block is due one unit after the maximum reward height of its ninth |
| `DeFiMaxHeight.PaidAfterStuck` | src/bigbang/defi.cpp:572-576 | a fork stuck at once, whose ninth cycle is nevertheless paid |
| `SectionReward.GetSectionReward` | src/bigbang/defi.cpp:87-139 | -1 without a mint height or a maximum height, else the reward of the recurrence for the blocks of the section's reward cycle up to the maximum reward height |
| `SectionReward.SectionCountsItsCycle` | src/bigbang/defi.cpp:107-120 | the section block at the end of a reward cycle counts exactly the blocks of that cycle |
| `SectionReward.TotalIsNearAccrual` | src/bigbang/defi.cpp:87-139 | the first n sections of a chain pay in total the supply that accrues up to the maximum reward height, off by at most half a unit for each section and each supply cycle, for any two cycle lengths; each section pays what `GetSectionReward` returns at its height, and none when that is negative |
| `SectionReward.AllSectionsPay` | src/bigbang/defi.cpp:87-139 | all sections together bring the supply from the initial amount to the cap, or to where the recurrence gets stuck, within that bound and one unit; they pay nothing when the fork never mints or starts above the cap |
| `SectionReward.RewardAtSection` | src/bigbang/defi.cpp:87-139 | at the section height of a reward cycle the reward is that of the blocks of the cycle |
| `SectionReward.TotalIsWithinCap` | src/bigbang/defi.cpp:87-139 | however many sections there are, together they pay no more than what is missing to the cap, but for half a unit for each section and supply cycle |
| `DeFiStake.PoolIsShared` | src/bigbang/defi.cpp:231-242 | shares by weight never exceed the pool, and leave less than one unit each |
| `DeFiStake.SortEligible` | src/bigbang/defi.cpp:199-207 | the eligible stakes, each once, in ascending order |
| `DeFiStake.TagRanks` | src/bigbang/defi.cpp:209-229 | each rank is one more than the number of strictly smaller stakes, and the total is their sum |
| `DeFiStake.ComputeStakeReward` | src/bigbang/defi.cpp:189-245 | every eligible address is rewarded once with that rank; equal stakes earn the same, larger ones no less; the pool is shared and never exceeded |
| `DeFiPromotion.TierPower` | src/bigbang/defi.cpp:303-319 | the piecewise loop counts each token of a child by the tier that holds it |
| `DeFiPromotion.MockTierPower` | doc/defi_mock.py:182-195 | the loop of the Python reference counts the same |
| `DeFiPromotion.CubeRootIs` | src/bigbang/defi.cpp:322-322 | the rounded cube root is the integer nearest to the real one |
| `DeFiPromotion.OnePassPower` | src/bigbang/defi.cpp:281-323 | the running-maximum loop gives the power of all children but one of the largest, plus the cube root of that one |
| `DeFiPromotion.MockPower` | doc/defi_mock.py:169-197 | removing the maximum and then summing gives the same power |
| `DeFiPromotion.WalkForest` | src/bigbang/defi.cpp:265-332 | each address gets its subtree total with black-listed subtrees counted as zero, and an entry when it has power |
| `DeFiPromotion.AllEntriesAreKeys` | src/bigbang/defi.cpp:325-329 | every address has at most as many entries as it has places in the forest |
| `DeFiPromotion.AllEntriesHavePower` | src/bigbang/defi.cpp:265-329 | every entry has power and is not black-listed |
| `DeFiPromotion.ComputePromotionReward` | src/bigbang/defi.cpp:247-352 | the addresses with power share the pool by power, and it is never exceeded |
| `DeFiSection.MergeRewards` | src/bigbang/blockchain.cpp:2436-2467 | the two merge loops give each address the sum of its two rewards when that is above the fee, in total no more than both pools |
| `DeFiSection.StakePart` | src/bigbang/blockchain.cpp:2420-2421 | the stake set pays at most its pool and no black-listed address |
| `DeFiSection.PromotionPart` | src/bigbang/blockchain.cpp:2433-2434 | the promotion set pays at most its pool and no black-listed address |
| `DeFiSection.ComputeDeFiSection` | src/bigbang/blockchain.cpp:2372-2470 | a section holds every address at most once, above the fee, pays no black-listed one, and in total no more than the section reward |
| `PagedPayment.BlockPays` | src/bigbang/blockchain.cpp:543-603 | an accepted block pays the next entries of what is due and settles those, and all that is due when it is not vacant and empty |
| `PagedPayment.PaidInOrder` | src/bigbang/blockchain.cpp:543-603 | the rewards paid are the settled ones in their order if and only if no block that is not vacant stayed empty while rewards were pending |
| `PagedPayment.IdleBlockPassesOver` | src/bigbang/blockchain.cpp:543-603 | an empty block that is not vacant is accepted while a reward is pending, which is then never paid |
| `PagedPayment.PaidIsPrefixExactly` | src/bigbang/blockchain.cpp:543-603 | when nothing is due twice, the rewards paid are in order a prefix of those due if and only if none is paid after a block that passed one over |
| `PagedPayment.RewardAfterIdle` | src/bigbang/blockchain.cpp:543-603 | a reward paid after one that was passed over leaves a gap in the order |
| `PagedPayment.NoRewardTwice` | src/bigbang/blockchain.cpp:543-603 | when no reward is due twice none is paid twice |
| `RewardPaging.PrevRewardHeightSteps` | src/bigbang/defi.cpp:68-85 | the previous reward height changes just when the end of a reward cycle is passed |
| `RewardPaging.NothingDueTwice` | src/bigbang/blockchain.cpp:2289-2370 | on a chain no section and address is due twice |
| `RewardPaging.ChainPaysInOrder` | src/bigbang/blockchain.cpp:2226-2370 | on every accepted chain no reward of a section is paid twice to an address; what is paid is in order a prefix of the concatenated section lists if and only if no reward is paid after a block that stayed empty, without being vacant, while rewards were pending; and it is all that is settled if and only if there is no such block |
| `RewardPaging.SkipVacant` | src/bigbang/blockchain.cpp:2300-2316 | down over the vacant blocks nothing is settled, the supply stays the same, and their sections are listed |
| `RewardPaging.CollectDownTo` | src/bigbang/blockchain.cpp:2337-2345 | the sections from the one paid last up to the last payment are listed, in order |
| `RewardPaging.CutAtMaxSupply` | src/bigbang/blockchain.cpp:2350-2367 | the list is cut at the first section that has reached the maximum supply, and as no allowed section follows one that is not, none with rewards is dropped |
| `RewardPaging.GetDeFiSectionList` | src/bigbang/blockchain.cpp:2289-2370 | the sections listed, resumed after the last reward paid, leave exactly what is pending on the chain |
| `RewardPaging.FindAfter` | src/bigbang/blockchain.cpp:2259-2273 | the search among equal rewards finds the entry after the last one paid |
| `RewardPaging.GetDeFiReward` | src/bigbang/blockchain.cpp:2226-2287 | the rewards listed are the next page of those pending |
| `RewardPaging.CheckDeFiReward` | src/bigbang/blockchain.cpp:543-603 | a block on an accepted chain passes the check exactly when the chain with it is accepted |
| `DelegatedWindow.UpdateFollows` | src/bigbang/delegatedchn.cpp:45-102 | an update keeps the list a run of at most interval + 1 blocks that ends at the new tip; it has data for exactly these if and only if all data to distribute was for blocks in range |
| `DelegatedWindow.DataOutOfRangeStays` | src/bigbang/delegatedchn.cpp:78-81 | data for a block that is not in the window stays in the map |
| `DelegatedWindow.StrayData` | src/bigbang/delegatedchn.cpp:51-93 | data for a block outside the window is erased by an update exactly when this leaves a gap and does not bring the data again |
| `DelegatedWindow.StrayDataStays` | src/bigbang/delegatedchn.cpp:45-102 | so it stays over any run without gaps in which its block does not enter the window |
| `DelegatedWindow.UpdateKeepsData` | src/bigbang/delegatedchn.cpp:45-102 | an update forgets nothing about a block that stays, and a new block enters with exactly its enrolled delegates |
| `DelegatedWindow.RunFollows` | src/bigbang/delegatedchn.cpp:45-102 | after any extensions, rollbacks, gaps and arrivals of data the list is a contiguous run, newest first, that ends at the primary tip, and the map has exactly its members |
| `DelegatedWindow.GetBitmap` | src/bigbang/delegatedchn.h:115-123 | bit i is set exactly when there is data of the i-th enrolled delegate, so that the bitmap stands for the enrolled delegates with data |
| `DelegatedWindow.GetKnownData` | src/bigbang/delegatedchn.h:124-133 | gives the delegates that a bitmap stands for |
| `DelegatedWindow.AskFor` | src/bigbang/delegatedchn.cpp:162-165 | with a peer's bitmap, asks for exactly the enrolled delegates whose data the peer has and this node lacks |
| `DelegatedWindow.ChannelChain.Update` | src/bigbang/delegatedchn.cpp:45-102 | in-place form of the update of the window |
| `DelegatedWindow.ChannelChain.InsertDistributeData` | src/bigbang/delegatedchn.cpp:234-243 | adds data that is new for a block in the window, and reports whether it did |
| `DelegatedWindow.ChannelChain.InsertPublishData` | src/bigbang/delegatedchn.cpp:245-267 | the same for publications, for the oldest block of a full window only |
| `DelegatedWindow.ChannelChain.AskForDistribute` | src/bigbang/delegatedchn.cpp:157-167 | asks for exactly the delegates the peer has and we lack, and for none outside the window |
| `DelegatedWindow.ChannelChain.AskForPublish` | src/bigbang/delegatedchn.cpp:169-189 | the same for publications, for the oldest block of a full window only |
| `PaidTotal.PaidIsWithinSettled` | src/bigbang/blockchain.cpp:543-603 | the rewards paid along accepted blocks sum to no more than the settled ones, idle blocks or not |
| `PaidTotal.ListingTotal` | src/bigbang/blockchain.cpp:2254-2286 | a section's list pays in all what its reward set does |
| `PaidTotal.ComputeSection` | src/bigbang/blockchain.cpp:2372-2470 | a section shares out no more than `GetSectionReward` gives it |
| `PaidTotal.DueIsWithinTotal` | src/bigbang/blockchain.cpp:2289-2370 | everything that falls due on a chain sums to no more than the rewards of the reward cycles ended, each counted once |
| `PaidTotal.PaidIsWithinCap` | src/bigbang/blockchain.cpp:2226-2470 | the rewards paid on any accepted chain of a DeFi fork sum to no more than what is missing from the initial amount to the maximum supply, but for half a unit for each reward cycle ended and each supply cycle |
| `Ballot.Select` | src/bigbang/core.cpp:1537-1555 | the enrolled weight never wraps around and never exceeds the maximum weight; the selection holds exactly the enrolled delegates with a ballot |
| `Ballot.DivisorNotZero` | src/bigbang/core.cpp:1558-1568 | the divisor is zero exactly when nothing is enrolled and the maximum weight is below 10 after the change of the mint rate |
| `Ballot.ThresholdIsExact` | src/bigbang/core.cpp:1558-1568 | with mainnet limits no product wraps around, so that the threshold is the exact one |
| `Ballot.ThresholdFalls` | src/bigbang/core.cpp:1558-1568 | the threshold of proof of work does not rise with the enrolled weight |
| `Ballot.ThresholdBounds` | src/bigbang/core.cpp:1568-1571 | the threshold is at most 256, and 256 when nothing is enrolled, so that the remainder by the enrolled weight is always defined |
| `Ballot.FallsToOne` | src/bigbang/core.cpp:1572-1580 | the intervals of the delegates do not overlap |
| `Ballot.Draw` | src/bigbang/core.cpp:1572-1580 | the subtract-and-scan loop picks exactly the delegate whose prefix-weight interval holds the number |
| `Ballot.GetDelegatedBallot` | src/bigbang/core.cpp:1512-1585 | for at most 23 distinct delegates within the money supply the outcome is the one of exact arithmetic: undefined, proof of work, or the delegate drawn |
| `DexSettlement.ShareIsExact` | src/bigbang/core.cpp:1812-1812 | a share computed in 64 bits is exact if and only if its product fits |
| `DexSettlement.NoWrap` | src/common/template/dexmatch.cpp:118-125 | within the limits on amount and fee no product wraps around |
| `DexSettlement.Conserves` | src/bigbang/core.cpp:1812-1880 | buyer, matcher, deal and three fees add up to the matched amount; none is negative and the deal is at least the matcher's reward |
| `DexSettlement.OnlyTheSettlement` | src/bigbang/core.cpp:1808-1886 | until the seller's height any valid payments from a match coin are the first ones of buyer, matcher, deal, each spending exactly the change before it |
| `DexSettlement.SettlementCompletes` | src/bigbang/core.cpp:1808-1886 | the settlement can be completed if and only if the three addresses are distinct |
| `DexSettlement.JoinedPayment` | src/bigbang/core.cpp:1808-1886 | a valid payment that joins coins is one of the three with the change the next one needs, and spends one coin of that value or several smaller ones of later steps |
| `DexSettlement.CoinsKeepStages` | src/bigbang/core.cpp:1808-1886 | however payments join coins, every coin of the match address keeps the value of one of the three steps |
| `WorkTarget.WeightsPositive` | src/bigbang/core.cpp:1431-1445 | the divisor is never zero once a block of the algorithm is found |
| `WorkTarget.SpacingIsMean` | src/bigbang/core.cpp:1433-1445 | the spacing is the weighted mean if and only if no shifted spacing wraps around in 32 bits |
| `WorkTarget.SpacingBetween` | src/bigbang/core.cpp:1433-1445 | then it lies between the least and the greatest spacing sampled |
| `WorkTarget.LongGapCountsAsNone` | src/bigbang/core.cpp:1433-1433 | a spacing of 2^25 seconds wraps around to none and raises the difficulty |
| `WorkTarget.BitsChangeByOne` | src/bigbang/core.cpp:1398-1470 | on every chain whose blocks carry the bits demanded, bits stay within 8 and 200, start with the initial number and change by at most one |
| `WorkTarget.BitsFollowSpacings` | src/bigbang/core.cpp:1447-1468 | unless a spacing wraps around, bits stay when the last eight blocks were within the bounds, fall when all were slower and rise when all were faster, within the limits; and they fall only after a slower block and rise only after a faster one |
| `WorkTarget.SumSpacings` | src/bigbang/core.cpp:1428-1444 | the loop adds up the weighted spacings of the last eight blocks of the algorithm, and their weights |
| `WorkTarget.GetProofOfWorkTarget` | src/bigbang/core.cpp:1398-1470 | nothing for an unknown algorithm or above a block that is not primary, else the bits demanded of the next block |

## Left out

- Storage, networking, timers, locks, the wallet and RPC, cryptography and serialisation: block and transaction data come as maps or parameters.
- Bit-level behaviour of `double`: rates, shares and the cube root are exact reals with explicit floor and rounding, and amounts there are unbounded.
- The cache of transaction details, the truncation to the reference block after the walk, and the roll-back of the mint height, which resets to another sentinel than the initial one.
- The order of entries with equal power, equal stake or equal reward, and the explicit stack of the post-order walk: the walk is recursive, and results are lists in tree order.
- Fork schedules, joints and activation in the fork manager; storing fork contexts in the database.
- The eviction of cached sections, and mint heights that change while a chain grows; the cache of sections is a set of hashes that passed the test of the maximum supply before. That the supply does not rise along the chain of a DeFi fork, and stays at a vacant block, is taken from block verification (src/bigbang/blockchain.cpp:649-653, src/bigbang/core.cpp:657-660, src/bigbang/core.cpp:450-460).
- The genesis special cases and rewards of the consensus code, and testnet constants.
- Templates, signatures and secrets of the exchange: whether they are valid is a parameter of a payment.
- Peers and scheduling of the delegated channel; bitmaps are defined for at most 64 enrolled delegates, and the code enrols at most 23.
- UpdateCurrent: the loops over maps are written as set comprehensions, so that the order of the reports is not modelled.
- AddValidForkContext: does not promise a valid table when an entry is overwritten by a different one, which would leave the entries above it as they were.
- RemoveValidForkContext: promises a valid table only for a block that no other branch runs through; `RemovalKeepsAnswer` has the other cases.
