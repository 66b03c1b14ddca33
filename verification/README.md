# Memory management and library code of the OpenLSD kernel, verified

A Dafny model of the parts of the kernel whose correctness is hardest to see
from the code: the buddy allocator and the free lists under it, the code that
sets it up from the boot memory map, the four-level page walk that unmaps user
memory, the tree links of the red-black tree library, and number and format
printing against `strtol`.

`dafny verify dfyconfig.toml` checks everything.

## How it is laid out

- `Words`, `Dyadic`, `Bits`: 64-bit rounding, aligned blocks of 2^k pages, and
  what the bitwise operators of the code compute.
- `FreeSet`, `Runs`: the free lists as a set of blocks, and the allocator as a
  state machine over free and live blocks. The laws of the allocator are here.
- `Lists`, `Buddy`: the intrusive lists and the allocator as objects that are
  updated in place. Every method is proved to be a step of the state machine and
  says which list gains or loses which node at which end, and which page
  metadata changes.
- `Boot`: `align_boot_info`, `mem_init`'s page count and `page_init`.
- `PageTables`, `Drops`, `Walk`: page tables as values with a flat reference
  for unmapping, runs of `page_decref`, and the nested walk as four loops over
  arrays that do what the reference does.
- `RbTree`: parent-linked trees, by their shape and by the tree around a node.
- `Numbers`, `Format`: `printnum`, `strtol` and the scanner of `vprintfmt`.

Pages are numbered; a list node carries the number of its page, which is what
`container_of` finds, and a physical address is a page number times 4096. The
allocator's ghost state is the contents of every list and the set of blocks in
use. At start every page is in use at order 0, as `page_init` marks it.

## What the proofs found

- `buddy_merge` tests its bound after it has merged
  (`kernel/mem/buddy.c:157`), so two free buddies of order 9 become a block of
  order 10, for which there is no list, and the `list_add` at
  `kernel/mem/buddy.c:266` writes past `buddy_free_list`. Lines 15-18 and 106-108
  of that file say otherwise. `PageFree`, `PageDecref`, `PageInit` and
  `UnmapUserPages` say exactly when this happens: when an aligned run of 1024
  pages becomes wholly free. `EightMegabytesOverrun` is an ordinary machine on
  which `page_init` does it: 8 MiB of memory and a kernel that ends below 4 MiB.
- The walk gives the children of an entry the entry's own end, not the smaller
  of that and the end asked for (`kernel/mem/walk.c:107`, `155` and `202`), so that
  `page_remove` unmaps everything up to the end of the 512 GiB that one PML4 entry
  stands for. `RemoveExactIff` says when that does no harm, and
  `RemoveOvershoots` is a tree where it does. `UnmapUserPages` is exact, as the
  user half ends at such a boundary.
- A FREE region that holds no page boundary gets a length that has wrapped
  round (`kernel/mem/boot.c:66`): `TinyRegionWraps`, `AlignShrinks`.
- `addr_reserved` (`kernel/mem/init.c:165`) keeps the ELF header only if it starts a
  page, and then its first page: `ReservedIs`.
- `do_remove` moves the predecessor of a node with two children into its place
  but not its colour: the predecessor has been zeroed and comes out black.
- `strtol` does not notice overflow (`lib/string.c:265`): an address in the upper
  half, printed by `%p`, comes back negative, with the same bits.
- Numbers printed with the `-` flag are padded on the left with `-`, which
  `strtol` takes for a sign; padding by blanks comes after the sign of a negative
  number and after `0x`. The round trips say exactly when the number is found
  again.
- A precision of 0 cannot be written: the `0` in `%.0s` is taken for the flag.
  Widths and precisions from 2^31 on do not fit the int they are read into.
  `PrecisionCuts`, `MeantAsWritten`.

## Model

| member | source | states |
|---|---|---|
| Words.UpPages | include/types.h:31-39 | comparing a page address with a rounded-up address is comparing it with the address; the rounded address does not wrap |
| Words.DownPages | include/types.h:31-33 | a page starts below a rounded-down address just when it ends by the address |
| Words.IntGrows | lib/printfmt.c:133 | an int that has wrapped round takes up further digits as if it had not |
| Words.LongGrows | lib/string.c:264 | so does a long |
| Dyadic.BuddyInvolution | kernel/mem/buddy.c:8 | the buddy of an aligned block is another aligned block that shares no page with it, has the same parent, and has the block as its buddy |
| Dyadic.ParentSplits | kernel/mem/buddy.c:148-156 | the block of the next order is aligned, starts at the lower of the two buddies, and consists of exactly their pages |
| Dyadic.Nested | kernel/mem/buddy.c:122-160 | two aligned blocks that share a page are nested |
| Bits.XorFlips | kernel/mem/buddy.c:137 | exclusive or with 2^k moves an aligned address to its neighbour in the pair |
| Bits.OrMask | kernel/mem/walk.c:13-34 | or with 2^k - 1 gives the last address of the aligned span that holds an address |
| Bits.ShrIsDiv | include/x86-64/paging.h:43-51 | shifting and masking give quotient and remainder |
| Bits.AndHigh | include/x86-64/paging.h:49-51 | a mask ignores the bits below its own |
| FreeSet.CanonicalForm | kernel/mem/buddy.c:106-120 | a block is on a free list just when it is a maximal aligned block of free pages |
| FreeSet.SamePagesSameBlocks | kernel/mem/buddy.c:122-160 | the set of free pages determines what every free list holds |
| FreeSet.MergeKeeps | kernel/mem/buddy.c:122-160 | the merging loop moves pages from the lists into one block, adds and loses none, and ends with a block whose buddy is not free, or of order 10 |
| FreeSet.OverrunsIffTooBig | kernel/mem/buddy.c:157 | the loop passes the last list exactly when the freed block completes an aligned run of 1024 free pages |
| FreeSet.ReleaseKeeps | kernel/mem/buddy.c:237-267 | freeing leaves aligned disjoint blocks with no pair left to merge, and adds exactly the pages of the block |
| FreeSet.ReleasesCommute | kernel/mem/buddy.c:237-267 | two blocks may be freed in either order: every list ends with the same blocks |
| FreeSet.SplitAddsTail | kernel/mem/buddy.c:93-104 | a split from order k to r puts exactly one block of each order r to k - 1 on the lists, the j-th starting 2^j pages into the block |
| FreeSet.SplitKeeps | kernel/mem/buddy.c:82-104 | a split loses exactly the pages of the block it returns, and leaves no pair to merge |
| FreeSet.TakeThenRelease | kernel/mem/buddy.c:169-184 | taking a block, however far it is split, and freeing it restores every list, and never overruns |
| FreeSet.RoomIff | kernel/mem/buddy.c:162-168 | a free block of an order or a larger one exists if and only if some aligned block of that order is wholly free |
| FreeSet.NoRun | kernel/mem/buddy.c:15-20 | lists without a pair to merge never hold a whole aligned run of 1024 pages |
| Runs.AllocKeepsInv | kernel/mem/buddy.c:169-184 | after an allocation free and live blocks still are aligned and tile the pages |
| Runs.FreeKeepsInv | kernel/mem/buddy.c:237-267 | so they are after a free |
| Runs.RunKeepsInv | kernel/mem/buddy.c:93-267 | and after every run: no page is in two blocks or in none, and no two free blocks could be merged |
| Runs.RunsAgree | kernel/mem/buddy.c:93-267 | any two runs that leave the same pages in use leave the same free lists |
| Runs.AllocThenFree | kernel/mem/buddy.c:169-267 | from any good state an allocation followed by the free of its block is possible and changes nothing |
| Runs.FreesCommute | kernel/mem/buddy.c:237-267 | two frees lead to the same state in either order, free and live blocks both |
| Runs.FewerOverruns | kernel/mem/buddy.c:157 | if neither of two frees overruns the lists as the second, neither does as the first |
| Runs.TotalCountsPages | kernel/mem/buddy.c:66-80 | the sum over the orders is the number of free pages |
| Runs.AllocLowersTotal | kernel/mem/buddy.c:169-184 | an allocation of order r lowers the sum by 2^r, whatever was split |
| Runs.FreeRaisesTotal | kernel/mem/buddy.c:237-267 | a free of order k raises it by 2^k, whatever was merged |
| Lists.Node.constructor | lib/list.c:3-7 | list_init links a node to itself |
| Lists.ListInsertAfter | lib/list.c:9-16 | the node comes after the given one; the rest of the ring is kept |
| Lists.ListInsertBefore | lib/list.c:18-25 | the node comes before the given one; the rest of the ring is kept |
| Lists.ListDel | lib/list.c:27-34 | the node leaves its list and is linked to itself; on a node linked to itself nothing happens |
| Lists.ListAdd | lib/list.c:36-39 | the node becomes the first |
| Lists.ListAddTail | lib/list.c:41-44 | the node becomes the last |
| Lists.ListPop | lib/list.c:46-57 | the last node is taken off, NULL just when the list is empty: with list_add, a queue |
| Lists.ListPopTail | lib/list.c:59-70 | the first node is taken off: with list_add, a stack |
| Buddy.BuddyAddress | kernel/mem/buddy.c:137 | the exclusive or of the physical address is the address of the buddy |
| Buddy.Allocator.FindBuddy | kernel/mem/buddy.c:8 | FIND_BUDDY finds the page that heads the buddy |
| Buddy.Allocator.CountFreePages | kernel/mem/buddy.c:23-37 | the length of a list is the number of free blocks of its order, 0 beyond the last order |
| Buddy.Allocator.CountTotalFreePages | kernel/mem/buddy.c:66-80 | the result is the number of pages in free blocks |
| Buddy.Allocator.Push | kernel/mem/buddy.c:266 | list_add of a free page puts it first on the list of its order and changes no other list |
| Buddy.Allocator.Pull | kernel/mem/buddy.c:149 | list_del of a free page takes it off the list of its order and changes no other list |
| Buddy.Allocator.Halve | kernel/mem/buddy.c:97-101 | one round of a split: the upper half goes first on its list, the lower half is kept, and only these two pages change |
| Buddy.Allocator.BuddySplit | kernel/mem/buddy.c:93-104 | the page keeps its number and gets the requested order; the lists gain exactly the upper halves, each first on its list; no page outside the block and no reference count changes |
| Buddy.Allocator.FindOnList | kernel/mem/buddy.c:140-146 | the search finds the free block of the order at the given address, if there is one |
| Buddy.Allocator.Unlink | kernel/mem/buddy.c:149-150 | both list_del calls: the buddy leaves its list, and the page, on none, is left as it is |
| Buddy.Allocator.MarkMerged | kernel/mem/buddy.c:151-155 | of the two pages only the chosen one is left marked free, with its order raised |
| Buddy.Allocator.MergeOnce | kernel/mem/buddy.c:148-156 | one merge: the buddy leaves its list, and the lower of the two pages, marked free, heads the parent |
| Buddy.Allocator.BuddyMerge | kernel/mem/buddy.c:122-160 | the loop ends with the block and the free set of the merging specification; exactly the buddies on the way leave their lists |
| Buddy.Allocator.FindOrder | kernel/mem/buddy.c:171-175 | the smallest order from the requested one up whose list is not empty, 10 if there is none |
| Buddy.Allocator.RoomOnLists | kernel/mem/buddy.c:171-177 | some list from an order up holds a block if and only if some aligned block of that order is wholly free |
| Buddy.Allocator.BuddyFind | kernel/mem/buddy.c:169-184 | within the lists exactly when the requested order is at most 10; NULL just when every list from the requested order up is empty, which is when no aligned block of that order is wholly free, and then nothing changes; otherwise the first block of the smallest such list, split; larger lists and all metadata outside the block are kept |
| Buddy.Allocator.Return | kernel/mem/buddy.c:263-266 | what is marked, merged and put first on its list, and when that list exists |
| Buddy.Allocator.PageFree | kernel/mem/buddy.c:237-267 | the last list_add is within bounds exactly when the free does not complete an aligned run of 1024 free pages; then the whole invariant holds again, and the lists, the free pages and the metadata are those of a free step |
| Buddy.Allocator.PageDecref | kernel/mem/buddy.c:273-277 | the 16-bit count drops by one, from 0 to 65535, and the block is freed exactly when it reaches zero; no other count changes |
| Buddy.Allocator.constructor | kernel/mem/init.c:92-95 | empty lists and every page in use at order 0 satisfy the invariant |
| Buddy.NewPages | kernel/mem/init.c:189-195 | every page gets its own node, linked to itself, and blank metadata |
| Boot.AlignBootInfo | kernel/mem/boot.c:54-79 | every entry, in place, becomes its aligned form |
| Boot.FreeEnds | kernel/mem/boot.c:64-68 | a FREE region is cut to its rounded ends, even if a length in between wraps |
| Boot.OtherEnds | kernel/mem/boot.c:69-73 | any other region is extended to its rounded ends |
| Boot.AlignPages | kernel/mem/boot.c:46-53 | a FREE region becomes the pages that lie wholly inside it, any other region the pages it touches |
| Boot.AlignKeepsApart | kernel/mem/boot.c:54-79 | a FREE region and any region apart from it share no page once aligned |
| Boot.AlignShrinks | kernel/mem/boot.c:64-68 | a FREE region does not grow just when its rounded start is not beyond its rounded end |
| Boot.TinyRegionWraps | kernel/mem/boot.c:66 | a region of 10 bytes that becomes almost 2^64 bytes long |
| Boot.FreePage | kernel/mem/init.c:220 | one call of page_free from page_init adds exactly that page to the free ones, unless it completes a run of 1024 |
| Boot.ReservedIs | kernel/mem/init.c:164-168 | addr_reserved holds of page 0, the page that starts at the ELF header, the page that holds the boot information, and every page that shares a byte with the kernel from 1 MiB up to its end; no other |
| Boot.EligibleIs | kernel/mem/init.c:204-220 | the pages that the loop over a region frees: FREE, in the region, below 8 MiB and not reserved, all in literal addresses |
| Boot.WantedIs | kernel/mem/init.c:176-224 | so are the pages that page_init is to free, over all regions |
| Boot.FreeRegion | kernel/mem/init.c:216-221 | the loop over one region frees exactly its eligible pages |
| Boot.PageInit | kernel/mem/init.c:176-224 | page_init stays within the lists exactly when the pages it is to free hold no aligned run of 1024; then a page is in a free block exactly if it starts in a FREE region below 8 MiB and is neither page 0 nor the page that starts at the ELF header, holds the boot information or shares a byte with the kernel, and the free blocks are in canonical form |
| Boot.HighestAddr | kernel/mem/init.c:98-105 | the loop leaves the end of the last FREE entry |
| Boot.LastFreeIsHighest | kernel/mem/init.c:100-105 | on an ascending map no FREE region ends beyond the last one, so the loop finds the highest address |
| Boot.AlignedMapFits | kernel/mem/init.c:89-110 | on every ascending map, alignment and the page count give what page_init needs: disjoint page-aligned FREE regions, each page to be freed with its struct page_info |
| Boot.PageCountIs | kernel/mem/init.c:98-110 | page structures exist for exactly the pages below 8 MiB that end within a FREE region of the unaligned map or before one |
| Boot.WantedIsToFree | kernel/mem/boot.c:54-79 | aligning the map first makes page_init free exactly the pages that lie wholly in a FREE region of the unaligned map |
| Boot.MemInit | kernel/mem/init.c:89-126 | mem_init up to page_init, on any ascending map: it stays within the lists exactly when the pages to be freed hold no aligned run of 1024, and then exactly those pages are in free blocks that lie wholly in a FREE region of the map given, below 8 MiB, and are not reserved |
| Boot.EightMegabytesOverrun | kernel/mem/init.c:212-222 | an ascending memory map that satisfies all this and makes page_init pass the last list |
| PageTables.TableEndIs | kernel/mem/walk.c:13-34 | each boundary is the last byte before the next entry's span |
| PageTables.EntryIndexIs | include/x86-64/paging.h:43-47 | the four index macros give the entry for an address at each level |
| PageTables.LeafIsEntry | kernel/mem/remove.c:13-52 | a leaf is a present entry of a page table or a present huge entry of a page directory |
| PageTables.UnmapKeeps | kernel/mem/remove.c:13-52 | unmapping keeps the tree and the way to every table |
| PageTables.UnmapClears | kernel/mem/remove.c:13-52 | exactly the entries that mapped a page of the range are zeroed; every other entry of every table is kept |
| PageTables.UnmapLeavesNoLeaf | kernel/mem/remove.c:54-69 | no page of the range is mapped any more, and none is newly mapped |
| PageTables.UnmapInTwo | kernel/mem/walk.c:47-214 | a range may be unmapped in two parts |
| PageTables.VisitedOnce | kernel/mem/walk.c:47-71 | the pages with a page table in the range are visited exactly once, in strictly ascending order |
| PageTables.DropsPerEntry | kernel/mem/remove.c:21-24 | a page loses one reference for each entry of the range that pointed at it, a huge entry counting once for its 512 pages |
| PageTables.BeyondIsKept | kernel/mem/walk.c:84-119 | in a tree without shared tables a page of the 48-bit address space beyond the last 2 MiB touched stays mapped by the same, unchanged entry |
| PageTables.BeyondAreKept | kernel/mem/walk.c:84-119 | so does every page that the tables see beyond, at once; that includes the sign-extended addresses of the upper half |
| PageTables.LeafWraps | include/x86-64/paging.h:43-47 | pages whose addresses agree in the low 48 bits have the same leaf |
| PageTables.UnmapLeaf | kernel/mem/remove.c:54-69 | exactly the pages whose entry mapped a page of the range are unmapped; every other page keeps its entry |
| PageTables.ExactIff | kernel/mem/walk.c:107 | going on to a later end changes nothing if and only if the pages in between are mapped by no entry but those that map a page of the range asked for |
| PageTables.RemoveExactIff | kernel/mem/remove.c:77-81 | page_remove removes just its page if and only if no other entry maps a page from there to the end of the PML4 entry's span |
| PageTables.RemoveOvershoots | kernel/mem/remove.c:77-81 | a tree that maps two pages, where page_remove of the first unmaps the second |
| PageTables.TwoPagesIsTree | kernel/mem/walk.c:105-106 | its four tables, one of each level, form a tree |
| PageTables.TwoPagesUnshared | kernel/mem/walk.c:105-106 | and none of them is shared |
| Walk.TwoPagesMayGo | kernel/mem/remove.c:72-75 | with eight pages in use and one reference to each, it satisfies all that unmapping the user half asks of tables and allocator |
| PageTables.EntryBits | include/x86-64/paging.h:43-51 | for every entry, whatever its other bits: it is present just when bit 0 is set, huge just when bit 7 is, and its frame is bits 12 to 47 |
| PageTables.LeafIsLookUp | kernel/mem/walk.c:47-214 | the leaf of a page is what a look-up by the bits of the address finds: from the root through present entries, nine bits of the address at each level, to the page table or a huge entry |
| Drops.DropRef | kernel/mem/buddy.c:273-277 | one page_decref in a run: exactly the blocks that lost their last reference are free, or the whole run frees an aligned run of 1024 pages |
| Drops.FreeAfterMore | kernel/mem/buddy.c:273-277 | more dropped references leave no fewer pages free |
| Walk.LoopStops | kernel/mem/walk.c:188 | where the loop of each level stops, from the address it has come to |
| Walk.ChildStops | kernel/mem/walk.c:107 | the children of an entry are walked to the end of that entry's span |
| Walk.Walker.NextAddress | kernel/mem/walk.c:55-56 | the next address, in 64-bit arithmetic, is the start of the next entry's span, so each loop ends |
| Walk.TopNeverEnds | kernel/mem/walk.c:188 | if the last span asked for reaches the top of the address space, every next address is below the end, so that the loop over the PML4 has no end |
| Walk.Walker.RemovePte | kernel/mem/remove.c:13-30 | the callback takes the reference's step for the page |
| Walk.Walker.RemovePde | kernel/mem/remove.c:35-52 | it takes the reference's step for all pages of a present huge entry and leaves any other entry alone |
| Walk.Walker.PtblWalkRange | kernel/mem/walk.c:47-71 | the loop does to the tables, the reference counts and the allocator what unmapping page by page does |
| Walk.Walker.PdirWalkRange | kernel/mem/walk.c:84-119 | so does the loop over a page directory |
| Walk.Walker.PdptWalkRange | kernel/mem/walk.c:132-167 | so does the loop over a PDPT |
| Walk.Walker.Pml4WalkRange | kernel/mem/walk.c:179-214 | so does the loop over the PML4, up to the end of the last entry touched |
| Walk.Walker.UnmapPageRange | kernel/mem/remove.c:55-69 | with the rounding of walk_page_range: the range really unmapped, and the exact condition under which every page_free in it stays within the lists |
| Walk.Walker.PageRemove | kernel/mem/remove.c:78-81 | the same for one page, and for the next one as well if the address is not aligned: afterwards a look-up finds no entry for any page up to the next multiple of 512 GiB after the last byte, and, in a tree without shared tables, the same entry as before for every page beyond |
| Walk.Walker.UnmapUserPages | kernel/mem/remove.c:72-75 | a look-up finds no entry for any address below 2^47; every page of the upper half is mapped by the same entry with the same contents; every reference count drops by the number of leaf entries that pointed at the page, and exactly the blocks whose count reached zero so are back with the allocator, whose invariant holds |
| Walk.Walker.ReachedSettles | kernel/mem/remove.c:13-52 | a finished walk settles reference counts and live blocks entry by entry |
| RbTree.ZipIsTree | include/rbtree.h:16-24 | a tree taken apart at any node has consistent parent and child links just when the whole has |
| RbTree.PlugWalk | include/rbtree.h:16-24 | the order of the whole is what comes before a subtree, the subtree, and what comes after |
| RbTree.WalkReversed | lib/rbtree.c:27-56 | the two directions meet the nodes in opposite orders |
| RbTree.WalkDistinct | include/rbtree.h:16-20 | no node occurs twice in the order |
| RbTree.GetOutermost | lib/rbtree.c:27-39 | the last node of the subtree in the given direction, NULL just for no node |
| RbTree.GetClosest | lib/rbtree.c:41-56 | the neighbour of a node in the given direction, below it or up its ancestors, NULL at the end |
| RbTree.RbFirst | lib/rbtree.c:58-61 | the first node in order |
| RbTree.RbLast | lib/rbtree.c:63-66 | the last node in order |
| RbTree.RbNext | lib/rbtree.c:68-71 | from the i-th node in order to the next, NULL after the last |
| RbTree.RbPrev | lib/rbtree.c:73-76 | from the i-th node in order to the one before, NULL before the first |
| RbTree.Traverse | lib/rbtree.c:58-71 | rb_first and then rb_next until NULL gives every node exactly once, in order |
| RbTree.NextThenPrev | lib/rbtree.c:68-76 | rb_prev takes back rb_next, which gives NULL at the last node only |
| RbTree.RemovedWalk | lib/rbtree.c:130-147 | replacing a node by its subtrees, or by its predecessor, takes just that node out of the order |
| RbTree.DoRemove | lib/rbtree.c:119-162 | in any parent-linked tree and for any node: the links are consistent again, the node is zeroed, and no colour changes but that of a moved predecessor, which becomes black |
| RbTree.Remove | lib/rbtree.c:125-161 | -1 for a missing tree or node; otherwise the i-th node, and nothing else, leaves the order; the node before it becomes black if there were two children, so that the place keeps its colour just when the removed node was black, and every other colour is kept |
| RbTree.RbReplace | lib/rbtree.c:237-258 | the new node takes the place, links and colour of the old one; the rest of the order and every other colour are kept |
| Numbers.PrintNum | lib/printfmt.c:37-51 | the pads up to the width, in the arithmetic of an int that wraps round, and then the one text that stands for the number in the base with lower-case digits and no leading zeros |
| Numbers.NumeralIff | lib/printfmt.c:37-51 | a text of lower-case digits without leading zeros has the number as its positional value in the base if and only if it is what printnum prints |
| Numbers.PaddedLength | lib/printfmt.c:37-51 | a 64-bit number is printed as wide as asked, or as wide as it is if that is more, just when the width less its digits still is an int |
| Numbers.Strtol | lib/string.c:227-271 | blanks, sign, prefix and digits are read as specified, and nothing past the terminator; the result is the value of the digits wrapped round to a long, and the ghost result says whether every value on the way fitted one |
| Numbers.StrtolReads | lib/string.c:227-271 | for blanks, a sign, a prefix, digits and whatever follows: the positional value of the digits, in the base that the argument and the prefix settle, negated after -, as the long with its bits; it stops at what follows, and overflows exactly from 2^63 on |
| Numbers.EveryTextSplits | lib/string.c:232-256 | every terminated text is of that form, for every base given |
| Numbers.WeightIs | lib/string.c:253-260 | the digits are 0-9 and the letters of either case, and each has its usual weight |
| Numbers.ValueIsPositional | lib/string.c:264 | the digit by digit value is the positional one |
| Numbers.ReadSign | lib/string.c:232-240 | blanks are skipped, and one sign |
| Numbers.ReadPrefix | lib/string.c:242-248 | a prefix of 0x or 0 fixes the base, when the base given allows it |
| Numbers.ReadDigits | lib/string.c:250-265 | the digit loop stops at the first character that is no digit of the base, with the value of the digits modulo 2^64 as a long, and overflows exactly when that value is 2^63 or more |
| Numbers.BaseFromPrefix | lib/string.c:242-248 | with base 0 a number printed in decimal is read back as it stands unless it is 0, one in octal after a 0, and one in hexadecimal after 0x, which base 16 allows as well |
| Numbers.DigitsValue | lib/printfmt.c:37-51 | the digits printed have the value of the number |
| Numbers.PartialValues | lib/string.c:264-265 | the value read so far never exceeds the number, so that one below 2^63 does not overflow |
| Numbers.PrintThenParse | lib/string.c:227-271 | strtol finds a printed number again, with all of the text read and without overflow, if and only if it is below 2^63 and no pad, or blanks, zeros, or one - before a zero, stand before its digits; from 2^63 on it gets the long with the same bits |
| Numbers.PrintThenParseNegative | lib/printfmt.c:199-202 | a negative number is found again without overflow if and only if its magnitude is below 2^63 and zeros or nothing stand between sign and digits; a bigger magnitude wraps round |
| Numbers.PrintThenParsePointer | lib/printfmt.c:219-225 | so is a %p, read with base 0, after its 0x; an address from 2^63 on comes back as the long with the same bits |
| Format.ReadNumber | lib/printfmt.c:132-137 | the digits of a width or precision up to the first other character, as an int that wraps round |
| Format.Scan | lib/printfmt.c:109-161 | an escape ends at the first character that is no flag, at or before the terminator |
| Format.ScanEscape | lib/printfmt.c:109-161 | the loop sets the flags and takes the arguments as specified, with every number an int |
| Format.StrNLen | lib/string.c:21-28 | the length of what %s will show, as an int |
| Format.PutString | lib/printfmt.c:180-194 | padding, the string cut to the precision and masked, and padding on the right, with a width that wraps round |
| Format.StringWidth | lib/printfmt.c:180-194 | %s prints the string cut to the precision, at the right end of the width after pad characters, or with the - flag at its left before blanks, and with the # flag ? for every character outside 0x20 to 0x7e, just when the width less what is shown still is an int |
| Format.StringPrints | lib/printfmt.c:179-194 | through the scanner: %s with any padding, and width and precision below 2^31, prints that field of the string, or of (null) for NULL |
| Format.AltMasks | lib/printfmt.c:149-151 | %#s prints it with ? for what cannot be printed |
| Format.PrecisionCuts | lib/printfmt.c:118-147 | a written precision cuts the string to it if and only if it is not 0 and fits an int, or the string is no longer than either what is written or what the int holds |
| Format.PutDecimal | lib/printfmt.c:197-204 | sign and number of %d |
| Format.PutError | lib/printfmt.c:169-177 | the text of an error, or its number |
| Format.ErrorTextIs | lib/printfmt.c:23-31 | which message stands for which of the codes of include/error.h, and "error" with the number for every other code, 3 among them |
| Format.ErrorPrints | lib/printfmt.c:168-177 | %e prints that for the int that the argument holds |
| Format.ErrorIsFormatted | lib/printfmt.c:174 | a non-negative error code without a text is printed as the format "error %d" prints it |
| Format.ErrorSignIsIgnored | lib/printfmt.c:17-20 | an error code and its negation print the same |
| Format.PutWord | lib/printfmt.c:163-233 | each conversion that takes a number, with the width of the argument that its flags ask for |
| Format.Convert | lib/printfmt.c:163-238 | one conversion and the argument it takes, %p printing the address of a string as well; failure exactly when the argument is missing or of another kind |
| Format.BackToPercent | lib/printfmt.c:243-244 | the step back ends at the % that opened the escape |
| Format.VPrintFmt | lib/printfmt.c:84-248 | for every terminated format the scanner ends, reads nothing past the terminator, and prints what the specification says, with the arguments left over; its ints wrap round |
| Format.FormattedShift | lib/printfmt.c:96-101 | what is printed from some place on depends on the rest of the format alone |
| Format.TextIsVerbatim | lib/printfmt.c:97-101 | text without % is printed as it stands |
| Format.MalformedIsVerbatim | lib/printfmt.c:240-245 | an escape of characters from -0123456789*.#l that ends in none of cesduopx% is printed as it stands; its stars have taken their arguments |
| Format.ScanWritten | lib/printfmt.c:109-161 | padding, width, precision and length are read as what an int holds of what was written, digit by digit |
| Format.MeantAsWritten | lib/printfmt.c:149-156 | which is what was written, if that is below 2^31: a precision without a width makes the width 0 |
| Format.DirectivePrints | lib/printfmt.c:103-246 | a written directive prints its conversion, and what follows it is formatted with the arguments left |
| Format.DenotesOne | lib/printfmt.c:57-78 | each argument denotes one number for each conversion: its 64 bits with an l, its low 32 bits without, unsigned or in two's complement; the address for %p, 0 for NULL |
| Format.NumberPrints | lib/printfmt.c:196-235 | through the scanner: %u, %o, %x, %d and %p with any padding and length and a width below 2^31 print 0x for %p or - for a negative number, the pads, and the digits of the number denoted in base 10, 8 or 16 |
| Format.CharPrints | lib/printfmt.c:163-166 | %c prints the low byte of its argument and ignores the width |
| Format.PercentPrints | lib/printfmt.c:235-238 | %% prints % and takes no argument |
| Format.StuckIff | lib/printfmt.c:163-225 | a conversion fails just when it has no argument or one of another kind |
| Format.StarsScan | lib/printfmt.c:140-147 | a * sets the width, and after a . the precision, to the int that its argument holds; a negative width counts as none before the . |
| Format.LastPadWins | lib/printfmt.c:111-119 | of several padding flags the last counts |
| Format.FormatThenParse | lib/printfmt.c:206-233 | %u, %o and %x with any padding, width and length, through scanner and printer, of all 64 bits of the argument with an l and of its low 32 bits without: strtol finds the number again without overflow if and only if it is below 2^63 and the padding, for the width as an int holds it, is legible; if only the first fails, it gets the long with the same bits |
| Format.FormatThenParseSigned | lib/printfmt.c:196-204 | the same for %d of any number of either sign, with an l of the long that has the bits of the argument and without of the int that has its low 32 bits; the least long overflows, though it comes back |
| Format.FormatThenParsePointer | lib/printfmt.c:218-225 | the same for %p, read with base 0 |

## Left out

- Buddy.Allocator.BuddyFind: nothing is said of the list beyond the last that is popped for a requested order above 10.
- Buddy.Allocator.PageFree: nothing is said about the lists after the write past the last one.
- Boot.AlignKeepsApart: two regions neither of which is FREE may share a page once aligned, so one of the two must be FREE.
- Boot.PageInit: maps whose last FREE entry is not the highest, for which pages have no struct page_info, are excluded.
- Walk.Walker.UnmapPageRange: ranges whose last 512 GiB reach the top of the address space are excluded; TopNeverEnds says that there the call does not return.
- Walk.Walker.PageRemove: the same ranges are excluded.
- Walk.Walker.UnmapUserPages: frames of leaves must have a struct page_info and enough references, as pa2page and page_decref demand; of the upper half of a tree with shared tables nothing is said.
- Numbers.Strtol: signed overflow is undefined in C; the model lets the long wrap round, and says when it does.
- Format.VPrintFmt: the ints of widths, precisions and lengths wrap round as well, where C leaves that undefined.
- Format.PrecisionCuts: strings longer than 2^31 bytes, for which strnlen's int wraps round.
- Format.StringWidth: strings longer than 2^30 bytes.
- Format.StringPrints: the same strings.
- walk_all_pages and walk_kernel_pages: they wrap as said above.
- The callbacks of the walker other than those of remove.c: a hole, an unmap or a failing callback never occurs when unmapping.
- tlb_invalidate, and page tables as seen by the hardware.
- page_insert, page_lookup, boot_map_region, ptbl_split, ptbl_merge and ptbl_free: they do not do what their comments say.
- rb_insert, rb_remove and the rotations: the rotation moves the wrong subtree, so the balance is not kept.
- page_alloc: buddy_find of order 0, but for the zeroing of the page's bytes; the code under BONUS_LAB1 is not compiled by default.
- page_init_ext, buddy_migrate, buddy_map_chunk and boot_alloc: page_init_ext repeats page_init above BOOT_MAP_LIM; the end of the kernel that boot_alloc gives is a parameter.
- The functions that print the allocator's state and the memory map.
- vsnprintf and its buffer; putch appends to a string.
- Memory as bytes: list nodes, page metadata, tables and tree nodes are objects, and physical addresses are numbers.
