# Query log statistics: a model of the counting daemon

The daemon counts DNS queries. For each view it keeps the names and the client addresses that
occur, each in a red-black tree with a count, a list by last use and a heap of the thousand that
count most; the views themselves stand in a tree and a list of the same kind. When the memory
estimate goes over its limit the views used least recently go, and in the last one the names and
addresses used least recently. Beside that there are a tree of address prefixes and an allocator
of fixed-size blocks.

The model follows the C code operation by operation, with its pointers, arrays and loops:

| file | models |
|---|---|
| `RedBlackTree.dfy`, over `RedBlackAlgebra`, `RedBlackMemory`, `RedBlackFixup`, `RedBlackDelete` and `Names` | `src/dig_rb_tree.c`: nodes with parent, left, right and colour. A ghost map mirrors the fields, and the lemmas about trees with a hole are about that map |
| `LruList.dfy` | `src/zip_lru_list.c` |
| `CountHeap.dfy`, over `HeapOrder.dfy` | `src/log_heap.c`, the array; what its loops compute, on sequences |
| `NameIndex.dfy`, `TopRank.dfy`, `NameTree.dfy`, `NameRuns.dfy` | `src/log_name_tree.c`: a tree and a list over the same records; what it means to be among the leaders; the three together; whole runs |
| `ViewStats.dfy`, `NameReport.dfy` | `src/log_view_stats.c`: the counters of a view; the reply with the names that count most |
| `ViewModel.dfy`, `ViewTree.dfy`, `LogTopN.dfy` | `src/log_view_tree.c` and `log_handle` of `src/log_topn.c`: on values, on the real structures, and the handler with its replies |
| `Fanout.dfy` | the two keys each line is counted under (`src/log_topn.c:145-148`) |
| `RadixTree.dfy`, over `PrefixCode.dfy` and `PrefixShape.dfy` | `src/dig_radix_tree.c`: a prefix is a one bit with the bits of the prefix behind it, as one number |
| `MemPool.dfy` | `src/dig_mem_pool.c`: addresses as numbers, the free list through a map of memory words |
| `Sequences.dfy`, `Powers.dfy`, `Sealing.dfy` | sequences without repetition; powers of two and three; definitions that stay closed until a proof asks for them |

Two places of the code depart from what they are for. The insertion loop of the heap compares a
parent with what the slot still holds (`src/log_heap.c:78`), and an evicted record is not told that
it is out (`src/log_name_tree.c:164-167`). Both are modelled as written and, where a `repaired`
flag says so, with the one line put right. What each version keeps is in the table. For the version
as written it says exactly which insertions keep the heap in order, the records aware of where they
are, and the heap the top thousand; which runs do throughout; what is still kept where only the
records have lost track; and runs, up to the reply they give, on which it goes wrong.

## Model

| member | source | states |
|---|---|---|
| RedBlackTree.RBTree.Insert | src/dig_rb_tree.c:172-218 | A node with a new key joins exactly at its place in key order and the tree is red-black, ordered and linked consistently afterwards; with a known key the resident node is returned and no field of any node changes |
| RedBlackTree.RBTree.InsertFixup | src/dig_rb_tree.c:102-163 | From a red-red edge at any depth the loop restores the colour rules and keeps the nodes and their order; each round goes up |
| RedBlackTree.RBTree.RotateLeft | src/dig_rb_tree.c:52-73 | The pointer assignments of a left rotation carry out exactly the rotation of the subtree, wherever in the tree it is; likewise RotateRight |
| RedBlackTree.RBTree.RotateRight | src/dig_rb_tree.c:79-100 | The mirror image |
| RedBlackTree.RBTree.Delete | src/dig_rb_tree.c:267-343 | The very node object with the key leaves, with its links cleared; all others stay, in order, and all red-black invariants hold again with the sentinel unwritten; an absent key changes nothing |
| RedBlackTree.RBTree.Relocate | src/dig_rb_tree.c:283-321 | A node with two children and its successor change places by pointers only, also when the successor is its child; contents of both objects stay |
| RedBlackTree.RBTree.DeleteFixup | src/dig_rb_tree.c:345-446 | One black too few on one side is repaired in every case, with a measure that falls |
| RedBlackTree.RBTree.Search | src/dig_rb_tree.c:224-234 | Finds the node with the key exactly if there is one |
| RedBlackTree.RBTree.FindLessEqual | src/dig_rb_tree.c:448-478 | The node with the key, or else the one with the greatest smaller key, or none; the number of steps s satisfies 2^s <= (n+1)^2 |
| RedBlackTree.RBTree.Descend | src/dig_rb_tree.c:183-195 | The insertion descent ends at the free place of the key or at its node, within the same number of steps |
| RedBlackTree.RBTree.First | src/dig_rb_tree.c:484-491 | The first node in key order |
| RedBlackTree.RBTree.Last | src/dig_rb_tree.c:493-500 | The last node in key order |
| RedBlackTree.RBTree.Next | src/dig_rb_tree.c:506-523 | The in-order successor, so that a loop over First and Next visits each node once in ascending order |
| RedBlackTree.RBTree.Previous | src/dig_rb_tree.c:525-542 | The in-order predecessor; it undoes Next |
| Names.LtMeans | src/log_name_tree.c:7-15 | The order of the tree is that of strcmp: the smaller character at the first difference, or the proper prefix, comes first |
| LruList.LruList.Insert | src/zip_lru_list.c:105-133 | The doubly linked cells refine a sequence: a new cell at its head |
| LruList.LruList.MoveToFirst | src/zip_lru_list.c:155-173 | The cell, wherever it is, becomes the head; the rest keep their order |
| LruList.LruList.Delete | src/zip_lru_list.c:33-55 | The cell leaves and the rest keep their order |
| LruList.LruList.RemoveTail | src/zip_lru_list.c:64-92 | The last cell leaves and its datum is returned; nothing from an empty list |
| CountHeap.Heap.Insert | src/log_heap.c:66-91 | The array becomes what the loop computes, as written or repaired, it is a permutation with the new element, and every element is told its slot |
| CountHeap.Heap.AdjustSiftdown | src/log_heap.c:177-201 | Sifts the grown element down; same elements, every element told its slot |
| CountHeap.Heap.ReplaceLeast | src/log_heap.c:203-229 | The least makes room for a heavier element, which is sifted in; else nothing changes |
| CountHeap.Heap.Delete | src/log_heap.c:93-127 | Takes the least out and sifts the last in; no element is told |
| CountHeap.Heap.Copy | src/log_heap.c:128-146 | A separate heap with the same elements |
| CountHeap.Heap.Sort | src/log_heap.c:148-175 | The array becomes what the rounds of the sort make of it, whether it was in heap order or not; no element is told its slot |
| HeapOrder.SiftOrders | src/log_heap.c:177-201 | Sifting from a hole restores heap order |
| HeapOrder.SiftIsLazy | src/log_heap.c:182-194 | Elements of equal weight do not pass each other; of two equal children the left one is the one to move |
| HeapOrder.RiseIsShallow | src/log_heap.c:76-88 | As written, a new element rises at most one level |
| HeapOrder.RiseKeepsOrderIff | src/log_heap.c:76-88 | As written, insertion keeps heap order if and only if one level is enough |
| HeapOrder.RiseLosesOrder | src/log_heap.c:78 | A heap and an element for which it is not |
| HeapOrder.RiseRepairedOrders | src/log_heap.c:76-88 | With the comparison repaired heap order is always kept |
| HeapOrder.SortRound | src/log_heap.c:148-175 | One round of the heap sort puts the least behind and restores the heap before it |
| HeapOrder.SortMeans | src/log_heap.c:148-175 | What the sort makes of an array is a permutation, and in falling order if the array was in heap order |
| HeapOrder.SortGoesWrong | src/log_heap.c:148-175 | Four elements out of heap order, as the insertion as written can leave them, that it does not bring into falling order |
| NameTree.NameTree.Insert | src/log_name_tree.c:114-175 | Tree, list and heap together: the count of the name, with the dot put at its end if there is none, grows by one, it becomes the most recent, names of 32 characters and more are refused without change; while no name has been deleted the heap, its indices and evictions follow InsertStep |
| NameTree.NormalMeans | src/log_name_tree.c:135-137 | A name is stored with nothing changed or lost, and one dot more if it has none at its end |
| NameTree.NameTree.SameRecordIff | src/log_name_tree.c:135-137 | Two names share a record if and only if they are equal or differ by the final dot alone |
| NameTree.NameTree.Delete | src/log_name_tree.c:177-200 | The name leaves tree and list, and nothing else does; the heap keeps its record, slots and weights; -1 and nothing at all changed if it is unknown or too long |
| NameTree.NameTree.ExactlyFind | src/log_name_tree.c:202-220 | The record of exactly the name, or of the name and a final dot if it has none |
| NameTree.NameTree.CloselyFind | src/log_name_tree.c:243-264 | The record of the longest suffix at a label boundary, the root name included, or none if there is none |
| NameTree.ParentIsNext | src/log_name_tree.c:229-241 | The parent of a suffix is the next suffix at a label boundary |
| NameTree.ParentOfLabel | src/log_name_tree.c:229-241 | The parent is what follows the first label and its dot, or the root name if nothing follows; the root name has none |
| NameTree.NameTree.DropOldest | src/log_view_stats.c:101-106 | The name inserted least recently leaves list and tree, and the heap keeps its slots and weights; nothing changes if there is none |
| NameTree.TopNMeans | src/log_name_tree.c:114-175 | What the top thousand are: a record is in the heap exactly if its index is not -1, all are in up to a thousand, nobody outside counts more than anybody inside |
| NameTree.InsertKeepsTopN | src/log_name_tree.c:155-172 | One insertion, repaired, keeps that |
| NameTree.InsertKeepsEveryone | src/log_name_tree.c:155-172 | One insertion, as written too, keeps the heap at min(1000, n) records of the tree |
| NameTree.EveryoneIsIn | src/log_name_tree.c:155-172 | Up to a thousand names heap and tree hold the same records, as written too |
| NameTree.InsertKeepsAwareIff | src/log_name_tree.c:164-167 | As written, every record goes on knowing whether it is in the heap if and only if the insertion evicts none |
| NameTree.InsertKeepsStuck | src/log_name_tree.c:164-167 | A record that wrongly believes to be in the heap never gets in again |
| NameTree.InsertKeepsOrderIff | src/log_heap.c:76-88 | From any state with the heap in order, after evictions too: an insertion as written keeps it in order if and only if its record does not enter a heap with room or has to rise one level at most |
| NameTree.InsertKeepsTopNIff | src/log_name_tree.c:155-172 | As written, an insertion keeps the heap the top thousand if and only if it evicts none and its record does not enter a heap with room or has to rise one level at most |
| NameTree.InsertKeepsHonest | src/log_name_tree.c:155-172 | As written, while the heap is in order: whoever is outside with index -1 goes on counting no more than the least inside, past evictions too |
| NameTree.FullStepKeepsOrder | src/log_name_tree.c:160-168 | As written, a full heap in order stays so, and its least never weighs less |
| NameRuns.Replay | src/log_name_tree.c:114-175 | After any run of insertions the counts are those of a plain tally, the list is by last insertion, and the heap is the top thousand (repaired) or min(1000, n) records (as written) |
| NameRuns.TallyMeans | src/log_name_tree.c:154 | The tally of a name is the number of times the run inserts it |
| NameRuns.RecencyMeans | src/log_name_tree.c:148-153 | The list holds each name of the run once, and of two names the one whose last insertion is later stands first |
| NameRuns.RunKeeps | src/log_name_tree.c:114-175 | The same after every part of every run |
| NameRuns.RunKeepsAwareIff | src/log_name_tree.c:164-167 | In any run as written all records know in the end whether they are in the heap if and only if no insertion of the run evicted |
| NameRuns.RunKeepsTopNIff | src/log_name_tree.c:155-172 | In any run as written the heap is the top thousand after every part of it if and only if no insertion evicts a record or leaves its own too low |
| NameRuns.RunKeepsOrderIff | src/log_heap.c:76-88 | In any run as written the heap is in order after every part of it if and only if no insertion leaves its record too low |
| NameRuns.FullStaysInOrder | src/log_name_tree.c:160-168 | Once full and in order, the heap of any run as written stays so |
| NameRuns.HonestUpTo | src/log_name_tree.c:155-172 | In a run as written where no insertion leaves its record too low, evictions or not, only records that wrongly believe to be in the heap can be outside and count more than its least |
| NameRuns.CrowdEvicts | src/log_name_tree.c:164-167 | A run that evicts: a thousand names once each and another one twice |
| NameRuns.ReplayCrowd | src/log_name_tree.c:114-175 | The tree as written gets into that state |
| NameRuns.DisorderLosesOrder | src/log_heap.c:78 | A run as written after which the heap is out of order: three names twice each and a fourth once |
| NameRuns.ReplayDisorder | src/log_name_tree.c:114-175 | The tree as written gets into that state |
| NameRuns.Report | src/log_view_stats.c:163-214 | A report after any run shows min(topn, 1000, n) distinct names with their true counts; no other name counts more in any run with the repairs, and in any run as written, of any number of names, where no insertion evicts or leaves its record too low; if none leaves it too low, only stuck records can be missing |
| NameRuns.ShownRanks | src/log_view_stats.c:163-214 | The same for whatever the first topn of the sorted heap are at the end of a run |
| NameRuns.DisorderMisreports | src/log_view_stats.c:163-214 | A run as written whose report of three names shows one that counts 1 and leaves out one that counts 2 |
| NameRuns.ReportDisorder | src/log_view_stats.c:163-214 | The tree, the sort and the reply as written do give that report |
| NameRuns.Reply | src/log_view_stats.c:163-214 | The same as Report for a tree that has grown one insertion at a time and lost no name |
| NameReport.TopNResult | src/log_view_stats.c:163-214 | Names and counts are the first min(topn, len) of a sorted copy, of any tree, also one that has lost names; the tree stays as it is |
| NameReport.ReportsRightIff | src/log_view_stats.c:163-214 | The reports of every length show those that count most if and only if the sort came out falling and nobody outside the heap counts more than anybody in it |
| NameReport.ReportIsTop | src/log_view_stats.c:163-214 | Where the heap leads, nobody left out counts more than anybody shown |
| ViewStats.FindCode | src/log_view_stats.c:33-53 | The place of the code in the table |
| ViewStats.TableIndexMeans | src/log_view_stats.c:33-53 | That place holds the code, or is the last one if the code is not in the table |
| ViewStats.CodesApart | src/log_view_stats.c:8-16 | The six response codes have a counter each, all others share the seventh |
| ViewStats.TypesApart | src/log_view_stats.c:18-31 | The eleven record types that were meant have a counter each, all others share the twelfth |
| ViewStats.ViewStats.CountQuery | src/log_topn.c:110-113 | One query adds one to its name, its address, its type and its code, and to nothing else |
| ViewStats.ViewStats.GetSize | src/log_view_stats.c:89-95 | 320704 bytes and 112 for each name and each address, modulo 2^32 |
| ViewStats.StatsSizeMeans | src/log_name_tree.c:80-88 | The formula as the code adds it up, each part cut to 32 bits, comes to that |
| ViewStats.OneMoreAdds112 | src/log_view_stats.c:89-95 | Below 2^32 one more name, or one more address, adds 112 bytes |
| ViewStats.ViewStats.SetMemsize | src/log_view_stats.c:96-117 | The loops over both trees carry out Trim and end |
| ViewStats.TrimMeans | src/log_view_stats.c:96-117 | Trim leads to a state if and only if: the most recent names and addresses are left with their counts, none has gone without need, no address before the last name, and the size fits or both lists are empty |
| ViewStats.ViewStats.TopN | src/log_view_stats.c:215-225 | The reply of a view that has lost no name, or no address, is the report of a run of exactly the insertions it was given |
| ViewTree.ViewTree.Find | src/log_view_tree.c:96-106 | The view with the name, or none |
| ViewTree.ViewTree.Insert | src/log_view_tree.c:69-94 | A new view enters tree and list, and its node knows its cell |
| ViewTree.ViewTree.Delete | src/log_view_tree.c:108-122 | The view that has left the list leaves the tree; counts of tree, list and structure agree again |
| ViewTree.ViewTree.DropLast | src/log_view_tree.c:52-53 | The view used least recently leaves list and tree |
| ViewTree.ViewTree.GetSize | src/log_view_tree.c:24-34 | The walk over the tree sums the sizes of exactly the views there are |
| ViewModel.SizeMeans | src/log_view_tree.c:24-34 | No views take 24 bytes; each view adds its own size, 128 for its node and 24 for its cell |
| ViewTree.ViewTree.TopN | src/log_topn.c:327-355 | The same for a view of the tree, or no reply if there is no such view |
| ViewTree.ViewTree.TheOnlyOne | src/log_view_tree.c:36-47 | Of a tree with one view, that view |
| ViewTree.ViewTree.SetMemsize | src/log_view_tree.c:49-67 | The eviction loop on tree, list and views carries out SetMemsize on values, ends, and every view that is left is the same object as before |
| ViewModel.EvictMeans | src/log_view_tree.c:49-56 | Eviction keeps a most recently used prefix of the views, at least one, evicts no view more than needed |
| ViewModel.SetMemsizeMeans | src/log_view_tree.c:49-67 | Trimming leaves a most recent part of the views, at least one, and drops none without need; several that are left are as they were and fit; one left alone is trimmed as TrimMeans says, and not at all if it fits |
| ViewModel.SettledIsUnique | src/log_view_tree.c:49-67 | That describes exactly one state, the one SetMemsize leads to |
| ViewModel.SettledSize | src/log_view_tree.c:49-67 | So in the end the total fits, or one view is left that fits itself, with a total over by at most 176 bytes, or has nothing left to give |
| ViewModel.SetMemsizeKeeps | src/log_view_tree.c:49-67 | Whatever is kept is kept as it was, but for the lists of a view left alone, which keep their most recent entries |
| ViewModel.RoomKeepsHead | src/log_topn.c:104-108 | The view at the head of the list survives the trimming |
| ViewModel.LogMeans | src/log_topn.c:81-115 | A query not refused is counted at the head of the list, in its view, which the trimming never destroys; before that, and only if the total is over the limit, views go until the rest fits, none without need, and a view left alone is trimmed; a new view with a name over 64 characters changes nothing |
| ViewModel.LogIsBounded | src/log_topn.c:104-113 | After any query that is not refused the memory estimate is at most 400 bytes over the limit, or over the size of an empty view |
| ViewModel.LogAllMeans | src/log_topn.c:81-115 | The same in every run of queries |
| ViewModel.LogAllIsBounded | src/log_topn.c:104-113 | The same after any run of queries |
| ViewTree.ViewTree.Log | src/log_topn.c:81-115 | The handler on the real tree, list and counters carries out Log on values and keeps all structure invariants |
| LogTopN.HouseKeeper.LogHandle | src/log_topn.c:81-115 | The same with the limit of the housekeeper, 10 MB from its creation on |
| LogTopN.HouseKeeper.HandleAll | src/log_topn.c:81-115 | Any run of queries |
| LogTopN.HouseKeeper.HandleLines | src/log_topn.c:145-148 | Any run of lines into an empty tree: the memory estimate stays within its bound, the entry of the zone of the last line is at the head and that of its view is next unless trimmed; if no step needs a trim, the sums of Conserved hold |
| LogTopN.HouseKeeper.Flush | src/log_topn.c:164-168 | An empty tree of views takes the place of the old one |
| LogTopN.HouseKeeper.Reply | src/log_topn.c:323-355 | A request for the names or the addresses of a view; 0 asks for a thousand |
| LogTopN.ReplyToLines | src/log_topn.c:145-355 | From log lines to reply, without a trim: an entry is found exactly if a line was for it, and its reply ranks the domains, or addresses, of exactly its lines |
| Fanout.LineStandsUnder | src/log_topn.c:145-148 | A line is counted under view$zone and under *$zone |
| Fanout.KeyIsUnique | src/log_topn.c:145-146 | Different views and zones give different keys |
| Fanout.LineAtHead | src/log_topn.c:147-148 | After any run the entry of the zone of the last line is at the head of the list; that of its view, unless a trim has taken it, is next |
| Fanout.RunCounts | src/log_topn.c:145-148 | After any run an entry counts exactly the lines of its view and zone, or of its zone |
| Fanout.RunLogs | src/log_topn.c:145-148 | After any run an entry has been given exactly the domains and addresses of its lines, in their order, and it is there exactly if it has a line |
| Fanout.RunKeys | src/log_topn.c:145-148 | Every entry belongs to a line of the run |
| Fanout.ZoneHoldsSum | src/log_topn.c:145-148 | For each zone every count of the common entry is the sum over the views |
| Fanout.CodesAddUp | src/log_topn.c:110-113 | In each entry the codes, and the types, add up to the number of queries |
| Fanout.HandlerRun | src/log_topn.c:81-148 | A run of the handler that never trims is the run without a limit |
| Fanout.HandlerConserves | src/log_topn.c:81-148 | So both sums hold in the state the handler reaches |
| Fanout.FewLinesAreRoomy | src/log_topn.c:104-108 | A run needs no trim if there is room for 642160 bytes a line |
| Fanout.HandlerKeeps | src/log_topn.c:81-148 | After any run of lines the bound holds and the last line is at the head |
| RadixTree.RadixTree.Insert | src/dig_radix_tree.c:138-196 | A missing prefix gets the value and only it, with free nodes as long as there are any and no node moved or lost; a stored one is reported and nothing changes |
| RadixTree.RadixTree.Delete | src/dig_radix_tree.c:208-264 | Exactly the prefix goes, and every node that has become bare goes to the front of the free list, so that none is lost; FAILED without change if it is not stored |
| RadixTree.RadixTree.Find | src/dig_radix_tree.c:276-298 | The value of the longest stored prefix of the key, or none if no prefix is stored |
| RadixTree.RadixTree.Alloc | src/dig_radix_tree.c:300-316 | The head of the free list, cleared, or a new node |
| RadixTree.RadixTree.Prune | src/dig_radix_tree.c:240-260 | The loop takes bare nodes off up to the first that is needed |
| RadixTree.RadixTree.LiveMeans | src/dig_radix_tree.c:240-260 | The nodes are exactly the root and the prefixes of what is stored |
| PrefixShape.ShapeIsUnique | src/dig_radix_tree.c:171-196 | What is stored decides which nodes there are |
| RadixTree.InsertThenDelete | src/dig_radix_tree.c:138-264 | Inserting a new prefix and deleting it restores contents, count and shape |
| RadixTree.RadixTree.FreeIsApart | src/dig_radix_tree.c:247-248 | No node is free twice or both free and in the tree |
| RadixTree.RadixTree.NoneIsLost | src/dig_radix_tree.c:138-264 | In every reachable state each node ever allocated is in the tree at its prefix or free |
| RadixTree.RadixTree.Walk | src/dig_radix_tree.c:336-347 | Every stored value is visited exactly once, in the order of the prefixes: what is on the left below a prefix, the prefix, what is on the right |
| PrefixShape.VisitMeans | src/dig_radix_tree.c:336-388 | A walk in either order visits exactly the stored prefixes below its start, each once |
| PrefixShape.VisitInTurn | src/dig_radix_tree.c:336-388 | In either walk, of any two prefixes the one further left comes first; a prefix comes before those below it when printing, between its left and its right ones when walking |
| PrefixShape.PrecedesByAddress | src/dig_radix_tree.c:371-387 | In the printing order addresses go up, and of equal ones the shorter prefix comes first |
| RadixTree.RadixTree.Print | src/dig_radix_tree.c:354-393 | The printed addresses and masks are exactly the stored prefixes, in ascending order |
| PrefixCode.AddressHasPrefix | src/dig_radix_tree.c:357-366 | The printed address has its prefix, and clearing its last bits changes nothing |
| PrefixCode.CodeIsTop | src/dig_radix_tree.c:143-159 | The bits probed one by one are the leading bits of the key |
| PrefixCode.CodeLength | src/dig_radix_tree.c:143-159 | The prefix that a mask cuts off has the length of the mask |
| RadixTree.Rebuild | src/dig_radix_tree.c:354-393 | What is printed, inserted into an empty tree, rebuilds contents and shape |
| MemPool.AlignPadMeans | src/dig_mem_pool.c:15-16 | The padded size is the least multiple of the alignment that is large enough |
| MemPool.BlocksFitIff | src/dig_mem_pool.c:74 | The blocks of a chunk lie in what malloc was asked for if and only if count times size does not wrap |
| MemPool.MemPool.constructor | src/dig_mem_pool.c:50-69 | A new pool: blocks of the least multiple of 8 that holds the asked size and a pointer, as many as asked or twenty, all free, one right after the other behind the header |
| MemPool.MemPool.FillFreeList | src/dig_mem_pool.c:87-97 | All blocks of a new chunk are threaded to the free list, the last one first |
| MemPool.MemPool.GrowNewMem | src/dig_mem_pool.c:71-85 | The pool grows by the chunk, or stays as it is if malloc fails |
| MemPool.MemPool.Alloc | src/dig_mem_pool.c:111-131 | A free block that is not outstanding, the head of the free list; the pool triples when it has none and may grow, and then hands out the last block of the new chunk; NULL exactly if there is none then |
| MemPool.MemPool.Free | src/dig_mem_pool.c:134-144 | The block comes back to the head of the free list |
| MemPool.MemPool.Write | src/dig_mem_pool.c:111-144 | Whatever its owner writes anywhere in an outstanding block, no header and no link of a free block is touched and the pool stays in order |
| MemPool.MemPool.OutstandingApart | src/dig_mem_pool.c:50-144 | Outstanding blocks are aligned, inside a chunk, and overlap no other block, free or outstanding |
| MemPool.MemPool.Conserved | src/dig_mem_pool.c:50-144 | In every reachable state free and outstanding blocks add up to the element count, which is the first count times 3 to the number of growths |

## Left out

- NameTree.NameTree.Delete: keeps slots and weights, but the record goes back to a pool that hands it out again for the next new name (`src/log_name_tree.c:195`, `src/log_name_tree.c:123`) while the heap still points at it; the model makes a fresh record, so what later insertions do to the heap is claimed only of trees from which no name has been deleted, the field `intact`; likewise DropOldest
- NameTree.NameTree.ExactlyFind: assumes, as CloselyFind does, a name that is not empty and fits the buffer with the dot appended
- NameRuns.Report: as written its condition is met or not by the run, insertion by insertion, and is not necessary for one reply: a heap that has lost its order may be sorted well all the same; NameReport.ReportsRightIff says exactly when all replies of a state are right
- NameTree.NameTree.Insert: assumes counts below 2^31, where the difference of two counts cut to an int orders them (`src/log_name_tree.c:17-23`); counts do not wrap
- NameTree.NameTree.Insert: assumes names that are not empty and fit a buffer of 32 bytes with the dot appended, because the length is checked before the dot is (`src/log_name_tree.c:117`, `src/log_name_tree.c:135-137`)
- ViewStats.ViewStats.constructor: the record is returned, as its declaration says, though the statement is missing (`src/log_view_stats.c:55-87`), and the name is shorter than 64 characters, because one of exactly 64 passes the check and overruns the field by its terminator (`src/log_view_stats.c:57`, `src/log_view_stats.c:81`)
- ViewStats.FindCode: the table of types has the twelve entries that were meant, though a comma is missing in it (`src/log_view_stats.c:26-27`)
- ViewStats.ViewStats.IncrementRcode: the index is not the length of the table, which the guard lets pass (`src/log_view_stats.c:141`); the indices the handler computes never are
- ViewTree.ViewTree.constructor: the count starts as 0, though it is not set (`src/log_view_tree.c:13-22`)
- ViewStats.ViewStats.GetSize: sizes of records are those of a 64-bit machine
- LogTopN.HouseKeeper.LogHandle: keys of views fit the buffers they are copied to, less than 128 characters and not exactly 64
- LogTopN.HouseKeeper.HandleAll: assumes the same of every key
- LogTopN.HouseKeeper.HandleLines: assumes keys of less than 64 characters, no `$` in views and zones and no view named `*`, for which different lines could share an entry
- LogTopN.HouseKeeper.Reply: claims nothing for a view that has lost names or addresses to a trim; negative numbers of names are not modelled
- ViewTree.ViewTree.Log: assumes a key that has not exactly 64 characters, which would overrun the name of the view by its terminator
- ViewTree.ViewTree.Insert: assumes a name that is not in the tree, because the code would list and count it a second time; the handler looks it up first (`src/log_topn.c:87-90`)
- Fanout.ZoneHoldsSum: assumes no `$` in views and zones, no view named `*`, and counters that do not wrap
- RadixTree.RadixTree.Delete: with a mask of 0 on a root without children the code follows a NULL parent (`src/dig_radix_tree.c:242`); that call is excluded
- RadixTree.RadixTree.Insert: values are not NULL, and allocation succeeds
- MemPool.MemPool.constructor: assumes, as GrowNewMem does, that count times size stays below 2^32
- MemPool.MemPool.Alloc: count times size stays below 2^32, the exact condition of MemPool.BlocksFitIff, and malloc grants aligned memory that overlaps no other; no block is freed twice
- Parsing of addresses and prefixes (`src/dig_radix_tree.c:99-136`, `src/dig_radix_tree.c:199-206`, `src/dig_radix_tree.c:267-274`) and of log lines (`src/log_topn.c:117-144`): text handling; the model starts from parsed values
- Destruction of whole trees, lists and pools: memory is not given back in the model
- Allocation failure outside the pool, which the code answers by returning early
- Reply packing, queries per second, the success rate, sockets, threads, signals and files: no counters of this model depend on them; the handler runs under one lock and is one step
- lru_list_search (`src/zip_lru_list.c:94-103`): nothing calls it, and its loop does not advance
