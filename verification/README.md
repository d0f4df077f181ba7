# Trees: a Dafny model of a family of in-memory keyed containers

The "trees" library (klopp/TTree) is a set of C containers built from pointer trees:

- `avltree.c`: an AVL tree. Nodes keep a stored `height` field, a `Tree_Error` status and a `nodes` count.
- `btree.c`: a near-copy of the AVL tree. It has C `int` keys, no status field, and a few differences in when it rebalances.
- `htable.c`: a "hash table". It is one `btree.c` tree keyed by the CRC-32 of the key bytes, with replace forced on.
- `tarray.c`: an array indexed by `size_t`. It is stored sparsely in an AVL tree, with `length` and `errno`-style bookkeeping.
- `stree.c`: a splay tree.
- `ttree.c`, `tstree.c`, `tstree.h`: a ternary search tree over C strings. It has optional case folding, `keys`/`nodes` counters, delete-key and delete-node, sorted extraction, and prefix lookup into a bounded array.

How the model is built:

- Each container object is a Dafny `class`. Its counters, status and head pointer are fields, and its methods update them in place.
- The node graphs each object exclusively owns are datatype values. Rotations, rebalancing, insertion and deletion are functions that build the rewritten tree.
- Each destructor call is appended to a ghost `destroyed` log. That makes "released exactly once" a statement about the new state.
- An allocation's outcome is a parameter: a boolean, or an `Alloc` schedule where one call allocates repeatedly.
- `size_t` is 64 bits and wraps. `char` is signed 8-bit. `int` is 32-bit two's complement.
- The CRC-32 function is a parameter of the hash table.

Modules:

- `Common`: shared definitions.
- `AvlNode`: the node code shared by `avltree.c` and `btree.c`. A `deep` flag selects the recursive `_AVL_balance` or the one-node `_AVN_balance`/`_BN_balance` where the two files differ.
- `AvlTree`, `BTree`, `HTable`, `TArray`: the container objects.
- `SplayNode` and `SplayTree`: the splay tree's nodes and its object.
- `TernaryNode`, `TernaryWalk`, `TernaryTree`, `StringTree`: the ternary tree's nodes, its walks, its object, and the string-tree lookups.

The stored `height` of an AVL node is kept apart from its true height. Delete re-heights only the subtree it rebuilds. The ancestors above the deleted slot keep their old heights, so the model can show that (see Findings).

`htable.c` has one tree and no chains: two keys with equal hashes share one node, and the later `HT_set` replaces the earlier data. `HTable.HTable.Set` states exactly that.

`tarray.c` never assigns `length` except to 0. So `TA_get` answers `ERANGE` for every index, and `TArray.TArray.Get` states this behaviour faithfully.

## Model

| member | source | states |
|---|---|---|
| Common.SizeInc | ttree.c:208 | `size_t` increment wraps modulo 2^64 |
| Common.SizeDec | ttree.c:121 | `size_t` decrement is the inverse of increment and is exact above 0 |
| Common.ToLower | ttree.c:172 | `tolower` never answers an upper-case letter, turns each upper-case letter into the lower-case one at the same place in the alphabet, and leaves every other character (NUL included) unchanged, so folding twice is folding once |
| AvlNode.SetHeight | avltree.c:17-22 | `_AVN_seth` keeps the in-order walk; when both children's stored heights are correct, so is the node's, and it equals the true height |
| AvlNode.CorrectHeightIsTrue | avltree.c:10-22 | when every height was set by the `1 + max(hl, hr)` rule with NULL at 0, the stored height is the true height |
| AvlNode.RotateRight | avltree.c:24-32 | `_AVN_rotr` keeps the in-order walk, moves the left child up with the exact pointer rewiring, and sets both moved nodes' heights to 1 + max of their children |
| AvlNode.RotateLeft | avltree.c:34-42 | `_AVN_rotl`, the mirror image: same walk, same rewiring, both moved heights reset |
| AvlNode.BalanceNode | avltree.c:44-65 | `_AVN_balance` never changes the in-order sequence of entries |
| AvlNode.RightHeavyBalanced | avltree.c:47-53 | with AVL children and the right side 2 higher, the single or double left rotation gives an AVL tree whose height is the right child's or one more |
| AvlNode.LeftHeavyBalanced | avltree.c:56-62 | the mirror case at -2 gives an AVL tree of the left child's height or one more |
| AvlNode.BalanceNodeAvl | avltree.c:44-65 | with AVL children whose heights differ by at most 2, the result is AVL; its height is max + 1, or max when a rotation happened; within ±1 only the height is reset |
| AvlNode.BalanceAll | avltree.c:67-79 | `_AVL_balance` (both subtrees bottom-up, then the node) keeps the in-order walk |
| AvlNode.Rebalance | avltree.c:44-79 | the rebalancing after an insertion or a delete, `_AVL_balance` in avltree.c and `_BN_balance` in btree.c, never yields an empty tree and keeps the in-order walk |
| AvlNode.BalanceAllKeepsAvl | avltree.c:67-79 | on an AVL tree whose heights are correct, `_AVL_balance` changes nothing |
| AvlNode.RebalanceOverAvl | btree.c:44-79 | over AVL subtrees, the recursive `_BT_balance` and the one-node `_BN_balance` give the same node |
| AvlNode.SearchFinds | avltree.c:183-194 | on a search tree, `_AVL_search` finds a node iff the key is stored, and the node carries the key and its data |
| AvlNode.Search | avltree.c:183-194 | a node `_AVL_search` answers carries the key searched for; `SearchFinds` gives the converse on a search tree |
| AvlNode.Min | avltree.c:102-109 | `_AVL_min` is the first entry of the in-order walk |
| AvlNode.DelMin | avltree.c:111-119 | `_AVL_del_min` (recursive rebalance) and `_BN_del_min` (btree.c:118-126, one-node rebalance) remove exactly the first in-order entry |
| AvlNode.DelMinAvl | avltree.c:111-119 | on an AVL tree, both `del_min` variants give an AVL tree whose height drops by at most one |
| AvlNode.DeleteNode | avltree.c:121-147 | `_AVL_delete` on a found node leaves exactly the left then the right walk: the minimum of the right subtree takes the node's place, or the left child is promoted |
| AvlNode.DeleteNodeContents | btree.c:128-153 | `_BN_delete` keeps a search tree, removes exactly the node's key, and leaves one node fewer |
| AvlNode.DeleteNodeAvl | btree.c:128-153 | at the deleted node the rebuilt subtree is AVL, and its height drops by at most one |
| AvlNode.DetachContents | avltree.c:214-224 | writing the rebuilt subtree into the slot search returned keeps a search tree and removes exactly the key (one node fewer); an absent key changes nothing |
| AvlNode.Detach | avltree.c:214-224 | the slot rewrite `*node = _AVL_delete(...)`: when the key is not at the root, the root keeps its key, data and stored height (the height is not recomputed) |
| AvlNode.DetachLeavesStaleHeight | avltree.c:219-224 | as written: deleting the only child of an AVL root leaves the root's stored height at 2, so the tree is no longer AVL-valid |
| AvlNode.DeleteBalanced | avltree.c:121-147 | corrected delete (ancestors rebalanced on the way back up) has the same in-order walk as the as-written slot rewrite |
| AvlNode.DeleteBalancedAvl | avltree.c:214-236 | corrected delete keeps a search tree, removes exactly the key, keeps AVL balance, and lowers the height by at most one |
| AvlNode.InsertContents | avltree.c:238-295 | `_AVL_insert`/`_BT_insert` is refused exactly on a duplicate without replace (`TE_FOUND`) or a failed allocation (`TE_MEMORY`); otherwise the tree stays a search tree mapping the key to the new data, all other keys unchanged, one node more for a new key, and only a replaced key's old data released |
| AvlNode.Insert | avltree.c:238-295 | an accepted insertion never leaves the slot empty; `InsertContents` and `InsertAvl` state the rest of what it promises |
| AvlNode.InsertAvl | avltree.c:238-295 | inserting into an AVL tree gives an AVL tree whose height grows by at most one |
| AvlNode.InsertVariantsAgree | btree.c:230-284 | on an AVL tree, the btree.c insert (one-node rebalance) and the avltree.c insert (recursive rebalance) build the same tree |
| AvlNode.Depth | avltree.c:385-396 | `_AVL_depth` from `depth` is `depth` plus the true height: 0 extra for NULL, else 1 + the deeper subtree |
| AvlNode.AvlDepthIsHeight | avltree.c:398-405 | on an AVL tree the depth is the root's stored height |
| AvlNode.InOrder | avltree.c:317-324 | `_AVL_walk_asc` (left subtree, node, right subtree) visits nothing exactly for an empty tree |
| AvlNode.BstIffAscending | avltree.c:317-324 | a tree is a search tree iff its ascending walk has strictly increasing keys |
| AvlNode.ContentsIsWalk | avltree.c:317-324 | the key-to-data map the tree stores is the map of its ascending walk |
| AvlNode.WalkDescIsReverse | avltree.c:326-333 | the descending walk is the ascending walk reversed |
| AvlNode.ClearReleasesEachOnce | avltree.c:149-163 | `_AVL_clear` passes each stored non-NULL data to the destructor exactly once, or makes no call without a destructor |
| AvlNode.ClearLog | avltree.c:149-163 | `_AVL_clear` calls the destructor at most once per node, and never without a destructor |
| AvlTree.Create | avltree.c:81-100 | `AVL_create` is NULL iff the allocation fails; else an empty tree with the flags, status `TE_NO_ERROR`, and a destructor when one is given or `T_FREE_DEFAULT` is set |
| AvlTree.AVLTree.Search | avltree.c:196-212 | `AVL_search` returns the node iff the key is stored, with its data; status `TE_NO_ERROR` or `TE_NOT_FOUND`; an empty tree leaves the status alone |
| AvlTree.AVLTree.Insert | avltree.c:297-315 | `AVL_insert` returns NULL exactly on a duplicate without replace or a failed allocation, then leaving head, count and log unchanged with `TE_FOUND`/`TE_MEMORY`; otherwise returns the new head, maps the key to the data, keeps `nodes` for a duplicate and adds one for a new key, releases only the replaced data once, and keeps AVL balance |
| AvlTree.AVLTree.Delete | avltree.c:214-236 | `AVL_delete` returns 1 iff the key was stored, removes exactly it, decrements `nodes`, and releases its data once; otherwise returns 0, sets `TE_NOT_FOUND` on a non-empty tree, and leaves the contents, the counter, the log and the root (shape and stored heights) unchanged |
| AvlTree.AVLTree.Clear | avltree.c:165-173 | `AVL_clear` empties the tree, zeroes `nodes`, sets `TE_NO_ERROR`, and logs the post-order release of every node |
| AvlTree.AVLTree.Walk | avltree.c:335-342 | `AVL_walk` visits one entry per node in strictly increasing key order, exactly the stored map |
| AvlTree.AVLTree.WalkDesc | avltree.c:344-351 | `AVL_walk_desc` visits the ascending visits backwards |
| AvlTree.AVLTree.Depth | avltree.c:398-405 | `AVL_depth` is 0 iff empty, else 1 + the deeper subtree, and the root's height on an AVL tree |
| BTree.Create | btree.c:89-107 | `BT_create` is NULL iff the allocation fails; else an empty tree with the flags and destructor |
| BTree.BTree.Search | btree.c:198-211 | `BT_search` converts the key to `int` and returns the node iff that key is stored, with its data |
| BTree.BTree.Insert | btree.c:286-302 | `BT_insert` returns NULL and changes nothing exactly on a duplicate without replace or a failed allocation; otherwise it sets `head` to the returned root, maps the key to the data, adds one node for a new key only, releases only the replaced data, and keeps AVL balance |
| BTree.BTree.Delete | btree.c:213-228 | `BT_delete` returns 1 for any non-empty tree and 0 for an empty one; a stored key is removed, counted down and released once; an absent key leaves the contents, the counter, the log and the root unchanged |
| BTree.BTree.Clear | btree.c:170-177 | `BT_clear` empties the tree and logs each stored data once, in post-order |
| BTree.BTree.Walk | btree.c:322-329 | `BT_walk` visits one entry per node in strictly increasing key order, exactly the stored map |
| BTree.BTree.WalkDesc | btree.c:331-338 | `BT_walk_desc` visits the ascending visits backwards |
| BTree.BTree.Depth | btree.c:384-391 | `BT_depth` is 0 iff empty, else 1 + the deeper subtree, and the root's height on an AVL tree |
| HTable.Create | htable.c:9-28 | `HT_create` is NULL iff the table or its tree cannot be allocated; the tree's flags always include `T_INSERT_REPLACE` |
| HTable.HTable.Set | htable.c:45-54 | `HT_set` answers `crc32(key)` when the insert succeeds and 0 when it fails; on success every key with the same hash now reads the new data, and the data the slot held goes to the destructor |
| HTable.HTable.GetK | htable.c:61-68 | `HT_get_k` returns the data stored under the hash, or NULL when there is no node |
| HTable.HTable.Get | htable.c:56-59 | `HT_get(key)` is `HT_get_k(crc32(key))`, so every key with the same hash reads the same data |
| HTable.HTable.DeleteK | htable.c:75-82 | `HT_delete_k` answers `BT_delete`'s 1 for a non-empty tree and 0 for an empty one, and removes and releases the hash's slot |
| HTable.HTable.Delete | htable.c:70-73 | `HT_delete(key)` is `HT_delete_k(crc32(key))` |
| HTable.HTable.Clear | htable.c:30-35 | `HT_clear` empties the tree and releases each stored data once |
| HTable.HTable.SetC | htable.c:84-87 | `HT_set_c` is `HT_set` on the bytes before the terminating NUL |
| HTable.HTable.GetC | htable.c:89-92 | `HT_get_c` reads the slot of the bytes before the NUL |
| HTable.HTable.DeleteC | htable.c:94-97 | `HT_delete_c` deletes the slot of the bytes before the NUL: nothing is stored under that hash afterwards, every other slot is kept, and the removed data goes to the destructor once |
| HTable.StrLen | htable.c:86 | `strlen` is the index of the first NUL |
| HTable.HTable.SetInt | htable.c:99-102 | `HT_set_<type>` is `HT_set` on the value's `sizeof(type)` little-endian bytes: the slot gets the data unless allocation fails, and the data it replaces goes to the destructor once |
| HTable.HTable.GetInt | htable.c:103-105 | `HT_get_<type>` reads the slot of those bytes |
| HTable.HTable.DeleteInt | htable.c:106-108 | `HT_delete_<type>` deletes the slot of those bytes: nothing is stored under that hash afterwards, every other slot is kept, and the removed data goes to the destructor once |
| HTable.IntBytesValue | htable.c:99-108 | the key bytes of an integer read back as the integer modulo 256^width |
| HTable.IntBytes | htable.c:99-119 | `HT_<op>_<type>` passes `&key, sizeof(key)`: exactly `width` bytes, which `IntBytesValue` reads back as the value |
| HTable.IntKeysDistinct | htable.c:110-119 | within one integer type, distinct values give distinct key bytes |
| HTable.SignedModInjective | htable.c:110-119 | two signed values in range with the same remainder modulo 256^width are equal |
| HTable.CharAndUCharShareSlot | htable.c:110-111 | `char` -1 and `unsigned char` 255 are keyed by the same byte, so they share one slot |
| TArray.Create | tarray.c:10-23 | `TA_create` is NULL iff the array or its tree cannot be allocated; otherwise `length` and `error` are 0 over an empty tree with `T_INSERT_REPLACE` added |
| TArray.TArray.Clear | tarray.c:25-30 | `TA_clear` resets `error` and `length` to 0 and empties the tree, releasing each data once |
| TArray.TArray.Set | tarray.c:38-41 | `TA_set` stores the data under the index, replacing and releasing any old data, and answers the tree's new root with `TE_NO_ERROR`; NULL with `TE_MEMORY` only when a new node cannot be allocated; `nodes` grows for a new index only; the tree stays AVL; `length` is unchanged |
| TArray.TArray.Get | tarray.c:43-58 | `TA_get` below `length` returns the stored data, or NULL with `error = ENOENT`, and leaves the tree's status as `AVL_search` sets it; at or beyond `length`, NULL with `error = ERANGE` and the tree untouched |
| SplayNode.RotateRight | stree.c:74-80 | `_rotr` keeps the in-order walk and rewires the left child up |
| SplayNode.RotateLeft | stree.c:82-88 | `_rotl` keeps the in-order walk and rewires the right child up |
| SplayNode.Splay | stree.c:134-201 | `_ST_search`'s zig-zig/zig-zag rotations keep the in-order walk and leave an empty tree empty |
| SplayNode.SplayBringsKeyToRoot | stree.c:134-201 | splaying keeps a search tree and its contents, and the key is at the root iff it is stored |
| SplayNode.Insert | stree.c:90-124 | `_ST_insert` places the key with the data and leaves the root where it was (no splaying) |
| SplayNode.InsertContents | stree.c:90-124 | refused exactly on a duplicate under `ST_INSERT_IGNORE` or a failed allocation; otherwise a search tree mapping the key to the data, all other keys unchanged, one node more for a new key only, and only replaced data released |
| SplayNode.DeleteAsWritten | stree.c:213-224 | `_SN_delete` on the splayed root leaves `head` NULL and releases only the root's data, which is the key's data when the key is stored |
| SplayNode.DeleteAsWrittenLosesKeys | stree.c:226-238 | as written: deleting a stored or absent key from a two-node tree loses the other key |
| SplayNode.DeleteJoinedContents | stree.c:213-238 | corrected delete (splay, then join the root's subtrees) removes exactly the key, keeps a search tree, counts one node fewer, and releases only the key's data |
| SplayNode.Join | stree.c:213-238 | joining the two subtrees of the deleted root: with no left subtree it is the right one; otherwise a node (the left subtree splayed at its largest key) whose right child is the right subtree |
| SplayNode.DeleteJoined | stree.c:213-238 | the corrected delete releases at most the deleted key's data, nothing without a destructor, and leaves an empty tree empty |
| SplayNode.BstIffAscending | stree.c:316-324 | a splay tree is a search tree iff `_ST_walk` meets strictly increasing keys |
| SplayNode.Depth | stree.c:331-338 | `_ST_depth` from `depth` is `depth` plus the number of levels |
| SplayTree.Create | stree.c:15-22 | `ST_create` is NULL iff the allocation fails; otherwise an empty tree with the flags and destructor |
| SplayTree.STree.Insert | stree.c:126-132 | `ST_insert` returns NULL and changes nothing exactly on an ignored duplicate or a failed allocation; otherwise returns the node with the key and data, keeps `nodes` for a duplicate (replacing and releasing the old data once) and adds one for a new key, and keeps the old root |
| SplayTree.STree.Search | stree.c:203-211 | `ST_search` keeps contents and walk, returns the new root (NULL only for an empty tree), which carries the key iff it is stored |
| SplayTree.STree.Delete | stree.c:226-238 | `ST_delete` returns 1 and leaves `head` NULL with `nodes` one lower on a non-empty tree, releasing the splayed root's data (the key's, when stored); 0 on an empty tree |
| SplayTree.STree.Clear | stree.c:24-41 | `ST_clear` leaves `head` NULL, counts `nodes` down once per node, and logs the post-order release |
| SplayTree.STree.Walk | stree.c:326-329 | `ST_walk` visits stored keys in strictly increasing order, exactly the stored map |
| SplayTree.STree.Depth | stree.c:340-343 | `ST_depth` is 0 iff the tree is empty, else the number of levels |
| TernaryNode.Fold | ttree.c:137 | a character is compared after `tolower` under `T_NOCASE` and as is otherwise; NUL stays NUL and positive stays positive |
| TernaryNode.FoldAll | ttree.c:137 | a string folds character by character |
| TernaryNode.Found | ttree.c:132-155 | `_TT_search` answers NULL or a node holding a key |
| TernaryNode.ReachFolded | ttree.c:132-155 | two strings that fold to the same characters reach the same node |
| TernaryNode.ReachLastChar | ttree.c:132-155 | a live node the `_TT_search` loop does not stop at carries the last character of the string (folded) |
| TernaryNode.CaseInsensitive | ttree.c:132-155 | under `T_NOCASE`, strings equal after `tolower` find the same node; without it, only equal strings |
| TernaryNode.FoundKeyMatches | ttree.c:132-155 | when stored keys agree with their paths, the node search finds holds a key that folds to the searched string |
| TernaryNode.Prepared | ttree.c:174-190 | the node `_TT_insert` works on: a live node unchanged; for NULL or a blank node, a bare node for the character at the depth with no key, data or children; never blank for a non-NUL character; keeps order, the key count and the key/data invariant of an ordered slot |
| TernaryNode.InsBounds | ttree.c:169-228 | one `_TT_insert` allocates at most one node per remaining character, adds at most one key, passes at most one data to the destructor (none without `T_INSERT_REPLACE`), and with every allocation granted never answers NULL |
| TernaryNode.InsFinds | ttree.c:169-228 | with all allocations granted, the inserted string reaches a keyed node; `keys` grows exactly when it was not keyed, and the key is then the inserted string; data and destructor calls follow `T_INSERT_REPLACE` |
| TernaryNode.InsKeepsOthers | ttree.c:169-228 | inserting one string leaves the key and data every differently folded string reaches unchanged |
| TernaryNode.InsKeepsFound | ttree.c:169-228 | a string that was found stays found after another insertion |
| TernaryNode.InsCounts | ttree.c:169-228 | the node and key counts of the tree grow by exactly what `_TT_insert` adds to `nodes` and `keys` |
| TernaryNode.OrderedIns | ttree.c:169-228 | insertion keeps the left-smaller/right-larger order of splitters at every level |
| TernaryNode.InsKeysMatch | ttree.c:169-228 | insertion keeps every key agreeing, after folding, with the path of splitters leading to it |
| TernaryNode.InsWellKeyed | ttree.c:169-228 | insertion keeps every stored key a non-empty C string and every node without a key free of data |
| TernaryNode.DestroyLog | ttree.c:58-84 | `_TT_destroy` calls the destructor at most once per destroyed node, and never without a destructor |
| TernaryNode.Replace | ttree.c:58-84 | rewriting the node a search reaches changes the node and key counts by exactly the difference between the old and the new subtree |
| TernaryNode.OrderedReplace | ttree.c:58-84 | replacing the reached node by one of no wider level keeps the splitter order |
| TernaryNode.ReplaceKeepsOthers | ttree.c:110-127 | clearing one key leaves every differently folded string's key and data unchanged |
| TernaryNode.ReplaceForgets | ttree.c:99-127 | after delete-key or delete-node, the deleted string is no longer found |
| TernaryNode.ZeroedStops | ttree.c:79-83 | the node `memset` zeroes in place is where a later search for the deleted string stops |
| TernaryNode.DelNodeDropsSiblings | ttree.c:58-70 | as written: `_TT_destroy` also destroys the node's `left` and `right` subtrees, so `TT_del_node("a")` loses a key "b" stored beside it |
| TernaryNode.Pruned | ttree.c:99-109 | corrected: the node `TT_del_node` deletes loses its key, its data and its `mid` continuations, and keeps its splitter, its `left` and `right` siblings and its level |
| TernaryNode.PrunedKeepsSiblings | ttree.c:99-109 | corrected: pruning the found node leaves what every string that is neither the deleted one nor a continuation of it finds unchanged |
| TernaryNode.PrunedForgets | ttree.c:99-109 | corrected: after pruning, the deleted string is no longer found |
| TernaryNode.PrunedKeepsB | ttree.c:99-109 | corrected: on the tree where the code loses "b", pruning the node of "a" keeps "b" found |
| TernaryNode.DelNodeMiscountsKeys | ttree.c:77-78 | as written: `_TT_destroy` counts `keys` down once per node, so deleting a 3-node subtree with 2 keys wraps `keys` to 2^64 - 1 |
| TernaryNode.DestroyCountsKeys | ttree.c:58-84 | corrected: counting `keys` down by the keys of the destroyed subtree leaves `keys` equal to the keys still stored |
| TernaryNode.SignedEndLosesKey | ttree.c:196 | as written: the `> 0` end test treats a non-ASCII (negative) `char` as the end, so inserting "a\xC3" stores it at "a" and the string is not found |
| TernaryNode.InsFindsCString | ttree.c:169-228 | corrected (`!= 0` end test): every non-empty C string is found after insertion, and `keys` grows exactly when it was not found |
| TernaryNode.LookupReach | ttree.c:478-501 | `__TT_lookup`'s stopping node's `mid` subtree is ordered, with keys extending the folded prefix |
| TernaryNode.MatchReach | ttree.c:478-501 | where the prefix walk of `__TT_lookup` ends on a live node, that node's `mid` subtree holds only keys extending the whole folded prefix |
| TernaryWalk.PostOrder | ttree.c:248-256 | `_TT_walk` visits every node exactly once |
| TernaryWalk.Asc | ttree.c:257-266 | `_TT_walk_asc` (left, node, mid, right) visits as many nodes as the tree has, each of them a node |
| TernaryWalk.Desc | ttree.c:267-276 | `_TT_walk_desc` (right, mid, node, left) visits as many nodes as the tree has |
| TernaryWalk.WalksVisitSameNodes | ttree.c:248-266 | `_TT_walk` and `_TT_walk_asc` visit the same nodes |
| TernaryWalk.DescIsReverse | ttree.c:267-276 | `_TT_walk_desc` visits the ascending visits backwards |
| TernaryWalk.KeyedAscCount | ttree.c:257-266 | the ascending walk meets exactly as many keyed nodes as the tree holds keys |
| TernaryWalk.AscShape | ttree.c:257-266 | every key the ascending walk meets in a subtree extends, after folding, the path to that subtree by a splitter of its level |
| TernaryWalk.AscSorted | ttree.c:257-266 | when keys agree with their paths, the ascending walk meets keys in strictly increasing lexicographic order of folded characters |
| TernaryWalk.Collect | ttree.c:319-334 | `_TT_data`/`_TS_data` copy the first min(max, keyed) keyed nodes a walk meets into the array, in order, and touch nothing else |
| TernaryTree.SearchFrom | ttree.c:132-155 | the `_TT_search` loop answers the node `Found` describes |
| TernaryTree.LookupFrom | ttree.c:478-501 | the `__TT_lookup` loop stops where the prefix walk stops |
| TernaryTree.Create | ttree.c:29-53 | `TT_create` is NULL iff the tree or its head node cannot be allocated; else an empty tree with 0 keys and nodes and its destructor |
| TernaryTree.TTree.Search | ttree.c:157-164 | `TT_search` is NULL for an empty string; else it returns the keyed node the search reaches, whose key folds to the string |
| TernaryTree.TTree.Insert | ttree.c:229-243 | `TT_insert` on an empty string changes nothing and returns NULL; otherwise it applies `_TT_insert`, adds what it created to `nodes`/`keys`, returns the head under `T_INSERT_FAST` and else the node search finds; with every allocation granted, that node is keyed with the string, `keys` grows only for a new string, and data is replaced and released only under `T_INSERT_REPLACE` |
| TernaryTree.TTree.InsertKey | ttree.c:235 | the statement `tree->head->mid = _TT_insert(...)`: the root becomes what `_TT_insert` answers, `nodes` and `keys` grow by what it added (modulo 2^64), the replaced data is released, and order, well-formed keys and keys agreeing with their paths are kept |
| TernaryTree.InsertFinds | ttree.c:229-243 | after insertion with every allocation granted, search finds the string; the new key count, data and released data are as `TT_insert` promises |
| TernaryTree.TTree.DelKey | ttree.c:110-127 | `TT_del_key` returns 1 iff the key is found, then releases its data, clears the key, decrements `keys` and keeps every node; search then returns NULL and other strings are unchanged; an absent key returns 0 and changes nothing |
| TernaryTree.DelKeyKeeps | ttree.c:110-127 | clearing a found key keeps order and well-formed keys, removes exactly one key and no node, and leaves every other string's entry unchanged |
| TernaryTree.TTree.DelNode | ttree.c:99-109 | `TT_del_node` returns 1 iff found, then zeroes the node in place, releases every data in its subtree, and subtracts the subtree's node count from both `keys` and `nodes`; the string is no longer found |
| TernaryTree.TTree.Clear | ttree.c:94-98 | `TT_clear` destroys the whole tree below the head, releasing each data once, and counts `keys` and `nodes` down once per node |
| TernaryTree.TTree.Destroy | ttree.c:85-93 | `TT_destroy` releases every data from the head down and zeroes the counters |
| TernaryTree.TTree.Walk | ttree.c:277-282 | `TT_walk` visits each node once, the head node last |
| TernaryTree.TTree.WalkAsc | ttree.c:283-288 | `TT_walk_asc` visits the head first, then meets exactly `KeyCount` keys, in strictly increasing folded order |
| TernaryTree.TTree.WalkDesc | ttree.c:289-294 | `TT_walk_desc` is the ascending walk reversed |
| TernaryTree.TTree.Depth | ttree.c:299-314 | `TT_depth` is the largest `depth` field among the visited nodes (0 for none larger) |
| TernaryTree.TTree.Data | ttree.c:335-366 | `TT_data` allocates `keys + 1` entries, or NULL with count 0; otherwise it fills the keyed nodes' key/data in ascending order, `*count` is their number, the rest stay zero, and the keys are strictly increasing |
| TernaryTree.KeyedSorted | ttree.c:319-366 | a sorted walk gives pairwise strictly increasing keys at every two positions |
| TernaryTree.TTree.KeyData | ttree.c:383-414 | `TS_data` does the same with the keys alone |
| TernaryTree.TTree.Lookup | ttree.c:502-545 | `_TT_lookup` is NULL with count 0 for an empty prefix, a missing prefix node or one with no `mid`, or a failed allocation; otherwise `max` 0 means `keys`, and it holds the first min(limit, keys below) entries of the ascending walk under the prefix node, each a key strictly extending the folded prefix, in increasing order |
| TernaryTree.LookupKeys | ttree.c:502-545 | the keys below the prefix node are non-empty C strings that strictly extend the prefix and come in increasing order |
| TernaryTree.TTree.LookupTree | ttree.c:546-566 | `TT_lookup_tree` is NULL iff the new tree cannot be created; otherwise the entries it copies are exactly the first min(`keys`, keys under the prefix) keyed nodes of the ascending walk below the node `__TT_lookup` stops at (none for an empty prefix, no such node, or a failed allocation), the new tree is the one `_TT_insert` builds from them in order, and with every allocation granted each entry's key is found in it |
| TernaryTree.TTree.LookupInto | ttree.c:555-563 | the `_TT_lookup` call and the insert loop: the entries are those same keyed nodes, and the new tree's root, counters and destructor log are what inserting them in turn leaves |
| TernaryTree.InsertEntries | ttree.c:556-561 | the copy loop leaves the new tree as inserting the entries in order makes it |
| TernaryTree.FillFinds | ttree.c:556-561 | every inserted entry is found in the filled tree |
| TernaryTree.Fill | ttree.c:556-561 | the loop over no entries leaves an empty tree with both counters 0 and nothing released |
| TernaryTree.FillShape | ttree.c:556-561 | the loop passes at most one data per entry to the destructor, and with every allocation granted leaves a tree whenever it inserted anything |
| StringTree.TSCreate | tstree.h:32 | `TS_create` is `TT_create` with a NULL destructor: an empty tree holding no data, released by `T_Free` only under `T_FREE_DEFAULT` |
| StringTree.TSInsert | tstree.h:33 | `TS_insert` is `TT_insert` with NULL data: every promise of `TT_insert` (root, `nodes` and `keys` counters, node answered, key found with its folded text, order of keys kept) with the data NULL; no node ever holds data and nothing is released |
| StringTree.InsNoData | tstree.h:33 | inserting NULL data keeps a data-free tree data-free and releases nothing |
| StringTree.KeyLookup | tstree.c:16-60 | `_TS_lookup` answers NULL with count 0 for an empty prefix, a missing prefix node or one with no `mid`; `max` 0 means `keys`; otherwise it holds the first min(limit, keys below) keys of the ascending walk under the prefix, each strictly extending it, in increasing order |
| StringTree.TTLookup | tstree.c:62-65 | `TT_lookup` is `_TT_lookup` with `max` 0: NULL with count 0 when nothing is found; otherwise the first min(`keys`, keys below) entries under the prefix, each strictly extending it, in increasing order, then `{NULL, NULL}` to the end |
| StringTree.TTNLookup | tstree.c:67-71 | `TT_nlookup` passes the caller's `max`; the same promises as `TT_lookup` with that bound |
| StringTree.TSLookup | tstree.c:73-76 | `TS_lookup` is `_TS_lookup` with `max` 0: NULL with count 0 when nothing is found; otherwise the first min(`keys`, keys below) keys under the prefix, each strictly extending it, in increasing order, then NULL to the end |
| StringTree.TSNLookup | tstree.c:78-82 | `TS_nlookup` passes the caller's `max`; the same promises as `TS_lookup` with that bound |

## Left out

- Locks (`__initlock`, `__lock`, `__unlock`): a single-threaded instance is modelled.
- The dump and print functions, and `T_Indent` in tree.c: they only write text to a `FILE *`.
- `crc32`: it is not part of this model. It is a function parameter of the table.
- Memory management: `Calloc`, `Malloc`, `Strdup`, `Free` and `T_Free` are modelled only as allocation success or failure plus the destructor log. Pointer aliasing and in-place node updates are modelled as building new tree values, which is exact because every node has one owner.
- `_TT_destroy(..., 0)` zeroes the node in place and leaks its children. That is modelled as the subtree becoming a zeroed node, not as raw memory.
- The `AVL_destroy`, `BT_destroy`, `ST_destroy`, `HT_destroy` and `TA_destroy` functions: each is its clear followed by freeing the object.
- Walk callbacks: each walk is modelled as the sequence of nodes it visits.
- The `depth` arguments of `_AVL_insert` and `_BT_insert`: they are unused.
- The `NULL`-tree guards (`if( !tree )`): a tree object is never NULL in the model.
- Test drivers (`main.c`, `ttest.c`, `main.cpp`): left out.
- TernaryTree.TTree.Data: requires the tree's true key count to fit in the `keys + 1` entries allocated. With a drifted `keys` counter (see Findings) the C code writes past the array.
- TernaryTree.TTree.KeyData: the same precondition as `Data`.
- TernaryTree.TTree.Lookup: requires `max + 1` (or `keys + 1`) not to wrap. At 2^64 - 1 the C allocation size overflows.
- StringTree.KeyLookup: the same precondition as `Lookup`. `TTLookup`, `TTNLookup`, `TSLookup` and `TSNLookup` carry it too, and promise everything their callee does.
- TernaryTree.TTree.LookupTree: requires `keys + 1` not to wrap, for the same reason. An allocation failure inside `_TT_lookup` yields an empty tree, as in the code. The copied entries are the first `keys` keyed nodes under the prefix, so every key under the prefix is copied only when the `keys` counter is at least their number; the counter's drift after `TT_del_node` (see Findings) can make it smaller.
- TernaryTree.TTree.Clear: requires a non-empty tree, because `TT_clear` dereferences `head->mid` without checking it.
- TernaryTree.TTree.Insert: the case-folding and "found afterwards" promises are proved for positive (plain ASCII) strings only, because the as-written end test loses other strings (see Findings).
- TernaryTree.TTree.Depth: states the maximum over the visited nodes' stored `depth` fields. It does not relate them to the tree's shape, because reused blank nodes keep a fresh depth.
- The width of `TREE_KEY_TYPE`: AVL tree and array keys are unbounded integers, so a `size_t` index that `TA_set` or `TA_get` would truncate on its way into the key is not modelled. The binary tree's `int` key is modelled with its 32-bit wrap.
- The shared data of `TT_lookup_tree`: the new tree's destructor is `T_Free` under `T_FREE_DEFAULT` although it holds the same data pointers as the source tree. The model records both trees' destructor calls separately and does not capture the data being released twice.
- The `nodes` counter of `TernaryTree.TTree`: it follows the code (wrapping at 2^64). No invariant ties it to the number of nodes, because `_TT_destroy` counts it down once per node, including the head node `TT_destroy` frees.

## Findings

| source | as written | input that shows it | evidently intended | confidence | as-written member | corrected member |
|---|---|---|---|---|---|---|
| avltree.c:219-224 | delete rebalances only the subtree rebuilt at the found slot; the ancestors keep their stored heights | an AVL root 2 (height 2) with a left child 1; delete 1 | every ancestor re-heighted and rebalanced, so the tree stays AVL | high (not executed) | AvlNode.DetachLeavesStaleHeight | AvlNode.DeleteBalancedAvl |
| stree.c:226-238 | `ST_delete` writes NULL into `head`, dropping the whole tree, and counts only one node down | root 1 with right child 2; delete 2 (or absent 3) | remove only the key and join the root's subtrees | high (not executed) | SplayNode.DeleteAsWrittenLosesKeys | SplayNode.DeleteJoinedContents |
| ttree.c:77-78 | `_TT_destroy` decrements `keys` for every destroyed node, keyed or not | keys "a" and "abc" (3 nodes); `TT_del_node("a")` wraps `keys` from 2 to 2^64 - 1 | `keys` counts down only for nodes that held a key | high (not executed) | TernaryNode.DelNodeMiscountsKeys | TernaryNode.DestroyCountsKeys |
| ttree.c:99-109 | `TT_del_node` hands the found node to `_TT_destroy`, which also destroys its `left` and `right` subtrees (ttree.c:58-70) | keys "a" and "b" ("b" to the right of "a"); `TT_del_node("a")` | delete only the node with the key, its data and the strings continuing it | high (not executed) | TernaryNode.DelNodeDropsSiblings | TernaryNode.PrunedKeepsSiblings |
| ttree.c:196 | the end of the string is tested with `> 0` on a signed `char` | insert "a\xC3" (bytes 97, -61): the key is stored on the "a" node and a search for "a\xC3" answers NULL | test the terminating NUL with `!= 0` | high (not executed) | TernaryNode.SignedEndLosesKey | TernaryNode.InsFindsCString |

The container methods (`TTree.Insert`, `TTree.DelNode`, `STree.Delete`, `AVLTree.Delete`, `BTree.Delete`) model the code as written. The corrected definitions stand beside them with their properties proved.
