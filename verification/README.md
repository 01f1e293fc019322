# Left-leaning red-black symbol table

A Dafny model of `RedBlackBST<Key, Value>` in `src/RedBlackBST.java`. It is
an ordered symbol table kept as a left-leaning red-black binary search tree.
Each node carries a key, a value, the colour of the link from its parent, two
links and a cached subtree count `N`. The table offers:

- insert (overwrite on an equal key) and top-down delete;
- search, contains, size, isEmpty and height;
- the order-statistics queries rank, getValByRank and getElements(a, b).

The queries rebuild a shared `inOrder` key list before they read it.

Files:

- `wrappers.dfy`: `Option`, standing for Java's `null` results and arguments.
- `entries.dfy`: the abstract view of a table, a sequence of `(key, value)`
  entries. It has `Get`, `Put` (insert or overwrite), `Remove`, `HasKey`,
  `Sorted` and `CountLess`, with their algebra.
- `trees.dfy`: the node record as a datatype (`Tree`), `isRed`, `size`,
  `height`, and the in-order view `Elements`. Also:
  - `Ordered`: the search-tree order, read as strictly increasing keys.
  - `SizesOk`: every cached count `N` is exact.
- `repair.dfy`: rotateLeft, rotateRight, flipColors, moveRedLeft,
  moveRedRight and balance.
- `insertion.dfy`: the recursive insert and the public insert.
- `deletion.dfy`:
  - the recursive delete and findReplacement;
  - the conditions under which the Java code dereferences no null link;
  - the public delete;
  - the successor-value discrepancy described under Findings.
- `colours.dfy`: the colour rules (no red right link, no red node with a red
  left child, equal black height on every path), proved to be kept by insert,
  and the height bound they give.
- `balanced_deletion.dfy`: delete with its key-found case corrected to keep
  the colour rules (second row under Findings), proved null-safe on every
  red-black tree and to keep the colour rules.
- `bst.dfy`: the class `RedBlackBST`, holding `root` and `inOrder`. It wraps
  the public operations (delete in its corrected form), and the loops of search, rank and getElements(a, b)
  are `while`/`for` loops.

The Java code rewires node fields in place and returns the new subtree root.
Each repair and each recursive step is modelled as a function that returns
that rebuilt subtree. The object's own state (`root`, `inOrder`) lives in a
class whose methods reassign it.

## Model

| member | source | states |
|---|---|---|
| Trees.IsRed | src/RedBlackBST.java:35-39 | definition: a null link counts as black; every colour rule and repair below is stated with it |
| Trees.Size | src/RedBlackBST.java:41-45 | definition: 0 for a null link, the cached `N` otherwise; `Trees.SizeIsCount` states what it means |
| Trees.Height | src/RedBlackBST.java:222-227 | definition: -1 for a null link, one more than the taller child otherwise; `Trees.HeightBounds` and `Colours.HeightLogarithmic` bound it |
| Trees.SizeIsCount | src/RedBlackBST.java:41-45 | when every count is exact, `size(x)` is the number of entries below `x` |
| Trees.HeightBounds | src/RedBlackBST.java:222-227 | the height is -1 exactly for a null link and always below the number of entries |
| Trees.KeysNode | src/RedBlackBST.java:267-274 | the in-order keys of a node are its left keys, its own key, then its right keys |
| Trees.SearchStep | src/RedBlackBST.java:194-205 | in an ordered node, a smaller key is found exactly in the left subtree, a larger one in the right, an equal one at the node |
| Repair.RotateRight | src/RedBlackBST.java:295-305 | the in-order entries are unchanged; the old left child becomes the root with `h`'s colour and count; `h` becomes its red right child with a recomputed count |
| Repair.RotateLeft | src/RedBlackBST.java:308-318 | the mirror image of rotateRight: entries unchanged, colour and count handed up, the demoted node red with a recomputed count |
| Repair.FlipColors | src/RedBlackBST.java:321-329 | the node and both children have their colours negated; nothing else in the tree changes |
| Repair.FlipColorsElements | src/RedBlackBST.java:321-329 | flipColors keeps the in-order entries |
| Repair.FlipColorsInvolution | src/RedBlackBST.java:321-329 | flipColors is its own inverse: flipping twice gives back the original node (a property of flipColors on its own; no other proof here depends on it) |
| Repair.FlipColorsSized | src/RedBlackBST.java:321-329 | flipColors leaves every count as it was |
| Repair.MoveRedLeft | src/RedBlackBST.java:333-343 | the subtree root keeps its count and has a left child |
| Repair.MoveRedLeftSpec | src/RedBlackBST.java:331-343 | entries unchanged; when `h.left` was black the new left child is red; in an ordered tree the new root's key is not below `h.key` |
| Repair.MoveRedLeftSized | src/RedBlackBST.java:333-343 | exact counts stay exact |
| Repair.MoveRedRight | src/RedBlackBST.java:347-355 | the subtree root keeps its count and has a right child |
| Repair.MoveRedRightSpec | src/RedBlackBST.java:345-355 | entries unchanged; when `h.right` was black the new right child is red; in an ordered tree the new root's key is not above `h.key` |
| Repair.MoveRedRightSized | src/RedBlackBST.java:347-355 | exact counts stay exact |
| Repair.RotateLeftSized | src/RedBlackBST.java:308-318 | exact counts below (or everywhere) stay exact after the rotation |
| Repair.RotateRightSized | src/RedBlackBST.java:295-305 | exact counts below (or everywhere) stay exact after the rotation |
| Repair.Balance | src/RedBlackBST.java:358-367 | the returned root's count is its children's counts plus one |
| Repair.BalanceElements | src/RedBlackBST.java:358-367 | balance keeps the in-order entries |
| Repair.BalanceSized | src/RedBlackBST.java:358-367 | when the children's counts are exact, every count of the balanced subtree is exact |
| Repair.BalanceSettled | src/RedBlackBST.java:358-367 | with no right-leaning red link and no two reds in a row, balance only recomputes the count, so it is idempotent there |
| Insertion.NewNode | src/RedBlackBST.java:27-32 | definition: the red one-node subtree with count 1 that insert creates at line 70 |
| Insertion.Ins | src/RedBlackBST.java:82-107 | the node insert is called on keeps its colour, key and count |
| Insertion.InsertRoot | src/RedBlackBST.java:65-81 | after insert the root exists and is black |
| Insertion.InsertIntoEmpty | src/RedBlackBST.java:70-80 | on an empty tree insert yields one black node with count 1 holding the pair |
| Insertion.InsElements | src/RedBlackBST.java:82-107 | the recursive insert turns the entries into `Put(entries, key, val)`: a new pair goes in key order, an equal key gets the new value |
| Insertion.InsSized | src/RedBlackBST.java:82-107 | every link the recursive insert rebuilt has exact counts |
| Insertion.InsertCorrect | src/RedBlackBST.java:63-107 | on an ordered tree with exact counts: the key maps to the value; every other key keeps its value; order, exact counts and a black root hold; the size grows by one exactly when the key was new |
| Deletion.PushLeft | src/RedBlackBST.java:129-132 | definition: moveRedLeft when the left link and its left child are both black; `Deletion.PushLeftSpec` states its effect |
| Deletion.LeanRight | src/RedBlackBST.java:138-141 | definition: rotateRight when the left link is red; `Deletion.LeanRightSpec` states its effect |
| Deletion.PushRight | src/RedBlackBST.java:142-144 | definition: moveRedRight when the right link and its left child are both black; `Deletion.PushRightSpec` states its effect |
| Deletion.PushLeftSpec | src/RedBlackBST.java:129-132 | moving red left before going left keeps the entries and counts and does not move the node's key down |
| Deletion.LeanRightSpec | src/RedBlackBST.java:138-141 | rotating a red left link right before going right keeps the entries and counts and does not move the node's key up |
| Deletion.PushRightSpec | src/RedBlackBST.java:142-144 | moving red right before going right keeps the entries and counts and does not move the node's key up |
| Deletion.DescendLeft | src/RedBlackBST.java:128-134 | a stored key below the node's key lies in the left link, which exists, and after the push it is still there in a smaller subtree |
| Deletion.DescendRight | src/RedBlackBST.java:135-146 | a stored key above the node's key lies in the right link, which exists after the rotation, and after the push it is still there in a smaller subtree |
| Deletion.DescendToMin | src/RedBlackBST.java:172-182 | the minimum key sits at the node exactly when its left link is null; after the push it is still the minimum of the left subtree |
| Deletion.FindReplacement | src/RedBlackBST.java:172-185 | definition, as written (key equality for the reference test): stop at the minimum, else push red left, recurse left and balance; `Deletion.FindReplacementElements` states its effect and `BalancedDeletion.MinColours` its colours |
| Deletion.SpliceSuccessor | src/RedBlackBST.java:153-166 | definition, corrected: the node takes the successor's key and the successor's own value over the right subtree with the successor unlinked; `Deletion.SpliceSuccessorElements` states its effect |
| Deletion.SpliceSuccessorAsWritten | src/RedBlackBST.java:159-166 | definition, as written: the successor's key over the node's old value, the value `search` returns there; `Deletion.SpliceSuccessorAsWrittenValue` states the outcome |
| Deletion.FindReplacementElements | src/RedBlackBST.java:172-185 | findReplacement removes exactly the first in-order entry and keeps counts exact |
| Deletion.SpliceSuccessorElements | src/RedBlackBST.java:153-166 | replacing the node by its successor removes exactly the node's own entry (corrected value, see Findings) |
| Deletion.SpliceSuccessorAsWrittenValue | src/RedBlackBST.java:159-166 | as written, the successor's key ends up carrying the deleted key's value |
| Deletion.Del | src/RedBlackBST.java:126-171 | definition: the recursion as written, in the same branch order, except that the successor case uses `Deletion.SpliceSuccessor` (corrected value); `Deletion.DelElements` states its effect and `BalancedDeletion.DeleteBreaksBalance` what it does to the colours |
| Deletion.PrepareRoot | src/RedBlackBST.java:115-118 | definition: the root turns red when both its links are black; `BalancedDeletion.PrepareRootEntry` states what that establishes |
| Deletion.DeleteRoot | src/RedBlackBST.java:109-125 | definition: the public delete as written apart from the successor's value, returning the table unchanged when it is empty or lacks the key; `Deletion.DeleteCorrect` states its effect |
| Deletion.DelElements | src/RedBlackBST.java:126-171 | the recursive delete, with the successor's value corrected, turns the entries into `Remove(entries, key)` and keeps counts exact |
| Deletion.DeleteCorrect | src/RedBlackBST.java:109-125 | on an ordered tree with exact counts, with the successor's value corrected: the key is absent afterwards; every other key keeps its value; order and exact counts hold; a black root stays black; the size drops by one exactly when the key was present |
| Deletion.ThreeInserts | src/RedBlackBST.java:65-107 | inserting three increasing keys builds a black root with two black children |
| Deletion.ThreeKeysShape | src/RedBlackBST.java:65-107 | that three-node tree is ordered with exact counts and stores its three pairs |
| Deletion.ThreeKeysDeletable | src/RedBlackBST.java:115-118 | deleting its middle key recolours the root red and takes the successor branch without a null dereference |
| Deletion.SuccessorValueLost | src/RedBlackBST.java:160-166 | as written, deleting the middle key leaves the largest key holding the middle key's value |
| Deletion.SuccessorValueKept | src/RedBlackBST.java:110-171 | the corrected delete of the middle key leaves exactly the two other pairs, each with its own value |
| Colours.InsertBelow | src/RedBlackBST.java:82-107 | the subtree a parent hangs back after inserting below a link is never null: a new red node on a null link, the balanced subtree otherwise |
| Colours.RotateLeftBlack | src/RedBlackBST.java:308-318 | rotating a red right link to the left keeps black balance and the black height |
| Colours.RotateRightBlack | src/RedBlackBST.java:295-305 | rotating a red left link to the right keeps black balance and the black height |
| Colours.FlipColorsBlack | src/RedBlackBST.java:321-329 | splitting a black node with two red children keeps black balance and the black height |
| Colours.InsLeftRight | src/RedBlackBST.java:82-107 | the recursive insert rebuilds exactly the child link towards the key, or overwrites the value on an equal key; `Colours.InsertBelowColours` uses it to follow one link per step |
| Colours.InsertBelowColours | src/RedBlackBST.java:82-107 | inserting below a red-black subtree keeps its black height and balance and leaves no red right link; below a black node the result is red-black, below a red node it stays red and a red left child it gains has a black left child |
| Colours.InsertLeftCase | src/RedBlackBST.java:83-92 | balancing a node whose left link was rebuilt by insert keeps black height and balance and hands the same colour guarantees up |
| Colours.InsertRightCase | src/RedBlackBST.java:93-102 | balancing a node whose right link was rebuilt by insert keeps black height and balance and hands the same colour guarantees up |
| Colours.RightRedLeftBlack | src/RedBlackBST.java:358-367 | a red right link under a node without a red left link is rotated into a red left link, keeping black height and balance |
| Colours.RightRedLeftRed | src/RedBlackBST.java:358-367 | red links on both sides of a black node are split: the node turns red over two black children, with black height and balance kept |
| Colours.InsertColours | src/RedBlackBST.java:63-81 | insert keeps a red-black tree with a black root red-black; its black height stays or grows by one |
| Colours.EntriesAboveBlackHeight | src/RedBlackBST.java:222-227 | a black-balanced tree of black height `bh` holds at least `2^bh - 1` pairs |
| Colours.HeightBelowBlackHeight | src/RedBlackBST.java:222-227 | in a red-black tree a path is at most twice as long as its black part |
| Colours.HeightLogarithmic | src/RedBlackBST.java:222-227 | a red-black tree with a black root has height below twice its black height `bh`, and `2^bh` is at most the size plus one |
| BalancedDeletion.LeftDown | src/RedBlackBST.java:128-134 | before going left the push finds a right sibling whenever it needs one, and the left child is entered with the colours the descent expects |
| BalancedDeletion.LeftUp | src/RedBlackBST.java:128-170 | balance on the way back from the left link keeps the black height and hands up the colour guarantees the descent promises |
| BalancedDeletion.LeftUpFlipped | src/RedBlackBST.java:358-367 | after moveRedLeft only flipped colours, balance rotates the red right link back and keeps the black height |
| BalancedDeletion.LeftUpRotated | src/RedBlackBST.java:358-367 | after moveRedLeft borrowed from the right sibling, balance keeps the black height and the colour guarantees |
| BalancedDeletion.RightDown | src/RedBlackBST.java:135-146 | after a red left link is turned right, a null right link means a red leaf; otherwise the push finds a left sibling and the right child is entered with the colours the descent expects |
| BalancedDeletion.RightUp | src/RedBlackBST.java:135-170 | balance on the way back from the right link, with or without the successor's key and value taken over, keeps the black height and the colour guarantees |
| BalancedDeletion.RightUpTurned | src/RedBlackBST.java:358-367 | the same after the red left link was turned right |
| BalancedDeletion.RightUpRed | src/RedBlackBST.java:358-367 | the same when the right link was already red |
| BalancedDeletion.RightUpFlipped | src/RedBlackBST.java:358-367 | the same after moveRedRight only flipped colours |
| BalancedDeletion.RightUpRotated | src/RedBlackBST.java:358-367 | the same after moveRedRight borrowed from the left sibling |
| BalancedDeletion.DescendAtOrRight | src/RedBlackBST.java:135-146 | a stored key at or above the node's key stays reachable through the right-hand steps: a null right link means the node holds it, and otherwise it is the node's key or lies in a smaller right subtree |
| BalancedDeletion.BalancedDel | src/RedBlackBST.java:126-171 | definition, corrected: the found key goes through the lean-right and push-right steps first, a red leaf is unlinked, then the successor is spliced in; `BalancedDeletion.BalancedDelElements` and `BalancedDeletion.BalancedDelColours` state its effect |
| BalancedDeletion.BalancedDeleteRoot | src/RedBlackBST.java:109-125 | definition: the public delete over the corrected recursion; `BalancedDeletion.BalancedDeleteCorrect` states its effect |
| BalancedDeletion.BalancedDelElements | src/RedBlackBST.java:126-171 | the corrected recursion turns the entries into `Remove(entries, key)` and keeps counts exact |
| BalancedDeletion.RedLeaf | src/RedBlackBST.java:149-152 | a node entered with a null left link and no red right link is a red leaf of black height 0 |
| BalancedDeletion.MinColours | src/RedBlackBST.java:172-185 | findReplacement on a subtree entered with the colours the descent expects dereferences no null link and hands back the promised colours |
| BalancedDeletion.BalancedDelColours | src/RedBlackBST.java:126-171 | the corrected recursion dereferences no null link, drops no subtree, and keeps the black height and the colour guarantees |
| BalancedDeletion.BalancedDelColoursRight | src/RedBlackBST.java:135-170 | the same guarantees when the key is at or right of the node: the left lean, the red-leaf unlink, the push right and the descent or splice below it |
| BalancedDeletion.FoundColours | src/RedBlackBST.java:147-167 | when the key is found after the push right, the successor's subtree can be walked to its minimum and splicing the successor in keeps the black height and colour guarantees |
| BalancedDeletion.PrepareRootEntry | src/RedBlackBST.java:115-118 | recolouring the root of a red-black tree red when both children are black gives a node the descent can enter |
| BalancedDeletion.BalancedDeleteCorrect | src/RedBlackBST.java:109-125 | the corrected delete on a red-black tree with ordered keys and exact counts dereferences no null link, removes exactly the key's pair, and keeps order, exact counts, the colour rules and a black root; the black height stays or drops by one; the size drops by one exactly when the key was present |
| BalancedDeletion.ThreeKeysRedBlack | src/RedBlackBST.java:65-107 | the tree of three inserts is red-black with a black root |
| BalancedDeletion.DeleteBreaksBalance | src/RedBlackBST.java:147-167 | as written, deleting the middle key of that tree leaves a root with a black left child and a null right link, which is not black balanced, and deleting the smallest key next pushes red left at a root whose right link is null; with the successor's value corrected, key 3 there holds its own value where the Java code leaves the deleted key's |
| BalancedDeletion.DeleteKeepsBalance | src/RedBlackBST.java:109-171 | corrected, the same two deletes leave red-black trees holding exactly the remaining pairs |
| BST.RankSelect | src/RedBlackBST.java:233-259 | a stored key's rank is the index at which the in-order key list holds it, so getValByRank(rank(k)) is k |
| BST.RankSplits | src/RedBlackBST.java:245-259 | the keys before position rank(k) are below k and the rest are at least k |
| BST.RangeBetween | src/RedBlackBST.java:275-288 | a valid rank range gives `b - a + 1` strictly increasing keys, each between the keys of ranks `a` and `b` |
| BST.RedBlackBST.constructor | src/RedBlackBST.java:55-57 | a new table is empty and satisfies the table invariant, colour rules included |
| BST.RedBlackBST.Size | src/RedBlackBST.java:47-48 | with exact counts, size() is the number of stored pairs |
| BST.RedBlackBST.IsEmpty | src/RedBlackBST.java:50-53 | isEmpty() holds exactly when no pair is stored |
| BST.RedBlackBST.Height | src/RedBlackBST.java:222-227 | height() is -1 exactly for the empty table and below the number of pairs; on the valid table it is below twice the black height `bh`, with `2^bh` at most the size plus one, so logarithmic in the size |
| BST.RedBlackBST.Search | src/RedBlackBST.java:191-209 | the walk from the root returns the value stored under the key, or `None` when it is absent |
| BST.RedBlackBST.Contains | src/RedBlackBST.java:211-214 | contains(key) holds exactly when the key is stored |
| BST.RedBlackBST.Insert | src/RedBlackBST.java:63-81 | a null key or value changes nothing; otherwise the entries become `Put(old entries, key, val)` and the invariant, colour rules included, holds |
| BST.RedBlackBST.Delete | src/RedBlackBST.java:109-125 | with the corrected recursion, the entries become `Remove(old entries, key)` and the invariant, colour rules included, holds |
| BST.RedBlackBST.CollectInOrder | src/RedBlackBST.java:267-274 | getElements(node) appends the keys below `node`, in order, to `inOrder` |
| BST.RedBlackBST.GetValByRank | src/RedBlackBST.java:233-243 | the key of rank `k`, or `None` when `k` is not below the size; `inOrder` ends as the in-order key list |
| BST.RedBlackBST.Rank | src/RedBlackBST.java:245-259 | the number of stored keys strictly less than `key`; `inOrder` ends as the in-order key list |
| BST.RedBlackBST.GetElements | src/RedBlackBST.java:275-288 | the keys of ranks `a` through `b`, or empty when `a < 0`, `b` is not below the size, or `a > b` |

## Left out

- `main` and `printTree` are not modelled. They are file I/O and console output used for testing.
- Keys are mathematical integers (`int`), not arbitrary `Comparable` objects. `compareTo` becomes `<`, `==` and `>`.
- findReplacement tests the key by reference (`deleted.key == replacekey`). The model uses key equality. This agrees because the key passed in is the very object read from the successor node.
- The node count `N` is unbounded. Java's 32-bit `int` overflow would need more than 2^31 nodes.
- Node identity and aliasing are not modelled. Nodes are values, and every operation rebuilds the subtree it changes.
- The successor branch of delete overwrites `inOrder` with the keys of a right subtree. `BST.RedBlackBST.Delete` does not mention or change `inOrder`.
- The constructor leaves `inOrder` unset in the Java code. The model starts it as the empty list.
- `BST.RedBlackBST.Delete` runs the corrected delete of the second finding, not the code as written. The code as written, apart from the successor's value, is `Deletion.DeleteRoot`. It requires `DeleteDefined`, under which the Java code dereferences no null link. `BalancedDeletion.DeleteBreaksBalance` shows a table built by insert and delete on which this fails.
- `Deletion.FindReplacement` requires `ReplacementDefined`, which excludes a minimum that still has a right subtree. At that node the Java code returns `null` (lines 174-175) and silently drops the subtree; the model does not describe that loss. When findReplacement is entered as the corrected delete enters it, `ReplacementDefined` always holds (`BalancedDeletion.MinColours`).
- `BST.RedBlackBST.GetValByRank` requires a non-empty table and `0 <= k`. On an empty table the Java code throws a NullPointerException reading `root.N` (line 239), and a negative `k` makes `inOrder.get(k)` throw an IndexOutOfBoundsException (line 242); those exceptions are modelled as preconditions, not as results.
- `Deletion.DeleteCorrect` states order, exact counts and a black root but no colour rules, because the code as written does not keep black balance.
- `Deletion.DeleteCorrect` and `Deletion.DelElements` are about the delete with the successor's value corrected (`Deletion.SpliceSuccessor`). As written, the successor's key keeps the deleted key's value (line 166, first row under Findings), so `Remove(entries, key)` does not hold for the Java code whenever the successor branch is taken.
- `BalancedDeletion.DeleteBreaksBalance` shows the shape the code as written leaves, with the successor's value corrected; the Java code leaves the deleted key's value under key 3.
- `Deletion.Del`, `BalancedDeletion.BalancedDel` and `BST.RedBlackBST.Delete` use the corrected successor value (see Findings), not the value the Java search returns.

## Findings

| source | as written | input that shows it | evidently intended | confidence | as-written member | corrected member |
|---|---|---|---|---|---|---|
| src/RedBlackBST.java:164-166 | the successor's value is read with `search(replaceKey)` after the successor has been unlinked and `compare.key` set to `replaceKey`, so the search stops at `compare` and returns the value of the key being deleted | insert (1, 10), (2, 20), (3, 30), then delete 2: key 3 then maps to 20 | `compare` takes the successor's own value, so key 3 still maps to 30 | not executed | Deletion.SuccessorValueLost | Deletion.SuccessorValueKept |
| src/RedBlackBST.java:147-167 | when the key is found, the node is unlinked or replaced straight away. The larger-key branch first turns a red left link right and pushes a red link into the right subtree (lines 139-144); this branch does not. Splicing in the successor from a black right child, or returning `compare.left`, then leaves one side a black level short | insert (1, 10), (2, 20), (3, 30), then delete 2: the root holds 3, with black child 1 on the left and a null right link. Then delete 1: moveRedLeft calls flipColors at the root, whose right link is null, and a NullPointerException follows | the found key goes through the same right-hand steps first, and a red leaf is simply dropped, so every delete keeps the colour rules and never meets a null sibling | not executed | BalancedDeletion.DeleteBreaksBalance | BalancedDeletion.BalancedDeleteCorrect |
