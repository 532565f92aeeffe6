# Box inventory: red-black tree and two-tier box index

This project models the core of a small C program that keeps an inventory of
boxes. Each box is described by a square side and a height. The program answers
one question: which stocked box is the tightest fit for a requested shape?

The model has two layers.

- **The red-black tree of `trees.c`** (modules `RbTree`, `RbQuery`, `RbInsert`
  and `RbDelete`). It is an ordered map from float keys to opaque payloads.
  - It provides `tree_init`, `tree_is_empty`, `tree_search`, the left and right
    rotations, `tree_insert` with its fix-up, `tree_delete` with successor
    splicing and its fix-up, `tree_ub` and `tree_successor`.
  - Search and upper bound compare keys with `float_equal`, an absolute
    tolerance of 0.001. This is the predicate `FloatEqual` over `real`.
  - The tree is an immutable datatype, and the shared sentinel is `Nil`.
  - A node handle is the path of left/right steps from the root. Every pointer
    update the C code makes becomes a replacement of the subtree at a path.
  - Insert and delete are modelled step by step, including their fix-up loops.
    Their results are stated against reference operations on the in-order
    sequence (module `Sequences`): sorted insertion, removal at an index, and
    the map a sorted key/value sequence denotes.
  - Module `RbColors` states the red-black colour rules and proves that
    `tree_insert` keeps them. The rules are: a BLACK root, no RED node with a
    RED child, and the same number of BLACK nodes on every path down to the
    sentinel. The proof follows the fix-up loop with its invariant. z is RED
    with BLACK children, black heights agree, and the only RED node with a RED
    child may be z's parent.
  - Module `RbDeleteColors` proves that `tree_delete` keeps the same rules
    once two of its colour writes are those of the textbook algorithm. It also
    builds, from the empty tree with `tree_insert`, two trees on which
    `tree_delete` as written breaks the rules and then reads the sentinel's
    NULL child links (see "Findings").
- **The box index of `boxes.c`** (modules `Boxes` and `BoxUpdates`). It is an
  outer tree keyed by side. Each value of the outer tree is an inner tree keyed
  by height, and each inner value counts the boxes of that side and height.
  - The model covers `boxes_init`, `INSERTBOX`, `REMOVEBOX`, `boxes_find_ub`,
    `GETBOX` and `CHECKBOX`.
  - The C code updates counters through `int *` and inner trees through
    `tree_t *`. Here those updates write new values into the trees.
  - The abstract view `Stock` maps side to (height to count).
  - The invariant `Valid` says:
    - both tiers are ordered by key;
    - no two keys of a tier lie within 0.001 of each other;
    - no inner tree is empty;
    - every counter is at least 1.
  - `Valid` says nothing of colours. The separate predicate `RedBlackIndex`
    says that the side tree and every height tree follow the red-black rules.
  - `REMOVEBOX` takes the colour writes of `tree_delete` as a parameter, so
    `RemoveBox(b, side, height, AsWritten)` is the code of `boxes.c`.
- **Payload independence** (module `RbValues`). `tree_search`, `tree_insert`
  and `tree_delete` never look at payloads. Replacing every payload by one
  value commutes with all three, so a run on a tree of integers carries over
  to the side tree of the box index.
- **A box-level run to the NULL read** (module `BoxCrash`). It starts from
  `boxes_init`, inserts boxes with `INSERTBOX` and removes two of them with
  `REMOVEBOX`. The second removal reads the sentinel's NULL child links.

Where the code does something other than its name or header comment
suggests, the model follows the code:

- `tree_insert` reports failure (-1, `trees.h:71-72`) only when the new key is
  exactly equal to the key of the last node of its descent
  (`trees.c:224-231`). An equal key higher up is inserted a second time
  (`RbInsert.InsertMissesEarlierDuplicate`), and a key within 0.001 of a stored
  one is always inserted. The box index never relies on that duplicate check:
  it always searches before it inserts (`boxes.c:19`, `boxes.c:29`).
- The header comment of `tree_ub` (`trees.h:85`) promises the lowest key larger
  than or equal to the argument. `tree_do_ub` also returns a key up to 0.001
  *below* it, so the `assert` at `trees.c:406` can fail
  (`RbQuery.UbMayBeBelowTarget`). `RbQuery.Ub` states what the code does.
- `tree_search` scans the whole tree in pre-order instead of descending by
  key (`trees.c:67-79`). `RbQuery.Search` is complete either way.
- The delete fix-up differs from RB-DELETE-FIXUP (Cormen, Leiserson, Rivest
  and Stein) in two colour writes. Case 4 blackens `x->parent->parent` instead
  of `x->parent` (`trees.c:295`, `trees.c:320`). After the loop only the root
  is blackened, not `x` (`trees.c:327`).
  - `RbDelete` models both variants, selected by `Fixup`: `AsWritten` is the
    code, `Textbook` has the two textbook writes.
  - The fix-up returns `None` where the code would read the NULL child links
    of a sentinel sibling (`trees.c:283`, `trees.c:308`).
  - As written, both writes break the colour rules, and a later deletion then
    reaches that `None`. This happens on trees built by `tree_insert` alone
    (`RbDeleteColors.ParentLeftRed`, `RbDeleteColors.RedXStaysRed`).
  - From a tree that follows the red-black rules, a single deletion never
    meets a sentinel sibling with either variant
    (`RbDeleteColors.DeleteRedBlack`). The `None` needs an earlier
    as-written deletion that broke the rules.
  - The box index inherits this. On an index that follows the rules,
    `REMOVEBOX` as written returns and keeps `Valid`
    (`BoxUpdates.RemoveBoxValid`), but it may break the rules. Six
    `INSERTBOX` calls and two `REMOVEBOX` calls then reach the NULL read
    (`BoxCrash.RemoveBoxCrash`). With the textbook writes, every
    `REMOVEBOX` keeps the rules (`BoxUpdates.RemoveBoxRedBlack`).

## Model

| member | source | states |
|---|---|---|
| RbTree.Init | trees.c:15-22 | the new tree is empty: the root is the sentinel, which is BLACK, and it has no entries and no keys |
| RbTree.IsEmptyIffNoEntries | trees.c:43-46 | tree_is_empty holds exactly when the in-order sequence is empty |
| RbTree.LeftRotate | trees.c:109-132 | the left rotation at a node keeps the in-order key/value sequence; the node's right child takes its place |
| RbTree.RightRotate | trees.c:136-159 | the right rotation at a node keeps the in-order key/value sequence; the node's left child takes its place |
| RbTree.NodeKey | trees.c:389-392 | the key of a node is the key at that node's in-order index |
| RbTree.NodeValue | trees.c:394-397 | the value of a node is the value at that node's in-order index |
| RbQuery.DoSearch | trees.c:67-79 | a node that the pre-order scan returns has a key within 0.001 of the target |
| RbQuery.Search | trees.c:81-90 | tree_search finds a node exactly when some key lies within 0.001 of the target, and the node it finds holds such a key; no node is given on failure |
| RbQuery.FindMin | trees.c:240-250 | tree_find_min gives the sentinel for an empty subtree; otherwise it gives the first node of that subtree in in-order |
| RbQuery.NextNode | trees.c:252-268 | tree_get_successor gives the node at the next in-order index; it gives the sentinel exactly when the node is the last one |
| RbQuery.Successor | trees.c:412-421 | tree_successor moves to the next in-order node and fails (-1) exactly when the node is the last one |
| RbQuery.SuccessorNextKey | trees.c:412-421 | in an ordered tree, tree_successor lands on the next larger key; it fails exactly when the node holds the largest key |
| RbQuery.Ub | trees.c:367-410 | in an ordered tree, tree_ub fails exactly when every key is below the target and none is within 0.001 of it; the key it returns is within 0.001 of the target when one is, and otherwise is the smallest key above the target |
| RbQuery.UbMayBeBelowTarget | trees.c:399-410 | tree_ub returns the key 1.0 for the target 1.0005, which breaks the assert that the key is at least the target |
| RbInsert.DescentPath | trees.c:210-222 | the descent of tree_insert ends at a sentinel slot; it went left at the last node exactly when the new key is below that node's key |
| RbInsert.Insert | trees.c:206-236 | tree_insert fails (-1) only for a key already in the tree; when it succeeds, the key set gains exactly the new key |
| RbInsert.InsertFixup | trees.c:164-204 | the insert fix-up keeps the in-order sequence and leaves a BLACK root |
| RbInsert.InsertFresh | trees.c:206-236 | inserting a key absent from an ordered tree succeeds; the new in-order sequence is the old one with the pair at its sorted place, so the tree stays ordered, gains exactly that key and has a BLACK root |
| RbInsert.InsertMissesEarlierDuplicate | trees.c:224-231 | a key equal to an ancestor above the last node of the descent is inserted again, and the tree is then no longer ordered |
| RbColors.BalancedPaths | trees.c:164-204 | in a tree whose nodes all have children of equal black height, every path from the root to a sentinel slot meets the same number of BLACK nodes |
| RbColors.ChainFlip | trees.c:171-175 | the three colour writes of the RED-uncle case change only the grandparent's subtree: parent and uncle become BLACK, the grandparent RED |
| RbColors.FlipFacts | trees.c:171-175 | the RED-uncle round keeps the black height of the grandparent's subtree. The grandparent becomes a RED z with BLACK children, and no RED-RED pair is left below it |
| RbColors.ChainRestructure | trees.c:176-184 | the optional inner rotation, the two colour writes and the rotation of the BLACK-uncle case change only the grandparent's subtree |
| RbColors.RestructureFacts | trees.c:176-184 | the BLACK-uncle round leaves a BLACK subtree root of the same black height with no RED-RED pair |
| RbColors.ExitRedBlack | trees.c:168-203 | when the loop stops (z is the root, z's parent is the root, or z's parent is BLACK), blackening the root leaves a red-black tree |
| RbColors.FixupRedBlack | trees.c:164-204 | started from a RED z with BLACK children, equal black heights and no RED-RED pair other than z under its parent, the insert fix-up ends in a red-black tree |
| RbColors.InsertRedBlack | trees.c:206-236 | inserting into a red-black tree leaves a red-black tree whenever tree_insert succeeds |
| RbDelete.RedSibling | trees.c:277-282 | fix-up case 1 keeps the in-order sequence and leaves a RED parent above x |
| RbDelete.BlackNephews | trees.c:283-285 | fix-up case 2 keeps the in-order sequence, the shape and the colour of the parent |
| RbDelete.RedNephew | trees.c:286-298 | fix-up cases 3 and 4 keep the in-order sequence, with either colour write to the parent |
| RbDelete.Finish | trees.c:327 | the statements after the loop keep the in-order sequence and leave a BLACK root |
| RbDelete.DeleteFixup | trees.c:270-328 | when the delete fix-up does not meet a sentinel sibling, it keeps the in-order sequence and leaves a BLACK root |
| RbDelete.AtParent | trees.c:283-326 | the rest of a fix-up round, including the write to x->parent->parent as written, keeps the in-order sequence and leaves a BLACK root unless the sibling is the sentinel |
| RbDelete.Spliced | trees.c:334-338 | the node actually unlinked has at most one child; it is the node itself or the node at the next in-order index |
| RbDelete.SpliceRemoves | trees.c:340-353 | unlinking a node with at most one child removes exactly its entry from the in-order sequence |
| RbDelete.Delete | trees.c:330-365 | when tree_delete does not fail in its fix-up, it removes exactly that node's key/value pair from the in-order sequence and keeps every other pair in its order |
| RbDelete.DeleteOrdered | trees.c:330-365 | a deletion that does not fail keeps an ordered tree ordered and removes exactly the node's key |
| RbDeleteColors.FinishRedBlack | trees.c:327 | with x painted BLACK before the root, a loop that stops at the root or at a RED x leaves a red-black tree |
| RbDeleteColors.RedSiblingFacts | trees.c:277-282 | case 1 turns a RED sibling into a BLACK one: the new top is BLACK with no RED-RED pair, and x's new sibling is BLACK and one BLACK taller than x |
| RbDeleteColors.BlackNephewsFacts | trees.c:283-285 | case 2 makes the parent's subtree balanced at x's black height, and with the parent painted BLACK no RED-RED pair is left |
| RbDeleteColors.RedNephewFacts | trees.c:286-298 | with x->parent blackened in case 4, cases 3 and 4 give back a subtree of the parent's colour, balanced and one BLACK taller, with no RED-RED pair |
| RbDeleteColors.DeleteFixupRedBlack | trees.c:270-328 | started with x one BLACK short and no other flaw, the fix-up never meets a sentinel sibling, with either colour writes; with the textbook writes it ends in a red-black tree |
| RbDeleteColors.AtParentRedBlack | trees.c:283-326 | a round with a BLACK sibling one BLACK taller than x never meets a sentinel sibling, with either colour writes; with the textbook writes it ends in a red-black tree |
| RbDeleteColors.DeleteRedBlack | trees.c:330-365 | deleting any node of a red-black tree never meets a sentinel sibling, with either colour writes; with the textbook writes the result is again a red-black tree |
| RbDeleteColors.ParentLeftRed | trees.c:294-308 | as written, inserting 10, 5, 15, 3, 7, 8 and deleting 3 leaves a RED node with a RED child and unequal black heights; deleting 8 next meets a sentinel sibling |
| RbDeleteColors.RedXStaysRed | trees.c:274-327 | as written, inserting 10, 5, 15, 20 and deleting 15 leaves unequal black heights; deleting 5 next meets a sentinel sibling |
| RbColors.SetValueRedBlack | boxes.c:32 | writing a node's payload (a counter or an inner tree) keeps a red-black tree red-black |
| Boxes.BoxesInit | boxes.c:171-174 | a new index is valid, follows the red-black rules and holds no boxes |
| Boxes.FoundSide | boxes.c:19-20 | the side tree_search finds is a stocked side within 0.001 of the request; there is none exactly when no stocked side is that near |
| Boxes.FoundHeight | boxes.c:27-30 | under the side found, the height tree_search finds is a stocked height within 0.001 of the request; there is none exactly when no stocked height of that side is that near |
| Boxes.InsertBox | boxes.c:12-41 | after INSERTBOX of a side that was not found, tree_search finds that side; the effect on the stock of each of the three paths is stated by BoxUpdates.InsertBoxNewSide, BoxUpdates.InsertBoxNewHeight and BoxUpdates.InsertBoxMore |
| Boxes.RemoveBox | boxes.c:45-80 | REMOVEBOX, with the colour writes of trees.c or the textbook ones, returns -1 and changes nothing when the side or the height is not found; when both are found it returns 0 unless a tree_delete reads the sentinel's NULL links |
| Boxes.FitIn | boxes.c:102-106 | the height tree_ub finds is a stocked height; there is none exactly when every height is below the request and not near it; otherwise it is near or above the request |
| Boxes.Scan | boxes.c:98-123 | the scan never ends with a volume larger than the one it has already kept |
| Boxes.ScanPicks | boxes.c:98-123 | the tree walk of boxes_find_ub keeps the same pair as a fold over the candidate sequence that keeps strictly smaller volumes |
| Boxes.GetBox | boxes.c:126-130 | on a valid index, a box GETBOX returns is stocked, and its side and height are each within 0.001 of the request or above it |
| Boxes.GetBoxFirstMin | boxes.c:93-123 | GETBOX fails exactly when no side from tree_ub(side) on has a fitting height; otherwise it returns the candidate of smallest volume, the first one on ties |
| Boxes.CandidateFits | boxes.c:93-106 | every candidate GETBOX chooses from is a stocked box whose side and height are within 0.001 of the request or above it |
| Boxes.GetBoxBestFit | boxes.c:93-123 | if some stocked box is at least as large as the request in side and in height (an exact match included), GETBOX succeeds with a volume no larger than that box's |
| Boxes.CheckBox | boxes.c:132-136 | CHECKBOX succeeds exactly when GETBOX succeeds, although it stops at the first fit |
| Boxes.CheckBoxAgrees | boxes.c:113-115 | the scan that stops at the first fit succeeds exactly when the full scan does |
| BoxUpdates.InsertBoxNewSide | boxes.c:19-40 | INSERTBOX of a side with no stocked side near it adds that side with exactly one box of the height; nothing else changes and the index stays valid |
| BoxUpdates.InsertBoxNewHeight | boxes.c:27-40 | INSERTBOX under a found side, of a height with no stocked height near it, adds that height with one box; nothing else changes and the index stays valid |
| BoxUpdates.InsertBoxMore | boxes.c:27-34 | INSERTBOX of a side and height both found raises that counter by 1; nothing else changes and the index stays valid |
| BoxUpdates.InsertBoxValid | boxes.c:12-41 | INSERTBOX keeps the index valid |
| BoxUpdates.RemoveBoxFound | boxes.c:63-79 | a REMOVEBOX that finds both, with either colour writes. A counter above 1 drops by one and the call returns 0. A counter at 1 removes its height, and removes the side when that was its only height; the call returns whenever the index follows the red-black rules. Whenever it returns, it gives 0, changes nothing else and keeps the index valid (no zero counter, no empty height tree) |
| BoxUpdates.RemoveBoxValid | boxes.c:45-80 | with either colour writes, REMOVEBOX keeps the index valid whenever it returns, found or not; on an index that follows the red-black rules it always returns |
| BoxUpdates.InsertBoxRedBlack | boxes.c:12-41 | INSERTBOX keeps the side tree and every height tree red-black |
| BoxUpdates.RemoveBoxRedBlack | boxes.c:45-80 | with the textbook colour writes, REMOVEBOX on an index that follows the red-black rules always returns and leaves an index that follows them |
| BoxUpdates.InsertThenRemove | boxes.c:12-80 | with either colour writes, REMOVEBOX right after INSERTBOX of the same side and height returns 0 and gives the stock back unchanged whenever it returns; on an index that follows the red-black rules it always returns |
| RbValues.ValuedSearch | trees.c:67-90 | tree_search finds the same node whatever the payloads are |
| RbValues.ValuedInsert | trees.c:164-236 | tree_insert links and colours the nodes the same whatever the payloads are: inserting into a tree whose payloads are all replaced gives the replaced result of the original insertion |
| RbValues.ValuedDelete | trees.c:270-365 | tree_delete, with either colour writes, unlinks, rotates and colours the same whatever the payloads are, and meets a sentinel sibling on exactly the same trees |
| BoxCrash.InsertSidesKeeps | boxes.c:12-41 | a run of INSERTBOX keeps the index valid and, from an index that follows the red-black rules, keeps those rules |
| BoxCrash.InsertSidesValued | boxes.c:19-40 | INSERTBOX of sides apart from each other and from every stocked side, each with one box of height 1, builds the side tree that tree_insert of those sides alone builds, with a one-node height tree as every payload |
| BoxCrash.RemoveBoxCrash | boxes.c:45-80 | as written: after boxes_init and INSERTBOX of sides 10, 5, 15, 3, 7, 8 with height 1, REMOVEBOX of side 3 returns 0 and keeps the index valid but breaks the red-black rules, and REMOVEBOX of side 8 then reads the sentinel's NULL links (the tree_delete of boxes.c:74). With the textbook writes both calls return |

## Left out

- main.c: the prompt, the `fgets`/`sscanf` line parsing and the printing of results. These are input/output glue.
- `tree_print`, `tree_do_print`, `boxes_print` and their callbacks. They only present the data.
- `tree_cleanup`, `boxes_cleanup` and their callbacks. They only free memory.
- `malloc`/`free`, ownership of payloads, and the leak of the new node on the duplicate path of `tree_insert` (`trees.c:210`, `trees.c:231`). The model has no heap.
- `tree_new_node` (`trees.c:92-105`) is the literal `Node(Red, Nil, key, value, Nil)` inside `RbInsert.Insert`.
- IEEE single-precision rounding. Keys, the 0.001 tolerance and the volume side·side·height are exact reals.
- The `LOG` macro of util.h. It only traces.
- `int` overflow of a box counter after 2^31-1 insertions of one shape. Counters are unbounded integers.
- The `assert` at `trees.c:406`. It is treated as not compiled in, so `tree_ub` returns its node even when the assert would fail.
- RbInsert.InsertFixup: the loop also stops when z's parent is a RED root. There the C code would read the sentinel's NULL child links. A BLACK root rules this out, and the loop always ends with a BLACK root.
- RbDelete.DeleteFixup: when x is the sentinel and both children of its parent are the sentinel, the C test `x == x->parent->left` may pick the wrong side. Both sides then see a sentinel sibling, so the model returns `None` either way.
- RbDelete.Delete: for the `AsWritten` variant no colour rule is claimed after deletion, because none holds in general (`RbDeleteColors.ParentLeftRed`). The colour rules are proved for the `Textbook` variant only.
- BoxUpdates.RemoveBoxFound: with the colour writes of trees.c, a removal that deletes is promised to return only on an index that follows the red-black rules. After an earlier removal broke them it can read the NULL links (`BoxCrash.RemoveBoxCrash`), so nothing more can be promised.
- BoxUpdates.RemoveBoxValid: the same condition, for the same reason.
- BoxUpdates.InsertThenRemove: the same condition, for the same reason.

## Findings

| source | as written | input that shows it | evidently intended | confidence | as-written member | corrected member |
|---|---|---|---|---|---|---|
| trees.c:295 | case 4 paints `x->parent->parent` BLACK and leaves `x->parent` with its colour (likewise `trees.c:320`) | insert 10, 5, 15, 3, 7, 8 into an empty tree; delete 3, then 8. The first deletion leaves RED 5 under RED 7 and unequal black heights. The second meets a sentinel sibling and reads its NULL child (`trees.c:308`). INSERTBOX of these sides, one box of height 1 each, then REMOVEBOX of side 3 and of side 8, reaches the same read (`BoxCrash.RemoveBoxCrash`) | `x->parent->color = BLACK`, as in RB-DELETE-FIXUP | not executed | RbDeleteColors.ParentLeftRed | RbDeleteColors.DeleteRedBlack |
| trees.c:327 | after the loop only the root is painted BLACK, so a RED x that replaces a BLACK node stays RED | insert 10, 5, 15, 20 into an empty tree; delete 15, then 5. The first deletion leaves RED 20 in 15's place and unequal black heights. The second meets a sentinel sibling and reads its NULL child (`trees.c:283`) | `x->color = BLACK` before `tree->root->color = BLACK` | not executed | RbDeleteColors.RedXStaysRed | RbDeleteColors.DeleteRedBlack |
