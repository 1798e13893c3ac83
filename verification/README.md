# A model of SimpleDB in Dafny

SimpleDB is a page-based SQL engine in C. This project models its B+-tree, its buffer pool, its row
format, its INSERT and CREATE parsers and the execution of CREATE, INSERT, DELETE, UPDATE and SELECT,
and proves what they are for. Operations that change state are methods on classes, tied by their
contracts to specification functions; the laws about those functions are lemmas.

## How it is put together

| files | what they hold |
|---|---|
| Layout | nodes, cells, keys, constants |
| Tree, TreeSteps, TreeSplit, TreeLeaf, TreeCascade, TreeHalves, TreeUp, TreeLeafUp | the invariant `Inv` of one tree and the steps of the insert cascade |
| TreeClear, TreeRuin, TreeDebt, TreeDebtUp, TreeArrival, TreeInsert | when an insert ends in a tree and when it does not |
| TreeSearch, TreeStanding, TreeStray | what the binary searches compute on pages in any order, what holds of a table's pages whatever was done to them, and which rows are still found when an insert did not end in a tree |
| TreeContents, TreeRekey, TreeOrder, Balance, Verify | the cells in chain order, a key written over, the leaf chain, depth and height, the self-check |
| Btree | the operations of src/btree.c on the class `PageStore` |
| TreeMarks, Marks | which changed pages the source leaves unmarked, what closing and opening then recovers, and which rows are found |
| AsWritten, Failures | internal_node_insert and create_new_root exactly as the source has them, and when that is right; small stores on which things go wrong |
| Rows, Catalog, Parser, CreateText, CreateTokens, InsertTokens, Select, Box | row packing, the catalog, tokenizer and parsers with every outcome told by the tokens of a line, range scans, box mode |
| Tables | what a database means: a catalog of finite maps, and what each statement does to it |
| TablesOnPages, Database, Statements | several trees in one store, statement execution, runs, close and open, from text to execution |
| Pager, PagerRuns, ScanPins, Lru | the buffer pool, whole runs of it against a flat page array, the frames a scan needs, the LRU stack property |

A tree is described by a ghost `View`: for every page its height and the key interval (lo, hi] it is
responsible for, the page that owns every separator, and the leaves from left to right. `Inv` states
everything page by page: separators sorted and inside the interval, child i has the interval between
the separators beside it, exact parent pointers, leaf cells sorted and inside the interval, a chain of
`next` pointers through leaves whose intervals tile the key space and that ends with page number 0.
One page may be named as holding one entry too many; that is the state between two steps of a split.

An insert can end in a store that is no tree. What holds in any case is weaker: `Standing` says that
parent and child pointers agree, that levels fall by one, and that the leaves form a chain without
repetition; keys may be out of order. Every operation of the database keeps it, and what a statement does
and answers is stated for every table that stands (`TablesOnPages.Handled`).

In `Database`, a database means a sequence of tables, each with a map from keys to rows. Every method
states the map afterwards and the answer given (`Tables.After`, `Tables.Answers`). The ghost set
`ruined` holds the tables that have no tree any more; every method says exactly when one is added.

## Where the model repairs the source

The tree operations are modelled as they are evidently meant. The differences:

- src/btree.c:316 and src/btree.c:325 write through `internal_node_child(parent, num_keys)`, which is
  the right-child slot (src/btree.c:47-52) because `num_keys` is only raised at line 328. The model
  writes the new cell. `AsWritten.AsWrittenIsIntended` says exactly when the code as it stands gives
  the same page, `AsWritten.AsWrittenGoesWrong` shows three pages for which it does not.
- src/btree.c:323 shifts only the child word of a cell. The model shifts cells. Same lemmas.
- src/btree.c:221-244 does not tell the children of an internal root that they have moved. The model
  does. `AsWritten.LeafRootAsWritten`: for a leaf root there is nothing to tell, and the insert is
  carried out. `AsWritten.InternalRootAsWritten`: for an internal root what is left is never a tree.
- src/btree.c:291-293 writes a separator without the guard of lines 383-387. The model has the guard.
  `AsWritten.SeparatorInPage` says when the unguarded write leaves the page.
- src/btree.c:249-296 marks only the half that receives the child. The model writes both back, and keeps
  the marks that the source makes in a set of their own, `PageStore.marked`; the marks of the loop
  that the model adds to create_new_root count as well. `Marks.InsertThenReopen` says when the file
  holds a tree and which rows are found in it.
- src/btree.c:348 allocates one page for max_cells + 1 cells. The model's buffer is large enough.
  `Rows.SplitBufferFits` says exactly when one page is.
- src/btree.c:97 copies overlapping cells; the model takes it as a move.

The first five concern inserts into internal pages. In a table that no DELETE has touched no leaf below
the root can be full, and so no such insert happens, as long as it is smaller than
`AsWritten.NoCascadeBelow` says; that bound is exact (`Failures.FullLeafAtBound`).

## What the model shows about the source

- An empty leaf counts as having largest key 0 (src/btree.c:168-169). DELETE leaves empty leaves behind.
  An INSERT into a full leaf below the root ends in a tree exactly when certain pages on the way up end
  with a leaf that is not empty (`TreeClear.Clear`): a parent with room must; in a full parent child 255
  must, and the parent itself, unless it is the root and the new child goes to the lower half; below
  the root the next parent must be clear as well. When that fails, the store that is left is no
  tree, whatever intervals one assigns to its pages (`Btree.PageStore.LeafNodeInsert`). Empty leaves
  elsewhere do no harm.
- Such an insert does not always lose rows. When the parent has room, the new leaf is put last, behind
  the empty one and a separator 0. A row is then found exactly when its leaf is not overlooked
  (`TreeStray.StrayRows`): the new leaf is, unless the one that was split stood last before the empty
  one, or next to last and the number of separators is unlucky for the binary search
  (`TreeStray.Misses`); the leaf in front of the empty one is when that number is unlucky.
  `Failures.DeleteThenInsert` is a table on which one DELETE followed by one INSERT breaks the
  tree and leaves four of eight rows not to be found.
- SELECT of all rows begins at the leaf that first children lead to and follows the chain from there. In a
  tree that is the whole table. In a table that an UPDATE of a key has broken it still is, as long as only
  UPDATEs and DELETEs follow (`Databases.Database.Whole`); after an INSERT it may not be. The rows printed are
  all rows exactly when the leaves of the chain before the starting point hold none (`Select.WholeTable`).
  `Failures.RekeyThenInsert` is a table of eight rows on which one UPDATE and one INSERT make a SELECT of all
  rows skip four, each of which `=` still finds.
- UPDATE of the first column rewrites the key in place (src/statement.c:726-734). The tree survives
  exactly when a search for the new key ends at the row or right behind it and does not find the key
  (`TreeRekey.RekeyedTree`); then the map loses the old key and gains the new one.
  `Failures.RekeyedPastNeighbour` is an update that breaks a table of two rows.
- So every statement has an exact condition under which it leaves trees behind (`TablesOnPages.Sound`),
  which `Databases.Database.Blocked` decides before the statement. A statement that is not sound harms no
  other table: it writes no page of another one, and over whole runs every table that no such statement
  has met is the one of the specification (`Databases.Database.Run`). Even in its own table nothing
  happens but what find_node decides: if it comes to the key, an INSERT reports a duplicate, a DELETE takes
  that cell out and an UPDATE changes it; if not, an INSERT puts one row where it points.
- After an insert that cuts an internal page, the file holds a tree exactly when the pages missed by the
  marks had been marked before; a missed page that is new never has (`Marks.InsertThenReopen`). A missed
  page at its old place costs the tree but no row (`Marks.OldPagesHarmless`): its old image still leads
  every key to its leaf. A missed page that is new is not in the file, which may even end before it, so
  that its number is handed out again (src/pager.c:17); exactly the rows with keys in its interval are
  not found. With a full root this is the upper half, whenever the leaf lies in the lower one
  (`Marks.FullRootMissed`, `Failures.LoseUpperHalf`); `Marks.FullPageMissed` has the cases below another
  full page.
- Splitting a full internal page pins 255 moved children while the pool has 100 frames, so it cannot go
  through (`PagingRuns.InternalSplitTooLarge` with `PagingRuns.FetchAll`).
- SELECT and CREATE never unpin (src/statement.c:663, src/statement.c:686-708), and neither does
  verify_btree (src/btree.c:155-158, called at src/main.c:71). Pages fetched without an unpin go through
  exactly when the pool has a frame for every page pinned in the end (`PagingRuns.FetchAll`): a SELECT of
  all rows needs a frame for each leaf and each level above that is not pinned already, and a second
  one on the same table always goes through (`ScanPins.FetchScan`).
- A table name of 32 characters or more is cut when the table is created, so it is never found again
  (`Catalog.CreatedTableFound`).
- A CREATE without a closing parenthesis is accepted exactly when the line ends where a column name could
  stand: right after the opening parenthesis or after a comma (`CreateTokens.UnclosedCreate`).
  `create table t (` makes a table without columns, `create table t (a int` is refused
  (`CreateTokens.CutCreate`).

## Model

| member | source | states |
|---|---|---|
| Btree.PageStore.InternalNodeFindChild | src/btree.c:176-189 | in a sorted page, the first separator not below the key |
| Btree.PageStore.LeafFindCell | src/btree.c:200-212 | the first cell not below the key |
| Btree.PageStore.FindNode | src/btree.c:191-219 | the leaf whose interval contains the key, and the key's lower bound in it, empty leaves allowed |
| TreeContents.GlobalLowerBound | src/btree.c:191-219 | that cursor is the lower bound of the key among all cells of the chain, and the key is in the table iff it sits there |
| TreeContents.ContentsSorted | src/btree.c:333-390 | the chain lists every cell once in strictly ascending key order |
| Tree.RightLeafEnds | src/btree.c:160-174 | get_node_max_key reads the leaf where the page's interval ends: its last key, or 0 when it is empty |
| Btree.PageStore.Reparent | src/btree.c:271-276 | every listed child, and no other page, points at the new parent and is dirty |
| Btree.PageStore.CreateNewRoot | src/btree.c:221-244 | the root keeps its page number and gets the copy and the new page as children; changed pages are dirty |
| Btree.PageStore.InternalNodeInsert | src/btree.c:298-331 | with room the page is exactly the intended one and is marked; a child arriving in order at a clear page ends in a tree in order, same leaves in the same order, other pages untouched, internal pages still half full; at a page that is not clear, or below a page that is bad already, it ends in a ruined store |
| Btree.PageStore.HalveInternalNode | src/btree.c:251-276 | the lower half stays, the upper half without the middle key moves together with its children's parent pointers |
| TreeHalves.HalvesConserve | src/btree.c:259-269 | the halves' child lists concatenate to the original, the dropped key separates them; 255 keys stay and 254 go |
| Btree.PageStore.InsertIntoHalf | src/btree.c:278-284 | the child enters the half that its largest key points to, which is marked; the inner insert never splits again |
| TreeArrival.HalvedInOrder | src/btree.c:278-284 | for a child in order, whose half ends with a nonempty leaf, halving and then inserting gives the page that already held the child, cut in two; the lower half takes it iff its place is before child 255 |
| Btree.PageStore.InternalNodeSplitAndInsert | src/btree.c:249-296 | the same for a full page, up to and including a new root; the recursion climbs a level each time; exactly the changed pages of `TreeMarks.Missed` stay without a mark |
| TreeUp.AfterCut | src/btree.c:286-295 | a page that was cut is an in-order tree once the parent holds the new page behind it |
| TreeUp.AfterCutRoot | src/btree.c:286-287 | a cut root below a new root is an in-order tree, one level higher |
| TreeCascade.GoUp | src/btree.c:289-294 | lowering the parent's separator and inserting the new page leaves a parent waiting for one child, where the search will find its place |
| Btree.PageStore.CollectCells | src/btree.c:351-361 | the buffer holds the old cells with the new one at the cursor |
| Btree.PageStore.DistributeCells | src/btree.c:333-375 | old leaf, new leaf and chain links after the copy back, all changed pages dirty |
| TreeLeafUp.LeafHalvesConserve | src/btree.c:343-371 | the halves together are the old cells with the new one in place; the old leaf keeps (max_cells + 1) / 2 of them, and both fit a leaf |
| Btree.PageStore.LeafNodeSplitAndInsert | src/btree.c:333-390 | if the pages on the way up are clear, the tree is in order after the whole cascade, its cells are the old ones and the new one, fill factors kept, no foreign page touched, every changed page dirty; if they are not, no view makes the store a tree |
| Btree.PageStore.LeafNodeInsert | src/btree.c:392-408 | the same for an insert with or without a split: it ends in a tree if and only if it is clear. At any cursor into a table that stands, in order or not: the rows of the chain gain exactly the new one at the cursor, the table stands again, and no page of another table is written. Where the parent has room and ends with an empty leaf it is exactly the store that `TreeStray.StrayRows` speaks of |
| TreeStanding.InvStands | src/btree.c:249-390 | every tree stands: pointers agree and the leaves are a chain without repetition |
| TreeStanding.PassedTaken | src/btree.c:377-390 | whatever the keys, after a leaf split and all its cascade the table stands, with the new row in its place in the chain and foreign pages untouched |
| TreeSearch.SearchFinds | src/btree.c:176-219 | the binary searches as they are written, followed down a tree, end at the leaf of the key and at its lower bound |
| TreeStray.StrayingUnclear | src/btree.c:298-331 | below a parent with room an insert that must split a leaf does not end in a tree iff the parent's last leaf is empty |
| TreeStray.BisectLanding | src/btree.c:176-189 | where the binary search ends among separators in order with a 0 behind them, for any number of them |
| TreeStray.StrayRows | src/btree.c:298-331 | after such an insert a row is found if and only if its leaf is not overlooked, key 0 apart |
| TreeClear.IsClear | src/btree.c:249-331 | whether a page may receive a child, decided by walking up the parents and down the last children |
| TreeRuin.RuinedIsNoTree | src/btree.c:314-327 | a store with separators out of order, or with a separator 0 above a first child that has separators, is no tree in any view |
| TablesOnPages.NonEmptyClear | src/btree.c:160-174 | without empty leaves every insert is clear |
| Failures.DeleteThenInsert | src/btree.c:168-169 | a literal tree that one delete and one insert leave broken, with exactly the four smaller of eight rows not found, and that the insert alone does not |
| Btree.PageStore.LeafNodeDelete | src/btree.c:410-420 | exactly the cell under the cursor disappears, the tree stays in order even if the leaf is empty now |
| TreeRekey.RekeyedTree | src/statement.c:726-734 | after a new key is written over a cell the store is a tree, in whatever view, if and only if find_node for the new key ends at that cell or right behind it without finding the key |
| Failures.RekeyedPastNeighbour | src/statement.c:726-734 | a literal table of two rows that an update of the first row's key leaves broken |
| Failures.RekeyThenInsert | src/database.c:43-59 | a literal table on which an update of a key and an insert make a scan of all rows skip four rows that find_node still comes to |
| TreeOrder.ChainIsInOrder | src/btree.c:333-390 | the leaves found by descent are the chain along next, without repetition, ending at 0 |
| TreeOrder.NoPageShared | src/btree.c:249-331 | no page is the child of two pages, or twice of one |
| Balance.AllLeavesEquallyDeep | src/btree.c:249-390 | all leaves are at the same depth |
| Balance.HeightNeedsCells | src/btree.c:249-390 | h internal levels need 2*255^(h-1) leaves and that many times half a leaf of cells |
| Balance.HeightBound | include/common.h:11 | within 1000 pages a tree has at most two internal levels, whatever was deleted from it |
| Verify.VerifyNode | src/btree.c:112-153 | true if and only if every page reached is right: it names the page it was reached from as its parent, unless it is flagged as a root; separators and cells do not fall; a leaf keeps below the separator it was reached by, and above the last separator when it is reached as the last child, also through further last and first children |
| Verify.VerifyBtree | src/btree.c:155-158 | the same from the root, on any pages whose children lead downwards; so it returns true for every tree satisfying the invariant |
| Verify.AcceptedLeaves | src/btree.c:124-137 | acceptance guarantees leaves in nondecreasing key order |
| AsWritten.InternalPage.InsertAsWritten | src/btree.c:305-330 | the page the code as written leaves, slot by slot |
| AsWritten.InternalPage.InsertRepaired | src/btree.c:311-328 | with whole cells shifted and the right cell written the page decodes to the intended node |
| AsWritten.AsWrittenIsIntended | src/btree.c:311-328 | as written equals as intended iff the unused bytes happen to hold what is not written |
| AsWritten.LuckyInOrder | src/btree.c:311-328 | for a page in order: a new right child only over a stale copy of the old one, otherwise only one place before the last key over a stale copy of it, never at index num_keys |
| AsWritten.AsWrittenGoesWrong | src/btree.c:314-327 | a fresh page of 510 cells for each way of going wrong, and that no tree contains what is left |
| AsWritten.LeafRootAsWritten | src/btree.c:377-378 | as written, the split of a root leaf ends as intended |
| AsWritten.InternalRootAsWritten | src/btree.c:286-287 | as written, the split of an internal root never leaves a tree, whatever view one takes and whatever separator is written |
| AsWritten.SeparatorInPage | src/btree.c:291-293 | the unguarded separator stays inside the page iff the parent is not full or the search finds a separator |
| AsWritten.NoCascadeBelow | src/btree.c:377-389 | below max_cells + half a leaf of rows, without deletes, no leaf below the root is full |
| Failures.FullLeafAtBound | src/btree.c:377-389 | with that many rows one can be |
| TreeMarks.PassageMarks | src/btree.c:249-296 | what the marks of the parent's insert mean for the page that was cut: the half without the child is missed unless the parent's cut marks it, and nothing else is |
| Marks.CloseMarked | src/database.c:30-41 | the file after closing, page by page: what is marked is written, the rest is as before, holes are zero bytes, and it ends with the last marked page |
| Marks.RecoveredIff | src/pager.c:42-53 | what is read back is the store if the missed pages were marked before and otherwise no tree in any view; a cell is found in it if and only if it is in memory and its key is not in the interval of a missed page that is new |
| Marks.OldPagesHarmless | src/btree.c:249-296 | when only old pages were missed every row is still found, and nothing else |
| Marks.InsertThenReopen | src/btree.c:249-296 | an insert, then closing: the file holds a tree if and only if exactly the pages of `InsertMissed` had been marked; the rows found as above |
| Marks.FullRootMissed | src/btree.c:249-296 | below a full root: the new page when the leaf is in the lower half, otherwise none |
| Marks.FullPageMissed | src/btree.c:249-296 | below another full page whose parent has room: the new page when the leaf is in the lower half, otherwise the old one, but none if its separator was lowered |
| Failures.LoseUpperHalf | src/btree.c:249-296 | a literal tree and an insert after which there is a tree in memory, and none, in any view, in the file |
| Rows.SerializeField | src/schema.c:6-15 | exactly the field's bytes change, to the number or the cut and padded text |
| Rows.FieldBytesAre | src/schema.c:6-15 | four bytes with the lowest first, or at most 31 bytes of the text and then zero bytes up to 32 |
| Rows.FieldRoundTrip | src/schema.c:6-21 | reading the bytes of a written field gives the number, or the text cut to 31 bytes, back, wherever the field lies in the row |
| Rows.SerializeRow | src/schema.c:23-31 | the buffer ends up as the concatenated fields, whatever it held |
| Rows.RowRoundTrip | src/schema.c:6-31 | reading a field of a packed row gives the value back; only texts of 32 or more bytes are cut |
| Rows.FieldsDisjoint | src/statement.c:203-204 | fields laid out by CREATE do not overlap |
| Rows.HashString | src/schema.c:45-51 | 5381 and the signed characters times the powers of 33 of their places, added up modulo 2^32 |
| Rows.HashWraps | src/schema.c:45-51 | wrapping at every step equals the unbounded polynomial modulo 2^32 |
| Rows.InsertKeyMatches | src/statement.c:119-129 | a packed row is stored under the number in its own first column, or the hash of the text there |
| Rows.UpdateRow | src/statement.c:719-736 | masked fields take the new values, the others keep theirs; the key becomes the new number in the first column or the hash of the new text, or stays |
| Rows.UpdateKeyMatches | src/statement.c:726-734 | stored key and first column still agree after an update |
| Rows.AddFieldValid | src/statement.c:195-204 | adding a column keeps sizes and prefix-sum offsets right |
| Rows.HalvesFit | src/btree.c:73-75 | for every schema CREATE can build both halves of a leaf split hold at least four cells and fit a page |
| Rows.SplitBufferFits | src/btree.c:347-349 | a leaf takes as many cells as fit behind its 14 bytes of header; one page holds max_cells + 1 cells iff a full leaf lacks at most 14 bytes for one more |
| Rows.SplitBufferExamples | src/btree.c:347-349 | it does for a single number, it does not for a number and a text |
| Catalog.FindTable | src/database.c:61-68 | the search of the specification |
| Catalog.FindFirst | src/database.c:61-68 | which is the first table of that name, none iff there is none |
| Catalog.CreatedTableFound | src/statement.c:167-168 | a created table is found again iff its name has fewer than 32 characters |
| Parser.LexAdvances | src/statement.c:29-75 | every token consumes at least one character |
| Parser.LexMeans | src/statement.c:29-64 | a token, byte by byte: which bytes are white space, which stand alone, what quotes enclose and where a word ends |
| Parser.Keywords | src/statement.c:77-83 | a keyword is recognised exactly when it is spelled letter by letter, each in either case |
| Parser.Tokenizer.Scan | src/statement.c:29-64 | the token at the pointer and where the next one may start |
| Parser.Tokenizer.Consume | src/statement.c:29-75 | pointer and token list after one token, the end of the line and the limit of 128 included |
| Parser.Tokenizer.Expect | src/statement.c:77-83 | comparison without regard to case |
| Parser.DecimalRoundTrip | src/statement.c:119-120 | printing a number and reading it with atoi gives it back |
| Parser.PrepareInsert | src/statement.c:85-142 | the outcome of the specified parser for every line, errors included |
| Parser.InsertRoundTrip | src/statement.c:85-142 | an INSERT with keywords in any case, plain name, ints below 2^31 and quote-free texts below 32 bytes, and anything behind it, parses back to exactly those values; the key is the number in the first column, or the hash of the text there |
| Parser.PrepareCreate | src/statement.c:144-218 | the outcome of the specified CREATE parser for every line |
| Parser.CreateIsValid | src/statement.c:173-217 | every accepted CREATE has packed offsets, at most 16 columns, and names that fit |
| CreateText.CreateRoundTrip | src/statement.c:144-218 | a CREATE with keywords in any case and plain names parses back to exactly its name and schema, sizes and offsets included; int in any case is a number, any other type word a text |
| CreateTokens.CreateAccepted | src/statement.c:144-218 | a line is accepted if and only if its tokens are the head and a list of at most 16 columns that is closed or cut short where a name may follow; name and columns are those of the tokens |
| CreateTokens.UnclosedCreate | src/statement.c:173-177 | without a closing parenthesis: accepted iff the tokens end right after the opening one or after a comma |
| CreateTokens.CutCreate | src/statement.c:173-217 | one literal line cut at three places: accepted without columns, refused, accepted with one of four bytes |
| CreateTokens.CreateRefused | src/statement.c:144-218 | the exact condition of each other outcome: first word, name taken, catalog full; everything else is a syntax error |
| InsertTokens.InsertOutcome | src/statement.c:85-142 | every outcome of an INSERT from its tokens: unrecognized, no such table, a text too long as the first fault of the value list, success with the values and the key of the tokens, and otherwise a syntax error |
| InsertTokens.AtoiMeans | src/statement.c:119-120 | white space, a sign and decimal digits are read, what follows does not count |
| InsertTokens.NegativeKey | src/statement.c:119-120 | a negative number in a uint32_t |
| Statements.ParsedInsert | src/statement.c:114-136 | what an accepted INSERT holds is what execution asks for |
| Statements.ParsedCreate | src/statement.c:160-217 | the same for CREATE |
| Statements.InsertLine | src/statement.c:85-142 | parsing and executing a line adds the parsed row or reports why not; a rejected line changes nothing; exactly an insert that is not sound breaks the table, and never another one |
| Select.TableStart | src/database.c:43-59 | the leaf that first children lead to, and the pages on the way there; in a tree the first of the chain |
| Select.ScanStart | src/statement.c:512-517 | where the scan begins: at that leaf, or where find_node comes to |
| Select.JudgeRight | src/statement.c:631-642 | printing, skipping and breaking off go on with the rows that the scan is to print, whatever the order of the keys |
| Select.ScanTurn | src/statement.c:618-661 | one turn of the loop: next leaf, next cell or stop, with progress |
| Select.ExecuteSelect | src/statement.c:508-665 | for every table that stands: without a condition the chain from the starting point on, for `<` up to the first key that is not less, for `=` the run of equal keys, for `>` exactly the greater keys in chain order; in a tree the matching rows of the full scan, fetching without a condition the pages on the way to the first leaf and all leaves |
| Select.WholeTable | src/statement.c:618-661 | all rows are printed if and only if no cell lies in a leaf before the starting point |
| Select.FilterKeeps | src/statement.c:631-642 | of any list of cells each matching one is kept, once, in its place |
| Select.MatchesMeans | src/statement.c:631-642 | of `=`, `>` and `<` exactly one holds; `<` is closed downwards and `>` upwards |
| Select.FilterExact | src/statement.c:631-642 | all matching cells, nothing else, in ascending order |
| Box.Padded | src/statement.c:610 | the text, and then spaces up to the width |
| Box.CellTextShows | src/statement.c:527-570 | what is measured and printed of a column shows its field: the digits of the number without leading zeros, which atoi reads back, or the text, and then only spaces |
| Box.MeasureRows | src/statement.c:527-570 | each width is the largest of the column's name and of its texts in the selected rows, and is attained |
| Box.SelectBox | src/statement.c:519-615 | for every table that stands both passes see the rows of the plain mode, and every printed column shows its field in exactly its column's width |
| Tables.ListingUnique | src/statement.c:618-661 | the answer of a SELECT is determined by the map and the condition |
| Tables.InsertedEntry | src/statement.c:447-469 | an INSERT adds one entry that reads back as its values, under the number in the first column or the hash of the text there |
| Tables.UpdatedEntry | src/statement.c:710-747 | an UPDATE moves one entry to its new key; written columns read back as the new values, the others as before |
| Tables.TwoNumbers | src/statement.c:447-469 | two INSERTs of different numbers into an empty table both succeed, of the same number only the first |
| Tables.MapOfCells | src/statement.c:447-469 | the cells of a table are the entries of its map |
| TablesOnPages.Lookup | src/statement.c:452-461 | the key is in the map iff it sits at the cursor, with that row |
| TablesOnPages.CursorMeans | src/statement.c:710-718 | the row under a cursor that holds the key is the map's row, and the key is the one derived from its first column |
| TablesOnPages.OtherTable | src/btree.c:336 | a change to one table writes no page of another, and leaves its map, its tree and its place in memory alone, whether or not either table is in order |
| TablesOnPages.TableAdded | src/statement.c:686-708 | a table on the next free page is empty and disturbs no other |
| Databases.Database.Open | src/database.c:13-28 | the catalog and pages of the file, or an empty catalog with page 0 to be written |
| Databases.Database.ExecuteInsert | src/statement.c:447-469 | duplicate iff the key is in the map, and then no page changes; otherwise the map gains exactly the packed row; the table stops being a tree exactly when the key is new and the insert is not clear; other tables are as before in any case |
| Databases.Database.ExecuteDelete | src/statement.c:667-684 | not found iff the key is absent, otherwise the map loses exactly that key; other tables are as before |
| Databases.Database.ExecuteUpdate | src/statement.c:710-747 | not found iff the key is absent; otherwise the row changes as the mask says and moves to its new key if the search for that ends beside it, and the table is a tree no more if it does not; other tables are as before in any case |
| Databases.Database.ExecuteCreate | src/statement.c:686-708 | the catalog gains an empty table on a fresh page, every other page unchanged |
| Databases.Database.ExecuteSelect | src/statement.c:508-665 | the listing of the map; of a table that is no tree the rows from where the scan begins, which are the whole chain as long as it begins there |
| Databases.Database.ExecuteSelectBox | src/statement.c:519-615 | the same rows in box mode, every column showing its field in exactly its column's width |
| Databases.Database.Execute | src/statement.c:749-774 | each statement on a table in order gives the specified answer; a sound one acts on the catalog of maps as specified, each other one leaves exactly its own table without a tree. On any table the answer is what find_node or the scan comes to, one cell is put, taken or changed in its place, and no page outside the table is written |
| Databases.Database.Blocked | src/statement.c:749-774 | decides whether a statement on a table in order is sound; an insert that is not implies an earlier delete |
| Tables.AfterAgree | src/statement.c:749-774 | maps that agree with the specification but for ruined tables still do after a statement that changes no table but its own |
| Databases.Database.Run | src/statement.c:749-774 | whole runs, to the end: every statement on a table that no unsound one has met so far gives the specified answer, these tables have a tree after every statement and end as the specified maps; a table drops out exactly at an unsound statement of its own, which for an INSERT follows a DELETE; before and after that, each statement does and answers what find_node or the scan comes to in the pages it finds |
| Databases.Database.VerifyTable | src/btree.c:155-158 | the self-check returns true exactly when every page it reaches is right, whatever ran before, and so for every table in order |
| Databases.ShallowTable | src/btree.c:249-390 | every table in order in a file of 1000 pages, with deletes or without, is balanced and at most two internal levels high |
| Databases.Database.SaveCatalog | src/database.c:7-11 | page 0 holds the catalog and is dirty |
| Databases.Database.Flush | src/pager.c:42-53 | a dirty page is written at its place, a clean one is not |
| Databases.Database.Close | src/database.c:30-41 | the file ends up as catalog and pages in memory, although only dirty pages are written |
| Databases.Reopen | src/database.c:13-41 | closing and opening again recovers the catalog and every table's map |
| Paging.Pager.constructor | src/pager.c:7-27 | an empty pool over the file |
| Paging.Pager.Flush | src/pager.c:42-53 | a dirty resident page is written and becomes clean, nothing else happens |
| Paging.Pager.FindVictim | src/pager.c:60-70 | an unpinned resident page of smallest timestamp, none iff there is no candidate |
| Paging.VictimUnique | src/pager.c:60-70 | before the timer wraps the victim is older than every other unpinned resident page |
| Paging.Pager.Evict | src/pager.c:60-82 | the victim leaves the pool, written first if dirty, and accounting is kept |
| Paging.Pager.GetPage | src/pager.c:57-103 | the last content given to the page; pinned pages keep their frames; fails iff the pool is full of pinned pages; num_pages, pins, timestamps as specified |
| Paging.Pager.MarkDirty | src/pager.c:55 | from now on the page's content counts |
| Paging.Pager.Unpin | src/pager.c:31-34 | one pin less, not below zero |
| Paging.Pager.UnpinAll | src/pager.c:36-40 | no pins |
| Paging.Pager.Close | src/pager.c:105-119 | the file equals the flat page array |
| Paging.Pager.CloseDatabase | src/database.c:32-37 | so it does when only the pages below num_pages are flushed |
| PagingRuns.Perform | src/pager.c:29-103 | each operation of the pool is the one of the flat array |
| PagingRuns.Replay | src/pager.c:29-103 | over any run get_page returns the last content given to the page; pinned pages never exceed the frames; a run stops only at a page that is not pinned while every frame is |
| PagingRuns.Session | src/pager.c:7-119 | from opening to closing: every page fetched shows what it was last given, or what the file held, and the file ends up holding in every page what that was last given |
| PagingRuns.ContentGiven | src/pager.c:57-103 | the flat array holds in every page what it was last given, and otherwise what it began with |
| PagingRuns.PinsAndFrames | src/pager.c:57-78 | pinned pages are resident; fewer pins than frames leave something to evict |
| PagingRuns.FetchAll | src/pager.c:57-103 | pages fetched one after another without an unpin go through if and only if the pool has a frame for each page pinned before or fetched |
| PagingRuns.FreshPins | src/pager.c:57-78 | different pages none of which is pinned count in full: their number is added to that of the pinned pages |
| ScanPins.FullScanPages | src/statement.c:618-661 | a scan of all rows fetches as many different pages as there are leaves and levels above them |
| ScanPins.FetchScan | src/statement.c:508-665 | it goes through if and only if these together with the pages pinned before do not exceed the frames, and leaves all of them pinned; over pages pinned already it always does |
| PagingRuns.InternalSplitTooLarge | src/btree.c:272-276 | the split of a full internal page fetches 255 children, which together with what is pinned already exceed the 100 frames |
| Lru.RecentMeans | src/pager.c:100 | a page stands in the recency list behind exactly the pages accessed after it |
| Lru.AccessAll | tests/unit_tests.c:84-104 | if every page is unpinned before the next, the pool holds exactly the pages with fewer distinct pages accessed since than there are frames, and it has faulted exactly at the accesses to pages that were not among these |
| Lru.HeldMeans | src/pager.c:60-70 | the front of the recency list are the pages since whose last access few distinct pages came |
| Lru.FaultsMeans | src/pager.c:57-103 | the faults counted are the accesses to pages that were not accessed lately |
| Lru.FirstGoes | tests/unit_tests.c:87-97 | fetching one page more than there are frames evicts the first page and no other |
| Lru.VictimIsLast | src/pager.c:60-70 | the victim is the last of the recency list that is held |
| Lru.Inclusion | src/pager.c:57-103 | a smaller pool holds a part of what a larger one holds and has no fewer faults |

## Left out

- TreeStray.StrayRows: not for a parent that is full itself, where the cascade has gone on upwards.
- Databases.Database.Whole: whether an INSERT into a table that is no tree keeps the starting point of a scan is not decided in advance; `Select.WholeTable` says what the scan then prints.
- Btree.PageStore.InternalNodeInsert: models the repaired code; the code as written is in AsWritten.
- Marks.InsertThenReopen: one insert between opening and closing, over any earlier marks; the statements of `Database` use the full marks.
- ScanPins.FetchScan: the scan without a condition; the others fetch a part of the same pages.
- Parser.PrepareInsert: atoi of a number that does not fit an int is undefined in C and taken modulo 2^32 here; a line is a sequence of bytes without a zero byte.
- Paging.Pager.GetPage: the exit of the program for want of a frame is a null result; a page that was never dirtied has arbitrary content; fewer than 2^32 pins of one page.
- Lru.AccessAll: runs of fewer than 2^32 - 1 accesses, before the timer wraps; `Paging.Pager.GetPage` itself covers the wrapping timer.
- How many pages a single INSERT, UPDATE or DELETE fetches is not counted: of whole operations only the full scan and the split of an internal page are.
- Tree and pool are proved separately: the tree works on a page store that never evicts, because the split of an internal page pins more pages than the pool has frames.
- Byte offsets inside node headers and pointer casts: nodes are typed values whose cells are sequences, rows are bytes; only `AsWritten.InternalPage` has the cells of a page in arrays that are changed in place.
- File descriptors, seek, partial writes and I/O errors: the file is a map from page numbers to contents.
- The number of pages of a table's tree is not bounded by 1000; EXECUTE_TABLE_FULL is never returned by the source.
- BEGIN, COMMIT and ROLLBACK only print or save the catalog.
- The parsers of SELECT, DELETE and UPDATE repeat the shape of the INSERT parser; deserialize_row for text is a stub.
- Memory management, the interactive shell, message printing and box-drawing characters.
- Uniqueness of text primary keys as strings: the engine knows them by their hash.
