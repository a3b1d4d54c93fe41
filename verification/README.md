# OpenERP core structures in Dafny

OpenERP 6.1 keeps several fast structures that must agree with simple ones. This project models
them and proves that they do.

* **The nested-set index** of hierarchical tables (`Forests`, `NestedSets`, `Listings`,
  `Placements`, `Numbering`, `HierarchyOperations`, `HierarchyTables`): two integer columns in which nesting of intervals
  is ancestry. `HierarchyTable` is the table, with one map for each column (a missing key is NULL);
  its methods are the recomputation, creation, parent-changing write and deletion. Over every run
  of these the columns index the parent forest, except in two cases of the write, which are pinned
  down exactly. `RecursionChecks` is the constraint check for parent cycles.
* **The domain compiler** (`Domains`, `DomainOperations`, `Negation`, `Sql`, `LeafCompiler`,
  `LeafMeaning`, `DomainTruth`, `ChildOfDomains`, `Rewritings`, `Expressions`): prefix-notation domains to SQL
  conditions in three-valued logic. `Expression` is the class with the rewriting loop and the stack
  printer; a condition is a tree whose comparisons hold placeholders, and the parameters are a
  separate list, as in the source.
* **The module graph and loader** (`Names`, `ModuleGraphs`, `ModuleLoading`).
* **The cron wake-up queue** (`Wakeups`, `CronRunner`): a heap with cancellation in place and a map
  beside it, refining a plain map from database to earliest timestamp.
* **The connection pool and its cursors** (`ConnectionPools`).
* **The FROM-clause builder** (`QueryBuilder`), and a reader of the clauses it builds (`FromTexts`).
* **The text markup reader** of the charts (`TextMarkup`), and a writer of the markup (`TextCommands`).
* **Inherited fields** of models (`InheritedFields`) and **copies of records** with their lines
  (`RecordCopies`).

What the source does step by step is a method on a class or a loop here, proved against a
specification; what that specification promises is proved in lemmas. Every parameter that stands
for something outside (the configuration, a clock, what jobs or data files do, whether
a connection can be made) is universally quantified.

## Where the code does not do what it seems to

* `write` takes position 1 for "first root" (openerp/osv/orm.py:4016-4017), but
  `_parent_store_compute` numbers from 0 (openerp/osv/orm.py:2658). A record made the first root of
  such a table is indexed inside the old first root. `HierarchyTable.Write` gives the exact
  condition.
* A write of several records may place one after a sibling that has not been moved yet, under the
  wrong parent (`TiesMayMisplace`), if and only if two of the records moved have the same key
  (`TiedListings`, `MisplacedForGood`, `LandsWellExactly`); it may then also
  report a cycle where there is none (`TiesMayLookLikeACycle`). Ties
  with rows that are not moved leave open only which root comes first in a table numbered from 0.
* `OR` of domains that are all FALSE_DOMAIN returns the empty domain, which reads as true.
* In list terms 0 is dropped along with False (openerp/osv/expression.py:690-693), and None, or
  False on a boolean column, is only sometimes right: `ListExactness` says when.
* Comparisons do not test for NULL, so `!=`, and the negation of any other comparison, miss rows
  with NULL: `ScalarExactness`.
* A `!` inside a negated expression makes `distribute_not` fail; the range form of `child_of` with
  no ids deletes the term and leaves a list that cannot be printed.
* The recursive form of `child_of` does not end for an id on a parent cycle (`ListsForEver`,
  `RecursionEndsExactly`), and takes 0 or False for "no parent" (`HungUnderNone`), where the range
  form raises.
* After the round for modules to install, `load_modules` does not go back to installed modules
  whose dependency has only just been loaded (`InstalledIsLeftOut`); `TwoRounds` says exactly when
  it leaves none out.
* The model an `_inherit_fields` entry names as the original one is not always the one the join walk
  ends at (`RepeatedColumnMisleads`); `OriginalsAreOwnersExactly` gives the schemas where it is.
* The colour escape of the markup does not end a segment, so the characters before it take its
  colour, and the number after it is the level itself, not hundredths as the comments say
  (openerp/pychart/font.py:68-69); the oblique escape adds a `q` to the modifiers, so nothing is ever oblique; a number after
  `/c` at the end of the string raises.
* `_check_recursion` does not end for a record that hangs below a cycle it is not part of
  (`ClimbsForEver`, `StopsExactly`), and it takes a parent and a child checked together for a cycle
  (`ParentAndChild`, `BatchExactly`).

## Model

| member | source | states |
|---|---|---|
| NestedSets.RangeIsAncestry | openerp/osv/expression.py:371-384 | On indexed columns, left(a) <= left(x) < right(a) exactly if x is a or a descendant of a. |
| NestedSets.IndexedIsAcyclic | openerp/osv/orm.py:4022-4023 | A parent map that some columns index has no cycle. |
| NestedSets.IndexDeterminesForest | openerp/osv/orm.py:2638-2662 | No two parent maps fit the same endpoints: the columns alone determine the forest. |
| NestedSets.CutAfterSibling | openerp/osv/orm.py:4007-4012 | The position just after the end of a row lies directly under that row's parent. |
| NestedSets.OpenGapKeepsIndex | openerp/osv/orm.py:4218-4219 | Shifting every endpoint from a cut on keeps the index of the whole table, frees the gap and keeps the cut under its owner. |
| NestedSets.RelocateKeepsIndex | openerp/osv/orm.py:4025-4032 | Moving the interval block of a row into a free gap under another row indexes the forest in which that row, and no other, has the new parent. |
| NestedSets.InsertKeepsIndex | openerp/osv/orm.py:4218-4220 | A row put into a gap of two under its parent is indexed as a leaf there, and all other rows as before. |
| NestedSets.RestrictKeepsIndex | openerp/osv/orm.py:3753-3755 | Deleting rows with everything below them keeps the index of the rest; gaps in the numbers are legal. |
| NestedSets.RelocateKeepsOrder | openerp/osv/orm.py:4007-4032 | A block moved to a position between the smaller and the larger keys of its new siblings keeps the children of every record in key order. |
| NestedSets.InsertKeepsOrder | openerp/osv/orm.py:4203-4220 | The same for a new row. |
| Listings.SelectOrdered | openerp/osv/orm.py:2645-2649 | A listing has exactly the selected ids, each once, in ascending key order. |
| Placements.CreateKeepsIndex | openerp/osv/orm.py:4198-4220 | The two shifts and the insertion of create, at a cut under the parent, give an index of the forest with the new row, in order if the cut was. |
| Placements.MoveKeepsIndex | openerp/osv/orm.py:4025-4032 | Opening the gap and shifting the block, in either direction, indexes the forest with the row under the owner of the position. |
| Placements.BlockPlaced | openerp/osv/orm.py:4025-4032 | A block moved to the position just after a row's end starts there, for a root too; inside the block all distances stay, and of the other numbers exactly those from that position on go up by the width. |
| Placements.CutAtOne | openerp/osv/orm.py:4015-4017 | Position 1 lies at the root level if no row is numbered from 0, and otherwise directly inside that row. |
| Placements.MovePositionInOrder | openerp/osv/orm.py:4004-4012 | With strict keys, the insertion point found separates the new siblings with smaller keys from those with larger ones. |
| Placements.ProgressStep | openerp/osv/orm.py:3995-4032 | One pass of the write loop keeps the state of the loop: after k records the columns index a forest in which the rest have their old parent and, where positions are right, the first k have the new one. |
| Placements.StepFindsCycle | openerp/osv/orm.py:4022-4023 | When no two of the records to move have the same key, a pass finds its insertion point inside the moved block only if the final parent map has a cycle. |
| Placements.SettledIndex | openerp/osv/orm.py:3995-4032 | When no two of the records to move have the same key and none of them may come before all roots of a table numbered from 0, the indexed forest after k passes is the old one with exactly the first k records reparented. |
| Placements.ProgressDone | openerp/osv/orm.py:3995-4032 | After the last pass the index fits the final parent map under that condition, and provably does not if a record was moved before all roots of a table numbered from 0; with distinct keys among the moved records that map has no cycle. |
| Placements.LandsWellExactly | openerp/osv/orm.py:4004-4020 | That condition, which a caller can check before the write, is exact: it holds if and only if no record to move can be listed after something that puts it under another parent than the new one. |
| Placements.TiedMayFollow | openerp/osv/orm.py:4004-4012 | Of any two records to move with equal keys, each may be placed after the other while that one is still under its old parent. |
| Placements.PrecedesIsListed | openerp/osv/orm.py:4004-4012 | Whatever may come before a record is directly before it in some listing of its siblings in key order. |
| Placements.TiedListings | openerp/osv/orm.py:3995-4012 | For any two records to move with equal keys there are listings in which the first is moved before the second and has it as its previous sibling. |
| Placements.PlacedStep | openerp/osv/orm.py:3995-4032 | A later pass leaves every record where an earlier one has placed it. |
| Placements.MisplacedForGood | openerp/osv/orm.py:3995-4032 | Once a pass has placed a record after one still to be moved, the columns after the last pass do not index the final forest. |
| Placements.PositionOneMayBeInsideARoot | openerp/osv/orm.py:4016-4017 | A table as _parent_store_compute numbers it, in which making a child the first root leaves it inside its old root's interval. |
| Placements.TiesMayMisplace | openerp/osv/orm.py:4004-4012 | A table in which the moves of two records with equal keys, the second one listed first for the first move, end in columns that have one of them under the other and do not index the table. |
| Placements.TiedListing | openerp/osv/orm.py:4004-4012 | That table is indexed, and the listings in question are in key order. |
| Placements.TiesMayLookLikeACycle | openerp/osv/orm.py:4004-4023 | A table in which a record and one below it, moved together with equal keys, may make the write stop although the final parent map has no cycle. |
| Numbering.JoinNumbered | openerp/osv/orm.py:2650-2652 | Two batches of subtrees numbered one after the other are indexed together, with consecutive numbers and siblings in order. |
| Numbering.WrapNumbered | openerp/osv/orm.py:2653-2654 | A record numbered around the numbers of everything below it is indexed with them. |
| Numbering.CoveredIsRooted | openerp/osv/orm.py:2655-2662 | What is numbered from the roots is exactly the rows that end at a root. |
| Numbering.RecomputeDone | openerp/osv/orm.py:2638-2662 | Without a parent cycle the recomputation indexes the whole table, with the children of every record in key order. |
| HierarchyTables.HierarchyTable.FindCreatePosition | openerp/osv/orm.py:4202-4217 | The position for a new row is directly under its parent, after its last sibling with a smaller key; for a root, after the whole table. |
| HierarchyTables.HierarchyTable.IndexNew | openerp/osv/orm.py:4198-4220 | A row just inserted gets two numbers at the position found, all later numbers move up by two, and the table is indexed and ordered again. |
| HierarchyTables.HierarchyTable.Create | openerp/osv/orm.py:4198-4220 | Refused exactly if the parent does not exist; otherwise keeps the index for every parent, changes the columns by the two shifts and the new cells only, and keeps siblings in order when keys are strict. |
| HierarchyTables.HierarchyTable.FindMovePosition | openerp/osv/orm.py:4004-4020 | The insertion point of a moved row: after the sibling listed before it, else at the start of its parent, else position 1; and the row under which that really lies. |
| HierarchyTables.HierarchyTable.Relocate | openerp/osv/orm.py:4025-4032 | Both branches of the UPDATEs shift the block of the row to the position and make room for it, wherever the block was. |
| HierarchyTables.HierarchyTable.MoveOne | openerp/osv/orm.py:3995-4032 | One pass of the loop refuses exactly if the new place is inside the moved subtree; otherwise the block starts directly after the end of the sibling found, else after the start of the parent, else at 1, is carried as a whole, and the other rows make room for it: an index of the forest with the row moved. |
| HierarchyTables.HierarchyTable.MovePass | openerp/osv/orm.py:3995-4032 | The pass for the k-th record takes the state of the loop to k + 1, with the record placed after the sibling found, or stops, with nothing changed, at a cycle if no two moved records have the same key. |
| HierarchyTables.HierarchyTable.MoveAll | openerp/osv/orm.py:3995-4032 | The loop keeps, after each record, an index of the forest with the records so far placed where their previous siblings were; it stops only at a cycle if no two moved records have the same key, keeps siblings in order, and no row gets number 0 that had not. |
| HierarchyTables.HierarchyTable.Write | openerp/osv/orm.py:3875-4032 | Refused exactly for a missing record or a missing parent, nothing changed; else, if no two moved records have the same key, RecursivityDetected exactly if the final parent map has a cycle; the columns then index that map unless a moved record may come before all roots of a table numbered from 0, and with strict keys they fail to in exactly that case; order is kept, and a table not numbered from 0 stays so. |
| HierarchyTables.HierarchyTable.Reindex | openerp/osv/orm.py:3985-4032 | The same for existing records and an existing parent. |
| HierarchyTables.HierarchyTable.NumberAll | openerp/osv/orm.py:2651-2652 | Numbers the listed records and everything below them, once each, consecutively and in order, and nothing else. |
| HierarchyTables.HierarchyTable.NumberNext | openerp/osv/orm.py:2651-2652 | The next record listed and everything below it are numbered from where the last one ended, and nothing else is changed. |
| HierarchyTables.HierarchyTable.NumberSubtree | openerp/osv/orm.py:2642-2654 | The same for one record; the recursion ends for every table, cycles included. |
| HierarchyTables.HierarchyTable.ParentStoreCompute | openerp/osv/orm.py:2638-2662 | Numbers 0 to 2n - 1 over exactly the rows that end at a root; without cycles that is an index of the table. |
| HierarchyTables.HierarchyTable.Unlink | openerp/osv/orm.py:3753-3755 | Deletes exactly the records and what is below them, and keeps index and order. |
| HierarchyTables.HierarchyTable.Do | openerp/osv/orm.py:3875-4220 | One creation, write (rolled back if it would close a cycle) or deletion, in a table with no row numbered 0 and no two equal keys among the records moved: the new forest is the one the plain operation gives, and it is indexed. |
| HierarchyTables.HierarchyTable.Run | openerp/osv/orm.py:3875-4220 | The same for every sequence of operations: the columns index the forest that the plain operations give, and keep siblings in order if keys stay distinct. |
| HierarchyOperations.StrictIsClear | openerp/osv/orm.py:4004-4012 | A run in which no two records ever have the same key meets the condition of every operation. |
| Forests.MovedAboveTargetIsCycle | openerp/osv/orm.py:4022-4023 | If the new parent lies below one of the moved records at any point of the loop, moving all of them closes a cycle. |
| RecursionChecks.CheckRecursion | openerp/osv/orm.py:4812-4827 | Wherever the loop stops it answers True exactly if no record of the batch has one of the batch above it. |
| RecursionChecks.BatchExactly | openerp/osv/orm.py:4812-4827 | For a batch the answer says whether a record of it is on a cycle if and only if one is, or none of them is above another. |
| RecursionChecks.StopsExactly | openerp/osv/orm.py:4812-4827 | The loop stops if and only if some record of the batch has one of the batch above it, or no record of the batch has a cycle above it. |
| RecursionChecks.StopsForOneExactly | openerp/osv/orm.py:4812-4827 | For one record it stops if and only if every cycle above the record leads back to it, and then answers whether the record is on a cycle, whatever other cycles the table has. |
| RecursionChecks.CycleThrough | openerp/osv/orm.py:4812-4827 | If only the parent of one record has changed in a table without cycles, every cycle goes through that record. |
| RecursionChecks.OneChangeIsSeen | openerp/osv/orm.py:4812-4827 | After such a change the check of that record stops and answers whether the table has a cycle at all. |
| RecursionChecks.ClimbsForEver | openerp/osv/orm.py:4812-4827 | From a record below a cycle that it is not on, the climb neither ends nor comes back. |
| RecursionChecks.ParentAndChild | openerp/osv/orm.py:4819-4826 | A parent and its child checked together are answered False in a table without any cycle. |
| InheritedFields.Registry.Reload | openerp/osv/orm.py:3259-3274 | Ends on every acyclic schema, diamonds included; changes entries only at the model and what inherits from it, all of which end up equal to what their parents give, while fresh models stay so. |
| InheritedFields.Registry.ReloadSrc | openerp/osv/orm.py:3252-3256 | After k models have been looked at, each model under the changed one is fresh or still waits for a child not looked at yet. |
| InheritedFields.FirstWaits | openerp/osv/orm.py:3259-3274 | Recomputing one model leaves stale at most the models that inherit from one of its children. |
| InheritedFields.ReloadingIsEnough | openerp/osv/orm.py:3252-3274 | If only the changed model and those under it were stale, afterwards no model is. |
| InheritedFields.TakenIsUnion | openerp/osv/orm.py:3265-3271 | The entries computed have exactly the fields that some parent has as a column or inherits. |
| InheritedFields.TakenFromParent | openerp/osv/orm.py:3265-3271 | Each entry names a parent that has the field, with the column that refers to it. |
| InheritedFields.InheritsWhatIsAbove | openerp/osv/orm.py:3259-3274 | In a fresh registry a model inherits a field exactly if some model above it has it as a column. |
| InheritedFields.OriginalOwns | openerp/osv/orm.py:3270-3271 | The model an entry says its field comes from has it as a column and lies above. |
| InheritedFields.EntryFollowsSchema | openerp/osv/orm.py:3265-3271 | In a fresh registry the entry of a field names the last parent that has it as a column or has a model above it that does. |
| InheritedFields.OriginalsAreOwnersExactly | openerp/osv/orm.py:3265-3271 | Every entry names as the original model the one whose table is joined if and only if no model takes a field from a parent that has it as a column below another model that has it. |
| InheritedFields.RepeatedColumnMisleads | openerp/osv/orm.py:3265-3271 | c inherits from p and p from g, which both have f: the entry of c names g, and the join ends at p. |
| InheritedFields.Registry.JoinCalc | openerp/osv/orm.py:2621-2636 | The walk up ends at the model that the schema alone decides: at each step by way of the last parent that has the field or inherits it, up to one that has it as a column; it has the column if the field is known at all, and the model the entry names as the original is that one exactly if no model above it has the column too. |
| RecordCopies.Copier.CopyData | openerp/osv/orm.py:4614-4704 | Ends on every cyclic structure; sees exactly new existing records, each once, reached from the record, with all their lines; None exactly for a record seen before; the copy has every field that is not given, in order, and lists the newly seen records. |
| RecordCopies.Copier.CopyLines | openerp/osv/orm.py:4672-4687 | The lines of a field are copied in ascending order of their ids, those seen before left out. |
| RecordCopies.SeenIsReached | openerp/osv/orm.py:4631-4634 | When the lines of all records seen are seen, these are the records reached, and none of them is missing. |
| RecordCopies.Copier.Duplicate | openerp/osv/orm.py:4752-4773 | A copy from scratch has exactly the records reached through copied one2many fields, each once; it fails exactly if one of them does not exist. |
| Domains.FlatInjective | openerp/osv/expression.py:780-796 | A token list is the prefix notation of at most one expression. |
| DomainOperations.Normalize | openerp/osv/expression.py:164-185 | The loop with its pending count computes one & fewer than there are expressions in front, or fails its assertion. |
| DomainOperations.NormalizeMeaning | openerp/osv/expression.py:164-185 | Any concatenation of complete expressions becomes one expression that means their conjunction. |
| DomainOperations.NormalizeAccepts | openerp/osv/expression.py:164-185 | Exactly the concatenations of complete expressions are accepted. |
| DomainOperations.NormalizeIdempotent | openerp/osv/expression.py:164-185 | Normalizing again changes nothing. |
| DomainOperations.Combine | openerp/osv/expression.py:187-215 | The zero as soon as it occurs; else operators in front of the domains that are neither empty nor the unit. |
| DomainOperations.CombinedMeaning | openerp/osv/expression.py:187-215 | What combine builds is one expression (or empty) for the conjunction or disjunction of the domains kept. |
| DomainOperations.AND | openerp/osv/expression.py:217-219 | AND of normalized domains means their conjunction, the empty result read as true. |
| DomainOperations.OR | openerp/osv/expression.py:221-223 | OR of normalized domains means their disjunction, under every valuation, if and only if one of them is not FALSE_DOMAIN. |
| Negation.DistributeNotExpression | openerp/osv/expression.py:258-319 | Succeeds exactly on expressions without a ! inside a negated one, and returns one expression. |
| Negation.NegatedMeaning | openerp/osv/expression.py:276-312 | The negated expression is the logical complement, if each leaf and its opposite are complementary. |
| Negation.PushedMeaning | openerp/osv/expression.py:313-319 | Pushing ! to the terms keeps the two-valued meaning under the same condition. |
| Sql.IsInCases | openerp/osv/expression.py:694-700 | SQL's IN is TRUE exactly on listed values and FALSE only where no NULL is around (section 9.1 of the PostgreSQL documentation). |
| LeafCompiler.DropFalse | openerp/osv/expression.py:687-693 | Deleting from the end while going through the indices keeps exactly the entries that do not equal False, in order, 0 included among those dropped. |
| LeafCompiler.LeafSqlSlots | openerp/osv/expression.py:655-777 | Every compiled term has as many parameters as placeholders, and no IN without an entry, which SQL does not allow. |
| LeafMeaning.NormalizeLeafMeaning | openerp/osv/expression.py:242-256 | Rewriting the operator of a term keeps what it selects. |
| LeafMeaning.EqualityMeans | openerp/osv/expression.py:714-761 | What = and != describe, value by value: None is NULL; False is NULL and, on a boolean, false; on a boolean 0 is False and any other number True; on an integer True is 1. |
| LeafMeaning.OrderMeans | openerp/osv/expression.py:748-761 | What the orders describe: on numbers theirs, with None and False as 0 and True as 1 on a declared column and None no value of id; on booleans false before true; NULL stands in no order. |
| LeafMeaning.ListMeans | openerp/osv/expression.py:242-256 | in describes what = describes of one entry, not in what it describes of none. |
| LeafMeaning.PrintsExactly | openerp/osv/expression.py:655-777 | Which terms have an SQL, by field, operator and operand alone: the field is known; a scalar goes with every operator but child_of, with in only as a boolean, and a boolean with id only where NULL is tested; a list goes with in, not in, = and != if its entries are of the column's type. |
| LeafMeaning.ListSqlTri | openerp/osv/expression.py:687-709 | The truth value of the SQL emitted for a list, by cases on the entries and the cell. |
| LeafMeaning.ListExactness | openerp/osv/expression.py:687-709 | The SQL for in and not in is TRUE on exactly the cells described, NULL included, for every cell of the column, if and only if the list is clean: no 0 for numbers, no False for booleans, and None only where NULL is tested anyway. |
| LeafMeaning.ScalarSqlTri | openerp/osv/expression.py:714-777 | The truth value of the SQL emitted for a scalar term. |
| LeafMeaning.ScalarExactness | openerp/osv/expression.py:714-777 | For each cell: the SQL of a scalar term, and of its negation, is TRUE on exactly the cells described if and only if the comparison tests for NULL or the cell is not NULL (the operators that need this listed). |
| DomainTruth.ReplacedFlat | openerp/osv/expression.py:408-489 | Replacing one term by one complete expression leaves one complete expression. |
| DomainTruth.ReplacedTruth | openerp/osv/expression.py:408-489 | If the replacement has the truth value of the term, the whole expression keeps its own. |
| DomainTruth.ReplacedAt | openerp/osv/expression.py:408-489 | The same where the truth of a term depends on the index it stands at, as it does with recorded tables. |
| DomainTruth.PushedTruth | openerp/osv/expression.py:258-319 | In three-valued logic the expression with ! pushed down is TRUE exactly where the original holds in two-valued logic, if its leaves are faithful under their sign. |
| DomainTruth.DeletedTermIsMalformed | openerp/osv/expression.py:377-385 | An expansion to nothing, as the range form of an empty list gives, leaves no readable expression. |
| DomainTruth.SuffixBalance | openerp/osv/expression.py:783-796 | Read from the right, an expression never runs short of operands. |
| DomainTruth.ShortIsMalformed | openerp/osv/expression.py:783-796 | If the stack runs short at an operator, the list was not one expression. |
| ChildOfDomains.RangeDomain | openerp/osv/expression.py:377-385 | The range form is one well-formed prefix expression exactly if the list of ids is not empty: the disjunction of the ranges. |
| ChildOfDomains.SearchChildren | openerp/osv/expression.py:387-391 | The records whose parent is in the list, an id 0 or False in it standing for no parent. |
| ChildOfDomains.RecursiveChildren | openerp/osv/expression.py:387-391 | Returns exactly the ids and everything below them, cycles or not; gives up exactly if there are records on more levels than calls may be nested. |
| ChildOfDomains.RecursionEndsExactly | openerp/osv/expression.py:387-391 | The recursion ends if and only if none of the ids is on a cycle, whatever cycles the table has elsewhere; then it has no more levels than there are records. |
| ChildOfDomains.ListsForEver | openerp/osv/expression.py:387-391 | From a record that is its own parent every level has a record; from another one in the same table the levels end. |
| ChildOfDomains.HungUnderNone | openerp/osv/expression.py:387-392 | child_of False, in this form, means the records that end at a root. |
| ChildOfDomains.RangeTruth | openerp/osv/expression.py:377-385 | On indexed columns the range form is TRUE on exactly the records below one of the ids, and never UNKNOWN. |
| Expressions.ChildOfFormsAgree | openerp/osv/expression.py:371-392 | The range form and the recursive form have the same truth value on every record, for every forest and non-empty list of ids. |
| Expressions.ExpandsExactly | openerp/osv/expression.py:386-392 | With room for as many nested calls as there are records, a child_of term is expanded in the recursive form exactly if none of its ids is on a cycle. |
| Expressions.Expression.ChildOfDomain | openerp/osv/expression.py:371-392 | The expansion of a child_of term is one expression, true on exactly the records below the ids; empty exactly for no ids in the range form; the recursive form fails exactly if it is nested too deep. |
| Expressions.Expression.ExpandChildOf | openerp/osv/expression.py:444-448 | Splicing the expansion in keeps one expression with the same truth values, and leaves less to be gone through. |
| Expressions.Expression.ParseTerm | openerp/osv/expression.py:410-457 | One pass of the rewriting loop at a plain or child_of term keeps the expression well formed, its truth values, and the recorded field tables aligned with the indexes, or fails on a term that cannot be compiled. |
| Expressions.Expression.Parse | openerp/osv/expression.py:408-489 | The rewriting loop, for plain and child_of terms, ends although it walks through its own expansions. |
| Rewritings.OnePut | openerp/osv/expression.py:408-653 | Whatever a branch puts in the place of a term: if it is one expression, the list stays one expression, every earlier term keeps the table recorded for it, and the truth is kept if the branch keeps it, a term left in place being read in the table recorded with it. |
| Rewritings.RewriteTerms | openerp/osv/expression.py:408-653 | For any answers of the branches, different from pass to pass, that put expressions in the place of terms and are worth fewer passes than the terms: the loop ends, the list is one expression, each term left stands at the index of the table recorded for it, and, each read in its table, they have the truth of the original. |
| Expressions.Expression.CompileWith | openerp/osv/expression.py:408-803 | The loop with any such branches and the printer after it, whatever tables the branches record: the list is always readable, printed exactly if all terms left have an SQL in their tables, its parameters match, and it has the truth value of the original expression under any reading that the branches keep. |
| Expressions.IdsInRecordedTable | openerp/osv/expression.py:431-434 | A list of ids left on the id where the table of an inherited field is recorded, as the branches for relations leave it, is read on the id of that table. |
| Expressions.SettledReads | openerp/osv/expression.py:431-439 | When every term has the table of its own field recorded, reading terms in recorded tables is reading them in the tables of their fields. |
| Expressions.BranchesFit | openerp/osv/expression.py:410-448 | The branches for plain and child_of terms are of this kind. |
| Expressions.Expression.PrintToken | openerp/osv/expression.py:784-796 | With the stack holding the conditions of the complete expressions to the right, each true where its expression is, read in the recorded tables, one token gives the stack for one token more; it fails exactly for want of operands or on a term without SQL in its table. |
| Expressions.Expression.ToSql | openerp/osv/expression.py:780-803 | For any list and any recorded tables: one item is left, and the text is printed, exactly if the list is one expression and every term has an SQL in the table recorded for it; which error is raised says which of the two fails; the k-th placeholder takes the k-th parameter, and the condition evaluates as the expression does with each term read in its table. |
| Expressions.Expression.Compile | openerp/osv/expression.py:351-358 | For the terms modelled, the whole compilation succeeds exactly on normalizable domains without a ! inside a negated expression whose terms are printable (PrintsExactly) or child_of terms that can be expanded; then the SQL has no IN without an entry and is TRUE on exactly the rows that satisfy the domain, on every row on which its leaves are clean. |
| Expressions.CleanIsFaithful | openerp/osv/expression.py:655-777 | A clean leaf is faithful under either sign, and for scalar terms only a clean one is. |
| Expressions.ChildOfMeans | openerp/osv/expression.py:371-392 | child_of an id, or ids, describes the records that are one of these or below one of them, False standing for no parent. |
| Expressions.NullAwareDomain | openerp/osv/expression.py:258-319 | For any domain over constants, child_of, comparisons with False or None, and in / not in lists without 0 and None (nor False on booleans), the SQL is TRUE on exactly the rows that satisfy it, NULL columns included. |
| Expressions.PushedSelects | openerp/osv/expression.py:258-319 | The same for any domain on a row on which its leaves are clean. |
| ModuleGraphs.LeastIsUnique | openerp/modules/graph.py:93-141 | The least set of requested modules closed under met dependencies depends on which modules are requested, not on their order. |
| ModuleGraphs.QueueAdds | openerp/modules/graph.py:112-127 | A module added belongs to every closed set, so the queue keeps aiming at the least one. |
| ModuleGraphs.QueueRotates | openerp/modules/graph.py:127-130 | Putting a module back at the end makes progress: later grows, or a module not tried since the last addition comes nearer. |
| ModuleGraphs.QueueDone | openerp/modules/graph.py:111-136 | When the loop ends, the graph is the least closed set and each module in later has a dependency that is not in it. |
| ModuleGraphs.NoMoreYet | openerp/modules/graph.py:118-126 | If no flag was set but old ones, those asked for some modules and those passed on to children, that is so with one module more. |
| ModuleGraphs.OneFather | openerp/modules/graph.py:61-65 | There is only one last deepest dependency. |
| ModuleGraphs.Graph.SetDepth | openerp/modules/graph.py:194-202 | Setting a depth reaches every child in turn and, in a consistent graph, changes one node only. |
| ModuleGraphs.Graph.SetFlag | openerp/modules/graph.py:194-200 | Setting an attribute sets it on what hangs below the node and nothing else, and ends. |
| ModuleGraphs.Graph.AddChild | openerp/modules/graph.py:183-192 | The new node is one deeper than its father, is added to the father's children once, and has the father's attributes; attributes stay passed on everywhere, and no other is set. |
| ModuleGraphs.Graph.FindFather | openerp/modules/graph.py:61-65 | The father is the last of the deepest dependencies. |
| ModuleGraphs.Graph.AddNode | openerp/modules/graph.py:60-69 | Adds the module with the depth its dependencies give it, as a child of the last deepest of them, whose attributes it gets; leaves an existing one and all other depths alone. |
| ModuleGraphs.Graph.SetWanted | openerp/modules/graph.py:121-124 | Sets the attributes asked for a module: the least set that holds these and the old ones and is passed on to children. |
| ModuleGraphs.Graph.AddModules | openerp/modules/graph.py:93-141 | Ends for every list and adds exactly the least closed set; later holds exactly the requested modules left out, each lacking a dependency; every attribute asked for an added module is set, and none but those, the old ones and those passed on to children; the result is the number of modules added. |
| ModuleGraphs.Graph.Iterate | openerp/modules/graph.py:144-152 | Every module once, by depth and by name within a depth. |
| ModuleGraphs.Sorted | openerp/modules/graph.py:148 | The names of a set, each once, in the order Python gives them. |
| Names.BeforeExactly | openerp/modules/graph.py:148 | A name is before another exactly if it is a proper prefix of it or has the smaller character where they first differ. |
| ModuleGraphs.DepthIsLongestChain | openerp/modules/graph.py:60-69 | The depth of a module is the length of its longest dependency chain. |
| ModuleGraphs.DependenciesFirst | openerp/modules/graph.py:144-152 | Every dependency of a module comes before it in the iteration. |
| ModuleLoading.Loader.LoadPackage | openerp/modules/loading.py:156-219 | Loads one package; it is processed exactly if flagged or marked, loses its flags then and is installed in the database. |
| ModuleLoading.ReadyToLoad | openerp/modules/loading.py:156-165 | When its turn comes a package has all its dependencies behind it and has not come before. |
| ModuleLoading.Loader.LoadModuleGraph | openerp/modules/loading.py:146-228 | Afterwards exactly the graph's modules are loaded, none twice, each after its dependencies; of those not loaded before, processed are exactly the ones flagged or marked when the call began; the states are those that processing these in turn gives. |
| ModuleLoading.QuietProcessing | openerp/modules/loading.py:186-219 | If loading a module changes the state of no other, processing leaves the processed modules installed and every other state as it was. |
| ModuleLoading.Loader.AddToGraph | openerp/modules/graph.py:93-141 | Adds the least closed set, with the attributes asked for and no others, and reads the states of all nodes again. |
| ModuleLoading.Loader.LoadRound | openerp/modules/loading.py:248-256 | One round adds the marked modules that are not in the graph, as far as their dependencies allow, and processes every new one that is flagged or marked to install or upgrade. |
| ModuleLoading.Loader.LoadMarkedModules | openerp/modules/loading.py:244-258 | The outer loop ends whatever loading does to the states; every module still marked is loaded, cannot be installed, or lacks a dependency; if loading changes the state of no other module, the graph grows to the least closed set of the modules marked at the start, and every new module that was flagged or marked to install or upgrade is processed. |
| ModuleLoading.Loader.LoadBase | openerp/modules/loading.py:286-300 | Loads base alone; fails exactly if base is missing, not installable or has dependencies; base is processed exactly if it is flagged, marked to install or upgrade, or installed and to be updated. |
| ModuleLoading.Loader.BaseFlags | openerp/modules/graph.py:118-126 | Of base alone in the graph exactly the attributes asked for it are set. |
| ModuleLoading.Loader.LoadOthers | openerp/modules/loading.py:321-339 | Both rounds of the third step: with quiet loading the modules loaded are exactly base and what the modules marked installed or to upgrade bring in, then, on an update, what those to install bring in; of these every one flagged or marked to install or upgrade is processed and ends up installed. |
| ModuleLoading.BothRounds | openerp/modules/loading.py:321-339 | The second round's graph, in terms of the states before the first. |
| ModuleLoading.Loader.LoadModules | openerp/modules/loading.py:283-339 | Over the whole sequence base is loaded first, every module at most once and after all its dependencies, and all modules of the graph are loaded. The rounds start from what the marking makes of the states that loading base leaves, with base installed. If loading is quiet, the modules loaded are a function of those states, every one of them flagged or marked to install or upgrade is processed and ends up installed, on an update so is every installable module to install whose dependencies are loaded, and no module of either round is missed exactly under the condition of TwoRounds. |
| ModuleLoading.TwoRounds | openerp/modules/loading.py:321-339 | The two rounds leave out no marked module that could be loaded if and only if every installable module marked installed or to upgrade that all marked modules together would bring in is brought in by those so marked alone; all before the first round. |
| ModuleLoading.InstalledIsLeftOut | openerp/modules/loading.py:321-339 | m is installed and depends on base and d, d is to install and depends on base: m ends up left out although both are loaded. |
| Wakeups.RootIsLeast | openerp/cron.py:183-184 | The first entry of an ordered heap is least on the full key of timestamp, name and flag. |
| Wakeups.FlipKeepsHeap | openerp/cron.py:132-133 | Setting the flag of an entry in place keeps the heap ordered, given at most one live entry per database. |
| Wakeups.TwoLiveMayBreakHeap | openerp/cron.py:132-133 | Without that it may not. |
| CronRunner.HeapPush | openerp/cron.py:169 | Pushing keeps the heap ordered and adds the one task. |
| CronRunner.HeapPop | openerp/cron.py:184 | Popping returns the first task, keeps the rest, and keeps it ordered. |
| CronRunner.PoppedIsConsistent | openerp/cron.py:184-188 | After a pop heap and map agree again: at once for a cancelled task, after the deletion for a live one, which is its database's entry in the map. |
| CronRunner.PushedIsConsistent | openerp/cron.py:166-170 | A task pushed for a database without a live one keeps heap and map consistent. |
| CronRunner.Cron.SetFlag | openerp/cron.py:132-133 | Cancelling a task in place keeps the heap ordered. |
| CronRunner.Cron.Cancel | openerp/cron.py:124-133 | Removes the database's planned wake-up, and no other. |
| CronRunner.Cron.CancelAll | openerp/cron.py:136-143 | Leaves nothing planned. |
| CronRunner.Cron.ScheduleWakeup | openerp/cron.py:145-170 | Plans the minimum of the old and the new timestamp; nothing for timestamp 0 or when scheduling is off; other databases keep theirs. |
| CronRunner.Cron.AtMostOneLive | openerp/cron.py:162-170 | At most one task per database is live. |
| CronRunner.Cron.PopTask | openerp/cron.py:183-188 | A cancelled task never fires and changes nothing planned; a live one is the earliest planned, its database is in the map, and it is no longer planned; the others stay in the heap. |
| CronRunner.Cron.FirstIsEarliest | openerp/cron.py:183-184 | No planned wake-up is before the first entry of the heap. |
| CronRunner.Cron.Run | openerp/cron.py:181-192 | For all jobs, which may schedule, cancel and take slots as they like, and any number of rounds: every wake-up fired is the earliest due one of the plain map at that point, every other round drops a different cancelled task, the final plan is the one the plain map gives, and the loop stops before its rounds are over only when no due wake-up is left or the slots are taken. |
| CronRunner.PlansTheEarliest | openerp/cron.py:145-170 | After any actions the plain map holds, for each database, the minimum of the timestamps asked for since it was last cancelled, and nothing if there are none. |
| CronRunner.DisabledPlansNothing | openerp/cron.py:155-157 | Where scheduling is switched off nothing new is ever planned. |
| CronRunner.SlotsCounted | openerp/cron.py:109-120 | After any actions the free slots are those at first, less those taken, and those released. |
| CronRunner.Cron.SleepAmount | openerp/cron.py:193-197 | The maximum without an entry or a slot; else until the first entry is due, but at least the minimum and at most the maximum; not past the earliest planned wake-up but for the minimum. |
| CronRunner.FiresOneMore | openerp/cron.py:183-192 | One more wake-up of the earliest database extends a run of the plain map. |
| ConnectionPools.PurgedMembers | openerp/sql_db.py:390-399 | Purging removes exactly the closed connections and makes the leaked ones idle; the others stay as they are. |
| ConnectionPools.PurgeStep | openerp/sql_db.py:390-399 | Going backwards, removing an entry or moving it to the end skips none. |
| ConnectionPools.PurgedOrder | openerp/sql_db.py:390-399 | Of two connections kept the earlier one stays the earlier, a leaked one goes behind every other, and of two leaked ones the later comes first. |
| ConnectionPools.SameDatabaseMeans | openerp/sql_db.py:477-482 | Two data source names are equal exactly if they agree on every setting but the password. |
| ConnectionPools.BorrowedMeans | openerp/sql_db.py:401-427 | The branches of borrow in terms of the list alone: an idle connection to the same database is reused, the first such; else PoolError without room or an idle one; else the outcome is that of connecting, with nothing forgotten while there was room and otherwise the first idle one. |
| ConnectionPools.OthersMembers | openerp/sql_db.py:446-451 | What close_all leaves is exactly the connections to other databases. |
| ConnectionPools.LendKeeps | openerp/sql_db.py:401-407 | Lending an idle connection keeps every used one with its cursor, leaked or closed; nobody had the one lent. |
| ConnectionPools.HoldKeeps | openerp/sql_db.py:173-180 | A cursor that takes the connection lent to it keeps cursors and connections paired. |
| ConnectionPools.ConnectionPool.Purge | openerp/sql_db.py:390-399 | The loop over the list it changes computes the purged list, and clears the marks of the connections it frees. |
| ConnectionPools.ConnectionPool.Borrow | openerp/sql_db.py:386-427 | After purging: the first idle connection to the database; else the pool is full without an idle one and PoolError is raised; else a new one, the first idle one being forgotten if the pool is full. Never more than maxconn entries. |
| ConnectionPools.ConnectionPool.MakeRoom | openerp/sql_db.py:409-420 | Full exactly if there are maxconn entries and none is idle; otherwise room for one. |
| ConnectionPools.ConnectionPool.GiveBack | openerp/sql_db.py:430-443 | Moves the connection to the end as idle, or closes it; fails exactly if it is not in the pool. |
| ConnectionPools.ConnectionPool.CloseAll | openerp/sql_db.py:446-451 | Closes and removes exactly the listed connections to the database, used ones too. |
| ConnectionPools.ConnectionPool.OpenCursor | openerp/sql_db.py:155-180 | After purging: succeeds exactly if an idle connection to the same database is listed, or connecting succeeds and there is room or an idle connection to forget; PoolError and the error of connecting exactly otherwise; the connection has every setting asked for but the password, and is a new one only where none could be reused; no other open cursor has it; what became of the list. |
| ConnectionPools.ConnectionPool.CloseCursor | openerp/sql_db.py:275-305 | Raises exactly if the cursor or its connection was closed already, with nothing else changed; otherwise the connection is moved to the end of the list as idle, or closed and removed. |
| ConnectionPools.ConnectionPool.Collect | openerp/sql_db.py:185-198 | An open cursor that is collected leaks its connection unless that is closed. |
| ConnectionPools.ConnectionPool.ServerCloses | openerp/sql_db.py:391-394 | A connection that is closed at any moment disturbs nothing else. |
| ConnectionPools.ConnectionPool.UsedAreHeld | openerp/sql_db.py:385-451 | In every reachable state: no two open cursors share a connection, and each used entry belongs to an open cursor, or is leaked or closed. |
| QueryBuilder.Query.Join | openerp/osv/query.py:70-97 | Fails exactly if the left-hand table is not in the query; a table already there changes nothing; else it is appended with its join. |
| QueryBuilder.JoinAdded | openerp/osv/query.py:91-96 | A new join keeps each table distinct, joined once and after its left-hand table. |
| QueryBuilder.JoinedOneMore | openerp/osv/query.py:104-110 | The table to remove is in the list, behind the place the outer loop is at; the removed one is named after its left-hand table in the same group. |
| QueryBuilder.NextIsFree | openerp/osv/query.py:112-113 | The next table the outer loop comes to has no join of its own and has not been named. |
| QueryBuilder.AddsTogether | openerp/osv/query.py:104-110 | The recursion names only tables joined below the given one, with all their joins, so that the remaining joins are still to be made. |
| QueryBuilder.RoundDone | openerp/osv/query.py:112-116 | After a pass the tables up to the loop's place are named and those after it are not: removing skipped none. |
| QueryBuilder.Query.AddJoinsForTable | openerp/osv/query.py:104-110 | Ends, makes all joins below a table, and takes exactly those tables off the list behind the loop's place. |
| QueryBuilder.Query.GetSql | openerp/osv/query.py:99-118 | After any joins, every table is named exactly once, by its own join if it has one, after its left-hand table and with no comma in between; every join of the query is among the items; and when names hold no quotes, reading the text gives back each table with the kind, left-hand table and both columns it was joined with. |
| QueryBuilder.TextIsRead | openerp/osv/query.py:104-117 | Reading the text of a FROM clause, by its characters, gives the listed tables and the joins with their kinds, tables and columns, in order. |
| FromTexts.JoinedRead | openerp/osv/query.py:107-108 | A join is read off its text: the table, its left-hand table, and the two columns the condition equates. |
| TextMarkup.StretchShows | openerp/pychart/font.py:251-341 | Up to the next change of state all characters are shown under one state. |
| TextMarkup.NextShows | openerp/pychart/font.py:251-341 | What next returns is what the text shows next; it raises exactly if that stretch fails. |
| TextMarkup.LateColours | openerp/pychart/font.py:299-300 | Every character is shown under the state in force where it stands if and only if no colour escape after it, before the next change of state, leaves another colour. |
| TextMarkup.NoColourEscape | openerp/pychart/font.py:299-300 | So it is for every text without the colour escape. |
| TextMarkup.ColourComesLate | openerp/pychart/font.py:299-300 | A text whose first letter takes a colour set after it. |
| TextMarkup.TextIterator.ParseInt | openerp/pychart/font.py:244-250 | The run of digits and minus signs, as a number if it is one. |
| TextMarkup.TextIterator.ParseFloat | openerp/pychart/font.py:238-242 | The run of digits and points; at the end of the string it fails. |
| TextMarkup.TextIterator.TakeEscape | openerp/pychart/font.py:261-317 | Each escape changes the state, shows a character or fails as the escape table says. |
| TextMarkup.TextIterator.Advance | openerp/pychart/font.py:260-330 | One pass of the loop moves on by one step of the markup. |
| TextMarkup.TextIterator.Next | openerp/pychart/font.py:251-341 | Returns the next non-empty stretch with its state, None at the end, or raises; changes before the first character do not count. |
| TextMarkup.TextIterator.ReadAll | openerp/pychart/font.py:363-380 | The segments together show exactly the text, none of them empty; reading fails exactly if the markup does. |
| TextMarkup.WalkKeepsBelow | openerp/pychart/font.py:318-328 | While no more braces are closed than opened, the states to go back to are kept. |
| TextMarkup.BracesRestore | openerp/pychart/font.py:318-328 | After a balanced pair of braces the state is the one before it, whatever is between them. |
| TextMarkup.QuoteMetaIsQuoted | openerp/pychart/font.py:445-455 | The three substitutions, one after the other, quote each character once. |
| TextMarkup.QuoteMetaRoundTrip | openerp/pychart/font.py:445-455 | Reading a quoted text gives the text back as one segment in the state the reader starts with, for every non-empty text. |
| TextCommands.WrittenIsRead | openerp/pychart/font.py:251-341 | Any list of commands (family by name or letter, size, line height, gray level, bold, italic, oblique, vertical and horizontal alignment, angle) written out and followed by a quoted text is read, in any state, as one segment with that text, in the state the commands give. |
| TextCommands.StateIsRead | openerp/pychart/font.py:251-341 | Every state can be written down, and the text that follows is read in exactly that state, whatever family, size, line height, alignments and angle were in force before. |
| TextCommands.CommandReads | openerp/pychart/font.py:261-317 | Each written command is read in one step and does what it is to do, wherever it stands. |
| TextCommands.KnownFamilies | openerp/pychart/font.py:121-128 | The letters that stand for families, and no others. |
| TextCommands.DigitsRead | openerp/pychart/font.py:244-250 | A number written in any number of digits is read back. |
| TextCommands.NatExactly | openerp/pychart/font.py:244-250 | A text is read as a number exactly if it is made of digits; zeros in front do not count. |
| TextCommands.DecimalExactly | openerp/pychart/font.py:238-242 | Digits before the point, after it, or both make a level, and nothing else does; missing ones are 0. |
| TextCommands.UnknownFails | openerp/pychart/font.py:316-317 | Every letter that is no escape fails. |
| TextCommands.MalformedFails | openerp/pychart/font.py:267-317 | So does an escape without its letter, a wrong alignment, a family without braces, and a number that is missing. |
| TextMarkup.FontNames | openerp/pychart/font.py:214-236 | The font of each combination of modifiers and family. |
| TextMarkup.NeverOblique | openerp/pychart/font.py:296-298 | No text is shown in a font named oblique, for every markup text: the escape for it adds another modifier. |

## Left out

- HierarchyTables.HierarchyTable.Write: when two moved records have the same key, nothing is promised but that the columns index some forest; when a moved record and another root, neither before the other in key order, could both be first in a table numbered from 0, it is left open whether the columns index the final one. The order of a listing with ties decides both.
- HierarchyTables.HierarchyTable.Run: a run starts in a table with no row numbered 0, such as an empty one; after a full recomputation Write says what a write to the root level does.
- HierarchyTables.HierarchyTable.ParentStoreCompute: rows on or below a parent cycle are not reached and keep their old numbers, as in the source.
- ChildOfDomains.RecursiveChildren: how deep calls may be nested is a number given, at which the recursion fails; None or True among the ids is refused, where the source leaves that to the database.
- Expressions.Expression.Compile: terms with like and ilike operators, dotted paths, and the relational, function, translated and property branches of `parse` are not modelled one by one (they depend on callbacks and `name_search`); CompileWith proves the loop and the printer for any branches that put one expression in the place of a term, whatever tables they record. Columns are integers and booleans, and an entry of another type counts as ill typed. The join conditions of inherited tables that `to_sql` puts in front are not part of the condition.
- ModuleLoading.Loader.LoadModules: the states of the last round only are promised to be exhausted, and all three exactly under the condition of TwoRounds when loading a module changes the state of no other; what loading data may do to other states is arbitrary otherwise.
- ModuleGraphs.Graph.AddModules: what the configuration asks for is a fixed function of kind and module; that setting an attribute also enters the configuration is not modelled, nor is the sorting of a node's children by name, which nothing here reads.
- CronRunner.HeapPush: a textbook binary heap stands for Python's heapq, which may lay equal contents out differently; the contract is that of a priority queue.
- CronRunner.Cron.Run: stops after any given number of rounds, because nothing ends the loop of the source when jobs keep scheduling wake-ups that are due.
- ConnectionPools.ConnectionPool.CloseCursor: rolling back fails exactly when the connection is closed.
- ConnectionPools.ConnectionPool.OpenCursor: a failure between borrowing a connection and finishing the cursor, which would leave a used entry without a cursor, is not modelled; data source names are maps of settings, not strings.
- RecordCopies.Copier.CopyData: scalar fields, defaults, the removal of columns and translations are not modelled, so a copy whose data is empty, which the source would leave out, does not occur.
- InheritedFields.Registry.Reload: acyclicity is given as a rank that every parent lowers; `_all_columns` is not modelled.
- Rewritings.RewriteTerms: a branch that deletes its term, as the range form of child_of does with no ids, is not covered here; Parse covers it. That walking through what the branches put in place comes to an end is asked of them, because the source does not check it for search functions of fields.
- InheritedFields.Registry.JoinCalc: requires a fresh registry, which Reload keeps; the tables and conditions added to the query on the way are represented by the path.
- RecursionChecks.CheckRecursion: requires that the loop stops, because otherwise it does not end; that the loop drops an id 0 is not modelled.
- QueryBuilder.Query.GetSql: the condition and its parameters, which are joined with AND and passed on unchanged, are not modelled; what is read back from the text needs names without quotes, because the source does not escape them.
- TextCommands.WrittenIsRead: gray levels with no or two digits after the point are written; the text after a command that ends with a number does not go on with that number, which the reader would take for its own.
- TextMarkup.TextIterator.Next: a text state is a value, which the copies made by the source at each step allow; the number after `/c` is a real.
- HierarchyTables.HierarchyTable.Create: the new id is one no row has; a record cannot be created as its own parent.
- The batches of a thousand ids in `write`, `unlink` and `_check_recursion`, and the order of checks for access rights and rules, workflow, properties and attachments in `write`, `create` and `unlink`.
- The deferral of parent_left and parent_right while a registry is being initialized.
- Stored function fields (`_store_get_values` and the deduplication in `write`), `read_group` merging, the clean-up of unused menus: they would only add easier members.
- Views, XML inheritance, import and export, schema migration, multi-process signalling, drawing.
- Threads and locks: a locked section is one atomic step.
