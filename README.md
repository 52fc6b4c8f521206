# Parts catalogue: price aggregation, nested view and flat export

The backend keeps a table of parts. Each part has:
- an id;
- a name;
- a unit price;
- a quantity;
- an optional parent id.

The parent links make the table a forest. A part that has children is priced at the sum of its direct children's unit prices.

This project models the code that keeps that true, and the two views built on the table:

- **`update_parent_prices`** (module `PricePropagation`) walks up the parent chain from a given id. At each ancestor it sets the unit price to the sum of the children's current unit prices. It stops at a falsy parent id (`None` or `0`). A truthy id that names no record makes the source fail at utils.py:13; the model requires every id on the chain to be stored.
  - The method `UpdateParentPrices` is a `while` loop over a `Store` object.
  - It is proved equal to the pure walk `Propagated`, and the walk's properties are proved as lemmas about `Propagated`.
- **`create_part` and `delete_part`** (module `Crud`) change the `Store`, then run the walk. Their contracts tie the new table to the spec functions `AfterCreate` and `AfterDelete`. Separate lemmas then prove what the new table looks like:
  - the new record is the one requested;
  - only prices change;
  - the parent is repriced;
  - the price invariant is kept;
  - sibling names stay unique, ignoring case.
- **`get_tree` and `build_tree`** (module `Crud`) are pure, recursive functions. They build the nested view and add `total_price = unit_price * quantity`.
- **`flattern_parts`** (module `Flatten`) is a recursive `Traverse` method. It appends rows to a shared `RowList` object. It is proved equal to the pure pre-order functions `TreeRows`, `ChildRows` and `ForestRows`. Lemmas give the shape of the output:
  - hierarchical numbering;
  - pre-order;
  - one row per node.

The table and its id counter are the class `Models.Store`. `Store.Valid()` holds when:
- ids lie in `[1, nextId)`;
- each record sits under its own id;
- every parent exists and has a smaller id.

In the model, ids come from a counter that only grows, and a part is created only under a stored parent. So the smaller-id rule is how the model states that the parent graph is acyclic.

`part.children` is `Models.Children`: the ids whose parent is the given part, in ascending order. Python truthiness of a nullable id (`None` and `0` are false) is `Models.Truthy`. Case mapping is the ASCII part of `str.lower` and `str.capitalize` (module `Text`).

## Model

| member | source | states |
|---|---|---|
| Text.Lower | backend/app/database/crud.py:29 | lowering keeps the length and maps each character to lower case |
| Text.CapitalizeShape | backend/app/database/crud.py:37 | capitalizing keeps the length, puts the first character in upper case and the rest in lower case |
| Text.LowerOfCapitalize | backend/app/database/crud.py:28-37 | the lowered capitalized name equals the lowered submitted name, so the name that is stored clashes with exactly the names the duplicate check compared it to |
| Text.LowerIdempotent | backend/app/database/crud.py:29 | lowering twice is lowering once |
| Text.Capitalize | backend/app/database/crud.py:37 | `str.capitalize` on ASCII: the first character upper-cased, the rest lower-cased (its properties are `Text.CapitalizeShape` and `Text.LowerOfCapitalize`) |
| Text.NatStr | backend/app/utils.py:40-44 | `f"{idx}"` is a non-empty string of decimal digits |
| Text.NatStrRoundTrip | backend/app/utils.py:40-44 | reading the digits back gives the index, so different indices get different labels |
| Models.IdsWithParent | backend/app/database/models.py:24-28 | the children query returns, in ascending order, exactly the stored ids below the counter whose parent is the given id |
| Models.Children | backend/app/database/models.py:24-28 | `part.children`: the ids whose parent is the given part, with the properties of `Models.IdsWithParent` |
| Models.Roots | backend/app/database/crud.py:97 | the records whose parent id is null, with the properties of `Models.IdsWithParent` |
| Models.Truthy | backend/app/utils.py:11 | Python truthiness of a nullable id, as tested at utils.py:11, crud.py:42 and crud.py:75: `None` and `0` are false |
| Models.ChildSum | backend/app/utils.py:13 | `sum(child.unit_price for child in parent.children)`: the sum of the current unit prices of the children, 0 when there are none |
| Models.HasSibling | backend/app/database/crud.py:28-32 | the duplicate query: some stored record has the same parent id as the submission, both null counting as the same, and its lowered name equals the lowered submitted name |
| Models.Store.constructor | backend/app/database/models.py:9-13 | an empty parts table with the id counter at 1 is well formed |
| Models.Store.Add | backend/app/database/crud.py:36-40 | the record is stored under the next id, the counter moves on, and the table stays a forest |
| Models.Store.Remove | backend/app/database/crud.py:72-74 | deleting a record nobody points to removes exactly that id and keeps the table a forest |
| PricePropagation.Chain | backend/app/utils.py:11-16 | every id the walk visits exists in the table and is no larger than the start id |
| PricePropagation.ChainShape | backend/app/utils.py:11-16 | the walk visits something iff the start id is truthy. It starts at that id, each next id is the parent of the previous one, ids strictly decrease, and the last visited record is a root |
| PricePropagation.ChainLength | backend/app/utils.py:11-16 | from an existing record the loop runs exactly depth-plus-one times |
| PricePropagation.ChainClosedUpward | backend/app/utils.py:16 | the parent of every visited record is visited too |
| PricePropagation.Propagated | backend/app/utils.py:11-16 | the walk keeps the table a forest, with the same ids and the same parent links |
| PricePropagation.PropagatedFrame | backend/app/utils.py:12-14 | the walk changes only unit prices, and only those of records on the chain; every other record is left as it was |
| PricePropagation.PropagatedNoOp | backend/app/utils.py:11 | a falsy start id leaves the table unchanged |
| PricePropagation.PropagatedFixesChain | backend/app/utils.py:11-16 | afterwards every record on the chain is priced at the sum of its children's final prices, because lower records are fixed before higher ones read them |
| PricePropagation.PropagatedRepricesStart | backend/app/utils.py:12-14 | the start record keeps its children and ends up priced at their sum |
| PricePropagation.PropagatedEmptiedIsZero | backend/app/utils.py:13 | a chain record left without children is priced 0, the empty sum |
| PricePropagation.PropagationRestoresPrices | backend/app/utils.py:11-16 | if every record off the chain was priced at its children's sum before the walk, every record with children is priced that way after it |
| PricePropagation.InsertedChildren | backend/app/database/crud.py:36-40 | after inserting a record, the children of its parent are the old children followed by the new id; nobody else's children change, and the new record has none |
| PricePropagation.InsertLeafRestoresPrices | backend/app/database/crud.py:38-43 | inserting a leaf into a consistently priced table and walking from its parent leaves the whole table consistently priced |
| PricePropagation.RemoveLeafWellFormed | backend/app/database/crud.py:68-74 | removing a record without children keeps the table a forest, and its former parent is still stored |
| PricePropagation.RemoveLeafRestoresPrices | backend/app/database/crud.py:71-76 | removing a leaf from a consistently priced table and walking from its former parent leaves the table consistently priced |
| PricePropagation.UpdateParentPrices | backend/app/utils.py:3-16 | the loop leaves exactly the table of the pure walk and visits exactly the chain; a falsy id visits nothing |
| Crud.PropagatedKeepsSiblingNames | backend/app/utils.py:12-14 | the walk keeps sibling names unique, because it touches neither names nor links |
| Crud.HasSiblingIgnoresCase | backend/app/database/crud.py:28-32 | the duplicate check gives the same answer for the submitted name, its lowered form and its capitalized form |
| Crud.InsertKeepsSiblingNames | backend/app/database/crud.py:28-38 | a record whose lowered name matches no sibling keeps sibling names unique |
| Crud.AfterCreate | backend/app/database/crud.py:36-44 | the table after a create that passed the check: the capitalized record stored under the next id, then the walk from its parent |
| Crud.CreateStoresRecord | backend/app/database/crud.py:36-44 | a successful create adds exactly one record, under a fresh id, stored as requested. Every other record changes at most in its unit price, the table stays a forest, and a root insert changes nothing else |
| Crud.CreateThenDuplicateRefused | backend/app/database/crud.py:28-40 | after a create has stored a name, the same name under the same parent, in any case, is found by the duplicate check, so a second create returns `EXISTS` |
| Crud.CreateRepricesParent | backend/app/database/crud.py:42-43 | after a create under a parent, the new part is one of its children and the parent is priced at the sum of its children, the new one included |
| Crud.CreateKeepsPrices | backend/app/database/crud.py:36-44 | a create keeps every part that has children priced at their sum |
| Crud.CreateKeepsSiblingNames | backend/app/database/crud.py:28-40 | a create that passed the duplicate check keeps sibling names unique, ignoring case |
| Crud.CreatePart | backend/app/database/crud.py:28-44 | a case-insensitive duplicate under the same parent, where two null parents count as the same, returns `EXISTS` and changes nothing. Otherwise it returns the record with the next id and the capitalized name, and leaves the table of `AfterCreate` |
| Crud.AfterDelete | backend/app/database/crud.py:71-77 | the table after deleting a childless record: the record removed, then the walk from its former parent |
| Crud.DeleteRemovesRecord | backend/app/database/crud.py:71-77 | a successful delete removes exactly that id, and every other record changes at most in its unit price |
| Crud.DeleteRepricesParent | backend/app/database/crud.py:72-76 | after a delete the former parent no longer lists the part and is priced at the sum of its remaining children, which is 0 when none remain |
| Crud.DeleteKeepsPrices | backend/app/database/crud.py:71-77 | a delete keeps every part that has children priced at their sum |
| Crud.DeleteKeepsSiblingNames | backend/app/database/crud.py:71-77 | a delete keeps sibling names unique |
| Crud.DeletePart | backend/app/database/crud.py:65-77 | an absent id gives `NOT_FOUND` and a part with children gives `HAS_CHILDREN`, both changing nothing. Otherwise it returns `SUCCESS` and leaves the table of `AfterDelete` |
| Crud.BuildTree | backend/app/database/crud.py:117-128 | the node copies every stored field, has `total_price = unit_price * quantity`, and has one child per child record, in order |
| Crud.GetTree | backend/app/database/crud.py:97-98 | one tree per record with a null parent, in id order, each with a null parent |
| Crud.BuildTreeMirrors | backend/app/database/crud.py:117-128 | the view is faithful all the way down: every node copies its record and lists its children one for one, in order |
| Crud.MirrorsIsBuildTree | backend/app/database/crud.py:117-128 | any faithful view of a record is the one `build_tree` builds |
| Crud.GetTreeRoots | backend/app/database/crud.py:97-98 | every returned tree is a faithful view of a root record, every root record has a tree, and the tree ids strictly ascend |
| Crud.TreesPriceSumIsSumPrices | backend/app/database/crud.py:117-128 | the prices summed over the child trees equal the prices summed over the child records |
| Crud.BuildTreeSumsConsistent | backend/app/database/crud.py:117-128 | in a consistently priced table, every node of the view that has children is priced at the sum of its child trees' prices |
| Flatten.ChildPrefix | backend/app/utils.py:40 | the prefix of the `idx`-th child: `prefix.idx` under a non-empty prefix, plain `idx` under the empty one |
| Flatten.ChildPrefixDistinct | backend/app/utils.py:39-40 | different children of one node get different prefixes |
| Flatten.MakeRow | backend/app/utils.py:33-38 | the row of a node: name `prefix + ". " + name`, then price, quantity and cost copied from `unit_price`, `quantity` and `total_price` |
| Flatten.TreeRows | backend/app/utils.py:32-41 | a node gives one row per node of its subtree, and its own row comes first |
| Flatten.ChildRows | backend/app/utils.py:39-41 | the children give one row per node of their subtrees |
| Flatten.ForestRows | backend/app/utils.py:43-44 | the forest gives one row per node |
| Flatten.ChildRowsAppend | backend/app/utils.py:39-41 | the rows of two runs of siblings are the rows of the first run, then those of the second, numbered on from where the first stopped |
| Flatten.ChildRowsSplit | backend/app/utils.py:39-41 | the j-th child's block sits between the blocks of the children before it and those after it, numbered `start + j` |
| Flatten.TreeChildBlock | backend/app/utils.py:32-41 | a node's row comes first. Then comes each child's block in input order, the j-th child (from 0) under prefix `q.(j+1)` |
| Flatten.ForestRowsAreChildRows | backend/app/utils.py:40-44 | roots are numbered as children of an empty prefix: the falsy-prefix branch gives plain `idx` |
| Flatten.ForestBlock | backend/app/utils.py:43-44 | the k-th root's block (from 0) is numbered `start + k` and comes after the blocks of the roots before it |
| Flatten.ChildRowsStep | backend/app/utils.py:39-41 | one turn of `traverse`'s child loop moves the current child's block from the rows still to come to the rows appended |
| Flatten.ForestRowsStep | backend/app/utils.py:43-44 | one turn of the top-level loop moves the current root's block from the rows still to come to the rows appended |
| Flatten.RowList.constructor | backend/app/utils.py:30 | the row list starts empty |
| Flatten.Traverse | backend/app/utils.py:32-41 | `traverse(part, prefix)` appends exactly `TreeRows(part, prefix)` to the shared list |
| Flatten.FlattenParts | backend/app/utils.py:19-45 | `flattern_parts` returns exactly `ForestRows(parts, 1)` |

## Left out

- HTTP routing, status mapping, the Excel and PDF exports, the frontend and application wiring are not part of this model. They are framework and library glue around the core.
- Sessions, `commit`, `refresh`, `rollback` and the `SQLAlchemyError` re-raise paths are left out. Every store operation is atomic and cannot fail.
- Concurrency is not modelled. Each `create_part` and `delete_part` runs alone, from start to finish. The source's request handlers can run in parallel threads, and `update_parent_prices` commits at every level (utils.py:15). With interleaved requests, a walk can overwrite a newer sum with a stale one, and two creates of the same name can both pass the duplicate check at crud.py:28-32 before either inserts. `Crud.CreateKeepsPrices`, `Crud.DeleteKeepsPrices` and `Crud.CreateKeepsSiblingNames` hold only for requests that run one at a time.
- There is no update operation: the backend code has no update handler or CRUD function, so none is modelled.
- Crud.CreatePart: requires the parent id to be null or the id of a stored part (`PricePropagation.StartsInTable`, and `Models.Linked` for the stored records). For a parent id that names no record, the source either gets a database error from the foreign key declared at backend/app/database/models.py:13, if the database enforces it, or commits the record at crud.py:38-39. A truthy dangling id, negative ones included, then makes `update_parent_prices` fail at utils.py:13 with an error that crud.py:45 does not catch. The falsy id 0 names no record either, since ids start at 1; crud.py:42 skips the walk for it, so the record is committed and returned normally (crud.py:44). That record has a parent that is neither null nor stored, `get_tree` (crud.py:97) never shows it, and `Models.Store.Valid()` no longer holds. The requires of `Crud.CreatePart` excludes every such id, 0 included. The database configuration is not part of this model, and none of these paths is modelled.
- PricePropagation.UpdateParentPrices: requires every id on the chain to be stored. For a truthy id that names no record, the source fails at utils.py:13 instead of stopping; that path is not modelled.
- Models.Children: neither `part.children` (backend/app/database/models.py:24-28) nor the root query at crud.py:97, which has no `order_by`, fixes an order. The model fixes both, `Models.Children` and `Models.Roots`, as ascending id order. New ids come from a counter that is never reused (`Models.Store.Add`); how the database assigns ids is not part of this model, and a database that reuses the highest id after a delete is not modelled.
- Text.Lower: covers ASCII letters only. One `Lower` stands both for the database's `lower` (`func.lower`) and for Python's `str.lower` at crud.py:29. Outside ASCII the two can differ. With a database whose `lower` maps only ASCII, for example, a capitalized Cyrillic name submitted again is not found as a duplicate. Full Unicode case mapping and SQL `lower` are not modelled.
- Prices and quantities are unbounded integers. 64-bit overflow of the database columns is not modelled, and no sign is assumed.
- The `delete-orphan` cascade (backend/app/database/models.py:27) cannot fire, because `delete_part` refuses parts with children, so it is not modelled.
- The pydantic defaults `unit_price = 0` and `quantity = 1` (backend/app/schemas.py:6-7) are applied before `create_part` runs. `PartCreate` here carries the values already filled in.
- PricePropagation.UpdateParentPrices: the list of visited ids is a ghost result that exists only for the proof. The source returns nothing.
- Flatten.FlattenParts: a row is a datatype with four fields, not a dictionary with the four Russian column names. The input nodes always have a `children` field, as `build_tree` produces them, so the `part.get("children", [])` default is not modelled.
- Flatten.FlattenParts: the rows are related to a forest of `PartTree` values. No lemma counts the rows of `FlattenParts(GetTree(...))` against the number of stored records.
