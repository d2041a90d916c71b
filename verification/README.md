# Inventory store and name sanitisers — a verified Dafny model

This project models two parts of a desktop inventory application.

**The inventory store and its business layer** (`lib/inventory-service.ts`,
`lib/inventory-manager.ts`). `InventoryService` is a class whose fields are
`initialized` (a database connection is open) and `db`, the six SQLite tables as one
value:
- categories;
- products;
- product variants;
- inventory movements;
- movement items;
- stock rows keyed by variant.

Every SQL write becomes a table update. Rows get SQLite's default rowid, one more than
the largest id in the table. The SELECT statements are filter, inner-join and sort
functions in module `Queries`.

`createInventoryMovement` is a method that loops over the items between BEGIN and
COMMIT. It rolls back to the snapshot taken at BEGIN when the database rejects a
statement. The manager's operations take the service object and call its members:
- purchases, sales and returns;
- the stock availability check;
- the valuation totals;
- product creation with variants;
- the product and variant detail views.

**The name sanitisers and validators** (`lib/utils/file-utils.ts`,
`src-tauri/src/commands.rs`, `lib/utils/validation.ts`). These are pure functions on
strings:
- `sanitizeForPath` and its Rust twin `sanitize_for_path`, which are one Dafny function;
- `sanitize_for_barcode`;
- the barcode code `{product}-{variant}`;
- the image directory and destination name built by `pickAndSaveImage`;
- the `PathBuf` layout of the barcode file;
- the result record of `generate_barcode`;
- the unsafe-character check and the two name validators.

Regular expressions are character-wise recursive functions. Upper-casing and whitespace
cover ASCII only.

Modules:
- `Outcomes`: Option and Result.
- `Text`: ASCII classes, `trim`, `toUpperCase`, `includes`, `split(..).pop()`.
- `Validation`, `FileUtils`, `Commands`: the three string files.
- `Sql`: WHERE, projection, inner join, ORDER BY and text collation.
- `Keyed`: rowids, lookup by id, `UPDATE`/`DELETE ... WHERE id = ?`.
- `Store`: rows, tables and inserts.
- `Queries`: the SELECT statements.
- `Service`: the `InventoryService` class.
- `Manager`: the `InventoryManager` operations.

## Model

| member | source | states |
|---|---|---|
| Validation.ContainsUnsafePath | lib/utils/validation.ts:13-16 | true exactly when some character of the input is an unsafe path character (slash, backslash, question mark, percent, star, colon, vertical bar, double quote, angle brackets, dot, comma, semicolon, equals sign), i.e. exactly when the text is not free of unsafe characters |
| Validation.ValidateProductName | lib/utils/validation.ts:24-38 | accepts exactly the names that are not blank (empty or all whitespace) and hold no unsafe character; blank names and names with an unsafe character are refused |
| Validation.ValidateVariantHandle | lib/utils/validation.ts:46-60 | the same acceptance rule as for product names, both directions |
| Validation.EmbeddedSpaceAccepted | lib/utils/validation.ts:46-60 | an embedded space is not refused: "X L" passes both validators |
| Text.ToUpper | lib/utils/file-utils.ts:24 | a lower-case ASCII letter becomes upper-case, any other character is kept, and no lower-case letter results |
| Text.Upper | lib/utils/file-utils.ts:24 | upper-casing keeps the length and maps each character by ASCII upper-casing |
| Text.UpperIdentity | lib/utils/file-utils.ts:24 | a string without lower-case letters is unchanged by upper-casing |
| Text.TrimStart | lib/utils/file-utils.ts:19 | the result is a suffix of the input, everything removed is whitespace, and it does not start with whitespace |
| Text.TrimEnd | lib/utils/file-utils.ts:19 | the result is a prefix of the input, everything removed is whitespace, and it does not end with whitespace |
| Text.Trim | lib/utils/file-utils.ts:19 | `trim()` is empty exactly for blank input, neither starts nor ends with whitespace, is never longer, and leaves whitespace-free text unchanged |
| Text.TrimmedIsFixed | lib/utils/file-utils.ts:19 | text that neither starts nor ends with whitespace is its own trim |
| Text.TrimKeepsInterior | lib/utils/file-utils.ts:19 | `trim()` removes only a whitespace prefix and a whitespace suffix: the input is whitespace, then the trimmed text, then whitespace |
| Text.ContainsIff | lib/utils/file-utils.ts:119 | `includes` holds exactly when the piece occurs at some offset |
| Text.LastPiece | lib/utils/file-utils.ts:133 | the last element of `split(sep)` is a suffix without `sep`, preceded by `sep` whenever it is not the whole string |
| FileUtils.ReplaceUnsafe | lib/utils/file-utils.ts:20 | each unsafe character becomes `-` and every other character stays in place, so no unsafe character remains |
| FileUtils.UnderscoreWhitespace | lib/utils/file-utils.ts:21 | no whitespace remains, the result is empty exactly for empty input, its first character is the input's or `_` for whitespace, only input characters or `_` appear, and safety is kept |
| FileUtils.UnderscoreIdentity | lib/utils/file-utils.ts:21 | whitespace-free text is unchanged by the `\s+` replacement |
| FileUtils.UnderscoreRun | lib/utils/file-utils.ts:21 | a whole run of whitespace, however long, becomes exactly one `_` |
| FileUtils.UnderscoreAppend | lib/utils/file-utils.ts:21 | the replacement works piece by piece wherever no whitespace run is cut, so together with the two lemmas above it pins the result: each run is one `_`, every other character is kept in place |
| FileUtils.Squeeze | lib/utils/file-utils.ts:22-23 | no `cc` remains, the result is empty exactly for empty input, keeps the first character, holds no new character, and input without `cc` is unchanged |
| FileUtils.SqueezeRun | lib/utils/file-utils.ts:22-23 | a run of one or more `c` becomes exactly one `c` |
| FileUtils.SqueezeAppend | lib/utils/file-utils.ts:22-23 | squeezing works piece by piece wherever no `c` run is cut, so with `SqueezeRun` it pins the result: each run of `c` is one `c`, every other character is kept in place |
| FileUtils.SqueezeKeepsNoRepeat | lib/utils/file-utils.ts:22-23 | squeezing `_` runs never creates a `--` pair, so both squeezes hold together |
| FileUtils.UpperKeepsNoRepeat | lib/utils/file-utils.ts:24 | upper-casing keeps text free of `--` and `__` |
| FileUtils.UpperKeepsClasses | lib/utils/file-utils.ts:24 | upper-casing introduces no unsafe character and no whitespace, and removes every lower-case letter |
| FileUtils.SanitizeForPath | lib/utils/file-utils.ts:14-25 | "" for empty input; empty exactly for blank input; otherwise no unsafe character, no whitespace, no lower-case letter, no `--` and no `__` |
| FileUtils.SanitizedSegmentIsSafe | lib/utils/file-utils.ts:20-24 | `containsUnsafePath` is false on every sanitised string |
| FileUtils.ValidNameGivesSegment | lib/utils/validation.ts:24-38 | a name either validator accepts sanitises to a non-empty path segment |
| FileUtils.SanitizeClean | lib/utils/file-utils.ts:19-24 | text already free of unsafe characters, whitespace, lower case, `--` and `__` is its own sanitisation |
| FileUtils.SanitizeIdempotent | lib/utils/file-utils.ts:14-25 | sanitising twice equals sanitising once |
| FileUtils.StripTrailingSlash | lib/utils/file-utils.ts:113 | exactly one trailing `/` is removed when present; otherwise the directory is unchanged |
| FileUtils.ImageDir | lib/utils/file-utils.ts:113-125 | `base/images/P/V` when the stripped data dir already contains the app identifier, otherwise `base/<identifier>/images/P/V`; in both cases the result contains the identifier |
| FileUtils.FileExtension | lib/utils/file-utils.ts:133 | the text after the last `.`, or "png" when that text is empty; never empty and never holding a `.` |
| FileUtils.ExtensionAfterLastDot | lib/utils/file-utils.ts:133 | a path `stem.ext` with a dot-free, non-empty `ext` yields exactly `ext` |
| FileUtils.DotlessPathIsItsOwnExtension | lib/utils/file-utils.ts:133 | a source path without any `.` is taken whole as the extension |
| FileUtils.ImageFileName | lib/utils/file-utils.ts:134 | the name is exactly `product_image_`, then the file id, then `.`, then the extension, and no other character |
| FileUtils.ImageNamesDiffer | lib/utils/file-utils.ts:134 | ids of equal length that differ give different file names, whatever the extensions |
| FileUtils.ImageDestination | lib/utils/file-utils.ts:134-135 | the destination is the image directory, one `/`, then `product_image_<id>.<ext>` |
| FileUtils.DestinationExtendsDir | lib/utils/file-utils.ts:135 | whatever the image directory contains, the destination contains too |
| FileUtils.SavedImagePath | lib/utils/file-utils.ts:106-135 | every destination the picker computes contains the application identifier |
| Commands.RemoveSpaces | src-tauri/src/commands.rs:42 | no space remains, nothing new appears, space-free text is unchanged, and non-space ends are kept |
| Commands.RemoveSpacesAppend | src-tauri/src/commands.rs:42 | removing spaces works piece by piece, so the kept characters keep their order |
| Commands.RemoveSpacesCounts | src-tauri/src/commands.rs:42 | every character other than a space occurs as often after removal as before |
| Commands.TrimmedWithoutSpaces | src-tauri/src/commands.rs:42 | deleting spaces from trimmed text keeps it trimmed, and empty only when it was empty |
| Commands.UpperOfWord | src-tauri/src/commands.rs:42 | upper-casing space-free text leaves no space and no lower-case letter and keeps it trimmed |
| Commands.SanitizeForBarcode | src-tauri/src/commands.rs:40-43 | no space, no lower-case letter, not longer than the input, neither starts nor ends with whitespace, and empty exactly for blank input |
| Commands.SanitizeForBarcodeIdempotent | src-tauri/src/commands.rs:40-43 | sanitising a barcode name twice equals sanitising it once |
| Commands.SanitizeForBarcodeOfSpaceless | src-tauri/src/commands.rs:42 | trimmed text without spaces is only upper-cased, whatever other whitespace it holds |
| Commands.TabKept | src-tauri/src/commands.rs:42 | a tab inside a name survives: "a\tb" becomes "A\tB" |
| Commands.SanitizeForBarcodeOfWord | src-tauri/src/commands.rs:42 | a name without whitespace is only upper-cased |
| Commands.BarcodeCode | src-tauri/src/commands.rs:56-88 | the code splits into the barcode-safe product name, one `-`, and the barcode-safe variant name |
| Commands.BarcodeCodeIsOneWord | src-tauri/src/commands.rs:88 | the code has no space and no lower-case letter |
| Commands.BarcodeCodeInjective | src-tauri/src/commands.rs:88 | when the product parts hold no `-`, equal codes come from equal barcode-safe name pairs |
| Commands.BarcodeCodeOfWords | src-tauri/src/commands.rs:56-88 | for whitespace-free names the code is the upper-cased names joined by `-` |
| Commands.BarcodeCodeCollision | src-tauri/src/commands.rs:88 | a `-` inside a name lets different name pairs share a code: ("a-b","c") and ("a","b-c") collide |
| Commands.JoinPath | src-tauri/src/commands.rs:128-142 | `PathBuf::join` on `/` paths: an absolute part replaces the path, otherwise one separator is added unless the path is empty or already ends in one |
| Commands.BarcodeSavePath | src-tauri/src/commands.rs:119-146 | for parts without `/`, the path is `<data dir>/org.lichtlabs.inventorymgmt/barcodes/<name>/<handle>/barcode.png` |
| Commands.SavePathLayout | src-tauri/src/commands.rs:124-142 | the five joins give the data dir with one separator, the identifier, and the barcode tail |
| Commands.JoinAfterLevel | src-tauri/src/commands.rs:132-142 | joining after a directory level adds that level and its separator |
| Commands.LevelsLayout | src-tauri/src/commands.rs:132-142 | the name, handle and file joins below a directory give one level each |
| Commands.SafeTextIsRelative | src-tauri/src/commands.rs:25 | text without unsafe characters holds no `/`, so a sanitised name is one directory level |
| Commands.GenerateBarcode | src-tauri/src/commands.rs:46-116 | fails without a data dir; succeeds exactly when the directories, the Code39 encoding and the JSON all succeed; then `file_path` is the PNG save path of the sanitised names and the code is `BarcodeCode` of the names |
| Commands.SavePathHasIdentifier | src-tauri/src/commands.rs:124-142 | every barcode path of sanitised names contains the application identifier |
| Keyed.NextKey | lib/inventory-service.ts:146-150 | the new rowid is at least 1, above every id in the table, and one above the last id |
| Keyed.AppendAscending | lib/inventory-service.ts:146-150 | appending a row with the next rowid keeps ids ascending |
| Keyed.Find | lib/inventory-service.ts:129-133 | `WHERE id = ?` then the first row or null: a row is found exactly when one has the id, and under ascending ids it is that row |
| Keyed.Remove | lib/inventory-service.ts:181 | `DELETE ... WHERE id = ?` keeps exactly the rows with another id, in order, and changes no other id's lookup |
| Keyed.Replace | lib/inventory-service.ts:165-168 | `UPDATE ... WHERE id = ?` rewrites only the rows with that id, keeps length and key invariants, and changes no other id's lookup |
| Keyed.FilterMapDistinct | lib/inventory-service.ts:517-519 | a join that carries the driving row's key keeps keys distinct |
| Keyed.MapDistinct | lib/inventory-service.ts:540-552 | a projection that carries each row's key keeps keys distinct |
| Keyed.InsertDistinct | lib/inventory-service.ts:115 | inserting a row whose key is new keeps keys distinct |
| Keyed.SortByDistinct | lib/inventory-service.ts:115 | `ORDER BY` keeps keys distinct |
| Sql.Filter | lib/inventory-service.ts:456-476 | `WHERE`: exactly the rows satisfying the condition, a sub-multiset of the table |
| Sql.FilterCount | lib/inventory-service.ts:456-476 | a row that satisfies the condition is kept exactly as often as the table holds it; any other row never |
| Sql.FilterAppend | lib/inventory-service.ts:456-476 | filtering works segment by segment, so kept rows keep their table order |
| Sql.FilterMap | lib/inventory-service.ts:517-519 | an inner join from the driving table: every joinable row yields its joined row, nothing else is returned, and no row is dropped when every row joins |
| Sql.FilterMapCount | lib/inventory-service.ts:517-519 | a joined row appears exactly as often as the driving rows that yield it |
| Sql.FilterMapCountWhere | lib/inventory-service.ts:517-519 | the same count, for any condition that selects exactly the driving rows yielding that joined row |
| Sql.FilterMapAppend | lib/inventory-service.ts:517-519 | joining works segment by segment, so joined rows keep the order of their driving rows |
| Sql.SomesExact | lib/inventory-manager.ts:158-172 | collecting the present reports keeps every present one and nothing else |
| Sql.SortBy | lib/inventory-service.ts:115 | `ORDER BY` returns a permutation of the rows |
| Sql.SortBySorted | lib/inventory-service.ts:115 | under a total order the sorted rows are in order |
| Sql.StrLeTotal | lib/inventory-service.ts:115 | any two texts are comparable under the binary collation |
| Sql.StrLeTransitive | lib/inventory-service.ts:115 | the binary collation is transitive |
| Store.StoredDate | lib/inventory-service.ts:408 | an absent or empty date is stored as NULL, any other date as given |
| Store.StoredTotal | lib/inventory-service.ts:416-417 | a non-zero supplied total is kept; a zero total becomes price per unit times quantity |
| Store.InsertCategory | lib/inventory-service.ts:146-149 | one category with the next id is appended and no other table changes |
| Store.InsertProduct | lib/inventory-service.ts:249-252 | one product with the next id and the given fields is appended and no other table changes |
| Store.InsertVariant | lib/inventory-service.ts:349-352 | one variant with the next id and only product id, handle and barcode is appended and no other table changes |
| Store.InsertMovement | lib/inventory-service.ts:406-409 | one header with the next movement id, type, stored date and notes is appended and no other table changes |
| Store.InsertItem | lib/inventory-service.ts:419-428 | one item row with the next item id, the movement id and the stored total is appended and no other table changes |
| Store.InsertItems | lib/inventory-service.ts:414-429 | the items table grows by exactly one row per item, keeping its old rows, and no other table changes |
| Store.InsertItemsRows | lib/inventory-service.ts:414-429 | the k-th new row carries the k-th fresh id, the movement id, and the k-th item's variant, quantity, price and stored total |
| Store.PostMovement | lib/inventory-service.ts:403-434 | a committed movement appends one header with the returned id and then one row per item in input order; categories, products, variants and stock are unchanged |
| Store.UpdateCategoryRow | lib/inventory-service.ts:165-168 | the category with the id, if any, gets the new name; no other category changes |
| Store.DeleteCategoryRow | lib/inventory-service.ts:181 | exactly the categories with another id remain |
| Store.UpdateProductRow | lib/inventory-service.ts:273-276 | the product with the id, if any, gets the four new fields; no other product changes |
| Store.DeleteProductRow | lib/inventory-service.ts:295 | exactly the products with another id remain; variants stay |
| Store.UpdateVariantRow | lib/inventory-service.ts:368-371 | the variant with the id, if any, gets the new handle and barcode and keeps its product; no other variant changes |
| Store.DeleteVariantRow | lib/inventory-service.ts:384 | exactly the variants with another id remain; stock rows and items stay |
| Store.UpsertStock | lib/inventory-service.ts:670-673 | afterwards the variant's stock row holds the quantity: overwritten when present, appended when missing; every other variant's row is unchanged |
| Queries.CategoriesByName | lib/inventory-service.ts:114-116 | every category exactly once, ordered by name |
| Queries.CategoryNameOf | lib/inventory-service.ts:195-199 | the left join gives the category's name exactly when the product has a category id that exists |
| Queries.ProductsWithCategory | lib/inventory-service.ts:192-205 | one listing per product, with its category name or NULL, ordered by product name |
| Queries.ProductsInCategory | lib/inventory-service.ts:213-216 | exactly the products of the category, each as often as the table holds it, ordered by name |
| Queries.VariantsOfProduct | lib/inventory-service.ts:311-314 | exactly the variants of the product, in table (id) order |
| Queries.MovementsMatching | lib/inventory-service.ts:456-476 | exactly the movements matching each given filter (type, date at or after start, date at or before end), newest date first, NULL dates last |
| Queries.UnfilteredListsAll | lib/inventory-service.ts:456-474 | with no type and no non-empty date bound every movement is listed |
| Queries.ItemsOfMovement | lib/inventory-service.ts:491-494 | exactly the items of the movement, in table order |
| Queries.DetailOf | lib/inventory-service.ts:517-519 | an item joins exactly when its variant and that variant's product exist |
| Queries.DetailedItems | lib/inventory-service.ts:510-523 | every joinable item of the movement appears with its product name, handle and barcode, nothing else appears, and under ascending item ids each item appears once |
| Queries.DetailedItemsCount | lib/inventory-service.ts:510-523 | a detailed row appears exactly as often as the movement's items that join to it |
| Queries.JoinStock | lib/inventory-service.ts:548-550 | a stock row joins exactly when its variant and product exist |
| Queries.Joined | lib/inventory-service.ts:548-550 | exactly the stock rows whose variant and product exist, and when stock rows have distinct variants, one joined row per variant |
| Queries.JoinKeepsEveryRow | lib/inventory-service.ts:548-550 | when every reference resolves, the join drops no stock row |
| Queries.AllStockLevels | lib/inventory-service.ts:540-552 | exactly the joined stock rows, one per variant when stock rows have distinct variants, ordered by product name, then handle |
| Queries.StockLevelOf | lib/inventory-service.ts:567-584 | a level found for a variant is that variant's, and only when it has a stock row |
| Queries.StockLevelExact | lib/inventory-service.ts:567-584 | a level is found exactly when a joined stock row belongs to the variant |
| Queries.StockLevelListed | lib/inventory-service.ts:567-584 | the level of one variant is a row of the full listing |
| Queries.StockLevelsOfProduct | lib/inventory-service.ts:602-618 | exactly the joined stock rows of the product, one per variant when stock rows have distinct variants, ordered by handle |
| Queries.LowStock | lib/inventory-service.ts:631-650 | exactly the joined stock rows at or below the threshold, one per variant when stock rows have distinct variants, by quantity ascending, then product name |
| Queries.LowStockMonotone | lib/inventory-service.ts:646 | raising the threshold never drops a row |
| Queries.ValuationOf | lib/inventory-service.ts:690-698 | each row's total value is quantity times selling price |
| Queries.Valuation | lib/inventory-service.ts:689-704 | exactly the joined stock rows with positive quantity, valued at quantity times selling price, highest value first |
| Queries.ValuationDistinct | lib/inventory-service.ts:689-704 | when stock rows have distinct variants, each variant is valued at most once |
| Queries.EntryOf | lib/inventory-service.ts:726-727 | an item joins its movement exactly when that movement exists, keeping quantity, price and total |
| Queries.History | lib/inventory-service.ts:717-732 | exactly the variant's items whose movement exists, each joined with its movement, newest date first |
| Queries.HistoryCount | lib/inventory-service.ts:717-732 | an entry appears exactly as often as the variant's items that join to it |
| Service.InventoryService.constructor | lib/inventory-service.ts:61-64 | a new service has no connection |
| Service.InventoryService.Initialize | lib/inventory-service.ts:79-89 | a successful load opens the connection on the file's tables; a failed load rethrows and changes nothing |
| Service.InventoryService.Close | lib/inventory-service.ts:94-105 | afterwards there is no connection; the data is untouched |
| Service.InventoryService.GetAllCategories | lib/inventory-service.ts:111-121 | throws exactly when not initialized; otherwise every category, ordered by name |
| Service.InventoryService.GetCategoryById | lib/inventory-service.ts:126-138 | throws exactly when not initialized; otherwise the category with the id, or null exactly when none has it |
| Service.InventoryService.CreateCategory | lib/inventory-service.ts:143-155 | throws and changes nothing when not initialized; otherwise inserts the category and returns its new id |
| Service.InventoryService.UpdateCategory | lib/inventory-service.ts:160-173 | throws and changes nothing when not initialized or when the id is absent or 0; otherwise renames only that category |
| Service.InventoryService.DeleteCategory | lib/inventory-service.ts:178-186 | throws and changes nothing when not initialized; otherwise removes that category |
| Service.InventoryService.GetAllProducts | lib/inventory-service.ts:192-205 | throws exactly when not initialized; otherwise the result is `ProductsWithCategory` of the tables |
| Service.InventoryService.GetProductsByCategory | lib/inventory-service.ts:210-224 | throws exactly when not initialized; otherwise the result is `ProductsInCategory` of the tables |
| Service.InventoryService.GetProductById | lib/inventory-service.ts:229-241 | throws exactly when not initialized; otherwise the product with the id, or null exactly when none has it |
| Service.InventoryService.CreateProduct | lib/inventory-service.ts:246-263 | throws and changes nothing when not initialized; otherwise inserts the product and returns its new id, at least 1 |
| Service.InventoryService.UpdateProduct | lib/inventory-service.ts:268-287 | throws and changes nothing when not initialized or when the id is missing; otherwise rewrites only that product |
| Service.InventoryService.DeleteProduct | lib/inventory-service.ts:292-300 | throws and changes nothing when not initialized; otherwise removes that product |
| Service.InventoryService.GetProductVariants | lib/inventory-service.ts:306-322 | throws exactly when not initialized; otherwise the result is `VariantsOfProduct` of the tables |
| Service.InventoryService.GetVariantById | lib/inventory-service.ts:327-339 | throws exactly when not initialized; otherwise the variant with the id, or null exactly when none has it |
| Service.InventoryService.CreateProductVariant | lib/inventory-service.ts:344-358 | throws and changes nothing when not initialized; otherwise inserts product id, handle and barcode and returns the new id |
| Service.InventoryService.UpdateProductVariant | lib/inventory-service.ts:363-376 | throws and changes nothing when not initialized or when the id is missing; otherwise updates only that variant's handle and barcode |
| Service.InventoryService.DeleteProductVariant | lib/inventory-service.ts:381-389 | throws and changes nothing when not initialized; otherwise removes that variant |
| Service.InventoryService.CreateInventoryMovement | lib/inventory-service.ts:395-443 | throws and changes nothing when not initialized; when the header, an item or the COMMIT is rejected, the tables are exactly as before and the error is rethrown; otherwise the tables are the posted movement and its id is returned |
| Service.InventoryService.GetInventoryMovements | lib/inventory-service.ts:448-481 | throws exactly when not initialized; otherwise the result is `MovementsMatching` of the tables and filters |
| Service.InventoryService.GetMovementItems | lib/inventory-service.ts:486-502 | throws exactly when not initialized; otherwise the result is `ItemsOfMovement` of the tables |
| Service.InventoryService.GetDetailedMovementItems | lib/inventory-service.ts:507-531 | throws exactly when not initialized; otherwise the result is `DetailedItems` of the tables |
| Service.InventoryService.GetAllStockLevels | lib/inventory-service.ts:537-557 | throws exactly when not initialized; otherwise the result is `AllStockLevels` of the tables |
| Service.InventoryService.GetStockLevelForVariant | lib/inventory-service.ts:562-592 | throws exactly when not initialized; otherwise the result is `StockLevelOf` the variant |
| Service.InventoryService.GetStockLevelsForProduct | lib/inventory-service.ts:597-626 | throws exactly when not initialized; otherwise the result is `StockLevelsOfProduct` of the tables |
| Service.InventoryService.GetLowStockItems | lib/inventory-service.ts:631-658 | throws exactly when not initialized; otherwise the result is `LowStock` at the given threshold, 10 when none is passed |
| Service.InventoryService.UpdateStockLevel | lib/inventory-service.ts:664-681 | throws and changes nothing when not initialized; otherwise the variant's stock row holds exactly the quantity and nothing else changes |
| Service.InventoryService.GetInventoryValuation | lib/inventory-service.ts:686-709 | throws exactly when not initialized; otherwise the result is `Valuation` of the tables |
| Service.InventoryService.GetVariantMovementHistory | lib/inventory-service.ts:714-740 | throws exactly when not initialized; otherwise the result is `History` of the variant |
| Manager.Initialize | lib/inventory-manager.ts:25-29 | the service is initialized on the file, or the load error is rethrown with nothing changed |
| Manager.ToItems | lib/inventory-manager.ts:49-54 | one item per line, in order, with the line's variant, quantity, unit price and their product as total |
| Manager.NotesOr | lib/inventory-manager.ts:60 | absent or empty notes become the default, others are kept |
| Manager.StoredLineTotal | lib/inventory-manager.ts:49-63 | every stored row of a recorded movement has its line's variant, quantity and price, and a total of quantity times price, whether or not that product is 0 |
| Manager.StoredLine | lib/inventory-manager.ts:49-63 | the stored row of one line has the line's fields and total |
| Manager.StoredTotalOfLine | lib/inventory-manager.ts:53 | the service's fallback for a zero total yields the same product as the manager's total |
| Manager.RecordPurchase | lib/inventory-manager.ts:37-64 | posts an IN movement of the lines with notes defaulting to "Stock purchase", with the service's error and rollback behaviour |
| Manager.RecordSale | lib/inventory-manager.ts:72-99 | posts an OUT movement of the lines with notes defaulting to "Sale", without any stock check |
| Manager.RecordReturn | lib/inventory-manager.ts:107-134 | posts a RETURN movement of the lines with notes defaulting to "Product return" |
| Manager.Report | lib/inventory-manager.ts:163-170 | a request is reported exactly when there is no level or the level is below the quantity; available is the level or 0, with the names when known |
| Manager.Reports | lib/inventory-manager.ts:158-172 | one report per request, in request order |
| Manager.Shortfalls | lib/inventory-manager.ts:156-174 | never more shortfalls than requests |
| Manager.ShortfallsExact | lib/inventory-manager.ts:156-174 | every short request is reported and every report is of a short request |
| Manager.CheckStockAvailability | lib/inventory-manager.ts:141-175 | the loop returns the shortfalls of the requests in order; it throws only when there is a request and no connection |
| Manager.MissingStockIsShort | lib/inventory-manager.ts:163-167 | a variant without a stock row is reported with 0 available, even for a request of 0 |
| Manager.CoveredRequestNotReported | lib/inventory-manager.ts:159-163 | a covered request for a variant whose product exists is not reported; one whose product is gone is |
| Manager.GetLowStockItems | lib/inventory-manager.ts:182-184 | throws exactly when not initialized; otherwise the service's `LowStock` at the given threshold, 10 by default |
| Manager.UnitsCoverRows | lib/inventory-manager.ts:203-207 | rows with positive quantities hold at least as many units as rows |
| Manager.ValuesNonNegative | lib/inventory-manager.ts:199-202 | non-negative row values sum to a non-negative total |
| Manager.GetInventoryValuation | lib/inventory-manager.ts:190-215 | the items are `Valuation` of the tables; total value is the sum of their values, item count the sum of their quantities, variants count their number; item count is at least variants count; with no negative price the total is not negative |
| Manager.PricesGiveNonNegativeValues | lib/inventory-manager.ts:199-202 | with no negative selling price the valuation total is not negative |
| Manager.AddVariants | lib/inventory-manager.ts:237-245 | the variants table grows by exactly one row per input, keeping its old rows, and no other table changes |
| Manager.AddVariantsRows | lib/inventory-manager.ts:237-245 | the k-th new variant has the k-th fresh id, the product id, and the k-th input's handle and barcode |
| Manager.CreateProductWithVariants | lib/inventory-manager.ts:223-248 | throws and changes nothing without a connection; otherwise inserts the product and then one variant per input under its id, which is returned |
| Manager.NewProductOwnsNewVariants | lib/inventory-manager.ts:230-247 | when no old variant names the new product id, the new product's variants are exactly the ones just created |
| Manager.StockOf | lib/inventory-manager.ts:274 | the stock level's quantity, or 0 without one |
| Manager.StockOfStoredVariant | lib/inventory-manager.ts:271-274 | for a stored variant of a stored product, its stock is its stock row's quantity, or 0 without a row |
| Manager.GetProductWithStock | lib/inventory-manager.ts:255-283 | a missing product is an error; otherwise the product and each of its variants in order with its stock |
| Manager.GetVariantWithHistory | lib/inventory-manager.ts:290-318 | a missing variant is an error; otherwise the variant, its product or null, its stock, and `History` of the variant, newest first |

## Left out

- Connection plumbing: the SQL plugin, `Database.load`, the singleton `getInstance`, async/await and console logging. The tables are state in the class, and the result of loading a file is a parameter of `Initialize`.
- The database schema is not part of this model: column defaults, foreign keys, cascades and triggers.
  - Deletes therefore leave dependent rows in place.
  - Movements do not change stock. Nothing relates the stock table to the movements, and no stock-conservation property is claimed.
- Rowids follow SQLite's default allocation, one above the current maximum. Ids of deleted rows can therefore be reused.
- Timestamps (`created_at`, `updated_at`, `last_updated`) are left out.
- Order among rows that compare equal under an ORDER BY is not specified, and neither is the order of unsorted result sets beyond table order.
- Storage failures are modelled only for `createInventoryMovement`, through a `Fault` parameter naming the rejected statement.
  - Every other write is assumed to succeed once the connection is open.
  - A failing BEGIN is treated like a rejected header.
  - A failing ROLLBACK or a failing `close` is not modelled.
- The unreachable `if (!productId)` branch of `createProductWithVariants` is not written out. New ids are always at least 1.
- `createProductVariant` stores only product id, handle and barcode. The manager's `barcode_code` and `barcode_path` are dropped, so `VariantInput` carries only what is stored.
- The manager's default `dbPath` and the service's default path are file names. The loaded tables are a parameter instead.
- Validation the code does not perform is not added: quantities, prices, handles, and a barcode lookup before a sale.
- Numbers are unbounded integers. JavaScript's floating-point arithmetic and `Number(...)` conversion in the valuation totals are not modelled, so overflow and rounding do not occur.
- Text is ASCII for upper-casing and whitespace. Full Unicode case mapping, Unicode whitespace and `String` byte encodings are not modelled.
- The barcode encoder (`src-tauri/src/utils/barcode.rs`: Code39, JSON, PNG and SVG drawing) is not part of this model. Whether it accepts a code and produces JSON are parameters of `GenerateBarcode`.
- File-system and platform effects are parameters or left out:
  - the file dialog, `mkdir`, `copyFile`, `create_dir_all` and the spawned PNG write;
  - `deleteFile` and `getAssetUrl`, which are only I/O;
  - `appDataDir`/`data_dir`, which is a parameter;
  - the `nanoid` suffix, which is a parameter.
- Paths use `/` as the separator. Windows separators and prefixes are not modelled.
- `to_str().unwrap_or_default()` is taken to succeed, since paths are strings here.
- Toasts in the validators and log messages are left out. Only the boolean results and return values are modelled.
