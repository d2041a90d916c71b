/**
 * `InventoryService` of lib/inventory-service.ts: a connection that is open or not, and the
 * tables it reaches. Every operation throws "Database not initialized" while the connection
 * is closed; the writes change the tables as their SQL statements do; the reads return what
 * the queries of module Queries select.
 */
module Service {
  import opened Outcomes
  import opened Sql
  import opened Keyed
  import opened Store
  import opened Queries

  class InventoryService {
    /** `this.db` is set: a connection is open. */
    var initialized: bool
    /** The tables of the database file the connection reaches. */
    var db: Tables

    ghost predicate Valid()
      reads this
    {
      db.Valid()
    }

    /** A service with no connection, in front of an empty database. */
    constructor()
      ensures Valid() && !initialized && db == Empty
    {
      initialized := false;
      db := Empty;
    }

    /**
     * `initialize`: `file` is what `Database.load` finds, or None when loading fails; a
     * failed load rethrows and leaves the service as it was.
     */
    method Initialize(file: Option<Tables>) returns (r: Result<(), Error>)
      requires file.Some? ==> file.value.Valid()
      requires Valid()
      modifies this
      ensures Valid()
      ensures file.None? ==> r == Err(LoadFailed) && initialized == old(initialized) && db == old(db)
      ensures file.Some? ==> r == Ok(()) && initialized && db == file.value
    {
      if file.None? {
        return Err(LoadFailed);
      }
      db := file.value;
      initialized := true;
      return Ok(());
    }

    /** `close`: the connection is dropped when there is one; the data stays in the file. */
    method Close()
      modifies this
      ensures !initialized && db == old(db)
    {
      if initialized {
        initialized := false;
      }
    }

    // ---- Categories ----

    /** `getAllCategories`. */
    function GetAllCategories(): (r: Result<seq<Category>, Error>)
      reads this
      ensures r.Err? <==> !initialized
      ensures r.Err? ==> r.error == DatabaseNotInitialized
      ensures r.Ok? ==> multiset(r.value) == multiset(db.categories) && Sorted(r.value, CategoryNameLe)
    {
      if !initialized then Err(DatabaseNotInitialized) else Ok(CategoriesByName(db))
    }

    /** `getCategoryById`: the row with the id, or null. */
    function GetCategoryById(id: int): (r: Result<Option<Category>, Error>)
      reads this
      ensures r.Err? <==> !initialized
      ensures r.Err? ==> r.error == DatabaseNotInitialized
      ensures r.Ok? ==> (r.value.Some? <==> exists c :: c in db.categories && c.id == id)
      ensures r.Ok? && r.value.Some? ==> r.value.value in db.categories && r.value.value.id == id
    {
      if !initialized then Err(DatabaseNotInitialized) else Ok(Find(db.categories, CategoryKey, id))
    }

    /** `createCategory`: the new row's id is returned. */
    method CreateCategory(name: string) returns (r: Result<int, Error>)
      requires Valid()
      modifies this
      ensures Valid() && initialized == old(initialized)
      ensures !initialized ==> r == Err(DatabaseNotInitialized) && db == old(db)
      ensures initialized ==> r == Ok(NextKey(old(db).categories, CategoryKey)) && db == InsertCategory(old(db), name)
    {
      if !initialized {
        return Err(DatabaseNotInitialized);
      }
      r := Ok(NextKey(db.categories, CategoryKey));
      db := InsertCategory(db, name);
    }

    /** `updateCategory`: an absent or zero id is refused before any SQL runs. */
    method UpdateCategory(id: Option<int>, name: string) returns (r: Result<(), Error>)
      requires Valid()
      modifies this
      ensures Valid() && initialized == old(initialized)
      ensures !initialized ==> r == Err(DatabaseNotInitialized) && db == old(db)
      ensures initialized && IdMissing(id) ==> r == Err(CategoryIdRequired) && db == old(db)
      ensures initialized && !IdMissing(id) ==> r == Ok(()) && db == UpdateCategoryRow(old(db), id.value, name)
    {
      if !initialized {
        return Err(DatabaseNotInitialized);
      }
      if IdMissing(id) {
        return Err(CategoryIdRequired);
      }
      db := UpdateCategoryRow(db, id.value, name);
      return Ok(());
    }

    /** `deleteCategory`. */
    method DeleteCategory(id: int) returns (r: Result<(), Error>)
      requires Valid()
      modifies this
      ensures Valid() && initialized == old(initialized)
      ensures !initialized ==> r == Err(DatabaseNotInitialized) && db == old(db)
      ensures initialized ==> r == Ok(()) && db == DeleteCategoryRow(old(db), id)
    {
      if !initialized {
        return Err(DatabaseNotInitialized);
      }
      db := DeleteCategoryRow(db, id);
      return Ok(());
    }

    // ---- Products ----

    /** `getAllProducts`. */
    function GetAllProducts(): (r: Result<seq<ProductListing>, Error>)
      reads this
      ensures r.Err? <==> !initialized
      ensures r.Err? ==> r.error == DatabaseNotInitialized
      ensures r.Ok? ==> r.value == ProductsWithCategory(db)
      ensures r.Ok? ==> |r.value| == |db.products| && Sorted(r.value, ListingNameLe)
    {
      if !initialized then Err(DatabaseNotInitialized) else Ok(ProductsWithCategory(db))
    }

    /** `getProductsByCategory`. */
    function GetProductsByCategory(categoryId: int): (r: Result<seq<Product>, Error>)
      reads this
      ensures r.Err? <==> !initialized
      ensures r.Err? ==> r.error == DatabaseNotInitialized
      ensures r.Ok? ==> r.value == ProductsInCategory(db, categoryId)
      ensures r.Ok? ==> forall p :: p in r.value <==> p in db.products && p.categoryId == Some(categoryId)
    {
      if !initialized then Err(DatabaseNotInitialized) else Ok(ProductsInCategory(db, categoryId))
    }

    /** `getProductById`. */
    function GetProductById(id: int): (r: Result<Option<Product>, Error>)
      reads this
      ensures r.Err? <==> !initialized
      ensures r.Err? ==> r.error == DatabaseNotInitialized
      ensures r.Ok? ==> (r.value.Some? <==> exists p :: p in db.products && p.id == id)
      ensures r.Ok? && r.value.Some? ==> r.value.value in db.products && r.value.value.id == id
    {
      if !initialized then Err(DatabaseNotInitialized) else Ok(Find(db.products, ProductKey, id))
    }

    /** `createProduct`. */
    method CreateProduct(p: NewProduct) returns (r: Result<int, Error>)
      requires Valid()
      modifies this
      ensures Valid() && initialized == old(initialized)
      ensures !initialized ==> r == Err(DatabaseNotInitialized) && db == old(db)
      ensures initialized ==> r == Ok(NextKey(old(db).products, ProductKey)) && db == InsertProduct(old(db), p)
      ensures r.Ok? ==> r.value >= 1
    {
      if !initialized {
        return Err(DatabaseNotInitialized);
      }
      r := Ok(NextKey(db.products, ProductKey));
      db := InsertProduct(db, p);
    }

    /** `updateProduct`. */
    method UpdateProduct(id: Option<int>, p: NewProduct) returns (r: Result<(), Error>)
      requires Valid()
      modifies this
      ensures Valid() && initialized == old(initialized)
      ensures !initialized ==> r == Err(DatabaseNotInitialized) && db == old(db)
      ensures initialized && IdMissing(id) ==> r == Err(ProductIdRequired) && db == old(db)
      ensures initialized && !IdMissing(id) ==> r == Ok(()) && db == UpdateProductRow(old(db), id.value, p)
    {
      if !initialized {
        return Err(DatabaseNotInitialized);
      }
      if IdMissing(id) {
        return Err(ProductIdRequired);
      }
      db := UpdateProductRow(db, id.value, p);
      return Ok(());
    }

    /** `deleteProduct`. */
    method DeleteProduct(id: int) returns (r: Result<(), Error>)
      requires Valid()
      modifies this
      ensures Valid() && initialized == old(initialized)
      ensures !initialized ==> r == Err(DatabaseNotInitialized) && db == old(db)
      ensures initialized ==> r == Ok(()) && db == DeleteProductRow(old(db), id)
    {
      if !initialized {
        return Err(DatabaseNotInitialized);
      }
      db := DeleteProductRow(db, id);
      return Ok(());
    }

    // ---- Variants ----

    /** `getProductVariants`. */
    function GetProductVariants(productId: int): (r: Result<seq<Variant>, Error>)
      requires Valid()
      reads this
      ensures r.Err? <==> !initialized
      ensures r.Err? ==> r.error == DatabaseNotInitialized
      ensures r.Ok? ==> r.value == VariantsOfProduct(db, productId)
      ensures r.Ok? ==> forall v :: v in r.value <==> v in db.variants && v.productId == productId
    {
      if !initialized then Err(DatabaseNotInitialized) else Ok(VariantsOfProduct(db, productId))
    }

    /** `getVariantById`. */
    function GetVariantById(id: int): (r: Result<Option<Variant>, Error>)
      reads this
      ensures r.Err? <==> !initialized
      ensures r.Err? ==> r.error == DatabaseNotInitialized
      ensures r.Ok? ==> (r.value.Some? <==> exists v :: v in db.variants && v.id == id)
      ensures r.Ok? && r.value.Some? ==> r.value.value in db.variants && r.value.value.id == id
    {
      if !initialized then Err(DatabaseNotInitialized) else Ok(Find(db.variants, VariantKey, id))
    }

    /** `createProductVariant`. */
    method CreateProductVariant(v: NewVariant) returns (r: Result<int, Error>)
      requires Valid()
      modifies this
      ensures Valid() && initialized == old(initialized)
      ensures !initialized ==> r == Err(DatabaseNotInitialized) && db == old(db)
      ensures initialized ==> r == Ok(NextKey(old(db).variants, VariantKey)) && db == InsertVariant(old(db), v)
    {
      if !initialized {
        return Err(DatabaseNotInitialized);
      }
      r := Ok(NextKey(db.variants, VariantKey));
      db := InsertVariant(db, v);
    }

    /** `updateProductVariant`: handle and barcode only. */
    method UpdateProductVariant(id: Option<int>, handle: string, barcode: Option<string>) returns (r: Result<(), Error>)
      requires Valid()
      modifies this
      ensures Valid() && initialized == old(initialized)
      ensures !initialized ==> r == Err(DatabaseNotInitialized) && db == old(db)
      ensures initialized && IdMissing(id) ==> r == Err(VariantIdRequired) && db == old(db)
      ensures initialized && !IdMissing(id) ==> r == Ok(()) && db == UpdateVariantRow(old(db), id.value, handle, barcode)
    {
      if !initialized {
        return Err(DatabaseNotInitialized);
      }
      if IdMissing(id) {
        return Err(VariantIdRequired);
      }
      db := UpdateVariantRow(db, id.value, handle, barcode);
      return Ok(());
    }

    /** `deleteProductVariant`. */
    method DeleteProductVariant(id: int) returns (r: Result<(), Error>)
      requires Valid()
      modifies this
      ensures Valid() && initialized == old(initialized)
      ensures !initialized ==> r == Err(DatabaseNotInitialized) && db == old(db)
      ensures initialized ==> r == Ok(()) && db == DeleteVariantRow(old(db), id)
    {
      if !initialized {
        return Err(DatabaseNotInitialized);
      }
      db := DeleteVariantRow(db, id);
      return Ok(());
    }

    // ---- Movements ----

    /**
     * `createInventoryMovement`: inside one transaction, the header, then each item in
     * order, then COMMIT. When the database rejects any of these statements the
     * transaction is rolled back: the tables are exactly as before and the error is
     * rethrown. Otherwise the new movement's id is returned.
     */
    method CreateInventoryMovement(movement: NewMovement, items: seq<NewItem>, fault: Fault)
      returns (r: Result<int, Error>)
      requires Valid()
      modifies this
      ensures Valid() && initialized == old(initialized)
      ensures !initialized ==> r == Err(DatabaseNotInitialized) && db == old(db)
      ensures initialized && Fails(fault, |items|) ==> r == Err(StorageFailure) && db == old(db)
      ensures initialized && !Fails(fault, |items|) ==>
        var posted := PostMovement(old(db), movement, items);
        r == Ok(posted.1) && db == posted.0
    {
      if !initialized {
        return Err(DatabaseNotInitialized);
      }
      var snapshot := db;
      if fault == HeaderRejected {
        db := snapshot;
        return Err(StorageFailure);
      }
      var movementId := NextKey(db.movements, MovementKey);
      db := InsertMovement(db, movement);
      var header := db;
      PrefixEnds(items);
      var i := 0;
      while i < |items|
        invariant 0 <= i <= |items|
        invariant initialized && header.Valid()
        invariant db == InsertItems(header, movementId, items[..i])
        invariant fault.ItemRejected? ==> fault.index >= i
      {
        if fault == ItemRejected(i) {
          db := snapshot;
          return Err(StorageFailure);
        }
        PrefixStep(items, i);
        db := InsertItem(db, movementId, items[i]);
        i := i + 1;
      }
      assert header == InsertMovement(old(db), movement);
      assert db == PostMovement(old(db), movement, items).0;
      if fault == CommitRejected {
        db := snapshot;
        return Err(StorageFailure);
      }
      return Ok(movementId);
    }

    /** `getInventoryMovements`: type and date bounds optional, newest first. */
    function GetInventoryMovements(movementType: Option<MovementType>, startDate: Option<string>,
                                   endDate: Option<string>): (r: Result<seq<Movement>, Error>)
      reads this
      ensures r.Err? <==> !initialized
      ensures r.Err? ==> r.error == DatabaseNotInitialized
      ensures r.Ok? ==> r.value == MovementsMatching(db, movementType, startDate, endDate)
      ensures r.Ok? ==> forall m :: m in r.value <==> m in db.movements && MatchesFilters(m, movementType, startDate, endDate)
      ensures r.Ok? ==> Sorted(r.value, MovementDateLe)
    {
      if !initialized then Err(DatabaseNotInitialized) else Ok(MovementsMatching(db, movementType, startDate, endDate))
    }

    /** `getMovementItems`. */
    function GetMovementItems(movementId: int): (r: Result<seq<MovementItem>, Error>)
      requires Valid()
      reads this
      ensures r.Err? <==> !initialized
      ensures r.Err? ==> r.error == DatabaseNotInitialized
      ensures r.Ok? ==> r.value == ItemsOfMovement(db, movementId)
      ensures r.Ok? ==> forall i :: i in r.value <==> i in db.items && i.movementId == movementId
    {
      if !initialized then Err(DatabaseNotInitialized) else Ok(ItemsOfMovement(db, movementId))
    }

    /** `getDetailedMovementItems`. */
    function GetDetailedMovementItems(movementId: int): (r: Result<seq<DetailedItem>, Error>)
      reads this
      ensures r.Err? <==> !initialized
      ensures r.Err? ==> r.error == DatabaseNotInitialized
      ensures r.Ok? ==> r.value == DetailedItems(db, movementId)
      ensures r.Ok? ==> forall d :: d in r.value ==> d.item in db.items && d.item.movementId == movementId
    {
      if !initialized then Err(DatabaseNotInitialized) else Ok(DetailedItems(db, movementId))
    }

    // ---- Stock ----

    /** `getAllStockLevels`. */
    function GetAllStockLevels(): (r: Result<seq<StockLevel>, Error>)
      reads this
      ensures r.Err? <==> !initialized
      ensures r.Err? ==> r.error == DatabaseNotInitialized
      ensures r.Ok? ==> r.value == AllStockLevels(db)
      ensures r.Ok? ==> Sorted(r.value, NameHandleLe) && |r.value| <= |db.stock|
    {
      if !initialized then Err(DatabaseNotInitialized) else Ok(AllStockLevels(db))
    }

    /** `getStockLevelForVariant`. */
    function GetStockLevelForVariant(variantId: int): (r: Result<Option<StockLevel>, Error>)
      requires Valid()
      reads this
      ensures r.Err? <==> !initialized
      ensures r.Err? ==> r.error == DatabaseNotInitialized
      ensures r.Ok? ==> r.value == StockLevelOf(db, variantId)
      ensures r.Ok? && r.value.Some? ==> r.value.value.variantId == variantId
    {
      if !initialized then Err(DatabaseNotInitialized) else Ok(StockLevelOf(db, variantId))
    }

    /** `getStockLevelsForProduct`. */
    function GetStockLevelsForProduct(productId: int): (r: Result<seq<StockLevel>, Error>)
      reads this
      ensures r.Err? <==> !initialized
      ensures r.Err? ==> r.error == DatabaseNotInitialized
      ensures r.Ok? ==> r.value == StockLevelsOfProduct(db, productId)
      ensures r.Ok? ==> Sorted(r.value, HandleLe)
    {
      if !initialized then Err(DatabaseNotInitialized) else Ok(StockLevelsOfProduct(db, productId))
    }

    /** `getLowStockItems`: the threshold defaults to 10. */
    function GetLowStockItems(threshold: Option<int>): (r: Result<seq<StockLevel>, Error>)
      reads this
      ensures r.Err? <==> !initialized
      ensures r.Err? ==> r.error == DatabaseNotInitialized
      ensures r.Ok? ==> r.value == LowStock(db, if threshold.Some? then threshold.value else DefaultLowStockThreshold)
      ensures r.Ok? && threshold.None? ==> forall x :: x in r.value ==> x.quantity <= DefaultLowStockThreshold
      ensures r.Ok? && threshold.Some? ==> forall x :: x in r.value ==> x.quantity <= threshold.value
    {
      if !initialized then Err(DatabaseNotInitialized)
      else Ok(LowStock(db, if threshold.Some? then threshold.value else DefaultLowStockThreshold))
    }

    /**
     * `updateStockLevel`: the variant's stock row now holds the quantity, created when
     * missing; no other variant's stock changes.
     */
    method UpdateStockLevel(variantId: int, quantity: int) returns (r: Result<(), Error>)
      requires Valid()
      modifies this
      ensures Valid() && initialized == old(initialized)
      ensures !initialized ==> r == Err(DatabaseNotInitialized) && db == old(db)
      ensures initialized ==> r == Ok(()) && db == old(db).(stock := UpsertStock(old(db).stock, variantId, quantity))
      ensures initialized ==> Find(db.stock, StockKey, variantId) == Some(Stock(variantId, quantity))
    {
      if !initialized {
        return Err(DatabaseNotInitialized);
      }
      db := db.(stock := UpsertStock(db.stock, variantId, quantity));
      return Ok(());
    }

    /** `getInventoryValuation`. */
    function GetInventoryValuation(): (r: Result<seq<ValuationRow>, Error>)
      reads this
      ensures r.Err? <==> !initialized
      ensures r.Err? ==> r.error == DatabaseNotInitialized
      ensures r.Ok? ==> r.value == Valuation(db)
      ensures r.Ok? ==> forall x :: x in r.value ==> x.quantity > 0 && x.totalValue == x.quantity * x.sellingPrice
    {
      if !initialized then Err(DatabaseNotInitialized) else Ok(Valuation(db))
    }

    /** `getVariantMovementHistory`. */
    function GetVariantMovementHistory(variantId: int): (r: Result<seq<HistoryEntry>, Error>)
      reads this
      ensures r.Err? <==> !initialized
      ensures r.Err? ==> r.error == DatabaseNotInitialized
      ensures r.Ok? ==> r.value == History(db, variantId)
      ensures r.Ok? ==> Sorted(r.value, HistoryDateLe) && |r.value| <= |db.items|
    {
      if !initialized then Err(DatabaseNotInitialized) else Ok(History(db, variantId))
    }
  }
}
