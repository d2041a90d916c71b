/**
 * The rows of the SQLite store behind lib/inventory-service.ts, the six tables as one
 * value, the inputs the service accepts, its errors, and the table changes its INSERT
 * statements make. Created/updated timestamps are not modelled.
 */
module Store {
  import opened Outcomes
  import opened Keyed

  datatype MovementType = IN | OUT | RETURN

  datatype Category = Category(id: int, name: string)

  datatype Product = Product(id: int, name: string, categoryId: Option<int>,
                             imagePath: Option<string>, sellingPrice: int)

  /** A `product_variants` row: only the columns the service writes. */
  datatype Variant = Variant(id: int, productId: int, handle: string, barcode: Option<string>)

  datatype Movement = Movement(id: int, movementType: MovementType, movementDate: Option<string>,
                               notes: Option<string>)

  datatype MovementItem = MovementItem(id: int, movementId: int, variantId: int, quantity: int,
                                       pricePerUnit: int, totalPrice: int)

  /** An `inventory_stock` row, keyed by its variant. */
  datatype Stock = Stock(variantId: int, quantity: int)

  function CategoryKey(c: Category): int { c.id }
  function ProductKey(p: Product): int { p.id }
  function VariantKey(v: Variant): int { v.id }
  function MovementKey(m: Movement): int { m.id }
  function ItemKey(i: MovementItem): int { i.id }
  function StockKey(s: Stock): int { s.variantId }

  /** The six tables, each in table order. */
  datatype Tables = Tables(categories: seq<Category>, products: seq<Product>, variants: seq<Variant>,
                           movements: seq<Movement>, items: seq<MovementItem>, stock: seq<Stock>)
  {
    /** Rowids ascend in every table with one; one stock row per variant at most. */
    ghost predicate Valid() {
      Ascending(categories, CategoryKey) && Ascending(products, ProductKey)
      && Ascending(variants, VariantKey) && Ascending(movements, MovementKey)
      && Ascending(items, ItemKey) && DistinctKeys(stock, StockKey)
    }
  }

  const Empty := Tables([], [], [], [], [], [])

  /** The fields of `createProduct`'s argument it inserts. */
  datatype NewProduct = NewProduct(name: string, categoryId: Option<int>, imagePath: Option<string>,
                                   sellingPrice: int)

  /** The fields of `createProductVariant`'s argument it inserts. */
  datatype NewVariant = NewVariant(productId: int, handle: string, barcode: Option<string>)

  /** The movement header given to `createInventoryMovement`. */
  datatype NewMovement = NewMovement(movementType: MovementType, movementDate: Option<string>,
                                     notes: Option<string>)

  /** One movement item as given to `createInventoryMovement`, without ids. */
  datatype NewItem = NewItem(variantId: int, quantity: int, pricePerUnit: int, totalPrice: int)

  /** What the service throws. */
  datatype Error =
    | DatabaseNotInitialized
    | CategoryIdRequired
    | ProductIdRequired
    | VariantIdRequired
    | LoadFailed
    | StorageFailure
    | ProductNotFound(productId: int)
    | VariantNotFound(variantId: int)

  /**
   * Which statement of a movement posting the database rejects, if any: the header insert,
   * the item insert at an index, or the COMMIT. Storage failures are outside the model;
   * this parameter stands for them.
   */
  datatype Fault = NoFault | HeaderRejected | ItemRejected(index: nat) | CommitRejected

  /** The posting of `itemCount` items runs into the fault. */
  predicate Fails(fault: Fault, itemCount: nat) {
    match fault
    case NoFault => false
    case HeaderRejected => true
    case ItemRejected(i) => i < itemCount
    case CommitRejected => true
  }

  /** An id is missing when it is absent or 0, the values JavaScript treats as false. */
  predicate IdMissing(id: Option<int>) {
    id.None? || id.value == 0
  }

  /** `movement_date || null`: an absent or empty date is stored as NULL. */
  function StoredDate(date: Option<string>): (d: Option<string>)
    ensures d.Some? <==> date.Some? && date.value != ""
    ensures d.Some? ==> d == date
  {
    if date.Some? && date.value != "" then date else None
  }

  /** `total_price || price_per_unit * quantity`: a zero total is replaced by the product. */
  function StoredTotal(item: NewItem): (total: int)
    ensures item.totalPrice != 0 ==> total == item.totalPrice
    ensures item.totalPrice == 0 ==> total == item.pricePerUnit * item.quantity
  {
    if item.totalPrice != 0 then item.totalPrice else item.pricePerUnit * item.quantity
  }

  /** The row an item becomes under the given ids. */
  function ItemRow(id: int, movementId: int, item: NewItem): MovementItem {
    MovementItem(id, movementId, item.variantId, item.quantity, item.pricePerUnit, StoredTotal(item))
  }

  /** `INSERT INTO categories (name)`. */
  function InsertCategory(t: Tables, name: string): (r: Tables)
    requires t.Valid()
    ensures r.Valid()
    ensures r == t.(categories := t.categories + [Category(NextKey(t.categories, CategoryKey), name)])
  {
    var c := Category(NextKey(t.categories, CategoryKey), name);
    AppendAscending(t.categories, c, CategoryKey);
    t.(categories := t.categories + [c])
  }

  /** `INSERT INTO products (name, category_id, image_path, selling_price)`. */
  function InsertProduct(t: Tables, p: NewProduct): (r: Tables)
    requires t.Valid()
    ensures r.Valid()
    ensures var id := NextKey(t.products, ProductKey);
      r == t.(products := t.products + [Product(id, p.name, p.categoryId, p.imagePath, p.sellingPrice)])
  {
    var row := Product(NextKey(t.products, ProductKey), p.name, p.categoryId, p.imagePath, p.sellingPrice);
    AppendAscending(t.products, row, ProductKey);
    t.(products := t.products + [row])
  }

  /** `INSERT INTO product_variants (product_id, handle, barcode)`. */
  function InsertVariant(t: Tables, v: NewVariant): (r: Tables)
    requires t.Valid()
    ensures r.Valid()
    ensures var id := NextKey(t.variants, VariantKey);
      r == t.(variants := t.variants + [Variant(id, v.productId, v.handle, v.barcode)])
  {
    var row := Variant(NextKey(t.variants, VariantKey), v.productId, v.handle, v.barcode);
    AppendAscending(t.variants, row, VariantKey);
    t.(variants := t.variants + [row])
  }

  /** `INSERT INTO inventory_movements (movement_type, movement_date, notes)`. */
  function InsertMovement(t: Tables, m: NewMovement): (r: Tables)
    requires t.Valid()
    ensures r.Valid()
    ensures var id := NextKey(t.movements, MovementKey);
      r == t.(movements := t.movements + [Movement(id, m.movementType, StoredDate(m.movementDate), m.notes)])
  {
    var row := Movement(NextKey(t.movements, MovementKey), m.movementType, StoredDate(m.movementDate), m.notes);
    AppendAscending(t.movements, row, MovementKey);
    t.(movements := t.movements + [row])
  }

  /** `INSERT INTO inventory_movement_items (...)` for one item. */
  function InsertItem(t: Tables, movementId: int, item: NewItem): (r: Tables)
    requires t.Valid()
    ensures r.Valid()
    ensures r == t.(items := t.items + [ItemRow(NextKey(t.items, ItemKey), movementId, item)])
  {
    var row := ItemRow(NextKey(t.items, ItemKey), movementId, item);
    AppendAscending(t.items, row, ItemKey);
    t.(items := t.items + [row])
  }

  /**
   * The item inserts of one movement, in input order: the items table grows by exactly one
   * row per item and no other table changes (`InsertItemsRows` says what the rows hold).
   */
  function InsertItems(t: Tables, movementId: int, items: seq<NewItem>): (r: Tables)
    requires t.Valid()
    ensures r.Valid()
    ensures r == t.(items := r.items)
    ensures |r.items| == |t.items| + |items| && r.items[..|t.items|] == t.items
    decreases |items|
  {
    if items == [] then t
    else
      var prev := InsertItems(t, movementId, items[..|items| - 1]);
      var r := InsertItem(prev, movementId, items[|items| - 1]);
      assert r.items[..|prev.items|] == prev.items;
      r
  }

  /**
   * Row `k` of the inserted rows carries the movement id, the `k`-th item's variant,
   * quantity and unit price, its stored total, and the `k`-th fresh id.
   */
  lemma {:induction false} InsertItemsRows(t: Tables, movementId: int, items: seq<NewItem>)
    requires t.Valid()
    ensures var r := InsertItems(t, movementId, items);
      forall k :: 0 <= k < |items| ==>
        r.items[|t.items| + k] == ItemRow(NextKey(t.items, ItemKey) + k, movementId, items[k])
    decreases |items|
  {
    if items != [] {
      var n := |items|;
      var init := items[..n - 1];
      InsertItemsRows(t, movementId, init);
      var prev := InsertItems(t, movementId, init);
      var r := InsertItems(t, movementId, items);
      assert r.items == prev.items + [ItemRow(NextKey(prev.items, ItemKey), movementId, items[n - 1])];
      assert NextKey(prev.items, ItemKey) == NextKey(t.items, ItemKey) + n - 1 by {
        if n > 1 {
          assert prev.items[|t.items| + n - 2] == ItemRow(NextKey(t.items, ItemKey) + n - 2, movementId, init[n - 2]);
        }
      }
      forall k | 0 <= k < n
        ensures r.items[|t.items| + k] == ItemRow(NextKey(t.items, ItemKey) + k, movementId, items[k])
      {
        if k < n - 1 {
          assert init[k] == items[k];
          assert r.items[|t.items| + k] == prev.items[|t.items| + k];
        }
      }
    }
  }

  /**
   * A successful `createInventoryMovement`: one header with the next movement id, then the
   * items under that id. Its second component is the id returned.
   */
  function PostMovement(t: Tables, m: NewMovement, items: seq<NewItem>): (r: (Tables, int))
    requires t.Valid()
    ensures r.0.Valid()
    ensures r.1 == NextKey(t.movements, MovementKey) && r.1 >= 1
    ensures r.0.movements == t.movements + [Movement(r.1, m.movementType, StoredDate(m.movementDate), m.notes)]
    ensures r.0.categories == t.categories && r.0.products == t.products
    ensures r.0.variants == t.variants && r.0.stock == t.stock
    ensures |r.0.items| == |t.items| + |items| && r.0.items[..|t.items|] == t.items
    ensures forall k :: 0 <= k < |items| ==>
      r.0.items[|t.items| + k] == ItemRow(NextKey(t.items, ItemKey) + k, r.1, items[k])
  {
    var id := NextKey(t.movements, MovementKey);
    var header := InsertMovement(t, m);
    assert header.items == t.items;
    InsertItemsRows(header, id, items);
    (InsertItems(header, id, items), id)
  }

  /** `UPDATE categories SET name = ? WHERE id = ?`: a missing id changes nothing. */
  function UpdateCategoryRow(t: Tables, id: int, name: string): (r: Tables)
    requires t.Valid()
    ensures r.Valid()
    ensures r == t.(categories := r.categories) && |r.categories| == |t.categories|
    ensures Find(r.categories, CategoryKey, id) ==
      if Find(t.categories, CategoryKey, id).Some? then Some(Category(id, name)) else None
    ensures forall k :: k != id ==> Find(r.categories, CategoryKey, k) == Find(t.categories, CategoryKey, k)
  {
    t.(categories := Replace(t.categories, CategoryKey, id, (c: Category) => c.(name := name)))
  }

  /** `DELETE FROM categories WHERE id = ?`. */
  function DeleteCategoryRow(t: Tables, id: int): (r: Tables)
    requires t.Valid()
    ensures r.Valid()
    ensures r == t.(categories := r.categories)
    ensures forall c :: c in r.categories <==> c in t.categories && c.id != id
    ensures forall k :: Find(r.categories, CategoryKey, k) == if k == id then None else Find(t.categories, CategoryKey, k)
  {
    t.(categories := Remove(t.categories, CategoryKey, id))
  }

  /** `UPDATE products SET name, category_id, image_path, selling_price WHERE id = ?`. */
  function UpdateProductRow(t: Tables, id: int, p: NewProduct): (r: Tables)
    requires t.Valid()
    ensures r.Valid()
    ensures r == t.(products := r.products) && |r.products| == |t.products|
    ensures Find(r.products, ProductKey, id) ==
      if Find(t.products, ProductKey, id).Some?
      then Some(Product(id, p.name, p.categoryId, p.imagePath, p.sellingPrice)) else None
    ensures forall k :: k != id ==> Find(r.products, ProductKey, k) == Find(t.products, ProductKey, k)
  {
    t.(products := Replace(t.products, ProductKey, id,
      (q: Product) => q.(name := p.name, categoryId := p.categoryId, imagePath := p.imagePath,
                         sellingPrice := p.sellingPrice)))
  }

  /** `DELETE FROM products WHERE id = ?`; the product's variants stay. */
  function DeleteProductRow(t: Tables, id: int): (r: Tables)
    requires t.Valid()
    ensures r.Valid()
    ensures r == t.(products := r.products)
    ensures forall p :: p in r.products <==> p in t.products && p.id != id
    ensures forall k :: Find(r.products, ProductKey, k) == if k == id then None else Find(t.products, ProductKey, k)
  {
    t.(products := Remove(t.products, ProductKey, id))
  }

  /**
   * `UPDATE product_variants SET handle = ?, barcode = ? WHERE id = ?`: the variant keeps
   * its product.
   */
  function UpdateVariantRow(t: Tables, id: int, handle: string, barcode: Option<string>): (r: Tables)
    requires t.Valid()
    ensures r.Valid()
    ensures r == t.(variants := r.variants) && |r.variants| == |t.variants|
    ensures Find(r.variants, VariantKey, id) ==
      if Find(t.variants, VariantKey, id).Some?
      then Some(Variant(id, Find(t.variants, VariantKey, id).value.productId, handle, barcode)) else None
    ensures forall k :: k != id ==> Find(r.variants, VariantKey, k) == Find(t.variants, VariantKey, k)
  {
    t.(variants := Replace(t.variants, VariantKey, id, (v: Variant) => v.(handle := handle, barcode := barcode)))
  }

  /** `DELETE FROM product_variants WHERE id = ?`; its stock row and items stay. */
  function DeleteVariantRow(t: Tables, id: int): (r: Tables)
    requires t.Valid()
    ensures r.Valid()
    ensures r == t.(variants := r.variants)
    ensures forall v :: v in r.variants <==> v in t.variants && v.id != id
    ensures forall k :: Find(r.variants, VariantKey, k) == if k == id then None else Find(t.variants, VariantKey, k)
  {
    t.(variants := Remove(t.variants, VariantKey, id))
  }

  /**
   * The upsert of `updateStockLevel`: the variant's row now holds the quantity, inserted
   * when missing; every other variant's row is as before.
   */
  function UpsertStock(stock: seq<Stock>, variantId: int, quantity: int): (r: seq<Stock>)
    requires DistinctKeys(stock, StockKey)
    ensures DistinctKeys(r, StockKey)
    ensures Find(r, StockKey, variantId) == Some(Stock(variantId, quantity))
    ensures forall v :: v != variantId ==> Find(r, StockKey, v) == Find(stock, StockKey, v)
    ensures Find(stock, StockKey, variantId).Some? ==> |r| == |stock|
    ensures Find(stock, StockKey, variantId).None? ==> r == stock + [Stock(variantId, quantity)]
  {
    if Find(stock, StockKey, variantId).Some? then
      Replace(stock, StockKey, variantId, (s: Stock) => s.(quantity := quantity))
    else
      var r := stock + [Stock(variantId, quantity)];
      AppendDistinct(stock, Stock(variantId, quantity), StockKey);
      assert forall v :: Find(r, StockKey, v) == if Find(stock, StockKey, v).Some? then Find(stock, StockKey, v)
                                                 else if v == variantId then Some(Stock(variantId, quantity)) else None by {
        forall v ensures Find(r, StockKey, v) == if Find(stock, StockKey, v).Some? then Find(stock, StockKey, v)
                                                 else if v == variantId then Some(Stock(variantId, quantity)) else None {
          FindAppend(stock, Stock(variantId, quantity), StockKey, v);
        }
      }
      r
  }
}
