/**
 * The SELECT statements of lib/inventory-service.ts as functions of the tables: each is
 * the rows it returns, in the order its ORDER BY asks for (table order when there is none).
 */
module Queries {
  import opened Outcomes
  import opened Sql
  import opened Keyed
  import opened Store

  // ---- Orders ----

  predicate CategoryNameLe(a: Category, b: Category) { StrLe(a.name, b.name) }

  predicate ProductNameLe(a: Product, b: Product) { StrLe(a.name, b.name) }

  /** SQLite sorts NULL below every text value, so a descending order puts it last. */
  predicate DateDescLe(a: Option<string>, b: Option<string>) {
    match (a, b)
    case (Some(x), Some(y)) => StrLe(y, x)
    case (Some(_), None) => true
    case (None, Some(_)) => false
    case (None, None) => true
  }

  lemma DateDescTotal(a: Option<string>, b: Option<string>)
    ensures DateDescLe(a, b) || DateDescLe(b, a)
  {
    if a.Some? && b.Some? {
      StrLeTotal(a.value, b.value);
    }
  }

  predicate MovementDateLe(a: Movement, b: Movement) { DateDescLe(a.movementDate, b.movementDate) }

  lemma CategoryNameTotal()
    ensures Total(CategoryNameLe)
  {
    forall a: Category, b: Category ensures CategoryNameLe(a, b) || CategoryNameLe(b, a) {
      StrLeTotal(a.name, b.name);
    }
  }

  lemma ProductNameTotal()
    ensures Total(ProductNameLe)
  {
    forall a: Product, b: Product ensures ProductNameLe(a, b) || ProductNameLe(b, a) {
      StrLeTotal(a.name, b.name);
    }
  }

  lemma MovementDateTotal()
    ensures Total(MovementDateLe)
  {
    forall a: Movement, b: Movement ensures MovementDateLe(a, b) || MovementDateLe(b, a) {
      DateDescTotal(a.movementDate, b.movementDate);
    }
  }

  // ---- Categories ----

  /** `getAllCategories`: every category, ordered by name. */
  function CategoriesByName(t: Tables): (r: seq<Category>)
    ensures multiset(r) == multiset(t.categories)
    ensures Sorted(r, CategoryNameLe)
  {
    CategoryNameTotal();
    SortBySorted(t.categories, CategoryNameLe);
    SortBy(t.categories, CategoryNameLe)
  }

  // ---- Products ----

  /** A product row with the name of its category, NULL when it has none or it is gone. */
  datatype ProductListing = ProductListing(product: Product, categoryName: Option<string>)

  predicate ListingNameLe(a: ProductListing, b: ProductListing) { StrLe(a.product.name, b.product.name) }

  lemma ListingNameTotal()
    ensures Total(ListingNameLe)
  {
    forall a: ProductListing, b: ProductListing ensures ListingNameLe(a, b) || ListingNameLe(b, a) {
      StrLeTotal(a.product.name, b.product.name);
    }
  }

  /** `LEFT JOIN categories c ON p.category_id = c.id`, for one product. */
  function CategoryNameOf(t: Tables, p: Product): (name: Option<string>)
    ensures name.Some? <==> p.categoryId.Some? && Find(t.categories, CategoryKey, p.categoryId.value).Some?
    ensures name.Some? ==> Category(p.categoryId.value, name.value) in t.categories
  {
    if p.categoryId.None? then None
    else match Find(t.categories, CategoryKey, p.categoryId.value)
      case None => None
      case Some(c) => Some(c.name)
  }

  function ListingOf(t: Tables, p: Product): ProductListing {
    ProductListing(p, CategoryNameOf(t, p))
  }

  /**
   * `getAllProducts`: one row per product, whether or not its category exists, carrying its
   * category's name, ordered by product name.
   */
  function ProductsWithCategory(t: Tables): (r: seq<ProductListing>)
    ensures |r| == |t.products|
    ensures forall p :: p in t.products ==> ListingOf(t, p) in r
    ensures forall l :: l in r ==> l.product in t.products && l.categoryName == CategoryNameOf(t, l.product)
    ensures Sorted(r, ListingNameLe)
  {
    var listed := Map(t.products, (p: Product) => ListingOf(t, p));
    ListingNameTotal();
    SortBySorted(listed, ListingNameLe);
    SortBy(listed, ListingNameLe)
  }

  /** `getProductsByCategory`: the products of one category, ordered by name. */
  function ProductsInCategory(t: Tables, categoryId: int): (r: seq<Product>)
    ensures forall p :: p in r <==> p in t.products && p.categoryId == Some(categoryId)
    ensures forall p :: multiset(r)[p] == if p.categoryId == Some(categoryId) then multiset(t.products)[p] else 0
    ensures Sorted(r, ProductNameLe)
  {
    var inCategory := (p: Product) => p.categoryId == Some(categoryId);
    var rows := Filter(t.products, inCategory);
    forall p ensures multiset(rows)[p] == if p.categoryId == Some(categoryId) then multiset(t.products)[p] else 0 {
      FilterCount(t.products, inCategory, p);
    }
    ProductNameTotal();
    SortBySorted(rows, ProductNameLe);
    SortBy(rows, ProductNameLe)
  }

  // ---- Variants ----

  /** `getProductVariants`: the variants of one product, in table order. */
  function VariantsOfProduct(t: Tables, productId: int): (r: seq<Variant>)
    requires t.Valid()
    ensures forall v :: v in r <==> v in t.variants && v.productId == productId
    ensures Ascending(r, VariantKey)
  {
    FilterAscending(t.variants, (v: Variant) => v.productId == productId, VariantKey);
    Filter(t.variants, (v: Variant) => v.productId == productId)
  }

  // ---- Movements ----

  /** A filter argument is present when it is neither omitted nor "", the falsy string. */
  predicate Given(arg: Option<string>) {
    arg.Some? && arg.value != ""
  }

  /**
   * The WHERE clause `getInventoryMovements` builds: the type when given, and the date
   * bounds when given; a NULL date fails either bound.
   */
  predicate MatchesFilters(m: Movement, movementType: Option<MovementType>,
                           startDate: Option<string>, endDate: Option<string>) {
    (movementType.None? || m.movementType == movementType.value)
    && (Given(startDate) ==> m.movementDate.Some? && StrLe(startDate.value, m.movementDate.value))
    && (Given(endDate) ==> m.movementDate.Some? && StrLe(m.movementDate.value, endDate.value))
  }

  /** `getInventoryMovements`: the matching movements, newest date first, undated last. */
  function MovementsMatching(t: Tables, movementType: Option<MovementType>,
                             startDate: Option<string>, endDate: Option<string>): (r: seq<Movement>)
    ensures forall m :: m in r <==> m in t.movements && MatchesFilters(m, movementType, startDate, endDate)
    ensures multiset(r) <= multiset(t.movements)
    ensures Sorted(r, MovementDateLe)
  {
    var rows := Filter(t.movements, (m: Movement) => MatchesFilters(m, movementType, startDate, endDate));
    MovementDateTotal();
    SortBySorted(rows, MovementDateLe);
    SortBy(rows, MovementDateLe)
  }

  /** Without filters every movement is listed; "" counts as no date bound. */
  lemma UnfilteredListsAll(t: Tables, startDate: Option<string>, endDate: Option<string>)
    requires !Given(startDate) && !Given(endDate)
    ensures multiset(MovementsMatching(t, None, startDate, endDate)) == multiset(t.movements)
  {
    var p := (m: Movement) => MatchesFilters(m, None, startDate, endDate);
    FilterAll(t.movements, p);
  }

  lemma {:induction false} FilterAll<T(!new)>(s: seq<T>, p: T -> bool)
    requires forall x :: p(x)
    ensures Filter(s, p) == s
    decreases |s|
  {
    if s != [] {
      FilterAll(s[1..], p);
      assert s == [s[0]] + s[1..];
    }
  }

  // ---- Movement items ----

  /** `getMovementItems`: the items of one movement, in table order. */
  function ItemsOfMovement(t: Tables, movementId: int): (r: seq<MovementItem>)
    requires t.Valid()
    ensures forall i :: i in r <==> i in t.items && i.movementId == movementId
    ensures Ascending(r, ItemKey)
  {
    FilterAscending(t.items, (i: MovementItem) => i.movementId == movementId, ItemKey);
    Filter(t.items, (i: MovementItem) => i.movementId == movementId)
  }

  /** An item with the name of its product and the handle and barcode of its variant. */
  datatype DetailedItem = DetailedItem(item: MovementItem, productName: string, handle: string,
                                       barcode: Option<string>)

  /** The inner join of one item with its variant and that variant's product. */
  function DetailOf(t: Tables, i: MovementItem): (r: Option<DetailedItem>)
    ensures r.Some? <==> (Find(t.variants, VariantKey, i.variantId).Some?
                          && Find(t.products, ProductKey, Find(t.variants, VariantKey, i.variantId).value.productId).Some?)
    ensures r.Some? ==> r.value.item == i
  {
    match Find(t.variants, VariantKey, i.variantId)
    case None => None
    case Some(v) =>
      match Find(t.products, ProductKey, v.productId)
      case None => None
      case Some(p) => Some(DetailedItem(i, p.name, v.handle, v.barcode))
  }

  /** The join of `getDetailedMovementItems` for one item: nothing for an item of another movement. */
  function DetailIn(t: Tables, movementId: int, i: MovementItem): Option<DetailedItem> {
    if i.movementId == movementId then DetailOf(t, i) else None
  }

  /** The item a detailed row carries. */
  function DetailKey(d: DetailedItem): int { d.item.id }

  /**
   * `getDetailedMovementItems`: the items of one movement whose variant and product
   * exist, each with its product name, handle and barcode; an item whose variant or
   * product is gone is dropped by the inner join.
   */
  function DetailedItems(t: Tables, movementId: int): (r: seq<DetailedItem>)
    ensures forall i :: i in t.items && i.movementId == movementId && DetailOf(t, i).Some? ==>
      DetailOf(t, i).value in r
    ensures forall d :: d in r ==>
      d.item in t.items && d.item.movementId == movementId && DetailOf(t, d.item) == Some(d)
    ensures |r| <= |t.items|
    ensures Ascending(t.items, ItemKey) ==> DistinctKeys(r, DetailKey)
  {
    var join := (i: MovementItem) => DetailIn(t, movementId, i);
    if Ascending(t.items, ItemKey) then
      FilterMapDistinct(t.items, join, ItemKey, DetailKey);
      FilterMap(t.items, join)
    else FilterMap(t.items, join)
  }

  /**
   * A detailed row appears once for every item of the movement that joins to it; as a
   * detailed row carries its item, that is at most once when item ids differ.
   */
  lemma DetailedItemsCount(t: Tables, movementId: int, d: DetailedItem)
    ensures multiset(DetailedItems(t, movementId))[d] ==
            |Filter(t.items, (i: MovementItem) => i.movementId == movementId && DetailOf(t, i) == Some(d))|
  {
    FilterMapCountWhere(t.items, (i: MovementItem) => DetailIn(t, movementId, i), d,
                        (i: MovementItem) => i.movementId == movementId && DetailOf(t, i) == Some(d));
  }

  // ---- Stock ----

  /** A stock row joined with its variant and that variant's product. */
  datatype StockJoin = StockJoin(stock: Stock, variant: Variant, product: Product)

  /** `j` is a row of `inventory_stock s JOIN product_variants v JOIN products p`. */
  predicate InJoin(t: Tables, j: StockJoin) {
    j.stock in t.stock
    && Find(t.variants, VariantKey, j.stock.variantId) == Some(j.variant)
    && Find(t.products, ProductKey, j.variant.productId) == Some(j.product)
  }

  function JoinStock(t: Tables, s: Stock): (r: Option<StockJoin>)
    ensures r.Some? ==> r.value.stock == s && r.value.variant.id == s.variantId
    ensures s in t.stock ==> (r.Some? <==> exists j :: InJoin(t, j) && j.stock == s)
    ensures s in t.stock && r.Some? ==> InJoin(t, r.value)
  {
    match Find(t.variants, VariantKey, s.variantId)
    case None => None
    case Some(v) =>
      match Find(t.products, ProductKey, v.productId)
      case None => None
      case Some(p) => Some(StockJoin(s, v, p))
  }

  /** The variant a joined stock row belongs to. */
  function JoinKey(j: StockJoin): int { j.stock.variantId }

  /**
   * The joined stock rows: exactly the stock rows whose variant and product exist, each
   * once, since a stock row is keyed by its variant.
   */
  function Joined(t: Tables): (r: seq<StockJoin>)
    ensures forall j :: j in r <==> InJoin(t, j)
    ensures |r| <= |t.stock|
    ensures DistinctKeys(t.stock, StockKey) ==> DistinctKeys(r, JoinKey)
  {
    var join := (s: Stock) => JoinStock(t, s);
    var r := FilterMap(t.stock, join);
    forall j | InJoin(t, j) ensures j in r {
      assert JoinStock(t, j.stock) == Some(j);
    }
    if DistinctKeys(t.stock, StockKey) then
      FilterMapDistinct(t.stock, join, StockKey, JoinKey);
      r
    else r
  }

  /** When every stock row references a stored variant of a stored product, none is lost. */
  lemma JoinKeepsEveryRow(t: Tables)
    requires forall s :: s in t.stock ==> Find(t.variants, VariantKey, s.variantId).Some?
    requires forall v :: v in t.variants ==> Find(t.products, ProductKey, v.productId).Some?
    ensures |Joined(t)| == |t.stock|
  {
    forall s | s in t.stock ensures JoinStock(t, s).Some? {
      var v := Find(t.variants, VariantKey, s.variantId).value;
      assert v in t.variants;
    }
  }

  /** The columns the stock queries return. */
  datatype StockLevel = StockLevel(variantId: int, quantity: int, productName: string, handle: string,
                                   barcode: Option<string>)

  function LevelOf(j: StockJoin): StockLevel {
    StockLevel(j.stock.variantId, j.stock.quantity, j.product.name, j.variant.handle, j.variant.barcode)
  }

  function LevelKey(x: StockLevel): int { x.variantId }

  /** The joined rows that pass `keep`, projected by `f`, have distinct keys when the stock rows do. */
  lemma ProjectionDistinct<U(!new)>(t: Tables, keep: StockJoin -> bool, f: StockJoin -> U, key: U -> int)
    requires DistinctKeys(t.stock, StockKey)
    requires forall j :: InJoin(t, j) ==> key(f(j)) == JoinKey(j)
    ensures DistinctKeys(Map(Filter(Joined(t), keep), f), key)
  {
    FilterDistinct(Joined(t), keep, JoinKey);
    MapDistinct(Filter(Joined(t), keep), f, JoinKey, key);
  }

  /** `ORDER BY p.name, v.handle`. */
  predicate NameHandleLe(a: StockLevel, b: StockLevel) {
    if a.productName == b.productName then StrLe(a.handle, b.handle) else StrLe(a.productName, b.productName)
  }

  predicate HandleLe(a: StockLevel, b: StockLevel) { StrLe(a.handle, b.handle) }

  /** `ORDER BY s.quantity ASC, p.name`. */
  predicate LowStockLe(a: StockLevel, b: StockLevel) {
    a.quantity < b.quantity || (a.quantity == b.quantity && StrLe(a.productName, b.productName))
  }

  lemma NameHandleTotal()
    ensures Total(NameHandleLe)
  {
    forall a: StockLevel, b: StockLevel ensures NameHandleLe(a, b) || NameHandleLe(b, a) {
      StrLeTotal(a.productName, b.productName);
      StrLeTotal(a.handle, b.handle);
    }
  }

  lemma HandleTotal()
    ensures Total(HandleLe)
  {
    forall a: StockLevel, b: StockLevel ensures HandleLe(a, b) || HandleLe(b, a) {
      StrLeTotal(a.handle, b.handle);
    }
  }

  lemma LowStockTotal()
    ensures Total(LowStockLe)
  {
    forall a: StockLevel, b: StockLevel ensures LowStockLe(a, b) || LowStockLe(b, a) {
      StrLeTotal(a.productName, b.productName);
    }
  }

  /** `getAllStockLevels`: every joined stock row, ordered by product name, then handle. */
  function AllStockLevels(t: Tables): (r: seq<StockLevel>)
    ensures forall x :: x in r <==> exists j :: InJoin(t, j) && LevelOf(j) == x
    ensures |r| <= |t.stock|
    ensures DistinctKeys(t.stock, StockKey) ==> DistinctKeys(r, LevelKey)
    ensures Sorted(r, NameHandleLe)
  {
    var rows := Map(Joined(t), LevelOf);
    NameHandleTotal();
    SortBySorted(rows, NameHandleLe);
    if DistinctKeys(t.stock, StockKey) then
      MapDistinct(Joined(t), LevelOf, JoinKey, LevelKey);
      SortByDistinct(rows, NameHandleLe, LevelKey);
      SortBy(rows, NameHandleLe)
    else SortBy(rows, NameHandleLe)
  }

  /**
   * `getStockLevelForVariant`: the variant's stock row joined with its variant and product,
   * or nothing when the variant has no stock row or the join drops it.
   */
  function StockLevelOf(t: Tables, variantId: int): (r: Option<StockLevel>)
    requires t.Valid()
    ensures r.Some? ==> Find(t.stock, StockKey, variantId).Some?
    ensures r.Some? ==> r.value.variantId == variantId
  {
    match Find(t.stock, StockKey, variantId)
    case None => None
    case Some(s) =>
      match JoinStock(t, s)
      case None => None
      case Some(j) => Some(LevelOf(j))
  }

  /** A level is found exactly when some row of the join belongs to the variant. */
  lemma StockLevelExact(t: Tables, variantId: int)
    requires t.Valid()
    ensures StockLevelOf(t, variantId).Some? <==> exists j :: InJoin(t, j) && j.stock.variantId == variantId
  {
    match Find(t.stock, StockKey, variantId)
    case None =>
    case Some(s) =>
      match JoinStock(t, s)
      case None =>
        assert forall j :: InJoin(t, j) && j.stock.variantId == variantId ==> j.stock == s;
      case Some(j) =>
        assert InJoin(t, j);
  }

  /** The level of one variant is one of the rows of the full listing. */
  lemma StockLevelListed(t: Tables, variantId: int)
    requires t.Valid() && StockLevelOf(t, variantId).Some?
    ensures StockLevelOf(t, variantId).value in AllStockLevels(t)
  {
    var s := Find(t.stock, StockKey, variantId).value;
    assert InJoin(t, JoinStock(t, s).value);
  }

  /** `getStockLevelsForProduct`: the joined stock rows of one product, ordered by handle. */
  function StockLevelsOfProduct(t: Tables, productId: int): (r: seq<StockLevel>)
    ensures forall x :: x in r <==> exists j :: InJoin(t, j) && j.product.id == productId && LevelOf(j) == x
    ensures DistinctKeys(t.stock, StockKey) ==> DistinctKeys(r, LevelKey)
    ensures Sorted(r, HandleLe)
  {
    var inProduct := (j: StockJoin) => j.product.id == productId;
    var rows := Map(Filter(Joined(t), inProduct), LevelOf);
    MapFilterMembers(Joined(t), inProduct, LevelOf);
    HandleTotal();
    SortBySorted(rows, HandleLe);
    if DistinctKeys(t.stock, StockKey) then
      ProjectionDistinct(t, inProduct, LevelOf, LevelKey);
      SortByDistinct(rows, HandleLe, LevelKey);
      SortBy(rows, HandleLe)
    else SortBy(rows, HandleLe)
  }

  /** The threshold `getLowStockItems` uses when none is passed. */
  const DefaultLowStockThreshold := 10

  /**
   * `getLowStockItems`: the joined stock rows at or below the threshold, fewest first,
   * then by product name.
   */
  function LowStock(t: Tables, threshold: int): (r: seq<StockLevel>)
    ensures forall x :: x in r <==> exists j :: InJoin(t, j) && j.stock.quantity <= threshold && LevelOf(j) == x
    ensures forall x :: x in r ==> x.quantity <= threshold
    ensures DistinctKeys(t.stock, StockKey) ==> DistinctKeys(r, LevelKey)
    ensures Sorted(r, LowStockLe)
  {
    var low := (j: StockJoin) => j.stock.quantity <= threshold;
    var rows := Map(Filter(Joined(t), low), LevelOf);
    MapFilterMembers(Joined(t), low, LevelOf);
    LowStockTotal();
    SortBySorted(rows, LowStockLe);
    if DistinctKeys(t.stock, StockKey) then
      ProjectionDistinct(t, low, LevelOf, LevelKey);
      SortByDistinct(rows, LowStockLe, LevelKey);
      SortBy(rows, LowStockLe)
    else SortBy(rows, LowStockLe)
  }

  /** Raising the threshold never drops a row. */
  lemma LowStockMonotone(t: Tables, low: int, high: int)
    requires low <= high
    ensures forall x :: x in LowStock(t, low) ==> x in LowStock(t, high)
  {
  }

  // ---- Valuation ----

  /** One row of the valuation report. */
  datatype ValuationRow = ValuationRow(productId: int, productName: string, variantId: int, handle: string,
                                       barcode: Option<string>, quantity: int, sellingPrice: int,
                                       totalValue: int)

  function ValuationOf(j: StockJoin): (v: ValuationRow)
    ensures v.totalValue == v.quantity * v.sellingPrice
  {
    ValuationRow(j.product.id, j.product.name, j.variant.id, j.variant.handle, j.variant.barcode,
                 j.stock.quantity, j.product.sellingPrice, j.stock.quantity * j.product.sellingPrice)
  }

  function ValuationKey(x: ValuationRow): int { x.variantId }

  /** `ORDER BY total_value DESC`. */
  predicate ValueDescLe(a: ValuationRow, b: ValuationRow) { a.totalValue >= b.totalValue }

  /**
   * `getInventoryValuation`: every joined stock row with a positive quantity, valued at
   * quantity times selling price, highest value first.
   */
  function Valuation(t: Tables): (r: seq<ValuationRow>)
    ensures forall x :: x in r <==> exists j :: InJoin(t, j) && j.stock.quantity > 0 && ValuationOf(j) == x
    ensures forall x :: x in r ==> x.quantity > 0 && x.totalValue == x.quantity * x.sellingPrice
    ensures forall i, k :: 0 <= i < k < |r| ==> r[i].totalValue >= r[k].totalValue
  {
    var positive := (j: StockJoin) => j.stock.quantity > 0;
    var rows := Map(Filter(Joined(t), positive), ValuationOf);
    var r := SortBy(rows, ValueDescLe);
    SortBySorted(rows, ValueDescLe);
    forall i, k | 0 <= i < k < |r| ensures r[i].totalValue >= r[k].totalValue {
      SortedPairwise(r, ValueDescLe, i, k);
    }
    r
  }

  /** Each variant's stock row is valued at most once, so the rows' sums count it once. */
  lemma ValuationDistinct(t: Tables)
    requires DistinctKeys(t.stock, StockKey)
    ensures DistinctKeys(Valuation(t), ValuationKey)
  {
    var positive := (j: StockJoin) => j.stock.quantity > 0;
    forall j | InJoin(t, j) ensures ValuationKey(ValuationOf(j)) == JoinKey(j) {
      assert j.variant.id == j.stock.variantId;
    }
    ProjectionDistinct(t, positive, ValuationOf, ValuationKey);
    SortByDistinct(Map(Filter(Joined(t), positive), ValuationOf), ValueDescLe, ValuationKey);
  }

  // ---- Movement history ----

  /** One line of a variant's movement history. */
  datatype HistoryEntry = HistoryEntry(movementType: MovementType, movementDate: Option<string>, quantity: int,
                                       pricePerUnit: int, totalPrice: int, notes: Option<string>)

  predicate HistoryDateLe(a: HistoryEntry, b: HistoryEntry) { DateDescLe(a.movementDate, b.movementDate) }

  lemma HistoryDateTotal()
    ensures Total(HistoryDateLe)
  {
    forall a: HistoryEntry, b: HistoryEntry ensures HistoryDateLe(a, b) || HistoryDateLe(b, a) {
      DateDescTotal(a.movementDate, b.movementDate);
    }
  }

  /** The inner join of one item with its movement. */
  function EntryOf(t: Tables, i: MovementItem): (r: Option<HistoryEntry>)
    ensures r.Some? <==> Find(t.movements, MovementKey, i.movementId).Some?
    ensures r.Some? ==>
      r.value.quantity == i.quantity && r.value.pricePerUnit == i.pricePerUnit && r.value.totalPrice == i.totalPrice
  {
    match Find(t.movements, MovementKey, i.movementId)
    case None => None
    case Some(m) => Some(HistoryEntry(m.movementType, m.movementDate, i.quantity, i.pricePerUnit,
                                      i.totalPrice, m.notes))
  }

  /**
   * `getVariantMovementHistory`: one entry per item of the variant whose movement exists,
   * newest date first, undated last.
   */
  function History(t: Tables, variantId: int): (r: seq<HistoryEntry>)
    ensures forall i :: i in t.items && i.variantId == variantId && EntryOf(t, i).Some? ==> EntryOf(t, i).value in r
    ensures forall e :: e in r ==> exists i :: i in t.items && i.variantId == variantId && EntryOf(t, i) == Some(e)
    ensures |r| <= |t.items|
    ensures Sorted(r, HistoryDateLe)
  {
    var rows := HistoryRows(t, variantId);
    HistoryDateTotal();
    SortBySorted(rows, HistoryDateLe);
    SortBy(rows, HistoryDateLe)
  }

  /** The join of `getVariantMovementHistory` for one item: nothing for an item of another variant. */
  function EntryFor(t: Tables, variantId: int, i: MovementItem): Option<HistoryEntry> {
    if i.variantId == variantId then EntryOf(t, i) else None
  }

  /** The history rows in table order, before `ORDER BY`. */
  function HistoryRows(t: Tables, variantId: int): seq<HistoryEntry> {
    FilterMap(t.items, (i: MovementItem) => EntryFor(t, variantId, i))
  }

  /**
   * An entry appears once for every item of the variant whose movement gives it: two
   * items with equal columns give two equal entries.
   */
  lemma HistoryCount(t: Tables, variantId: int, e: HistoryEntry)
    ensures multiset(History(t, variantId))[e] ==
            |Filter(t.items, (i: MovementItem) => i.variantId == variantId && EntryOf(t, i) == Some(e))|
  {
    FilterMapCountWhere(t.items, (i: MovementItem) => EntryFor(t, variantId, i), e,
                        (i: MovementItem) => i.variantId == variantId && EntryOf(t, i) == Some(e));
  }
}
