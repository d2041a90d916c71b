/**
 * `InventoryManager` of lib/inventory-manager.ts: business operations composed from the
 * service's calls. The manager holds no state of its own; every operation works through
 * the one service it is given.
 */
module Manager {
  import opened Outcomes
  import opened Sql
  import opened Keyed
  import opened Store
  import opened Queries
  import opened Service

  /** `initialize`: forwards to the service. */
  method Initialize(svc: InventoryService, file: Option<Tables>) returns (r: Result<(), Error>)
    requires file.Some? ==> file.value.Valid()
    requires svc.Valid()
    modifies svc
    ensures svc.Valid()
    ensures file.None? ==> r == Err(LoadFailed) && svc.initialized == old(svc.initialized) && svc.db == old(svc.db)
    ensures file.Some? ==> r == Ok(()) && svc.initialized && svc.db == file.value
  {
    r := svc.Initialize(file);
  }

  // ---- Recording movements ----

  /** One line of a purchase, sale or return: a variant, a quantity and a price per unit. */
  datatype Line = Line(variantId: int, quantity: int, unitPrice: int)

  /** The movement item of a line: its total is quantity times unit price. */
  function ToItem(line: Line): NewItem {
    NewItem(line.variantId, line.quantity, line.unitPrice, line.quantity * line.unitPrice)
  }

  /** The movement items of the lines, in line order. */
  function ToItems(lines: seq<Line>): (items: seq<NewItem>)
    ensures |items| == |lines|
    ensures forall k :: 0 <= k < |lines| ==> items[k] == ToItem(lines[k])
  {
    seq(|lines|, k requires 0 <= k < |lines| => ToItem(lines[k]))
  }

  /** `notes || fallback`: absent or empty notes are replaced. */
  function NotesOr(notes: Option<string>, fallback: string): (r: Option<string>)
    ensures Given(notes) ==> r == notes
    ensures !Given(notes) ==> r == Some(fallback)
  {
    if Given(notes) then notes else Some(fallback)
  }

  /**
   * Whatever the line, the stored item carries the line's variant, quantity and unit price,
   * and a total equal to quantity times unit price: the service's fallback for a zero total
   * computes the same product.
   */
  lemma StoredLineTotal(t: Tables, m: NewMovement, lines: seq<Line>)
    requires t.Valid()
    ensures var r := PostMovement(t, m, ToItems(lines)).0;
      forall k :: 0 <= k < |lines| ==>
        var row := r.items[|t.items| + k];
        row.variantId == lines[k].variantId && row.quantity == lines[k].quantity
        && row.pricePerUnit == lines[k].unitPrice && row.totalPrice == lines[k].quantity * lines[k].unitPrice
  {
    forall k | 0 <= k < |lines| {
      StoredLine(t, m, lines, k);
    }
  }

  /** The row stored for line `k`. */
  lemma StoredLine(t: Tables, m: NewMovement, lines: seq<Line>, k: int)
    requires t.Valid() && 0 <= k < |lines|
    ensures var row := PostMovement(t, m, ToItems(lines)).0.items[|t.items| + k];
      row.variantId == lines[k].variantId && row.quantity == lines[k].quantity
      && row.pricePerUnit == lines[k].unitPrice && row.totalPrice == lines[k].quantity * lines[k].unitPrice
  {
    var items := ToItems(lines);
    var posted := PostMovement(t, m, items);
    assert items[k] == ToItem(lines[k]);
    assert posted.0.items[|t.items| + k] == ItemRow(NextKey(t.items, ItemKey) + k, posted.1, items[k]);
    StoredTotalOfLine(lines[k]);
  }

  /** A line's own total survives the service's fallback for a zero total. */
  lemma StoredTotalOfLine(line: Line)
    ensures StoredTotal(ToItem(line)) == line.quantity * line.unitPrice
  {
    assert line.unitPrice * line.quantity == line.quantity * line.unitPrice;
  }

  /** `recordPurchase`: an IN movement, with "Stock purchase" when no notes are given. */
  method RecordPurchase(svc: InventoryService, lines: seq<Line>, notes: Option<string>, fault: Fault)
    returns (r: Result<int, Error>)
    requires svc.Valid()
    modifies svc
    ensures svc.Valid() && svc.initialized == old(svc.initialized)
    ensures !svc.initialized ==> r == Err(DatabaseNotInitialized) && svc.db == old(svc.db)
    ensures svc.initialized && Fails(fault, |lines|) ==> r == Err(StorageFailure) && svc.db == old(svc.db)
    ensures svc.initialized && !Fails(fault, |lines|) ==>
      var posted := PostMovement(old(svc.db), NewMovement(IN, None, NotesOr(notes, "Stock purchase")), ToItems(lines));
      r == Ok(posted.1) && svc.db == posted.0
  {
    r := svc.CreateInventoryMovement(NewMovement(IN, None, NotesOr(notes, "Stock purchase")), ToItems(lines), fault);
  }

  /** `recordSale`: an OUT movement, with "Sale" when no notes are given. */
  method RecordSale(svc: InventoryService, lines: seq<Line>, notes: Option<string>, fault: Fault)
    returns (r: Result<int, Error>)
    requires svc.Valid()
    modifies svc
    ensures svc.Valid() && svc.initialized == old(svc.initialized)
    ensures !svc.initialized ==> r == Err(DatabaseNotInitialized) && svc.db == old(svc.db)
    ensures svc.initialized && Fails(fault, |lines|) ==> r == Err(StorageFailure) && svc.db == old(svc.db)
    ensures svc.initialized && !Fails(fault, |lines|) ==>
      var posted := PostMovement(old(svc.db), NewMovement(OUT, None, NotesOr(notes, "Sale")), ToItems(lines));
      r == Ok(posted.1) && svc.db == posted.0
  {
    r := svc.CreateInventoryMovement(NewMovement(OUT, None, NotesOr(notes, "Sale")), ToItems(lines), fault);
  }

  /** `recordReturn`: a RETURN movement, with "Product return" when no notes are given. */
  method RecordReturn(svc: InventoryService, lines: seq<Line>, notes: Option<string>, fault: Fault)
    returns (r: Result<int, Error>)
    requires svc.Valid()
    modifies svc
    ensures svc.Valid() && svc.initialized == old(svc.initialized)
    ensures !svc.initialized ==> r == Err(DatabaseNotInitialized) && svc.db == old(svc.db)
    ensures svc.initialized && Fails(fault, |lines|) ==> r == Err(StorageFailure) && svc.db == old(svc.db)
    ensures svc.initialized && !Fails(fault, |lines|) ==>
      var posted := PostMovement(old(svc.db), NewMovement(RETURN, None, NotesOr(notes, "Product return")), ToItems(lines));
      r == Ok(posted.1) && svc.db == posted.0
  {
    r := svc.CreateInventoryMovement(NewMovement(RETURN, None, NotesOr(notes, "Product return")), ToItems(lines), fault);
  }

  // ---- Stock availability ----

  /** A variant and the quantity wanted of it. */
  datatype Request = Request(variantId: int, quantity: int)

  /** A request the stock cannot cover, with what is available and, when known, the names. */
  datatype Shortfall = Shortfall(variantId: int, requested: int, available: int,
                                 productName: Option<string>, handle: Option<string>)

  /**
   * The report for one request given the variant's stock level: none when the level holds
   * at least the quantity; otherwise the shortfall, with 0 available and no names when
   * there is no level.
   */
  function Report(req: Request, level: Option<StockLevel>): (r: Option<Shortfall>)
    ensures r.None? <==> level.Some? && level.value.quantity >= req.quantity
    ensures r.Some? ==> r.value.variantId == req.variantId && r.value.requested == req.quantity
    ensures r.Some? && level.Some? ==> r.value.available == level.value.quantity < r.value.requested
    ensures r.Some? && level.Some? ==>
      r.value.productName == Some(level.value.productName) && r.value.handle == Some(level.value.handle)
    ensures r.Some? && level.None? ==> r.value.available == 0 && r.value.productName.None? && r.value.handle.None?
  {
    match level
    case None => Some(Shortfall(req.variantId, req.quantity, 0, None, None))
    case Some(l) =>
      if l.quantity < req.quantity
      then Some(Shortfall(req.variantId, req.quantity, l.quantity, Some(l.productName), Some(l.handle)))
      else None
  }

  /** The report for one request against the tables. */
  function ShortfallOf(t: Tables, req: Request): Option<Shortfall>
    requires t.Valid()
  {
    Report(req, StockLevelOf(t, req.variantId))
  }

  /** The report of every request, in request order. */
  function Reports(t: Tables, requests: seq<Request>): (r: seq<Option<Shortfall>>)
    requires t.Valid()
    ensures |r| == |requests|
    ensures forall i :: 0 <= i < |requests| ==> r[i] == ShortfallOf(t, requests[i])
  {
    seq(|requests|, i requires 0 <= i < |requests| => ShortfallOf(t, requests[i]))
  }

  /** The shortfalls of a list of requests, in request order. */
  function Shortfalls(t: Tables, requests: seq<Request>): (r: seq<Shortfall>)
    requires t.Valid()
    ensures |r| <= |requests|
  {
    Somes(Reports(t, requests), |requests|)
  }

  /** Every short request is reported, and every report is of a short request. */
  lemma ShortfallsExact(t: Tables, requests: seq<Request>)
    requires t.Valid()
    ensures forall i :: 0 <= i < |requests| && ShortfallOf(t, requests[i]).Some? ==>
      ShortfallOf(t, requests[i]).value in Shortfalls(t, requests)
    ensures forall x :: x in Shortfalls(t, requests) ==>
      exists i :: 0 <= i < |requests| && ShortfallOf(t, requests[i]) == Some(x)
  {
    SomesExact(Reports(t, requests), |requests|);
  }

  /**
   * `checkStockAvailability`: each request's stock level is read in turn and the requests
   * it cannot cover are collected. No request means no read, so an empty list succeeds
   * even without a connection.
   */
  method CheckStockAvailability(svc: InventoryService, requests: seq<Request>) returns (r: Result<seq<Shortfall>, Error>)
    requires svc.Valid()
    ensures requests != [] && !svc.initialized ==> r == Err(DatabaseNotInitialized)
    ensures requests == [] || svc.initialized ==> r == Ok(Shortfalls(svc.db, requests))
  {
    var insufficient: seq<Shortfall> := [];
    var i := 0;
    ghost var t := svc.db;
    ghost var reports := Reports(t, requests);
    while i < |requests|
      invariant 0 <= i <= |requests|
      invariant insufficient == Somes(reports, i)
      invariant i > 0 ==> svc.initialized
    {
      var item := requests[i];
      var stockLevel := svc.GetStockLevelForVariant(item.variantId);
      if stockLevel.Err? {
        return Err(stockLevel.error);
      }
      var level := stockLevel.value;
      assert reports[i] == Report(item, level);
      if level.None? || level.value.quantity < item.quantity {
        var available := if level.Some? then level.value.quantity else 0;
        var productName := if level.Some? then Some(level.value.productName) else None;
        var handle := if level.Some? then Some(level.value.handle) else None;
        insufficient := insufficient + [Shortfall(item.variantId, item.quantity, available, productName, handle)];
      }
      i := i + 1;
    }
    return Ok(insufficient);
  }

  /**
   * A variant without a stock row is reported as having nothing available, even for a
   * request of zero or less.
   */
  lemma MissingStockIsShort(t: Tables, req: Request)
    requires t.Valid() && Find(t.stock, StockKey, req.variantId).None?
    ensures ShortfallOf(t, req) == Some(Shortfall(req.variantId, req.quantity, 0, None, None))
  {
  }

  /**
   * A request covered by the stock row of a variant whose product exists is not reported;
   * with a stock row whose variant or product is gone it is.
   */
  lemma CoveredRequestNotReported(t: Tables, req: Request, v: Variant, s: Stock)
    requires t.Valid() && v in t.variants && v.id == req.variantId
    requires Find(t.stock, StockKey, req.variantId) == Some(s)
    ensures Find(t.products, ProductKey, v.productId).Some? && s.quantity >= req.quantity ==> ShortfallOf(t, req).None?
    ensures Find(t.products, ProductKey, v.productId).None? ==> ShortfallOf(t, req).Some?
  {
    assert Find(t.variants, VariantKey, v.id) == Some(v);
    var p := Find(t.products, ProductKey, v.productId);
    if p.Some? {
      assert InJoin(t, StockJoin(s, v, p.value));
    }
  }

  // ---- Low stock ----

  /** `getLowStockItems`: forwards; the threshold defaults to 10 here too. */
  function GetLowStockItems(svc: InventoryService, threshold: Option<int>): (r: Result<seq<StockLevel>, Error>)
    reads svc
    ensures r.Err? <==> !svc.initialized
    ensures r.Ok? ==> r.value == LowStock(svc.db, if threshold.Some? then threshold.value else DefaultLowStockThreshold)
    ensures r.Ok? ==> forall x :: x in r.value ==> x.quantity <= (if threshold.Some? then threshold.value else 10)
  {
    svc.GetLowStockItems(Some(if threshold.Some? then threshold.value else 10))
  }

  // ---- Valuation ----

  /** The valuation rows with their totals. */
  datatype ValuationReport = ValuationReport(items: seq<ValuationRow>, totalValue: int, itemCount: int,
                                             variantsCount: int)

  /** The sum of the rows' total values. */
  function SumValue(rows: seq<ValuationRow>): int {
    if rows == [] then 0 else rows[0].totalValue + SumValue(rows[1..])
  }

  /** The sum of the rows' quantities. */
  function SumQuantity(rows: seq<ValuationRow>): int {
    if rows == [] then 0 else rows[0].quantity + SumQuantity(rows[1..])
  }

  /** Every row has a positive quantity, so there are at least as many units as rows. */
  lemma {:induction false} UnitsCoverRows(rows: seq<ValuationRow>)
    requires forall x :: x in rows ==> x.quantity > 0
    ensures SumQuantity(rows) >= |rows|
  {
    if rows != [] {
      assert rows[0] in rows;
      UnitsCoverRows(rows[1..]);
    }
  }

  /** Non-negative row values sum to a non-negative total. */
  lemma {:induction false} ValuesNonNegative(rows: seq<ValuationRow>)
    requires forall x :: x in rows ==> x.totalValue >= 0
    ensures SumValue(rows) >= 0
  {
    if rows != [] {
      assert rows[0] in rows;
      ValuesNonNegative(rows[1..]);
    }
  }

  /**
   * `getInventoryValuation`: the valuation rows, the sum of their values, the sum of their
   * quantities and their number. With no negative selling price the total value is not
   * negative; there are always at least as many units as variants.
   */
  function GetInventoryValuation(svc: InventoryService): (r: Result<ValuationReport, Error>)
    reads svc
    ensures r.Err? <==> !svc.initialized
    ensures r.Err? ==> r.error == DatabaseNotInitialized
    ensures r.Ok? ==> r.value.items == Valuation(svc.db)
    ensures r.Ok? ==> r.value.variantsCount == |r.value.items| && r.value.itemCount >= r.value.variantsCount
    ensures r.Ok? ==> r.value.totalValue == SumValue(r.value.items) && r.value.itemCount == SumQuantity(r.value.items)
    ensures r.Ok? && (forall p :: p in svc.db.products ==> p.sellingPrice >= 0) ==> r.value.totalValue >= 0
  {
    match svc.GetInventoryValuation()
    case Err(e) => Err(e)
    case Ok(items) =>
      UnitsCoverRows(items);
      PricesGiveNonNegativeValues(svc.db);
      Ok(ValuationReport(items, SumValue(items), SumQuantity(items), |items|))
  }

  lemma PricesGiveNonNegativeValues(t: Tables)
    ensures (forall p :: p in t.products ==> p.sellingPrice >= 0) ==> SumValue(Valuation(t)) >= 0
  {
    if forall p :: p in t.products ==> p.sellingPrice >= 0 {
      var rows := Valuation(t);
      forall x | x in rows ensures x.totalValue >= 0 {
        var j :| InJoin(t, j) && j.stock.quantity > 0 && ValuationOf(j) == x;
        assert j.product in t.products;
        ProductOfNonNegatives(j.stock.quantity, j.product.sellingPrice);
      }
      ValuesNonNegative(rows);
    }
  }

  lemma ProductOfNonNegatives(a: int, b: int)
    requires a >= 0 && b >= 0
    ensures a * b >= 0
  {
  }

  // ---- Products with variants ----

  /** The fields of a variant `createProductWithVariants` passes on. */
  datatype VariantInput = VariantInput(handle: string, barcode: Option<string>)

  /**
   * The variant inserts of `createProductWithVariants`, in input order: the variants table
   * grows by one row per input and no other table changes (`AddVariantsRows` says what the
   * rows hold).
   */
  function AddVariants(t: Tables, productId: int, variants: seq<VariantInput>): (r: Tables)
    requires t.Valid()
    ensures r.Valid()
    ensures r == t.(variants := r.variants)
    ensures |r.variants| == |t.variants| + |variants| && r.variants[..|t.variants|] == t.variants
    decreases |variants|
  {
    if variants == [] then t
    else
      var last := variants[|variants| - 1];
      var prev := AddVariants(t, productId, variants[..|variants| - 1]);
      var r := InsertVariant(prev, NewVariant(productId, last.handle, last.barcode));
      assert r.variants[..|prev.variants|] == prev.variants;
      r
  }

  /** Row `k` of the added variants has the `k`-th fresh id, the product id and the `k`-th input. */
  lemma {:induction false} AddVariantsRows(t: Tables, productId: int, variants: seq<VariantInput>)
    requires t.Valid()
    ensures var r := AddVariants(t, productId, variants);
      forall k :: 0 <= k < |variants| ==>
        r.variants[|t.variants| + k]
          == Variant(NextKey(t.variants, VariantKey) + k, productId, variants[k].handle, variants[k].barcode)
    decreases |variants|
  {
    if variants != [] {
      var n := |variants|;
      var init := variants[..n - 1];
      AddVariantsRows(t, productId, init);
      var prev := AddVariants(t, productId, init);
      var r := AddVariants(t, productId, variants);
      var last := variants[n - 1];
      assert r.variants == prev.variants + [Variant(NextKey(prev.variants, VariantKey), productId, last.handle, last.barcode)];
      assert NextKey(prev.variants, VariantKey) == NextKey(t.variants, VariantKey) + n - 1 by {
        if n > 1 {
          assert prev.variants[|t.variants| + n - 2]
            == Variant(NextKey(t.variants, VariantKey) + n - 2, productId, init[n - 2].handle, init[n - 2].barcode);
        }
      }
      forall k | 0 <= k < n
        ensures r.variants[|t.variants| + k]
          == Variant(NextKey(t.variants, VariantKey) + k, productId, variants[k].handle, variants[k].barcode)
      {
        if k < n - 1 {
          assert init[k] == variants[k];
          assert r.variants[|t.variants| + k] == prev.variants[|t.variants| + k];
        }
      }
    }
  }

  /**
   * `createProductWithVariants`: the product, then each variant under its id, which is
   * returned. Without a connection the first call throws and nothing changes.
   */
  method CreateProductWithVariants(svc: InventoryService, product: NewProduct, variants: seq<VariantInput>)
    returns (r: Result<int, Error>)
    requires svc.Valid()
    modifies svc
    ensures svc.Valid() && svc.initialized == old(svc.initialized)
    ensures !svc.initialized ==> r == Err(DatabaseNotInitialized) && svc.db == old(svc.db)
    ensures svc.initialized ==>
      var productId := NextKey(old(svc.db).products, ProductKey);
      r == Ok(productId) && svc.db == AddVariants(InsertProduct(old(svc.db), product), productId, variants)
  {
    var created := svc.CreateProduct(product);
    if created.Err? {
      return Err(created.error);
    }
    var productId := created.value;
    var base := svc.db;
    PrefixEnds(variants);
    var i := 0;
    while i < |variants|
      invariant 0 <= i <= |variants|
      invariant svc.initialized && base.Valid()
      invariant svc.db == AddVariants(base, productId, variants[..i])
    {
      var variant := variants[i];
      var _ := svc.CreateProductVariant(NewVariant(productId, variant.handle, variant.barcode));
      PrefixStep(variants, i);
      i := i + 1;
    }
    return Ok(productId);
  }

  /**
   * When no stored variant already names the next product id, the new product's variants
   * are exactly the ones just created.
   */
  lemma NewProductOwnsNewVariants(t: Tables, product: NewProduct, variants: seq<VariantInput>)
    requires t.Valid()
    requires forall v :: v in t.variants ==> v.productId != NextKey(t.products, ProductKey)
    ensures var productId := NextKey(t.products, ProductKey);
      var after := AddVariants(InsertProduct(t, product), productId, variants);
      forall v :: v in VariantsOfProduct(after, productId) <==> v in after.variants[|t.variants|..]
  {
    var productId := NextKey(t.products, ProductKey);
    var withProduct := InsertProduct(t, product);
    assert withProduct.variants == t.variants;
    var after := AddVariants(withProduct, productId, variants);
    AddVariantsRows(withProduct, productId, variants);
    var added := after.variants[|t.variants|..];
    assert after.variants == t.variants + added;
    assert |added| == |variants|;
    forall k | 0 <= k < |added| ensures added[k].productId == productId {
      assert added[k] == after.variants[|withProduct.variants| + k];
      assert after.variants[|withProduct.variants| + k]
        == Variant(NextKey(withProduct.variants, VariantKey) + k, productId, variants[k].handle, variants[k].barcode);
    }
    var owned := VariantsOfProduct(after, productId);
    forall v ensures v in owned <==> v in added {
      assert v in after.variants <==> v in t.variants || v in added;
    }
  }

  // ---- Product and variant details ----

  /** A variant with its stock quantity. */
  datatype VariantStock = VariantStock(variant: Variant, stock: int)

  datatype ProductWithStock = ProductWithStock(product: Product, variants: seq<VariantStock>)

  /** `stock?.quantity || 0`: the variant's stock level quantity, 0 when there is none. */
  function StockOf(t: Tables, variantId: int): (q: int)
    requires t.Valid()
    ensures StockLevelOf(t, variantId).None? ==> q == 0
    ensures StockLevelOf(t, variantId).Some? ==> q == StockLevelOf(t, variantId).value.quantity
  {
    match StockLevelOf(t, variantId)
    case None => 0
    case Some(level) => level.quantity
  }

  /** For a stored variant of a stored product, the stock is its stock row's quantity, or 0. */
  lemma StockOfStoredVariant(t: Tables, v: Variant)
    requires t.Valid() && v in t.variants && Find(t.products, ProductKey, v.productId).Some?
    ensures StockOf(t, v.id) == match Find(t.stock, StockKey, v.id)
      case None => 0
      case Some(s) => s.quantity
  {
    assert Find(t.variants, VariantKey, v.id) == Some(v);
    var s := Find(t.stock, StockKey, v.id);
    if s.Some? {
      assert InJoin(t, StockJoin(s.value, v, Find(t.products, ProductKey, v.productId).value));
    }
  }

  /**
   * `getProductWithStock`: the product and each of its variants, in table order, with its
   * stock; a missing product is an error.
   */
  method GetProductWithStock(svc: InventoryService, productId: int) returns (r: Result<ProductWithStock, Error>)
    requires svc.Valid()
    ensures !svc.initialized ==> r == Err(DatabaseNotInitialized)
    ensures svc.initialized && Find(svc.db.products, ProductKey, productId).None? ==> r == Err(ProductNotFound(productId))
    ensures svc.initialized && Find(svc.db.products, ProductKey, productId).Some? ==>
      var variants := VariantsOfProduct(svc.db, productId);
      r.Ok? && r.value.product == Find(svc.db.products, ProductKey, productId).value
      && |r.value.variants| == |variants|
      && forall k :: 0 <= k < |variants| ==> r.value.variants[k] == VariantStock(variants[k], StockOf(svc.db, variants[k].id))
  {
    var found := svc.GetProductById(productId);
    if found.Err? {
      return Err(found.error);
    }
    if found.value.None? {
      return Err(ProductNotFound(productId));
    }
    var product := found.value.value;
    var variants := svc.GetProductVariants(productId).value;
    assert variants == VariantsOfProduct(svc.db, productId);
    var withStock: seq<VariantStock> := [];
    var i := 0;
    while i < |variants|
      invariant 0 <= i <= |variants|
      invariant |withStock| == i
      invariant forall k :: 0 <= k < i ==> withStock[k] == VariantStock(variants[k], StockOf(svc.db, variants[k].id))
    {
      var stock := svc.GetStockLevelForVariant(variants[i].id).value;
      var quantity := if stock.Some? then stock.value.quantity else 0;
      assert quantity == StockOf(svc.db, variants[i].id) by {
        assert stock == StockLevelOf(svc.db, variants[i].id);
      }
      withStock := withStock + [VariantStock(variants[i], quantity)];
      i := i + 1;
    }
    return Ok(ProductWithStock(product, withStock));
  }

  /** A variant with its product, its stock and its movement history. */
  datatype VariantDetails = VariantDetails(variant: Variant, product: Option<Product>, stock: int,
                                           history: seq<HistoryEntry>)

  /**
   * `getVariantWithHistory`: a missing variant is an error; a missing product is not, it
   * is reported as null.
   */
  function GetVariantWithHistory(svc: InventoryService, variantId: int): (r: Result<VariantDetails, Error>)
    requires svc.Valid()
    reads svc
    ensures !svc.initialized ==> r == Err(DatabaseNotInitialized)
    ensures svc.initialized ==> (r.Ok? <==> exists v :: v in svc.db.variants && v.id == variantId)
    ensures r.Err? && svc.initialized ==> r.error == VariantNotFound(variantId)
    ensures r.Ok? ==> r.value.variant in svc.db.variants && r.value.variant.id == variantId
    ensures r.Ok? ==> r.value.product == Find(svc.db.products, ProductKey, r.value.variant.productId)
    ensures r.Ok? ==> r.value.stock == StockOf(svc.db, variantId) && r.value.history == History(svc.db, variantId)
    ensures r.Ok? ==> Sorted(r.value.history, HistoryDateLe)
  {
    match svc.GetVariantById(variantId)
    case Err(e) => Err(e)
    case Ok(None) => Err(VariantNotFound(variantId))
    case Ok(Some(variant)) =>
      Ok(VariantDetails(variant, svc.GetProductById(variant.productId).value, StockOf(svc.db, variantId),
                        svc.GetVariantMovementHistory(variantId).value))
  }
}
