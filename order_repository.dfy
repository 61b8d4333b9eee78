/**
 * The order repository: placing an order against the store (validate the
 * request on a snapshot of the products, then, in one transaction, create
 * the order with its items and take the stock), listing and reading orders,
 * and carrying out a status change that the service has already allowed.
 *
 * The transaction callbacks run on the store handed to them (`tx`); the
 * store runs them directly on itself, so they are written here as methods
 * that take the store.
 */
module OrderRepo {
  import opened Domain
  import opened FakePrisma
  import opened Ledger

  /**
   * o is what placing `lines` for `userId` stores, judged against the product
   * table `before` the request: a PENDING order of that user whose total is
   * the lines' total, and whose items are the lines priced from `before`,
   * numbered from firstItemId.
   */
  ghost predicate PlacedAs(o: Order, userId: Id, lines: seq<OrderLine>, before: map<Id, Product>, firstItemId: Id)
  {
    && AllIn(lines, before)
    && o.userId == userId
    && o.status == Pending
    && o.totalCents == LinesTotal(lines, before)
    && o.items == PricedItems(lines, before, o.id, firstItemId)
  }

  /**
   * A placed order has one item per line, in line order, each with the
   * line's product and quantity, the product's price before the request, the
   * placed order's id and consecutive item ids; and its total is the sum of
   * its items' extensions.
   */
  lemma PlacedOrderShape(o: Order, userId: Id, lines: seq<OrderLine>, before: map<Id, Product>, firstItemId: Id)
    requires PlacedAs(o, userId, lines, before, firstItemId)
    ensures ItemsMirrorLines(o.items, lines)
    ensures forall i :: 0 <= i < |lines| ==>
              && o.items[i].id == firstItemId + i
              && o.items[i].orderId == o.id
              && o.items[i].unitPriceCents == before[lines[i].productId].priceCents
    ensures o.totalCents == ItemsTotal(o.items)
  {
    PricedItemsShape(lines, before, o.id, firstItemId);
    PricedItemsTotal(lines, before, o.id, firstItemId);
  }

  /**
   * What every order placed through the repository keeps: each item belongs
   * to it and has a positive quantity, and its total is the sum of its items'
   * extensions.
   */
  ghost predicate OrderConsistent(o: Order)
  {
    && o.totalCents == ItemsTotal(o.items)
    && forall i :: 0 <= i < |o.items| ==> o.items[i].orderId == o.id && o.items[i].quantity >= 1
  }

  ghost predicate OrdersConsistent(s: Store)
    reads s
  {
    forall k | k in s.orders :: OrderConsistent(s.orders[k])
  }

  /** An order placed from lines with positive quantities is consistent. */
  lemma PlacedOrderConsistent(o: Order, userId: Id, lines: seq<OrderLine>, before: map<Id, Product>, firstItemId: Id)
    requires PlacedAs(o, userId, lines, before, firstItemId)
    requires forall i :: 0 <= i < |lines| ==> lines[i].quantity >= 1
    ensures OrderConsistent(o)
  {
    PlacedOrderShape(o, userId, lines, before, firstItemId);
  }

  /**
   * Reads the requested products in one query and indexes them by id. The
   * read is refused, naming the unknown ids, unless it returned as many
   * products as there are lines, that is, unless every id is known and
   * none is repeated.
   */
  method LoadSnapshot(db: Store, lines: seq<OrderLine>) returns (r: Result<map<Id, Product>>)
    requires db.Valid()
    ensures !AllFoundOnce(ProductIds(lines), db.products.Keys) ==>
              r == Err(NotFound(ProductsNotFound(Missing(ProductIds(lines), db.products.Keys))))
    ensures AllFoundOnce(ProductIds(lines), db.products.Keys) ==>
              && r.Ok?
              && AllIn(lines, r.value)
              && forall i :: 0 <= i < |lines| ==> r.value[lines[i].productId] == db.products[lines[i].productId]
  {
    var ids := ProductIds(lines);
    var found := db.ProductFindMany(ProductWhere(Some(ids), None, None));

    ghost var foundIds := seq(|found|, i requires 0 <= i < |found| => found[i].id);
    forall k ensures k in foundIds <==> k in ids && k in db.products {
      if k in ids && k in db.products {
        assert db.products[k] in found;
        var i :| 0 <= i < |found| && found[i] == db.products[k];
        assert foundIds[i] == k;
      }
    }
    FoundAsManyAsRequested(ids, foundIds, db.products.Keys);

    if |found| != |ids| {
      var foundKeys := set p | p in found :: p.id;
      forall i | 0 <= i < |ids| ensures ids[i] in foundKeys <==> ids[i] in db.products.Keys {
        if ids[i] in db.products {
          assert db.products[ids[i]] in found;
        }
      }
      MissingDependsOnRequestedIdsOnly(ids, foundKeys, db.products.Keys);
      return Err(NotFound(ProductsNotFound(Missing(ids, foundKeys))));
    }

    var snapshot := map p | p in found :: p.id := p;
    forall i | 0 <= i < |lines|
      ensures lines[i].productId in snapshot && snapshot[lines[i].productId] == db.products[lines[i].productId]
    {
      assert ids[i] in db.products;
      assert db.products[ids[i]] in found;
    }
    r := Ok(snapshot);
  }

  /**
   * The validation pass over the lines, on the snapshot: the first line
   * asking for more than its product's stock is refused with BadRequest
   * naming that product; if none is, the result is the sum of quantity times
   * snapshot price.
   */
  method CheckStockAndTotal(lines: seq<OrderLine>, snapshot: map<Id, Product>) returns (r: Result<int>)
    requires AllIn(lines, snapshot)
    requires forall i :: 0 <= i < |lines| ==> snapshot[lines[i].productId].id == lines[i].productId
    ensures FirstShort(lines, snapshot) < |lines| ==>
              r == Err(BadRequest(InsufficientStock(lines[FirstShort(lines, snapshot)].productId)))
    ensures FirstShort(lines, snapshot) == |lines| ==> r == Ok(LinesTotal(lines, snapshot))
  {
    var totalCents := 0;
    var i := 0;
    while i < |lines|
      invariant 0 <= i <= |lines|
      invariant i <= FirstShort(lines, snapshot)
      invariant totalCents == LinesTotal(lines[..i], snapshot)
    {
      var product := snapshot[lines[i].productId];
      if product.stock < lines[i].quantity {
        return Err(BadRequest(InsufficientStock(product.id)));
      }
      assert lines[..i + 1][..i] == lines[..i];
      totalCents := totalCents + lines[i].quantity * product.priceCents;
      i := i + 1;
    }
    assert lines[..|lines|] == lines;
    r := Ok(totalCents);
  }

  /**
   * The first step of the placing transaction: the order is created PENDING
   * with the given total, then one item per line is created for it, with the
   * line's product and quantity and the snapshot price, and appended to it.
   */
  method CreateOrderWithItems(tx: Store, userId: Id, totalCents: int, lines: seq<OrderLine>, snapshot: map<Id, Product>)
    returns (created: Order)
    requires tx.Valid()
    requires AllIn(lines, snapshot)
    modifies tx
    ensures tx.Valid()
    ensures created == Order(|old(tx.orders)| + 1, userId, Pending, totalCents,
                             PricedItems(lines, snapshot, |old(tx.orders)| + 1, |old(tx.orderItems)| + 1))
    ensures tx.orders == old(tx.orders)[created.id := created]
    ensures tx.orderItems == Filed(old(tx.orderItems), created.items)
    ensures tx.products == old(tx.products) && tx.productCount == old(tx.productCount)
    ensures tx.users == old(tx.users)
  {
    var order := tx.OrderCreate(userId, totalCents, Some(Pending));
    ghost var firstItemId := |old(tx.orderItems)| + 1;
    ghost var made: seq<OrderItem> := [];
    var i := 0;
    while i < |lines|
      invariant 0 <= i <= |lines|
      invariant tx.Valid()
      invariant made == PricedItems(lines[..i], snapshot, order.id, firstItemId)
      invariant tx.orders == old(tx.orders)[order.id := order.(items := made)]
      invariant |tx.orderItems| == firstItemId - 1 + i
      invariant tx.orderItems == Filed(old(tx.orderItems), made)
      invariant tx.products == old(tx.products) && tx.productCount == old(tx.productCount)
      invariant tx.users == old(tx.users)
    {
      var product := snapshot[lines[i].productId];
      var item := tx.OrderItemCreate(order.id, lines[i].productId, lines[i].quantity, product.priceCents);
      PricedItemsNext(lines, snapshot, order.id, firstItemId, i, made, item);
      FiledAppended(old(tx.orderItems), made, item);
      OrderGrows(old(tx.orders), order, made, item);
      made := made + [item];
      i := i + 1;
    }
    assert lines[..|lines|] == lines;
    created := tx.orders[order.id];
  }

  lemma FiledAppended(t: map<Id, OrderItem>, made: seq<OrderItem>, item: OrderItem)
    ensures Filed(t, made + [item]) == Filed(t, made)[item.id := item]
  {
    assert (made + [item])[..|made|] == made;
  }

  lemma OrderGrows(orders: map<Id, Order>, order: Order, made: seq<OrderItem>, item: OrderItem)
    ensures var before := orders[order.id := order.(items := made)];
            before[order.id := before[order.id].(items := before[order.id].items + [item])]
              == orders[order.id := order.(items := made + [item])]
  {
  }

  /**
   * The second step of the placing transaction: each line's quantity comes
   * off its product's stock, line by line. The product is addressed by the
   * id of its snapshot row, which is the line's product id.
   */
  method TakeStock(tx: Store, lines: seq<OrderLine>)
    requires tx.Valid()
    requires AllIn(lines, tx.products)
    modifies tx
    ensures tx.Valid()
    ensures tx.products == Decremented(old(tx.products), lines)
    ensures tx.productCount == old(tx.productCount)
    ensures tx.users == old(tx.users) && tx.orders == old(tx.orders)
    ensures tx.orderItems == old(tx.orderItems)
  {
    ghost var before := tx.products;
    var i := 0;
    while i < |lines|
      invariant 0 <= i <= |lines|
      invariant tx.Valid()
      invariant tx.products.Keys == before.Keys
      invariant tx.products == Decremented(before, lines[..i])
      invariant tx.productCount == old(tx.productCount)
      invariant tx.users == old(tx.users) && tx.orders == old(tx.orders)
      invariant tx.orderItems == old(tx.orderItems)
    {
      var _ := tx.ProductDecrementStock(lines[i].productId, lines[i].quantity);
      DecrementedStep(before, lines, i, tx.products);
      i := i + 1;
    }
    assert lines[..|lines|] == lines;
  }

  /** Reads the item's product and writes back its stock plus the item's quantity, if it still exists. */
  method RestockItem(tx: Store, item: OrderItem) returns (found: bool)
    requires tx.Valid()
    modifies tx
    ensures tx.Valid()
    ensures found <==> item.productId in old(tx.products)
    ensures tx.products == PutBack(old(tx.products), item)
    ensures tx.productCount == old(tx.productCount)
    ensures tx.users == old(tx.users) && tx.orders == old(tx.orders)
    ensures tx.orderItems == old(tx.orderItems)
  {
    var p := tx.ProductFindUnique(item.productId);
    if p.None? {
      return false;
    }
    var updated := tx.ProductUpdate(p.value.id, ProductChanges(None, None, Some(p.value.stock + item.quantity), None));
    assert updated.value == p.value.(stock := p.value.stock + item.quantity);
    found := true;
  }

  /**
   * The restocking of a cancellation: each item's quantity goes back on its
   * product's current stock, in item order, until an item whose product no
   * longer exists; done reports whether every item was restocked.
   */
  method PutBackStock(tx: Store, items: seq<OrderItem>) returns (done: bool)
    requires tx.Valid() && tx.Nonnegative()
    requires forall i :: 0 <= i < |items| ==> items[i].quantity >= 1
    modifies tx
    ensures tx.Valid() && tx.Nonnegative()
    ensures done <==> FirstMissing(items, old(tx.products)) == |items|
    ensures tx.products == Restocked(old(tx.products), items[..FirstMissing(items, old(tx.products))])
    ensures tx.productCount == old(tx.productCount)
    ensures tx.users == old(tx.users) && tx.orders == old(tx.orders)
    ensures tx.orderItems == old(tx.orderItems)
  {
    ghost var before := tx.products;
    var i := 0;
    while i < |items|
      invariant 0 <= i <= |items|
      invariant tx.Valid()
      invariant i <= FirstMissing(items, before)
      invariant tx.products == Restocked(before, items[..i])
      invariant tx.products.Keys == before.Keys
      invariant tx.productCount == old(tx.productCount)
      invariant tx.users == old(tx.users) && tx.orders == old(tx.orders)
      invariant tx.orderItems == old(tx.orderItems)
    {
      RestockedNext(before, items, i);
      var found := RestockItem(tx, items[i]);
      if !found {
        assert FirstMissing(items, before) == i;
        RestockKeepsNonnegative(before, items[..i]);
        return false;
      }
      i := i + 1;
    }
    assert FirstMissing(items, before) == |items|;
    RestockKeepsNonnegative(before, items);
    assert items[..|items|] == items;
    done := true;
  }

  /**
   * Everything placing does before the transaction: the snapshot is loaded
   * and the lines are checked against it, in that order, and the total is
   * added up. The refusals are exactly those of PlacementError; an accepted
   * request yields a snapshot that agrees with the store on every requested
   * product, and the lines' total.
   */
  method ValidatePlacement(db: Store, lines: seq<OrderLine>) returns (r: Result<(map<Id, Product>, int)>)
    requires db.Valid()
    ensures PlacementError(lines, db.products).Some? ==> r == Err(PlacementError(lines, db.products).value)
    ensures PlacementError(lines, db.products).None? ==>
              && r.Ok?
              && AllIn(lines, r.value.0)
              && (forall i :: 0 <= i < |lines| ==> r.value.0[lines[i].productId] == db.products[lines[i].productId])
              && r.value.1 == LinesTotal(lines, db.products)
  {
    var loaded := LoadSnapshot(db, lines);
    if loaded.Err? {
      return Err(loaded.error);
    }
    var snapshot := loaded.value;
    SnapshotAgreement(lines, snapshot, db.products);
    var checked := CheckStockAndTotal(lines, snapshot);
    if checked.Err? {
      return Err(checked.error);
    }
    r := Ok((snapshot, checked.value));
  }

  /**
   * The placing transaction on an accepted request: the order with its
   * items priced from the snapshot, then the stock taken. The snapshot
   * agrees with the store on the requested products, so the stored order is
   * the one the store's own prices describe.
   */
  method PlaceInTransaction(tx: Store, userId: Id, lines: seq<OrderLine>, snapshot: map<Id, Product>, totalCents: int)
    returns (created: Order)
    requires tx.Valid() && tx.Nonnegative()
    requires PlacementError(lines, tx.products).None?
    requires AllIn(lines, snapshot)
    requires forall i :: 0 <= i < |lines| ==> snapshot[lines[i].productId] == tx.products[lines[i].productId]
    requires totalCents == LinesTotal(lines, tx.products)
    modifies tx
    ensures tx.Valid() && tx.Nonnegative()
    ensures created.id == |old(tx.orders)| + 1
    ensures PlacedAs(created, userId, lines, old(tx.products), |old(tx.orderItems)| + 1)
    ensures tx.orders == old(tx.orders)[created.id := created]
    ensures tx.orderItems == Filed(old(tx.orderItems), created.items)
    ensures tx.products == Decremented(old(tx.products), lines)
    ensures tx.users == old(tx.users) && tx.productCount == old(tx.productCount)
  {
    ghost var before := tx.products;
    created := CreateOrderWithItems(tx, userId, totalCents, lines, snapshot);
    PricedItemsAgreement(lines, snapshot, before, created.id, |old(tx.orderItems)| + 1);
    TakeStock(tx, lines);
    PlacementEffects(before, lines);
  }

  class PrismaOrderRepository {
    const prisma: Store

    constructor (prisma: Store)
      ensures this.prisma == prisma
    {
      this.prisma := prisma;
    }

    /**
     * Places an order. A request that names an unknown product or names one
     * twice is refused with NotFound listing the unknown ids; otherwise the
     * first line asking for more than the stock is refused with BadRequest;
     * either way nothing changes. Otherwise a PENDING order is created with
     * one item per line at the snapshot prices, and every line's quantity
     * comes off its product's stock.
     */
    method Create(userId: Id, lines: seq<OrderLine>) returns (r: Result<Order>)
      requires prisma.Valid() && prisma.Nonnegative()
      requires forall i :: 0 <= i < |lines| ==> lines[i].quantity >= 1
      modifies prisma
      ensures prisma.Valid() && prisma.Nonnegative()
      ensures PlacementError(lines, old(prisma.products)).Some? ==>
                r == Err(PlacementError(lines, old(prisma.products)).value) && unchanged(prisma)
      ensures PlacementError(lines, old(prisma.products)).None? ==>
                && r.Ok?
                && r.value.id == |old(prisma.orders)| + 1
                && PlacedAs(r.value, userId, lines, old(prisma.products), |old(prisma.orderItems)| + 1)
                && prisma.orders == old(prisma.orders)[r.value.id := r.value]
                && prisma.orderItems == Filed(old(prisma.orderItems), r.value.items)
                && prisma.products == Decremented(old(prisma.products), lines)
                && prisma.users == old(prisma.users) && prisma.productCount == old(prisma.productCount)
    {
      var validated := ValidatePlacement(prisma, lines);
      if validated.Err? {
        return Err(validated.error);
      }
      var (snapshot, totalCents) := validated.value;
      var created := PlaceInTransaction(prisma, userId, lines, snapshot, totalCents);
      r := Ok(created);
    }

    /**
     * Every order, or only the caller's own when the caller is not an admin,
     * optionally only those with the given status; items included, in
     * creation order.
     */
    method GetAll(userId: Id, role: UserRole, status: Option<OrderStatus>) returns (r: seq<Order>)
      requires prisma.Valid()
      ensures OrdersByCreation(r)
      ensures forall o :: o in r <==>
                && o.id in prisma.orders && prisma.orders[o.id] == o
                && (role != Admin ==> o.userId == userId)
                && (status.Some? ==> o.status == status.value)
    {
      r := prisma.OrderFindMany(OrderWhere(if role == Admin then None else Some(userId), status));
    }

    /** The order with this id, items included, or nothing. */
    function GetById(id: Id): (r: Option<Order>)
      reads prisma
      ensures r.Some? <==> id in prisma.orders
      ensures r.Some? ==> r.value == prisma.orders[id]
    {
      prisma.OrderFindUnique(id)
    }

    /**
     * Carries out a status change on order id, whose loaded copy is `order`.
     * PAID only sets the status. CANCELLED puts each item's quantity back on
     * its product's current stock and then sets the status, and the order is
     * read again; an item whose product no longer exists stops it there with
     * a failure, the restocking done so far staying in place. Any other
     * target is refused and changes nothing.
     */
    method ChangeStatus(id: Id, order: Order, newStatus: OrderStatus) returns (r: Result<Order>)
      requires prisma.Valid() && prisma.Nonnegative()
      requires id in prisma.orders
      requires forall i :: 0 <= i < |order.items| ==> order.items[i].quantity >= 1
      modifies prisma
      ensures prisma.Valid() && prisma.Nonnegative()
      ensures prisma.users == old(prisma.users) && prisma.orderItems == old(prisma.orderItems)
      ensures prisma.productCount == old(prisma.productCount)
      ensures newStatus == Pending ==> r == Err(BadRequest(InvalidStatus)) && unchanged(prisma)
      ensures newStatus == Paid ==>
                && r == Ok(old(prisma.orders)[id].(status := Paid))
                && prisma.orders == old(prisma.orders)[id := r.value]
                && prisma.products == old(prisma.products)
      ensures newStatus == Cancelled ==>
                var stop := FirstMissing(order.items, old(prisma.products));
                && prisma.products == Restocked(old(prisma.products), order.items[..stop])
                && (stop == |order.items| ==>
                      && r == Ok(old(prisma.orders)[id].(status := Cancelled))
                      && prisma.orders == old(prisma.orders)[id := r.value])
                && (stop < |order.items| ==>
                      r == Err(StoreError(NullDereference)) && prisma.orders == old(prisma.orders))
    {
      if newStatus == Paid {
        var updated := prisma.OrderUpdateStatus(id, Paid);
        return Ok(updated);
      }
      if newStatus == Cancelled {
        var restocked := PutBackStock(prisma, order.items);
        if !restocked {
          return Err(StoreError(NullDereference));
        }
        var _ := prisma.OrderUpdateStatus(id, Cancelled);
        var reread := GetById(id);
        return Ok(reread.value);
      }
      r := Err(BadRequest(InvalidStatus));
    }
  }
}
