/**
 * The orders service: the business rules over the order repository. An
 * order needs at least one item; an order that does not exist is NotFound;
 * and only a PENDING order can change status, which makes PAID and
 * CANCELLED final.
 */
module Orders {
  import opened Domain
  import opened FakePrisma
  import opened Ledger
  import opened OrderRepo

  /**
   * The lifecycle as the service and the repository enforce it together:
   * from PENDING an order can go to PAID or CANCELLED; any other request is
   * refused, with "not pending" when the order has already left PENDING
   * (checked first) and "invalid status" when PENDING is requested.
   */
  function Transition(current: OrderStatus, target: OrderStatus): (r: Result<OrderStatus>)
    ensures r.Ok? <==> current == Pending && target != Pending
    ensures r.Ok? ==> r.value == target
    ensures current != Pending ==> r == Err(BadRequest(NotPending))
    ensures current == Pending && target == Pending ==> r == Err(BadRequest(InvalidStatus))
  {
    if current != Pending then Err(BadRequest(NotPending))
    else if target == Pending then Err(BadRequest(InvalidStatus))
    else Ok(target)
  }

  /** PAID and CANCELLED are final: no request moves an order out of them. */
  lemma FinalStates(target: OrderStatus)
    ensures Transition(Paid, target).Err? && Transition(Cancelled, target).Err?
  {
  }

  /**
   * Cancelling an order right after placing it finds every product still
   * there and restores the product table exactly as it was before the order.
   */
  lemma CancelRightAfterPlacing(m: map<Id, Product>, lines: seq<OrderLine>, orderId: Id, firstItemId: Id)
    requires PlacementError(lines, m).None?
    ensures AllIn(lines, m)
    ensures var items := PricedItems(lines, m, orderId, firstItemId);
            && FirstMissing(items, Decremented(m, lines)) == |items|
            && Restocked(Decremented(m, lines), items) == m
  {
    var items := PricedItems(lines, m, orderId, firstItemId);
    PricedItemsShape(lines, m, orderId, firstItemId);
    PlacementEffects(m, lines);
    FirstMissingOfKnown(items, Decremented(m, lines));
    CancelUndoesPlacement(m, lines, items);
  }

  lemma FirstMissingOfKnown(items: seq<OrderItem>, m: map<Id, Product>)
    requires forall i :: 0 <= i < |items| ==> items[i].productId in m
    ensures FirstMissing(items, m) == |items|
  {
  }

  class OrdersService {
    const repo: PrismaOrderRepository

    constructor (repo: PrismaOrderRepository)
      ensures this.repo == repo
    {
      this.repo := repo;
    }

    /**
     * Places an order for userId. A missing or empty item list is refused
     * with BadRequest before the store is touched; otherwise the repository
     * places it.
     */
    method Create(userId: Id, items: Option<seq<OrderLine>>) returns (r: Result<Order>)
      requires repo.prisma.Valid() && repo.prisma.Nonnegative() && OrdersConsistent(repo.prisma)
      requires items.Some? ==> forall i :: 0 <= i < |items.value| ==> items.value[i].quantity >= 1
      modifies repo.prisma
      ensures repo.prisma.Valid() && repo.prisma.Nonnegative() && OrdersConsistent(repo.prisma)
      ensures (items.None? || items.value == []) ==> r == Err(BadRequest(EmptyOrder)) && unchanged(repo.prisma)
      ensures items.Some? && items.value != [] ==>
                var lines := items.value;
                && (PlacementError(lines, old(repo.prisma.products)).Some? ==>
                      r == Err(PlacementError(lines, old(repo.prisma.products)).value) && unchanged(repo.prisma))
                && (PlacementError(lines, old(repo.prisma.products)).None? ==>
                      && r.Ok?
                      && r.value.id == |old(repo.prisma.orders)| + 1
                      && PlacedAs(r.value, userId, lines, old(repo.prisma.products), |old(repo.prisma.orderItems)| + 1)
                      && repo.prisma.orders == old(repo.prisma.orders)[r.value.id := r.value]
                      && repo.prisma.orderItems == Filed(old(repo.prisma.orderItems), r.value.items)
                      && repo.prisma.products == Decremented(old(repo.prisma.products), lines))
      ensures repo.prisma.users == old(repo.prisma.users) && repo.prisma.productCount == old(repo.prisma.productCount)
    {
      if items.None? || items.value == [] {
        return Err(BadRequest(EmptyOrder));
      }
      ghost var before := repo.prisma.orders;
      r := repo.Create(userId, items.value);
      if r.Ok? {
        PlacedOrderConsistent(r.value, userId, items.value, old(repo.prisma.products), |old(repo.prisma.orderItems)| + 1);
        OrderAddedKeepsConsistent(repo.prisma, before, r.value);
      }
    }

    method GetAll(userId: Id, role: UserRole, status: Option<OrderStatus>) returns (r: seq<Order>)
      requires repo.prisma.Valid()
      ensures OrdersByCreation(r)
      ensures forall o :: o in r <==>
                && o.id in repo.prisma.orders && repo.prisma.orders[o.id] == o
                && (role != Admin ==> o.userId == userId)
                && (status.Some? ==> o.status == status.value)
    {
      r := repo.GetAll(userId, role, status);
    }

    /** The order with this id, items included; NotFound when there is none. */
    function GetById(id: Id): (r: Result<Order>)
      reads repo, repo.prisma
      ensures r.Ok? <==> id in repo.prisma.orders
      ensures r.Ok? ==> r.value == repo.prisma.orders[id]
      ensures r.Err? ==> r.error == NotFound(OrderNotFound)
    {
      var order := repo.GetById(id);
      if order.None? then Err(NotFound(OrderNotFound)) else Ok(order.value)
    }

    /**
     * Moves order id to newStatus. An unknown order is NotFound and a request
     * the lifecycle refuses is BadRequest, and neither changes anything.
     * Otherwise the repository carries it out on the loaded order: PAID only
     * sets the status; CANCELLED first puts the items back on the products'
     * current stock.
     */
    method ChangeStatus(id: Id, newStatus: OrderStatus) returns (r: Result<Order>)
      requires repo.prisma.Valid() && repo.prisma.Nonnegative() && OrdersConsistent(repo.prisma)
      modifies repo.prisma
      ensures repo.prisma.Valid() && repo.prisma.Nonnegative() && OrdersConsistent(repo.prisma)
      ensures id !in old(repo.prisma.orders) ==> r == Err(NotFound(OrderNotFound)) && unchanged(repo.prisma)
      ensures id in old(repo.prisma.orders) ==>
                var order := old(repo.prisma.orders)[id];
                var move := Transition(order.status, newStatus);
                && (move.Err? ==> r == Err(move.error) && unchanged(repo.prisma))
                && (move == Ok(Paid) ==>
                      && r == Ok(order.(status := Paid))
                      && repo.prisma.orders == old(repo.prisma.orders)[id := r.value]
                      && repo.prisma.products == old(repo.prisma.products))
                && (move == Ok(Cancelled) ==>
                      var stop := FirstMissing(order.items, old(repo.prisma.products));
                      && repo.prisma.products == Restocked(old(repo.prisma.products), order.items[..stop])
                      && (stop == |order.items| ==>
                            && r == Ok(order.(status := Cancelled))
                            && repo.prisma.orders == old(repo.prisma.orders)[id := r.value])
                      && (stop < |order.items| ==>
                            r == Err(StoreError(NullDereference)) && repo.prisma.orders == old(repo.prisma.orders)))
      ensures repo.prisma.users == old(repo.prisma.users) && repo.prisma.orderItems == old(repo.prisma.orderItems)
      ensures repo.prisma.productCount == old(repo.prisma.productCount)
    {
      var loaded := GetById(id);
      if loaded.Err? {
        return Err(loaded.error);
      }
      var order := loaded.value;
      if order.status != Pending {
        return Err(BadRequest(NotPending));
      }
      ghost var before := repo.prisma.orders;
      r := repo.ChangeStatus(id, order, newStatus);
      StatusChangeKeepsConsistent(repo.prisma, before, id);
    }
  }

  /** Adding a consistent order keeps every order consistent. */
  lemma OrderAddedKeepsConsistent(s: Store, before: map<Id, Order>, o: Order)
    requires forall k | k in before :: OrderConsistent(before[k])
    requires OrderConsistent(o)
    requires s.orders == before[o.id := o]
    ensures OrdersConsistent(s)
  {
  }

  /** Changing the status of one order, or nothing at all, keeps every order consistent. */
  lemma StatusChangeKeepsConsistent(s: Store, before: map<Id, Order>, id: Id)
    requires forall k | k in before :: OrderConsistent(before[k])
    requires id in before
    requires s.orders == before || exists st :: s.orders == before[id := before[id].(status := st)]
    ensures OrdersConsistent(s)
  {
  }
}
