/**
 * The in-memory store the end-to-end tests run the backend against: four
 * tables held as maps and the Prisma-like operations the repositories call
 * on them. A transaction runs its steps directly on this same store, one
 * after the other, so the repositories below simply call these operations
 * in sequence.
 */
module FakePrisma {
  import opened Domain
  import opened Text

  /** Lookup key of a user: by id when one is given, otherwise by email. */
  datatype UserWhere = UserWhere(id: Option<Id>, email: Option<string>)

  /** A name filter: substring match, exact or ignoring case. */
  datatype NameFilter = NameFilter(contains: string, insensitive: bool)

  /** The filters a product listing can combine; None means "no filter". */
  datatype ProductWhere = ProductWhere(idIn: Option<seq<Id>>, name: Option<NameFilter>, isActive: Option<bool>)

  /** The filters an order listing can combine; None means "no filter". */
  datatype OrderWhere = OrderWhere(userId: Option<Id>, status: Option<OrderStatus>)

  predicate NameMatches(name: string, f: NameFilter)
  {
    if f.insensitive then ContainsIgnoringCase(name, f.contains) else Contains(name, f.contains)
  }

  predicate ProductMatches(p: Product, w: ProductWhere)
  {
    && (w.idIn.Some? ==> p.id in w.idIn.value)
    && (w.name.Some? ==> NameMatches(p.name, w.name.value))
    && (w.isActive.Some? ==> p.isActive == w.isActive.value)
  }

  predicate OrderMatches(o: Order, w: OrderWhere)
  {
    && (w.userId.Some? ==> o.userId == w.userId.value)
    && (w.status.Some? ==> o.status == w.status.value)
  }

  /** Listing order of the store: rows come back in creation order, which is increasing id order. */
  predicate ProductsByCreation(ps: seq<Product>)
  {
    forall i, j :: 0 <= i < j < |ps| ==> ps[i].id < ps[j].id
  }

  predicate OrdersByCreation(os: seq<Order>)
  {
    forall i, j :: 0 <= i < j < |os| ==> os[i].id < os[j].id
  }

  /** A product with the supplied fields of a partial update written over it. */
  function Merge(p: Product, c: ProductChanges): (r: Product)
    ensures r.id == p.id
    ensures r.name == (if c.name.Some? then c.name.value else p.name)
    ensures r.priceCents == (if c.priceCents.Some? then c.priceCents.value else p.priceCents)
    ensures r.stock == (if c.stock.Some? then c.stock.value else p.stock)
    ensures r.isActive == (if c.isActive.Some? then c.isActive.value else p.isActive)
    ensures c == ProductChanges(None, None, None, None) ==> r == p
  {
    Product(p.id,
            if c.name.Some? then c.name.value else p.name,
            if c.priceCents.Some? then c.priceCents.value else p.priceCents,
            if c.stock.Some? then c.stock.value else p.stock,
            if c.isActive.Some? then c.isActive.value else p.isActive)
  }

  class Store {
    var users: map<Id, User>
    var products: map<Id, Product>
    /** How many products were ever created: the number of the newest one. */
    var productCount: nat
    var orders: map<Id, Order>
    var orderItems: map<Id, OrderItem>

    /**
     * Every row is stored under its own id. Users, orders and items are
     * numbered 1, 2, ... in creation order and never removed; products are
     * numbered by productCount, since a product can be removed.
     */
    ghost predicate Valid()
      reads this
    {
      && (forall k | k in users :: 1 <= k <= |users| && users[k].id == k)
      && (forall k | k in products :: 1 <= k <= productCount && products[k].id == k)
      && (forall k | k in orders :: 1 <= k <= |orders| && orders[k].id == k)
      && (forall k | k in orderItems :: 1 <= k <= |orderItems| && orderItems[k].id == k)
    }

    /** No product has a negative price or a negative stock. */
    ghost predicate Nonnegative()
      reads this
    {
      NonnegativeTable(products)
    }

    constructor ()
      ensures Valid() && Nonnegative()
      ensures users == map[] && products == map[] && orders == map[] && orderItems == map[]
      ensures productCount == 0
    {
      users, products, productCount, orders, orderItems := map[], map[], 0, map[], map[];
    }

    // ----- users -----

    /**
     * By id when an id is given; otherwise the first user, in creation
     * order, with the given non-empty email; otherwise nothing.
     */
    method UserFindUnique(where: UserWhere) returns (r: Option<User>)
      requires Valid()
      ensures where.id.Some? ==>
                r == (if where.id.value in users then Some(users[where.id.value]) else None)
      ensures where.id.None? && (where.email.None? || where.email.value == []) ==> r == None
      ensures where.id.None? && where.email.Some? && where.email.value != [] ==>
                && (r.Some? <==> exists k :: k in users && users[k].email == where.email.value)
                && (r.Some? ==> r.value.id in users && users[r.value.id] == r.value
                                && r.value.email == where.email.value
                                && forall k :: k in users && users[k].email == where.email.value ==> r.value.id <= k)
    {
      if where.id.Some? {
        r := if where.id.value in users then Some(users[where.id.value]) else None;
        return;
      }
      if where.email.None? || where.email.value == [] {
        return None;
      }
      var email := where.email.value;
      var k := 1;
      while k <= |users|
        invariant 1 <= k <= |users| + 1
        invariant forall j :: j in users && j < k ==> users[j].email != email
      {
        if k in users && users[k].email == email {
          return Some(users[k]);
        }
        k := k + 1;
      }
      r := None;
    }

    /** Stores a new user under the next number and leaves every existing user as it was. */
    method UserCreate(email: string, passwordHash: string, role: UserRole) returns (u: User)
      requires Valid()
      modifies this
      ensures Valid()
      ensures u == User(|old(users)| + 1, email, passwordHash, role)
      ensures u.id !in old(users)
      ensures users == old(users)[u.id := u]
      ensures products == old(products) && productCount == old(productCount)
      ensures orders == old(orders) && orderItems == old(orderItems)
    {
      u := User(|users| + 1, email, passwordHash, role);
      users := users[u.id := u];
    }

    // ----- products -----

    /** Stores a new product under the next number; an absent isActive becomes true. */
    method ProductCreate(data: NewProduct) returns (p: Product)
      requires Valid()
      modifies this
      ensures Valid()
      ensures p == Product(old(productCount) + 1, data.name, data.priceCents, data.stock,
                           if data.isActive.Some? then data.isActive.value else true)
      ensures p.id !in old(products)
      ensures products == old(products)[p.id := p] && productCount == old(productCount) + 1
      ensures users == old(users) && orders == old(orders) && orderItems == old(orderItems)
      ensures Nonnegative() <==> old(Nonnegative()) && data.priceCents >= 0 && data.stock >= 0
    {
      p := Product(productCount + 1, data.name, data.priceCents, data.stock,
                   if data.isActive.Some? then data.isActive.value else true);
      ghost var before := products;
      products := products[p.id := p];
      productCount := productCount + 1;
      if Nonnegative() {
        assert p.id !in before;
        forall k | k in before ensures before[k].priceCents >= 0 && before[k].stock >= 0 {
          assert k != p.id && products[k] == before[k];
        }
        assert NonnegativeTable(before);
        assert products[p.id] == p;
      }
    }

    /** The stored products that pass every given filter, in creation order. */
    method ProductFindMany(where: ProductWhere) returns (r: seq<Product>)
      requires Valid()
      ensures ProductsByCreation(r)
      ensures forall p :: p in r <==> p.id in products && products[p.id] == p && ProductMatches(p, where)
    {
      r := [];
      var k := 1;
      while k <= productCount
        invariant 1 <= k <= productCount + 1
        invariant ProductsByCreation(r)
        invariant forall i :: 0 <= i < |r| ==> r[i].id < k
        invariant forall p :: p in r <==>
                    p.id in products && products[p.id] == p && ProductMatches(p, where) && p.id < k
      {
        if k in products && ProductMatches(products[k], where) {
          r := r + [products[k]];
        }
        k := k + 1;
      }
    }

    function ProductFindUnique(id: Id): (r: Option<Product>)
      reads this
      ensures r.Some? <==> id in products
      ensures r.Some? ==> r.value == products[id]
    {
      if id in products then Some(products[id]) else None
    }

    /** Writes the supplied fields over one product; an unknown id is a failure and changes nothing. */
    method ProductUpdate(id: Id, data: ProductChanges) returns (r: Result<Product>)
      requires Valid()
      modifies this
      ensures Valid()
      ensures id !in old(products) ==> r == Err(StoreError(RecordNotFound)) && products == old(products)
      ensures id in old(products) ==>
                r == Ok(Merge(old(products)[id], data)) && products == old(products)[id := r.value]
      ensures productCount == old(productCount)
      ensures users == old(users) && orders == old(orders) && orderItems == old(orderItems)
    {
      if id !in products {
        return Err(StoreError(RecordNotFound));
      }
      var updated := Merge(products[id], data);
      products := products[id := updated];
      r := Ok(updated);
    }

    /** Prisma's decrement operator on the stock field: the stock of one product goes down by n. */
    method ProductDecrementStock(id: Id, n: int) returns (r: Result<Product>)
      requires Valid()
      modifies this
      ensures Valid()
      ensures id !in old(products) ==> r == Err(StoreError(RecordNotFound)) && products == old(products)
      ensures id in old(products) ==>
                && r == Ok(old(products)[id].(stock := old(products)[id].stock - n))
                && products == old(products)[id := r.value]
      ensures productCount == old(productCount)
      ensures users == old(users) && orders == old(orders) && orderItems == old(orderItems)
    {
      if id !in products {
        return Err(StoreError(RecordNotFound));
      }
      var updated := products[id].(stock := products[id].stock - n);
      products := products[id := updated];
      r := Ok(updated);
    }

    /** Removes one product row; an unknown id is a failure and changes nothing. */
    method ProductDelete(id: Id) returns (r: Result<Product>)
      requires Valid()
      modifies this
      ensures Valid()
      ensures id !in old(products) ==> r == Err(StoreError(RecordNotFound)) && products == old(products)
      ensures id in old(products) ==> r == Ok(old(products)[id]) && products == old(products) - {id}
      ensures productCount == old(productCount)
      ensures users == old(users) && orders == old(orders) && orderItems == old(orderItems)
    {
      if id !in products {
        return Err(StoreError(RecordNotFound));
      }
      r := Ok(products[id]);
      products := products - {id};
    }

    // ----- orders -----

    /** Stores a new order, without items, under the next number; the status defaults to PENDING. */
    method OrderCreate(userId: Id, totalCents: int, status: Option<OrderStatus>) returns (o: Order)
      requires Valid()
      modifies this
      ensures Valid()
      ensures o == Order(|old(orders)| + 1, userId, if status.Some? then status.value else Pending, totalCents, [])
      ensures o.id !in old(orders)
      ensures orders == old(orders)[o.id := o]
      ensures users == old(users) && products == old(products) && productCount == old(productCount)
      ensures orderItems == old(orderItems)
    {
      o := Order(|orders| + 1, userId, if status.Some? then status.value else Pending, totalCents, []);
      orders := orders[o.id := o];
    }

    /** The stored orders, items included, that pass every given filter, in creation order. */
    method OrderFindMany(where: OrderWhere) returns (r: seq<Order>)
      requires Valid()
      ensures OrdersByCreation(r)
      ensures forall o :: o in r <==> o.id in orders && orders[o.id] == o && OrderMatches(o, where)
    {
      r := [];
      var k := 1;
      while k <= |orders|
        invariant 1 <= k <= |orders| + 1
        invariant OrdersByCreation(r)
        invariant forall i :: 0 <= i < |r| ==> r[i].id < k
        invariant forall o :: o in r <==>
                    o.id in orders && orders[o.id] == o && OrderMatches(o, where) && o.id < k
      {
        if k in orders && OrderMatches(orders[k], where) {
          r := r + [orders[k]];
        }
        k := k + 1;
      }
    }

    function OrderFindUnique(id: Id): (r: Option<Order>)
      reads this
      ensures r.Some? <==> id in orders
      ensures r.Some? ==> r.value == orders[id]
    {
      if id in orders then Some(orders[id]) else None
    }

    /** Sets the status of one order and keeps everything else of it. */
    method OrderUpdateStatus(id: Id, status: OrderStatus) returns (o: Order)
      requires Valid()
      requires id in orders
      modifies this
      ensures Valid()
      ensures o == old(orders)[id].(status := status)
      ensures orders == old(orders)[id := o]
      ensures users == old(users) && products == old(products) && productCount == old(productCount)
      ensures orderItems == old(orderItems)
    {
      o := orders[id].(status := status);
      orders := orders[id := o];
    }

    /** Stores a new item under the next number and appends it to the items of its order. */
    method OrderItemCreate(orderId: Id, productId: Id, quantity: int, unitPriceCents: int)
      returns (item: OrderItem)
      requires Valid()
      requires orderId in orders
      modifies this
      ensures Valid()
      ensures item == OrderItem(|old(orderItems)| + 1, orderId, productId, quantity, unitPriceCents)
      ensures item.id !in old(orderItems)
      ensures orderItems == old(orderItems)[item.id := item]
      ensures orders == old(orders)[orderId := old(orders)[orderId].(items := old(orders)[orderId].items + [item])]
      ensures users == old(users) && products == old(products) && productCount == old(productCount)
    {
      item := OrderItem(|orderItems| + 1, orderId, productId, quantity, unitPriceCents);
      orderItems := orderItems[item.id := item];
      var parent := orders[orderId];
      orders := orders[orderId := parent.(items := parent.items + [item])];
    }
  }
}
