/**
 * Records, enumerations and error kinds shared by the in-memory store, the
 * repositories and the services of the shop backend.
 *
 * Row identities are strings in the system ('prod_3', 'order_1', ...); here a
 * row is identified by its number, and every table has a numbering of its own.
 * Timestamps (createdAt, updatedAt) are not modelled.
 */
module Domain {

  type Id = nat

  datatype Option<T> = None | Some(value: T)

  /** The order lifecycle: PENDING is the initial state, PAID and CANCELLED are final. */
  datatype OrderStatus = Pending | Paid | Cancelled

  /** USER and ADMIN; a non-admin account is called a customer here. */
  datatype UserRole = Customer | Admin

  datatype User = User(id: Id, email: string, passwordHash: string, role: UserRole)

  datatype Product = Product(id: Id, name: string, priceCents: int, stock: int, isActive: bool)

  /** A line of a placed order; unitPriceCents is the price read when the order was placed. */
  datatype OrderItem = OrderItem(id: Id, orderId: Id, productId: Id, quantity: int, unitPriceCents: int)

  /** An order as the store keeps it, together with its items in creation order. */
  datatype Order = Order(id: Id, userId: Id, status: OrderStatus, totalCents: int, items: seq<OrderItem>)

  /** One requested line of a new order: a product and how many of it. */
  datatype OrderLine = OrderLine(productId: Id, quantity: int)

  /** The data of a new product; an absent isActive takes the store's default, true. */
  datatype NewProduct = NewProduct(name: string, priceCents: int, stock: int, isActive: Option<bool>)

  /** A partial update of a product: only the supplied fields change. */
  datatype ProductChanges = ProductChanges(name: Option<string>, priceCents: Option<int>,
                                           stock: Option<int>, isActive: Option<bool>)

  /** Reasons carried by a NotFound failure. "Already inactive" is reported as NotFound too. */
  datatype NotFoundReason =
    | ProductsNotFound(missing: seq<Id>)
    | ProductNotFound
    | ProductAlreadyInactive
    | OrderNotFound

  /** Reasons carried by a BadRequest failure. */
  datatype BadRequestReason =
    | EmptyOrder
    | InsufficientStock(productId: Id)
    | InvalidStatus
    | NotPending

  /** Failures raised by the store itself rather than by a business rule. */
  datatype StoreFault =
    | RecordNotFound   // an update or delete names a row that does not exist
    | NullDereference  // a row read back as null is used as if it existed

  datatype Error =
    | NotFound(notFound: NotFoundReason)
    | BadRequest(badRequest: BadRequestReason)
    | StoreError(fault: StoreFault)

  datatype Result<T> = Ok(value: T) | Err(error: Error)

  /** No product in m has a negative price or a negative stock. */
  predicate NonnegativeTable(m: map<Id, Product>)
  {
    forall k | k in m :: m[k].priceCents >= 0 && m[k].stock >= 0
  }
}
