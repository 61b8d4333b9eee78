/**
 * The product repository: creating, listing, reading, updating and deleting
 * products in the store. The listing turns its optional query and flag into
 * a store filter; a query that is absent or empty filters nothing, and a
 * present one matches names ignoring case.
 */
module ProductRepo {
  import opened Domain
  import opened Text
  import opened FakePrisma

  /** The filter the listing hands to the store: a name filter only for a non-empty query. */
  function ListingFilter(q: Option<string>, isActive: Option<bool>): ProductWhere
  {
    ProductWhere(None, if q.Some? && q.value != [] then Some(NameFilter(q.value, true)) else None, isActive)
  }

  /** A product passes the listing's filter exactly when it passes each requested condition. */
  lemma ListingFilterMeaning(p: Product, q: Option<string>, isActive: Option<bool>)
    ensures ProductMatches(p, ListingFilter(q, isActive)) <==>
              && (q.Some? ==> ContainsIgnoringCase(p.name, q.value))
              && (isActive.Some? ==> p.isActive == isActive.value)
  {
    if q.Some? && q.value == [] {
      EmptyQueryAlwaysContained(p.name);
    }
  }

  /** Updating twice with the same changes is the same as updating once. */
  lemma MergeIdempotent(p: Product, c: ProductChanges)
    ensures Merge(Merge(p, c), c) == Merge(p, c)
  {
  }

  class PrismaProductRepository {
    const prisma: Store

    constructor (prisma: Store)
      ensures this.prisma == prisma
    {
      this.prisma := prisma;
    }

    /** Stores a new product under the next number; an absent isActive makes it active. */
    method Create(data: NewProduct) returns (p: Product)
      requires prisma.Valid() && prisma.Nonnegative()
      requires data.priceCents >= 0 && data.stock >= 0
      modifies prisma
      ensures prisma.Valid() && prisma.Nonnegative()
      ensures p == Product(old(prisma.productCount) + 1, data.name, data.priceCents, data.stock,
                           data.isActive != Some(false))
      ensures p.id !in old(prisma.products)
      ensures prisma.products == old(prisma.products)[p.id := p]
      ensures prisma.productCount == old(prisma.productCount) + 1
      ensures prisma.users == old(prisma.users) && prisma.orders == old(prisma.orders)
      ensures prisma.orderItems == old(prisma.orderItems)
    {
      p := prisma.ProductCreate(data);
    }

    /**
     * The stored products, in creation order, whose name contains q ignoring
     * case (when q is given) and whose flag is isActive (when given).
     */
    method GetAll(q: Option<string>, isActive: Option<bool>) returns (r: seq<Product>)
      requires prisma.Valid()
      ensures ProductsByCreation(r)
      ensures forall p :: p in r <==>
                && p.id in prisma.products && prisma.products[p.id] == p
                && (q.Some? ==> ContainsIgnoringCase(p.name, q.value))
                && (isActive.Some? ==> p.isActive == isActive.value)
    {
      r := prisma.ProductFindMany(ListingFilter(q, isActive));
      forall p ensures ProductMatches(p, ListingFilter(q, isActive)) <==>
                         && (q.Some? ==> ContainsIgnoringCase(p.name, q.value))
                         && (isActive.Some? ==> p.isActive == isActive.value)
      {
        ListingFilterMeaning(p, q, isActive);
      }
    }

    /** The product with this id, or nothing. */
    function GetById(id: Id): (r: Option<Product>)
      reads prisma
      ensures r.Some? <==> id in prisma.products
      ensures r.Some? ==> r.value == prisma.products[id]
    {
      prisma.ProductFindUnique(id)
    }

    /** Writes the supplied fields over the product; an unknown id is a store failure and changes nothing. */
    method UpdateById(id: Id, data: ProductChanges) returns (r: Result<Product>)
      requires prisma.Valid() && prisma.Nonnegative()
      requires data.priceCents.Some? ==> data.priceCents.value >= 0
      requires data.stock.Some? ==> data.stock.value >= 0
      modifies prisma
      ensures prisma.Valid() && prisma.Nonnegative()
      ensures id !in old(prisma.products) ==>
                r == Err(StoreError(RecordNotFound)) && prisma.products == old(prisma.products)
      ensures id in old(prisma.products) ==>
                && r == Ok(Merge(old(prisma.products)[id], data))
                && prisma.products == old(prisma.products)[id := r.value]
      ensures prisma.productCount == old(prisma.productCount)
      ensures prisma.users == old(prisma.users) && prisma.orders == old(prisma.orders)
      ensures prisma.orderItems == old(prisma.orderItems)
    {
      r := prisma.ProductUpdate(id, data);
    }

    /** Removes the product from the store; an unknown id is a store failure and changes nothing. */
    method DeleteById(id: Id) returns (r: Result<()>)
      requires prisma.Valid() && prisma.Nonnegative()
      modifies prisma
      ensures prisma.Valid() && prisma.Nonnegative()
      ensures id !in old(prisma.products) ==>
                r == Err(StoreError(RecordNotFound)) && prisma.products == old(prisma.products)
      ensures id in old(prisma.products) ==> r == Ok(()) && prisma.products == old(prisma.products) - {id}
      ensures prisma.productCount == old(prisma.productCount)
      ensures prisma.users == old(prisma.users) && prisma.orders == old(prisma.orders)
      ensures prisma.orderItems == old(prisma.orderItems)
    {
      var deleted := prisma.ProductDelete(id);
      if deleted.Err? {
        return Err(deleted.error);
      }
      r := Ok(());
    }
  }
}
