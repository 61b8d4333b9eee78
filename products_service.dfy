/**
 * The products service: the business rules over the product repository. A
 * product that does not exist is reported as NotFound before anything is
 * changed, and deleting a product whose flag is already off is refused, also
 * as NotFound.
 */
module Products {
  import opened Domain
  import opened FakePrisma
  import opened ProductRepo

  class ProductsService {
    const repo: PrismaProductRepository

    constructor (repo: PrismaProductRepository)
      ensures this.repo == repo
    {
      this.repo := repo;
    }

    method Create(data: NewProduct) returns (p: Product)
      requires repo.prisma.Valid() && repo.prisma.Nonnegative()
      requires data.priceCents >= 0 && data.stock >= 0
      modifies repo.prisma
      ensures repo.prisma.Valid() && repo.prisma.Nonnegative()
      ensures p == Product(old(repo.prisma.productCount) + 1, data.name, data.priceCents, data.stock,
                           data.isActive != Some(false))
      ensures repo.prisma.products == old(repo.prisma.products)[p.id := p]
      ensures p.id !in old(repo.prisma.products)
      ensures repo.prisma.productCount == old(repo.prisma.productCount) + 1
      ensures repo.prisma.users == old(repo.prisma.users) && repo.prisma.orders == old(repo.prisma.orders)
      ensures repo.prisma.orderItems == old(repo.prisma.orderItems)
    {
      p := repo.Create(data);
    }

    method GetAll(q: Option<string>, isActive: Option<bool>) returns (r: seq<Product>)
      requires repo.prisma.Valid()
      ensures ProductsByCreation(r)
      ensures forall p :: p in r <==>
                && p.id in repo.prisma.products && repo.prisma.products[p.id] == p
                && (q.Some? ==> Text.ContainsIgnoringCase(p.name, q.value))
                && (isActive.Some? ==> p.isActive == isActive.value)
    {
      r := repo.GetAll(q, isActive);
    }

    /** The product with this id; NotFound when there is none. */
    function GetById(id: Id): (r: Result<Product>)
      reads repo, repo.prisma
      ensures r.Ok? <==> id in repo.prisma.products
      ensures r.Ok? ==> r.value == repo.prisma.products[id]
      ensures r.Err? ==> r.error == NotFound(ProductNotFound)
    {
      var product := repo.GetById(id);
      if product.None? then Err(NotFound(ProductNotFound)) else Ok(product.value)
    }

    /** Applies a partial update to an existing product; NotFound, changing nothing, when there is none. */
    method UpdateById(id: Id, data: ProductChanges) returns (r: Result<Product>)
      requires repo.prisma.Valid() && repo.prisma.Nonnegative()
      requires data.priceCents.Some? ==> data.priceCents.value >= 0
      requires data.stock.Some? ==> data.stock.value >= 0
      modifies repo.prisma
      ensures repo.prisma.Valid() && repo.prisma.Nonnegative()
      ensures id !in old(repo.prisma.products) ==> r == Err(NotFound(ProductNotFound)) && unchanged(repo.prisma)
      ensures id in old(repo.prisma.products) ==>
                && r == Ok(Merge(old(repo.prisma.products)[id], data))
                && repo.prisma.products == old(repo.prisma.products)[id := r.value]
      ensures repo.prisma.productCount == old(repo.prisma.productCount)
      ensures repo.prisma.users == old(repo.prisma.users) && repo.prisma.orders == old(repo.prisma.orders)
      ensures repo.prisma.orderItems == old(repo.prisma.orderItems)
    {
      var product := GetById(id);
      if product.Err? {
        return Err(product.error);
      }
      r := repo.UpdateById(id, data);
    }

    /**
     * Deletes an active product. An unknown id is NotFound, and so is a
     * product whose flag is off ("already inactive"); both change nothing.
     * Success returns no value.
     */
    method DeleteById(id: Id) returns (r: Result<()>)
      requires repo.prisma.Valid() && repo.prisma.Nonnegative()
      modifies repo.prisma
      ensures repo.prisma.Valid() && repo.prisma.Nonnegative()
      ensures id !in old(repo.prisma.products) ==> r == Err(NotFound(ProductNotFound)) && unchanged(repo.prisma)
      ensures id in old(repo.prisma.products) && !old(repo.prisma.products)[id].isActive ==>
                r == Err(NotFound(ProductAlreadyInactive)) && unchanged(repo.prisma)
      ensures id in old(repo.prisma.products) && old(repo.prisma.products)[id].isActive ==>
                r == Ok(()) && repo.prisma.products == old(repo.prisma.products) - {id}
      ensures repo.prisma.productCount == old(repo.prisma.productCount)
      ensures repo.prisma.users == old(repo.prisma.users) && repo.prisma.orders == old(repo.prisma.orders)
      ensures repo.prisma.orderItems == old(repo.prisma.orderItems)
    {
      var product := GetById(id);
      if product.Err? {
        return Err(product.error);
      }
      if !product.value.isActive {
        return Err(NotFound(ProductAlreadyInactive));
      }
      r := repo.DeleteById(id);
    }
  }
}
