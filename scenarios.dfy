/**
 * Worked examples on concrete values: the ordering flow of the end-to-end tests
 * and the cases of the unit tests of the orders service, stated on the
 * functions the repository's contracts are written in, and the delete rules
 * of the products service stated through its contracts on a fresh store.
 */
module Scenarios {
  import opened Domain
  import opened FakePrisma
  import opened Ledger
  import opened Orders
  import opened ProductRepo
  import opened Products

  /** The product of the worked examples: 5 in stock at 100 cents. */
  function Mouse(stock: int): Product
  {
    Product(1, "Mouse", 100, stock, true)
  }

  /**
   * Ordering 2 of a product with stock 5 at 100 cents is accepted, costs 200,
   * records one item at the current price and leaves 3; ordering 10 of it
   * afterwards is refused for lack of stock of that product.
   */
  lemma OrderTwoThenTen()
    ensures var m := map[1 := Mouse(5)];
            var lines := [OrderLine(1, 2)];
            && PlacementError(lines, m) == None
            && LinesTotal(lines, m) == 200
            && PricedItems(lines, m, 1, 1) == [OrderItem(1, 1, 1, 2, 100)]
            && Decremented(m, lines) == map[1 := Mouse(3)]
            && PlacementError([OrderLine(1, 10)], map[1 := Mouse(3)]) == Some(BadRequest(InsufficientStock(1)))
  {
    var m := map[1 := Mouse(5)];
    var lines := [OrderLine(1, 2)];
    assert ProductIds(lines) == [1];
    assert ProductIds([OrderLine(1, 10)]) == [1];
    assert lines[..0] == [];
  }

  /** Ordering 2 of a product with only 1 in stock is refused for lack of stock of that product. */
  lemma OrderTwoOfOne()
    ensures PlacementError([OrderLine(1, 2)], map[1 := Mouse(1)]) == Some(BadRequest(InsufficientStock(1)))
  {
    assert ProductIds([OrderLine(1, 2)]) == [1];
  }

  /**
   * Cancelling the order of 3 out of 5 right after placing it finds the
   * product and brings its stock back to 5.
   */
  lemma CancelGivesStockBack()
    ensures var m := map[1 := Mouse(5)];
            var lines := [OrderLine(1, 3)];
            var items := PricedItems(lines, m, 1, 1);
            && PlacementError(lines, m) == None
            && Decremented(m, lines) == map[1 := Mouse(2)]
            && FirstMissing(items, map[1 := Mouse(2)]) == 1
            && Restocked(map[1 := Mouse(2)], items) == m
  {
    var m := map[1 := Mouse(5)];
    var lines := [OrderLine(1, 3)];
    assert ProductIds(lines) == [1];
    assert lines[..0] == [];
    assert Decremented(m, lines) == map[1 := Mouse(2)];
    CancelRightAfterPlacing(m, lines, 1, 1);
  }

  /**
   * A paid order is final: cancelling it is refused as not pending, so the
   * stock taken at placement stays taken.
   */
  lemma PaidThenCancel()
    ensures Transition(Pending, Paid) == Ok(Paid)
    ensures Transition(Paid, Cancelled) == Err(BadRequest(NotPending))
    ensures Transition(Cancelled, Cancelled) == Err(BadRequest(NotPending))
  {
  }

  /**
   * An unknown product id is NotFound naming it; a product listed twice is
   * NotFound naming nothing, since every id it lists exists.
   */
  lemma UnknownAndRepeatedProducts()
    ensures PlacementError([OrderLine(9, 1)], map[1 := Mouse(5)]) == Some(NotFound(ProductsNotFound([9])))
    ensures PlacementError([OrderLine(1, 1), OrderLine(1, 1)], map[1 := Mouse(5)])
            == Some(NotFound(ProductsNotFound([])))
  {
    var unknown := ProductIds([OrderLine(9, 1)]);
    assert unknown == [9] && unknown[1..] == [];
    assert map[1 := Mouse(5)].Keys == {1};
    assert !AllFoundOnce(unknown, {1}) by { assert unknown[0] !in {1}; }
    assert Missing(unknown, {1}) == [9] + Missing([], {1}) == [9];
    var repeated := ProductIds([OrderLine(1, 1), OrderLine(1, 1)]);
    assert repeated == [1, 1];
    assert !Distinct(repeated) by { assert repeated[0] == repeated[1]; }
    assert repeated[1..] == [1];
  }

  /**
   * Deleting is not idempotent: an active product is deleted, a second
   * delete is NotFound, and an inactive product is refused as already
   * inactive and kept.
   */
  method DeleteRules() returns (first: Result<()>, second: Result<()>, inactive: Result<()>)
    ensures first == Ok(())
    ensures second == Err(NotFound(ProductNotFound))
    ensures inactive == Err(NotFound(ProductAlreadyInactive))
  {
    var store := new Store();
    var productRepo := new PrismaProductRepository(store);
    var products := new ProductsService(productRepo);
    var mouse := products.Create(NewProduct("Mouse", 100, 5, None));
    var pad := products.Create(NewProduct("Pad", 50, 1, Some(false)));
    assert mouse.id == 1 && pad.id == 2;

    first := products.DeleteById(1);
    second := products.DeleteById(1);
    inactive := products.DeleteById(2);
    assert 2 in store.products;
  }
}
