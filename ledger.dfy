/**
 * What placing and cancelling an order mean for the product table, stated as
 * functions on values: which requests are refused and why, the total of a
 * request, the stock after placing, the stock after cancelling. The
 * repository methods are proved against these, and the lemmas here prove the
 * properties the lifecycle promises: the total is the sum of the line
 * extensions, placing never drives a stock below zero, and cancelling gives
 * back exactly what placing took.
 */
module Ledger {
  import opened Domain

  // ----- the requested ids -----

  function ProductIds(lines: seq<OrderLine>): (ids: seq<Id>)
    ensures |ids| == |lines|
    ensures forall i :: 0 <= i < |lines| ==> ids[i] == lines[i].productId
  {
    seq(|lines|, i requires 0 <= i < |lines| => lines[i].productId)
  }

  predicate Distinct(ids: seq<Id>)
  {
    forall i, j :: 0 <= i < j < |ids| ==> ids[i] != ids[j]
  }

  /** Every requested id names a product, and no id is requested twice. */
  predicate AllFoundOnce(ids: seq<Id>, keys: set<Id>)
  {
    Distinct(ids) && forall i :: 0 <= i < |ids| ==> ids[i] in keys
  }

  /** The requested ids that name no product, in request order (a repeated one repeatedly). */
  function Missing(ids: seq<Id>, keys: set<Id>): (r: seq<Id>)
    ensures |r| <= |ids|
    ensures forall x :: x in r <==> x in ids && x !in keys
  {
    if ids == [] then []
    else (if ids[0] in keys then [] else [ids[0]]) + Missing(ids[1..], keys)
  }

  /** Missing only looks at whether each requested id is among the keys. */
  lemma {:induction false} MissingDependsOnRequestedIdsOnly(ids: seq<Id>, a: set<Id>, b: set<Id>)
    requires forall i :: 0 <= i < |ids| ==> (ids[i] in a <==> ids[i] in b)
    ensures Missing(ids, a) == Missing(ids, b)
  {
    if ids != [] {
      MissingDependsOnRequestedIdsOnly(ids[1..], a, b);
    }
  }

  // ----- counting: the length comparison detects a missing or repeated id -----

  function SetOf(s: seq<Id>): set<Id>
  {
    set x | x in s
  }

  lemma {:induction false} SetOfCardinality(s: seq<Id>)
    ensures |SetOf(s)| <= |s|
    ensures |SetOf(s)| == |s| <==> Distinct(s)
  {
    if s != [] {
      var t := s[1..];
      SetOfCardinality(t);
      assert SetOf(s) == {s[0]} + SetOf(t);
      if s[0] in t {
        assert SetOf(s) == SetOf(t);
        var j :| 0 <= j < |t| && t[j] == s[0];
        assert s[0] == s[j + 1];
      } else {
        assert |SetOf(s)| == 1 + |SetOf(t)|;
        if Distinct(s) {
          assert Distinct(t) by {
            forall i, j | 0 <= i < j < |t| ensures t[i] != t[j] {
              assert t[i] == s[i + 1] && t[j] == s[j + 1];
            }
          }
        }
        if Distinct(t) {
          forall i, j | 0 <= i < j < |s| ensures s[i] != s[j] {
            if i == 0 {
              assert s[j] == t[j - 1];
            } else {
              assert s[i] == t[i - 1] && s[j] == t[j - 1];
            }
          }
        }
      }
    }
  }

  lemma {:induction false} SubsetCardinality(a: set<Id>, b: set<Id>)
    requires a <= b
    ensures |a| <= |b|
    ensures |a| == |b| ==> a == b
    decreases |b|
  {
    if a != b {
      var x :| x in b && x !in a;
      SubsetCardinality(a, b - {x});
    }
  }

  /**
   * The store hands back each product with a requested id once. So the list
   * it returns is as long as the request exactly when every requested id
   * names a product and none is repeated.
   */
  lemma FoundAsManyAsRequested(ids: seq<Id>, found: seq<Id>, keys: set<Id>)
    requires Distinct(found)
    requires forall k :: k in found <==> k in ids && k in keys
    ensures |found| == |ids| <==> AllFoundOnce(ids, keys)
  {
    var a := SetOf(ids) * keys;
    assert SetOf(found) == a;
    SetOfCardinality(found);
    SetOfCardinality(ids);
    SubsetCardinality(a, SetOf(ids));
    if AllFoundOnce(ids, keys) {
      assert a == SetOf(ids);
    }
    if |found| == |ids| {
      assert a == SetOf(ids);
      forall i | 0 <= i < |ids| ensures ids[i] in keys {
        assert ids[i] in SetOf(ids);
      }
    }
  }

  // ----- stock check and total -----

  predicate AllIn(lines: seq<OrderLine>, m: map<Id, Product>)
  {
    forall i :: 0 <= i < |lines| ==> lines[i].productId in m
  }

  /** The position of the first line asking for more than its product's stock, or |lines| if none does. */
  function FirstShort(lines: seq<OrderLine>, m: map<Id, Product>): (r: nat)
    requires AllIn(lines, m)
    ensures r <= |lines|
    ensures forall j :: 0 <= j < r ==> lines[j].quantity <= m[lines[j].productId].stock
    ensures r < |lines| ==> m[lines[r].productId].stock < lines[r].quantity
    decreases |lines|
  {
    if lines == [] then 0
    else if m[lines[0].productId].stock < lines[0].quantity then 0
    else 1 + FirstShort(lines[1..], m)
  }

  /** Sum of quantity times price over the lines, at the prices in m. */
  function LinesTotal(lines: seq<OrderLine>, m: map<Id, Product>): int
    requires AllIn(lines, m)
    decreases |lines|
  {
    if lines == [] then 0
    else
      var l := lines[|lines| - 1];
      LinesTotal(lines[..|lines| - 1], m) + l.quantity * m[l.productId].priceCents
  }

  /** Sum of quantity times unit price over the items of an order. */
  function ItemsTotal(items: seq<OrderItem>): int
    decreases |items|
  {
    if items == [] then 0
    else
      var it := items[|items| - 1];
      ItemsTotal(items[..|items| - 1]) + it.quantity * it.unitPriceCents
  }

  /**
   * The items an accepted request stores: one per line, in line order,
   * numbered from firstId, belonging to order orderId, carrying the line's
   * product and quantity and the price of that product in m.
   */
  function PricedItems(lines: seq<OrderLine>, m: map<Id, Product>, orderId: Id, firstId: Id): seq<OrderItem>
    requires AllIn(lines, m)
    decreases |lines|
  {
    if lines == [] then []
    else
      var n := |lines| - 1;
      PricedItems(lines[..n], m, orderId, firstId)
        + [OrderItem(firstId + n, orderId, lines[n].productId, lines[n].quantity, m[lines[n].productId].priceCents)]
  }

  /** Item i of the priced items is line i, numbered firstId + i, at the price in m. */
  lemma {:induction false} PricedItemsShape(lines: seq<OrderLine>, m: map<Id, Product>, orderId: Id, firstId: Id)
    requires AllIn(lines, m)
    ensures ItemsMirrorLines(PricedItems(lines, m, orderId, firstId), lines)
    ensures forall i :: 0 <= i < |lines| ==>
              PricedItems(lines, m, orderId, firstId)[i]
                == OrderItem(firstId + i, orderId, lines[i].productId, lines[i].quantity, m[lines[i].productId].priceCents)
    decreases |lines|
  {
    if lines != [] {
      PricedItemsShape(lines[..|lines| - 1], m, orderId, firstId);
    }
  }

  /** Pricing one more line appends exactly that line's item to the items priced so far. */
  lemma PricedItemsNext(lines: seq<OrderLine>, m: map<Id, Product>, orderId: Id, firstId: Id, i: nat,
                        made: seq<OrderItem>, item: OrderItem)
    requires AllIn(lines, m) && i < |lines|
    requires made == PricedItems(lines[..i], m, orderId, firstId)
    requires item == OrderItem(firstId + i, orderId, lines[i].productId, lines[i].quantity, m[lines[i].productId].priceCents)
    ensures made + [item] == PricedItems(lines[..i + 1], m, orderId, firstId)
  {
    assert lines[..i + 1][..i] == lines[..i];
  }

  /** The stored items of a request add up to the request's total at the same prices. */
  lemma {:induction false} PricedItemsTotal(lines: seq<OrderLine>, m: map<Id, Product>, orderId: Id, firstId: Id)
    requires AllIn(lines, m)
    ensures ItemsTotal(PricedItems(lines, m, orderId, firstId)) == LinesTotal(lines, m)
    decreases |lines|
  {
    if lines != [] {
      var n := |lines| - 1;
      var init := PricedItems(lines[..n], m, orderId, firstId);
      var all := PricedItems(lines, m, orderId, firstId);
      PricedItemsTotal(lines[..n], m, orderId, firstId);
      assert all[..|all| - 1] == init;
    }
  }

  /** The item table after each item, in order, has been stored under its id. */
  function Filed(t: map<Id, OrderItem>, items: seq<OrderItem>): map<Id, OrderItem>
    decreases |items|
  {
    if items == [] then t
    else
      var it := items[|items| - 1];
      Filed(t, items[..|items| - 1])[it.id := it]
  }

  /** Filing keeps every earlier entry whose id is not reused, and files each item under its id when ids are distinct. */
  lemma {:induction false} FiledAt(t: map<Id, OrderItem>, items: seq<OrderItem>)
    requires forall i :: 0 <= i < |items| ==> items[i].id !in t
    requires forall i, j :: 0 <= i < j < |items| ==> items[i].id != items[j].id
    ensures forall k :: k in t ==> k in Filed(t, items) && Filed(t, items)[k] == t[k]
    ensures forall i :: 0 <= i < |items| ==> items[i].id in Filed(t, items) && Filed(t, items)[items[i].id] == items[i]
    decreases |items|
  {
    if items != [] {
      FiledAt(t, items[..|items| - 1]);
    }
  }

  /** Two tables that agree on the requested products give the same check and the same total. */
  lemma {:induction false} SnapshotAgreement(lines: seq<OrderLine>, m1: map<Id, Product>, m2: map<Id, Product>)
    requires AllIn(lines, m1) && AllIn(lines, m2)
    requires forall i :: 0 <= i < |lines| ==> m1[lines[i].productId] == m2[lines[i].productId]
    ensures FirstShort(lines, m1) == FirstShort(lines, m2)
    ensures LinesTotal(lines, m1) == LinesTotal(lines, m2)
    decreases |lines|
  {
    if lines != [] {
      SnapshotAgreement(lines[1..], m1, m2);
      SnapshotAgreement(lines[..|lines| - 1], m1, m2);
    }
  }

  /** Two tables that agree on the requested products price the stored items alike. */
  lemma {:induction false} PricedItemsAgreement(lines: seq<OrderLine>, m1: map<Id, Product>, m2: map<Id, Product>,
                                                orderId: Id, firstId: Id)
    requires AllIn(lines, m1) && AllIn(lines, m2)
    requires forall i :: 0 <= i < |lines| ==> m1[lines[i].productId] == m2[lines[i].productId]
    ensures PricedItems(lines, m1, orderId, firstId) == PricedItems(lines, m2, orderId, firstId)
    decreases |lines|
  {
    if lines != [] {
      PricedItemsAgreement(lines[..|lines| - 1], m1, m2, orderId, firstId);
    }
  }

  /** With non-negative prices and quantities, a total is never negative. */
  lemma {:induction false} LinesTotalNonnegative(lines: seq<OrderLine>, m: map<Id, Product>)
    requires AllIn(lines, m)
    requires forall i :: 0 <= i < |lines| ==> lines[i].quantity >= 0 && m[lines[i].productId].priceCents >= 0
    ensures LinesTotal(lines, m) >= 0
    decreases |lines|
  {
    if lines != [] {
      LinesTotalNonnegative(lines[..|lines| - 1], m);
    }
  }

  /**
   * Why a request is refused, in the order the checks run: a missing or
   * repeated id first, then the first line whose quantity exceeds the stock.
   */
  function PlacementError(lines: seq<OrderLine>, m: map<Id, Product>): Option<Error>
  {
    var ids := ProductIds(lines);
    if !AllFoundOnce(ids, m.Keys) then Some(NotFound(ProductsNotFound(Missing(ids, m.Keys))))
    else if FirstShort(lines, m) < |lines| then
      Some(BadRequest(InsufficientStock(lines[FirstShort(lines, m)].productId)))
    else None
  }

  /** A request is accepted exactly when its ids are distinct and known and every quantity fits the stock. */
  lemma PlacementAccepted(lines: seq<OrderLine>, m: map<Id, Product>)
    ensures PlacementError(lines, m) == None <==>
              && Distinct(ProductIds(lines))
              && AllIn(lines, m)
              && forall i :: 0 <= i < |lines| ==> lines[i].quantity <= m[lines[i].productId].stock
  {
  }

  // ----- stock after placing and after cancelling -----

  /** The table after each line, in order, has taken its quantity out of its product's stock. */
  function Decremented(m: map<Id, Product>, lines: seq<OrderLine>): map<Id, Product>
    decreases |lines|
  {
    if lines == [] then m
    else TakeOff(Decremented(m, lines[..|lines| - 1]), lines[|lines| - 1])
  }

  /** One line's quantity taken off its product's stock, if the product is in the table. */
  function TakeOff(m: map<Id, Product>, l: OrderLine): map<Id, Product>
  {
    if l.productId in m
    then m[l.productId := m[l.productId].(stock := m[l.productId].stock - l.quantity)]
    else m
  }

  /** The table after each item, in order, has put its quantity back into its product's stock. */
  function Restocked(m: map<Id, Product>, items: seq<OrderItem>): map<Id, Product>
    decreases |items|
  {
    if items == [] then m
    else PutBack(Restocked(m, items[..|items| - 1]), items[|items| - 1])
  }

  /** One item's quantity put back on its product's stock, if the product is in the table. */
  function PutBack(m: map<Id, Product>, it: OrderItem): map<Id, Product>
  {
    if it.productId in m
    then m[it.productId := m[it.productId].(stock := m[it.productId].stock + it.quantity)]
    else m
  }

  lemma RestockedNext(m: map<Id, Product>, items: seq<OrderItem>, i: nat)
    requires i < |items|
    ensures Restocked(m, items[..i + 1]) == PutBack(Restocked(m, items[..i]), items[i])
  {
    assert items[..i + 1][..i] == items[..i];
  }

  /** A table that is the lines so far with line i's quantity then taken off is the lines up to i. */
  lemma DecrementedStep(m: map<Id, Product>, lines: seq<OrderLine>, i: nat, after: map<Id, Product>)
    requires i < |lines|
    requires lines[i].productId in Decremented(m, lines[..i])
    requires var d, k := Decremented(m, lines[..i]), lines[i].productId;
             after == d[k := d[k].(stock := d[k].stock - lines[i].quantity)]
    ensures after == Decremented(m, lines[..i + 1])
  {
    assert lines[..i + 1][..i] == lines[..i];
  }

  /** How many units of product k the lines ask for altogether. */
  function OrderedQuantity(lines: seq<OrderLine>, k: Id): int
    decreases |lines|
  {
    if lines == [] then 0
    else
      var l := lines[|lines| - 1];
      OrderedQuantity(lines[..|lines| - 1], k) + (if l.productId == k then l.quantity else 0)
  }

  /** How many units of product k the items hold altogether. */
  function ItemQuantity(items: seq<OrderItem>, k: Id): int
    decreases |items|
  {
    if items == [] then 0
    else
      var it := items[|items| - 1];
      ItemQuantity(items[..|items| - 1], k) + (if it.productId == k then it.quantity else 0)
  }

  /** Placing changes stock only, and each product's stock drops by what the lines ask of it. */
  lemma {:induction false} DecrementedAt(m: map<Id, Product>, lines: seq<OrderLine>, k: Id)
    ensures Decremented(m, lines).Keys == m.Keys
    ensures k in m ==> Decremented(m, lines)[k] == m[k].(stock := m[k].stock - OrderedQuantity(lines, k))
    decreases |lines|
  {
    if lines != [] {
      DecrementedAt(m, lines[..|lines| - 1], k);
    }
  }

  /** Cancelling changes stock only, and each product's stock rises by what the items hold of it. */
  lemma {:induction false} RestockedAt(m: map<Id, Product>, items: seq<OrderItem>, k: Id)
    ensures Restocked(m, items).Keys == m.Keys
    ensures k in m ==> Restocked(m, items)[k] == m[k].(stock := m[k].stock + ItemQuantity(items, k))
    decreases |items|
  {
    if items != [] {
      RestockedAt(m, items[..|items| - 1], k);
    }
  }

  /** Items made one per line, with the lines' products and quantities. */
  predicate ItemsMirrorLines(items: seq<OrderItem>, lines: seq<OrderLine>)
  {
    && |items| == |lines|
    && forall i :: 0 <= i < |lines| ==>
         items[i].productId == lines[i].productId && items[i].quantity == lines[i].quantity
  }

  lemma {:induction false} MirroredQuantities(items: seq<OrderItem>, lines: seq<OrderLine>, k: Id)
    requires ItemsMirrorLines(items, lines)
    ensures ItemQuantity(items, k) == OrderedQuantity(lines, k)
    decreases |lines|
  {
    if lines != [] {
      MirroredQuantities(items[..|items| - 1], lines[..|lines| - 1], k);
    }
  }

  /** Cancelling an order right after placing it gives back exactly the stock placing took. */
  lemma CancelUndoesPlacement(m: map<Id, Product>, lines: seq<OrderLine>, items: seq<OrderItem>)
    requires ItemsMirrorLines(items, lines)
    ensures Restocked(Decremented(m, lines), items) == m
  {
    var d := Decremented(m, lines);
    DecrementedAt(m, lines, 0);
    RestockedAt(d, items, 0);
    forall k | k in m ensures Restocked(d, items)[k] == m[k] {
      DecrementedAt(m, lines, k);
      RestockedAt(d, items, k);
      MirroredQuantities(items, lines, k);
    }
  }

  /** With distinct ids, a product's ordered quantity is that of its one line, and 0 if it has none. */
  lemma {:induction false} OrderedQuantityOfDistinct(lines: seq<OrderLine>, k: Id)
    requires Distinct(ProductIds(lines))
    ensures (forall i :: 0 <= i < |lines| ==> lines[i].productId != k) ==> OrderedQuantity(lines, k) == 0
    ensures forall i :: 0 <= i < |lines| && lines[i].productId == k ==> OrderedQuantity(lines, k) == lines[i].quantity
    decreases |lines|
  {
    if lines != [] {
      var init := lines[..|lines| - 1];
      assert Distinct(ProductIds(init)) by {
        forall i, j | 0 <= i < j < |init| ensures init[i].productId != init[j].productId {
          assert ProductIds(lines)[i] != ProductIds(lines)[j];
        }
      }
      OrderedQuantityOfDistinct(init, k);
      var last := lines[|lines| - 1];
      if last.productId == k {
        forall i | 0 <= i < |init| ensures init[i].productId != k {
          assert ProductIds(lines)[i] != ProductIds(lines)[|lines| - 1];
        }
      }
    }
  }

  /**
   * What an accepted request does to the product table: only the stock of
   * the requested products changes, each drops by exactly its line's
   * quantity, and no stock goes below zero.
   */
  lemma PlacementEffects(m: map<Id, Product>, lines: seq<OrderLine>)
    requires PlacementError(lines, m) == None
    ensures Decremented(m, lines).Keys == m.Keys
    ensures forall i :: 0 <= i < |lines| ==>
              Decremented(m, lines)[lines[i].productId]
                == m[lines[i].productId].(stock := m[lines[i].productId].stock - lines[i].quantity)
    ensures forall k :: k in m && k !in ProductIds(lines) ==> Decremented(m, lines)[k] == m[k]
    ensures NonnegativeTable(m) ==> NonnegativeTable(Decremented(m, lines))
  {
    var d := Decremented(m, lines);
    DecrementedAt(m, lines, 0);
    var fs := FirstShort(lines, m);
    assert fs == |lines|;
    forall i | 0 <= i < |lines|
      ensures d[lines[i].productId] == m[lines[i].productId].(stock := m[lines[i].productId].stock - lines[i].quantity)
    {
      DecrementedAt(m, lines, lines[i].productId);
      OrderedQuantityOfDistinct(lines, lines[i].productId);
    }
    forall k | k in m && k !in ProductIds(lines) ensures d[k] == m[k] {
      DecrementedAt(m, lines, k);
      OrderedQuantityOfDistinct(lines, k);
    }
    if NonnegativeTable(m) {
      forall k | k in d ensures d[k].priceCents >= 0 && d[k].stock >= 0 {
        DecrementedAt(m, lines, k);
        OrderedQuantityOfDistinct(lines, k);
      }
    }
  }

  // ----- cancelling stops at a vanished product -----

  /** The position of the first item whose product is no longer in m, or |items| if none. */
  function FirstMissing(items: seq<OrderItem>, m: map<Id, Product>): (r: nat)
    ensures r <= |items|
    ensures forall j :: 0 <= j < r ==> items[j].productId in m
    ensures r < |items| ==> items[r].productId !in m
    decreases |items|
  {
    if items == [] then 0
    else if items[0].productId !in m then 0
    else 1 + FirstMissing(items[1..], m)
  }

  /** Putting stock back, with non-negative quantities, keeps every price and stock non-negative. */
  lemma RestockKeepsNonnegative(m: map<Id, Product>, items: seq<OrderItem>)
    requires forall i :: 0 <= i < |items| ==> items[i].quantity >= 0
    requires NonnegativeTable(m)
    ensures NonnegativeTable(Restocked(m, items))
  {
    var r := Restocked(m, items);
    RestockedAt(m, items, 0);
    forall k | k in r ensures r[k].priceCents >= 0 && r[k].stock >= 0 {
      RestockedAt(m, items, k);
      ItemQuantityNonnegative(items, k);
    }
  }

  lemma {:induction false} ItemQuantityNonnegative(items: seq<OrderItem>, k: Id)
    requires forall i :: 0 <= i < |items| ==> items[i].quantity >= 0
    ensures ItemQuantity(items, k) >= 0
    decreases |items|
  {
    if items != [] {
      ItemQuantityNonnegative(items[..|items| - 1], k);
    }
  }
}
