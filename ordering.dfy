/**
 * Order placement as a transition of the two collections: look the item up
 * by its whole name ignoring case, refuse unknown or sold-out items, and
 * otherwise take one unit of stock and append an order record.
 */
module Ordering {
  import opened Wrappers
  import opened Text
  import opened Catalog

  /** The menu collection and the orders collection together. */
  datatype Inventory = Inventory(menu: seq<MenuItem>, orders: seq<Order>)

  /** The collections after one order request, and the text answered to it. */
  datatype Outcome = Outcome(after: Inventory, reply: string)

  /** `i` is the first item, in menu order, whose name equals `name` ignoring case. */
  predicate FirstMatch(menu: seq<MenuItem>, name: string, i: nat)
  {
    i < |menu| && EqualsIgnoringCase(menu[i].name, name) &&
    forall j :: 0 <= j < i ==> !EqualsIgnoringCase(menu[j].name, name)
  }

  /** The lookup of an order request: the first item whose whole name equals `name` ignoring case. */
  function FindByName(menu: seq<MenuItem>, name: string): (r: Option<nat>)
    ensures r.Some? ==> FirstMatch(menu, name, r.value)
    ensures r.None? <==> forall j :: 0 <= j < |menu| ==> !EqualsIgnoringCase(menu[j].name, name)
  {
    if menu == [] then None
    else if EqualsIgnoringCase(menu[0].name, name) then Some(0)
    else match FindByName(menu[1..], name)
      case None => None
      case Some(i) => Some(i + 1)
  }

  function NotOnMenuReply(name: string): string
  {
    "Error: '" + name + "' is not on the menu. Please check the menu first."
  }

  function OutOfStockReply(name: string): string
  {
    "Sorry, " + name + " is currently out of stock."
  }

  function SuccessReply(name: string): string
  {
    "SUCCESS: Ordered " + name + ". It will arrive in 30 mins."
  }

  const SuccessMark: string := "SUCCESS:"

  /** The reply reports an accepted order: it starts with the success mark. */
  predicate Accepted(reply: string)
  {
    IsPrefix(SuccessMark, reply)
  }

  /** The menu keeps its items in place; at most their stock counts differ. */
  predicate OnlyStockChanged(before: seq<MenuItem>, after: seq<MenuItem>)
  {
    |after| == |before| &&
    forall j :: 0 <= j < |before| ==> after[j] == before[j].(stock := after[j].stock)
  }

  /** The ledger `after` keeps every record of `before`, in place, and may add more at the end. */
  predicate Extends(before: seq<Order>, after: seq<Order>)
  {
    |before| <= |after| && after[..|before|] == before
  }

  /** One order request for `itemName`, recorded at instant `now`. */
  function PlaceOrder(inv: Inventory, itemName: string, now: Timestamp): (r: Outcome)
    ensures OnlyStockChanged(inv.menu, r.after.menu)
    ensures Extends(inv.orders, r.after.orders) && |r.after.orders| <= |inv.orders| + 1
  {
    match FindByName(inv.menu, itemName)
    case None => Outcome(inv, NotOnMenuReply(itemName))
    case Some(i) =>
      var item := inv.menu[i];
      if item.stock <= 0 then Outcome(inv, OutOfStockReply(item.name))
      else
        Outcome(Inventory(inv.menu[i := item.(stock := item.stock - 1)],
                          inv.orders + [Order(item.name, item.price, KitchenPreparing, now)]),
                SuccessReply(item.name))
  }

  /** An unknown item is refused with the "not on the menu" text; nothing changes. */
  lemma UnknownItemRefused(inv: Inventory, itemName: string, now: Timestamp)
    requires forall j :: 0 <= j < |inv.menu| ==> !EqualsIgnoringCase(inv.menu[j].name, itemName)
    ensures PlaceOrder(inv, itemName, now).after == inv
    ensures PlaceOrder(inv, itemName, now).reply ==
      "Error: '" + itemName + "' is not on the menu. Please check the menu first."
    ensures !Accepted(PlaceOrder(inv, itemName, now).reply)
  {
    assert NotOnMenuReply(itemName)[0] != SuccessMark[0];
  }

  /** A matched item without positive stock is refused with the "out of stock" text; nothing changes. */
  lemma SoldOutItemRefused(inv: Inventory, itemName: string, now: Timestamp, i: nat)
    requires FirstMatch(inv.menu, itemName, i)
    requires inv.menu[i].stock <= 0
    ensures PlaceOrder(inv, itemName, now).after == inv
    ensures PlaceOrder(inv, itemName, now).reply ==
      "Sorry, " + inv.menu[i].name + " is currently out of stock."
    ensures !Accepted(PlaceOrder(inv, itemName, now).reply)
  {
    assert FindByName(inv.menu, itemName) == Some(i);
    assert OutOfStockReply(inv.menu[i].name)[1] != SuccessMark[1];
  }

  /**
   * An accepted order takes exactly one unit from the matched item and from no
   * other, and appends exactly one record copying the menu's name and price.
   */
  lemma AcceptedOrder(inv: Inventory, itemName: string, now: Timestamp, i: nat)
    requires FirstMatch(inv.menu, itemName, i)
    requires inv.menu[i].stock > 0
    ensures var after := PlaceOrder(inv, itemName, now).after;
      && |after.menu| == |inv.menu|
      && after.menu[i].stock == inv.menu[i].stock - 1
      && after.menu[i].name == inv.menu[i].name
      && after.menu[i].price == inv.menu[i].price
      && after.menu[i].tags == inv.menu[i].tags
      && (forall j :: 0 <= j < |inv.menu| && j != i ==> after.menu[j] == inv.menu[j])
      && |after.orders| == |inv.orders| + 1
      && after.orders[..|inv.orders|] == inv.orders
      && after.orders[|inv.orders|] == Order(inv.menu[i].name, inv.menu[i].price, "kitchen_preparing", now)
    ensures PlaceOrder(inv, itemName, now).reply ==
      "SUCCESS: Ordered " + inv.menu[i].name + ". It will arrive in 30 mins."
    ensures Accepted(PlaceOrder(inv, itemName, now).reply)
  {
    assert FindByName(inv.menu, itemName) == Some(i);
    var after := PlaceOrder(inv, itemName, now).after;
    assert after.orders[..|inv.orders|] == inv.orders;
  }

  /** A request succeeds exactly when its first match has stock, and exactly then one order is recorded. */
  lemma SucceedsIffInStock(inv: Inventory, itemName: string, now: Timestamp)
    ensures var out := PlaceOrder(inv, itemName, now);
      Accepted(out.reply) <==>
        exists i: nat :: FirstMatch(inv.menu, itemName, i) && inv.menu[i].stock > 0
    ensures var out := PlaceOrder(inv, itemName, now);
      Accepted(out.reply) <==> |out.after.orders| == |inv.orders| + 1
    ensures var out := PlaceOrder(inv, itemName, now);
      !Accepted(out.reply) ==> out.after == inv
  {
    match FindByName(inv.menu, itemName)
    case None =>
      UnknownItemRefused(inv, itemName, now);
    case Some(i) =>
      if inv.menu[i].stock <= 0 {
        SoldOutItemRefused(inv, itemName, now, i);
        forall i': nat | FirstMatch(inv.menu, itemName, i')
          ensures inv.menu[i'].stock <= 0
        {
          FirstMatchUnique(inv.menu, itemName, i, i');
        }
      } else {
        AcceptedOrder(inv, itemName, now, i);
      }
  }

  lemma FirstMatchUnique(menu: seq<MenuItem>, name: string, i: nat, j: nat)
    requires FirstMatch(menu, name, i) && FirstMatch(menu, name, j)
    ensures i == j
  {
  }

  /** Starting from non-negative stock, an order request never makes any stock negative. */
  lemma StockStaysNonNegative(inv: Inventory, itemName: string, now: Timestamp)
    requires StockNonNegative(inv.menu)
    ensures StockNonNegative(PlaceOrder(inv, itemName, now).after.menu)
  {
  }

  /** Units are conserved: every unit taken from stock is one more recorded order. */
  lemma StockAccounting(inv: Inventory, itemName: string, now: Timestamp)
    ensures var after := PlaceOrder(inv, itemName, now).after;
      TotalStock(after.menu) + |after.orders| == TotalStock(inv.menu) + |inv.orders|
  {
    match FindByName(inv.menu, itemName)
    case None =>
    case Some(i) =>
      var item := inv.menu[i];
      if item.stock > 0 {
        TotalStockUpdate(inv.menu, i, item.(stock := item.stock - 1));
      }
  }

  /** The collections after a run of requests for the same name, and how many were accepted. */
  datatype Run = Run(after: Inventory, accepted: nat)

  /** Requests for `itemName` made one after another, at the instants `times`. */
  function PlaceOrders(inv: Inventory, itemName: string, times: seq<Timestamp>): (r: Run)
    ensures r.accepted <= |times|
    ensures OnlyStockChanged(inv.menu, r.after.menu)
    ensures Extends(inv.orders, r.after.orders) && |r.after.orders| == |inv.orders| + r.accepted
    decreases |times|
  {
    if times == [] then Run(inv, 0)
    else
      var out := PlaceOrder(inv, itemName, times[0]);
      var rest := PlaceOrders(out.after, itemName, times[1..]);
      SucceedsIffInStock(inv, itemName, times[0]);
      Run(rest.after, rest.accepted + if Accepted(out.reply) then 1 else 0)
  }

  /**
   * Past the old ledger's end, `final` holds one record of the item per
   * instant, the m-th appended record stamped with `times[m]`.
   */
  predicate AppendedRecords(ledger: seq<Order>, final: seq<Order>, name: string, price: nat, times: seq<Timestamp>)
  {
    |ledger| <= |final| <= |ledger| + |times| &&
    forall m :: |ledger| <= m < |final| ==>
      final[m] == Order(name, price, KitchenPreparing, times[m - |ledger|])
  }

  /** One accepted step of a run: a record for `times[0]`, then the records of the rest of the run. */
  lemma AppendedRecordsStep(ledger: seq<Order>, final: seq<Order>, name: string, price: nat, times: seq<Timestamp>)
    requires times != [] && |ledger| < |final| && final[|ledger|] == Order(name, price, KitchenPreparing, times[0])
    requires AppendedRecords(ledger + [final[|ledger|]], final, name, price, times[1..])
    ensures AppendedRecords(ledger, final, name, price, times)
  {
  }

  /** The stock side of a run: min(n, k) of n requests succeed and only the item's stock changes. */
  lemma {:induction false} SuccessiveStock(inv: Inventory, itemName: string, times: seq<Timestamp>, i: nat)
    requires FirstMatch(inv.menu, itemName, i)
    requires inv.menu[i].stock >= 0
    ensures var run := PlaceOrders(inv, itemName, times);
      var k := inv.menu[i].stock;
      var served := if |times| < k then |times| else k;
      && run.accepted == served
      && |run.after.menu| == |inv.menu|
      && run.after.menu[i] == inv.menu[i].(stock := k - served)
      && (forall j :: 0 <= j < |inv.menu| && j != i ==> run.after.menu[j] == inv.menu[j])
      && |run.after.orders| == |inv.orders| + served
    decreases |times|
  {
    if times != [] {
      var out := PlaceOrder(inv, itemName, times[0]);
      SucceedsIffInStock(inv, itemName, times[0]);
      if inv.menu[i].stock > 0 {
        AcceptedOrder(inv, itemName, times[0], i);
        assert out.after.menu[i] == inv.menu[i].(stock := inv.menu[i].stock - 1);
        assert FirstMatch(out.after.menu, itemName, i);
        SuccessiveStock(out.after, itemName, times[1..], i);
      } else {
        SoldOutItemRefused(inv, itemName, times[0], i);
        SuccessiveStock(out.after, itemName, times[1..], i);
      }
    }
  }

  /** The ledger side of a run: the m-th appended record is the item's, stamped with the m-th instant. */
  lemma {:induction false} SuccessiveRecords(inv: Inventory, itemName: string, times: seq<Timestamp>, i: nat)
    requires FirstMatch(inv.menu, itemName, i)
    requires inv.menu[i].stock >= 0
    ensures AppendedRecords(inv.orders, PlaceOrders(inv, itemName, times).after.orders,
                            inv.menu[i].name, inv.menu[i].price, times)
    decreases |times|
  {
    if times != [] {
      var out := PlaceOrder(inv, itemName, times[0]);
      SucceedsIffInStock(inv, itemName, times[0]);
      if inv.menu[i].stock > 0 {
        AcceptedOrder(inv, itemName, times[0], i);
        assert FirstMatch(out.after.menu, itemName, i);
        SuccessiveRecords(out.after, itemName, times[1..], i);
        var final := PlaceOrders(out.after, itemName, times[1..]).after.orders;
        assert out.after.orders == inv.orders + [final[|inv.orders|]];
        AppendedRecordsStep(inv.orders, final, inv.menu[i].name, inv.menu[i].price, times);
      } else {
        SuccessiveStock(inv, itemName, times, i);
      }
    }
  }

  /**
   * Of n successive requests for an item holding k >= 0 units, exactly min(n, k)
   * succeed; the item is left with k - min(n, k) units, no other item changes,
   * the old ledger is kept, and one record per accepted request is appended,
   * the m-th stamped with the m-th request's instant.
   */
  lemma SuccessiveOrders(inv: Inventory, itemName: string, times: seq<Timestamp>, i: nat)
    requires FirstMatch(inv.menu, itemName, i)
    requires inv.menu[i].stock >= 0
    ensures var run := PlaceOrders(inv, itemName, times);
      var k := inv.menu[i].stock;
      var served := if |times| < k then |times| else k;
      && run.accepted == served
      && |run.after.menu| == |inv.menu|
      && run.after.menu[i] == inv.menu[i].(stock := k - served)
      && (forall j :: 0 <= j < |inv.menu| && j != i ==> run.after.menu[j] == inv.menu[j])
      && |inv.orders| <= |run.after.orders| == |inv.orders| + served <= |inv.orders| + |times|
      && run.after.orders[..|inv.orders|] == inv.orders
      && (forall m :: |inv.orders| <= m < |run.after.orders| ==>
            run.after.orders[m] ==
              Order(inv.menu[i].name, inv.menu[i].price, KitchenPreparing, times[m - |inv.orders|]))
  {
    SuccessiveStock(inv, itemName, times, i);
    SuccessiveRecords(inv, itemName, times, i);
    assert Extends(inv.orders, PlaceOrders(inv, itemName, times).after.orders);
  }
}
