/**
 * The two tools the agent calls, over the menu and orders collections held
 * in memory: the menu search (read-only) and the order placement (which
 * takes one unit of stock and appends to the orders ledger).
 */
module RoomService {
  import opened Text
  import opened Catalog
  import opened MenuSearch
  import opened Ordering

  class Hotel {
    /** The menu collection, in insertion order. */
    var menu: seq<MenuItem>
    /** The orders collection, in insertion order. */
    var orders: seq<Order>

    /** The two collections as one value. */
    function State(): Inventory
      reads this
    {
      Inventory(menu, orders)
    }

    /** Opens the store with the given menu and whatever orders are already recorded. */
    constructor (initialMenu: seq<MenuItem>, recorded: seq<Order>)
      ensures menu == initialMenu && orders == recorded
    {
      menu := initialMenu;
      orders := recorded;
    }

    /** The menu search tool; it changes nothing (no modifies clause). */
    method CheckMenu(query: string) returns (reply: string)
      ensures reply == MenuReply(menu, query)
    {
      var cursor := Find(menu, query);
      var response: seq<string> := [];
      var i := 0;
      while i < |cursor|
        invariant 0 <= i <= |cursor|
        invariant response == RenderLines(cursor[..i])
      {
        response := response + [RenderLine(cursor[i])];
        i := i + 1;
      }
      assert cursor[..i] == cursor;
      if response == [] {
        reply := NoMatchReply;
      } else {
        reply := Join(response, "\n");
      }
    }

    /** The order placement tool, with `now` standing for the clock reading that stamps the order. */
    method PlaceOrder(itemName: string, now: Timestamp) returns (reply: string)
      modifies this
      ensures State() == Ordering.PlaceOrder(old(State()), itemName, now).after
      ensures reply == Ordering.PlaceOrder(old(State()), itemName, now).reply
      ensures |menu| == |old(menu)| && orders[..|old(orders)|] == old(orders)
      ensures |orders| <= |old(orders)| + 1
    {
      var found := FindByName(menu, itemName);
      if found.None? {
        reply := NotOnMenuReply(itemName);
        return;
      }
      var item := menu[found.value];
      if item.stock <= 0 {
        reply := OutOfStockReply(item.name);
        return;
      }
      menu := menu[found.value := item.(stock := item.stock - 1)];
      orders := orders + [Order(item.name, item.price, KitchenPreparing, now)];
      reply := SuccessReply(item.name);
    }
  }
}
