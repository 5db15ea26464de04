/** The optional value a lookup returns. */
module Wrappers {
  datatype Option<+T> = None | Some(value: T)
}

/**
 * The two stored record kinds: a menu document and an order document,
 * with the seed menu the program loads at start-up.
 */
module Catalog {

  /** The instant an order is recorded; the caller supplies it (no clock is modelled). */
  type Timestamp(==)

  /** One document of the menu collection. */
  datatype MenuItem = MenuItem(name: string, price: nat, tags: seq<string>, stock: int)

  /** One document of the orders collection: a snapshot of the item's name and price. */
  datatype Order = Order(item: string, price: nat, status: string, timestamp: Timestamp)

  /** The status every new order is recorded with. */
  const KitchenPreparing: string := "kitchen_preparing"

  /** Every item of the menu has a non-negative stock count. */
  predicate StockNonNegative(menu: seq<MenuItem>)
  {
    forall i :: 0 <= i < |menu| ==> menu[i].stock >= 0
  }

  /** The stock summed over the whole menu. */
  function TotalStock(menu: seq<MenuItem>): int
  {
    if menu == [] then 0 else menu[0].stock + TotalStock(menu[1..])
  }

  /** Changing one item's stock changes the total by the same amount. */
  lemma {:induction false} TotalStockUpdate(menu: seq<MenuItem>, i: nat, item: MenuItem)
    requires i < |menu|
    ensures TotalStock(menu[i := item]) == TotalStock(menu) - menu[i].stock + item.stock
  {
    if i > 0 {
      TotalStockUpdate(menu[1..], i - 1, item);
      assert menu[i := item][1..] == menu[1..][i - 1 := item];
    } else {
      assert menu[i := item][1..] == menu[1..];
    }
  }

  /** The menu the program seeds into an emptied menu collection. */
  function Seed(): seq<MenuItem>
  {
    [ MenuItem("Club Sandwich", 15, ["contains_gluten", "meat"], 10),
      MenuItem("Vegan Buddha Bowl", 18, ["vegan", "gluten_free", "nuts"], 5),
      MenuItem("Caesar Salad", 12, ["vegetarian", "contains_dairy"], 0),
      MenuItem("Fruit Platter", 10, ["vegan", "gluten_free"], 20) ]
  }
}
