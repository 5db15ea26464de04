# Hotel room-service ordering core, in Dafny

The repository is a chat agent for hotel room service. A language model decides
when to call two tools, and the tools work on two document collections: the
menu (`item`, `price`, `tags`, `stock`) and the orders ledger. This project
models those two tools and the collections:

- **menu search** (`check_menu`). An empty query, or `menu` in any case, selects
  every menu document. Any other query selects the documents whose name, or one
  of whose tags, contains the query, ignoring case. Each selected document
  becomes one line `- name: status (Tags: t1, t2)`. The status is
  `Available ($price)` when stock is positive and `OUT OF STOCK` otherwise. The
  lines are joined by line breaks. If nothing is selected, the reply is the
  fixed text `No matching items found on the menu.`
- **order placement** (`place_order`). It looks up the first menu document whose
  whole name equals the request, ignoring case. An unknown name gets an
  `Error: '…' is not on the menu.` reply. A document with stock ≤ 0 gets a
  `Sorry, … is currently out of stock.` reply. Otherwise stock goes down by one,
  an order record is appended, and the reply starts with `SUCCESS:`. The record
  copies the menu's name and price and has status `kitchen_preparing`.

Layout:

- `text.dfy`, module `Text`: ASCII case folding, literal substring search with
  a positional reference definition, `Join`/`Split` on lines, and the decimal
  rendering of prices with its read-back.
- `catalog.dfy`, modules `Wrappers` (`Option`) and `Catalog`: the `MenuItem`
  and `Order` records, the seed menu, and the stock predicates.
- `menu_search.dfy`, module `MenuSearch`: the search as pure functions (filter,
  cursor, line rendering, reply), with its lemmas.
- `ordering.dfy`, module `Ordering`: order placement as a pure transition of
  the two collections, with its lemmas. It also covers a run of successive
  requests.
- `room_service.dfy`, module `RoomService`: class `Hotel`. It holds the two
  collections as `seq` fields. `CheckMenu` is a loop over the cursor that
  changes nothing. `PlaceOrder` updates the fields in place. Both are proved
  against the pure functions.
- `scenarios.dfy`, modules `SearchScenarios` and `OrderScenarios`: the seed
  menu's own examples, worked through the model.

Modelling choices:

- The source builds MongoDB `$regex` patterns from raw input. The model treats
  them as literal text. The search pattern is unanchored, so it is modelled as
  substring search. The order pattern `^name$` is modelled as whole-string
  equality. Both ignore case.
- Case is folded for ASCII letters only.
- Cursors return documents in insertion order. `find_one` returns the first
  match in that order.
- `datetime.now()` becomes the parameter `now` of an abstract type `Timestamp`.
- Stock is an `int`. `place_order` reads the stock of the document it found
  (line 83) and then lowers it with an unconditional `$inc` of −1 (line 87). The
  update itself carries no guard, and nothing in the code keeps stock from
  being negative. The model allows any integer stock and proves that stock
  which starts non-negative stays non-negative.
- Nothing in the code makes menu names unique. The model allows duplicate
  names; the order lookup takes the first match in insertion order.
- Every new order record gets the status `kitchen_preparing` (line 93).

## Model

| member | source | states |
|---|---|---|
| `Text.ContainsIsOccurrence` | upswing_hotel_agent.py:50-51 | The recursive search holds exactly when the query occurs at some index of the text (both directions). This is the literal reading of the unanchored `$regex`. |
| `Text.EqualImpliesContains` | upswing_hotel_agent.py:79 | A name equal to the request ignoring case also contains it ignoring case. |
| `Text.SplitJoin` | upswing_hotel_agent.py:74 | Splitting the line-joined reply at line breaks gives back exactly the lines, if no line has a break. |
| `Text.NatToDecimal` | upswing_hotel_agent.py:68 | The price's decimal text is non-empty, all digits, and has no leading zero, as Python writes an int. |
| `Text.DecimalRoundTrip` | upswing_hotel_agent.py:68 | Reading the rendered price back as a decimal number gives the price. |
| `MenuSearch.Matches` | upswing_hotel_agent.py:48-53 | The `$or` criteria: the name, or some tag, contains the query ignoring case. `MenuSearch.SelectedIffMatches` states its use in the search. |
| `MenuSearch.Filter` | upswing_hotel_agent.py:58-59 | `find(search_criteria)` keeps at most the menu's documents, each from the menu and each meeting the criteria. `MenuSearch.FilterKeepsMatches` states the converse. |
| `MenuSearch.Find` | upswing_hotel_agent.py:56-59 | The cursor holds only menu documents and is no longer than the menu. For a query other than empty or `menu`, each of them meets the criteria. `MenuSearch.EverythingSelected` covers the list-all case. |
| `MenuSearch.Status` | upswing_hotel_agent.py:68 | The availability text of one document. `MenuSearch.StatusShowsStock` states what it shows. |
| `MenuSearch.RenderLine` | upswing_hotel_agent.py:69 | A document's line starts with `- name: `. `MenuSearch.RenderLineShowsItem` states the rest of the line. |
| `MenuSearch.MenuReply` | upswing_hotel_agent.py:61-74 | The reply text of the search. `MenuSearch.NoMatchIffNothingSelected`, `MenuSearch.ReplyLines` and `MenuSearch.ReplyLineShowsItem` state what it contains. |
| `MenuSearch.FilterKeepsMatches` | upswing_hotel_agent.py:48-53 | A document is in the filtered result exactly when it is on the menu and its name or one of its tags contains the query ignoring case. |
| `MenuSearch.FilterAppend` | upswing_hotel_agent.py:59-62 | Filtering distributes over concatenation, so selected documents keep their menu order. |
| `MenuSearch.EverythingSelected` | upswing_hotel_agent.py:56-57 | An empty or `menu` query selects every item, position by position in menu order. |
| `MenuSearch.SelectedIffMatches` | upswing_hotel_agent.py:48-59 | For any other query, an item is selected exactly when it is on the menu and its name or a tag contains the query ignoring case. |
| `MenuSearch.ReplyLines` | upswing_hotel_agent.py:61-74 | A non-empty reply splits into exactly one rendered line per selected document, in cursor order. |
| `MenuSearch.WholeMenuShown` | upswing_hotel_agent.py:56-74 | An empty or `menu` query answers with exactly one line per menu item, and line k renders item k. |
| `MenuSearch.StatusShowsStock` | upswing_hotel_agent.py:68 | The status is `OUT OF STOCK` exactly when stock ≤ 0. Otherwise it is `Available ($…)`, and the digits read back to the price. |
| `MenuSearch.RenderLineShowsItem` | upswing_hotel_agent.py:63-69 | A line starts with `- name: `, contains the availability that matches the stock, and contains ` (Tags: …)` with the tags joined by `, `. |
| `MenuSearch.ReplyLineShowsItem` | upswing_hotel_agent.py:61-74 | Line k of the reply is about the k-th selected item. It names the item, shows availability matching its stock, and lists its tags. |
| `MenuSearch.NoMatchIffNothingSelected` | upswing_hotel_agent.py:71-72 | The reply is the fixed no-match text exactly when nothing is selected. For a list-all query that means an empty menu; otherwise no item matches. |
| `MenuSearch.OrderableIsSelected` | upswing_hotel_agent.py:50 | Any item an order request would find by its name is also selected when that request is searched. |
| `Ordering.PlaceOrder` | upswing_hotel_agent.py:76-97 | One request changes at most stock counts on the menu, keeps the old ledger as a prefix and appends at most one record. Its cases are stated by `Ordering.UnknownItemRefused`, `Ordering.SoldOutItemRefused` and `Ordering.AcceptedOrder`. |
| `Ordering.FindByName` | upswing_hotel_agent.py:79 | The lookup returns the first index whose name equals the request ignoring case. It returns nothing exactly when no name does. |
| `Ordering.UnknownItemRefused` | upswing_hotel_agent.py:79-82 | With no matching name, both collections are unchanged. The reply is the `is not on the menu` text with the request as typed, and does not start with `SUCCESS:`. |
| `Ordering.SoldOutItemRefused` | upswing_hotel_agent.py:83-84 | When the first match has stock ≤ 0, both collections are unchanged. The reply is the `out of stock` text with the menu's name, and does not start with `SUCCESS:`. |
| `Ordering.AcceptedOrder` | upswing_hotel_agent.py:86-97 | On success, only the matched item's stock drops, by exactly 1; no other item changes. The old ledger is kept, and exactly one record is appended with the menu's name and price, `kitchen_preparing` and `now`. The reply is `SUCCESS: Ordered <menu name>. It will arrive in 30 mins.` |
| `Ordering.SucceedsIffInStock` | upswing_hotel_agent.py:79-97 | The reply starts with `SUCCESS:` exactly when the first match has positive stock. That holds exactly when one order is appended. A refusal changes nothing. |
| `Ordering.StockStaysNonNegative` | upswing_hotel_agent.py:83-87 | Starting from non-negative stock, a request leaves every stock non-negative. |
| `Ordering.StockAccounting` | upswing_hotel_agent.py:87-96 | Total stock plus the number of orders is the same before and after a request. |
| `Ordering.PlaceOrders` | upswing_hotel_agent.py:76-97 | A run of requests accepts at most one per request. Only stock counts change on the menu. The old ledger is kept as a prefix, and exactly one record is appended per accepted request. |
| `Ordering.SuccessiveStock` | upswing_hotel_agent.py:83-87 | Of n successive requests for an item with k ≥ 0 units, exactly min(n, k) succeed. The item is left with k − min(n, k) units, other items do not change, and that many orders are appended. |
| `Ordering.SuccessiveRecords` | upswing_hotel_agent.py:90-96 | In such a run, the m-th appended record carries the item's menu name and price, `kitchen_preparing` and the m-th request's instant. |
| `Ordering.SuccessiveOrders` | upswing_hotel_agent.py:76-97 | Of n successive requests for an item with k ≥ 0 units, exactly min(n, k) succeed, and the item is left with k − min(n, k) units. Other items do not change. The old ledger is kept as a prefix. The m-th appended record is the item's name and price with `kitchen_preparing` and the m-th instant. |
| `RoomService.Hotel.constructor` | upswing_hotel_agent.py:27-28 | The store starts with the given menu and the orders already recorded. |
| `RoomService.Hotel.CheckMenu` | upswing_hotel_agent.py:43-74 | The loop over the cursor returns exactly `MenuReply` of the current menu. The method has no modifies clause, so it changes neither collection. |
| `RoomService.Hotel.PlaceOrder` | upswing_hotel_agent.py:76-97 | The new collections and the reply are exactly those of the `Ordering.PlaceOrder` transition from the old ones. The menu keeps its length and the old ledger is a prefix of the new one. |
| `SearchScenarios.SeedVeganSearch` | upswing_hotel_agent.py:32-37 | Searching `vegan` in the seed menu selects Vegan Buddha Bowl and Fruit Platter, in that order. |
| `OrderScenarios.SeedSaladRefused` | upswing_hotel_agent.py:35 | Ordering `Caesar Salad` from the seed menu is refused as out of stock and changes nothing. |
| `OrderScenarios.SeedPlatterAccepted` | upswing_hotel_agent.py:36 | Ordering `fruit platter` from the seed menu succeeds. Fruit Platter's stock becomes 19, other items are unchanged, and one order at price 10 is recorded. |

## Left out

- MongoDB client setup, dropping the menu collection and inserting the seed (lines 21-37): the constructor takes the initial collections as values, and `Catalog.Seed` holds the seed data.
- Regular-expression semantics of `$regex`: metacharacters in the query or item name, and injection through them, are not modelled. The source does not escape its input; the model reads both patterns literally. PCRE's `$` also matching before a final line break is not modelled either.
- Unicode case folding (Python's `str.lower`, MongoDB's `i` option beyond ASCII): only `A`–`Z` are folded.
- The `doc.get(…, default)` fallbacks for missing fields (lines 63-66): documents are typed records that always have every field.
- Prices are natural numbers. Fractional or negative prices, and how Python would render them, are not modelled.
- `datetime.now()` (line 94): the timestamp is the caller-supplied parameter `now`.
- The debug `print` calls (lines 31, 45): plain output.
- Document `_id`s: the menu document is found by its position, and orders get no identifier.
- Store failures (exceptions from the database driver): not modelled; every call completes.
- Concurrency: the read-then-decrement at lines 79-87 is not atomic against a shared store. The model treats each call as one sequential step, and `Ordering.SuccessiveOrders` covers sequential runs only.
- The LangChain tool wrappers, the prompt, the Gemini model and the ReAct agent (lines 100-162): foreign library calls and natural-language text.
- The chat loop, `input()` and the MongoDB chat history (lines 166-209): I/O and external services.
- MenuSearch.ReplyLines, MenuSearch.WholeMenuShown and MenuSearch.ReplyLineShowsItem: stated only for menus whose names and tags contain no line break, because otherwise the reply cannot be split back into its lines.
