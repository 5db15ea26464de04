/**
 * The menu search: which documents the query selects, how each one is
 * rendered as a line, and the reply text built from those lines.
 */
module MenuSearch {
  import opened Text
  import opened Catalog

  /** The reply when no document is selected; it is an ordinary answer, not an error. */
  const NoMatchReply: string := "No matching items found on the menu."

  /** An empty query, or the word "menu" in any case, asks for the whole menu. */
  predicate ListsEverything(query: string)
  {
    query == [] || Lower(query) == "menu"
  }

  /** The search criteria: the name, or some tag, contains the query ignoring case. */
  predicate Matches(item: MenuItem, query: string)
  {
    ContainsIgnoringCase(item.name, query) || exists t :: t in item.tags && ContainsIgnoringCase(t, query)
  }

  /** The documents meeting the search criteria, in menu order. */
  function Filter(menu: seq<MenuItem>, query: string): (r: seq<MenuItem>)
    ensures |r| <= |menu|
    ensures forall k :: 0 <= k < |r| ==> r[k] in menu && Matches(r[k], query)
  {
    if menu == [] then []
    else (if Matches(menu[0], query) then [menu[0]] else []) + Filter(menu[1..], query)
  }

  /** The cursor the search iterates: the whole menu, or the filtered documents. */
  function Find(menu: seq<MenuItem>, query: string): (r: seq<MenuItem>)
    ensures |r| <= |menu|
    ensures forall k :: 0 <= k < |r| ==> r[k] in menu
    ensures !ListsEverything(query) ==> forall k :: 0 <= k < |r| ==> Matches(r[k], query)
  {
    if ListsEverything(query) then menu else Filter(menu, query)
  }

  /** The availability shown for an item. */
  function Status(item: MenuItem): string
  {
    if item.stock > 0 then "Available ($" + NatToDecimal(item.price) + ")" else "OUT OF STOCK"
  }

  /** The line shown for one item. */
  function RenderLine(item: MenuItem): (r: string)
    ensures IsPrefix("- " + item.name + ": ", r)
  {
    "- " + item.name + ": " + Status(item) + " (Tags: " + Join(item.tags, ", ") + ")"
  }

  function RenderLines(items: seq<MenuItem>): seq<string>
  {
    seq(|items|, k requires 0 <= k < |items| => RenderLine(items[k]))
  }

  /** The text the menu search answers with. */
  function MenuReply(menu: seq<MenuItem>, query: string): string
  {
    var lines := RenderLines(Find(menu, query));
    if lines == [] then NoMatchReply else Join(lines, "\n")
  }

  /** No name and no tag contains a line break (so the reply splits back into its lines). */
  predicate NoLineBreaks(menu: seq<MenuItem>)
  {
    forall i :: 0 <= i < |menu| ==>
      '\n' !in menu[i].name && forall t :: t in menu[i].tags ==> '\n' !in t
  }

  /** A document is kept exactly when it is on the menu and meets the criteria. */
  lemma {:induction false} FilterKeepsMatches(menu: seq<MenuItem>, query: string)
    ensures forall item :: item in Filter(menu, query) <==> item in menu && Matches(item, query)
  {
    if menu != [] {
      FilterKeepsMatches(menu[1..], query);
      assert menu == [menu[0]] + menu[1..];
    }
  }

  /** Filtering distributes over concatenation, so the kept documents stay in menu order. */
  lemma {:induction false} FilterAppend(a: seq<MenuItem>, b: seq<MenuItem>, query: string)
    ensures Filter(a + b, query) == Filter(a, query) + Filter(b, query)
  {
    if a != [] {
      FilterAppend(a[1..], b, query);
      assert (a + b)[0] == a[0] && (a + b)[1..] == a[1..] + b;
    } else {
      assert a + b == b;
    }
  }

  /** An empty or "menu" query selects the whole menu, every item in menu order. */
  lemma EverythingSelected(menu: seq<MenuItem>, query: string)
    requires ListsEverything(query)
    ensures |Find(menu, query)| == |menu|
    ensures forall k :: 0 <= k < |menu| ==> Find(menu, query)[k] == menu[k]
  {
  }

  /** For any other query an item is selected exactly when its name or one of its tags contains the query. */
  lemma SelectedIffMatches(menu: seq<MenuItem>, query: string, item: MenuItem)
    requires !ListsEverything(query)
    ensures item in Find(menu, query) <==>
      item in menu &&
      (ContainsIgnoringCase(item.name, query) || exists t :: t in item.tags && ContainsIgnoringCase(t, query))
  {
    FilterKeepsMatches(menu, query);
  }

  lemma RenderLineAvoidsBreak(item: MenuItem)
    requires '\n' !in item.name && forall t :: t in item.tags ==> '\n' !in t
    ensures '\n' !in RenderLine(item)
  {
    var status := Status(item);
    assert '\n' !in status by {
      if item.stock > 0 {
        DigitsAvoid(NatToDecimal(item.price), '\n');
      }
    }
    var tags := Join(item.tags, ", ");
    JoinAvoids(item.tags, ", ", '\n');
    assert RenderLine(item) == "- " + item.name + ": " + status + " (Tags: " + tags + ")";
  }

  /** The reply splits into one line per selected document, in cursor order. */
  lemma ReplyLines(menu: seq<MenuItem>, query: string)
    requires NoLineBreaks(menu)
    requires Find(menu, query) != []
    ensures Split(MenuReply(menu, query), '\n') == RenderLines(Find(menu, query))
  {
    var items := Find(menu, query);
    var lines := RenderLines(items);
    forall k | 0 <= k < |items|
      ensures '\n' !in lines[k]
    {
      if ListsEverything(query) {
        assert items[k] == menu[k];
      } else {
        FilterKeepsMatches(menu, query);
        assert items[k] in menu;
      }
      RenderLineAvoidsBreak(items[k]);
    }
    SplitJoin(lines, '\n');
  }

  /** An empty or "menu" query answers with exactly one line per menu item, in menu order. */
  lemma WholeMenuShown(menu: seq<MenuItem>, query: string)
    requires ListsEverything(query)
    requires NoLineBreaks(menu)
    requires menu != []
    ensures |Split(MenuReply(menu, query), '\n')| == |menu|
    ensures forall k :: 0 <= k < |menu| ==> Split(MenuReply(menu, query), '\n')[k] == RenderLine(menu[k])
  {
    ReplyLines(menu, query);
  }

  /** The availability reads "OUT OF STOCK" exactly when stock is not positive, and otherwise shows the price. */
  lemma StatusShowsStock(item: MenuItem)
    ensures Status(item) == "OUT OF STOCK" <==> item.stock <= 0
    ensures item.stock > 0 ==>
      var s := Status(item);
      |s| > 13 && s[..12] == "Available ($" && s[|s| - 1] == ')' &&
      (forall i :: 12 <= i < |s| - 1 ==> IsDigit(s[i])) &&
      DecimalValue(s[12..|s| - 1]) == item.price
  {
    var d := NatToDecimal(item.price);
    if item.stock > 0 {
      var s := Status(item);
      assert s == "Available ($" + d + ")";
      assert s[12..|s| - 1] == d;
      DecimalRoundTrip(item.price);
      assert s[0] != "OUT OF STOCK"[0];
    }
  }

  /** A line names the item, shows its availability, then its tags joined by ", ". */
  lemma RenderLineShowsItem(item: MenuItem)
    ensures var line := RenderLine(item);
      IsPrefix("- " + item.name + ": ", line) &&
      (item.stock > 0 ==> Contains(line, "Available ($" + NatToDecimal(item.price) + ")")) &&
      (item.stock <= 0 ==> Contains(line, "OUT OF STOCK")) &&
      Contains(line, " (Tags: " + Join(item.tags, ", ") + ")")
  {
    var head := "- " + item.name + ": ";
    var status := Status(item);
    var tail := " (Tags: " + Join(item.tags, ", ") + ")";
    var line := RenderLine(item);
    assert line == head + status + tail;
    assert line[..|head|] == head;
    ContainsMiddle(head, status, tail);
    ContainsMiddle(head + status, tail, []);
    assert head + status + tail + [] == line;
  }

  /** Line k of the reply names the k-th selected item, shows its availability, then its tags joined by ", ". */
  lemma ReplyLineShowsItem(menu: seq<MenuItem>, query: string, k: nat)
    requires NoLineBreaks(menu)
    requires k < |Find(menu, query)|
    ensures |Split(MenuReply(menu, query), '\n')| == |Find(menu, query)|
    ensures
      var line := Split(MenuReply(menu, query), '\n')[k];
      var item := Find(menu, query)[k];
      IsPrefix("- " + item.name + ": ", line) &&
      (item.stock > 0 ==> Contains(line, "Available ($" + NatToDecimal(item.price) + ")")) &&
      (item.stock <= 0 ==> Contains(line, "OUT OF STOCK")) &&
      Contains(line, " (Tags: " + Join(item.tags, ", ") + ")")
  {
    ReplyLines(menu, query);
    var item := Find(menu, query)[k];
    assert Split(MenuReply(menu, query), '\n')[k] == RenderLine(item);
    RenderLineShowsItem(item);
  }

  /** The fixed no-match text is the reply exactly when nothing is selected. */
  lemma NoMatchIffNothingSelected(menu: seq<MenuItem>, query: string)
    ensures MenuReply(menu, query) == NoMatchReply <==>
      if ListsEverything(query) then menu == []
      else forall i :: 0 <= i < |menu| ==> !Matches(menu[i], query)
  {
    var items := Find(menu, query);
    var lines := RenderLines(items);
    if lines != [] {
      JoinHead(lines, "\n");
      assert Join(lines, "\n")[0] == '-';
    }
    if !ListsEverything(query) {
      FilterKeepsMatches(menu, query);
      if items != [] {
        assert items[0] in menu;
      }
    }
  }

  /** Every item an order would accept by its name is also selected by searching that name. */
  lemma OrderableIsSelected(menu: seq<MenuItem>, i: nat, name: string)
    requires i < |menu|
    requires EqualsIgnoringCase(menu[i].name, name)
    ensures menu[i] in Find(menu, name)
  {
    EqualImpliesContains(menu[i].name, name);
    FilterKeepsMatches(menu, name);
  }
}
