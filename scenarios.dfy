/** The seed menu's own search example, worked through the specification. */
module SearchScenarios {
  import opened Text
  import opened Catalog
  import opened MenuSearch

  /** A text holding a lower-case query letter in neither case does not contain the query, ignoring case. */
  lemma LacksLetterIgnoringCase(s: string, query: string, c: char)
    requires 'a' <= c <= 'z'
    requires Lower(query) == query && c in query
    requires c !in s && (c as int - 32) as char !in s
    ensures !ContainsIgnoringCase(s, query)
  {
    MissingCharNotContained(Lower(s), query, c);
  }

  lemma VeganIsLowerCase()
    ensures Lower("vegan") == "vegan"
  {
    LowerOfLowerCase("vegan");
  }

  /** A text without the letter v, in either case, does not contain "vegan", ignoring case. */
  lemma NoVNotVegan(s: string)
    requires 'v' !in s && 'V' !in s
    ensures !ContainsIgnoringCase(s, "vegan")
  {
    VeganIsLowerCase();
    LacksLetterIgnoringCase(s, "vegan", 'v');
  }

  lemma ClubSandwichNameNotVegan()
    ensures !ContainsIgnoringCase("Club Sandwich", "vegan")
  {
    NoVNotVegan("Club Sandwich");
  }

  lemma ContainsGlutenNotVegan()
    ensures !ContainsIgnoringCase("contains_gluten", "vegan")
  {
    NoVNotVegan("contains_gluten");
  }

  lemma MeatNotVegan()
    ensures !ContainsIgnoringCase("meat", "vegan")
  {
    NoVNotVegan("meat");
  }

  lemma ClubSandwichNotVegan()
    ensures !Matches(MenuItem("Club Sandwich", 15, ["contains_gluten", "meat"], 10), "vegan")
  {
    ClubSandwichNameNotVegan();
    ContainsGlutenNotVegan();
    MeatNotVegan();
  }

  lemma BuddhaBowlNameVegan()
    ensures ContainsIgnoringCase("Vegan Buddha Bowl", "vegan")
  {
    LowerOfLowerCase("vegan");
    assert Lower("Vegan Buddha Bowl")[..5] == "vegan";
  }

  /** "vegetarian" has every letter of "vegan" but does not contain the word. */
  lemma VegetarianIsNotVegan()
    ensures !ContainsIgnoringCase("vegetarian", "vegan")
  {
    var s, q := "vegetarian", "vegan";
    LowerOfLowerCase(s);
    LowerOfLowerCase(q);
    assert s[..5][3] != q[3];
    MissingCharNotContained(s[1..], q, 'v');
  }

  lemma CaesarSaladNameNotVegan()
    ensures !ContainsIgnoringCase("Caesar Salad", "vegan")
  {
    NoVNotVegan("Caesar Salad");
  }

  lemma ContainsDairyNotVegan()
    ensures !ContainsIgnoringCase("contains_dairy", "vegan")
  {
    NoVNotVegan("contains_dairy");
  }

  lemma CaesarSaladNotVegan()
    ensures !Matches(MenuItem("Caesar Salad", 12, ["vegetarian", "contains_dairy"], 0), "vegan")
  {
    CaesarSaladNameNotVegan();
    VegetarianIsNotVegan();
    ContainsDairyNotVegan();
  }

  lemma VeganTagIsVegan()
    ensures ContainsIgnoringCase("vegan", "vegan")
  {
    assert IsPrefix(Lower("vegan"), Lower("vegan"));
  }

  lemma VeganIsNotMenu()
    ensures !ListsEverything("vegan")
  {
    LowerOfLowerCase("vegan");
  }

  /** Filtering a four-item menu keeps the second and fourth items when only they match. */
  lemma FilterSecondAndFourth(a: MenuItem, b: MenuItem, c: MenuItem, d: MenuItem, q: string)
    requires !Matches(a, q) && Matches(b, q) && !Matches(c, q) && Matches(d, q)
    ensures Filter([a, b, c, d], q) == [b, d]
  {
    assert Filter([d], q) == [d] by {
      assert [d][1..] == [];
    }
    assert Filter([c, d], q) == [d] by {
      assert [c, d][1..] == [d];
    }
    assert Filter([b, c, d], q) == [b, d] by {
      assert [b, c, d][1..] == [c, d];
    }
    assert [a, b, c, d][1..] == [b, c, d];
  }

  /** Searching "vegan" in the seed menu selects Vegan Buddha Bowl and Fruit Platter, in that order. */
  lemma SeedVeganSearch()
    ensures Find(Seed(), "vegan") == [Seed()[1], Seed()[3]]
  {
    var m := Seed();
    VeganIsNotMenu();
    ClubSandwichNotVegan();
    BuddhaBowlNameVegan();
    CaesarSaladNotVegan();
    VeganTagIsVegan();
    assert "vegan" in m[3].tags;
    FilterSecondAndFourth(m[0], m[1], m[2], m[3], "vegan");
  }
}

/** The seed menu's own order examples, worked through the specification and the store. */
module OrderScenarios {
  import opened Wrappers
  import opened Text
  import opened Catalog
  import opened Ordering
  import opened RoomService

  /** Ordering "Caesar Salad" finds the third seeded item. */
  lemma SeedSaladLookup()
    ensures FindByName(Seed(), "Caesar Salad") == Some(2)
  {
    var m := Seed();
    assert |Lower(m[0].name)| != |Lower("Caesar Salad")|;
    assert |Lower(m[1].name)| != |Lower("Caesar Salad")|;
  }

  /** Ordering "fruit platter" finds the fourth seeded item, whatever the case. */
  lemma SeedPlatterLookup()
    ensures FindByName(Seed(), "fruit platter") == Some(3)
  {
    var m := Seed();
    assert Lower(m[0].name)[0] != Lower("fruit platter")[0];
    assert |Lower(m[1].name)| != |Lower("fruit platter")|;
    assert |Lower(m[2].name)| != |Lower("fruit platter")|;
    assert Lower(m[3].name) == Lower("fruit platter");
  }

  /** Ordering "Caesar Salad" from the seed menu is refused as sold out and changes nothing. */
  lemma SeedSaladRefused(now: Timestamp)
    ensures PlaceOrder(Inventory(Seed(), []), "Caesar Salad", now).after == Inventory(Seed(), [])
    ensures PlaceOrder(Inventory(Seed(), []), "Caesar Salad", now).reply ==
      "Sorry, " + "Caesar Salad" + " is currently out of stock."
  {
    SeedSaladLookup();
    SoldOutItemRefused(Inventory(Seed(), []), "Caesar Salad", now, 2);
  }

  /** Ordering "fruit platter" from the seed menu succeeds: Fruit Platter drops to 19 and one order at price 10 is recorded. */
  lemma SeedPlatterAccepted(now: Timestamp)
    ensures var out := PlaceOrder(Inventory(Seed(), []), "fruit platter", now);
      && out.after.menu[3].stock == 19
      && (forall j :: 0 <= j < 3 ==> out.after.menu[j] == Seed()[j])
      && out.after.orders == [Order("Fruit Platter", 10, "kitchen_preparing", now)]
      && Accepted(out.reply)
  {
    SeedPlatterLookup();
    AcceptedOrder(Inventory(Seed(), []), "fruit platter", now, 3);
  }

  /** The seeded store, driven through the two tools as the agent would. */
  method SeededSession(now: Timestamp)
  {
    var hotel := new Hotel(Seed(), []);
    var salad := hotel.PlaceOrder("Caesar Salad", now);
    SeedSaladRefused(now);
    assert salad == "Sorry, " + "Caesar Salad" + " is currently out of stock.";
    assert hotel.menu == Seed() && hotel.orders == [];
    var platter := hotel.PlaceOrder("fruit platter", now);
    SeedPlatterAccepted(now);
    assert hotel.menu[3].stock == 19;
    assert hotel.orders == [Order("Fruit Platter", 10, "kitchen_preparing", now)];
    assert Accepted(platter);
  }
}
