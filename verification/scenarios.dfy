/** Two worked examples of the filter and sort on a two-game catalog. */
module Scenarios {
  import opened Games
  import opened Text
  import opened FilterSort

  function Speedster(): Game
  {
    Game(1, "Speedster", "Racing", 10.0, "", "", "", "", 4.0, "All")
  }

  function Blocks(): Game
  {
    Game(2, "Blocks", "Puzzle", 5.0, "", "", "", "", 4.9, "All")
  }

  function BrowseAll(sortBy: string): Criteria
  {
    Criteria(AllCategories, 0, 50, "", sortBy)
  }

  lemma BrowseAllMatches(sortBy: string, g: Game)
    requires 0.0 <= g.price <= 50.0
    ensures Matches(BrowseAll(sortBy), g)
  {
    EmptyIncluded(Lower(g.title));
  }

  lemma BrowseAllKeepsBoth(sortBy: string)
    ensures FilterGames([Speedster(), Blocks()], BrowseAll(sortBy)) == [Speedster(), Blocks()]
  {
    BrowseAllMatches(sortBy, Speedster());
    BrowseAllMatches(sortBy, Blocks());
    FilterPair(BrowseAll(sortBy), Speedster(), Blocks());
  }

  /** Filtering a two-game catalog. */
  lemma FilterPair(c: Criteria, x: Game, y: Game)
    ensures FilterGames([x, y], c) ==
      (if Matches(c, x) then [x] else []) + (if Matches(c, y) then [y] else [])
  {
    assert [x, y][1..] == [y] && [y][1..] == [];
  }

  lemma CheaperFirst()
    ensures SortGames(PriceLow, [Speedster(), Blocks()]) == [Blocks(), Speedster()]
  {
    var s, b := Speedster(), Blocks();
    assert SortGames(PriceLow, [b]) == [b] by {
      assert [b][1..] == [];
    }
    assert Insert(PriceLow, s, [b]) == [b, s] by {
      assert [b][1..] == [];
      assert !InOrder(PriceLow, s, b);
    }
    assert [s, b][1..] == [b];
  }

  /** Every game, cheapest first: the puzzle game comes before the racer. */
  lemma CheapestFirst()
    ensures FilterAndSort([Speedster(), Blocks()], BrowseAll("price-low")) == [Blocks(), Speedster()]
  {
    BrowseAllKeepsBoth("price-low");
    CheaperFirst();
  }

  function SearchSpeed(): Criteria
  {
    Criteria(AllCategories, 0, 50, "speed", "rating")
  }

  lemma LowerSpeed()
    ensures Lower("speed") == "speed"
  {
  }

  lemma SpeedsterMatchesSpeed()
    ensures Matches(SearchSpeed(), Speedster())
  {
    LowerSpeed();
    var t := Lower("Speedster");
    assert t[..5] == "speed" by {
      assert t[0] == 's' && t[1] == 'p' && t[2] == 'e' && t[3] == 'e' && t[4] == 'd';
    }
  }

  lemma BlocksMissesSpeed()
    ensures !Matches(SearchSpeed(), Blocks())
  {
    LowerSpeed();
    IncludesIffOccurs(Lower("Blocks"), "speed");
    IncludesIffOccurs(Lower(""), "speed");
  }

  lemma SpeedMatchesOnlySpeedster()
    ensures FilterGames([Speedster(), Blocks()], SearchSpeed()) == [Speedster()]
  {
    var c := SearchSpeed();
    var s, b := Speedster(), Blocks();
    SpeedsterMatchesSpeed();
    BlocksMissesSpeed();
    FilterPair(c, s, b);
  }

  /** The search is case-insensitive: "speed" finds only "Speedster". */
  lemma SearchIgnoresCase()
    ensures FilterAndSort([Speedster(), Blocks()], SearchSpeed()) == [Speedster()]
  {
    SpeedMatchesOnlySpeedster();
    assert SortGames(ByRating, [Speedster()]) == [Speedster()] by {
      assert [Speedster()][1..] == [];
    }
  }
}
