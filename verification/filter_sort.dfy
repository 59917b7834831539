/** The user page's derived list: the catalog filtered by the current
    criteria, then ordered by the chosen sort key with a stable sort. */
module FilterSort {
  import opened Games
  import opened Text

  /** The category value that disables the category test. */
  const AllCategories: string := "All"

  /** The filter and sort selection held in the user page's state.
      The price bounds come from integer range sliders. */
  datatype Criteria = Criteria(
    category: string,
    minPrice: int,
    maxPrice: int,
    searchTerm: string,
    sortBy: string)

  predicate MatchesCategory(c: Criteria, g: Game)
  {
    c.category == AllCategories || g.category == c.category
  }

  /** The price lies in the inclusive range. */
  predicate MatchesPrice(c: Criteria, g: Game)
  {
    c.minPrice as real <= g.price && g.price <= c.maxPrice as real
  }

  /** The lower-cased search term occurs in the lower-cased title or description. */
  predicate MatchesSearch(c: Criteria, g: Game)
  {
    || Includes(Lower(g.title), Lower(c.searchTerm))
    || Includes(Lower(g.description), Lower(c.searchTerm))
  }

  /** The filter callback: a game is shown when all three tests pass. */
  predicate Matches(c: Criteria, g: Game)
  {
    MatchesCategory(c, g) && MatchesPrice(c, g) && MatchesSearch(c, g)
  }

  /** The catalog filter: keeps the matching games, in catalog order. */
  function FilterGames(games: seq<Game>, c: Criteria): (r: seq<Game>)
    ensures |r| <= |games|
    ensures forall i :: 0 <= i < |r| ==> Matches(c, r[i])
    ensures forall g :: multiset(r)[g] == if Matches(c, g) then multiset(games)[g] else 0
  {
    if games == [] then []
    else
      assert games == [games[0]] + games[1..];
      (if Matches(c, games[0]) then [games[0]] else []) + FilterGames(games[1..], c)
  }

  /** Filtering keeps the surviving games in catalog order. */
  lemma {:induction false} FilterKeepsCatalogOrder(games: seq<Game>, c: Criteria)
    ensures IsSubsequence(FilterGames(games, c), games)
  {
    if games != [] {
      FilterKeepsCatalogOrder(games[1..], c);
      var rest := FilterGames(games[1..], c);
      if Matches(c, games[0]) {
        var r := FilterGames(games, c);
        assert r == [games[0]] + rest;
        assert r[0] == games[0] && r[1..] == rest;
      } else {
        assert FilterGames(games, c) == rest;
      }
    }
  }

  /** An empty search term matches every game, so with the `All` category
      the filter keeps exactly the games whose price is in range. */
  lemma EmptySearchKeepsPriceRange(games: seq<Game>, c: Criteria)
    requires c.category == AllCategories && c.searchTerm == ""
    ensures forall g :: multiset(FilterGames(games, c))[g] ==
                        if MatchesPrice(c, g) then multiset(games)[g] else 0
  {
    forall g: Game
      ensures Matches(c, g) <==> MatchesPrice(c, g)
    {
      EmptyIncluded(Lower(g.title));
    }
  }

  /** The four keys the sort selector offers, and any other value. */
  datatype SortKey = PriceLow | PriceHigh | ByRating | ByName | Unsorted

  function ParseSortKey(sortBy: string): SortKey
  {
    if sortBy == "price-low" then PriceLow
    else if sortBy == "price-high" then PriceHigh
    else if sortBy == "rating" then ByRating
    else if sortBy == "name" then ByName
    else Unsorted
  }

  /** The comparator handed to `Array.prototype.sort`: negative when `a`
      belongs before `b`, positive when after, zero when tied. */
  function Comparator(key: SortKey, a: Game, b: Game): (r: real)
    ensures key == PriceLow ==> (r < 0.0 <==> a.price < b.price) && (r == 0.0 <==> a.price == b.price)
    ensures key == PriceHigh ==> (r < 0.0 <==> a.price > b.price) && (r == 0.0 <==> a.price == b.price)
    ensures key == ByRating ==> (r < 0.0 <==> a.rating > b.rating) && (r == 0.0 <==> a.rating == b.rating)
    ensures key == ByName ==> (r < 0.0 <==> CodePointCompare(a.title, b.title) < 0) &&
                              (r == 0.0 <==> CodePointCompare(a.title, b.title) == 0)
    ensures key == Unsorted ==> r == 0.0
  {
    match key
    case PriceLow => a.price - b.price
    case PriceHigh => b.price - a.price
    case ByRating => b.rating - a.rating
    case ByName => CodePointCompare(a.title, b.title) as real
    case Unsorted => 0.0
  }

  /** `a` may stay in front of `b`. */
  predicate InOrder(key: SortKey, a: Game, b: Game)
  {
    Comparator(key, a, b) <= 0.0
  }

  /** `a` and `b` are tied under the key. */
  predicate Tied(key: SortKey, a: Game, b: Game)
  {
    InOrder(key, a, b) && InOrder(key, b, a)
  }

  lemma InOrderTotal(key: SortKey, a: Game, b: Game)
    ensures InOrder(key, a, b) || InOrder(key, b, a)
  {
    if key == ByName {
      CompareAntisymmetric(a.title, b.title);
    }
  }

  lemma InOrderTransitive(key: SortKey, a: Game, b: Game, c: Game)
    requires InOrder(key, a, b) && InOrder(key, b, c)
    ensures InOrder(key, a, c)
  {
    if key == ByName {
      CompareTransitive(a.title, b.title, c.title);
    }
  }

  predicate SortedBy(key: SortKey, s: seq<Game>)
  {
    forall i, j :: 0 <= i < j < |s| ==> InOrder(key, s[i], s[j])
  }

  /** The entries of `s` tied with `g`, in the order `s` holds them. */
  function Ties(key: SortKey, g: Game, s: seq<Game>): seq<Game>
  {
    if s == [] then []
    else (if Tied(key, s[0], g) then [s[0]] else []) + Ties(key, g, s[1..])
  }

  /** Puts `x` in front of the first entry it may stay in front of. */
  function Insert(key: SortKey, x: Game, s: seq<Game>): seq<Game>
  {
    if s == [] || InOrder(key, x, s[0]) then [x] + s
    else [s[0]] + Insert(key, x, s[1..])
  }

  lemma {:induction false} InsertPermutes(key: SortKey, x: Game, s: seq<Game>)
    ensures multiset(Insert(key, x, s)) == multiset(s) + multiset{x}
  {
    if s != [] && !InOrder(key, x, s[0]) {
      InsertPermutes(key, x, s[1..]);
      assert s == [s[0]] + s[1..];
    }
  }

  lemma {:induction false} InsertKeepsSorted(key: SortKey, x: Game, s: seq<Game>)
    requires SortedBy(key, s)
    ensures SortedBy(key, Insert(key, x, s))
  {
    if s == [] {
    } else if InOrder(key, x, s[0]) {
      InsertAtHeadSorted(key, x, s);
    } else {
      var t := Insert(key, x, s[1..]);
      InsertKeepsSorted(key, x, s[1..]);
      InsertPermutes(key, x, s[1..]);
      InOrderTotal(key, x, s[0]);
      forall y | y in t
        ensures InOrder(key, s[0], y)
      {
        assert y in multiset(t);
      }
      ConsKeepsSorted(key, s[0], t);
    }
  }

  lemma InsertAtHeadSorted(key: SortKey, x: Game, s: seq<Game>)
    requires SortedBy(key, s) && s != [] && InOrder(key, x, s[0])
    ensures SortedBy(key, [x] + s)
  {
    forall z | z in s
      ensures InOrder(key, x, z)
    {
      var j :| 0 <= j < |s| && s[j] == z;
      if j > 0 {
        InOrderTransitive(key, x, s[0], s[j]);
      }
    }
    ConsKeepsSorted(key, x, s);
  }

  /** An entry that may stay in front of every entry of a sorted sequence
      can be put at its head. */
  lemma ConsKeepsSorted(key: SortKey, y: Game, t: seq<Game>)
    requires SortedBy(key, t)
    requires forall z :: z in t ==> InOrder(key, y, z)
    ensures SortedBy(key, [y] + t)
  {
    var r := [y] + t;
    forall i, j | 0 <= i < j < |r|
      ensures InOrder(key, r[i], r[j])
    {
      assert r[j] == t[j - 1];
      if i > 0 {
        assert r[i] == t[i - 1];
      }
    }
  }

  /** Inserting `x` puts it first among the entries tied with it and leaves
      every other group of ties in its order. */
  lemma {:induction false} InsertTies(key: SortKey, x: Game, s: seq<Game>, g: Game)
    ensures Ties(key, g, Insert(key, x, s)) ==
      (if Tied(key, x, g) then [x] else []) + Ties(key, g, s)
  {
    if s == [] || InOrder(key, x, s[0]) {
      assert ([x] + s)[1..] == s;
    } else {
      var t := Insert(key, x, s[1..]);
      InsertTies(key, x, s[1..], g);
      assert ([s[0]] + t)[1..] == t;
      if Tied(key, x, g) && Tied(key, s[0], g) {
        InOrderTransitive(key, x, g, s[0]);
        assert false;
      }
    }
  }

  /** The stable sort: an insertion sort that keeps tied entries in their
      incoming order, as `Array.prototype.sort` does. */
  function SortGames(key: SortKey, s: seq<Game>): (r: seq<Game>)
    ensures multiset(r) == multiset(s)
    ensures SortedBy(key, r)
    ensures forall g :: Ties(key, g, r) == Ties(key, g, s)
  {
    if s == [] then []
    else
      var t := SortGames(key, s[1..]);
      InsertPermutes(key, s[0], t);
      InsertKeepsSorted(key, s[0], t);
      assert s == [s[0]] + s[1..];
      forall g | true
        ensures Ties(key, g, Insert(key, s[0], t)) == Ties(key, g, s)
      {
        InsertTies(key, s[0], t, g);
      }
      Insert(key, s[0], t)
  }

  /** Without a recognised key every comparison is a tie, and the sort
      leaves its input as it was. */
  lemma {:induction false} UnsortedKeepsOrder(s: seq<Game>)
    ensures SortGames(Unsorted, s) == s
  {
    if s != [] {
      UnsortedKeepsOrder(s[1..]);
    }
  }

  /** The list the user page displays. */
  function FilterAndSort(games: seq<Game>, c: Criteria): (r: seq<Game>)
    ensures forall i :: 0 <= i < |r| ==> Matches(c, r[i])
    ensures forall g :: multiset(r)[g] == if Matches(c, g) then multiset(games)[g] else 0
    ensures c.sortBy == "price-low" ==>
      forall i, j :: 0 <= i < j < |r| ==> r[i].price <= r[j].price
    ensures c.sortBy == "price-high" ==>
      forall i, j :: 0 <= i < j < |r| ==> r[i].price >= r[j].price
    ensures c.sortBy == "rating" ==>
      forall i, j :: 0 <= i < j < |r| ==> r[i].rating >= r[j].rating
    ensures c.sortBy == "name" ==>
      forall i, j :: 0 <= i < j < |r| ==> CodePointCompare(r[i].title, r[j].title) <= 0
    ensures forall g :: Ties(ParseSortKey(c.sortBy), g, r) ==
                        Ties(ParseSortKey(c.sortBy), g, FilterGames(games, c))
    ensures ParseSortKey(c.sortBy) == Unsorted ==> r == FilterGames(games, c)
  {
    var filtered := FilterGames(games, c);
    var key := ParseSortKey(c.sortBy);
    if key == Unsorted then
      UnsortedKeepsOrder(filtered);
      filtered
    else
      SortGames(key, filtered)
  }
}
