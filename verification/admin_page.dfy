/** The admin page: its own copy of the catalog, the add, edit and delete
    handlers it hands to the admin panel, and the stats it shows. */
module AdminPage {
  import opened Games
  import opened Distinct

  /** Appends the new game to the end of the catalog. */
  function AddGame(games: seq<Game>, newGame: Game): (r: seq<Game>)
    ensures |r| == |games| + 1
    ensures r[..|games|] == games && r[|games|] == newGame
  {
    games + [newGame]
  }

  /** A mapping over the catalog: every entry with the updated game's id becomes the
      updated game, in place. */
  function EditGame(games: seq<Game>, updated: Game): (r: seq<Game>)
    ensures |r| == |games|
    ensures forall i :: 0 <= i < |games| ==>
      r[i] == if games[i].id == updated.id then updated else games[i]
  {
    if games == [] then []
    else [if games[0].id == updated.id then updated else games[0]] + EditGame(games[1..], updated)
  }

  /** A filter over the catalog: drops every entry with the given id. */
  function DeleteGame(games: seq<Game>, id: int): (r: seq<Game>)
    ensures forall i :: 0 <= i < |r| ==> r[i].id != id
    ensures forall g :: multiset(r)[g] == if g.id == id then 0 else multiset(games)[g]
  {
    if games == [] then []
    else
      assert games == [games[0]] + games[1..];
      (if games[0].id == id then [] else [games[0]]) + DeleteGame(games[1..], id)
  }

  /** An edit that matches no entry leaves the catalog unchanged. */
  lemma EditWithoutMatch(games: seq<Game>, updated: Game)
    requires !HasId(games, updated.id)
    ensures EditGame(games, updated) == games
  {
  }

  /** An edit keeps every entry's id, so ids stay unique. */
  lemma EditKeepsIds(games: seq<Game>, updated: Game)
    ensures Ids(EditGame(games, updated)) == Ids(games)
    ensures UniqueIds(games) ==> UniqueIds(EditGame(games, updated))
  {
    var r := EditGame(games, updated);
    assert forall i :: 0 <= i < |r| ==> r[i].id == games[i].id;
  }

  /** Deletion keeps the other entries in their catalog order. */
  lemma {:induction false} DeleteKeepsOrder(games: seq<Game>, id: int)
    ensures IsSubsequence(DeleteGame(games, id), games)
  {
    if games != [] {
      DeleteKeepsOrder(games[1..], id);
      var rest := DeleteGame(games[1..], id);
      if games[0].id == id {
        assert DeleteGame(games, id) == rest;
      } else {
        var r := DeleteGame(games, id);
        assert r == [games[0]] + rest;
        assert r[0] == games[0] && r[1..] == rest;
      }
    }
  }

  /** Deleting an id no entry has changes nothing. */
  lemma {:induction false} DeleteAbsent(games: seq<Game>, id: int)
    requires !HasId(games, id)
    ensures DeleteGame(games, id) == games
  {
    if games != [] {
      var rest := games[1..];
      forall i | 0 <= i < |rest|
        ensures rest[i].id != id
      {
        assert rest[i] == games[i + 1];
      }
      assert games[0].id != id;
      calc {
        DeleteGame(games, id);
        [games[0]] + DeleteGame(rest, id);
        { DeleteAbsent(rest, id); }
        [games[0]] + rest;
        games;
      }
    }
  }

  /** Adding a game under a fresh id and then deleting that id restores
      the catalog. */
  lemma {:induction false} AddThenDelete(games: seq<Game>, newGame: Game)
    requires !HasId(games, newGame.id)
    ensures DeleteGame(AddGame(games, newGame), newGame.id) == games
  {
    var all := AddGame(games, newGame);
    if games == [] {
      assert all == [newGame] && all[1..] == [];
    } else {
      forall i | 0 <= i < |games[1..]|
        ensures games[1..][i].id != newGame.id
      {
        assert games[1..][i] == games[i + 1];
      }
      assert all[0] == games[0] && games[0].id != newGame.id;
      assert all[1..] == AddGame(games[1..], newGame);
      calc {
        DeleteGame(all, newGame.id);
        [games[0]] + DeleteGame(AddGame(games[1..], newGame), newGame.id);
        { AddThenDelete(games[1..], newGame); }
        [games[0]] + games[1..];
        games;
      }
    }
  }

  /** Adding under a fresh id and deleting both keep ids unique. */
  lemma CrudKeepsIdsUnique(games: seq<Game>, newGame: Game, id: int)
    requires UniqueIds(games)
    ensures !HasId(games, newGame.id) ==> UniqueIds(AddGame(games, newGame))
    ensures UniqueIds(DeleteGame(games, id))
  {
    DeleteKeepsUnique(games, id);
  }

  lemma {:induction false} DeleteKeepsUnique(games: seq<Game>, id: int)
    requires UniqueIds(games)
    ensures UniqueIds(DeleteGame(games, id))
  {
    if games != [] {
      var tail := games[1..];
      var rest := DeleteGame(tail, id);
      assert UniqueIds(tail);
      DeleteKeepsUnique(tail, id);
      if games[0].id != id {
        HeadIdNotKept(games, id);
        ConsKeepsUnique(games[0], rest);
        assert DeleteGame(games, id) == [games[0]] + rest;
      } else {
        assert DeleteGame(games, id) == rest;
      }
    }
  }

  /** With unique ids, nothing kept from the tail shares the head's id. */
  lemma HeadIdNotKept(games: seq<Game>, id: int)
    requires UniqueIds(games) && games != []
    ensures forall g :: g in DeleteGame(games[1..], id) ==> g.id != games[0].id
  {
    var tail := games[1..];
    forall g | g in DeleteGame(tail, id)
      ensures g.id != games[0].id
    {
      DeleteDrawsFromCatalog(tail, id, g);
      var k :| 0 <= k < |tail| && tail[k] == g;
      assert g == games[k + 1];
    }
  }

  lemma DeleteDrawsFromCatalog(games: seq<Game>, id: int, g: Game)
    requires g in DeleteGame(games, id)
    ensures g in games
  {
    assert multiset(DeleteGame(games, id))[g] > 0;
  }

  lemma ConsKeepsUnique(g: Game, rest: seq<Game>)
    requires UniqueIds(rest)
    requires forall x :: x in rest ==> x.id != g.id
    ensures UniqueIds([g] + rest)
  {
    var r := [g] + rest;
    forall i, j | 0 <= i < j < |r|
      ensures r[i].id != r[j].id
    {
      assert r[j] == rest[j - 1];
      if i > 0 {
        assert r[i] == rest[i - 1];
      }
    }
  }

  /** The price total, folded from the left starting at zero. */
  function SumPrices(games: seq<Game>): real
  {
    if games == [] then 0.0 else SumPrices(games[..|games| - 1]) + games[|games| - 1].price
  }

  /** The rating total, folded from the left starting at zero. */
  function SumRatings(games: seq<Game>): real
  {
    if games == [] then 0.0 else SumRatings(games[..|games| - 1]) + games[|games| - 1].rating
  }

  /** How many entries are in category `c`. */
  function CountCategory(games: seq<Game>, c: string): (n: nat)
    ensures n <= |games|
  {
    if games == [] then 0
    else
      CountCategory(games[..|games| - 1], c) + if games[|games| - 1].category == c then 1 else 0
  }

  /** The count of `c` is its multiplicity among the catalog's categories. */
  lemma {:induction false} CountIsMultiplicity(games: seq<Game>, c: string)
    ensures CountCategory(games, c) == multiset(Categories(games))[c]
  {
    if games != [] {
      var init := games[..|games| - 1];
      var last := games[|games| - 1];
      assert init + [last] == games;
      CategoriesSnoc(init, last);
      CountIsMultiplicity(init, c);
    }
  }

  /** A category has a positive count exactly when some entry is in it. */
  lemma {:induction false} CountPositiveIffListed(games: seq<Game>, c: string)
    ensures CountCategory(games, c) > 0 <==> c in Categories(games)
  {
    if games != [] {
      var p := games[..|games| - 1];
      var g := games[|games| - 1];
      assert games == p + [g];
      CategoriesSnoc(p, g);
      CountPositiveIffListed(p, c);
      assert c in Categories(p) + [g.category] <==> c in Categories(p) || c == g.category;
    }
  }

  /** The category reduce: each entry adds one to its category's count,
      starting it at one the first time the category is met. */
  function CategoryCounts(games: seq<Game>): (m: map<string, nat>)
    ensures forall c :: c in m <==> CountCategory(games, c) > 0
    ensures forall c :: c in m ==> m[c] == CountCategory(games, c)
  {
    if games == [] then map[]
    else
      var acc := CategoryCounts(games[..|games| - 1]);
      var c := games[|games| - 1].category;
      acc[c := (if c in acc then acc[c] else 0) + 1]
  }

  /** The stats panel. `avgRating` is `None` where the source divides by
      zero and gets NaN. */
  datatype Stats = Stats(
    totalGames: nat,
    totalRevenue: real,
    avgRating: Option<real>,
    categories: map<string, nat>)

  /** All ratings lie between 0 and 5. */
  predicate RatingsInRange(games: seq<Game>)
  {
    forall i :: 0 <= i < |games| ==> 0.0 <= games[i].rating <= 5.0
  }

  /** All prices are non-negative. */
  predicate PricesNonNegative(games: seq<Game>)
  {
    forall i :: 0 <= i < |games| ==> 0.0 <= games[i].price
  }

  lemma {:induction false} SumRatingsBounds(games: seq<Game>)
    ensures RatingsInRange(games) ==> 0.0 <= SumRatings(games) <= 5.0 * |games| as real
  {
    if games != [] {
      SumRatingsBounds(games[..|games| - 1]);
    }
  }

  lemma {:induction false} SumPricesNonNegative(games: seq<Game>)
    ensures PricesNonNegative(games) ==> 0.0 <= SumPrices(games)
  {
    if games != [] {
      SumPricesNonNegative(games[..|games| - 1]);
    }
  }

  /** The mean rating of a non-empty catalog. */
  function MeanRating(games: seq<Game>): (mean: real)
    requires games != []
    ensures mean * |games| as real == SumRatings(games)
    ensures RatingsInRange(games) ==> 0.0 <= mean <= 5.0
  {
    var n := |games| as real;
    var mean := SumRatings(games) / n;
    SumRatingsBounds(games);
    assert mean * n == SumRatings(games);
    mean
  }

  /** The category map's keys are exactly the catalog's categories. */
  lemma CategoryCountsKeys(games: seq<Game>)
    ensures forall c :: c in CategoryCounts(games) <==> c in Categories(games)
  {
    forall c | true
      ensures c in CategoryCounts(games) <==> c in Categories(games)
    {
      CountPositiveIffListed(games, c);
    }
  }

  function ComputeStats(games: seq<Game>): (s: Stats)
    ensures s.totalGames == |games|
    ensures games == [] ==> s.totalRevenue == 0.0
    ensures PricesNonNegative(games) ==> 0.0 <= s.totalRevenue
    ensures s.avgRating.None? <==> games == []
    ensures s.avgRating.Some? ==> s.avgRating.value * |games| as real == SumRatings(games)
    ensures s.avgRating.Some? && RatingsInRange(games) ==> 0.0 <= s.avgRating.value <= 5.0
    ensures forall c :: c in s.categories <==> c in Categories(games)
    ensures forall c :: c in s.categories ==> s.categories[c] == CountCategory(games, c)
  {
    var avg := if games == [] then None else Some(MeanRating(games));
    CategoryCountsKeys(games);
    SumPricesNonNegative(games);
    Stats(|games|, SumPrices(games), avg, CategoryCounts(games))
  }

  /** Adding a game raises the count by one, the revenue by its price and
      its category's count by one; no other category changes. */
  lemma AddUpdatesStats(games: seq<Game>, newGame: Game)
    ensures ComputeStats(AddGame(games, newGame)).totalGames == ComputeStats(games).totalGames + 1
    ensures ComputeStats(AddGame(games, newGame)).totalRevenue == ComputeStats(games).totalRevenue + newGame.price
    ensures ComputeStats(AddGame(games, newGame)).categories ==
      ComputeStats(games).categories[newGame.category := CountCategory(games, newGame.category) + 1]
  {
    var r := AddGame(games, newGame);
    assert r[..|r| - 1] == games;
    var acc := CategoryCounts(games);
    var c := newGame.category;
    assert r != [] && r[|r| - 1] == newGame;
    assert CategoryCounts(r) == acc[c := (if c in acc then acc[c] else 0) + 1];
    assert (if c in acc then acc[c] else 0) == CountCategory(games, c);
  }

  /** Replacing one entry moves the price sum by the difference in price. */
  lemma {:induction false} SumPricesReplace(games: seq<Game>, k: nat, g: Game)
    requires k < |games|
    ensures SumPrices(games[k := g]) == SumPrices(games) - games[k].price + g.price
  {
    var n := |games|;
    var updated := games[k := g];
    if k == n - 1 {
      assert updated[..n - 1] == games[..n - 1];
    } else {
      assert updated[..n - 1] == games[..n - 1][k := g];
      SumPricesReplace(games[..n - 1], k, g);
    }
  }

  /** With unique ids, editing the entry at `k` is a point update, and the
      revenue moves by the change in that entry's price. */
  lemma EditUniqueEntry(games: seq<Game>, updated: Game, k: nat)
    requires UniqueIds(games) && k < |games| && games[k].id == updated.id
    ensures EditGame(games, updated) == games[k := updated]
    ensures ComputeStats(EditGame(games, updated)).totalGames == |games|
    ensures ComputeStats(EditGame(games, updated)).totalRevenue ==
      ComputeStats(games).totalRevenue - games[k].price + updated.price
  {
    assert EditGame(games, updated) == games[k := updated];
    SumPricesReplace(games, k, updated);
  }

  /** The sum of the counts stored under `keys`. */
  function SumOver(m: map<string, nat>, keys: seq<string>): nat
    requires forall k :: k in keys ==> k in m
  {
    if keys == [] then 0 else SumOver(m, keys[..|keys| - 1]) + m[keys[|keys| - 1]]
  }

  /** The sum over `keys` of each key's category count. */
  function SumCounts(games: seq<Game>, keys: seq<string>): nat
  {
    if keys == [] then 0 else SumCounts(games, keys[..|keys| - 1]) + CountCategory(games, keys[|keys| - 1])
  }

  lemma {:induction false} SumOverCounts(games: seq<Game>, keys: seq<string>)
    requires forall k :: k in keys ==> k in CategoryCounts(games)
    ensures SumOver(CategoryCounts(games), keys) == SumCounts(games, keys)
  {
    if keys != [] {
      SumOverCounts(games, keys[..|keys| - 1]);
    }
  }

  /** One more entry adds one to the sum exactly when its category is
      among the (distinct) keys. */
  lemma {:induction false} SumCountsStep(games: seq<Game>, g: Game, keys: seq<string>)
    requires NoDuplicates(keys)
    ensures SumCounts(games + [g], keys) ==
      SumCounts(games, keys) + if g.category in keys then 1 else 0
  {
    if keys != [] {
      var front := keys[..|keys| - 1];
      var k := keys[|keys| - 1];
      assert forall x :: x in keys <==> x in front || x == k by {
        assert keys == front + [k];
      }
      SumCountsStep(games, g, front);
      assert (games + [g])[..|games|] == games;
    }
  }

  /** The category counts add up to the number of games. */
  lemma {:induction false} CategoryCountsSumToTotal(games: seq<Game>)
    ensures forall k :: k in Dedup(Categories(games)) <==> k in CategoryCounts(games)
    ensures SumOver(CategoryCounts(games), Dedup(Categories(games))) == |games|
  {
    var keys := Dedup(Categories(games));
    forall k | true
      ensures k in keys <==> k in CategoryCounts(games)
    {
      CountPositiveIffListed(games, k);
    }
    SumOverCounts(games, keys);
    SumCountsTotal(games);
  }

  lemma {:induction false} SumCountsTotal(games: seq<Game>)
    ensures SumCounts(games, Dedup(Categories(games))) == |games|
  {
    if games != [] {
      var p := games[..|games| - 1];
      var g := games[|games| - 1];
      var c := g.category;
      assert games == p + [g];
      var d := Dedup(Categories(p));
      CategoriesSnoc(p, g);
      DedupSnoc(Categories(p), c);
      SumCountsTotal(p);
      SumCountsStep(p, g, d);
      if c !in d {
        NewCategoryCount(p, g, d);
      }
    }
  }

  /** A category met for the first time adds a key counted once. */
  lemma NewCategoryCount(p: seq<Game>, g: Game, d: seq<string>)
    requires d == Dedup(Categories(p)) && g.category !in d
    ensures SumCounts(p + [g], d + [g.category]) == SumCounts(p + [g], d) + 1
  {
    var c := g.category;
    assert (d + [c])[..|d|] == d;
    CountPositiveIffListed(p, c);
    assert (p + [g])[..|p|] == p;
    assert CountCategory(p + [g], c) == CountCategory(p, c) + 1;
  }
}
