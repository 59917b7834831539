/** The records the catalog pages work on: a game entry, a booking of one,
    and the optional values the components keep in React state. */
module Games {

  /** A value that may be absent (JavaScript `null`, or a result that is NaN). */
  datatype Option<+T> = None | Some(value: T)

  /** One catalog entry. Prices and ratings are decimal numbers in the
      source; they are exact reals here. */
  datatype Game = Game(
    id: int,
    title: string,
    category: string,
    price: real,
    duration: string,
    players: string,
    description: string,
    image: string,
    rating: real,
    ageLimit: string)

  /** The only status a booking ever gets. */
  const Confirmed: string := "confirmed"

  /** A booking holds the game it was made for. The source keeps a reference
      to the game object; no code mutates a game in place, so the value
      stands for it. */
  datatype Booking = Booking(id: int, game: Game, bookingTime: string, status: string)

  /** The ids of a catalog, in catalog order. */
  function Ids(games: seq<Game>): (ids: seq<int>)
    ensures |ids| == |games|
    ensures forall i :: 0 <= i < |games| ==> ids[i] == games[i].id
  {
    if games == [] then [] else [games[0].id] + Ids(games[1..])
  }

  /** The category of each entry, in catalog order. */
  function Categories(games: seq<Game>): (cs: seq<string>)
    ensures |cs| == |games|
    ensures forall i :: 0 <= i < |games| ==> cs[i] == games[i].category
  {
    if games == [] then [] else [games[0].category] + Categories(games[1..])
  }

  lemma CategoriesSnoc(games: seq<Game>, g: Game)
    ensures Categories(games + [g]) == Categories(games) + [g.category]
  {
  }

  /** No two catalog entries share an id. */
  predicate UniqueIds(games: seq<Game>)
  {
    forall i, j :: 0 <= i < j < |games| ==> games[i].id != games[j].id
  }

  /** Some catalog entry has the given id. */
  predicate HasId(games: seq<Game>, id: int)
  {
    exists i :: 0 <= i < |games| && games[i].id == id
  }

  /** `a` is `b` with some entries removed and the rest in the same order. */
  predicate IsSubsequence(a: seq<Game>, b: seq<Game>)
    decreases |b|
  {
    || a == []
    || (b != [] && IsSubsequence(a, b[1..]))
    || (b != [] && a[0] == b[0] && IsSubsequence(a[1..], b[1..]))
  }
}
