/** The browsing page: its catalog copy, the filter criteria, the open
    game, the bookings made so far and the booking notice. */
module UserPage {
  import opened Games
  import opened Text
  import opened Distinct
  import opened FilterSort

  /** The criteria the page starts with and returns to on "clear filters". */
  const DefaultCriteria: Criteria := Criteria(AllCategories, 0, 50, "", "rating")

  datatype UserState = UserState(
    games: seq<Game>,
    criteria: Criteria,
    selectedGame: Option<Game>,
    bookings: seq<Booking>,
    showBookingSuccess: bool)

  /** The page over the seed catalog, as its state starts out: `All`,
      0 to 50, an empty search, `rating`, nothing open or booked. */
  function Initial(seed: seq<Game>): UserState
  {
    UserState(seed, DefaultCriteria, None, [], false)
  }

  /** The games shown in the grid. */
  function Displayed(st: UserState): seq<Game>
  {
    FilterAndSort(st.games, st.criteria)
  }

  /** The category selector's options: `All`, then every category of the
      catalog once, in order of first appearance. */
  function CategoryList(games: seq<Game>): (r: seq<string>)
    ensures |r| >= 1 && r[0] == AllCategories
    ensures NoDuplicates(r[1..])
    ensures forall x :: x in r[1..] <==> exists i :: 0 <= i < |games| && games[i].category == x
    ensures forall i, j :: 1 <= i < j < |r| ==>
      r[i] in Categories(games) && r[j] in Categories(games) &&
      FirstIndex(Categories(games), r[i]) < FirstIndex(Categories(games), r[j])
  {
    var cs := Categories(games);
    DedupFirstAppearanceOrder(cs);
    var r := [AllCategories] + Dedup(cs);
    assert r[1..] == Dedup(cs);
    r
  }

  /** Every booking made on this page is confirmed. */
  predicate AllConfirmed(bookings: seq<Booking>)
  {
    forall i :: 0 <= i < |bookings| ==> bookings[i].status == Confirmed
  }

  /** Books `game`: appends a confirmed booking stamped with the clock
      reading `now` and the time text `bookingTime`, closes the game
      dialog and raises the booking notice. */
  function BookGame(st: UserState, game: Game, now: int, bookingTime: string): (r: UserState)
    ensures |r.bookings| == |st.bookings| + 1
    ensures r.bookings[..|st.bookings|] == st.bookings
    ensures r.bookings[|st.bookings|].game == game
    ensures r.bookings[|st.bookings|].status == Confirmed
    ensures r.bookings[|st.bookings|].id == now
    ensures r.bookings[|st.bookings|].bookingTime == bookingTime
    ensures r.selectedGame == None && r.showBookingSuccess
    ensures r.games == st.games && r.criteria == st.criteria
  {
    var booking := Booking(now, game, bookingTime, Confirmed);
    st.(bookings := st.bookings + [booking], selectedGame := None, showBookingSuccess := true)
  }

  /** Booking keeps every booking confirmed and leaves the grid as it was. */
  lemma BookingPreservesInvariants(st: UserState, game: Game, now: int, bookingTime: string)
    requires AllConfirmed(st.bookings)
    ensures AllConfirmed(BookGame(st, game, now, bookingTime).bookings)
    ensures Displayed(BookGame(st, game, now, bookingTime)) == Displayed(st)
  {
  }

  /** Restores the default criteria and touches nothing else. */
  function ClearFilters(st: UserState): (r: UserState)
    ensures r.criteria.category == AllCategories
    ensures r.criteria.minPrice == 0 && r.criteria.maxPrice == 50
    ensures r.criteria.searchTerm == "" && r.criteria.sortBy == "rating"
    ensures r.games == st.games && r.bookings == st.bookings
    ensures r.selectedGame == st.selectedGame && r.showBookingSuccess == st.showBookingSuccess
  {
    st.(criteria := DefaultCriteria)
  }

  lemma ClearFiltersIdempotent(st: UserState)
    ensures ClearFilters(ClearFilters(st)) == ClearFilters(st)
  {
  }

  /** After clearing the filters the grid shows exactly the games priced
      from 0 to 50, best rated first. */
  lemma ClearedDisplay(st: UserState)
    ensures forall g :: multiset(Displayed(ClearFilters(st)))[g] ==
                        if 0.0 <= g.price <= 50.0 then multiset(st.games)[g] else 0
    ensures forall i, j :: 0 <= i < j < |Displayed(ClearFilters(st))| ==>
      Displayed(ClearFilters(st))[i].rating >= Displayed(ClearFilters(st))[j].rating
  {
    EmptySearchKeepsPriceRange(st.games, DefaultCriteria);
  }

  /** The page starts out already cleared, so once the filter has run over
      the seed catalog the grid shows exactly its games priced from 0 to 50,
      best rated first. */
  lemma InitialDisplay(seed: seq<Game>)
    ensures ClearFilters(Initial(seed)) == Initial(seed)
    ensures forall g :: multiset(Displayed(Initial(seed)))[g] ==
                        if 0.0 <= g.price <= 50.0 then multiset(seed)[g] else 0
    ensures forall i, j :: 0 <= i < j < |Displayed(Initial(seed))| ==>
      Displayed(Initial(seed))[i].rating >= Displayed(Initial(seed))[j].rating
  {
    ClearedDisplay(Initial(seed));
  }
}
