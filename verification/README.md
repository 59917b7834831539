# GamingHub catalog logic in Dafny

GamingHub is a client-side catalog of games for a gaming venue. Users browse
the catalog on a user page: they filter it by category, price range and a
search term, sort it, and book a game. Operators edit their own copy of the
same catalog on an admin page through a form in an admin panel. Nothing is
persisted. This project models the list logic behind those pages as pure
functions over immutable values and proves what that logic guarantees.

Modules, one per concern:

- `Games` (`games.dfy`): the game and booking records, `Option`, the
  catalog's category column, id uniqueness and the subsequence relation.
- `Text` (`text.dfy`): lower-casing, `includes` and the title comparison.
- `Distinct` (`distinct.dfy`): a sequence spread from a `Set`, the distinct values in
  order of first appearance.
- `FilterSort` (`filter_sort.dfy`): the filter predicate, `Array.filter`,
  the sort comparator and a stable insertion sort standing for
  `Array.prototype.sort`.
- `UserPage` (`user_page.dfy`): the user page's state, the category options,
  booking and clear-filters.
- `AdminPage` (`admin_page.dfy`): add, edit and delete on the admin page's
  catalog, and the stats panel.
- `AdminPanel` (`admin_panel.dfy`): the form, `handleSubmit` and `resetForm`,
  and the hand-off of a submission to the admin page's handlers.
- `Scenarios` (`scenarios.dfy`): two worked examples on a two-game catalog.

The user page and the admin page each start from their own copy of the seed
catalog. They are two separate values here: `UserState.games` and the
`games` argument of the `AdminPage` functions. Prices and ratings are exact
`real`s. The price-range bounds are `int`s because the sliders set them with
`parseInt`. An `Option` stands for `null` and for the NaN that the source
gets when it divides by zero.

The sort is a stable insertion sort driven by the source's comparator.
For `price-low`, `price-high` and `rating`, `Comparator` returns the same
signed number as the callback at `UserPage.jsx:52-65`. For `name` it returns
the sign of a code-point comparison standing in for `localeCompare`, which
orders some titles differently (see "## Left out"). An entry may stay in
front of another when the number is at most zero. Stability is stated through `Ties(key, g, s)`: the
entries of `s` tied with `g` under the key, in the order `s` holds them.
The sort leaves every such group unchanged. Sortedness, being a permutation
and stability together pin the stable sort's output down completely.

Because every operation returns a new value, filtering and sorting never
reorder the page's own `games`. The source stores a reference to the game
object in a booking. No code mutates a game object in place, so a booking
holding the game value behaves the same.

## Model

| member | source | states |
|---|---|---|
| `FilterSort.FilterGames` | gaming_frontend/src/pages/UserPage.jsx:42-49 | Every kept game passes the category, inclusive price and case-insensitive search tests. Each game occurs in the result exactly as often as in the catalog if it passes, and not at all otherwise. |
| `FilterSort.FilterKeepsCatalogOrder` | gaming_frontend/src/pages/UserPage.jsx:42-49 | The filtered list is a subsequence of the catalog: survivors keep their catalog order. |
| `FilterSort.EmptySearchKeepsPriceRange` | gaming_frontend/src/pages/UserPage.jsx:43-46 | An empty search term matches every game, so `All` with an empty term keeps exactly the games whose price is in range, with their multiplicities. |
| `FilterSort.Comparator` | gaming_frontend/src/pages/UserPage.jsx:52-65 | `price-low` puts the cheaper game first, `price-high` the dearer, `rating` the better rated, and `name` the title that compares lower; equal keys tie. An unknown key ties every pair. |
| `FilterSort.InOrderTotal` | gaming_frontend/src/pages/UserPage.jsx:52-65 | For every key, either of two games may stay in front of the other, so the comparator is total. |
| `FilterSort.InOrderTransitive` | gaming_frontend/src/pages/UserPage.jsx:52-65 | For every key, "may stay in front of" is transitive, so the comparator is consistent. |
| `FilterSort.InsertPermutes` | gaming_frontend/src/pages/UserPage.jsx:52 | Inserting an entry adds exactly that entry. |
| `FilterSort.InsertKeepsSorted` | gaming_frontend/src/pages/UserPage.jsx:52 | Inserting into a sorted list keeps it sorted. |
| `FilterSort.InsertTies` | gaming_frontend/src/pages/UserPage.jsx:52 | The inserted entry goes in front of the entries tied with it. Every other group of ties keeps its order. |
| `FilterSort.SortGames` | gaming_frontend/src/pages/UserPage.jsx:52-65 | The sort returns a permutation of its input. It is sorted under the comparator, and tied entries keep their incoming order, as in a stable sort. |
| `FilterSort.UnsortedKeepsOrder` | gaming_frontend/src/pages/UserPage.jsx:62-63 | With an unrecognised key every comparison is zero, and the sort returns its input unchanged. |
| `FilterSort.FilterAndSort` | gaming_frontend/src/pages/UserPage.jsx:41-68 | The displayed list holds exactly the matching games with their catalog multiplicities. `price-low` gives non-decreasing prices, `price-high` non-increasing prices, `rating` non-increasing ratings and `name` titles in comparator order. Ties keep their filtered order. An unknown key leaves the filtered order. |
| `Text.IncludesIffOccurs` | gaming_frontend/src/pages/UserPage.jsx:45-46 | The `includes` scan succeeds exactly when the term occurs at some index of the text. |
| `Text.EmptyIncluded` | gaming_frontend/src/pages/UserPage.jsx:45-46 | The empty term is included in every text. |
| `Text.Lower` | gaming_frontend/src/pages/UserPage.jsx:45-46 | Lower-casing keeps the length and folds each character independently. |
| `Text.CompareAntisymmetric` | gaming_frontend/src/pages/UserPage.jsx:61 | Swapping two titles negates their comparison. |
| `Text.CompareTransitive` | gaming_frontend/src/pages/UserPage.jsx:61 | The title order is transitive. |
| `Distinct.Dedup` | gaming_frontend/src/pages/UserPage.jsx:38 | The set's values have no duplicates and are exactly the values of the input. |
| `Distinct.DedupFirstAppearanceOrder` | gaming_frontend/src/pages/UserPage.jsx:38 | The set's values come out in order of first appearance. |
| `UserPage.CategoryList` | gaming_frontend/src/pages/UserPage.jsx:38 | The options start with `All`. Then each category of the catalog appears exactly once, in order of first appearance, and nothing else appears. |
| `UserPage.BookGame` | gaming_frontend/src/pages/UserPage.jsx:70-79 | Booking appends one `confirmed` booking of the given game, with the given id and time, at the end. Earlier bookings are unchanged, the dialog closes and the notice is raised. Catalog and criteria are untouched. |
| `UserPage.BookingPreservesInvariants` | gaming_frontend/src/pages/UserPage.jsx:70-79 | Booking keeps every booking confirmed and leaves the displayed list unchanged. |
| `UserPage.ClearFilters` | gaming_frontend/src/pages/UserPage.jsx:83-88 | Clearing sets the criteria to `All`, 0 to 50, empty search and `rating`. Catalog, bookings, open game and notice are unchanged. |
| `UserPage.ClearFiltersIdempotent` | gaming_frontend/src/pages/UserPage.jsx:83-88 | Clearing twice gives the same state as clearing once. |
| `UserPage.ClearedDisplay` | gaming_frontend/src/pages/UserPage.jsx:83-88 | After clearing, the grid shows exactly the games priced from 0 to 50, with non-increasing ratings. |
| `UserPage.InitialDisplay` | gaming_frontend/src/pages/UserPage.jsx:9-17 | The starting criteria are the cleared ones, so the first filtered grid shows exactly the seed games priced from 0 to 50, with non-increasing ratings. |
| `AdminPage.AddGame` | gaming_frontend/src/pages/AdminPage.jsx:49-51 | Add appends the new game at the end. The length grows by one and the old entries are a prefix. |
| `AdminPage.EditGame` | gaming_frontend/src/pages/AdminPage.jsx:53-57 | Edit keeps length and positions. Every entry with the updated id becomes the updated game, and every other entry is unchanged. |
| `AdminPage.EditWithoutMatch` | gaming_frontend/src/pages/AdminPage.jsx:53-57 | An edit whose id matches no entry leaves the catalog unchanged. |
| `AdminPage.EditKeepsIds` | gaming_frontend/src/pages/AdminPage.jsx:53-57 | An edit keeps the id column, and with it id uniqueness. |
| `AdminPage.EditUniqueEntry` | gaming_frontend/src/pages/AdminPage.jsx:21-57 | With unique ids, editing the entry at `k` replaces only that entry. The count stays the same and the revenue moves by the change in its price. |
| `AdminPage.DeleteGame` | gaming_frontend/src/pages/AdminPage.jsx:59-61 | Delete removes every entry with the id and keeps every other entry with its multiplicity. |
| `AdminPage.DeleteKeepsOrder` | gaming_frontend/src/pages/AdminPage.jsx:59-61 | The entries left after a delete keep their catalog order. |
| `AdminPage.DeleteAbsent` | gaming_frontend/src/pages/AdminPage.jsx:59-61 | Deleting an id no entry has leaves the catalog unchanged. |
| `AdminPage.AddThenDelete` | gaming_frontend/src/pages/AdminPage.jsx:49-61 | Adding a game under an id not in the catalog and then deleting that id restores the catalog. |
| `AdminPage.CrudKeepsIdsUnique` | gaming_frontend/src/pages/AdminPage.jsx:49-61 | Adding under a fresh id and deleting both keep ids unique. |
| `AdminPage.CountIsMultiplicity` | gaming_frontend/src/pages/AdminPage.jsx:26-29 | A category's count is the number of times it occurs among the catalog's categories. |
| `AdminPage.CountPositiveIffListed` | gaming_frontend/src/pages/AdminPage.jsx:26-29 | A category's count is positive exactly when some game is in that category. |
| `AdminPage.CategoryCounts` | gaming_frontend/src/pages/AdminPage.jsx:26-29 | The reduce's keys are the categories with a positive count, and each key maps to the number of games in that category. |
| `AdminPage.MeanRating` | gaming_frontend/src/pages/AdminPage.jsx:25 | The mean of a non-empty catalog times its length is the rating sum. With ratings in [0, 5] the mean is in [0, 5]. |
| `AdminPage.ComputeStats` | gaming_frontend/src/pages/AdminPage.jsx:21-32 | `totalGames` is the catalog length. Revenue is 0 for the empty catalog and non-negative when prices are. `avgRating` is absent exactly for the empty catalog, and otherwise is the rating sum over the length, within [0, 5] when ratings are. The category map's keys are exactly the categories, each mapped to its game count. |
| `AdminPage.AddUpdatesStats` | gaming_frontend/src/pages/AdminPage.jsx:21-32 | After an add, the count is one higher and the revenue is higher by the new price. The new game's category count rises by one and no other category changes. |
| `AdminPage.CategoryCountsSumToTotal` | gaming_frontend/src/pages/AdminPage.jsx:26-29 | The map's keys are exactly the distinct categories, and its values sum to `totalGames`. |
| `AdminPage.SumPricesReplace` | gaming_frontend/src/pages/AdminPage.jsx:24 | Replacing one entry moves the price sum by the difference in price. |
| `AdminPanel.Submit` | gaming_frontend/src/components/AdminPanel.jsx:34-50 | With a truthy `editingId`, submit takes the edit path with that id. With `null` or `0`, it takes the add path with the clock reading as id. The record carries every form field unchanged, except that price and rating are parsed. The panel is then reset. |
| `AdminPanel.ResetForm` | gaming_frontend/src/components/AdminPanel.jsx:52-58 | After a reset every field is empty except rating `4.5` and age limit `All`, and nothing is being edited. |
| `AdminPanel.ResetFormIdempotent` | gaming_frontend/src/components/AdminPanel.jsx:52-58 | Resetting an already reset panel changes nothing. |
| `AdminPanel.Apply` | gaming_frontend/src/pages/AdminPage.jsx:188-191 | An add submission appends its game. An edit submission replaces every entry carrying the submitted id with the submitted game and leaves the others unchanged, so length and id column stay the same. |
| `AdminPanel.SubmitAddThenDelete` | gaming_frontend/src/components/AdminPanel.jsx:38-47 | Submitting a new entry under a fresh clock reading and then deleting that id restores the catalog. |
| `AdminPanel.SubmitKeepsIdsUnique` | gaming_frontend/src/components/AdminPanel.jsx:38-47 | Every submission keeps catalog ids unique. An add needs a clock reading that is not already an id; an edit needs nothing. |
| `Scenarios.CheapestFirst` | gaming_frontend/src/pages/UserPage.jsx:52-55 | A 5.00 game sorts before a 10.00 game under `price-low`. |
| `Scenarios.SearchIgnoresCase` | gaming_frontend/src/pages/UserPage.jsx:45-46 | The term `speed` finds `Speedster` and not `Blocks`. |

## Left out

- Rendering, GSAP animations and the reduced-motion checks are presentation only.
- The router shell and the card, modal, banner and navigation components are presentation only.
- The 3-second timer that hides the booking notice is timer behaviour. Only the raising of the flag is modelled.
- `Date.now()` and `new Date().toISOString()` read the clock. They are parameters (`now`, `bookingTime`).
- `Text.Lower`: `toLowerCase` folds only ASCII `A`-`Z`. Full Unicode case mapping is a library table.
- `Text.CodePointCompare`: `localeCompare` is modelled as lexicographic order on Unicode code points. Locale collation is a library table. Already on plain ASCII titles the two orders differ: collation compares letters before case, so `"apple"` sorts before `"Banana"` and `"a"` before `"A"`, while code-point order puts every upper-case letter first and sorts `Banana` before `apple`. Digits and punctuation are ordered differently too. In the source, distinct titles can also compare as 0, for example canonically equivalent spellings or titles differing only by an ignorable character such as a soft hyphen. The stand-in ties only equal titles. The proofs use only that the order is total and transitive, which both share.
- Strings are sequences of Unicode code points, not of UTF-16 code units. For text outside the Basic Multilingual Plane this changes string lengths, the positions `includes` searches and the title order. Inside that plane the two views agree.
- `AdminPanel.Submit`: `parseFloat` is a function parameter `parseNumber`. Its NaN results are not modelled.
- Display rounding (`Math.round`, `toFixed`) and the division in the user page's average tile are floating-point presentation.
- The admin page's booking handler only logs to the console.
- The seed data file is not part of this model. Both pages take the seed catalog as a parameter.
- `AdminPage.CategoryCounts`: the source counts into a plain object, which inherits the properties of `Object.prototype`. For a category named `__proto__`, `constructor`, `toString`, `valueOf`, `hasOwnProperty` or another inherited property, the source misbehaves. An inherited function is truthy, so its count becomes a string. An assignment to `__proto__` goes to the prototype setter and the key never appears. The model treats the object as a plain map, so its counts hold only for categories that are not such property names.
- `AdminPage.ComputeStats`: its `categories` clauses come from `AdminPage.CategoryCounts` and hold only for categories that are not `Object.prototype` property names.
- `AdminPage.CategoryCountsSumToTotal`: the sum of the counts equals the total only for categories that are not `Object.prototype` property names.
- `AdminPage.AddUpdatesStats`: its category clause holds only for categories that are not `Object.prototype` property names.
- `AdminPage.ComputeStats`: it does not state `totalRevenue` as an equation. Revenue is the left fold `SumPrices`. Its promises come as non-negativity and as its changes under add (`AdminPage.AddUpdatesStats`) and edit (`AdminPage.EditUniqueEntry`).

Behaviour a reader might expect to differ is modelled as the code has it:

- `handleBookGame` books whatever game it is handed. It has no "no-op for an unknown id" case.
- The empty catalog's average rating is NaN in the source and `None` in the model. Computing the stats has no precondition.
- Ids are not checked for uniqueness anywhere. Uniqueness is proved preserved under the stated freshness condition instead.
- If a game's category is literally `All`, the category options list `All` twice, once as the sentinel and once as that category. `UserPage.CategoryList` states this behaviour as written.
