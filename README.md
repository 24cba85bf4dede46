# Winery search menu — a Dafny model

This project models the search logic of the GIS-Winery web app: the `Menu`
component that lets a user find wineries by name, by opening hours or by city,
shows the matches on a map, and tells how far the selected winery is from the
user.

The component's state variables become the fields of one class,
`MenuComponent.Menu`. The winery catalog and the distance function are fixed
when the object is created. Each event handler is a method. Each method
states the complete new state and keeps the invariant `Valid()`:

- the opening-hours and city choice lists are sorted, hold no duplicates, and
  hold exactly the values found in the catalog;
- the shown sites are nothing or the result of one search (the whole
  catalog is the result of searching for the empty name);
- a site is selected exactly when a distance is shown.

Files:

- `catalog.dfy` (module `Catalog`): the `Site` record, coordinates, `Option`,
  and the sets of opening-hours and city values in a catalog.
- `string_order.dfy` (module `StringOrder`): lexicographic order on strings,
  proved to be a total order. It holds an insertion sort that stands for
  `Array.prototype.sort` and is proved to return a sorted permutation. It
  also proves that a sorted list without duplicates is fixed by its set of
  elements.
- `search.dfy` (module `Search`): the substring test behind `includes`, the
  three search criteria, the specification `Matching`, its properties
  (exact result in catalog order, first match first, idempotence), the
  catalog loop that every handler runs (`Scan`) and the catalog index
  (`IndexCatalog`).
- `menu.dfy` (module `MenuComponent`): the `Menu` class with its handlers,
  and two client methods, `EmptyValueScenario` and `StaleSelectionScenario`,
  that walk through the empty-value and stale-selection cases.

Two behaviours of the code, and the assumption the model makes about one of
them:

- The code passes the position to the distance library unchecked, even
  while it is still `null` (src/pages/Menu/index.js:69, 105, 119). What the
  library does with `null` cannot be seen. The model assumes it returns a
  number, `distKm(None, p)`, so a selection always comes with a distance.
- No filter ever clears the selection. An empty result, or the empty name,
  leaves the previous selection and distance in place
  (src/pages/Menu/index.js:66, 74-76, 103, 138).

## Model

| member | source | states |
|---|---|---|
| `Search.IndexCatalog` | src/pages/Menu/index.js:25-41 | The opening-hours list and the city list are each sorted, free of duplicates, and contain exactly the values that occur in the catalog |
| `StringOrder.Sort` | src/pages/Menu/index.js:39-40 | The sort returns a sorted permutation of its input, and keeps a duplicate-free list duplicate-free |
| `StringOrder.Insert` | src/pages/Menu/index.js:39-40 | Inserting into a sorted list gives a sorted list with exactly one more copy of the value, and no duplicate when the value was new |
| `StringOrder.SortedSetUnique` | src/pages/Menu/index.js:25-41 | Two sorted duplicate-free lists with the same elements are equal, so the index's three properties determine each choice list exactly |
| `Search.SortIndexes` | src/pages/Menu/index.js:39-40 | Sorting the distinct values collected by the loop yields the index of those values |
| `StringOrder.LessEqTotal` | src/pages/Menu/index.js:39-40 | Any two strings are comparable in the sort order |
| `StringOrder.LessEqAntisymmetric` | src/pages/Menu/index.js:39-40 | Strings that are each at most the other are equal |
| `StringOrder.LessEqTransitive` | src/pages/Menu/index.js:39-40 | The sort order is transitive |
| `Search.Includes` | src/pages/Menu/index.js:60 | The name test holds exactly when the query occurs as a contiguous, case-sensitive substring of the name at some position |
| `Search.Matching` | src/pages/Menu/index.js:59-63 | A search result contains exactly the catalog sites that pass the criterion and is never longer than the catalog |
| `Search.MatchingInCatalogOrder` | src/pages/Menu/index.js:56-64 | A search result is the catalog's subsequence at exactly the matching positions, in increasing order, so it keeps catalog order and lists each match once |
| `Search.FirstMatchLeads` | src/pages/Menu/index.js:66-72 | The earliest matching catalog site is the first element of the result, so it is the site that becomes selected |
| `Search.MatchingIdempotent` | src/pages/Menu/index.js:59-63 | Searching a result again with the same criterion returns it unchanged |
| `Search.EmptyNameKeepsAll` | src/pages/Menu/index.js:74-76 | Every name contains the empty string, so the whole catalog shown for an empty name box equals the name search for the empty string |
| `Search.Scan` | src/pages/Menu/index.js:96-100 | The handlers' push loop over the catalog returns exactly the search result `Matching` (the same loop is at lines 59-63 and 132-136) |
| `MenuComponent.Menu.constructor` | src/pages/Menu/index.js:11-41 | After mounting, the search value and the two selections are empty and the filter mode is by name. The whole catalog is shown, nothing is selected and no position is known. The two choice lists are the catalog index |
| `MenuComponent.Menu.ShowResults` | src/pages/Menu/index.js:103-110 | Shows a search result and keeps `Valid()`. A non-empty result selects its first site and records the distance from the current position to it. An empty result leaves the selection and distance as they were. Nothing else changes |
| `MenuComponent.Menu.OnChangeSearchValue` | src/pages/Menu/index.js:55-85 | Records the typed value. A non-empty value shows exactly the sites whose name contains it and selects the first one, if any. The empty value shows the whole catalog and keeps the selection and distance |
| `MenuComponent.Menu.OnChangeOpeningHours` | src/pages/Menu/index.js:91-111 | Records the chosen hours. The empty choice shows no site. Any other value shows exactly the sites with equal opening hours. The first shown site becomes selected; an empty result keeps the old selection |
| `MenuComponent.Menu.OnClickSite` | src/pages/Menu/index.js:117-122 | The clicked site becomes selected and its distance from the current position is recorded, whatever is shown. Nothing else changes |
| `MenuComponent.Menu.OnChangeCity` | src/pages/Menu/index.js:128-146 | Records the chosen city and shows exactly the sites in that city, the empty value included. The first shown site becomes selected; an empty result keeps the old selection |
| `MenuComponent.Menu.OnChangeFilter` | src/pages/Menu/index.js:152-154 | Only the filter mode changes; the shown sites, the selection, the distance and the stored values stay as they were |
| `MenuComponent.Menu.OnPosition` | src/pages/Menu/index.js:46-50 | The geolocation callback records the position and changes nothing else; the distance already shown is not recomputed |

## Left out

- Rendering: the JSX form controls (src/pages/Menu/index.js:156-219), the Leaflet map and its markers (src/pages/Map/index.js), and the static layout in src/App.js and src/pages/Header/index.js. They hold no search logic.
- The distance computation. `getDistance` and `convertDistance` come from the `geolib` library, which uses floating point and is not part of this model. The class takes the whole `parseInt(convertDistance(getDistance(...), 'km'))` as a function parameter `distKm`. That parameter is total over an optional position, because what the library does with a `null` position cannot be seen.
- A distance library that throws on a `null` position. Such a throw would stop `onClickSite` before any state change (src/pages/Menu/index.js:117-122), `onChangeOpeningHours` and `onChangeCity` before `setChooseSite` and `setAvailableSites` (src/pages/Menu/index.js:103-110, 138-145), and the name-search effect after `setAvailableSites` but before `setChooseSite` (src/pages/Menu/index.js:64-72). The model assumes the library returns a number, so this path is not modelled.
- `navigator.geolocation.getCurrentPosition` is an asynchronous platform call. Only its callback is modelled, as `OnPosition`.
- Loading `data.json` is not part of this model. The catalog is an immutable sequence given to the constructor. Uniqueness of `id` is not assumed, because no handler relies on it.
- React scheduling. Each handler and its state updates are one synchronous step. The model starts from the state after mounting, not from the initial `[]` that the first run of the search effect replaces with the catalog.
- MenuComponent.Menu.OnChangeSearchValue: reruns the search on every call. React reruns the effect only when `searchValue` differs from its previous value. A text input fires its change event only when its value changes, so the two differ only for a call the page never makes.
- StringOrder.Sort: orders strings by comparing `char` values one by one. JavaScript's default sort compares UTF-16 code units. The two orders agree on text without surrogate pairs.
- MenuComponent.Menu.OnChangeFilter: the mode is a three-valued datatype, while the code stores the raw string of the select box. That box offers only these three values.
- Search.Includes: works on `seq<char>`, while `String.prototype.includes` works on UTF-16 code units. Both find the same contiguous substrings.
