# Books site page controller, in Dafny

A model of the script that drives the pages of a small static book website
(`assets/js/main.js`). On every page it resolves and toggles a light/dark
theme that is persisted in local storage, toggles the mobile navigation menu
and marks the header once the page is scrolled. On the home page it loads the
book catalog, renders it as a grid of cards and re-renders a filtered subset
on every keystroke in the search box.

The model has five modules:

- `Wrappers` (`wrappers.dfy`): `Option`, for a missing stored value and for a
  failed catalog load.
- `Text` (`text.dfy`): `Lower`/`Upper` (ASCII case mapping standing in for
  `toLowerCase`/`toUpperCase`) and `Contains` (`includes`), with the lemma
  that `Contains` means "occurs at some position".
- `Catalog` (`catalog.dfy`): the `Book` record, the search predicate
  `Matches`, the filter `Filter`, the handler's `Search` (lower-case the query
  once, then filter the whole catalog), the `Grid` content and `Rendered`,
  and the lemmas about them.
- `Theme` (`theme.dfy`): the initial theme `ResolveTheme` and the click rule
  `Toggled`.
- `PageController` (`page.dfy`): the class `Page`, whose fields are the state
  the script mutates (the theme variable, the `data-theme` attribute, local
  storage, the menu and header classes, `allBooks`, the grid), and whose
  methods are the page-ready handler (the constructor) and the event
  handlers. `Render` keeps the source's loop that appends one card at a
  time. A few methods at the end run event sequences (two toggles, two
  hamburger clicks, rendering twice, a failed load).

Browser inputs are parameters: the contents of local storage and the
dark-mode media query are constructor arguments, which elements exist is a
`Dom` value, the scroll offset is an argument of `Scroll`, the search box
value is an argument of `SearchInput`, and the outcome of the catalog fetch
is the `Option<seq<Book>>` argument of `CompleteLoad`. A handler whose element
is missing was never registered, so the corresponding method changes nothing.

## Behaviour worth knowing

- The theme is not restricted to light and dark. Any non-empty stored
  string is applied as it is (`main.js:109`), and the first toggle turns any
  value other than `'light'` into `'light'` (`main.js:114`). `Page.Valid`
  says that `data-theme` equals the in-memory theme, that the theme is
  non-empty, that a non-empty stored value under "theme" equals it, and that
  the search listener exists only on a page with a book grid; it does not
  say the theme is light or dark. `ClickThemeToggle` proves that after a
  toggle it is.
- A fetch error, a JSON error and an exception thrown inside `renderBooks`
  all end in the `catch` (`main.js:156-162`); `CompleteLoad(None)` stands
  for the first two. `fetch` does not reject on an HTTP error status, so
  such a response fails only when `res.json()` cannot parse its body or the
  parsed value then makes `renderBooks` throw.

- The catalog load is asynchronous and the search listener is registered
  before it finishes (`main.js:19-20`, `157-159`). A query typed before the
  load completes renders against the still-empty catalog ("No books found."),
  and the completed load then renders the whole catalog although the query
  is still in the search box, so the grid is then not the search result for
  that query (`LoadFinishesAfterSearch`).

## Model

| member | source | states |
|---|---|---|
| `Text.Lower` | assets/js/main.js:203 | no contract of its own: `toLowerCase` as the ASCII mapping, character by character; its properties are in `LowerIsLower`, `LowerIdempotent` and `LowerOfUpper` |
| `Text.Contains` | assets/js/main.js:206-207 | no contract of its own: `includes` as "the needle is a prefix of some suffix"; its meaning is given by `ContainsIff` |
| `Text.LowerIsLower` | assets/js/main.js:203 | lower-casing keeps the length and leaves no upper-case letter |
| `Text.LowerIdempotent` | assets/js/main.js:203-207 | lower-casing an already lower-cased string changes nothing |
| `Text.LowerOfUpper` | assets/js/main.js:203 | a string and its upper-cased form lower-case to the same string |
| `Text.OccursAtContains` | assets/js/main.js:206-207 | an occurrence of the needle at any position makes `includes` true |
| `Text.ContainsOccurs` | assets/js/main.js:206-207 | when `includes` is true, the needle occurs at a position of the string |
| `Text.ContainsIff` | assets/js/main.js:206-207 | `includes` holds exactly when the needle occurs at some position of the string |
| `Text.ContainsEmpty` | assets/js/main.js:206-207 | every string includes the empty string |
| `Catalog.Matches` | assets/js/main.js:206-207 | no contract of its own: the lower-cased title includes the term, or some lower-cased tag does (the `.some`); used by `Filter` and characterised through `FilterMembership` and `SearchMembership` |
| `Catalog.Filter` | assets/js/main.js:205-208 | the filter's result is no longer than the catalog, and each of its books is a catalog book that satisfies the predicate |
| `Catalog.FilterCount` | assets/js/main.js:205-208 | each book occurs in the result as often as in the catalog when it matches, and not at all otherwise, so every copy of a matching book is kept |
| `Catalog.FilterPositionsExact` | assets/js/main.js:205-208 | the positions the filter keeps are exactly the positions of matching books |
| `Catalog.FilterComplete` | assets/js/main.js:205-208 | every catalog book satisfying the predicate is in the result |
| `Catalog.FilterMembership` | assets/js/main.js:205-208 | a book is in the result iff it is in the catalog and satisfies the predicate |
| `Catalog.FilterIsSubsequence` | assets/js/main.js:205-208 | the result sits at strictly increasing positions of the catalog: a subsequence in the original relative order |
| `Catalog.FilterSubMultiset` | assets/js/main.js:205-208 | the result's multiset is contained in the catalog's: nothing is added or duplicated |
| `Catalog.FilterKeepsAll` | assets/js/main.js:205-208 | when every book satisfies the predicate the result is the catalog itself |
| `Catalog.FilterIdempotent` | assets/js/main.js:205-208 | filtering the result again with the same term changes nothing |
| `Catalog.Search` | assets/js/main.js:203-208 | no contract of its own: lower-case the input value once and filter `allBooks` with it; its properties are in `SearchMembership`, `SearchIsSubsequence`, `SearchEmptyQuery`, `SearchCaseInsensitive` and `SearchGrid` |
| `Catalog.SearchMembership` | assets/js/main.js:203-208 | a book is in the search result iff it is in `allBooks` and its lower-cased title or some lower-cased tag includes the lower-cased query |
| `Catalog.SearchIsSubsequence` | assets/js/main.js:205-208 | the search result is a subsequence of `allBooks` and adds or repeats no book |
| `Catalog.SearchEmptyQuery` | assets/js/main.js:203-208 | the empty query returns all of `allBooks` unchanged |
| `Catalog.SearchCaseInsensitive` | assets/js/main.js:203 | a query and its upper-cased form give the same result |
| `Catalog.Rendered` | assets/js/main.js:166-191 | the grid shows the message exactly for the empty sequence, the message is "No books found.", and the cards shown are exactly the input books in order |
| `Catalog.SearchEmptyCatalog` | assets/js/main.js:169-171 | before any catalog is stored every query shows "No books found." |
| `Catalog.SearchGrid` | assets/js/main.js:202-211 | after a search the grid shows a book iff it is in `allBooks` and matches, and shows "No books found." iff no book matches |
| `Catalog.SearchExampleTag` | assets/js/main.js:205-208 | in the Atlas/Borealis catalog, "light" finds only Borealis, by its tag |
| `Catalog.SearchExampleTitle` | assets/js/main.js:203-206 | in the Atlas/Borealis catalog, "atlas" finds only Atlas, by its title, whatever its case |
| `Catalog.SearchExampleNone` | assets/js/main.js:169-171 | in the Atlas/Borealis catalog, "zzz" leaves the grid showing only "No books found." |
| `Theme.GetItem` | assets/js/main.js:106 | no contract of its own: `getItem` as a map lookup, None for a key never stored; used by the constructor and `Page.Valid` |
| `Theme.Truthy` | assets/js/main.js:109 | no contract of its own: JavaScript truthiness of `saved`, which decides whether the stored value is used (null and "" are falsy); used by `ResolveTheme`, whose contract states the precedence |
| `Theme.ResolveTheme` | assets/js/main.js:106-109 | the initial theme is non-empty; a non-empty stored value wins; otherwise it is dark iff the system prefers dark, and light iff it does not |
| `Theme.Toggled` | assets/js/main.js:114 | a toggle always yields light or dark, and yields dark exactly when the theme was light |
| `Theme.ToggleTwice` | assets/js/main.js:113-117 | two toggles restore the theme iff it was light or dark |
| `Theme.ToggleAlternates` | assets/js/main.js:113-117 | after the first toggle, the theme alternates between two different values |
| `PageController.Page.constructor` | assets/js/main.js:7-22 | listeners are registered exactly for the elements that exist; the theme is resolved from storage and the system preference and applied to `data-theme`; storage is unchanged; menu and header flags are clear; `allBooks` is empty |
| `PageController.Page.ClickThemeToggle` | assets/js/main.js:113-117 | the theme becomes its toggle, `data-theme` equals it, storage holds it under "theme" and no other key changes; the value is light or dark |
| `PageController.Page.ClickHamburger` | assets/js/main.js:128-131 | a click flips the menu's "active" flag |
| `PageController.Page.Scroll` | assets/js/main.js:141-144 | after a scroll event the "scrolled" flag equals `scrollY > 10` |
| `PageController.Page.Render` | assets/js/main.js:165-192 | the grid becomes `Rendered(books)` whatever it held before |
| `PageController.Page.CompleteLoad` | assets/js/main.js:153-163 | on success `allBooks` is the fetched catalog and the grid its rendering; on a fetch or parse failure `allBooks` is unchanged and the grid shows "Unable to load books." |
| `PageController.Page.SearchInput` | assets/js/main.js:202-211 | the grid becomes the rendering of `Search(allBooks, value)` |
| `PageController.ToggleTwiceFromLight` | assets/js/main.js:113-117 | two toggles from light return to light, with light stored under "theme" |
| `PageController.ClickHamburgerTwice` | assets/js/main.js:129-131 | two hamburger clicks restore the menu flag |
| `PageController.RenderTwice` | assets/js/main.js:165-192 | rendering the same sequence twice leaves the grid as one rendering does |
| `PageController.LoadFailureOnHomePage` | assets/js/main.js:151-162 | a failed load right after page-ready leaves `allBooks` empty and shows only "Unable to load books." |
| `PageController.LoadFinishesAfterSearch` | assets/js/main.js:153-159 | a load completing after the query "zzz" was typed shows the whole two-book catalog, which is not the grid that query's search would give |

## Left out

- Header and footer injection (`injectHeader`, `injectFooter`): fixed HTML inserted into the page; which header elements exist afterwards is the `Dom` argument. That argument is more general than `main.js` needs: `injectHeader` always inserts `#theme-toggle`, `#hamburger`, `#nav-links` and a `<header>` (`main.js:9`, `29-65`, `68`), so with this script the first four `Dom` flags are always true once the page is ready.
- The network fetch of the catalog and JSON parsing: only their outcome is modelled, as the argument of `CompleteLoad`; a catalog that is not an array of book records (JSON `null`, an object, a `null` entry, a record missing fields) is not modelled. For such a value the source still assigns it to `allBooks` (`main.js:158`), and when `renderBooks` then throws on it (at `!books.length`, `main.js:169`, or at `b.detailPage`, `main.js:180`) the grid shows "Unable to load books." with `allBooks` already changed.
- Card markup, image attributes and the entrance animation delay (`i * 0.1` seconds, a floating-point presentation detail): a card is modelled by the book it shows.
- Unicode case mapping: `Lower` and `Upper` map only ASCII letters. `SearchCaseInsensitive`, `LowerOfUpper` and the length clause of `LowerIsLower` hold for that mapping only: in JavaScript `"ß".toUpperCase()` is `"SS"`, so "ß" and its upper-cased form search differently, and `"İ".toLowerCase()` has two code points.
- Event-listener registration and the ordering of page-ready events: registration is the `*Bound` constants, each event is one method call.
- The browser APIs (`localStorage`, `matchMedia`, `window.scrollY`) are values passed in; `Scroll` takes the offset as an integer, although browsers may report a fractional one.
- `PageController.Page.constructor`: the grid's content before the first rendering is taken to be an empty card list, since the page's static HTML is not part of this model.
- Storage write failures are not modelled; the source does not handle them either.
- A `localStorage.getItem` that throws (storage disabled) is not modelled: at `main.js:106` it would abort the rest of the page-ready handler (`main.js:12-20`), leaving menu, scroll, catalog and search uninitialised.
- Writes to local storage by other tabs of the same site are not modelled: the page is taken to be the only writer, and the storage clause of `Page.Valid` (a non-empty stored theme equals the applied one) relies on that.
- vite.config.js: a build input map with no runtime behaviour.
