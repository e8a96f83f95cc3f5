/** The page controller: the state the script keeps for one page visit and
    the handlers that change it. */
module PageController {
  import opened Wrappers
  import opened Catalog
  import opened Theme

  /** Which of the elements the script looks up exist on the page. */
  datatype Dom = Dom(
    themeToggle: bool,   // #theme-toggle
    hamburger: bool,     // #hamburger
    navLinks: bool,      // #nav-links
    header: bool,        // the first <header>
    bookGrid: bool,      // #book-grid, only on the home page
    searchInput: bool)   // #book-search

  /** The header gets the "scrolled" class once the page is scrolled further
      than this many pixels. */
  const ScrollThreshold := 10

  class Page {
    // Which listeners were registered when the page became ready.
    const themeBound: bool
    const menuBound: bool
    const scrollBound: bool
    const hasBookGrid: bool
    const searchBound: bool

    /** The theme variable captured by the toggle's click handler. */
    var theme: string
    /** The data-theme attribute of the document element. */
    var dataTheme: string
    /** The browser's local storage. */
    var storage: map<string, string>
    /** Whether #nav-links carries the "active" class. */
    var menuActive: bool
    /** Whether the header carries the "scrolled" class. */
    var scrolled: bool
    /** The module-level catalog, `allBooks`. */
    var allBooks: seq<Book>
    /** The content of the book grid container. */
    var grid: Grid

    /** The applied theme is the in-memory one and agrees with any non-empty
        persisted preference; the search handler is only registered on a page
        that has a book grid. */
    ghost predicate Valid()
      reads this
    {
      && dataTheme == theme
      && theme != ""
      && (Truthy(GetItem(storage, ThemeKey)) ==> storage[ThemeKey] == theme)
      && (searchBound ==> hasBookGrid)
    }

    /** The DOMContentLoaded handler without the header and footer injection:
        resolve and apply the theme, register the click, scroll and input
        listeners whose elements exist, and start the catalog load (its
        completion is `CompleteLoad`). */
    constructor (dom: Dom, initialStorage: map<string, string>, prefersDark: bool)
      ensures Valid()
      ensures themeBound == dom.themeToggle
      ensures menuBound == (dom.hamburger && dom.navLinks)
      ensures scrollBound == dom.header
      ensures hasBookGrid == dom.bookGrid
      ensures searchBound == (dom.bookGrid && dom.searchInput)
      ensures theme == ResolveTheme(GetItem(initialStorage, ThemeKey), prefersDark)
      ensures dataTheme == theme
      ensures storage == initialStorage
      ensures !menuActive && !scrolled
      ensures allBooks == [] && grid == Cards([])
    {
      themeBound := dom.themeToggle;
      menuBound := dom.hamburger && dom.navLinks;
      scrollBound := dom.header;
      hasBookGrid := dom.bookGrid;
      searchBound := dom.bookGrid && dom.searchInput;
      storage := initialStorage;
      var saved := GetItem(initialStorage, ThemeKey);
      theme := ResolveTheme(saved, prefersDark);
      dataTheme := theme;
      menuActive, scrolled := false, false;
      allBooks, grid := [], Cards([]);
    }

    /** A click on the theme toggle: flip the theme, apply it and persist it
        under the theme key; no other storage entry changes. */
    method ClickThemeToggle()
      requires Valid()
      modifies this`theme, this`dataTheme, this`storage
      ensures Valid()
      ensures themeBound ==> theme == Toggled(old(theme))
      ensures themeBound ==> storage == old(storage)[ThemeKey := theme]
      ensures themeBound ==> (theme == Light || theme == Dark)
      ensures themeBound ==> ThemeKey in storage && storage[ThemeKey] == theme == dataTheme
      ensures !themeBound ==> theme == old(theme) && storage == old(storage)
      ensures dataTheme == theme
    {
      if themeBound {
        theme := Toggled(theme);
        dataTheme := theme;
        storage := storage[ThemeKey := theme];
      }
    }

    /** A click on the hamburger toggles the "active" class of the menu. */
    method ClickHamburger()
      modifies this`menuActive
      ensures menuActive == if menuBound then !old(menuActive) else old(menuActive)
    {
      if menuBound {
        menuActive := !menuActive;
      }
    }

    /** A scroll event sets the "scrolled" class to whether the vertical scroll
        offset exceeds the threshold. */
    method Scroll(scrollY: int)
      modifies this`scrolled
      ensures scrollBound ==> scrolled == (scrollY > ScrollThreshold)
      ensures !scrollBound ==> scrolled == old(scrolled)
    {
      if scrollBound {
        scrolled := scrollY > ScrollThreshold;
      }
    }

    /** `renderBooks`: clear the grid, then either show the "No books found."
        message or append one card per book, in order. What the grid held
        before does not matter. */
    method Render(books: seq<Book>)
      requires hasBookGrid
      modifies this`grid
      ensures grid == Rendered(books)
    {
      grid := Cards([]);
      if |books| == 0 {
        grid := Message(NoBooksFound);
        return;
      }
      for i := 0 to |books|
        invariant grid == Cards(books[..i])
      {
        grid := Cards(grid.cards + [books[i]]);
      }
      assert books[..|books|] == books;
    }

    /** The completion of `loadBooks`: `fetched` is the parsed catalog, or
        None when the fetch or the parse failed. On success the catalog is
        stored and rendered; on failure it is left as it was and the grid
        shows the "Unable to load books." message. */
    method CompleteLoad(fetched: Option<seq<Book>>)
      modifies this`allBooks, this`grid
      ensures hasBookGrid && fetched.Some? ==> allBooks == fetched.value && grid == Rendered(allBooks)
      ensures hasBookGrid && fetched.None? ==> allBooks == old(allBooks) && grid == Message(UnableToLoad)
      ensures !hasBookGrid ==> allBooks == old(allBooks) && grid == old(grid)
    {
      if hasBookGrid {
        match fetched
        case Some(books) =>
          allBooks := books;
          Render(allBooks);
        case None =>
          grid := Message(UnableToLoad);
      }
    }

    /** An input event on the search box: render the catalog filtered by the
        lower-cased input value. */
    method SearchInput(value: string)
      requires Valid()
      modifies this`grid
      ensures searchBound ==> grid == Rendered(Search(allBooks, value))
      ensures !searchBound ==> grid == old(grid)
    {
      if searchBound {
        var filtered := Search(allBooks, value);
        Render(filtered);
      }
    }
  }

  /* -----------------------------------------------------------------------
     Event sequences
     ----------------------------------------------------------------------- */

  /** Two toggles starting from light come back to light, and storage then
      holds light under the theme key. */
  method ToggleTwiceFromLight(p: Page)
    requires p.Valid() && p.themeBound && p.theme == Light
    modifies p
    ensures p.Valid() && p.theme == Light && p.dataTheme == Light
    ensures p.storage == old(p.storage)[ThemeKey := Light]
  {
    p.ClickThemeToggle();
    assert p.theme == Dark;
    p.ClickThemeToggle();
  }

  /** Two hamburger clicks restore the menu's state. */
  method ClickHamburgerTwice(p: Page)
    modifies p
    ensures p.menuActive == old(p.menuActive)
  {
    p.ClickHamburger();
    p.ClickHamburger();
  }

  /** Rendering is idempotent: rendering the same sequence again leaves the
      grid as the first rendering left it. */
  method RenderTwice(p: Page, books: seq<Book>)
    requires p.hasBookGrid
    modifies p
    ensures p.grid == Rendered(books)
  {
    p.Render(books);
    ghost var first := p.grid;
    p.Render(books);
    assert p.grid == first;
  }

  /** A failed catalog load on a freshly loaded home page: the grid shows only
      the "Unable to load books." message and the catalog stays empty. */
  method LoadFailureOnHomePage(initialStorage: map<string, string>, prefersDark: bool)
    returns (p: Page)
    ensures p.allBooks == [] && p.grid == Message(UnableToLoad) && Shown(p.grid) == []
  {
    p := new Page(Dom(true, true, true, true, true, true), initialStorage, prefersDark);
    p.CompleteLoad(None);
  }

  /** The catalog load finishes after the user has typed a query: the load
      renders the whole catalog, so the grid no longer shows the result of
      the query that is still in the search box. */
  method LoadFinishesAfterSearch(initialStorage: map<string, string>, prefersDark: bool)
    returns (p: Page)
    ensures p.allBooks == [Atlas, Borealis]
    ensures p.grid == Cards([Atlas, Borealis])
    ensures p.grid != Rendered(Search(p.allBooks, "zzz"))
  {
    p := new Page(Dom(true, true, true, true, true, true), initialStorage, prefersDark);
    p.SearchInput("zzz");
    assert p.grid == Message(NoBooksFound) by {
      SearchEmptyCatalog("zzz");
    }
    p.CompleteLoad(Some([Atlas, Borealis]));
    SearchExampleNone();
  }
}
