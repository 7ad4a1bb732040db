/** The list view: a mirror of the store's collection, a filtered view driven
    by the search box, the page of it on screen, and a multi-row selection
    used for bulk delete. */
module HeroList {
  import opened HeroModel
  import opened Seqs
  import opened HeroStore

  // ---------------------------------------------------------------------
  // Pagination

  /** The rows of page `page` (zero-based) when pages hold `size` rows:
      the slice of `s` from `page * size` to `page * size + size`. */
  function Page<T>(s: seq<T>, page: int, size: int): (r: seq<T>)
    ensures |r| <= |s|
  {
    Slice(s, page * size, page * size + size)
  }

  /** For a non-negative page index and size the page is the window of `s`
      starting at `page * size`, cut off at the end of `s`; it is empty once
      the start is past the end. */
  lemma PageWindow<T>(s: seq<T>, page: int, size: int)
    requires page >= 0 && size >= 0
    ensures var start := page * size;
      && |Page(s, page, size)| == (if size < |s| - start then size else if |s| - start < 0 then 0 else |s| - start)
      && (start >= |s| ==> Page(s, page, size) == [])
      && (start < |s| ==> Page(s, page, size) == s[start..if start + size < |s| then start + size else |s|])
  {
    var start := page * size;
    assert start >= 0 by {
      assert page * size >= 0 * size;
    }
  }

  /** With a positive page size every row appears on exactly the page and at
      exactly the position integer division says. */
  lemma PagesCover<T>(s: seq<T>, size: int, k: int)
    requires size > 0 && 0 <= k < |s|
    ensures k % size < |Page(s, k / size, size)|
    ensures Page(s, k / size, size)[k % size] == s[k]
  {
    var page := k / size;
    assert page >= 0;
    var start := page * size;
    assert start + k % size == k;
    PageWindow(s, page, size);
  }

  /** Five rows a page and two filtered rows: page 0 shows both. */
  lemma PageExample<T>(x: T, y: T)
    ensures Page([x, y], 0, 5) == [x, y]
  {
    PageWindow([x, y], 0, 5);
  }

  // ---------------------------------------------------------------------
  // Selection

  /** What the master toggle makes of selection `sel` over rows `rows`: clear
      it when its size equals the number of rows, otherwise add every row. */
  ghost function Toggled(sel: set<Hero>, rows: seq<Hero>): (r: set<Hero>)
    ensures |sel| == |rows| ==> r == {}
    ensures |sel| != |rows| ==> sel <= r && forall i :: 0 <= i < |rows| ==> rows[i] in r
    ensures |sel| != |rows| ==> forall h :: h in r ==> h in sel || h in rows
  {
    if |sel| == |rows| then {} else sel + Elems(rows)
  }

  /** The size comparison agrees with "every row is selected" as long as
      nothing outside the rows is selected and no row occurs twice. */
  lemma CountMeansEveryRow(sel: set<Hero>, rows: seq<Hero>)
    ensures sel <= Elems(rows) && NoDuplicates(rows) ==> (|sel| == |rows| <==> Elems(rows) <= sel)
  {
    if sel <= Elems(rows) && NoDuplicates(rows) {
      ElemsCard(rows);
      if Elems(rows) <= sel {
        assert sel == Elems(rows);
      } else {
        ProperSubsetSmaller(sel, Elems(rows));
      }
    }
  }

  lemma ProperSubsetSmaller<T>(a: set<T>, b: set<T>)
    requires a <= b && a != b
    ensures |a| < |b|
  {
    assert !(b <= a);
    var x :| x in b && x !in a;
    assert b == a + (b - a);
    assert |b - a| >= |{x}|;
  }

  /** The size comparison is not membership: a selection of two rows that
      are not on screen counts as "all selected" over two other rows, and the
      toggle clears it. */
  lemma CountIsNotMembership()
    ensures var a, b, c, d := Hero(1, "Ann", "", "", "", None), Hero(2, "Bob", "", "", "", None),
                              Hero(3, "Cid", "", "", "", None), Hero(4, "Dee", "", "", "", None);
      && |{c, d}| == |[a, b]|
      && !(Elems([a, b]) <= {c, d})
      && Toggled({c, d}, [a, b]) == {}
  {
    var a, b, c, d := Hero(1, "Ann", "", "", "", None), Hero(2, "Bob", "", "", "", None),
                      Hero(3, "Cid", "", "", "", None), Hero(4, "Dee", "", "", "", None);
    assert a in Elems([a, b]);
    assert |{c, d}| == 2;
  }

  /** A search does not clear the selection, so a hero off screen can stay
      selected; then two toggles do not come back to where they started: the
      first adds both rows, and the second, seeing three selected over two
      rows, keeps all three. */
  lemma ToggleTwiceOffScreen()
    ensures var a, b, x := Hero(1, "Ann", "", "", "", None), Hero(2, "Bob", "", "", "", None),
                           Hero(3, "Cid", "", "", "", None);
      && Toggled({x}, [a, b]) == {x, a, b}
      && Toggled(Toggled({x}, [a, b]), [a, b]) == {x, a, b}
  {
    var a, b, x := Hero(1, "Ann", "", "", "", None), Hero(2, "Bob", "", "", "", None),
                   Hero(3, "Cid", "", "", "", None);
    assert Elems([a, b]) == {a, b};
    assert |{x, a, b}| == 3;
  }

  /** Toggling twice over the same rows, starting from a selection of rows:
      from "all selected" it comes back to all selected, from anything else it
      ends with nothing selected. */
  lemma ToggleTwice(sel: set<Hero>, rows: seq<Hero>)
    requires sel <= Elems(rows) && NoDuplicates(rows)
    ensures Toggled(Toggled(sel, rows), rows) == if sel == Elems(rows) then Elems(rows) else {}
  {
    ElemsCard(rows);
    CountMeansEveryRow(sel, rows);
    if sel == Elems(rows) {
      assert Toggled(sel, rows) == {};
      if rows != [] {
        assert rows[0] in Elems(rows);
      }
    } else {
      assert Toggled(sel, rows) == Elems(rows);
    }
  }

  // ---------------------------------------------------------------------
  // The controller

  class HeroListComponent {
    const store: HeroService
    var heroes: seq<Hero>
    var filtered: seq<Hero>
    var paginated: seq<Hero>
    var selection: set<Hero>
    var multipleSelection: bool
    var pageSize: int
    var currentPage: int
    var totalItems: int
    /** The last term that passed the distinct-value guard; `None` before the
        first one. */
    var lastTerm: Option<string>

    /** The derived fields agree with the ones they are derived from. */
    predicate Valid()
      reads this
    {
      && totalItems == |filtered|
      && paginated == Page(filtered, currentPage, pageSize)
      && multipleSelection == (|selection| > 1)
    }

    /** The state right after the collection `hs` has been loaded. */
    predicate Shows(hs: seq<Hero>)
      reads this
    {
      && heroes == hs && filtered == hs && totalItems == |hs|
      && paginated == Page(hs, currentPage, pageSize)
      && selection == {} && !multipleSelection
    }

    /** The filtered view after search term `term` was handled, `page0` being
        the page index before. */
    predicate ShowsSearch(term: string, page0: int)
      reads this, store
    {
      && (term != "" ==> filtered == Search(store.heroes, term) && currentPage == 0)
      && (term == "" ==> filtered == heroes && currentPage == page0)
    }

    constructor (store: HeroService)
      ensures this.store == store && Valid()
      ensures heroes == [] && filtered == [] && paginated == [] && selection == {}
      ensures pageSize == 5 && currentPage == 0 && totalItems == 0 && lastTerm == None
    {
      this.store := store;
      heroes, filtered, paginated := [], [], [];
      selection, multipleSelection := {}, false;
      pageSize, currentPage, totalItems := 5, 0, 0;
      lastTerm := None;
    }

    /** Recomputes the visible page from the filtered view. */
    method UpdatePaginatedHeroes()
      modifies this`paginated
      ensures paginated == Page(filtered, currentPage, pageSize)
    {
      var startIndex := currentPage * pageSize;
      var endIndex := startIndex + pageSize;
      paginated := Slice(filtered, startIndex, endIndex);
    }

    /** The subscription on selection changes. */
    method SelectionChanged()
      modifies this`multipleSelection
      ensures multipleSelection == (|selection| > 1)
    {
      multipleSelection := |selection| > 1;
    }

    /** The handler of the store subscription made by `loadHeroes`: it runs
        on every collection the store publishes. */
    method OnHeroes(hs: seq<Hero>)
      modifies this`heroes, this`filtered, this`totalItems, this`paginated, this`selection, this`multipleSelection
      ensures Valid() && Shows(hs)
    {
      heroes := hs;
      filtered := hs;
      totalItems := |hs|;
      UpdatePaginatedHeroes();
      selection := {};
      multipleSelection := false;
    }

    /** Reads the store's current collection and rebuilds every view from it. */
    method LoadHeroes()
      modifies this`heroes, this`filtered, this`totalItems, this`paginated, this`selection, this`multipleSelection
      ensures Valid() && Shows(store.heroes)
    {
      OnHeroes(store.heroes);
    }

    /** The search handler for a term the debounce has let through: a
        non-empty term filters through the store and goes back to page 0, the
        empty term shows the mirrored collection on the current page. */
    method ApplySearch(term: string)
      requires Valid()
      modifies this`filtered, this`totalItems, this`currentPage, this`paginated
      ensures Valid() && ShowsSearch(term, old(currentPage))
    {
      if term != "" {
        var found := store.SearchHeroes(term);
        filtered := found;
        totalItems := |found|;
        currentPage := 0;
        UpdatePaginatedHeroes();
      } else {
        filtered := heroes;
        totalItems := |heroes|;
        UpdatePaginatedHeroes();
      }
    }

    /** A debounced search term: equal to the last one handled it is
        dropped, otherwise it is handled. */
    method OnSearchTerm(term: string)
      requires Valid()
      modifies this`filtered, this`totalItems, this`currentPage, this`paginated, this`lastTerm
      ensures Valid() && lastTerm == Some(term)
      ensures old(lastTerm) == Some(term) ==> unchanged(this)
      ensures old(lastTerm) != Some(term) ==> ShowsSearch(term, old(currentPage))
    {
      if lastTerm != Some(term) {
        lastTerm := Some(term);
        ApplySearch(term);
      }
    }

    /** The paginator moved to page `pageIndex` with `size` rows a page. */
    method OnPageChange(pageIndex: int, size: int)
      requires Valid()
      modifies this`currentPage, this`pageSize, this`paginated
      ensures Valid() && currentPage == pageIndex && pageSize == size
    {
      currentPage := pageIndex;
      pageSize := size;
      UpdatePaginatedHeroes();
    }

    /** Whether as many heroes are selected as there are rows in the filtered
        view; a count comparison, not a membership test. */
    predicate IsAllSelected()
      reads this
      ensures selection <= Elems(filtered) && NoDuplicates(filtered) ==>
        (IsAllSelected() <==> Elems(filtered) <= selection)
    {
      CountMeansEveryRow(selection, filtered);
      |selection| == |filtered|
    }

    /** Clears the selection when all rows count as selected, otherwise
        selects every row of the filtered view, keeping what was selected. */
    method MasterToggle()
      requires Valid()
      modifies this`selection, this`multipleSelection
      ensures Valid() && selection == Toggled(old(selection), filtered)
      ensures old(IsAllSelected()) ==> selection == {}
      ensures !old(IsAllSelected()) ==> old(selection) <= selection && Elems(filtered) <= selection
    {
      if IsAllSelected() {
        if selection != {} {
          selection := {};
          SelectionChanged();
        }
      } else {
        SelectRows();
      }
    }

    /** Walks the filtered rows in order and selects each one: adds every row,
        announcing each row that was not selected yet. */
    method SelectRows()
      requires multipleSelection == (|selection| > 1)
      modifies this`selection, this`multipleSelection
      ensures selection == old(selection) + Elems(filtered)
      ensures multipleSelection == (|selection| > 1)
    {
      var rows := filtered;
      var i := 0;
      while i < |rows|
        invariant 0 <= i <= |rows|
        invariant selection == old(selection) + Elems(rows[..i])
        invariant multipleSelection == (|selection| > 1)
      {
        var row := rows[i];
        assert rows[..i + 1] == rows[..i] + [row];
        if row !in selection {
          selection := selection + {row};
          SelectionChanged();
        }
        i := i + 1;
      }
      assert rows[..i] == rows;
    }

    /** After a confirmed dialog, deletes `hero` from the store and reloads;
        without confirmation nothing happens. */
    method DeleteHero(hero: Hero, confirmed: bool)
      requires Valid()
      modifies this`heroes, this`filtered, this`totalItems, this`paginated, this`selection, this`multipleSelection, store
      ensures Valid()
      ensures !confirmed ==> unchanged(this) && unchanged(store)
      ensures confirmed ==> store.heroes == Without(old(store.heroes), hero.id)
      ensures confirmed ==> !HasId(store.heroes, hero.id) && Shows(store.heroes)
    {
      if confirmed {
        store.DeleteHero(hero.id);
        WithoutRemovesId(old(store.heroes), hero.id);
        // The store's publication refreshes the views through the loadHeroes
        // subscription; the reload after the delete gives the same state.
        LoadHeroes();
      }
    }

    /** After a confirmed dialog, deletes every selected hero from the store,
        one delete per hero, then clears the selection; without confirmation
        nothing happens. */
    method DeleteSelectedHeroes(confirmed: bool)
      requires Valid()
      modifies this`heroes, this`filtered, this`totalItems, this`paginated, this`selection, this`multipleSelection, store
      ensures Valid()
      ensures !confirmed || old(selection) == {} ==> unchanged(this) && unchanged(store)
      ensures confirmed ==> store.heroes == WithoutIds(old(store.heroes), IdsOf(old(selection)))
      ensures confirmed ==> forall h :: h in store.heroes ==> h.id !in IdsOf(old(selection))
      ensures confirmed ==> selection == {} && !multipleSelection
      ensures confirmed && old(selection) != {} ==> Shows(store.heroes)
    {
      if confirmed {
        var selectedHeroes := selection;
        // With nothing selected no delete is issued, so the store publishes
        // nothing and the join of no deletes delivers no completion value.
        if selectedHeroes != {} {
          DeleteEach(selectedHeroes);
          // Every delete publishes the new collection, and each publication
          // re-runs the loadHeroes handler, which overwrites every view field
          // from the collection it is given; only the run after the last
          // delete is visible.
          OnHeroes(store.heroes);
          // The completion callback; it changes nothing after that run.
          LoadHeroes();
          selection := {};
          multipleSelection := false;
        } else {
          IdsOfEmpty();
          WithoutIdsEmpty(store.heroes);
        }
      }
    }

    /** One store delete per hero of `selectedHeroes`, in any order. */
    method DeleteEach(selectedHeroes: set<Hero>)
      modifies store
      ensures store.heroes == WithoutIds(old(store.heroes), IdsOf(selectedHeroes))
    {
      var pending := selectedHeroes;
      ghost var done: set<Hero> := {};
      WithoutIdsEmpty(store.heroes);
      IdsOfEmpty();
      while pending != {}
        invariant pending + done == selectedHeroes && pending !! done
        invariant store.heroes == WithoutIds(old(store.heroes), IdsOf(done))
        decreases |pending|
      {
        var h :| h in pending;
        WithoutIdsStep(old(store.heroes), IdsOf(done), h.id);
        IdsOfAdd(done, h);
        store.DeleteHero(h.id);
        pending := pending - {h};
        done := done + {h};
      }
    }
  }
}
