# Hero catalogue: store and list view

A Dafny model of the two components of the superhero-management app that hold
its logic.

- **The hero store** (`HeroService`, module `HeroStore`) owns the collection
  of heroes. `addHero` gives the new hero the next id and appends it.
  `updateHero` replaces every entry with the hero's id. `deleteHero` drops
  every entry with a given id. `searchHeroes` filters by a case-insensitive
  substring match over name, alter ego, power and universe. Each mutation builds
  a new array from the current one and publishes it. The model is a class with
  one `seq<Hero>` field. Its methods reassign that field, and each one is
  specified by a pure function (`NextId`, `Replace`, `Without`, `Search`) whose
  properties are proved as lemmas.
- **The list view** (`HeroListComponent`, module `HeroList`) keeps:
  - a mirror of the collection (`heroes`);
  - the filtered view (`filtered`), with its length (`totalItems`);
  - the visible page (`paginated`, a slice at `currentPage * pageSize`);
  - a multi-row selection (`selection`), with the flag `multipleSelection`;
  - the last search term let through (`lastTerm`).

  It is a class whose methods update these fields step by step. `Valid()` is
  the invariant that every method keeps: `totalItems` is the filtered length,
  `paginated` is the page of `filtered`, and `multipleSelection` holds exactly
  when more than one hero is selected.

Supporting modules:
- `HeroModel`: the `Hero` record and `Option`.
- `Text`: ASCII lower-casing, and `includes` stated as "occurs at some position".
- `Seqs`: order-preserving subsequences, duplicate-freedom, and JavaScript's
  `Array.prototype.slice`, where a negative index counts from the end.

How the source behaves in the cases where it matters:

- `isAllSelected` compares only the selected count with the filtered count.
  `CountMeansEveryRow` proves this is the same as "every row is selected"
  when two things hold: nothing outside the rows is selected, and no row
  occurs twice. `CountIsNotMembership` gives two selected heroes that are not
  among the two visible rows. That selection still counts as "all selected",
  and the toggle clears it. The model keeps the count comparison.
- A search does not clear the selection, so a hero that is no longer on screen
  can stay selected. `ToggleTwice` proves what two toggles do when every
  selected hero is a row and no row repeats. From "all selected" they lead
  back to all selected, and from any other selection to an empty one. With an
  off-screen hero selected, the toggles can leave the rows added:
  `ToggleTwiceOffScreen` selects one off-screen hero over two rows, and after
  two toggles all three are selected.
- `loadHeroes` subscribes to the store's live collection. So every later
  publication re-runs its handler (`OnHeroes`), which rebuilds the views from
  the published collection and clears the selection.
- The bulk delete issues one store delete per selected hero. The model
  specifies the result as "remove every selected id" (`WithoutIds`). The lemma
  `WithoutIdsStep` proves that the order of the deletes does not matter.
- The deletes return observables that never complete, so the `forkJoin`
  completion callback in `deleteSelectedHeroes` would wait forever. The model
  runs the callback anyway. After the refresh that the last delete triggers,
  the callback changes nothing, so the final state is the same either way.
  With nothing selected, no delete is issued and nothing changes.
- An empty search term shows the view's own mirror (`heroes`) and keeps the
  current page. A non-empty term searches the store's collection and goes back
  to page 0. A term equal to the last one let through changes nothing.

## Model

| member | source | states |
|---|---|---|
| `Text.ToLower` | src/app/services/hero.service.ts:47 | an upper-case ASCII letter becomes its lower-case letter, every other character is kept, and the result is never upper case |
| `Text.LowerStr` | src/app/services/hero.service.ts:47-52 | the lower-cased string has the same length, and each character is the lower-cased original |
| `Text.LowerStrIdempotent` | src/app/services/hero.service.ts:47 | lower-casing twice gives the same as lower-casing once |
| `Text.Includes` | src/app/services/hero.service.ts:49-52 | `s.includes(t)` holds exactly when `t` occurs in `s` at some position |
| `Text.IncludesEmpty` | src/app/services/hero.service.ts:49-52 | the empty string is included in every string |
| `Seqs.Slice` | src/app/components/hero-list/hero-list.component.ts:114 | `slice(from, to)` has length `max(0, e - b)` for the resolved bounds `b`, `e`, and its k-th entry is the entry at `b + k` |
| `HeroStore.MaxId` | src/app/services/hero.service.ts:29 | on a non-empty collection the maximum is the id of some entry, and no id exceeds it |
| `HeroStore.NextId` | src/app/services/hero.service.ts:29 | the assigned id is 1 on an empty collection, otherwise some id plus one; it is larger than every existing id, and positive when all ids are |
| `HeroStore.NextIdExamples` | src/app/services/hero.service.spec.ts:94-120 | an empty collection gives id 1; ids 1 and 2 give id 3 |
| `HeroStore.AppendFreshKeepsUnique` | src/app/services/hero.service.ts:29-30 | appending a hero whose id exceeds all ids keeps ids pairwise distinct |
| `HeroStore.Replace` | src/app/services/hero.service.ts:35 | the update keeps the length and the positions; each entry with the hero's id becomes the hero, and every other entry is untouched |
| `HeroStore.ReplaceProperties` | src/app/services/hero.service.ts:35 | the update keeps every position's id and keeps ids unique; with no matching id it changes nothing; the hero ends up in the collection exactly when its id was there |
| `HeroStore.Without` | src/app/services/hero.service.ts:41 | the delete result is an order-preserving subsequence; it holds every entry with a different id as often as before, and none with the deleted id |
| `HeroStore.WithoutAbsent` | src/app/services/hero.service.ts:41 | deleting an id that no entry carries changes nothing |
| `HeroStore.WithoutRemovesId` | src/app/services/hero.service.ts:41 | after a delete, no entry carries the deleted id |
| `HeroStore.WithoutIdempotent` | src/app/services/hero.service.ts:41 | deleting twice gives the same as deleting once |
| `HeroStore.WithoutCommutes` | src/app/services/hero.service.ts:41 | `delete(a)` then `delete(b)` gives the same as `delete(b)` then `delete(a)` |
| `HeroStore.SubsequenceKeepsUnique` | src/app/services/hero.service.ts:41 | an order-preserving subsequence of a collection with unique ids has unique ids |
| `HeroStore.WithoutKeepsUnique` | src/app/services/hero.service.ts:41 | deleting keeps ids unique and leaves no entry with the deleted id |
| `HeroStore.WithoutIds` | src/app/components/hero-list/hero-list.component.ts:160 | removing a set of ids keeps an order-preserving subsequence; it holds every entry whose id is not in the set as often as before, and none whose id is |
| `HeroStore.WithoutIdsStep` | src/app/components/hero-list/hero-list.component.ts:160 | one more delete after removing a set of ids is the same as removing the enlarged set, so the bulk deletes may run in any order |
| `HeroStore.Matches` | src/app/services/hero.service.ts:47-53 | a hero matches exactly when the lower-cased term occurs somewhere in the lower-cased name, alter ego, power or universe; the empty term matches every hero |
| `HeroStore.Search` | src/app/services/hero.service.ts:46-54 | the search result is an order-preserving subsequence; it holds each matching hero as often as the collection does, and no hero that does not match |
| `HeroStore.SearchEmptyTerm` | src/app/services/hero.service.ts:47-53 | searching for the empty term returns the whole collection |
| `HeroStore.SearchIgnoresTermCase` | src/app/services/hero.service.ts:47 | two terms that are equal after lower-casing give the same result |
| `HeroStore.SearchLowerTerm` | src/app/services/hero.service.ts:47 | searching for a term and for its lower-cased form gives the same result |
| `HeroStore.HeroService.constructor` | src/app/services/hero.service.ts:10-14 | the store starts with the collection the initial load delivers |
| `HeroStore.HeroService.AddHero` | src/app/services/hero.service.ts:27-32 | the added hero is the argument with id `NextId` of the old collection, whatever id the caller gave; the new collection is the old one followed by that hero; its id exceeds every earlier id; unique ids stay unique |
| `HeroStore.HeroService.UpdateHero` | src/app/services/hero.service.ts:34-38 | the new collection is `Replace` of the old one; unique ids stay unique; with no matching id nothing changes |
| `HeroStore.HeroService.DeleteHero` | src/app/services/hero.service.ts:40-44 | the new collection is `Without` of the old one |
| `HeroStore.HeroService.SearchHeroes` | src/app/services/hero.service.ts:46-55 | the result is `Search` of the current collection, which is left unchanged; the empty term returns the whole collection |
| `HeroList.Page` | src/app/components/hero-list/hero-list.component.ts:111-115 | a page is never longer than the filtered view |
| `HeroList.PageWindow` | src/app/components/hero-list/hero-list.component.ts:111-115 | for a non-negative page index and size, with `start = page * size`: the page is `filtered[start .. min(len, start + size)]`, it is empty once `start` is past the end, and its length is `min(size, max(0, len - start))` |
| `HeroList.PagesCover` | src/app/components/hero-list/hero-list.component.ts:111-115 | with a positive page size, row k is at position `k % size` of page `k / size` |
| `HeroList.PageExample` | src/app/components/hero-list/hero-list.component.ts:51-52 | with five rows a page, page 0 of a two-row view shows both rows |
| `HeroList.Toggled` | src/app/components/hero-list/hero-list.component.ts:178-182 | a selection whose size equals the row count is cleared; any other keeps what was selected, gets every row added, and gains nothing else |
| `HeroList.CountMeansEveryRow` | src/app/components/hero-list/hero-list.component.ts:172-176 | when only rows are selected and no row repeats, the count comparison is the same as "every row is selected" |
| `HeroList.CountIsNotMembership` | src/app/components/hero-list/hero-list.component.ts:172-182 | two selected heroes that are not among two visible rows still count as "all selected", and the toggle clears them |
| `HeroList.ToggleTwiceOffScreen` | src/app/components/hero-list/hero-list.component.ts:172-182 | with one off-screen hero selected over two rows, the first toggle adds both rows and the second keeps all three, so two toggles do not return to the start |
| `HeroList.ToggleTwice` | src/app/components/hero-list/hero-list.component.ts:178-182 | when only rows are selected and no row repeats, two toggles lead from "all selected" back to all selected, and from any other selection to an empty one |
| `HeroList.HeroListComponent.constructor` | src/app/components/hero-list/hero-list.component.ts:43-53 | initial state: empty views and selection, page 0, 5 rows a page, no term yet, and `Valid()` |
| `HeroList.HeroListComponent.UpdatePaginatedHeroes` | src/app/components/hero-list/hero-list.component.ts:111-115 | `paginated` becomes the page of `filtered` at `currentPage` and `pageSize`, and no other field changes |
| `HeroList.HeroListComponent.SelectionChanged` | src/app/components/hero-list/hero-list.component.ts:66-68 | `multipleSelection` becomes "more than one hero selected" |
| `HeroList.HeroListComponent.OnHeroes` | src/app/components/hero-list/hero-list.component.ts:73-82 | `heroes` and `filtered` become the published collection, `totalItems` its length, `paginated` its page at the unchanged page index, the selection empty and the flag false; page index, page size and last term are untouched |
| `HeroList.HeroListComponent.LoadHeroes` | src/app/components/hero-list/hero-list.component.ts:71-83 | the same as `OnHeroes`, applied to the store's current collection |
| `HeroList.HeroListComponent.ApplySearch` | src/app/components/hero-list/hero-list.component.ts:89-102 | a non-empty term: `filtered` becomes the store's search result and the page index 0. The empty term: `filtered` becomes `heroes` and the page index is kept. In both cases `totalItems` and `paginated` follow (`Valid()`), and the selection and page size are untouched |
| `HeroList.HeroListComponent.OnSearchTerm` | src/app/components/hero-list/hero-list.component.ts:85-103 | a term equal to the last one let through changes nothing; any other is recorded and handled as in `ApplySearch` |
| `HeroList.HeroListComponent.OnPageChange` | src/app/components/hero-list/hero-list.component.ts:105-109 | page index and size become the event's, `paginated` is recomputed, and no other field changes |
| `HeroList.HeroListComponent.IsAllSelected` | src/app/components/hero-list/hero-list.component.ts:172-176 | when only rows are selected and no row repeats, the result is "every row is selected" |
| `HeroList.HeroListComponent.MasterToggle` | src/app/components/hero-list/hero-list.component.ts:178-182 | when the counts are equal the selection is cleared; otherwise the earlier selection is kept and every filtered row is added; `Valid()` holds and only the selection and its flag change |
| `HeroList.HeroListComponent.SelectRows` | src/app/components/hero-list/hero-list.component.ts:181 | the selection becomes the old one plus every filtered row, and the flag matches its size |
| `HeroList.HeroListComponent.DeleteHero` | src/app/components/hero-list/hero-list.component.ts:125-144 | unconfirmed: nothing changes. Confirmed: the store drops the hero's id, no entry with that id remains, and the views show the new collection with the selection empty |
| `HeroList.HeroListComponent.DeleteSelectedHeroes` | src/app/components/hero-list/hero-list.component.ts:146-170 | unconfirmed, or nothing selected: nothing changes. Confirmed: the store keeps exactly the entries whose id is not a selected hero's id, no selected id remains, the selection is empty, and the views show the new collection |
| `HeroList.HeroListComponent.DeleteEach` | src/app/components/hero-list/hero-list.component.ts:160 | after one store delete per given hero, the store is the old collection without any of their ids |

## Left out

- `loadInitialHeroes` (hero.service.ts:16-21) fetches a JSON seed over the network and logs failures. The store's constructor takes the collection that load would deliver, which is empty when the load fails.
- `getHeroes` (hero.service.ts:23-25) returns a live observable of the collection. The model has no separate getter: the list view reads the store's `heroes` field directly. The later publications of that observable are modelled by the list view's `OnHeroes` handler, which the model invokes wherever a publication reaches it.
- RxJS plumbing is not modelled: subjects, `asObservable`, subscriptions and `forkJoin`. Every store call is a synchronous method call.
- The 300 ms debounce of the search box is timer behaviour. `OnSearchTerm` is the handler for a term the debounce has already let through.
- HeroStore.HeroService.AddHero: in the source, `addHero` also writes the new id into the caller's object, and the collection holds that same object. The model records no aliasing. It returns the added value and appends that value.
- `toLowerCase` is modelled for ASCII letters only. Unicode case mapping is not modelled.
- JavaScript numbers are modelled as unbounded integers: ids, the page index and the page size. Floating-point effects at huge values are not modelled.
- The selection is a set of hero values. The source's selection model compares heroes by object reference and keeps them in insertion order. So two equal hero objects count once in the model. The bulk delete needs no order, as `WithoutIdsStep` shows.
- HeroList.HeroListComponent.DeleteSelectedHeroes: the source runs the view refresh once per delete. The model runs it once, after the last delete. Each refresh overwrites every view field, so only the last one is visible. The deletes run in an unspecified order instead of the selection's insertion order.
- These UI collaborators are not modelled:
  - the confirmation dialog, which becomes the `confirmed` parameter;
  - dialog titles and messages;
  - the loading indicator and change detection;
  - router navigation (`addHero`, `editHero`) and `showImageFull`.
- The hero form (form controls, file reading, dialogs) is not part of this model, and neither is its validation rule (name of at least 3 characters, other fields required). The store does not check that rule itself.
- `ngOnInit` only wires `loadHeroes`, the search pipeline and the selection subscription together. Those are modelled as `LoadHeroes`, `OnSearchTerm` and `SelectionChanged`.
