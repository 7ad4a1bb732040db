/** The hero store: the one owner of the hero collection. Every mutation
    computes a new collection from the current one and publishes it. */
module HeroStore {
  import opened HeroModel
  import opened Text
  import opened Seqs

  // ---------------------------------------------------------------------
  // Identifiers

  /** Some entry of `hs` carries `id`. */
  ghost predicate HasId(hs: seq<Hero>, id: int)
  {
    exists i :: 0 <= i < |hs| && hs[i].id == id
  }

  /** No two entries share an id. */
  ghost predicate UniqueIds(hs: seq<Hero>)
  {
    forall i, j :: 0 <= i < j < |hs| ==> hs[i].id != hs[j].id
  }

  /** The ids of a set of heroes. */
  ghost function IdsOf(s: set<Hero>): set<int>
  {
    set h | h in s :: h.id
  }

  lemma IdsOfEmpty()
    ensures IdsOf({}) == {}
  {
  }

  lemma IdsOfAdd(s: set<Hero>, h: Hero)
    ensures IdsOf(s + {h}) == IdsOf(s) + {h.id}
  {
  }

  /** The largest id of a non-empty collection: an id of `hs` that no id exceeds. */
  function MaxId(hs: seq<Hero>): (m: int)
    requires hs != []
    ensures forall i :: 0 <= i < |hs| ==> hs[i].id <= m
    ensures exists i :: 0 <= i < |hs| && hs[i].id == m
  {
    if |hs| == 1 then hs[0].id
    else
      var rest := MaxId(hs[1..]);
      assert forall i :: 1 <= i < |hs| ==> hs[i] == hs[1..][i - 1];
      if hs[0].id >= rest then hs[0].id else rest
  }

  /** The id `addHero` assigns: 1 for an empty collection, otherwise one more
      than the largest id present. In both cases it is larger than every id. */
  function NextId(hs: seq<Hero>): (id: int)
    ensures hs == [] ==> id == 1
    ensures hs != [] ==> exists i :: 0 <= i < |hs| && id == hs[i].id + 1
    ensures forall i :: 0 <= i < |hs| ==> hs[i].id < id
    ensures (forall i :: 0 <= i < |hs| ==> hs[i].id > 0) ==> id > 0
  {
    if |hs| > 0 then MaxId(hs) + 1 else 1
  }

  /** The two id-assignment cases: an empty collection and ids 1 and 2. */
  lemma NextIdExamples(h: Hero)
    ensures NextId([]) == 1
    ensures NextId([h.(id := 1), h.(id := 2)]) == 3
  {
    var hs := [h.(id := 1), h.(id := 2)];
    assert hs[1..] == [h.(id := 2)];
  }

  /** Appending a hero whose id exceeds every id keeps ids unique. */
  lemma AppendFreshKeepsUnique(hs: seq<Hero>, h: Hero)
    requires UniqueIds(hs)
    requires forall i :: 0 <= i < |hs| ==> hs[i].id < h.id
    ensures UniqueIds(hs + [h])
  {
    var r := hs + [h];
    forall i, j | 0 <= i < j < |r| ensures r[i].id != r[j].id {
      if j < |hs| {
        assert r[i] == hs[i] && r[j] == hs[j];
      } else {
        assert r[i] == hs[i] && r[j] == h;
      }
    }
  }

  // ---------------------------------------------------------------------
  // Update: every entry carrying the hero's id becomes the hero, in place

  function Replace(hs: seq<Hero>, hero: Hero): (r: seq<Hero>)
    ensures |r| == |hs|
    ensures forall i :: 0 <= i < |hs| ==> r[i] == if hs[i].id == hero.id then hero else hs[i]
  {
    if hs == [] then []
    else [if hs[0].id == hero.id then hero else hs[0]] + Replace(hs[1..], hero)
  }

  /** Updating keeps every position's id, hence keeps ids unique; with no
      matching id it changes nothing; with a matching id the hero is present. */
  lemma ReplaceProperties(hs: seq<Hero>, hero: Hero)
    ensures forall i :: 0 <= i < |hs| ==> Replace(hs, hero)[i].id == hs[i].id
    ensures UniqueIds(hs) ==> UniqueIds(Replace(hs, hero))
    ensures !HasId(hs, hero.id) ==> Replace(hs, hero) == hs
    ensures HasId(hs, hero.id) <==> hero in Replace(hs, hero)
  {
    var r := Replace(hs, hero);
    if hero in r {
      var k :| 0 <= k < |r| && r[k] == hero;
      assert hs[k].id == hero.id;
    }
  }

  // ---------------------------------------------------------------------
  // Delete: keep, in order, the entries whose id differs

  function Without(hs: seq<Hero>, id: int): (r: seq<Hero>)
    ensures Subsequence(r, hs)
    ensures forall h :: multiset(r)[h] == if h.id == id then 0 else multiset(hs)[h]
    ensures forall h :: h in r <==> h in hs && h.id != id
  {
    if hs == [] then []
    else
      var rest := Without(hs[1..], id);
      assert hs == [hs[0]] + hs[1..];
      if hs[0].id != id then
        assert ([hs[0]] + rest)[1..] == rest;
        [hs[0]] + rest
      else rest
  }

  /** Deleting an id no entry carries changes nothing. */
  lemma {:induction false} WithoutAbsent(hs: seq<Hero>, id: int)
    requires !HasId(hs, id)
    ensures Without(hs, id) == hs
  {
    if hs != [] {
      assert !HasId(hs[1..], id);
      WithoutAbsent(hs[1..], id);
      assert hs[0].id != id;
    }
  }

  /** No entry of the result carries the deleted id. */
  lemma WithoutRemovesId(hs: seq<Hero>, id: int)
    ensures !HasId(Without(hs, id), id)
  {
  }

  /** Deleting twice is deleting once. */
  lemma WithoutIdempotent(hs: seq<Hero>, id: int)
    ensures Without(Without(hs, id), id) == Without(hs, id)
  {
    WithoutRemovesId(hs, id);
    WithoutAbsent(Without(hs, id), id);
  }

  /** Deletes of two ids commute. */
  lemma {:induction false} WithoutCommutes(hs: seq<Hero>, a: int, b: int)
    ensures Without(Without(hs, a), b) == Without(Without(hs, b), a)
  {
    if hs != [] {
      WithoutCommutes(hs[1..], a, b);
    }
  }

  /** A subsequence of a collection with unique ids has unique ids. */
  lemma {:induction false} SubsequenceKeepsUnique(r: seq<Hero>, hs: seq<Hero>)
    requires Subsequence(r, hs) && UniqueIds(hs)
    ensures UniqueIds(r)
    decreases |hs|
  {
    if r != [] {
      assert UniqueIds(hs[1..]) by {
        forall i, j | 0 <= i < j < |hs[1..]| ensures hs[1..][i].id != hs[1..][j].id {
          assert hs[1..][i] == hs[i + 1] && hs[1..][j] == hs[j + 1];
        }
      }
      if r[0] == hs[0] && Subsequence(r[1..], hs[1..]) {
        SubsequenceKeepsUnique(r[1..], hs[1..]);
        SubsequenceMembers(r[1..], hs[1..]);
        forall j | 0 < j < |r| ensures r[0].id != r[j].id {
          assert r[j] == r[1..][j - 1];
          assert r[j] in hs[1..];
          var k :| 0 <= k < |hs[1..]| && hs[1..][k] == r[j];
          assert hs[k + 1] == r[j];
        }
        forall i, j | 0 <= i < j < |r| ensures r[i].id != r[j].id {
          if i > 0 {
            assert r[i] == r[1..][i - 1] && r[j] == r[1..][j - 1];
          }
        }
      } else {
        SubsequenceKeepsUnique(r, hs[1..]);
      }
    }
  }

  /** Deleting keeps ids unique, and leaves no entry with the deleted id. */
  lemma WithoutKeepsUnique(hs: seq<Hero>, id: int)
    requires UniqueIds(hs)
    ensures UniqueIds(Without(hs, id))
    ensures !HasId(Without(hs, id), id)
  {
    SubsequenceKeepsUnique(Without(hs, id), hs);
    WithoutRemovesId(hs, id);
  }

  /** Removing every entry whose id is in `ids`, in one pass. */
  function WithoutIds(hs: seq<Hero>, ids: set<int>): (r: seq<Hero>)
    ensures Subsequence(r, hs)
    ensures forall h :: multiset(r)[h] == if h.id in ids then 0 else multiset(hs)[h]
    ensures forall h :: h in r <==> h in hs && h.id !in ids
  {
    if hs == [] then []
    else
      var rest := WithoutIds(hs[1..], ids);
      assert hs == [hs[0]] + hs[1..];
      if hs[0].id !in ids then
        assert ([hs[0]] + rest)[1..] == rest;
        [hs[0]] + rest
      else rest
  }

  lemma {:induction false} WithoutIdsEmpty(hs: seq<Hero>)
    ensures WithoutIds(hs, {}) == hs
  {
    if hs != [] {
      WithoutIdsEmpty(hs[1..]);
    }
  }

  /** One more delete extends the set of removed ids; so the deletes of a
      bulk delete may run in any order. */
  lemma {:induction false} WithoutIdsStep(hs: seq<Hero>, ids: set<int>, id: int)
    ensures Without(WithoutIds(hs, ids), id) == WithoutIds(hs, ids + {id})
  {
    if hs != [] {
      WithoutIdsStep(hs[1..], ids, id);
    }
  }

  // ---------------------------------------------------------------------
  // Search

  /** A hero matches a term when the lower-cased term occurs in the
      lower-cased name, alter ego, power or universe. */
  predicate Matches(h: Hero, term: string)
    ensures Matches(h, term) <==>
      || Occurs(LowerStr(h.name), LowerStr(term))
      || Occurs(LowerStr(h.alterEgo), LowerStr(term))
      || Occurs(LowerStr(h.power), LowerStr(term))
      || Occurs(LowerStr(h.universe), LowerStr(term))
    ensures term == "" ==> Matches(h, term)
  {
    var t := LowerStr(term);
    IncludesEmpty(LowerStr(h.name));
    Includes(LowerStr(h.name), t) || Includes(LowerStr(h.alterEgo), t) ||
    Includes(LowerStr(h.power), t) || Includes(LowerStr(h.universe), t)
  }

  /** The entries of `hs` that match `term`, in their order. */
  function Search(hs: seq<Hero>, term: string): (r: seq<Hero>)
    ensures Subsequence(r, hs)
    ensures forall h :: multiset(r)[h] == if Matches(h, term) then multiset(hs)[h] else 0
    ensures forall h :: h in r <==> h in hs && Matches(h, term)
  {
    if hs == [] then []
    else
      var rest := Search(hs[1..], term);
      assert hs == [hs[0]] + hs[1..];
      if Matches(hs[0], term) then
        assert ([hs[0]] + rest)[1..] == rest;
        [hs[0]] + rest
      else rest
  }

  /** The empty term is contained in every field, so it selects everything. */
  lemma {:induction false} SearchEmptyTerm(hs: seq<Hero>)
    ensures Search(hs, "") == hs
  {
    if hs != [] {
      IncludesEmpty(LowerStr(hs[0].name));
      SearchEmptyTerm(hs[1..]);
    }
  }

  /** The search ignores the case of the term. */
  lemma {:induction false} SearchIgnoresTermCase(hs: seq<Hero>, t1: string, t2: string)
    requires LowerStr(t1) == LowerStr(t2)
    ensures Search(hs, t1) == Search(hs, t2)
  {
    if hs != [] {
      SearchIgnoresTermCase(hs[1..], t1, t2);
    }
  }

  /** Searching with a term and with its lower-cased form agree. */
  lemma SearchLowerTerm(hs: seq<Hero>, term: string)
    ensures Search(hs, LowerStr(term)) == Search(hs, term)
  {
    LowerStrIdempotent(term);
    SearchIgnoresTermCase(hs, LowerStr(term), term);
  }

  // ---------------------------------------------------------------------
  // The store

  class HeroService {
    /** The current value of the published collection. */
    var heroes: seq<Hero>

    /** The collection starts as the seed the initial load delivers (empty
        when that load fails). */
    constructor (initial: seq<Hero>)
      ensures heroes == initial
    {
      heroes := initial;
    }

    /** Assigns the next id (ignoring the caller's) and appends the hero. */
    method AddHero(hero: Hero) returns (added: Hero)
      modifies this
      ensures added == hero.(id := NextId(old(heroes)))
      ensures heroes == old(heroes) + [added]
      ensures forall i :: 0 <= i < |old(heroes)| ==> old(heroes)[i].id < added.id
      ensures UniqueIds(old(heroes)) ==> UniqueIds(heroes)
    {
      added := hero.(id := NextId(heroes));
      if UniqueIds(heroes) {
        AppendFreshKeepsUnique(heroes, added);
      }
      heroes := heroes + [added];
    }

    /** Replaces every entry carrying `hero.id` by `hero`. */
    method UpdateHero(hero: Hero)
      modifies this
      ensures heroes == Replace(old(heroes), hero)
      ensures UniqueIds(old(heroes)) ==> UniqueIds(heroes)
      ensures !HasId(old(heroes), hero.id) ==> heroes == old(heroes)
    {
      ReplaceProperties(heroes, hero);
      heroes := Replace(heroes, hero);
    }

    /** Removes every entry carrying `id` (see `WithoutAbsent`,
        `WithoutKeepsUnique`, `WithoutIdempotent` and `WithoutCommutes`). */
    method DeleteHero(id: int)
      modifies this
      ensures heroes == Without(old(heroes), id)
    {
      heroes := Without(heroes, id);
    }

    /** The heroes matching `term`, in collection order; the collection is
        left as it is. */
    method SearchHeroes(term: string) returns (found: seq<Hero>)
      ensures found == Search(heroes, term)
      ensures term == "" ==> found == heroes
    {
      if term == "" {
        SearchEmptyTerm(heroes);
      }
      found := Search(heroes, term);
    }
  }
}
