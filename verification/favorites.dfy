/** `FavoritesManager`: the favourite hymn numbers of the current hymnal,
    saved under a key that names the hymnal's language. */
module Favorites {
  import opened Wrappers
  import opened Seqs
  import opened Languages
  import opened Defaults

  /** The manager's set, the current language and the defaults it saves to. */
  datatype Manager = Manager(favorites: set<int>, language: HymnalLanguage, store: Store)

  function FavoritesKey(l: HymnalLanguage): string {
    "favorites_" + Id(l)
  }

  /** Each hymnal has its own key. */
  lemma FavoritesKeyInjective(a: HymnalLanguage, b: HymnalLanguage)
    requires FavoritesKey(a) == FavoritesKey(b)
    ensures a == b
  {
    assert FavoritesKey(a)[10..] == Id(a);
    assert FavoritesKey(b)[10..] == Id(b);
    GetLanguageOfId(a);
    GetLanguageOfId(b);
  }

  /** `loadFavorites`: the set is emptied first, then replaced by the saved
      one if there is one; the old set never survives. */
  function LoadFavorites(m: Manager): (r: Manager)
    ensures r.store == m.store && r.language == m.language
    ensures IntSetAt(m.store, FavoritesKey(m.language)).Some? ==>
              r.favorites == IntSetAt(m.store, FavoritesKey(m.language)).value
    ensures IntSetAt(m.store, FavoritesKey(m.language)).None? ==> r.favorites == {}
  {
    m.(favorites := IntSetAt(m.store, FavoritesKey(m.language)).GetOr({}))
  }

  /** Loading does not merge: what was held before makes no difference. */
  lemma LoadReplaces(m: Manager, before: set<int>)
    ensures LoadFavorites(m.(favorites := before)) == LoadFavorites(m)
  {
  }

  /** `toggleFavorite`: flips `n`, leaves every other number alone, saves. */
  function Toggle(m: Manager, n: int): (r: Manager)
    ensures n in r.favorites <==> n !in m.favorites
    ensures forall k :: k != n ==> (k in r.favorites <==> k in m.favorites)
    ensures r.language == m.language
    ensures IntSetAt(r.store, FavoritesKey(m.language)) == Some(r.favorites)
    ensures SameElsewhere(m.store, r.store, FavoritesKey(m.language))
  {
    var favorites := if n in m.favorites then m.favorites - {n} else m.favorites + {n};
    Manager(favorites, m.language, m.store[FavoritesKey(m.language) := IntSet(favorites)])
  }

  /** Toggling twice gives back the set. */
  lemma ToggleTwice(m: Manager, n: int)
    ensures Toggle(Toggle(m, n), n).favorites == m.favorites
  {
  }

  /** What a toggle saves is what the next load reads back. */
  lemma ToggleThenLoad(m: Manager, n: int)
    ensures LoadFavorites(Toggle(m, n)) == Toggle(m, n)
  {
  }

  /** `isFavorite`. */
  predicate IsFavorite(m: Manager, n: int) {
    n in m.favorites
  }

  /** `clearFavorites`: the set is emptied and the key removed. */
  function Clear(m: Manager): (r: Manager)
    ensures r.favorites == {} && r.language == m.language
    ensures FavoritesKey(m.language) !in r.store
    ensures SameElsewhere(m.store, r.store, FavoritesKey(m.language))
  {
    Manager({}, m.language, m.store - {FavoritesKey(m.language)})
  }

  /** After a clear, a reload finds nothing. */
  lemma ClearThenLoad(m: Manager)
    ensures LoadFavorites(Clear(m)).favorites == {}
    ensures forall n :: !IsFavorite(LoadFavorites(Clear(m)), n)
  {
  }

  /** The hymns tab lists the favourites in ascending order. */
  function FavoritesInOrder(m: Manager): (r: seq<int>)
    ensures forall n :: n in r <==> IsFavorite(m, n)
    ensures forall i, j :: 0 <= i < j < |r| ==> r[i] < r[j]
  {
    SortedSetSpec(m.favorites);
    SortedSet(m.favorites)
  }
}
