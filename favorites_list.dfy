/** The list updaters of the client's favorites store
    (frontend/src/context/MovieContext.js): movies compared by id with `===`. */
module FavoritesList {
  import opened JsValues
  import opened Lists
  import opened Movies

  /** `favorites.some(fav => fav.id === id)`. */
  predicate HasId(favorites: seq<Movie>, id: JsId) {
    exists i :: 0 <= i < |favorites| && StrictEquals(favorites[i].id, id)
  }

  /** No two favorites share an id. */
  predicate DistinctIds(favorites: seq<Movie>) {
    forall i, j :: 0 <= i < j < |favorites| ==> favorites[i].id != favorites[j].id
  }

  /** The updater `addFavorite` passes to `setFavorites`. */
  function AddIfAbsent(favorites: seq<Movie>, movie: Movie): seq<Movie> {
    if HasId(favorites, movie.id) then favorites else favorites + [movie]
  }

  /** `fav => fav.id !== id`. */
  function OtherThan(id: JsId): Movie -> bool {
    (fav: Movie) => !StrictEquals(fav.id, id)
  }

  /** The updater `removeFavorite` passes to `setFavorites`. */
  function RemoveId(favorites: seq<Movie>, id: JsId): seq<Movie> {
    Filter(OtherThan(id), favorites)
  }

  /** Adding appends the movie at the end exactly when no favorite has its
      id; afterwards some favorite has it. */
  lemma AddAppendsIffAbsent(favorites: seq<Movie>, movie: Movie)
    ensures AddIfAbsent(favorites, movie) == favorites + [movie] <==> !HasId(favorites, movie.id)
    ensures AddIfAbsent(favorites, movie) == favorites <==> HasId(favorites, movie.id)
    ensures HasId(AddIfAbsent(favorites, movie), movie.id)
  {
    if !HasId(favorites, movie.id) {
      var r := favorites + [movie];
      assert StrictEquals(r[|favorites|].id, movie.id);
      assert |r| != |favorites|;
    } else {
      assert |favorites| != |favorites + [movie]|;
    }
  }

  /** Adding the same movie twice is adding it once. */
  lemma AddIdempotent(favorites: seq<Movie>, movie: Movie)
    ensures AddIfAbsent(AddIfAbsent(favorites, movie), movie) == AddIfAbsent(favorites, movie)
  {
    AddAppendsIffAbsent(favorites, movie);
  }

  /** Adding keeps the ids distinct. */
  lemma AddKeepsDistinct(favorites: seq<Movie>, movie: Movie)
    requires DistinctIds(favorites)
    ensures DistinctIds(AddIfAbsent(favorites, movie))
  {
    if !HasId(favorites, movie.id) {
      var r := favorites + [movie];
      forall i, j | 0 <= i < j < |r| ensures r[i].id != r[j].id {
        if j == |favorites| {
          assert !StrictEquals(favorites[i].id, movie.id);
        }
      }
    }
  }

  /** Removing drops exactly the favorites whose id is `===` the argument
      and keeps the others, as often as they occurred. */
  lemma RemoveDropsExactly(favorites: seq<Movie>, id: JsId, m: Movie)
    ensures m in RemoveId(favorites, id) <==> m in favorites && m.id != id
    ensures multiset(RemoveId(favorites, id))[m] == if m.id == id then 0 else multiset(favorites)[m]
    ensures !HasId(RemoveId(favorites, id), id)
  {
    FilterMembership(OtherThan(id), favorites, m);
    FilterMultiset(OtherThan(id), favorites, m);
  }

  /** Removing keeps the remaining favorites in their order: it works piece
      by piece over any split of the list. */
  lemma RemoveKeepsOrder(front: seq<Movie>, back: seq<Movie>, id: JsId)
    ensures RemoveId(front + back, id) == RemoveId(front, id) + RemoveId(back, id)
  {
    FilterConcat(OtherThan(id), front, back);
  }

  /** Removing an id no favorite has changes nothing. */
  lemma RemoveAbsentIsNoOp(favorites: seq<Movie>, id: JsId)
    requires !HasId(favorites, id)
    ensures RemoveId(favorites, id) == favorites
  {
    forall i | 0 <= i < |favorites| ensures OtherThan(id)(favorites[i]) {
      assert !StrictEquals(favorites[i].id, id);
    }
    FilterKeepsAll(OtherThan(id), favorites);
  }

  /** Removing keeps the ids distinct. */
  lemma {:induction false} RemoveKeepsDistinct(favorites: seq<Movie>, id: JsId)
    requires DistinctIds(favorites)
    ensures DistinctIds(RemoveId(favorites, id))
  {
    if favorites != [] {
      var rest := favorites[1..];
      RemoveKeepsDistinct(rest, id);
      var r := RemoveId(favorites, id);
      if OtherThan(id)(favorites[0]) {
        assert r == [favorites[0]] + RemoveId(rest, id);
        forall j | 0 < j < |r| ensures r[0].id != r[j].id {
          assert r[j] in RemoveId(rest, id);
          FilterMembership(OtherThan(id), rest, r[j]);
        }
      }
    }
  }

  /** Adding a new movie and then removing its id gives the list back. */
  lemma RemoveUndoesAdd(favorites: seq<Movie>, movie: Movie)
    requires !HasId(favorites, movie.id)
    ensures RemoveId(AddIfAbsent(favorites, movie), movie.id) == favorites
  {
    RemoveKeepsOrder(favorites, [movie], movie.id);
    RemoveAbsentIsNoOp(favorites, movie.id);
    assert [movie][1..] == [];
  }
}
