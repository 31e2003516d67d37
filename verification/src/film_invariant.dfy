/** What the film service keeps true of the film store, and how its genre
    edits compose. */
module FilmInvariant {
  import opened Results
  import opened Constants
  import opened FilmModel
  import opened GenreSet
  import FS = InMemoryFilmStorage
  import FilmService

  /** A film as enrichment leaves it: a non-null, id-ordered set of catalog
      genres. */
  predicate GenresCanonical(f: Film) {
    f.genres.Some? && StrictlyAscending(f.genres.value) && FromCatalog(f.genres.value)
  }

  /** A store reached through the film service alone. */
  ghost predicate ServiceState(fs: FS.Store) {
    FS.Valid(fs) && forall k :: k in fs.items ==> GenresCanonical(fs.items[k])
  }

  lemma EmptyIsServiceState()
    ensures ServiceState(FS.Empty())
  {
  }

  lemma CreateKeepsServiceState(fs: FS.Store, film: Film)
    requires ServiceState(fs)
    requires FilmService.Create(fs, film).Ok?
    ensures ServiceState(FilmService.Create(fs, film).value.0)
  {
  }

  lemma UpdateKeepsServiceState(fs: FS.Store, film: Film)
    requires ServiceState(fs)
    requires FilmService.Update(fs, film).Ok?
    ensures ServiceState(FilmService.Update(fs, film).value.0)
  {
  }

  lemma AddGenreKeepsServiceState(fs: FS.Store, filmId: int, genreId: int)
    requires ServiceState(fs)
    requires FilmService.AddGenreToFilm(fs, filmId, genreId).Ok?
    ensures ServiceState(FilmService.AddGenreToFilm(fs, filmId, genreId).value)
  {
    var g := GenreById(genreId).value;
    InsertKeepsOrder(fs.items[filmId].genres.value, g);
    InsertFromCatalog(fs.items[filmId].genres.value, g);
  }

  lemma RemoveGenreKeepsServiceState(fs: FS.Store, filmId: int, genreId: int)
    requires ServiceState(fs)
    requires FilmService.RemoveGenreFromFilm(fs, filmId, genreId).Ok?
    ensures ServiceState(FilmService.RemoveGenreFromFilm(fs, filmId, genreId).value)
  {
    RemoveIdKeepsOrder(fs.items[filmId].genres.value, genreId);
  }

  /** On a service-built store the genre edits never meet a null genre set:
      they fail only for a missing film or, when adding, an unknown genre. */
  lemma GenreEditsNeverHitNull(fs: FS.Store, filmId: int, genreId: int)
    requires ServiceState(fs)
    ensures FilmService.AddGenreToFilm(fs, filmId, genreId).Err? <==> filmId !in fs.items || !(1 <= genreId <= 6)
    ensures FilmService.AddGenreToFilm(fs, filmId, genreId).Err? ==>
      FilmService.AddGenreToFilm(fs, filmId, genreId).error != NullReference
    ensures FilmService.RemoveGenreFromFilm(fs, filmId, genreId).Err? <==> filmId !in fs.items
  {
  }

  /** Adding a genre twice is adding it once. */
  lemma AddGenreIdempotent(fs: FS.Store, filmId: int, genreId: int)
    requires ServiceState(fs)
    requires FilmService.AddGenreToFilm(fs, filmId, genreId).Ok?
    ensures var once := FilmService.AddGenreToFilm(fs, filmId, genreId).value;
      FilmService.AddGenreToFilm(once, filmId, genreId) == Ok(once)
  {
    var once := FilmService.AddGenreToFilm(fs, filmId, genreId).value;
    var g := GenreById(genreId).value;
    var s := Insert(fs.items[filmId].genres.value, g);
    InsertKeepsOrder(fs.items[filmId].genres.value, g);
    InsertContents(s, g);
    assert once.items[filmId].genres == Some(s);
    assert once.items[filmId] == once.items[filmId].(genres := Some(Insert(s, g)));
    assert FS.Update(once, once.items[filmId]).0.items == once.items;
  }

  /** Removing a genre that was just added, under an id the film did not
      have, restores the store. */
  lemma AddThenRemoveGenre(fs: FS.Store, filmId: int, genreId: int)
    requires ServiceState(fs)
    requires FilmService.AddGenreToFilm(fs, filmId, genreId).Ok?
    requires genreId !in Ids(fs.items[filmId].genres.value)
    ensures var added := FilmService.AddGenreToFilm(fs, filmId, genreId).value;
      FilmService.RemoveGenreFromFilm(added, filmId, genreId) == Ok(fs)
  {
    var film := fs.items[filmId];
    var s := film.genres.value;
    var g := GenreById(genreId).value;
    var added := FS.Update(fs, film.(genres := Some(Insert(s, g)))).0;
    assert FilmService.AddGenreToFilm(fs, filmId, genreId) == Ok(added);
    RemoveUndoesInsert(s, g);
    var edited := added.items[filmId];
    assert edited.(genres := Some(RemoveId(edited.genres.value, genreId))) == film;
    RestoreFilm(fs, added, filmId);
  }

  /** Putting a store's own film back over an edit of it gives the store. */
  lemma RestoreFilm(fs: FS.Store, edited: FS.Store, filmId: int)
    requires FS.Valid(fs) && filmId in fs.items
    requires edited.nextId == fs.nextId && edited.items.Keys == fs.items.Keys
    requires forall k :: k in fs.items && k != filmId ==> edited.items[k] == fs.items[k]
    ensures FS.Update(edited, fs.items[filmId]).0 == fs
  {
    assert FS.Update(edited, fs.items[filmId]).0.items == fs.items;
  }

  /** Adding back a genre the film had, after removing it, restores the
      store: the id-ordered set of catalog records is determined by its ids. */
  lemma RemoveThenAddGenre(fs: FS.Store, filmId: int, genreId: int)
    requires ServiceState(fs)
    requires filmId in fs.items && genreId in Ids(fs.items[filmId].genres.value)
    ensures FilmService.RemoveGenreFromFilm(fs, filmId, genreId).Ok?
    ensures var removed := FilmService.RemoveGenreFromFilm(fs, filmId, genreId).value;
      FilmService.AddGenreToFilm(removed, filmId, genreId) == Ok(fs)
  {
    var film := fs.items[filmId];
    var s := film.genres.value;
    var t := RemoveId(s, genreId);
    assert 1 <= genreId <= 6 by {
      var x :| x in s && x.id == genreId;
      GenreCatalogIds();
    }
    var g := GenreById(genreId).value;
    var removed := FS.Update(fs, film.(genres := Some(t))).0;
    assert FilmService.RemoveGenreFromFilm(fs, filmId, genreId) == Ok(removed);
    RemoveIdContents(s, genreId);
    RemoveIdKeepsOrder(s, genreId);
    InsertKeepsOrder(t, g);
    InsertFromCatalog(t, g);
    CanonicalById(Insert(t, g), s);
    var edited := removed.items[filmId];
    assert edited.(genres := Some(Insert(edited.genres.value, g))) == film;
    RestoreFilm(fs, removed, filmId);
  }
}
