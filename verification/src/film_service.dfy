/** FilmService over the in-memory stores: catalog validation, enrichment of
    a film's rating and genres, the like guard and the genre edits. */
module FilmService {
  import opened Results
  import opened Constants
  import opened FilmModel
  import opened GenreSet
  import FS = InMemoryFilmStorage
  import US = InMemoryUserStorage

  /** A null rating, or one whose id the catalog knows. */
  predicate MpaKnown(mpa: Option<Mpa>) {
    mpa.None? || 1 <= mpa.value.id <= 5
  }

  /** A null genre set, or one whose every id the catalog knows. */
  predicate GenresKnown(genres: Option<seq<Genre>>) {
    genres.None? || forall i :: 0 <= i < |genres.value| ==> 1 <= genres.value[i].id <= 6
  }

  /** validateMpa: a non-null rating must be found by id; the missing row is
      caught and rethrown as NotFound. */
  function ValidateMpa(mpa: Option<Mpa>): (r: Outcome)
    ensures r.Pass? <==> MpaKnown(mpa)
    ensures r.Fail? ==> r.error == NotFound
  {
    if mpa.None? then Pass
    else match MpaById(mpa.value.id)
      case Ok(_) => Pass
      case Err(_) => Fail(NotFound)
  }

  /** The loop of validateGenre: the first unknown id's missing row is
      caught and rethrown as NotFound. */
  function ValidateGenreSeq(gs: seq<Genre>): (r: Outcome)
    ensures r.Pass? <==> forall i :: 0 <= i < |gs| ==> 1 <= gs[i].id <= 6
    ensures r.Fail? ==> r.error == NotFound
  {
    if |gs| == 0 then Pass
    else match GenreById(gs[0].id)
      case Err(_) => Fail(NotFound)
      case Ok(_) => ValidateGenreSeq(gs[1..])
  }

  /** validateGenre: a null set passes; otherwise every genre is looked up. */
  function ValidateGenres(genres: Option<seq<Genre>>): (r: Outcome)
    ensures r.Pass? <==> GenresKnown(genres)
    ensures r.Fail? ==> r.error == NotFound
  {
    if genres.None? then Pass else ValidateGenreSeq(genres.value)
  }

  /** The rating step of enrichment: a non-null rating is replaced by the
      full catalog record with the same id. */
  function ResolveMpa(mpa: Option<Mpa>): (r: Result<Option<Mpa>>)
    ensures r.Ok? <==> MpaKnown(mpa)
    ensures r.Ok? ==> (r.value.Some? <==> mpa.Some?)
    ensures r.Ok? && mpa.Some? ==> r.value.value in DefaultMpaRatings && r.value.value.id == mpa.value.id
    ensures r.Err? ==> r.error == NoRow
  {
    if mpa.None? then Ok(None)
    else
      var m :- MpaById(mpa.value.id);
      Ok(Some(m))
  }

  /** The lookup half of the genre stream: each genre replaced by its
      catalog record, in order; the first unknown id has no row. */
  function LookupGenres(gs: seq<Genre>): (r: Result<seq<Genre>>)
    ensures r.Ok? <==> forall i :: 0 <= i < |gs| ==> 1 <= gs[i].id <= 6
    ensures r.Err? ==> r.error == NoRow
  {
    if |gs| == 0 then Ok([])
    else
      var g :- GenreById(gs[0].id);
      var tail :- LookupGenres(gs[1..]);
      Ok([g] + tail)
  }

  /** Each looked-up record is the catalog's record for the genre at the same
      position. */
  lemma {:induction false} LookupGenresPositions(gs: seq<Genre>)
    requires LookupGenres(gs).Ok?
    ensures |LookupGenres(gs).value| == |gs|
    ensures forall i :: 0 <= i < |gs| ==> GenreById(gs[i].id) == Ok(LookupGenres(gs).value[i])
  {
    if |gs| > 0 {
      LookupGenresPositions(gs[1..]);
      assert forall i :: 1 <= i < |gs| ==> gs[i] == gs[1..][i - 1];
    }
  }

  /** The collecting half: the records added one by one to the TreeSet. */
  function InsertAll(acc: seq<Genre>, gs: seq<Genre>): seq<Genre>
    decreases |gs|
  {
    if |gs| == 0 then acc else InsertAll(Insert(acc, gs[0]), gs[1..])
  }

  /** Adding records one by one keeps an id-ordered set id-ordered. */
  lemma {:induction false} InsertAllOrder(acc: seq<Genre>, gs: seq<Genre>)
    requires StrictlyAscending(acc)
    ensures StrictlyAscending(InsertAll(acc, gs))
    decreases |gs|
  {
    if |gs| > 0 {
      InsertKeepsOrder(acc, gs[0]);
      InsertAllOrder(Insert(acc, gs[0]), gs[1..]);
    }
  }

  /** Adding catalog records to catalog records gives catalog records. */
  lemma {:induction false} InsertAllFromCatalog(acc: seq<Genre>, gs: seq<Genre>)
    requires FromCatalog(acc) && FromCatalog(gs)
    ensures FromCatalog(InsertAll(acc, gs))
    decreases |gs|
  {
    if |gs| > 0 {
      assert gs[0] in gs;
      InsertFromCatalog(acc, gs[0]);
      assert FromCatalog(gs[1..]) by { assert forall g :: g in gs[1..] ==> g in gs; }
      InsertAllFromCatalog(Insert(acc, gs[0]), gs[1..]);
    }
  }

  /** The set ends up with the ids it had and the ids of the records added. */
  lemma {:induction false} InsertAllIds(acc: seq<Genre>, gs: seq<Genre>)
    ensures Ids(InsertAll(acc, gs)) == Ids(acc) + Ids(gs)
    decreases |gs|
  {
    if |gs| > 0 {
      var next := Insert(acc, gs[0]);
      assert InsertAll(acc, gs) == InsertAll(next, gs[1..]);
      InsertAllIds(next, gs[1..]);
      IdsHeadTail(gs);
    }
  }

  /** The stream of catalog lookups collected into an empty id-ordered
      TreeSet. A failed lookup discards the partial set, so looking every id
      up before adding any gives the same result as interleaving them. */
  function CollectGenres(input: seq<Genre>): (r: Result<seq<Genre>>)
    ensures r.Ok? <==> forall i :: 0 <= i < |input| ==> 1 <= input[i].id <= 6
    ensures r.Ok? ==> StrictlyAscending(r.value) && FromCatalog(r.value) && Ids(r.value) == Ids(input)
    ensures r.Err? ==> r.error == NoRow
  {
    var records :- LookupGenres(input);
    LookupGenresPositions(input);
    LookupIds(input, records);
    InsertAllOrder([], records);
    InsertAllFromCatalog([], records);
    InsertAllIds([], records);
    Ok(InsertAll([], records))
  }

  /** Records looked up position by position carry the input's ids. */
  lemma LookupIds(input: seq<Genre>, records: seq<Genre>)
    requires |records| == |input|
    requires forall i :: 0 <= i < |input| ==> GenreById(input[i].id) == Ok(records[i])
    ensures FromCatalog(records)
    ensures Ids(records) == Ids(input)
  {
    forall x | x in Ids(input) ensures x in Ids(records) {
      var i :| 0 <= i < |input| && input[i].id == x;
      assert records[i] in records;
    }
  }

  /** Reference definition of the collected set: the catalog records whose
      ids were asked for, in catalog order. */
  function CatalogFilter(cat: seq<Genre>, ids: set<int>): seq<Genre> {
    if |cat| == 0 then []
    else (if cat[0].id in ids then [cat[0]] else []) + CatalogFilter(cat[1..], ids)
  }

  /** Filtering keeps only catalog records. */
  lemma {:induction false} CatalogFilterSubset(cat: seq<Genre>, ids: set<int>)
    ensures forall g :: g in CatalogFilter(cat, ids) ==> g in cat
  {
    if |cat| > 0 {
      CatalogFilterSubset(cat[1..], ids);
      assert forall g :: g in cat[1..] ==> g in cat;
    }
  }

  /** Filtering an id-ordered catalog keeps its order. */
  lemma {:induction false} CatalogFilterOrder(cat: seq<Genre>, ids: set<int>)
    requires StrictlyAscending(cat)
    ensures StrictlyAscending(CatalogFilter(cat, ids))
  {
    if |cat| > 0 {
      var rest := CatalogFilter(cat[1..], ids);
      CatalogFilterOrder(cat[1..], ids);
      if cat[0].id in ids {
        CatalogFilterSubset(cat[1..], ids);
        forall x | x in rest ensures cat[0].id < x.id {
          var j :| 0 <= j < |cat| - 1 && cat[1..][j] == x;
          assert cat[j + 1] == x;
        }
        PrependKeepsOrder(cat[0], rest);
      }
    }
  }

  /** Filtering keeps exactly the requested ids the catalog has. */
  lemma {:induction false} CatalogFilterIds(cat: seq<Genre>, ids: set<int>)
    ensures Ids(CatalogFilter(cat, ids)) == Ids(cat) * ids
  {
    if |cat| > 0 {
      CatalogFilterIds(cat[1..], ids);
      IdsHeadTail(cat);
      var head := if cat[0].id in ids then [cat[0]] else [];
      var tail := CatalogFilter(cat[1..], ids);
      assert Ids(head) == {cat[0].id} * ids;
      IdsConcat(head, tail);
    }
  }

  /** The genre ids are 1..6 in ascending order. */
  lemma CatalogOrdered()
    ensures StrictlyAscending(DefaultGenres)
    ensures forall id :: 1 <= id <= 6 ==> id in Ids(DefaultGenres)
  {
    GenreCatalogIds();
    forall id | 1 <= id <= 6 ensures id in Ids(DefaultGenres) {
      assert DefaultGenres[id - 1] in DefaultGenres;
    }
  }

  /** Enrichment agrees with the reference: the collected genres are the
      catalog's records for the input's ids, in catalog order, however the
      input was ordered and however often an id repeats. */
  lemma CollectGenresIsCatalogFilter(input: seq<Genre>)
    requires CollectGenres(input).Ok?
    ensures CollectGenres(input).value == CatalogFilter(DefaultGenres, Ids(input))
  {
    var r := CollectGenres(input).value;
    var f := CatalogFilter(DefaultGenres, Ids(input));
    CatalogOrdered();
    CatalogFilterSubset(DefaultGenres, Ids(input));
    CatalogFilterOrder(DefaultGenres, Ids(input));
    CatalogFilterIds(DefaultGenres, Ids(input));
    forall x | x in Ids(input) ensures x in Ids(DefaultGenres) {
      var i :| 0 <= i < |input| && input[i].id == x;
    }
    assert Ids(f) == Ids(input);
    CanonicalById(r, f);
  }

  /** Two inputs with the same genre ids enrich to the same genre set. */
  lemma CollectGenresIgnoresOrder(a: seq<Genre>, b: seq<Genre>)
    requires CollectGenres(a).Ok? && CollectGenres(b).Ok?
    requires Ids(a) == Ids(b)
    ensures CollectGenres(a) == CollectGenres(b)
  {
    CanonicalById(CollectGenres(a).value, CollectGenres(b).value);
  }

  /** The genre step of enrichment: a null or empty set becomes an empty
      TreeSet, any other is collected from the catalog. */
  function ResolveGenres(genres: Option<seq<Genre>>): (r: Result<seq<Genre>>)
    ensures r.Ok? <==> GenresKnown(genres)
    ensures r.Ok? ==> StrictlyAscending(r.value) && FromCatalog(r.value)
    ensures r.Ok? ==> Ids(r.value) == (if genres.None? then {} else Ids(genres.value))
    ensures r.Err? ==> r.error == NoRow
  {
    if genres.None? || |genres.value| == 0 then Ok([])
    else CollectGenres(genres.value)
  }

  /** What enrichment promises about the film it hands to the store: every
      field but the rating and genres is the input's; the rating is the
      catalog record of the input's rating id, or stays null; the genres are
      never null afterwards and hold the catalog records of exactly the
      input's genre ids, in id order. */
  predicate EnrichedFrom(f: Film, film: Film) {
    && f.(mpa := film.mpa, genres := film.genres) == film
    && (f.mpa.Some? <==> film.mpa.Some?)
    && (film.mpa.Some? ==> f.mpa.value in DefaultMpaRatings && f.mpa.value.id == film.mpa.value.id)
    && f.genres.Some? && StrictlyAscending(f.genres.value) && FromCatalog(f.genres.value)
    && Ids(f.genres.value) == (if film.genres.None? then {} else Ids(film.genres.value))
  }

  /** The enrichment block shared by create and update. */
  function Enrich(film: Film): (r: Result<Film>)
    ensures r.Ok? <==> MpaKnown(film.mpa) && GenresKnown(film.genres)
    ensures r.Ok? ==> EnrichedFrom(r.value, film)
    ensures r.Err? ==> r.error == NoRow
  {
    var mpa :- ResolveMpa(film.mpa);
    var genres :- ResolveGenres(film.genres);
    Ok(film.(mpa := mpa, genres := Some(genres)))
  }

  /** create: validate the rating, then the genres, enrich, and store under
      a fresh id. Any unknown catalog id is NotFound and nothing is stored.
      Once both validations pass, enrichment cannot meet a missing row, so
      the catch around it is never reached. */
  function Create(fs: FS.Store, film: Film): (r: Result<(FS.Store, Film)>)
    ensures r.Ok? <==> MpaKnown(film.mpa) && GenresKnown(film.genres)
    ensures r.Err? ==> r.error == NotFound
    ensures r.Ok? ==> r.value.1.id == fs.nextId && EnrichedFrom(r.value.1.(id := film.id), film)
    ensures r.Ok? ==> r.value.0.items.Keys == fs.items.Keys + {fs.nextId}
                      && r.value.0.items[fs.nextId] == r.value.1
                      && r.value.0.nextId == fs.nextId + 1
    ensures r.Ok? ==> forall k :: k in fs.items && k != fs.nextId ==> r.value.0.items[k] == fs.items[k]
    ensures r.Ok? && FS.Valid(fs) ==> FS.Valid(r.value.0)
  {
    var mpaCheck := ValidateMpa(film.mpa);
    var genreCheck := ValidateGenres(film.genres);
    if mpaCheck.Fail? then Err(mpaCheck.error)
    else if genreCheck.Fail? then Err(genreCheck.error)
    else Ok(FS.Create(fs, Enrich(film).value))
  }

  /** update: validate the rating and genres, require the film to exist,
      enrich, and overwrite the stored film (its likes included) with the
      enriched input. Its try block wraps only the existence lookup; the
      enrichment lookups after it are outside any try, but once both
      validations pass they cannot meet a missing row. */
  function Update(fs: FS.Store, film: Film): (r: Result<(FS.Store, Film)>)
    ensures r.Ok? <==> MpaKnown(film.mpa) && GenresKnown(film.genres) && film.id in fs.items
    ensures r.Err? ==> r.error == NotFound
    ensures r.Ok? ==> r.value.1.id == film.id && EnrichedFrom(r.value.1, film)
    ensures r.Ok? ==> r.value.0.items.Keys == fs.items.Keys
                      && r.value.0.items[film.id] == r.value.1
                      && r.value.0.nextId == fs.nextId
    ensures r.Ok? ==> forall k :: k in fs.items && k != film.id ==> r.value.0.items[k] == fs.items[k]
    ensures r.Ok? && FS.Valid(fs) ==> FS.Valid(r.value.0)
  {
    var mpaCheck := ValidateMpa(film.mpa);
    var genreCheck := ValidateGenres(film.genres);
    if mpaCheck.Fail? then Err(mpaCheck.error)
    else if genreCheck.Fail? then Err(genreCheck.error)
    else if FS.GetById(fs, film.id).Err? then Err(NotFound)
    else Ok(FS.Update(fs, Enrich(film).value))
  }

  /** The guard of addLike and removeLike: both the film and the user must
      exist, otherwise NotFound. */
  function LikeGuard(fs: FS.Store, us: US.Store, filmId: int, userId: int): (r: Outcome)
    ensures r.Pass? <==> filmId in fs.items && userId in us.items
    ensures r.Fail? ==> r.error == NotFound
  {
    match FS.GetById(fs, filmId)
    case Err(e) => Fail(e)
    case Ok(_) =>
      match US.GetById(us, userId)
      case Err(e) => Fail(e)
      case Ok(_) => Pass
  }

  /** addGenreToFilm: the film must exist (NotFound); the genre lookup runs
      outside any try, so an id outside the catalog escapes as the missing
      row itself (NoRow); the film's genre set must not be null
      (NullReference); the catalog record is added to the set. */
  function AddGenreToFilm(fs: FS.Store, filmId: int, genreId: int): (r: Result<FS.Store>)
    ensures r.Err? <==> filmId !in fs.items || !(1 <= genreId <= 6) || fs.items[filmId].genres.None?
    ensures filmId !in fs.items ==> r == Err(NotFound)
    ensures filmId in fs.items && !(1 <= genreId <= 6) ==> r == Err(NoRow)
    ensures r.Err? && filmId in fs.items && 1 <= genreId <= 6 ==> r.error == NullReference
    ensures r.Ok? && FS.Valid(fs) ==> FS.Valid(r.value) && r.value.items.Keys == fs.items.Keys && r.value.nextId == fs.nextId
    ensures r.Ok? && FS.Valid(fs) ==> forall k :: k in fs.items && k != filmId ==> r.value.items[k] == fs.items[k]
    ensures r.Ok? && FS.Valid(fs) ==> var before := fs.items[filmId]; var after := r.value.items[filmId];
      && after.(genres := before.genres) == before
      && after.genres.Some?
      && Ids(after.genres.value) == Ids(before.genres.value) + {genreId}
      && (forall g :: g in after.genres.value ==> g in before.genres.value || g in DefaultGenres)
  {
    var film :- FS.GetById(fs, filmId);
    var genre :- GenreById(genreId);
    if film.genres.None? then Err(NullReference)
    else Ok(FS.Update(fs, film.(genres := Some(Insert(film.genres.value, genre)))).0)
  }

  /** removeGenreFromFilm: the film must exist (NotFound) and its genre set
      must not be null (NullReference); every genre with the id is removed.
      The id is not checked against the catalog. */
  function RemoveGenreFromFilm(fs: FS.Store, filmId: int, genreId: int): (r: Result<FS.Store>)
    ensures r.Err? <==> filmId !in fs.items || fs.items[filmId].genres.None?
    ensures filmId !in fs.items ==> r == Err(NotFound)
    ensures r.Err? && filmId in fs.items ==> r.error == NullReference
    ensures r.Ok? && FS.Valid(fs) ==> FS.Valid(r.value) && r.value.items.Keys == fs.items.Keys && r.value.nextId == fs.nextId
    ensures r.Ok? && FS.Valid(fs) ==> forall k :: k in fs.items && k != filmId ==> r.value.items[k] == fs.items[k]
    ensures r.Ok? && FS.Valid(fs) ==> var before := fs.items[filmId]; var after := r.value.items[filmId];
      && after.(genres := before.genres) == before
      && after.genres.Some?
      && (forall g :: g in after.genres.value <==> g in before.genres.value && g.id != genreId)
  {
    var film :- FS.GetById(fs, filmId);
    if film.genres.None? then Err(NullReference)
    else Ok(FS.Update(fs, film.(genres := Some(RemoveId(film.genres.value, genreId)))).0)
  }
}
