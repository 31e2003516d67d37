/** The fixed genre and MPA rating catalogs, and lookup by id. */
module Constants {
  import opened Results

  datatype Genre = Genre(id: int, name: string)

  datatype Mpa = Mpa(id: int, name: string, description: string)

  function GenreId(g: Genre): int { g.id }

  function MpaId(m: Mpa): int { m.id }

  /** DEFAULT_GENRES. */
  const DefaultGenres: seq<Genre> := [
    Genre(1, "Комедия"),
    Genre(2, "Драма"),
    Genre(3, "Мультфильм"),
    Genre(4, "Триллер"),
    Genre(5, "Документальный"),
    Genre(6, "Боевик")
  ]

  /** DEFAULT_MPA_RATINGS. */
  const DefaultMpaRatings: seq<Mpa> := [
    Mpa(1, "G", "У фильма нет возрастных ограничений"),
    Mpa(2, "PG", "Детям рекомендуется смотреть фильм с родителями"),
    Mpa(3, "PG-13", "Детям до 13 лет просмотр не желателен"),
    Mpa(4, "R", "Лицам до 17 лет просматривать фильм можно только в присутствии взрослого"),
    Mpa(5, "NC-17", "Лицам до 18 лет просмотр запрещён")
  ]

  /** The first catalog entry carrying `id`, if any. */
  function FindById<T>(catalog: seq<T>, idOf: T -> int, id: int): (r: Option<T>)
    ensures r.Some? ==> r.value in catalog && idOf(r.value) == id
    ensures r.None? <==> forall i :: 0 <= i < |catalog| ==> idOf(catalog[i]) != id
  {
    if |catalog| == 0 then None
    else if idOf(catalog[0]) == id then Some(catalog[0])
    else FindById(catalog[1..], idOf, id)
  }

  /** getById on the genre catalog: the catalog lists ids 1..6 in order, so
      the row for `id` is at position id - 1; an unknown id has no row. */
  function GenreById(id: int): (r: Result<Genre>)
    ensures r.Ok? <==> 1 <= id <= 6
    ensures r.Ok? ==> r.value in DefaultGenres && r.value.id == id
    ensures r.Err? ==> r.error == NoRow
  {
    if 1 <= id <= |DefaultGenres| then Ok(DefaultGenres[id - 1]) else Err(NoRow)
  }

  /** getById on the MPA catalog: the catalog lists ids 1..5 in order, so the
      row for `id` is at position id - 1; an unknown id has no row. */
  function MpaById(id: int): (r: Result<Mpa>)
    ensures r.Ok? <==> 1 <= id <= 5
    ensures r.Ok? ==> r.value in DefaultMpaRatings && r.value.id == id
    ensures r.Err? ==> r.error == NoRow
  {
    if 1 <= id <= |DefaultMpaRatings| then Ok(DefaultMpaRatings[id - 1]) else Err(NoRow)
  }

  /** The positional lookups agree with searching the catalog for the id:
      both find a row for the same ids, and the same row. */
  lemma LookupsAreSearches(id: int)
    ensures GenreById(id).Ok? <==> FindById(DefaultGenres, GenreId, id).Some?
    ensures GenreById(id).Ok? ==> FindById(DefaultGenres, GenreId, id) == Some(GenreById(id).value)
    ensures MpaById(id).Ok? <==> FindById(DefaultMpaRatings, MpaId, id).Some?
    ensures MpaById(id).Ok? ==> FindById(DefaultMpaRatings, MpaId, id) == Some(MpaById(id).value)
  {
    GenreCatalogIds();
    MpaCatalogIds();
    var g := FindById(DefaultGenres, GenreId, id);
    var m := FindById(DefaultMpaRatings, MpaId, id);
    if GenreById(id).Ok? {
      assert GenreId(DefaultGenres[id - 1]) == id;
      GenreDeterminedById(g.value, GenreById(id).value);
    }
    if MpaById(id).Ok? {
      assert MpaId(DefaultMpaRatings[id - 1]) == id;
      MpaDeterminedById(m.value, MpaById(id).value);
    }
  }

  /** Genre ids are 1..6 in ascending order, so no two entries share an id. */
  lemma GenreCatalogIds()
    ensures |DefaultGenres| == 6
    ensures forall i :: 0 <= i < |DefaultGenres| ==> DefaultGenres[i].id == i + 1
  {
  }

  /** MPA ids are 1..5 in ascending order, so no two entries share an id. */
  lemma MpaCatalogIds()
    ensures |DefaultMpaRatings| == 5
    ensures forall i :: 0 <= i < |DefaultMpaRatings| ==> DefaultMpaRatings[i].id == i + 1
  {
  }

  /** A catalog record is determined by its id. */
  lemma GenreDeterminedById(g: Genre, h: Genre)
    requires g in DefaultGenres && h in DefaultGenres && g.id == h.id
    ensures g == h
  {
  }

  /** An MPA catalog record is determined by its id. */
  lemma MpaDeterminedById(m: Mpa, n: Mpa)
    requires m in DefaultMpaRatings && n in DefaultMpaRatings && m.id == n.id
    ensures m == n
  {
  }

  /** The names the catalogs hand back for the ids the application uses. */
  lemma KnownEntries()
    ensures GenreById(1) == Ok(Genre(1, "Комедия"))
    ensures GenreById(2) == Ok(Genre(2, "Драма"))
    ensures MpaById(1).Ok? && MpaById(1).value.name == "G"
    ensures MpaById(2).Ok? && MpaById(2).value.name == "PG"
    ensures MpaById(5).Ok? && MpaById(5).value.name == "NC-17"
  {
    GenreDeterminedById(GenreById(1).value, DefaultGenres[0]);
    GenreDeterminedById(GenreById(2).value, DefaultGenres[1]);
    MpaDeterminedById(MpaById(1).value, DefaultMpaRatings[0]);
    MpaDeterminedById(MpaById(2).value, DefaultMpaRatings[1]);
    MpaDeterminedById(MpaById(5).value, DefaultMpaRatings[4]);
  }
}
