/** FilmController: its own id-counter map of films, the inline release-date
    and duration check, and the create/update/list endpoints. Each endpoint
    returns the controller's next state with its response. */
module FilmController {
  import opened Results
  import opened Dates
  import opened FilmModel
  import ReleaseDateValidation
  import IdStore

  type Store = IdStore.Store<Film>

  function FilmId(f: Film): int { f.id }

  /** validateFilmReleaseDate: reading a null release date throws; a date
      before the floor, then a non-positive duration, is a validation error. */
  function ValidateFilmReleaseDate(film: Film): (r: Outcome)
    ensures film.releaseDate.None? ==> r == Fail(NullReference)
    ensures film.releaseDate.Some? && r.Fail? ==> r.error == Validation
    ensures r.Pass? ==> film.releaseDate.Some? && film.duration > 0
  {
    if film.releaseDate.None? then Fail(NullReference)
    else if Before(film.releaseDate.value, ReleaseDateValidation.MinReleaseDate) then Fail(Validation)
    else if film.duration <= 0 then Fail(Validation)
    else Pass
  }

  /** The inline check accepts exactly the films whose release date and
      duration pass their bean constraints (`@NotNull @ReleaseValidDate` and
      `@Positive`); so on a film that passed `@Valid` it never throws. */
  lemma ControllerCheckMatchesConstraints(film: Film)
    ensures ValidateFilmReleaseDate(film).Pass? <==> ReleaseDateValid(film) && DurationValid(film)
    ensures FilmModel.Valid(film) ==> ValidateFilmReleaseDate(film) == Pass
  {
  }

  /** createFilm: after the check, the film takes the counter's id and is
      stored; a rejected film leaves the map and the counter as they were. */
  function CreateFilm(s: Store, film: Film): (r: (Store, Result<Film>))
    ensures r.1.Ok? <==> ValidateFilmReleaseDate(film).Pass?
    ensures r.1.Err? ==> r.0 == s && r.1.error == ValidateFilmReleaseDate(film).error
    ensures r.1.Ok? ==> r.1.value == film.(id := s.nextId)
    ensures r.1.Ok? ==> r.0.items.Keys == s.items.Keys + {s.nextId} && r.0.items[s.nextId] == r.1.value
    ensures r.1.Ok? ==> forall k :: k in s.items && k != s.nextId ==> r.0.items[k] == s.items[k]
    ensures r.1.Ok? ==> r.0.nextId == s.nextId + 1
    ensures IdStore.Valid(s) && IdStore.Keyed(s, FilmId) ==> IdStore.Valid(r.0) && IdStore.Keyed(r.0, FilmId)
  {
    match ValidateFilmReleaseDate(film)
    case Fail(e) => (s, Err(e))
    case Pass =>
      var created := film.(id := s.nextId);
      (IdStore.Add(s, created), Ok(created))
  }

  /** updateFilm: an unknown id is a validation error, checked before the
      release date; otherwise the film replaces the stored one. */
  function UpdateFilm(s: Store, film: Film): (r: (Store, Result<Film>))
    ensures film.id !in s.items ==> r == (s, Err(Validation))
    ensures r.1.Ok? <==> film.id in s.items && ValidateFilmReleaseDate(film).Pass?
    ensures r.1.Err? ==> r.0 == s
    ensures r.1.Ok? ==> r.1.value == film && r.0.items == s.items[film.id := film] && r.0.nextId == s.nextId
    ensures IdStore.Valid(s) && IdStore.Keyed(s, FilmId) ==> IdStore.Valid(r.0) && IdStore.Keyed(r.0, FilmId)
  {
    if film.id !in s.items then (s, Err(Validation))
    else match ValidateFilmReleaseDate(film)
      case Fail(e) => (s, Err(e))
      case Pass => (IdStore.Put(s, film.id, film), Ok(film))
  }

  /** getAllFilms: exactly the stored films. */
  function GetAllFilms(s: Store): (r: set<Film>)
    ensures forall k :: k in s.items ==> s.items[k] in r
    ensures forall v :: v in r ==> exists k :: k in s.items && s.items[k] == v
  {
    IdStore.Values(s)
  }

  /** A client posting `films` in order: the ids handed back, in order. */
  function CreateFilms(s: Store, films: seq<Film>): (Store, seq<int>)
    decreases |films|
  {
    if |films| == 0 then (s, [])
    else
      var (s1, r) := CreateFilm(s, films[0]);
      var (s2, ids) := CreateFilms(s1, films[1..]);
      (s2, (if r.Ok? then [r.value.id] else []) + ids)
  }

  /** How many of `films` pass the inline check. */
  function Accepted(films: seq<Film>): nat {
    if |films| == 0 then 0
    else (if ValidateFilmReleaseDate(films[0]).Pass? then 1 else 0) + Accepted(films[1..])
  }

  /** Accepted films get consecutive ids from the counter, and a rejected
      film consumes no id: from a fresh controller the ids are 1, 2, 3, ... */
  lemma {:induction false} CreateFilmsNumbersConsecutively(s: Store, films: seq<Film>)
    ensures var (t, ids) := CreateFilms(s, films);
      && |ids| == Accepted(films)
      && (forall i :: 0 <= i < |ids| ==> ids[i] == s.nextId + i)
      && t.nextId == s.nextId + Accepted(films)
    decreases |films|
  {
    if |films| > 0 {
      var s1 := CreateFilm(s, films[0]).0;
      CreateFilmsNumbersConsecutively(s1, films[1..]);
    }
  }
}
