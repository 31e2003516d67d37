/** InMemoryFilmStorage: films in an id-counter map. */
module InMemoryFilmStorage {
  import opened Results
  import opened FilmModel
  import IdStore

  type Store = IdStore.Store<Film>

  function FilmId(f: Film): int { f.id }

  /** The store's invariant: ids handed out by the counter, each film under
      its own id. */
  ghost predicate Valid(s: Store) {
    IdStore.Valid(s) && IdStore.Keyed(s, FilmId)
  }

  /** A fresh store: no films, the counter at 1. */
  function Empty(): (s: Store)
    ensures Valid(s) && s.items == map[] && s.nextId == 1
  {
    IdStore.Empty()
  }

  /** create: the film gets the counter's value as id and is stored under
      it; the counter advances; no other film changes. */
  function Create(s: Store, f: Film): (r: (Store, Film))
    ensures r.1 == f.(id := s.nextId)
    ensures r.0.items.Keys == s.items.Keys + {s.nextId} && r.0.items[s.nextId] == r.1
    ensures forall k :: k in s.items && k != s.nextId ==> r.0.items[k] == s.items[k]
    ensures r.0.nextId == s.nextId + 1
    ensures Valid(s) ==> Valid(r.0) && s.nextId !in s.items
  {
    var created := f.(id := s.nextId);
    (IdStore.Add(s, created), created)
  }

  /** update: an upsert. The film is stored under its own id whether or not
      that id was stored, and the counter is not consulted. */
  function Update(s: Store, f: Film): (r: (Store, Film))
    ensures r.1 == f
    ensures r.0.items.Keys == s.items.Keys + {f.id} && r.0.items[f.id] == f
    ensures forall k :: k in s.items && k != f.id ==> r.0.items[k] == s.items[k]
    ensures r.0.nextId == s.nextId
    ensures Valid(s) && f.id in s.items ==> Valid(r.0)
  {
    (IdStore.Put(s, f.id, f), f)
  }

  /** getById: the stored film, or NotFound. */
  function GetById(s: Store, id: int): (r: Result<Film>)
    ensures r.Ok? <==> id in s.items
    ensures r.Ok? ==> r.value == s.items[id]
    ensures r.Err? ==> r.error == NotFound
  {
    if id in s.items then Ok(s.items[id]) else Err(NotFound)
  }

  /** getAll: exactly the stored films. */
  function GetAll(s: Store): (r: set<Film>)
    ensures forall k :: k in s.items ==> s.items[k] in r
    ensures forall v :: v in r ==> exists k :: k in s.items && s.items[k] == v
  {
    IdStore.Values(s)
  }

  /** On a valid store the listing holds exactly the stored films, one per
      id. */
  lemma GetAllExact(s: Store)
    requires Valid(s)
    ensures |GetAll(s)| == |s.items|
    ensures forall v :: v in GetAll(s) ==> v.id in s.items && s.items[v.id] == v
  {
    IdStore.ValuesCount(s, FilmId);
    IdStore.ValuesAreStored(s, FilmId);
  }

  /** delete: removes the id (a no-op when absent) and keeps the counter. */
  function Delete(s: Store, id: int): (r: Store)
    ensures r.items.Keys == s.items.Keys - {id}
    ensures forall k :: k in r.items ==> r.items[k] == s.items[k]
    ensures r.nextId == s.nextId
    ensures Valid(s) ==> Valid(r)
  {
    IdStore.Remove(s, id)
  }

  /** getLikes: the film's like set, or NotFound. */
  function GetLikes(s: Store, filmId: int): (r: Result<set<int>>)
    ensures r.Ok? <==> filmId in s.items
    ensures r.Ok? ==> r.value == s.items[filmId].likes
    ensures r.Err? ==> r.error == NotFound
  {
    var film :- GetById(s, filmId);
    Ok(film.likes)
  }

  /** A created film can be read back under its id, starts with the likes it
      was given, and is gone after delete. */
  lemma CreateGetDelete(s: Store, f: Film)
    requires Valid(s)
    ensures GetById(Create(s, f).0, s.nextId) == Ok(f.(id := s.nextId))
    ensures GetLikes(Create(s, f).0, s.nextId) == Ok(f.likes)
    ensures GetById(Delete(Create(s, f).0, s.nextId), s.nextId) == Err(NotFound)
  {
  }

  /** Because update does not check the id, a film upserted under an id the
      counter has not reached yet is overwritten by a later create. */
  lemma UpsertAheadOfCounterIsOverwritten(a: Film, b: Film)
    requires a.id == 1
    ensures var s1 := Update(Empty(), a).0;
      && s1.items.Keys == {1} && s1.nextId == 1
      && Create(s1, b).1.id == 1
      && Create(s1, b).0.items == map[1 := b.(id := 1)]
  {
  }
}
