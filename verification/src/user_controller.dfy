/** UserController: its own id-counter map of users, name defaulting, and the
    create/update/list endpoints. Each endpoint returns the controller's next
    state with its response. */
module UserController {
  import opened Results
  import opened Text
  import opened UserModel
  import IdStore

  type Store = IdStore.Store<User>

  /** createUser: the name is defaulted, the user takes the counter's id and
      is stored. It never fails. */
  function CreateUser(s: Store, u: User): (r: (Store, User))
    ensures r.1 == WithDefaultName(u).(id := s.nextId)
    ensures r.0.items.Keys == s.items.Keys + {s.nextId} && r.0.items[s.nextId] == r.1
    ensures forall k :: k in s.items && k != s.nextId ==> r.0.items[k] == s.items[k]
    ensures r.0.nextId == s.nextId + 1
    ensures IdStore.Valid(s) ==> IdStore.Valid(r.0)
  {
    var created := WithDefaultName(u).(id := s.nextId);
    (IdStore.Add(s, created), created)
  }

  /** updateUser: an unknown id is a validation error and nothing changes;
      otherwise the name is defaulted and the user replaces the stored one. */
  function UpdateUser(s: Store, u: User): (r: (Store, Result<User>))
    ensures r.1.Ok? <==> u.id in s.items
    ensures r.1.Err? ==> r == (s, Err(Validation))
    ensures r.1.Ok? ==> r.1.value == WithDefaultName(u)
    ensures r.1.Ok? ==> r.0.items == s.items[u.id := r.1.value] && r.0.nextId == s.nextId
    ensures IdStore.Valid(s) ==> IdStore.Valid(r.0)
  {
    if u.id !in s.items then (s, Err(Validation))
    else
      var updated := WithDefaultName(u);
      (IdStore.Put(s, u.id, updated), Ok(updated))
  }

  /** getAllUsers: exactly the stored users. */
  function GetAllUsers(s: Store): (r: set<User>)
    ensures forall k :: k in s.items ==> s.items[k] in r
    ensures forall v :: v in r ==> exists k :: k in s.items && s.items[k] == v
  {
    IdStore.Values(s)
  }

  /** No stored user has a null or blank name unless the login gave it one:
      defaulting a stored user changes nothing. */
  ghost predicate NamesDefaulted(s: Store) {
    forall k :: k in s.items ==> WithDefaultName(s.items[k]) == s.items[k]
  }

  lemma EmptyHasNamesDefaulted()
    ensures NamesDefaulted(IdStore.Empty<User>())
  {
  }

  /** Create and update keep every stored name defaulted. */
  lemma EndpointsKeepNamesDefaulted(s: Store, u: User)
    requires NamesDefaulted(s)
    ensures NamesDefaulted(CreateUser(s, u).0)
    ensures NamesDefaulted(UpdateUser(s, u).0)
  {
    WithDefaultNameIdempotent(u);
  }

  /** A stored user's name is the name it was given when that was not null
      or blank, and otherwise its login. */
  lemma StoredNameIsGivenOrLogin(s: Store, k: int)
    requires NamesDefaulted(s) && k in s.items
    ensures !IsNullOrBlank(s.items[k].name) || s.items[k].name == s.items[k].login
  {
  }

  /** A client posting `users` in order: the ids handed back, in order. */
  function CreateUsers(s: Store, users: seq<User>): (Store, seq<int>)
    decreases |users|
  {
    if |users| == 0 then (s, [])
    else
      var (s1, created) := CreateUser(s, users[0]);
      var (s2, ids) := CreateUsers(s1, users[1..]);
      (s2, [created.id] + ids)
  }

  /** Every create takes the next id: from a fresh controller the ids are
      1, 2, 3, ... */
  lemma {:induction false} CreateUsersNumbersConsecutively(s: Store, users: seq<User>)
    ensures var (t, ids) := CreateUsers(s, users);
      && |ids| == |users|
      && (forall i :: 0 <= i < |ids| ==> ids[i] == s.nextId + i)
      && t.nextId == s.nextId + |users|
    decreases |users|
  {
    if |users| > 0 {
      CreateUsersNumbersConsecutively(CreateUser(s, users[0]).0, users[1..]);
    }
  }
}
