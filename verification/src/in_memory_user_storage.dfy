/** InMemoryUserStorage: users in an id-counter map, and the friendship
    edges kept inside each user's friend map. */
module InMemoryUserStorage {
  import opened Results
  import opened UserModel
  import IdStore

  type Store = IdStore.Store<User>

  function UserId(u: User): int { u.id }

  /** The store's invariant: ids handed out by the counter, each user under
      its own id. */
  ghost predicate Valid(s: Store) {
    IdStore.Valid(s) && IdStore.Keyed(s, UserId)
  }

  /** The status of the edge a → b, read from a's friend map; null when a is
      not stored or holds no entry for b. */
  function Edge(s: Store, a: int, b: int): Option<FriendshipStatus> {
    if a in s.items then FriendEntry(s.items[a], b) else None
  }

  /** A user's fields other than the friend map. */
  function Profile(u: User): User {
    u.(friends := map[])
  }

  /** `t` has the users, profiles, counter and edges of `s`, except perhaps
      the edges named in `touched`. */
  ghost predicate FramedExcept(s: Store, t: Store, touched: set<(int, int)>) {
    && t.nextId == s.nextId
    && t.items.Keys == s.items.Keys
    && (forall a :: a in s.items ==> a in t.items && Profile(t.items[a]) == Profile(s.items[a]))
    && (forall a, b :: (a, b) !in touched ==> Edge(t, a, b) == Edge(s, a, b))
  }

  lemma FramedCompose(s: Store, t: Store, w: Store, touched1: set<(int, int)>, touched2: set<(int, int)>)
    requires FramedExcept(s, t, touched1) && FramedExcept(t, w, touched2)
    ensures FramedExcept(s, w, touched1 + touched2)
  {
  }

  /** Changing only friend maps keeps the store's invariant. */
  lemma FramedKeepsValid(s: Store, t: Store, touched: set<(int, int)>)
    requires FramedExcept(s, t, touched)
    ensures Valid(s) ==> Valid(t)
  {
    forall a | a in t.items
      ensures t.items[a].id == s.items[a].id
    {
      assert Profile(t.items[a]).id == Profile(s.items[a]).id;
    }
  }

  /** `user.getFriends().put(b, status)` on the stored user a. */
  function SetEdge(s: Store, a: int, b: int, status: FriendshipStatus): (r: Store)
    requires a in s.items
    ensures Edge(r, a, b) == Some(status)
    ensures FramedExcept(s, r, {(a, b)})
  {
    var u := s.items[a];
    IdStore.Put(s, a, u.(friends := u.friends[b := status]))
  }

  /** `user.getFriends().remove(b)` on the stored user a; a no-op when a holds
      no entry for b. */
  function DropEdge(s: Store, a: int, b: int): (r: Store)
    requires a in s.items
    ensures Edge(r, a, b) == None
    ensures FramedExcept(s, r, {(a, b)})
    ensures Edge(s, a, b) == None ==> r == s
  {
    var u := s.items[a];
    var r := IdStore.Put(s, a, u.(friends := u.friends - {b}));
    assert Edge(s, a, b) == None ==> u.friends - {b} == u.friends;
    r
  }

  /** A fresh store: no users, the counter at 1. */
  function Empty(): (s: Store)
    ensures Valid(s) && s.items == map[] && s.nextId == 1
  {
    IdStore.Empty()
  }

  /** create: the user gets the counter's value as id and is stored under
      it; the counter advances; no other user changes. */
  function Create(s: Store, u: User): (r: (Store, User))
    ensures r.1 == u.(id := s.nextId)
    ensures r.0.items.Keys == s.items.Keys + {s.nextId} && r.0.items[s.nextId] == r.1
    ensures forall k :: k in s.items && k != s.nextId ==> r.0.items[k] == s.items[k]
    ensures r.0.nextId == s.nextId + 1
    ensures Valid(s) ==> Valid(r.0) && s.nextId !in s.items
  {
    var created := u.(id := s.nextId);
    (IdStore.Add(s, created), created)
  }

  /** update: NotFound for an id not stored; otherwise the record under that
      id is replaced, friend map included, and nothing else changes. */
  function Update(s: Store, u: User): (r: Result<Store>)
    ensures r.Err? <==> u.id !in s.items
    ensures r.Err? ==> r.error == NotFound
    ensures r.Ok? ==> r.value.items.Keys == s.items.Keys && r.value.items[u.id] == u
    ensures r.Ok? ==> forall k :: k in s.items && k != u.id ==> r.value.items[k] == s.items[k]
    ensures r.Ok? ==> r.value.nextId == s.nextId && (Valid(s) ==> Valid(r.value))
  {
    if u.id !in s.items then Err(NotFound) else Ok(IdStore.Put(s, u.id, u))
  }

  /** getById: the stored user, or NotFound. */
  function GetById(s: Store, id: int): (r: Result<User>)
    ensures r.Ok? <==> id in s.items
    ensures r.Ok? ==> r.value == s.items[id]
    ensures r.Err? ==> r.error == NotFound
  {
    if id in s.items then Ok(s.items[id]) else Err(NotFound)
  }

  /** getAll: exactly the stored users. */
  function GetAll(s: Store): (r: set<User>)
    ensures forall k :: k in s.items ==> s.items[k] in r
    ensures forall v :: v in r ==> exists k :: k in s.items && s.items[k] == v
  {
    IdStore.Values(s)
  }

  /** On a valid store the listing holds exactly the stored users, one per
      id. */
  lemma GetAllExact(s: Store)
    requires Valid(s)
    ensures |GetAll(s)| == |s.items|
    ensures forall v :: v in GetAll(s) ==> v.id in s.items && s.items[v.id] == v
  {
    IdStore.ValuesCount(s, UserId);
    IdStore.ValuesAreStored(s, UserId);
  }

  /** delete: removes the id (a no-op when absent) and keeps the counter, so
      the id is never reused. Edges other users hold toward it stay. */
  function Delete(s: Store, id: int): (r: Store)
    ensures r.items.Keys == s.items.Keys - {id}
    ensures forall k :: k in r.items ==> r.items[k] == s.items[k]
    ensures r.nextId == s.nextId
    ensures Valid(s) ==> Valid(r)
  {
    IdStore.Remove(s, id)
  }

  /** getFriends: every key of the user's friend map, whatever its status. */
  function GetFriends(s: Store, userId: int): (r: Result<set<int>>)
    ensures r.Ok? <==> userId in s.items
    ensures r.Err? ==> r.error == NotFound
    ensures r.Ok? ==> forall k :: k in r.value <==> Edge(s, userId, k).Some?
  {
    var user :- GetById(s, userId);
    Ok(user.friends.Keys)
  }

  /** addFriend(u, f, status): both users must be stored. If f holds a
      PENDING edge toward u, both edges become CONFIRMED; otherwise u's edge
      toward f is set to `status` and f's map is left alone. */
  function AddFriend(s: Store, userId: int, friendId: int, status: FriendshipStatus): (r: Result<Store>)
    ensures r.Err? <==> userId !in s.items || friendId !in s.items
    ensures r.Err? ==> r.error == NotFound
    ensures r.Ok? && Edge(s, friendId, userId) == Some(Pending) ==>
      && Edge(r.value, userId, friendId) == Some(Confirmed)
      && Edge(r.value, friendId, userId) == Some(Confirmed)
      && FramedExcept(s, r.value, {(userId, friendId), (friendId, userId)})
    ensures r.Ok? && Edge(s, friendId, userId) != Some(Pending) ==>
      && Edge(r.value, userId, friendId) == Some(status)
      && FramedExcept(s, r.value, {(userId, friendId)})
  {
    var user :- GetById(s, userId);
    var friend :- GetById(s, friendId);
    if FriendEntry(friend, userId) == Some(Pending) then
      var s1 := SetEdge(s, userId, friendId, Confirmed);
      var s2 := SetEdge(s1, friendId, userId, Confirmed);
      FramedCompose(s, s1, s2, {(userId, friendId)}, {(friendId, userId)});
      Ok(s2)
    else
      Ok(SetEdge(s, userId, friendId, status))
  }

  /** updateFriendStatus(u, f, status): only u must be stored; u's edge
      toward f is set and nothing else changes. */
  function UpdateFriendStatus(s: Store, userId: int, friendId: int, status: FriendshipStatus): (r: Result<Store>)
    ensures r.Err? <==> userId !in s.items
    ensures r.Err? ==> r.error == NotFound
    ensures r.Ok? ==> Edge(r.value, userId, friendId) == Some(status)
    ensures r.Ok? ==> FramedExcept(s, r.value, {(userId, friendId)})
  {
    var user :- GetById(s, userId);
    Ok(SetEdge(s, userId, friendId, status))
  }

  /** removeFriend(u, f): both users must be stored; both directed edges are
      deleted; a no-op when neither edge exists. */
  function RemoveFriend(s: Store, userId: int, friendId: int): (r: Result<Store>)
    ensures r.Err? <==> userId !in s.items || friendId !in s.items
    ensures r.Err? ==> r.error == NotFound
    ensures r.Ok? ==> Edge(r.value, userId, friendId) == None && Edge(r.value, friendId, userId) == None
    ensures r.Ok? ==> FramedExcept(s, r.value, {(userId, friendId), (friendId, userId)})
    ensures r.Ok? && Edge(s, userId, friendId) == None && Edge(s, friendId, userId) == None ==> r.value == s
  {
    var user :- GetById(s, userId);
    var friend :- GetById(s, friendId);
    var s1 := DropEdge(s, userId, friendId);
    var s2 := DropEdge(s1, friendId, userId);
    FramedCompose(s, s1, s2, {(userId, friendId)}, {(friendId, userId)});
    Ok(s2)
  }

  /** getFriendshipStatus(u, f): u must be stored; u's entry for f, or null. */
  function GetFriendshipStatus(s: Store, userId: int, friendId: int): (r: Result<Option<FriendshipStatus>>)
    ensures r.Ok? <==> userId in s.items
    ensures r.Err? ==> r.error == NotFound
    ensures r.Ok? ==> (r.value.Some? <==> friendId in s.items[userId].friends)
    ensures r.Ok? && r.value.Some? ==> r.value.value == s.items[userId].friends[friendId]
  {
    var user :- GetById(s, userId);
    Ok(FriendEntry(user, friendId))
  }

  /** Writing a status and reading it back gives the status written. */
  lemma StatusRoundTrip(s: Store, userId: int, friendId: int, status: FriendshipStatus)
    requires userId in s.items
    ensures UpdateFriendStatus(s, userId, friendId, status).Ok?
    ensures GetFriendshipStatus(UpdateFriendStatus(s, userId, friendId, status).value, userId, friendId)
            == Ok(Some(status))
  {
  }

  /** A created user can be read back under its id; a deleted one cannot. */
  lemma CreateGetDelete(s: Store, u: User)
    requires Valid(s)
    ensures GetById(Create(s, u).0, s.nextId) == Ok(u.(id := s.nextId))
    ensures GetById(Delete(Create(s, u).0, s.nextId), s.nextId) == Err(NotFound)
  {
  }
}
