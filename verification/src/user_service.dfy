/** UserService over the in-memory user store: profile writes with the
    name-defaults-to-login rule, and the friendship operations. */
module UserService {
  import opened Results
  import opened Text
  import opened UserModel
  import opened InMemoryUserStorage
  import IdStore

  /** create: the name defaults to the login, then the store assigns the id. */
  function Create(s: Store, u: User): (r: (Store, User))
    ensures r.1.id == s.nextId
    ensures r.1.name == (if IsNullOrBlank(u.name) then u.login else u.name)
    ensures r.1.(id := u.id, name := u.name) == u
    ensures r.0.items.Keys == s.items.Keys + {s.nextId} && r.0.items[s.nextId] == r.1
    ensures r.0.nextId == s.nextId + 1
    ensures forall k :: k in s.items && k != s.nextId ==> r.0.items[k] == s.items[k]
    ensures Valid(s) ==> Valid(r.0)
  {
    InMemoryUserStorage.Create(s, WithDefaultName(u))
  }

  /** update: NotFound for an id not stored; otherwise the name defaults to
      the login and the stored record is replaced. */
  function Update(s: Store, u: User): (r: Result<Store>)
    ensures r.Err? <==> u.id !in s.items
    ensures r.Err? ==> r.error == NotFound
    ensures r.Ok? ==> r.value.items.Keys == s.items.Keys
    ensures r.Ok? ==> r.value.items[u.id].name == (if IsNullOrBlank(u.name) then u.login else u.name)
    ensures r.Ok? ==> r.value.items[u.id].(name := u.name) == u
    ensures r.Ok? ==> forall k :: k in s.items && k != u.id ==> r.value.items[k] == s.items[k]
    ensures r.Ok? ==> r.value.nextId == s.nextId && (Valid(s) ==> Valid(r.value))
  {
    var existing :- InMemoryUserStorage.GetById(s, u.id);
    InMemoryUserStorage.Update(s, WithDefaultName(u))
  }

  /** Looks every id up, as `.map(getById)` does: NotFound when one of them
      is no longer stored. */
  function Resolve(s: Store, ids: set<int>): (r: Result<set<int>>)
    ensures r.Ok? <==> forall k :: k in ids ==> k in s.items
    ensures r.Ok? ==> r.value == ids
    ensures r.Err? ==> r.error == NotFound
  {
    if forall k :: k in ids ==> k in s.items then Ok(ids) else Err(NotFound)
  }

  /** addFriend(u, f): NotFound unless both users are stored. When f holds a
      PENDING edge toward u, both edges are set CONFIRMED. When f holds no
      edge toward u, the store's addFriend is called twice with PENDING; the
      second call finds the first call's PENDING edge and confirms both, so
      both edges end CONFIRMED. When f's edge is already CONFIRMED nothing
      changes. No other edge, user or the counter changes. */
  function AddFriend(s: Store, userId: int, friendId: int): (r: Result<Store>)
    ensures r.Err? <==> userId !in s.items || friendId !in s.items
    ensures r.Err? ==> r.error == NotFound
    ensures r.Ok? && Edge(s, friendId, userId) != Some(Confirmed) ==>
      && Edge(r.value, userId, friendId) == Some(Confirmed)
      && Edge(r.value, friendId, userId) == Some(Confirmed)
      && FramedExcept(s, r.value, {(userId, friendId), (friendId, userId)})
    ensures r.Ok? && Edge(s, friendId, userId) == Some(Confirmed) ==> r.value == s
  {
    var user :- InMemoryUserStorage.GetById(s, userId);
    var friend :- InMemoryUserStorage.GetById(s, friendId);
    var existing := GetFriendshipStatus(s, friendId, userId).value;
    if existing == Some(Pending) then
      var s1 := UpdateFriendStatus(s, userId, friendId, Confirmed).value;
      var s2 := UpdateFriendStatus(s1, friendId, userId, Confirmed).value;
      FramedCompose(s, s1, s2, {(userId, friendId)}, {(friendId, userId)});
      Ok(s2)
    else if existing == None then
      var s1 := InMemoryUserStorage.AddFriend(s, userId, friendId, Pending).value;
      var s2 := InMemoryUserStorage.AddFriend(s1, friendId, userId, Pending).value;
      FramedCompose(s, s1, s2, {(userId, friendId)}, {(friendId, userId), (userId, friendId)});
      Ok(s2)
    else
      Ok(s)
  }

  /** removeFriend(u, f): NotFound unless both users are stored and u's map
      holds f; then neither user holds an edge toward the other, and nothing
      else changes. */
  function RemoveFriend(s: Store, userId: int, friendId: int): (r: Result<Store>)
    ensures r.Err? <==> userId !in s.items || friendId !in s.items || Edge(s, userId, friendId).None?
    ensures r.Err? ==> r.error == NotFound
    ensures r.Ok? ==> Edge(r.value, userId, friendId) == None && Edge(r.value, friendId, userId) == None
    ensures r.Ok? ==> FramedExcept(s, r.value, {(userId, friendId), (friendId, userId)})
  {
    var user :- InMemoryUserStorage.GetById(s, userId);
    var friend :- InMemoryUserStorage.GetById(s, friendId);
    if friendId !in user.friends then Err(NotFound)
    else
      var s1 := InMemoryUserStorage.RemoveFriend(s, userId, friendId).value;
      var s2 := InMemoryUserStorage.RemoveFriend(s1, friendId, userId).value;
      FramedCompose(s, s1, s2, {(userId, friendId), (friendId, userId)}, {(friendId, userId), (userId, friendId)});
      Ok(s2)
  }

  /** confirmFriend(u, f): NotFound unless both users are stored;
      IllegalState unless u's own entry for f is PENDING; then both edges are
      CONFIRMED and nothing else changes. */
  function ConfirmFriend(s: Store, userId: int, friendId: int): (r: Result<Store>)
    ensures userId !in s.items || friendId !in s.items ==> r == Err(NotFound)
    ensures userId in s.items && friendId in s.items && Edge(s, userId, friendId) != Some(Pending)
            ==> r == Err(IllegalState)
    ensures r.Ok? <==> userId in s.items && friendId in s.items && Edge(s, userId, friendId) == Some(Pending)
    ensures r.Ok? ==>
      && Edge(r.value, userId, friendId) == Some(Confirmed)
      && Edge(r.value, friendId, userId) == Some(Confirmed)
      && FramedExcept(s, r.value, {(userId, friendId), (friendId, userId)})
  {
    var user :- InMemoryUserStorage.GetById(s, userId);
    var friend :- InMemoryUserStorage.GetById(s, friendId);
    var status := GetFriendshipStatus(s, userId, friendId).value;
    if status != Some(Pending) then Err(IllegalState)
    else
      var s1 := UpdateFriendStatus(s, userId, friendId, Confirmed).value;
      var s2 := UpdateFriendStatus(s1, friendId, userId, Confirmed).value;
      FramedCompose(s, s1, s2, {(userId, friendId)}, {(friendId, userId)});
      Ok(s2)
  }

  /** getFriends: the users behind every key of u's friend map, any status. */
  function GetFriends(s: Store, userId: int): (r: Result<set<int>>)
    ensures r.Ok? <==> userId in s.items && forall k :: Edge(s, userId, k).Some? ==> k in s.items
    ensures r.Err? ==> r.error == NotFound
    ensures r.Ok? ==> forall k :: k in r.value <==> Edge(s, userId, k).Some?
    ensures r.Ok? ==> forall k :: k in r.value ==> k in s.items
  {
    var ids :- InMemoryUserStorage.GetFriends(s, userId);
    Resolve(s, ids)
  }

  /** getCommonFriends(u, o): NotFound unless both users are stored and
      every id the two friend maps share is stored; then the users whose ids
      are keys of both maps, whatever the status. A friend id held by only
      one of them is never looked up. */
  function CommonFriends(s: Store, userId: int, otherId: int): (r: Result<set<int>>)
    ensures userId !in s.items || otherId !in s.items ==> r == Err(NotFound)
    ensures r.Ok? <==>
      && userId in s.items && otherId in s.items
      && forall k :: Edge(s, userId, k).Some? && Edge(s, otherId, k).Some? ==> k in s.items
    ensures r.Err? ==> r.error == NotFound
    ensures r.Ok? ==> forall k :: k in r.value <==> Edge(s, userId, k).Some? && Edge(s, otherId, k).Some?
    ensures r.Ok? ==> forall k :: k in r.value ==> k in s.items
  {
    var user :- InMemoryUserStorage.GetById(s, userId);
    var other :- InMemoryUserStorage.GetById(s, otherId);
    Resolve(s, user.friends.Keys * other.friends.Keys)
  }

  /** getFriendRequests: the users u's own map marks PENDING; NotFound when
      u or one of those users is not stored. Other friend ids are never
      looked up. */
  function GetFriendRequests(s: Store, userId: int): (r: Result<set<int>>)
    ensures userId !in s.items ==> r == Err(NotFound)
    ensures r.Ok? <==> userId in s.items && forall k :: Edge(s, userId, k) == Some(Pending) ==> k in s.items
    ensures r.Err? ==> r.error == NotFound
    ensures r.Ok? ==> forall k :: k in r.value <==> Edge(s, userId, k) == Some(Pending)
  {
    var user :- InMemoryUserStorage.GetById(s, userId);
    Resolve(s, PendingFriendIds(user))
  }

  /** getConfirmedFriends: the users u's own map marks CONFIRMED; NotFound
      when u or one of those users is not stored. Other friend ids are never
      looked up. */
  function GetConfirmedFriends(s: Store, userId: int): (r: Result<set<int>>)
    ensures userId !in s.items ==> r == Err(NotFound)
    ensures r.Ok? <==> userId in s.items && forall k :: Edge(s, userId, k) == Some(Confirmed) ==> k in s.items
    ensures r.Err? ==> r.error == NotFound
    ensures r.Ok? ==> forall k :: k in r.value <==> Edge(s, userId, k) == Some(Confirmed)
  {
    var user :- InMemoryUserStorage.GetById(s, userId);
    Resolve(s, ConfirmedFriendIds(user))
  }

  /** Common friends are the intersection of the two friend lists. */
  lemma CommonFriendsIsIntersection(s: Store, userId: int, otherId: int)
    requires GetFriends(s, userId).Ok? && GetFriends(s, otherId).Ok?
    ensures CommonFriends(s, userId, otherId) == Ok(GetFriends(s, userId).value * GetFriends(s, otherId).value)
  {
  }

  /** The requests and the confirmed friends split the friend list. */
  lemma RequestsAndConfirmedSplitFriends(s: Store, userId: int)
    requires GetFriends(s, userId).Ok?
    ensures GetFriendRequests(s, userId).Ok? && GetConfirmedFriends(s, userId).Ok?
    ensures GetFriendRequests(s, userId).value !! GetConfirmedFriends(s, userId).value
    ensures GetFriendRequests(s, userId).value + GetConfirmedFriends(s, userId).value
            == GetFriends(s, userId).value
  {
    FriendIdsPartitionKeys(s.items[userId]);
  }
}
