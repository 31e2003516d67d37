/** What the friendship operations of UserService keep true of the in-memory
    store: every edge is CONFIRMED, an edge between two stored users has its
    mirror, and every edge points at an id the counter has handed out. */
module FriendshipInvariant {
  import opened Results
  import opened UserModel
  import opened InMemoryUserStorage
  import UserService

  ghost predicate AllConfirmed(s: Store) {
    forall a, b :: Edge(s, a, b).Some? ==> Edge(s, a, b) == Some(Confirmed)
  }

  ghost predicate Symmetric(s: Store) {
    forall a, b :: b in s.items && Edge(s, a, b).Some? ==> Edge(s, b, a).Some?
  }

  ghost predicate EdgesBounded(s: Store) {
    forall a, b :: Edge(s, a, b).Some? ==> b < s.nextId
  }

  ghost predicate Mirrored(s: Store) {
    Valid(s) && AllConfirmed(s) && Symmetric(s) && EdgesBounded(s)
  }

  lemma EmptyIsMirrored()
    ensures Mirrored(Empty())
  {
  }

  /** Creating a user with an empty friend map keeps the invariant: the new
      id is above every edge's target, so no stored edge points at it. */
  lemma CreateKeepsMirrored(s: Store, u: User)
    requires Mirrored(s) && u.friends == map[]
    ensures Mirrored(UserService.Create(s, u).0)
  {
    var t := UserService.Create(s, u).0;
    assert forall a, b :: Edge(t, a, b) == (if a == s.nextId then None else Edge(s, a, b));
  }

  /** A step that changes only the two edges between u and f, and leaves
      them both CONFIRMED or both absent, keeps the invariant. */
  lemma PairStepKeepsMirrored(s: Store, t: Store, u: int, f: int)
    requires Mirrored(s) && u in s.items && f in s.items
    requires FramedExcept(s, t, {(u, f), (f, u)})
    requires (Edge(t, u, f) == Some(Confirmed) && Edge(t, f, u) == Some(Confirmed))
          || (Edge(t, u, f) == None && Edge(t, f, u) == None)
    ensures Mirrored(t)
  {
    var touched := {(u, f), (f, u)};
    FramedKeepsValid(s, t, touched);
    forall a, b | Edge(t, a, b).Some?
      ensures Edge(t, a, b) == Some(Confirmed) && b < t.nextId
    {
      if (a, b) !in touched {
        assert Edge(s, a, b) == Edge(t, a, b);
      }
    }
    forall a, b | b in t.items && Edge(t, a, b).Some?
      ensures Edge(t, b, a).Some?
    {
      if (a, b) !in touched {
        assert Edge(s, a, b) == Edge(t, a, b);
        if (b, a) !in touched {
          assert Edge(s, b, a) == Edge(t, b, a);
        }
      }
    }
  }

  /** Adding a friend keeps the invariant. */
  lemma AddFriendKeepsMirrored(s: Store, userId: int, friendId: int)
    requires Mirrored(s) && UserService.AddFriend(s, userId, friendId).Ok?
    ensures Mirrored(UserService.AddFriend(s, userId, friendId).value)
  {
    var t := UserService.AddFriend(s, userId, friendId).value;
    if Edge(s, friendId, userId) != Some(Confirmed) {
      PairStepKeepsMirrored(s, t, userId, friendId);
    }
  }

  /** Removing a friend keeps the invariant. */
  lemma RemoveFriendKeepsMirrored(s: Store, userId: int, friendId: int)
    requires Mirrored(s) && UserService.RemoveFriend(s, userId, friendId).Ok?
    ensures Mirrored(UserService.RemoveFriend(s, userId, friendId).value)
  {
    var t := UserService.RemoveFriend(s, userId, friendId).value;
    PairStepKeepsMirrored(s, t, userId, friendId);
  }

  /** Deleting a user keeps the invariant: edges toward the deleted id stay
      behind, but that id is never handed out again. */
  lemma DeleteKeepsMirrored(s: Store, id: int)
    requires Mirrored(s)
    ensures Mirrored(Delete(s, id))
  {
    var t := Delete(s, id);
    assert forall a, b :: Edge(t, a, b) == (if a == id then None else Edge(s, a, b));
  }

  /** Under the invariant there is never a PENDING edge, so confirmFriend
      between two stored users always fails with IllegalState. */
  lemma ConfirmFriendAlwaysFails(s: Store, userId: int, friendId: int)
    requires Mirrored(s) && userId in s.items && friendId in s.items
    ensures UserService.ConfirmFriend(s, userId, friendId) == Err(IllegalState)
  {
  }

  /** Under the invariant nobody has an open friend request. */
  lemma NoFriendRequests(s: Store, userId: int)
    requires Mirrored(s) && userId in s.items
    ensures UserService.GetFriendRequests(s, userId) == Ok({})
  {
    forall k
      ensures k !in PendingFriendIds(s.items[userId])
    {
      assert Edge(s, userId, k) == FriendEntry(s.items[userId], k);
    }
    assert PendingFriendIds(s.items[userId]) == {};
  }

  /** Two fresh users; user 1 asks user 2 once. Both are at once each
      other's confirmed friend, and user 2 has no open request. */
  lemma OneRequestMakesMutualFriends()
    ensures var s := TwoUsers();
      && UserService.AddFriend(s, 1, 2).Ok?
      && UserService.GetConfirmedFriends(UserService.AddFriend(s, 1, 2).value, 1) == Ok({2})
      && UserService.GetConfirmedFriends(UserService.AddFriend(s, 1, 2).value, 2) == Ok({1})
      && UserService.GetFriendRequests(UserService.AddFriend(s, 1, 2).value, 2) == Ok({})
  {
    FirstRequestConfirmsBoth(TwoUsers(), 1, 2);
  }

  /** Between two stored users without any edges, one request makes each
      the other's sole confirmed friend and leaves neither an open request. */
  lemma FirstRequestConfirmsBoth(s: Store, u: int, f: int)
    requires u in s.items && f in s.items && u != f
    requires s.items[u].friends == map[] && s.items[f].friends == map[]
    ensures UserService.AddFriend(s, u, f).Ok?
    ensures var t := UserService.AddFriend(s, u, f).value;
      && UserService.GetConfirmedFriends(t, u) == Ok({f})
      && UserService.GetConfirmedFriends(t, f) == Ok({u})
      && UserService.GetFriendRequests(t, u) == Ok({})
      && UserService.GetFriendRequests(t, f) == Ok({})
  {
    var t := UserService.AddFriend(s, u, f).value;
    assert Edge(s, f, u) == None;
    forall k | k != f
      ensures Edge(t, u, k) == None
    {
      assert Edge(s, u, k) == None;
    }
    forall k | k != u
      ensures Edge(t, f, k) == None
    {
      assert Edge(s, f, k) == None;
    }
    SoleConfirmedEdge(t, u, f);
    SoleConfirmedEdge(t, f, u);
  }

  /** A stored user whose only edge is a CONFIRMED one toward `b` has `b` as
      its one confirmed friend and no open request. */
  lemma SoleConfirmedEdge(t: Store, a: int, b: int)
    requires a in t.items && b in t.items && Edge(t, a, b) == Some(Confirmed)
    requires forall k :: k != b ==> Edge(t, a, k) == None
    ensures UserService.GetConfirmedFriends(t, a) == Ok({b})
    ensures UserService.GetFriendRequests(t, a) == Ok({})
  {
    var u := t.items[a];
    forall k
      ensures k in ConfirmedFriendIds(u) <==> k == b
      ensures k !in PendingFriendIds(u)
    {
      assert FriendEntry(u, k) == Edge(t, a, k);
    }
    assert ConfirmedFriendIds(u) == {b};
    assert PendingFriendIds(u) == {};
  }

  /** Updating a user replaces its friend map with the incoming record's
      (empty, as the boundary builds it) while the other side keeps its
      edge: the mirror is broken. */
  lemma UpdateBreaksMirror()
    ensures var s := UserService.AddFriend(TwoUsers(), 1, 2).value;
      && Mirrored(s)
      && UserService.Update(s, s.items[1].(friends := map[])).Ok?
      && !Mirrored(UserService.Update(s, s.items[1].(friends := map[])).value)
  {
    var s0 := TwoUsers();
    var s := UserService.AddFriend(s0, 1, 2).value;
    assert Mirrored(s) by {
      CreateKeepsMirrored(Empty(), NewUser(None, Some("a"), None, None));
      CreateKeepsMirrored(UserService.Create(Empty(), NewUser(None, Some("a"), None, None)).0,
                          NewUser(None, Some("b"), None, None));
      AddFriendKeepsMirrored(s0, 1, 2);
    }
    assert Edge(s0, 2, 1) == None;
    EmptyingFriendsBreaksMirror(s, s.items[1].(friends := map[]), 2);
  }

  /** Updating a user with an empty friend map while another stored user
      still holds an edge toward it leaves that edge without its mirror. */
  lemma EmptyingFriendsBreaksMirror(s: Store, u: User, b: int)
    requires u.id in s.items && b in s.items && b != u.id
    requires u.friends == map[] && Edge(s, b, u.id).Some?
    ensures UserService.Update(s, u).Ok?
    ensures !Mirrored(UserService.Update(s, u).value)
  {
    var t := UserService.Update(s, u).value;
    assert Edge(t, b, u.id) == Edge(s, b, u.id);
    assert Edge(t, u.id, b) == None;
  }

  /** Two users created through the service on an empty store. */
  function TwoUsers(): (s: Store)
    ensures s.items.Keys == {1, 2} && s.nextId == 3
    ensures s.items[1].friends == map[] && s.items[2].friends == map[]
  {
    var s1 := UserService.Create(Empty(), NewUser(None, Some("a"), None, None)).0;
    UserService.Create(s1, NewUser(None, Some("b"), None, None)).0
  }
}
