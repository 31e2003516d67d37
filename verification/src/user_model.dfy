/** A user record: profile fields plus the user's own friend map, from each
    friend id to the status of the edge this user holds toward that friend. */
module UserModel {
  import opened Results
  import opened Text
  import opened Dates

  datatype FriendshipStatus = Pending | Confirmed

  datatype User = User(
    id: int,
    email: Option<string>,
    login: Option<string>,
    name: Option<string>,
    birthday: Option<Date>,
    friends: map<int, FriendshipStatus>)

  /** A user as the boundary builds it: id 0 and an empty friend map. */
  function NewUser(email: Option<string>, login: Option<string>, name: Option<string>,
                   birthday: Option<Date>): (u: User)
    ensures u.friends == map[]
    ensures u.email == email && u.login == login && u.name == name && u.birthday == birthday
  {
    User(0, email, login, name, birthday, map[])
  }

  /** This user's entry for `friendId`, or null. */
  function FriendEntry(u: User, friendId: int): Option<FriendshipStatus> {
    if friendId in u.friends then Some(u.friends[friendId]) else None
  }

  /** getConfirmedFriendIds. */
  function ConfirmedFriendIds(u: User): (r: set<int>)
    ensures forall k :: k in r <==> FriendEntry(u, k) == Some(Confirmed)
  {
    set k | k in u.friends && u.friends[k] == Confirmed
  }

  /** getPendingFriendIds. */
  function PendingFriendIds(u: User): (r: set<int>)
    ensures forall k :: k in r <==> FriendEntry(u, k) == Some(Pending)
  {
    set k | k in u.friends && u.friends[k] == Pending
  }

  /** The confirmed and pending ids split the friend map's keys. */
  lemma FriendIdsPartitionKeys(u: User)
    ensures ConfirmedFriendIds(u) !! PendingFriendIds(u)
    ensures ConfirmedFriendIds(u) + PendingFriendIds(u) == u.friends.Keys
  {
    forall k | k in u.friends
      ensures k in ConfirmedFriendIds(u) + PendingFriendIds(u)
    {
      assert FriendEntry(u, k) == Some(u.friends[k]);
    }
  }

  /** The login constraints: `@NotBlank` and `@Pattern("\\S+")`. */
  predicate LoginValid(login: Option<string>) {
    NotBlank(login) && MatchesNonSpaceRun(login.value)
  }

  /** Validity spelled out over the characters: present and non-empty, no
      ASCII space, tab, line feed, vertical tab, form feed or carriage
      return, and at least one character above U+0020. The last clause is
      what `@NotBlank` adds to `\S+`: a login of control characters only
      matches the pattern but trims to nothing. */
  lemma LoginValidIff(login: Option<string>)
    ensures LoginValid(login) <==>
      && login.Some?
      && |login.value| > 0
      && (forall i :: 0 <= i < |login.value| ==> login.value[i] !in {' ', '\t', '\n', '\U{0B}', '\U{0C}', '\r'})
      && (exists i :: 0 <= i < |login.value| && login.value[i] > ' ')
  {
    if login.Some? {
      var v := login.value;
      TrimEmptyIff(v);
      forall i | 0 <= i < |v|
        ensures IsRegexSpace(v[i]) <==> v[i] in {' ', '\t', '\n', '\U{0B}', '\U{0C}', '\r'}
      {
        RegexSpaceChars(v[i]);
      }
    }
  }

  /** The characters `\s` matches, listed. */
  lemma RegexSpaceChars(c: char)
    ensures IsRegexSpace(c) <==> c in {' ', '\t', '\n', '\U{0B}', '\U{0C}', '\r'}
  {
  }

  /** For a login without control characters, validity is simply: present,
      non-empty and free of spaces. */
  lemma PrintableLoginValidIff(login: Option<string>)
    requires login.Some?
    requires forall i :: 0 <= i < |login.value| ==> login.value[i] >= ' '
    ensures LoginValid(login) <==> |login.value| > 0 && forall i :: 0 <= i < |login.value| ==> login.value[i] != ' '
  {
    LoginValidIff(login);
    if |login.value| > 0 && forall i :: 0 <= i < |login.value| ==> login.value[i] != ' ' {
      assert login.value[0] > ' ';
    }
  }

  /** The two constraints part ways on control characters: a login made of
      characters at or below U+0020 is always rejected as blank, while `\S+`
      alone would accept it exactly when none of them is a space or a tab to
      carriage return. */
  lemma ControlCharacterLogins(s: string)
    requires |s| > 0 && forall i :: 0 <= i < |s| ==> s[i] <= ' '
    ensures !LoginValid(Some(s))
    ensures MatchesNonSpaceRun(s) <==> forall i :: 0 <= i < |s| ==> s[i] < '\t' || '\r' < s[i] < ' '
  {
    TrimEmptyIff(s);
  }

  /** The logins the validation tests use: empty and "Invalid Log" are
      rejected, a missing login is rejected, "valid_login" is accepted. */
  lemma LoginExamples()
    ensures !LoginValid(Some(""))
    ensures !LoginValid(Some("Invalid Log"))
    ensures !LoginValid(None)
    ensures LoginValid(Some("valid_login"))
  {
    assert "Invalid Log"[7] == ' ';
    assert "valid_login"[0] > ' ';
    TrimEmptyIff("valid_login");
  }

  /** validateName: a null or blank name is replaced by the login; any other
      name is kept; no other field changes. */
  function WithDefaultName(u: User): (r: User)
    ensures IsNullOrBlank(u.name) ==> r.name == u.login
    ensures !IsNullOrBlank(u.name) ==> r.name == u.name
    ensures r.(name := u.name) == u
  {
    if IsNullOrBlank(u.name) then u.(name := u.login) else u
  }

  /** Defaulting the name twice is the same as once. */
  lemma WithDefaultNameIdempotent(u: User)
    ensures WithDefaultName(WithDefaultName(u)) == WithDefaultName(u)
  {
  }

  /** A login accepted by the bean constraints can still be blank to
      String.isBlank (a lone U+2000 EN QUAD), in which case the defaulted name
      is blank too. */
  lemma ValidLoginCanBeBlankName()
    ensures LoginValid(Some("\U{2000}"))
    ensures IsNullOrBlank(WithDefaultName(NewUser(Some("a@b"), Some("\U{2000}"), None, None)).name)
  {
    assert "\U{2000}"[0] > ' ';
    TrimEmptyIff("\U{2000}");
  }
}
