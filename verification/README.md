# filmorate core in Dafny

This project models the core of filmorate, a small film-and-user service. The core is:

- **Friendship state machine.** Each user keeps a map from friend id to a `FriendshipStatus` (PENDING or CONFIRMED). It is driven by `UserService` over the in-memory user store.
- **Film write path.** `FilmService` checks a film's MPA rating and genres against the fixed catalogs in `Constants`. It then replaces them with the full catalog records and keeps the genres as a TreeSet ordered by genre id. `FilmService` also guards likes and edits the genres of a stored film.
- **Id-counter maps.** The two in-memory stores and the two controllers each keep one: a `HashMap` keyed by id plus an `idCounter` that starts at 1.
- **Field constraints.** The release-date floor of 28 December 1895, checked by `@ReleaseValidDate` and again by `FilmController`. The `@NotBlank` and `\S+` constraints on a login. The substitution of the login for a null or blank user name.

Everything is modelled with immutable values:
- A store is a `map<int, T>` plus its counter (`IdStore.Store`).
- A call that mutates Java objects becomes a function from the old store to the new store.
- A thrown exception becomes `Err(e)` of `Results.Result`, with `e` in {NotFound, NoRow, IllegalState, Validation, NullReference}.
- A controller endpoint returns its next state together with its response, so "a rejected request changes nothing" is part of its contract.
- A Java `null` is `Option.None`.
- `LocalDate` is a proleptic Gregorian `Dates.Date` compared lexicographically.
- Strings are `seq<char>`.

`String.isBlank` (Character.isWhitespace), the `trim()` used by `@NotBlank` (characters up to U+0020) and the ASCII `\s` of `@Pattern` are three different predicates in `Text` and `UserModel`.

The service layer is bound to the in-memory stores:
- `UserService` calls to `UserStorage` are resolved against `InMemoryUserStorage`.
- `FilmService` calls to `FilmStorage` and `UserStorage` are resolved against `InMemoryFilmStorage` and `InMemoryUserStorage`.
- Genre and MPA lookups are resolved against the `Constants` catalogs. An unknown id has no row, which the model reports as the error kind `NoRow` (Spring's `EmptyResultDataAccessException`). `validateMpa`, `validateGenre` and the try block of `create` catch it and rethrow NotFound. The try block of `update` wraps only the film's own lookup; its catalog lookups sit outside it, but after the two validations they cannot meet a missing row. `addGenreToFilm` looks the genre up outside any try, so there the missing row escapes untranslated (`FilmService.AddGenreToFilm`), and `GlobalExceptionHandler` answers it as an internal error rather than 404.

The friendship protocol behaves differently from the handshake its statuses suggest. The model follows the code, and the lemmas in `FriendshipInvariant` state the consequences:

- **A first request confirms at once.** A request that stays PENDING until it is confirmed or reciprocated is not what the code does. Instead, `UserService.addFriend` calls the store's `addFriend` twice with PENDING, once in each direction. The second call finds the first call's PENDING edge and upgrades both edges to CONFIRMED. So one request already makes two users mutual friends (`OneRequestMakesMutualFriends`). States built by create, addFriend, removeFriend and delete have only CONFIRMED, mirrored edges (`Mirrored`, preserved by each of those calls). `update` breaks the mirror, as described below.
- **`confirmFriend` can never succeed from mirrored states.** It looks at the confirming user's own edge, not the requester's edge toward them. It throws IllegalState unless that edge is PENDING, which no such state has (`ConfirmFriendAlwaysFails`).
- **`getFriendRequests` returns the user's own PENDING entries.** These are outgoing, not incoming. From mirrored states the list is always empty (`NoFriendRequests`).
- **`getFriends` and `getCommonFriends` read every key of the friend map**, whatever its status, not only CONFIRMED ones.
- **`update` drops the friend map.** The request body's friend map is `@JsonIgnore`d and so empty. A service `update` replaces the stored user's friend map with it, one-sidedly, which breaks the mirror (`UpdateBreaksMirror`).

On the film side, `InMemoryFilmStorage.update` is an upsert without an existence check. A film upserted under an id the counter has not reached is silently overwritten by the next `create` (`UpsertAheadOfCounterIsOverwritten`). `FilmService.update` checks existence itself first.

## Model

| member | source | states |
|---|---|---|
| Constants.FindById | src/main/java/ru/yandex/practicum/filmorate/model/Constants.java:6-21 | a catalog lookup returns an entry carrying the id, and returns nothing exactly when no entry carries it |
| Constants.GenreById | src/main/java/ru/yandex/practicum/filmorate/model/Constants.java:6-13 | a genre id resolves exactly when it is 1..6, to the catalog record with that id; otherwise the lookup finds no row (NoRow) |
| Constants.MpaById | src/main/java/ru/yandex/practicum/filmorate/model/Constants.java:15-21 | an MPA id resolves exactly when it is 1..5, to the catalog record with that id; otherwise the lookup finds no row (NoRow) |
| Constants.GenreCatalogIds | src/main/java/ru/yandex/practicum/filmorate/model/Constants.java:6-13 | the six genres carry ids 1..6 in order |
| Constants.MpaCatalogIds | src/main/java/ru/yandex/practicum/filmorate/model/Constants.java:15-21 | the five ratings carry ids 1..5 in order |
| Constants.GenreDeterminedById | src/main/java/ru/yandex/practicum/filmorate/model/Constants.java:6-13 | two genre catalog records with the same id are the same record |
| Constants.MpaDeterminedById | src/main/java/ru/yandex/practicum/filmorate/model/Constants.java:15-21 | two MPA catalog records with the same id are the same record |
| Constants.LookupsAreSearches | src/main/java/ru/yandex/practicum/filmorate/model/Constants.java:6-21 | looking an id up by its position in a catalog finds a record exactly when searching the catalog for that id does, and finds the same record |
| Constants.KnownEntries | src/main/java/ru/yandex/practicum/filmorate/model/Constants.java:7-20 | the lookups return the catalog's names (Комедия, Драма, G, PG, NC-17) for their ids |
| Dates.BeforeIsStrictTotalOrder | src/main/java/ru/yandex/practicum/filmorate/validation/ReleaseDateValidation.java:17 | `isBefore` on dates is irreflexive, asymmetric, transitive and total |
| Dates.PrevNextRoundTrip | src/test/java/ru/yandex/practicum/filmorate/FilmValidationTests.java:51 | stepping a valid date back a day and forward again, or forward and back, returns it |
| Dates.PrevDayIsAdjacent | src/main/java/ru/yandex/practicum/filmorate/validation/ReleaseDateValidation.java:17 | a date is after the day before d exactly when it is not before d: no date lies between |
| Dates.MinusDays | src/test/java/ru/yandex/practicum/filmorate/FilmValidationTests.java:51 | subtracting a positive number of days from a valid date gives a valid, strictly earlier date |
| Text.TrimStart | src/main/java/ru/yandex/practicum/filmorate/model/Film.java:18 | leading trim removes a prefix of characters up to U+0020 and stops at the first character above it |
| Text.TrimEnd | src/main/java/ru/yandex/practicum/filmorate/model/Film.java:18 | trailing trim removes a suffix of characters up to U+0020 and stops at the last character above it |
| Text.TrimEmptyIff | src/main/java/ru/yandex/practicum/filmorate/model/User.java:21-23 | a string trims to empty exactly when every character is at most U+0020, which is the case `@NotBlank` rejects |
| ReleaseDateValidation.ValidIffOnOrAfterFloor | src/main/java/ru/yandex/practicum/filmorate/validation/ReleaseDateValidation.java:9-18 | a present date is accepted exactly when it is the floor or later, i.e. after 27 December 1895 |
| ReleaseDateValidation.FloorAndNullAreValid | src/main/java/ru/yandex/practicum/filmorate/validation/ReleaseDateValidation.java:13-17 | the floor itself is accepted and a null date is left to `@NotNull` |
| ReleaseDateValidation.DaysBeforeFloorRejected | src/test/java/ru/yandex/practicum/filmorate/FilmValidationTests.java:48-56 | every date a positive number of days before the floor is rejected; three days before is 25 December 1895 |
| UserModel.NewUser | src/main/java/ru/yandex/practicum/filmorate/model/User.java:14-31 | a deserialized user starts with an empty friend map and the given profile fields |
| UserModel.ConfirmedFriendIds | src/main/java/ru/yandex/practicum/filmorate/model/User.java:33-39 | the confirmed ids are exactly the keys whose entry is CONFIRMED |
| UserModel.PendingFriendIds | src/main/java/ru/yandex/practicum/filmorate/model/User.java:41-47 | the pending ids are exactly the keys whose entry is PENDING |
| UserModel.FriendIdsPartitionKeys | src/main/java/ru/yandex/practicum/filmorate/model/User.java:30-47 | the confirmed and pending ids are disjoint and together are all the friend map's keys |
| UserModel.LoginValidIff | src/main/java/ru/yandex/practicum/filmorate/model/User.java:21-23 | for every login, null included: it passes `@NotBlank` and `\S+` exactly when it is present, non-empty, free of ASCII space, tab, line feed, vertical tab, form feed and carriage return, and has some character above U+0020 |
| UserModel.PrintableLoginValidIff | src/main/java/ru/yandex/practicum/filmorate/model/User.java:21-23 | for a present login without control characters, validity is non-empty and free of spaces |
| UserModel.ControlCharacterLogins | src/main/java/ru/yandex/practicum/filmorate/model/User.java:21-23 | the two constraints differ on control characters: a login made only of characters at or below U+0020 is always rejected as blank, while `\S+` alone would accept it exactly when none of them is a space or tab-to-carriage-return character |
| UserModel.LoginExamples | src/test/java/ru/yandex/practicum/filmorate/UserValidationTests.java:49-68 | the empty login and "Invalid Log" are rejected, "valid_login" is accepted |
| UserModel.WithDefaultName | src/main/java/ru/yandex/practicum/filmorate/service/UserService.java:136-140 | a null or blank name becomes the login, any other name is kept, and no other field changes |
| UserModel.WithDefaultNameIdempotent | src/main/java/ru/yandex/practicum/filmorate/service/UserService.java:136-140 | defaulting the name twice is the same as once |
| UserModel.ValidLoginCanBeBlankName | src/main/java/ru/yandex/practicum/filmorate/model/User.java:21-25 | a login that passes its constraints (a lone U+2000) can still leave the defaulted name blank, because `isBlank` and `@NotBlank` disagree |
| FilmModel.NewFilm | src/main/java/ru/yandex/practicum/filmorate/model/Film.java:15-31 | a film built by `new Film()` and the four setters has id 0, an empty like set, no rating and null genres, and carries the given name, description, release date and duration |
| FilmModel.NewFilmValidIff | src/main/java/ru/yandex/practicum/filmorate/model/Film.java:15-31 | such a film passes the bean constraints exactly when its name has a character above U+0020, its description is absent or at most 200 characters, its release date is present and not before 1895-12-28, and its duration is positive |
| FilmModel.WithLike | src/main/java/ru/yandex/practicum/filmorate/model/Film.java:30 | adding a like puts the user in the like set and changes nothing else |
| FilmModel.WithLikeIdempotent | src/main/java/ru/yandex/practicum/filmorate/model/Film.java:30 | liking twice is liking once; the like count grows by one only for a new user |
| FilmModel.ValidationExamples | src/test/java/ru/yandex/practicum/filmorate/FilmValidationTests.java:28-66 | a 200-character description passes and a 201-character one fails; a date three days before the floor or a duration of -5 makes a valid film invalid |
| IdStore.Empty | src/main/java/ru/yandex/practicum/filmorate/storage/user/InMemoryUserStorage.java:12-13 | a fresh map is empty with the counter at 1 |
| IdStore.Add | src/main/java/ru/yandex/practicum/filmorate/storage/user/InMemoryUserStorage.java:15-20 | storing under `idCounter++` uses an id not yet in use, advances the counter and changes no stored entry |
| IdStore.Put | src/main/java/ru/yandex/practicum/filmorate/storage/user/InMemoryUserStorage.java:27 | `put` on an existing id replaces only that entry and keeps the counter |
| IdStore.Remove | src/main/java/ru/yandex/practicum/filmorate/storage/user/InMemoryUserStorage.java:45-48 | `remove` drops only that id and keeps the counter |
| IdStore.ValuesAreStored | src/main/java/ru/yandex/practicum/filmorate/storage/user/InMemoryUserStorage.java:40-43 | every listed entity is stored under its own id |
| IdStore.ValuesCount | src/main/java/ru/yandex/practicum/filmorate/storage/user/InMemoryUserStorage.java:40-43 | the listing has exactly as many entities as the map has ids |
| IdStore.KeyedValuesCount | src/main/java/ru/yandex/practicum/filmorate/storage/user/InMemoryUserStorage.java:40-43 | a map whose entries sit under their own ids, all below a bound, lists as many distinct entities as it has keys |
| IdStore.AddAllIds | src/main/java/ru/yandex/practicum/filmorate/storage/user/InMemoryUserStorage.java:15-20 | n creates take the next n counter values in order, each holding its entity |
| IdStore.AddAllValue | src/main/java/ru/yandex/practicum/filmorate/storage/user/InMemoryUserStorage.java:15-20 | the i-th of successive creates is stored under counter + i and stays there through the later creates |
| IdStore.AddAllKeeps | src/main/java/ru/yandex/practicum/filmorate/storage/user/InMemoryUserStorage.java:15-20 | creates never overwrite a stored entity |
| IdStore.RemovedIdNeverReused | src/main/java/ru/yandex/practicum/filmorate/storage/user/InMemoryUserStorage.java:45-48 | a deleted id is not handed out again by later creates |
| InMemoryUserStorage.Empty | src/main/java/ru/yandex/practicum/filmorate/storage/user/InMemoryUserStorage.java:12-13 | the store starts empty with the counter at 1 |
| InMemoryUserStorage.Create | src/main/java/ru/yandex/practicum/filmorate/storage/user/InMemoryUserStorage.java:15-20 | the user takes the counter's id and is stored under it; no other user changes; the invariant is kept |
| InMemoryUserStorage.Update | src/main/java/ru/yandex/practicum/filmorate/storage/user/InMemoryUserStorage.java:22-29 | an unknown id is NotFound; otherwise only that user is replaced |
| InMemoryUserStorage.GetById | src/main/java/ru/yandex/practicum/filmorate/storage/user/InMemoryUserStorage.java:31-38 | returns the stored user exactly when the id is stored, otherwise NotFound |
| InMemoryUserStorage.GetAllExact | src/main/java/ru/yandex/practicum/filmorate/storage/user/InMemoryUserStorage.java:40-43 | the listing holds exactly the stored users, one per id |
| InMemoryUserStorage.Delete | src/main/java/ru/yandex/practicum/filmorate/storage/user/InMemoryUserStorage.java:45-48 | removes only that id (a no-op when absent) and keeps the counter |
| InMemoryUserStorage.GetFriends | src/main/java/ru/yandex/practicum/filmorate/storage/user/InMemoryUserStorage.java:50-53 | the friend ids are exactly the keys of the user's friend map, whatever their status; NotFound for an unknown user |
| InMemoryUserStorage.AddFriend | src/main/java/ru/yandex/practicum/filmorate/storage/user/InMemoryUserStorage.java:55-69 | both users must exist; a PENDING edge back from the friend upgrades both edges to CONFIRMED, otherwise only the user's edge is set to the given status |
| InMemoryUserStorage.UpdateFriendStatus | src/main/java/ru/yandex/practicum/filmorate/storage/user/InMemoryUserStorage.java:71-75 | sets exactly the one edge; NotFound for an unknown user |
| InMemoryUserStorage.RemoveFriend | src/main/java/ru/yandex/practicum/filmorate/storage/user/InMemoryUserStorage.java:77-83 | removes both directions of the edge and nothing else |
| InMemoryUserStorage.GetFriendshipStatus | src/main/java/ru/yandex/practicum/filmorate/storage/user/InMemoryUserStorage.java:85-89 | returns the user's entry for the friend, or null when there is none |
| InMemoryUserStorage.StatusRoundTrip | src/main/java/ru/yandex/practicum/filmorate/storage/user/InMemoryUserStorage.java:71-89 | a status written with updateFriendStatus is the one read back |
| InMemoryUserStorage.CreateGetDelete | src/main/java/ru/yandex/practicum/filmorate/storage/user/InMemoryUserStorage.java:15-48 | a created user is found under its id, and not after it is deleted |
| UserService.Create | src/main/java/ru/yandex/practicum/filmorate/service/UserService.java:24-27 | the user is stored under the next id with its name defaulted, the counter advances by one, and no other stored user changes |
| UserService.Update | src/main/java/ru/yandex/practicum/filmorate/service/UserService.java:29-35 | an unknown id is NotFound; otherwise the user replaces the stored one, name defaulted, no other user changes, the id counter is unchanged and the store stays well-formed |
| UserService.AddFriend | src/main/java/ru/yandex/practicum/filmorate/service/UserService.java:45-61 | NotFound unless both users exist; unless the reverse edge is already CONFIRMED, both edges end CONFIRMED and nothing else changes; otherwise nothing changes |
| UserService.RemoveFriend | src/main/java/ru/yandex/practicum/filmorate/service/UserService.java:63-76 | NotFound unless both exist and the user's map holds the friend; then neither holds an edge to the other and nothing else changes |
| UserService.ConfirmFriend | src/main/java/ru/yandex/practicum/filmorate/service/UserService.java:113-126 | NotFound for an unknown user; IllegalState unless the user's own edge is PENDING; then both edges become CONFIRMED |
| UserService.GetFriends | src/main/java/ru/yandex/practicum/filmorate/service/UserService.java:96-102 | succeeds exactly when the user and every id in the friend map are stored, and otherwise fails with NotFound; the result is exactly the ids in the friend map |
| UserService.CommonFriends | src/main/java/ru/yandex/practicum/filmorate/service/UserService.java:78-94 | succeeds exactly when both users and every id the two friend maps share are stored (an id in only one map is never looked up), and otherwise fails with NotFound; the result is exactly the ids in both friend maps |
| UserService.GetFriendRequests | src/main/java/ru/yandex/practicum/filmorate/service/UserService.java:104-111 | succeeds exactly when the user and every id of its own PENDING entries are stored (other entries are never looked up), and otherwise fails with NotFound; the result is exactly the ids of those PENDING entries |
| UserService.GetConfirmedFriends | src/main/java/ru/yandex/practicum/filmorate/service/UserService.java:128-134 | succeeds exactly when the user and every id of its own CONFIRMED entries are stored (other entries are never looked up), and otherwise fails with NotFound; the result is exactly the ids of those CONFIRMED entries |
| UserService.CommonFriendsIsIntersection | src/main/java/ru/yandex/practicum/filmorate/service/UserService.java:78-102 | the common friends are the intersection of the two users' friend lists |
| UserService.RequestsAndConfirmedSplitFriends | src/main/java/ru/yandex/practicum/filmorate/service/UserService.java:96-134 | the pending and confirmed lists are disjoint and together are the friend list |
| FriendshipInvariant.EmptyIsMirrored | src/main/java/ru/yandex/practicum/filmorate/storage/user/InMemoryUserStorage.java:12-13 | the empty store satisfies the friendship invariant (all edges CONFIRMED, symmetric, between stored users) |
| FriendshipInvariant.CreateKeepsMirrored | src/main/java/ru/yandex/practicum/filmorate/service/UserService.java:24-27 | creating a user with an empty friend map keeps the invariant |
| FriendshipInvariant.PairStepKeepsMirrored | src/main/java/ru/yandex/practicum/filmorate/service/UserService.java:45-76 | a step that touches only one pair and leaves it both CONFIRMED or both absent keeps the invariant |
| FriendshipInvariant.AddFriendKeepsMirrored | src/main/java/ru/yandex/practicum/filmorate/service/UserService.java:45-61 | addFriend keeps the invariant |
| FriendshipInvariant.RemoveFriendKeepsMirrored | src/main/java/ru/yandex/practicum/filmorate/service/UserService.java:63-76 | removeFriend keeps the invariant |
| FriendshipInvariant.DeleteKeepsMirrored | src/main/java/ru/yandex/practicum/filmorate/storage/user/InMemoryUserStorage.java:45-48 | deleting a user keeps the invariant: the edges other users hold toward the deleted id stay behind, and the invariant asks for a mirror only when the target is stored |
| FriendshipInvariant.ConfirmFriendAlwaysFails | src/main/java/ru/yandex/practicum/filmorate/service/UserService.java:113-119 | under the invariant, confirmFriend between stored users always throws IllegalState |
| FriendshipInvariant.NoFriendRequests | src/main/java/ru/yandex/practicum/filmorate/service/UserService.java:104-111 | under the invariant, every stored user's friend-request list is empty |
| FriendshipInvariant.OneRequestMakesMutualFriends | src/main/java/ru/yandex/practicum/filmorate/service/UserService.java:57-59 | a single addFriend between two fresh users makes each a CONFIRMED friend of the other, with no pending entry |
| FriendshipInvariant.FirstRequestConfirmsBoth | src/main/java/ru/yandex/practicum/filmorate/service/UserService.java:45-61 | for any two stored users with empty friend maps, one addFriend makes each the sole CONFIRMED friend of the other, and neither has an open request |
| FriendshipInvariant.UpdateBreaksMirror | src/main/java/ru/yandex/practicum/filmorate/service/UserService.java:29-35 | after two users are friends, updating one with a deserialized body empties its map while the other keeps its edge |
| FriendshipInvariant.EmptyingFriendsBreaksMirror | src/main/java/ru/yandex/practicum/filmorate/service/UserService.java:29-35 | an update carrying an empty friend map succeeds for a stored user, and leaves the store unmirrored whenever another stored user holds an edge toward that user |
| GenreSet.Insert | src/main/java/ru/yandex/practicum/filmorate/service/FilmService.java:126 | adding to the id-ordered set adds the genre's id and introduces no element but the genre |
| GenreSet.InsertKeepsOrder | src/main/java/ru/yandex/practicum/filmorate/service/FilmService.java:126 | adding keeps the set ordered by strictly ascending id |
| GenreSet.InsertContents | src/main/java/ru/yandex/practicum/filmorate/service/FilmService.java:126 | adding an id already present changes nothing; adding a new id keeps every element and adds the genre |
| GenreSet.InsertFromCatalog | src/main/java/ru/yandex/practicum/filmorate/service/FilmService.java:124-126 | adding a catalog record to catalog records gives catalog records |
| GenreSet.RemoveId | src/main/java/ru/yandex/practicum/filmorate/service/FilmService.java:132 | `removeIf` keeps exactly the elements whose id differs |
| GenreSet.RemoveIdContents | src/main/java/ru/yandex/practicum/filmorate/service/FilmService.java:132 | removing takes exactly that id away, and is a no-op when no element has it |
| GenreSet.RemoveIdKeepsOrder | src/main/java/ru/yandex/practicum/filmorate/service/FilmService.java:132 | removing keeps the set id-ordered |
| GenreSet.RemoveUndoesInsert | src/main/java/ru/yandex/practicum/filmorate/service/FilmService.java:123-134 | removing the id of a genre just added under a new id restores the set |
| GenreSet.CanonicalById | src/main/java/ru/yandex/practicum/filmorate/service/FilmService.java:48-50 | two id-ordered sets of catalog records with the same ids are identical |
| InMemoryFilmStorage.Empty | src/main/java/ru/yandex/practicum/filmorate/storage/film/InMemoryFilmStorage.java:12-13 | the store starts empty with the counter at 1 |
| InMemoryFilmStorage.Create | src/main/java/ru/yandex/practicum/filmorate/storage/film/InMemoryFilmStorage.java:15-20 | the film takes the counter's id and is stored under it; no other film changes |
| InMemoryFilmStorage.Update | src/main/java/ru/yandex/practicum/filmorate/storage/film/InMemoryFilmStorage.java:22-26 | the film is stored under its own id whether or not that id existed; the counter is untouched |
| InMemoryFilmStorage.GetById | src/main/java/ru/yandex/practicum/filmorate/storage/film/InMemoryFilmStorage.java:28-35 | returns the stored film exactly when the id is stored, otherwise NotFound |
| InMemoryFilmStorage.GetAllExact | src/main/java/ru/yandex/practicum/filmorate/storage/film/InMemoryFilmStorage.java:37-40 | the listing holds exactly the stored films, one per id |
| InMemoryFilmStorage.Delete | src/main/java/ru/yandex/practicum/filmorate/storage/film/InMemoryFilmStorage.java:42-45 | removes only that id and keeps the counter |
| InMemoryFilmStorage.GetLikes | src/main/java/ru/yandex/practicum/filmorate/storage/film/InMemoryFilmStorage.java:47-54 | the film's like set, or NotFound for an unknown film |
| InMemoryFilmStorage.CreateGetDelete | src/main/java/ru/yandex/practicum/filmorate/storage/film/InMemoryFilmStorage.java:15-54 | a created film is found under its id with its likes, and not after it is deleted |
| InMemoryFilmStorage.UpsertAheadOfCounterIsOverwritten | src/main/java/ru/yandex/practicum/filmorate/storage/film/InMemoryFilmStorage.java:15-26 | a film upserted under id 1 into a fresh store is replaced by the next create, which also takes id 1 |
| FilmService.ValidateMpa | src/main/java/ru/yandex/practicum/filmorate/service/FilmService.java:136-144 | a null rating passes; a present one passes exactly when its id is in the catalog; the missing row is rethrown as NotFound |
| FilmService.ValidateGenreSeq | src/main/java/ru/yandex/practicum/filmorate/service/FilmService.java:148-154 | the loop passes exactly when every genre id is in the catalog; the first missing row is rethrown as NotFound |
| FilmService.ValidateGenres | src/main/java/ru/yandex/practicum/filmorate/service/FilmService.java:146-156 | a null set passes; otherwise it passes exactly when every id is in the catalog |
| FilmService.ResolveMpa | src/main/java/ru/yandex/practicum/filmorate/service/FilmService.java:42-45 | a present rating is replaced by the catalog record with its id; a null one stays null |
| FilmService.LookupGenres | src/main/java/ru/yandex/practicum/filmorate/service/FilmService.java:49 | the catalog lookup of every genre succeeds exactly when every id is in 1..6; otherwise the missing row (NoRow) propagates |
| FilmService.LookupGenresPositions | src/main/java/ru/yandex/practicum/filmorate/service/FilmService.java:49 | a successful lookup keeps the length, and position i holds the catalog record for the i-th input id |
| FilmService.InsertAllOrder | src/main/java/ru/yandex/practicum/filmorate/service/FilmService.java:50 | collecting into the id-ordered TreeSet yields an id-ordered set |
| FilmService.InsertAllFromCatalog | src/main/java/ru/yandex/practicum/filmorate/service/FilmService.java:48-50 | collecting catalog records yields only catalog records |
| FilmService.InsertAllIds | src/main/java/ru/yandex/practicum/filmorate/service/FilmService.java:50 | the collected set has exactly the ids added |
| FilmService.CollectGenres | src/main/java/ru/yandex/practicum/filmorate/service/FilmService.java:48-50 | succeeds exactly when every id is known, giving an id-ordered set of catalog records with exactly the input's ids |
| FilmService.CatalogFilterOrder | src/main/java/ru/yandex/practicum/filmorate/service/FilmService.java:48-50 | the reference filter of an ordered catalog is ordered |
| FilmService.CatalogFilterIds | src/main/java/ru/yandex/practicum/filmorate/service/FilmService.java:48-50 | the reference filter keeps exactly the requested ids the catalog has |
| FilmService.CollectGenresIsCatalogFilter | src/main/java/ru/yandex/practicum/filmorate/service/FilmService.java:47-51 | the enriched genres equal the catalog's records for the requested ids in catalog order, independent of input order and duplicates |
| FilmService.CollectGenresIgnoresOrder | src/main/java/ru/yandex/practicum/filmorate/service/FilmService.java:47-51 | inputs with the same genre ids enrich to the same set |
| FilmService.ResolveGenres | src/main/java/ru/yandex/practicum/filmorate/service/FilmService.java:47-54 | a null or empty set becomes an empty set; otherwise the collected catalog set |
| FilmService.Enrich | src/main/java/ru/yandex/practicum/filmorate/service/FilmService.java:42-54 | succeeds exactly when rating and genres are known; the result differs from the input only in a catalog rating with the same id and a non-null ordered catalog genre set with the same ids |
| FilmService.Create | src/main/java/ru/yandex/practicum/filmorate/service/FilmService.java:38-59 | NotFound exactly when the rating or a genre is unknown; otherwise the enriched film is stored under the next id and nothing else changes |
| FilmService.Update | src/main/java/ru/yandex/practicum/filmorate/service/FilmService.java:61-85 | NotFound exactly when the rating or a genre is unknown or the film is not stored; otherwise the enriched film, likes included, replaces the stored one |
| FilmService.LikeGuard | src/main/java/ru/yandex/practicum/filmorate/service/FilmService.java:99-117 | addLike and removeLike proceed exactly when both the film and the user exist, else NotFound |
| FilmService.AddGenreToFilm | src/main/java/ru/yandex/practicum/filmorate/service/FilmService.java:123-128 | NotFound for an unknown film; for a stored film and a genre id outside the catalog, the missing row escapes untranslated (NoRow); NullReference for null genres; otherwise only that film's genre ids gain the id |
| FilmService.RemoveGenreFromFilm | src/main/java/ru/yandex/practicum/filmorate/service/FilmService.java:130-134 | NotFound for an unknown film, NullReference for null genres; otherwise only that film loses exactly the genres with the id, with no catalog check |
| FilmInvariant.EmptyIsServiceState | src/main/java/ru/yandex/practicum/filmorate/storage/film/InMemoryFilmStorage.java:12-13 | the empty store satisfies the film invariant (every film has a non-null, id-ordered set of catalog genres) |
| FilmInvariant.CreateKeepsServiceState | src/main/java/ru/yandex/practicum/filmorate/service/FilmService.java:38-59 | create keeps the film invariant |
| FilmInvariant.UpdateKeepsServiceState | src/main/java/ru/yandex/practicum/filmorate/service/FilmService.java:61-85 | update keeps the film invariant |
| FilmInvariant.AddGenreKeepsServiceState | src/main/java/ru/yandex/practicum/filmorate/service/FilmService.java:123-128 | addGenreToFilm keeps the film invariant |
| FilmInvariant.RemoveGenreKeepsServiceState | src/main/java/ru/yandex/practicum/filmorate/service/FilmService.java:130-134 | removeGenreFromFilm keeps the film invariant |
| FilmInvariant.GenreEditsNeverHitNull | src/main/java/ru/yandex/practicum/filmorate/service/FilmService.java:123-134 | under the invariant the genre edits fail only for an unknown film or, when adding, an unknown genre, and never with NullReference |
| FilmInvariant.AddGenreIdempotent | src/main/java/ru/yandex/practicum/filmorate/service/FilmService.java:123-128 | adding a genre twice is adding it once |
| FilmInvariant.AddThenRemoveGenre | src/main/java/ru/yandex/practicum/filmorate/service/FilmService.java:123-134 | removing a genre the film did not have, just after adding it, restores the store |
| FilmInvariant.RemoveThenAddGenre | src/main/java/ru/yandex/practicum/filmorate/service/FilmService.java:123-134 | adding back a genre the film had, just after removing it, restores the store |
| FilmController.ValidateFilmReleaseDate | src/main/java/ru/yandex/practicum/filmorate/controller/FilmController.java:52-62 | a null date throws NullReference; any other failure is Validation; passing implies a date and a positive duration |
| FilmController.ControllerCheckMatchesConstraints | src/main/java/ru/yandex/practicum/filmorate/controller/FilmController.java:52-62 | the inline check passes exactly when the release-date and duration bean constraints hold, so a film that passed bean validation never fails it |
| FilmController.CreateFilm | src/main/java/ru/yandex/practicum/filmorate/controller/FilmController.java:23-30 | a rejected film leaves map and counter unchanged; an accepted one is stored under the counter's id and nothing else changes |
| FilmController.UpdateFilm | src/main/java/ru/yandex/practicum/filmorate/controller/FilmController.java:32-43 | an unknown id is Validation before the date is checked; a failed check changes nothing; otherwise the film replaces the stored one |
| FilmController.GetAllFilms | src/main/java/ru/yandex/practicum/filmorate/controller/FilmController.java:45-50 | exactly the stored films are listed: each stored film appears, and each listed film is stored under some id |
| FilmController.CreateFilmsNumbersConsecutively | src/main/java/ru/yandex/practicum/filmorate/controller/FilmController.java:19-30 | accepted films get consecutive ids from the counter and rejected films consume none |
| UserController.CreateUser | src/main/java/ru/yandex/practicum/filmorate/controller/UserController.java:18-25 | the user, name defaulted, is stored under the counter's id; it never fails |
| UserController.UpdateUser | src/main/java/ru/yandex/practicum/filmorate/controller/UserController.java:27-36 | an unknown id is Validation and changes nothing; otherwise the name-defaulted user replaces the stored one |
| UserController.GetAllUsers | src/main/java/ru/yandex/practicum/filmorate/controller/UserController.java:38-41 | exactly the stored users are listed: each stored user appears, and each listed user is stored under some id |
| UserController.EmptyHasNamesDefaulted | src/main/java/ru/yandex/practicum/filmorate/controller/UserController.java:15-16 | before any request no stored user has an undefaulted name |
| UserController.EndpointsKeepNamesDefaulted | src/main/java/ru/yandex/practicum/filmorate/controller/UserController.java:18-48 | after create and update every stored user's name is already defaulted |
| UserController.StoredNameIsGivenOrLogin | src/main/java/ru/yandex/practicum/filmorate/controller/UserController.java:43-48 | a stored user's name is non-blank or equals its login |
| UserController.CreateUsersNumbersConsecutively | src/main/java/ru/yandex/practicum/filmorate/controller/UserController.java:15-25 | n creates hand out the next n ids in order |

## Left out

- JDBC-backed storage (`UserDbStorage`, `FilmDbStorage`, `GenreDbStorage`, `MpaDbStorage`): the services are modelled over the in-memory stores and the `Constants` catalogs. A failed catalog row lookup is kept as its own error kind, `NoRow`.
- Like mutation and `getPopular`: `FilmStorage` in this source declares no `addLike`, `removeLike` or `getPopular`, and `InMemoryFilmStorage` implements none. So `FilmService.addLike`/`removeLike` are modelled up to their existence guard (`FilmService.LikeGuard`), and like-set semantics as `FilmModel.WithLike`. The popularity ranking is not part of this model.
- `FilmService.getAll`/`getById` and `UserService.getAll`/`getById` only delegate. They are covered by `InMemoryFilmStorage.GetById`/`GetAll` and `InMemoryUserStorage.GetById`/`GetAll`.
- HTTP routing, `GlobalExceptionHandler`'s status mapping, logging, and `InMemoryUserHistory` are outside the core.
- Bean validation is not run before controller bodies. The controllers take an already-deserialized entity. `FilmController.ControllerCheckMatchesConstraints` relates the film body check to the annotations. `@Email` and `@PastOrPresent` are not modelled: they need an email grammar and a clock.
- FilmController.UpdateFilm, UserController.UpdateUser: the Java `ValidationException` (jakarta's in one, the project's own in the other) and a bean-validation failure are one error kind, `Validation`.
- Lists are modelled as sets: `getAll`, `getFriends` and the other list results. Their order comes from `HashMap` iteration, which the source does not fix. Results carry user ids rather than user records.
- Java `int` arithmetic: the id counters are unbounded, so the wrap-around after 2^31-1 creates is not modelled.
- String length is counted in characters, not UTF-16 code units. For the 200-character description limit the two differ only outside the Basic Multilingual Plane.
- FilmService.ResolveGenres / FilmService.AddGenreToFilm: a null or empty genre set is replaced by `new TreeSet<>()` without a comparator (`FilmService.java:53`, `:82`), and `addGenreToFilm` later adds to that set. The model orders every genre set by id, as the non-empty branch's `Comparator.comparingInt(Genre::getId)` does. That matches only if `Genre` is `Comparable` by id. `Genre.java` is not part of this model; if `Genre` is not `Comparable`, the first add to such a set throws ClassCastException, which the model does not represent.
- A `null` element inside a genre set is not modelled: the genre sequence holds no nulls.
- Concurrency: the maps are unsynchronised and each operation is modelled as one atomic step.
- A friendship protocol in which a request stays PENDING until confirmed is not modelled, because the code does not implement one (see above).
