/** A film record and its field constraints. */
module FilmModel {
  import opened Results
  import opened Text
  import opened Dates
  import Constants
  import ReleaseDateValidation

  /** `genres` is null until the enrichment step sets it; when set it is an
      id-ordered genre set (see GenreSet). */
  datatype Film = Film(
    id: int,
    name: Option<string>,
    description: Option<string>,
    releaseDate: Option<Date>,
    duration: int,
    likes: set<int>,
    mpa: Option<Constants.Mpa>,
    genres: Option<seq<Constants.Genre>>)

  /** `@Size(max = 200)` on the description. */
  const MaxDescriptionLength := 200

  /** `new Film()` followed by the four setters: id 0, an empty like set,
      and no rating or genres. */
  function NewFilm(name: Option<string>, description: Option<string>,
                   releaseDate: Option<Date>, duration: int): (f: Film)
    ensures f.likes == {}
    ensures f.mpa.None? && f.genres.None?
    ensures f.name == name && f.description == description
    ensures f.releaseDate == releaseDate && f.duration == duration
  {
    Film(0, name, description, releaseDate, duration, {}, None, None)
  }

  /** `@NotBlank` name. */
  predicate NameValid(f: Film) {
    NotBlank(f.name)
  }

  /** `@Size(max = 200)`: a null description passes. */
  predicate DescriptionValid(f: Film) {
    f.description.None? || |f.description.value| <= MaxDescriptionLength
  }

  /** `@NotNull` together with `@ReleaseValidDate`. */
  predicate ReleaseDateValid(f: Film) {
    f.releaseDate.Some? && ReleaseDateValidation.IsValid(f.releaseDate)
  }

  /** `@Positive` duration. */
  predicate DurationValid(f: Film) {
    f.duration > 0
  }

  /** All field constraints of the film. */
  predicate Valid(f: Film) {
    NameValid(f) && DescriptionValid(f) && ReleaseDateValid(f) && DurationValid(f)
  }

  /** Adds `userId` to the like set. */
  function WithLike(f: Film, userId: int): (r: Film)
    ensures userId in r.likes
    ensures r.likes - {userId} == f.likes - {userId}
    ensures r.(likes := f.likes) == f
  {
    f.(likes := f.likes + {userId})
  }

  /** Likes have set semantics: liking twice is liking once, and the count
      grows by at most one. */
  lemma WithLikeIdempotent(f: Film, userId: int)
    ensures WithLike(WithLike(f, userId), userId) == WithLike(f, userId)
    ensures |WithLike(f, userId).likes| == |f.likes| + (if userId in f.likes then 0 else 1)
  {
    if userId in f.likes {
      assert f.likes + {userId} == f.likes;
    }
  }

  /** A film built with `new Film()` and the four setters passes the bean
      constraints exactly when its name has a character above U+0020, its
      description is absent or at most 200 characters, its release date is
      present and not before the floor, and its duration is positive. */
  lemma NewFilmValidIff(name: Option<string>, description: Option<string>,
                        releaseDate: Option<Date>, duration: int)
    ensures Valid(NewFilm(name, description, releaseDate, duration)) <==>
      && name.Some? && (exists i :: 0 <= i < |name.value| && name.value[i] > ' ')
      && (description.None? || |description.value| <= MaxDescriptionLength)
      && releaseDate.Some? && !Before(releaseDate.value, ReleaseDateValidation.MinReleaseDate)
      && duration > 0
  {
    if name.Some? {
      TrimEmptyIff(name.value);
    }
  }

  /** The boundary cases the validation tests use: a 200-character
      description passes and a 201-character one fails; a release date three
      days before the floor fails, and a negative duration fails. */
  lemma ValidationExamples(f: Film)
    requires Valid(f)
    ensures DescriptionValid(f.(description := Some(seq(200, _ => 'a'))))
    ensures !DescriptionValid(f.(description := Some(seq(201, _ => 'a'))))
    ensures !Valid(f.(releaseDate := Some(MinusDays(ReleaseDateValidation.MinReleaseDate, 3))))
    ensures !Valid(f.(duration := -5))
  {
    ReleaseDateValidation.DaysBeforeFloorRejected(3);
  }
}
