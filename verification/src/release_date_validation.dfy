/** The `@ReleaseValidDate` constraint: a release date may not precede the
    first public film screening, 28 December 1895. */
module ReleaseDateValidation {
  import opened Results
  import opened Dates

  /** MIN_RELEASE_DATE, declared in FilmController and shared by this
      validator. */
  const MinReleaseDate: Date := Date(1895, 12, 28)

  /** isValid: a missing date is left to `@NotNull`; a present one must not
      be before the floor. */
  predicate IsValid(v: Option<Date>) {
    v.None? || !Before(v.value, MinReleaseDate)
  }

  /** The accepted dates are exactly those on or after the floor, and the
      latest rejected date is the day before it. */
  lemma ValidIffOnOrAfterFloor(d: Date)
    requires Valid(d)
    ensures IsValid(Some(d)) <==> (d == MinReleaseDate || Before(MinReleaseDate, d))
    ensures IsValid(Some(d)) <==> Before(PrevDay(MinReleaseDate), d)
  {
    BeforeIsStrictTotalOrder(d, MinReleaseDate, d);
    PrevDayIsAdjacent(MinReleaseDate, d);
  }

  /** The floor itself is accepted, and so is a missing date. */
  lemma FloorAndNullAreValid()
    ensures IsValid(Some(MinReleaseDate))
    ensures IsValid(None)
  {
  }

  /** Every date some whole number of days before the floor is rejected; the
      date three days before it is 25 December 1895. */
  lemma DaysBeforeFloorRejected(n: nat)
    requires n > 0
    ensures !IsValid(Some(MinusDays(MinReleaseDate, n)))
    ensures MinusDays(MinReleaseDate, 3) == Date(1895, 12, 25)
  {
  }
}
