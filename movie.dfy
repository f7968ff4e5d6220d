/** The Movie entity: its request form, its stored form, validate(), and the
    title lookups the movie repository answers. */
module MovieEntity {
  import opened Outcomes

  /** A movie as a request body carries it; every field may be null. */
  datatype MovieRequest = MovieRequest(
    id: Option<int>,
    title: Option<string>,
    genre: Option<string>,
    duration: Option<real>,
    rating: Option<real>,
    releaseYear: Option<int>)

  /** A stored movie. Only movies that passed validate() are saved, so no
      field is null. */
  datatype Movie = Movie(
    id: int,
    title: string,
    genre: string,
    duration: real,
    rating: real,
    releaseYear: int)

  const TitleEmpty := "Movie title cannot be empty"
  const GenreEmpty := "Movie genre cannot be empty"
  const DurationEmpty := "Movie duration cannot be empty"
  const DurationNegative := "Movie duration cannot be negative"
  const RatingEmpty := "Movie rating cannot be empty"
  const RatingNegative := "Movie rating cannot be negative"
  const ReleaseYearEmpty := "Movie release year cannot be empty"

  /** Movie.validate: None exactly when title and genre are non-empty,
      duration and rating are present and not negative (zero passes), and a
      release year is present (any year passes); otherwise the message of
      the first field, in declaration order, that fails. */
  function Validate(m: MovieRequest): (msg: Option<string>)
    ensures msg.None? <==>
              && m.title.Some? && m.title.value != ""
              && m.genre.Some? && m.genre.value != ""
              && m.duration.Some? && m.duration.value >= 0.0
              && m.rating.Some? && m.rating.value >= 0.0
              && m.releaseYear.Some?
    ensures msg == Some(TitleEmpty) <==> m.title.None? || m.title.value == ""
    ensures msg == Some(GenreEmpty) <==>
              m.title.Some? && m.title.value != "" && (m.genre.None? || m.genre.value == "")
    ensures msg == Some(DurationEmpty) <==>
              m.title.Some? && m.title.value != "" && m.genre.Some? && m.genre.value != "" &&
              m.duration.None?
    ensures msg == Some(DurationNegative) <==>
              m.title.Some? && m.title.value != "" && m.genre.Some? && m.genre.value != "" &&
              m.duration.Some? && m.duration.value < 0.0
    ensures msg == Some(RatingEmpty) <==>
              m.title.Some? && m.title.value != "" && m.genre.Some? && m.genre.value != "" &&
              m.duration.Some? && m.duration.value >= 0.0 && m.rating.None?
    ensures msg == Some(RatingNegative) <==>
              m.title.Some? && m.title.value != "" && m.genre.Some? && m.genre.value != "" &&
              m.duration.Some? && m.duration.value >= 0.0 && m.rating.Some? && m.rating.value < 0.0
    ensures msg == Some(ReleaseYearEmpty) <==>
              m.title.Some? && m.title.value != "" && m.genre.Some? && m.genre.value != "" &&
              m.duration.Some? && m.duration.value >= 0.0 && m.rating.Some? && m.rating.value >= 0.0 &&
              m.releaseYear.None?
  {
    if m.title.None? || m.title.value == "" then Some(TitleEmpty)
    else if m.genre.None? || m.genre.value == "" then Some(GenreEmpty)
    else if m.duration.None? then Some(DurationEmpty)
    else if m.duration.value < 0.0 then Some(DurationNegative)
    else if m.rating.None? then Some(RatingEmpty)
    else if m.rating.value < 0.0 then Some(RatingNegative)
    else if m.releaseYear.None? then Some(ReleaseYearEmpty)
    else None
  }

  /** The movie a validated request describes, under the given id. */
  function FromRequest(id: int, m: MovieRequest): (r: Movie)
    requires Validate(m).None?
  {
    Movie(id, m.title.value, m.genre.value, m.duration.value, m.rating.value, m.releaseYear.value)
  }

  /** Some stored movie has this title. A null title matches nothing, as
      `m.title = :title` with a null parameter does. */
  predicate TitleTaken(rows: map<int, Movie>, title: Option<string>)
  {
    exists k :: k in rows && Some(rows[k].title) == title
  }

  /** No two stored movies share a title. */
  ghost predicate TitlesUnique(rows: map<int, Movie>)
  {
    forall k1, k2 :: k1 in rows && k2 in rows && k1 != k2 ==> rows[k1].title != rows[k2].title
  }

  /** Writing a movie whose title no other stored movie has keeps titles
      unique; this covers both an insert and an overwrite in place. */
  lemma WriteKeepsTitlesUnique(rows: map<int, Movie>, m: Movie)
    requires TitlesUnique(rows)
    requires forall k :: k in rows && k != m.id ==> rows[k].title != m.title
    ensures TitlesUnique(rows[m.id := m])
  {
  }
}
