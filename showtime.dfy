/** The Showtime entity: its request form, its stored form and validate(). */
module ShowtimeEntity {
  import opened Outcomes

  /** An OffsetDateTime, compared by the instant it denotes. */
  type Instant = int

  /** A showtime as a request body carries it; every field may be null. */
  datatype ShowtimeRequest = ShowtimeRequest(
    id: Option<int>,
    movieId: Option<int>,
    theater: Option<string>,
    startTime: Option<Instant>,
    endTime: Option<Instant>,
    price: Option<real>)

  /** A stored showtime. Only showtimes that passed validate() are saved, so
      no field is null. */
  datatype Showtime = Showtime(
    id: int,
    movieId: int,
    theater: string,
    startTime: Instant,
    endTime: Instant,
    price: real)

  const MovieIdEmpty := "Showtime movieId cannot be empty"
  const TheaterEmpty := "Showtime theater cannot be empty"
  const StartTimeEmpty := "Showtime startTime cannot be empty"
  const EndTimeEmpty := "Showtime endTime cannot be empty"
  const PriceEmpty := "Showtime price cannot be empty"
  const PriceNegative := "Showtime price cannot be negative"

  /** Showtime.validate: None exactly when the movie id, a non-empty theater,
      both times and a non-negative price (zero passes) are present;
      otherwise the message of the first field, in declaration order, that
      fails. Start and end are never compared with each other, and the list
      of same-theater showtimes validate() receives is never consulted, so
      it is not a parameter here. */
  function Validate(s: ShowtimeRequest): (msg: Option<string>)
    ensures msg.None? <==>
              && s.movieId.Some?
              && s.theater.Some? && s.theater.value != ""
              && s.startTime.Some? && s.endTime.Some?
              && s.price.Some? && s.price.value >= 0.0
    ensures msg == Some(MovieIdEmpty) <==> s.movieId.None?
    ensures msg == Some(TheaterEmpty) <==>
              s.movieId.Some? && (s.theater.None? || s.theater.value == "")
    ensures msg == Some(StartTimeEmpty) <==>
              s.movieId.Some? && s.theater.Some? && s.theater.value != "" && s.startTime.None?
    ensures msg == Some(EndTimeEmpty) <==>
              s.movieId.Some? && s.theater.Some? && s.theater.value != "" && s.startTime.Some? &&
              s.endTime.None?
    ensures msg == Some(PriceEmpty) <==>
              s.movieId.Some? && s.theater.Some? && s.theater.value != "" && s.startTime.Some? &&
              s.endTime.Some? && s.price.None?
    ensures msg == Some(PriceNegative) <==>
              s.movieId.Some? && s.theater.Some? && s.theater.value != "" && s.startTime.Some? &&
              s.endTime.Some? && s.price.Some? && s.price.value < 0.0
  {
    if s.movieId.None? then Some(MovieIdEmpty)
    else if s.theater.None? || s.theater.value == "" then Some(TheaterEmpty)
    else if s.startTime.None? then Some(StartTimeEmpty)
    else if s.endTime.None? then Some(EndTimeEmpty)
    else if s.price.None? then Some(PriceEmpty)
    else if s.price.value < 0.0 then Some(PriceNegative)
    else None
  }

  /** The showtime a validated request describes, under the given id. */
  function FromRequest(id: int, s: ShowtimeRequest): (r: Showtime)
    requires Validate(s).None?
  {
    Showtime(id, s.movieId.value, s.theater.value, s.startTime.value, s.endTime.value, s.price.value)
  }
}
