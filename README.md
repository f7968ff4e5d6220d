# Popcorn Palace in Dafny

A model of the service layer of Popcorn Palace, a movie-ticket booking
back end: the movie catalogue (`MovieService`), showtime scheduling with
its per-theater overlap test (`ShowtimeService`), seat booking
(`TicketService`), the three entity validators (`Movie.validate`,
`Showtime.validate`, `Ticket.validate`) and the query semantics of the
three Spring Data repositories.

Layout:

- `outcomes.dfy` (`Outcomes`): `Option` (Java's null), `Outcome` (a
  value, an `IllegalArgumentException`, a `ResourceNotFoundException` or
  any other exception, answered with 500),
  the status each exception is mapped to, and `Long.toString` for the
  messages.
- `movie.dfy`, `showtime.dfy`, `ticket.dfy`: each entity twice, as the
  request body carries it (every field may be null, a ticket's booking id
  included) and as stored (every
  field present, since only validated entities are saved); `validate()`;
  the store predicates (title taken, seat free) and their invariants.
- `scheduling.dfy` (`Scheduling`): the overlap test of `checkOverLap` as
  a predicate, the facts it implies, and the gap it leaves (see Findings).
- `repositories.dfy` (`Repositories`): the three repositories as classes
  holding a map of rows. Movie and showtime ids come from an IDENTITY
  counter (`nextId`) and are never reused; tickets are keyed by booking id.
- `movie_service.dfy`, `showtime_service.dfy`, `ticket_service.dfy`: the
  three services as classes over those repositories. Like the Spring
  singletons they stand for, `ShowtimeService` and `TicketService` share
  one ticket repository.

Each state-changing service method states its whole outcome: which guard
fires first, with which status and message; that the stores are untouched
on any failure; and the exact new contents on success. Three invariants are
kept by every operation that could break them: titles stay unique, no two
tickets share a seat of a showtime, and every ticket belongs to a stored
showtime. The source does not demand these of its callers, so each is
stated as "if it held before, it holds after".

`OffsetDateTime` values are modelled as integer instants and compared as
such. `Showtime.validate` never compares the start with the end, so an end
at or before the start passes, and the model follows the code.

## Model

| member | source | states |
|---|---|---|
| Outcomes.ErrorStatus | src/main/java/com/att/tdp/popcorn_palace/exception/GlobalExceptionHandler.java:19-32 | a ResourceNotFound outcome maps to 404, an IllegalArgument outcome to 400 and any other exception to 500, each exactly |
| MovieEntity.Validate | src/main/java/com/att/tdp/popcorn_palace/entity/Movie.java:40-70 | null exactly when title and genre are non-empty, duration and rating are present and at least zero, and a release year is present (zero and any year pass); each message is returned exactly when its guard is the first to fail, in the order title, genre, duration null, duration negative, rating null, rating negative, release year |
| MovieEntity.WriteKeepsTitlesUnique | src/main/java/com/att/tdp/popcorn_palace/service/MovieService.java:47-57 | writing a movie whose title no other stored movie has keeps titles unique, for an insert as for an overwrite |
| ShowtimeEntity.Validate | src/main/java/com/att/tdp/popcorn_palace/entity/Showtime.java:37-63 | null exactly when movie id, a non-empty theater, both times and a price of at least zero are present; start and end are never compared; each message is returned exactly when its guard is the first to fail, in the order movieId, theater, startTime, endTime, price null, price negative |
| TicketEntity.Validate | src/main/java/com/att/tdp/popcorn_palace/entity/Ticket.java:34-48 | null exactly when showtime id and seat number are present and the user id is present and non-empty (a negative seat passes); each message is returned exactly when its guard is the first to fail, in the order showtimeId, seatNumber, userId |
| TicketEntity.BookingKeepsSeatsUnique | src/main/java/com/att/tdp/popcorn_palace/service/TicketService.java:49-54 | storing a ticket for a free seat keeps every (showtime, seat) pair held by at most one ticket |
| TicketEntity.WithoutShowtime | src/main/java/com/att/tdp/popcorn_palace/repository/TicketRepository.java:19-21 | the bulk delete keeps exactly the tickets of other showtimes, each unchanged |
| TicketEntity.RemovalKeepsSeatsUnique | src/main/java/com/att/tdp/popcorn_palace/repository/TicketRepository.java:19-21 | deleting the tickets of a showtime keeps seats unique |
| Scheduling.ListConflictIsTheaterConflict | src/main/java/com/att/tdp/popcorn_palace/repository/ShowtimeRepository.java:13-14 | scanning the list the theater query returns finds a conflict exactly when some stored showtime of that theater conflicts, whatever the list's order |
| Scheduling.TouchingEndpointsConflict | src/main/java/com/att/tdp/popcorn_palace/service/ShowtimeService.java:171-174 | the test is on closed intervals: starting at another showtime's end, or ending at its start, is a conflict |
| Scheduling.OwnSlotNeverConflicts | src/main/java/com/att/tdp/popcorn_palace/service/ShowtimeService.java:121-137 | a candidate carrying a showtime's id never conflicts with that showtime's stored slot |
| Scheduling.ConflictGapIsStrictContainment | src/main/java/com/att/tdp/popcorn_palace/service/ShowtimeService.java:168-181 | for well-formed intervals, they share an instant exactly when the test reports a conflict or the candidate strictly contains the other showtime |
| Scheduling.ContainmentSlipsThrough | src/main/java/com/att/tdp/popcorn_palace/service/ShowtimeService.java:168-181 | a candidate [5,25] passes the test against a stored [10,20] of the same theater, and storing it breaks disjointness |
| Scheduling.CorrectedAdmissionKeepsScheduleDisjoint | src/main/java/com/att/tdp/popcorn_palace/service/ShowtimeService.java:161-181 | with the intersection test the documentation describes, admitting a showtime that conflicts with no other showtime of its theater keeps every theater's schedule disjoint |
| Repositories.MovieRepository.ExistsById | src/main/java/com/att/tdp/popcorn_palace/service/MovieService.java:139-141 | true exactly when a movie with that id is stored |
| Repositories.MovieRepository.GetMovieByTitle | src/main/java/com/att/tdp/popcorn_palace/repository/MovieRepository.java:11-12 | a stored movie with that title when there is one, nothing otherwise; a null title matches nothing |
| Repositories.MovieRepository.Insert | src/main/java/com/att/tdp/popcorn_palace/service/MovieService.java:57 | the validated movie is stored under a fresh id and nothing else changes |
| Repositories.MovieRepository.Update | src/main/java/com/att/tdp/popcorn_palace/service/MovieService.java:115-120 | the stored movie with that id is replaced and nothing else changes |
| Repositories.MovieRepository.DeleteById | src/main/java/com/att/tdp/popcorn_palace/service/MovieService.java:66-68 | the movie with that id is removed and nothing else changes |
| Repositories.ShowtimeRepository.FindById | src/main/java/com/att/tdp/popcorn_palace/service/ShowtimeService.java:37 | the stored showtime with that id, or nothing |
| Repositories.ShowtimeRepository.ExistsById | src/main/java/com/att/tdp/popcorn_palace/service/ShowtimeService.java:157-159 | true exactly when a showtime with that id is stored |
| Repositories.ShowtimeRepository.GetShowtimeByTheater | src/main/java/com/att/tdp/popcorn_palace/repository/ShowtimeRepository.java:13-14 | the list holds stored showtimes of that theater only, every one of them, and no id twice |
| Repositories.ShowtimeRepository.Insert | src/main/java/com/att/tdp/popcorn_palace/service/ShowtimeService.java:75 | the validated showtime is stored under a fresh id and nothing else changes |
| Repositories.ShowtimeRepository.Update | src/main/java/com/att/tdp/popcorn_palace/service/ShowtimeService.java:142-148 | the stored showtime with that id is replaced and nothing else changes |
| Repositories.ShowtimeRepository.DeleteById | src/main/java/com/att/tdp/popcorn_palace/service/ShowtimeService.java:91 | the showtime with that id is removed and nothing else changes |
| Repositories.TicketRepository.Save | src/main/java/com/att/tdp/popcorn_palace/service/TicketService.java:54 | the ticket is stored under its booking id and nothing else changes |
| Repositories.TicketRepository.GetTicketsByShowtimeSeatNumber | src/main/java/com/att/tdp/popcorn_palace/repository/TicketRepository.java:16-17 | nothing exactly when the seat of that showtime is free, otherwise a stored ticket holding it |
| Repositories.TicketRepository.DeleteTicketByShowtimeId | src/main/java/com/att/tdp/popcorn_palace/repository/TicketRepository.java:19-21 | every ticket of that showtime is removed and no other ticket changes |
| MovieServices.MovieService.IsMovieExist | src/main/java/com/att/tdp/popcorn_palace/service/MovieService.java:129-131 | true exactly when some stored movie has that title |
| MovieServices.MovieService.IsMovieExistById | src/main/java/com/att/tdp/popcorn_palace/service/MovieService.java:139-141 | true exactly when a movie with that id is stored |
| MovieServices.MovieService.GetMovieByTitle | src/main/java/com/att/tdp/popcorn_palace/service/MovieService.java:77-83 | the stored movie with that title, or 404 "Movie not found with title - " and the title |
| MovieServices.MovieService.SaveMovie | src/main/java/com/att/tdp/popcorn_palace/service/MovieService.java:43-58 | preset id, taken title and validation failure are refused with 400 in that order, the store unchanged; otherwise exactly one movie is added under a fresh id; titles stay unique |
| MovieServices.MovieService.UpdateMovie | src/main/java/com/att/tdp/popcorn_palace/service/MovieService.java:96-121 | preset id (400), unknown title (404), a new title another movie has (400) and validation failure (400) are refused in that order, the store unchanged; keeping the title is no conflict; otherwise all fields but the id of the found movie are replaced and nothing else changes; titles stay unique |
| MovieServices.MovieService.DeleteMovie | src/main/java/com/att/tdp/popcorn_palace/service/MovieService.java:66-68 | only that movie is removed; showtimes are not touched; titles stay unique |
| ShowtimeServices.CascadeKeepsNoOrphans | src/main/java/com/att/tdp/popcorn_palace/service/ShowtimeService.java:84-92 | deleting a showtime's tickets before the showtime leaves every remaining ticket with a stored showtime |
| ShowtimeServices.ShowtimeService.GetShowtimeById | src/main/java/com/att/tdp/popcorn_palace/service/ShowtimeService.java:36-43 | the stored showtime with that id, or 404 "Showtime not found with id - " and the id |
| ShowtimeServices.ShowtimeService.IsShowtimeExist | src/main/java/com/att/tdp/popcorn_palace/service/ShowtimeService.java:157-159 | true exactly when a showtime with that id is stored |
| ShowtimeServices.ShowtimeService.CheckOverLap | src/main/java/com/att/tdp/popcorn_palace/service/ShowtimeService.java:168-181 | true exactly when some listed showtime with another id has the candidate's start or end within its closed interval; false on an empty list |
| ShowtimeServices.ShowtimeService.SaveShowtime | src/main/java/com/att/tdp/popcorn_palace/service/ShowtimeService.java:55-76 | preset id (400), validation failure (400), unknown movie (404) and a conflict with a stored showtime of the theater (400) are refused in that order, the store unchanged; otherwise exactly one showtime is added under a fresh id; tickets untouched |
| ShowtimeServices.ShowtimeService.UpdateShowtime | src/main/java/com/att/tdp/popcorn_palace/service/ShowtimeService.java:116-149 | preset id (400), unknown showtime (404), a present unknown movie (404, before validation), validation failure (400) and a conflict with another showtime of the theater (400) are refused in that order, the store unchanged; otherwise all fields but the id of that showtime are replaced; tickets untouched |
| ShowtimeServices.ShowtimeService.DeleteShowtime | src/main/java/com/att/tdp/popcorn_palace/service/ShowtimeService.java:84-92 | an unknown id is refused with 404 and nothing changes; otherwise exactly the tickets of that showtime and the showtime itself are removed; seats stay unique and no ticket is orphaned |
| TicketServices.TicketService.SeatIsEmpty | src/main/java/com/att/tdp/popcorn_palace/service/TicketService.java:70-73 | true exactly when no stored ticket holds that seat of that showtime |
| TicketServices.TicketService.BookTicket | src/main/java/com/att/tdp/popcorn_palace/service/TicketService.java:35-59 | validation failure (400), unknown showtime (404) and a taken seat (400 "Seat is not empty") are refused in that order, tickets unchanged; a ticket that passed them with a null booking id fails the save (500 "An unexpected error occurred."), tickets unchanged; otherwise the ticket is stored under its booking id and the response maps "bookingId" to it; seats stay unique and no ticket is orphaned |

## Left out

- The controllers and `MovieService.getAllMovie`: HTTP routing and a pass-through listing, with nothing to state.
- Concurrency: the booking check-then-save holds no lock and the table has no unique constraint, so parallel requests can double-book; the model is sequential and claims no atomicity.
- JPA persistence and `@Transactional`: repositories are in-memory maps.
- Random booking ids: `UUID.randomUUID` is replaced by the booking id the request carries (null when the body sets it so); a booking id that is already stored is overwritten, as a JPA merge would.
- Repositories.MovieRepository.GetMovieByTitle: when several movies share a title, the single-result query throws; the model returns one of them. Saving and updating keep titles unique, so this does not arise from the modelled operations.
- Repositories.TicketRepository.GetTicketsByShowtimeSeatNumber: likewise returns one of several holders instead of throwing; seats stay unique under booking.
- Integer widths: `Long` and `Integer` are unbounded integers; overflow of the IDENTITY counter is not modelled.
- `Double` fields are reals: NaN and infinities are not modelled; the code only compares them with zero.
- `OffsetDateTime.compareTo` breaks ties between equal instants with different offsets by local time; instants are plain integers here.
- The list parameter of `Showtime.validate` is never read and is not a parameter of the model.
- `updateShowtime` writes the path id into the caller's request object; the model gives the candidate that id without modelling the caller's object.
- Debug output (`System.out.println` in `bookTicket`) and toString methods.

## Findings

| source | as written | input that shows it | evidently intended | confidence | as-written member | corrected member |
|---|---|---|---|---|---|---|
| src/main/java/com/att/tdp/popcorn_palace/service/ShowtimeService.java:168-181 | a conflict needs the candidate's start or end to lie inside an existing showtime's closed interval | stored showtime [10,20] in "Hall 1"; a new showtime [5,25] in "Hall 1" passes the test and is saved | the documented "overlaps": the two closed intervals share an instant | not executed | Scheduling.ContainmentSlipsThrough | Scheduling.CorrectedAdmissionKeepsScheduleDisjoint |

The services keep the test as written, so that they model the code; the
corrected predicate `Scheduling.ConflictsCorrected` and its disjointness
lemma show what the intended test would guarantee.
