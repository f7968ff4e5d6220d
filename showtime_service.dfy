/** ShowtimeService: scheduling showtimes into theaters without overlaps, and
    deleting a showtime together with its tickets. */
module ShowtimeServices {
  import opened Outcomes
  import opened ShowtimeEntity
  import opened TicketEntity
  import opened Scheduling
  import opened Repositories
  import opened MovieServices

  const OverlapMessage := "The showtime overlaps with an existing schedule for the same theater. Please select a different time."

  function ShowtimeNotFound(id: int): (msg: string) { "Showtime not found with id - " + IntToString(id) }
  function MovieNotFound(id: int): (msg: string) { "Movie not found with id - " + IntToString(id) }

  /** Every stored ticket belongs to a stored showtime. */
  ghost predicate NoOrphanTickets(showtimes: map<int, Showtime>, tickets: map<string, Ticket>)
  {
    forall b :: b in tickets ==> tickets[b].showtimeId in showtimes
  }

  /** Deleting the tickets of a showtime before the showtime itself leaves no
      ticket without its showtime. */
  lemma CascadeKeepsNoOrphans(showtimes: map<int, Showtime>, tickets: map<string, Ticket>, id: int)
    requires NoOrphanTickets(showtimes, tickets)
    ensures NoOrphanTickets(showtimes - {id}, WithoutShowtime(tickets, id))
  {
  }

  class ShowtimeService {
    const showtimeRepository: ShowtimeRepository
    const movieService: MovieService
    const ticketRepository: TicketRepository

    ghost predicate Valid()
      reads showtimeRepository, ticketRepository
    {
      showtimeRepository.Valid() && ticketRepository.Valid()
    }

    constructor (showtimeRepository: ShowtimeRepository, movieService: MovieService,
                 ticketRepository: TicketRepository)
      requires showtimeRepository.Valid() && ticketRepository.Valid()
      ensures && this.showtimeRepository == showtimeRepository
              && this.movieService == movieService
              && this.ticketRepository == ticketRepository
              && Valid()
    {
      this.showtimeRepository := showtimeRepository;
      this.movieService := movieService;
      this.ticketRepository := ticketRepository;
    }

    /** getShowtimeById: the stored showtime with this id, or 404. */
    method GetShowtimeById(showtimeId: int) returns (r: Outcome<Showtime>)
      ensures r.Ok? <==> showtimeId in showtimeRepository.rows
      ensures r.Ok? ==> r.value == showtimeRepository.rows[showtimeId]
      ensures !r.Ok? ==> r == ResourceNotFound(ShowtimeNotFound(showtimeId))
    {
      var s := showtimeRepository.FindById(showtimeId);
      if s.None? {
        return ResourceNotFound(ShowtimeNotFound(showtimeId));
      }
      r := Ok(s.value);
    }

    /** isShowtimeExist: some stored showtime has this id. */
    method IsShowtimeExist(showtimeId: int) returns (b: bool)
      ensures b <==> showtimeId in showtimeRepository.rows
    {
      b := showtimeRepository.ExistsById(showtimeId);
    }

    /** checkOverLap: whether some listed showtime other than the candidate
        itself has the candidate's start or end within its closed interval.
        The first such showtime ends the scan. */
    method CheckOverLap(showtime: ShowtimeRequest, showtimesSameTheater: seq<Showtime>) returns (overlap: bool)
      requires showtime.startTime.Some? && showtime.endTime.Some?
      ensures overlap <==> AnyConflict(showtime.id, showtime.startTime.value, showtime.endTime.value,
                                       showtimesSameTheater)
      ensures showtimesSameTheater == [] ==> !overlap
    {
      var start, end := showtime.startTime.value, showtime.endTime.value;
      var i := 0;
      while i < |showtimesSameTheater|
        invariant 0 <= i <= |showtimesSameTheater|
        invariant forall j :: 0 <= j < i ==> !Conflicts(showtime.id, start, end, showtimesSameTheater[j])
      {
        if Conflicts(showtime.id, start, end, showtimesSameTheater[i]) {
          return true;
        }
        i := i + 1;
      }
      return false;
    }

    /** saveShowtime: a preset id (400), a failed validation (400), an
        unknown movie (404) and an overlap in the theater (400) are refused
        in that order, the store unchanged; otherwise the showtime is stored
        under a fresh id and nothing else changes. */
    method SaveShowtime(showtime: ShowtimeRequest) returns (r: Outcome<Showtime>)
      requires Valid()
      modifies showtimeRepository
      ensures Valid()
      ensures showtime.id.Some? ==> r == IllegalArgument(IdPreset)
      ensures showtime.id.None? && ShowtimeEntity.Validate(showtime).Some? ==>
                r == IllegalArgument(ShowtimeEntity.Validate(showtime).value)
      ensures showtime.id.None? && ShowtimeEntity.Validate(showtime).None? &&
              showtime.movieId.value !in movieService.movieRepository.rows ==>
                r == ResourceNotFound(MovieNotFound(showtime.movieId.value))
      ensures showtime.id.None? && ShowtimeEntity.Validate(showtime).None? &&
              showtime.movieId.value in movieService.movieRepository.rows &&
              TheaterConflict(old(showtimeRepository.rows), showtime.theater.value, None,
                              showtime.startTime.value, showtime.endTime.value) ==>
                r == IllegalArgument(OverlapMessage)
      ensures r.Ok? <==> && showtime.id.None?
                         && ShowtimeEntity.Validate(showtime).None?
                         && showtime.movieId.value in movieService.movieRepository.rows
                         && !TheaterConflict(old(showtimeRepository.rows), showtime.theater.value, None,
                                             showtime.startTime.value, showtime.endTime.value)
      ensures r.Ok? ==> && r.value == ShowtimeEntity.FromRequest(old(showtimeRepository.nextId), showtime)
                        && r.value.id !in old(showtimeRepository.rows)
                        && showtimeRepository.rows == old(showtimeRepository.rows)[r.value.id := r.value]
      ensures !r.Ok? ==> showtimeRepository.rows == old(showtimeRepository.rows)
      ensures ticketRepository.rows == old(ticketRepository.rows)
      ensures old(NoOrphanTickets(showtimeRepository.rows, ticketRepository.rows)) ==>
                NoOrphanTickets(showtimeRepository.rows, ticketRepository.rows)
    {
      if showtime.id.Some? {
        return IllegalArgument(IdPreset);
      }
      var sameTheater := showtimeRepository.GetShowtimeByTheater(showtime.theater);
      var validation := ShowtimeEntity.Validate(showtime);
      if validation.Some? {
        return IllegalArgument(validation.value);
      }
      var movieExists := movieService.IsMovieExistById(showtime.movieId.value);
      if !movieExists {
        return ResourceNotFound(MovieNotFound(showtime.movieId.value));
      }
      var overlap := CheckOverLap(showtime, sameTheater);
      ListConflictIsTheaterConflict(showtimeRepository.rows, showtime.theater.value, sameTheater,
                                    None, showtime.startTime.value, showtime.endTime.value);
      if overlap {
        return IllegalArgument(OverlapMessage);
      }
      var saved := showtimeRepository.Insert(showtime);
      r := Ok(saved);
    }

    /** updateShowtime: a preset id (400), an unknown showtime (404), a
        present but unknown movie (404), a failed validation (400) and an
        overlap with another showtime of the theater (400) are refused in
        that order, the store unchanged; otherwise movie, theater, times and
        price of that showtime are replaced and its id kept. */
    method UpdateShowtime(showtimeId: int, showtime: ShowtimeRequest) returns (r: Outcome<Showtime>)
      requires Valid()
      modifies showtimeRepository
      ensures Valid() && showtimeRepository.nextId == old(showtimeRepository.nextId)
      ensures showtime.id.Some? ==> r == IllegalArgument(IdPreset)
      ensures showtime.id.None? && showtimeId !in old(showtimeRepository.rows) ==>
                r == ResourceNotFound(ShowtimeNotFound(showtimeId))
      ensures showtime.id.None? && showtimeId in old(showtimeRepository.rows) &&
              showtime.movieId.Some? && showtime.movieId.value !in movieService.movieRepository.rows ==>
                r == ResourceNotFound(MovieNotFound(showtime.movieId.value))
      ensures showtime.id.None? && showtimeId in old(showtimeRepository.rows) &&
              (showtime.movieId.Some? ==> showtime.movieId.value in movieService.movieRepository.rows) &&
              ShowtimeEntity.Validate(showtime).Some? ==>
                r == IllegalArgument(ShowtimeEntity.Validate(showtime).value)
      ensures showtime.id.None? && showtimeId in old(showtimeRepository.rows) &&
              ShowtimeEntity.Validate(showtime).None? &&
              showtime.movieId.value in movieService.movieRepository.rows &&
              TheaterConflict(old(showtimeRepository.rows), showtime.theater.value, Some(showtimeId),
                              showtime.startTime.value, showtime.endTime.value) ==>
                r == IllegalArgument(OverlapMessage)
      ensures r.Ok? <==> && showtime.id.None?
                         && showtimeId in old(showtimeRepository.rows)
                         && ShowtimeEntity.Validate(showtime).None?
                         && showtime.movieId.value in movieService.movieRepository.rows
                         && !TheaterConflict(old(showtimeRepository.rows), showtime.theater.value,
                                             Some(showtimeId), showtime.startTime.value,
                                             showtime.endTime.value)
      ensures r.Ok? ==> && r.value == ShowtimeEntity.FromRequest(showtimeId, showtime)
                        && showtimeRepository.rows == old(showtimeRepository.rows)[showtimeId := r.value]
      ensures !r.Ok? ==> showtimeRepository.rows == old(showtimeRepository.rows)
      ensures ticketRepository.rows == old(ticketRepository.rows)
      ensures old(NoOrphanTickets(showtimeRepository.rows, ticketRepository.rows)) ==>
                NoOrphanTickets(showtimeRepository.rows, ticketRepository.rows)
    {
      if showtime.id.Some? {
        return IllegalArgument(IdPreset);
      }
      // the candidate takes the id of the showtime it replaces
      var candidate := showtime.(id := Some(showtimeId));
      var found := showtimeRepository.FindById(showtimeId);
      if found.None? {
        return ResourceNotFound(ShowtimeNotFound(showtimeId));
      }
      if candidate.movieId.Some? {
        var movieExists := movieService.IsMovieExistById(candidate.movieId.value);
        if !movieExists {
          return ResourceNotFound(MovieNotFound(candidate.movieId.value));
        }
      }
      var sameTheater := showtimeRepository.GetShowtimeByTheater(candidate.theater);
      var validation := ShowtimeEntity.Validate(candidate);
      if validation.Some? {
        return IllegalArgument(validation.value);
      }
      var overlap := CheckOverLap(candidate, sameTheater);
      ListConflictIsTheaterConflict(showtimeRepository.rows, candidate.theater.value, sameTheater,
                                    Some(showtimeId), candidate.startTime.value, candidate.endTime.value);
      if overlap {
        return IllegalArgument(OverlapMessage);
      }
      var existing := GetShowtimeById(showtimeId);
      var updated := existing.value.(movieId := candidate.movieId.value, theater := candidate.theater.value,
                                     startTime := candidate.startTime.value, endTime := candidate.endTime.value,
                                     price := candidate.price.value);
      showtimeRepository.Update(updated);
      r := Ok(updated);
    }

    /** deleteShowtime: an unknown id is refused with 404 and nothing
        changes; otherwise every ticket of the showtime is deleted, then the
        showtime, and all other showtimes and tickets stay as they were. */
    method DeleteShowtime(showtimeId: int) returns (r: Outcome<()>)
      requires Valid()
      modifies showtimeRepository, ticketRepository
      ensures Valid() && showtimeRepository.nextId == old(showtimeRepository.nextId)
      ensures r.Ok? <==> showtimeId in old(showtimeRepository.rows)
      ensures !r.Ok? ==> && r == ResourceNotFound(ShowtimeNotFound(showtimeId))
                         && showtimeRepository.rows == old(showtimeRepository.rows)
                         && ticketRepository.rows == old(ticketRepository.rows)
      ensures r.Ok? ==> && showtimeRepository.rows == old(showtimeRepository.rows) - {showtimeId}
                        && ticketRepository.rows == WithoutShowtime(old(ticketRepository.rows), showtimeId)
      ensures old(NoOrphanTickets(showtimeRepository.rows, ticketRepository.rows)) ==>
                NoOrphanTickets(showtimeRepository.rows, ticketRepository.rows)
      ensures old(SeatsUnique(ticketRepository.rows)) ==> SeatsUnique(ticketRepository.rows)
    {
      var found := showtimeRepository.FindById(showtimeId);
      if found.None? {
        return ResourceNotFound(ShowtimeNotFound(showtimeId));
      }
      ghost var showtimesBefore, ticketsBefore := showtimeRepository.rows, ticketRepository.rows;
      ticketRepository.DeleteTicketByShowtimeId(showtimeId);
      showtimeRepository.DeleteById(showtimeId);
      if NoOrphanTickets(showtimesBefore, ticketsBefore) {
        CascadeKeepsNoOrphans(showtimesBefore, ticketsBefore, showtimeId);
      }
      if SeatsUnique(ticketsBefore) {
        RemovalKeepsSeatsUnique(ticketsBefore, showtimeId);
      }
      r := Ok(());
    }
  }
}
