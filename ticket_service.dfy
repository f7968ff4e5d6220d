/** TicketService: booking a seat of a showtime, at most one ticket per seat. */
module TicketServices {
  import opened Outcomes
  import opened TicketEntity
  import opened Repositories
  import opened ShowtimeServices

  const SeatTaken := "Seat is not empty"

  /** The body the global handler answers any other exception with. */
  const UnexpectedError := "An unexpected error occurred."

  class TicketService {
    const ticketRepository: TicketRepository
    const showtimeService: ShowtimeService

    /** Both services work on the one ticket repository. */
    ghost predicate Valid()
      reads this, ticketRepository, showtimeService, showtimeService.showtimeRepository,
            showtimeService.ticketRepository
    {
      && showtimeService.Valid()
      && ticketRepository == showtimeService.ticketRepository
    }

    constructor (ticketRepository: TicketRepository, showtimeService: ShowtimeService)
      requires showtimeService.Valid() && ticketRepository == showtimeService.ticketRepository
      ensures this.ticketRepository == ticketRepository && this.showtimeService == showtimeService
      ensures Valid()
    {
      this.ticketRepository := ticketRepository;
      this.showtimeService := showtimeService;
    }

    /** seatIsEmpty: no stored ticket holds this seat of this showtime. */
    method SeatIsEmpty(showtimeId: int, seatNumber: int) returns (empty: bool)
      requires Valid()
      ensures empty <==> SeatFree(ticketRepository.rows, showtimeId, seatNumber)
    {
      var oldTicket := ticketRepository.GetTicketsByShowtimeSeatNumber(showtimeId, seatNumber);
      empty := oldTicket.None?;
    }

    /** bookTicket: a failed validation (400), an unknown showtime (404) and
        a taken seat (400) are refused in that order with the tickets
        unchanged; a ticket that passed them but has a null booking id makes
        the save throw (500), also with the tickets unchanged; otherwise the
        ticket is stored under its booking id and that id is returned. Seats
        stay unique and every ticket keeps its showtime. */
    method BookTicket(ticket: TicketRequest) returns (r: Outcome<map<string, string>>)
      requires Valid()
      modifies ticketRepository
      ensures Valid()
      ensures TicketEntity.Validate(ticket).Some? ==>
                r == IllegalArgument(TicketEntity.Validate(ticket).value)
      ensures TicketEntity.Validate(ticket).None? &&
              ticket.showtimeId.value !in showtimeService.showtimeRepository.rows ==>
                r == ResourceNotFound(ShowtimeNotFound(ticket.showtimeId.value))
      ensures TicketEntity.Validate(ticket).None? &&
              ticket.showtimeId.value in showtimeService.showtimeRepository.rows &&
              !SeatFree(old(ticketRepository.rows), ticket.showtimeId.value, ticket.seatNumber.value) ==>
                r == IllegalArgument(SeatTaken)
      ensures TicketEntity.Validate(ticket).None? &&
              ticket.showtimeId.value in showtimeService.showtimeRepository.rows &&
              SeatFree(old(ticketRepository.rows), ticket.showtimeId.value, ticket.seatNumber.value) &&
              ticket.bookingId.None? ==>
                r == Unexpected(UnexpectedError)
      ensures r.Ok? <==> && TicketEntity.Validate(ticket).None?
                         && ticket.showtimeId.value in showtimeService.showtimeRepository.rows
                         && SeatFree(old(ticketRepository.rows), ticket.showtimeId.value,
                                     ticket.seatNumber.value)
                         && ticket.bookingId.Some?
      ensures r.Ok? ==> && r.value == map["bookingId" := ticket.bookingId.value]
                        && ticketRepository.rows ==
                             old(ticketRepository.rows)[ticket.bookingId.value := TicketEntity.FromRequest(ticket)]
      ensures !r.Ok? ==> ticketRepository.rows == old(ticketRepository.rows)
      ensures old(SeatsUnique(ticketRepository.rows)) ==> SeatsUnique(ticketRepository.rows)
      ensures old(NoOrphanTickets(showtimeService.showtimeRepository.rows, ticketRepository.rows)) ==>
                NoOrphanTickets(showtimeService.showtimeRepository.rows, ticketRepository.rows)
    {
      var validation := TicketEntity.Validate(ticket);
      if validation.Some? {
        return IllegalArgument(validation.value);
      }
      var showtimeExists := showtimeService.IsShowtimeExist(ticket.showtimeId.value);
      if !showtimeExists {
        return ResourceNotFound(ShowtimeNotFound(ticket.showtimeId.value));
      }
      var empty := SeatIsEmpty(ticket.showtimeId.value, ticket.seatNumber.value);
      if !empty {
        return IllegalArgument(SeatTaken);
      }
      if ticket.bookingId.None? {
        // the save at TicketService.java:54 refuses an entity whose assigned id is null
        return Unexpected(UnexpectedError);
      }
      var t := TicketEntity.FromRequest(ticket);
      if SeatsUnique(ticketRepository.rows) {
        BookingKeepsSeatsUnique(ticketRepository.rows, t);
      }
      ticketRepository.Save(t);
      r := Ok(map["bookingId" := t.bookingId]);
    }
  }
}
