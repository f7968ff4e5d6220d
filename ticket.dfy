/** The Ticket entity: its request form, its stored form, validate(), and the
    seat lookups the ticket repository answers. */
module TicketEntity {
  import opened Outcomes

  /** A ticket as the service receives it. The booking id starts as a random
      UUID, but it has a setter, so a request body can replace it, with null
      too; the other fields come from the request body and may be null. */
  datatype TicketRequest = TicketRequest(
    bookingId: Option<string>,
    showtimeId: Option<int>,
    seatNumber: Option<int>,
    userId: Option<string>)

  /** A stored ticket, keyed by its booking id. Only tickets that passed
      validate() are saved, so no field is null. */
  datatype Ticket = Ticket(
    bookingId: string,
    showtimeId: int,
    seatNumber: int,
    userId: string)

  const ShowtimeIdEmpty := "Ticket showtimeId cannot be empty"
  const SeatNumberEmpty := "Ticket seatNumber cannot be empty"
  const UserIdEmpty := "Ticket userId cannot be empty"

  /** Ticket.validate: None exactly when showtime id and seat number are
      present and the user id is present and non-empty; otherwise the
      message of the first field, in declaration order, that fails. The
      seat number's sign is not checked. */
  function Validate(t: TicketRequest): (msg: Option<string>)
    ensures msg.None? <==>
              t.showtimeId.Some? && t.seatNumber.Some? && t.userId.Some? && t.userId.value != ""
    ensures msg == Some(ShowtimeIdEmpty) <==> t.showtimeId.None?
    ensures msg == Some(SeatNumberEmpty) <==> t.showtimeId.Some? && t.seatNumber.None?
    ensures msg == Some(UserIdEmpty) <==>
              t.showtimeId.Some? && t.seatNumber.Some? && (t.userId.None? || t.userId.value == "")
  {
    if t.showtimeId.None? then Some(ShowtimeIdEmpty)
    else if t.seatNumber.None? then Some(SeatNumberEmpty)
    else if t.userId.None? || t.userId.value == "" then Some(UserIdEmpty)
    else None
  }

  /** The ticket a validated request with a booking id describes. */
  function FromRequest(t: TicketRequest): (r: Ticket)
    requires Validate(t).None? && t.bookingId.Some?
  {
    Ticket(t.bookingId.value, t.showtimeId.value, t.seatNumber.value, t.userId.value)
  }

  /** No stored ticket holds this seat of this showtime: the JPQL query
      `t.showtimeId = :showtimeId AND t.seatNumber = :seatNumber` finds nothing. */
  predicate SeatFree(tickets: map<string, Ticket>, showtimeId: int, seatNumber: int)
  {
    forall b :: b in tickets ==> !(tickets[b].showtimeId == showtimeId && tickets[b].seatNumber == seatNumber)
  }

  /** At most one stored ticket per (showtime, seat). */
  ghost predicate SeatsUnique(tickets: map<string, Ticket>)
  {
    forall b1, b2 :: b1 in tickets && b2 in tickets && b1 != b2 ==>
      !(tickets[b1].showtimeId == tickets[b2].showtimeId && tickets[b1].seatNumber == tickets[b2].seatNumber)
  }

  /** Saving a ticket for a free seat keeps seats unique, also when its
      booking id overwrites a stored ticket. */
  lemma BookingKeepsSeatsUnique(tickets: map<string, Ticket>, t: Ticket)
    requires SeatsUnique(tickets)
    requires SeatFree(tickets, t.showtimeId, t.seatNumber)
    ensures SeatsUnique(tickets[t.bookingId := t])
  {
  }

  /** The tickets left after `DELETE FROM Ticket t WHERE t.showtimeId = :showtimeId`. */
  function WithoutShowtime(tickets: map<string, Ticket>, showtimeId: int): (r: map<string, Ticket>)
    ensures forall b :: b in r <==> b in tickets && tickets[b].showtimeId != showtimeId
    ensures forall b :: b in r ==> r[b] == tickets[b]
  {
    map b | b in tickets && tickets[b].showtimeId != showtimeId :: tickets[b]
  }

  /** Removing every ticket of one showtime keeps seats unique. */
  lemma RemovalKeepsSeatsUnique(tickets: map<string, Ticket>, showtimeId: int)
    requires SeatsUnique(tickets)
    ensures SeatsUnique(WithoutShowtime(tickets, showtimeId))
  {
  }
}
