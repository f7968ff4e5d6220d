/** The three Spring Data repositories, as in-memory tables keyed by their
    entities' ids. Each query method answers what its JPQL query selects. A
    table whose ids the database generates (IDENTITY) keeps the next id to
    hand out; ids are never reused. */
module Repositories {
  import opened Outcomes
  import opened MovieEntity
  import opened ShowtimeEntity
  import opened TicketEntity

  /** A non-empty set has a member. */
  lemma NonEmptyHasMember(ids: set<int>)
    requires ids != {}
    ensures exists k :: k in ids
  {
    if forall k :: k !in ids {
      assert false;
    }
  }

  /** Some element of a non-empty set of ids. */
  method Pick(ids: set<int>) returns (k: int)
    requires ids != {}
    ensures k in ids
  {
    NonEmptyHasMember(ids);
    k :| k in ids;
  }

  class MovieRepository {
    var rows: map<int, Movie>
    var nextId: int

    /** Every movie sits under its own id, below the next id to hand out. */
    ghost predicate Valid()
      reads this
    {
      forall k :: k in rows ==> rows[k].id == k && k < nextId
    }

    constructor ()
      ensures Valid() && rows == map[]
    {
      rows := map[];
      nextId := 1;
    }

    method ExistsById(id: int) returns (b: bool)
      ensures b <==> id in rows
    {
      b := id in rows;
    }

    /** `SELECT m FROM Movie m WHERE m.title = :title`. */
    method GetMovieByTitle(title: Option<string>) returns (m: Option<Movie>)
      requires Valid()
      ensures m.None? <==> !TitleTaken(rows, title)
      ensures m.Some? ==> m.value.id in rows && rows[m.value.id] == m.value && Some(m.value.title) == title
    {
      if TitleTaken(rows, title) {
        var k :| k in rows && Some(rows[k].title) == title;
        m := Some(rows[k]);
      } else {
        m := None;
      }
    }

    /** save() of a movie with no id: the table assigns the next id. */
    method Insert(movie: MovieRequest) returns (saved: Movie)
      requires Valid() && movie.id.None? && MovieEntity.Validate(movie).None?
      modifies this
      ensures Valid()
      ensures saved == MovieEntity.FromRequest(old(nextId), movie) && saved.id !in old(rows)
      ensures rows == old(rows)[saved.id := saved]
    {
      saved := MovieEntity.FromRequest(nextId, movie);
      rows := rows[nextId := saved];
      nextId := nextId + 1;
    }

    /** save() of a movie that is already stored: its row is overwritten. */
    method Update(movie: Movie)
      requires Valid() && movie.id in rows
      modifies this
      ensures Valid() && nextId == old(nextId)
      ensures rows == old(rows)[movie.id := movie]
    {
      rows := rows[movie.id := movie];
    }

    /** deleteById(): an id that is not stored is ignored. */
    method DeleteById(id: int)
      requires Valid()
      modifies this
      ensures Valid() && nextId == old(nextId)
      ensures rows == old(rows) - {id}
    {
      rows := rows - {id};
    }
  }

  class ShowtimeRepository {
    var rows: map<int, Showtime>
    var nextId: int

    /** Every showtime sits under its own id, below the next id to hand out. */
    ghost predicate Valid()
      reads this
    {
      forall k :: k in rows ==> rows[k].id == k && k < nextId
    }

    constructor ()
      ensures Valid() && rows == map[]
    {
      rows := map[];
      nextId := 1;
    }

    method FindById(id: int) returns (s: Option<Showtime>)
      ensures s.Some? <==> id in rows
      ensures s.Some? ==> s.value == rows[id]
    {
      s := if id in rows then Some(rows[id]) else None;
    }

    method ExistsById(id: int) returns (b: bool)
      ensures b <==> id in rows
    {
      b := id in rows;
    }

    /** `SELECT s FROM Showtime s WHERE s.theater = :theater`: every stored
        showtime of the theater, each once, in no particular order. A null
        theater matches nothing. */
    method GetShowtimeByTheater(theater: Option<string>) returns (list: seq<Showtime>)
      requires Valid()
      ensures forall j :: 0 <= j < |list| ==>
                list[j].id in rows && rows[list[j].id] == list[j] && Some(list[j].theater) == theater
      ensures forall k :: k in rows && Some(rows[k].theater) == theater ==> rows[k] in list
      ensures forall i, j :: 0 <= i < j < |list| ==> list[i].id != list[j].id
    {
      list := [];
      var pending := rows.Keys;
      while pending != {}
        invariant pending <= rows.Keys
        invariant forall j :: 0 <= j < |list| ==>
                    list[j].id in rows && rows[list[j].id] == list[j] && Some(list[j].theater) == theater
        invariant forall k :: k in rows && k !in pending && Some(rows[k].theater) == theater ==> rows[k] in list
        invariant forall j :: 0 <= j < |list| ==> list[j].id !in pending
        invariant forall i, j :: 0 <= i < j < |list| ==> list[i].id != list[j].id
        decreases pending
      {
        var k := Pick(pending);
        if Some(rows[k].theater) == theater {
          list := list + [rows[k]];
        }
        pending := pending - {k};
      }
    }

    /** save() of a showtime with no id: the table assigns the next id. */
    method Insert(showtime: ShowtimeRequest) returns (saved: Showtime)
      requires Valid() && showtime.id.None? && ShowtimeEntity.Validate(showtime).None?
      modifies this
      ensures Valid()
      ensures saved == ShowtimeEntity.FromRequest(old(nextId), showtime) && saved.id !in old(rows)
      ensures rows == old(rows)[saved.id := saved]
    {
      saved := ShowtimeEntity.FromRequest(nextId, showtime);
      rows := rows[nextId := saved];
      nextId := nextId + 1;
    }

    /** save() of a showtime that is already stored: its row is overwritten. */
    method Update(showtime: Showtime)
      requires Valid() && showtime.id in rows
      modifies this
      ensures Valid() && nextId == old(nextId)
      ensures rows == old(rows)[showtime.id := showtime]
    {
      rows := rows[showtime.id := showtime];
    }

    /** deleteById(): an id that is not stored is ignored. */
    method DeleteById(id: int)
      requires Valid()
      modifies this
      ensures Valid() && nextId == old(nextId)
      ensures rows == old(rows) - {id}
    {
      rows := rows - {id};
    }
  }

  /** Tickets are keyed by their booking id, the entity's @Id. */
  class TicketRepository {
    var rows: map<string, Ticket>

    /** Every ticket sits under its own booking id. */
    ghost predicate Valid()
      reads this
    {
      forall b :: b in rows ==> rows[b].bookingId == b
    }

    constructor ()
      ensures Valid() && rows == map[]
    {
      rows := map[];
    }

    /** save(): a ticket whose booking id is already stored replaces it. */
    method Save(t: Ticket)
      requires Valid()
      modifies this
      ensures Valid()
      ensures rows == old(rows)[t.bookingId := t]
    {
      rows := rows[t.bookingId := t];
    }

    /** `SELECT t FROM Ticket t WHERE t.showtimeId = :showtimeId AND
        t.seatNumber = :seatNumber`. */
    method GetTicketsByShowtimeSeatNumber(showtimeId: int, seatNumber: int) returns (t: Option<Ticket>)
      requires Valid()
      ensures t.None? <==> SeatFree(rows, showtimeId, seatNumber)
      ensures t.Some? ==> && t.value.bookingId in rows && rows[t.value.bookingId] == t.value
                          && t.value.showtimeId == showtimeId && t.value.seatNumber == seatNumber
    {
      if SeatFree(rows, showtimeId, seatNumber) {
        t := None;
      } else {
        var b :| b in rows && rows[b].showtimeId == showtimeId && rows[b].seatNumber == seatNumber;
        t := Some(rows[b]);
      }
    }

    /** `DELETE FROM Ticket t WHERE t.showtimeId = :showtimeId`. */
    method DeleteTicketByShowtimeId(showtimeId: int)
      requires Valid()
      modifies this
      ensures Valid()
      ensures rows == WithoutShowtime(old(rows), showtimeId)
    {
      rows := WithoutShowtime(rows, showtimeId);
    }
  }
}
