/** The overlap test of ShowtimeService.checkOverLap, stated as a predicate,
    the facts it implies, and the gap it leaves open. */
module Scheduling {
  import opened Outcomes
  import opened ShowtimeEntity

  /** The test checkOverLap applies to one listed showtime e, for a candidate
      with the given id (None for a new showtime) and times: e is another
      showtime, and the candidate's start or the candidate's end lies in the
      closed interval [e.startTime, e.endTime]. */
  predicate Conflicts(id: Option<int>, start: Instant, end: Instant, e: Showtime)
  {
    && Some(e.id) != id
    && (|| (e.startTime <= start && start <= e.endTime)
        || (e.startTime <= end && end <= e.endTime))
  }

  /** Some listed showtime conflicts with the candidate. */
  ghost predicate AnyConflict(id: Option<int>, start: Instant, end: Instant, list: seq<Showtime>)
  {
    exists j :: 0 <= j < |list| && Conflicts(id, start, end, list[j])
  }

  /** Some stored showtime of the theater conflicts with the candidate. */
  ghost predicate TheaterConflict(rows: map<int, Showtime>, theater: string,
                                  id: Option<int>, start: Instant, end: Instant)
  {
    exists k :: k in rows && rows[k].theater == theater && Conflicts(id, start, end, rows[k])
  }

  /** Checking the list the theater query returns is checking every stored
      showtime of that theater, whatever order the list is in. */
  lemma ListConflictIsTheaterConflict(
    rows: map<int, Showtime>, theater: string, list: seq<Showtime>,
    id: Option<int>, start: Instant, end: Instant)
    requires forall j :: 0 <= j < |list| ==>
               list[j].id in rows && rows[list[j].id] == list[j] && list[j].theater == theater
    requires forall k :: k in rows && rows[k].theater == theater ==> rows[k] in list
    ensures AnyConflict(id, start, end, list) <==> TheaterConflict(rows, theater, id, start, end)
  {
  }

  /** The test is on closed intervals: a candidate that starts at the very
      instant another showtime ends, or ends at the very instant it starts,
      conflicts with it. */
  lemma TouchingEndpointsConflict(id: Option<int>, start: Instant, end: Instant, e: Showtime)
    requires Some(e.id) != id && e.startTime <= e.endTime
    requires start == e.endTime || end == e.startTime
    ensures Conflicts(id, start, end, e)
  {
  }

  /** A showtime never conflicts with its own stored slot: updateShowtime
      gives the candidate the id it updates. */
  lemma OwnSlotNeverConflicts(start: Instant, end: Instant, e: Showtime)
    ensures !Conflicts(Some(e.id), start, end, e)
  {
  }

  /** The closed intervals of a candidate and of e share an instant. */
  predicate Intersect(start: Instant, end: Instant, e: Showtime)
  {
    e.startTime <= end && start <= e.endTime
  }

  /** What checkOverLap misses: for a well-formed candidate and a well-formed
      e, the closed intervals meet exactly when checkOverLap reports a
      conflict or the candidate strictly contains e. */
  lemma ConflictGapIsStrictContainment(id: Option<int>, start: Instant, end: Instant, e: Showtime)
    requires start <= end && e.startTime <= e.endTime && Some(e.id) != id
    ensures Intersect(start, end, e) <==>
              Conflicts(id, start, end, e) || (start < e.startTime && e.endTime < end)
  {
  }

  /** No two stored showtimes of one theater share an instant. */
  ghost predicate ScheduleDisjoint(rows: map<int, Showtime>)
  {
    forall k1, k2 :: k1 in rows && k2 in rows && k1 != k2 && rows[k1].theater == rows[k2].theater ==>
      !Intersect(rows[k1].startTime, rows[k1].endTime, rows[k2])
  }

  /** As written, the test lets a candidate through that strictly contains a
      stored showtime of the same theater, and storing it breaks disjointness. */
  lemma ContainmentSlipsThrough()
    ensures var e := Showtime(1, 7, "Hall 1", 10, 20, 0.0);
            var c := Showtime(2, 7, "Hall 1", 5, 25, 0.0);
            && ScheduleDisjoint(map[1 := e])
            && !AnyConflict(None, c.startTime, c.endTime, [e])
            && !ScheduleDisjoint(map[1 := e, 2 := c])
  {
    var e := Showtime(1, 7, "Hall 1", 10, 20, 0.0);
    var c := Showtime(2, 7, "Hall 1", 5, 25, 0.0);
    var rows := map[1 := e, 2 := c];
    assert rows[2].theater == rows[1].theater && Intersect(rows[2].startTime, rows[2].endTime, rows[1]);
  }

  /** The test the documentation of checkOverLap describes: the closed
      intervals share an instant. */
  predicate ConflictsCorrected(id: Option<int>, start: Instant, end: Instant, e: Showtime)
  {
    Some(e.id) != id && Intersect(start, end, e)
  }

  /** With the corrected test, writing a showtime that conflicts with no other
      stored showtime of its theater keeps the schedule disjoint; this covers
      both saving a new showtime and updating one in place. */
  lemma CorrectedAdmissionKeepsScheduleDisjoint(rows: map<int, Showtime>, s: Showtime)
    requires ScheduleDisjoint(rows)
    requires forall k :: k in rows ==> rows[k].id == k
    requires forall k :: k in rows && rows[k].theater == s.theater ==>
               !ConflictsCorrected(Some(s.id), s.startTime, s.endTime, rows[k])
    ensures ScheduleDisjoint(rows[s.id := s])
  {
  }
}
