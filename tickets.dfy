/**
 Tickets as values, and the pure parts of the tickets controller: building a
 ticket, the existence test by id, and the field update that is mapped over the
 whole collection.
 */
module Tickets {
  import opened Wrappers
  import opened FlightCatalog

  datatype Ticket = Ticket(id: string, flight: Flight, seat: int, passport: string, status: string)

  /** The `action`/`value` pair of an update request: which field to replace, and the new value. */
  datatype Action = SetSeat(seat: int) | SetStatus(status: string)

  datatype Error = InvalidFlight | TicketNotFound

  datatype Result<+T> = Ok(value: T) | Err(error: Error)

  /** The lowest and highest seat a new ticket can be given. */
  const MIN_SEAT := 1
  const MAX_SEAT := 32

  /**
   Builds a new ticket for a catalog flight: the given id and passport, a copy of the
   catalog record, the given seat, and status "active".
   */
  function MakeTicket(id: string, flightId: int, seat: int, passport: string): (t: Ticket)
    requires IsKnownFlight(flightId)
    ensures Lookup(flightId) == Some(t.flight)
    ensures t.id == id && t.passport == passport && t.seat == seat && t.status == "active"
  {
    Ticket(id, FLIGHTS[flightId], seat, passport, "active")
  }

  /** The tickets whose id equals `target`. */
  function FilterById(ts: seq<Ticket>, target: string): (r: seq<Ticket>)
    ensures forall i :: 0 <= i < |r| ==> r[i].id == target
    ensures multiset(r) <= multiset(ts)
    ensures forall i :: 0 <= i < |ts| && ts[i].id == target ==> ts[i] in r
  {
    if ts == [] then []
    else
      assert ts == [ts[0]] + ts[1..];
      var rest := FilterById(ts[1..], target);
      if ts[0].id == target then [ts[0]] + rest else rest
  }

  /** The filter is non-empty exactly when some position of the collection holds the id. */
  lemma FilterNonEmptyIff(ts: seq<Ticket>, target: string)
    ensures |FilterById(ts, target)| > 0 <==> exists i :: 0 <= i < |ts| && ts[i].id == target
  {
    var r := FilterById(ts, target);
    if |r| > 0 {
      assert r[0] in multiset(ts);
      var i :| 0 <= i < |ts| && ts[i] == r[0];
      assert ts[i].id == target;
    }
  }

  /**
   Whether the filtered collection is non-empty; that is, whether some ticket of the
   collection has the id.
   */
  predicate TicketExists(ts: seq<Ticket>, target: string)
    ensures TicketExists(ts, target) <==> exists i :: 0 <= i < |ts| && ts[i].id == target
  {
    FilterNonEmptyIff(ts, target);
    |FilterById(ts, target)| > 0
  }

  /** Replaces the field the action names and keeps every other field. */
  function ApplyAction(t: Ticket, a: Action): (r: Ticket)
    ensures r.id == t.id && r.flight == t.flight && r.passport == t.passport
    ensures a.SetSeat? ==> r.seat == a.seat && r.status == t.status
    ensures a.SetStatus? ==> r.status == a.status && r.seat == t.seat
  {
    match a
    case SetSeat(s) => t.(seat := s)
    case SetStatus(s) => t.(status := s)
  }

  /**
   The update map: every ticket whose id is `target` gets the action applied,
   every other ticket is kept; length and order are unchanged.
   */
  function UpdateAll(ts: seq<Ticket>, target: string, a: Action): (r: seq<Ticket>)
    ensures |r| == |ts|
    ensures forall i :: 0 <= i < |ts| && ts[i].id == target ==> r[i] == ApplyAction(ts[i], a)
    ensures forall i :: 0 <= i < |ts| && ts[i].id != target ==> r[i] == ts[i]
  {
    if ts == [] then []
    else
      var head := if ts[0].id == target then ApplyAction(ts[0], a) else ts[0];
      [head] + UpdateAll(ts[1..], target, a)
  }

  /** Appending a ticket makes its id exist and keeps every id that already existed. */
  lemma AppendExistence(ts: seq<Ticket>, t: Ticket, x: string)
    ensures TicketExists(ts + [t], x) <==> TicketExists(ts, x) || t.id == x
  {
    if TicketExists(ts + [t], x) && t.id != x {
      var i :| 0 <= i < |ts + [t]| && (ts + [t])[i].id == x;
      assert i < |ts| && ts[i].id == x;
    }
    if TicketExists(ts, x) {
      var i :| 0 <= i < |ts| && ts[i].id == x;
      assert (ts + [t])[i].id == x;
    }
    if t.id == x {
      assert (ts + [t])[|ts|].id == x;
    }
  }

  /** The update never adds or removes an id: the same ids exist before and after. */
  lemma UpdateExistence(ts: seq<Ticket>, target: string, a: Action, x: string)
    ensures TicketExists(UpdateAll(ts, target, a), x) <==> TicketExists(ts, x)
  {
    var r := UpdateAll(ts, target, a);
    if TicketExists(ts, x) {
      var i :| 0 <= i < |ts| && ts[i].id == x;
      assert r[i].id == x;
    }
    if TicketExists(r, x) {
      var i :| 0 <= i < |r| && r[i].id == x;
      assert ts[i].id == x;
    }
  }

  /** Updating an id that is not present leaves the collection as it was. */
  lemma UpdateAbsentIsIdentity(ts: seq<Ticket>, target: string, a: Action)
    requires !TicketExists(ts, target)
    ensures UpdateAll(ts, target, a) == ts
  {
    var r := UpdateAll(ts, target, a);
    forall i | 0 <= i < |ts|
      ensures r[i] == ts[i]
    {
      assert ts[i].id != target;
    }
  }

  /** Applying the same update twice has the effect of applying it once. */
  lemma UpdateIdempotent(ts: seq<Ticket>, target: string, a: Action)
    ensures UpdateAll(UpdateAll(ts, target, a), target, a) == UpdateAll(ts, target, a)
  {
    var once := UpdateAll(ts, target, a);
    var twice := UpdateAll(once, target, a);
    forall i | 0 <= i < |ts|
      ensures twice[i] == once[i]
    {
      if ts[i].id == target {
        assert once[i].id == target;
      }
    }
  }

  /** No two tickets of the collection share an id. */
  predicate UniqueIds(ts: seq<Ticket>) {
    forall i, j :: 0 <= i < j < |ts| ==> ts[i].id != ts[j].id
  }

  /** Appending a ticket whose id is not yet present keeps ids unique. */
  lemma AppendFreshKeepsUnique(ts: seq<Ticket>, t: Ticket)
    requires UniqueIds(ts)
    requires !TicketExists(ts, t.id)
    ensures UniqueIds(ts + [t])
  {
    var s := ts + [t];
    forall i, j | 0 <= i < j < |s|
      ensures s[i].id != s[j].id
    {
      if j == |ts| {
        assert s[i] == ts[i];
      }
    }
  }

  /** The update keeps ids unique, because it never changes an id. */
  lemma UpdateKeepsUnique(ts: seq<Ticket>, target: string, a: Action)
    requires UniqueIds(ts)
    ensures UniqueIds(UpdateAll(ts, target, a))
  {
    var r := UpdateAll(ts, target, a);
    forall i, j | 0 <= i < j < |r|
      ensures r[i].id != r[j].id
    {
      assert r[i].id == ts[i].id && r[j].id == ts[j].id;
    }
  }

  /**
   When ids are unique, the update of the ticket at position k replaces that one
   element and leaves the rest of the collection as it was.
   */
  lemma UniqueUpdateReplacesOne(ts: seq<Ticket>, k: nat, a: Action)
    requires UniqueIds(ts)
    requires k < |ts|
    ensures UpdateAll(ts, ts[k].id, a) == ts[k := ApplyAction(ts[k], a)]
  {
    var r := UpdateAll(ts, ts[k].id, a);
    forall i | 0 <= i < |ts|
      ensures r[i] == ts[k := ApplyAction(ts[k], a)][i]
    {
      if i < k {
        assert ts[i].id != ts[k].id;
      } else if k < i {
        assert ts[k].id != ts[i].id;
      }
    }
  }

  /** Every seat of the collection lies in the range a new ticket is given. */
  predicate SeatsInRange(ts: seq<Ticket>) {
    forall i :: 0 <= i < |ts| ==> MIN_SEAT <= ts[i].seat <= MAX_SEAT
  }

  /** A ticket created with a seat in range can be appended without leaving the range. */
  lemma AppendCreatedKeepsSeats(ts: seq<Ticket>, id: string, flightId: int, seat: int, passport: string)
    requires SeatsInRange(ts)
    requires IsKnownFlight(flightId)
    requires MIN_SEAT <= seat <= MAX_SEAT
    ensures SeatsInRange(ts + [MakeTicket(id, flightId, seat, passport)])
  {
    var s := ts + [MakeTicket(id, flightId, seat, passport)];
    forall i | 0 <= i < |s|
      ensures MIN_SEAT <= s[i].seat <= MAX_SEAT
    {
      if i < |ts| {
        assert s[i] == ts[i];
      }
    }
  }

  /** A status update, or a seat update to a value in range, keeps every seat in range. */
  lemma UpdateKeepsSeats(ts: seq<Ticket>, target: string, a: Action)
    requires SeatsInRange(ts)
    requires a.SetSeat? ==> MIN_SEAT <= a.seat <= MAX_SEAT
    ensures SeatsInRange(UpdateAll(ts, target, a))
  {
    var r := UpdateAll(ts, target, a);
    forall i | 0 <= i < |r|
      ensures MIN_SEAT <= r[i].seat <= MAX_SEAT
    {
      assert ts[i].id == target ==> r[i] == ApplyAction(ts[i], a);
    }
  }

  /**
   The update does not re-check the seat range: a seat update to 0 on a collection
   whose seats are all in range produces a seat outside it.
   */
  lemma SeatUpdateCanLeaveRange()
    ensures exists ts: seq<Ticket>, target: string ::
      SeatsInRange(ts) && !SeatsInRange(UpdateAll(ts, target, SetSeat(0)))
  {
    var t := MakeTicket("TICKET1", 322, 5, "P123");
    var r := UpdateAll([t], "TICKET1", SetSeat(0));
    assert r[0].seat == 0;
    assert SeatsInRange([t]) && !SeatsInRange(r);
  }
}
