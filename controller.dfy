/**
 The tickets controller's store: the in-memory ticket collection, the stored copy
 of it (the tickets file), and the three actions index, store and update.
 */
module Controller {
  import opened Wrappers
  import opened FlightCatalog
  import opened Tickets

  class TicketStore {
    /** The in-memory collection, in insertion order. */
    var tickets: seq<Ticket>
    /** The contents of the tickets file (read and written on one disk); None while the file does not exist. */
    var persisted: Option<seq<Ticket>>

    /** The stored copy equals memory, or there is no file yet and memory is empty. */
    ghost predicate Valid()
      reads this
    {
      persisted == Some(tickets) || (persisted == None && tickets == [])
    }

    /** Loads the collection from the tickets file when it exists, and starts empty otherwise. */
    constructor (stored: Option<seq<Ticket>>)
      ensures Valid()
      ensures persisted == stored
      ensures stored == None ==> tickets == []
      ensures stored.Some? ==> tickets == stored.value
    {
      tickets := [];
      persisted := stored;
      if stored.Some? {
        tickets := stored.value;
      }
    }

    /** All tickets, in insertion order, unfiltered. */
    method Index() returns (all: seq<Ticket>)
      ensures all == tickets
    {
      all := tickets;
    }

    /** Writes the whole collection to the tickets file. */
    method SaveTickets()
      modifies this`persisted
      ensures persisted == Some(tickets)
    {
      persisted := Some(tickets);
    }

    /** Appends a ticket and writes the collection back. */
    method AddTicket(t: Ticket)
      modifies this
      ensures tickets == old(tickets) + [t]
      ensures persisted == Some(tickets)
    {
      tickets := tickets + [t];
      SaveTickets();
    }

    /**
     The store action. A flight outside the catalog is rejected and nothing changes;
     otherwise a ticket with the given id and seat is built, appended and persisted.
     The generated id and the random seat are passed in.
     */
    method Create(flightId: int, passport: string, id: string, seat: int) returns (r: Result<Ticket>)
      requires Valid()
      requires MIN_SEAT <= seat <= MAX_SEAT
      modifies this
      ensures Valid()
      ensures !IsKnownFlight(flightId) ==>
        r == Err(InvalidFlight) && tickets == old(tickets) && persisted == old(persisted)
      ensures IsKnownFlight(flightId) ==>
        && r == Ok(MakeTicket(id, flightId, seat, passport))
        && tickets == old(tickets) + [r.value]
        && persisted == Some(tickets)
      ensures r.Ok? ==> Lookup(flightId) == Some(r.value.flight) && MIN_SEAT <= r.value.seat <= MAX_SEAT
      ensures r.Ok? ==> TicketExists(tickets, id)
      ensures r.Ok? && UniqueIds(old(tickets)) && !TicketExists(old(tickets), id) ==> UniqueIds(tickets)
    {
      if !IsKnownFlight(flightId) {
        return Err(InvalidFlight);
      }
      var t := MakeTicket(id, flightId, seat, passport);
      AddTicket(t);
      AppendExistence(old(tickets), t, id);
      if UniqueIds(old(tickets)) && !TicketExists(old(tickets), id) {
        AppendFreshKeepsUnique(old(tickets), t);
      }
      r := Ok(t);
    }

    /**
     The update action. An id that no ticket has is reported as not found and nothing
     changes; otherwise the action is applied to every ticket with that id and the
     collection is written back.
     */
    method Update(target: string, a: Action) returns (r: Result<()>)
      requires Valid()
      modifies this
      ensures Valid()
      ensures r.Err? <==> !TicketExists(old(tickets), target)
      ensures r.Err? ==> r.error == TicketNotFound && tickets == old(tickets) && persisted == old(persisted)
      ensures r.Ok? ==> tickets == UpdateAll(old(tickets), target, a) && persisted == Some(tickets)
    {
      if !TicketExists(tickets, target) {
        return Err(TicketNotFound);
      }
      tickets := UpdateAll(tickets, target, a);
      SaveTickets();
      r := Ok(());
    }
  }

  /** A client run on a store with no file: create a ticket for flight 322, list, cancel it. */
  method ScenarioCreateAndCancel() {
    var store := new TicketStore(None);
    var created := store.Create(322, "P123", "TICKET1", 17);
    assert created == Ok(Ticket("TICKET1", Flight("Arlanda", "Schipol", "2023-05-11 14:30"), 17, "P123", "active"));
    var all := store.Index();
    assert all == [created.value];
    assert store.persisted == Some(all);

    ghost var before := store.tickets;
    var cancelled := store.Update("TICKET1", SetStatus("cancelled"));
    assert cancelled.Ok?;
    assert before[0].id == "TICKET1";
    assert store.tickets == [created.value.(status := "cancelled")];
  }

  /** A client run on a store with one ticket: an unknown ticket id and an unknown flight are both rejected. */
  method ScenarioRejections(t: Ticket)
    requires t.id == "TICKET1"
  {
    var store := new TicketStore(Some([t]));
    assert !TicketExists([t], "bogus");
    var missing := store.Update("bogus", SetSeat(5));
    assert missing == Err(TicketNotFound);
    assert store.tickets == [t];

    var rejected := store.Create(999, "P123", "TICKET2", 3);
    assert rejected == Err(InvalidFlight) && store.tickets == [t];
  }
}
