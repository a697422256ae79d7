# Ticket store of the flightradar tickets controller

This project models the core of `TicketsController`, a controller that sells airline tickets. It has two parts:

- **Flight catalog.** A fixed map from flight id (322, 431) to a record of origin, destination and departure.
- **Ticket store.** An in-memory, ordered collection of tickets, plus the file copy of it (`tickets.json`).
  - The collection is loaded from the file when the file exists. Otherwise it starts empty.
  - `index` lists the collection.
  - `store` creates a ticket for a catalog flight and appends it.
  - `update` replaces the `seat` or `status` of every ticket with a given id.
  - Each mutation writes the whole collection back to the file.

Files:

- `wrappers.dfy`: `Option`.
- `catalog.dfy`: module `FlightCatalog`.
- `tickets.dfy`: module `Tickets`. Ticket values and the pure parts of the controller: building a ticket, the `array_filter` existence test, and the `array_map` update. It also holds lemmas about them.
- `controller.dfy`: module `Controller`. The class `TicketStore` has two fields. `tickets` is the collection. `persisted` is the file contents, `None` while the file does not exist. The methods change these fields as the controller does. Two client methods replay a create / list / cancel / reject run.

The invariant `TicketStore.Valid()` says that the file equals memory, or that there is no file yet and memory is empty. Every method keeps it.

Facts about the code that shape the model:

- The catalog record embedded in a ticket has no `id` key. Line 172 copies `$this->flights[...]`, whose records hold only origin, destination and departure.
- Ticket ids come from `uniqid` (line 171), which does not guarantee uniqueness. So uniqueness is not an invariant here. Instead, `Create` and the lemmas show that an id not already present keeps ids unique.
- An update changes every ticket whose id matches, because the `array_map` at lines 122-130 visits the whole collection.

## Model

| member | source | states |
|---|---|---|
| `FlightCatalog.IsKnownFlight` | app/Http/Controllers/TicketsController.php:66 | the `in:322,431` rule accepts exactly the keys of the catalog |
| `FlightCatalog.Lookup` | app/Http/Controllers/TicketsController.php:12-23 | a flight is found exactly for the ids 322 and 431 accepted by the `in:322,431` rule, and the result is that catalog entry |
| `Tickets.MakeTicket` | app/Http/Controllers/TicketsController.php:168-179 | the new ticket has the given id, passport and seat, status "active", and a flight equal to the catalog lookup of the requested id |
| `Tickets.FilterById` | app/Http/Controllers/TicketsController.php:150-152 | the filtered tickets all have the target id, are drawn from the collection (sub-multiset), and include every ticket with that id |
| `Tickets.FilterNonEmptyIff` | app/Http/Controllers/TicketsController.php:150-154 | the `array_filter` result is non-empty exactly when some position of the collection holds a ticket with that id |
| `Tickets.TicketExists` | app/Http/Controllers/TicketsController.php:148-159 | `ticketExists` holds exactly when some position of the collection holds a ticket with that id, both directions |
| `Tickets.ApplyAction` | app/Http/Controllers/TicketsController.php:124-126 | only the selected field (seat or status) takes the new value; id, flight, passport and the other field are kept |
| `Tickets.UpdateAll` | app/Http/Controllers/TicketsController.php:122-130 | the update keeps length and order; every ticket with the target id gets the action applied, every other ticket is unchanged |
| `Tickets.AppendExistence` | app/Http/Controllers/TicketsController.php:188-190 | after appending, an id exists exactly when it existed before or is the new ticket's id |
| `Tickets.UpdateExistence` | app/Http/Controllers/TicketsController.php:122-130 | the update neither adds nor removes any id |
| `Tickets.UpdateAbsentIsIdentity` | app/Http/Controllers/TicketsController.php:122-130 | mapping the update over a collection without the target id returns the collection unchanged |
| `Tickets.UpdateIdempotent` | app/Http/Controllers/TicketsController.php:122-130 | applying the same update twice equals applying it once |
| `Tickets.AppendFreshKeepsUnique` | app/Http/Controllers/TicketsController.php:188-190 | appending a ticket whose id is not present keeps all ids distinct |
| `Tickets.UpdateKeepsUnique` | app/Http/Controllers/TicketsController.php:122-130 | the update keeps all ids distinct |
| `Tickets.UniqueUpdateReplacesOne` | app/Http/Controllers/TicketsController.php:122-130 | with distinct ids, updating the id at position k replaces exactly that element |
| `Tickets.AppendCreatedKeepsSeats` | app/Http/Controllers/TicketsController.php:170-176 | appending a ticket created with a seat in [1, 32] keeps every seat of the collection in [1, 32] |
| `Tickets.UpdateKeepsSeats` | app/Http/Controllers/TicketsController.php:122-130 | a status update, or a seat update to a value in [1, 32], keeps every seat in [1, 32] |
| `Tickets.SeatUpdateCanLeaveRange` | app/Http/Controllers/TicketsController.php:96-130 | the update does not re-check the seat range: a seat update to 0 takes a collection out of [1, 32] |
| `Controller.TicketStore.constructor` | app/Http/Controllers/TicketsController.php:25-38 | with no file the collection is empty; with a file it is the file's contents; the invariant holds |
| `Controller.TicketStore.Index` | app/Http/Controllers/TicketsController.php:46-52 | returns the whole collection, in order |
| `Controller.TicketStore.SaveTickets` | app/Http/Controllers/TicketsController.php:195-202 | the file afterwards holds exactly the in-memory collection |
| `Controller.TicketStore.AddTicket` | app/Http/Controllers/TicketsController.php:188-193 | the collection grows by exactly the new ticket at the end, earlier tickets unchanged and in order, and the file equals memory |
| `Controller.TicketStore.Create` | app/Http/Controllers/TicketsController.php:62-84 | an unknown flight is rejected with collection and file unchanged; otherwise the created ticket is appended and persisted, its flight is the catalog entry and its seat is in [1, 32], its id exists, and a fresh id keeps ids unique |
| `Controller.TicketStore.Update` | app/Http/Controllers/TicketsController.php:93-139 | fails with not-found exactly when no ticket has the id, and then collection and file are unchanged; otherwise the collection becomes the update map of the old one and the file equals memory |

## Left out

- The HTTP layer is not modelled: `Request`, `response()->json`, the status codes 201/200/404 and the response keys. Results are the `Result` datatype with the errors `InvalidFlight` and `TicketNotFound`. `update`'s success carries no value, as the action returns only a success flag.
- The Laravel `Validator` presence rules are not modelled (`required` on `flight`, `passport`, `ticket`, `action` and `value`). They are request plumbing. The `in:322,431` rule on `flight` is kept as `Create`'s error case. The `in:seat,status` rule on `action` is kept by the two-case `Action` datatype.
- `Action` types the request's `value`: an integer for `seat`, a string for `status`. The controller stores the raw request value whatever its type.
- `Storage` and `json_encode`/`json_decode` are not modelled: they are file I/O and a foreign serialiser. The file is its decoded contents, and saving assigns the collection to `persisted`. A corrupt file, which `json_decode` would turn into `null`, is not modelled.
- `uniqid('TICKET')` and `rand(1, 32)` are not modelled. They are ambient time and randomness, so `Create` takes the id and the seat as parameters. The seat must lie in [1, 32], the range `rand` draws from.
- PHP's loose `==` in the id comparisons (lines 124 and 151) is modelled as exact string equality.
- Concurrency is not modelled. The model runs one request at a time. The source builds a controller per request, which reads the file (lines 27-38), and it takes no lock. So two overlapping `store` or `update` requests can load the same file, and the later write (line 200) discards the other's change.
- The model assumes the default storage disk is `local`. The file is read through the default disk (lines 29 and 31) but written to `Storage::disk('local')` (line 200). Only under that assumption do they name one file, the one `persisted` stands for.
- The request's `flight` is modelled as an `int`. Laravel's `in:322,431` rule compares the value as a string with a loose `in_array`, so a value such as `"322.0"` can pass the rule without being a key of `$flights`, and line 172 would then read a missing key. The model does not cover such values: `Create` sees only integer ids, and it accepts exactly 322 and 431.
