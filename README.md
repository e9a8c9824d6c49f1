# Level-up server: event records, event endpoints and the events-by-user report, in Dafny

This project models the core of a small Django backend in which gamers own games and organize events.
It covers three parts of that backend:

- **Records** (`models.dfy`, module `Models`). These are the `Game` and `Event` records with the bounds of
  their text fields: title 50, maker 75, number of players 15 (it is text, not a number), skill level 50,
  and description 250. An event has exactly one game and exactly one organizing gamer, each a single id
  field. Its attendees are a set of gamer ids, so no gamer attends twice. Gamers and game types are not
  modelled as records; they appear only as ids.
- **Store and cascades** (`cascades.dfy`, module `Cascades`). A store holds game types, gamers, games and
  events. `Consistent` says that every record keeps its bounds and every foreign key resolves. The
  `on_delete=CASCADE` rules are functions over the store: deleting a game, a game type or a gamer. Each has a
  lemma that the result is consistent again and that nothing refers to the deleted row.
- **Event endpoints** (`event_view.dfy`, module `EventView`). `Retrieve` looks an event up by primary key.
  It fails with `DoesNotExist` or `MultipleObjectsReturned` as `objects.get` does. `List` returns every event,
  or only those of one game. `Serialize` produces the six fields `id, description, date, game, organizer,
  attendees`.
- **Events-by-user report** (`events_by_user.dfy`, module `EventsByUser`). Query rows are folded into one
  group per organizing gamer. The per-gamer dictionary is the class `GamerEvents`; its event list grows in
  place through `Append`. `EventsByUserReport` is the outer loop over rows, `AddRow` is one pass of it and
  `FindGroup` is the inner linear search. The methods are proved against `Grouped`, a pure fold. The lemmas
  about `Grouped` relate it to definitions stated on the rows alone: the set of gamer ids, each gamer's
  entries in row order, and the position of each gamer's first row.

`collections.dfy` holds an order-preserving `Filter` with its lemmas. `wrappers.dfy` holds `Option` and
`Result`.

## Model

| member | source | states |
|---|---|---|
| `Models.ValidGame` | levelupapi/models/game.py:4-7 | a game's title has at most 50 characters, its maker at most 75, its number of players at most 15 and its skill level at most 50 |
| `Models.ValidEvent` | levelupapi/models/event.py:5 | an event's description has at most 250 characters |
| `Cascades.Consistent` | levelupapi/models/event.py:5-9 | every game and event keeps its bounds; every game's type and owner, every event's game and organizer, and every attendee exist in the store (also levelupapi/models/game.py:8-9) |
| `Cascades.DeleteGame` | levelupapi/models/event.py:7 | the games left are exactly those whose id is not the deleted one; the events left are exactly those not played with it; game types and gamers are unchanged |
| `Cascades.DeleteGameConsistent` | levelupapi/models/event.py:5-8 | deleting a game from a consistent store leaves it consistent (bounds kept, every event's game and organizer resolve); no game with that id and no event of it remains |
| `Cascades.DeleteGameType` | levelupapi/models/game.py:8 | the type is gone; the games left are exactly those of other types; the events left are exactly those whose game was not one of the deleted games |
| `Cascades.DeleteGameTypeConsistent` | levelupapi/models/game.py:4-9 | deleting a game type from a consistent store leaves it consistent: every remaining game keeps its four length bounds, its type and owner resolve, and every event's game still exists |
| `Cascades.WithoutAttendee` | levelupapi/models/event.py:9 | every event keeps its position and all its fields; only the deleted gamer leaves its attendee set |
| `Cascades.DeleteGamer` | levelupapi/models/game.py:9 | the gamer is gone; the games left are exactly those owned by other gamers; the events left are exactly the events neither organized by the gamer nor played with one of their games, each with the gamer dropped from its attendees (also levelupapi/models/event.py:7-9) |
| `Cascades.DeleteGamerConsistent` | levelupapi/models/event.py:7-9 | after deleting a gamer the store is consistent; no remaining event is organized by, attended by, or played with a game of that gamer; every other event survives with only that attendee dropped |
| `EventView.Serialize` | levelupapi/views/event.py:39-44 | the serialized fields rebuild the event exactly (`AsEvent` of the output is the input) |
| `EventView.SerializeInjective` | levelupapi/views/event.py:39-44 | two events serialize alike exactly when they are equal: the six serialized fields drop nothing from the record |
| `EventView.SerializeAll` | levelupapi/views/event.py:35 | a many-serializer output has one entry per event, in order, each the event's serialization |
| `EventView.Retrieve` | levelupapi/views/event.py:12-20 | fails with `DoesNotExist` exactly when no event has id `pk`; a success is the serialization of an event in the store whose id is `pk` |
| `EventView.WithIdUnique` | levelupapi/views/event.py:18 | with unique primary keys, the lookup by the id of a stored event finds that event and only it |
| `EventView.RetrieveFinds` | levelupapi/views/event.py:18-20 | with unique primary keys, `retrieve` of a stored event's id returns exactly that event |
| `EventView.RetrieveNeverAmbiguous` | levelupapi/views/event.py:18 | with unique primary keys, `retrieve` succeeds exactly when some event has id `pk` and never fails with `MultipleObjectsReturned` |
| `EventView.ByGame` | levelupapi/views/event.py:31 | the filtered events are exactly the stored events whose game is `g`, and there are no more of them than stored events |
| `EventView.List` | levelupapi/views/event.py:23-36 | without a game it returns every event in store order; with a game every returned event has that game |
| `EventView.ListByGame` | levelupapi/views/event.py:29-31 | with a game, a stored event is listed exactly when its game matches, and every listed event is also in the unfiltered list |
| `EventView.ByGameIdempotent` | levelupapi/views/event.py:31 | filtering by the same game twice gives the same events as filtering once |
| `EventsByUser.Entry` | levelupreports/views/users/eventsbyuser.py:40-45 | the per-row dictionary: the row's id, description, date and game name, and nothing of its gamer |
| `EventsByUser.Insert` | levelupreports/views/users/eventsbyuser.py:40-63 | one pass of the loop on values: the entry is appended to the last group with the row's gamer, or a new group with the row's gamer id, full name and that one entry is appended |
| `EventsByUser.Grouped` | levelupreports/views/users/eventsbyuser.py:34-63 | the group list the loop builds: starting from an empty list, `Insert` of each row in row order |
| `EventsByUser.IndexOf` | levelupreports/views/users/eventsbyuser.py:48-51 | the search result is -1 when no group has the gamer, and otherwise the last group that has it |
| `EventsByUser.FindGroup` | levelupreports/views/users/eventsbyuser.py:47-52 | the loop over all groups yields the last group of the row's gamer, or none, as `IndexOf` says |
| `EventsByUser.GamerEvents.constructor` | levelupreports/views/users/eventsbyuser.py:59-63 | a new group holds the row's gamer id, full name and a one-entry event list |
| `EventsByUser.GamerEvents.Append` | levelupreports/views/users/eventsbyuser.py:56 | the group's event list gains the entry at its end; nothing else changes |
| `EventsByUser.AddRow` | levelupreports/views/users/eventsbyuser.py:40-63 | one pass appends the entry in place to the gamer's group or appends a new group; the list keeps every previous object at its position and at most one new object is added at the end; the objects stay distinct and hold `Insert` of the previous groups |
| `EventsByUser.EventsByUserReport` | levelupreports/views/users/eventsbyuser.py:34-63 | the result is a list of distinct new group objects that hold `Grouped(rows)`, one per distinct gamer id; no rows give no groups |
| `EventsByUser.GroupedIds` | levelupreports/views/users/eventsbyuser.py:54-63 | the groups belong to exactly the gamer ids that occur in the rows |
| `EventsByUser.GroupedUnique` | levelupreports/views/users/eventsbyuser.py:48-63 | no two groups have the same gamer id |
| `EventsByUser.GroupedCount` | levelupreports/views/users/eventsbyuser.py:34-63 | the number of groups is the number of distinct gamer ids; the list is empty exactly when there are no rows |
| `EventsByUser.GroupedEvents` | levelupreports/views/users/eventsbyuser.py:36-62 | each group's events are the entries of exactly its gamer's rows, in row order; each entry carries only the row's id, description, date and game name |
| `EventsByUser.GroupedTotal` | levelupreports/views/users/eventsbyuser.py:36-63 | the groups hold as many entries in total as there are rows |
| `EventsByUser.GroupedOrder` | levelupreports/views/users/eventsbyuser.py:59-63 | groups appear in the order of the first row of each gamer |
| `EventsByUser.GroupedFullName` | levelupreports/views/users/eventsbyuser.py:59-61 | a group's full name is the one on its gamer's first row; later rows do not change it |
| `EventsByUser.FirstIndexIsFirst` | levelupreports/views/users/eventsbyuser.py:59-61 | no row before a gamer's first row belongs to that gamer |

## Left out

- The report's SQL join, `connection.cursor()` and `dict_fetch_all` are database I/O. The model takes the
  rows as an input sequence. The join matches `u.id = organizer_id`
  (levelupreports/views/users/eventsbyuser.py:27). That compares an auth-user id with a gamer id, so events can
  land under the wrong gamer when the two numberings differ. This is SQL and is not modelled.
- Template rendering and the context dictionary of the report are presentation and are left out.
- HTTP request and response handling is left out, and so is the `print` in `list`. The `game` query
  parameter and the `pk` URL argument of `retrieve` are text in the source; here they are integer ids (`game`
  optional). A non-numeric value makes the database layer raise a `ValueError` rather than `DoesNotExist`,
  and that case is not modelled.
- JSON encoding and `DateTimeField` parsing are left out. A date is an opaque string.
- How the ORM enforces `max_length` and runs cascades is left out. The model states the resulting
  invariants (`Consistent`) and what each delete leaves behind. The reverse accessors (`related_name`) are
  not modelled.
- Create, update, destroy, signup and leave are left out, and so are the derived `joined` and
  `attendee_count` fields. None of the modelled source files implements them. The `Gamer` and `GameType` records are not part of this model either; they appear only as ids.
- `Event.objects.all()` has no declared ordering. The model lists events in the store's sequence order.
- Primary keys are unique in the database. The store does not enforce this. The lemmas that need it
  (`RetrieveFinds`, `RetrieveNeverAmbiguous`, `WithIdUnique`) take it as a precondition `UniqueIds`.
- The API promises a not-found response with a message for a missing event. The code of `retrieve` does not
  catch `DoesNotExist` and lets it propagate (levelupapi/views/event.py:18). `Retrieve` follows the code: the
  failure is an error value passed to the caller, and no response shape is modelled.
- The report's outer list is a sequence value that the loop reassigns. Its group dictionaries are objects
  (`GamerEvents`) changed in place. Only their event list is mutable, as in the source, where only
  `user_dict['events']` is appended to.
