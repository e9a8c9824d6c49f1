/**
 * The event endpoints of the level-up API: `retrieve` looks one event up by
 * primary key, `list` returns every event or only those of one game, and the
 * event serializer turns a record into the six fields the client sees.
 */
module EventView {
  import opened Models
  import opened Collections
  import opened Wrappers

  /** What the event serializer emits: exactly id, description, date, game, organizer, attendees. */
  datatype EventData = EventData(
    id: EventId,
    description: string,
    date: DateTime,
    game: GameId,
    organizer: GamerId,
    attendees: set<GamerId>)

  /** The two ways `objects.get(pk=...)` fails. */
  datatype LookupError = DoesNotExist | MultipleObjectsReturned

  /** The record the serializer's six fields describe: the way back from the client's view. */
  function AsEvent(d: EventData): Event
  {
    Event(d.id, d.description, d.date, d.game, d.organizer, d.attendees)
  }

  /** The event serializer: its output carries enough to rebuild the whole record. */
  function Serialize(e: Event): (r: EventData)
    ensures AsEvent(r) == e
  {
    EventData(e.id, e.description, e.date, e.game, e.organizer, e.attendees)
  }

  /** The serialized fields cover the whole record: two different events never serialize alike. */
  lemma SerializeInjective(e1: Event, e2: Event)
    ensures Serialize(e1) == Serialize(e2) <==> e1 == e2
  {
  }

  function SerializeAll(events: seq<Event>): (r: seq<EventData>)
    ensures |r| == |events|
    ensures forall i :: 0 <= i < |r| ==> r[i] == Serialize(events[i])
  {
    if events == [] then [] else [Serialize(events[0])] + SerializeAll(events[1..])
  }

  /** No two events share a primary key. */
  predicate UniqueIds(events: seq<Event>)
  {
    forall i, j :: 0 <= i < j < |events| ==> events[i].id != events[j].id
  }

  /** The events whose primary key is `pk`, in store order. */
  function WithId(events: seq<Event>, pk: EventId): (r: seq<Event>)
    ensures forall e :: e in r <==> e in events && e.id == pk
  {
    Filter(events, (e: Event) => e.id == pk)
  }

  /**
   * `retrieve`: the event with primary key `pk`, serialized.  The lookup is not
   * guarded, so a missing key is a failure passed on to the caller.
   */
  function Retrieve(events: seq<Event>, pk: EventId): (r: Result<EventData, LookupError>)
    ensures r == Failure(DoesNotExist) <==> forall e :: e in events ==> e.id != pk
    ensures r.Success? ==> exists e :: e in events && e.id == pk && r.value == Serialize(e)
  {
    var found := WithId(events, pk);
    if |found| == 1 then
      assert found[0] in found;
      Success(Serialize(found[0]))
    else if |found| == 0 then
      Failure(DoesNotExist)
    else
      assert found[0] in found;
      Failure(MultipleObjectsReturned)
  }

  /** The events played with game `g`, in store order: the queryset `filter(game=g)`. */
  function ByGame(events: seq<Event>, g: GameId): (r: seq<Event>)
    ensures |r| <= |events|
    ensures forall e :: e in r <==> e in events && e.game == g
  {
    Filter(events, (e: Event) => e.game == g)
  }

  /** `list`: every event, or with a `game` parameter only the events of that game. */
  function List(events: seq<Event>, game: Option<GameId>): (r: seq<EventData>)
    ensures game.None? ==> |r| == |events| && forall i :: 0 <= i < |r| ==> r[i] == Serialize(events[i])
    ensures game.Some? ==> |r| <= |events| && forall d :: d in r ==> d.game == game.value
  {
    match game
    case None => SerializeAll(events)
    case Some(g) => SerializeAll(ByGame(events, g))
  }

  /** With unique keys, the unique event with id `pk` is the one that `retrieve` returns. */
  lemma {:induction false} WithIdUnique(events: seq<Event>, e: Event)
    requires UniqueIds(events)
    requires e in events
    ensures WithId(events, e.id) == [e]
  {
    if events[0] == e {
      forall x | x in events[1..]
        ensures x.id != e.id
      {
        var j :| 1 <= j < |events| && events[j] == x;
      }
      FilterKeepsNone(events[1..], (x: Event) => x.id == e.id);
    } else {
      assert events[0].id != e.id by {
        var j :| 0 <= j < |events| && events[j] == e;
      }
      assert e in events[1..];
      WithIdUnique(events[1..], e);
    }
  }

  /** `retrieve(pk)` returns the event whose id is `pk` when the store holds one. */
  lemma RetrieveFinds(events: seq<Event>, e: Event)
    requires UniqueIds(events)
    requires e in events
    ensures Retrieve(events, e.id) == Success(Serialize(e))
  {
    WithIdUnique(events, e);
  }

  /** Primary keys are unique, so `retrieve` never finds more than one event. */
  lemma RetrieveNeverAmbiguous(events: seq<Event>, pk: EventId)
    requires UniqueIds(events)
    ensures Retrieve(events, pk).Success? <==> exists e :: e in events && e.id == pk
    ensures Retrieve(events, pk) != Failure(MultipleObjectsReturned)
  {
    if e :| e in events && e.id == pk {
      RetrieveFinds(events, e);
    }
  }

  /**
   * With a `game` parameter `list` returns exactly the events of that game,
   * and only events that the unfiltered list also returns.
   */
  lemma ListByGame(events: seq<Event>, g: GameId)
    ensures forall e :: e in events ==> (Serialize(e) in List(events, Some(g)) <==> e.game == g)
    ensures forall d :: d in List(events, Some(g)) ==> d.game == g && d in List(events, None)
  {
    var selected := ByGame(events, g);
    forall e | e in events
      ensures Serialize(e) in List(events, Some(g)) <==> e.game == g
    {
      if Serialize(e) in List(events, Some(g)) {
        var i :| 0 <= i < |selected| && Serialize(selected[i]) == Serialize(e);
        SerializeInjective(selected[i], e);
        assert selected[i] in selected;
      }
      if e.game == g {
        var i :| 0 <= i < |selected| && selected[i] == e;
        assert List(events, Some(g))[i] == Serialize(e);
      }
    }
    forall d | d in List(events, Some(g))
      ensures d.game == g && d in List(events, None)
    {
      var i :| 0 <= i < |selected| && List(events, Some(g))[i] == d;
      assert selected[i] in selected;
      var j :| 0 <= j < |events| && events[j] == selected[i];
      assert List(events, None)[j] == d;
    }
  }

  /** Filtering by the same game twice gives the same events as filtering once. */
  lemma ByGameIdempotent(events: seq<Event>, g: GameId)
    ensures ByGame(ByGame(events, g), g) == ByGame(events, g)
  {
    FilterIdempotent(events, (e: Event) => e.game == g);
  }
}
