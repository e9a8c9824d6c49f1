/**
 * A store of game types, gamers, games and events, the referential integrity
 * the foreign keys promise, and the `on_delete=CASCADE` rules: deleting a
 * referenced row deletes every row whose foreign key points at it, and
 * deleting a gamer also drops that gamer's attendee rows.
 */
module Cascades {
  import opened Models
  import opened Collections

  datatype Store = Store(
    gameTypes: set<GameTypeId>,
    gamers: set<GamerId>,
    games: seq<Game>,
    events: seq<Event>)

  function GameIds(games: seq<Game>): set<GameId>
  {
    set g | g in games :: g.id
  }

  /** Every record keeps its field bounds and every foreign key resolves. */
  predicate Consistent(s: Store)
  {
    && (forall g :: g in s.games ==>
          ValidGame(g) && g.gameType in s.gameTypes && g.gamer in s.gamers)
    && (forall e :: e in s.events ==>
          && ValidEvent(e)
          && e.game in GameIds(s.games)
          && e.organizer in s.gamers
          && e.attendees <= s.gamers)
  }

  /** Ids of the games of type `t`: the rows a game-type delete collects. */
  function GamesOfType(games: seq<Game>, t: GameTypeId): set<GameId>
  {
    set g | g in games && g.gameType == t :: g.id
  }

  /** Ids of the games owned by gamer `u`: the rows a gamer delete collects. */
  function GamesOwnedBy(games: seq<Game>, u: GamerId): set<GameId>
  {
    set g | g in games && g.gamer == u :: g.id
  }

  /** Deleting a game deletes the events played with it (Event.game cascades). */
  function DeleteGame(s: Store, id: GameId): (r: Store)
    ensures r.gameTypes == s.gameTypes && r.gamers == s.gamers
    ensures forall g :: g in r.games <==> g in s.games && g.id != id
    ensures forall e :: e in r.events <==> e in s.events && e.game != id
  {
    s.(games := Filter(s.games, (g: Game) => g.id != id),
       events := Filter(s.events, (e: Event) => e.game != id))
  }

  /**
   * Deleting a game type deletes its games (Game.game_type cascades) and,
   * through them, their events (Event.game cascades).
   */
  function DeleteGameType(s: Store, t: GameTypeId): (r: Store)
    ensures r.gameTypes == s.gameTypes - {t} && r.gamers == s.gamers
    ensures forall g :: g in r.games <==> g in s.games && g.gameType != t
    ensures forall e :: e in r.events <==> e in s.events && e.game !in GamesOfType(s.games, t)
  {
    var removed := GamesOfType(s.games, t);
    Store(s.gameTypes - {t},
          s.gamers,
          Filter(s.games, (g: Game) => g.gameType != t),
          Filter(s.events, (e: Event) => e.game !in removed))
  }

  /** Each event with `u` taken out of its attendees, nothing else changed. */
  function WithoutAttendee(events: seq<Event>, u: GamerId): (r: seq<Event>)
    ensures |r| == |events|
    ensures forall i :: 0 <= i < |r| ==>
      r[i] == events[i].(attendees := events[i].attendees - {u})
  {
    if events == [] then []
    else [events[0].(attendees := events[0].attendees - {u})] + WithoutAttendee(events[1..], u)
  }

  /** The events a gamer delete keeps, before their attendee rows are dropped. */
  function SurvivorsOf(s: Store, u: GamerId): (r: seq<Event>)
    ensures forall e :: e in r <==>
      e in s.events && e.organizer != u && e.game !in GamesOwnedBy(s.games, u)
  {
    var removed := GamesOwnedBy(s.games, u);
    Filter(s.events, (e: Event) => e.organizer != u && e.game !in removed)
  }

  /**
   * Deleting a gamer deletes the games they own (Game.gamer cascades), the
   * events they organize (Event.organizer cascades), the events of the games
   * just deleted, and their attendee rows on every remaining event.
   */
  function DeleteGamer(s: Store, u: GamerId): (r: Store)
    ensures r.gameTypes == s.gameTypes && r.gamers == s.gamers - {u}
    ensures forall g :: g in r.games <==> g in s.games && g.gamer != u
    ensures forall e :: e in r.events <==>
      exists e0 :: e0 in SurvivorsOf(s, u) && e == e0.(attendees := e0.attendees - {u})
  {
    Store(s.gameTypes,
          s.gamers - {u},
          Filter(s.games, (g: Game) => g.gamer != u),
          WithoutAttendee(SurvivorsOf(s, u), u))
  }

  /** After deleting a game the store is still consistent and nothing refers to that game. */
  lemma DeleteGameConsistent(s: Store, id: GameId)
    requires Consistent(s)
    ensures Consistent(DeleteGame(s, id))
    ensures id !in GameIds(DeleteGame(s, id).games)
    ensures forall e :: e in DeleteGame(s, id).events ==> e.game != id
  {
    var r := DeleteGame(s, id);
    forall e | e in r.events
      ensures e.game in GameIds(r.games)
    {
      var g :| g in s.games && g.id == e.game;
      assert g in r.games;
    }
  }

  /**
   * After deleting a game type the store is still consistent, no game of that
   * type is left, and no event refers to a deleted game.
   */
  lemma DeleteGameTypeConsistent(s: Store, t: GameTypeId)
    requires Consistent(s)
    ensures Consistent(DeleteGameType(s, t))
    ensures t !in DeleteGameType(s, t).gameTypes
    ensures forall g :: g in DeleteGameType(s, t).games ==> g.gameType != t
  {
    var r := DeleteGameType(s, t);
    forall e | e in r.events
      ensures e.game in GameIds(r.games)
    {
      var g :| g in s.games && g.id == e.game;
      assert g.gameType != t;
      assert g in r.games;
    }
  }

  /** One event left by a gamer delete keeps the store's integrity and no trace of the gamer. */
  lemma DeleteGamerKeepsEvent(s: Store, u: GamerId, e: Event)
    requires Consistent(s)
    requires e in DeleteGamer(s, u).events
    ensures e.organizer != u && u !in e.attendees && e.game !in GamesOwnedBy(s.games, u)
    ensures ValidEvent(e) && e.organizer in s.gamers - {u} && e.attendees <= s.gamers - {u}
    ensures e.game in GameIds(DeleteGamer(s, u).games)
  {
    var r := DeleteGamer(s, u);
    var kept := SurvivorsOf(s, u);
    assert r.events == WithoutAttendee(kept, u);
    var i :| 0 <= i < |r.events| && r.events[i] == e;
    var e0 := kept[i];
    assert e0 in kept;
    var g :| g in s.games && g.id == e0.game;
    assert g.gamer != u;
    assert g in r.games;
  }

  /**
   * After deleting a gamer the store is still consistent; no remaining game is
   * theirs, no remaining event is organized by them, played with one of their
   * games or attended by them; every other event survives with only that
   * attendee row dropped.
   */
  lemma DeleteGamerConsistent(s: Store, u: GamerId)
    requires Consistent(s)
    ensures Consistent(DeleteGamer(s, u))
    ensures forall g :: g in DeleteGamer(s, u).games ==> g.gamer != u
    ensures forall e :: e in DeleteGamer(s, u).events ==>
      && e.organizer != u
      && u !in e.attendees
      && e.game !in GamesOwnedBy(s.games, u)
    ensures forall e :: e in s.events && e.organizer != u && e.game !in GamesOwnedBy(s.games, u) ==>
      e.(attendees := e.attendees - {u}) in DeleteGamer(s, u).events
  {
    var r := DeleteGamer(s, u);
    forall e | e in r.events
      ensures && e.organizer != u && u !in e.attendees && e.game !in GamesOwnedBy(s.games, u)
              && ValidEvent(e) && e.game in GameIds(r.games)
              && e.organizer in r.gamers && e.attendees <= r.gamers
    {
      DeleteGamerKeepsEvent(s, u, e);
    }
    var kept := SurvivorsOf(s, u);
    assert r.events == WithoutAttendee(kept, u);
    forall e | e in kept
      ensures e.(attendees := e.attendees - {u}) in r.events
    {
      var i :| 0 <= i < |kept| && kept[i] == e;
      assert r.events[i] == e.(attendees := e.attendees - {u});
    }
  }
}
