/**
 * The Game and Event records of the level-up API and the field bounds their
 * `CharField(max_length=...)` declarations impose.  Gamers and game types are
 * records of their own elsewhere in the application; here they are only ids.
 */
module Models {

  type GamerId = int
  type GameTypeId = int
  type GameId = int
  type EventId = int

  /** A `DateTimeField` value, kept as the text it is stored as and never parsed. */
  type DateTime = string

  const TitleMaxLength := 50
  const MakerMaxLength := 75
  const NumOfPlayersMaxLength := 15
  const SkillLevelMaxLength := 50
  const DescriptionMaxLength := 250

  /**
   * A game: four bounded text fields (the player count is text, not a number)
   * and exactly one game type and one owning gamer.
   */
  datatype Game = Game(
    id: GameId,
    title: string,
    maker: string,
    numOfPlayers: string,
    skillLevel: string,
    gameType: GameTypeId,
    gamer: GamerId)

  predicate ValidGame(g: Game)
  {
    && |g.title| <= TitleMaxLength
    && |g.maker| <= MakerMaxLength
    && |g.numOfPlayers| <= NumOfPlayersMaxLength
    && |g.skillLevel| <= SkillLevelMaxLength
  }

  /**
   * An event: a bounded description, a date, exactly one game, exactly one
   * organizing gamer, and a many-to-many attendee relation, which holds each
   * gamer at most once and so is a set.
   */
  datatype Event = Event(
    id: EventId,
    description: string,
    date: DateTime,
    game: GameId,
    organizer: GamerId,
    attendees: set<GamerId>)

  predicate ValidEvent(e: Event)
  {
    |e.description| <= DescriptionMaxLength
  }
}
