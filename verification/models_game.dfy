/**
 models/src/game.rs: the same value types as model/src/game.rs (shared here
 through GameTypes) with only the constructor `Game::new`.
 */
module ModelsGame {
  import opened GameTypes
  import ModelGame

  /** `Game::new`: a game with id 0, no players and no rounds. */
  function New(): (g: Game)
    ensures g.id == 0
    ensures g.players == []
    ensures g.rounds == []
    ensures CardFree(g)
  {
    Game(0, [], [])
  }

  /** The two crates' constructors build the same game, so everything proved
      about seating from `ModelGame.New` holds from this one too. */
  lemma SameAsModelNew()
    ensures New() == ModelGame.New()
  {
  }
}
