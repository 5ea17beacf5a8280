/**
 The value types of the card-table aggregate, shared by the two crates that
 declare them (model/src/game.rs and models/src/game.rs declare the same
 structs field for field).
 */
module GameTypes {

  /** The Rust `u8` used for player ids, game ids, calls and breaks. */
  type uint8 = x: int | 0 <= x < 0x100

  /** The source's card type is an enum with NO variants, so no card value can
      ever exist. Dafny cannot declare an uninhabited datatype, so `Placeholder`
      stands in for the missing variants, and `CardFree` below states, as an
      invariant every operation keeps, that no card ever occurs anywhere. */
  datatype Card = Placeholder

  /** A seated player; the source seats every player with id 0. */
  datatype Player = Player(id: uint8)

  /** The cards one seat holds in a round. */
  datatype Hand = Hand(cards: seq<Card>)

  /** The cards played into one trick. */
  datatype Trick = Trick(cards: seq<Card>)

  /** One deal: hands and calls/breaks indexed by player, tricks by number. */
  datatype Round = Round(hands: seq<Hand>, tricks: seq<Trick>, calls: seq<uint8>, breaks: seq<uint8>)

  /** The game aggregate: an id, the seated players in seating order, the rounds. */
  datatype Game = Game(id: uint8, players: seq<Player>, rounds: seq<Round>)

  /** The outcome of a fallible operation: Rust's `Result<T, &'static str>`. */
  datatype Result<T> = Ok(value: T) | Err(error: string)

  /** No card occurs in any hand or trick of the round. */
  predicate RoundCardFree(r: Round)
  {
    && (forall h :: h in r.hands ==> h.cards == [])
    && (forall t :: t in r.tricks ==> t.cards == [])
  }

  /** No card occurs anywhere in the game: what an uninhabited card type guarantees. */
  predicate CardFree(g: Game)
  {
    forall r :: r in g.rounds ==> RoundCardFree(r)
  }
}
