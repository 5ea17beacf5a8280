# Callbreak table seating, modelled in Dafny

The backend of a four-player trick-taking card game (Callbreak) keeps each
game as a `Game` aggregate: an id, the players seated at the table in seating
order, and the rounds played so far. Each round holds per-seat hands, the
tricks, and the per-player calls and breaks. The only behaviour the game crate
implements so far is building an empty game (`Game::new`) and seating a player
(`Game::add_player`). A second crate declares the same value types with only
the constructor.

This project models that core:

- `game_types.dfy` (module `GameTypes`) holds the value types shared by both
  crates: `Card`, `Player`, `Hand`, `Trick`, `Round`, `Game`, and the `Result`
  outcome. Rust's `u8` is the subset type `uint8`.
- `model_game.dfy` (module `ModelGame`) holds `New` and `AddPlayer`. The Rust
  method mutates `&mut self`; here it is a pure transition that returns the
  outcome together with the next game. `AddPlayers` replays `k` successive
  calls, and the lemmas give their closed form.
- `models_game.dfy` (module `ModelsGame`) holds the second crate's constructor
  and proves that it builds the same game as the first crate's.

The code differs from the design description in one place, and the model
follows the code. The design describes `addPlayer(identity)`, which rejects a
duplicate identity. The code takes no identity. It seats `Player { id: 0 }`
every time and makes no identity check (`ModelGame.NoIdentityCheck`).

## Model

| member | source | states |
|---|---|---|
| `ModelGame.New` | model/src/game.rs:35-41 | a new game has id 0, no players and no rounds, so no card appears anywhere |
| `ModelGame.AddPlayer` | model/src/game.rs:43-52 | succeeds exactly when fewer than four players are seated. On success it appends one player with id 0 after the unchanged earlier players and returns the new seat count. Otherwise it returns "table already full!" and leaves the game unchanged. It never changes id or rounds, and it keeps the at-most-four-players and no-card invariants |
| `ModelGame.AddPlayersClosedForm` | model/src/game.rs:43-52 | for any table with at most four players, the i-th of k successive calls returns the seat count it creates while a seat is free and the table-full error afterwards. Exactly the admitted players are appended, each with id 0, and id and rounds stay unchanged |
| `ModelGame.SeatingFromNew` | model/src/game.rs:35-52 | from a new game, any number of calls seats at most four players. The first four calls return 1, 2, 3, 4 in order and every later call fails. Every seated player has id 0, and id and rounds stay 0 and empty |
| `ModelGame.NoIdentityCheck` | model/src/game.rs:47 | a player identical to one already seated is admitted while a seat is free: no identity check is made |
| `ModelsGame.New` | models/src/game.rs:34-41 | the second crate's new game has id 0, an empty players list, an empty rounds list, and no card anywhere |
| `ModelsGame.SameAsModelNew` | models/src/game.rs:35-41 | the two crates' constructors build the same game |

## Left out

- `Card` is an enum with no variants, so no card can exist. Dafny cannot declare an uninhabited datatype without an unchecked witness. `Card` therefore has one placeholder constructor. The emptiness of every hand and trick is stated as the invariant `CardFree`, which `New` establishes and `AddPlayer` keeps. It is not a fact of the type.
- The `#[derive(Debug)]` formatting of the datatypes is left out because it is library behaviour with no logic of the core.
- The HTTP handlers in api/src/main.rs are left out: routing, the async runtime, the Redis connection pool, the six-character player-name rule and the "player is in another game" lookup. They are I/O against an external store. `joinhandler` only calls `add_player` on a fresh game, and `ModelGame.SeatingFromNew` covers that call (its first outcome is `Ok(1)`).
- models/src/schema.rs is left out because its only behaviour is JSON (de)serialization derived by a library.
- Card ranks and suits, deck construction and shuffling, dealing, calls, trick winners, turn order and scoring are not implemented in the code, so the model has none of them. Rounds are data only, and no operation reads or writes them.
- Game-id generation and randomness are left out: the id is the constant 0.
- The store's watch/read/commit retry protocol does not appear in the code and is left out.
