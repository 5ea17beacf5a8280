/**
 The table-seating state machine of model/src/game.rs: `Game::new` and
 `Game::add_player`. The Rust method mutates `&mut self`; here it is a pure
 transition returning the outcome together with the next game value.
 */
module ModelGame {
  import opened GameTypes

  /** Seats at the table: `add_player` admits while the length is in 0..=3. */
  const TableCapacity: nat := 4

  /** The error `add_player` returns once the table is full. */
  const TableFull: string := "table already full!"

  /** `Game::new`: an empty table with id 0 and no rounds. */
  function New(): (g: Game)
    ensures g.id == 0
    ensures g.players == [] && g.rounds == []
    ensures CardFree(g)
  {
    Game(0, [], [])
  }

  /** `Game::add_player`: seat one more player (id 0) while fewer than four are
      seated and report the new seat count; otherwise fail and change nothing. */
  function AddPlayer(g: Game): (out: (Result<nat>, Game))
    ensures out.0.Ok? <==> |g.players| < TableCapacity
    ensures out.0.Ok? ==>
      && out.1.players == g.players + [Player(0)]
      && out.0.value == |out.1.players| == |g.players| + 1
    ensures out.0.Err? ==> out.0.error == TableFull && out.1 == g
    ensures out.1.id == g.id && out.1.rounds == g.rounds
    ensures |g.players| <= TableCapacity ==> |out.1.players| <= TableCapacity
    ensures CardFree(g) ==> CardFree(out.1)
  {
    if |g.players| <= 3 then
      var seated := g.(players := g.players + [Player(0)]);
      var count: nat := |seated.players|;
      (Ok(count), seated)
    else
      (Err(TableFull), g)
  }

  /** `k` successive `add_player` calls on one game: their outcomes in call
      order and the final game. */
  function AddPlayers(g: Game, k: nat): (out: (seq<Result<nat>>, Game))
    ensures |out.0| == k
    decreases k
  {
    if k == 0 then ([], g)
    else
      var (r, next) := AddPlayer(g);
      var (rs, last) := AddPlayers(next, k - 1);
      ([r] + rs, last)
  }

  /** Reference outcome of the call made when `n + i` players are seated
      (`n` before the first call, `i` earlier calls). */
  function ExpectedOutcome(n: nat, i: nat): Result<nat>
  {
    if n + i < TableCapacity then Ok(n + i + 1) else Err(TableFull)
  }

  /** How many of `k` calls are admitted to a table that already seats `n`. */
  function Admitted(n: nat, k: nat): nat
    requires n <= TableCapacity
  {
    if k <= TableCapacity - n then k else TableCapacity - n
  }

  /** Closed form of repeated seating: the `i`-th call returns the seat count
      it creates until the table is full and the error afterwards; exactly the
      admitted players are appended, each with id 0; id and rounds never change. */
  lemma {:induction false} AddPlayersClosedForm(g: Game, k: nat)
    requires |g.players| <= TableCapacity
    ensures forall i :: 0 <= i < k ==> AddPlayers(g, k).0[i] == ExpectedOutcome(|g.players|, i)
    ensures AddPlayers(g, k).1.players == g.players + seq(Admitted(|g.players|, k), _ => Player(0))
    ensures AddPlayers(g, k).1.id == g.id && AddPlayers(g, k).1.rounds == g.rounds
    decreases k
  {
    if k > 0 {
      var n := |g.players|;
      var (r, next) := AddPlayer(g);
      AddPlayersClosedForm(next, k - 1);
      var (rs, last) := AddPlayers(next, k - 1);
      assert AddPlayers(g, k) == ([r] + rs, last);
      if n < TableCapacity {
        assert |next.players| == n + 1;
        forall i | 0 <= i < k
          ensures AddPlayers(g, k).0[i] == ExpectedOutcome(n, i)
        {
          if i > 0 {
            assert AddPlayers(g, k).0[i] == rs[i - 1];
          }
        }
        assert Admitted(n, k) == Admitted(n + 1, k - 1) + 1;
        assert g.players + seq(Admitted(n, k), _ => Player(0))
            == g.players + [Player(0)] + seq(Admitted(n + 1, k - 1), _ => Player(0));
      } else {
        assert next == g;
        forall i | 0 <= i < k
          ensures AddPlayers(g, k).0[i] == ExpectedOutcome(n, i)
        {
          if i > 0 {
            assert AddPlayers(g, k).0[i] == rs[i - 1];
          }
        }
        assert Admitted(n, k) == 0 == Admitted(n, k - 1);
      }
    }
  }

  /** From a new game, any number of `add_player` calls keeps at most four
      players: the first four calls return 1, 2, 3, 4, every later call fails
      with the table-full error, and every seated player has id 0. */
  lemma SeatingFromNew(k: nat)
    ensures forall i :: 0 <= i < k ==>
      AddPlayers(New(), k).0[i] == (if i < TableCapacity then Ok(i + 1) else Err(TableFull))
    ensures |AddPlayers(New(), k).1.players| == (if k < TableCapacity then k else TableCapacity)
    ensures forall p :: p in AddPlayers(New(), k).1.players ==> p.id == 0
    ensures AddPlayers(New(), k).1.id == 0 && AddPlayers(New(), k).1.rounds == []
  {
    AddPlayersClosedForm(New(), k);
  }

  /** `add_player` makes no identity check: a player identical to one already
      seated is admitted whenever a seat is free. */
  lemma NoIdentityCheck(g: Game)
    requires 0 < |g.players| < TableCapacity
    requires forall p :: p in g.players ==> p.id == 0
    ensures AddPlayer(g).0 == Ok(|g.players| + 1)
    ensures AddPlayer(g).1.players[|g.players|] == g.players[0]
  {
  }
}
