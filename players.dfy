/**
 * Player identities, game states and the turn-cycling function
 * (frontend/clonium-web/src/app/shared/utils/utilFunctions.ts).
 */
module Players {
  import opened Wrappers

  /** The four player slots, plus the owner of a cell nobody has taken. */
  datatype Player = Player1 | Player2 | Player3 | Player4 | Nobody

  /** Whose turn it is, who has won, the undefined mapping, and the two transient cascade states. */
  datatype GameState =
    | Turn1 | Turn2 | Turn3 | Turn4
    | Won1 | Won2 | Won3 | Won4
    | Undefined | Analysing | Updating
  {
    predicate IsTurn() { Turn1? || Turn2? || Turn3? || Turn4? }
    predicate IsWon() { Won1? || Won2? || Won3? || Won4? }
  }

  /** The error thrown for a player outside the four slots. */
  datatype PlayerError = UnknownPlayer

  /** Slot number 1..4 of a turn state. */
  function TurnNumber(s: GameState): int
    requires s.IsTurn()
  {
    if s.Turn1? then 1 else if s.Turn2? then 2 else if s.Turn3? then 3 else 4
  }

  /** The player whose turn a turn state is (the branch of nextRole that a state selects). */
  function SlotPlayer(s: GameState): Player
    requires s.IsTurn()
  {
    if s.Turn1? then Player1 else if s.Turn2? then Player2 else if s.Turn3? then Player3 else Player4
  }

  /** The terminal state in which the player of slot `s` has won. */
  function WonState(s: GameState): GameState
    requires s.IsTurn()
  {
    if s.Turn1? then Won1 else if s.Turn2? then Won2 else if s.Turn3? then Won3 else Won4
  }

  /** The turn slots in play for a game of `n` players: slots 1..n. */
  function ActiveSlots(n: int): set<GameState>
  {
    set s | s in {Turn1, Turn2, Turn3, Turn4} && TurnNumber(s) <= n
  }

  /** playerToGameState: a player's turn state; UNDEFINED for anything but the four slots. */
  function PlayerToGameState(p: Player): (s: GameState)
    ensures s == Undefined <==> p == Nobody
    ensures p != Nobody ==> s.IsTurn() && SlotPlayer(s) == p
  {
    match p
    case Player1 => Turn1
    case Player2 => Turn2
    case Player3 => Turn3
    case Player4 => Turn4
    case Nobody => Undefined
  }

  /** playerToNumber: 1..4 for the four slots; throws for any other value. */
  function PlayerToNumber(p: Player): (r: Result<int, PlayerError>)
    ensures r.Success? <==> p != Nobody
    ensures r.Success? ==> 1 <= r.value <= 4 && r.value == TurnNumber(PlayerToGameState(p))
  {
    match p
    case Player1 => Success(1)
    case Player2 => Success(2)
    case Player3 => Success(3)
    case Player4 => Success(4)
    case Nobody => Failure(UnknownPlayer)
  }

  /**
   * nextGameState: the turn that follows `p`'s, clamped to `playersNumber`.
   * The source's switch has no default branch and yields JavaScript `undefined`
   * for a value outside the four slots; every caller passes one of the four.
   */
  function NextGameState(p: Player, playersNumber: int): (s: GameState)
    requires p != Nobody
    ensures s.IsTurn()
  {
    match p
    case Player1 => Turn2
    case Player2 => if playersNumber > 2 then Turn3 else Turn1
    case Player3 => if playersNumber > 3 then Turn4 else Turn1
    case Player4 => Turn1
  }

  /** The turn reached from `s` after `j` applications of nextGameState. */
  function Iterate(s: GameState, n: int, j: nat): (r: GameState)
    requires s.IsTurn()
    ensures r.IsTurn()
  {
    if j == 0 then s else NextGameState(SlotPlayer(Iterate(s, n, j - 1)), n)
  }

  /** PlayerToGameState and SlotPlayer are inverse on the four slots. */
  lemma SlotRoundTrip(p: Player, s: GameState)
    ensures p != Nobody ==> SlotPlayer(PlayerToGameState(p)) == p
    ensures s.IsTurn() ==> PlayerToGameState(SlotPlayer(s)) == s
  {
  }

  /**
   * With 2..4 players, the turn after any slot is an active slot: the next
   * slot number when it is within playersNumber, slot 1 otherwise.
   */
  lemma {:induction false} NextIsClampedSuccessor(p: Player, n: int)
    requires p != Nobody && 2 <= n <= 4
    ensures NextGameState(p, n) in ActiveSlots(n)
    ensures var k := PlayerToNumber(p).value;
      TurnNumber(NextGameState(p, n)) == if k < n then k + 1 else 1
  {
    assert Turn1 in {Turn1, Turn2, Turn3, Turn4};
    assert Turn2 in {Turn1, Turn2, Turn3, Turn4};
    assert Turn3 in {Turn1, Turn2, Turn3, Turn4};
    assert Turn4 in {Turn1, Turn2, Turn3, Turn4};
  }

  /** Starting from an active slot, nextGameState visits slot ((k - 1 + j) mod n) + 1 after j steps. */
  lemma {:induction false} IterateNumber(s: GameState, n: int, j: nat)
    requires 2 <= n <= 4 && s in ActiveSlots(n)
    ensures Iterate(s, n, j) in ActiveSlots(n)
    ensures TurnNumber(Iterate(s, n, j)) == (TurnNumber(s) - 1 + j) % n + 1
  {
    if j > 0 {
      IterateNumber(s, n, j - 1);
      var prev := Iterate(s, n, j - 1);
      NextIsClampedSuccessor(SlotPlayer(prev), n);
      ModSuccessor(TurnNumber(s) - 1 + j - 1, n);
    }
  }

  /** Taking the successor commutes with reduction modulo n. */
  lemma ModSuccessor(a: nat, n: int)
    requires 2 <= n <= 4
    ensures (a + 1) % n == if a % n + 1 < n then a % n + 1 else 0
  {
    var q, r := a / n, a % n;
    assert a == n * q + r && 0 <= r < n;
    if r + 1 < n {
      assert a + 1 == n * q + (r + 1);
    } else {
      assert a + 1 == n * (q + 1) + 0;
    }
  }

  /** An active slot is determined by its number. */
  lemma ActiveByNumber(s: GameState, t: GameState, n: int)
    requires s in ActiveSlots(n) && t in ActiveSlots(n) && TurnNumber(s) == TurnNumber(t)
    ensures s == t
  {
  }

  /**
   * Applying nextGameState playersNumber times from an active slot returns to it,
   * and no fewer steps do: the active slots form a single cycle.
   */
  lemma CycleLength(s: GameState, n: int, j: nat)
    requires 2 <= n <= 4 && s in ActiveSlots(n)
    ensures Iterate(s, n, n) == s
    ensures 0 < j < n ==> Iterate(s, n, j) != s
  {
    IterateNumber(s, n, n);
    ActiveByNumber(Iterate(s, n, n), s, n);
    IterateNumber(s, n, j);
  }

  /** Starting one turn later is the same as taking one more step. */
  lemma {:induction false} IterateShift(s: GameState, n: int, j: nat)
    requires s.IsTurn()
    ensures Iterate(NextGameState(SlotPlayer(s), n), n, j) == Iterate(s, n, j + 1)
  {
    if j > 0 {
      IterateShift(s, n, j - 1);
    }
  }

  /** A game of 2..4 players has exactly that many active slots. */
  lemma ActiveSlotsSize(n: int)
    requires 2 <= n <= 4
    ensures |ActiveSlots(n)| == n
  {
    if n == 2 {
      assert ActiveSlots(n) == {Turn1, Turn2};
    } else if n == 3 {
      assert ActiveSlots(n) == {Turn1, Turn2, Turn3};
    } else {
      assert ActiveSlots(n) == {Turn1, Turn2, Turn3, Turn4};
    }
  }

  /** Within playersNumber steps from an active slot, nextGameState reaches every active slot. */
  lemma CycleCovers(s: GameState, t: GameState, n: int)
    requires 2 <= n <= 4 && s in ActiveSlots(n) && t in ActiveSlots(n)
    ensures exists j :: 0 <= j < n && Iterate(s, n, j) == t
  {
    var j := (TurnNumber(t) - TurnNumber(s)) % n;
    IterateNumber(s, n, j);
    ActiveByNumber(Iterate(s, n, j), t, n);
  }
}
