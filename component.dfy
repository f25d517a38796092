/**
 * The game engine of the board component: the analyse/update cascade, the
 * turn advance, scores and eliminations, and the two move guards
 * (frontend/clonium-web/src/app/shared/components/board/board.component.ts).
 */
module BoardComponent {
  import opened Wrappers
  import opened Players
  import opened Cells
  import opened Layouts
  import opened Grid
  import opened BoardModel

  /** How a call of nextRole ends. */
  datatype RoleOutcome =
    | Settled          // the turn passed on, or the game was decided
    | CascadeOverflow  // still critical cells after the round limit: the state stays ANALYSING
    | SkipOverflow     // every active slot is eliminated, so skipping would never land

  /** What became of a move. */
  datatype MoveOutcome =
    | Rejected               // the guard failed; nothing changed
    | Pending                // sent to the room; applied once the room answers
    | Undelivered            // the room did not accept the move
    | OutOfGrid              // a remote move addressed a cell the board does not have
    | Applied(role: RoleOutcome)

  // ---------------------------------------------------------------- updateScore, in value form

  /** The first slot not eliminated, in the order of updateScore's if-chain. */
  function FirstStanding(lost: set<GameState>): (r: Option<GameState>)
    ensures r.Some? ==> r.value.IsTurn() && r.value !in lost
    ensures r.Some? ==> forall t: GameState :: t.IsTurn() && TurnNumber(t) < TurnNumber(r.value) ==> t in lost
    ensures r.None? <==> {Turn1, Turn2, Turn3, Turn4} <= lost
  {
    if Turn1 !in lost then Some(Turn1)
    else if Turn2 !in lost then Some(Turn2)
    else if Turn3 !in lost then Some(Turn3)
    else if Turn4 !in lost then Some(Turn4)
    else None
  }

  /** The state updateScore leaves: the standing player's win once playersNumber - 1 slots are out. */
  function ScoredState(s: GameState, lost: set<GameState>, n: int): GameState
  {
    if |lost| == n - 1 && FirstStanding(lost).Some? then WonState(FirstStanding(lost).value) else s
  }

  /**
   * Once all active slots but one are eliminated, the slot updateScore
   * declares the winner is the one still standing.
   */
  lemma {:induction false} LastStanding(lost: set<GameState>, n: int)
    requires 2 <= n <= 4 && lost <= ActiveSlots(n) && |lost| == n - 1
    ensures FirstStanding(lost).Some?
    ensures ActiveSlots(n) - lost == {FirstStanding(lost).value}
  {
    var active := ActiveSlots(n);
    ActiveSlotsSize(n);
    assert active == (active - lost) + lost;
    assert |active - lost| == 1;
    var w :| w in active - lost;
    assert active - lost == {w} by {
      assert |(active - lost) - {w}| == 0;
    }
    assert FirstStanding(lost).Some? && FirstStanding(lost).value == w by {
      forall t: GameState | t.IsTurn() && TurnNumber(t) < TurnNumber(w) ensures t in lost {
        assert t in active && t != w;
      }
    }
  }

  /** The slots updateScore eliminates, one guard per slot. */
  lemma ZeroScoreSlotsBySlot(g: Grid, n: int)
    requires 2 <= n <= 4
    ensures ZeroScoreSlots(g, n) ==
      (if Score(g, Player1) == 0 then {Turn1} else {})
      + (if Score(g, Player2) == 0 then {Turn2} else {})
      + (if n > 2 && Score(g, Player3) == 0 then {Turn3} else {})
      + (if n > 3 && Score(g, Player4) == 0 then {Turn4} else {})
  {
  }

  /** With fewer than four slots out, some slot is standing. */
  lemma SomeoneStands(lost: set<GameState>)
    requires |lost| < 4
    ensures FirstStanding(lost).Some?
  {
    if FirstStanding(lost).None? {
      AllOut(lost);
    }
  }

  /** A set holding all four turn states has at least four members. */
  lemma AllOut(lost: set<GameState>)
    requires {Turn1, Turn2, Turn3, Turn4} <= lost
    ensures |lost| >= 4
  {
    var all := {Turn1, Turn2, Turn3, Turn4};
    assert lost == all + (lost - all);
    assert |all| == 4;
  }

  // ---------------------------------------------------------------- skipping eliminated players

  /**
   * The tail call of nextRole: from `s`, move on past eliminated slots while
   * the game is undecided, at most `k` times.
   */
  function SkipLost(s: GameState, n: int, lost: set<GameState>, k: nat): (r: GameState)
    requires 2 <= n <= 4 && lost <= ActiveSlots(n)
    ensures s in ActiveSlots(n) ==> r in ActiveSlots(n)
    ensures s !in lost ==> r == s
    decreases k
  {
    if s !in lost || |lost| == n - 1 || k == 0 then s
    else
      NextIsClampedSuccessor(SlotPlayer(s), n);
      SkipLost(NextGameState(SlotPlayer(s), n), n, lost, k - 1)
  }

  /**
   * If some slot within `k` turns of `s` is standing, skipping lands on a
   * standing slot.
   */
  lemma {:induction false} SkipLostLands(s: GameState, n: int, lost: set<GameState>, k: nat, j: nat)
    requires 2 <= n <= 4 && lost <= ActiveSlots(n) && s in ActiveSlots(n)
    requires j <= k && Iterate(s, n, j) !in lost
    ensures |lost| != n - 1 ==> SkipLost(s, n, lost, k) !in lost
    decreases k
  {
    if s in lost && |lost| != n - 1 {
      IterateShift(s, n, j - 1);
      NextIsClampedSuccessor(SlotPlayer(s), n);
      SkipLostLands(NextGameState(SlotPlayer(s), n), n, lost, k - 1, j - 1);
    }
  }

  /**
   * While the game is undecided, skipping stops on the first slot, in turn
   * order from `s`, that is not eliminated (or where the `k` re-runs run out).
   */
  lemma {:induction false} SkipLostFirst(s: GameState, n: int, lost: set<GameState>, k: nat) returns (j: nat)
    requires 2 <= n <= 4 && lost <= ActiveSlots(n) && s in ActiveSlots(n) && |lost| != n - 1
    ensures j <= k && SkipLost(s, n, lost, k) == Iterate(s, n, j)
    ensures forall i :: 0 <= i < j ==> Iterate(s, n, i) in lost
    decreases k
  {
    if s !in lost || k == 0 {
      j := 0;
    } else {
      NextIsClampedSuccessor(SlotPlayer(s), n);
      var next := NextGameState(SlotPlayer(s), n);
      var j' := SkipLostFirst(next, n, lost, k - 1);
      IterateShift(s, n, j');
      j := j' + 1;
      forall i | 0 <= i < j ensures Iterate(s, n, i) in lost {
        if i > 0 {
          IterateShift(s, n, i - 1);
        }
      }
    }
  }

  // ---------------------------------------------------------------- nextRole, in value form

  /** Grid, state and eliminated slots after one call of nextRole, and how it ended. */
  datatype Role = Role(grid: Grid, state: GameState, lost: set<GameState>, outcome: RoleOutcome)

  /**
   * One call of nextRole on a board of mask `m` and `n` players: the cascade
   * for the player whose turn `s` is, of at most `limit` rounds, the turn
   * advance, updateScore, then the skip over eliminated slots.
   */
  function NextRoleResult(m: Mask, g: Grid, s: GameState, lost: set<GameState>, n: int, limit: nat): Role
    requires WellFormed(m, g) && 2 <= n <= 4 && lost <= ActiveSlots(n)
  {
    var c := if s.IsTurn() then Cascade(m, g, SlotPlayer(s), limit) else FixedPoint(g);
    if c.Overflow? then Role(c.grid, Analysing, lost, CascadeOverflow)
    else
      var s1 := if s.IsTurn() then NextGameState(SlotPlayer(s), n) else s;
      var lost1 := lost + ZeroScoreSlots(c.grid, n);
      var s2 := SkipLost(ScoredState(s1, lost1, n), n, lost1, n);
      Role(c.grid, s2, lost1, if s2 in lost1 && |lost1| != n - 1 then SkipOverflow else Settled)
  }

  /**
   * After a move the play lands somewhere sensible: a settled call leaves a
   * stable grid and either a decided game or the turn of a standing player;
   * a skip overflow happens only when every active slot is eliminated; a
   * cascade overflow leaves critical cells behind. While the game is
   * undecided, the turn goes to the first standing slot after the mover.
   */
  lemma NextRoleLands(m: Mask, g: Grid, s: GameState, lost: set<GameState>, n: int, limit: nat)
    requires WellFormed(m, g) && 2 <= n <= 4 && lost <= ActiveSlots(n) && s.IsTurn()
    ensures var r := NextRoleResult(m, g, s, lost, n, limit);
      && (r.outcome == CascadeOverflow ==> r.state == Analysing && Critical(r.grid) != [])
      && (r.outcome != CascadeOverflow ==> Stable(r.grid))
      && (r.outcome == Settled ==>
            (r.state.IsWon() && |r.lost| == n - 1) || (r.state in ActiveSlots(n) && r.state !in r.lost))
      && (r.outcome == SkipOverflow ==> ActiveSlots(n) <= r.lost)
      && (r.outcome == Settled && |r.lost| != n - 1 ==>
            var s1 := NextGameState(SlotPlayer(s), n);
            exists j :: 0 <= j < n && r.state == Iterate(s1, n, j)
              && forall i :: 0 <= i < j ==> Iterate(s1, n, i) in r.lost)
  {
    var r := NextRoleResult(m, g, s, lost, n, limit);
    if r.outcome != CascadeOverflow {
      var s1 := NextGameState(SlotPlayer(s), n);
      NextIsClampedSuccessor(SlotPlayer(s), n);
      if |r.lost| == n - 1 {
        LastStanding(r.lost, n);
      } else if !(ActiveSlots(n) <= r.lost) {
        var first := SkipLostFirst(s1, n, r.lost, n);
        if first == n {
          CycleLength(s1, n, 0);
        }
        var t :| t in ActiveSlots(n) && t !in r.lost;
        CycleCovers(s1, t, n);
        var j :| 0 <= j < n && Iterate(s1, n, j) == t;
        SkipLostLands(s1, n, r.lost, n, j);
      }
    }
  }

  /**
   * updateScore's bookkeeping: eliminations only grow, stay within the active
   * slots, and hold exactly the slots already out plus those left without a
   * cell; once all but one are out, the one standing has won.
   */
  lemma NextRoleEliminations(m: Mask, g: Grid, s: GameState, lost: set<GameState>, n: int, limit: nat)
    requires WellFormed(m, g) && 2 <= n <= 4 && lost <= ActiveSlots(n)
    ensures var r := NextRoleResult(m, g, s, lost, n, limit);
      && lost <= r.lost <= ActiveSlots(n)
      && (r.outcome != CascadeOverflow ==> forall t :: t in ActiveSlots(n) ==>
            (t in r.lost <==> t in lost || Score(r.grid, SlotPlayer(t)) == 0))
      && (r.outcome != CascadeOverflow && |r.lost| == n - 1 ==>
            FirstStanding(r.lost).Some? && ActiveSlots(n) - r.lost == {FirstStanding(r.lost).value}
            && r.state == WonState(FirstStanding(r.lost).value))
  {
    var r := NextRoleResult(m, g, s, lost, n, limit);
    if r.outcome != CascadeOverflow && |r.lost| == n - 1 {
      LastStanding(r.lost, n);
    }
  }

  /**
   * The cells of the player whose turn it was stay its own through the
   * cascade, so a player who still holds a cell is never eliminated by its
   * own move.
   */
  lemma NextRoleKeepsActingCells(m: Mask, g: Grid, s: GameState, lost: set<GameState>, n: int, limit: nat, q: Pos)
    requires WellFormed(m, g) && 2 <= n <= 4 && lost <= ActiveSlots(n) && s.IsTurn()
    requires InBounds(m, q) && Get(g, q).player == SlotPlayer(s)
    ensures var r := NextRoleResult(m, g, s, lost, n, limit);
      && Get(r.grid, q).player == SlotPlayer(s)
      && (r.outcome != CascadeOverflow ==> (s in r.lost <==> s in lost))
  {
    var r := NextRoleResult(m, g, s, lost, n, limit);
    CascadeKeepsActingCells(m, g, SlotPlayer(s), limit, q);
    OwnedCellCounts(r.grid, q, SlotPlayer(s));
  }

  /** Three players, player 2 out: after player 1's move it is player 3's turn while both still hold cells. */
  lemma SkipsEliminatedSlot(m: Mask, g: Grid, limit: nat)
    requires WellFormed(m, g)
    ensures var r := NextRoleResult(m, g, Turn1, {Turn2}, 3, limit);
      r.outcome != CascadeOverflow && Score(r.grid, Player1) > 0 && Score(r.grid, Player3) > 0 ==>
        r.state == Turn3 && r.lost == {Turn2}
  {
    var c := Cascade(m, g, Player1, limit);
    if !c.Overflow? && Score(c.grid, Player1) > 0 && Score(c.grid, Player3) > 0 {
      ZeroScoreSlotsBySlot(c.grid, 3);
      var lost := {Turn2} + ZeroScoreSlots(c.grid, 3);
      assert lost == {Turn2};
      assert NextGameState(Player1, 3) == Turn2 && NextGameState(Player2, 3) == Turn3;
      assert ScoredState(Turn2, lost, 3) == Turn2;
      assert SkipLost(Turn2, 3, lost, 3) == Turn3;
    }
  }

  /** Two players: once player 2 holds no cell after player 1's move, player 1 has won. */
  lemma TwoPlayerWin(m: Mask, g: Grid, limit: nat)
    requires WellFormed(m, g)
    ensures var r := NextRoleResult(m, g, Turn1, {}, 2, limit);
      r.outcome != CascadeOverflow && Score(r.grid, Player1) > 0 && Score(r.grid, Player2) == 0 ==>
        r.state == Won1 && r.lost == {Turn2}
  {
    var c := Cascade(m, g, Player1, limit);
    if !c.Overflow? && Score(c.grid, Player1) > 0 && Score(c.grid, Player2) == 0 {
      ZeroScoreSlotsBySlot(c.grid, 2);
      var lost := {} + ZeroScoreSlots(c.grid, 2);
      assert lost == {Turn2};
      assert FirstStanding(lost) == Some(Turn1);
      assert ScoredState(NextGameState(Player1, 2), lost, 2) == Won1;
    }
  }

  /** A stable grid goes through the cascade untouched. */
  lemma StableCascade(m: Mask, g: Grid, player: Player, fuel: nat)
    requires WellFormed(m, g) && Stable(g)
    ensures Cascade(m, g, player, fuel) == FixedPoint(g)
  {
    CriticalEmptyIffStable(m, g);
  }

  // ---------------------------------------------------------------- move guards

  /**
   * The guard of increment: the clicked cell's owner is the player to move
   * and, online, is the local player with no move in flight.
   */
  predicate LocalMoveAllowed(owner: Player, state: GameState, isOnline: bool, currentPlayer: Player, locked: bool)
  {
    PlayerToGameState(owner) == state && (!isOnline || (currentPlayer == owner && !locked))
  }

  /** The guard of incrementFromOtherPlayer: it is `player`'s turn and `player` is not the local player. */
  predicate RemoteMoveAllowed(player: Player, state: GameState, currentPlayer: Player)
  {
    state == PlayerToGameState(player) && currentPlayer != player
  }

  /**
   * In any state the board can reach (never UNDEFINED), only the player to
   * move plays, a local move only on a cell it owns, and nothing is played
   * once the game is decided or a cascade has overflowed.
   */
  lemma MoveGuards(owner: Player, player: Player, state: GameState, isOnline: bool, currentPlayer: Player, locked: bool)
    requires state != Undefined
    ensures LocalMoveAllowed(owner, state, isOnline, currentPlayer, locked) ==>
      owner != Nobody && state.IsTurn() && SlotPlayer(state) == owner
    ensures RemoteMoveAllowed(player, state, currentPlayer) ==>
      player != Nobody && state.IsTurn() && SlotPlayer(state) == player && player != currentPlayer
    ensures !state.IsTurn() ==>
      !LocalMoveAllowed(owner, state, isOnline, currentPlayer, locked) && !RemoteMoveAllowed(player, state, currentPlayer)
  {
  }

  // ---------------------------------------------------------------- the component

  /** The component and board fields a call of nextRole may change, before the call. */
  datatype Snap = Snap(
    grid: Grid, state: GameState, lost: set<GameState>,
    score1: nat, score2: nat, score3: nat, score4: nat, removals: nat)

  /** The board with one more point on the cell at `p`, now owned by `player`: the move itself. */
  function PlayMove(m: Mask, g: Grid, p: Pos, player: Player): (r: Grid)
    requires WellFormed(m, g) && InBounds(m, p)
    ensures WellFormed(m, r)
    ensures forall q :: InBounds(m, q) ==> Get(r, q) == if q == p then Increment(Get(g, p), player) else Get(g, q)
  {
    SetKeepsWellFormed(m, g, p, Increment(Get(g, p), player));
    Set(g, p, Increment(Get(g, p), player))
  }

  class BoardComponent {
    const board: Board
    const isOnline: bool
    /** The local player of an online game; Nobody offline, where the source leaves it undefined. */
    const currentPlayer: Player
    /** The most analyse/update rounds one move may trigger before it is reported as an overflow. */
    const roundLimit: nat
    var player1Score: nat
    var player2Score: nat
    var player3Score: nat
    var player4Score: nat
    /** Set while a local move travels to the room, so that no second move is sent. */
    var boardLocked: bool
    /** The cell of the move in flight: the `cell` the pending promise callback holds on to. */
    var pendingMove: Option<Pos>
    /** The cell of the last move received from another player, highlighted in the view. */
    var lastMove: Option<Pos>
    /** How many times the room session has been torn down (removeSession). */
    ghost var sessionRemovals: nat

    ghost predicate Valid()
      reads this, board
    {
      && board.Valid()
      && (boardLocked <==> pendingMove.Some?)
      && (pendingMove.Some? ==> InBounds(board.playableCells, pendingMove.value))
    }

    ghost function Snapshot(): Snap
      reads this, board
    {
      Snap(board.playedCells, board.currentState, board.lostPlayers,
           player1Score, player2Score, player3Score, player4Score, sessionRemovals)
    }

    /**
     * The component and board after a call of nextRole from the state `before`:
     * grid, state and eliminations as NextRoleResult says, scores recomputed
     * unless the cascade overflowed, and the session torn down once when the
     * game is decided.
     */
    ghost predicate RoleApplied(before: Snap, outcome: RoleOutcome)
      reads this, board
      requires board.Valid()
    {
      var m, n := board.playableCells, board.playersNumber;
      && WellFormed(m, before.grid) && before.lost <= ActiveSlots(n)
      && var r := NextRoleResult(m, before.grid, before.state, before.lost, n, roundLimit);
      && board.playedCells == r.grid && board.currentState == r.state && board.lostPlayers == r.lost
      && outcome == r.outcome
      && (if outcome == CascadeOverflow then
            && player1Score == before.score1 && player2Score == before.score2
            && player3Score == before.score3 && player4Score == before.score4
            && sessionRemovals == before.removals
          else
            && player1Score == Score(r.grid, Player1) && player2Score == Score(r.grid, Player2)
            && player3Score == (if n >= 3 then Score(r.grid, Player3) else before.score3)
            && player4Score == (if n == 4 then Score(r.grid, Player4) else before.score4)
            && sessionRemovals == before.removals + if |r.lost| == n - 1 then 1 else 0)
    }

    constructor(board: Board, isOnline: bool, currentPlayer: Player, roundLimit: nat)
      requires board.Valid()
      ensures Valid()
      ensures this.board == board && this.isOnline == isOnline && this.currentPlayer == currentPlayer
      ensures this.roundLimit == roundLimit
      ensures player1Score == 0 && player2Score == 0 && player3Score == 0 && player4Score == 0
      ensures !boardLocked && pendingMove == None && lastMove == None && sessionRemovals == 0
    {
      this.board := board;
      this.isOnline := isOnline;
      this.currentPlayer := currentPlayer;
      this.roundLimit := roundLimit;
      player1Score, player2Score, player3Score, player4Score := 0, 0, 0, 0;
      boardLocked := false;
      pendingMove := None;
      lastMove := None;
      sessionRemovals := 0;
    }

    /**
     * analyse: enters ANALYSING and returns the critical cells, in row-major
     * order; it returns none exactly when the grid is stable.
     */
    method Analyse() returns (cells: seq<Cell>)
      requires Valid()
      modifies board`currentState
      ensures Valid() && board.currentState == Analysing
      ensures cells == Critical(board.playedCells)
      ensures forall c :: c in cells ==> IsCritical(c) && InBounds(board.playableCells, PosOf(c)) && Get(board.playedCells, PosOf(c)) == c
      ensures RowMajor(cells)
      ensures cells == [] <==> Stable(board.playedCells)
    {
      board.currentState := Analysing;
      cells := Critical(board.playedCells);
      CriticalSelection(board.playableCells, board.playedCells);
      CriticalEmptyIffStable(board.playableCells, board.playedCells);
    }

    /**
     * update: enters UPDATING, then each selected cell in turn explodes and
     * every playable neighbour of it gains a point for `player`.
     */
    method Update(cells: seq<Cell>, player: Player)
      requires Valid()
      requires forall c :: c in cells ==> InBounds(board.playableCells, PosOf(c))
      modifies board`currentState, board`playedCells
      ensures Valid() && board.currentState == Updating
      ensures board.playedCells == UpdateGrid(board.playableCells, old(board.playedCells), cells, player)
    {
      board.currentState := Updating;
      ghost var m := board.playableCells;
      ghost var target := UpdateGrid(m, board.playedCells, cells, player);
      for i := 0 to |cells|
        invariant Valid() && board.currentState == Updating
        invariant UpdateGrid(m, board.playedCells, cells[i..], player) == target
      {
        ExplodeCell(cells[i], player);
        assert cells[i..][1..] == cells[i + 1..];
      }
    }

    /** The body of update's forEach: `cell` explodes, then its neighbours gain a point for `player`. */
    method ExplodeCell(cell: Cell, player: Player)
      requires Valid() && InBounds(board.playableCells, PosOf(cell))
      modifies board`playedCells
      ensures Valid()
      ensures board.playedCells == Step(board.playableCells, old(board.playedCells), cell, player)
    {
      var p := PosOf(cell);
      board.SetCell(p.x, p.y, Explode(Get(board.playedCells, p)));
      var neighbors := board.GetCellNeighbors(cell);
      ghost var ps := NeighborPositions(board.playableCells, cell.x, cell.y);
      NeighborPositionsOrdered(board.playableCells, cell.x, cell.y);
      forall i, j | 0 <= i < j < |ps| ensures ps[i] != ps[j] {
        assert Direction(p, ps[i]) < Direction(p, ps[j]);
      }
      IncrementEach(neighbors, ps, player);
    }

    /** neighborCell.increment(player) for each cell of `cells`, cells that sit at the distinct positions `ps`. */
    method IncrementEach(cells: seq<Cell>, ghost ps: seq<Pos>, player: Player)
      requires Valid() && AllInBounds(board.playableCells, ps)
      requires |cells| == |ps| && forall k :: 0 <= k < |ps| ==> Get(board.playedCells, ps[k]) == cells[k]
      requires forall i, j :: 0 <= i < j < |ps| ==> ps[i] != ps[j]
      modifies board`playedCells
      ensures Valid()
      ensures board.playedCells == IncrementAll(board.playableCells, old(board.playedCells), ps, player)
    {
      ghost var m, target := board.playableCells, IncrementAll(board.playableCells, board.playedCells, ps, player);
      for j := 0 to |cells|
        invariant Valid()
        invariant IncrementAll(m, board.playedCells, ps[j..], player) == target
        invariant forall k :: j <= k < |ps| ==> Get(board.playedCells, ps[k]) == cells[k]
      {
        var c := cells[j];
        board.SetCell(c.x, c.y, Cells.Increment(c, player));
        assert ps[j..][1..] == ps[j + 1..];
      }
    }

    /**
     * The body of nextRole for the player whose turn it is: analyse and update
     * until nothing is critical, at most roundLimit rounds, then hand the
     * turn on with nextGameState. Still critical cells after the last round are
     * reported as an overflow, and the state stays ANALYSING.
     */
    method ResolveTurn() returns (overflow: bool)
      requires Valid()
      modifies board`currentState, board`playedCells
      ensures Valid()
      ensures old(board.currentState).IsTurn() ==>
        var c := Cascade(board.playableCells, old(board.playedCells), SlotPlayer(old(board.currentState)), roundLimit);
        && board.playedCells == c.grid && overflow == c.Overflow?
        && board.currentState == if c.Overflow? then Analysing else NextGameState(SlotPlayer(old(board.currentState)), board.playersNumber)
      ensures !old(board.currentState).IsTurn() ==>
        !overflow && board.playedCells == old(board.playedCells) && board.currentState == old(board.currentState)
    {
      overflow := false;
      if board.currentState.IsTurn() {
        var player := SlotPlayer(board.currentState);
        overflow := RunCascade(player);
        if !overflow {
          board.currentState := NextGameState(player, board.playersNumber);
        }
      }
    }

    /**
     * The analyse/update loop of nextRole for `player`, at most
     * roundLimit rounds; it ends in ANALYSING.
     */
    method RunCascade(player: Player) returns (overflow: bool)
      requires Valid()
      modifies board`currentState, board`playedCells
      ensures Valid() && board.currentState == Analysing
      ensures var c := Cascade(board.playableCells, old(board.playedCells), player, roundLimit);
        board.playedCells == c.grid && overflow == c.Overflow?
    {
      ghost var run := Trace(board.playableCells, board.playedCells, player, roundLimit);
      var explosionCells := Analyse();
      overflow := RepeatRounds(explosionCells, player, run);
    }

    /**
     * The while loop of nextRole, entered with the first selection of critical
     * cells: it follows the run `run` to its end.
     */
    method RepeatRounds(cells: seq<Cell>, player: Player, ghost run: seq<Grid>) returns (overflow: bool)
      requires Valid() && board.currentState == Analysing && cells == Critical(board.playedCells)
      requires IsRun(board.playableCells, player, roundLimit, run) && run[0] == board.playedCells
      modifies board`currentState, board`playedCells
      ensures Valid() && board.currentState == Analysing
      ensures board.playedCells == run[|run| - 1] && overflow == (Critical(run[|run| - 1]) != [])
    {
      var explosionCells, rounds := cells, 0;
      while explosionCells != [] && rounds < roundLimit
        invariant Valid() && board.currentState == Analysing
        invariant explosionCells == Critical(board.playedCells)
        invariant rounds < |run| && board.playedCells == run[rounds]
        decreases roundLimit - rounds
      {
        explosionCells := PlayRound(explosionCells, player);
        rounds := rounds + 1;
      }
      overflow := explosionCells != [];
    }

    /** One round of the loop: the critical cells explode for `player`, then analyse runs again. */
    method PlayRound(cells: seq<Cell>, player: Player) returns (next: seq<Cell>)
      requires Valid() && cells == Critical(board.playedCells)
      modifies board`currentState, board`playedCells
      ensures Valid() && board.currentState == Analysing
      ensures board.playedCells == Round(board.playableCells, old(board.playedCells), player)
      ensures next == Critical(board.playedCells)
    {
      CriticalSelection(board.playableCells, board.playedCells);
      Update(cells, player);
      next := Analyse();
    }

    /**
     * increment, the click handler: a move is allowed on a cell of the player
     * to move, and online only for the local player with no move in flight.
     * Offline the cell gains a point and nextRole runs; online the board locks
     * and the move waits for the room (EmitMoveSettled).
     */
    method Increment(p: Pos) returns (outcome: MoveOutcome)
      requires Valid() && InBounds(board.playableCells, p)
      modifies board`currentState, board`playedCells, board`lostPlayers
      modifies this`player1Score, this`player2Score, this`player3Score, this`player4Score, this`sessionRemovals
      modifies this`boardLocked, this`pendingMove, this`lastMove
      ensures Valid() && lastMove == None
      ensures var owner := Get(old(board.playedCells), p).player;
        !LocalMoveAllowed(owner, old(board.currentState), isOnline, currentPlayer, old(boardLocked)) ==>
          outcome == Rejected && Snapshot() == old(Snapshot())
          && boardLocked == old(boardLocked) && pendingMove == old(pendingMove)
      ensures var owner := Get(old(board.playedCells), p).player;
        LocalMoveAllowed(owner, old(board.currentState), isOnline, currentPlayer, old(boardLocked)) && isOnline ==>
          outcome == Pending && Snapshot() == old(Snapshot()) && boardLocked && pendingMove == Some(p)
      ensures var owner := Get(old(board.playedCells), p).player;
        LocalMoveAllowed(owner, old(board.currentState), isOnline, currentPlayer, old(boardLocked)) && !isOnline ==>
          && outcome.Applied? && boardLocked == old(boardLocked) && pendingMove == old(pendingMove)
          && RoleApplied(old(Snapshot()).(grid := PlayMove(board.playableCells, old(board.playedCells), p, owner)), outcome.role)
    {
      lastMove := None;
      var owner := Get(board.playedCells, p).player;
      if !LocalMoveAllowed(owner, board.currentState, isOnline, currentPlayer, boardLocked) {
        return Rejected;
      }
      if isOnline {
        boardLocked := true;
        pendingMove := Some(p);
        return Pending;
      }
      PlayAt(p, owner);
      var role := NextRole();
      outcome := Applied(role);
    }

    /**
     * The room answers a pending move: once delivered, the cell gains a point
     * for its owner and nextRole runs; either way the board unlocks.
     */
    method EmitMoveSettled(delivered: bool) returns (outcome: MoveOutcome)
      requires Valid() && pendingMove.Some?
      modifies board`currentState, board`playedCells, board`lostPlayers
      modifies this`player1Score, this`player2Score, this`player3Score, this`player4Score, this`sessionRemovals
      modifies this`boardLocked, this`pendingMove
      ensures Valid() && !boardLocked && pendingMove == None
      ensures !delivered ==> outcome == Undelivered && Snapshot() == old(Snapshot())
      ensures delivered ==>
        var p := old(pendingMove).value;
        && outcome.Applied?
        && RoleApplied(old(Snapshot()).(grid := PlayMove(board.playableCells, old(board.playedCells), p, Get(old(board.playedCells), p).player)), outcome.role)
    {
      var p := pendingMove.value;
      if delivered {
        PlayAt(p, Get(board.playedCells, p).player);
        var role := NextRole();
        outcome := Applied(role);
      } else {
        outcome := Undelivered;
      }
      boardLocked := false;
      pendingMove := None;
    }

    /**
     * incrementFromOtherPlayer: the move of another player of the room, taken
     * when it is that player's turn; the cell is remembered as the last move.
     * A position off the grid makes the source throw, leaving the board as it was.
     */
    method IncrementFromOtherPlayer(x: int, y: int, player: Player) returns (outcome: MoveOutcome)
      requires Valid()
      modifies board`currentState, board`playedCells, board`lostPlayers
      modifies this`player1Score, this`player2Score, this`player3Score, this`player4Score, this`sessionRemovals
      modifies this`lastMove
      ensures Valid()
      ensures !RemoteMoveAllowed(player, old(board.currentState), currentPlayer) ==>
        outcome == Rejected && Snapshot() == old(Snapshot()) && lastMove == old(lastMove)
      ensures RemoteMoveAllowed(player, old(board.currentState), currentPlayer) && !InBounds(board.playableCells, Pos(x, y)) ==>
        && outcome == OutOfGrid && Snapshot() == old(Snapshot())
        && lastMove == if 0 <= y < |board.playableCells| then None else old(lastMove)
      ensures RemoteMoveAllowed(player, old(board.currentState), currentPlayer) && InBounds(board.playableCells, Pos(x, y)) ==>
        && outcome.Applied? && lastMove == Some(Pos(x, y))
        && RoleApplied(old(Snapshot()).(grid := PlayMove(board.playableCells, old(board.playedCells), Pos(x, y), player)), outcome.role)
    {
      if !RemoteMoveAllowed(player, board.currentState, currentPlayer) {
        return Rejected;
      }
      if !InBounds(board.playableCells, Pos(x, y)) {
        if 0 <= y < |board.playableCells| {
          lastMove := None;
        }
        return OutOfGrid;
      }
      lastMove := Some(Pos(x, y));
      PlayAt(Pos(x, y), player);
      var role := NextRole();
      outcome := Applied(role);
    }

    /** cell.increment(player) on the board cell at `p`. */
    method PlayAt(p: Pos, player: Player)
      requires Valid() && InBounds(board.playableCells, p)
      modifies board`playedCells
      ensures Valid()
      ensures board.playedCells == PlayMove(board.playableCells, old(board.playedCells), p, player)
    {
      board.SetCell(p.x, p.y, Cells.Increment(Get(board.playedCells, p), player));
    }

    /**
     * nextRole: resolve the move of the player to move, update the scores,
     * then pass over eliminated players while the game is undecided (the
     * source's tail call, here a loop of at most playersNumber re-runs).
     */
    method NextRole() returns (outcome: RoleOutcome)
      requires Valid()
      modifies board`currentState, board`playedCells, board`lostPlayers
      modifies this`player1Score, this`player2Score, this`player3Score, this`player4Score, this`sessionRemovals
      ensures Valid()
      ensures RoleApplied(old(Snapshot()), outcome)
    {
      ghost var before := Snapshot();
      ghost var m, n := board.playableCells, board.playersNumber;
      ghost var r := NextRoleResult(m, before.grid, before.state, before.lost, n, roundLimit);
      ghost var c := if before.state.IsTurn() then Cascade(m, before.grid, SlotPlayer(before.state), roundLimit) else FixedPoint(before.grid);
      ghost var s1 := if before.state.IsTurn() then NextGameState(SlotPlayer(before.state), n) else before.state;
      var overflow := ResolveTurn();
      if overflow {
        return CascadeOverflow;
      }
      assert board.playedCells == c.grid && c.FixedPoint? && board.currentState == s1;
      outcome := ScoreAndSkip();
    }

    /**
     * The part of nextRole after the cascade: updateScore, then the skip over
     * eliminated players.
     */
    method ScoreAndSkip() returns (outcome: RoleOutcome)
      requires Valid()
      requires board.currentState.IsTurn() ==> Stable(board.playedCells)
      modifies board`currentState, board`playedCells, board`lostPlayers
      modifies this`player1Score, this`player2Score, this`player3Score, this`player4Score, this`sessionRemovals
      ensures Valid() && board.playedCells == old(board.playedCells)
      ensures var g, n := board.playedCells, board.playersNumber;
        && player1Score == Score(g, Player1) && player2Score == Score(g, Player2)
        && player3Score == (if n >= 3 then Score(g, Player3) else old(player3Score))
        && player4Score == (if n == 4 then Score(g, Player4) else old(player4Score))
      ensures board.lostPlayers == old(board.lostPlayers) + ZeroScoreSlots(board.playedCells, board.playersNumber)
      ensures board.currentState == SkipLost(ScoredState(old(board.currentState), board.lostPlayers, board.playersNumber),
                                             board.playersNumber, board.lostPlayers, board.playersNumber)
      ensures sessionRemovals == old(sessionRemovals) + if |board.lostPlayers| == board.playersNumber - 1 then 1 else 0
      ensures outcome == if board.currentState in board.lostPlayers && |board.lostPlayers| != board.playersNumber - 1 then SkipOverflow else Settled
    {
      UpdateScore();
      assert board.currentState in board.lostPlayers ==> board.currentState.IsTurn();
      SkipEliminated();
      outcome := if board.currentState in board.lostPlayers && |board.lostPlayers| != board.playersNumber - 1 then SkipOverflow else Settled;
    }

    /**
     * The tail of nextRole: while the player to move is eliminated and the
     * game is undecided, nextRole runs again; at most playersNumber times.
     */
    method SkipEliminated()
      requires Valid()
      requires board.currentState in board.lostPlayers ==> Stable(board.playedCells)
      requires ZeroScoreSlots(board.playedCells, board.playersNumber) <= board.lostPlayers
      requires var g, n := board.playedCells, board.playersNumber;
        && player1Score == Score(g, Player1) && player2Score == Score(g, Player2)
        && (n >= 3 ==> player3Score == Score(g, Player3))
        && (n == 4 ==> player4Score == Score(g, Player4))
      modifies board`currentState, board`playedCells, board`lostPlayers
      modifies this`player1Score, this`player2Score, this`player3Score, this`player4Score, this`sessionRemovals
      ensures Valid()
      ensures board.currentState == SkipLost(old(board.currentState), board.playersNumber, board.lostPlayers, board.playersNumber)
      ensures board.playedCells == old(board.playedCells) && board.lostPlayers == old(board.lostPlayers)
      ensures player1Score == old(player1Score) && player2Score == old(player2Score)
      ensures player3Score == old(player3Score) && player4Score == old(player4Score)
      ensures sessionRemovals == old(sessionRemovals)
    {
      ghost var n, lost, target := board.playersNumber, board.lostPlayers, SkipLost(board.currentState, board.playersNumber, board.lostPlayers, board.playersNumber);
      var reruns := 0;
      while board.currentState in board.lostPlayers && |board.lostPlayers| != board.playersNumber - 1 && reruns < board.playersNumber
        invariant Valid()
        invariant 0 <= reruns <= n
        invariant SkipLost(board.currentState, n, lost, n - reruns) == target
        invariant board.playedCells == old(board.playedCells) && board.lostPlayers == lost
        invariant player1Score == old(player1Score) && player2Score == old(player2Score)
        invariant player3Score == old(player3Score) && player4Score == old(player4Score)
        invariant sessionRemovals == old(sessionRemovals)
        invariant reruns == 0 ==> board.currentState == old(board.currentState)
        invariant reruns > 0 ==> old(board.currentState) in lost
        decreases n - reruns
      {
        SkipOnce();
        reruns := reruns + 1;
      }
    }

    /**
     * A re-run of nextRole for an eliminated player to move: the grid is
     * stable, so the cascade changes nothing and the turn passes on, and
     * updateScore finds nothing new.
     */
    method SkipOnce()
      requires Valid()
      requires board.currentState in board.lostPlayers && |board.lostPlayers| != board.playersNumber - 1
      requires Stable(board.playedCells) && ZeroScoreSlots(board.playedCells, board.playersNumber) <= board.lostPlayers
      modifies board`currentState, board`playedCells, board`lostPlayers
      modifies this`player1Score, this`player2Score, this`player3Score, this`player4Score, this`sessionRemovals
      ensures Valid()
      ensures board.currentState == NextGameState(SlotPlayer(old(board.currentState)), board.playersNumber)
      ensures board.playedCells == old(board.playedCells) && board.lostPlayers == old(board.lostPlayers)
      ensures var g, n := board.playedCells, board.playersNumber;
        && player1Score == Score(g, Player1) && player2Score == Score(g, Player2)
        && player3Score == (if n >= 3 then Score(g, Player3) else old(player3Score))
        && player4Score == (if n == 4 then Score(g, Player4) else old(player4Score))
      ensures sessionRemovals == old(sessionRemovals)
    {
      ghost var lost, n := board.lostPlayers, board.playersNumber;
      assert board.currentState.IsTurn();
      StableCascade(board.playableCells, board.playedCells, SlotPlayer(board.currentState), roundLimit);
      var overflow := ResolveTurn();
      UpdateScore();
      assert board.lostPlayers == lost;
    }

    /**
     * updateScore: each active player's score is the number of cells it owns;
     * every active slot left without a cell is eliminated; once all but one
     * are out, the one standing wins and the session is torn down.
     */
    method UpdateScore()
      requires Valid()
      modifies this`player1Score, this`player2Score, this`player3Score, this`player4Score
      modifies board`lostPlayers, board`currentState, this`sessionRemovals
      ensures Valid()
      ensures var g, n := board.playedCells, board.playersNumber;
        && player1Score == Score(g, Player1) && player2Score == Score(g, Player2)
        && player3Score == (if n >= 3 then Score(g, Player3) else old(player3Score))
        && player4Score == (if n == 4 then Score(g, Player4) else old(player4Score))
      ensures board.lostPlayers == old(board.lostPlayers) + ZeroScoreSlots(board.playedCells, board.playersNumber)
      ensures board.currentState == ScoredState(old(board.currentState), board.lostPlayers, board.playersNumber)
      ensures sessionRemovals == old(sessionRemovals) + if |board.lostPlayers| == board.playersNumber - 1 then 1 else 0
    {
      RecordScores();
      RecordEliminations();
      DeclareWinner();
    }

    /** Every slot in play whose recorded score is 0 joins the eliminated slots. */
    method RecordEliminations()
      requires Valid()
      requires var g, n := board.playedCells, board.playersNumber;
        && player1Score == Score(g, Player1) && player2Score == Score(g, Player2)
        && (n >= 3 ==> player3Score == Score(g, Player3))
        && (n == 4 ==> player4Score == Score(g, Player4))
      modifies board`lostPlayers
      ensures Valid()
      ensures board.lostPlayers == old(board.lostPlayers) + ZeroScoreSlots(board.playedCells, board.playersNumber)
    {
      var g, n := board.playedCells, board.playersNumber;
      var lost := Eliminations();
      assert lost == board.lostPlayers + ZeroScoreSlots(g, n) by {
        ZeroScoreSlotsBySlot(g, n);
      }
      board.lostPlayers := lost;
    }

    /**
     * The end of updateScore: once all slots but one are eliminated, the one
     * left standing wins and the online session is removed.
     */
    method DeclareWinner()
      requires Valid()
      modifies board`currentState, this`sessionRemovals
      ensures Valid()
      ensures board.currentState == ScoredState(old(board.currentState), board.lostPlayers, board.playersNumber)
      ensures sessionRemovals == old(sessionRemovals) + if |board.lostPlayers| == board.playersNumber - 1 then 1 else 0
    {
      var lost, n := board.lostPlayers, board.playersNumber;
      if |lost| == n - 1 {
        SomeoneStands(lost);
        var standing := FirstStanding(lost);
        if standing.Some? {
          board.currentState := WonState(standing.value);
          sessionRemovals := sessionRemovals + 1;
        }
      }
    }

    /** The filter-and-length counts of updateScore, for the slots in play. */
    method RecordScores()
      requires Valid()
      modifies this`player1Score, this`player2Score, this`player3Score, this`player4Score
      ensures Valid()
      ensures var g, n := board.playedCells, board.playersNumber;
        && player1Score == Score(g, Player1) && player2Score == Score(g, Player2)
        && player3Score == (if n >= 3 then Score(g, Player3) else old(player3Score))
        && player4Score == (if n == 4 then Score(g, Player4) else old(player4Score))
    {
      var g, n := board.playedCells, board.playersNumber;
      player1Score := Score(g, Player1);
      player2Score := Score(g, Player2);
      if n >= 3 {
        player3Score := Score(g, Player3);
      }
      if n == 4 {
        player4Score := Score(g, Player4);
      }
    }

    /** The eliminated slots once every slot in play whose score is 0 is added. */
    method Eliminations() returns (lost: set<GameState>)
      requires Valid()
      ensures var n := board.playersNumber;
        lost == board.lostPlayers
          + (if player1Score == 0 then {Turn1} else {})
          + (if player2Score == 0 then {Turn2} else {})
          + (if n > 2 && player3Score == 0 then {Turn3} else {})
          + (if n > 3 && player4Score == 0 then {Turn4} else {})
    {
      var n := board.playersNumber;
      lost := board.lostPlayers;
      if player1Score == 0 && Turn1 !in lost {
        lost := lost + {Turn1};
      }
      if player2Score == 0 && Turn2 !in lost {
        lost := lost + {Turn2};
      }
      if player3Score == 0 && Turn3 !in lost && n > 2 {
        lost := lost + {Turn3};
      }
      if player4Score == 0 && Turn4 !in lost && n > 3 {
        lost := lost + {Turn4};
      }
    }
  }
}
