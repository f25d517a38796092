/**
 * The board grid as a value, and the chain-reaction rules over it:
 * row-major flattening, the critical-cell scan of analyse, the neighbour
 * lookup of getCellNeighbors, one explosion round of update, the repeated
 * rounds of nextRole and the score count of updateScore.
 */
module Grid {
  import opened Wrappers
  import opened Players
  import opened Cells
  import opened Layouts

  type Grid = seq<seq<Cell>>

  datatype Pos = Pos(x: int, y: int)

  function PosOf(c: Cell): Pos
  {
    Pos(c.x, c.y)
  }

  /** `p` indexes an entry of the row-indexed table `t`. */
  predicate InBounds<T>(t: seq<seq<T>>, p: Pos)
  {
    0 <= p.y < |t| && 0 <= p.x < |t[p.y]|
  }

  /** The grid has the shape of the mask, and each cell knows its own coordinates and playability. */
  predicate WellFormed(m: Mask, g: Grid)
  {
    && |g| == |m|
    && (forall y :: 0 <= y < |m| ==> |g[y]| == |m[y]|)
    && (forall y, x :: 0 <= y < |g| && 0 <= x < |g[y]| ==>
          g[y][x].x == x && g[y][x].y == y && g[y][x].playable == m[y][x])
  }

  function Get(g: Grid, p: Pos): Cell
    requires InBounds(g, p)
  {
    g[p.y][p.x]
  }

  function Set(g: Grid, p: Pos, c: Cell): Grid
    requires InBounds(g, p)
  {
    g[p.y := g[p.y][p.x := c]]
  }

  /** Replacing a cell by one with the same coordinates and playability keeps the grid well formed. */
  lemma SetKeepsWellFormed(m: Mask, g: Grid, p: Pos, c: Cell)
    requires WellFormed(m, g) && InBounds(g, p)
    requires c.x == p.x && c.y == p.y && c.playable == m[p.y][p.x]
    ensures WellFormed(m, Set(g, p, c))
  {
  }

  /** Set replaces the cell at `p` and no other. */
  lemma GetAfterSet(g: Grid, p: Pos, c: Cell)
    requires InBounds(g, p)
    ensures forall q :: InBounds(g, q) ==> Get(Set(g, p, c), q) == if q == p then c else Get(g, q)
  {
  }

  // ---------------------------------------------------------------- flattening

  /** lodash flatten of the rows: the cells in row-major order. */
  function Flatten(g: Grid): seq<Cell>
  {
    if |g| == 0 then [] else g[0] + Flatten(g[1..])
  }

  lemma {:induction false} FlattenHasOnlyGridCells(g: Grid, c: Cell)
    requires c in Flatten(g)
    ensures exists y, x :: 0 <= y < |g| && 0 <= x < |g[y]| && g[y][x] == c
  {
    if c in g[0] {
      var x :| 0 <= x < |g[0]| && g[0][x] == c;
      assert g[0][x] == c;
    } else {
      FlattenHasOnlyGridCells(g[1..], c);
      var y, x :| 0 <= y < |g[1..]| && 0 <= x < |g[1..][y]| && g[1..][y][x] == c;
      assert g[y + 1][x] == c;
    }
  }

  lemma {:induction false} FlattenHasAllGridCells(g: Grid, y: int, x: int)
    requires 0 <= y < |g| && 0 <= x < |g[y]|
    ensures g[y][x] in Flatten(g)
  {
    if y == 0 {
      assert g[0][x] in g[0];
    } else {
      FlattenHasAllGridCells(g[1..], y - 1, x);
    }
  }

  /** `a` comes strictly before `b` in a row-by-row scan. */
  predicate Before(a: Pos, b: Pos)
  {
    a.y < b.y || (a.y == b.y && a.x < b.x)
  }

  /** The cells of `s` are listed in strictly increasing row-major order. */
  predicate RowMajor(s: seq<Cell>)
  {
    forall i, j :: 0 <= i < j < |s| ==> Before(PosOf(s[i]), PosOf(s[j]))
  }

  lemma {:induction false} FlattenIsRowMajor(g: Grid, base: int)
    requires forall y, x :: 0 <= y < |g| && 0 <= x < |g[y]| ==> g[y][x].x == x && g[y][x].y == base + y
    ensures RowMajor(Flatten(g))
    ensures forall c :: c in Flatten(g) ==> c.y >= base
  {
    if |g| > 0 {
      FlattenIsRowMajor(g[1..], base + 1);
      var rest := Flatten(g[1..]);
      assert Flatten(g) == g[0] + rest;
      forall i, j | 0 <= i < j < |Flatten(g)|
        ensures Before(PosOf(Flatten(g)[i]), PosOf(Flatten(g)[j]))
      {
        if j < |g[0]| {
          assert Flatten(g)[i] == g[0][i] && Flatten(g)[j] == g[0][j];
        } else if i < |g[0]| {
          assert Flatten(g)[j] in rest;
        } else {
          assert Flatten(g)[i] == rest[i - |g[0]|] && Flatten(g)[j] == rest[j - |g[0]|];
        }
      }
      forall c | c in Flatten(g) ensures c.y >= base {
        if c in g[0] {
          var x :| 0 <= x < |g[0]| && g[0][x] == c;
        }
      }
    }
  }

  // ---------------------------------------------------------------- analyse

  /** The two filters of analyse: keep the owned cells whose value is exactly 4, in order. */
  function CriticalIn(s: seq<Cell>): (r: seq<Cell>)
    ensures forall c :: c in r <==> c in s && IsCritical(c)
    ensures |r| <= |s|
  {
    if |s| == 0 then []
    else (if IsCritical(s[0]) then [s[0]] else []) + CriticalIn(s[1..])
  }

  lemma {:induction false} CriticalInKeepsOrder(s: seq<Cell>)
    requires RowMajor(s)
    ensures RowMajor(CriticalIn(s))
  {
    if |s| > 0 {
      CriticalInKeepsOrder(s[1..]);
      var rest := CriticalIn(s[1..]);
      if IsCritical(s[0]) {
        forall j | 0 <= j < |rest| ensures Before(PosOf(s[0]), PosOf(rest[j])) {
          assert rest[j] in s[1..];
          var k :| 0 <= k < |s[1..]| && s[1..][k] == rest[j];
          assert s[k + 1] == rest[j];
        }
        assert CriticalIn(s) == [s[0]] + rest;
      }
    }
  }

  /** The cells analyse selects: the critical cells of the flattened grid. */
  function Critical(g: Grid): seq<Cell>
  {
    CriticalIn(Flatten(g))
  }

  /** No cell of the grid is critical: the fixed point of the cascade. */
  predicate Stable(g: Grid)
  {
    forall y, x :: 0 <= y < |g| && 0 <= x < |g[y]| ==> !IsCritical(g[y][x])
  }

  /** Two different entries of `s` never sit at the same coordinates. */
  predicate DistinctPositions(s: seq<Cell>)
  {
    forall i, j :: 0 <= i < j < |s| ==> PosOf(s[i]) != PosOf(s[j])
  }

  /** Every cell analyse selects is a critical cell of the grid, listed once, in row-major order. */
  lemma CriticalSelection(m: Mask, g: Grid)
    requires WellFormed(m, g)
    ensures forall c :: c in Critical(g) ==> InBounds(m, PosOf(c)) && Get(g, PosOf(c)) == c && IsCritical(c)
    ensures RowMajor(Critical(g)) && DistinctPositions(Critical(g))
  {
    forall c | c in Critical(g) ensures InBounds(m, PosOf(c)) && Get(g, PosOf(c)) == c {
      FlattenHasOnlyGridCells(g, c);
    }
    FlattenIsRowMajor(g, 0);
    CriticalInKeepsOrder(Flatten(g));
  }

  /** analyse selects a grid cell exactly when it is critical. */
  lemma CriticalCoversGrid(m: Mask, g: Grid)
    requires WellFormed(m, g)
    ensures forall y, x :: 0 <= y < |g| && 0 <= x < |g[y]| ==> (g[y][x] in Critical(g) <==> IsCritical(g[y][x]))
  {
    forall y, x | 0 <= y < |g| && 0 <= x < |g[y]| ensures g[y][x] in Flatten(g) {
      FlattenHasAllGridCells(g, y, x);
    }
  }

  /** analyse selects nothing exactly when the grid is stable. */
  lemma CriticalEmptyIffStable(m: Mask, g: Grid)
    requires WellFormed(m, g)
    ensures Critical(g) == [] <==> Stable(g)
  {
    CriticalCoversGrid(m, g);
    if !Stable(g) {
      var y, x :| 0 <= y < |g| && 0 <= x < |g[y]| && IsCritical(g[y][x]);
      assert g[y][x] in Critical(g);
    }
    if Critical(g) != [] {
      CriticalSelection(m, g);
      var c := Critical(g)[0];
      assert c in Critical(g);
      assert g[c.y][c.x] == c;
    }
  }

  // ---------------------------------------------------------------- neighbours

  /** Rank of `q` as a neighbour of `c`: 0 west, 1 north, 2 east, 3 south, -1 not adjacent. */
  function Direction(c: Pos, q: Pos): int
  {
    if q == Pos(c.x - 1, c.y) then 0
    else if q == Pos(c.x, c.y - 1) then 1
    else if q == Pos(c.x + 1, c.y) then 2
    else if q == Pos(c.x, c.y + 1) then 3
    else -1
  }

  /** `q` is a playable cell orthogonally adjacent to `c`. */
  predicate IsNeighbor(m: Mask, c: Pos, q: Pos)
  {
    InBounds(m, q) && m[q.y][q.x] && Direction(c, q) >= 0
  }

  /**
   * getCellNeighbors, bounded by the board itself: the playable cells west,
   * north, east and south of (x, y), in that order.
   */
  function NeighborPositions(m: Mask, x: int, y: int): (r: seq<Pos>)
    ensures |r| <= 4
  {
    var west, north, east, south := Pos(x - 1, y), Pos(x, y - 1), Pos(x + 1, y), Pos(x, y + 1);
    (if InBounds(m, west) && m[west.y][west.x] then [west] else [])
    + (if InBounds(m, north) && m[north.y][north.x] then [north] else [])
    + (if InBounds(m, east) && m[east.y][east.x] then [east] else [])
    + (if InBounds(m, south) && m[south.y][south.x] then [south] else [])
  }

  /**
   * The lookup finds exactly the playable orthogonal neighbours, each once,
   * in the order west, north, east, south.
   */
  lemma NeighborPositionsSpec(m: Mask, x: int, y: int)
    ensures var r := NeighborPositions(m, x, y);
      && (forall i :: 0 <= i < |r| ==> IsNeighbor(m, Pos(x, y), r[i]))
      && (forall q :: IsNeighbor(m, Pos(x, y), q) ==> q in r)
      && (forall i, j :: 0 <= i < j < |r| ==> Direction(Pos(x, y), r[i]) < Direction(Pos(x, y), r[j]))
  {
    NeighborPositionsSound(m, x, y);
    NeighborPositionsComplete(m, x, y);
    NeighborPositionsOrdered(m, x, y);
  }

  lemma NeighborPositionsSound(m: Mask, x: int, y: int)
    ensures var r := NeighborPositions(m, x, y);
      forall i :: 0 <= i < |r| ==> IsNeighbor(m, Pos(x, y), r[i])
  {
  }

  lemma NeighborPositionsComplete(m: Mask, x: int, y: int)
    ensures var r := NeighborPositions(m, x, y);
      forall q :: IsNeighbor(m, Pos(x, y), q) ==> q in r
  {
  }

  lemma NeighborPositionsOrdered(m: Mask, x: int, y: int)
    ensures var r := NeighborPositions(m, x, y);
      forall i, j :: 0 <= i < j < |r| ==> Direction(Pos(x, y), r[i]) < Direction(Pos(x, y), r[j])
  {
  }

  /**
   * On a board whose every cell is playable, a corner cell has 2 neighbours,
   * any other border cell 3, and an inner cell 4.
   */
  lemma NeighborCountOnFullBoard(m: Mask, w: int, h: int, x: int, y: int)
    requires IsMask(m, w, h) && 2 <= w && 2 <= h
    requires forall y', x' :: 0 <= y' < h && 0 <= x' < w ==> m[y'][x']
    requires 0 <= x < w && 0 <= y < h
    ensures (x == 0 || x == w - 1) && (y == 0 || y == h - 1) ==> |NeighborPositions(m, x, y)| == 2
    ensures (0 < x < w - 1) != (0 < y < h - 1) ==> |NeighborPositions(m, x, y)| == 3
    ensures 0 < x < w - 1 && 0 < y < h - 1 ==> |NeighborPositions(m, x, y)| == 4
  {
  }

  /** The fault getCellNeighbors raises when it reads a row the mask does not have. */
  datatype LookupFault = TypeError

  /**
   * getCellNeighbors as written: east and south are bounded by MAX_WIDTH and
   * MAX_HEIGHT. An east column past the row reads `undefined` and is skipped;
   * a south row past the mask is `undefined`, and indexing it throws.
   */
  function NeighborsAsWritten(m: Mask, x: int, y: int): (r: Result<seq<Pos>, LookupFault>)
    requires 0 <= y < |m| && 0 <= x
  {
    var westOk := x - 1 >= 0 && x - 1 < |m[y]| && m[y][x - 1];
    var northOk := y - 1 >= 0 && x < |m[y - 1]| && m[y - 1][x];
    var eastOk := x + 1 < MaxWidth && x + 1 < |m[y]| && m[y][x + 1];
    if y + 1 < MaxHeight && y + 1 >= |m| then Failure(TypeError)
    else
      var southOk := y + 1 < MaxHeight && x < |m[y + 1]| && m[y + 1][x];
      Success((if westOk then [Pos(x - 1, y)] else [])
        + (if northOk then [Pos(x, y - 1)] else [])
        + (if eastOk then [Pos(x + 1, y)] else [])
        + (if southOk then [Pos(x, y + 1)] else []))
  }

  /**
   * On a board of at most 12 x 12, the as-written lookup throws exactly for a
   * cell in the bottom row of a board shorter than 12, and agrees with
   * NeighborPositions everywhere else.
   */
  lemma NeighborsAsWrittenFailsOnBottomRow(m: Mask, w: int, h: int, x: int, y: int)
    requires IsMask(m, w, h) && 1 <= w <= MaxWidth && 1 <= h <= MaxHeight
    requires 0 <= x < w && 0 <= y < h
    ensures NeighborsAsWritten(m, x, y).Failure? <==> y == h - 1 && h < MaxHeight
    ensures NeighborsAsWritten(m, x, y).Success? ==> NeighborsAsWritten(m, x, y).value == NeighborPositions(m, x, y)
  {
  }

  // ---------------------------------------------------------------- update

  /** Every position in `ps` is a cell of the mask. */
  predicate AllInBounds(m: Mask, ps: seq<Pos>)
  {
    forall i :: 0 <= i < |ps| ==> InBounds(m, ps[i])
  }

  /** neighborCell.increment(player) for each position in turn. */
  function IncrementAll(m: Mask, g: Grid, ps: seq<Pos>, player: Player): (r: Grid)
    requires WellFormed(m, g) && AllInBounds(m, ps)
    ensures WellFormed(m, r)
    decreases |ps|
  {
    if |ps| == 0 then g
    else
      var p := ps[0];
      SetKeepsWellFormed(m, g, p, Increment(Get(g, p), player));
      IncrementAll(m, Set(g, p, Increment(Get(g, p), player)), ps[1..], player)
  }

  lemma {:induction false} IncrementAllAt(m: Mask, g: Grid, ps: seq<Pos>, player: Player, q: Pos)
    requires WellFormed(m, g) && AllInBounds(m, ps) && InBounds(m, q)
    requires forall i, j :: 0 <= i < j < |ps| ==> ps[i] != ps[j]
    ensures Get(IncrementAll(m, g, ps, player), q) == if q in ps then Increment(Get(g, q), player) else Get(g, q)
    decreases |ps|
  {
    if |ps| > 0 {
      var p := ps[0];
      var g1 := Set(g, p, Increment(Get(g, p), player));
      SetKeepsWellFormed(m, g, p, Increment(Get(g, p), player));
      IncrementAllAt(m, g1, ps[1..], player, q);
      if q == p {
        forall k | 0 <= k < |ps| - 1 ensures ps[1..][k] != q {
          assert ps[1..][k] == ps[k + 1];
        }
      } else {
        assert q in ps <==> q in ps[1..] by {
          assert ps == [p] + ps[1..];
        }
      }
    }
  }

  /** One selected cell explodes, then every neighbour of it is incremented for `player`. */
  function Step(m: Mask, g: Grid, c: Cell, player: Player): (r: Grid)
    requires WellFormed(m, g) && InBounds(m, PosOf(c))
    ensures WellFormed(m, r)
  {
    var p := PosOf(c);
    SetKeepsWellFormed(m, g, p, Explode(Get(g, p)));
    NeighborPositionsSound(m, c.x, c.y);
    IncrementAll(m, Set(g, p, Explode(Get(g, p))), NeighborPositions(m, c.x, c.y), player)
  }

  lemma StepAt(m: Mask, g: Grid, c: Cell, player: Player, q: Pos)
    requires WellFormed(m, g) && InBounds(m, PosOf(c)) && InBounds(m, q)
    ensures Get(Step(m, g, c, player), q) ==
      if q == PosOf(c) then Explode(Get(g, q))
      else if IsNeighbor(m, PosOf(c), q) then Increment(Get(g, q), player)
      else Get(g, q)
  {
    var p, e := PosOf(c), Explode(Get(g, PosOf(c)));
    var g1 := Set(g, p, e);
    SetKeepsWellFormed(m, g, p, e);
    var ps := NeighborPositions(m, c.x, c.y);
    NeighborPositionsDistinct(m, c.x, c.y);
    NeighborPositionsSound(m, c.x, c.y);
    IncrementAllAt(m, g1, ps, player, q);
    NeighborPositionsMembership(m, c, q);
    GetAfterSet(g, p, e);
  }

  /** The neighbour lookup never lists a position twice. */
  lemma NeighborPositionsDistinct(m: Mask, x: int, y: int)
    ensures var r := NeighborPositions(m, x, y);
      forall i, j :: 0 <= i < j < |r| ==> r[i] != r[j]
  {
    var r := NeighborPositions(m, x, y);
    NeighborPositionsOrdered(m, x, y);
    forall i, j | 0 <= i < j < |r| ensures r[i] != r[j] {
      assert Direction(Pos(x, y), r[i]) < Direction(Pos(x, y), r[j]);
    }
  }

  /** The positions a step feeds are exactly the ones it hits, and never the exploding cell itself. */
  lemma NeighborPositionsMembership(m: Mask, c: Cell, q: Pos)
    ensures q in NeighborPositions(m, c.x, c.y) <==> IsNeighbor(m, PosOf(c), q)
    ensures IsNeighbor(m, PosOf(c), q) ==> q != PosOf(c)
  {
    NeighborPositionsSound(m, c.x, c.y);
    NeighborPositionsComplete(m, c.x, c.y);
  }

  /** update(cells, player): each selected cell, in order, explodes and feeds its neighbours. */
  function UpdateGrid(m: Mask, g: Grid, sel: seq<Cell>, player: Player): (r: Grid)
    requires WellFormed(m, g) && forall c :: c in sel ==> InBounds(m, PosOf(c))
    ensures WellFormed(m, r)
    decreases |sel|
  {
    if |sel| == 0 then g else UpdateGrid(m, Step(m, g, sel[0], player), sel[1..], player)
  }

  /** How many cells of `sel` have `q` as a neighbour. */
  function HitCount(m: Mask, sel: seq<Cell>, q: Pos): nat
  {
    if |sel| == 0 then 0 else (if IsNeighbor(m, PosOf(sel[0]), q) then 1 else 0) + HitCount(m, sel[1..], q)
  }

  /** How many cells of `sel` that come after the one at `q` have `q` as a neighbour. */
  function HitsAfter(m: Mask, sel: seq<Cell>, q: Pos): nat
  {
    if |sel| == 0 then 0
    else if PosOf(sel[0]) == q then HitCount(m, sel[1..], q)
    else HitsAfter(m, sel[1..], q)
  }

  /** Some cell of `sel` sits at `q`. */
  predicate Selected(sel: seq<Cell>, q: Pos)
  {
    exists i :: 0 <= i < |sel| && PosOf(sel[i]) == q
  }

  /**
   * The effect of update on each cell. A cell that any selected cell
   * neighbours ends up owned by the acting player, any other keeps its
   * owner. A selected cell ends with one point for each selected neighbour
   * that explodes after it (its own explosion cleared what came before); an
   * unselected cell gains one point per selected neighbour. Coordinates and
   * playability never change.
   */
  lemma {:induction false} UpdateGridAt(m: Mask, g: Grid, sel: seq<Cell>, player: Player, q: Pos)
    requires WellFormed(m, g) && (forall c :: c in sel ==> InBounds(m, PosOf(c))) && DistinctPositions(sel)
    requires InBounds(m, q)
    ensures Get(UpdateGrid(m, g, sel, player), q) ==
      Get(g, q).(player := if HitCount(m, sel, q) > 0 then player else Get(g, q).player,
                 value := if Selected(sel, q) then HitsAfter(m, sel, q) else Get(g, q).value + HitCount(m, sel, q))
    decreases |sel|
  {
    if |sel| > 0 {
      var c, rest := sel[0], sel[1..];
      var g1 := Step(m, g, c, player);
      var before, mid := Get(g, q), Get(g1, q);
      var after := Get(UpdateGrid(m, g1, rest, player), q);
      assert UpdateGrid(m, g, sel, player) == UpdateGrid(m, g1, rest, player);
      assert mid == if q == PosOf(c) then Explode(before)
        else if IsNeighbor(m, PosOf(c), q) then Increment(before, player) else before by {
        StepAt(m, g, c, player, q);
      }
      SelectedSplit(sel, q);
      assert after == mid.(player := if HitCount(m, rest, q) > 0 then player else mid.player,
                           value := if Selected(rest, q) then HitsAfter(m, rest, q) else mid.value + HitCount(m, rest, q)) by {
        UpdateGridAt(m, g1, rest, player, q);
      }
      NotOwnNeighbor(m, PosOf(c));
      assert HitCount(m, sel, q) == (if IsNeighbor(m, PosOf(c), q) then 1 else 0) + HitCount(m, rest, q);
      assert HitsAfter(m, sel, q) == if PosOf(c) == q then HitCount(m, rest, q) else HitsAfter(m, rest, q);
      ComposeStep(before, mid, after, player, PosOf(c) == q, IsNeighbor(m, PosOf(c), q), Selected(rest, q),
                  HitCount(m, rest, q), HitsAfter(m, rest, q),
                  HitCount(m, sel, q), HitsAfter(m, sel, q), Selected(sel, q));
    }
  }

  /** A cell is not its own neighbour. */
  lemma NotOwnNeighbor(m: Mask, p: Pos)
    ensures !IsNeighbor(m, p, p)
  {
  }

  /** One explosion step followed by the rest of the round, on the value of a single cell. */
  lemma ComposeStep(before: Cell, mid: Cell, after: Cell, player: Player,
                    at: bool, hit: bool, selRest: bool, hitsRest: nat, afterRest: nat,
                    hits: nat, afterAll: nat, sel: bool)
    requires at ==> !hit && !selRest
    requires mid == if at then Explode(before) else if hit then Increment(before, player) else before
    requires after == mid.(player := if hitsRest > 0 then player else mid.player,
                           value := if selRest then afterRest else mid.value + hitsRest)
    requires hits == (if hit then 1 else 0) + hitsRest
    requires afterAll == if at then hitsRest else afterRest
    requires sel == (at || selRest)
    ensures after == before.(player := if hits > 0 then player else before.player,
                             value := if sel then afterAll else before.value + hits)
  {
  }

  /** Splitting off the first selected cell, for UpdateGridAt. */
  lemma SelectedSplit(sel: seq<Cell>, q: Pos)
    requires |sel| > 0 && DistinctPositions(sel)
    ensures DistinctPositions(sel[1..])
    ensures Selected(sel, q) <==> PosOf(sel[0]) == q || Selected(sel[1..], q)
    ensures PosOf(sel[0]) == q ==> !Selected(sel[1..], q)
  {
    var rest := sel[1..];
    forall i, j | 0 <= i < j < |rest| ensures PosOf(rest[i]) != PosOf(rest[j]) {
      assert rest[i] == sel[i + 1] && rest[j] == sel[j + 1];
    }
    if Selected(sel, q) && PosOf(sel[0]) != q {
      var k :| 0 <= k < |sel| && PosOf(sel[k]) == q;
      assert rest[k - 1] == sel[k];
    }
    if Selected(rest, q) {
      var k :| 0 <= k < |rest| && PosOf(rest[k]) == q;
      assert sel[k + 1] == rest[k];
    }
  }

  /** A cell owned by the acting player stays owned by it through an update round. */
  lemma UpdateKeepsActingCells(m: Mask, g: Grid, sel: seq<Cell>, player: Player, q: Pos)
    requires WellFormed(m, g) && (forall c :: c in sel ==> InBounds(m, PosOf(c))) && DistinctPositions(sel)
    requires InBounds(m, q) && Get(g, q).player == player
    ensures Get(UpdateGrid(m, g, sel, player), q).player == player
  {
    UpdateGridAt(m, g, sel, player, q);
  }

  // ---------------------------------------------------------------- cascade

  datatype CascadeResult = FixedPoint(grid: Grid) | Overflow(grid: Grid)

  /** One analyse/update round: every critical cell explodes, in row-major order. */
  function Round(m: Mask, g: Grid, player: Player): (r: Grid)
    requires WellFormed(m, g)
    ensures WellFormed(m, r)
  {
    CriticalSelection(m, g);
    UpdateGrid(m, g, Critical(g), player)
  }

  /** A cell owned by the acting player stays its own through a round. */
  lemma RoundKeepsActingCells(m: Mask, g: Grid, player: Player, q: Pos)
    requires WellFormed(m, g) && InBounds(m, q) && Get(g, q).player == player
    ensures Get(Round(m, g, player), q).player == player
  {
    CriticalSelection(m, g);
    UpdateKeepsActingCells(m, g, Critical(g), player, q);
  }

  /**
   * `t` is a run of the analyse/update loop with at most `fuel` rounds: every
   * grid but the last has critical cells and is followed by the grid one round
   * later; the last has none, or the rounds are used up.
   */
  predicate IsRun(m: Mask, player: Player, fuel: nat, t: seq<Grid>)
  {
    && 1 <= |t| <= fuel + 1
    && (forall k :: 0 <= k < |t| ==> WellFormed(m, t[k]))
    && (forall k :: 0 <= k < |t| - 1 ==> Critical(t[k]) != [] && t[k + 1] == Round(m, t[k], player))
    && (Critical(t[|t| - 1]) == [] || |t| == fuel + 1)
  }

  /** The run of the loop from `g`: the grid it starts from, then the grid after each round it plays. */
  function Trace(m: Mask, g: Grid, player: Player, fuel: nat): (t: seq<Grid>)
    requires WellFormed(m, g)
    ensures IsRun(m, player, fuel, t) && t[0] == g
    decreases fuel
  {
    if Critical(g) == [] || fuel == 0 then [g]
    else
      var rest := Trace(m, Round(m, g, player), player, fuel - 1);
      RunCons(m, player, fuel, g, rest);
      [g] + rest
  }

  /** A grid with critical cells, followed by a run from the grid one round later, is a run with one more round. */
  lemma RunCons(m: Mask, player: Player, fuel: nat, g: Grid, rest: seq<Grid>)
    requires WellFormed(m, g) && Critical(g) != [] && fuel > 0
    requires IsRun(m, player, fuel - 1, rest) && rest[0] == Round(m, g, player)
    ensures IsRun(m, player, fuel, [g] + rest)
  {
    var t := [g] + rest;
    forall k | 0 <= k < |t| ensures WellFormed(m, t[k]) {
      if k > 0 { assert t[k] == rest[k - 1]; }
    }
    forall k | 0 <= k < |t| - 1 ensures Critical(t[k]) != [] && t[k + 1] == Round(m, t[k], player) {
      if k > 0 { assert t[k] == rest[k - 1] && t[k + 1] == rest[k]; }
    }
    assert t[|t| - 1] == rest[|rest| - 1];
  }

  /**
   * The analyse/update loop of nextRole with at most `fuel` update rounds:
   * the grid its run ends on, a fixed point when nothing there is critical,
   * an overflow otherwise.
   */
  function Cascade(m: Mask, g: Grid, player: Player, fuel: nat): (r: CascadeResult)
    requires WellFormed(m, g)
    ensures WellFormed(m, r.grid)
    ensures r.FixedPoint? ==> Stable(r.grid)
    ensures r.Overflow? ==> Critical(r.grid) != []
    ensures exists t :: IsRun(m, player, fuel, t) && t[0] == g && r.grid == t[|t| - 1]
  {
    var t := Trace(m, g, player, fuel);
    var last := t[|t| - 1];
    CriticalEmptyIffStable(m, last);
    if Critical(last) == [] then FixedPoint(last) else Overflow(last)
  }

  /** A cell owned by the acting player stays its own along a run. */
  lemma {:induction false} RunKeepsActingCells(m: Mask, player: Player, fuel: nat, t: seq<Grid>, q: Pos, k: nat)
    requires IsRun(m, player, fuel, t) && k < |t|
    requires InBounds(m, q) && Get(t[0], q).player == player
    ensures Get(t[k], q).player == player
    decreases k
  {
    if k > 0 {
      RunKeepsActingCells(m, player, fuel, t, q, k - 1);
      RoundKeepsActingCells(m, t[k - 1], player, q);
    }
  }

  /** A cell owned by the acting player is still its own once the cascade ends. */
  lemma CascadeKeepsActingCells(m: Mask, g: Grid, player: Player, fuel: nat, q: Pos)
    requires WellFormed(m, g) && InBounds(m, q) && Get(g, q).player == player
    ensures Get(Cascade(m, g, player, fuel).grid, q).player == player
  {
    var t := Trace(m, g, player, fuel);
    RunKeepsActingCells(m, player, fuel, t, q, |t| - 1);
  }

  // ---------------------------------------------------------------- scores

  /** How many cells of `s` player `p` owns. */
  function Count(s: seq<Cell>, p: Player): nat
  {
    if |s| == 0 then 0 else (if s[0].player == p then 1 else 0) + Count(s[1..], p)
  }

  /** How many cells of `s` are owned by one of the four players. */
  function OwnedCount(s: seq<Cell>): nat
  {
    if |s| == 0 then 0 else (if IsOwned(s[0]) then 1 else 0) + OwnedCount(s[1..])
  }

  /** A player's score: the number of cells it owns (the filter-and-length of updateScore). */
  function Score(g: Grid, p: Player): nat
  {
    Count(Flatten(g), p)
  }

  /** The four scores add up to the number of owned cells. */
  lemma {:induction false} ScoresPartitionOwnedCells(s: seq<Cell>)
    ensures Count(s, Player1) + Count(s, Player2) + Count(s, Player3) + Count(s, Player4) == OwnedCount(s)
  {
    if |s| > 0 {
      ScoresPartitionOwnedCells(s[1..]);
    }
  }

  /** A player owning some cell has a positive score. */
  lemma {:induction false} OwnedCellCounts(g: Grid, q: Pos, p: Player)
    requires InBounds(g, q) && Get(g, q).player == p
    ensures Score(g, p) > 0
  {
    FlattenHasAllGridCells(g, q.y, q.x);
    CountPositive(Flatten(g), Get(g, q), p);
  }

  lemma {:induction false} CountPositive(s: seq<Cell>, c: Cell, p: Player)
    requires c in s && c.player == p
    ensures Count(s, p) > 0
  {
    if s[0] != c {
      CountPositive(s[1..], c, p);
    }
  }

  /** The active slots whose player has no cell left. */
  function ZeroScoreSlots(g: Grid, n: int): set<GameState>
  {
    set s | s in ActiveSlots(n) && Score(g, SlotPlayer(s)) == 0
  }
}
