/** The Minesweeper game: board creation, recursive reveal, and the click handlers. */
module Minesweeper {
  import opened Options
  import opened Arithmetic
  import opened MinesweeperBoard

  lemma PixelInTile(count: nat, size: nat, px: nat)
    requires px < count * size
    ensures size > 0 && px / size < count
  {
    if size > 0 && count <= px / size {
      MulMonotone(count, px / size, size);
      assert false;
    }
  }

  class Game {
    const cfg: Config
    const tileSize: nat
    var board: array<Tile>
    var isRunning: bool
    var hasWon: bool

    ghost predicate ValidBoard()
      reads this, board
    {
      Shaped(cfg, board[..])
    }

    /** What holds between events: a finished board, and no bomb shows while the game runs. */
    ghost predicate Valid()
      reads this, board
    {
      && Counted(cfg, board[..])
      && (isRunning ==> forall k :: 0 <= k < board.Length && board[k].isBomb ==> !board[k].isRevealed)
    }

    /** random(n) is the n-th number the random engine returns. */
    constructor (cfg: Config, tileSize: nat, random: nat -> nat)
      requires cfg.Valid()
      ensures Valid() && this.cfg == cfg && this.tileSize == tileSize && fresh(board)
      ensures !isRunning && !hasWon && Bombs(board[..]) == Drawn(cfg.width * cfg.height, cfg.bombCount, random)
      ensures forall k :: 0 <= k < board.Length ==> !board[k].isRevealed && !board[k].isMarked
    {
      this.cfg := cfg;
      this.tileSize := tileSize;
      this.board := new Tile[0];
      hasWon := false;
      new;
      BoardCreate(random);
    }

    // ----- loops over tiles -----

    /** The tiles around t, each exactly once. */
    method NeighbourTiles(t: nat) returns (ns: seq<nat>)
      requires ValidBoard() && t < board.Length
      ensures forall k: nat :: k in ns <==> (k < board.Length && Adjacent(cfg.width, t, k))
      ensures forall k: nat :: k in ns <==>
        && k < board.Length && k != t
        && -1 <= board[k].x - board[t].x <= 1 && -1 <= board[k].y - board[t].y <= 1
      ensures forall m, n :: 0 <= m < n < |ns| ==> ns[m] != ns[n]
    {
      ns := [];
      var x: int, y: int := board[t].x, board[t].y;
      AroundEnds(cfg.width, cfg.height, t);
      for i := -1 to 2
        invariant Enumerates(ns, Around(cfg.width, cfg.height, t, x + i, y - 1))
      {
        for j := -1 to 2
          invariant Enumerates(ns, Around(cfg.width, cfg.height, t, x + i, y + j))
        {
          if 0 <= x + i < cfg.width && 0 <= y + j < cfg.height && !(i == 0 && j == 0) {
            AroundNext(cfg.width, cfg.height, t, x + i, y + j);
            EnumeratesAdd(ns, Around(cfg.width, cfg.height, t, x + i, y + j), Cell(cfg.width, x + i, y + j));
            ns := ns + [Cell(cfg.width, x + i, y + j)];
          } else {
            AroundSkip(cfg.width, cfg.height, t, x + i, y + j);
          }
        }
        AroundColumn(cfg.width, cfg.height, t, x + i);
      }
    }

    // ----- creating a board -----

    method BoardCreate(random: nat -> nat)
      requires cfg.Valid()
      modifies this
      ensures fresh(board) && Counted(cfg, board[..])
      ensures Bombs(board[..]) == Drawn(cfg.width * cfg.height, cfg.bombCount, random)
      ensures forall k :: 0 <= k < board.Length ==> !board[k].isRevealed && !board[k].isMarked
      ensures !isRunning && hasWon == old(hasWon)
    {
      BombedBoard(random);
      ghost var bombed := board[..];
      hide Drawn, Bombs, BombsNear, Shaped;
      CountBombs();
      CountedBoard(cfg, bombed, board[..]);
      isRunning := false;
    }

    /** The tiles and the bombs, before any bomb is counted. */
    method BombedBoard(random: nat -> nat)
      requires cfg.Valid()
      modifies this`board
      ensures fresh(board) && ValidBoard() && |Bombs(board[..])| == cfg.bombCount
      ensures Bombs(board[..]) == Drawn(cfg.width * cfg.height, cfg.bombCount, random)
      ensures forall k :: 0 <= k < board.Length ==>
        board[k].bombCount == 0 && !board[k].isRevealed && !board[k].isMarked
    {
      hide Drawn, Bombs;
      var n := cfg.width * cfg.height;
      board := new Tile[n](_ => Tile(0, 0, 0, false, false, false));
      LayTiles();
      PlaceBombs(random);
    }

    method LayTiles()
      requires cfg.Valid() && board.Length == cfg.width * cfg.height
      requires forall k :: 0 <= k < board.Length ==> board[k] == Tile(0, 0, 0, false, false, false)
      modifies board
      ensures forall k :: 0 <= k < board.Length ==>
        board[k] == Tile(k % cfg.width, k / cfg.width, 0, false, false, false)
    {
      for i := 0 to board.Length
        invariant forall k :: 0 <= k < i ==> board[k] == Tile(k % cfg.width, k / cfg.width, 0, false, false, false)
        invariant forall k :: i <= k < board.Length ==> board[k] == Tile(0, 0, 0, false, false, false)
      {
        board[i] := board[i].(x := i % cfg.width, y := i / cfg.width);
      }
    }

    /** The positions still to draw from: cell k's coordinates stand at 2k and 2k+1. */
    ghost predicate Listed(positions: array<nat>, cells: seq<nat>)
      reads positions
    {
      && positions.Length == 2 * |cells|
      && forall k :: 0 <= k < |cells| ==> Cell(cfg.width, positions[2 * k], positions[2 * k + 1]) == cells[k]
    }

    method AllPositions(n: nat) returns (positions: array<nat>, ghost cells: seq<nat>)
      requires cfg.width > 0
      ensures fresh(positions) && Listed(positions, cells)
      ensures |cells| == n && forall k :: 0 <= k < n ==> cells[k] == k
    {
      positions := new nat[2 * n];
      cells := seq(n, k requires 0 <= k < n => k);
      for i := 0 to n
        invariant forall k :: 0 <= k < i ==> Cell(cfg.width, positions[2 * k], positions[2 * k + 1]) == k
      {
        CellInverse(cfg.width, i);
        positions[i * 2], positions[i * 2 + 1] := i % cfg.width, i / cfg.width;
      }
    }

    /** Takes the position at index out of the first count + 1 and fills the gap with the last of them. */
    method TakePosition(positions: array<nat>, ghost cells: seq<nat>, index: nat, count: nat) returns (x: nat, y: nat)
      requires Listed(positions, cells) && index <= count < |cells|
      modifies positions
      ensures Cell(cfg.width, x, y) == cells[index]
      ensures Listed(positions, cells[index := cells[count]])
    {
      x, y := positions[index * 2], positions[index * 2 + 1];
      positions[index * 2] := positions[count * 2];
      positions[index * 2 + 1] := positions[count * 2 + 1];
    }

    /** The board was with bombs on exactly the tiles in placed. */
    ghost predicate BombsOn(was: seq<Tile>, placed: set<nat>)
      reads this, board
    {
      board.Length == |was| && forall k :: 0 <= k < |was| ==> board[k] == was[k].(isBomb := k in placed)
    }

    method PutBomb(cell: nat, ghost was: seq<Tile>, ghost placed: set<nat>)
      requires BombsOn(was, placed) && cell < board.Length
      modifies board
      ensures BombsOn(was, placed + {cell})
    {
      board[cell] := board[cell].(isBomb := true);
    }

    /** The cells left to draw from are distinct, and none of them is taken. */
    ghost predicate Left(cells: seq<nat>, count: nat, n: nat, placed: set<nat>) {
      && count <= n == |cells| && (forall k :: 0 <= k < n ==> cells[k] < n)
      && (forall k, m :: 0 <= k < m < count ==> cells[k] != cells[m])
      && (forall k :: 0 <= k < count ==> cells[k] !in placed) && forall c :: c in placed ==> c < n
    }

    /** After d draws. */
    ghost predicate Drawing(cells: seq<nat>, n: nat, d: nat, placed: set<nat>, random: nat -> nat) {
      && d <= n && Left(cells, n - d, n, placed) && |placed| == d
      && cells == Remaining(n, d, random) && placed == Drawn(n, d, random)
    }

    lemma DrawsStart(cells: seq<nat>, n: nat, random: nat -> nat)
      requires |cells| == n && forall k :: 0 <= k < n ==> cells[k] == k
      ensures Drawing(cells, n, 0, {}, random)
    {
    }

    lemma TakesOne(cells: seq<nat>, count: nat, n: nat, placed: set<nat>, index: nat)
      requires Left(cells, count + 1, n, placed) && index <= count
      ensures count < n && cells[index] < n && |placed + {cells[index]}| == |placed| + 1
      ensures Left(cells[index := cells[count]], count, n, placed + {cells[index]})
    {
    }

    lemma Draws(cells: seq<nat>, n: nat, d: nat, placed: set<nat>, random: nat -> nat, index: nat)
      requires d < n && Drawing(cells, n, d, placed, random) && index == random(d) % (n - d)
      ensures |cells| == n && cells[index] < n
      ensures Drawing(cells[index := cells[n - d - 1]], n, d + 1, placed + {cells[index]}, random)
    {
      TakesOne(cells, n - d - 1, n, placed, index);
    }

    lemma BombsPlaced(was: seq<Tile>, now: seq<Tile>, cells: seq<nat>, d: nat, placed: set<nat>, random: nat -> nat)
      requires Drawing(cells, |was|, d, placed, random) && forall k :: 0 <= k < |was| ==> !was[k].isBomb
      requires |now| == |was| && forall k :: 0 <= k < |was| ==> now[k] == was[k].(isBomb := k in placed)
      ensures Bombs(now) == placed == Drawn(|was|, d, random) && |placed| == d
    {
    }

    /** A partial shuffle: each draw takes one position out of the remaining ones. */
    method PlaceBombs(random: nat -> nat)
      requires cfg.Valid() && board.Length == cfg.width * cfg.height
      requires forall k :: 0 <= k < board.Length ==> !board[k].isBomb
      modifies board
      ensures |Bombs(board[..])| == cfg.bombCount && Bombs(board[..]) == Drawn(board.Length, cfg.bombCount, random)
      ensures forall k :: 0 <= k < board.Length ==> board[k] == old(board[k]).(isBomb := board[k].isBomb)
    {
      var n := cfg.width * cfg.height;
      ghost var was, cells, placed := board[..], [], {};
      var positions;
      positions, cells := AllPositions(n);
      DrawsStart(cells, n, random);
      NoBombsYet(was);
      hide Listed, Drawing, Drawn, Bombs, BombsOn;
      cells, placed := DrawBombs(positions, cells, n, was, random);
      AllPlaced(was, cells, cfg.bombCount, placed, random);
    }

    method DrawBombs(positions: array<nat>, ghost cells: seq<nat>, n: nat, ghost was: seq<Tile>, random: nat -> nat)
      returns (ghost left: seq<nat>, ghost placed: set<nat>)
      requires cfg.bombCount <= n == board.Length && Listed(positions, cells) && Drawing(cells, n, 0, {}, random)
      requires BombsOn(was, {})
      modifies positions, board
      ensures Drawing(left, n, cfg.bombCount, placed, random) && BombsOn(was, placed)
    {
      hide Listed, Drawing, Drawn, BombsOn;
      left, placed := cells, {};
      for drawn := 0 to cfg.bombCount
        invariant Listed(positions, left) && Drawing(left, n, drawn, placed, random) && BombsOn(was, placed)
      {
        ghost var cell;
        cell, left := DrawBomb(positions, left, n, drawn, was, placed, random);
        placed := placed + {cell};
      }
    }

    lemma NoBombsYet(was: seq<Tile>)
      requires board[..] == was && forall k :: 0 <= k < |was| ==> !was[k].isBomb
      ensures BombsOn(was, {})
    {
    }

    lemma AllPlaced(was: seq<Tile>, cells: seq<nat>, d: nat, placed: set<nat>, random: nat -> nat)
      requires BombsOn(was, placed) && Drawing(cells, |was|, d, placed, random)
      requires forall k :: 0 <= k < |was| ==> !was[k].isBomb
      ensures board.Length == |was| && Bombs(board[..]) == Drawn(|was|, d, random) && |Bombs(board[..])| == d
      ensures forall k :: 0 <= k < |was| ==> board[k] == was[k].(isBomb := board[k].isBomb)
    {
      BombsPlaced(was, board[..], cells, d, placed, random);
    }

    /** One draw: the position leaves the list, and its tile gets a bomb. */
    method DrawBomb(positions: array<nat>, ghost cells: seq<nat>, n: nat, drawn: nat, ghost was: seq<Tile>,
                    ghost placed: set<nat>, random: nat -> nat)
      returns (ghost cell: nat, ghost left: seq<nat>)
      requires drawn < n == board.Length && Listed(positions, cells) && Drawing(cells, n, drawn, placed, random)
      requires BombsOn(was, placed)
      modifies positions, board
      ensures Listed(positions, left) && Drawing(left, n, drawn + 1, placed + {cell}, random)
      ensures BombsOn(was, placed + {cell})
    {
      hide Listed, Drawing, BombsOn;
      var count := n - drawn;
      var index := random(drawn) % count;
      count := count - 1;
      Draws(cells, n, drawn, placed, random, index);
      cell, left := cells[index], cells[index := cells[count]];
      var x, y := TakePosition(positions, cells, index, count);
      PutBomb(Cell(cfg.width, x, y), was, placed);
    }

    /** Every safe tile counts the bombs around it. */
    method CountBombs()
      requires ValidBoard()
      requires forall k :: 0 <= k < board.Length ==> board[k].bombCount == 0
      modifies board
      ensures board.Length == |old(board[..])| && forall k :: 0 <= k < board.Length ==>
        board[k] == if old(board[k].isBomb) then old(board[k])
                    else old(board[k]).(bombCount := |BombsNear(cfg.width, old(board[..]), k)|)
    {
      ghost var was := board[..];
      VisitAll(cfg.width, cfg.height);
      for x := 0 to cfg.width
        invariant CountedOn(was, Visited(cfg.width, cfg.height, x, 0))
      {
        for y := 0 to cfg.height
          invariant CountedOn(was, Visited(cfg.width, cfg.height, x, y))
        {
          VisitNext(cfg.width, cfg.height, x, y);
          CountAround(was, Cell(cfg.width, x, y));
        }
        VisitColumn(cfg.width, cfg.height, x);
      }
    }

    /** The tiles in done carry their counts; the others are as they were. */
    ghost predicate CountedOn(was: seq<Tile>, done: set<nat>)
      requires cfg.width > 0
      reads this, board
    {
      && board.Length == |was|
      && forall k :: 0 <= k < |was| ==>
        board[k] == if k in done && !was[k].isBomb
                    then was[k].(bombCount := |BombsNear(cfg.width, was, k)|) else was[k]
    }

    /** The callback of the counting loop, for one tile. */
    method CountAround(ghost was: seq<Tile>, t: nat)
      requires ValidBoard() && t < board.Length == |was| && board[t] == was[t] && was[t].bombCount == 0
      requires forall k :: 0 <= k < |was| ==> board[k].isBomb == was[k].isBomb
      modifies board
      ensures ValidBoard()
      ensures forall k :: 0 <= k < board.Length && k != t ==> board[k] == old(board[k])
      ensures board[t] == was[t].(bombCount := if was[t].isBomb then 0 else |BombsNear(cfg.width, was, t)|)
    {
      if board[t].isBomb {
        return;
      }
      var ns := NeighbourTiles(t);
      for m := 0 to |ns|
        invariant ValidBoard()
        invariant forall k :: 0 <= k < board.Length && k != t ==> board[k] == old(board[k])
        invariant board[t] == was[t].(bombCount := |BombsAmong(was, ns[..m])|)
      {
        assert ns[m] in ns;
        BombsAmongNext(was, ns, m);
        if board[ns[m]].isBomb {
          board[t] := board[t].(bombCount := board[t].bombCount + 1);
        }
      }
      assert ns[..|ns|] == ns;
      assert BombsAmong(was, ns) == BombsNear(cfg.width, was, t);
    }

    // ----- revealing -----

    /** Ends the game and shows every bomb that carries no mark. */
    method EndGame(won: bool)
      requires ValidBoard()
      modifies this`isRunning, this`hasWon, board
      ensures ValidBoard() && !isRunning && hasWon == won
      ensures board[..] == Exploded(old(board[..]))
    {
      isRunning := false;
      hasWon := won;
      ExposeBombs();
    }

    method ExposeBombs()
      requires ValidBoard()
      modifies board
      ensures ValidBoard() && board[..] == Exploded(old(board[..]))
    {
      ghost var was := board[..];
      VisitAll(cfg.width, cfg.height);
      for x := 0 to cfg.width
        invariant ExposedOn(was, Visited(cfg.width, cfg.height, x, 0))
      {
        for y := 0 to cfg.height
          invariant ExposedOn(was, Visited(cfg.width, cfg.height, x, y))
        {
          VisitNext(cfg.width, cfg.height, x, y);
          var t := Cell(cfg.width, x, y);
          if board[t].isBomb && !board[t].isMarked {
            board[t] := board[t].(isRevealed := true);
          }
        }
        VisitColumn(cfg.width, cfg.height, x);
      }
    }

    ghost predicate ExposedOn(was: seq<Tile>, done: set<nat>)
      reads this, board
    {
      && board.Length == |was|
      && forall k :: 0 <= k < |was| ==> board[k] == if k in done then Exposed(was[k]) else was[k]
    }

    /**
     * Reveals t. A safe tile reveals exactly the tiles its white paths reach; a bomb ends the game;
     * a revealed or marked tile stays as it is.
     */
    method TileReveal(t: nat)
      requires ValidBoard() && t < board.Length
      modifies this`isRunning, this`hasWon, board
      ensures ValidBoard()
      ensures old(board[t].isRevealed || board[t].isMarked) ==> board[..] == old(board[..])
      ensures old(!board[t].isMarked) ==> board[t].isRevealed
      ensures White(old(board[..]), t) ==> RevealedFrom(cfg.width, old(board[..]), board[..], t)
      ensures old(!board[t].isRevealed && !board[t].isMarked && board[t].isBomb) ==>
                board[..] == Exploded(old(board[..])) && !isRunning && !hasWon
      ensures old(board[t].isRevealed || board[t].isMarked || !board[t].isBomb) ==>
                isRunning == old(isRunning) && hasWon == old(hasWon)
      decreases Hidden(board[..])
    {
      if board[t].isRevealed || board[t].isMarked {
        return;
      }
      ghost var before := board[..];
      board[t] := board[t].(isRevealed := true);
      if board[t].isBomb {
        EndGame(false);
        assert Exploded(before[t := before[t].(isRevealed := true)]) == Exploded(before);
        return;
      }
      ReachSelf(cfg.width, before, t);
      if board[t].bombCount >= 1 {
        WhitePathTheorem(cfg.width, before, board[..], t);
        return;
      }
      var ns := NeighbourTiles(t);
      for m := 0 to |ns|
        invariant ValidBoard() && isRunning == old(isRunning) && hasWon == old(hasWon)
        invariant Grown(before, board[..]) && New(before, board[..], t)
        invariant Sound(cfg.width, before, board[..], t) && Closed(cfg.width, before, board[..], {t})
        invariant forall i :: 0 <= i < m && White(before, ns[i]) ==> New(before, board[..], ns[i])
      {
        assert ns[m] in ns;
        if !board[ns[m]].isBomb && !board[ns[m]].isMarked {
          ghost var mid := board[..];
          assert t in Hidden(before) - Hidden(mid) && Hidden(mid) <= Hidden(before);
          TileReveal(ns[m]);
          if White(mid, ns[m]) {
            NestedReveal(cfg.width, before, mid, board[..], t, ns[m]);
            ReachSelf(cfg.width, mid, ns[m]);
          }
        }
      }
      WhitePathTheorem(cfg.width, before, board[..], t);
    }

    // ----- events -----

    /** The tile whose square holds the pixel. */
    function TileFromPos(px: int, py: int): (r: Option<nat>)
      requires cfg.width > 0
      ensures r.Some? <==> 0 <= px < cfg.width * tileSize && 0 <= py < cfg.height * tileSize
      ensures r.Some? ==> r.value < cfg.width * cfg.height && tileSize > 0
      ensures r.Some? ==> r.value % cfg.width == px / tileSize && r.value / cfg.width == py / tileSize
    {
      if 0 <= px < cfg.width * tileSize && 0 <= py < cfg.height * tileSize then
        PixelInTile(cfg.width, tileSize, px);
        PixelInTile(cfg.height, tileSize, py);
        CellInBoard(cfg.width, cfg.height, px / tileSize, py / tileSize);
        Some(Cell(cfg.width, px / tileSize, py / tileSize))
      else
        None
    }

    method CountUnrevealed() returns (total: nat)
      requires ValidBoard()
      ensures total == |Hidden(board[..])|
    {
      total := 0;
      for i := 0 to cfg.width * cfg.height
        invariant total == |Hidden(board[..i])|
      {
        if !board[i].isRevealed {
          total := total + 1;
          assert Hidden(board[..i + 1]) == Hidden(board[..i]) + {i};
        } else {
          assert Hidden(board[..i + 1]) == Hidden(board[..i]);
        }
      }
      assert board[..cfg.width * cfg.height] == board[..];
    }

    /** A left click on the board area; smiley says whether it fell on the restart button above it. */
    method HandleLmbUp(px: int, py: int, aboveBoard: bool, smiley: bool, random: nat -> nat)
      requires Valid()
      modifies this, board
      ensures Valid() && (board == old(board) || fresh(board))
      // the restart button deals a new, hidden board
      ensures aboveBoard && smiley ==>
        && isRunning && !hasWon && AllHidden(board[..])
        && Bombs(board[..]) == Drawn(cfg.width * cfg.height, cfg.bombCount, random)
      ensures aboveBoard && !smiley ==> Same(old(board[..]), old(isRunning), old(hasWon))
      ensures !aboveBoard && (!old(isRunning) || TileFromPos(px, py).None?) ==>
        Same(old(board[..]), old(isRunning), old(hasWon))
      // a click on a tile of a running game
      ensures !aboveBoard && old(isRunning) && TileFromPos(px, py).Some? ==>
        Clicked(old(board[..]), TileFromPos(px, py).value, old(hasWon))
      // unless it sets off a bomb, the game ends, and is won, exactly when every safe tile shows
      ensures !aboveBoard && old(isRunning) && TileFromPos(px, py).Some? ==>
        var tile := old(board[..])[TileFromPos(px, py).value];
        !tile.isBomb || tile.isMarked ==>
          && (!isRunning <==> forall k :: 0 <= k < board.Length && !board[k].isBomb ==> board[k].isRevealed)
          && (!isRunning ==> hasWon)
    {
      if aboveBoard {
        if smiley {
          BoardCreate(random);
          isRunning := true;
          hasWon := false;
        }
        return;
      }
      if !isRunning {
        return;
      }
      var tile := TileFromPos(px, py);
      if tile.None? {
        return;
      }
      ghost var before := board[..];
      TileReveal(tile.value);
      if White(before, tile.value) {
        FloodIsReveal(cfg.width, before, board[..], tile.value);
      }
      ghost var shown := Opened(cfg.width, before, tile.value);
      assert board[..] == shown;
      OpenedIsSafe(cfg, before, tile.value);
      var total := CountUnrevealed();
      if before[tile.value].isBomb && !before[tile.value].isMarked {
        BombClickWins(cfg, before);
        assert Exploded(shown) == shown;
      } else {
        HiddenCountWins(cfg, shown);
      }
      if total == cfg.bombCount {
        EndGame(true);
        SameBombs(cfg, shown, board[..]);
      }
    }

    ghost predicate Same(b: seq<Tile>, running: bool, won: bool)
      reads this, board
    {
      board[..] == b && isRunning == running && hasWon == won
    }

    /** The effect of a left click on tile t of a running game with board b. */
    ghost predicate Clicked(b: seq<Tile>, t: nat, won: bool)
      requires cfg.width > 0 && t < |b|
      reads this, board
    {
      var shown := Opened(cfg.width, b, t);
      if b[t].isBomb && !b[t].isMarked then
        // the game is over; the win flag follows the exact condition of BombClickWins
        && !isRunning && board[..] == Exploded(b)
        && (hasWon <==> |HiddenSafe(b)| == |UnmarkedBombs(b)|)
      else if AllSafeShown(shown) then
        !isRunning && hasWon && board[..] == Exploded(shown)
      else
        isRunning && hasWon == won && board[..] == shown
    }

    /** A right click toggles the mark of a hidden tile of a running game. */
    method HandleRmbUp(px: int, py: int)
      requires Valid()
      modifies board
      ensures Valid() && isRunning == old(isRunning)
      ensures forall k :: 0 <= k < board.Length ==> board[k] == old(board[k]).(isMarked :=
        (if old(isRunning && TileFromPos(px, py) == Some(k) && !board[k].isRevealed)
         then !old(board[k].isMarked) else old(board[k].isMarked)))
    {
      if !isRunning {
        return;
      }
      var tile := TileFromPos(px, py);
      if tile.None? {
        return;
      }
      var t := tile.value;
      ghost var before := board[..];
      if !board[t].isRevealed {
        board[t] := board[t].(isMarked := !board[t].isMarked);
      }
      SameBombs(cfg, before, board[..]);
    }
  }

  /**
   * A game on a cornered board that is lost and declared won: open every safe tile but the corner, mark
   * every bomb but the first, and click that one. The corner is still hidden, the bomb shows, and the
   * game counts as won.
   */
  method LosingClickWins(g: Game)
    requires g.Valid() && g.isRunning && g.tileSize > 0
    requires Cornered(g.cfg, g.board[..]) && AllHidden(g.board[..])
    modifies g, g.board
    ensures g.Valid() && !g.isRunning && g.hasWon
    ensures |g.board[..]| > 1 && g.board[1].isBomb && g.board[1].isRevealed && !g.board[0].isRevealed
  {
    OpenSafeTiles(g);
    MarkBombs(g);
    var x, y := PixelOf(g, 1);
    ghost var b := g.board[..];
    assert HiddenSafe(b) == {0} && UnmarkedBombs(b) == {1};
    hide Cornered, Counted, Reaches;
    g.HandleLmbUp(x, y, false, false, _ => 0);
  }

  /**
   * Such a game from its beginning, in every configuration with a corner to spare: the engine draws the
   * bombs down to tile 1, the restart button starts the game, and the last click hits a bomb and wins.
   */
  method LosingGame(cfg: Config, tileSize: nat) returns (g: Game)
    requires 2 <= cfg.width && 1 <= cfg.bombCount < cfg.width * cfg.height && tileSize > 0
    ensures fresh(g) && g.Valid() && g.cfg == cfg && !g.isRunning && g.hasWon
    ensures |g.board[..]| > 1 && g.board[1].isBomb && g.board[1].isRevealed && !g.board[0].isRevealed
  {
    var random := Descending(cfg.bombCount);
    g := new Game(cfg, tileSize, random);
    g.HandleLmbUp(0, 0, true, true, random);
    DescendingDraws(cfg.width * cfg.height, cfg.bombCount, cfg.bombCount);
    ghost var b := g.board[..];
    assert forall k :: 0 <= k < |b| ==> (b[k].isBomb <==> k in Bombs(b));
    LosingClickWins(g);
  }

  method OpenSafeTiles(g: Game)
    requires OnCourse(g, 0, 2) && g.tileSize > 0
    modifies g, g.board
    ensures g.board == old(g.board) || fresh(g.board)
    ensures OnCourse(g, g.board.Length, 2)
  {
    for t := g.cfg.bombCount + 1 to g.cfg.width * g.cfg.height
      invariant g.board == old(g.board) || fresh(g.board)
      invariant OnCourse(g, t, 2)
    {
      OpenTile(g, t);
    }
  }

  method OpenTile(g: Game, t: nat)
    requires OnCourse(g, t, 2) && g.tileSize > 0 && g.cfg.bombCount < t < g.board.Length
    modifies g, g.board
    ensures g.board == old(g.board) || fresh(g.board)
    ensures OnCourse(g, t + 1, 2)
  {
    var x, y := PixelOf(g, t);
    ghost var b := g.board[..];
    OpensTile(g.cfg, b, t);
    assert !b[t].isBomb;
    hide Cornered, Counted, Reaches, Opened;
    g.HandleLmbUp(x, y, false, false, _ => 0);
    assert g.board[..] == Opened(g.cfg.width, b, t);
  }

  method MarkBombs(g: Game)
    requires OnCourse(g, g.board.Length, 2) && g.tileSize > 0
    modifies g, g.board
    ensures g.board == old(g.board) || fresh(g.board)
    ensures OnCourse(g, g.board.Length, g.cfg.bombCount + 1)
  {
    for t := 2 to g.cfg.bombCount + 1
      invariant g.board == old(g.board)
      invariant OnCourse(g, g.board.Length, t)
    {
      var x, y := PixelOf(g, t);
      g.HandleRmbUp(x, y);
    }
  }

  /** All safe tiles up to shown are open but the corner, and of the bombs those up to marked are marked. */
  ghost predicate OnCourse(g: Game, shown: nat, marked: nat)
    reads g, g.board
  {
    && g.Valid() && g.isRunning && Cornered(g.cfg, g.board[..]) && !g.board[0].isRevealed
    && (forall k :: 0 <= k < g.board.Length ==> (g.board[k].isMarked <==> 2 <= k < marked && g.board[k].isBomb))
    && (forall k :: 0 <= k < g.board.Length && g.cfg.bombCount < k < shown ==> g.board[k].isRevealed)
  }

  /** Opening a safe tile of a cornered board shows it, leaves the corner hidden, and changes nothing else. */
  lemma OpensTile(cfg: Config, b: seq<Tile>, t: nat)
    requires Cornered(cfg, b) && cfg.bombCount < t < |b| && !b[t].isMarked && !b[0].isRevealed
    ensures var c := Opened(cfg.width, b, t);
      && Cornered(cfg, c) && c[t].isRevealed && !c[0].isRevealed && !AllSafeShown(c)
      && forall k :: 0 <= k < |b| ==> c[k].isMarked == b[k].isMarked && (b[k].isRevealed ==> c[k].isRevealed)
  {
    OpenedIsSafe(cfg, b, t);
    CornerStaysHidden(cfg, b, t);
    if White(b, t) {
      ReachSelf(cfg.width, b, t);
    }
  }

  /** The upper left pixel of a tile. */
  method PixelOf(g: Game, t: nat) returns (x: nat, y: nat)
    requires g.ValidBoard() && g.tileSize > 0 && t < g.board.Length
    ensures g.TileFromPos(x, y) == Some(t)
  {
    var w := g.cfg.width;
    RowInBoard(w, g.cfg.height, t);
    PixelBack(w, g.tileSize, t % w);
    PixelBack(g.cfg.height, g.tileSize, t / w);
    x, y := FirstPixel(t % w, g.tileSize), FirstPixel(t / w, g.tileSize);
    CellInverse(w, t);
    CellInverse(w, g.TileFromPos(x, y).value);
  }

  function FirstPixel(q: nat, size: nat): nat {
    q * size
  }

  lemma PixelBack(count: nat, size: nat, q: nat)
    requires q < count && size > 0
    ensures FirstPixel(q, size) < count * size && FirstPixel(q, size) / size == q
  {
    hide FirstPixel;
    PixelBelow(count, size, q);
    PixelDivides(size, q);
  }

  lemma PixelBelow(count: nat, size: nat, q: nat)
    requires q < count && size > 0
    ensures FirstPixel(q, size) < count * size
  {
    MulMonotone(q + 1, count, size);
    assert size * (q + 1) == size * q + size;
  }

  lemma PixelDivides(size: nat, q: nat)
    requires size > 0
    ensures FirstPixel(q, size) / size == q
  {
    DivModUnique(size, q, 0);
    assert size * q + 0 == FirstPixel(q, size);
  }
}
