/** The Minesweeper board as a value: tiles, adjacency, bomb counts, and what a reveal means. */
module MinesweeperBoard {
  import opened Arithmetic

  datatype Tile = Tile(x: nat, y: nat, bombCount: nat, isBomb: bool, isMarked: bool, isRevealed: bool)

  datatype Config = Config(width: nat, height: nat, bombCount: nat) {
    ghost predicate Valid() {
      width > 0 && bombCount <= width * height
    }
  }

  function Cell(width: nat, x: nat, y: nat): nat {
    x + width * y
  }

  lemma CellInverse(width: nat, k: nat)
    requires width > 0
    ensures Cell(width, k % width, k / width) == k
  {
  }

  lemma CellInBoard(width: nat, height: nat, x: nat, y: nat)
    requires x < width && y < height
    ensures Cell(width, x, y) < width * height
    ensures Cell(width, x, y) % width == x && Cell(width, x, y) / width == y
  {
    DivModUnique(width, y, x);
    MulMonotone(y + 1, height, width);
  }

  lemma RowInBoard(width: nat, height: nat, k: nat)
    requires width > 0 && k < width * height
    ensures k / width < height
  {
    if height <= k / width {
      MulMonotone(height, k / width, width);
      assert false;
    }
  }

  /** The tiles a column-by-column walk has passed when it stands before column x, row y. */
  ghost function Visited(width: nat, height: nat, x: nat, y: nat): set<nat>
    requires width > 0
  {
    set k: nat | k < width * height && (k % width < x || (k % width == x && k / width < y))
  }

  lemma VisitNext(width: nat, height: nat, x: nat, y: nat)
    requires x < width && y < height
    ensures Cell(width, x, y) < width * height && Cell(width, x, y) !in Visited(width, height, x, y)
    ensures Visited(width, height, x, y + 1) == Visited(width, height, x, y) + {Cell(width, x, y)}
  {
    CellInBoard(width, height, x, y);
    forall k: nat | k % width == x && k / width == y ensures k == Cell(width, x, y) {
      CellInverse(width, k);
    }
  }

  lemma VisitColumn(width: nat, height: nat, x: nat)
    requires width > 0
    ensures Visited(width, height, x, height) == Visited(width, height, x + 1, 0)
  {
    forall k: nat | k < width * height ensures k / width < height {
      RowInBoard(width, height, k);
    }
  }

  lemma VisitAll(width: nat, height: nat)
    requires width > 0
    ensures forall k: nat :: k in Visited(width, height, width, 0) <==> k < width * height
    ensures Visited(width, height, 0, 0) == {}
  {
  }

  predicate Near(a: int, b: int) {
    -1 <= a - b <= 1
  }

  /** Tiles a and b share an edge or a corner. */
  predicate Adjacent(width: nat, a: nat, b: nat)
    requires width > 0
  {
    a != b && Near(a % width, b % width) && Near(a / width, b / width)
  }

  /** The neighbours of t that come before column x, row y. */
  ghost function Around(width: nat, height: nat, t: nat, x: int, y: int): set<nat>
    requires width > 0
  {
    set k: nat | k < width * height && Adjacent(width, t, k) &&
                 (k % width < x || (k % width == x && k / width < y))
  }

  lemma AroundEnds(width: nat, height: nat, t: nat)
    requires width > 0
    ensures Around(width, height, t, t % width - 1, t / width - 1) == {}
    ensures forall k: nat :: k in Around(width, height, t, t % width + 2, t / width - 1) <==>
                             (k < width * height && Adjacent(width, t, k))
  {
  }

  lemma AroundNext(width: nat, height: nat, t: nat, x: nat, y: nat)
    requires x < width && y < height && Near(x, t % width) && Near(y, t / width)
    requires !(x == t % width && y == t / width)
    ensures Cell(width, x, y) !in Around(width, height, t, x, y)
    ensures Around(width, height, t, x, y + 1) == Around(width, height, t, x, y) + {Cell(width, x, y)}
  {
    CellInverse(width, t);
    CellInBoard(width, height, x, y);
    forall k: nat | k % width == x && k / width == y ensures k == Cell(width, x, y) {
      CellInverse(width, k);
    }
  }

  lemma AroundSkip(width: nat, height: nat, t: nat, x: int, y: int)
    requires width > 0
    requires !(0 <= x < width && 0 <= y < height) || (x == t % width && y == t / width)
    ensures Around(width, height, t, x, y + 1) == Around(width, height, t, x, y)
  {
    forall k: nat | k < width * height && k % width == x && k / width == y
      ensures 0 <= x < width && 0 <= y < height && k == Cell(width, x, y)
    {
      RowInBoard(width, height, k);
      CellInverse(width, k);
    }
    CellInverse(width, t);
  }

  lemma AroundColumn(width: nat, height: nat, t: nat, x: int)
    requires width > 0
    ensures Around(width, height, t, x, t / width + 2) == Around(width, height, t, x + 1, t / width - 1)
  {
  }

  /** ns lists the elements of s, each once. */
  ghost predicate Enumerates(ns: seq<nat>, s: set<nat>) {
    && (forall k: nat :: k in ns <==> k in s)
    && (forall m, n :: 0 <= m < n < |ns| ==> ns[m] != ns[n])
  }

  lemma EnumeratesAdd(ns: seq<nat>, s: set<nat>, k: nat)
    requires Enumerates(ns, s) && k !in s
    ensures Enumerates(ns + [k], s + {k})
  {
  }

  ghost function BombsAmong(b: seq<Tile>, ns: seq<nat>): set<nat> {
    set k | k in ns && k < |b| && b[k].isBomb
  }

  lemma BombsAmongNext(b: seq<Tile>, ns: seq<nat>, m: nat)
    requires m < |ns| && ns[m] < |b| && forall i, j :: 0 <= i < j < |ns| ==> ns[i] != ns[j]
    ensures |BombsAmong(b, ns[..m + 1])| == |BombsAmong(b, ns[..m])| + if b[ns[m]].isBomb then 1 else 0
  {
    assert ns[..m + 1] == ns[..m] + [ns[m]];
    if b[ns[m]].isBomb {
      assert BombsAmong(b, ns[..m + 1]) == BombsAmong(b, ns[..m]) + {ns[m]};
    } else {
      assert BombsAmong(b, ns[..m + 1]) == BombsAmong(b, ns[..m]);
    }
  }

  /** The tiles carry their own coordinates and fill the board exactly. */
  ghost predicate Shaped(cfg: Config, b: seq<Tile>) {
    && cfg.Valid()
    && |b| == cfg.width * cfg.height
    && forall k :: 0 <= k < |b| ==> b[k].x == k % cfg.width && b[k].y == k / cfg.width
  }

  function Bombs(b: seq<Tile>): set<nat> {
    set k | 0 <= k < |b| && b[k].isBomb
  }

  function BombsNear(width: nat, b: seq<Tile>, t: nat): set<nat>
    requires width > 0
  {
    set k | 0 <= k < |b| && Adjacent(width, t, k) && b[k].isBomb
  }

  /** A finished board: as many bombs as configured, and every safe tile knows its bomb neighbours. */
  ghost predicate Counted(cfg: Config, b: seq<Tile>) {
    && Shaped(cfg, b)
    && |Bombs(b)| == cfg.bombCount
    && forall k :: 0 <= k < |b| && !b[k].isBomb ==> b[k].bombCount == |BombsNear(cfg.width, b, k)|
  }

  /** Counting the bombs around every safe tile finishes a board. */
  lemma CountedBoard(cfg: Config, was: seq<Tile>, now: seq<Tile>)
    requires Shaped(cfg, was) && |Bombs(was)| == cfg.bombCount && |now| == |was|
    requires forall k :: 0 <= k < |was| ==>
      now[k] == if was[k].isBomb then was[k] else was[k].(bombCount := |BombsNear(cfg.width, was, k)|)
    ensures Counted(cfg, now) && Bombs(now) == Bombs(was)
  {
    hide Bombs, BombsNear;
    SameBombSet(was, now);
    forall k: nat | k < |now| && !now[k].isBomb ensures now[k].bombCount == |BombsNear(cfg.width, now, k)| {
      SameNear(cfg.width, was, now, k);
    }
  }

  lemma SameBombSet(b: seq<Tile>, c: seq<Tile>)
    requires |b| == |c| && forall i :: 0 <= i < |b| ==> b[i].isBomb == c[i].isBomb
    ensures Bombs(b) == Bombs(c)
  {
  }

  function Hidden(b: seq<Tile>): set<nat> {
    set k | 0 <= k < |b| && !b[k].isRevealed
  }

  function Exposed(t: Tile): Tile {
    if t.isBomb && !t.isMarked then t.(isRevealed := true) else t
  }

  /** The board after a bomb went off: every unmarked bomb shows. */
  function Exploded(b: seq<Tile>): seq<Tile> {
    seq(|b|, k requires 0 <= k < |b| => Exposed(b[k]))
  }

  // ----- white paths -----

  predicate White(b: seq<Tile>, t: nat) {
    t < |b| && !b[t].isBomb && !b[t].isMarked && !b[t].isRevealed
  }

  /** One step of the flood: from a tile without bomb neighbours to an adjacent white tile. */
  predicate Spreads(width: nat, b: seq<Tile>, s: nat, t: nat)
    requires width > 0
  {
    White(b, s) && White(b, t) && b[s].bombCount < 1 && Adjacent(width, s, t)
  }

  ghost predicate WhitePath(width: nat, b: seq<Tile>, p: seq<nat>)
    requires width > 0
  {
    |p| > 0 && White(b, p[0]) && forall i :: 0 < i < |p| ==> Spreads(width, b, p[i - 1], p[i])
  }

  ghost predicate Reaches(width: nat, b: seq<Tile>, s: nat, t: nat)
    requires width > 0
  {
    exists p :: WhitePath(width, b, p) && p[0] == s && p[|p| - 1] == t
  }

  /** after is before with some more tiles revealed and nothing else changed. */
  ghost predicate Grown(before: seq<Tile>, after: seq<Tile>) {
    && |after| == |before|
    && forall k :: 0 <= k < |before| ==>
         after[k] == before[k].(isRevealed := after[k].isRevealed) && (before[k].isRevealed ==> after[k].isRevealed)
  }

  predicate New(before: seq<Tile>, after: seq<Tile>, k: nat) {
    k < |before| && k < |after| && after[k].isRevealed && !before[k].isRevealed
  }

  /** after reveals exactly the tiles white-reachable from t in before. */
  ghost predicate RevealedFrom(width: nat, before: seq<Tile>, after: seq<Tile>, t: nat)
    requires width > 0
  {
    && Grown(before, after)
    && forall k :: 0 <= k < |before| ==> (New(before, after, k) <==> Reaches(width, before, t, k))
  }

  // ----- the white-path theorem, as the recursion needs it -----

  /** Every new tile is reachable. */
  ghost predicate Sound(width: nat, before: seq<Tile>, after: seq<Tile>, t: nat)
    requires width > 0
  {
    forall k: nat :: New(before, after, k) ==> Reaches(width, before, t, k)
  }

  /** New tiles other than those still pending have spread as far as they can. */
  ghost predicate Closed(width: nat, before: seq<Tile>, after: seq<Tile>, pending: set<nat>)
    requires width > 0
  {
    forall s: nat, k: nat ::
      New(before, after, s) && s !in pending && Spreads(width, before, s, k) ==> New(before, after, k)
  }

  lemma ReachSelf(width: nat, b: seq<Tile>, t: nat)
    requires width > 0 && White(b, t)
    ensures Reaches(width, b, t, t)
  {
    assert WhitePath(width, b, [t]);
  }

  lemma ReachExtend(width: nat, b: seq<Tile>, t: nat, s: nat, k: nat)
    requires width > 0 && Reaches(width, b, t, s) && Spreads(width, b, s, k)
    ensures Reaches(width, b, t, k)
  {
    var p :| WhitePath(width, b, p) && p[0] == t && p[|p| - 1] == s;
    var q := p + [k];
    assert q[|q| - 1] == k;
  }

  /** A path found later, when more is revealed, was already a path; and it can be prefixed. */
  lemma ReachPrefix(width: nat, before: seq<Tile>, later: seq<Tile>, t: nat, s: nat, k: nat)
    requires width > 0 && Grown(before, later)
    requires Spreads(width, before, t, s) && Reaches(width, later, s, k)
    ensures Reaches(width, before, t, k)
  {
    var p :| WhitePath(width, later, p) && p[0] == s && p[|p| - 1] == k;
    forall i | 0 < i < |p| ensures Spreads(width, before, p[i - 1], p[i]) {
      assert Spreads(width, later, p[i - 1], p[i]);
    }
    var q := [t] + p;
    assert forall i :: 0 < i < |q| ==> Spreads(width, before, q[i - 1], q[i]);
    assert q[|q| - 1] == k;
  }

  lemma {:induction false} ClosedPath(width: nat, before: seq<Tile>, after: seq<Tile>, p: seq<nat>)
    requires width > 0 && Closed(width, before, after, {})
    requires WhitePath(width, before, p) && New(before, after, p[0])
    ensures New(before, after, p[|p| - 1])
    decreases |p|
  {
    if |p| > 1 {
      var q := p[..|p| - 1];
      ClosedPath(width, before, after, q);
      assert Spreads(width, before, p[|p| - 2], p[|p| - 1]);
    }
  }

  /** Sound and closed sets of new tiles are exactly the reachable ones. */
  lemma WhitePathTheorem(width: nat, before: seq<Tile>, after: seq<Tile>, t: nat)
    requires width > 0 && Grown(before, after) && New(before, after, t)
    requires Sound(width, before, after, t) && Closed(width, before, after, {})
    ensures RevealedFrom(width, before, after, t)
  {
    forall k | 0 <= k < |before| && Reaches(width, before, t, k) ensures New(before, after, k) {
      var p :| WhitePath(width, before, p) && p[0] == t && p[|p| - 1] == k;
      ClosedPath(width, before, after, p);
    }
  }

  /** One callback of the neighbour loop: the nested reveal keeps the loop's invariant. */
  lemma {:induction false} NestedReveal(width: nat, before: seq<Tile>, mid: seq<Tile>, after: seq<Tile>, t: nat, s: nat)
    requires width > 0 && Grown(before, mid) && RevealedFrom(width, mid, after, s)
    requires Spreads(width, before, t, s)
    requires Sound(width, before, mid, t) && Closed(width, before, mid, {t})
    ensures Grown(before, after) && Sound(width, before, after, t) && Closed(width, before, after, {t})
  {
    forall k: nat | New(before, after, k) ensures Reaches(width, before, t, k) {
      if !New(before, mid, k) {
        assert New(mid, after, k);
        ReachPrefix(width, before, mid, t, s, k);
      }
    }
    forall a: nat, k: nat | New(before, after, a) && a != t && Spreads(width, before, a, k)
      ensures New(before, after, k)
    {
      if New(before, mid, a) {
        assert New(before, mid, k);
      } else if !mid[k].isRevealed {
        assert Spreads(width, mid, a, k);
        ReachExtend(width, mid, s, a, k);
      }
    }
  }

  lemma ReachesWhite(width: nat, b: seq<Tile>, s: nat, t: nat)
    requires width > 0 && Reaches(width, b, s, t)
    ensures White(b, t)
  {
    var p :| WhitePath(width, b, p) && p[0] == s && p[|p| - 1] == t;
    assert |p| > 1 ==> Spreads(width, b, p[|p| - 2], p[|p| - 1]);
  }

  lemma RevealsNoBomb(width: nat, before: seq<Tile>, after: seq<Tile>, t: nat)
    requires width > 0 && RevealedFrom(width, before, after, t)
    ensures forall k: nat :: New(before, after, k) ==> !before[k].isBomb && !before[k].isMarked
  {
    forall k: nat | New(before, after, k) ensures White(before, k) {
      ReachesWhite(width, before, t, k);
    }
  }

  // ----- what a click does, and when it wins -----

  /** The board with every tile white-reachable from t revealed. */
  ghost function Flood(width: nat, b: seq<Tile>, t: nat): seq<Tile>
    requires width > 0
  {
    seq(|b|, k requires 0 <= k < |b| => b[k].(isRevealed := b[k].isRevealed || Reaches(width, b, t, k)))
  }

  lemma FloodIsReveal(width: nat, before: seq<Tile>, after: seq<Tile>, t: nat)
    requires width > 0 && RevealedFrom(width, before, after, t)
    ensures after == Flood(width, before, t)
  {
    forall k | 0 <= k < |before| ensures after[k] == Flood(width, before, t)[k] {
      assert New(before, after, k) <==> Reaches(width, before, t, k);
      if Reaches(width, before, t, k) {
        ReachesWhite(width, before, t, k);
      }
    }
  }

  ghost function Opened(width: nat, b: seq<Tile>, t: nat): seq<Tile>
    requires width > 0 && t < |b|
  {
    if b[t].isRevealed || b[t].isMarked then b
    else if b[t].isBomb then Exploded(b)
    else Flood(width, b, t)
  }

  ghost predicate NoBombShown(b: seq<Tile>) {
    forall k :: 0 <= k < |b| && b[k].isBomb ==> !b[k].isRevealed
  }

  ghost predicate AllHidden(b: seq<Tile>) {
    forall k :: 0 <= k < |b| ==> !b[k].isRevealed && !b[k].isMarked
  }

  ghost predicate AllSafeShown(b: seq<Tile>) {
    forall k :: 0 <= k < |b| && !b[k].isBomb ==> b[k].isRevealed
  }

  function HiddenSafe(b: seq<Tile>): set<nat> {
    set k | 0 <= k < |b| && !b[k].isBomb && !b[k].isRevealed
  }

  function UnmarkedBombs(b: seq<Tile>): set<nat> {
    set k | 0 <= k < |b| && b[k].isBomb && !b[k].isMarked
  }

  /** While no bomb shows, counting the hidden tiles tells exactly whether all safe tiles are shown. */
  lemma HiddenCountWins(cfg: Config, b: seq<Tile>)
    requires Counted(cfg, b) && NoBombShown(b)
    ensures |Hidden(b)| == cfg.bombCount <==> AllSafeShown(b)
  {
    assert Hidden(b) == Bombs(b) + HiddenSafe(b) && Bombs(b) !! HiddenSafe(b);
    if HiddenSafe(b) == {} {
      forall k | 0 <= k < |b| && !b[k].isBomb ensures b[k].isRevealed {
        assert k !in HiddenSafe(b);
      }
    } else {
      var k :| k in HiddenSafe(b);
      assert !b[k].isBomb && !b[k].isRevealed;
    }
  }

  /**
   * After a bomb went off the same count is compared again. It declares a win exactly when as many
   * safe tiles are still hidden as there are unmarked bombs.
   */
  lemma BombClickWins(cfg: Config, b: seq<Tile>)
    requires Counted(cfg, b) && NoBombShown(b)
    ensures |Hidden(Exploded(b))| == cfg.bombCount <==> |HiddenSafe(b)| == |UnmarkedBombs(b)|
  {
    var after := Hidden(Exploded(b));
    var marked := Bombs(b) - UnmarkedBombs(b);
    assert after == HiddenSafe(b) + marked && HiddenSafe(b) !! marked;
    assert Bombs(b) == marked + UnmarkedBombs(b) && marked !! UnmarkedBombs(b);
  }

  // ----- the draw -----

  /** The cells listed after d draws from n: each draw fills its gap with the last of those left. */
  function Remaining(n: nat, d: nat, random: nat -> nat): (cells: seq<nat>)
    requires d <= n
    ensures |cells| == n
  {
    if d == 0 then seq(n, k requires 0 <= k < n => k)
    else
      var cells := Remaining(n, d - 1, random);
      cells[random(d - 1) % (n - (d - 1)) := cells[n - d]]
  }

  /** The cells of the first d draws. */
  function Drawn(n: nat, d: nat, random: nat -> nat): set<nat>
    requires d <= n
  {
    if d == 0 then {}
    else Drawn(n, d - 1, random) + {Remaining(n, d - 1, random)[random(d - 1) % (n - (d - 1))]}
  }

  /** An engine that returns count, count - 1, and so on down. */
  function Descending(count: nat): nat -> nat {
    d => if d < count then count - d else 0
  }

  /** Its draws take cells count, count - 1, and so on, which no earlier draw has moved. */
  lemma {:induction false} DescendingDraws(n: nat, count: nat, d: nat)
    requires d <= count < n
    ensures forall k :: 0 <= k <= count - d ==> Remaining(n, d, Descending(count))[k] == k
    ensures forall k: nat :: k in Drawn(n, d, Descending(count)) <==> count - d < k <= count
  {
    if d > 0 {
      DescendingDraws(n, count, d - 1);
      assert Descending(count)(d - 1) % (n - (d - 1)) == count - (d - 1);
    }
  }

  // ----- a game that is lost and declared won -----

  /** The corner tile 0 is safe and the next bombCount tiles are the bombs. */
  ghost predicate Cornered(cfg: Config, b: seq<Tile>) {
    && Counted(cfg, b) && 2 <= cfg.width && 1 <= cfg.bombCount < |b|
    && forall k :: 0 <= k < |b| ==> (b[k].isBomb <==> 1 <= k <= cfg.bombCount)
  }

  /** Such a board exists in every configuration with a bomb and a safe tile; the game has three of them. */
  lemma CorneredExists(cfg: Config)
    requires 2 <= cfg.width && 1 <= cfg.bombCount < cfg.width * cfg.height
    ensures exists b :: Cornered(cfg, b) && AllHidden(b)
  {
    hide BombsNear, CornerBoard, BareBoard, Adjacent;
    var b := CornerBoard(cfg);
    forall k: nat | k < |b| && !b[k].isBomb ensures b[k].bombCount == |BombsNear(cfg.width, b, k)| {
      SameNear(cfg.width, BareBoard(cfg), b, k);
    }
    assert Bombs(b) == UpTo(cfg.bombCount);
    assert Shaped(cfg, b) && AllHidden(b);
  }

  /** The bombs of a cornered board, without the counts. */
  function BareBoard(cfg: Config): (b: seq<Tile>)
    requires cfg.width > 0
    ensures |b| == cfg.width * cfg.height
    ensures forall k :: 0 <= k < |b| ==>
      b[k] == Tile(k % cfg.width, k / cfg.width, 0, 1 <= k <= cfg.bombCount, false, false)
  {
    seq(cfg.width * cfg.height, k requires 0 <= k < cfg.width * cfg.height =>
      Tile(k % cfg.width, k / cfg.width, 0, 1 <= k <= cfg.bombCount, false, false))
  }

  function CornerBoard(cfg: Config): (b: seq<Tile>)
    requires cfg.width > 0
    ensures |b| == cfg.width * cfg.height
    ensures forall k :: 0 <= k < |b| ==>
      b[k] == BareBoard(cfg)[k].(bombCount := |BombsNear(cfg.width, BareBoard(cfg), k)|)
  {
    var bare := BareBoard(cfg);
    seq(|bare|, k requires 0 <= k < |bare| => bare[k].(bombCount := |BombsNear(cfg.width, bare, k)|))
  }

  lemma SameNear(width: nat, b: seq<Tile>, c: seq<Tile>, k: nat)
    requires width > 0 && |b| == |c| && forall i :: 0 <= i < |b| ==> b[i].isBomb == c[i].isBomb
    ensures BombsNear(width, b, k) == BombsNear(width, c, k)
  {
  }

  function UpTo(count: nat): (s: set<nat>)
    ensures |s| == count && forall k: nat :: k in s <==> 1 <= k <= count
  {
    if count == 0 then {} else UpTo(count - 1) + {count}
  }

  /** The game's own configurations. */
  lemma ShippedConfigs(cfg: Config)
    requires cfg in {Config(9, 9, 10), Config(16, 16, 40), Config(30, 16, 99)}
    ensures exists b :: Cornered(cfg, b) && AllHidden(b)
  {
    CorneredExists(cfg);
  }

  /** Every tile next to the corner is next to the first bomb, so no flood from elsewhere reaches the corner. */
  lemma CornerStaysHidden(cfg: Config, b: seq<Tile>, t: nat)
    requires Cornered(cfg, b) && 0 < t < |b|
    ensures !Reaches(cfg.width, b, t, 0)
  {
    if Reaches(cfg.width, b, t, 0) {
      var p :| WhitePath(cfg.width, b, p) && p[0] == t && p[|p| - 1] == 0;
      LastStep(cfg.width, b, p);
      NextToCorner(cfg, b, p[|p| - 2]);
    }
  }

  lemma LastStep(width: nat, b: seq<Tile>, p: seq<nat>)
    requires width > 0 && WhitePath(width, b, p) && |p| > 1
    ensures Spreads(width, b, p[|p| - 2], p[|p| - 1])
  {
  }

  lemma NextToCorner(cfg: Config, b: seq<Tile>, s: nat)
    requires Cornered(cfg, b) && s < |b| && !b[s].isBomb
    ensures Adjacent(cfg.width, s, 0) ==> b[s].bombCount >= 1
  {
    hide Adjacent;
    if Adjacent(cfg.width, s, 0) {
      CornerNeighbours(cfg.width, s);
      assert 1 in BombsNear(cfg.width, b, s);
    }
  }

  lemma CornerNeighbours(width: nat, s: nat)
    requires 2 <= width && Adjacent(width, s, 0) && s != 1
    ensures Adjacent(width, s, 1)
  {
    assert 1 % width == 1 && 1 / width == 0;
  }

  lemma SameBombs(cfg: Config, b: seq<Tile>, c: seq<Tile>)
    requires Counted(cfg, b) && |c| == |b|
    requires forall k :: 0 <= k < |b| ==>
      c[k].x == b[k].x && c[k].y == b[k].y && c[k].isBomb == b[k].isBomb && c[k].bombCount == b[k].bombCount
    ensures Counted(cfg, c)
  {
    assert Bombs(c) == Bombs(b);
    forall k: nat | k < |b| ensures BombsNear(cfg.width, c, k) == BombsNear(cfg.width, b, k) {
    }
  }

  /** A click on anything but an unmarked hidden bomb shows no bomb. */
  lemma OpenedIsSafe(cfg: Config, b: seq<Tile>, t: nat)
    requires Counted(cfg, b) && t < |b|
    ensures Counted(cfg, Opened(cfg.width, b, t))
    ensures NoBombShown(b) && !(b[t].isBomb && !b[t].isMarked) ==> NoBombShown(Opened(cfg.width, b, t))
  {
    var c := Opened(cfg.width, b, t);
    SameBombs(cfg, b, c);
    if NoBombShown(b) && !b[t].isBomb && !b[t].isMarked && !b[t].isRevealed {
      forall k | 0 <= k < |c| && c[k].isBomb ensures !c[k].isRevealed {
        if Reaches(cfg.width, b, t, k) {
          ReachesWhite(cfg.width, b, t, k);
        }
      }
    }
  }
}
