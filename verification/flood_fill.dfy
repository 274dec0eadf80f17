/**
 * fillTileAreaAt from src/index.js: a scan-line bucket fill. A queue of seed
 * cells is worked off; each seed not yet filled has its whole row run
 * scanned, cells above and below the run are queued under the "new span"
 * rule, and the run is painted with the fill pattern tiled from the start
 * cell.
 *
 * The reachability reasoning is done over an abstract set M of target
 * cells; Targets(area, t) is the set the fill actually uses.
 */
module FloodFill {
  import opened Wrappers
  import opened Bounds
  import opened Areas

  /** A position (x, y). */
  type Cell = (int, int)

  /** The cells of the area holding tile t (equal tile id and tileset id). */
  ghost function Targets(area: Area, t: TileData): (m: set<Cell>)
    requires Valid(area)
  {
    set cx, cy | 0 <= cx < area.width && 0 <= cy < area.height && At(area, cx, cy) == t :: (cx, cy)
  }

  /** Membership in Targets spelled out. */
  lemma InTargets(area: Area, t: TileData, c: Cell)
    requires Valid(area)
    ensures c in Targets(area, t) <==> InGrid(area.width, area.height, c.0, c.1) && At(area, c.0, c.1) == t
  {
  }

  ghost predicate Adjacent(a: Cell, b: Cell)
  {
    (a.0 == b.0 && (a.1 == b.1 + 1 || a.1 + 1 == b.1)) ||
    (a.1 == b.1 && (a.0 == b.0 + 1 || a.0 + 1 == b.0))
  }

  /** p steps from cell to 4-neighbouring cell, staying inside M. */
  ghost predicate IsPath(M: set<Cell>, p: seq<Cell>)
  {
    |p| > 0 &&
    (forall k :: 0 <= k < |p| ==> p[k] in M) &&
    (forall k :: 0 <= k < |p| - 1 ==> Adjacent(p[k], p[k + 1]))
  }

  /** c is reachable from root through M. */
  ghost predicate Connected(M: set<Cell>, root: Cell, c: Cell)
  {
    exists p :: IsPath(M, p) && p[0] == root && p[|p| - 1] == c
  }

  /** a and b lie on one row and every cell between them is in M. */
  ghost predicate SameRun(M: set<Cell>, a: Cell, b: Cell)
  {
    a.1 == b.1 &&
    forall cx :: (a.0 <= cx <= b.0 || b.0 <= cx <= a.0) ==> (cx, a.1) in M
  }

  /** The row neighbours of c that are in M are filled too. */
  ghost predicate RowClosed(M: set<Cell>, applied: set<Cell>, c: Cell)
  {
    ((c.0 + 1, c.1) in M ==> (c.0 + 1, c.1) in applied) &&
    ((c.0 - 1, c.1) in M ==> (c.0 - 1, c.1) in applied)
  }

  /** Neighbour n is filled already or a queued seed lies on its run. */
  ghost predicate Covered(M: set<Cell>, seeds: seq<Cell>, applied: set<Cell>, n: Cell)
  {
    n in applied || exists s :: s in seeds && SameRun(M, s, n)
  }

  /** What the fill keeps true of every filled cell c. */
  ghost predicate Settled(M: set<Cell>, seeds: seq<Cell>, applied: set<Cell>, c: Cell)
  {
    RowClosed(M, applied, c) &&
    ((c.0, c.1 + 1) in M ==> Covered(M, seeds, applied, (c.0, c.1 + 1))) &&
    ((c.0, c.1 - 1) in M ==> Covered(M, seeds, applied, (c.0, c.1 - 1)))
  }

  /**
   * What testSeed(c, dy) leaves behind: the neighbour of c in direction dy,
   * when in M, has a seed on its run, or else c's left neighbour and the
   * cell diagonal to c are both in M, so that neighbour shares a run with
   * the cell left of it.
   */
  ghost predicate Pending(M: set<Cell>, seeds: seq<Cell>, c: Cell, dy: int)
  {
    (c.0, c.1 + dy) in M ==>
      (exists s :: s in seeds && SameRun(M, s, (c.0, c.1 + dy))) ||
      (c.0 > 0 && (c.0 - 1, c.1) in M && (c.0 - 1, c.1 + dy) in M)
  }

  /** Every cell of the area shows the pattern where filled and the original tile elsewhere. */
  ghost predicate Painted(area: Area, fillArea: Area, x: int, y: int, tiles: seq<TileData>, applied: set<Cell>)
    requires Valid(area) && Valid(fillArea) && fillArea.width > 0 && fillArea.height > 0
  {
    |tiles| == |area.tiles| &&
    forall cx, cy :: InGrid(area.width, area.height, cx, cy) ==>
      At(Area(area.width, area.height, tiles), cx, cy) ==
        if (cx, cy) in applied then GetTilingTileData(fillArea, x, y, cx, cy) else At(area, cx, cy)
  }

  ghost function GridCells(width: int, height: int): set<Cell>
  {
    set cx, cy | 0 <= cx < width && 0 <= cy < height :: (cx, cy)
  }

  ghost function RunCells(lx: int, rx: int, y: int): set<Cell>
  {
    set cx | lx <= cx < rx :: (cx, y)
  }

  // ---------------------------------------------------------------------
  // Reachability

  lemma ConnectedRoot(M: set<Cell>, root: Cell)
    requires root in M
    ensures Connected(M, root, root)
  {
    assert IsPath(M, [root]);
  }

  lemma ConnectedStep(M: set<Cell>, root: Cell, c: Cell, n: Cell)
    requires Connected(M, root, c) && Adjacent(c, n) && n in M
    ensures Connected(M, root, n)
  {
    var p :| IsPath(M, p) && p[0] == root && p[|p| - 1] == c;
    var q := p + [n];
    forall k | 0 <= k < |q| - 1
      ensures Adjacent(q[k], q[k + 1])
    {
      if k < |p| - 1 {
        assert q[k] == p[k] && q[k + 1] == p[k + 1];
      }
    }
    assert IsPath(M, q);
  }

  /** Only target cells are reachable: the fill never replaces a cell holding another tile. */
  lemma ConnectedInTargets(M: set<Cell>, root: Cell, c: Cell)
    requires Connected(M, root, c)
    ensures c in M
  {
    var p :| IsPath(M, p) && p[0] == root && p[|p| - 1] == c;
    assert p[|p| - 1] in M;
  }

  /** Every path from root ends inside a set that holds root and is closed under stepping through M. */
  lemma {:induction false} ClosedHoldsPath(M: set<Cell>, root: Cell, F: set<Cell>, p: seq<Cell>)
    requires root in F
    requires forall c {:trigger Settled(M, [], F, c)} :: c in F ==> Settled(M, [], F, c)
    requires IsPath(M, p) && p[0] == root
    ensures p[|p| - 1] in F
  {
    if |p| > 1 {
      var q := p[..|p| - 1];
      assert IsPath(M, q);
      ClosedHoldsPath(M, root, F, q);
      var c, n := p[|p| - 2], p[|p| - 1];
      assert c in F && Adjacent(c, n) && n in M;
      assert Settled(M, [], F, c);
    }
  }

  // ---------------------------------------------------------------------
  // Runs

  /** A cell on the scanned run [lx, rx) of row y shares its run only with cells of that run. */
  lemma RunMaximal(M: set<Cell>, lx: int, rx: int, y: int, a: Cell, b: Cell)
    requires a.1 == y && lx <= a.0 < rx
    requires (lx - 1, y) !in M && (rx, y) !in M
    requires SameRun(M, a, b)
    ensures b.1 == y && lx <= b.0 < rx
  {
  }

  /** A run that starts at a filled cell stays inside a row-closed filled set. */
  lemma {:induction false} RunInside(M: set<Cell>, applied: set<Cell>, a: Cell, b: Cell)
    requires a in applied && SameRun(M, a, b)
    requires forall c {:trigger RowClosed(M, applied, c)} :: c in applied ==> RowClosed(M, applied, c)
    ensures b in applied
    decreases if a.0 <= b.0 then b.0 - a.0 else a.0 - b.0
  {
    if a.0 != b.0 {
      var a' := if a.0 < b.0 then (a.0 + 1, a.1) else (a.0 - 1, a.1);
      assert a' in M;
      assert RowClosed(M, applied, a);
      forall cx | a'.0 <= cx <= b.0 || b.0 <= cx <= a'.0
        ensures (cx, a'.1) in M
      {
        assert (a.0 <= cx <= b.0 || b.0 <= cx <= a.0);
      }
      RunInside(M, applied, a', b);
    }
  }

  /** Queuing the neighbour itself discharges testSeed's obligation. */
  lemma PendingByPush(M: set<Cell>, seeds: seq<Cell>, x: int, y: int, dy: int)
    requires (x, y + dy) in M
    ensures Pending(M, seeds + [(x, y + dy)], (x, y), dy)
  {
    var n := (x, y + dy);
    assert SameRun(M, n, n);
    assert n in seeds + [n];
  }

  /** A run through b extends to b's right neighbour when that neighbour is in M. */
  lemma RunStep(M: set<Cell>, s: Cell, b: Cell)
    requires SameRun(M, s, b) && (b.0 + 1, b.1) in M
    ensures SameRun(M, s, (b.0 + 1, b.1))
  {
    forall cx | s.0 <= cx <= b.0 + 1 || b.0 + 1 <= cx <= s.0
      ensures (cx, s.1) in M
    {
      if cx != b.0 + 1 {
        assert s.0 <= cx <= b.0 || b.0 <= cx <= s.0;
      }
    }
  }

  /**
   * Once testSeed has run in direction dy for every cell of a run [lx, hi)
   * of row y that starts after a cell outside M, every cell of M next to
   * the run (on row ny = y + dy) has a queued seed on its own run.
   */
  lemma {:induction false} RunSeeded(M: set<Cell>, seeds: seq<Cell>, lx: int, hi: int, y: int, dy: int, ny: int)
    requires ny == y + dy
    requires (lx - 1, y) !in M
    requires forall cx :: lx <= cx < hi ==> (cx, y) in M && Pending(M, seeds, (cx, y), dy)
    ensures forall cx :: lx <= cx < hi && (cx, ny) in M ==> exists s :: s in seeds && SameRun(M, s, (cx, ny))
    decreases hi - lx
  {
    if lx < hi {
      RunSeeded(M, seeds, lx, hi - 1, y, dy, ny);
      var cx := hi - 1;
      var n := (cx, ny);
      if n in M && !(exists s :: s in seeds && SameRun(M, s, n)) {
        assert Pending(M, seeds, (cx, y), dy);
        assert lx <= cx - 1;
        var s :| s in seeds && SameRun(M, s, (cx - 1, ny));
        RunStep(M, s, (cx - 1, ny));
      }
    }
  }

  lemma InTail(seeds: seq<Cell>, s: Cell)
    requires s in seeds && s != seeds[0]
    ensures s in seeds[1..]
  {
    var i :| 0 <= i < |seeds| && seeds[i] == s;
    assert seeds[1..][i - 1] == s;
  }

  lemma InPrefix(seeds: seq<Cell>, more: seq<Cell>, s: Cell)
    requires seeds <= more && s in seeds
    ensures s in more
  {
    var i :| 0 <= i < |seeds| && seeds[i] == s;
    assert more[i] == s;
  }

  /** Dropping a seed that is already filled keeps a run-covered neighbour covered. */
  lemma CoveredAfterPop(M: set<Cell>, seeds: seq<Cell>, applied: set<Cell>, s: Cell, n: Cell)
    requires |seeds| > 0 && seeds[0] in applied
    requires forall c {:trigger RowClosed(M, applied, c)} :: c in applied ==> RowClosed(M, applied, c)
    requires s in seeds && SameRun(M, s, n)
    ensures Covered(M, seeds[1..], applied, n)
  {
    if s == seeds[0] {
      RunInside(M, applied, s, n);
    } else {
      InTail(seeds, s);
    }
  }

  /** The skip branch: the head seed is already filled and is dropped. */
  lemma SettledAfterSkip(M: set<Cell>, seeds: seq<Cell>, applied: set<Cell>)
    requires |seeds| > 0 && seeds[0] in applied
    requires forall c {:trigger Settled(M, seeds, applied, c)} :: c in applied ==> Settled(M, seeds, applied, c)
    ensures forall c {:trigger Settled(M, seeds[1..], applied, c)} :: c in applied ==> Settled(M, seeds[1..], applied, c)
  {
    forall c | c in applied
      ensures RowClosed(M, applied, c)
    {
      assert Settled(M, seeds, applied, c);
    }
    forall c | c in applied
      ensures Settled(M, seeds[1..], applied, c)
    {
      assert Settled(M, seeds, applied, c);
      var up, down := (c.0, c.1 + 1), (c.0, c.1 - 1);
      if up in M && up !in applied {
        var s :| s in seeds && SameRun(M, s, up);
        CoveredAfterPop(M, seeds, applied, s, up);
      }
      if down in M && down !in applied {
        var s :| s in seeds && SameRun(M, s, down);
        CoveredAfterPop(M, seeds, applied, s, down);
      }
    }
  }

  /** After the head seed's run is scanned, filled and the seed dropped, a covered neighbour stays covered. */
  lemma CoveredAfterScan(M: set<Cell>, scanned: seq<Cell>, applied: set<Cell>,
                         lx: int, rx: int, y: int, s: Cell, n: Cell)
    requires |scanned| > 0 && scanned[0].1 == y && lx <= scanned[0].0 < rx
    requires (lx - 1, y) !in M && (rx, y) !in M
    requires s in scanned && SameRun(M, s, n)
    ensures Covered(M, scanned[1..], applied + RunCells(lx, rx, y), n)
  {
    if s == scanned[0] {
      RunMaximal(M, lx, rx, y, s, n);
      assert n in RunCells(lx, rx, y);
    } else {
      InTail(scanned, s);
    }
  }

  /** A cell filled before the scan stays settled after it. */
  lemma OldCellSettled(M: set<Cell>, seeds: seq<Cell>, scanned: seq<Cell>, applied: set<Cell>,
                       lx: int, rx: int, y: int, c: Cell)
    requires |seeds| > 0 && seeds <= scanned
    requires seeds[0].1 == y && lx <= seeds[0].0 < rx
    requires (lx - 1, y) !in M && (rx, y) !in M
    requires Settled(M, seeds, applied, c)
    ensures Settled(M, scanned[1..], applied + RunCells(lx, rx, y), c)
  {
    var up, down := (c.0, c.1 + 1), (c.0, c.1 - 1);
    if up in M && up !in applied {
      var s :| s in seeds && SameRun(M, s, up);
      InPrefix(seeds, scanned, s);
      CoveredAfterScan(M, scanned, applied, lx, rx, y, s, up);
    }
    if down in M && down !in applied {
      var s :| s in seeds && SameRun(M, s, down);
      InPrefix(seeds, scanned, s);
      CoveredAfterScan(M, scanned, applied, lx, rx, y, s, down);
    }
  }

  /** A cell of the freshly scanned run is settled once the run is filled and its seed dropped. */
  lemma RunCellSettled(M: set<Cell>, scanned: seq<Cell>, applied: set<Cell>, lx: int, rx: int, y: int,
                       above: int, below: int, c: Cell)
    requires above == y + 1 && below == y - 1
    requires |scanned| > 0 && scanned[0].1 == y
    requires (lx - 1, y) !in M && (rx, y) !in M
    requires forall cx :: lx <= cx < rx ==> (cx, y) in M
    requires forall cx :: lx <= cx < rx && (cx, above) in M ==> exists s :: s in scanned && SameRun(M, s, (cx, above))
    requires forall cx :: lx <= cx < rx && (cx, below) in M ==> exists s :: s in scanned && SameRun(M, s, (cx, below))
    requires c.1 == y && lx <= c.0 < rx
    ensures Settled(M, scanned[1..], applied + RunCells(lx, rx, y), c)
  {
    var up, down := (c.0, c.1 + 1), (c.0, c.1 - 1);
    if (c.0 + 1, y) in M {
      assert (c.0 + 1, y) in RunCells(lx, rx, y);
    }
    if (c.0 - 1, y) in M {
      assert (c.0 - 1, y) in RunCells(lx, rx, y);
    }
    if up in M {
      var s :| s in scanned && SameRun(M, s, up);
      InTail(scanned, s);
    }
    if down in M {
      var s :| s in scanned && SameRun(M, s, down);
      InTail(scanned, s);
    }
  }

  /** The scan branch keeps Settled for the old filled cells and establishes it for the new run. */
  lemma SettledAfterScan(M: set<Cell>, seeds: seq<Cell>, scanned: seq<Cell>, applied: set<Cell>,
                         lx: int, rx: int, y: int)
    requires |seeds| > 0 && seeds <= scanned
    requires seeds[0].1 == y && lx <= seeds[0].0 < rx
    requires (lx - 1, y) !in M && (rx, y) !in M
    requires forall cx :: lx <= cx < rx ==>
      (cx, y) in M && Pending(M, scanned, (cx, y), 1) && Pending(M, scanned, (cx, y), -1)
    requires forall c {:trigger Settled(M, seeds, applied, c)} :: c in applied ==> Settled(M, seeds, applied, c)
    ensures forall c :: c in applied + RunCells(lx, rx, y) ==>
      Settled(M, scanned[1..], applied + RunCells(lx, rx, y), c)
  {
    RunSeeded(M, scanned, lx, rx, y, 1, y + 1);
    RunSeeded(M, scanned, lx, rx, y, -1, y - 1);
    forall c | c in applied + RunCells(lx, rx, y)
      ensures Settled(M, scanned[1..], applied + RunCells(lx, rx, y), c)
    {
      if c in applied {
        OldCellSettled(M, seeds, scanned, applied, lx, rx, y, c);
      } else {
        RunCellSettled(M, scanned, applied, lx, rx, y, y + 1, y - 1, c);
      }
    }
  }

  // ---------------------------------------------------------------------
  // The fill

  /**
   * testSeed: queue the neighbour of (x, y) in direction dy when it holds the
   * fill target, unless the cells to its left on both rows hold the target
   * too (then the neighbour's run is reached through that left cell).
   */
  function TestSeed(area: Area, t: TileData, seeds: seq<Cell>, x: int, y: int, dy: int): (seeds': seq<Cell>)
    requires Valid(area) && InGrid(area.width, area.height, x, y)
    ensures seeds' == seeds || (seeds' == seeds + [(x, y + dy)] && (x, y + dy) in Targets(area, t))
    ensures At(area, x, y) == t ==> Pending(Targets(area, t), seeds', (x, y), dy)
  {
    var newY := y + dy;
    if newY >= 0 && newY < area.height && GetTile(area, x, newY).value == t then
      if x <= 0 || GetTile(area, x - 1, newY).value != t || GetTile(area, x - 1, y).value != t then
        PendingByPush(Targets(area, t), seeds, x, y, dy);
        seeds + [(x, newY)]
      else
        seeds
    else
      seeds
  }

  lemma {:induction false} SubsetCard(a: set<Cell>, b: set<Cell>)
    requires a <= b
    ensures |a| <= |b|
  {
    if a != {} {
      var c :| c in a;
      SubsetCard(a - {c}, b - {c});
    }
  }

  /** Appending seeds keeps every pending obligation discharged. */
  lemma PendingGrows(M: set<Cell>, seeds: seq<Cell>, more: seq<Cell>, c: Cell, dy: int)
    requires seeds <= more && Pending(M, seeds, c, dy)
    ensures Pending(M, more, c, dy)
  {
    var n := (c.0, c.1 + dy);
    if n in M && exists s :: s in seeds && SameRun(M, s, n) {
      var s :| s in seeds && SameRun(M, s, n);
      InPrefix(seeds, more, s);
    }
  }

  /** A seed queued by testSeed next to a reachable cell is reachable. */
  lemma SeedsReachable(M: set<Cell>, root: Cell, seeds: seq<Cell>, more: seq<Cell>, c: Cell, dy: int)
    requires dy == 1 || dy == -1
    requires Connected(M, root, c)
    requires SeedsReached(M, root, seeds)
    requires more == seeds || (more == seeds + [(c.0, c.1 + dy)] && (c.0, c.1 + dy) in M)
    ensures seeds <= more && SeedsReached(M, root, more)
  {
    if more != seeds {
      ConnectedStep(M, root, c, (c.0, c.1 + dy));
    }
  }

  /** The loop body shared by both scans: record the cell and test the cells above and below it. */
  method Visit(area: Area, t: TileData, ghost root: Cell, positions: seq<Cell>, seeds: seq<Cell>, lx: int, ly: int)
    returns (positions': seq<Cell>, seeds': seq<Cell>)
    requires Valid(area)
    requires (lx, ly) in Targets(area, t) && Connected(Targets(area, t), root, (lx, ly))
    requires SeedsReached(Targets(area, t), root, seeds)
    ensures positions' == positions + [(lx, ly)]
    ensures seeds <= seeds' && SeedsReached(Targets(area, t), root, seeds')
    ensures Pending(Targets(area, t), seeds', (lx, ly), 1) && Pending(Targets(area, t), seeds', (lx, ly), -1)
  {
    ghost var M := Targets(area, t);
    positions' := positions + [(lx, ly)];
    seeds' := TestSeed(area, t, seeds, lx, ly, 1);
    SeedsReachable(M, root, seeds, seeds', (lx, ly), 1);
    ghost var s1 := seeds';
    seeds' := TestSeed(area, t, seeds', lx, ly, -1);
    SeedsReachable(M, root, s1, seeds', (lx, ly), -1);
    PendingGrows(M, s1, seeds', (lx, ly), 1);
  }

  /** Every queued seed holds the target and is reachable from root. */
  ghost predicate SeedsReached(M: set<Cell>, root: Cell, seeds: seq<Cell>)
  {
    forall s :: s in seeds ==> s in M && Connected(M, root, s)
  }

  /**
   * The scans so far have visited exactly the cells [lo, hi) of row y, all
   * of them reachable target cells whose testSeed calls have been made.
   */
  ghost predicate RunScanned(M: set<Cell>, root: Cell, seeds: seq<Cell>, positions: seq<Cell>, y: int, lo: int, hi: int)
  {
    (forall c :: c in positions ==> c.1 == y && lo <= c.0 < hi) &&
    (forall cx :: lo <= cx < hi ==> (cx, y) in positions) &&
    (forall cx :: lo <= cx < hi ==>
      (cx, y) in M && Connected(M, root, (cx, y)) && Pending(M, seeds, (cx, y), 1) && Pending(M, seeds, (cx, y), -1))
  }

  /** Visiting the cell just right of the scanned run extends it by one. */
  lemma ExtendRight(M: set<Cell>, root: Cell, s0: seq<Cell>, seeds: seq<Cell>, p0: seq<Cell>, positions: seq<Cell>,
                    y: int, lo: int, hi: int)
    requires lo <= hi && RunScanned(M, root, s0, p0, y, lo, hi) && s0 <= seeds
    requires positions == p0 + [(hi, y)]
    requires (hi, y) in M && Connected(M, root, (hi, y))
    requires Pending(M, seeds, (hi, y), 1) && Pending(M, seeds, (hi, y), -1)
    ensures RunScanned(M, root, seeds, positions, y, lo, hi + 1)
  {
    assert positions[|p0|] == (hi, y);
    forall c | c in positions
      ensures c.1 == y && lo <= c.0 < hi + 1
    {
      if c != (hi, y) {
        assert c in p0;
      }
    }
    forall cx | lo <= cx < hi
      ensures (cx, y) in positions && Pending(M, seeds, (cx, y), 1) && Pending(M, seeds, (cx, y), -1)
    {
      assert (cx, y) in p0;
      PendingGrows(M, s0, seeds, (cx, y), 1);
      PendingGrows(M, s0, seeds, (cx, y), -1);
    }
  }

  /** Visiting the cell just left of the scanned run extends it by one. */
  lemma ExtendLeft(M: set<Cell>, root: Cell, s0: seq<Cell>, seeds: seq<Cell>, p0: seq<Cell>, positions: seq<Cell>,
                   y: int, lo: int, hi: int)
    requires lo <= hi && RunScanned(M, root, s0, p0, y, lo, hi) && s0 <= seeds
    requires positions == p0 + [(lo - 1, y)]
    requires (lo - 1, y) in M && Connected(M, root, (lo - 1, y))
    requires Pending(M, seeds, (lo - 1, y), 1) && Pending(M, seeds, (lo - 1, y), -1)
    ensures RunScanned(M, root, seeds, positions, y, lo - 1, hi)
  {
    assert positions[|p0|] == (lo - 1, y);
    forall c | c in positions
      ensures c.1 == y && lo - 1 <= c.0 < hi
    {
      if c != (lo - 1, y) {
        assert c in p0;
      }
    }
    forall cx | lo <= cx < hi
      ensures (cx, y) in positions && Pending(M, seeds, (cx, y), 1) && Pending(M, seeds, (cx, y), -1)
    {
      assert (cx, y) in p0;
      PendingGrows(M, s0, seeds, (cx, y), 1);
      PendingGrows(M, s0, seeds, (cx, y), -1);
    }
  }

  /**
   * The scan right from the seed: a do-while, so the seed itself is always
   * visited, continuing while the next cell holds the fill target.
   */
  method ScanRight(area: Area, t: TileData, ghost root: Cell, seeds: seq<Cell>, seed: Cell)
    returns (positions: seq<Cell>, scanned: seq<Cell>, right: int)
    requires Valid(area)
    requires seed in Targets(area, t) && Connected(Targets(area, t), root, seed)
    requires SeedsReached(Targets(area, t), root, seeds)
    ensures seeds <= scanned && SeedsReached(Targets(area, t), root, scanned)
    ensures seed.0 < right && (right, seed.1) !in Targets(area, t)
    ensures RunScanned(Targets(area, t), root, scanned, positions, seed.1, seed.0, right)
  {
    ghost var M := Targets(area, t);
    var lx, ly := seed.0, seed.1;
    positions, scanned := Visit(area, t, root, [], seeds, lx, ly);
    ExtendRight(M, root, seeds, scanned, [], positions, ly, lx, lx);
    lx := lx + 1;
    while lx < area.width && GetTile(area, lx, ly).value == t
      invariant seed.0 < lx <= area.width
      invariant seeds <= scanned && SeedsReached(M, root, scanned)
      invariant RunScanned(M, root, scanned, positions, ly, seed.0, lx)
    {
      InTargets(area, t, (lx, ly));
      ConnectedStep(M, root, (lx - 1, ly), (lx, ly));
      ghost var s0, p0 := scanned, positions;
      positions, scanned := Visit(area, t, root, positions, scanned, lx, ly);
      ExtendRight(M, root, s0, scanned, p0, positions, ly, seed.0, lx);
      lx := lx + 1;
    }
    InTargets(area, t, (lx, ly));
    right := lx;
  }

  /** The scan left of the seed, while the cell to the left holds the fill target. */
  method ScanLeft(area: Area, t: TileData, ghost root: Cell, positions: seq<Cell>, seeds: seq<Cell>,
                  seed: Cell, ghost right: int)
    returns (positions': seq<Cell>, scanned: seq<Cell>, left: int)
    requires Valid(area) && 0 <= seed.0 < right
    requires SeedsReached(Targets(area, t), root, seeds)
    requires RunScanned(Targets(area, t), root, seeds, positions, seed.1, seed.0, right)
    ensures seeds <= scanned && SeedsReached(Targets(area, t), root, scanned)
    ensures left <= seed.0 && (left - 1, seed.1) !in Targets(area, t)
    ensures RunScanned(Targets(area, t), root, scanned, positions', seed.1, left, right)
  {
    ghost var M := Targets(area, t);
    var lx, ly := seed.0, seed.1;
    positions', scanned := positions, seeds;
    while lx > 0 && GetTile(area, lx - 1, ly).value == t
      invariant 0 <= lx <= seed.0
      invariant seeds <= scanned && SeedsReached(M, root, scanned)
      invariant RunScanned(M, root, scanned, positions', ly, lx, right)
    {
      InTargets(area, t, (lx - 1, ly));
      ConnectedStep(M, root, (lx, ly), (lx - 1, ly));
      ghost var s0, p0 := scanned, positions';
      positions', scanned := Visit(area, t, root, positions', scanned, lx - 1, ly);
      ExtendLeft(M, root, s0, scanned, p0, positions', ly, lx, right);
      lx := lx - 1;
    }
    InTargets(area, t, (lx - 1, ly));
    left := lx;
  }

  /**
   * The positions.forEach step: mark every visited cell as applied and
   * write the pattern tile for it into the new tile list.
   */
  method ApplyPositions(area: Area, fillArea: Area, x: int, y: int, positions: seq<Cell>,
                        applied: set<Cell>, tiles: seq<TileData>)
    returns (applied': set<Cell>, tiles': seq<TileData>)
    requires Valid(area) && Valid(fillArea) && fillArea.width > 0 && fillArea.height > 0
    requires forall c :: c in positions ==> InGrid(area.width, area.height, c.0, c.1)
    requires Painted(area, fillArea, x, y, tiles, applied)
    ensures forall c :: c in applied' <==> c in applied || c in positions
    ensures Painted(area, fillArea, x, y, tiles', applied')
  {
    applied', tiles' := applied, tiles;
    var i := 0;
    while i < |positions|
      invariant 0 <= i <= |positions|
      invariant forall c :: c in applied' <==> c in applied || c in positions[..i]
      invariant Painted(area, fillArea, x, y, tiles', applied')
    {
      var position := positions[i];
      applied' := applied' + {position};
      var newTile := GetTilingTileData(fillArea, x, y, position.0, position.1);
      var index := GetTileIndex(area, position.0, position.1).value;
      SetCell(Area(area.width, area.height, tiles'), position.0, position.1, newTile);
      tiles' := tiles'[index := newTile];
      assert positions[..i + 1] == positions[..i] + [position];
      i := i + 1;
    }
    assert positions[..i] == positions;
  }

  lemma RemainingShrinks(G: set<Cell>, A: set<Cell>, A': set<Cell>, s: Cell)
    requires s in G && s !in A && s in A' && A <= A'
    ensures |G - A'| < |G - A|
  {
    assert G - A' <= (G - A) - {s};
    SubsetCard(G - A', (G - A) - {s});
  }

  /**
   * The fill loop's invariant: every queued seed and every filled cell is a
   * reachable target cell, every filled cell is Settled, and root is filled
   * or is the one seed still queued.
   */
  ghost predicate FillState(M: set<Cell>, root: Cell, seeds: seq<Cell>, applied: set<Cell>)
  {
    SeedsReached(M, root, seeds) &&
    (forall c :: c in applied ==> c in M && Connected(M, root, c)) &&
    (forall c {:trigger Settled(M, seeds, applied, c)} :: c in applied ==> Settled(M, seeds, applied, c)) &&
    (applied == {} ==> seeds == [root]) &&
    (applied != {} ==> root in applied)
  }

  lemma SkipKeeps(M: set<Cell>, root: Cell, seeds: seq<Cell>, applied: set<Cell>)
    requires FillState(M, root, seeds, applied)
    requires |seeds| > 0 && seeds[0] in applied
    ensures FillState(M, root, seeds[1..], applied)
  {
    SettledAfterSkip(M, seeds, applied);
  }

  lemma ScanKeeps(M: set<Cell>, root: Cell, seeds: seq<Cell>, scanned: seq<Cell>, positions: seq<Cell>,
                  applied: set<Cell>, left: int, right: int)
    requires FillState(M, root, seeds, applied)
    requires |seeds| > 0 && seeds[0] !in applied && left <= seeds[0].0 < right
    requires (left - 1, seeds[0].1) !in M && (right, seeds[0].1) !in M
    requires seeds <= scanned && SeedsReached(M, root, scanned)
    requires RunScanned(M, root, scanned, positions, seeds[0].1, left, right)
    ensures FillState(M, root, scanned[1..], applied + RunCells(left, right, seeds[0].1))
  {
    var y := seeds[0].1;
    var applied' := applied + RunCells(left, right, y);
    SettledAfterScan(M, seeds, scanned, applied, left, right, y);
    forall s | s in scanned[1..]
      ensures s in M && Connected(M, root, s)
    {
      assert s in scanned;
    }
    assert seeds[0] in RunCells(left, right, y);
  }

  /** A filled set that is Settled with no seeds left is exactly the region reachable from root. */
  lemma FillComplete(M: set<Cell>, root: Cell, applied: set<Cell>)
    requires FillState(M, root, [], applied)
    ensures forall c :: c in applied <==> Connected(M, root, c)
  {
    forall c | Connected(M, root, c)
      ensures c in applied
    {
      var p :| IsPath(M, p) && p[0] == root && p[|p| - 1] == c;
      ClosedHoldsPath(M, root, applied, p);
    }
  }

  /** The cells recorded by one seed's scans are exactly its run. */
  lemma AppliedRun(M: set<Cell>, root: Cell, scanned: seq<Cell>, positions: seq<Cell>,
                   before: set<Cell>, applied: set<Cell>, y: int, left: int, right: int)
    requires RunScanned(M, root, scanned, positions, y, left, right)
    requires forall c :: c in applied <==> c in before || c in positions
    ensures applied == before + RunCells(left, right, y)
  {
    forall c | c in positions
      ensures c in RunCells(left, right, y)
    {
      assert c == (c.0, y);
    }
  }

  /**
   * Bucket fill from (x, y). The start cell's tile is the fill target; the
   * result replaces exactly the cells reachable from the start through
   * 4-neighbouring cells holding the target by the fill pattern, tiled so
   * that the pattern's top-left tile lands on the start cell. A start cell
   * outside the area is a RangeError (from getTile).
   */
  method FillTileAreaAt(area: Area, x: int, y: int, fillArea: Area) returns (r: Result<Area>)
    requires Valid(area) && Valid(fillArea) && fillArea.width > 0 && fillArea.height > 0
    ensures r.Err? <==> !InGrid(area.width, area.height, x, y)
    ensures r.Err? ==> r.error == RangeError
    ensures r.Ok? ==>
      r.value.width == area.width && r.value.height == area.height && Valid(r.value) &&
      forall cx, cy :: InGrid(area.width, area.height, cx, cy) ==>
        At(r.value, cx, cy) ==
          if Connected(Targets(area, At(area, x, y)), (x, y), (cx, cy))
          then GetTilingTileData(fillArea, x, y, cx, cy)
          else At(area, cx, cy)
    ensures r.Ok? ==> At(r.value, x, y) == At(fillArea, 0, 0)
  {
    var start := GetTile(area, x, y);
    if start.Err? {
      return Err(start.error);
    }
    var fillTile := start.value;
    ghost var M := Targets(area, fillTile);
    ghost var root := (x, y);
    ghost var G := GridCells(area.width, area.height);
    assert root in M;
    ConnectedRoot(M, root);

    var seeds: seq<Cell> := [(x, y)];
    var applied: set<Cell> := {};
    var newTiles := area.tiles;
    while |seeds| > 0
      invariant FillState(M, root, seeds, applied)
      invariant Painted(area, fillArea, x, y, newTiles, applied)
      decreases |G - applied|, |seeds|
    {
      seeds, applied, newTiles := FillStep(area, fillArea, x, y, fillTile, root, seeds, applied, newTiles);
    }
    FillComplete(M, root, applied);
    TilingInsidePattern(fillArea, x, y, x, y);
    r := CreateTileArea(area.width, area.height, newTiles);
  }

  /**
   * One turn of the outer do-while: drop the head seed when it is filled
   * already, otherwise scan its run both ways, queue the seeds testSeed
   * finds, and paint the run.
   */
  method FillStep(area: Area, fillArea: Area, x: int, y: int, fillTile: TileData, ghost root: Cell,
                  seeds: seq<Cell>, applied: set<Cell>, newTiles: seq<TileData>)
    returns (seeds': seq<Cell>, applied': set<Cell>, newTiles': seq<TileData>)
    requires Valid(area) && Valid(fillArea) && fillArea.width > 0 && fillArea.height > 0
    requires |seeds| > 0
    requires FillState(Targets(area, fillTile), root, seeds, applied)
    requires Painted(area, fillArea, x, y, newTiles, applied)
    ensures FillState(Targets(area, fillTile), root, seeds', applied')
    ensures Painted(area, fillArea, x, y, newTiles', applied')
    ensures applied <= applied'
    ensures applied' == applied ==> |seeds'| < |seeds|
    ensures applied' != applied ==>
      |GridCells(area.width, area.height) - applied'| < |GridCells(area.width, area.height) - applied|
  {
    ghost var M := Targets(area, fillTile);
    var seed := seeds[0];
    if seed in applied {
      SkipKeeps(M, root, seeds, applied);
      return seeds[1..], applied, newTiles;
    }
    var positions, scanned, right := ScanRight(area, fillTile, root, seeds, seed);
    var scannedLeft, left;
    positions, scannedLeft, left := ScanLeft(area, fillTile, root, positions, scanned, seed, right);
    ScanKeeps(M, root, seeds, scannedLeft, positions, applied, left, right);
    seeds' := scannedLeft[1..];
    applied', newTiles' := ApplyPositions(area, fillArea, x, y, positions, applied, newTiles);
    AppliedRun(M, root, scannedLeft, positions, applied, applied', seed.1, left, right);
    assert seed in M;
    RemainingShrinks(GridCells(area.width, area.height), applied, applied', seed);
  }

  // ---------------------------------------------------------------------
  // A grid of one tile

  /** Walking along row y from (x0, y) to (x1, y) through M stays connected to root. */
  lemma {:induction false} RowWalk(M: set<Cell>, root: Cell, x0: int, x1: int, y: int)
    requires Connected(M, root, (x0, y))
    requires forall cx :: (x0 <= cx <= x1 || x1 <= cx <= x0) ==> (cx, y) in M
    ensures Connected(M, root, (x1, y))
    decreases if x1 >= x0 then x1 - x0 else x0 - x1
  {
    if x1 > x0 {
      RowWalk(M, root, x0, x1 - 1, y);
      ConnectedStep(M, root, (x1 - 1, y), (x1, y));
    } else if x1 < x0 {
      RowWalk(M, root, x0, x1 + 1, y);
      ConnectedStep(M, root, (x1 + 1, y), (x1, y));
    }
  }

  /** Walking along column x from (x, y0) to (x, y1) through M stays connected to root. */
  lemma {:induction false} ColumnWalk(M: set<Cell>, root: Cell, x: int, y0: int, y1: int)
    requires Connected(M, root, (x, y0))
    requires forall cy :: (y0 <= cy <= y1 || y1 <= cy <= y0) ==> (x, cy) in M
    ensures Connected(M, root, (x, y1))
    decreases if y1 >= y0 then y1 - y0 else y0 - y1
  {
    if y1 > y0 {
      ColumnWalk(M, root, x, y0, y1 - 1);
      ConnectedStep(M, root, (x, y1 - 1), (x, y1));
    } else if y1 < y0 {
      ColumnWalk(M, root, x, y0, y1 + 1);
      ConnectedStep(M, root, (x, y1 + 1), (x, y1));
    }
  }

  /**
   * When every cell holds the same tile, every cell is connected to the
   * start cell, so the fill replaces the whole grid.
   */
  lemma UniformGridConnected(area: Area, x: int, y: int, cx: int, cy: int)
    requires Valid(area) && InGrid(area.width, area.height, x, y) && InGrid(area.width, area.height, cx, cy)
    requires forall i, j :: InGrid(area.width, area.height, i, j) ==> At(area, i, j) == At(area, x, y)
    ensures Connected(Targets(area, At(area, x, y)), (x, y), (cx, cy))
  {
    var M := Targets(area, At(area, x, y));
    forall i, j | InGrid(area.width, area.height, i, j)
      ensures (i, j) in M
    {
      assert At(area, i, j) == At(area, x, y);
    }
    ConnectedRoot(M, (x, y));
    RowWalk(M, (x, y), x, cx, y);
    ColumnWalk(M, (x, y), cx, y, cy);
  }
}
