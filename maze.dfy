/**
 * Maze generation by randomized depth-first backtracking (`generateMaze` and
 * its inner `carve` in WifiPacman.py).  The grid starts as all walls; carving
 * starts at (1, 1) and moves in strides of two cells, so only cells with two
 * odd coordinates ("anchors") are carving targets, and the cell between two
 * anchors is carved to join them.
 */
module Maze {
  import opened Grid

  /** The four strides `[dx, dy]` in the order the source lists them. */
  const Dirs: seq<Cell> := [Cell(1, 0), Cell(-1, 0), Cell(0, 1), Cell(0, -1)]

  /**
   * A possible outcome of shuffling `Dirs`: the source sorts the list with a
   * random comparator, which always yields some permutation of it.
   */
  predicate IsShuffle(s: seq<Cell>) {
    |s| == 4 && multiset(s) == multiset(Dirs)
  }

  /** A direction order for every anchor; each anchor is carved at most once,
      so one order per anchor covers every outcome of the random sorts. */
  type Shuffler = (int, int) -> seq<Cell>

  ghost predicate IsShuffler(shuffle: Shuffler) {
    forall x, y :: IsShuffle(shuffle(x, y))
  }

  lemma ShuffleMember(s: seq<Cell>, k: int)
    requires IsShuffle(s) && 0 <= k < 4
    ensures s[k] in Dirs
  {
    assert s[k] in multiset(s);
  }

  /** A stride from an anchor reaches an anchor, and the cell in between has
      an odd coordinate. */
  lemma StrideParity(x: int, y: int, d: Cell)
    requires x % 2 == 1 && y % 2 == 1 && d in Dirs
    ensures (x + d.x * 2) % 2 == 1 && (y + d.y * 2) % 2 == 1
    ensures (x + d.x) % 2 == 1 || (y + d.y) % 2 == 1
    ensures !IsAnchor(Cell(x + d.x, y + d.y))
  {
    if d.x == 0 {
      assert x + d.x * 2 == x;
    } else {
      assert y + d.y * 2 == y;
    }
  }

  /** A carving target: a cell with two odd coordinates. */
  predicate IsAnchor(c: Cell) {
    c.x % 2 == 1 && c.y % 2 == 1
  }

  /** A cell with two even coordinates: the posts between corridors,
      which carving never opens. */
  predicate IsPost(c: Cell) {
    c.x % 2 == 0 && c.y % 2 == 0
  }

  /** The anchor two cells from `c` in direction `d`. */
  function Stride(c: Cell, d: Cell): Cell {
    Cell(c.x + d.x * 2, c.y + d.y * 2)
  }

  /** Every interior anchor one stride from `c` in a direction of `ds` is
      out of the wall set. */
  predicate StridesOpen(walls: set<Cell>, c: Cell, ds: seq<Cell>, w: int, h: int) {
    forall d :: d in ds && Interior(Stride(c, d), w, h) ==> Stride(c, d) !in walls
  }

  /** `carve(c)` has left no wall anchor behind in any direction. */
  predicate Finished(walls: set<Cell>, c: Cell, w: int, h: int) {
    StridesOpen(walls, c, Dirs, w, h)
  }

  /** Open strides stay open as the wall set shrinks, and one more open
      stride extends the list. */
  lemma StridesOpenStep(walls: set<Cell>, walls': set<Cell>, c: Cell, ds: seq<Cell>, k: int, w: int, h: int)
    requires 0 <= k < |ds| && walls' <= walls && StridesOpen(walls, c, ds[..k], w, h)
    requires Interior(Stride(c, ds[k]), w, h) ==> Stride(c, ds[k]) !in walls'
    ensures StridesOpen(walls', c, ds[..k + 1], w, h)
  {
    assert ds[..k + 1] == ds[..k] + [ds[k]];
  }

  /** Finishing is kept as the wall set shrinks. */
  lemma FinishedShrinks(walls: set<Cell>, walls': set<Cell>, c: Cell, w: int, h: int)
    requires walls' <= walls && Finished(walls, c, w, h)
    ensures Finished(walls', c, w, h)
  {
  }

  /** Every anchor listed in `cs` from index `from` on is finished. */
  predicate FinishedSince(cs: seq<Cell>, from: int, walls: set<Cell>, w: int, h: int) {
    forall k :: 0 <= from <= k < |cs| && IsAnchor(cs[k]) ==> Finished(walls, cs[k], w, h)
  }

  /** Two stretches of carving, each leaving its own anchors finished, leave
      all of them finished. */
  lemma FinishedSinceJoin(c1: seq<Cell>, c2: seq<Cell>, from: int, walls1: set<Cell>, walls2: set<Cell>, w: int, h: int)
    requires 0 <= from <= |c1| && c1 <= c2 && walls2 <= walls1
    requires FinishedSince(c1, from, walls1, w, h) && FinishedSince(c2, |c1|, walls2, w, h)
    ensures FinishedSince(c2, from, walls2, w, h)
  {
    forall k | from <= k < |c2| && IsAnchor(c2[k])
      ensures Finished(walls2, c2[k], w, h)
    {
      if k < |c1| {
        assert c2[k] == c1[k];
        FinishedShrinks(walls1, walls2, c1[k], w, h);
      }
    }
  }

  /** A finished anchor, or a cell that is no anchor, extends the stretch. */
  lemma FinishedSinceCons(cs: seq<Cell>, from: int, walls: set<Cell>, w: int, h: int)
    requires 0 <= from < |cs| && (IsAnchor(cs[from]) ==> Finished(walls, cs[from], w, h))
    requires FinishedSince(cs, from + 1, walls, w, h)
    ensures FinishedSince(cs, from, walls, w, h)
  {
  }

  /** Trying every direction of a shuffled order tries all four. */
  lemma FinishedByShuffle(walls: set<Cell>, c: Cell, dirs: seq<Cell>, w: int, h: int)
    requires IsShuffle(dirs) && StridesOpen(walls, c, dirs[..4], w, h)
    ensures Finished(walls, c, w, h)
  {
    assert dirs[..4] == dirs;
    forall d | d in Dirs && Interior(Stride(c, d), w, h)
      ensures Stride(c, d) !in walls
    {
      assert d in multiset(dirs);
    }
  }

  /**
   * Coverage: if (1, 1) is open and every open interior anchor is finished,
   * then every interior anchor is open, because each one is reached from
   * (1, 1) by strides right along row 1 and then down its column.
   */
  lemma {:induction false} AnchorsReached(walls: set<Cell>, w: int, h: int, c: Cell)
    requires Start !in walls
    requires forall a :: IsAnchor(a) && Interior(a, w, h) && a !in walls ==> Finished(walls, a, w, h)
    requires IsAnchor(c) && Interior(c, w, h)
    ensures c !in walls
    decreases c.x + c.y
  {
    if c != Start {
      if c.x > 1 {
        var b := Cell(c.x - 2, c.y);
        AnchorsReached(walls, w, h, b);
        assert Dirs[0] == Cell(1, 0) && Stride(b, Dirs[0]) == c;
      } else {
        var b := Cell(c.x, c.y - 2);
        AnchorsReached(walls, w, h, b);
        assert Dirs[2] == Cell(0, 1) && Stride(b, Dirs[2]) == c;
      }
    }
  }

  /**
   * The state captured by the `carve` closure: the grid being carved and its
   * dimensions, plus the ghost record of the order in which cells were carved
   * and, for each, the index of the earlier open cell next to it.
   */
  class Carver {
    const w: int
    const h: int
    const maze: array2<int>
    const shuffle: Shuffler
    ghost var carved: seq<Cell>
    ghost var parent: seq<int>
    /** The wall cells; carving only shrinks this set. */
    ghost var walls: set<Cell>

    ghost predicate Valid()
      reads this, maze
    {
      && w >= 3 && h >= 3 && maze.Length0 == h && maze.Length1 == w
      // every cell is a wall or open, and `walls` holds exactly the wall cells
      && (forall j, i :: 0 <= j < h && 0 <= i < w ==> maze[j, i] == WALL || maze[j, i] == OPEN)
      && (forall j, i :: 0 <= j < h && 0 <= i < w ==> (maze[j, i] == WALL <==> Cell(i, j) in walls))
      // the outer ring is never carved
      && (forall c :: InGrid(c, w, h) && !Interior(c, w, h) ==> c in walls)
      // no open cell has two even coordinates
      && (forall c :: InGrid(c, w, h) && c !in walls ==> !IsPost(c))
      // `carved` lists exactly the open cells, each once, starting at (1, 1)
      && (forall c :: InGrid(c, w, h) && c !in walls ==> c in carved)
      && (forall k :: 0 <= k < |carved| ==> InGrid(carved[k], w, h) && carved[k] !in walls)
      && (forall k, l :: 0 <= k < l < |carved| ==> carved[k] != carved[l])
      && (|carved| > 0 ==> carved[0] == Start)
      // each cell was carved next to a cell carved before it
      && |parent| == |carved|
      && (forall k :: 0 < k < |carved| ==> 0 <= parent[k] < k && Adjacent(carved[parent[k]], carved[k]))
    }

    constructor (w: int, h: int, maze: array2<int>, shuffle: Shuffler)
      requires w >= 3 && h >= 3 && maze.Length0 == h && maze.Length1 == w
      requires forall j, i :: 0 <= j < h && 0 <= i < w ==> maze[j, i] == WALL
      ensures Valid() && carved == []
      ensures this.w == w && this.h == h && this.maze == maze && this.shuffle == shuffle
    {
      this.w, this.h, this.maze, this.shuffle := w, h, maze, shuffle;
      carved, parent := [], [];
      walls := set j, i | 0 <= j < h && 0 <= i < w :: Cell(i, j);
    }

    /**
     * One `maze[..][..] = 0` of the source: open the interior cell `c`,
     * recording it (if it was a wall) as carved next to the cell `carved[par]`.
     */
    method Open(c: Cell, ghost par: int)
      requires Valid()
      requires 0 < c.x < w - 1 && 0 < c.y < h - 1 && (c.x % 2 == 1 || c.y % 2 == 1)
      requires carved == [] ==> c == Start
      requires carved != [] ==> 0 <= par < |carved| && Adjacent(carved[par], c)
      modifies this`carved, this`parent, this`walls, maze
      ensures Valid()
      ensures maze[c.y, c.x] == OPEN
      ensures forall j, i :: 0 <= j < h && 0 <= i < w && (j != c.y || i != c.x) ==> maze[j, i] == old(maze[j, i])
      ensures walls == old(walls) - {c}
      ensures carved == old(carved) + (if old(maze[c.y, c.x]) == WALL then [c] else [])
    {
      if maze[c.y, c.x] == WALL {
        maze[c.y, c.x] := OPEN;
        carved, parent := carved + [c], parent + [if carved == [] then 0 else par];
        walls := walls - {c};
        forall j, i | 0 <= j < h && 0 <= i < w
          ensures maze[j, i] == WALL <==> Cell(i, j) in walls
        {
          if j != c.y || i != c.x {
            assert maze[j, i] == old(maze[j, i]);
          }
        }
      } else {
        // already open: the write stores the value the cell holds
        maze[c.y, c.x] := OPEN;
      }
    }

    /**
     * `carve(x, y)`: open the anchor (x, y), then try each direction of its
     * shuffled order.  The anchor must still be a wall, so each anchor is
     * carved at most once; the caller passes in `p` the index of the carved
     * cell next to (x, y).
     */
    method Carve(x: int, y: int, ghost p: int)
      requires Valid() && IsShuffler(shuffle)
      requires 0 < x < w - 1 && 0 < y < h - 1 && x % 2 == 1 && y % 2 == 1
      requires maze[y, x] == WALL
      requires carved == [] ==> Cell(x, y) == Start
      requires carved != [] ==> 0 <= p < |carved| && Adjacent(carved[p], Cell(x, y))
      modifies this`carved, this`parent, this`walls, maze
      ensures Valid()
      ensures walls <= old(walls)
      ensures old(carved) <= carved && Cell(x, y) in carved && Cell(x, y) !in walls
      ensures Finished(walls, Cell(x, y), w, h)
      ensures FinishedSince(carved, |old(carved)|, walls, w, h)
      decreases walls - {Cell(x, y)}, 1
    {
      var dirs := shuffle(x, y);
      Open(Cell(x, y), p);
      ghost var me := |carved| - 1;
      for k := 0 to 4
        invariant Valid() && IsShuffler(shuffle)
        invariant me == |old(carved)| && me < |carved| && carved[me] == Cell(x, y)
        invariant old(carved) <= carved
        invariant walls <= old(walls) - {Cell(x, y)}
        invariant StridesOpen(walls, Cell(x, y), dirs[..k], w, h)
        invariant FinishedSince(carved, me + 1, walls, w, h)
      {
        ShuffleMember(dirs, k);
        ghost var walls0, cs := walls, carved;
        CarveToward(x, y, dirs[k], me);
        FinishedSinceJoin(cs, carved, me + 1, walls0, walls, w, h);
        StridesOpenStep(walls0, walls, Cell(x, y), dirs, k, w, h);
      }
      FinishedByShuffle(walls, Cell(x, y), dirs, w, h);
      FinishedSinceCons(carved, me, walls, w, h);
    }

    /**
     * One turn of the loop in `carve(x, y)`: if the anchor two cells away in
     * direction `d` is inside the border and still a wall, open the cell in
     * between and carve from that anchor.
     */
    method CarveToward(x: int, y: int, d: Cell, ghost me: int)
      requires Valid() && IsShuffler(shuffle)
      requires 0 < x < w - 1 && 0 < y < h - 1 && x % 2 == 1 && y % 2 == 1 && d in Dirs
      requires 0 <= me < |carved| && carved[me] == Cell(x, y)
      modifies this`carved, this`parent, this`walls, maze
      ensures Valid()
      ensures walls <= old(walls)
      ensures old(carved) <= carved
      ensures Interior(Stride(Cell(x, y), d), w, h) ==> Stride(Cell(x, y), d) !in walls
      ensures FinishedSince(carved, |old(carved)|, walls, w, h)
      decreases walls, 0
    {
      StrideParity(x, y, d);
      var nx, ny := x + d.x * 2, y + d.y * 2;
      assert Stride(Cell(x, y), d) == Cell(nx, ny);
      if nx > 0 && ny > 0 && nx < w - 1 && ny < h - 1 && maze[ny, nx] == WALL {
        var mid := Cell(x + d.x, y + d.y);
        Open(mid, me);
        assert FinishedSince(carved, |old(carved)|, walls, w, h) by {
          if |carved| > |old(carved)| {
            assert carved[|old(carved)|] == mid;
          }
        }
        ghost var q :| 0 <= q < |carved| && carved[q] == mid;
        ghost var walls0, cs := walls, carved;
        Carve(nx, ny, q);
        FinishedSinceJoin(cs, carved, |old(carved)|, walls0, walls, w, h);
      } else if nx > 0 && ny > 0 && nx < w - 1 && ny < h - 1 {
        assert Cell(nx, ny) !in walls;
      }
    }

    /** The path of open cells from (1, 1) to the k-th carved cell, following
        the recorded parents. */
    ghost function PathTo(k: int): (path: seq<Cell>)
      requires Valid() && 0 <= k < |carved|
      reads this, maze
      ensures IsOpenPath(maze, path) && path[0] == Start && path[|path| - 1] == carved[k]
      decreases k
    {
      if k == 0 then [carved[0]] else PathTo(parent[k]) + [carved[k]]
    }

    /** Every open cell is reachable from (1, 1) through open cells. */
    lemma AllReachable()
      requires Valid()
      ensures forall c :: IsOpen(maze, c) ==> Reachable(maze, Start, c)
    {
      forall c | IsOpen(maze, c)
        ensures Reachable(maze, Start, c)
      {
        assert c in carved;
        var k :| 0 <= k < |carved| && carved[k] == c;
        var path := PathTo(k);
        assert IsOpenPath(maze, path) && path[0] == Start && path[|path| - 1] == c;
      }
    }
  }

  /**
   * `generateMaze(w, h)`: an `h × w` grid of walls, carved from (1, 1).
   * Every cell ends as a wall or open, the border stays walls, (1, 1) is
   * open, no open cell has two even coordinates, every open cell is
   * reachable from (1, 1), and every interior anchor is open.
   */
  method GenerateMaze(w: int, h: int, shuffle: Shuffler) returns (maze: array2<int>)
    requires w >= 3 && h >= 3
    requires IsShuffler(shuffle)
    ensures fresh(maze) && maze.Length0 == h && maze.Length1 == w
    ensures forall j, i :: 0 <= j < h && 0 <= i < w ==> maze[j, i] == WALL || maze[j, i] == OPEN
    ensures forall c :: OnBorder(maze, c) ==> maze[c.y, c.x] == WALL
    ensures IsOpen(maze, Start)
    ensures forall c :: IsOpen(maze, c) ==> c.x % 2 == 1 || c.y % 2 == 1
    ensures forall c :: IsOpen(maze, c) ==> Reachable(maze, Start, c)
    ensures forall c :: IsAnchor(c) && Interior(c, w, h) ==> IsOpen(maze, c)
  {
    maze := new int[h, w]((j, i) => WALL);
    var carver := new Carver(w, h, maze, shuffle);
    carver.Carve(1, 1, 0);
    carver.AllReachable();
    forall a | IsAnchor(a) && Interior(a, w, h) && a !in carver.walls
      ensures Finished(carver.walls, a, w, h)
    {
      assert maze[a.y, a.x] == OPEN;
      assert a in carver.carved;
      var k :| 0 <= k < |carver.carved| && carver.carved[k] == a;
    }
    forall c | IsAnchor(c) && Interior(c, w, h)
      ensures IsOpen(maze, c)
    {
      AnchorsReached(carver.walls, w, h, c);
    }
  }
}
