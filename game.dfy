/**
 * The game state machine of WifiPacman.py's page script: the initial pellet
 * list, `canMove`, and `updatePac`, which moves Pac-Man one cell, eats the
 * pellet there, counts the score and latches the win flag.
 *
 * The pure part (`Target`, `CanMove`, `Filter`, `Next`, `Run`) is the
 * specification; the class `Game` holds the script's global variables and
 * its methods are proved against that specification.
 */
module Game {
  import opened Grid

  /** The cell one step from `pac` in direction `dir`; any other string
      leaves it where it is. Rows grow downwards, so "UP" lowers y. */
  function Target(pac: Cell, dir: string): (t: Cell)
    ensures Adjacent(pac, t) <==> dir in {"LEFT", "RIGHT", "UP", "DOWN"}
    ensures t == pac <==> dir !in {"LEFT", "RIGHT", "UP", "DOWN"}
    ensures (t.x < pac.x <==> dir == "LEFT") && (t.x > pac.x <==> dir == "RIGHT")
    ensures (t.y < pac.y <==> dir == "UP") && (t.y > pac.y <==> dir == "DOWN")
  {
    if dir == "LEFT" then Cell(pac.x - 1, pac.y)
    else if dir == "RIGHT" then Cell(pac.x + 1, pac.y)
    else if dir == "UP" then Cell(pac.x, pac.y - 1)
    else if dir == "DOWN" then Cell(pac.x, pac.y + 1)
    else pac
  }

  /** `canMove(nx, ny)`: the cell exists (the grid has `Length0` rows and
      `Length1` columns) and is open. */
  function CanMove(g: array2<int>, nx: int, ny: int): (b: bool)
    reads g
    ensures b <==> IsOpen(g, Cell(nx, ny))
    ensures b ==> 0 <= nx < g.Length1 && 0 <= ny < g.Length0
  {
    if nx < 0 || nx >= g.Length1 || ny < 0 || ny >= g.Length0 then false
    else g[ny, nx] == OPEN
  }

  /** A maze whose border is all walls never lets Pac-Man onto the border. */
  lemma CanMoveStaysInside(g: array2<int>, nx: int, ny: int)
    requires forall c :: OnBorder(g, c) ==> g[c.y, c.x] == WALL
    ensures CanMove(g, nx, ny) ==> 0 < nx < g.Length1 - 1 && 0 < ny < g.Length0 - 1
  {
    if CanMove(g, nx, ny) {
      assert !OnBorder(g, Cell(nx, ny));
    }
  }

  /** `pellets.filter(p => !(p.x == c.x && p.y == c.y))`: drop every pellet at `c`,
      keeping the others in order. */
  function Filter(ps: seq<Cell>, c: Cell): (r: seq<Cell>)
    ensures forall q :: q in r <==> q in ps && q != c
    ensures |r| <= |ps|
  {
    if ps == [] then []
    else (if ps[0] == c then [] else [ps[0]]) + Filter(ps[1..], c)
  }

  /** Row-major order: `a` comes before `b` when scanning rows top to bottom,
      each row left to right. */
  predicate Before(a: Cell, b: Cell) {
    a.y < b.y || (a.y == b.y && a.x < b.x)
  }

  /** Strictly increasing in row-major order, hence free of duplicates. */
  predicate RowMajor(ps: seq<Cell>) {
    forall i, j :: 0 <= i < j < |ps| ==> Before(ps[i], ps[j])
  }

  /** Filtering a duplicate-free list removes at most the one pellet at `c`
      and keeps the row-major order. */
  lemma {:induction false} FilterRowMajor(ps: seq<Cell>, c: Cell)
    requires RowMajor(ps)
    ensures RowMajor(Filter(ps, c))
    ensures |Filter(ps, c)| == if c in ps then |ps| - 1 else |ps|
  {
    if ps != [] {
      assert RowMajor(ps[1..]);
      FilterRowMajor(ps[1..], c);
      var rest := Filter(ps[1..], c);
      forall q | q in rest ensures Before(ps[0], q) {
        var j :| 0 <= j < |ps[1..]| && ps[1..][j] == q;
        assert ps[j + 1] == q;
      }
      if ps[0] == c {
        assert c !in ps[1..];
      } else {
        assert c in ps <==> c in ps[1..];
      }
    }
  }

  /** In a row-major list the head comes before every other member, so the
      tail holds exactly the members other than the head. */
  lemma RowMajorTail(a: seq<Cell>, q: Cell)
    requires RowMajor(a) && a != []
    ensures q in a ==> q == a[0] || Before(a[0], q)
    ensures q in a[1..] <==> q in a && q != a[0]
  {
    if q in a {
      var j :| 0 <= j < |a| && a[j] == q;
      assert j == 0 || Before(a[0], a[j]);
      if j != 0 {
        assert a[1..][j - 1] == q;
      }
    }
    assert a == [a[0]] + a[1..];
  }

  /** Two row-major lists with the same members are the same list, so the
      membership and order of the initial pellet list determine it. */
  lemma {:induction false} RowMajorUnique(a: seq<Cell>, b: seq<Cell>)
    requires RowMajor(a) && RowMajor(b)
    requires forall q :: q in a <==> q in b
    ensures a == b
  {
    assert a != [] ==> a[0] in a && a[0] in b;
    assert b != [] ==> b[0] in b && b[0] in a;
    if a != [] && b != [] {
      RowMajorTail(a, b[0]);
      RowMajorTail(b, a[0]);
      assert a[0] == b[0];
      assert RowMajor(a[1..]) && RowMajor(b[1..]);
      forall q ensures q in a[1..] <==> q in b[1..] {
        RowMajorTail(a, q);
        RowMajorTail(b, q);
      }
      RowMajorUnique(a[1..], b[1..]);
      assert a == [a[0]] + a[1..] && b == [b[0]] + b[1..];
    }
  }

  /**
   * The pellet-initialisation loop: every open cell except Pac-Man's cell
   * `pac`, scanned row by row, each row column by column.
   */
  method CollectPellets(g: array2<int>, pac: Cell) returns (pellets: seq<Cell>)
    ensures forall q :: q in pellets <==> IsOpen(g, q) && q != pac
    ensures RowMajor(pellets)
  {
    pellets := [];
    for r := 0 to g.Length0
      invariant forall q :: q in pellets <==> IsOpen(g, q) && q != pac && q.y < r
      invariant RowMajor(pellets)
    {
      for c := 0 to g.Length1
        invariant forall q :: q in pellets <==> IsOpen(g, q) && q != pac && Before(q, Cell(c, r))
        invariant RowMajor(pellets)
      {
        if g[r, c] == OPEN && !(c == pac.x && r == pac.y) {
          pellets := pellets + [Cell(c, r)];
        }
      }
    }
  }

  /** The game variables the page script keeps: `pac`, `pellets`, `score`, `gameWon`. */
  datatype State = State(pac: Cell, pellets: seq<Cell>, score: int, gameWon: bool)

  /** `updatePac(dir)` on a state: Pac-Man only ever steps onto an open
      cell, pellets are only ever removed, a won state is frozen, and the
      win flag is only set once no pellet is left. */
  function Next(g: array2<int>, s: State, dir: string): (r: State)
    reads g
    ensures r.pac == s.pac || (IsOpen(g, r.pac) && Adjacent(s.pac, r.pac))
    ensures forall q :: q in r.pellets ==> q in s.pellets
    ensures |r.pellets| <= |s.pellets|
    ensures s.gameWon ==> r == s
    ensures r.gameWon ==> s.gameWon || r.pellets == []
  {
    if s.gameWon then s
    else
      var t := Target(s.pac, dir);
      if !CanMove(g, t.x, t.y) then s
      else
        var rest := Filter(s.pellets, t);
        var score := if |rest| < |s.pellets| then s.score + 1 else s.score;
        State(t, rest, score, if |rest| == 0 then true else s.gameWon)
  }

  /** The polling loop over a sequence of replies to `GET /buttons`: an
      empty reply is skipped, any other is passed to `updatePac`. Pac-Man
      ends on the start cell or on an open cell, the pellets left are some of
      those at the start, a won state is frozen, and a win means no pellet is
      left. */
  function Run(g: array2<int>, s: State, dirs: seq<string>): (r: State)
    reads g
    ensures r.pac == s.pac || IsOpen(g, r.pac)
    ensures forall q :: q in r.pellets ==> q in s.pellets
    ensures |r.pellets| <= |s.pellets|
    ensures s.gameWon ==> r == s
    ensures r.gameWon ==> s.gameWon || r.pellets == []
    decreases |dirs|
  {
    if dirs == [] then s
    else Run(g, if dirs[0] == "" then s else Next(g, s, dirs[0]), dirs[1..])
  }

  /**
   * What holds of every reachable state: Pac-Man stands on an open cell
   * holding no pellet, the pellets lie on distinct open cells, the score is
   * not negative, and a won game has no pellets left.
   */
  ghost predicate Inv(g: array2<int>, s: State)
    reads g
  {
    && IsOpen(g, s.pac)
    && RowMajor(s.pellets)
    && (forall q :: q in s.pellets ==> IsOpen(g, q))
    && s.pac !in s.pellets
    && s.score >= 0
    && (s.gameWon ==> s.pellets == [])
  }

  /** The start state, with the pellet list the initialisation loop builds,
      satisfies the invariant. */
  lemma InitInv(g: array2<int>, pellets: seq<Cell>)
    requires IsOpen(g, Start)
    requires forall q :: q in pellets <==> IsOpen(g, q) && q != Start
    requires RowMajor(pellets)
    ensures Inv(g, State(Start, pellets, 0, false))
  {
  }

  /** A won game ignores every move, and so does a move `canMove` rejects. */
  lemma NextRejected(g: array2<int>, s: State, dir: string)
    requires s.gameWon || !CanMove(g, Target(s.pac, dir).x, Target(s.pac, dir).y)
    ensures Next(g, s, dir) == s
  {
  }

  /**
   * An accepted move puts Pac-Man on the target cell, removes exactly the
   * pellet there (if any), scores one point exactly when it removed one, and
   * sets the win flag exactly when no pellet is left.
   */
  lemma NextAccepted(g: array2<int>, s: State, dir: string)
    requires Inv(g, s)
    requires !s.gameWon && CanMove(g, Target(s.pac, dir).x, Target(s.pac, dir).y)
    ensures var t, s' := Target(s.pac, dir), Next(g, s, dir);
      && s'.pac == t
      && (forall q :: q in s'.pellets <==> q in s.pellets && q != t)
      && |s'.pellets| == (if t in s.pellets then |s.pellets| - 1 else |s.pellets|)
      && s'.score == (if t in s.pellets then s.score + 1 else s.score)
      && (s'.gameWon <==> s'.pellets == [])
  {
    FilterRowMajor(s.pellets, Target(s.pac, dir));
  }

  /**
   * `updatePac` keeps the invariant and the sum of the score and the number
   * of pellets left; the pellet list never grows, the score never drops, and
   * a won game stays won.
   */
  lemma NextPreserves(g: array2<int>, s: State, dir: string)
    requires Inv(g, s)
    ensures var s' := Next(g, s, dir);
      && Inv(g, s')
      && s'.score + |s'.pellets| == s.score + |s.pellets|
      && |s'.pellets| <= |s.pellets|
      && s'.score >= s.score
      && (s.gameWon ==> s'.gameWon)
  {
    var t := Target(s.pac, dir);
    if !s.gameWon && CanMove(g, t.x, t.y) {
      FilterRowMajor(s.pellets, t);
    }
  }

  /**
   * Over any sequence of moves: the invariant holds, `score + |pellets|` is
   * conserved (so from the start state the score is the number of pellets
   * eaten), the pellet list never grows, and once won the state is frozen.
   */
  lemma {:induction false} RunPreserves(g: array2<int>, s: State, dirs: seq<string>)
    requires Inv(g, s)
    ensures var s' := Run(g, s, dirs);
      && Inv(g, s')
      && s'.score + |s'.pellets| == s.score + |s.pellets|
      && |s'.pellets| <= |s.pellets|
      && s'.score >= s.score
      && (s.gameWon ==> s' == s)
    decreases |dirs|
  {
    if dirs != [] {
      NextPreserves(g, s, dirs[0]);
      RunPreserves(g, if dirs[0] == "" then s else Next(g, s, dirs[0]), dirs[1..]);
    }
  }

  /**
   * When (1, 1) is the only open cell the pellet list starts empty, yet the
   * game is never won: the device only ever replies with a direction or "",
   * the loop skips "", and every direction leads into a wall.
   */
  lemma {:induction false} LoneCellNeverWins(g: array2<int>, s: State, dirs: seq<string>)
    requires forall c :: IsOpen(g, c) <==> c == Start
    requires s == State(Start, [], 0, false)
    requires forall k :: 0 <= k < |dirs| ==> dirs[k] in {"LEFT", "RIGHT", "UP", "DOWN", ""}
    ensures Run(g, s, dirs) == s && !Run(g, s, dirs).gameWon
    decreases |dirs|
  {
    if dirs != [] {
      if dirs[0] != "" {
        var t := Target(s.pac, dirs[0]);
        assert t != Start;
        assert Next(g, s, dirs[0]) == s;
      }
      LoneCellNeverWins(g, s, dirs[1..]);
    }
  }

  /**
   * A 3 × 3 grid open only at (1, 1) and (1, 2): the initialisation loop's
   * pellet list is just (1, 2); moving DOWN eats it, scores 1 and wins; a
   * later UP changes nothing.
   */
  lemma CorridorScenario(g: array2<int>, ps: seq<Cell>)
    requires g.Length0 == 3 && g.Length1 == 3
    requires forall j, i :: 0 <= j < 3 && 0 <= i < 3 ==>
      g[j, i] == (if i == 1 && (j == 1 || j == 2) then OPEN else WALL)
    requires forall q :: q in ps <==> IsOpen(g, q) && q != Start
    requires RowMajor(ps)
    ensures ps == [Cell(1, 2)]
    ensures var s0 := State(Start, ps, 0, false);
      && Next(g, s0, "DOWN") == State(Cell(1, 2), [], 1, true)
      && Run(g, s0, ["DOWN", "UP"]) == State(Cell(1, 2), [], 1, true)
  {
    forall q ensures q in ps <==> q in [Cell(1, 2)] {
      if InBounds(g, q) {
        assert g[q.y, q.x] == (if q.x == 1 && (q.y == 1 || q.y == 2) then OPEN else WALL);
      }
    }
    RowMajorUnique(ps, [Cell(1, 2)]);
    var s0 := State(Start, ps, 0, false);
    assert g[2, 1] == OPEN;
    assert Filter([Cell(1, 2)], Cell(1, 2)) == [];
    var s1 := Next(g, s0, "DOWN");
    assert s1 == State(Cell(1, 2), [], 1, true);
    assert ["DOWN", "UP"][1..] == ["UP"];
    assert Run(g, s0, ["DOWN", "UP"]) == Run(g, s1, ["UP"]);
  }

  /**
   * The page script's global game variables, over the grid the maze
   * generator returned.
   */
  class Game {
    const grid: array2<int>
    var pac: Cell
    var pellets: seq<Cell>
    var score: int
    var gameWon: bool

    function Snapshot(): State
      reads this
    {
      State(pac, pellets, score, gameWon)
    }

    ghost predicate Valid()
      reads this, grid
    {
      Inv(grid, Snapshot())
    }

    /** Script start-up: Pac-Man at (1, 1), score 0, not won, and the
        pellet list built by the initialisation loop. */
    constructor (grid: array2<int>)
      requires IsOpen(grid, Start)
      ensures Valid() && this.grid == grid
      ensures pac == Start && score == 0 && !gameWon
      ensures forall q :: q in pellets <==> IsOpen(grid, q) && q != Start
      ensures RowMajor(pellets)
    {
      var ps := CollectPellets(grid, Start);
      this.grid := grid;
      pac, pellets, score, gameWon := Start, ps, 0, false;
    }

    /** `updatePac(dir)`. */
    method UpdatePac(dir: string)
      requires Valid()
      modifies this
      ensures Valid()
      ensures Snapshot() == Next(grid, old(Snapshot()), dir)
    {
      ghost var s := Snapshot();
      ghost var s' := Next(grid, s, dir);
      NextPreserves(grid, s, dir);
      if gameWon {
        return;
      }
      var nx, ny := pac.x, pac.y;
      if dir == "LEFT" {
        nx := nx - 1;
      } else if dir == "RIGHT" {
        nx := nx + 1;
      } else if dir == "UP" {
        ny := ny - 1;
      } else if dir == "DOWN" {
        ny := ny + 1;
      }
      assert Cell(nx, ny) == Target(s.pac, dir);
      if CanMove(grid, nx, ny) {
        pac := Cell(nx, ny);
        var before := |pellets|;
        pellets := Filter(pellets, pac);
        var after := |pellets|;
        if after < before {
          score := score + 1;
        }
        if |pellets| == 0 {
          gameWon := true;
        }
        assert Snapshot() == s';
      }
    }
  }
}
