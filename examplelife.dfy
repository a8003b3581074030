/**
 * The stand-alone example program: Conway's Life (born with 3 live
 * neighbours, survives with 2 or 3) on a fixed 256 by 144 torus, with a 20%
 * random start and a scratch buffer that `step` writes before copying it back.
 */
module ExampleLife {
  import opened Common
  import opened Spawning

  const GRID_W: nat := 256
  const GRID_H: nat := 144
  const CELLS: nat := GRID_W * GRID_H

  /**
   * The chance of a live cell in `new` and `randomize`: the `f64` nearest to
   * 0.2, which is 3602879701896397 / 2^54, written out exactly.
   */
  const SPAWN_CHANCE: real := 0.200000000000000011102230246251565404236316680908203125

  /** `gen_bool(0.2)` fires on exactly the words below 3602879701896397 * 2^10. */
  lemma SpawnThreshold(w: u64)
    ensures GenBool(w, SPAWN_CHANCE) <==> w < 3689348814741910528
  {
    assert SPAWN_CHANCE * 18446744073709551616.0 == 3689348814741910528.0;
  }

  // ---------------------------------------------------------------------------
  // Neighbourhoods on the torus
  // ---------------------------------------------------------------------------

  /** `(v + d + n) % n`: a coordinate moved by `d` in `-1 ..= 1`, wrapped around an axis of `n` cells. */
  function Wrap(v: nat, d: int, n: nat): (r: nat)
    requires 0 <= v < n && -1 <= d <= 1
    ensures r < n
    ensures d == 0 ==> r == v
  {
    (v + d + n) % n
  }

  /** Moving off either end of an axis lands on the other end; any other move stays on the axis. */
  lemma WrapCases(v: nat, d: int, n: nat)
    requires 0 <= v < n && -1 <= d <= 1
    ensures Wrap(v, d, n) == if v + d < 0 then n - 1 else if v + d >= n then 0 else v + d
  {
    var a := v + d + n;
    if v + d < 0 {
      DivModUnique(a, n, 0, n - 1);
    } else if v + d >= n {
      DivModUnique(a, n, 2, 0);
    } else {
      DivModUnique(a, n, 1, v + d);
    }
  }

  /** On an axis of at least 3 cells, different moves from the same cell land on different cells. */
  lemma WrapInjective(v: nat, d: int, e: int, n: nat)
    requires 0 <= v < n && n >= 3 && -1 <= d <= 1 && -1 <= e <= 1
    requires Wrap(v, d, n) == Wrap(v, e, n)
    ensures d == e
  {
    WrapCases(v, d, n);
    WrapCases(v, e, n);
  }

  /** `ny * GRID_W + nx`: the cell at offset `(dx, dy)` from `(x, y)`. */
  function NeighbourIndex(x: nat, y: nat, dx: int, dy: int): (i: nat)
    requires x < GRID_W && y < GRID_H && -1 <= dx <= 1 && -1 <= dy <= 1
    ensures i < CELLS
  {
    Wrap(y, dy, GRID_H) * GRID_W + Wrap(x, dx, GRID_W)
  }

  /**
   * The cell and its eight neighbours are nine different cells: two offsets
   * in `-1 ..= 1` reach the same cell only when they are equal.
   */
  lemma NeighbourIndexInjective(x: nat, y: nat, dx: int, dy: int, ex: int, ey: int)
    requires x < GRID_W && y < GRID_H
    requires -1 <= dx <= 1 && -1 <= dy <= 1 && -1 <= ex <= 1 && -1 <= ey <= 1
    requires NeighbourIndex(x, y, dx, dy) == NeighbourIndex(x, y, ex, ey)
    ensures dx == ex && dy == ey
  {
    var i := NeighbourIndex(x, y, dx, dy);
    DivModUnique(i, GRID_W, Wrap(y, dy, GRID_H), Wrap(x, dx, GRID_W));
    DivModUnique(i, GRID_W, Wrap(y, ey, GRID_H), Wrap(x, ex, GRID_W));
    WrapInjective(x, dx, ex, GRID_W);
    WrapInjective(y, dy, ey, GRID_H);
  }

  /** The offset `(0, 0)` is the cell itself, at `y * GRID_W + x`. */
  lemma NeighbourIndexCentre(x: nat, y: nat)
    requires x < GRID_W && y < GRID_H
    ensures NeighbourIndex(x, y, 0, 0) == y * GRID_W + x
  {
  }

  // ---------------------------------------------------------------------------
  // Counting live neighbours
  // ---------------------------------------------------------------------------

  /** What the inner loop adds for offset `(dx, dy)`: nothing for the cell itself, else the neighbour's state. */
  function Term(g: seq<u8>, x: nat, y: nat, dx: int, dy: int): u8
    requires |g| == CELLS && x < GRID_W && y < GRID_H && -1 <= dx <= 1 && -1 <= dy <= 1
  {
    if dx == 0 && dy == 0 then 0 else g[NeighbourIndex(x, y, dx, dy)]
  }

  /** The sum the `dx` loop has reached in row `dy` after its first `k` offsets. */
  function RowLive(g: seq<u8>, x: nat, y: nat, dy: int, k: nat): nat
    requires |g| == CELLS && x < GRID_W && y < GRID_H && -1 <= dy <= 1 && k <= 3
  {
    if k == 0 then 0 else RowLive(g, x, y, dy, k - 1) + Term(g, x, y, k - 2, dy)
  }

  /** The sum the `dy` loop has reached after its first `j` rows. */
  function LiveUpTo(g: seq<u8>, x: nat, y: nat, j: nat): nat
    requires |g| == CELLS && x < GRID_W && y < GRID_H && j <= 3
  {
    if j == 0 then 0 else LiveUpTo(g, x, y, j - 1) + RowLive(g, x, y, j - 2, 3)
  }

  /** The live-neighbour count of `step`, in the order its loops add the terms. */
  function LiveCount(g: seq<u8>, x: nat, y: nat): nat
    requires |g| == CELLS && x < GRID_W && y < GRID_H
  {
    LiveUpTo(g, x, y, 3)
  }

  /** On a 0/1 grid a row holds at most one live cell per offset, so the `u8` accumulator never passes 9. */
  lemma {:induction false} PartialLiveBounds(g: seq<u8>, x: nat, y: nat, j: nat, dy: int, k: nat)
    requires |g| == CELLS && Binary(g) && x < GRID_W && y < GRID_H && j <= 3 && -1 <= dy <= 1 && k <= 3
    ensures LiveUpTo(g, x, y, j) <= 3 * j && RowLive(g, x, y, dy, k) <= k
  {
    if k > 0 {
      PartialLiveBounds(g, x, y, j, dy, k - 1);
    }
    if j > 0 {
      PartialLiveBounds(g, x, y, j - 1, j - 2, 3);
    }
  }

  /** The eight Moore offsets `(dx, dy)`, in the order the loops visit them. */
  const MOORE: seq<(int, int)> := [(-1, -1), (0, -1), (1, -1), (-1, 0), (1, 0), (-1, 1), (0, 1), (1, 1)]

  /** The live cells among the Moore neighbours from the `k`-th on. */
  function MooreLive(g: seq<u8>, x: nat, y: nat, k: nat): nat
    requires |g| == CELLS && x < GRID_W && y < GRID_H && k <= |MOORE|
    decreases |MOORE| - k
  {
    if k == |MOORE| then 0
    else g[NeighbourIndex(x, y, MOORE[k].0, MOORE[k].1)] + MooreLive(g, x, y, k + 1)
  }

  /** A full row of the `dx` loop adds its three terms. */
  lemma RowLiveFull(g: seq<u8>, x: nat, y: nat, dy: int)
    requires |g| == CELLS && x < GRID_W && y < GRID_H && -1 <= dy <= 1
    ensures RowLive(g, x, y, dy, 3) == Term(g, x, y, -1, dy) + Term(g, x, y, 0, dy) + Term(g, x, y, 1, dy)
  {
    assert RowLive(g, x, y, dy, 1) == Term(g, x, y, -1, dy);
  }

  /** The loops' count is the number of live cells among the eight Moore neighbours. */
  lemma LiveCountIsMoore(g: seq<u8>, x: nat, y: nat)
    requires |g| == CELLS && x < GRID_W && y < GRID_H
    ensures LiveCount(g, x, y) == MooreLive(g, x, y, 0)
  {
    RowLiveFull(g, x, y, -1);
    RowLiveFull(g, x, y, 0);
    RowLiveFull(g, x, y, 1);
    assert LiveUpTo(g, x, y, 1) == RowLive(g, x, y, -1, 3);
    assert LiveUpTo(g, x, y, 2) == LiveUpTo(g, x, y, 1) + RowLive(g, x, y, 0, 3);
    assert MooreLive(g, x, y, 7) == Term(g, x, y, 1, 1);
    assert MooreLive(g, x, y, 5) == RowLive(g, x, y, 1, 3);
    assert MooreLive(g, x, y, 3) == RowLive(g, x, y, 0, 3) + MooreLive(g, x, y, 5);
    assert MooreLive(g, x, y, 0) == RowLive(g, x, y, -1, 3) + MooreLive(g, x, y, 3);
  }

  /** The eight Moore neighbours are eight different cells, none of them the cell itself. */
  lemma MooreDistinct(x: nat, y: nat)
    requires x < GRID_W && y < GRID_H
    ensures forall k, l :: 0 <= k < l < |MOORE| ==>
      NeighbourIndex(x, y, MOORE[k].0, MOORE[k].1) != NeighbourIndex(x, y, MOORE[l].0, MOORE[l].1)
    ensures forall k :: 0 <= k < |MOORE| ==> NeighbourIndex(x, y, MOORE[k].0, MOORE[k].1) != y * GRID_W + x
  {
    forall k, l | 0 <= k < l < |MOORE|
      ensures NeighbourIndex(x, y, MOORE[k].0, MOORE[k].1) != NeighbourIndex(x, y, MOORE[l].0, MOORE[l].1)
    {
      if NeighbourIndex(x, y, MOORE[k].0, MOORE[k].1) == NeighbourIndex(x, y, MOORE[l].0, MOORE[l].1) {
        NeighbourIndexInjective(x, y, MOORE[k].0, MOORE[k].1, MOORE[l].0, MOORE[l].1);
      }
    }
    forall k | 0 <= k < |MOORE|
      ensures NeighbourIndex(x, y, MOORE[k].0, MOORE[k].1) != y * GRID_W + x
    {
      NeighbourIndexCentre(x, y);
      if NeighbourIndex(x, y, MOORE[k].0, MOORE[k].1) == y * GRID_W + x {
        NeighbourIndexInjective(x, y, MOORE[k].0, MOORE[k].1, 0, 0);
      }
    }
  }

  /** On a 0/1 grid each Moore neighbour adds at most one. */
  lemma {:induction false} MooreLiveBound(g: seq<u8>, x: nat, y: nat, k: nat)
    requires |g| == CELLS && Binary(g) && x < GRID_W && y < GRID_H && k <= |MOORE|
    ensures MooreLive(g, x, y, k) <= |MOORE| - k
    decreases |MOORE| - k
  {
    if k < |MOORE| {
      MooreLiveBound(g, x, y, k + 1);
    }
  }

  /** On a 0/1 grid a cell has at most 8 live neighbours. */
  lemma LiveCountBound(g: seq<u8>, x: nat, y: nat)
    requires |g| == CELLS && Binary(g) && x < GRID_W && y < GRID_H
    ensures LiveCount(g, x, y) <= 8
  {
    LiveCountIsMoore(g, x, y);
    MooreLiveBound(g, x, y, 0);
  }

  // ---------------------------------------------------------------------------
  // The rule
  // ---------------------------------------------------------------------------

  /** The rule of `step`: a live cell with 2 or 3 live neighbours stays alive, a dead one with 3 comes alive. */
  function NextState(cell: u8, live: nat): u8 {
    if cell == 1 && (live == 2 || live == 3) then 1
    else if cell == 0 && live == 3 then 1
    else 0
  }

  /** B3/S23: on a 0/1 cell the next state is alive exactly when there are 3 live neighbours, or 2 and the cell is alive. */
  lemma NextStateIsB3S23(cell: u8, live: nat)
    requires cell <= 1
    ensures NextState(cell, live) <= 1
    ensures NextState(cell, live) == 1 <==> live == 3 || (cell == 1 && live == 2)
  {
  }

  /** The state of cell `i` after one `step` of grid `g`. */
  function NextCell(g: seq<u8>, i: nat): u8
    requires |g| == CELLS && i < CELLS
  {
    NextState(g[i], LiveCount(g, i % GRID_W, i / GRID_W))
  }

  /** The grid after one `step`. */
  function NextGrid(g: seq<u8>): (r: seq<u8>)
    requires |g| == CELLS
    ensures |r| == CELLS && Binary(r)
  {
    seq(CELLS, i requires 0 <= i < CELLS => NextCell(g, i))
  }

  /** A grid with no live cell stays without one. */
  lemma EmptyGridStaysEmpty(g: seq<u8>)
    requires |g| == CELLS && forall i :: 0 <= i < CELLS ==> g[i] == 0
    ensures NextGrid(g) == g
  {
    forall i | 0 <= i < CELLS
      ensures NextGrid(g)[i] == 0
    {
      LiveCountIsMoore(g, i % GRID_W, i / GRID_W);
      MooreLiveDead(g, i % GRID_W, i / GRID_W, 0);
    }
  }

  /** No neighbour of any cell is alive on a grid with no live cell. */
  lemma {:induction false} MooreLiveDead(g: seq<u8>, x: nat, y: nat, k: nat)
    requires |g| == CELLS && x < GRID_W && y < GRID_H && k <= |MOORE|
    requires forall i :: 0 <= i < CELLS ==> g[i] == 0
    ensures MooreLive(g, x, y, k) == 0
    decreases |MOORE| - k
  {
    if k < |MOORE| {
      MooreLiveDead(g, x, y, k + 1);
    }
  }

  /** The loops of `step` for one cell: its live-neighbour count, accumulated in a `u8` as the source does. */
  method CountLive(cells: array<u8>, x: nat, y: nat) returns (live: u8)
    requires cells.Length == CELLS && Binary(cells[..]) && x < GRID_W && y < GRID_H
    ensures live == LiveCount(cells[..], x, y)
  {
    live := 0;
    for j := 0 to 3
      invariant live == LiveUpTo(cells[..], x, y, j)
    {
      PartialLiveBounds(cells[..], x, y, j, j - 1, 3);
      live := AddRow(cells, x, y, j - 1, live);
    }
  }

  /** The `dx` loop of one row `dy`: the row's live neighbours added to `live`. */
  method AddRow(cells: array<u8>, x: nat, y: nat, dy: int, live0: u8) returns (live: u8)
    requires cells.Length == CELLS && Binary(cells[..]) && x < GRID_W && y < GRID_H && -1 <= dy <= 1
    requires live0 <= 6
    ensures live == live0 + RowLive(cells[..], x, y, dy, 3)
  {
    live := live0;
    for i := 0 to 3
      invariant live == live0 + RowLive(cells[..], x, y, dy, i)
    {
      var dx := i - 1;
      PartialLiveBounds(cells[..], x, y, 0, dy, i);
      if !(dx == 0 && dy == 0) {
        var nx := Wrap(x, dx, GRID_W);
        var ny := Wrap(y, dy, GRID_H);
        assert ny * GRID_W + nx == NeighbourIndex(x, y, dx, dy);
        live := live + cells[ny * GRID_W + nx];
      }
      assert RowLive(cells[..], x, y, dy, i + 1) == RowLive(cells[..], x, y, dy, i) + Term(cells[..], x, y, dx, dy);
    }
  }

  // ---------------------------------------------------------------------------
  // The automaton
  // ---------------------------------------------------------------------------

  /** `Automata`: the grid and the scratch buffer `step` writes into. */
  class Automata {
    var cells: array<u8>
    var scratch: array<u8>

    /** Two separate buffers of `GRID_W * GRID_H` cells, the grid a 0/1 grid. */
    ghost predicate Valid()
      reads this, cells
    {
      cells != scratch && cells.Length == CELLS && scratch.Length == CELLS && Binary(cells[..])
    }

    /**
     * `Automata::new`: a fresh generator's words `rng` decide each cell with
     * `gen_bool(0.2)`, one word per cell, and the scratch buffer starts as a copy.
     */
    constructor (rng: seq<u64>)
      requires CELLS <= |rng|
      ensures Valid() && fresh(cells) && fresh(scratch)
      ensures cells[..] == Spawned(rng, 0, CELLS, SPAWN_CHANCE) && scratch[..] == cells[..]
    {
      var grid := new u8[CELLS](_ => 0);
      var _ := SpawnInto(grid, rng, 0, SPAWN_CHANCE);
      var copy := new u8[CELLS](i requires 0 <= i < CELLS reads grid => grid[i]);
      cells := grid;
      scratch := copy;
    }

    /** `step`: every cell of the next grid written to the scratch buffer, row by row, then copied back. */
    method Step()
      requires Valid()
      modifies cells, scratch
      ensures Valid()
      ensures cells[..] == NextGrid(old(cells[..])) && scratch[..] == cells[..]
    {
      ghost var g := cells[..];
      for y := 0 to GRID_H
        invariant cells[..] == g
        invariant forall i :: 0 <= i < y * GRID_W ==> scratch[i] == NextCell(g, i)
      {
        for x := 0 to GRID_W
          invariant cells[..] == g
          invariant forall i :: 0 <= i < y * GRID_W + x ==> scratch[i] == NextCell(g, i)
        {
          var idx := y * GRID_W + x;
          var live := CountLive(cells, x, y);
          var cell := cells[idx];
          var next: u8 := if cell == 1 && (live == 2 || live == 3) then 1
            else if cell == 0 && live == 3 then 1
            else 0;
          DivModUnique(idx, GRID_W, y, x);
          scratch[idx] := next;
        }
      }
      forall i | 0 <= i < CELLS {
        cells[i] := scratch[i];
      }
      assert cells[..] == NextGrid(g);
    }

    /** `randomize`: a fresh generator's words `rng` redraw every cell with `gen_bool(0.2)`. */
    method Randomize(rng: seq<u64>)
      requires Valid() && CELLS <= |rng|
      modifies cells
      ensures Valid()
      ensures cells[..] == Spawned(rng, 0, CELLS, SPAWN_CHANCE)
    {
      var _ := SpawnInto(cells, rng, 0, SPAWN_CHANCE);
    }
  }
}
