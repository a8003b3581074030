/**
 * The `Automata` engine: a binary cellular automaton on a `gridW` by `gridH`
 * torus. Every cell packs the states of the cells at its neighbourhood
 * offsets into a key, and the rule collection maps the key to the next state.
 * A step is synchronous: all new states are computed from the old buffer into
 * a second buffer, and then the two buffers swap.
 */
module AutomataEngine {
  import opened Common
  import opened Rules
  import opened Spawning

  // ---------------------------------------------------------------------------
  // Neighbourhood offsets
  // ---------------------------------------------------------------------------

  /** First offset along an axis of `n` cells: `-((n - 1) / 2)`, and 0 for an empty axis. */
  function AxisStart(n: nat): int {
    if n == 0 then 0 else -((n - 1) / 2)
  }

  /**
   * `AxisStart` is the source's `-((n as isize - 1) / 2)`: Rust's `/` truncates
   * toward zero, so `n == 0` gives `-(-1 / 2) == 0` and not 1.
   */
  lemma AxisStartTruncates(n: nat)
    ensures AxisStart(n) == -TruncDiv(n - 1, 2)
    ensures n == 0 ==> TruncDiv(n - 1, 2) == 0
  {
  }

  /** Last offset along an axis of `n` cells, inclusive: `n / 2`. Even sizes lean to the positive side. */
  function AxisEnd(n: nat): int {
    n / 2
  }

  /** The number of offsets `AxisStart(n) ..= AxisEnd(n)` along an axis: `n`, and 1 for an empty axis. */
  function AxisSpan(n: nat): (k: nat)
    ensures k == AxisEnd(n) - AxisStart(n) + 1
    ensures k >= 1
    ensures n >= 1 ==> k == n
  {
    if n == 0 then 1 else n
  }

  /** Column `dx` of a box: the offsets `(dx, sy)`, `(dx, sy + 1)`, ... for `n` rows. */
  function Column(dx: int, sy: int, n: nat): seq<(int, int)> {
    seq(n, j requires 0 <= j < n => (dx, sy + j))
  }

  /**
   * The box of offsets with columns `sx .. sx + sw` and rows `sy .. sy + sh`,
   * listed column by column, each column from its top row down.
   */
  function OffsetGrid(sx: int, sw: nat, sy: int, sh: nat): seq<(int, int)>
    decreases sw
  {
    if sw == 0 then [] else OffsetGrid(sx, sw - 1, sy, sh) + Column(sx + sw - 1, sy, sh)
  }

  /**
   * The offset list of `Automata::new`: `dx` runs over `AxisStart(w) ..= AxisEnd(w)`
   * in the outer loop and `dy` over `AxisStart(h) ..= AxisEnd(h)` in the inner one.
   */
  function Offsets(w: nat, h: nat): seq<(int, int)> {
    OffsetGrid(AxisStart(w), AxisSpan(w), AxisStart(h), AxisSpan(h))
  }

  /** A box of `sw` columns of `sh` rows lists `sw * sh` offsets. */
  lemma {:induction false} GridCount(sx: int, sw: nat, sy: int, sh: nat)
    ensures |OffsetGrid(sx, sw, sy, sh)| == sw * sh
  {
    if sw > 0 {
      GridCount(sx, sw - 1, sy, sh);
      assert (sw - 1) * sh + sh == sw * sh;
    }
  }

  /** An offset is in the box's list exactly when its column and row lie in the box. */
  lemma {:induction false} GridMembers(sx: int, sw: nat, sy: int, sh: nat)
    ensures forall p: (int, int) :: p in OffsetGrid(sx, sw, sy, sh) <==> sx <= p.0 < sx + sw && sy <= p.1 < sy + sh
  {
    if sw > 0 {
      GridMembers(sx, sw - 1, sy, sh);
      var col := Column(sx + sw - 1, sy, sh);
      forall p: (int, int) | sx + sw - 1 == p.0 && sy <= p.1 < sy + sh
        ensures p in col
      {
        assert col[p.1 - sy] == p;
      }
    }
  }

  /** No offset is listed twice. */
  lemma {:induction false} GridDistinct(sx: int, sw: nat, sy: int, sh: nat)
    ensures forall k, l :: 0 <= k < l < |OffsetGrid(sx, sw, sy, sh)| ==>
      OffsetGrid(sx, sw, sy, sh)[k] != OffsetGrid(sx, sw, sy, sh)[l]
  {
    if sw > 0 {
      var left := OffsetGrid(sx, sw - 1, sy, sh);
      var g := OffsetGrid(sx, sw, sy, sh);
      GridDistinct(sx, sw - 1, sy, sh);
      GridMembers(sx, sw - 1, sy, sh);
      forall k, l | 0 <= k < l < |g|
        ensures g[k] != g[l]
      {
        if l >= |left| && k < |left| {
          assert left[k] in left;
        }
      }
    }
  }

  /** A non-empty neighbourhood has exactly `w * h` offsets. */
  lemma OffsetsCount(w: nat, h: nat)
    requires w >= 1 && h >= 1
    ensures |Offsets(w, h)| == w * h
  {
    GridCount(AxisStart(w), AxisSpan(w), AxisStart(h), AxisSpan(h));
  }

  /** The offsets are exactly the centred box `AxisStart ..= AxisEnd` on both axes. */
  lemma OffsetsAreBox(w: nat, h: nat)
    ensures forall dx, dy :: (dx, dy) in Offsets(w, h) <==>
      AxisStart(w) <= dx <= AxisEnd(w) && AxisStart(h) <= dy <= AxisEnd(h)
  {
    GridMembers(AxisStart(w), AxisSpan(w), AxisStart(h), AxisSpan(h));
  }

  /** No offset appears twice. */
  lemma OffsetsDistinct(w: nat, h: nat)
    ensures forall k, l :: 0 <= k < l < |Offsets(w, h)| ==> Offsets(w, h)[k] != Offsets(w, h)[l]
  {
    GridDistinct(AxisStart(w), AxisSpan(w), AxisStart(h), AxisSpan(h));
  }

  /** `Automata::new`'s nested loops: push `(dx, dy)` for `dx` in `startX ..= endX` and, inside, `dy` in `startY ..= endY`. */
  method PushOffsets(startX: int, endX: int, startY: int, endY: int) returns (offsets: seq<(int, int)>)
    requires startX <= endX + 1 && startY <= endY + 1
    ensures offsets == OffsetGrid(startX, endX - startX + 1, startY, endY - startY + 1)
  {
    ghost var spanH: nat := endY - startY + 1;
    offsets := [];
    var dx := startX;
    while dx <= endX
      invariant startX <= dx <= endX + 1
      invariant offsets == OffsetGrid(startX, dx - startX, startY, spanH)
    {
      var dy := startY;
      while dy <= endY
        invariant startY <= dy <= endY + 1
        invariant offsets == OffsetGrid(startX, dx - startX, startY, spanH) + Column(dx, startY, dy - startY)
      {
        assert Column(dx, startY, dy - startY) + [(dx, dy)] == Column(dx, startY, dy + 1 - startY);
        offsets := offsets + [(dx, dy)];
        dy := dy + 1;
      }
      dx := dx + 1;
    }
  }

  /** The offset list `Automata::new` builds, with the centred bounds of both axes. */
  method BuildOffsets(w: nat, h: nat) returns (offsets: seq<(int, int)>)
    ensures offsets == Offsets(w, h)
  {
    var startX, endX := AxisStart(w), AxisEnd(w);
    var startY, endY := AxisStart(h), AxisEnd(h);
    ghost var spanW, spanH := AxisSpan(w), AxisSpan(h);
    assert endX - startX + 1 == spanW && endY - startY + 1 == spanH;
    offsets := PushOffsets(startX, endX, startY, endY);
  }

  // ---------------------------------------------------------------------------
  // Neighbourhood keys
  // ---------------------------------------------------------------------------

  /** Bit `i` of `k`. */
  function Bit(k: nat, i: nat): nat {
    if i == 0 then k % 2 else Bit(k / 2, i - 1)
  }

  /** Bitwise OR of two naturals, built from the lowest bit up. */
  function BitOr(a: nat, b: nat): nat
    decreases a + b
  {
    if a == 0 && b == 0 then 0
    else (if a % 2 == 1 || b % 2 == 1 then 1 else 0) + 2 * BitOr(a / 2, b / 2)
  }

  /** `BitOr` is the OR of every bit. */
  lemma {:induction false} BitOrBits(a: nat, b: nat, i: nat)
    ensures Bit(BitOr(a, b), i) == if Bit(a, i) == 1 || Bit(b, i) == 1 then 1 else 0
    decreases i
  {
    var lo := if a % 2 == 1 || b % 2 == 1 then 1 else 0;
    if a == 0 && b == 0 {
      BitOfZero(i);
    } else {
      DivModUnique(BitOr(a, b), 2, BitOr(a / 2, b / 2), lo);
      if i > 0 {
        BitOrBits(a / 2, b / 2, i - 1);
      }
    }
  }

  lemma {:induction false} BitOfZero(i: nat)
    ensures Bit(0, i) == 0
  {
    if i > 0 {
      BitOfZero(i - 1);
    }
  }

  /** OR keeps values below `2^n` below `2^n`. */
  lemma {:induction false} BitOrBelow(a: nat, b: nat, n: nat)
    requires a < Pow2(n) && b < Pow2(n)
    ensures BitOr(a, b) < Pow2(n)
    decreases n
  {
    if n > 0 && (a != 0 || b != 0) {
      BitOrBelow(a / 2, b / 2, n - 1);
    }
  }

  /**
   * `(v as u64) << i` for a shift `i < 64`: the bits pushed past bit 63 are
   * lost. A shift of 64 or more panics in Rust, which `Automata.Step` rules
   * out by requiring at most 64 offsets.
   */
  function Shl64(v: nat, i: nat): (r: nat)
    ensures r <= U64_MAX
  {
    (v * Pow2(i)) % (U64_MAX + 1)
  }

  /**
   * `get_neighborhood_hash`'s fold: `acc | (s[i] << i)` over the states in
   * offset order, starting from 0.
   */
  function OrFold(s: seq<u8>): (key: nat)
    ensures key <= U64_MAX
  {
    if s == [] then 0
    else
      var n := |s| - 1;
      var acc := OrFold(s[..n]);
      var v := Shl64(s[n], n);
      Pow2Of64();
      BitOrBelow(acc, v, 64);
      BitOr(acc, v)
  }

  /** The number whose bit `i` is `s[i]`: `s[0] + 2 * s[1] + 4 * s[2] + ...`. */
  function PackBits(s: seq<u8>): nat {
    if s == [] then 0 else s[0] + 2 * PackBits(s[1..])
  }

  lemma {:induction false} PackBitsBit(s: seq<u8>, i: nat)
    requires Binary(s)
    ensures i < |s| ==> Bit(PackBits(s), i) == s[i]
    ensures i >= |s| ==> Bit(PackBits(s), i) == 0
    decreases i
  {
    if s == [] {
      BitOfZero(i);
    } else {
      DivModUnique(PackBits(s), 2, PackBits(s[1..]), s[0]);
      if i > 0 {
        PackBitsBit(s[1..], i - 1);
      }
    }
  }

  lemma {:induction false} PackBitsBound(s: seq<u8>)
    requires Binary(s)
    ensures PackBits(s) < Pow2(|s|)
  {
    if s != [] {
      PackBitsBound(s[1..]);
    }
  }

  lemma {:induction false} PackBitsSnoc(s: seq<u8>, c: u8)
    ensures PackBits(s + [c]) == PackBits(s) + c * Pow2(|s|)
  {
    if s != [] {
      var t := s + [c];
      assert t[0] == s[0] && t[1..] == s[1..] + [c];
      PackBitsSnoc(s[1..], c);
      var p := Pow2(|s| - 1);
      var m := c * p;
      assert Pow2(|s|) == 2 * p;
      assert c * Pow2(|s|) == 2 * m;
      assert PackBits(t) == s[0] + 2 * (PackBits(s[1..]) + m);
    }
  }

  lemma {:induction false} BitOrZero(a: nat)
    ensures BitOr(a, 0) == a
  {
    if a != 0 {
      BitOrZero(a / 2);
    }
  }

  /** OR with a power of two above every bit of `a` is addition. */
  lemma {:induction false} BitOrPow(a: nat, k: nat)
    requires a < Pow2(k)
    ensures BitOr(a, Pow2(k)) == a + Pow2(k)
  {
    if k == 0 {
      assert BitOr(0, 1) == 1 + 2 * BitOr(0, 0);
    } else {
      DivModUnique(Pow2(k), 2, Pow2(k - 1), 0);
      BitOrPow(a / 2, k - 1);
    }
  }

  /** Shifting a 0/1 state by less than 64 loses nothing. */
  lemma ShlBinary(c: nat, n: nat)
    requires c <= 1 && n < 64
    ensures Shl64(c, n) == c * Pow2(n)
  {
    var p := Pow2(n);
    Pow2Below64(n);
    if c == 0 {
      assert c * p == 0;
    } else {
      assert c * p == p;
      DivModUnique(p, U64_MAX + 1, 0, p);
    }
  }

  /** OR-ing a 0/1 state at bit `n` onto a value below `2^n` adds it. */
  lemma OrOntoTop(acc: nat, c: nat, n: nat)
    requires c <= 1 && acc < Pow2(n)
    ensures BitOr(acc, c * Pow2(n)) == acc + c * Pow2(n)
  {
    var p := Pow2(n);
    if c == 0 {
      assert c * p == 0;
      BitOrZero(acc);
    } else {
      assert c * p == p;
      BitOrPow(acc, n);
    }
  }

  /** On 0/1 states, OR-ing the shifted states is the same as adding them: the fold is `PackBits`. */
  lemma {:induction false} OrFoldIsPackBits(s: seq<u8>)
    requires Binary(s) && |s| <= 64
    ensures OrFold(s) == PackBits(s)
  {
    if s != [] {
      var n := |s| - 1;
      OrFoldIsPackBits(s[..n]);
      PackBitsBound(s[..n]);
      ShlBinary(s[n], n);
      OrOntoTop(PackBits(s[..n]), s[n], n);
      PackBitsSnoc(s[..n], s[n]);
      assert s[..n] + [s[n]] == s;
    }
  }

  /** The wrapped flat index of the neighbour at `offset` from `(x, y)`: `rem_euclid` on both axes. */
  function NeighborIndex(gridW: nat, gridH: nat, x: int, y: int, offset: (int, int)): (idx: nat)
    requires gridW > 0 && gridH > 0
    ensures idx < gridW * gridH
    ensures idx % gridW == (x + offset.0) % gridW && idx / gridW == (y + offset.1) % gridH
  {
    CellIndex((x + offset.0) % gridW, (y + offset.1) % gridH, gridW, gridH)
  }

  /** The states of the cells at the offsets of `(x, y)`, in offset order. */
  function NeighborStates(cells: seq<u8>, gridW: nat, gridH: nat, offsets: seq<(int, int)>, x: int, y: int): (s: seq<u8>)
    requires |cells| == gridW * gridH && gridW > 0 && gridH > 0
    ensures |s| == |offsets|
  {
    seq(|offsets|, i requires 0 <= i < |offsets| => cells[NeighborIndex(gridW, gridH, x, y, offsets[i])])
  }

  /** `get_neighborhood_hash(x, y)`. */
  function NeighborhoodKey(cells: seq<u8>, gridW: nat, gridH: nat, offsets: seq<(int, int)>, x: int, y: int): u64
    requires |cells| == gridW * gridH && gridW > 0 && gridH > 0
  {
    OrFold(NeighborStates(cells, gridW, gridH, offsets, x, y))
  }

  /**
   * The key layout: on a 0/1 grid, bit `i` of the key is the state of the
   * neighbour at offset `i` and every higher bit is clear, so the key lies
   * below `2^|offsets|`.
   */
  lemma KeyLayout(cells: seq<u8>, gridW: nat, gridH: nat, offsets: seq<(int, int)>, x: int, y: int)
    requires |cells| == gridW * gridH && gridW > 0 && gridH > 0
    requires Binary(cells) && |offsets| <= 64
    ensures NeighborhoodKey(cells, gridW, gridH, offsets, x, y) < Pow2(|offsets|)
    ensures forall i :: 0 <= i < |offsets| ==>
      Bit(NeighborhoodKey(cells, gridW, gridH, offsets, x, y), i) == cells[NeighborIndex(gridW, gridH, x, y, offsets[i])]
    ensures forall i: nat :: i >= |offsets| ==> Bit(NeighborhoodKey(cells, gridW, gridH, offsets, x, y), i) == 0
  {
    var s := NeighborStates(cells, gridW, gridH, offsets, x, y);
    assert Binary(s);
    OrFoldIsPackBits(s);
    PackBitsBound(s);
    forall i: nat
      ensures Bit(PackBits(s), i) == if i < |s| then s[i] else 0
    {
      PackBitsBit(s, i);
    }
  }

  // ---------------------------------------------------------------------------
  // One synchronous step
  // ---------------------------------------------------------------------------

  /** An index below `h * w` has a quotient by `h` below `w`. */
  lemma DivBelow(k: nat, h: nat, w: nat)
    requires h > 0 && k < w * h
    ensures k / h < w
  {
    if k / h >= w {
      MulAtLeast(k / h - w + 1, h);
    }
  }

  /** The flat index `x + y * gridW` of cell `(x, y)`: inside the grid, and it decodes back to `(x, y)`. */
  function CellIndex(x: nat, y: nat, gridW: nat, gridH: nat): (i: nat)
    requires x < gridW && y < gridH
    ensures i < gridW * gridH
    ensures i % gridW == x && i / gridW == y
  {
    assert y * gridW <= (gridH - 1) * gridW;
    DivModUnique(x + y * gridW, gridW, y, x);
    x + y * gridW
  }

  /** The next state of cell `(x, y)`: what the rule tables give for its neighbourhood key. */
  function NextCell(cells: seq<u8>, gridW: nat, gridH: nat, offsets: seq<(int, int)>, tables: seq<map<u64, u8>>, x: nat, y: nat): u8
    requires |cells| == gridW * gridH && x < gridW && y < gridH
  {
    FirstMatch(tables, NeighborhoodKey(cells, gridW, gridH, offsets, x, y))
  }

  /**
   * The grid after one step: cell `i`, at column `i % gridW` and row
   * `i / gridW`, takes its next state computed from the old grid.
   */
  function NextCells(cells: seq<u8>, gridW: nat, gridH: nat, offsets: seq<(int, int)>, tables: seq<map<u64, u8>>): (next: seq<u8>)
    requires |cells| == gridW * gridH
    ensures |next| == |cells|
  {
    if gridW == 0 || gridH == 0 then []
    else
      seq(|cells|, i requires 0 <= i < |cells| =>
        DivBelow(i, gridW, gridH);
        NextCell(cells, gridW, gridH, offsets, tables, i % gridW, i / gridW))
  }

  /** A buffer holding the next state of every cell `(x, y)` at its flat index is the next grid. */
  lemma NextCellsFilled(buf: seq<u8>, cells: seq<u8>, gridW: nat, gridH: nat, offsets: seq<(int, int)>, tables: seq<map<u64, u8>>)
    requires |buf| == |cells| == gridW * gridH
    requires forall x, y :: 0 <= x < gridW && 0 <= y < gridH ==>
      buf[CellIndex(x, y, gridW, gridH)] == NextCell(cells, gridW, gridH, offsets, tables, x, y)
    ensures buf == NextCells(cells, gridW, gridH, offsets, tables)
  {
    var next := NextCells(cells, gridW, gridH, offsets, tables);
    forall i | 0 <= i < |buf|
      ensures buf[i] == next[i]
    {
      DivBelow(i, gridW, gridH);
      assert i == CellIndex(i % gridW, i / gridW, gridW, gridH);
    }
  }

  /** With 0/1 rule outputs, a step yields a 0/1 grid. */
  lemma NextCellsBinary(cells: seq<u8>, gridW: nat, gridH: nat, offsets: seq<(int, int)>, tables: seq<map<u64, u8>>)
    requires |cells| == gridW * gridH && BinaryTables(tables)
    ensures Binary(NextCells(cells, gridW, gridH, offsets, tables))
  {
    var next := NextCells(cells, gridW, gridH, offsets, tables);
    forall i | 0 <= i < |next|
      ensures next[i] <= 1
    {
      DivBelow(i, gridW, gridH);
      FirstMatchBinary(tables, NeighborhoodKey(cells, gridW, gridH, offsets, i % gridW, i / gridW));
      assert next[i] == NextCell(cells, gridW, gridH, offsets, tables, i % gridW, i / gridW);
    }
  }

  /**
   * Locality: the next state of cell `(x, y)` depends only on the states of
   * the cells at its offsets. Two grids that agree there step it alike.
   */
  lemma NextCellLocal(a: seq<u8>, b: seq<u8>, gridW: nat, gridH: nat, offsets: seq<(int, int)>, tables: seq<map<u64, u8>>, x: nat, y: nat)
    requires |a| == |b| == gridW * gridH && x < gridW && y < gridH
    requires forall k :: 0 <= k < |offsets| ==>
      a[NeighborIndex(gridW, gridH, x, y, offsets[k])] == b[NeighborIndex(gridW, gridH, x, y, offsets[k])]
    ensures NextCells(a, gridW, gridH, offsets, tables)[CellIndex(x, y, gridW, gridH)]
         == NextCells(b, gridW, gridH, offsets, tables)[CellIndex(x, y, gridW, gridH)]
  {
    assert NeighborStates(a, gridW, gridH, offsets, x, y) == NeighborStates(b, gridW, gridH, offsets, x, y);
  }

  /**
   * When the first table holds every key below `2^|offsets|` (what a fill of
   * `1 << (w * h)` patterns produces) and the grid is 0/1, no lookup falls
   * through: every cell takes the first table's value for its key.
   */
  lemma FirstTableDecides(cells: seq<u8>, gridW: nat, gridH: nat, offsets: seq<(int, int)>, tables: seq<map<u64, u8>>, x: nat, y: nat)
    requires |cells| == gridW * gridH && x < gridW && y < gridH
    requires Binary(cells) && |offsets| <= 64 && tables != []
    requires forall k: u64 :: k < Pow2(|offsets|) ==> k in tables[0]
    ensures NeighborhoodKey(cells, gridW, gridH, offsets, x, y) in tables[0]
    ensures NextCells(cells, gridW, gridH, offsets, tables)[CellIndex(x, y, gridW, gridH)]
         == tables[0][NeighborhoodKey(cells, gridW, gridH, offsets, x, y)]
  {
    KeyLayout(cells, gridW, gridH, offsets, x, y);
  }

  /**
   * An engine whose first rule was just filled with `1 << (w * h)` patterns,
   * on a supply that did not run out, never falls through: on its own offsets
   * `Offsets(w, h)`, every cell's key is in the first table, which decides the
   * cell, whatever rules follow it.
   */
  lemma FilledEngineUsesFirstRule(cells: seq<u8>, gridW: nat, gridH: nat, w: nat, h: nat, words: seq<u64>, pos: nat,
                                  rest: seq<map<u64, u8>>, x: nat, y: nat)
    requires w >= 1 && h >= 1 && w * h < 64 && pos <= |words|
    requires FillFrom(map[], words, pos, w * h, Pow2(w * h)).next + 2 <= |words|
    requires |cells| == gridW * gridH && Binary(cells) && x < gridW && y < gridH
    ensures var table := FillFrom(map[], words, pos, w * h, Pow2(w * h)).table;
      var key := NeighborhoodKey(cells, gridW, gridH, Offsets(w, h), x, y);
      key in table && NextCells(cells, gridW, gridH, Offsets(w, h), [table] + rest)[CellIndex(x, y, gridW, gridH)] == table[key]
  {
    var table := FillFrom(map[], words, pos, w * h, Pow2(w * h)).table;
    OffsetsCount(w, h);
    FullFillIsTotal(words, pos, w * h);
    FirstTableDecides(cells, gridW, gridH, Offsets(w, h), [table] + rest, x, y);
  }

  // ---------------------------------------------------------------------------
  // Building the rules
  // ---------------------------------------------------------------------------

  /**
   * `RulesCollection::new` (from the collection's own generator
   * `collectionRng`) followed by `randomize` from the engine's generator `rng`,
   * as `Automata::new` does it: one rule, whose table is the fill from `rng`.
   */
  method NewRules(w: nat, h: nat, rng: seq<u64>, collectionRng: seq<u64>) returns (collection: RulesCollection, next: nat)
    requires w * h < 64
    ensures fresh(collection.Repr())
    ensures collection.Valid() && collection.Uniform() && collection.BinaryOutputs()
    ensures collection.neighborhoodW == w && collection.neighborhoodH == h
    ensures var fill := FillFrom(map[], rng, 0, w * h, Pow2(w * h));
      collection.Tables() == [fill.table] && next == fill.next
  {
    collection := new RulesCollection(w, h, collectionRng);
    assert collection.rules[0] in collection.Repr();
    ghost var cuts;
    next, cuts := collection.Randomize(rng, 0);
    assert FilledBetween(collection.Tables()[0], w * h, rng, collection.TotalPatterns(), cuts[0], cuts[1]);
  }

  /**
   * The two buffers of `Automata::new`: the grid, each cell spawned with
   * `gen_bool(spawnChance)` from the generator at `pos`, and an all-dead second buffer.
   */
  method NewGrid(size: nat, rng: seq<u64>, pos: nat, spawnChance: real) returns (grid: array<u8>, scratch: array<u8>, next: nat)
    requires 0.0 <= spawnChance <= 1.0 && pos + SpawnWords(size, spawnChance) <= |rng|
    ensures fresh(grid) && fresh(scratch) && grid != scratch && grid.Length == size && scratch.Length == size
    ensures grid[..] == Spawned(rng, pos, size, spawnChance) && Binary(grid[..])
    ensures next == pos + SpawnWords(size, spawnChance)
    ensures forall i :: 0 <= i < scratch.Length ==> scratch[i] == 0
  {
    grid := new u8[size](_ => 0);
    next := SpawnInto(grid, rng, pos, spawnChance);
    scratch := new u8[size](_ => 0);
  }

  /** The second buffer's reset after a step: every cell dead. */
  method Clear(buf: array<u8>)
    modifies buf
    ensures forall i :: 0 <= i < buf.Length ==> buf[i] == 0
  {
    forall i | 0 <= i < buf.Length {
      buf[i] := 0;
    }
  }

  // ---------------------------------------------------------------------------
  // The engine
  // ---------------------------------------------------------------------------

  class Automata {
    /** The generator: the words it produces and how many it has produced. */
    var rng: seq<u64>
    var rngPos: nat
    var cells: array<u8>
    var cellsNext: array<u8>
    var gridH: nat
    var gridW: nat
    var neighborhoodOffsets: seq<(int, int)>
    var rulesCollection: RulesCollection
    var neighborhoodW: nat
    var neighborhoodH: nat
    var spawnChance: real

    /** Two distinct buffers of `gridW * gridH` cells, a 0/1 grid, and the offset list of the neighbourhood. */
    ghost predicate GridValid()
      reads this, cells
    {
      cells != cellsNext &&
      cells.Length == gridW * gridH && cellsNext.Length == gridW * gridH &&
      Binary(cells[..]) &&
      neighborhoodOffsets == Offsets(neighborhoodW, neighborhoodH) &&
      neighborhoodW * neighborhoodH < 64
    }

    /** A rule collection of the engine's neighbourhood size whose tables are 0/1. */
    ghost predicate RulesValid()
      reads this, rulesCollection, rulesCollection.rules
    {
      rulesCollection.Valid() && rulesCollection.Uniform() && rulesCollection.BinaryOutputs() &&
      rulesCollection.neighborhoodW == neighborhoodW && rulesCollection.neighborhoodH == neighborhoodH
    }

    /** The grid and the rules are well formed, the generator is within its supply, and `gen_bool` accepts the spawn chance. */
    ghost predicate Valid()
      reads this, cells, rulesCollection, rulesCollection.rules
    {
      GridValid() && RulesValid() && rngPos <= |rng| && 0.0 <= spawnChance <= 1.0
    }

    /**
     * `Automata::new`: build the offsets, create the rules (from the
     * collection's own generator `collectionRng`), randomize them again from
     * the engine's generator `rng`, and randomize the grid.
     */
    constructor (gridW: nat, gridH: nat, neighborhoodW: nat, neighborhoodH: nat, spawnChance: real,
                 rng: seq<u64>, collectionRng: seq<u64>)
      requires neighborhoodW * neighborhoodH < 64 && 0.0 <= spawnChance <= 1.0
      requires FillFrom(map[], rng, 0, neighborhoodW * neighborhoodH, Pow2(neighborhoodW * neighborhoodH)).next
               + SpawnWords(gridW * gridH, spawnChance) <= |rng|
      ensures Valid() && fresh(cells) && fresh(cellsNext) && fresh(rulesCollection)
      ensures this.gridW == gridW && this.gridH == gridH && this.spawnChance == spawnChance
      ensures this.neighborhoodW == neighborhoodW && this.neighborhoodH == neighborhoodH
      ensures neighborhoodOffsets == Offsets(neighborhoodW, neighborhoodH)
      ensures var fill := FillFrom(map[], rng, 0, neighborhoodW * neighborhoodH, Pow2(neighborhoodW * neighborhoodH));
        this.rng == rng && rulesCollection.Tables() == [fill.table] &&
        cells[..] == Spawned(rng, fill.next, gridW * gridH, spawnChance) &&
        rngPos == fill.next + SpawnWords(gridW * gridH, spawnChance)
      ensures forall i :: 0 <= i < cellsNext.Length ==> cellsNext[i] == 0
    {
      var size: nat := gridW * gridH;
      var offsets := BuildOffsets(neighborhoodW, neighborhoodH);
      var collection, next := NewRules(neighborhoodW, neighborhoodH, rng, collectionRng);
      var grid, scratch, after := NewGrid(size, rng, next, spawnChance);
      this.rng := rng;
      rngPos := after;
      cells := grid;
      cellsNext := scratch;
      this.gridH := gridH;
      this.gridW := gridW;
      neighborhoodOffsets := offsets;
      rulesCollection := collection;
      this.neighborhoodW := neighborhoodW;
      this.neighborhoodH := neighborhoodH;
      this.spawnChance := spawnChance;
      new;
      assert GridValid();
      assert RulesValid();
    }

    /** One pass of `step`'s inner loop: cell `(x, y)` of the second buffer gets its next state. */
    method StepCell(x: nat, y: nat)
      requires x < gridW && y < gridH && cells != cellsNext
      requires cells.Length == gridW * gridH && cellsNext.Length == gridW * gridH
      modifies cellsNext
      ensures cellsNext[CellIndex(x, y, gridW, gridH)]
           == NextCell(cells[..], gridW, gridH, neighborhoodOffsets, rulesCollection.Tables(), x, y)
      ensures forall i :: 0 <= i < cellsNext.Length && i != CellIndex(x, y, gridW, gridH) ==> cellsNext[i] == old(cellsNext[i])
    {
      var idx := x + y * gridW;
      assert idx == CellIndex(x, y, gridW, gridH);
      var neighborhood := NeighborhoodKey(cells[..], gridW, gridH, neighborhoodOffsets, x, y);
      cellsNext[idx] := rulesCollection.GetNewCell(neighborhood);
    }

    /** `step`'s nested loops: column by column, row by row, the second buffer gets the next grid. */
    method StepAll()
      requires cells != cellsNext
      requires cells.Length == gridW * gridH && cellsNext.Length == gridW * gridH
      modifies cellsNext
      ensures cellsNext[..] == NextCells(cells[..], gridW, gridH, neighborhoodOffsets, rulesCollection.Tables())
    {
      ghost var before := cells[..];
      ghost var tables := rulesCollection.Tables();
      var x := 0;
      while x < gridW
        invariant 0 <= x <= gridW
        invariant cells[..] == before
        invariant forall a, b :: 0 <= a < x && 0 <= b < gridH ==>
          cellsNext[CellIndex(a, b, gridW, gridH)] == NextCell(before, gridW, gridH, neighborhoodOffsets, tables, a, b)
      {
        var y := 0;
        while y < gridH
          invariant 0 <= y <= gridH
          invariant cells[..] == before
          invariant forall a, b :: 0 <= a < x && 0 <= b < gridH ==>
            cellsNext[CellIndex(a, b, gridW, gridH)] == NextCell(before, gridW, gridH, neighborhoodOffsets, tables, a, b)
          invariant forall b :: 0 <= b < y ==>
            cellsNext[CellIndex(x, b, gridW, gridH)] == NextCell(before, gridW, gridH, neighborhoodOffsets, tables, x, b)
        {
          StepCell(x, y);
          y := y + 1;
        }
        x := x + 1;
      }
      NextCellsFilled(cellsNext[..], before, gridW, gridH, neighborhoodOffsets, tables);
    }

    /**
     * `step`: write the next state of every cell into the second buffer, then
     * swap the buffers and clear the second one. The shift `<< cell_index`
     * needs at most 64 offsets.
     */
    method Step()
      requires Valid() && |neighborhoodOffsets| <= 64
      modifies this`cells, this`cellsNext, cells, cellsNext
      ensures Valid()
      ensures cells == old(cellsNext) && cellsNext == old(cells)
      ensures cells[..] == NextCells(old(cells[..]), gridW, gridH, neighborhoodOffsets, rulesCollection.Tables())
      ensures forall i :: 0 <= i < cellsNext.Length ==> cellsNext[i] == 0
    {
      ghost var tables := rulesCollection.Tables();
      ghost var next := NextCells(cells[..], gridW, gridH, neighborhoodOffsets, tables);
      NextCellsBinary(cells[..], gridW, gridH, neighborhoodOffsets, tables);
      StepAll();
      assert cellsNext[..] == next;
      cells, cellsNext := cellsNext, cells;
      Clear(cellsNext);
      assert cells[..] == next;
      assert GridValid();
    }

    /** `cells`: a copy of the grid. */
    method Cells() returns (c: seq<u8>)
      requires Valid()
      ensures c == cells[..]
      ensures |c| == gridW * gridH && Binary(c)
    {
      c := cells[..];
    }

    /**
     * `randomize_rules`: every rule refills its table, in turn, from the
     * engine's generator.
     */
    method RandomizeRules() returns (ghost cuts: seq<nat>)
      requires Valid()
      modifies this`rngPos, rulesCollection.rules
      ensures Valid()
      ensures rulesCollection.RuleBits() == old(rulesCollection.RuleBits())
      ensures FilledInTurn(rulesCollection.Tables(), rulesCollection.RuleBits(), rng, rulesCollection.TotalPatterns(), cuts)
      ensures cuts[0] == old(rngPos) && cuts[|rulesCollection.rules|] == rngPos
    {
      var next;
      next, cuts := rulesCollection.Randomize(rng, rngPos);
      rngPos := next;
      assert GridValid();
      assert rulesCollection.Uniform();
    }

    /** `randomize`: every cell of the grid becomes alive with chance `spawnChance`. */
    method Randomize()
      requires Valid() && rngPos + SpawnWords(cells.Length, spawnChance) <= |rng|
      modifies this`rngPos, cells
      ensures Valid()
      ensures cells[..] == Spawned(rng, old(rngPos), gridW * gridH, spawnChance)
      ensures rngPos == old(rngPos) + SpawnWords(gridW * gridH, spawnChance)
    {
      rngPos := SpawnInto(cells, rng, rngPos, spawnChance);
      assert GridValid();
    }

    /** `randomize_next`: the same, on the second buffer, which the next step overwrites. */
    method RandomizeNext()
      requires Valid() && rngPos + SpawnWords(cellsNext.Length, spawnChance) <= |rng|
      modifies this`rngPos, cellsNext
      ensures Valid()
      ensures cellsNext[..] == Spawned(rng, old(rngPos), gridW * gridH, spawnChance)
      ensures rngPos == old(rngPos) + SpawnWords(gridW * gridH, spawnChance)
      ensures cells[..] == old(cells[..])
    {
      rngPos := SpawnInto(cellsNext, rng, rngPos, spawnChance);
      assert GridValid();
    }

    /** `set_spawn_chance`: the chance, clamped to `[0, 1]`. */
    method SetSpawnChance(spawnChance: real)
      requires Valid()
      modifies this`spawnChance
      ensures Valid()
      ensures this.spawnChance == Clamp01(spawnChance)
    {
      this.spawnChance := Clamp01(spawnChance);
    }
  }
}
