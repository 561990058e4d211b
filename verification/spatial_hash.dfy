/**
 * `SpatialHashTable` (graph.py:90-106): points are bucketed into square grid
 * cells of side `cell_size`; each cell keeps, in insertion order, the nodes
 * inserted at points inside it. Coordinates and the cell size are integers
 * here; the cell of a coordinate is its quotient by the cell size rounded
 * toward zero, as `int(x / cell_size)` computes it.
 */
module SpatialHash {
  import opened Wrappers

  type Cell = (int, int)

  function Abs(a: int): nat {
    if a < 0 then -a else a
  }

  /** How many whole times `d` fits in `n`. */
  lemma WholeQuotient(n: nat, d: nat)
    requires d > 0
    ensures (n / d) * d <= n < (n / d) * d + d
    ensures n / d > 0 <==> n >= d
  {
    var m := n / d;
    assert n == m * d + n % d;
    if m > 0 {
      assert m * d >= d;
    }
  }

  /**
   * `int(a / b)`: the exact quotient rounded toward zero (not Dafny's Euclidean
   * `/`). Its magnitude is the whole number of times `|b|` fits in `|a|`, and
   * its sign is the sign of the exact quotient.
   */
  function TruncDiv(a: int, b: int): (q: int)
    requires b != 0
    ensures Abs(q) * Abs(b) <= Abs(a) < Abs(q) * Abs(b) + Abs(b)
    ensures q > 0 <==> Abs(a) >= Abs(b) && (a > 0) == (b > 0)
    ensures q < 0 <==> Abs(a) >= Abs(b) && (a > 0) != (b > 0)
  {
    var m := Abs(a) / Abs(b);
    WholeQuotient(Abs(a), Abs(b));
    var q := if (a >= 0) == (b > 0) then m else -m;
    assert Abs(q) == m;
    q
  }

  /** `q * b` lies between zero and `a` and is less than one `|b|` away from `a`. */
  predicate RoundsTowardZero(a: int, b: int, q: int) {
    && Abs(a - q * b) < Abs(b)
    && (a >= 0 ==> 0 <= q * b <= a)
    && (a < 0 ==> a <= q * b <= 0)
  }

  /** The quotient rounded toward zero meets those bounds. */
  lemma TruncDivBounds(a: int, b: int)
    requires b != 0
    ensures RoundsTowardZero(a, b, TruncDiv(a, b))
  {
    var q, m := TruncDiv(a, b), Abs(a) / Abs(b);
    assert m * Abs(b) <= Abs(a) < m * Abs(b) + Abs(b);
    if b > 0 {
      assert q * b == (if a >= 0 then m * Abs(b) else -(m * Abs(b)));
    } else {
      assert Abs(b) == -b;
      assert q * b == (if a >= 0 then m * Abs(b) else -(m * Abs(b)));
    }
  }

  lemma MulAtLeast(d: int, b: int)
    requires d != 0
    ensures Abs(d * b) >= Abs(b)
  {
    if d > 0 && b > 0 {
      assert d * b >= b;
    } else if d > 0 {
      assert d * b <= b;
    } else if b > 0 {
      assert d * b <= -b;
    } else {
      assert d * b >= -b;
    }
  }

  /** Those bounds pin the quotient down: no other integer meets them. */
  lemma TruncDivUnique(a: int, b: int, q: int)
    requires b != 0
    requires RoundsTowardZero(a, b, q)
    ensures q == TruncDiv(a, b)
  {
    var t := TruncDiv(a, b);
    TruncDivBounds(a, b);
    var d := q - t;
    assert q * b - t * b == d * b;
    assert Abs(q * b - t * b) < Abs(b);
    if d != 0 {
      MulAtLeast(d, b);
    }
  }

  /** For a positive cell size `c`, the coordinates in cell column `k`; column 0 spans `2 * c - 1` of them. */
  lemma CellColumn(x: int, c: int, k: int)
    requires c > 0
    ensures TruncDiv(x, c) == k <==>
      || (k > 0 && k * c <= x < k * c + c)
      || (k < 0 && k * c - c < x <= k * c)
      || (k == 0 && -c < x < c)
  {
    TruncDivBounds(x, c);
    var inColumn := || (k > 0 && k * c <= x < k * c + c)
              || (k < 0 && k * c - c < x <= k * c)
              || (k == 0 && -c < x < c);
    if inColumn {
      TruncDivUnique(x, c, k);
    }
  }

  /** For non-negative coordinates and a positive cell size the cell is the Euclidean quotient. */
  lemma TruncDivNonNegative(x: int, c: int)
    requires x >= 0 && c > 0
    ensures TruncDiv(x, c) == x / c
  {
  }

  /** For negative coordinates not on a cell boundary, truncation is one above Dafny's `/`. */
  lemma TruncDivNegative(x: int, c: int)
    requires x < 0 && c > 0 && x % c != 0
    ensures TruncDiv(x, c) == x / c + 1
  {
    var q := x / c;
    assert x == q * c + x % c;
    TruncDivUnique(x, c, q + 1);
  }

  function CellOf(x: int, y: int, size: int): Cell
    requires size != 0
  {
    (TruncDiv(x, size), TruncDiv(y, size))
  }

  /** `self.table.get(key, [])`. */
  function Lookup<T>(table: map<Cell, seq<T>>, key: Cell): seq<T> {
    if key in table then table[key] else []
  }

  /** The nodes of all inserts whose point lies in `key`, in insertion order. */
  ghost function NodesIn<T>(inserts: seq<(int, int, T)>, key: Cell, size: int): seq<T>
    requires size != 0
  {
    if inserts == [] then []
    else
      var p := inserts[|inserts| - 1];
      NodesIn(inserts[..|inserts| - 1], key, size) + (if CellOf(p.0, p.1, size) == key then [p.2] else [])
  }

  /** A node is listed under a cell iff it was inserted at a point of that cell. */
  lemma {:induction false} NodesInMembers<T>(inserts: seq<(int, int, T)>, key: Cell, size: int, n: T)
    requires size != 0
    ensures n in NodesIn(inserts, key, size) <==>
      exists i :: 0 <= i < |inserts| && inserts[i].2 == n && CellOf(inserts[i].0, inserts[i].1, size) == key
    decreases |inserts|
  {
    if inserts != [] {
      var init := inserts[..|inserts| - 1];
      NodesInMembers(init, key, size, n);
      assert forall i :: 0 <= i < |init| ==> init[i] == inserts[i];
    }
  }

  class SpatialHashTable<T> {
    const cellSize: int
    var table: map<Cell, seq<T>>
    /** Every successful insert so far, in order. */
    ghost var inserts: seq<(int, int, T)>

    /** Each cell's list holds the nodes inserted inside the cell, in insertion order; none is empty. */
    ghost predicate Valid()
      reads this
    {
      && (cellSize == 0 ==> inserts == [] && table == map[])
      && (cellSize != 0 ==> forall key :: Lookup(table, key) == NodesIn(inserts, key, cellSize))
      && (forall key :: key in table ==> table[key] != [])
    }

    /** `SpatialHashTable(cell_size)`: an empty table. */
    constructor (cellSize: int)
      ensures Valid()
      ensures this.cellSize == cellSize && table == map[] && inserts == []
    {
      this.cellSize := cellSize;
      table := map[];
      inserts := [];
    }

    /**
     * `hash`: the cell of point `(x, y)`, each coordinate divided by the cell
     * size and rounded toward zero (which `TruncDivUnique` shows pins it down).
     */
    function Hash(x: int, y: int): (c: Cell)
      requires cellSize != 0
      ensures RoundsTowardZero(x, cellSize, c.0) && RoundsTowardZero(y, cellSize, c.1)
    {
      TruncDivBounds(x, cellSize);
      TruncDivBounds(y, cellSize);
      CellOf(x, y, cellSize)
    }

    /**
     * `insert`: appends `node` to the list of the cell of `(x, y)`, creating
     * that list first if the cell has none; no other cell changes. A zero cell
     * size raises ZeroDivisionError before anything changes, reported as `false`.
     */
    method Insert(x: int, y: int, node: T) returns (ok: bool)
      requires Valid()
      modifies this
      ensures Valid()
      ensures ok == (cellSize != 0)
      ensures ok ==> table == old(table)[Hash(x, y) := Lookup(old(table), Hash(x, y)) + [node]]
      ensures ok ==> inserts == old(inserts) + [(x, y, node)]
      ensures !ok ==> table == old(table) && inserts == old(inserts)
    {
      if cellSize == 0 {
        return false;
      }
      var key := Hash(x, y);
      if key !in table {
        table := table[key := []];
      }
      table := table[key := table[key] + [node]];
      ghost var before := inserts;
      inserts := inserts + [(x, y, node)];
      assert inserts[..|before|] == before;
      ok := true;
    }

    /**
     * `query`: the nodes inserted at points of the same cell as `(x, y)`, in
     * insertion order, and the empty list for a cell never inserted into;
     * None where a zero cell size raises ZeroDivisionError.
     */
    function Query(x: int, y: int): (r: Option<seq<T>>)
      requires Valid()
      reads this
      ensures r.None? <==> cellSize == 0
      ensures r.Some? ==> r.value == NodesIn(inserts, Hash(x, y), cellSize)
    {
      if cellSize == 0 then None else Some(Lookup(table, Hash(x, y)))
    }

    /** Two points of one cell see the same list. */
    lemma SameCellSameQuery(x1: int, y1: int, x2: int, y2: int)
      requires Valid() && cellSize != 0
      requires Hash(x1, y1) == Hash(x2, y2)
      ensures Query(x1, y1) == Query(x2, y2)
    {
    }
  }
}
