/** The grid map of Monte Carlo localisation (`MCLmap`): a fixed grid of
    obstacle and free cells, the list of free cells it derives once, and the
    range a sensor reads along one of the four compass directions. */
module GridMap {
  import opened Common

  /** A cell position `(row, column)`, and a step between cells. */
  type Cell = (int, int)

  // ---------------------------------------------------------------------------
  // MCLmap.__init__

  /** The free cells `(i, j)` of `row` (row number `i`) with `j < n`, in
      column order. */
  function RowCells(row: seq<bool>, i: int, n: nat): seq<Cell>
    requires n <= |row|
  {
    if n == 0 then []
    else RowCells(row, i, n - 1) + (if row[n - 1] then [] else [(i, n - 1)])
  }

  /** The free cells of the first `k` rows of `m` over `ncols` columns, row
      after row. */
  function Cells(m: seq<seq<bool>>, ncols: nat, k: nat): seq<Cell>
    requires k <= |m| && forall i :: 0 <= i < k ==> ncols <= |m[i]|
  {
    if k == 0 then [] else Cells(m, ncols, k - 1) + RowCells(m[k - 1], k - 1, ncols)
  }

  /** Row-major order: by row, then by column. */
  predicate Before(a: Cell, b: Cell) {
    a.0 < b.0 || (a.0 == b.0 && a.1 < b.1)
  }

  predicate RowMajor(cs: seq<Cell>) {
    forall a, b :: 0 <= a < b < |cs| ==> Before(cs[a], cs[b])
  }

  /** The cells of one row are exactly its free cells before column `n`, in
      increasing column order. */
  lemma {:induction false} RowCellsSpec(row: seq<bool>, i: int, n: nat)
    requires n <= |row|
    ensures forall c :: c in RowCells(row, i, n) <==> c.0 == i && 0 <= c.1 < n && !row[c.1]
    ensures RowMajor(RowCells(row, i, n))
  {
    if n > 0 {
      RowCellsSpec(row, i, n - 1);
    }
  }

  /** Joining two row-major lists, every cell of the first before every cell
      of the second, is row-major. */
  lemma RowMajorConcat(a: seq<Cell>, b: seq<Cell>)
    requires RowMajor(a) && RowMajor(b)
    requires forall x, y :: x in a && y in b ==> Before(x, y)
    ensures RowMajor(a + b)
  {
    forall p, q | 0 <= p < q < |a + b| ensures Before((a + b)[p], (a + b)[q]) {
      if q < |a| {
      } else if p >= |a| {
        assert (a + b)[p] == b[p - |a|] && (a + b)[q] == b[q - |a|];
      } else {
        assert (a + b)[p] in a && (a + b)[q] in b;
      }
    }
  }

  /** `MCLmap.empty` lists exactly the free cells of the grid, in row-major
      order (so each once). */
  lemma {:induction false} CellsSpec(m: seq<seq<bool>>, ncols: nat, k: nat)
    requires k <= |m| && forall i :: 0 <= i < k ==> ncols <= |m[i]|
    ensures forall c :: c in Cells(m, ncols, k) <==> 0 <= c.0 < k && 0 <= c.1 < ncols && !m[c.0][c.1]
    ensures RowMajor(Cells(m, ncols, k))
  {
    if k > 0 {
      CellsSpec(m, ncols, k - 1);
      RowCellsSpec(m[k - 1], k - 1, ncols);
      RowMajorConcat(Cells(m, ncols, k - 1), RowCells(m[k - 1], k - 1, ncols));
    }
  }

  /** A grid map: the grid (`true` marks an obstacle), its numbers of rows
      and columns, and its free cells. */
  datatype MclMap = MclMap(m: seq<seq<bool>>, nrows: nat, ncols: nat, empty: seq<Cell>) {
    /** As `MCLmap(m)` builds it: a row count and a column count read off a
        non-empty grid whose every row reaches the first row's width. */
    predicate Valid() {
      && nrows == |m| && nrows > 0
      && ncols == |m[0]|
      && (forall i :: 0 <= i < nrows ==> ncols <= |m[i]|)
      && empty == Cells(m, ncols, nrows)
    }
  }

  /** `MCLmap(m)`: an empty grid has no first row, and a row shorter than
      the first has no cell at some column the comprehension visits; both
      are IndexErrors. */
  function NewMap(m: seq<seq<bool>>): (r: Result<MclMap>)
    ensures r.Err? <==> m == [] || exists i :: 0 <= i < |m| && |m[i]| < |m[0]|
    ensures r.Err? ==> r.error == IndexError
    ensures r.Ok? ==> r.value.Valid() && r.value.m == m
  {
    if m == [] then Err(IndexError)
    else if exists i :: 0 <= i < |m| && |m[i]| < |m[0]| then Err(IndexError)
    else Ok(MclMap(m, |m|, |m[0]|, Cells(m, |m[0]|, |m|)))
  }

  /** A built map's free cells are exactly the cells of the grid holding no
      obstacle, listed row by row and, within a row, by column. */
  lemma NewMapEmpty(m: seq<seq<bool>>)
    requires NewMap(m).Ok?
    ensures forall c :: c in NewMap(m).value.empty <==>
      0 <= c.0 < |m| && 0 <= c.1 < |m[0]| && !m[c.0][c.1]
    ensures RowMajor(NewMap(m).value.empty)
  {
    CellsSpec(m, |m[0]|, |m|);
  }

  // ---------------------------------------------------------------------------
  // The sensor direction

  /** The direction of sensor `s` facing north: sensor 0 looks north
      `(-1, 0)`, 1 east `(0, 1)`, 2 south `(1, 0)`, 3 west `(0, -1)`;
      a boolean times an integer is 0 or the integer. Whatever the sensor
      number, the direction is never the zero step. */
  function Base(s: int): (d: Cell)
    ensures d != (0, 0)
  {
    ((if s % 2 == 0 then 1 else 0) * (s - 1), (if s % 2 == 1 then 1 else 0) * (2 - s))
  }

  /** A quarter turn clockwise, `(a, b) -> (b, -a)`; it keeps a non-zero
      step non-zero. */
  function Rotate(d: Cell): (r: Cell)
    ensures r == (0, 0) <==> d == (0, 0)
  {
    (d.1, -d.0)
  }

  /** `n` quarter turns, none for `n <= 0` (`range(n)` is then empty). */
  function Rotated(d: Cell, n: int): (r: Cell)
    decreases n
  {
    if n <= 0 then d else Rotated(Rotate(d), n - 1)
  }

  /** The direction of sensor `s` for a robot with orientation `orient`. */
  function Direction(s: int, orient: int): (d: Cell)
    ensures d != (0, 0)
  {
    RotatedNonzero(Base(s), orient);
    Rotated(Base(s), orient)
  }

  /** No number of turns makes a step zero. */
  lemma {:induction false} RotatedNonzero(d: Cell, n: int)
    requires d != (0, 0)
    ensures Rotated(d, n) != (0, 0)
    decreases n
  {
    if n > 0 {
      RotatedNonzero(Rotate(d), n - 1);
    }
  }

  /** Turning once more is turning the result once. */
  lemma {:induction false} RotatedSnoc(d: Cell, n: nat)
    ensures Rotated(d, n + 1) == Rotate(Rotated(d, n))
    decreases n
  {
    if n > 0 {
      RotatedSnoc(Rotate(d), n - 1);
    }
  }

  /** The orientations follow the compass (0 north, 1 east, 2 south, 3
      west): sensor `s` of a robot with orientation `o` looks where sensor
      `(s + o) % 4` of a north-facing robot looks. */
  lemma {:induction false} DirectionCompass(s: int, o: nat)
    requires 0 <= s < 4
    ensures Direction(s, o) == Base((s + o) % 4)
  {
    if o > 0 {
      DirectionCompass(s, o - 1);
      RotatedSnoc(Base(s), o - 1);
      var t := (s + o - 1) % 4;
      assert (s + o) % 4 == (t + 1) % 4;
      assert Rotate(Base(t)) == Base((t + 1) % 4);
    }
  }

  /** Four quarter turns are a full turn. */
  lemma {:induction false} RotatedPeriod(d: Cell, n: nat)
    ensures Rotated(d, n + 4) == Rotated(d, n)
    decreases n
  {
    if n > 0 {
      RotatedPeriod(Rotate(d), n - 1);
    } else {
      assert Rotated(d, 4) == Rotate(Rotate(Rotate(Rotate(d))));
    }
  }

  // ---------------------------------------------------------------------------
  // MCLmap.ray_cast

  /** One step, `vector_add(pos, delta)`. */
  function Step(p: Cell, d: Cell): Cell {
    (p.0 + d.0, p.1 + d.1)
  }

  /** The cell `k` steps from `p`. */
  function Advance(p: Cell, d: Cell, k: nat): Cell
    decreases k
  {
    if k == 0 then p else Advance(Step(p, d), d, k - 1)
  }

  /** Inside the rows of the map and below column `bound`. */
  predicate Inside(mp: MclMap, bound: int, c: Cell) {
    0 <= c.0 < mp.nrows && 0 <= c.1 < bound
  }

  /** Inside, on its row, and free. */
  predicate Open(mp: MclMap, bound: int, c: Cell)
    requires mp.Valid()
  {
    Inside(mp, bound, c) && c.1 < |mp.m[c.0]| && !mp.m[c.0][c.1]
  }

  /** How far a walk can still go before leaving the bounds along the
      non-zero coordinate of the step. */
  function Room(p: Cell, d: Cell, nrows: int, bound: int): int {
    if d.0 > 0 then nrows - p.0
    else if d.0 < 0 then p.0 + 1
    else if d.1 > 0 then bound - p.1
    else p.1 + 1
  }

  /** The walk of `ray_cast` from `p` along `d`, with the column test
      `0 <= pos[1] < bound`: the number of steps taken while the cell is
      inside and free; reading a cell past the end of its row is an
      IndexError. */
  function Cast(mp: MclMap, bound: int, p: Cell, d: Cell): Result<nat>
    requires mp.Valid() && d != (0, 0)
    decreases Room(p, d, mp.nrows, bound)
  {
    if !Inside(mp, bound, p) then Ok(0)
    else if p.1 >= |mp.m[p.0]| then Err(IndexError)
    else if mp.m[p.0][p.1] then Ok(0)
    else
      var rest :- Cast(mp, bound, Step(p, d), d);
      Ok(rest + 1)
  }

  /** The walk from `p` along `d` crosses `n` open cells and then reaches a
      cell inside the bounds that its row does not reach. */
  predicate OffRow(mp: MclMap, bound: int, p: Cell, d: Cell, n: nat)
    requires mp.Valid()
  {
    && (forall k :: 0 <= k < n ==> Open(mp, bound, Advance(p, d, k)))
    && Inside(mp, bound, Advance(p, d, n))
    && Advance(p, d, n).1 >= |mp.m[Advance(p, d, n).0]|
  }

  /** The walk reads the distance to the first cell that is outside or an
      obstacle: every cell before it is open. It fails only on a cell inside
      the bounds that its row does not reach, after open cells. */
  lemma {:induction false} CastSpec(mp: MclMap, bound: int, p: Cell, d: Cell)
    requires mp.Valid() && d != (0, 0)
    ensures Cast(mp, bound, p, d).Ok? ==>
      var n := Cast(mp, bound, p, d).value;
      var last := Advance(p, d, n);
      && (forall k :: 0 <= k < n ==> Open(mp, bound, Advance(p, d, k)))
      && (!Inside(mp, bound, last) || (last.1 < |mp.m[last.0]| && mp.m[last.0][last.1]))
    ensures Cast(mp, bound, p, d).Err? ==>
      && Cast(mp, bound, p, d).error == IndexError
      && exists n: nat :: OffRow(mp, bound, p, d, n)
    decreases Room(p, d, mp.nrows, bound)
  {
    if Inside(mp, bound, p) && p.1 < |mp.m[p.0]| && !mp.m[p.0][p.1] {
      var q := Step(p, d);
      CastSpec(mp, bound, q, d);
      assert forall k :: 0 < k ==> Advance(p, d, k) == Advance(q, d, k - 1);
      if Cast(mp, bound, q, d).Err? {
        var n: nat :| OffRow(mp, bound, q, d, n);
        assert Advance(p, d, n + 1) == Advance(q, d, n);
        assert OffRow(mp, bound, p, d, n + 1);
      }
    } else if Inside(mp, bound, p) && p.1 >= |mp.m[p.0]| {
      assert OffRow(mp, bound, p, d, 0);
    }
  }

  /** With a column bound no wider than the map, every cell inside lies on
      its row, so the walk never fails. */
  lemma {:induction false} CastWithinColumns(mp: MclMap, bound: int, p: Cell, d: Cell)
    requires mp.Valid() && d != (0, 0) && bound <= mp.ncols
    ensures Cast(mp, bound, p, d).Ok?
    decreases Room(p, d, mp.nrows, bound)
  {
    if Inside(mp, bound, p) && !mp.m[p.0][p.1] {
      CastWithinColumns(mp, bound, Step(p, d), d);
    }
  }

  /** `r` with `n` more steps. */
  function Plus(r: Result<nat>, n: nat): Result<nat> {
    match r
    case Ok(k) => Ok(k + n)
    case Err(e) => Err(e)
  }

  /** `ray_cast(sensor_num, kin_state)` as written: the column test compares
      against the number of rows. */
  method RayCast(mp: MclMap, sensor: int, kin: (int, int, int)) returns (r: Result<nat>)
    requires mp.Valid()
    ensures r == Cast(mp, mp.nrows, (kin.0, kin.1), Direction(sensor, kin.2))
  {
    var delta := Turned(sensor, kin.2);
    r := Walk(mp, mp.nrows, (kin.0, kin.1), delta);
  }

  /** `ray_cast` with the column test against the number of columns, as the
      grid's shape calls for: it never fails, and reads the distance to the
      nearest obstacle or edge of the map. */
  method RayCastCorrected(mp: MclMap, sensor: int, kin: (int, int, int)) returns (r: nat)
    requires mp.Valid()
    ensures Cast(mp, mp.ncols, (kin.0, kin.1), Direction(sensor, kin.2)) == Ok(r)
  {
    var delta := Turned(sensor, kin.2);
    CastWithinColumns(mp, mp.ncols, (kin.0, kin.1), delta);
    var w := Walk(mp, mp.ncols, (kin.0, kin.1), delta);
    r := w.value;
  }

  /** The direction loop of `ray_cast`: `orient` quarter turns of the
      sensor's north-facing direction. */
  method Turned(sensor: int, orient: int) returns (delta: Cell)
    ensures delta == Direction(sensor, orient) && delta != (0, 0)
  {
    delta := Base(sensor);
    var k := 0;
    assert delta == Rotated(Base(sensor), 0);
    while k < orient
      invariant 0 <= k && (orient >= 0 ==> k <= orient) && (orient < 0 ==> k == 0)
      invariant delta == Rotated(Base(sensor), k)
    {
      RotatedSnoc(Base(sensor), k);
      delta := (delta.1, -delta.0);
      k := k + 1;
    }
    if orient < 0 {
      assert Rotated(Base(sensor), orient) == Base(sensor);
    }
  }

  /** The range loop of `ray_cast`: step along `delta` while the cell is
      inside and free, counting the steps. */
  method Walk(mp: MclMap, bound: int, start: Cell, delta: Cell) returns (r: Result<nat>)
    requires mp.Valid() && delta != (0, 0)
    ensures r == Cast(mp, bound, start, delta)
  {
    var pos := start;
    var count: nat := 0;
    while 0 <= pos.0 < mp.nrows && 0 <= pos.1 < bound && (pos.1 < |mp.m[pos.0]| ==> !mp.m[pos.0][pos.1])
      invariant Cast(mp, bound, start, delta) == Plus(Cast(mp, bound, pos, delta), count)
      decreases Room(pos, delta, mp.nrows, bound)
    {
      if pos.1 >= |mp.m[pos.0]| {
        return Err(IndexError);
      }
      pos := (pos.0 + delta.0, pos.1 + delta.1);
      count := count + 1;
    }
    return Ok(count);
  }

  // ---------------------------------------------------------------------------
  // The column bound of ray_cast

  /** One row of three free cells. */
  function WideGrid(): MclMap {
    MclMap([[false, false, false]], 1, 3, [(0, 0), (0, 1), (0, 2)])
  }

  /** Two rows of one free cell. */
  function TallGrid(): MclMap {
    MclMap([[false], [false]], 2, 1, [(0, 0), (1, 0)])
  }

  /** On a map wider than tall, the east sensor of a north-facing robot at
      the west end stops at the number of rows: it reads 1 where the free
      row ahead is 3 cells long. */
  lemma WideGridCounterexample()
    ensures WideGrid().Valid()
    ensures Cast(WideGrid(), WideGrid().nrows, (0, 0), Direction(1, 0)) == Ok(1)
    ensures Cast(WideGrid(), WideGrid().ncols, (0, 0), Direction(1, 0)) == Ok(3)
  {
    var mp := WideGrid();
    assert Direction(1, 0) == (0, 1);
    assert Cast(mp, 1, (0, 1), (0, 1)) == Ok(0);
    assert Cast(mp, 3, (0, 3), (0, 1)) == Ok(0);
    assert Cast(mp, 3, (0, 2), (0, 1)) == Ok(1);
    assert Cast(mp, 3, (0, 1), (0, 1)) == Ok(2);
  }

  /** On a map taller than wide, the same reading walks off the end of the
      row inside the bounds and raises an IndexError; the map has one open
      cell ahead of none, so the reading should be 1. */
  lemma TallGridCounterexample()
    ensures TallGrid().Valid()
    ensures Cast(TallGrid(), TallGrid().nrows, (0, 0), Direction(1, 0)) == Err(IndexError)
    ensures Cast(TallGrid(), TallGrid().ncols, (0, 0), Direction(1, 0)) == Ok(1)
  {
    var mp := TallGrid();
    assert Direction(1, 0) == (0, 1);
    assert Cast(mp, 2, (0, 1), (0, 1)) == Err(IndexError);
    assert Cast(mp, 1, (0, 1), (0, 1)) == Ok(0);
  }
}
