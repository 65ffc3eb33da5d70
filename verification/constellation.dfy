/**
 * The constellation tables of pegasus_modulation.c, filled once by
 * pgm_init_tables.  A point is kept symbolic (which multiple of which
 * cosine and sine, or which grid coordinates before normalisation), so the
 * model follows exactly where each point is stored without computing any
 * floating-point value.
 *
 * Every filler enumerates its points in some order (a "walk") and stores
 * the n-th point in slot gray(n), or in slot n when it does not Gray code.
 */
module Constellation {
  import opened Bits
  import Tools
  import opened ModulationSchemes

  /**
   * Polar(k, t) is k * (cos a, sin a) with a = phase shift + 2 t * angle
   * step of the scheme; Grid(i, q) is (i, q) times the normalisation factor.
   */
  datatype Point = Polar(multiplier: nat, turn: nat) | Grid(i: int, q: int)

  /** What an unwritten slot holds: the tables are zero-initialised globals. */
  const Origin: Point := Grid(0, 0)

  /** The value whose Gray code is g. */
  function Ungray(n: nat, g: nat): (v: nat)
    requires g < Pow2(n)
    ensures v < Pow2(n) && Tools.Gray(v) == g
  {
    Tools.GrayOnto(n, g);
    Tools.FromGray(g)
  }

  /** A walk of 2^n points stored Gray coded: slot j holds the point whose Gray code is j. */
  function Placed(walk: seq<Point>, n: nat): (t: seq<Point>)
    requires |walk| == Pow2(n)
    ensures |t| == |walk|
  {
    seq(|walk|, j requires 0 <= j < |walk| => walk[Ungray(n, j)])
  }

  /** The n-th point of a Gray-coded walk is found in slot gray(n). */
  lemma PlacedAt(walk: seq<Point>, n: nat, k: nat)
    requires |walk| == Pow2(n) && k < |walk|
    ensures Tools.Gray(k) < |walk| && Placed(walk, n)[Tools.Gray(k)] == walk[k]
  {
    Tools.GrayBound(n, k);
    Tools.GrayInjective(Ungray(n, Tools.Gray(k)), k);
  }

  /** The first `count` points of the walk have been stored in their Gray-coded slots. */
  ghost predicate Written(table: seq<Point>, walk: seq<Point>, count: nat)
  {
    count <= |walk| && forall k :: 0 <= k < count ==> Tools.Gray(k) < |table| && table[Tools.Gray(k)] == walk[k]
  }

  /** Storing the next point keeps every earlier one: distinct indices have distinct Gray codes. */
  lemma WriteNext(table: seq<Point>, walk: seq<Point>, n: nat, count: nat)
    requires |table| == Pow2(n) && Written(table, walk, count) && count < |walk| && count < Pow2(n)
    ensures Tools.Gray(count) < |table|
    ensures Written(table[Tools.Gray(count) := walk[count]], walk, count + 1)
  {
    Tools.GrayBound(n, count);
    forall k | 0 <= k < count
      ensures Tools.Gray(k) != Tools.Gray(count)
    {
      if Tools.Gray(k) == Tools.Gray(count) {
        Tools.GrayInjective(k, count);
      }
    }
  }

  /** Once the whole walk is stored, the table is the Gray-coded placement of the walk. */
  lemma WrittenIsPlaced(table: seq<Point>, walk: seq<Point>, n: nat)
    requires |table| == |walk| == Pow2(n) && Written(table, walk, |walk|)
    ensures table == Placed(walk, n)
  {
    forall j | 0 <= j < |walk|
      ensures table[j] == Placed(walk, n)[j]
    {
      var k := Ungray(n, j);
      assert table[Tools.Gray(k)] == walk[k];
    }
  }

  // ---------------------------------------------------------------------
  // pgm_fill_xsk

  /** The i-th point of an ASK, FSK or PSK constellation: only ASK scales it by i. */
  function XskWalk(volume: nat, selfMultiply: bool): (w: seq<Point>)
    ensures |w| == volume
    ensures forall i :: 0 <= i < volume ==> w[i].Polar? && w[i].turn == i
    ensures forall i :: 0 <= i < volume ==> w[i].multiplier == if selfMultiply then i else 1
  {
    seq(volume, i requires 0 <= i => Polar(if selfMultiply then i else 1, i))
  }

  /** The filled table of 2^n points: Gray coded or in walk order. */
  function XskTable(n: nat, grayCoded: bool, selfMultiply: bool): (t: seq<Point>)
    ensures |t| == Pow2(n)
  {
    var w := XskWalk(Pow2(n), selfMultiply);
    if grayCoded then Placed(w, n) else w
  }

  /** The slot pgm_fill_xsk stores point i in. */
  function XskSlot(n: nat, grayCoded: bool, i: nat): (j: nat)
    requires i < Pow2(n)
    ensures j < Pow2(n)
  {
    if grayCoded then (Tools.GrayBound(n, i); Tools.Gray(i)) else i
  }

  /**
   * pgm_fill_xsk: point i goes to slot gray(i) when Gray coded, else to
   * slot i.  Since Gray coding is a bijection on the slots, every slot is
   * written exactly once.
   */
  method FillXsk(volume: nat, n: nat, grayCoded: bool, selfMultiply: bool) returns (table: seq<Point>)
    requires volume == Pow2(n)
    ensures table == XskTable(n, grayCoded, selfMultiply)
    ensures forall i :: 0 <= i < volume ==> table[XskSlot(n, grayCoded, i)] == Polar(if selfMultiply then i else 1, i)
  {
    ghost var walk := XskWalk(volume, selfMultiply);
    table := seq(volume, _ => Origin);
    var i := 0;
    while i < volume
      invariant 0 <= i <= volume && |table| == volume
      invariant forall k :: 0 <= k < i ==> table[XskSlot(n, grayCoded, k)] == walk[k]
    {
      var index := if grayCoded then Tools.Gray(i) else i;
      var multiplier := if selfMultiply then i else 1;
      assert index == XskSlot(n, grayCoded, i);
      forall k | 0 <= k < i
        ensures XskSlot(n, grayCoded, k) != index
      {
        if grayCoded && Tools.Gray(k) == Tools.Gray(i) {
          Tools.GrayInjective(k, i);
        }
      }
      table := table[index := Polar(multiplier, i)];
      i := i + 1;
    }
    if grayCoded {
      forall j | 0 <= j < volume
        ensures table[j] == Placed(walk, n)[j]
      {
        var k := Ungray(n, j);
        assert table[XskSlot(n, grayCoded, k)] == walk[k];
      }
    }
  }

  // ---------------------------------------------------------------------
  // The QAM grid walks

  /**
   * The point in column c and row r of the serpentine walk over the grid
   * {-b, -b+2, ..., b}^2: columns go left to right, rows go up in even
   * columns and down in odd ones.
   */
  function WalkPoint(b: int, c: int, r: int): Point
  {
    Grid(-b + 2 * c, if c % 2 == 0 then -b + 2 * r else b - 2 * r)
  }

  /** Column c of the walk: its b+1 rows in visiting order. */
  function Column(b: nat, c: nat): (s: seq<Point>)
    ensures |s| == b + 1
  {
    seq(b + 1, r => WalkPoint(b, c, r))
  }

  /** The number of points in the first c columns, c * (b+1). */
  function Cells(b: nat, c: nat): nat
  {
    if c == 0 then 0 else Cells(b, c - 1) + b + 1
  }

  /** The first c columns of the walk. */
  function Columns(b: nat, c: nat): (w: seq<Point>)
    ensures |w| == Cells(b, c)
  {
    if c == 0 then [] else Columns(b, c - 1) + Column(b, c - 1)
  }

  /** The whole serpentine walk: all b+1 columns. */
  function Serpentine(b: nat): seq<Point>
  {
    Columns(b, b + 1)
  }

  lemma {:induction false} CellsIsProduct(b: nat, c: nat)
    ensures Cells(b, c) == c * (b + 1)
  {
    if c > 0 {
      CellsIsProduct(b, c - 1);
    }
  }

  /** Row r of an earlier column c' sits at index Cells(b, c') + r of the first c columns. */
  lemma {:induction false} ColumnsAt(b: nat, c: nat, c': nat, r: nat)
    requires c' < c && r <= b
    ensures Cells(b, c') + r < Cells(b, c)
    ensures Columns(b, c)[Cells(b, c') + r] == WalkPoint(b, c', r)
  {
    if c' < c - 1 {
      ColumnsAt(b, c - 1, c', r);
    }
    CellsMonotone(b, c', c - 1);
  }

  lemma {:induction false} CellsMonotone(b: nat, c: nat, c': nat)
    requires c <= c'
    ensures Cells(b, c) <= Cells(b, c')
    decreases c' - c
  {
    if c < c' {
      CellsMonotone(b, c, c' - 1);
    }
  }

  /** Column c, row r of the walk is point Cells(b, c) + r. */
  lemma WalkIndex(b: nat, c: nat, r: nat)
    requires c <= b && r <= b
    ensures Cells(b, c) + r < |Serpentine(b)|
    ensures Serpentine(b)[Cells(b, c) + r] == WalkPoint(b, c, r)
  {
    ColumnsAt(b, b + 1, c, r);
  }

  /**
   * The walk in closed form: it has (b+1)^2 points, and point n lies in
   * column n / (b+1), row n % (b+1).
   */
  lemma SerpentineAt(b: nat, n: nat)
    requires n < (b + 1) * (b + 1)
    ensures |Serpentine(b)| == (b + 1) * (b + 1)
    ensures Serpentine(b)[n] == WalkPoint(b, n / (b + 1), n % (b + 1))
  {
    CellsIsProduct(b, b + 1);
    var c, r := SerpentineCoords(b, n);
    DivModUnique(n, b + 1, c, r);
  }

  lemma MulMonotone(x: nat, y: nat, k: nat)
    requires x <= y
    ensures x * k <= y * k
  {
    assert y * k == x * k + (y - x) * k;
  }

  /**
   * Every grid point (-b + 2c, -b + 2r) is visited; with SerpentineInjective
   * below, the walk is a bijection onto the grid.
   */
  lemma SerpentineCovers(b: nat, c: nat, r: nat)
    requires c <= b && r <= b
    ensures var n := Cells(b, c) + (if c % 2 == 0 then r else b - r);
      n < |Serpentine(b)| && Serpentine(b)[n] == Grid(-(b as int) + 2 * c, -(b as int) + 2 * r)
  {
    WalkIndex(b, c, if c % 2 == 0 then r else b - r);
  }

  /** Two indices of the walk visit the same point only if they are equal. */
  lemma SerpentineInjective(b: nat, n: nat, n': nat)
    requires n < |Serpentine(b)| && n' < |Serpentine(b)| && Serpentine(b)[n] == Serpentine(b)[n']
    ensures n == n'
  {
    var c, r := SerpentineCoords(b, n);
    var c', r' := SerpentineCoords(b, n');
    WalkPointInjective(b, c, r, c', r');
  }

  /** The column c and row r of walk index n. */
  lemma SerpentineCoords(b: nat, n: nat) returns (c: nat, r: nat)
    requires n < |Serpentine(b)|
    ensures r <= b && n == c * (b + 1) + r && Serpentine(b)[n] == WalkPoint(b, c, r)
  {
    CellsIsProduct(b, b + 1);
    c, r := n / (b + 1), n % (b + 1);
    assert n == c * (b + 1) + r;
    if c > b {
      MulMonotone(b + 1, c, b + 1);
      assert false;
    }
    CellsIsProduct(b, c);
    WalkIndex(b, c, r);
  }

  /** Within a column the rows are distinct, and distinct columns lie on distinct lines. */
  lemma WalkPointInjective(b: nat, c: nat, r: nat, c': nat, r': nat)
    requires r <= b && r' <= b && WalkPoint(b, c, r) == WalkPoint(b, c', r')
    ensures c == c' && r == r'
  {
  }

  /**
   * Consecutive points of the walk are grid neighbours: within a column q
   * moves by 2, and a new column starts at the row where the previous one
   * ended, one column to the right.
   */
  lemma SerpentineSteps(b: nat, c: nat, r: nat)
    requires c <= b && r <= b && Cells(b, c) + r + 1 < |Serpentine(b)|
    ensures var p, p' := Serpentine(b)[Cells(b, c) + r], Serpentine(b)[Cells(b, c) + r + 1];
      p.Grid? && p'.Grid? &&
      if r < b then p'.i == p.i && (p'.q == p.q + 2 || p'.q == p.q - 2)
      else p'.i == p.i + 2 && p'.q == p.q
  {
    WalkIndex(b, c, r);
    if r < b {
      WalkIndex(b, c, r + 1);
    } else {
      WalkIndex(b, c + 1, 0);
      assert Cells(b, c + 1) == Cells(b, c) + b + 1;
    }
  }

  function Abs(x: int): nat
  {
    if x < 0 then -x else x
  }

  /**
   * The test that ends a column: after row r the next q is past the bound
   * exactly when r was the last row.
   */
  lemma ColumnEnds(b: int, c: nat, r: nat, up: int, q: int)
    requires r <= b && up == (if c % 2 == 0 then 1 else -1)
    requires q == (if c % 2 == 0 then -b + 2 * r else b - 2 * r)
    ensures Abs(q + 2 * up) > Abs(b * up) <==> r == b
  {
  }

  /** The loop's (i, q) in column c, row r is the walk's point there. */
  lemma ColumnPoint(b: int, c: nat, r: nat, i: int, q: int)
    requires i + b == 2 * c && q == (if c % 2 == 0 then -b + 2 * r else b - 2 * r)
    ensures Grid(i, q) == WalkPoint(b, c, r)
  {
  }

  /** The direction column c is walked in: up in even columns, down in odd ones. */
  function Up(c: nat): int
  {
    if c % 2 == 0 then 1 else -1
  }

  lemma UpNext(c: nat)
    ensures Up(c + 1) == -Up(c)
  {
  }

  /** Storing point (i, q), the next one of the walk, at slot gray(index). */
  method StorePoint(table: seq<Point>, n: nat, ghost walk: seq<Point>, i: int, q: int, index: nat)
    returns (table': seq<Point>, index': nat)
    requires |table| == Pow2(n) && index < |walk| && index < Pow2(n) && walk[index] == Grid(i, q)
    requires Written(table, walk, index)
    ensures index' == index + 1 && |table'| == Pow2(n) && Written(table', walk, index')
  {
    WriteNext(table, walk, n, index);
    table' := table[Tools.Gray(index) := Grid(i, q)];
    index' := index + 1;
  }

  /**
   * One column of pgm_fill_rectangle_qam: rows r = 0 .. b of column c, with
   * q running from -b*up to b*up, go to the slots of walk indices
   * Cells(b, c) + r.
   */
  method FillColumn(table: seq<Point>, n: nat, bound: nat, ghost c: nat, i: int, up: int, index: nat)
    returns (table': seq<Point>, index': nat)
    requires |Serpentine(bound)| == Pow2(n) && |table| == Pow2(n)
    requires c <= bound && i + bound == 2 * c && up == Up(c)
    requires index == Cells(bound, c) && Written(table, Serpentine(bound), index)
    ensures index' == Cells(bound, c + 1)
    ensures |table'| == Pow2(n) && Written(table', Serpentine(bound), index')
  {
    var b: int := bound;
    var q, qEnd, qStep := -b * up, b * up, 2 * up;
    ghost var r: nat := 0;
    table', index' := table, index;
    while true
      invariant r <= bound
      invariant q == (if c % 2 == 0 then -b + 2 * r else b - 2 * r)
      invariant index' == Cells(bound, c) + r
      invariant |table'| == Pow2(n) && Written(table', Serpentine(bound), index')
      decreases bound - r
    {
      WalkIndex(bound, c, r);
      table', index' := StorePoint(table', n, Serpentine(bound), i, q, index');
      ColumnEnds(bound, c, r, up, q);
      q := q + qStep;
      if Abs(q) > Abs(qEnd) {
        break;
      }
      r := r + 1;
    }
  }

  /**
   * pgm_fill_rectangle_qam: the n-th point of the serpentine walk is stored
   * at slot gray(n).
   */
  method FillRectangleQam(n: nat, bound: nat) returns (table: seq<Point>)
    requires |Serpentine(bound)| == Pow2(n)
    ensures table == Placed(Serpentine(bound), n)
  {
    var b: int := bound;
    table := seq(Pow2(n), _ => Origin);
    var index: nat := 0;
    var up := 1;
    var i := -b;
    ghost var c: nat := 0;
    while i <= b
      invariant c <= bound + 1 && i + bound == 2 * c && up == Up(c)
      invariant index == Cells(bound, c)
      invariant |table| == Pow2(n) && Written(table, Serpentine(bound), index)
      decreases bound + 1 - c
    {
      table, index := FillColumn(table, n, bound, c, i, up, index);
      UpNext(c);
      up := -up;
      i := i + 2;
      c := c + 1;
    }
    assert c == bound + 1;
    WrittenIsPlaced(table, Serpentine(bound), n);
  }

  /** The four corners (±b, ±b), which the 32-QAM walk skips. */
  predicate Corner(b: int, p: Point)
  {
    p.Grid? && (p.i == -b || p.i == b) && (p.q == -b || p.q == b)
  }

  /** The points of a walk that are not corners, in walk order. */
  function DropCorners(b: nat, s: seq<Point>): (r: seq<Point>)
    ensures |r| <= |s|
  {
    if |s| == 0 then []
    else DropCorners(b, s[..|s| - 1]) + (if Corner(b, s[|s| - 1]) then [] else [s[|s| - 1]])
  }

  /** The cross-shaped walk of the non-rectangular QAM: the serpentine walk minus its corners. */
  function Cross(b: nat): seq<Point>
  {
    DropCorners(b, Serpentine(b))
  }

  lemma DropStep(b: nat, s: seq<Point>, k: nat)
    requires k < |s|
    ensures DropCorners(b, s[..k + 1]) == DropCorners(b, s[..k]) + (if Corner(b, s[k]) then [] else [s[k]])
  {
    assert s[..k + 1][..k] == s[..k];
  }

  /** The points kept from a prefix of the walk are a prefix of the points kept from all of it. */
  lemma {:induction false} DropPrefix(b: nat, s: seq<Point>, k: nat)
    requires k <= |s|
    ensures DropCorners(b, s[..k]) <= DropCorners(b, s)
    decreases |s| - k
  {
    if k < |s| {
      DropStep(b, s, k);
      DropPrefix(b, s, k + 1);
    } else {
      assert s[..k] == s;
    }
  }

  /** No corner survives, and every other point of the walk does. */
  lemma {:induction false} DropCornersContents(b: nat, s: seq<Point>)
    ensures forall p :: p in DropCorners(b, s) <==> p in s && !Corner(b, p)
  {
    if |s| > 0 {
      var init := s[..|s| - 1];
      DropCornersContents(b, init);
      assert s == init + [s[|s| - 1]];
    }
  }

  /** The table holds the non-corner points among the first `pos` of the walk. */
  ghost predicate CrossWritten(table: seq<Point>, n: nat, bound: nat, pos: nat, index: nat)
  {
    && pos <= |Serpentine(bound)|
    && index == |DropCorners(bound, Serpentine(bound)[..pos])|
    && |table| == Pow2(n) && Written(table, DropCorners(bound, Serpentine(bound)[..pos]), index)
  }

  /** One step of the 32-QAM walk: a corner is passed over, any other point is stored. */
  method CrossStep(table: seq<Point>, n: nat, bound: nat, ghost c: nat, ghost r: nat, ghost pos: nat, i: int, q: int, index: nat)
    returns (table': seq<Point>, index': nat)
    requires |Cross(bound)| == Pow2(n)
    requires c <= bound && r <= bound && pos == Cells(bound, c) + r && Grid(i, q) == WalkPoint(bound, c, r)
    requires CrossWritten(table, n, bound, pos, index)
    ensures CrossWritten(table', n, bound, pos + 1, index')
  {
    WalkIndex(bound, c, r);
    var b: int := bound;
    ghost var walk := Serpentine(bound);
    DropStep(bound, walk, pos);
    ghost var kept := DropCorners(bound, walk[..pos + 1]);
    table', index' := table, index;
    if !((i == -b && q == -b) || (i == -b && q == b) || (i == b && q == -b) || (i == b && q == b)) {
      DropPrefix(bound, walk, pos + 1);
      assert Written(table, kept, index);
      table', index' := StorePoint(table, n, kept, i, q, index);
    }
  }

  /** One column of pgm_fill_nonrectangle_qam. */
  method FillCrossColumn(table: seq<Point>, n: nat, bound: nat, ghost c: nat, i: int, up: int, index: nat)
    returns (table': seq<Point>, index': nat)
    requires |Cross(bound)| == Pow2(n)
    requires c <= bound && i + bound == 2 * c && up == Up(c)
    requires CrossWritten(table, n, bound, Cells(bound, c), index)
    ensures CrossWritten(table', n, bound, Cells(bound, c + 1), index')
  {
    var b: int := bound;
    var q, qEnd, qStep := -b * up, b * up, 2 * up;
    ghost var r: nat := 0;
    ghost var pos := Cells(bound, c);
    table', index' := table, index;
    while true
      invariant r <= bound && pos == Cells(bound, c) + r
      invariant q == (if c % 2 == 0 then -b + 2 * r else b - 2 * r)
      invariant CrossWritten(table', n, bound, pos, index')
      decreases bound - r
    {
      ColumnPoint(bound, c, r, i, q);
      table', index' := CrossStep(table', n, bound, c, r, pos, i, q, index');
      pos := pos + 1;
      ColumnEnds(bound, c, r, up, q);
      q := q + qStep;
      if Abs(q) > Abs(qEnd) {
        assert pos == Cells(bound, c + 1);
        break;
      }
      r := r + 1;
    }
  }

  /**
   * pgm_fill_nonrectangle_qam: the serpentine walk again, but a corner is
   * skipped without advancing the index, so the k-th non-corner point is
   * stored at slot gray(k).
   */
  method FillCrossQam(n: nat, bound: nat) returns (table: seq<Point>)
    requires |Cross(bound)| == Pow2(n)
    ensures table == Placed(Cross(bound), n)
  {
    var b: int := bound;
    table := seq(Pow2(n), _ => Origin);
    var index: nat := 0;
    var up := 1;
    var i := -b;
    ghost var c: nat := 0;
    ghost var pos := 0;
    while i <= b
      invariant c <= bound + 1 && i + bound == 2 * c && up == Up(c) && pos == Cells(bound, c)
      invariant CrossWritten(table, n, bound, pos, index)
      decreases bound + 1 - c
    {
      table, index := FillCrossColumn(table, n, bound, c, i, up, index);
      pos := Cells(bound, c + 1);
      UpNext(c);
      up := -up;
      i := i + 2;
      c := c + 1;
    }
    assert c == bound + 1;
    assert Serpentine(bound)[..pos] == Serpentine(bound);
    WrittenIsPlaced(table, Cross(bound), n);
  }

  // ---------------------------------------------------------------------
  // How many points the 32-QAM walk keeps

  lemma {:induction false} DropConcat(b: nat, s: seq<Point>, t: seq<Point>)
    ensures DropCorners(b, s + t) == DropCorners(b, s) + DropCorners(b, t)
    decreases |t|
  {
    if |t| == 0 {
      assert s + t == s;
    } else {
      var t0 := t[..|t| - 1];
      DropConcat(b, s, t0);
      assert (s + t)[..|s + t| - 1] == s + t0;
    }
  }

  lemma {:induction false} DropNone(b: nat, s: seq<Point>)
    requires forall k :: 0 <= k < |s| ==> !Corner(b, s[k])
    ensures DropCorners(b, s) == s
  {
    if |s| > 0 {
      DropNone(b, s[..|s| - 1]);
      assert s == s[..|s| - 1] + [s[|s| - 1]];
    }
  }

  /** The outer columns lose their two corners; the inner ones lose nothing. */
  lemma ColumnKept(b: nat, c: nat)
    requires 1 <= b && c <= b
    ensures |DropCorners(b, Column(b, c))| == if c == 0 || c == b then b - 1 else b + 1
  {
    var col := Column(b, c);
    if c == 0 || c == b {
      var mid := col[1..b];
      assert col == [col[0]] + mid + [col[b]];
      DropNone(b, mid);
      DropConcat(b, [col[0]] + mid, [col[b]]);
      DropConcat(b, [col[0]], mid);
      assert DropCorners(b, [col[0]]) == [] by {
        assert [col[0]][..0] == [];
      }
      assert DropCorners(b, [col[b]]) == [] by {
        assert [col[b]][..0] == [];
      }
    } else {
      DropNone(b, col);
    }
  }

  lemma {:induction false} ColumnsKept(b: nat, c: nat)
    requires 1 <= b && 1 <= c <= b + 1
    ensures |DropCorners(b, Columns(b, c))| == Cells(b, c) - (if c <= b then 2 else 4)
  {
    DropConcat(b, Columns(b, c - 1), Column(b, c - 1));
    ColumnKept(b, c - 1);
    if c > 1 {
      ColumnsKept(b, c - 1);
    } else {
      assert Columns(b, 0) == [];
    }
  }

  /** The cross-shaped walk has (b+1)^2 - 4 points: exactly the four corners are dropped. */
  lemma CrossSize(b: nat)
    requires b >= 1
    ensures |Cross(b)| == (b + 1) * (b + 1) - 4
  {
    ColumnsKept(b, b + 1);
    CellsIsProduct(b, b + 1);
  }

  // ---------------------------------------------------------------------
  // The table of each scheme

  /** The order in which pgm_init_tables enumerates a scheme's points. */
  function Walk(m: Scheme): seq<Point>
  {
    match Layout(m)
    case Xsk(_, _, _, selfMultiply) => XskWalk(Volume(m), selfMultiply)
    case RectangleQam(b) => Serpentine(b)
    case CrossQam(b) => Cross(b)
  }

  /** Whether the n-th point goes to slot gray(n) rather than slot n. */
  predicate GrayCoded(m: Scheme)
  {
    match Layout(m)
    case Xsk(_, _, grayCoded, _) => grayCoded
    case _ => true
  }

  /** Every walk has exactly as many points as the scheme's table has slots. */
  lemma WalkFits(m: Scheme)
    ensures |Walk(m)| == Volume(m)
  {
    match m
    case Qam16 => SerpentineFits(m, 3);
    case Qam32 => CrossSize(5); QamGridSizes(m);
    case Qam64 => SerpentineFits(m, 7);
    case Qam256 => SerpentineFits(m, 15);
    case Qam1024 => SerpentineFits(m, 31);
    case _ =>
  }

  /** A rectangular QAM walk covers its (b+1) x (b+1) grid, one point per slot. */
  lemma SerpentineFits(m: Scheme, b: nat)
    requires m != Qam32 && IsQam(m) && b == Bound(m)
    ensures |Serpentine(b)| == Volume(m) && Walk(m) == Serpentine(b)
  {
    QamGridSizes(m);
    CellsIsProduct(b, b + 1);
  }

  /** The table pgm_init_tables leaves for a scheme. */
  function Table(m: Scheme): (t: seq<Point>)
    ensures |t| == Volume(m)
  {
    WalkFits(m);
    if GrayCoded(m) then Placed(Walk(m), BlockSize(m)) else Walk(m)
  }

  /** The n-th point of a scheme's walk sits in slot gray(n), or n without Gray coding. */
  lemma TableAt(m: Scheme, k: nat)
    requires k < Volume(m)
    ensures var j := if GrayCoded(m) then Tools.Gray(k) else k;
      j < Volume(m) && Table(m)[j] == (WalkFits(m); Walk(m)[k])
  {
    WalkFits(m);
    if GrayCoded(m) {
      PlacedAt(Walk(m), BlockSize(m), k);
    }
  }

  /** pgm_init_tables, for one scheme: the filler and arguments it uses. */
  method InitTable(m: Scheme) returns (table: seq<Point>)
    ensures table == Table(m)
  {
    WalkFits(m);
    match Layout(m)
    case Xsk(_, _, grayCoded, selfMultiply) =>
      table := FillXsk(Volume(m), BlockSize(m), grayCoded, selfMultiply);
      XskLayout(m);
    case RectangleQam(b) =>
      GridLayout(m);
      table := FillRectangleQam(BlockSize(m), b);
    case CrossQam(b) =>
      GridLayout(m);
      table := FillCrossQam(BlockSize(m), b);
  }

  /** The table of a PSK-like scheme is the one pgm_fill_xsk builds from its flags. */
  lemma XskLayout(m: Scheme)
    requires Layout(m).Xsk?
    ensures Table(m) == XskTable(BlockSize(m), Layout(m).grayCoded, Layout(m).selfMultiply)
  {
  }

  /** The table of a QAM scheme is its grid walk placed in Gray order. */
  lemma GridLayout(m: Scheme)
    requires !Layout(m).Xsk?
    ensures |Walk(m)| == Pow2(BlockSize(m))
    ensures Layout(m).RectangleQam? ==> Walk(m) == Serpentine(Layout(m).bound)
    ensures Layout(m).CrossQam? ==> Walk(m) == Cross(Layout(m).bound)
    ensures Table(m) == Placed(Walk(m), BlockSize(m))
  {
    WalkFits(m);
  }
}
