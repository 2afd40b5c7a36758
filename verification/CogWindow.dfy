/** From a bounding box to a pixel window, and from a window to the tiles that cover it. */
module CogWindow {
  import opened Arith
  import opened Bytes
  import opened Results
  import opened CogModel

  // ---- Bounding box to window ----------------------------------------------

  function Ceil(x: real): int {
    -(-x).Floor
  }

  function Clamp(v: int, lo: int, hi: int): int
    requires lo <= hi
  {
    if v < lo then lo else if v > hi then hi else v
  }

  function SaturatingSub(a: int, b: int): int {
    if a < b then 0 else a - b
  }

  /** The window between four fractional pixel positions, widened by one pixel and clamped to the raster. */
  function Widened(m: CogMetadata, left: real, right: real, top: real, bottom: real): Result<RasterPixelWindow, CogError> {
    var colOff := Clamp(left.Floor - 1, 0, m.width);
    var rowOff := Clamp(top.Floor - 1, 0, m.height);
    var width := SaturatingSub(Clamp(Ceil(right) + 1, 0, m.width), colOff);
    var height := SaturatingSub(Clamp(Ceil(bottom) + 1, 0, m.height), rowOff);
    if width == 0 || height == 0 then Err(NoIntersection)
    else Ok(RasterPixelWindow(colOff, rowOff, width, height))
  }

  /** The window of a box, in real arithmetic. */
  function FromBbox(m: CogMetadata, b: Bbox): Result<RasterPixelWindow, CogError> {
    if m.pixelWidth <= 0.0 || m.pixelHeight >= 0.0 then Err(NotNorthUp)
    else
      Widened(m, (b.minX - m.originX) / m.pixelWidth, (b.maxX - m.originX) / m.pixelWidth,
              (b.maxY - m.originY) / m.pixelHeight, (b.minY - m.originY) / m.pixelHeight)
  }

  predicate NorthUp(m: CogMetadata) {
    m.pixelWidth > 0.0 && m.pixelHeight < 0.0
  }

  /** Column `c`, widened by one pixel on each side, overlaps the box. */
  predicate ColumnNear(m: CogMetadata, b: Bbox, c: int) {
    m.originX + (c - 1) as real * m.pixelWidth < b.maxX && b.minX < m.originX + (c + 2) as real * m.pixelWidth
  }

  /** Row `r`, widened by one pixel above and below, overlaps the box. */
  predicate RowNear(m: CogMetadata, b: Bbox, r: int) {
    m.originY + (r + 2) as real * m.pixelHeight < b.maxY && b.minY < m.originY + (r - 1) as real * m.pixelHeight
  }

  /** The closed cell (c, r) and the closed box share a point. */
  predicate CellTouches(m: CogMetadata, b: Bbox, c: int, r: int) {
    && m.originX + c as real * m.pixelWidth <= b.maxX
    && b.minX <= m.originX + (c + 1) as real * m.pixelWidth
    && m.originY + (r + 1) as real * m.pixelHeight <= b.maxY
    && b.minY <= m.originY + r as real * m.pixelHeight
  }

  lemma QuotientOrder(x: real, p: real, k: real)
    requires p > 0.0
    ensures k > x / p <==> k * p > x
    ensures k < x / p <==> k * p < x
  {
    var q := x / p;
    assert q * p == x;
    assert (k - q) * p == k * p - x;
    if k > q {
      assert (k - q) * p > 0.0;
    } else if k < q {
      assert (q - k) * p > 0.0;
    }
  }

  lemma ColumnsExact(m: CogMetadata, b: Bbox, c: int)
    requires NorthUp(m)
    ensures ((b.minX - m.originX) / m.pixelWidth).Floor - 1 <= c < Ceil((b.maxX - m.originX) / m.pixelWidth) + 1
            <==> ColumnNear(m, b, c)
  {
    QuotientOrder(b.minX - m.originX, m.pixelWidth, (c + 2) as real);
    QuotientOrder(b.maxX - m.originX, m.pixelWidth, (c - 1) as real);
  }

  lemma RowsExact(m: CogMetadata, b: Bbox, r: int)
    requires NorthUp(m)
    ensures ((b.maxY - m.originY) / m.pixelHeight).Floor - 1 <= r < Ceil((b.minY - m.originY) / m.pixelHeight) + 1
            <==> RowNear(m, b, r)
  {
    var p := -m.pixelHeight;
    NegatedQuotient(b.maxY - m.originY, m.pixelHeight);
    NegatedQuotient(b.minY - m.originY, m.pixelHeight);
    QuotientOrder(m.originY - b.maxY, p, (r + 2) as real);
    QuotientOrder(m.originY - b.minY, p, (r - 1) as real);
    assert (r + 2) as real * p == -((r + 2) as real * m.pixelHeight);
    assert (r - 1) as real * p == -((r - 1) as real * m.pixelHeight);
  }

  lemma NegatedQuotient(x: real, p: real)
    requires p < 0.0
    ensures x / p == (-x) / (-p)
  {
    var q := x / p;
    assert q * p == x;
    assert q * (-p) == -x;
  }

  /** For a north-up raster the window is exactly the raster cells whose one-pixel neighbourhood overlaps
      the box; it is refused exactly when no column or no row of the raster qualifies. */
  lemma FromBboxExact(m: CogMetadata, b: Bbox)
    requires NorthUp(m)
    ensures match FromBbox(m, b)
            case Ok(w) =>
              && w.Within(m)
              && forall c, r :: w.Contains(c, r) <==>
                                0 <= c < m.width && ColumnNear(m, b, c) && 0 <= r < m.height && RowNear(m, b, r)
            case Err(e) =>
              && e == NoIntersection
              && ((forall c :: 0 <= c < m.width ==> !ColumnNear(m, b, c)) ||
                  (forall r :: 0 <= r < m.height ==> !RowNear(m, b, r)))
  {
    forall c {
      ColumnsExact(m, b, c);
    }
    forall r {
      RowsExact(m, b, r);
    }
  }

  /** One step of a pixel either way turns a touch into an overlap. */
  lemma StepAcross(k: int, p: real)
    ensures (k - 1) as real * p == k as real * p - p
    ensures (k + 2) as real * p == (k + 1) as real * p + p
  {
    assert (k - 1) as real == k as real - 1.0;
    assert (k + 2) as real == (k + 1) as real + 1.0;
  }

  lemma TouchedIsNear(m: CogMetadata, b: Bbox, c: int, r: int)
    requires NorthUp(m) && CellTouches(m, b, c, r)
    ensures ColumnNear(m, b, c) && RowNear(m, b, r)
  {
    StepAcross(c, m.pixelWidth);
    StepAcross(r, m.pixelHeight);
  }

  /** Every raster cell that touches the box is in the window. */
  lemma WindowContainsTouchedCells(m: CogMetadata, b: Bbox, c: int, r: int)
    requires NorthUp(m) && 0 <= c < m.width && 0 <= r < m.height && CellTouches(m, b, c, r)
    ensures FromBbox(m, b).Ok? && FromBbox(m, b).value.Contains(c, r)
  {
    TouchedIsNear(m, b, c, r);
    FromBboxExact(m, b);
  }

  // ---- The same in rounded arithmetic --------------------------------------

  /** Subtraction and division as the machine performs them. */
  datatype Rounding = Rounding(minus: (real, real) -> real, divided: (real, real) -> real) {
    function Position(at: real, origin: real, pixel: real): real {
      divided(minus(at, origin), pixel)
    }
  }

  /** The window of a box, as computed. */
  function FromBboxRounded(rd: Rounding, m: CogMetadata, b: Bbox): Result<RasterPixelWindow, CogError> {
    if m.pixelWidth <= 0.0 || m.pixelHeight >= 0.0 then Err(NotNorthUp)
    else
      Widened(m, rd.Position(b.minX, m.originX, m.pixelWidth), rd.Position(b.maxX, m.originX, m.pixelWidth),
              rd.Position(b.maxY, m.originY, m.pixelHeight), rd.Position(b.minY, m.originY, m.pixelHeight))
  }

  const TOLERANCE := 1.0 / 1_000_000_000_000_000.0

  function Magnitude(x: real): real {
    if x < 0.0 then -x else x
  }

  /** `y` is `x` up to a relative error. */
  predicate Close(y: real, x: real) {
    Magnitude(y - x) <= TOLERANCE * Magnitude(x)
  }

  /** `y` is `x` up to a relative and an absolute error. */
  predicate Near(y: real, x: real) {
    Magnitude(y - x) <= TOLERANCE * Magnitude(x) + TOLERANCE
  }

  /** Both operations round: a difference with a relative error, a quotient with a relative error or, near zero, an
      absolute one. The tolerance is coarser than both the unit roundoff and the subnormals of IEEE 754 binary64. */
  ghost predicate Rounds(rd: Rounding) {
    && (forall x: real, y: real :: Close(rd.minus(x, y), x - y))
    && (forall x: real, p: real :: p != 0.0 ==> Near(rd.divided(x, p), x / p))
  }

  lemma MagnitudeProduct(x: real, p: real)
    ensures Magnitude(x * p) == Magnitude(x) * Magnitude(p)
  {
  }

  lemma ProductDifference(x: real, y: real, p: real)
    ensures (x - y) * p == x * p - y * p
  {
  }

  lemma Divided(x: real, p: real)
    requires p != 0.0
    ensures x / p * p == x
  {
  }

  lemma ScaledClose(y: real, x: real, p: real)
    requires p != 0.0 && Close(y, x)
    ensures Close(y / p, x / p)
  {
    var a, c, q := x / p, y / p, Magnitude(p);
    Divided(x, p);
    Divided(y, p);
    ProductDifference(c, a, p);
    MagnitudeProduct(c - a, p);
    MagnitudeProduct(a, p);
    ScaledBound(Magnitude(c - a), Magnitude(a), q, Magnitude(y - x), Magnitude(x));
  }

  lemma ScaledBound(d: real, a: real, q: real, dq: real, aq: real)
    requires q > 0.0 && d * q == dq && a * q == aq && dq <= TOLERANCE * aq
    ensures d <= TOLERANCE * a
  {
    var t := TOLERANCE * a;
    assert t * q == TOLERANCE * aq;
    if d > t {
      ScaleUp(d, t, q);
    }
  }

  lemma ScaleUp(x: real, y: real, q: real)
    requires x > y && q > 0.0
    ensures x * q > y * q
  {
    var d := x - y;
    assert d * q > 0.0;
    assert x == y + d;
  }

  /** A computed position is off by a tiny relative and absolute error. */
  lemma PositionNear(rd: Rounding, at: real, origin: real, pixel: real)
    requires Rounds(rd) && pixel != 0.0
    ensures var x := (at - origin) / pixel;
            Magnitude(rd.Position(at, origin, pixel) - x) <= 3.0 * TOLERANCE * Magnitude(x) + TOLERANCE
  {
    var y := rd.minus(at, origin);
    assert Close(y, at - origin);
    ScaledClose(y, at - origin, pixel);
    assert Near(rd.divided(y, pixel), y / pixel);
  }

  /** On a raster's scale the error stays below one pixel. */
  lemma BelowOnePixel(rd: Rounding, at: real, origin: real, pixel: real, k: int)
    requires Rounds(rd) && pixel != 0.0 && -4 <= k <= U32_LIMIT + 4
    ensures var x, q := (at - origin) / pixel, rd.Position(at, origin, pixel);
            && (x <= k as real ==> q < (k + 1) as real) && (x >= k as real ==> q > (k - 1) as real)
            && (q < (k - 1) as real ==> x < k as real) && (q > (k + 1) as real ==> x > k as real)
  {
    PositionNear(rd, at, origin, pixel);
  }

  /** Column `c`, widened by two pixels on each side, overlaps the box; likewise row `r`. */
  predicate CellWithinTwo(m: CogMetadata, b: Bbox, c: int, r: int) {
    && m.originX + (c - 2) as real * m.pixelWidth < b.maxX && b.minX < m.originX + (c + 3) as real * m.pixelWidth
    && m.originY + (r + 3) as real * m.pixelHeight < b.maxY && b.minY < m.originY + (r - 2) as real * m.pixelHeight
  }

  lemma RoundedColumns(rd: Rounding, m: CogMetadata, b: Bbox, c: int)
    requires NorthUp(m) && Rounds(rd) && 0 <= c < U32_LIMIT
    ensures var inside := rd.Position(b.minX, m.originX, m.pixelWidth).Floor - 1 <= c < Ceil(rd.Position(b.maxX, m.originX, m.pixelWidth)) + 1;
            && (m.originX + c as real * m.pixelWidth <= b.maxX && b.minX <= m.originX + (c + 1) as real * m.pixelWidth ==> inside)
            && (inside ==> m.originX + (c - 2) as real * m.pixelWidth < b.maxX && b.minX < m.originX + (c + 3) as real * m.pixelWidth)
  {
    hide Rounds, Rounding.Position;
    var p := m.pixelWidth;
    QuotientOrder(b.minX - m.originX, p, (c + 1) as real);
    QuotientOrder(b.minX - m.originX, p, (c + 3) as real);
    QuotientOrder(b.maxX - m.originX, p, c as real);
    QuotientOrder(b.maxX - m.originX, p, (c - 2) as real);
    BelowOnePixel(rd, b.minX, m.originX, p, c + 1);
    BelowOnePixel(rd, b.minX, m.originX, p, c + 3);
    BelowOnePixel(rd, b.maxX, m.originX, p, c);
    BelowOnePixel(rd, b.maxX, m.originX, p, c - 2);
  }

  lemma RoundedRows(rd: Rounding, m: CogMetadata, b: Bbox, r: int)
    requires NorthUp(m) && Rounds(rd) && 0 <= r < U32_LIMIT
    ensures var inside := rd.Position(b.maxY, m.originY, m.pixelHeight).Floor - 1 <= r < Ceil(rd.Position(b.minY, m.originY, m.pixelHeight)) + 1;
            && (m.originY + (r + 1) as real * m.pixelHeight <= b.maxY && b.minY <= m.originY + r as real * m.pixelHeight ==> inside)
            && (inside ==> m.originY + (r + 3) as real * m.pixelHeight < b.maxY && b.minY < m.originY + (r - 2) as real * m.pixelHeight)
  {
    hide Rounds, Rounding.Position;
    var p := m.pixelHeight;
    RowOrder(b.maxY - m.originY, p, r + 1);
    RowOrder(b.maxY - m.originY, p, r + 3);
    RowOrder(b.minY - m.originY, p, r);
    RowOrder(b.minY - m.originY, p, r - 2);
    BelowOnePixel(rd, b.maxY, m.originY, p, r + 1);
    BelowOnePixel(rd, b.maxY, m.originY, p, r + 3);
    BelowOnePixel(rd, b.minY, m.originY, p, r);
    BelowOnePixel(rd, b.minY, m.originY, p, r - 2);
  }

  lemma RowOrder(x: real, p: real, k: int)
    requires p < 0.0
    ensures k as real > x / p <==> k as real * p < x
    ensures (k as real) < x / p <==> k as real * p > x
  {
    NegatedQuotient(x, p);
    QuotientOrder(-x, -p, k as real);
    assert k as real * (-p) == -(k as real * p);
  }

  /** Position `k` of a line is between two fractional ones, widened by one. */
  predicate Between(first: real, k: int, last: real) {
    first.Floor - 1 <= k < Ceil(last) + 1
  }

  lemma WidenedCells(m: CogMetadata, left: real, right: real, top: real, bottom: real)
    requires m.width > 0 && m.height > 0
    ensures match Widened(m, left, right, top, bottom)
            case Ok(w) =>
              && w.Within(m)
              && forall c, r :: w.Contains(c, r) <==>
                                0 <= c < m.width && Between(left, c, right) && 0 <= r < m.height && Between(top, r, bottom)
            case Err(e) =>
              && e == NoIntersection
              && ((forall c :: 0 <= c < m.width ==> !Between(left, c, right)) ||
                  (forall r :: 0 <= r < m.height ==> !Between(top, r, bottom)))
  {
  }

  lemma RoundedCell(rd: Rounding, m: CogMetadata, b: Bbox, c: int, r: int)
    requires NorthUp(m) && Rounds(rd) && 0 <= c < U32_LIMIT && 0 <= r < U32_LIMIT
    ensures var inside := && Between(rd.Position(b.minX, m.originX, m.pixelWidth), c, rd.Position(b.maxX, m.originX, m.pixelWidth))
                          && Between(rd.Position(b.maxY, m.originY, m.pixelHeight), r, rd.Position(b.minY, m.originY, m.pixelHeight));
            (CellTouches(m, b, c, r) ==> inside) && (inside ==> CellWithinTwo(m, b, c, r))
  {
    hide Rounds, Rounding.Position, Ceil;
    RoundedColumns(rd, m, b, c);
    RoundedRows(rd, m, b, r);
  }

  /** Rounding cannot lose a cell: the one-pixel margin absorbs it. The computed window holds every raster cell that
      touches the box, and no cell more than two pixels away from it; a request is refused only if no raster cell
      touches the box. */
  lemma RoundedWindow(rd: Rounding, m: CogMetadata, b: Bbox)
    requires NorthUp(m) && Rounds(rd) && m.width > 0 && m.height > 0
    ensures match FromBboxRounded(rd, m, b)
            case Ok(w) =>
              && w.Within(m)
              && (forall c, r :: 0 <= c < m.width && 0 <= r < m.height && CellTouches(m, b, c, r) ==> w.Contains(c, r))
              && (forall c, r :: w.Contains(c, r) ==> CellWithinTwo(m, b, c, r))
            case Err(e) =>
              && e == NoIntersection
              && (forall c, r :: 0 <= c < m.width && 0 <= r < m.height ==> !CellTouches(m, b, c, r))
  {
    hide Rounds, Rounding.Position, Widened, CellTouches, CellWithinTwo, Between;
    WidenedCells(m, rd.Position(b.minX, m.originX, m.pixelWidth), rd.Position(b.maxX, m.originX, m.pixelWidth),
                 rd.Position(b.maxY, m.originY, m.pixelHeight), rd.Position(b.minY, m.originY, m.pixelHeight));
    forall c, r | 0 <= c < m.width && 0 <= r < m.height
      ensures var inside := && Between(rd.Position(b.minX, m.originX, m.pixelWidth), c, rd.Position(b.maxX, m.originX, m.pixelWidth))
                            && Between(rd.Position(b.maxY, m.originY, m.pixelHeight), r, rd.Position(b.minY, m.originY, m.pixelHeight));
              (CellTouches(m, b, c, r) ==> inside) && (inside ==> CellWithinTwo(m, b, c, r))
    {
      RoundedCell(rd, m, b, c, r);
    }
  }

  // ---- Window to tile plan -------------------------------------------------

  /** A rectangle of tiles, in a raster `across` tiles wide. */
  datatype TileBlock = TileBlock(firstRow: nat, lastRow: nat, firstCol: nat, lastCol: nat, across: nat)
  {
    predicate Ordered() {
      firstRow <= lastRow && firstCol <= lastCol
    }

    function Count(): int {
      (lastCol - firstCol + 1) * (lastRow - firstRow + 1)
    }

    /** Index of the bottom-right tile. */
    function LastIndex(): nat {
      RowMajor(lastRow, across, lastCol)
    }

    /** Row-major indices of the rectangle. */
    function Indices(): seq<nat>
      requires Ordered()
    {
      BlockIndices(firstRow, lastRow + 1, firstCol, lastCol, across)
    }

    predicate Has(row: int, col: int) {
      firstRow <= row <= lastRow && firstCol <= col <= lastCol
    }
  }

  /** Indices of one row of tiles. */
  function RowIndices(row: nat, firstCol: nat, lastCol: nat, across: nat): seq<nat>
    requires firstCol <= lastCol
  {
    seq(lastCol - firstCol + 1, j requires 0 <= j => row * across + firstCol + j)
  }

  /** Row-major indices of a tile rectangle, for the rows below `endRow`. */
  function BlockIndices(firstRow: nat, endRow: nat, firstCol: nat, lastCol: nat, across: nat): seq<nat>
    requires firstCol <= lastCol && firstRow <= endRow
    decreases endRow
  {
    if firstRow == endRow then []
    else BlockIndices(firstRow, endRow - 1, firstCol, lastCol, across) + RowIndices(endRow - 1, firstCol, lastCol, across)
  }

  /** The size-`d` block holding the last position of the line [off, off + size). */
  function LastBlock(off: nat, size: nat, d: nat): (q: nat)
    requires d > 0 && size > 0
    ensures off / d <= q
  {
    DivMono(off, off + size - 1, d);
    (off + size - 1) / d
  }

  /** The tiles between the tile of the window's first pixel and the tile of its last pixel. */
  function WindowBlock(m: CogMetadata, w: RasterPixelWindow): (b: TileBlock)
    requires m.Tiled() && w.width > 0 && w.height > 0
    ensures b.Ordered()
  {
    TileBlock(w.rowOff / m.tileHeight, LastBlock(w.rowOff, w.height, m.tileHeight),
              w.colOff / m.tileWidth, LastBlock(w.colOff, w.width, m.tileWidth), m.TilesAcross())
  }

  lemma {:induction false} BlockLength(firstRow: nat, endRow: nat, firstCol: nat, lastCol: nat, across: nat)
    requires firstCol <= lastCol && firstRow <= endRow
    ensures |BlockIndices(firstRow, endRow, firstCol, lastCol, across)| == (lastCol - firstCol + 1) * (endRow - firstRow)
    decreases endRow
  {
    if firstRow == endRow {
    } else {
      BlockLength(firstRow, endRow - 1, firstCol, lastCol, across);
      var k := lastCol - firstCol + 1;
      assert k * (endRow - firstRow) == k * (endRow - 1 - firstRow) + k;
    }
  }

  lemma RowMembers(row: nat, firstCol: nat, lastCol: nat, across: nat, i: nat)
    requires firstCol <= lastCol < across
    ensures i in RowIndices(row, firstCol, lastCol, across) <==> i / across == row && firstCol <= i % across <= lastCol
  {
    var s := RowIndices(row, firstCol, lastCol, across);
    if i in s {
      var j :| 0 <= j < |s| && s[j] == i;
      DivModOf(row, across, firstCol + j);
    }
    if i / across == row && firstCol <= i % across <= lastCol {
      assert s[i % across - firstCol] == i;
    }
  }

  /** Membership in the block, by row and column. */
  lemma {:induction false} BlockMembers(firstRow: nat, endRow: nat, firstCol: nat, lastCol: nat, across: nat, i: nat)
    requires firstCol <= lastCol < across && firstRow <= endRow
    ensures i in BlockIndices(firstRow, endRow, firstCol, lastCol, across)
            <==> firstRow <= i / across < endRow && firstCol <= i % across <= lastCol
    decreases endRow
  {
    if firstRow == endRow {
    } else {
      BlockMembers(firstRow, endRow - 1, firstCol, lastCol, across, i);
      RowMembers(endRow - 1, firstCol, lastCol, across, i);
    }
  }

  /** Indices of the rows below `endRow` stay below the first index of row `endRow`. */
  lemma {:induction false} BlockBelow(firstRow: nat, endRow: nat, firstCol: nat, lastCol: nat, across: nat)
    requires firstCol <= lastCol < across && firstRow <= endRow
    ensures forall i :: i in BlockIndices(firstRow, endRow, firstCol, lastCol, across) ==> i <= (endRow - 1) * across + lastCol
    decreases endRow
  {
    if firstRow == endRow {
    } else {
      BlockBelow(firstRow, endRow - 1, firstCol, lastCol, across);
      assert (endRow - 1) * across == (endRow - 2) * across + across;
    }
  }

  ghost predicate StrictlyIncreasing(s: seq<nat>) {
    forall i, j :: 0 <= i < j < |s| ==> s[i] < s[j]
  }

  lemma IncreasingConcat(a: seq<nat>, b: seq<nat>, limit: int)
    requires StrictlyIncreasing(a) && StrictlyIncreasing(b)
    requires (forall x :: x in a ==> x < limit) && (forall x :: x in b ==> x >= limit)
    ensures StrictlyIncreasing(a + b)
  {
    assert forall i :: 0 <= i < |a| ==> a[i] in a;
    assert forall i :: 0 <= i < |b| ==> b[i] in b;
  }

  lemma {:induction false} BlockIncreasing(firstRow: nat, endRow: nat, firstCol: nat, lastCol: nat, across: nat)
    requires firstCol <= lastCol < across && firstRow <= endRow
    ensures StrictlyIncreasing(BlockIndices(firstRow, endRow, firstCol, lastCol, across))
    decreases endRow
  {
    if firstRow == endRow {
    } else {
      BlockIncreasing(firstRow, endRow - 1, firstCol, lastCol, across);
      BlockBelow(firstRow, endRow - 1, firstCol, lastCol, across);
      assert (endRow - 1) * across == (endRow - 2) * across + across;
      IncreasingConcat(BlockIndices(firstRow, endRow - 1, firstCol, lastCol, across),
                       RowIndices(endRow - 1, firstCol, lastCol, across), (endRow - 1) * across);
    }
  }

  /** Tile `i` of the raster and the window share a pixel. */
  ghost predicate TileMeetsWindow(m: CogMetadata, w: RasterPixelWindow, i: nat)
    requires m.Tiled() && m.TilesAcross() > 0
  {
    exists c: nat, r: nat :: PixelInTile(m, i, c, r) && w.Contains(c, r)
  }

  predicate PixelInTile(m: CogMetadata, i: nat, c: nat, r: nat)
    requires m.Tiled() && m.TilesAcross() > 0
  {
    c / m.tileWidth == i % m.TilesAcross() && r / m.tileHeight == i / m.TilesAcross()
  }

  /** The block of a window inside the raster is inside the raster's tile grid. */
  lemma BlockInGrid(m: CogMetadata, w: RasterPixelWindow)
    requires m.Tiled() && w.Within(m)
    ensures WindowBlock(m, w).lastCol < m.TilesAcross()
    ensures WindowBlock(m, w).lastRow < m.TilesDown()
  {
    DivCeilCovers(m.width, m.tileWidth, w.colOff + w.width - 1);
    DivCeilCovers(m.height, m.tileHeight, w.rowOff + w.height - 1);
  }

  /** Some pixel of the line [off, off + size) lies in block `q` exactly when `q` is between the end blocks. */
  lemma BlockMeetsLine(off: nat, size: nat, d: nat, q: nat) returns (x: nat)
    requires d > 0 && size > 0
    ensures off / d <= q <= (off + size - 1) / d ==> off <= x < off + size && x / d == q
    ensures forall y: nat :: off <= y < off + size && y / d == q ==> off / d <= q <= (off + size - 1) / d
  {
    forall y: nat | off <= y < off + size && y / d == q
      ensures off / d <= q <= (off + size - 1) / d
    {
      DivMono(off, y, d);
      DivMono(y, off + size - 1, d);
    }
    if off / d == q {
      x := off;
    } else {
      x := q * d;
      DivModOf(q, d, 0);
      if off / d < q <= (off + size - 1) / d {
        BlockStartInLine(off, size, d, q);
      }
    }
  }

  lemma BlockStartInLine(off: nat, size: nat, d: nat, q: nat)
    requires d > 0 && size > 0 && off / d < q <= (off + size - 1) / d
    ensures off <= q * d < off + size
  {
    DivUnique(off, d, off / d);
    MulMono(off / d + 1, q, d);
    assert (off / d + 1) * d == off / d * d + d;
    DivUnique(off + size - 1, d, (off + size - 1) / d);
    MulMono(q, (off + size - 1) / d, d);
  }

  /** Tile `i` shares a pixel with the window exactly when its row and column lie in the window's block. */
  lemma TileMeetsIsBlock(m: CogMetadata, w: RasterPixelWindow, i: nat)
    requires m.Tiled() && w.Within(m) && m.TilesAcross() > 0
    ensures TileMeetsWindow(m, w, i) <==> WindowBlock(m, w).Has(i / m.TilesAcross(), i % m.TilesAcross())
  {
    var col, row := i % m.TilesAcross(), i / m.TilesAcross();
    var c := BlockMeetsLine(w.colOff, w.width, m.tileWidth, col);
    var r := BlockMeetsLine(w.rowOff, w.height, m.tileHeight, row);
    if WindowBlock(m, w).Has(row, col) {
      assert PixelInTile(m, i, c, r) && w.Contains(c, r);
    }
  }

  /** What the row-major indices of any in-grid block are. */
  lemma BlockExact(b: TileBlock, down: nat)
    requires b.Ordered() && b.lastCol < b.across && b.lastRow < down
    ensures StrictlyIncreasing(b.Indices())
    ensures forall i: nat :: i in b.Indices() <==> b.Has(i / b.across, i % b.across)
    ensures forall i: nat :: i in b.Indices() ==> i <= b.LastIndex()
    ensures |b.Indices()| == b.Count() > 0
    ensures b.LastIndex() in b.Indices() && b.LastIndex() < b.across * down
  {
    BlockIncreasing(b.firstRow, b.lastRow + 1, b.firstCol, b.lastCol, b.across);
    BlockBelow(b.firstRow, b.lastRow + 1, b.firstCol, b.lastCol, b.across);
    BlockLength(b.firstRow, b.lastRow + 1, b.firstCol, b.lastCol, b.across);
    MulMono(1, b.lastCol - b.firstCol + 1, b.lastRow - b.firstRow + 1);
    forall i: nat
      ensures i in b.Indices() <==> b.Has(i / b.across, i % b.across)
    {
      BlockMembers(b.firstRow, b.lastRow + 1, b.firstCol, b.lastCol, b.across, i);
    }
    DivModOf(b.lastRow, b.across, b.lastCol);
    RowMajorBound(b.lastRow, b.lastCol, b.across, down);
  }

  /** The plan of a window inside the raster is exactly the tiles that share a pixel with it, strictly
      increasing, each below the number of tiles the index arrays hold. */
  lemma PlanExact(m: CogMetadata, w: RasterPixelWindow)
    requires m.Tiled() && w.Within(m)
    ensures m.TilesAcross() > 0
    ensures StrictlyIncreasing(WindowBlock(m, w).Indices())
    ensures forall i: nat :: i in WindowBlock(m, w).Indices() <==> TileMeetsWindow(m, w, i)
    ensures forall i: nat :: i in WindowBlock(m, w).Indices() ==> i < m.TilesAcross() * m.TilesDown()
    ensures |WindowBlock(m, w).Indices()| == WindowBlock(m, w).Count() > 0
  {
    BlockInGrid(m, w);
    var b := WindowBlock(m, w);
    BlockExact(b, m.TilesDown());
    forall i: nat
      ensures i in b.Indices() <==> TileMeetsWindow(m, w, i)
    {
      TileMeetsIsBlock(m, w, i);
    }
  }

  /** Plan the tiles of a window, refusing too many tiles and 32-bit overflows. */
  method ForWindow(m: CogMetadata, w: RasterPixelWindow) returns (r: Result<seq<u32>, CogError>)
    requires m.Tiled() && w.width > 0 && w.height > 0
    ensures w.colOff + w.width >= U32_LIMIT ==> r == Err(WindowColumnOverflow)
    ensures w.colOff + w.width < U32_LIMIT && w.rowOff + w.height >= U32_LIMIT ==> r == Err(WindowRowOverflow)
    ensures w.Within(m) ==>
              r == (var b := WindowBlock(m, w);
                    if b.Count() > MAX_PLANNED_TILE_COUNT then Err(TooManyTiles(b.Count()))
                    else if b.LastIndex() >= U32_LIMIT then Err(TileIndexOverflow)
                    else Ok(b.Indices()))
    ensures r.Ok? ==> r.value == WindowBlock(m, w).Indices() && |r.value| <= MAX_PLANNED_TILE_COUNT
  {
    if w.colOff + w.width >= U32_LIMIT {
      return Err(WindowColumnOverflow);
    }
    if w.rowOff + w.height >= U32_LIMIT {
      return Err(WindowRowOverflow);
    }
    r := PlanBlock(WindowBlock(m, w));
    if w.Within(m) {
      BlockInGrid(m, w);
    }
  }

  lemma RowMajorMono(row: nat, lastRow: nat, width: nat, col: nat)
    requires row <= lastRow
    ensures RowMajor(row, width, col) <= RowMajor(lastRow, width, col)
  {
    MulMono(row, lastRow, width);
  }

  /** Index one row of the block. */
  method PlanRow(tileRow: nat, firstCol: nat, lastCol: nat, across: nat) returns (r: Result<seq<u32>, CogError>)
    requires firstCol <= lastCol
    ensures r == if RowMajor(tileRow, across, lastCol) >= U32_LIMIT then Err(TileIndexOverflow)
                 else Ok(RowIndices(tileRow, firstCol, lastCol, across))
  {
    var indices: seq<u32> := [];
    var tileCol := firstCol;
    var base := tileRow * across;
    while tileCol <= lastCol
      invariant firstCol <= tileCol <= lastCol + 1
      invariant indices == RowIndices(tileRow, firstCol, lastCol, across)[..tileCol - firstCol]
      invariant tileCol > firstCol ==> base + tileCol - 1 < U32_LIMIT
    {
      var index := base + tileCol;
      if index >= U32_LIMIT {
        return Err(TileIndexOverflow);
      }
      indices := indices + [index];
      tileCol := tileCol + 1;
    }
    assert indices == RowIndices(tileRow, firstCol, lastCol, across);
    return Ok(indices);
  }

  /** The counting and indexing half of `ForWindow`. */
  method PlanBlock(b: TileBlock) returns (r: Result<seq<u32>, CogError>)
    requires b.Ordered()
    ensures b.lastCol < b.across ==>
              r == if b.Count() > MAX_PLANNED_TILE_COUNT then Err(TooManyTiles(b.Count()))
                   else if b.LastIndex() >= U32_LIMIT then Err(TileIndexOverflow)
                   else Ok(b.Indices())
    ensures r.Ok? ==> r.value == b.Indices() && |r.value| <= MAX_PLANNED_TILE_COUNT
  {
    var count := b.Count();
    MulMono(1, b.lastCol - b.firstCol + 1, b.lastRow - b.firstRow + 1);
    if count > MAX_PLANNED_TILE_COUNT {
      return Err(TooManyTiles(count));
    }
    var indices: seq<u32> := [];
    var tileRow := b.firstRow;
    while tileRow <= b.lastRow
      invariant b.firstRow <= tileRow <= b.lastRow + 1
      invariant indices == BlockIndices(b.firstRow, tileRow, b.firstCol, b.lastCol, b.across)
      invariant tileRow > b.lastRow ==> b.LastIndex() < U32_LIMIT
    {
      var row := PlanRow(tileRow, b.firstCol, b.lastCol, b.across);
      if row.Err? {
        RowMajorMono(tileRow, b.lastRow, b.across, b.lastCol);
        return Err(row.error);
      }
      indices := indices + row.value;
      tileRow := tileRow + 1;
    }
    BlockLength(b.firstRow, b.lastRow + 1, b.firstCol, b.lastCol, b.across);
    return Ok(indices);
  }

  // ---- Coverage observation ------------------------------------------------

  datatype CrossedTileAxes = Neither | X | Y | XAndY

  function ColumnSet(across: nat, covered: seq<u32>): set<int>
    requires across > 0
  {
    set i | i in covered :: i % across
  }

  function RowSet(across: nat, covered: seq<u32>): set<int>
    requires across > 0
  {
    set i | i in covered :: i / across
  }

  /** Which axes the covered tiles spread over. */
  function CrossedAxes(m: CogMetadata, covered: seq<u32>): CrossedTileAxes
    requires m.Tiled() && m.TilesAcross() > 0
  {
    var x := |ColumnSet(m.TilesAcross(), covered)| > 1;
    var y := |RowSet(m.TilesAcross(), covered)| > 1;
    if x then (if y then XAndY else X) else (if y then Y else Neither)
  }

  /** The window has pixels in at least two tile columns. */
  ghost predicate SpansColumns(m: CogMetadata, w: RasterPixelWindow)
    requires m.Tiled()
  {
    exists c: nat, d: nat ::
      w.colOff <= c < w.colOff + w.width && w.colOff <= d < w.colOff + w.width && c / m.tileWidth != d / m.tileWidth
  }

  /** The window has pixels in at least two tile rows. */
  ghost predicate SpansRows(m: CogMetadata, w: RasterPixelWindow)
    requires m.Tiled()
  {
    exists c: nat, d: nat ::
      w.rowOff <= c < w.rowOff + w.height && w.rowOff <= d < w.rowOff + w.height && c / m.tileHeight != d / m.tileHeight
  }

  lemma SetSpread(s: set<int>, lo: int, hi: int)
    requires forall x :: x in s ==> lo <= x <= hi
    requires lo in s && hi in s
    ensures |s| > 1 <==> lo < hi
  {
    var rest := s - {lo};
    assert |s| == |rest| + 1;
    if lo < hi {
      assert hi in rest;
    } else {
      assert forall x :: x in s ==> x == lo;
      assert rest == {};
    }
  }

  lemma SpanEnds(off: nat, size: nat, d: nat)
    requires d > 0 && size > 0
    ensures (exists x: nat, y: nat :: off <= x < off + size && off <= y < off + size && x / d != y / d)
            <==> off / d < (off + size - 1) / d
  {
    DivMono(off, off + size - 1, d);
    forall x: nat | off <= x < off + size
      ensures off / d <= x / d <= (off + size - 1) / d
    {
      DivMono(off, x, d);
      DivMono(x, off + size - 1, d);
    }
    if off / d < (off + size - 1) / d {
      var x, y := off, off + size - 1;
      assert off <= x < off + size && off <= y < off + size && x / d != y / d;
    }
  }

  /** The distinct rows and columns of a block's indices. */
  lemma BlockSpread(b: TileBlock, covered: seq<u32>)
    requires b.Ordered() && b.lastCol < b.across && covered == b.Indices()
    ensures |ColumnSet(b.across, covered)| > 1 <==> b.firstCol < b.lastCol
    ensures |RowSet(b.across, covered)| > 1 <==> b.firstRow < b.lastRow
  {
    BlockExact(b, b.lastRow + 1);
    var cols, rows := ColumnSet(b.across, covered), RowSet(b.across, covered);
    var first, last := b.firstRow * b.across + b.firstCol, b.LastIndex();
    DivModOf(b.firstRow, b.across, b.firstCol);
    DivModOf(b.lastRow, b.across, b.lastCol);
    assert first in b.Indices() && last in b.Indices();
    forall i | i in covered
      ensures b.Has(i / b.across, i % b.across)
    {
    }
    assert b.firstCol in cols && b.lastCol in cols;
    assert b.firstRow in rows && b.lastRow in rows;
    SetSpread(cols, b.firstCol, b.lastCol);
    SetSpread(rows, b.firstRow, b.lastRow);
  }

  /** `CrossedAxes` of a planned window names an axis exactly when the window spans several tiles on it. */
  lemma CrossedAxesExact(m: CogMetadata, w: RasterPixelWindow, covered: seq<u32>)
    requires m.Tiled() && w.Within(m) && covered == WindowBlock(m, w).Indices() && m.TilesAcross() > 0
    ensures CrossedAxes(m, covered) in {X, XAndY} <==> SpansColumns(m, w)
    ensures CrossedAxes(m, covered) in {Y, XAndY} <==> SpansRows(m, w)
  {
    BlockInGrid(m, w);
    BlockSpread(WindowBlock(m, w), covered);
    SpanEnds(w.colOff, w.width, m.tileWidth);
    SpanEnds(w.rowOff, w.height, m.tileHeight);
  }
}
