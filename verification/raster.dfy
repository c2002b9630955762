/** The drawing loops of the image previewer's `main` (src/main.rs): every
    target cell is mapped back to a source pixel by nearest-neighbour
    sampling with a single scale ratio, the index is clamped to the image,
    and only odd rows are drawn, to make up for character cells being
    about twice as tall as they are wide.

    The output is modelled as a sequence of tokens: `Cell(x, y)` stands for
    the coloured block printed for source pixel (x, y), `Newline` for the
    line break. Painting a cell is left to the `Preview` module. */
module Raster {
  import opened Cast
  import opened Fit

  datatype Token = Cell(x: nat, y: nat) | Newline

  /** The sampling ratio `num as f32 / den as f32`. */
  datatype Ratio = Ratio(num: nat, den: nat)

  /** What the drawing loops depend on: the image dimensions the clamp
      uses, the ratio, the target size from `size`, and whether a line
      break follows each drawn row. */
  datatype Plan = Plan(imageWidth: nat, imageHeight: nat, ratio: Ratio, target: PrintSize, newlines: bool)

  /** A plan whose loops never reach the clamp with a zero image
      dimension: either the image has pixels, or no cell is drawn. */
  predicate Drawable(p: Plan) {
    || (p.imageWidth > 0 && p.imageHeight > 0)
    || p.target.width == 0
    || p.target.height < 2
  }

  /** The source index for target index `i` on an axis of length `dim`:
      `(i as f32 * ratio) as u32`, clamped to `dim - 1`; always inside
      the image (`SampleFloor` relates it to i * ratio). */
  function Sample(i: nat, ratio: Ratio, dim: nat): (r: nat)
    requires dim > 0
    ensures r < dim
  {
    // the product is commutative in IEEE arithmetic, so `i * ratio` is
    // the same `(num / den) * i` that `TruncScale` models
    Clamp(TruncScale(ratio.num, ratio.den, i), dim)
  }

  /** The sampled index never exceeds i * ratio; and when i * ratio lies
      inside the image, it is that value rounded down (nearest-neighbour
      sampling without interpolation). */
  lemma SampleFloor(i: nat, ratio: Ratio, dim: nat)
    requires dim > 0 && ratio.den > 0
    ensures Sample(i, ratio, dim) * ratio.den <= i * ratio.num
    ensures dim <= U32_MAX && i * ratio.num < dim * ratio.den ==>
              i * ratio.num < (Sample(i, ratio, dim) + 1) * ratio.den
  {
    var n := TruncScale(ratio.num, ratio.den, i);
    var r := Sample(i, ratio, dim);
    TruncScaleFloor(ratio.num, ratio.den, i);
    MulMonotone(r, n, ratio.den);
    if dim <= U32_MAX && i * ratio.num < dim * ratio.den {
      SampleUnsaturated(i, ratio, dim, n);
    }
  }

  /** Below `dim * den` the quotient is below `dim <= u32::MAX`, so the
      cast does not saturate and the clamp leaves it alone. */
  lemma SampleUnsaturated(i: nat, ratio: Ratio, dim: nat, n: nat)
    requires 0 < dim <= U32_MAX && ratio.den > 0
    requires n == TruncScale(ratio.num, ratio.den, i)
    requires i * ratio.num < dim * ratio.den
    ensures n < dim
    ensures i * ratio.num < (n + 1) * ratio.den
  {
    TruncScaleFloor(ratio.num, ratio.den, i);
    BelowProductBound(n, dim, ratio.den, i * ratio.num);
  }

  /** At or past the image's far edge (i * ratio >= dim) the clamp takes
      over and the sample is the last index, dim - 1. */
  lemma SampleClamped(i: nat, ratio: Ratio, dim: nat)
    requires 0 < dim <= U32_MAX && ratio.den > 0
    requires i * ratio.num >= dim * ratio.den
    ensures Sample(i, ratio, dim) == dim - 1
  {
    var n := TruncScale(ratio.num, ratio.den, i);
    TruncScaleFloor(ratio.num, ratio.den, i);
    if n < dim {
      MulMonotone(n + 1, dim, ratio.den);
    }
  }

  /** Either the clamp fired, or i * ratio lies below the sample's
      successor: the sample is never more than one step short. */
  lemma SampleLowerBound(i: nat, ratio: Ratio, dim: nat)
    requires 0 < dim <= U32_MAX && ratio.den > 0
    ensures Sample(i, ratio, dim) == dim - 1
            || i * ratio.num < (Sample(i, ratio, dim) + 1) * ratio.den
  {
    if i * ratio.num < dim * ratio.den {
      SampleFloor(i, ratio, dim);
    } else {
      SampleClamped(i, ratio, dim);
    }
  }

  /** n*d <= m < dim*d forces n < dim. */
  lemma BelowProductBound(n: nat, dim: nat, d: nat, m: nat)
    requires n * d <= m < dim * d
    ensures n < dim
  {
    if n >= dim {
      MulMonotone(dim, n, d);
    }
  }

  /** The cells of target row `y` for columns 0 .. n-1, in order. */
  function RowCells(p: Plan, y: nat, n: nat): (r: seq<Token>)
    requires n > 0 ==> p.imageWidth > 0 && p.imageHeight > 0
    ensures |r| == n
  {
    if n == 0 then []
    else RowCells(p, y, n - 1) + [Cell(Sample(n - 1, p.ratio, p.imageWidth), Sample(y, p.ratio, p.imageHeight))]
  }

  /** Cell k of the row samples column k and row y. */
  lemma {:induction false} RowCellsAt(p: Plan, y: nat, n: nat)
    requires n > 0 ==> p.imageWidth > 0 && p.imageHeight > 0
    ensures forall k :: 0 <= k < n ==>
              RowCells(p, y, n)[k] == Cell(Sample(k, p.ratio, p.imageWidth), Sample(y, p.ratio, p.imageHeight))
  {
    if n > 0 {
      RowCellsAt(p, y, n - 1);
    }
  }

  /** Every cell token names a pixel of a `width` x `height` image. */
  predicate CellsWithin(s: seq<Token>, width: nat, height: nat) {
    forall t :: t in s && t.Cell? ==> t.x < width && t.y < height
  }

  /** Tokens a drawn row produces: its cells, then a line break if the plan has them. */
  function RowLength(p: Plan): nat {
    p.target.width + (if p.newlines then 1 else 0)
  }

  /** The output of one pass of the outer loop: nothing for an even row,
      the row's cells (and a line break, if the plan has them) for an odd one. */
  function RowOutput(p: Plan, y: nat): (r: seq<Token>)
    requires Drawable(p)
    requires y < p.target.height
    ensures y % 2 == 0 ==> r == []
    ensures y % 2 == 1 ==> |r| == RowLength(p)
  {
    if y % 2 == 0 then []
    else RowCells(p, y, p.target.width) + (if p.newlines then [Newline] else [])
  }

  /** Everything the outer loop prints for rows 0 .. n-1. */
  function Rows(p: Plan, n: nat): (r: seq<Token>)
    requires Drawable(p)
    requires n <= p.target.height
  {
    if n == 0 then [] else Rows(p, n - 1) + RowOutput(p, n - 1)
  }

  /** The printed frame is (n / 2) drawn rows of `RowLength` tokens. */
  lemma {:induction false} RowsLength(p: Plan, n: nat)
    requires Drawable(p)
    requires n <= p.target.height
    ensures |Rows(p, n)| == (n / 2) * RowLength(p)
  {
    if n > 0 {
      RowsLength(p, n - 1);
      RowCountAdd(n, RowLength(p), |Rows(p, n - 1)|, |RowOutput(p, n - 1)|);
    }
  }

  /** Adding row n-1's share of `per` to the first n-1 rows' total. */
  lemma RowCountAdd(n: nat, per: nat, before: nat, added: nat)
    requires n > 0
    requires before == ((n - 1) / 2) * per
    requires added == (if (n - 1) % 2 == 1 then per else 0)
    ensures before + added == (n / 2) * per
  {
    RowCountStep(n, per);
  }

  /** Rows 0 .. n-1 hold (n / 2) odd rows; row n-1 adds one exactly when it is odd. */
  lemma RowCountStep(n: nat, len: nat)
    requires n > 0
    ensures (n / 2) * len == ((n - 1) / 2) * len + (if (n - 1) % 2 == 1 then len else 0)
  {
    if (n - 1) % 2 == 1 {
      assert n / 2 == (n - 1) / 2 + 1;
    } else {
      assert n / 2 == (n - 1) / 2;
    }
  }

  /** Every cell the loops print names a pixel of the image: the clamp
      keeps both indices inside it. */
  lemma {:induction false} RowsWithinImage(p: Plan, n: nat)
    requires Drawable(p)
    requires n <= p.target.height
    ensures CellsWithin(Rows(p, n), p.imageWidth, p.imageHeight)
  {
    if n > 0 {
      RowsWithinImage(p, n - 1);
      var row := RowOutput(p, n - 1);
      assert CellsWithin(row, p.imageWidth, p.imageHeight) by {
        if (n - 1) % 2 == 1 {
          var cells := RowCells(p, n - 1, p.target.width);
          RowCellsAt(p, n - 1, p.target.width);
          assert forall k :: 0 <= k < |cells| ==> cells[k].Cell? && cells[k].x < p.imageWidth && cells[k].y < p.imageHeight;
        }
      }
    }
  }

  lemma RowsStep(p: Plan, y: nat)
    requires Drawable(p)
    requires y < p.target.height
    ensures Rows(p, y + 1) == Rows(p, y) + RowOutput(p, y)
  {
  }

  /** The drawing loops as the program runs them: for each y, skip even
      rows, and draw the odd ones with `DrawRow`. */
  method Rasterize(p: Plan) returns (out: seq<Token>)
    requires Drawable(p)
    ensures out == Rows(p, p.target.height)
  {
    out := [];
    var y := 0;
    while y < p.target.height
      invariant y <= p.target.height
      invariant out == Rows(p, y)
    {
      RowsStep(p, y);
      if y % 2 == 0 {
        y := y + 1;
        continue;
      }
      var row := DrawRow(p, y);
      out := out + row;
      y := y + 1;
    }
  }

  /** The inner loop for odd row y: a cell per column, then a line break
      if the plan has them. */
  method DrawRow(p: Plan, y: nat) returns (row: seq<Token>)
    requires Drawable(p)
    requires y < p.target.height && y % 2 == 1
    ensures row == RowOutput(p, y)
  {
    // an odd row below the target height means at least two rows, so
    // a plan that draws here has a non-empty image
    assert p.target.width > 0 ==> p.imageWidth > 0 && p.imageHeight > 0;
    row := [];
    var x := 0;
    while x < p.target.width
      invariant x <= p.target.width
      invariant row == RowCells(p, y, x)
    {
      row := row + [Cell(Sample(x, p.ratio, p.imageWidth), Sample(y, p.ratio, p.imageHeight))];
      x := x + 1;
    }
    if p.newlines {
      row := row + [Newline];
    }
  }

  /** The token at position k of the printed frame, computed directly:
      position k falls in the (k / len)-th drawn row, which is target row
      2 * (k / len) + 1, at column k % len; the column after the last cell
      is the line break. */
  function TokenAt(p: Plan, k: nat): Token
    requires RowLength(p) > 0
    requires p.imageWidth > 0 && p.imageHeight > 0
  {
    var len := RowLength(p);
    var row, col := k / len, k % len;
    if col < p.target.width then
      Cell(Sample(col, p.ratio, p.imageWidth), Sample(2 * row + 1, p.ratio, p.imageHeight))
    else
      Newline
  }

  /** The loops print, at every position, the token `TokenAt` names: drawn
      rows are exactly the odd target rows, in increasing order, each the
      full run of columns 0 .. width-1 followed by its line break if any. */
  lemma {:induction false} RowsClosedForm(p: Plan, n: nat)
    requires p.imageWidth > 0 && p.imageHeight > 0
    requires n <= p.target.height
    ensures forall k :: 0 <= k < |Rows(p, n)| ==> RowLength(p) > 0 && Rows(p, n)[k] == TokenAt(p, k)
  {
    if n > 0 {
      var all, prev, row := Rows(p, n), Rows(p, n - 1), RowOutput(p, n - 1);
      assert all == prev + row;
      RowsClosedForm(p, n - 1);
      assert |prev| == ((n - 1) / 2) * RowLength(p) by {
        RowsLength(p, n - 1);
      }
      forall k | 0 <= k < |all|
        ensures RowLength(p) > 0 && all[k] == TokenAt(p, k)
      {
        if k < |prev| {
          assert all[k] == prev[k];
        } else {
          // only an odd row adds tokens
          var j := k - |prev|;
          assert all[k] == row[j];
          RowOutputAt(p, n - 1, j, |prev|);
        }
      }
    } else {
      assert Rows(p, n) == [];
    }
  }

  /** Token j of drawn row y, which starts at position `start` = (y / 2)
      rows into the frame, is the one `TokenAt` names for start + j. */
  lemma RowOutputAt(p: Plan, y: nat, j: nat, start: nat)
    requires p.imageWidth > 0 && p.imageHeight > 0
    requires y < p.target.height
    requires j < |RowOutput(p, y)|
    requires start == (y / 2) * RowLength(p)
    ensures RowLength(p) > 0 && RowOutput(p, y)[j] == TokenAt(p, start + j)
  {
    var len := RowLength(p);
    var q := y / 2;
    DivModOfRow(q, len, j);
    assert 2 * q + 1 == y;
    if j < p.target.width {
      RowCellsAt(p, y, p.target.width);
      assert RowOutput(p, y)[j] == RowCells(p, y, p.target.width)[j];
    }
  }

  /** Position q*len + j of a sequence of len-long rows is row q, column j. */
  lemma DivModOfRow(q: nat, len: nat, j: nat)
    requires j < len
    ensures (q * len + j) / len == q
    ensures (q * len + j) % len == j
  {
    var k := q * len + j;
    var d, m := k / len, k % len;
    assert d * len + m == q * len + j;
    if d < q {
      MulMonotone(d + 1, q, len);
    } else if d > q {
      MulMonotone(q + 1, d, len);
    }
  }

  /** How many line breaks `s` holds. */
  function Newlines(s: seq<Token>): (r: nat)
    ensures r <= |s|
  {
    if s == [] then 0
    else Newlines(s[..|s| - 1]) + (if s[|s| - 1] == Newline then 1 else 0)
  }

  /** How many cells `s` holds: every token that is not a line break. */
  function Cells(s: seq<Token>): nat {
    |s| - Newlines(s)
  }

  /** Counting line breaks distributes over concatenation. */
  lemma {:induction false} NewlinesConcat(a: seq<Token>, b: seq<Token>)
    ensures Newlines(a + b) == Newlines(a) + Newlines(b)
  {
    if b == [] {
      assert a + b == a;
    } else {
      NewlinesConcat(a, b[..|b| - 1]);
      assert (a + b)[..|a + b| - 1] == a + b[..|b| - 1];
    }
  }

  lemma {:induction false} RowCellsHaveNoNewline(p: Plan, y: nat, n: nat)
    requires n > 0 ==> p.imageWidth > 0 && p.imageHeight > 0
    ensures Newlines(RowCells(p, y, n)) == 0
  {
    if n > 0 {
      var c := Cell(Sample(n - 1, p.ratio, p.imageWidth), Sample(y, p.ratio, p.imageHeight));
      var prev := RowCells(p, y, n - 1);
      assert Newlines(prev) == 0 by {
        RowCellsHaveNoNewline(p, y, n - 1);
      }
      assert Newlines(RowCells(p, y, n)) == Newlines(prev) by {
        assert RowCells(p, y, n) == prev + [c];
        NewlinesAppendCell(prev, c);
      }
    }
  }

  /** Appending a cell adds no line break. */
  lemma NewlinesAppendCell(s: seq<Token>, c: Token)
    requires c.Cell?
    ensures Newlines(s + [c]) == Newlines(s)
  {
    assert (s + [c])[..|s|] == s;
  }

  /** A drawn row holds one line break if the plan has them; a skipped row
      holds nothing. */
  lemma RowOutputNewlines(p: Plan, y: nat)
    requires Drawable(p)
    requires y < p.target.height
    ensures Newlines(RowOutput(p, y)) == (if y % 2 == 1 && p.newlines then 1 else 0)
  {
    if y % 2 == 1 {
      var cells := RowCells(p, y, p.target.width);
      RowCellsHaveNoNewline(p, y, p.target.width);
      var tail: seq<Token> := if p.newlines then [Newline] else [];
      assert RowOutput(p, y) == cells + tail;
      NewlinesConcat(cells, tail);
      assert tail == [] || tail[..0] == [];
    }
  }

  /** One line break per drawn row when the plan has them, none otherwise. */
  lemma {:induction false} RowsNewlines(p: Plan, n: nat)
    requires Drawable(p)
    requires n <= p.target.height
    ensures Newlines(Rows(p, n)) == (if p.newlines then n / 2 else 0)
  {
    if n > 0 {
      var prev, row := Rows(p, n - 1), RowOutput(p, n - 1);
      assert Newlines(prev) == (if p.newlines then (n - 1) / 2 else 0) by {
        RowsNewlines(p, n - 1);
      }
      assert Newlines(row) == (if (n - 1) % 2 == 1 && p.newlines then 1 else 0) by {
        RowOutputNewlines(p, n - 1);
      }
      NewlinesStep(prev, row, Rows(p, n), n, p.newlines);
    }
  }

  /** The counting step of `RowsNewlines`, over plain sequences. */
  lemma NewlinesStep(prev: seq<Token>, row: seq<Token>, all: seq<Token>, n: nat, newlines: bool)
    requires n > 0
    requires all == prev + row
    requires Newlines(prev) == (if newlines then (n - 1) / 2 else 0)
    requires Newlines(row) == (if (n - 1) % 2 == 1 && newlines then 1 else 0)
    ensures Newlines(all) == (if newlines then n / 2 else 0)
  {
    NewlinesConcat(prev, row);
    if newlines {
      RowCountAdd(n, 1, Newlines(prev), Newlines(row));
    }
  }

  /** The loops draw (n / 2) rows of `width` cells each. */
  lemma RowsCells(p: Plan, n: nat)
    requires Drawable(p)
    requires n <= p.target.height
    ensures Cells(Rows(p, n)) == (n / 2) * p.target.width
  {
    var h, w := n / 2, p.target.width;
    assert |Rows(p, n)| == h * RowLength(p) by {
      RowsLength(p, n);
    }
    assert Newlines(Rows(p, n)) == (if p.newlines then h else 0) by {
      RowsNewlines(p, n);
    }
    if p.newlines {
      MulSucc(h, w);
    }
  }

  lemma MulSucc(h: nat, w: nat)
    ensures h * (w + 1) == h * w + h
  {
  }

  /** With a positive ratio num/den, no cell of the first n rows lies past
      (width - 1) * ratio in x or (n - 1) * ratio in y: the loops only ever
      look at the part of the image those products reach. */
  lemma RowsReach(p: Plan, n: nat)
    requires p.imageWidth > 0 && p.imageHeight > 0 && p.ratio.den > 0
    requires n <= p.target.height
    ensures forall t :: t in Rows(p, n) && t.Cell? ==>
              && t.x * p.ratio.den <= (p.target.width - 1) * p.ratio.num
              && t.y * p.ratio.den <= (n - 1) * p.ratio.num
  {
    var r := Rows(p, n);
    RowsClosedForm(p, n);
    RowsLength(p, n);
    forall t | t in r && t.Cell?
      ensures && t.x * p.ratio.den <= (p.target.width - 1) * p.ratio.num
              && t.y * p.ratio.den <= (n - 1) * p.ratio.num
    {
      var k :| 0 <= k < |r| && r[k] == t;
      TokenAtReach(p, k, n);
    }
  }

  lemma TokenAtReach(p: Plan, k: nat, n: nat)
    requires p.imageWidth > 0 && p.imageHeight > 0 && p.ratio.den > 0
    requires RowLength(p) > 0
    requires k < (n / 2) * RowLength(p)
    requires TokenAt(p, k).Cell?
    ensures TokenAt(p, k).x * p.ratio.den <= (p.target.width - 1) * p.ratio.num
    ensures TokenAt(p, k).y * p.ratio.den <= (n - 1) * p.ratio.num
  {
    var len := RowLength(p);
    var row, col := k / len, k % len;
    assert 2 * row + 1 < n by {
      QuotientBelow(k, len, n / 2);
    }
    CellReach(p, row, col, n);
  }

  /** The cell at column col < width of drawn row `row` (target row
      2 * row + 1 < n) lies within (width - 1) * ratio and (n - 1) * ratio. */
  lemma CellReach(p: Plan, row: nat, col: nat, n: nat)
    requires p.imageWidth > 0 && p.imageHeight > 0 && p.ratio.den > 0
    requires col < p.target.width && 2 * row + 1 < n
    ensures Sample(col, p.ratio, p.imageWidth) * p.ratio.den <= (p.target.width - 1) * p.ratio.num
    ensures Sample(2 * row + 1, p.ratio, p.imageHeight) * p.ratio.den <= (n - 1) * p.ratio.num
  {
    SampleBelow(col, p.target.width - 1, p.ratio, p.imageWidth);
    SampleBelow(2 * row + 1, n - 1, p.ratio, p.imageHeight);
  }

  /** A sample taken at index i <= bound lies at or below bound * ratio. */
  lemma SampleBelow(i: nat, bound: nat, ratio: Ratio, dim: nat)
    requires dim > 0 && ratio.den > 0
    requires i <= bound
    ensures Sample(i, ratio, dim) * ratio.den <= bound * ratio.num
  {
    SampleFloor(i, ratio, dim);
    MulMonotone(i, bound, ratio.num);
  }

  /** k < q * len puts position k in one of the first q rows. */
  lemma QuotientBelow(k: nat, len: nat, q: nat)
    requires len > 0
    requires k < q * len
    ensures k / len < q
  {
    if k / len >= q {
      MulMonotone(q, k / len, len);
      FloorDivBounds(k, len);
    }
  }

  /** Sampling an axis of `dim` pixels over n cells at ratio dim/n: the
      last cell's index needs no clamping and lies less than one ratio
      step (dim / n) from the far edge, i.e. (s + 1) * n > (n - 1) * dim. */
  lemma SampleReachesFarEdge(n: nat, dim: nat)
    requires n > 0 && 0 < dim <= U32_MAX
    ensures var s := Sample(n - 1, Ratio(dim, n), dim);
            (s + 1) * n + dim > dim * n
  {
    var s := Sample(n - 1, Ratio(dim, n), dim);
    SampleFloor(n - 1, Ratio(dim, n), dim);
    assert (n - 1) * dim + dim == dim * n;
    MulMonotone(n - 1, n, dim);
    assert (n - 1) * dim < (s + 1) * n;
  }

  /** Sampling an axis of `dim` pixels over n cells at ratio dim/n, the
      sample of index y, one of the last two, lies less than two ratio
      steps (dim / n) from the far edge: (s + 1) * n + 2 * dim > dim * n. */
  lemma SampleNearFarEdge(y: nat, n: nat, dim: nat)
    requires 0 < dim <= U32_MAX
    requires y < n <= y + 2
    ensures var s := Sample(y, Ratio(dim, n), dim);
            (s + 1) * n + 2 * dim > dim * n
  {
    var s := Sample(y, Ratio(dim, n), dim);
    MulMonotone(y + 1, n, dim);
    SampleFloor(y, Ratio(dim, n), dim);
    MulMonotone(n, y + 2, dim);
  }

  /** The frame ends in a line break, and the cell before it samples a
      row less than four ratio steps (iw / w) from the bottom edge of an
      image ih rows high. */
  predicate WideEndNearBottom(frame: seq<Token>, w: nat, iw: nat, ih: nat) {
    && |frame| > 1
    && frame[|frame| - 1] == Newline
    && frame[|frame| - 2].Cell?
    && (frame[|frame| - 2].y + 1) * w + 4 * iw > ih * w
  }

  /** The frame ends in a cell that samples a row less than two ratio
      steps (ih / h) from the bottom edge of an image ih rows high. */
  predicate TallEndNearBottom(frame: seq<Token>, h: nat, ih: nat) {
    && |frame| > 0
    && frame[|frame| - 1].Cell?
    && (frame[|frame| - 1].y + 1) * h + 2 * ih > ih * h
  }

  /** A frame without line breaks sampled at ratio ih / height: its last
      cell, in the last drawn row, samples a row less than two ratio steps
      from the image's bottom edge. */
  lemma TallFrameReachesBottom(p: Plan)
    requires p.imageWidth > 0 && p.imageHeight > 0 && p.imageHeight <= U32_MAX
    requires !p.newlines && p.target.width > 0 && p.target.height >= 2
    requires p.ratio == Ratio(p.imageHeight, p.target.height)
    ensures TallEndNearBottom(Rows(p, p.target.height), p.target.height, p.imageHeight)
  {
    var h := p.target.height;
    LastRowEnd(p);
    SampleNearFarEdge(2 * (h / 2) - 1, h, p.imageHeight);
  }

  /** A landscape frame sampled at ratio iw / width, for a target whose
      aspect is within rounding of the image's: the last cell, just
      before the final line break, samples a row less than four ratio
      steps from the image's bottom edge. */
  lemma WideFrameReachesBottom(p: Plan)
    requires p.imageWidth > 0 && p.imageHeight > 0 && p.imageHeight <= U32_MAX
    requires p.newlines && p.target.width > 0 && p.target.height >= 2
    requires p.ratio == Ratio(p.imageWidth, p.target.width)
    requires p.target.width * p.imageHeight < p.imageWidth * p.target.height + 2 * p.imageWidth
    ensures WideEndNearBottom(Rows(p, p.target.height), p.target.width, p.imageWidth, p.imageHeight)
  {
    var frame, w, h := Rows(p, p.target.height), p.target.width, p.target.height;
    var y := 2 * (h / 2) - 1;
    var s := Sample(y, p.ratio, p.imageHeight);
    assert |frame| > 1 && frame[|frame| - 1] == Newline && frame[|frame| - 2] == Cell(Sample(w - 1, p.ratio, p.imageWidth), s) by {
      LastRowEnd(p);
    }
    assert s == p.imageHeight - 1 || y * p.imageWidth < (s + 1) * w by {
      SampleLowerBound(y, p.ratio, p.imageHeight);
    }
    WideBottomArith(s, y, h, w, p.imageWidth, p.imageHeight);
  }

  /** The arithmetic of `WideFrameReachesBottom`: a sample s
      of row y >= h - 2 at ratio iw/w, unless clamped to ih - 1, has
      y * iw < (s + 1) * w; with the aspect bound w * ih < iw * h + 2 * iw
      this leaves s less than four steps short of ih. */
  lemma WideBottomArith(s: nat, y: nat, h: nat, w: nat, iw: nat, ih: nat)
    requires iw > 0 && ih > 0 && y + 2 >= h
    requires s == ih - 1 || y * iw < (s + 1) * w
    requires w * ih < iw * h + 2 * iw
    ensures (s + 1) * w + 4 * iw > ih * w
  {
    if s != ih - 1 {
      MulMonotone(h, y + 2, iw);
    }
  }

  /** Past the image's edge the clamp repeats the last pixel: a cell whose
      column index times the ratio reaches the image width samples column
      width - 1, and a cell whose target row times the ratio reaches the
      image height samples row height - 1. Position k is a cell exactly
      when its column k % len is below the target width. */
  lemma RowsClamped(p: Plan)
    requires 0 < p.imageWidth <= U32_MAX && 0 < p.imageHeight <= U32_MAX && p.ratio.den > 0
    ensures var frame, len := Rows(p, p.target.height), RowLength(p);
            forall k :: 0 <= k < |frame| ==>
              && len > 0
              && (frame[k].Cell? <==> k % len < p.target.width)
              && (frame[k].Cell? && (k % len) * p.ratio.num >= p.imageWidth * p.ratio.den ==>
                    frame[k].x == p.imageWidth - 1)
              && (frame[k].Cell? && (2 * (k / len) + 1) * p.ratio.num >= p.imageHeight * p.ratio.den ==>
                    frame[k].y == p.imageHeight - 1)
  {
    var frame, len := Rows(p, p.target.height), RowLength(p);
    forall k | 0 <= k < |frame|
      ensures && len > 0
              && (frame[k].Cell? <==> k % len < p.target.width)
              && (frame[k].Cell? && (k % len) * p.ratio.num >= p.imageWidth * p.ratio.den ==>
                    frame[k].x == p.imageWidth - 1)
              && (frame[k].Cell? && (2 * (k / len) + 1) * p.ratio.num >= p.imageHeight * p.ratio.den ==>
                    frame[k].y == p.imageHeight - 1)
    {
      assert len > 0 && frame[k] == TokenAt(p, k) by {
        RowsClosedForm(p, p.target.height);
      }
      TokenAtClamped(p, k);
    }
  }

  /** `RowsClamped` for one position of the closed form. */
  lemma TokenAtClamped(p: Plan, k: nat)
    requires 0 < p.imageWidth <= U32_MAX && 0 < p.imageHeight <= U32_MAX && p.ratio.den > 0
    requires RowLength(p) > 0
    ensures var t, len := TokenAt(p, k), RowLength(p);
            && (t.Cell? <==> k % len < p.target.width)
            && (t.Cell? && (k % len) * p.ratio.num >= p.imageWidth * p.ratio.den ==> t.x == p.imageWidth - 1)
            && (t.Cell? && (2 * (k / len) + 1) * p.ratio.num >= p.imageHeight * p.ratio.den ==>
                  t.y == p.imageHeight - 1)
  {
    var len := RowLength(p);
    var col, y := k % len, 2 * (k / len) + 1;
    if col * p.ratio.num >= p.imageWidth * p.ratio.den {
      SampleClamped(col, p.ratio, p.imageWidth);
    }
    if y * p.ratio.num >= p.imageHeight * p.ratio.den {
      SampleClamped(y, p.ratio, p.imageHeight);
    }
  }

  /** The cell just before the first line break: the last column of
      target row 1. */
  lemma FirstRowEnd(p: Plan)
    requires p.imageWidth > 0 && p.imageHeight > 0
    requires p.newlines && p.target.width > 0 && p.target.height >= 2
    ensures |Rows(p, p.target.height)| >= p.target.width
    ensures Rows(p, p.target.height)[p.target.width - 1] ==
              Cell(Sample(p.target.width - 1, p.ratio, p.imageWidth), Sample(1, p.ratio, p.imageHeight))
  {
    var w := p.target.width;
    RowsLength(p, p.target.height);
    MulMonotone(1, p.target.height / 2, w + 1);
    RowsClosedForm(p, p.target.height);
    DivModOfRow(0, w + 1, w - 1);
  }

  /** The last cell of the frame: the last column of the last drawn
      target row, 2 * (height / 2) - 1, which is followed only by that
      row's line break, if any. */
  lemma LastRowEnd(p: Plan)
    requires p.imageWidth > 0 && p.imageHeight > 0
    requires p.target.width > 0 && p.target.height >= 2
    ensures var frame, k := Rows(p, p.target.height), |Rows(p, p.target.height)| - RowLength(p) + p.target.width - 1;
            && |frame| >= RowLength(p)
            && frame[k] == Cell(Sample(p.target.width - 1, p.ratio, p.imageWidth),
                                Sample(2 * (p.target.height / 2) - 1, p.ratio, p.imageHeight))
            && (p.newlines ==> frame[|frame| - 1] == Newline)
  {
    var w, q := p.target.width, p.target.height / 2;
    var y := 2 * q - 1;
    var frame, prev, row := Rows(p, p.target.height), Rows(p, y), RowOutput(p, y);
    assert frame == prev + row by {
      LastDrawnRow(p);
    }
    var cells := RowCells(p, y, w);
    assert row == cells + (if p.newlines then [Newline] else []);
    assert cells[w - 1] == Cell(Sample(w - 1, p.ratio, p.imageWidth), Sample(y, p.ratio, p.imageHeight)) by {
      RowCellsAt(p, y, w);
    }
    assert frame[|prev| + w - 1] == cells[w - 1];
  }

  /** The frame ends with the output of its last drawn target row,
      2 * (height / 2) - 1: an odd height adds only a skipped even row. */
  lemma LastDrawnRow(p: Plan)
    requires Drawable(p)
    requires p.target.height >= 2
    ensures var h := p.target.height; var y := 2 * (h / 2) - 1;
            Rows(p, h) == Rows(p, y) + RowOutput(p, y)
  {
    var h := p.target.height;
    if h % 2 == 0 {
      RowsStep(p, h - 1);
    } else {
      RowsStep(p, h - 2);
      assert RowOutput(p, h - 1) == [];
      assert Rows(p, h) == Rows(p, h - 1) + [];
    }
  }
}
