/** The image previewer's `main` (src/main.rs) with its I/O taken out:
    classify the orientations, size the target with `size`, pick the
    sampling ratio and the line-break behaviour from the tag, run the
    drawing loops, and paint each cell with the colour of the pixel it
    samples. The image decoder and the terminal-size query become the
    `View` and `Image` parameters. */
module Preview {
  import opened Cast
  import opened Fit
  import opened Orientation
  import opened Raster
  import opened Wrappers

  /** The plan for tag `m`: a portrait image (BBh, SB) is sampled at
      image_height / term_height and printed without line breaks; a
      landscape image (BS, BBw) is sampled at image_width / term_width and
      gets a line break after every drawn row. */
  function PlanFor(v: View, m: MatchDimension): (p: Plan)
    ensures p.imageWidth == v.imageWidth && p.imageHeight == v.imageHeight
    ensures p.target == Size(v)
    ensures p.newlines <==> !PortraitImage(m)
    ensures PortraitImage(m) ==> p.ratio == Ratio(v.imageHeight, v.termHeight)
    ensures !PortraitImage(m) ==> p.ratio == Ratio(v.imageWidth, v.termWidth)
  {
    match m
    case BBh | SB => Plan(v.imageWidth, v.imageHeight, Ratio(v.imageHeight, v.termHeight), Size(v), false)
    case BS | BBw => Plan(v.imageWidth, v.imageHeight, Ratio(v.imageWidth, v.termWidth), Size(v), true)
  }

  /** Every plan `main` builds for a view within the program's integer
      ranges keeps the clamp away from a zero image dimension. */
  lemma PlanDrawable(v: View, m: MatchDimension)
    requires ValidView(v)
    ensures Drawable(PlanFor(v, m))
  {
    if v.imageWidth == 0 || v.imageHeight == 0 {
      EmptyImageGivesEmptySize(v);
    }
  }

  /** The tokens `main` prints for view `v`, or the panic for a square
      image or terminal. Every cell names a pixel of the image; the frame
      holds (height / 2) rows of `width` cells for the size `size` chose;
      a line break follows each row exactly when the image is landscape. */
  function Preview(v: View): (r: Result<seq<Token>, Panic>)
    requires ValidView(v)
    ensures r.Failure? <==> v.imageHeight == v.imageWidth || v.termHeight == v.termWidth
    ensures r.Success? ==> CellsWithin(r.value, v.imageWidth, v.imageHeight)
    ensures r.Success? ==> Cells(r.value) == (Size(v).height / 2) * Size(v).width
    ensures r.Success? ==>
              Newlines(r.value) == (if v.imageWidth > v.imageHeight then Size(v).height / 2 else 0)
  {
    match Classify(v)
    case Failure(e) => Failure(e)
    case Success(m) =>
      var p := PlanFor(v, m);
      PlanDrawable(v, m);
      RowsWithinImage(p, p.target.height);
      RowsCells(p, p.target.height);
      RowsNewlines(p, p.target.height);
      Success(Rows(p, p.target.height))
  }

  /** `main` with its drawing loops: classify, build the plan, and run
      the loops of `Rasterize`. It prints exactly the frame `Preview`
      describes. */
  method Run(v: View) returns (r: Result<seq<Token>, Panic>)
    requires ValidView(v)
    ensures r == Preview(v)
  {
    var tag := Classify(v);
    if tag.Failure? {
      return Failure(tag.error);
    }
    var p := PlanFor(v, tag.value);
    PlanDrawable(v, tag.value);
    var frame := Rasterize(p);
    return Success(frame);
  }

  /** A non-square view's frame is the loops' output for its plan. */
  lemma PreviewIsRows(v: View)
    requires ValidView(v)
    requires Classify(v).Success?
    ensures var p := PlanFor(v, Classify(v).value);
            && Drawable(p)
            && Preview(v) == Success(Rows(p, p.target.height))
  {
    PlanDrawable(v, Classify(v).value);
  }

  /** A colour channel value. */
  newtype byte = x: int | 0 <= x < 256

  datatype Rgb = Rgb(r: byte, g: byte, b: byte)

  /** A decoded image: `pixels[y][x]` is the pixel at column x, row y. */
  datatype Image = Image(width: nat, height: nat, pixels: seq<seq<Rgb>>)

  predicate WellFormed(img: Image) {
    && |img.pixels| == img.height
    && forall y :: 0 <= y < img.height ==> |img.pixels[y]| == img.width
  }

  /** The character every cell is printed with. */
  const BLOCK: char := '█'

  /** What reaches the terminal: a character in a foreground colour, or a line break. */
  datatype Glyph = Coloured(colour: Rgb, ch: char) | LineBreak

  /** The `Paint::rgb(pixel[0], pixel[1], pixel[2], vip_char)` of each
      cell: the block character in the colour of the sampled pixel. */
  function Paint(img: Image, tokens: seq<Token>): (r: seq<Glyph>)
    requires WellFormed(img)
    requires CellsWithin(tokens, img.width, img.height)
    ensures |r| == |tokens|
    ensures forall k :: 0 <= k < |r| ==> (r[k] == LineBreak <==> tokens[k] == Newline)
    ensures forall k :: 0 <= k < |r| && tokens[k].Cell? ==>
              r[k] == Coloured(img.pixels[tokens[k].y][tokens[k].x], BLOCK)
  {
    seq(|tokens|, k requires 0 <= k < |tokens| =>
      match tokens[k]
      case Newline => LineBreak
      case Cell(x, y) =>
        assert tokens[k] in tokens;
        Coloured(img.pixels[y][x], BLOCK))
  }

  /** The whole program for an image and a terminal of `termWidth`
      columns and `termHeight` rows: the glyphs printed, or the panic. */
  function Show(img: Image, termWidth: nat, termHeight: nat): (r: Result<seq<Glyph>, Panic>)
    requires WellFormed(img)
    requires ValidView(View(termWidth, termHeight, img.width, img.height))
    ensures var v := View(termWidth, termHeight, img.width, img.height);
            && (r.Failure? <==> Preview(v).Failure?)
            && (r.Success? ==> |r.value| == |Preview(v).value|)
  {
    var v := View(termWidth, termHeight, img.width, img.height);
    match Preview(v)
    case Failure(e) => Failure(e)
    case Success(tokens) => Success(Paint(img, tokens))
  }

  /** As written, the ratio divides by the terminal size rather than by
      the target size. For the repository's own test view (a 1000x800
      image in a 200x50 terminal; target 124x100, ratio 1000/200) no cell
      samples a column past 615 or a row past 495, so the right 38% and
      the bottom 38% of the image are never shown: every cell's column is
      more than one ratio step (1000/124) short of the right edge. */
  lemma WideImageIsCropped()
    ensures Preview(View(200, 50, 1000, 800)).Success?
    ensures forall t :: t in Preview(View(200, 50, 1000, 800)).value && t.Cell? ==>
              && t.x <= 615 && t.y <= 495
              && (t.x + 1) * 124 + 1000 <= 1000 * 124
  {
    var v := View(200, 50, 1000, 800);
    SizeWideTerminalWideImage();
    assert Classify(v) == Success(BBw);
    var p := PlanFor(v, BBw);
    assert p.ratio == Ratio(1000, 200) && p.target == PrintSize(124, 100);
    RowsReach(p, 100);
  }

  /** The portrait branch has the same flaw: its ratio divides by the
      terminal height, but `size` may have doubled the target. For an
      800x1000 image in a 200x50 terminal (target 80x100, ratio 1000/50)
      every cell from column 40 of a drawn row on samples the clamped
      column 799, and every drawn row from the 26th (target row 51) on
      samples the clamped row 999. */
  lemma TallImageIsClamped()
    ensures Preview(View(200, 50, 800, 1000)).Success?
    ensures var frame := Preview(View(200, 50, 800, 1000)).value;
            && |frame| == 50 * 80
            && (forall k :: 0 <= k < |frame| && k % 80 >= 40 ==> frame[k].Cell? && frame[k].x == 799)
            && (forall k :: 0 <= k < |frame| && k / 80 >= 25 ==> frame[k].Cell? && frame[k].y == 999)
  {
    var v := View(200, 50, 800, 1000);
    assert Classify(v) == Success(SB);
    assert PlanFor(v, SB) == TallPlan() by {
      SizeOtherOrientations();
    }
    PreviewIsRows(v);
    TallPlanClamped();
  }

  /** The plan `main` builds for an 800x1000 image in a 200x50 terminal. */
  function TallPlan(): Plan {
    Plan(800, 1000, Ratio(1000, 50), PrintSize(80, 100), false)
  }

  /** `TallImageIsClamped` for the plan alone. */
  lemma TallPlanClamped()
    ensures var frame := Rows(TallPlan(), 100);
            && |frame| == 50 * 80
            && (forall k :: 0 <= k < |frame| && k % 80 >= 40 ==> frame[k].Cell? && frame[k].x == 799)
            && (forall k :: 0 <= k < |frame| && k / 80 >= 25 ==> frame[k].Cell? && frame[k].y == 999)
  {
    var p := TallPlan();
    var frame := Rows(p, 100);
    RowsLength(p, 100);
    RowsClamped(p);
    forall k | 0 <= k < |frame| && k % 80 >= 40
      ensures frame[k].Cell? && frame[k].x == 799
    {
      assert (k % 80) * 1000 >= 800 * 50;
    }
    forall k | 0 <= k < |frame| && k / 80 >= 25
      ensures frame[k].Cell? && frame[k].y == 999
    {
      assert (2 * (k / 80) + 1) * 1000 >= 1000 * 50;
    }
  }

  /** The sampling the drawing loops evidently intend: the same axis
      choice, but the ratio divides the image dimension by the TARGET
      dimension, so the cells spread over the whole image. */
  function CorrectedPlanFor(v: View, m: MatchDimension): (p: Plan)
    ensures p.imageWidth == v.imageWidth && p.imageHeight == v.imageHeight
    ensures p.target == Size(v)
    ensures p.newlines <==> !PortraitImage(m)
    ensures PortraitImage(m) ==> p.ratio == Ratio(v.imageHeight, Size(v).height)
    ensures !PortraitImage(m) ==> p.ratio == Ratio(v.imageWidth, Size(v).width)
  {
    var ps := Size(v);
    match m
    case BBh | SB => Plan(v.imageWidth, v.imageHeight, Ratio(v.imageHeight, ps.height), ps, false)
    case BS | BBw => Plan(v.imageWidth, v.imageHeight, Ratio(v.imageWidth, ps.width), ps, true)
  }

  /** `Preview` with the corrected ratio: the same panic, the same size,
      the same cells-per-row and line breaks, every cell inside the image. */
  function CorrectedPreview(v: View): (r: Result<seq<Token>, Panic>)
    requires ValidView(v)
    ensures r.Failure? <==> Preview(v).Failure?
    ensures r.Success? ==> CellsWithin(r.value, v.imageWidth, v.imageHeight)
    ensures r.Success? ==> Cells(r.value) == (Size(v).height / 2) * Size(v).width
    ensures r.Success? ==>
              Newlines(r.value) == (if v.imageWidth > v.imageHeight then Size(v).height / 2 else 0)
  {
    match Classify(v)
    case Failure(e) => Failure(e)
    case Success(m) =>
      var p := CorrectedPlanFor(v, m);
      PlanDrawable(v, m);
      assert Drawable(p);
      RowsWithinImage(p, p.target.height);
      RowsCells(p, p.target.height);
      RowsNewlines(p, p.target.height);
      Success(Rows(p, p.target.height))
  }

  /** A non-square view's corrected frame is the loops' output for the
      corrected plan. */
  lemma CorrectedFrameIsRows(v: View)
    requires ValidView(v)
    requires Classify(v).Success?
    ensures var p := CorrectedPlanFor(v, Classify(v).value);
            && Drawable(p)
            && CorrectedPreview(v) == Success(Rows(p, p.target.height))
  {
    PlanDrawable(v, Classify(v).value);
  }

  /** With the corrected ratio, the last cell of the first drawn row of a
      landscape image samples a column less than one ratio step
      (image_width / width) from the image's right edge — the property
      the code as written misses (`WideImageIsCropped`). */
  lemma CorrectedPreviewReachesRightEdge(v: View)
    requires ValidView(v)
    requires v.imageWidth > v.imageHeight && v.termHeight != v.termWidth
    requires Size(v).width > 0 && Size(v).height >= 2
    ensures CorrectedPreview(v).Success?
    ensures var frame, w := CorrectedPreview(v).value, Size(v).width;
            && |frame| >= w
            && frame[w - 1].Cell?
            && (frame[w - 1].x + 1) * w + v.imageWidth > v.imageWidth * w
  {
    var m := Classify(v).value;
    var p := CorrectedPlanFor(v, m);
    CorrectedFrameIsRows(v);
    FirstRowEnd(p);
    SampleReachesFarEdge(p.target.width, v.imageWidth);
  }

  /** With the corrected ratio, the last cell of a portrait image's frame
      samples a row less than two ratio steps (image_height / height) from
      the image's bottom edge — the property the code as written misses
      (`TallImageIsClamped`, where half the rows repeat the last one). */
  lemma CorrectedTallPreviewReachesBottomEdge(v: View)
    requires ValidView(v)
    requires v.imageHeight > v.imageWidth && v.termHeight != v.termWidth
    requires Size(v).width > 0 && Size(v).height >= 2
    ensures CorrectedPreview(v).Success?
    ensures TallEndNearBottom(CorrectedPreview(v).value, Size(v).height, v.imageHeight)
  {
    var m := Classify(v).value;
    var p := CorrectedPlanFor(v, m);
    CorrectedFrameIsRows(v);
    assert p.ratio == Ratio(v.imageHeight, p.target.height) && !p.newlines;
    TallFrameReachesBottom(p);
  }

  /** With the corrected ratio, the last cell of a landscape image's frame
      (just before the final line break) samples a row less than four
      ratio steps (image_width / width) from the image's bottom edge: the
      rows now cover the image's height up to the rounding of `size`. */
  lemma CorrectedWidePreviewReachesBottomEdge(v: View)
    requires ValidView(v)
    requires v.imageWidth > v.imageHeight && v.termHeight != v.termWidth
    requires Size(v).width > 0 && Size(v).height >= 2
    ensures CorrectedPreview(v).Success?
    ensures WideEndNearBottom(CorrectedPreview(v).value, Size(v).width, v.imageWidth, v.imageHeight)
  {
    var m := Classify(v).value;
    var p := CorrectedPlanFor(v, m);
    CorrectedFrameIsRows(v);
    assert p.ratio == Ratio(v.imageWidth, p.target.width) && p.newlines;
    assert p.target.width * v.imageHeight < v.imageWidth * p.target.height + 2 * v.imageWidth by {
      SizeKeepsAspect(v);
    }
    WideFrameReachesBottom(p);
  }
}
