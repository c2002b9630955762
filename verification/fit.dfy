/** The fit-sizing step of the image previewer (`size` in src/main.rs):
    from the image's and the terminal's dimensions, choose how many
    character cells wide and high the preview is drawn. */
module Fit {
  import opened Cast

  /** The four dimensions `size` is given. */
  datatype View = View(termWidth: nat, termHeight: nat, imageWidth: nat, imageHeight: nat)

  /** A target size in character cells. */
  datatype PrintSize = PrintSize(width: nat, height: nat)

  /** The ranges the program's integer types give the dimensions: the
      terminal size arrives as u16 rows and columns, the image size as u32. */
  predicate ValidView(v: View) {
    && v.termWidth <= U16_MAX
    && v.termHeight <= U16_MAX
    && v.imageWidth <= U32_MAX
    && v.imageHeight <= U32_MAX
  }

  /** `p` fits the terminal's character grid. */
  predicate FitsIn(p: PrintSize, v: View) {
    p.width <= v.termWidth && p.height <= v.termHeight
  }

  /** `p` is strictly larger than `q` in both directions. */
  predicate StrictlyDominates(p: PrintSize, q: PrintSize) {
    p.width > q.width && p.height > q.height
  }

  /** Candidate A matches the terminal height: its width is the image's
      aspect ratio times the terminal height, rounded down. */
  function CandidateA(v: View): (a: PrintSize)
    ensures a.height == v.termHeight
    ensures v.imageHeight > 0 ==> a.width * v.imageHeight <= v.imageWidth * v.termHeight
    ensures v.imageHeight > 0 && a.width < U32_MAX ==>
              v.imageWidth * v.termHeight < (a.width + 1) * v.imageHeight
  {
    var a := PrintSize(TruncScale(v.imageWidth, v.imageHeight, v.termHeight), v.termHeight);
    if v.imageHeight > 0 then TruncScaleFloor(v.imageWidth, v.imageHeight, v.termHeight); a else a
  }

  /** Candidate B matches the terminal width: its height is the inverse
      aspect ratio times the terminal width, rounded down. */
  function CandidateB(v: View): (b: PrintSize)
    ensures b.width == v.termWidth
    ensures v.imageWidth > 0 ==> b.height * v.imageWidth <= v.imageHeight * v.termWidth
    ensures v.imageWidth > 0 && b.height < U32_MAX ==>
              v.imageHeight * v.termWidth < (b.height + 1) * v.imageWidth
  {
    var b := PrintSize(v.termWidth, TruncScale(v.imageHeight, v.imageWidth, v.termWidth));
    if v.imageWidth > 0 then TruncScaleFloor(v.imageHeight, v.imageWidth, v.termWidth); b else b
  }

  /** The "get bigger" step: orders the two candidates as (bigger, smaller).
      A counts as bigger only when it strictly dominates B; a tie or a
      partial dominance makes B the bigger one. */
  function Order(a: PrintSize, b: PrintSize): (r: (PrintSize, PrintSize))
    ensures r == (a, b) || r == (b, a)
    ensures r.0 == a && a != b <==> StrictlyDominates(a, b)
    ensures !StrictlyDominates(r.1, r.0)
  {
    if StrictlyDominates(a, b) then (a, b) else (b, a)
  }

  /** The "if it doesnt fit get smaller" step: the bigger candidate unless
      it overflows the terminal, in which case the smaller one. */
  function Fit(v: View): (fit: PrintSize)
    ensures FitsIn(fit, v)
    ensures fit == CandidateA(v) || fit == CandidateB(v)
  {
    var (bigger, smaller) := Order(CandidateA(v), CandidateB(v));
    var fit := if !FitsIn(bigger, v) then smaller else bigger;
    FitChoosesWidthMatch(v);
    if FitsIn(CandidateB(v), v) then fit
    else HeightMatchFitsWhenWidthMatchOverflows(v); fit
  }

  /** The bigger/smaller dance amounts to: take the width-matched
      candidate B when it fits, and the height-matched A otherwise. */
  lemma FitChoosesWidthMatch(v: View)
    ensures var (bigger, smaller) := Order(CandidateA(v), CandidateB(v));
            (if !FitsIn(bigger, v) then smaller else bigger)
            == (if FitsIn(CandidateB(v), v) then CandidateB(v) else CandidateA(v))
  {
    var a, b := CandidateA(v), CandidateB(v);
    if StrictlyDominates(a, b) {
      // A is wider than B, which already spans the terminal width
      assert !FitsIn(a, v);
      // A's height is the terminal height, so B is lower still and fits
      assert FitsIn(b, v);
    }
  }

  /** When B is too tall, the image is relatively taller than the terminal,
      so A (full terminal height) is no wider than the terminal. This is
      the arithmetic behind the promise that the chosen fit always fits. */
  lemma HeightMatchFitsWhenWidthMatchOverflows(v: View)
    requires !FitsIn(CandidateB(v), v)
    ensures FitsIn(CandidateA(v), v)
  {
    var a, b := CandidateA(v), CandidateB(v);
    var iw, ih, tw, th := v.imageWidth, v.imageHeight, v.termWidth, v.termHeight;
    if iw == 0 {
      // B's height came from a division by zero (+inf), so the image has
      // a positive height and A's width is 0 / ih rounded down, i.e. 0
      assert ih > 0;
      assert a.width * ih <= 0;
    } else {
      assert b.height * iw <= ih * tw;
      CrossMultiply(iw, ih, tw, th, b.height, a.width);
    }
  }

  /** If bh/1 exceeds th while bh <= ih*tw/iw, then th < ih*tw/iw, hence
      iw*th/ih < tw, so any aw <= iw*th/ih is at most tw. */
  lemma CrossMultiply(iw: nat, ih: nat, tw: nat, th: nat, bh: nat, aw: nat)
    requires iw > 0
    requires bh * iw <= ih * tw
    requires bh > th
    requires aw * ih <= iw * th
    ensures aw <= tw
  {
    MulMonotone(th + 1, bh, iw);
    assert th * iw + iw <= ih * tw;
    assert iw * th < ih * tw;
    if aw > tw {
      MulMonotone(tw + 1, aw, ih);
      assert false;
    }
  }

  /** The doubled size tried by the last step. */
  function Doubled(p: PrintSize): PrintSize {
    PrintSize(2 * p.width, 2 * p.height)
  }

  /** `size`: the fit, doubled when twice its width still fits the terminal
      width and its (undoubled) height fits the terminal height.
      The width always fits; the height may reach twice the terminal
      height, but half of it — the number of rows the renderer draws —
      always fits. */
  function Size(v: View): (r: PrintSize)
    ensures r == Fit(v) || r == Doubled(Fit(v))
    ensures r.width <= v.termWidth
    ensures r.height <= 2 * v.termHeight
    ensures r.height / 2 <= v.termHeight
  {
    var fit := Fit(v);
    if 2 * fit.width <= v.termWidth && fit.height <= v.termHeight then Doubled(fit) else fit
  }

  /** With the width check passed, the height check of the doubling step
      never fails, because the fit already fits: doubling happens exactly
      when twice the fit's width fits the terminal width. */
  lemma DoublingDependsOnWidthOnly(v: View)
    ensures Size(v) == (if 2 * Fit(v).width <= v.termWidth then Doubled(Fit(v)) else Fit(v))
  {
  }

  /** The chosen fit keeps the image's aspect ratio up to rounding: the
      cross products width*ih and iw*height differ by less than one image
      dimension. */
  lemma FitKeepsAspect(v: View)
    requires ValidView(v)
    requires v.imageWidth > 0 && v.imageHeight > 0
    ensures var fit := Fit(v);
            && fit.width * v.imageHeight < v.imageWidth * fit.height + v.imageWidth
            && v.imageWidth * fit.height < fit.width * v.imageHeight + v.imageHeight
  {
    var fit := Fit(v);
    if fit == CandidateA(v) {
      // the width is the rounded-down one
      assert fit.width < U32_MAX;
      CrossProductsClose(fit.width, fit.height, v.imageWidth, v.imageHeight);
    } else {
      // the height is the rounded-down one
      assert fit.height < U32_MAX;
      CrossProductsClose(fit.height, fit.width, v.imageHeight, v.imageWidth);
    }
  }

  /** From w*ih <= iw*h < (w+1)*ih: the cross products differ by less than
      ih one way and not at all the other way. */
  lemma CrossProductsClose(w: nat, h: nat, iw: nat, ih: nat)
    requires iw > 0 && ih > 0
    requires w * ih <= iw * h < (w + 1) * ih
    ensures w * ih < iw * h + iw
    ensures iw * h < w * ih + ih
  {
    assert (w + 1) * ih == w * ih + ih;
  }

  /** The size `size` returns keeps the aspect ratio up to the rounding of
      the fit, doubled when the fit is doubled. */
  lemma SizeKeepsAspect(v: View)
    requires ValidView(v)
    requires v.imageWidth > 0 && v.imageHeight > 0
    ensures var r := Size(v);
            && r.width * v.imageHeight < v.imageWidth * r.height + 2 * v.imageWidth
            && v.imageWidth * r.height < r.width * v.imageHeight + 2 * v.imageHeight
  {
    FitKeepsAspect(v);
    var fit := Fit(v);
    if Size(v) == Doubled(fit) {
      DoubledCrossProducts(fit.width, fit.height, v.imageWidth, v.imageHeight);
    }
  }

  lemma DoubledCrossProducts(w: nat, h: nat, iw: nat, ih: nat)
    requires w * ih < iw * h + iw
    requires iw * h < w * ih + ih
    ensures (2 * w) * ih < iw * (2 * h) + 2 * iw
    ensures iw * (2 * h) < (2 * w) * ih + 2 * ih
  {
    assert (2 * w) * ih == 2 * (w * ih);
    assert iw * (2 * h) == 2 * (iw * h);
  }

  /** An image with a zero dimension is drawn with no cells at all: the
      size comes out zero wide or zero high. This is what keeps the
      renderer's `dim - 1` clamp from ever running on a zero dimension. */
  lemma EmptyImageGivesEmptySize(v: View)
    requires ValidView(v)
    requires v.imageWidth == 0 || v.imageHeight == 0
    ensures Size(v).width == 0 || Size(v).height == 0
  {
    var a, b := CandidateA(v), CandidateB(v);
    if v.imageWidth == 0 {
      assert a.width == 0;
      if v.imageHeight > 0 && v.termWidth > 0 {
        assert b.height == U32_MAX;
        assert !FitsIn(b, v);
        assert Fit(v) == a;
      } else {
        assert b.height == 0;
      }
    } else {
      assert b.height == 0;
      if v.termHeight > 0 {
        assert a.width == U32_MAX;
        assert !FitsIn(a, v);
      }
      assert Fit(v) == b;
    }
  }

  /** The repository's own test: a 1000x800 image in a 200x50 terminal is
      drawn 124 cells wide and 100 rows high. */
  lemma SizeWideTerminalWideImage()
    ensures Size(View(200, 50, 1000, 800)) == PrintSize(124, 100)
  {
    var v := View(200, 50, 1000, 800);
    assert CandidateA(v) == PrintSize(62, 50);
    assert CandidateB(v) == PrintSize(200, 160);
  }

  /** The other three combinations of a wide or tall image with a wide or
      tall terminal. */
  lemma SizeOtherOrientations()
    ensures Size(View(50, 200, 1000, 800)) == PrintSize(50, 40)
    ensures Size(View(200, 50, 800, 1000)) == PrintSize(80, 100)
    ensures Size(View(50, 200, 800, 1000)) == PrintSize(50, 62)
  {
    assert CandidateA(View(50, 200, 1000, 800)) == PrintSize(250, 200);
    assert CandidateB(View(50, 200, 1000, 800)) == PrintSize(50, 40);
    assert CandidateA(View(200, 50, 800, 1000)) == PrintSize(40, 50);
    assert CandidateB(View(200, 50, 800, 1000)) == PrintSize(200, 250);
    assert CandidateA(View(50, 200, 800, 1000)) == PrintSize(160, 200);
    assert CandidateB(View(50, 200, 800, 1000)) == PrintSize(50, 62);
  }
}
