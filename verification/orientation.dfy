/** The orientation classification at the start of the image previewer's
    `main` (src/main.rs): image and terminal are each portrait or landscape,
    and the pair picks one of four `MatchDimension` tags. A square image or
    a square terminal makes the program panic. */
module Orientation {
  import opened Fit
  import opened Wrappers

  /** The four tags: BBh, both image and terminal portrait; BS, a landscape
      image in a portrait terminal; SB, a portrait image in a landscape
      terminal; BBw, both landscape. */
  datatype MatchDimension = BBh | BS | SB | BBw

  /** The panic `"Something went wrong"`. */
  datatype Panic = SomethingWentWrong

  /** The tag stands for a portrait image (taller than wide). */
  predicate PortraitImage(m: MatchDimension) {
    m == BBh || m == SB
  }

  /** The tag stands for a portrait terminal (more rows than columns). */
  predicate PortraitTerminal(m: MatchDimension) {
    m == BBh || m == BS
  }

  /** The if/else-if chain that builds `scaler`; only its tag is kept,
      since the other three fields of the tuple are never read. */
  function Classify(v: View): (r: Result<MatchDimension, Panic>)
    ensures r.Failure? <==> v.imageHeight == v.imageWidth || v.termHeight == v.termWidth
    ensures r.Success? ==> (PortraitImage(r.value) <==> v.imageHeight > v.imageWidth)
    ensures r.Success? ==> (PortraitTerminal(r.value) <==> v.termHeight > v.termWidth)
  {
    var ih, iw, th, tw := v.imageHeight, v.imageWidth, v.termHeight, v.termWidth;
    if ih > iw && th > tw then Success(BBh)
    else if ih < iw && th > tw then Success(BS)
    else if ih > iw && th < tw then Success(SB)
    else if ih < iw && th < tw then Success(BBw)
    else Failure(SomethingWentWrong)
  }

  /** Each tag is the classification of exactly the views with its two
      orientations: a tag is determined by (image is portrait, terminal
      is portrait), and every non-square view gets one. */
  lemma ClassifyExactly(v: View, m: MatchDimension)
    ensures Classify(v) == Success(m) <==>
              && v.imageHeight != v.imageWidth && v.termHeight != v.termWidth
              && (PortraitImage(m) <==> v.imageHeight > v.imageWidth)
              && (PortraitTerminal(m) <==> v.termHeight > v.termWidth)
  {
  }
}
