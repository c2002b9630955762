# image-peek, modelled in Dafny

image-peek prints a picture in a terminal. Each character cell is drawn as a
block character `█` in the colour of one image pixel. The program works in
four steps, all in `src/main.rs`:

1. It reads the terminal's rows and columns and the image's width and height.
2. It classifies the image and the terminal as portrait or landscape. The
   pair gives one of four `MatchDimension` tags. A square image or a square
   terminal makes the program panic.
3. `size` fits the image into the terminal's character grid. It builds two
   candidates: A matches the terminal height and B matches the terminal
   width. It takes the "bigger" one, falls back to the smaller one when the
   bigger one overflows, and doubles the result when twice its width still
   fits.
4. Two nested loops walk the target grid. They skip even rows. For each cell
   they sample a source pixel by nearest neighbour at one ratio, clamp the
   index to the image, and print the pixel. In the landscape branch a line
   break follows every drawn row.

The model has these modules:

- `Cast` (cast.dfy) holds the integer view of the program's float
  expressions.
  - `((a as f32 / b as f32) * c as f32) as u32` becomes exact floor
    division `a*c/b` on `nat`, saturated at `u32::MAX`.
  - A zero divisor gives 0 (NaN) or `u32::MAX` (+inf), as Rust's
    float-to-int cast does.
  - The clamp `if n < dim { n } else { dim - 1 }` is `Clamp`.
- `Fit` (fit.dfy) models `size` and its two candidates.
- `Orientation` (orientation.dfy) models the `MatchDimension` classification
  and the panic.
- `Raster` (raster.dfy) models the drawing loops.
  - The output is a sequence of tokens: `Cell(x, y)` for the block printed
    for pixel (x, y), and `Newline`.
  - It includes the loops themselves (`Rasterize`), a recursive definition
    (`Rows`) and a closed form (`TokenAt`).
- `Preview` (preview.dfy) is `main` without its I/O.
  - The terminal size and the decoded image are parameters.
  - Each cell is painted with its pixel's colour.
- `Wrappers` (wrappers.dfy) holds the `Result` type used for the panic.

Three facts about the code shape the model:

- The code has no black-and-white mode. Every cell is printed in its
  pixel's colour.
- The sampling ratio depends on the tag. It is `image_height / term_height`
  for the portrait-image tags BBh and SB, and `image_width / term_width` for
  the landscape-image tags BS and BBw.
- The target height from `size` can reach twice the terminal rows, because
  of the doubling step. The repository's own test expects a height of 100
  for a 50-row terminal. Only every second target row is drawn, so the
  `height / 2` drawn rows fit the terminal.

## Model

| member | source | states |
|---|---|---|
| Cast.Saturate | src/main.rs:139 | the cast of a non-negative whole number to u32 is the number itself up to u32::MAX, and exactly u32::MAX above it |
| Cast.TruncScale | src/main.rs:137-139 | the scaled value is a u32; with a zero divisor it is 0 exactly when the numerator or the factor is 0 (NaN), and u32::MAX otherwise (+inf) |
| Cast.TruncScaleFloor | src/main.rs:137-139 | with a positive divisor the scaled value times the divisor is at most a*c, and unless it saturated, a*c is below the next multiple: it is the floor of a*c/b |
| Cast.Clamp | src/main.rs:89-98 | the clamped index is inside 0 .. dim-1, never above the raw index, equal to the raw index whenever that is already inside, and exactly dim-1 when the raw index is at or past dim |
| Fit.CandidateA | src/main.rs:137-141 | candidate A has the terminal height, and its width is floor(iw*th/ih) whenever that fits in u32 |
| Fit.CandidateB | src/main.rs:144-149 | candidate B has the terminal width, and its height is floor(ih*tw/iw) whenever that fits in u32 |
| Fit.Order | src/main.rs:153-158 | the pair is the two candidates in some order; A comes first exactly when it is strictly larger in both width and height, so a tie or partial dominance puts B first; the second never strictly dominates the first |
| Fit.Fit | src/main.rs:162-167 | the chosen fit is one of the two candidates and always fits the terminal in both directions |
| Fit.FitChoosesWidthMatch | src/main.rs:153-167 | the bigger/smaller selection is the same as taking B when B fits and A otherwise |
| Fit.HeightMatchFitsWhenWidthMatchOverflows | src/main.rs:162-167 | whenever B overflows the terminal, A fits it |
| Fit.Size | src/main.rs:171-183 | the size is the fit or exactly the fit doubled; its width fits the terminal, its height is at most twice the rows, and half its height fits the rows |
| Fit.DoublingDependsOnWidthOnly | src/main.rs:171-179 | doubling happens exactly when twice the fit's width fits the terminal width; the height test never decides |
| Fit.FitKeepsAspect | src/main.rs:137-167 | the fit keeps the image's aspect ratio up to rounding: the cross products w*ih and iw*h differ by less than one image dimension |
| Fit.SizeKeepsAspect | src/main.rs:171-183 | the final size keeps the aspect ratio up to twice that rounding |
| Fit.EmptyImageGivesEmptySize | src/main.rs:137-183 | an image with no columns or no rows gets a size with zero width or zero height |
| Fit.SizeWideTerminalWideImage | src/main.rs:192-208 | the repository's test: a 1000x800 image in a 200x50 terminal gets size 124x100 |
| Fit.SizeOtherOrientations | src/main.rs:134-184 | the other three pairings of a wide or tall image with a wide or tall terminal give 50x40, 80x100 and 50x62 |
| Orientation.Classify | src/main.rs:37-67 | the program panics exactly when the image or the terminal is square; otherwise the tag's image orientation matches ih > iw and its terminal orientation matches th > tw |
| Orientation.ClassifyExactly | src/main.rs:37-67 | each tag is produced for exactly the non-square views with its two orientations |
| Raster.Sample | src/main.rs:86-98 | the sampled index on an axis is always inside the image |
| Raster.SampleFloor | src/main.rs:86-87 | the sampled index times den is at most i*num; when i*num/den lies inside the image, the index is its floor |
| Raster.SampleClamped | src/main.rs:86-98 | when i*num/den is at or past the image's edge, the sampled index is exactly the last one, dim-1 |
| Raster.SampleLowerBound | src/main.rs:86-98 | the sampled index is either the clamped dim-1 or less than one ratio step below i*num/den |
| Raster.RowCells | src/main.rs:85-102 | a drawn row holds one cell per target column |
| Raster.RowCellsAt | src/main.rs:112-126 | cell k of row y samples column k and row y |
| Raster.RowOutput | src/main.rs:108-129 | an even row prints nothing; an odd row prints width cells plus one line break when the plan has line breaks |
| Raster.Rasterize | src/main.rs:76-131 | the loops print exactly the row-by-row definition of the frame |
| Raster.DrawRow | src/main.rs:112-128 | the inner loop prints exactly the output of one odd row |
| Raster.RowsWithinImage | src/main.rs:86-98 | every printed cell names a pixel inside the image |
| Raster.RowsLength | src/main.rs:108-129 | the frame for n target rows has (n / 2) drawn rows of width cells plus the line break |
| Raster.RowsClosedForm | src/main.rs:108-129 | token k of the frame is the one the closed form names: column k mod len of target row 2*(k div len)+1, or the line break after the last column |
| Raster.RowsCells | src/main.rs:80-103 | the frame holds (n / 2) * width cells |
| Raster.RowsNewlines | src/main.rs:105-130 | the frame holds one line break per drawn row when the plan has them, and none otherwise |
| Raster.RowsReach | src/main.rs:106-114 | with ratio num/den, no cell lies past (width-1)*ratio in x or (n-1)*ratio in y |
| Raster.SampleReachesFarEdge | src/main.rs:113 | sampling dim pixels over n cells at ratio dim/n puts the last cell less than one step from the far edge |
| Raster.FirstRowEnd | src/main.rs:108-128 | the cell just before the first line break samples the last column of target row 1 |
| Raster.LastDrawnRow | src/main.rs:80-83 | the frame is the frame up to the last odd target row, 2*(height/2)-1, followed by that row's output; an odd height adds only a skipped even row |
| Raster.LastRowEnd | src/main.rs:108-129 | the last cell of the frame samples the last column of the last drawn target row, and a landscape frame ends with a line break |
| Raster.SampleNearFarEdge | src/main.rs:86-87 | sampling dim pixels over n cells at ratio dim/n, either of the last two cells samples an index less than two steps from the far edge |
| Raster.RowsClamped | src/main.rs:89-98 | a frame position is a cell exactly when its column is inside the target width; a cell whose column or target row times the ratio reaches the image edge samples the last column or last row |
| Raster.TallFrameReachesBottom | src/main.rs:80-102 | a frame without line breaks sampled at ratio image_height/height ends in a cell less than two ratio steps from the bottom edge |
| Raster.WideFrameReachesBottom | src/main.rs:108-129 | a landscape frame sampled at ratio image_width/width, for a target within rounding of the image's aspect, ends with a line break after a cell less than four ratio steps from the bottom edge |
| Preview.PlanFor | src/main.rs:76-106 | portrait tags sample at image_height/term_height without line breaks; landscape tags sample at image_width/term_width with them; the target is `size`'s result |
| Preview.PlanDrawable | src/main.rs:89-98 | no plan the program builds reaches the `dim - 1` clamp with a zero image dimension |
| Preview.Preview | src/main.rs:37-131 | panic exactly for a square image or terminal; otherwise every cell is inside the image, there are (height/2)*width cells, and one line break per drawn row exactly for a landscape image |
| Preview.PreviewIsRows | src/main.rs:76-131 | for a non-square view the frame is exactly the drawing loops' output for the plan `main` builds, and that plan never reaches the clamp with an empty image |
| Preview.Run | src/main.rs:37-131 | classifying, planning and running the drawing loops prints exactly the frame `Preview` describes, and panics exactly when it does |
| Preview.Paint | src/main.rs:100-101 | each cell becomes the block character in its pixel's colour, and each line break stays a line break |
| Preview.Show | src/main.rs:27-131 | the program panics exactly when `Preview` does, and otherwise prints one glyph per token |
| Preview.WideImageIsCropped | src/main.rs:105-114 | as written, for the repository's test view no cell samples a column past 615 or a row past 495 of the 1000x800 image |
| Preview.TallImageIsClamped | src/main.rs:77-98 | as written, for an 800x1000 image in a 200x50 terminal every cell from column 40 on samples the clamped column 799, and every drawn row from target row 51 on samples the clamped row 999 |
| Preview.CorrectedPlanFor | src/main.rs:76-106 | the corrected ratio divides the image dimension by the target dimension, with the same axis choice and line-break rule |
| Preview.CorrectedPreview | src/main.rs:76-131 | with the corrected ratio: the same panic, every cell inside the image, the same cell and line-break counts |
| Preview.CorrectedPreviewReachesRightEdge | src/main.rs:105-114 | with the corrected ratio, the last cell of the first drawn row of a landscape image lies less than one ratio step from the right edge |
| Preview.CorrectedFrameIsRows | src/main.rs:76-131 | with the corrected ratio, the frame is exactly the drawing loops' output for the corrected plan |
| Preview.CorrectedTallPreviewReachesBottomEdge | src/main.rs:77-102 | with the corrected ratio, the last cell of a portrait image's frame samples a row less than two ratio steps from the bottom edge |
| Preview.CorrectedWidePreviewReachesBottomEdge | src/main.rs:105-129 | with the corrected ratio, a landscape image's frame ends with a line break after a cell less than four ratio steps from the bottom edge |

## Left out

- Image decoding (`image::open`) and `get_pixel` belong to a foreign library. The image is the `Image` parameter of `Preview.Show`.
- The terminal-size query (`termsize::get`) is OS I/O. The terminal rows and columns are parameters. `Fit.ValidView` bounds them by u16, and bounds the image dimensions by u32.
- Argument handling (`args[1]`) and the `unwrap` failures of file opening and the size query are left out.
- Colour escapes (`yansi::Paint`) and the `print!`/`println!` side effects are left out. The model produces tokens and glyphs instead.
- The diagnostic `println!` calls inside `size` are left out. They do not affect the result.
- The rounding of `f32` is not modelled. An exact quotient stands in for the float one. Only saturation and the zero-divisor values of the cast are kept.
- Fit.Size: does not model u32 overflow of `fit.0.width * 2`, because the width never exceeds the u16 terminal width, so the product cannot overflow.
- The unused `scaler.1`–`scaler.3` tuple fields are left out, because nothing reads them.
- Preview.Show: states only the panic and the glyph count. The colour of each glyph is stated by `Preview.Paint`, which `Show` applies.
- Raster.Sample: its own contract states only that the index lies inside the image. Its exact value is stated by `Raster.SampleFloor` below the edge and by `Raster.SampleClamped` at or past it.
- Raster.RowsReach: gives upper bounds on the sampled indices only. Lower bounds come from `Raster.SampleFloor`, `Raster.SampleLowerBound` and `Raster.RowsClosedForm`.

## Findings

| source | as written | input that shows it | evidently intended | confidence | as-written member | corrected member |
|---|---|---|---|---|---|---|
| src/main.rs:106 | the sampling ratio is `image_width / term_width`, the terminal width, although the loops run over the target size from `size` | a 1000x800 image in a 200x50 terminal: the target is 124x100 and the ratio is 5, so columns stop at 615 and rows at 495, and the right and bottom 38% of the image are never shown | the ratio is `image_width / ps.width`, so the cells spread over the whole image | medium, not executed | Preview.WideImageIsCropped | Preview.CorrectedPreviewReachesRightEdge, Preview.CorrectedWidePreviewReachesBottomEdge |
| src/main.rs:78 | the portrait ratio is `image_height / term_height`, the terminal height, although the loops run over the target size, which `size` may have doubled | an 800x1000 image in a 200x50 terminal: the target is 80x100 and the ratio is 20, so every column from 40 on repeats column 799, and every drawn row from target row 51 on repeats row 999 | the ratio is `image_height / ps.height`, so the cells spread over the whole image | medium, not executed | Preview.TallImageIsClamped | Preview.CorrectedTallPreviewReachesBottomEdge |
