# Like-count thumbnail overlay, modelled in Dafny

This project models the image-compositing core of a small YouTube thumbnail
updater, `image.js`. `generate(number)` renders a like count as a row of five
pre-rendered digit glyphs and lays that row onto a base thumbnail:

1. **Padding.** The count's text is prefixed with ten `_` blanks, and only the
   last five characters are kept. The result is always five symbols. Counts
   with more than five digits lose their leading digits.
2. **Glyph selection.** `'_'` selects the blank glyph and `'0'..'9'` select
   `digits[d]`. No other character has a glyph.
3. **Strip building.** Step `i` (0..4) makes a transparent canvas
   160·(i+1) × (200+470). It puts the new glyph at southeast. When `i > 0`, it
   also puts the previous step's strip `temp/result-(i-1).png` at southwest.
   The result is written to `temp/result-i.png`. The five steps run in order,
   and the first rejection stops the chain.
4. **Thumbnail.** The base image receives `temp/result-4.png` at northwest.
   It is encoded as JPEG at quality 72 with 4:4:4 chroma into `thumbnail.jpg`.

Rasters are abstract. An `Image` is a width, a height and the list of glyphs
drawn on it, each at (x, y). Gravity is a function that gives a layer's
top-left corner inside its canvas. The temporary files become a
`map<int, Image>` keyed by step. A write that the encoder fails is a member of
a set of failing `Target`s passed in. Every rejection is an `Err` of
`Results.Result`.

Modules:

- `Results` holds the failure values.
- `Symbols` holds the alphabet of blanks and digits.
- `Padding` holds the symbol row.
- `Glyphs` holds the asset table and cell constants.
- `Geometry` holds gravity and rectangles.
- `Strips` holds `compose` and `processArray`.
- `Thumbnails` holds `generateThumbnail` and `generate`.

Two points where the model departs from the literal code, or where the code's
behaviour is easy to misread:

- Line image.js:61 does not parse. If it is read as `parseInt(items[index])`,
  the `'_'` test at image.js:27 could never succeed. The model uses the call
  the code evidently intends: `compose(items[index], index)`, with the symbol
  passed unchanged and the step index as a natural number.
- The code has no check on its input, so a negative count is not rejected up
  front. What happens depends on its length (`NegativeCount`). With one to
  four digits, the `'-'` survives the padding and reaches `compose`. There
  `digits['-']` is undefined, and that step rejects. With five or more
  digits, `slice(-5)` cuts the sign off with the leading digits. The count
  then renders exactly as its absolute value does: `-12345` shows `12345`.

In the code's composite list the glyph comes first and the previous strip
second, so sharp draws the previous strip last. `StepLayersTile` and
`ExpectedStripCells` prove that the layers never overlap, so this order
cannot change a pixel. The model keeps the list order in `Image.glyphs`.

A composite layer larger than the image it is laid on makes sharp reject. The
model rejects such a layer with `LayerTooLarge`. A strip step never hits this,
because the previous strip always fits (`StepLayersTile`). The thumbnail step
hits it when the base image is smaller than the 800 × 670 strip, so the
success results assume a base of at least that size (`ValidBase`).

## Model

| member | source | states |
|---|---|---|
| Padding.Pad | image.js:94 | The row is always exactly five symbols, even for the empty text. Text of at most five characters is right-justified behind `5 - n` blanks. Longer text keeps only its last five characters. |
| Padding.DecimalString | image.js:94 | The count's text, as the video API delivers it, is a non-empty run of decimal digits. A leading `0` occurs only for the count 0. |
| Padding.ValueOfDecimal | image.js:94 | Reading the decimal text of `n` back as a number gives `n`. |
| Padding.PaddedCountValue | image.js:94 | The padded row of a count, with blanks read as zero, displays the count modulo 10^5. A count below 10^5 is displayed unchanged. |
| Padding.PaddedCountIsSymbols | image.js:94 | Every character of a padded count has a glyph: it is a blank or a digit. |
| Padding.PaddedCountInjective | image.js:94 | Two counts below 10^5 give the same row if and only if they are equal. |
| Padding.PaddingExamples | image.js:94 | 0 gives `____0`, 7 gives `____7`, 42 gives `___42`, 123456 gives `23456`, the empty text gives `_____` and `-5` gives `___-5`. |
| Glyphs.GlyphOf | image.js:20-27 | A glyph exists exactly for `'_'` and `'0'..'9'`, and it is a valid glyph. Any other symbol is rejected as a missing asset naming that symbol. |
| Glyphs.GlyphRoundTrip | image.js:8-20 | Each of the eleven glyphs is what the table returns for the symbol it depicts. |
| Glyphs.SymbolRoundTrip | image.js:20-27 | Each symbol with a glyph is the symbol that glyph depicts, so the table is one-to-one. |
| Glyphs.GlyphTable | image.js:20-27 | `'_'` gives the blank glyph, digit `d` gives `digits[d]`, and `'-'` is rejected. |
| Geometry.Offset | image.js:39-41 | Southeast anchors a layer to the bottom-right corner, southwest to the bottom-left and northwest to the top-left. |
| Geometry.OffsetInside | image.js:39-41 | A layer no larger than its canvas lies inside it, whatever its gravity. |
| Geometry.DisjointMeansNoSharedPixel | image.js:39-45 | Two non-empty layer rectangles are disjoint if and only if no pixel lies in both. |
| Strips.ComposeRequest | image.js:27-42 | Step `i` asks for a 160·(i+1) × 670 canvas. The new glyph is its first layer, at southeast. When `i > 0`, the second layer is the previous strip, file `i-1`, at southwest. There are two layers if and only if `i > 0`, and no other file is read. A symbol without a glyph rejects. |
| Strips.LayerRect | image.js:39-45 | A layer's rectangle is defined unless it reads a strip file that does not exist. |
| Strips.Place | image.js:39-45 | A layer yields its glyphs unless it reads a strip file that does not exist, or its input is larger than the canvas. In those cases it rejects with `StripMissing` or `LayerTooLarge`. |
| Strips.Flatten | image.js:44-45 | Compositing succeeds if and only if every layer can be placed. Otherwise it rejects with the error of a layer that cannot be placed. |
| Strips.Render | image.js:30-37 | The rendered image has exactly the requested canvas size. |
| Strips.Step | image.js:22-55 | Step `i` rejects for a symbol without a glyph, a missing previous strip, or a previous strip larger than its canvas. Otherwise it succeeds if and only if its write succeeds. It writes only file `i`, leaves every other file unchanged, and the strip it writes is 160·(i+1) × 670. |
| Strips.StepExtendsStrip | image.js:22-55 | Given the expected strip of step `i-1` in its file, step `i` writes the expected strip of step `i`. That strip has one more cell, showing `items[i]`. |
| Strips.Run | image.js:57-69 | The first `n` steps, run in order. A completed run holds a file for every step below `n` and leaves every other file as it found it. |
| Strips.ProcessArray | image.js:57-69 | `processArray` succeeds if and only if no step fails. On success, file `k` holds the expected strip of step `k` for every item. On rejection, the error is that of the first failing step. |
| Strips.RunBuildsStrips | image.js:57-69 | When no step fails, every step `k` completed in order leaves the expected strip of step `k` in `temp/result-k.png`, whatever stale files existed before. |
| Strips.FirstFailure | image.js:59-66 | The index it returns is the first failing step below `n`, or `n` when none fails: every earlier step succeeds, and the returned step, when below `n`, fails. |
| Strips.RunStopsAtFirstFailure | image.js:57-69 | The chain rejects if and only if some step below `n` fails. It then rejects with exactly the error of the first failing step. |
| Strips.RunFailsFast | image.js:57-69 | The chain rejects if and only if some step fails. It then rejects with the error of the first failing step. |
| Strips.StepLayersTile | image.js:28-42 | Both layers of step `i` fit the canvas and do not overlap. The previous strip covers columns [0, 160·i) at full height. The new glyph covers [160·i, 160·(i+1)) on the bottom edge. |
| Strips.ExpectedStripCells | image.js:28-42 | Each glyph of strip `i` sits in a cell `k <= i` at (160·k, 470), inside the canvas, and shows `items[k]`. Every such cell is drawn, and no two glyphs overlap. |
| Strips.FlattenReadsOnlyInputs | image.js:44-45 | A composition depends only on the files its layers read. |
| Strips.StepReadsOnlyPrevious | image.js:24-25 | Step `i` reads only `temp/result-(i-1).png`. Stores that agree on that file give the same outcome and the same new strip. |
| Thumbnails.GenerateThumbnail | image.js:71-91 | The thumbnail reads file `numbers.length - 1`. It rejects if that file is missing, if the strip is larger than the base image, or if the write fails. Otherwise it has the base image's size and shows the strip's glyphs unshifted at the top-left, encoded at quality 72 with 4:4:4 chroma. |
| Thumbnails.ThumbnailComposition | image.js:73-75 | The thumbnail canvas has the base image's size and carries one layer, at northwest, which reads the last strip file `numbers.length - 1` and nothing else. |
| Thumbnails.Generate | image.js:93-106 | `generate` succeeds if and only if no step of the padded row fails, the base image is at least 800 × 670 and the final write succeeds. It then returns the base image carrying the expected final strip, at quality 72 with 4:4:4 chroma. When a step fails, it rejects with the first failing step's error. |
| Thumbnails.GenerateDrawsRow | image.js:93-106 | Suppose every padded symbol has a glyph, no write fails and the base image is at least 800 × 670. Then the thumbnail is the base image carrying the expected 800 × 670 strip at (0, 0). |
| Thumbnails.GenerateFails | image.js:93-106 | `generate` rejects if and only if a step fails, the base image is smaller than the strip, or the final write fails. A failing step rejects with the first failing step's error, so the thumbnail is never written. Otherwise a small base rejects with `LayerTooLarge`, and a failed final write rejects with that write's error. |
| Thumbnails.GenerateCount | image.js:93-106 | On a base of at least 800 × 670, every non-negative count renders. Cell `k` of the final strip is at (160·k, 470) and shows the `k`-th padded symbol. The row reads as the count modulo 10^5. |
| Thumbnails.NegativeCount | image.js:94-102 | A negative count of one to four digits rejects with a missing asset for `'-'`. With five or more digits the sign is cut off, and the result equals that of the absolute value. |
| Thumbnails.LayoutNumbers | image.js:6-29 | Cells are 160 × 200, 470 pixels below the top, and the final five-cell strip is 800 × 670. |
| Padding.Pow10Width | image.js:94 | The modulus 10^Width of `PaddedCountValue` is 100000. |
| Thumbnails.NegativeCountRejected | image.js:94-102 | The text `-5` makes `generate` reject with a missing asset for `'-'`. |
| Thumbnails.BaseOnlySizesThumbnail | image.js:75-79 | Swapping one base image of at least 800 × 670 for another changes only the thumbnail's size, not the glyphs drawn on it. |
| Thumbnails.StaleFilesIgnored | image.js:24-25 | The result of `generate` does not depend on the temporary files left by earlier runs. |

## Left out

- The HTTP server, OAuth flow, video API calls, stats persistence and title template live in index.js and are not part of this model. They are I/O glue.
- Pixel blending, `.sharpen()` and the PNG/JPEG encoders belong to the sharp library, which is foreign code. Only sizes, layer placement and the encoder settings (72, "4:4:4") are modelled.
- The `info` metadata (byte size, format) that `toFile` resolves with comes from the encoder and is not modelled.
- Asset paths and the filesystem are replaced by the glyph table and the step-indexed store. A glyph file missing from disk is not modelled. Only a symbol outside the table is.
- The glyph assets are taken to be exactly the cell size 160 × 200 (DIGIT_SIZE), which is what the canvas arithmetic assumes. Their pixels are not visible.
- The base image's size is a parameter because it is not visible in the code. Rendering on a base smaller than 800 × 670 is modelled as a rejection.
- sharp's other input checks (formats, corrupt files) are not modelled. Only its rejection of a layer larger than its canvas is.
- Padding.DecimalString: gives the digits of any count, as the video API's decimal string does. It does not reproduce what a JavaScript Number would print through the template literal from 10^21 up (`1e+21`) or above 2^53 (rounded).
- Padding.Pad: text is a sequence of Unicode scalar values here, while `.slice(-5).split('')` counts UTF-16 code units. For text outside the Basic Multilingual Plane the rows differ: `Pad("1😀")` is `___1😀` here, but `__1` followed by two surrogates in JavaScript. Both rows contain a symbol without a glyph, so the same texts reject.
- Concurrent `generate` calls share `temp/`. The model is one sequential run.
