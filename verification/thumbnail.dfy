/** The thumbnail step and the orchestration of image.js:71-106: pad the
    count, build the strip in five steps, then lay the final strip onto the
    base image and encode it. */
module Thumbnails {
  import opened Results
  import opened Symbols
  import opened Padding
  import opened Glyphs
  import opened Geometry
  import opened Strips

  /** Size of content/base.jpg, which the code never states. */
  datatype Base = Base(width: int, height: int)

  /** The encoder settings of image.js:81-84. */
  const Quality: int := 72
  const Chroma: string := "4:4:4"

  /** thumbnail.jpg: the base image with the strip drawn on it, and the
      encoder settings it was written with. */
  datatype Thumbnail = Thumbnail(image: Image, quality: int, chroma: string)

  /** The strip image fits on the base image. */
  predicate FitsBase(img: Image, base: Base) {
    img.width <= base.width && img.height <= base.height
  }

  /** A base image large enough for the final five-cell strip. */
  predicate ValidBase(base: Base) {
    StripWidth(Width - 1) <= base.width && StripHeight <= base.height
  }

  /** The composition of image.js:73-79: the base image with the strip file
      of the last symbol laid on at northwest. */
  function ThumbnailComposition(numbers: seq<char>, base: Base): (c: Composition)
    ensures c.width == base.width && c.height == base.height
    ensures |c.layers| == 1 && c.layers[0].gravity == Northwest
    ensures forall j :: 0 <= j < |c.layers| ==> c.layers[j].input == FileInput(|numbers| - 1)
  {
    Composition(base.width, base.height, [Layer(FileInput(|numbers| - 1), Northwest)])
  }

  /** `generateThumbnail(numbers)`. */
  function GenerateThumbnail(numbers: seq<char>, store: Store, base: Base, faults: set<Target>): (r: Result<Thumbnail>)
    ensures |numbers| - 1 !in store ==> r == Err(StripMissing(|numbers| - 1))
    ensures |numbers| - 1 in store && !FitsBase(store[|numbers| - 1], base) ==>
      r == Err(LayerTooLarge(store[|numbers| - 1].width, store[|numbers| - 1].height))
    ensures |numbers| - 1 in store && FitsBase(store[|numbers| - 1], base) ==>
      (r.Ok? <==> ThumbnailFile !in faults)
    ensures r.Err? && |numbers| - 1 in store && FitsBase(store[|numbers| - 1], base) ==>
      r.error == WriteFailed(ThumbnailFile)
    ensures r.Ok? ==> r.value.image == Image(base.width, base.height, store[|numbers| - 1].glyphs)
    ensures r.Ok? ==> r.value.quality == Quality && r.value.chroma == Chroma
  {
    var c := ThumbnailComposition(numbers, base);
    assert c.layers == [c.layers[0]];
    assert |numbers| - 1 in store && FitsBase(store[|numbers| - 1], base) ==>
      Flatten(c.layers, c.width, c.height, store) == Ok(store[|numbers| - 1].glyphs) by {
      if |numbers| - 1 in store && FitsBase(store[|numbers| - 1], base) {
        var glyphs := store[|numbers| - 1].glyphs;
        assert Shift(glyphs, Point(0, 0)) == glyphs;
        assert Place(c.layers[0], c.width, c.height, store) == Ok(glyphs);
        assert glyphs + [] == glyphs;
      }
    }
    var image :- Render(c, store);
    if ThumbnailFile in faults then Err(WriteFailed(ThumbnailFile))
    else Ok(Thumbnail(image, Quality, Chroma))
  }

  /** `generate(number)`: `text` is the count's text as it reaches the
      template literal of image.js:94. */
  function Generate(text: string, base: Base, store: Store, faults: set<Target>): (r: Result<Thumbnail>)
    ensures r.Ok? <==>
      FirstFailure(Pad(text), Width, faults) == Width && ValidBase(base) && ThumbnailFile !in faults
    ensures r.Ok? ==> (SymbolsUpTo(Pad(text), Width - 1) &&
      r.value == Thumbnail(Image(base.width, base.height, FinalStrip(Pad(text)).glyphs), Quality, Chroma))
    ensures FirstFailure(Pad(text), Width, faults) < Width ==>
      r == Err(StepError(Pad(text), FirstFailure(Pad(text), Width, faults), faults))
  {
    var numbers := Pad(text);
    var done :- ProcessArray(numbers, store, faults);
    GenerateThumbnail(numbers, done, base, faults)
  }

  /** The expected final strip, the file temp/result-4.png. */
  function FinalStrip(numbers: seq<char>): Image
    requires SymbolsUpTo(numbers, Width - 1)
  {
    ExpectedStrip(numbers, Width - 1)
  }

  /** The layout's numbers: 160 x 200 cells 470 pixels below the top, and
      a final strip of 800 x 670. */
  lemma LayoutNumbers()
    ensures CellWidth == 160 && CellHeight == 200 && Margin == 470
    ensures StripWidth(Width - 1) == 800 && StripHeight == 670
  {
  }

  /** With no failing write, a text whose padded row has only symbols, and a
      base image that holds the final strip, the thumbnail is the base image
      with the expected strip at its top-left corner, encoded with the fixed
      settings, whatever files the temporary directory held before. */
  lemma GenerateDrawsRow(text: string, base: Base, store: Store, faults: set<Target>)
    requires forall k :: 0 <= k < Width ==> IsSymbol(Pad(text)[k])
    requires forall k :: 0 <= k < Width ==> StripFile(k) !in faults
    requires ThumbnailFile !in faults
    requires ValidBase(base)
    ensures SymbolsUpTo(Pad(text), Width - 1)
    ensures FinalStrip(Pad(text)).width == StripWidth(Width - 1)
    ensures FinalStrip(Pad(text)).height == StripHeight
    ensures Generate(text, base, store, faults) ==
      Ok(Thumbnail(Image(base.width, base.height, FinalStrip(Pad(text)).glyphs), Quality, Chroma))
  {
    var numbers := Pad(text);
    assert forall k :: 0 <= k < Width ==> !StepFails(numbers, k, faults);
    RunBuildsStrips(numbers, Width, store, faults);
  }

  /** `generate` rejects exactly when a step fails, the base image cannot
      hold the final strip, or the final write fails. A failing step rejects
      with the first failing step's error, so the thumbnail is never written. */
  lemma GenerateFails(text: string, base: Base, store: Store, faults: set<Target>)
    ensures var first := FirstFailure(Pad(text), Width, faults);
      && (Generate(text, base, store, faults).Err? <==>
            first < Width || !ValidBase(base) || ThumbnailFile in faults)
      && (first < Width ==> Generate(text, base, store, faults) == Err(StepError(Pad(text), first, faults)))
      && (first == Width && !ValidBase(base) ==>
            Generate(text, base, store, faults) == Err(LayerTooLarge(StripWidth(Width - 1), StripHeight)))
      && (first == Width && ValidBase(base) && ThumbnailFile in faults ==>
            Generate(text, base, store, faults) == Err(WriteFailed(ThumbnailFile)))
  {
    var numbers := Pad(text);
    RunStopsAtFirstFailure(numbers, Width, store, faults);
    if FirstFailure(numbers, Width, faults) == Width {
      RunBuildsStrips(numbers, Width, store, faults);
      assert ProcessArray(numbers, store, faults).value[Width - 1] == ExpectedStrip(numbers, Width - 1);
    }
  }

  /** A non-negative count on a large enough base renders without error: its
      row is five cells, cell k at column 160 k showing the k-th symbol of the
      padded count, and the digits read together give the count modulo 10^5. */
  lemma GenerateCount(n: nat, base: Base, store: Store)
    requires ValidBase(base)
    ensures var numbers := Pad(DecimalString(n));
      && SymbolsUpTo(numbers, Width - 1)
      && Value(numbers) == n % Pow10(Width)
      && Generate(DecimalString(n), base, store, {}) ==
         Ok(Thumbnail(Image(base.width, base.height, FinalStrip(numbers).glyphs), Quality, Chroma))
      && (forall k :: 0 <= k < Width ==>
            FinalStrip(numbers).glyphs[Width - 1 - k] == Placed(CellWidth * k, Margin, GlyphOf(numbers[k]).value))
  {
    var text := DecimalString(n);
    var numbers := Pad(text);
    assert SymbolsUpTo(numbers, Width - 1) by {
      PaddedCountIsSymbols(n);
    }
    assert Value(numbers) == n % Pow10(Width) by {
      PaddedCountValue(n);
    }
    assert Generate(text, base, store, {}) ==
      Ok(Thumbnail(Image(base.width, base.height, FinalStrip(numbers).glyphs), Quality, Chroma)) by {
      PaddedCountIsSymbols(n);
      GenerateDrawsRow(text, base, store, {});
    }
    FinalStripCells(numbers);
  }

  /** Cell k of the final strip is the glyph of numbers[k] at column 160 k. */
  lemma FinalStripCells(numbers: seq<char>)
    requires SymbolsUpTo(numbers, Width - 1)
    ensures forall k :: 0 <= k < Width ==>
      FinalStrip(numbers).glyphs[Width - 1 - k] == Placed(CellWidth * k, Margin, GlyphOf(numbers[k]).value)
  {
  }

  /** A negative count of one to four digits keeps its sign in the padded row;
      the sign has no glyph, so `generate` rejects at the step that draws it.
      With five or more digits the sign is cut off with the leading digits,
      and the count renders exactly as its absolute value does. */
  lemma NegativeCount(n: nat, base: Base, store: Store)
    ensures |DecimalString(n)| < Width ==> Generate("-" + DecimalString(n), base, store, {}) == Err(AssetMissing('-'))
    ensures |DecimalString(n)| >= Width ==>
      && Pad("-" + DecimalString(n)) == Pad(DecimalString(n))
      && Generate("-" + DecimalString(n), base, store, {}) == Generate(DecimalString(n), base, store, {})
  {
    var digits := DecimalString(n);
    var text := "-" + digits;
    var numbers := Pad(text);
    if |digits| < Width {
      var m := Width - |text|;
      assert numbers == Blanks(m) + text;
      assert numbers[m] == '-';
      assert StepFails(numbers, m, {});
      var first := FirstFailure(numbers, Width, {});
      assert first == m;
      GenerateFails(text, base, store, {});
    } else {
      assert text[|text| - Width..] == digits[|digits| - Width..];
    }
  }

  /** The text "-5" is rejected at its sign. */
  lemma NegativeCountRejected(base: Base, store: Store)
    ensures Generate("-5", base, store, {}) == Err(AssetMissing('-'))
  {
  }

  /** The base image decides the thumbnail's size only: two base images that
      hold the strip give the same glyphs in the same places. */
  lemma BaseOnlySizesThumbnail(text: string, b1: Base, b2: Base, store: Store)
    requires forall k :: 0 <= k < Width ==> IsSymbol(Pad(text)[k])
    requires ValidBase(b1) && ValidBase(b2)
    ensures Generate(text, b1, store, {}).Ok? && Generate(text, b2, store, {}).Ok?
    ensures Generate(text, b2, store, {}).value.image.glyphs ==
            Generate(text, b1, store, {}).value.image.glyphs
    ensures Generate(text, b2, store, {}).value.image.width == b2.width
    ensures Generate(text, b2, store, {}).value.image.height == b2.height
  {
    GenerateDrawsRow(text, b1, store, {});
    GenerateDrawsRow(text, b2, store, {});
  }

  /** Stale temporary files do not change the result: `generate` is a
      function of the text, the base image and the failing writes alone. */
  lemma StaleFilesIgnored(text: string, base: Base, s1: Store, s2: Store, faults: set<Target>)
    ensures Generate(text, base, s1, faults) == Generate(text, base, s2, faults)
  {
    var numbers := Pad(text);
    RunStopsAtFirstFailure(numbers, Width, s1, faults);
    RunStopsAtFirstFailure(numbers, Width, s2, faults);
    if FirstFailure(numbers, Width, faults) == Width {
      RunBuildsStrips(numbers, Width, s1, faults);
      RunBuildsStrips(numbers, Width, s2, faults);
    }
  }
}
