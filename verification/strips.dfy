/** The strip composer of image.js:22-69. A raster is modelled abstractly as
    its size and the glyphs drawn on it; the step-indexed temporary files
    temp/result-i.png become a map from step index to image. */
module Strips {
  import opened Results
  import opened Symbols
  import opened Padding
  import opened Glyphs
  import opened Geometry

  /** A glyph drawn with its top-left corner at (x, y). */
  datatype Placed = Placed(x: int, y: int, glyph: Glyph)

  /** A raster: its size and the glyphs drawn on its background. */
  datatype Image = Image(width: int, height: int, glyphs: seq<Placed>)

  /** The temporary files temp/result-i.png, keyed by i. */
  type Store = map<int, Image>

  /** What a composite layer reads: a glyph asset or the strip file of a step. */
  datatype Input = GlyphInput(glyph: Glyph) | FileInput(step: int)

  datatype Layer = Layer(input: Input, gravity: Gravity)

  /** A canvas of the given size with the listed layers composited onto it. */
  datatype Composition = Composition(width: int, height: int, layers: seq<Layer>)

  /** Height of every strip: a digit cell plus the margin above it. */
  const StripHeight: int := CellHeight + Margin

  function StripWidth(i: nat): int {
    CellWidth * (i + 1)
  }

  /** The rectangle a placed glyph covers. */
  function CellRect(p: Placed): Rect {
    Rect(p.x, p.y, CellWidth, CellHeight)
  }

  function Shift(glyphs: seq<Placed>, p: Point): (r: seq<Placed>)
    ensures |r| == |glyphs|
    ensures forall j :: 0 <= j < |r| ==>
      r[j] == Placed(glyphs[j].x + p.x, glyphs[j].y + p.y, glyphs[j].glyph)
  {
    seq(|glyphs|, j requires 0 <= j < |glyphs| =>
      Placed(glyphs[j].x + p.x, glyphs[j].y + p.y, glyphs[j].glyph))
  }

  /** The composition step `i` asks for when drawing `symbol` (image.js:27-42):
      the glyph at southeast and, from the second step on, the previous strip
      at southwest, on a transparent canvas one cell wider per step. */
  function ComposeRequest(symbol: char, i: nat): (r: Result<Composition>)
    ensures r.Ok? <==> IsSymbol(symbol)
    ensures r.Err? ==> r.error == AssetMissing(symbol)
    ensures r.Ok? ==> r.value.width == CellWidth * (i + 1) && r.value.height == StripHeight
    ensures r.Ok? ==> 1 <= |r.value.layers| <= 2
    ensures r.Ok? ==> r.value.layers[0] == Layer(GlyphInput(GlyphOf(symbol).value), Southeast)
    ensures r.Ok? ==> (|r.value.layers| == 2 <==> i > 0)
    ensures r.Ok? && i > 0 ==> r.value.layers[1] == Layer(FileInput(i - 1), Southwest)
    ensures r.Ok? ==> forall j :: 0 <= j < |r.value.layers| && r.value.layers[j].input.FileInput? ==>
      r.value.layers[j] == Layer(FileInput(i - 1), Southwest)
  {
    var glyph :- GlyphOf(symbol);
    var digit := [Layer(GlyphInput(glyph), Southeast)];
    var layers := if i > 0 then digit + [Layer(FileInput(i - 1), Southwest)] else digit;
    Ok(Composition(StripWidth(i), StripHeight, layers))
  }

  predicate MissingFile(layer: Layer, store: Store) {
    layer.input.FileInput? && layer.input.step !in store
  }

  /** The rectangle a layer covers in a cw x ch canvas, or the missing file. */
  function LayerRect(layer: Layer, cw: int, ch: int, store: Store): (r: Result<Rect>)
    ensures r.Err? <==> MissingFile(layer, store)
    ensures r.Err? ==> r.error == StripMissing(layer.input.step)
    ensures r.Ok? && layer.input.GlyphInput? ==> r.value.w == CellWidth && r.value.h == CellHeight
    ensures r.Ok? && layer.input.FileInput? ==>
      r.value.w == store[layer.input.step].width && r.value.h == store[layer.input.step].height
  {
    match layer.input
    case GlyphInput(_) =>
      var p := Offset(layer.gravity, cw, ch, CellWidth, CellHeight);
      Ok(Rect(p.x, p.y, CellWidth, CellHeight))
    case FileInput(k) =>
      if k !in store then Err(StripMissing(k))
      else
        var p := Offset(layer.gravity, cw, ch, store[k].width, store[k].height);
        Ok(Rect(p.x, p.y, store[k].width, store[k].height))
  }

  /** The layer's input exists but is wider or taller than the canvas. */
  predicate TooLarge(layer: Layer, cw: int, ch: int, store: Store) {
    !MissingFile(layer, store) && !Inside(LayerRect(layer, cw, ch, store).value, cw, ch)
  }

  /** The glyphs one layer contributes, in canvas coordinates. A layer that
      does not fit its canvas is rejected, as sharp rejects a composite
      input larger than the image it is laid on. */
  function Place(layer: Layer, cw: int, ch: int, store: Store): (r: Result<seq<Placed>>)
    ensures r.Err? <==> MissingFile(layer, store) || TooLarge(layer, cw, ch, store)
    ensures MissingFile(layer, store) ==> r == Err(StripMissing(layer.input.step))
    ensures TooLarge(layer, cw, ch, store) ==>
      r == Err(LayerTooLarge(LayerRect(layer, cw, ch, store).value.w, LayerRect(layer, cw, ch, store).value.h))
  {
    var rect :- LayerRect(layer, cw, ch, store);
    if !Inside(rect, cw, ch) then Err(LayerTooLarge(rect.w, rect.h))
    else
      match layer.input
      case GlyphInput(g) => Ok([Placed(rect.x, rect.y, g)])
      case FileInput(k) => Ok(Shift(store[k].glyphs, Point(rect.x, rect.y)))
  }

  function Flatten(layers: seq<Layer>, cw: int, ch: int, store: Store): (r: Result<seq<Placed>>)
    ensures r.Ok? <==> forall j :: 0 <= j < |layers| ==> Place(layers[j], cw, ch, store).Ok?
    ensures r.Err? ==> exists j :: 0 <= j < |layers| && Place(layers[j], cw, ch, store).Err? &&
                                   r.error == Place(layers[j], cw, ch, store).error
  {
    if layers == [] then Ok([])
    else
      var head :- Place(layers[0], cw, ch, store);
      var tail :- Flatten(layers[1..], cw, ch, store);
      Ok(head + tail)
  }

  /** The image a composition produces; reading a missing file or laying on
      a layer larger than the canvas rejects. */
  function Render(c: Composition, store: Store): (r: Result<Image>)
    ensures r.Ok? ==> r.value.width == c.width && r.value.height == c.height
  {
    var glyphs :- Flatten(c.layers, c.width, c.height, store);
    Ok(Image(c.width, c.height, glyphs))
  }

  /** A strip no wider than step i's canvas and no taller than a strip. */
  predicate FitsStep(img: Image, i: nat) {
    img.width <= StripWidth(i) && img.height <= StripHeight
  }

  /** Step i can read a previous strip that fits its canvas (step 0 reads none). */
  predicate PreviousReady(store: Store, i: nat) {
    i == 0 || (i - 1 in store && FitsStep(store[i - 1], i))
  }

  /** One call of `compose(symbol, i)`: render step i's composition and write
      it to temp/result-i.png, unless the write is one that fails. */
  function Step(store: Store, symbol: char, i: nat, faults: set<Target>): (r: Result<Store>)
    ensures !IsSymbol(symbol) ==> r == Err(AssetMissing(symbol))
    ensures IsSymbol(symbol) && i > 0 && i - 1 !in store ==> r == Err(StripMissing(i - 1))
    ensures IsSymbol(symbol) && i > 0 && i - 1 in store && !FitsStep(store[i - 1], i) ==>
      r == Err(LayerTooLarge(store[i - 1].width, store[i - 1].height))
    ensures IsSymbol(symbol) && PreviousReady(store, i) ==>
      (r.Ok? <==> StripFile(i) !in faults)
    ensures r.Err? && IsSymbol(symbol) && PreviousReady(store, i) ==>
      r.error == WriteFailed(StripFile(i))
    ensures r.Ok? ==> r.value.Keys == store.Keys + {i}
    ensures r.Ok? ==> forall k :: k in store && k != i ==> r.value[k] == store[k]
    ensures r.Ok? ==> r.value[i].width == CellWidth * (i + 1) && r.value[i].height == StripHeight
  {
    var c :- ComposeRequest(symbol, i);
    assert Place(c.layers[0], c.width, c.height, store).Ok?;
    assert i == 0 ==> c.layers == [c.layers[0]];
    assert i > 0 ==> c.layers == [c.layers[0], c.layers[1]];
    var strip :- Render(c, store);
    if StripFile(i) in faults then Err(WriteFailed(StripFile(i))) else Ok(store[i := strip])
  }

  /** `processArray(items)` over its first n items (image.js:57-69): steps
      0..n-1 in order, each awaiting the previous one, stopping at the first
      rejection. */
  function Run(items: seq<char>, n: nat, store: Store, faults: set<Target>): (r: Result<Store>)
    requires n <= |items|
    ensures r.Ok? ==> forall k :: 0 <= k < n ==> k in r.value
    ensures r.Ok? ==> forall k :: k in store && !(0 <= k < n) ==> k in r.value && r.value[k] == store[k]
    decreases n
  {
    if n == 0 then Ok(store)
    else
      var done :- Run(items, n - 1, store, faults);
      Step(done, items[n - 1], n - 1, faults)
  }

  /** `processArray(items)`: all steps, one per item. */
  function ProcessArray(items: seq<char>, store: Store, faults: set<Target>): (r: Result<Store>)
    ensures r.Ok? <==> forall k :: 0 <= k < |items| ==> !StepFails(items, k, faults)
    ensures r.Ok? ==> forall k :: 0 <= k < |items| ==>
      SymbolsUpTo(items, k) && k in r.value && r.value[k] == ExpectedStrip(items, k)
    ensures r.Err? ==> (FirstFailure(items, |items|, faults) < |items| &&
      r.error == StepError(items, FirstFailure(items, |items|, faults), faults))
  {
    var r := Run(items, |items|, store, faults);
    assert r.Ok? ==> forall k :: 0 <= k < |items| ==>
      SymbolsUpTo(items, k) && k in r.value && r.value[k] == ExpectedStrip(items, k) by {
      RunStopsAtFirstFailure(items, |items|, store, faults);
      if r.Ok? {
        RunBuildsStrips(items, |items|, store, faults);
      }
    }
    assert (r.Ok? <==> forall k :: 0 <= k < |items| ==> !StepFails(items, k, faults)) &&
      (r.Err? ==> (FirstFailure(items, |items|, faults) < |items| &&
         r.error == StepError(items, FirstFailure(items, |items|, faults), faults))) by {
      RunStopsAtFirstFailure(items, |items|, store, faults);
    }
    r
  }

  /** Step k cannot complete: its symbol has no glyph or its write fails. */
  predicate StepFails(items: seq<char>, k: nat, faults: set<Target>)
    requires k < |items|
  {
    !IsSymbol(items[k]) || StripFile(k) in faults
  }

  function StepError(items: seq<char>, k: nat, faults: set<Target>): Error
    requires k < |items|
  {
    if !IsSymbol(items[k]) then AssetMissing(items[k]) else WriteFailed(StripFile(k))
  }

  predicate SymbolsUpTo(items: seq<char>, i: nat) {
    i < |items| && forall k :: 0 <= k <= i ==> IsSymbol(items[k])
  }

  /** The strip after step i, stated independently of the step chain: i + 1
      cells side by side along the bottom edge, cell k showing items[k]. The
      glyph of the newest step comes first, as each step lists its digit
      before the previous strip. */
  function ExpectedStrip(items: seq<char>, i: nat): Image
    requires SymbolsUpTo(items, i)
  {
    Image(StripWidth(i), StripHeight,
      seq(i + 1, j requires 0 <= j <= i =>
        Placed(CellWidth * (i - j), Margin, GlyphOf(items[i - j]).value)))
  }

  /** Each step adds the next cell: given the expected strip of step i - 1 in
      its file, step i writes the expected strip of step i and nothing else. */
  lemma StepExtendsStrip(items: seq<char>, i: nat, store: Store, faults: set<Target>)
    requires SymbolsUpTo(items, i)
    requires StripFile(i) !in faults
    requires i > 0 ==> i - 1 in store && store[i - 1] == ExpectedStrip(items, i - 1)
    ensures Step(store, items[i], i, faults) == Ok(store[i := ExpectedStrip(items, i)])
  {
    var c := ComposeRequest(items[i], i).value;
    var g := GlyphOf(items[i]).value;
    var expected := ExpectedStrip(items, i);
    var head := [Placed(CellWidth * i, Margin, g)];
    assert Place(c.layers[0], c.width, c.height, store) == Ok(head);
    if i == 0 {
      assert c.layers == [c.layers[0]];
      assert Flatten(c.layers[1..], c.width, c.height, store) == Ok([]);
      assert head + [] == head;
      assert Flatten(c.layers, c.width, c.height, store) == Ok(head);
      assert expected.glyphs == head;
    } else {
      var prev := store[i - 1];
      var tail := Shift(prev.glyphs, Point(0, 0));
      assert tail == prev.glyphs;
      assert Place(c.layers[1], c.width, c.height, store) == Ok(tail);
      assert c.layers == [c.layers[0], c.layers[1]];
      assert c.layers[1..][1..] == [];
      assert Flatten(c.layers[1..][1..], c.width, c.height, store) == Ok([]);
      assert tail + [] == tail;
      assert Flatten(c.layers[1..], c.width, c.height, store) == Ok(tail);
      assert Flatten(c.layers, c.width, c.height, store) == Ok(head + tail);
      assert expected.glyphs == head + tail;
    }
    assert Flatten(c.layers, c.width, c.height, store) == Ok(expected.glyphs);
    assert c.width == expected.width && c.height == expected.height;
    assert Render(c, store) == Ok(expected);
  }

  /** The five-step fold: when no step fails, after steps 0..n-1 the file of
      every step k < n holds the expected strip of step k, whatever stale
      files the store held before. */
  lemma {:induction false} RunBuildsStrips(items: seq<char>, n: nat, store: Store, faults: set<Target>)
    requires n <= |items|
    requires forall k :: 0 <= k < n ==> !StepFails(items, k, faults)
    ensures Run(items, n, store, faults).Ok?
    ensures forall k :: 0 <= k < n ==>
      SymbolsUpTo(items, k) && k in Run(items, n, store, faults).value &&
      Run(items, n, store, faults).value[k] == ExpectedStrip(items, k)
    decreases n
  {
    if n > 0 {
      RunBuildsStrips(items, n - 1, store, faults);
      var done := Run(items, n - 1, store, faults).value;
      forall k | 0 <= k <= n - 1
        ensures IsSymbol(items[k])
      {
        assert !StepFails(items, k, faults);
      }
      assert !StepFails(items, n - 1, faults);
      StepExtendsStrip(items, n - 1, done, faults);
    }
  }

  /** The index of the first failing step among steps 0..n-1, or n when
      none of them fails. */
  function FirstFailure(items: seq<char>, n: nat, faults: set<Target>): (f: nat)
    requires n <= |items|
    ensures f <= n
    ensures f < n ==> StepFails(items, f, faults)
    ensures forall j :: 0 <= j < f ==> !StepFails(items, j, faults)
    decreases n
  {
    if n == 0 then 0
    else
      var f := FirstFailure(items, n - 1, faults);
      if f < n - 1 then f else if StepFails(items, n - 1, faults) then n - 1 else n
  }

  /** Fail fast: the chain rejects exactly when some step fails, and then with
      the error of the first failing step; no later step runs. */
  lemma {:induction false} RunStopsAtFirstFailure(items: seq<char>, n: nat, store: Store, faults: set<Target>)
    requires n <= |items|
    ensures Run(items, n, store, faults).Err? <==> FirstFailure(items, n, faults) < n
    ensures Run(items, n, store, faults).Err? ==>
      Run(items, n, store, faults).error == StepError(items, FirstFailure(items, n, faults), faults)
    decreases n
  {
    if n > 0 {
      RunStopsAtFirstFailure(items, n - 1, store, faults);
      var prior := Run(items, n - 1, store, faults);
      if prior.Ok? {
        assert FirstFailure(items, n - 1, faults) == n - 1;
        RunBuildsStrips(items, n - 1, store, faults);
        assert PreviousReady(prior.value, n - 1) by {
          if n - 1 > 0 {
            assert prior.value[n - 2] == ExpectedStrip(items, n - 2);
          }
        }
      }
    }
  }

  /** The same, stated with quantifiers over the steps. */
  lemma RunFailsFast(items: seq<char>, n: nat, store: Store, faults: set<Target>)
    requires n <= |items|
    ensures Run(items, n, store, faults).Err? <==>
      exists k :: 0 <= k < n && StepFails(items, k, faults)
    ensures Run(items, n, store, faults).Err? ==>
      exists k :: 0 <= k < n && StepFails(items, k, faults) &&
        (forall j :: 0 <= j < k ==> !StepFails(items, j, faults)) &&
        Run(items, n, store, faults).error == StepError(items, k, faults)
  {
    RunStopsAtFirstFailure(items, n, store, faults);
  }

  /** The two layers of a step fit the canvas and do not overlap: the
      previous strip covers columns [0, 160 i) at full height and the new
      glyph covers columns [160 i, 160 (i + 1)) along the bottom edge. */
  lemma StepLayersTile(symbol: char, i: nat, store: Store)
    requires IsSymbol(symbol)
    requires i > 0 ==> i - 1 in store && store[i - 1].width == StripWidth(i - 1) &&
                       store[i - 1].height == StripHeight
    ensures var c := ComposeRequest(symbol, i).value;
      && LayerRect(c.layers[0], c.width, c.height, store) == Ok(Rect(CellWidth * i, Margin, CellWidth, CellHeight))
      && Inside(LayerRect(c.layers[0], c.width, c.height, store).value, c.width, c.height)
      && (i > 0 ==>
          && LayerRect(c.layers[1], c.width, c.height, store) == Ok(Rect(0, 0, CellWidth * i, StripHeight))
          && Inside(LayerRect(c.layers[1], c.width, c.height, store).value, c.width, c.height)
          && Disjoint(LayerRect(c.layers[0], c.width, c.height, store).value,
                      LayerRect(c.layers[1], c.width, c.height, store).value))
  {
  }

  /** Where the cells of a strip lie: every glyph of the expected strip of
      step i sits in some cell k <= i, at column 160 k on the bottom edge,
      inside the canvas, and shows items[k]; every cell k <= i is drawn; and
      no two glyphs overlap. */
  lemma ExpectedStripCells(items: seq<char>, i: nat)
    requires SymbolsUpTo(items, i)
    ensures var s := ExpectedStrip(items, i);
      && |s.glyphs| == i + 1
      && (forall j :: 0 <= j < |s.glyphs| ==>
            && s.glyphs[j].y == Margin
            && s.glyphs[j].x % CellWidth == 0
            && 0 <= s.glyphs[j].x / CellWidth <= i
            && s.glyphs[j].glyph == GlyphOf(items[s.glyphs[j].x / CellWidth]).value
            && Inside(CellRect(s.glyphs[j]), s.width, s.height))
      && (forall k :: 0 <= k <= i ==> s.glyphs[i - k] == Placed(CellWidth * k, Margin, GlyphOf(items[k]).value))
      && (forall j1, j2 :: 0 <= j1 < j2 < |s.glyphs| ==> Disjoint(CellRect(s.glyphs[j1]), CellRect(s.glyphs[j2])))
  {
  }

  /** Two stores that agree on file k. */
  predicate AgreeOn(s1: Store, s2: Store, k: int) {
    (k in s1 <==> k in s2) && (k in s1 ==> s1[k] == s2[k])
  }

  /** A composition depends only on the files its layers read. */
  lemma {:induction false} FlattenReadsOnlyInputs(layers: seq<Layer>, cw: int, ch: int, s1: Store, s2: Store)
    requires forall j :: 0 <= j < |layers| && layers[j].input.FileInput? ==>
      AgreeOn(s1, s2, layers[j].input.step)
    ensures Flatten(layers, cw, ch, s1) == Flatten(layers, cw, ch, s2)
    decreases |layers|
  {
    if layers != [] {
      assert Place(layers[0], cw, ch, s1) == Place(layers[0], cw, ch, s2);
      FlattenReadsOnlyInputs(layers[1..], cw, ch, s1, s2);
    }
  }

  /** Step i reads only temp/result-(i-1): stores that agree on that file
      give the same outcome and the same new strip. */
  lemma StepReadsOnlyPrevious(s1: Store, s2: Store, symbol: char, i: nat, faults: set<Target>)
    requires i > 0 ==> AgreeOn(s1, s2, i - 1)
    ensures Step(s1, symbol, i, faults).Ok? <==> Step(s2, symbol, i, faults).Ok?
    ensures Step(s1, symbol, i, faults).Err? ==>
      Step(s1, symbol, i, faults).error == Step(s2, symbol, i, faults).error
    ensures Step(s1, symbol, i, faults).Ok? ==>
      Step(s1, symbol, i, faults).value[i] == Step(s2, symbol, i, faults).value[i]
  {
    var c := ComposeRequest(symbol, i);
    if c.Ok? {
      FlattenReadsOnlyInputs(c.value.layers, c.value.width, c.value.height, s1, s2);
    }
  }
}
