/** The digit glyph table of image.js:6-20: one pre-rendered transparent asset
    per symbol, all of the digit cell's size. */
module Glyphs {
  import opened Results
  import opened Symbols

  /** Size of every glyph asset, hence of one digit cell (DIGIT_SIZE). */
  const CellWidth: int := 160
  const CellHeight: int := 200

  /** Transparent space above the digits in every strip (the `+ 470`). */
  const Margin: int := 470

  /** digit-_.png, or digit-d.png for d in 0..9. */
  datatype Glyph = BlankGlyph | DigitGlyph(digit: int)

  predicate ValidGlyph(g: Glyph) {
    g.DigitGlyph? ==> 0 <= g.digit < 10
  }

  /** The asset chosen for a symbol: the blank asset for '_', `digits[c]`
      otherwise. Any other character indexes past the table, and the layer
      built from it is rejected. */
  function GlyphOf(c: char): (r: Result<Glyph>)
    ensures r.Ok? <==> IsSymbol(c)
    ensures r.Ok? ==> ValidGlyph(r.value)
    ensures r.Err? ==> r.error == AssetMissing(c)
  {
    if c == Blank then Ok(BlankGlyph)
    else if IsDigitChar(c) then Ok(DigitGlyph(c as int - '0' as int))
    else Err(AssetMissing(c))
  }

  /** The symbol a glyph depicts. */
  function SymbolOf(g: Glyph): (c: char)
    requires ValidGlyph(g)
  {
    match g
    case BlankGlyph => Blank
    case DigitGlyph(d) => DigitChar(d)
  }

  /** Every glyph is the lookup result of the symbol it depicts. */
  lemma GlyphRoundTrip(g: Glyph)
    requires ValidGlyph(g)
    ensures GlyphOf(SymbolOf(g)) == Ok(g)
  {
  }

  /** Every symbol that has a glyph is the symbol that glyph depicts, so the
      table is one-to-one over the eleven symbols. */
  lemma SymbolRoundTrip(c: char)
    requires IsSymbol(c)
    ensures SymbolOf(GlyphOf(c).value) == c
  {
  }

  /** The blank glyph stands for '_' and digit glyph d for the character of d. */
  lemma GlyphTable(c: char)
    ensures c == Blank ==> GlyphOf(c) == Ok(BlankGlyph)
    ensures forall d: nat :: d < 10 ==> GlyphOf(DigitChar(d)) == Ok(DigitGlyph(d))
    ensures c == '-' ==> GlyphOf(c) == Err(AssetMissing('-'))
  {
  }
}
