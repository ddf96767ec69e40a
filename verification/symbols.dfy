/** The eleven symbols a thumbnail row is made of (image.js:8-20, image.js:27):
    the blank placeholder and the ten decimal digits. */
module Symbols {

  /** The placeholder symbol drawn for unused leading positions. */
  const Blank: char := '_'

  predicate IsDigitChar(c: char) {
    '0' <= c <= '9'
  }

  /** The symbols that have a glyph: the blank and the ten digits. */
  predicate IsSymbol(c: char) {
    c == Blank || IsDigitChar(c)
  }

  /** The decimal digit character for `d`. */
  function DigitChar(d: nat): (c: char)
    requires d < 10
    ensures IsDigitChar(c)
  {
    ('0' as int + d) as char
  }
}
