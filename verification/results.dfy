/** Failure values of the thumbnail pipeline. Every rejection of a promise in
    image.js becomes an `Err` carrying one of these. */
module Results {

  /** A file the pipeline writes: the strip of one step (temp/result-i.png)
      or the final thumbnail (thumbnail.jpg). */
  datatype Target = StripFile(step: int) | ThumbnailFile

  datatype Error =
    | AssetMissing(symbol: char)   // no glyph for this symbol (digits[symbol] is undefined)
    | StripMissing(step: int)      // a strip file that a layer reads does not exist
    | LayerTooLarge(width: int, height: int)  // a layer of this size does not fit its canvas
    | WriteFailed(target: Target)  // the encoder reported an error while writing a file

  /** A failure-compatible result, usable with `:-`. */
  datatype Result<+T> = Ok(value: T) | Err(error: Error) {

    predicate IsFailure() {
      Err?
    }

    function PropagateFailure<U>(): Result<U>
      requires Err?
    {
      Err(error)
    }

    function Extract(): T
      requires Ok?
    {
      value
    }
  }
}
