/** The ways a glyph request can fail, and the result type that carries them. */
module Outcome {

  datatype Error =
    | InvalidCharacterId  // the first character of the request is not one of the 62 glyphs
    | ShapeMismatch       // the network output cannot be reshaped to the image grid

  datatype Option<T> = None | Some(value: T)

  datatype Result<T> = Ok(value: T) | Err(error: Error)
}
