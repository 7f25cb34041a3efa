/** `ColorMapper`: a one-entry cache in front of a colour transformation,
    keyed by the input colour and the alpha it was computed for. */
module ColorMappers {
  import opened Terminal

  class ColorMapper {
    /** The key of the cached result: input colour and alpha. */
    var original: (Color, real)
    /** The cached result. */
    var transformed: Color

    /** The cache agrees with the transformation f: the cached colour is
        what f makes of the cached input. */
    ghost predicate Coherent(f: Color -> Color)
      reads this
    {
      transformed == f(original.0)
    }

    /** `ColorMapper::default()`: the key is (default colour, 0.0) and the
        cached colour is the default colour. */
    constructor ()
      ensures original == (DEFAULT_COLOR, 0.0) && transformed == DEFAULT_COLOR
    {
      original := (DEFAULT_COLOR, 0.0);
      transformed := DEFAULT_COLOR;
    }

    /** `ColorMapper::map`: a new key recomputes and stores the colour; a
        repeated key returns the cached colour without consulting transform.
        For a cache that agrees with transform the answer is always
        transform(from), and the cache keeps agreeing. */
    method Map(from: Color, alpha: real, transform: Color -> Color) returns (r: Color)
      modifies this
      ensures original == (from, alpha) && transformed == r
      ensures r == if old(original) == (from, alpha) then old(transformed) else transform(from)
      ensures old(Coherent(transform)) ==> r == transform(from) && Coherent(transform)
    {
      if original != (from, alpha) {
        original := (from, alpha);
        transformed := transform(from);
      }
      r := transformed;
    }
  }

  /** A fresh mapper asked for the default colour at alpha 0.0 hits its
      initial key and answers the default colour, whatever the
      transformation does. */
  method DefaultKeyHit(transform: Color -> Color) returns (r: Color)
    ensures r == DEFAULT_COLOR
  {
    var mapper := new ColorMapper();
    r := mapper.Map(DEFAULT_COLOR, 0.0, transform);
  }
}
