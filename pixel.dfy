/** One cell of the canvas (`Pixel` in pixel.rs): a color that drawing overwrites in place. */
module Pixels {
  import opened Colors

  class Pixel {
    var color: Color32

    /** `Pixel::new()`: a white cell; this is the constructor the canvas uses. */
    constructor ()
      ensures color == White
    {
      color := White;
    }

    /** The derived `Pixel::default()`, whose color is `Color32::default()`. */
    constructor Default()
      ensures color == Transparent
    {
      color := Transparent;
    }

    /** `fix_color`: the cell takes exactly the given color; nothing else changes. */
    method FixColor(c: Color32)
      modifies this
      ensures color == c
    {
      color := c;
    }
  }

  /**
    * Two `fix_color` calls in a row leave the second color: the last write wins,
    * and with equal colors a repeated call is the same as one call.
    */
  method FixColorTwice(p: Pixel, c1: Color32, c2: Color32)
    modifies p
    ensures p.color == c2
    ensures c1 == c2 ==> p.color == c1
  {
    p.FixColor(c1);
    p.FixColor(c2);
  }
}
