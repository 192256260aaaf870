/**
 * Two-dimensional vectors: the `[x, y]` lists of alt.py and the
 * `pygame.Vector2` values of main.py. Components are exact reals; the
 * floating-point rounding of the scripts is not modelled.
 */
module Vectors {
  datatype Vec = Vec(x: real, y: real) {
    /** Component-wise sum, as in `position += velocity`. */
    function Plus(o: Vec): Vec {
      Vec(x + o.x, y + o.y)
    }
  }

  function Sq(a: real): (r: real)
    ensures r >= 0.0
  {
    a * a
  }
}
