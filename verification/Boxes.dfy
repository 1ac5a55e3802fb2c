/** Axis-aligned boxes and the small real arithmetic over them. */
module Boxes {

  datatype BBox = BBox(x0: real, y0: real, x1: real, y1: real)

  function Abs(x: real): real { if x < 0.0 then -x else x }

  function Max(x: real, y: real): real { if x < y then y else x }

  function Min(x: real, y: real): real { if x < y then x else y }
}
