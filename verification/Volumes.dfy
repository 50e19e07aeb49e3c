/** Bytes counted in both directions. */
module Volumes {
  datatype Dir = Up | Down

  datatype Volume = Volume(up: int, down: int) {
    function Plus(v: Volume): Volume {
      Volume(up + v.up, down + v.down)
    }

    function At(d: Dir): int {
      if d == Up then up else down
    }

    function With(d: Dir, v: int): Volume {
      if d == Up then Volume(v, down) else Volume(up, v)
    }
  }

  const ZERO: Volume := Volume(0, 0)
}
