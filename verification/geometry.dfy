/** Cartesian vectors and the 3x3 lattice of a unit cell. */
module Geometry {

  datatype Vec3 = Vec3(x: real, y: real, z: real)

  const Origin: Vec3 := Vec3(0.0, 0.0, 0.0)

  function Add(u: Vec3, v: Vec3): Vec3 {
    Vec3(u.x + v.x, u.y + v.y, u.z + v.z)
  }

  /** The integer multiple k·v of a lattice vector. */
  function Times(k: int, v: Vec3): Vec3 {
    Vec3(k as real * v.x, k as real * v.y, k as real * v.z)
  }

  /** Lattice vectors a, b, c: the rows of the cell matrix. */
  datatype Cell = Cell(a: Vec3, b: Vec3, c: Vec3)

  /** numpy's `not vec.any()`: every component is zero. */
  predicate IsZero(v: Vec3) {
    v == Origin
  }
}
