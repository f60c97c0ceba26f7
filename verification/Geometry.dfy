/** Points, sizes, rectangles and box sides in app units. */
module Geometry {
  import opened AppUnits

  datatype Point = Point(x: Au, y: Au)

  datatype Size = Size(w: Au, h: Au)

  datatype Sides<T> = Sides(top: T, right: T, bottom: T, left: T)

  datatype Rect = Rect(origin: Point, size: Size) {
    function Right(): Au {
      SatAdd(origin.x, size.w)
    }

    function Bottom(): Au {
      SatAdd(origin.y, size.h)
    }

    predicate IsEmpty() {
      size.w <= 0 || size.h <= 0
    }

    /** Half-open membership, the point-set view of a filled rectangle. */
    predicate Contains(p: Point) {
      origin.x <= p.x < Right() && origin.y <= p.y < Bottom()
    }

    /** Non-negative size, and both far edges representable. */
    predicate Representable() {
      0 <= size.w && 0 <= size.h && Fits(origin.x + size.w) && Fits(origin.y + size.h)
    }
  }

  const ORIGIN := Point(0, 0)
  const EMPTY_RECT := Rect(ORIGIN, Size(0, 0))
}
