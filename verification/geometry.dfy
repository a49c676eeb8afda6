/**
 The page boundary (the MediaBox of section 14.11.2 of ISO 32000-1) and the
 fixed midpoint split that turns one two-column page into two one-column
 views. Coordinates are exact reals; the program reads them as floats.
 */
module Geometry {

  datatype Point = Point(x: real, y: real)

  /** A MediaBox given by its lower-left and upper-right corners. */
  datatype Rect = Rect(lowerLeft: Point, upperRight: Point)

  /** The two one-column views cut from one page. */
  datatype SplitResult = SplitResult(left: Rect, right: Rect)

  function Width(r: Rect): real {
    r.upperRight.x - r.lowerLeft.x
  }

  function Height(r: Rect): real {
    r.upperRight.y - r.lowerLeft.y
  }

  /** Signed area: width times height. */
  function Area(r: Rect): real {
    Width(r) * Height(r)
  }

  /** A well-formed box: upper-right strictly above and to the right of lower-left. */
  predicate Valid(r: Rect) {
    r.upperRight.x > r.lowerLeft.x && r.upperRight.y > r.lowerLeft.y
  }

  /** Closed membership of a point in a box. */
  predicate Contains(r: Rect, p: Point) {
    r.lowerLeft.x <= p.x <= r.upperRight.x && r.lowerLeft.y <= p.y <= r.upperRight.y
  }

  /** The vertical split line: the lower-left x plus half of the full width. */
  function SplitX(r: Rect): (x: real)
    ensures x - r.lowerLeft.x == r.upperRight.x - x
    ensures r.lowerLeft.x < r.upperRight.x ==> r.lowerLeft.x < x < r.upperRight.x
  {
    r.lowerLeft.x + Width(r) / 2.0
  }

  /**
   The left view keeps the lower-left corner and ends at the split line; the
   right view starts at the split line and keeps the upper-right corner.
   No check is made that the box is well formed.
   */
  function Split(r: Rect): (s: SplitResult)
    ensures s.left.lowerLeft == r.lowerLeft
    ensures s.right.upperRight == r.upperRight
    ensures s.left.upperRight.x == s.right.lowerLeft.x
    ensures s.left.upperRight.x - r.lowerLeft.x == r.upperRight.x - s.right.lowerLeft.x
    ensures s.left.upperRight.y == r.upperRight.y && s.right.lowerLeft.y == r.lowerLeft.y
    ensures Width(s.left) == Width(s.right) == Width(r) / 2.0
    ensures Height(s.left) == Height(s.right) == Height(r)
    ensures Area(s.left) + Area(s.right) == Area(r)
    ensures Valid(r) ==> Valid(s.left) && Valid(s.right)
  {
    var mid := SplitX(r);
    SplitResult(Rect(r.lowerLeft, Point(mid, r.upperRight.y)),
                Rect(Point(mid, r.lowerLeft.y), r.upperRight))
  }

  /** Glues two side-by-side views back into one box. */
  function Join(s: SplitResult): Rect {
    Rect(s.left.lowerLeft, s.right.upperRight)
  }

  /** Splitting loses nothing: the two views glue back into the original box. */
  lemma JoinSplit(r: Rect)
    ensures Join(Split(r)) == r
  {
  }

  /**
   The two views cover exactly the points of the original box, and share
   only points on the split line.
   */
  lemma SplitCoversExactly(r: Rect, p: Point)
    ensures Contains(r, p) <==> Contains(Split(r).left, p) || Contains(Split(r).right, p)
    ensures Contains(Split(r).left, p) && Contains(Split(r).right, p) ==> p.x == SplitX(r)
  {
  }

  /** A 200 by 100 page at the origin splits into two 100 by 100 halves. */
  lemma SplitExample()
    ensures Split(Rect(Point(0.0, 0.0), Point(200.0, 100.0)))
         == SplitResult(Rect(Point(0.0, 0.0), Point(100.0, 100.0)),
                        Rect(Point(100.0, 0.0), Point(200.0, 100.0)))
  {
  }
}
