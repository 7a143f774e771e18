/** The bounding-size reducer: folds layer boxes into an accumulator seeded
    at the document origin. */
module Geometry {
  /** An axis-aligned box in document coordinates. */
  datatype Box = Box(x1: int, y1: int, x2: int, y2: int)

  /** The accumulator's starting value: the empty box at the origin. */
  const Origin := Box(0, 0, 0, 0)

  /** One step of the reducer: each side moves outwards to the box's side if that is further out. */
  function Extend(acc: Box, b: Box): Box {
    Box(if b.x1 < acc.x1 then b.x1 else acc.x1,
        if b.y1 < acc.y1 then b.y1 else acc.y1,
        if b.x2 > acc.x2 then b.x2 else acc.x2,
        if b.y2 > acc.y2 then b.y2 else acc.y2)
  }

  /** The accumulator after every box, in order, has been folded into the origin. */
  function Union(boxes: seq<Box>): Box {
    if boxes == [] then Origin else Extend(Union(boxes[..|boxes| - 1]), boxes[|boxes| - 1])
  }

  predicate Contains(outer: Box, inner: Box) {
    outer.x1 <= inner.x1 && outer.y1 <= inner.y1 && inner.x2 <= outer.x2 && inner.y2 <= outer.y2
  }

  /** `h` is the least box containing the origin and every box of `boxes`:
      it contains them all, and each of its sides is the origin's or some box's.
      Its sides are min(0, min x1), min(0, min y1), max(0, max x2), max(0, max y2). */
  ghost predicate IsHull(h: Box, boxes: seq<Box>) {
    Contains(h, Origin) &&
    (forall b :: b in boxes ==> Contains(h, b)) &&
    (h.x1 == 0 || exists b :: b in boxes && b.x1 == h.x1) &&
    (h.y1 == 0 || exists b :: b in boxes && b.y1 == h.y1) &&
    (h.x2 == 0 || exists b :: b in boxes && b.x2 == h.x2) &&
    (h.y2 == 0 || exists b :: b in boxes && b.y2 == h.y2)
  }

  /** The fold computes the origin-seeded hull of the boxes. */
  lemma {:induction false} UnionIsHull(boxes: seq<Box>)
    ensures IsHull(Union(boxes), boxes)
  {
    if boxes != [] {
      var init, last := boxes[..|boxes| - 1], boxes[|boxes| - 1];
      UnionIsHull(init);
      assert boxes == init + [last];
      assert forall b :: b in init ==> b in boxes;
    }
  }

  /** There is only one hull of a list of boxes. */
  lemma HullUnique(h: Box, k: Box, boxes: seq<Box>)
    requires IsHull(h, boxes) && IsHull(k, boxes)
    ensures h == k
  {
  }

  /** The reducer's result depends only on which boxes occur, not on their
      order or on how often each occurs. */
  lemma UnionSameMembers(a: seq<Box>, b: seq<Box>)
    requires forall x :: x in a <==> x in b
    ensures Union(a) == Union(b)
  {
    UnionIsHull(a);
    UnionIsHull(b);
    assert IsHull(Union(b), a);
    HullUnique(Union(a), Union(b), a);
  }

  /** In particular, reordering the boxes does not change the result. */
  lemma UnionPermutation(a: seq<Box>, b: seq<Box>)
    requires multiset(a) == multiset(b)
    ensures Union(a) == Union(b)
  {
    forall x
      ensures x in a <==> x in b
    {
      assert x in a <==> x in multiset(a);
      assert x in b <==> x in multiset(b);
    }
    UnionSameMembers(a, b);
  }

  /** A single box yields a canvas of its own size exactly when it contains the origin. */
  lemma SingleLayerOwnSize(b: Box)
    ensures (Union([b]).x2 - Union([b]).x1 == b.x2 - b.x1 && Union([b]).y2 - Union([b]).y1 == b.y2 - b.y1)
            <==> (b.x1 <= 0 <= b.x2 && b.y1 <= 0 <= b.y2)
  {
  }

  /** The reducer: (width, height) of the accumulated box, both non-negative;
      no boxes give (0, 0). */
  method GetBoundingSize(boxes: seq<Box>) returns (width: int, height: int)
    ensures width == Union(boxes).x2 - Union(boxes).x1
    ensures height == Union(boxes).y2 - Union(boxes).y1
    ensures width >= 0 && height >= 0
    ensures boxes == [] ==> width == 0 && height == 0
  {
    var x1, y1, x2, y2 := 0, 0, 0, 0;
    for i := 0 to |boxes|
      invariant Box(x1, y1, x2, y2) == Union(boxes[..i])
    {
      var b := boxes[i];
      if b.x1 < x1 {
        x1 := b.x1;
      }
      if b.y1 < y1 {
        y1 := b.y1;
      }
      if b.x2 > x2 {
        x2 := b.x2;
      }
      if b.y2 > y2 {
        y2 := b.y2;
      }
      assert boxes[..i + 1][..i] == boxes[..i];
    }
    assert boxes[..|boxes|] == boxes;
    UnionIsHull(boxes);
    width, height := x2 - x1, y2 - y1;
  }
}
