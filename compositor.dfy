/** The compositor: a blank canvas sized by the reducer, onto which the
    selected layers are pasted one after another at their raw offsets. */
module Compositor {
  import opened Raster
  import opened Geometry
  import opened Layers

  datatype Option<T> = None | Some(value: T)

  /** Whether the layer, pasted at its raw (x1, y1), puts one of its pixels at (x, y). */
  predicate Covers(l: Layer, x: int, y: int) {
    0 <= y - l.bbox.y1 < |l.image| && 0 <= x - l.bbox.x1 < |l.image[y - l.bbox.y1]|
  }

  /** The layer pixel that lands at (x, y). */
  function SourceAt(l: Layer, x: int, y: int): Pixel
    requires Covers(l, x, y)
  {
    l.image[y - l.bbox.y1][x - l.bbox.x1]
  }

  /** The pixel at (x, y) after pasting the layer, masked by its own alpha, over `dst`. */
  function Pasted(dst: Pixel, l: Layer, x: int, y: int, blend: Blend): Pixel {
    if Covers(l, x, y) then
      var src := SourceAt(l, x, y);
      blend(src, dst, src.a)
    else dst
  }

  /** The pixel at (x, y) after pasting every layer, in order, over a blank canvas. */
  function Composite(layers: seq<Layer>, x: int, y: int, blend: Blend): Pixel {
    if layers == [] then Blank
    else Pasted(Composite(layers[..|layers| - 1], x, y, blend), layers[|layers| - 1], x, y, blend)
  }

  /** An output image: a grid of pixels indexed [x, y]. */
  class Canvas {
    const mode: string
    const width: nat
    const height: nat
    const pixels: array2<Pixel>

    ghost predicate Valid() {
      pixels.Length0 == width && pixels.Length1 == height
    }

    /** A new image of the given mode and size, every pixel blank. */
    constructor (mode: string, width: nat, height: nat)
      ensures Valid() && fresh(pixels)
      ensures this.mode == mode && this.width == width && this.height == height
      ensures forall x, y :: 0 <= x < width && 0 <= y < height ==> pixels[x, y] == Blank
    {
      this.mode := mode;
      this.width := width;
      this.height := height;
      pixels := new Pixel[width, height]((x, y) => Blank);
    }

    /** Pastes the layer with its top-left pixel at the layer's raw (x1, y1),
        using its alpha as the mask; pixels falling outside the canvas are dropped. */
    method Paste(l: Layer, blend: Blend)
      requires Valid()
      modifies pixels
      ensures forall x, y :: 0 <= x < width && 0 <= y < height ==>
        pixels[x, y] == Pasted(old(pixels[x, y]), l, x, y, blend)
    {
      var j := 0;
      while j < |l.image|
        invariant 0 <= j <= |l.image|
        invariant forall x, y :: 0 <= x < width && 0 <= y < height ==>
          pixels[x, y] == if y - l.bbox.y1 < j then Pasted(old(pixels[x, y]), l, x, y, blend) else old(pixels[x, y])
      {
        var row := l.image[j];
        var i := 0;
        while i < |row|
          invariant 0 <= i <= |row|
          invariant forall x, y :: 0 <= x < width && 0 <= y < height ==>
            pixels[x, y] ==
              if y - l.bbox.y1 < j || (y - l.bbox.y1 == j && x - l.bbox.x1 < i)
              then Pasted(old(pixels[x, y]), l, x, y, blend)
              else old(pixels[x, y])
        {
          var x, y := l.bbox.x1 + i, l.bbox.y1 + j;
          if 0 <= x < width && 0 <= y < height {
            var src := row[i];
            pixels[x, y] := blend(src, pixels[x, y], src.a);
          }
          i := i + 1;
        }
        j := j + 1;
      }
    }
  }

  /** `c` is the flattening of `used`: the mode of the first layer, the
      reducer's size for their boxes, and the composite at every pixel. */
  ghost predicate Flattens(c: Canvas, used: seq<Layer>, blend: Blend)
    reads c.pixels
  {
    used != [] && c.Valid() && c.mode == used[0].mode &&
    c.width == Union(BoxesOf(used)).x2 - Union(BoxesOf(used)).x1 &&
    c.height == Union(BoxesOf(used)).y2 - Union(BoxesOf(used)).y1 &&
    forall x, y :: 0 <= x < c.width && 0 <= y < c.height ==> c.pixels[x, y] == Composite(used, x, y, blend)
  }

  /** Flattens the layers named in `names`: None when nothing matches (the
      source then fails on the first selected image); otherwise a fresh canvas
      holding the flattening of the selection. */
  method CombineLayers(doc: seq<Layer>, names: seq<string>, blend: Blend) returns (out: Option<Canvas>)
    ensures out.None? <==> Selected(doc, names) == []
    ensures out.Some? ==> fresh(out.value) && fresh(out.value.pixels) && Flattens(out.value, Selected(doc, names), blend)
  {
    var used := Matching(doc, names);
    used := Reverse(used);
    var width, height := GetBoundingSize(BoxesOf(used));
    if |used| == 0 {
      return None;
    }
    var canvas := new Canvas(used[0].mode, width, height);
    for i := 0 to |used|
      invariant forall x, y :: 0 <= x < width && 0 <= y < height ==>
        canvas.pixels[x, y] == Composite(used[..i], x, y, blend)
    {
      canvas.Paste(used[i], blend);
      assert used[..i + 1][..i] == used[..i];
    }
    assert used[..|used|] == used;
    return Some(canvas);
  }

  /** The topmost layer covering a pixel, if opaque there, decides the pixel. */
  lemma {:induction false} OpaqueTopmostWins(layers: seq<Layer>, k: nat, x: int, y: int, blend: Blend)
    requires OverLaw(blend)
    requires k < |layers| && Covers(layers[k], x, y) && SourceAt(layers[k], x, y).a == 255
    requires forall j :: k < j < |layers| ==> !Covers(layers[j], x, y)
    ensures Composite(layers, x, y, blend) == SourceAt(layers[k], x, y)
  {
    var n := |layers| - 1;
    if k < n {
      OpaqueTopmostWins(layers[..n], k, x, y, blend);
      assert !Covers(layers[n], x, y);
    }
  }

  /** A canvas pixel that no layer covers keeps its initial blank value. */
  lemma {:induction false} UncoveredStaysBlank(layers: seq<Layer>, x: int, y: int, blend: Blend)
    requires forall j :: 0 <= j < |layers| ==> !Covers(layers[j], x, y)
    ensures Composite(layers, x, y, blend) == Blank
  {
    if layers != [] {
      UncoveredStaysBlank(layers[..|layers| - 1], x, y, blend);
    }
  }

  /** A layer that is fully transparent at a pixel (or does not cover it) can
      be removed without changing that pixel, wherever it sits in the order. */
  lemma {:induction false} TransparentLayerInvisible(pre: seq<Layer>, l: Layer, post: seq<Layer>, x: int, y: int, blend: Blend)
    requires OverLaw(blend)
    requires Covers(l, x, y) ==> SourceAt(l, x, y).a == 0
    ensures Composite(pre + [l] + post, x, y, blend) == Composite(pre + post, x, y, blend)
  {
    if post == [] {
      assert (pre + [l] + post)[..|pre|] == pre;
      assert pre + post == pre;
    } else {
      var n := |post| - 1;
      TransparentLayerInvisible(pre, l, post[..n], x, y, blend);
      assert (pre + [l] + post)[..|pre| + 1 + n] == pre + [l] + post[..n];
      assert (pre + post)[..|pre| + n] == pre + post[..n];
    }
  }

  /** Two layers opaque at a shared pixel: the one pasted second shows, so
      swapping their order swaps the result. */
  lemma PaintOrder(a: Layer, b: Layer, x: int, y: int, blend: Blend)
    requires OverLaw(blend)
    requires Covers(a, x, y) && SourceAt(a, x, y).a == 255
    requires Covers(b, x, y) && SourceAt(b, x, y).a == 255
    ensures Composite([a, b], x, y, blend) == SourceAt(b, x, y)
    ensures Composite([b, a], x, y, blend) == SourceAt(a, x, y)
  {
  }

  /** Whether the layer's image has exactly the size of its box. */
  predicate Fits(l: Layer) {
    |l.image| == l.bbox.y2 - l.bbox.y1 &&
    forall j :: 0 <= j < |l.image| ==> |l.image[j]| == l.bbox.x2 - l.bbox.x1
  }

  /** When no selected layer reaches left of or above the origin, every pixel
      of every layer lands on the canvas: nothing is clipped. */
  lemma NoClippingAtNonNegativeOffsets(layers: seq<Layer>, k: nat, x: int, y: int)
    requires forall j :: 0 <= j < |layers| ==> Fits(layers[j]) && layers[j].bbox.x1 >= 0 && layers[j].bbox.y1 >= 0
    requires k < |layers| && Covers(layers[k], x, y)
    ensures 0 <= x < Union(BoxesOf(layers)).x2 - Union(BoxesOf(layers)).x1
    ensures 0 <= y < Union(BoxesOf(layers)).y2 - Union(BoxesOf(layers)).y1
  {
    var boxes := BoxesOf(layers);
    UnionIsHull(boxes);
    var u := Union(boxes);
    assert boxes[k] in boxes;
    assert forall b :: b in boxes ==> b.x1 >= 0 && b.y1 >= 0;
    assert u.x1 == 0 && u.y1 == 0;
  }
}

/** A two-layer document, body then hat, with the hat reaching 20 rows above
    the origin, flattened as the source does it. */
module Scenario {
  import opened Raster
  import opened Geometry
  import opened Layers
  import opened Compositor

  function Body(p: Pixel): Layer {
    Layer("body", Box(0, 0, 100, 200), "RGBA", seq(200, _ => seq(100, _ => p)))
  }

  function Hat(q: Pixel): Layer {
    Layer("hat", Box(10, -20, 90, 40), "RGBA", seq(60, _ => seq(80, _ => q)))
  }

  /** The selection is hat then body: reverse document order. */
  lemma BodyAndHatSelection(p: Pixel, q: Pixel)
    ensures Selected([Body(p), Hat(q)], ["body", "hat"]) == [Hat(q), Body(p)]
  {
    var body, hat := Body(p), Hat(q);
    assert [body, hat][1..] == [hat];
    assert Matching([hat], ["body", "hat"]) == [hat];
    assert Matching([body, hat], ["body", "hat"]) == [body, hat];
    assert Reverse([body, hat]) == [hat, body];
  }

  /** The canvas is 100 x 220: the origin-seeded hull reaches 20 rows above the origin. */
  lemma BodyAndHatSize(p: Pixel, q: Pixel)
    ensures Union(BoxesOf([Hat(q), Body(p)])) == Box(0, -20, 100, 200)
  {
    var boxes := BoxesOf([Hat(q), Body(p)]);
    assert boxes == [Box(10, -20, 90, 40), Box(0, 0, 100, 200)];
    assert boxes[..1] == [Box(10, -20, 90, 40)];
    assert boxes[..1][..0] == [];
    assert Union(boxes[..1]) == Box(0, -20, 90, 40);
  }

  /** The body is pasted last and shows everywhere in its box, including where
      the opaque hat lies under it. Since the hat is pasted at its raw
      y1 = -20, its top rows are clipped, and canvas rows 200..219 stay blank
      although they lie inside the canvas. */
  lemma BodyAndHatPixels(p: Pixel, q: Pixel, blend: Blend)
    requires OverLaw(blend) && p.a == 255 && q.a == 255
    ensures forall x, y :: 0 <= x < 100 && 0 <= y < 200 ==> Composite([Hat(q), Body(p)], x, y, blend) == p
    ensures forall x, y :: 0 <= x < 100 && 200 <= y < 220 ==> Composite([Hat(q), Body(p)], x, y, blend) == Blank
  {
    var body, hat := Body(p), Hat(q);
    forall x, y | 0 <= x < 100 && 0 <= y < 200
      ensures Composite([hat, body], x, y, blend) == p
    {
      assert Covers(body, x, y);
      OpaqueTopmostWins([hat, body], 1, x, y, blend);
    }
    forall x, y | 0 <= x < 100 && 200 <= y < 220
      ensures Composite([hat, body], x, y, blend) == Blank
    {
      assert !Covers(hat, x, y) && !Covers(body, x, y);
      UncoveredStaysBlank([hat, body], x, y, blend);
    }
  }
}
