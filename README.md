# psdemiurge layer flattening, modelled in Dafny

psdemiurge turns a layered character document (a PSD file) into one PNG per
"mood". A per-character configuration maps each mood to a list of layer
names. This project models the layer-flattening path of class `PSDemiurge`
and proves properties of it. The path has four parts:

- **Bounding-size reducer** (`get_bounding_size`). It folds the layer boxes
  into an accumulator that starts as the box `{0,0,0,0}` at the origin. It
  returns `(x2 - x1, y2 - y1)` of the accumulated box. Because of that seed,
  the canvas always spans the origin.
- **Layer selection** (`combine_layers`, first two lines). It keeps the
  document layers whose name is in the requested list, in document order,
  and then reverses that list.
- **Compositor** (rest of `combine_layers`). It creates a blank canvas of the
  reducer's size, in the first selected layer's pixel mode. It then pastes
  each selected layer in turn at the layer's raw `(x1, y1)`, using the
  layer's own alpha as the mask. The canvas's minimum corner is not
  subtracted, so parts of a layer above or left of the origin fall off the
  canvas.
- **Mood loop** (`render_pngs`). Moods are taken in sorted name order. A mood
  with an empty name list is skipped. Every other mood is flattened and saved
  as `{base}_{mood}.png`.

Files:
- `raster.dfy` (module `Raster`): pixels, and the blend law.
- `geometry.dfy` (module `Geometry`): boxes, and the reducer as a fold (`Union`) and as the source's loop (`GetBoundingSize`).
- `layers.dfy` (module `Layers`): layers, the name filter `Matching`, `Reverse`, and `Selected`.
- `compositor.dfy` (modules `Compositor` and `Scenario`): the `Canvas` class over a 2-D array, the paste loop, `CombineLayers`, the per-pixel specification `Composite`, and a worked two-layer document.
- `moods.dfy` (module `Moods`): Python's string order, sorting the mood names, and the mood loop `RenderPngs`.

The library's masked blend is a parameter `blend: (Pixel, Pixel, Byte) -> Pixel`.
The lemmas rely on only two facts about it (`OverLaw`): a mask of 255
yields the source pixel, and a mask of 0 keeps the destination pixel.

Behaviours of the code that the model reproduces and that are easy to miss:
- The reducer returns `(0, 0)` for an empty list of layers; it raises nothing itself. The failure comes later, at `layer_images[0]`, and `CombineLayers` returns `None` exactly then.
- The paste offset is the layer's raw `(x1, y1)`, with the canvas's minimum corner not subtracted. In the worked example (body `(0,0,100,200)`, hat `(10,-20,90,40)`), the canvas is 100 x 220. The hat is pasted at y = -20, so its top 20 rows are clipped, and canvas rows 200 to 219 stay blank (`Scenario.BodyAndHatPixels`).
- The selection is reversed after filtering, so with document order body-then-hat the hat is pasted first and the body last, on top (`Scenario.BodyAndHatSelection`).
- A single layer's canvas has the layer's own size exactly when its box contains the origin (`Geometry.SingleLayerOwnSize`); the layer fills the canvas from its top-left corner only when its box starts at (0, 0).

## Model

| member | source | states |
|---|---|---|
| Geometry.GetBoundingSize | psdemiurge.py:172-188 | The loop returns the width and height of the origin-seeded fold of the boxes. Both are non-negative, and an empty list gives (0, 0). |
| Geometry.Extend | psdemiurge.py:177-185 | One step of the reducer's loop. It has no contract of its own; `UnionIsHull` specifies what repeated steps compute. |
| Geometry.Union | psdemiurge.py:175-185 | The reducer's accumulator as a fold from the origin. It has no contract of its own; it is specified by `UnionIsHull`, `UnionSameMembers` and `UnionPermutation`, and `GetBoundingSize` is proved equal to it. |
| Geometry.UnionIsHull | psdemiurge.py:175-185 | The accumulated box contains the origin and every input box. Each side is 0 or some box's side, i.e. min(0, min x1), min(0, min y1), max(0, max x2), max(0, max y2). |
| Geometry.HullUnique | psdemiurge.py:175-188 | At most one box has that extremal description. |
| Geometry.UnionSameMembers | psdemiurge.py:175-185 | Two box lists with the same members give the same accumulated box, whatever their order and repetitions. |
| Geometry.UnionPermutation | psdemiurge.py:177-185 | Any reordering of the layer boxes gives the same accumulated box, and so the same size. |
| Geometry.SingleLayerOwnSize | psdemiurge.py:175-188 | For one box, the reducer's width and height equal the box's own exactly when the box contains the origin. |
| Layers.BoxesOf | psdemiurge.py:177-185 | The boxes the reducer reads, one per layer, in layer order. It has no contract of its own; `GetBoundingSize` and `CombineLayers` read the layers' boxes through it. |
| Layers.Matching | psdemiurge.py:148 | The list comprehension that keeps the layers whose name is requested. It has no contract of its own; it is specified by `MatchingCount`, `MatchingConcat`, `MatchingNameSet` and `UnmatchedNameDropped`. |
| Layers.Selected | psdemiurge.py:148-149 | The filtered list, reversed. It has no contract of its own; it is specified by `SelectedCount`, `SelectedOrder` and `SelectionEmpty`. |
| Layers.Reverse | psdemiurge.py:149 | The reversed list has the same length, and element k is the input's element n-1-k. |
| Layers.MatchingCount | psdemiurge.py:148 | The filter keeps each layer as often as the document holds it if its name is requested, and drops it otherwise. |
| Layers.MatchingConcat | psdemiurge.py:148 | The filter keeps document order: filtering a + b gives filter(a) + filter(b). |
| Layers.MatchingNameSet | psdemiurge.py:148 | Two name lists with the same members select the same layers, so their order and duplicates have no effect. |
| Layers.UnmatchedNameDropped | psdemiurge.py:148 | Adding a requested name that no layer carries changes nothing. |
| Layers.SelectedCount | psdemiurge.py:148-149 | The selection holds exactly the document layers with a requested name (both directions), with their multiplicities. |
| Layers.SelectedOrder | psdemiurge.py:148-149 | The selection is in reverse document order: selecting from a + b gives the selection of b followed by that of a. |
| Layers.SelectionEmpty | psdemiurge.py:148-149 | The selection is empty exactly when no document layer carries a requested name. A non-empty name list can still select nothing. |
| Compositor.Covers | psdemiurge.py:165-168 | Whether a layer pasted at its raw (x1, y1) puts a pixel at (x, y); false at positions the layer's image does not reach. It has no contract of its own; `Canvas.Paste` is proved against it. |
| Compositor.SourceAt | psdemiurge.py:165-168 | The layer pixel that a paste at the raw (x1, y1) puts at (x, y), defined only where `Covers` holds. It has no contract of its own; `Pasted` blends it with its own alpha as the mask. |
| Compositor.Pasted | psdemiurge.py:165-168 | A canvas pixel after one masked paste. It has no contract of its own; `Canvas.Paste` is proved against it, and `OpaqueTopmostWins` and `TransparentLayerInvisible` state its effect. |
| Compositor.Composite | psdemiurge.py:155-168 | A canvas pixel after pasting every selected layer in order over a blank canvas. It has no contract of its own; `CombineLayers` is proved against it, and it is specified by `OpaqueTopmostWins`, `UncoveredStaysBlank`, `TransparentLayerInvisible` and `PaintOrder`. |
| Compositor.Canvas.constructor | psdemiurge.py:155 | A new canvas has the given mode, width and height, and every pixel is `Blank`, the all-zero RGBA pixel that `Image.new` fills with by default. |
| Compositor.Canvas.Paste | psdemiurge.py:165-168 | After a paste, each canvas pixel is the blend of the layer pixel that lands on it at the raw (x1, y1) with its old value, masked by that pixel's alpha. Pixels no layer pixel reaches are unchanged, and layer pixels outside the canvas are dropped. |
| Compositor.CombineLayers | psdemiurge.py:145-170 | The result is None exactly when the selection is empty. Otherwise it is a fresh canvas with the first selected layer's mode and the reducer's size. Its pixel at every (x, y) is the composite of the selected layers, pasted in selection order. |
| Compositor.OpaqueTopmostWins | psdemiurge.py:157-168 | At a pixel, the last layer covering it decides the pixel if it is fully opaque there, whatever was pasted before. |
| Compositor.UncoveredStaysBlank | psdemiurge.py:155-168 | A canvas pixel that no layer covers keeps its initial blank value. |
| Compositor.TransparentLayerInvisible | psdemiurge.py:165-168 | A layer that is fully transparent at a pixel can be removed from any position in the order without changing that pixel. |
| Compositor.PaintOrder | psdemiurge.py:157-168 | For two layers both opaque at a pixel, the one pasted second shows, and swapping their order swaps the result. |
| Compositor.NoClippingAtNonNegativeOffsets | psdemiurge.py:152-168 | If no selected layer starts left of or above the origin, and each layer's image is exactly the size of its box, every pixel of every layer lands inside the canvas. |
| Scenario.BodyAndHatSelection | psdemiurge.py:148-149 | Requesting body and hat from the document [body, hat] selects [hat, body]. |
| Scenario.BodyAndHatSize | psdemiurge.py:175-188 | For those two boxes the accumulated box is (0, -20, 100, 200), so the canvas is 100 x 220. |
| Scenario.BodyAndHatPixels | psdemiurge.py:157-168 | The body, pasted last, shows at every pixel of its box, including where the opaque hat lies under it. Canvas rows 200 to 219 are blank although they lie inside the canvas, because the hat's top rows were clipped. |
| Moods.Precedes | psdemiurge.py:120 | Python's `<` on strings, which `sorted` uses to order the mood names: lexicographic by code point, a proper prefix first. It has no contract of its own; it is specified by `PrecedesIrreflexive`, `PrecedesTransitive` and `PrecedesTotal`. |
| Moods.PrecedesIrreflexive | psdemiurge.py:120 | No name precedes itself. |
| Moods.PrecedesTotal | psdemiurge.py:120 | Python's string order is total: of two different names, one precedes the other. |
| Moods.PrecedesTransitive | psdemiurge.py:120 | Python's string order is transitive. |
| Moods.SortedMoods | psdemiurge.py:120 | The mood names come out strictly ascending, each name of the configuration exactly once. |
| Moods.OutputName | psdemiurge.py:131 | The file name `{base}_{mood}.png`. It has no contract of its own; it is specified by `OutputNameInjective`. |
| Moods.OutputNameInjective | psdemiurge.py:131 | Two moods of one document get the same `{base}_{mood}.png` file name only if they are the same mood. |
| Moods.Wanted | psdemiurge.py:125-129 | The skip guard: a mood is rendered only if it is configured and its name list is non-empty. It has no contract of its own; `WantedMoods`, `WantedMoodsMembers` and `RenderPngs` are stated through it. |
| Moods.WantedMoods | psdemiurge.py:125-129 | The moods of a given order that the skip guard lets through, in that order. It has no contract of its own; it is specified by `WantedMoodsMembers` and `WantedMoodsSorted`, and `RenderPngs` is proved against it. |
| Moods.WantedMoodsMembers | psdemiurge.py:125-129 | The moods kept by the skip guard are exactly the moods with a non-empty name list. |
| Moods.WantedMoodsSorted | psdemiurge.py:120-129 | Skipping moods keeps the remaining moods in ascending order. |
| Moods.StopFacts | psdemiurge.py:120-135 | When the run stops at a mood, the moods rendered so far are ascending, all precede it, and are all the wanted moods before it. |
| Moods.RenderPngs | psdemiurge.py:120-137 | Outputs come in strictly ascending mood order, and each one holds the flattening of its mood's selection. Without a failure they are exactly the moods with non-empty name lists. A failure happens only at a mood whose non-empty names match no layer, after every wanted mood before it has been rendered. |

## Left out

- Argument parsing, the logger and its levels: command-line and logging plumbing.
- Finding the `.json` files, checking for the `.psd`, creating folders, the timestamp and `save`: filesystem I/O. `RenderPngs` returns the images with their moods; the file each is saved under is `OutputName(base, mood)`.
- Loading the JSON configuration and decoding the PSD: foreign libraries. The doc's layers are given as records (name, box, mode, pixel rows), and the moods as a map from mood name to a name list.
- The exact arithmetic of the image library's masked paste. The blend is a parameter, and only its behaviour at mask 255 and mask 0 is relied on.
- Pixel modes: the mode is an opaque tag copied from the first selected layer. Every image is treated as RGBA, with the alpha sample as the mask.
- The `yanchor` value and the commented-out `.rpy` manifest writing: dead code and output formatting.
- The exception that ends the whole run when a mood selects no layer is modelled as `CombineLayers` returning `None` and `RenderPngs` stopping with `crashed`. No other exception is modelled.
