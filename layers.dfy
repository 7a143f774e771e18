/** Document layers and the selection of the layers a mood asks for. */
module Layers {
  import opened Raster
  import opened Geometry

  /** A decoded document layer. `image[j][i]` is the pixel at document
      coordinates (bbox.x1 + i, bbox.y1 + j); `mode` is the image's pixel mode tag. */
  datatype Layer = Layer(name: string, bbox: Box, mode: string, image: seq<seq<Pixel>>)

  /** The boxes of the layers, in the same order. */
  function BoxesOf(layers: seq<Layer>): seq<Box> {
    seq(|layers|, k requires 0 <= k < |layers| => layers[k].bbox)
  }

  /** The document layers whose name is one of `names`, in document order. */
  function Matching(doc: seq<Layer>, names: seq<string>): seq<Layer> {
    if doc == [] then []
    else (if doc[0].name in names then [doc[0]] else []) + Matching(doc[1..], names)
  }

  /** The list in the opposite order. */
  function Reverse<T>(s: seq<T>): (r: seq<T>)
    ensures |r| == |s|
    ensures forall k :: 0 <= k < |s| ==> r[k] == s[|s| - 1 - k]
  {
    if s == [] then [] else Reverse(s[1..]) + [s[0]]
  }

  /** The layers a mood is composited from: the matching layers, reversed. */
  function Selected(doc: seq<Layer>, names: seq<string>): seq<Layer> {
    Reverse(Matching(doc, names))
  }

  /** Each layer occurs in the selection as often as in the document if its
      name is requested, and not at all otherwise. */
  lemma {:induction false} MatchingCount(doc: seq<Layer>, names: seq<string>, l: Layer)
    ensures multiset(Matching(doc, names))[l] == if l.name in names then multiset(doc)[l] else 0
  {
    if doc != [] {
      MatchingCount(doc[1..], names, l);
      assert doc == [doc[0]] + doc[1..];
    }
  }

  /** Filtering keeps document order: it distributes over concatenation. */
  lemma {:induction false} MatchingConcat(a: seq<Layer>, b: seq<Layer>, names: seq<string>)
    ensures Matching(a + b, names) == Matching(a, names) + Matching(b, names)
  {
    if a != [] {
      MatchingConcat(a[1..], b, names);
      assert (a + b)[1..] == a[1..] + b;
    } else {
      assert a + b == b;
    }
  }

  /** Only the set of requested names matters: neither their order nor duplicates. */
  lemma {:induction false} MatchingNameSet(doc: seq<Layer>, names1: seq<string>, names2: seq<string>)
    requires forall n :: n in names1 <==> n in names2
    ensures Matching(doc, names1) == Matching(doc, names2)
  {
    if doc != [] {
      MatchingNameSet(doc[1..], names1, names2);
    }
  }

  /** A requested name that no layer carries is dropped. */
  lemma {:induction false} UnmatchedNameDropped(doc: seq<Layer>, names: seq<string>, n: string)
    requires forall l :: l in doc ==> l.name != n
    ensures Matching(doc, names + [n]) == Matching(doc, names)
  {
    if doc != [] {
      assert doc[0] in doc;
      assert forall l :: l in doc[1..] ==> l in doc;
      UnmatchedNameDropped(doc[1..], names, n);
    }
  }

  lemma ReverseConcat<T>(a: seq<T>, b: seq<T>)
    ensures Reverse(a + b) == Reverse(b) + Reverse(a)
  {
  }

  lemma {:induction false} ReverseMultiset<T>(s: seq<T>)
    ensures multiset(Reverse(s)) == multiset(s)
  {
    if s != [] {
      ReverseMultiset(s[1..]);
      assert s == [s[0]] + s[1..];
    }
  }

  /** The selection holds exactly the document layers with a requested name,
      each as often as in the document. */
  lemma SelectedCount(doc: seq<Layer>, names: seq<string>, l: Layer)
    ensures multiset(Selected(doc, names))[l] == if l.name in names then multiset(doc)[l] else 0
    ensures l in Selected(doc, names) <==> l in doc && l.name in names
  {
    ReverseMultiset(Matching(doc, names));
    MatchingCount(doc, names, l);
    assert l in Selected(doc, names) <==> l in multiset(Selected(doc, names));
    assert l in doc <==> l in multiset(doc);
  }

  /** The selection is in reverse document order: the layers of a later part
      of the document come first. */
  lemma SelectedOrder(a: seq<Layer>, b: seq<Layer>, names: seq<string>)
    ensures Selected(a + b, names) == Selected(b, names) + Selected(a, names)
  {
    MatchingConcat(a, b, names);
    ReverseConcat(Matching(a, names), Matching(b, names));
  }

  /** The selection is empty exactly when no document layer has a requested
      name, which can happen with a non-empty list of names. */
  lemma SelectionEmpty(doc: seq<Layer>, names: seq<string>)
    ensures Selected(doc, names) == [] <==> forall l :: l in doc ==> l.name !in names
  {
    if Selected(doc, names) == [] {
      forall l | l in doc
        ensures l.name !in names
      {
        SelectedCount(doc, names, l);
      }
    } else {
      SelectedCount(doc, names, Selected(doc, names)[0]);
    }
  }
}
