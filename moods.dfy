/** The per-document loop over moods: sorted by name, empty name lists
    skipped, one output per remaining mood. */
module Moods {
  import opened Raster
  import opened Layers
  import opened Compositor

  /** Python's `<` on strings: lexicographic by code point, a proper prefix first. */
  predicate Precedes(a: string, b: string)
    decreases |a|
  {
    if a == [] then b != []
    else if b == [] then false
    else if a[0] != b[0] then a[0] < b[0]
    else Precedes(a[1..], b[1..])
  }

  lemma {:induction false} PrecedesIrreflexive(a: string)
    ensures !Precedes(a, a)
  {
    if a != [] {
      PrecedesIrreflexive(a[1..]);
    }
  }

  lemma {:induction false} PrecedesTransitive(a: string, b: string, c: string)
    requires Precedes(a, b) && Precedes(b, c)
    ensures Precedes(a, c)
    decreases |a|
  {
    if a != [] && b != [] && c != [] && a[0] == b[0] == c[0] {
      PrecedesTransitive(a[1..], b[1..], c[1..]);
    }
  }

  lemma {:induction false} PrecedesTotal(a: string, b: string)
    requires a != b
    ensures Precedes(a, b) || Precedes(b, a)
    decreases |a|
  {
    if a != [] && b != [] && a[0] == b[0] {
      assert a == [a[0]] + a[1..] && b == [b[0]] + b[1..];
      PrecedesTotal(a[1..], b[1..]);
    }
  }

  /** Every non-empty finite set of names has a least one. */
  lemma {:induction false} LeastExists(s: set<string>)
    requires s != {}
    ensures exists m :: m in s && forall k :: k in s && k != m ==> Precedes(m, k)
    decreases |s|
  {
    var x :| x in s;
    var rest := s - {x};
    if rest != {} {
      LeastExists(rest);
      var m :| m in rest && forall k :: k in rest && k != m ==> Precedes(m, k);
      PrecedesTotal(x, m);
      if Precedes(x, m) {
        forall k | k in s && k != x
          ensures Precedes(x, k)
        {
          if k != m {
            PrecedesTransitive(x, m, k);
          }
        }
      } else {
        assert forall k :: k in s && k != m ==> Precedes(m, k);
      }
    } else {
      forall k | k in s
        ensures k == x
      {
        assert k !in rest;
      }
    }
  }

  /** The file name the image of a mood is saved under. */
  function OutputName(base: string, mood: string): string {
    base + "_" + mood + ".png"
  }

  /** Different moods of one document are saved under different file names. */
  lemma OutputNameInjective(base: string, m1: string, m2: string)
    requires OutputName(base, m1) == OutputName(base, m2)
    ensures m1 == m2
  {
    var n1, n2 := OutputName(base, m1), OutputName(base, m2);
    assert |m1| == |m2|;
    forall k | 0 <= k < |m1|
      ensures m1[k] == m2[k]
    {
      assert m1[k] == n1[|base| + 1 + k];
      assert m2[k] == n2[|base| + 1 + k];
    }
  }

  /** One flattened image and the mood it is saved for, under OutputName(base, mood). */
  datatype Output = Output(mood: string, image: Canvas)

  /** Whether a mood is rendered at all: the guard skips an empty name list. */
  predicate Wanted(moods: map<string, seq<string>>, m: string) {
    m in moods && moods[m] != []
  }

  /** `o` is the image of a wanted mood, holding the flattening of the layers
      that mood selects. */
  ghost predicate Rendered(o: Output, doc: seq<Layer>, moods: map<string, seq<string>>, blend: Blend)
    reads o.image.pixels
  {
    Wanted(moods, o.mood) && Flattens(o.image, Selected(doc, moods[o.mood]), blend)
  }

  /** The moods of the outputs, in output order. */
  function MoodsOf(outputs: seq<Output>): seq<string> {
    seq(|outputs|, k requires 0 <= k < |outputs| => outputs[k].mood)
  }

  predicate StrictlySorted(s: seq<string>) {
    forall i, j :: 0 <= i < j < |s| ==> Precedes(s[i], s[j])
  }

  /** The mood names in ascending order, each once (Python's `sorted` on the
      mood items, whose keys are distinct). */
  method SortedMoods(keys: set<string>) returns (order: seq<string>)
    ensures StrictlySorted(order)
    ensures forall k :: k in order <==> k in keys
  {
    order := [];
    var remaining := keys;
    while remaining != {}
      invariant remaining <= keys
      invariant forall k :: k in keys <==> k in order || k in remaining
      invariant StrictlySorted(order)
      invariant forall d, r :: d in order && r in remaining ==> Precedes(d, r)
      decreases |remaining|
    {
      LeastExists(remaining);
      var m :| m in remaining && forall k :: k in remaining && k != m ==> Precedes(m, k);
      order := order + [m];
      remaining := remaining - {m};
    }
  }

  /** The wanted moods of `order`, in that order. */
  function WantedMoods(moods: map<string, seq<string>>, order: seq<string>): seq<string> {
    if order == [] then []
    else
      var last := order[|order| - 1];
      WantedMoods(moods, order[..|order| - 1]) + if Wanted(moods, last) then [last] else []
  }

  lemma {:induction false} WantedMoodsMembers(moods: map<string, seq<string>>, order: seq<string>)
    ensures forall m :: m in WantedMoods(moods, order) <==> m in order && Wanted(moods, m)
  {
    if order != [] {
      var init := order[..|order| - 1];
      WantedMoodsMembers(moods, init);
      assert order == init + [order[|order| - 1]];
    }
  }

  lemma {:induction false} WantedMoodsSorted(moods: map<string, seq<string>>, order: seq<string>)
    requires StrictlySorted(order)
    ensures StrictlySorted(WantedMoods(moods, order))
  {
    if order != [] {
      var init, last := order[..|order| - 1], order[|order| - 1];
      WantedMoodsSorted(moods, init);
      WantedMoodsMembers(moods, init);
      var w := WantedMoods(moods, init);
      forall d | d in w
        ensures Precedes(d, last)
      {
        var j :| 0 <= j < |init| && init[j] == d;
      }
    }
  }

  /** In a sorted list, everything that precedes the element at `i` lies before `i`. */
  lemma PrecedingLiesBefore(order: seq<string>, i: nat, m: string)
    requires StrictlySorted(order) && i < |order|
    requires m in order && Precedes(m, order[i])
    ensures m in order[..i]
  {
    var j :| 0 <= j < |order| && order[j] == m;
    PrecedesIrreflexive(m);
    if j > i {
      PrecedesTransitive(m, order[i], m);
    }
    assert order[..i][j] == m;
  }

  /** What is known when the run stops at `order[i]`: the moods rendered so
      far are sorted, all precede it, and are every wanted mood preceding it. */
  lemma StopFacts(moods: map<string, seq<string>>, order: seq<string>, i: nat)
    requires StrictlySorted(order) && i < |order|
    ensures StrictlySorted(WantedMoods(moods, order[..i]))
    ensures forall d :: d in WantedMoods(moods, order[..i]) ==> Precedes(d, order[i])
    ensures forall m :: Wanted(moods, m) && m in order && Precedes(m, order[i]) ==> m in WantedMoods(moods, order[..i])
  {
    WantedMoodsSorted(moods, order[..i]);
    WantedMoodsMembers(moods, order[..i]);
    forall m | Wanted(moods, m) && m in order && Precedes(m, order[i])
      ensures m in order[..i]
    {
      PrecedingLiesBefore(order, i, m);
    }
    forall d | d in order[..i]
      ensures Precedes(d, order[i])
    {
      var j :| 0 <= j < i && order[j] == d;
    }
  }

  /** Renders the moods of one document in sorted order. Moods with no
      names are skipped. A wanted mood whose names match no layer makes the
      flattening fail, which ends the run (`crashed`) after the moods before it. */
  method RenderPngs(doc: seq<Layer>, moods: map<string, seq<string>>, blend: Blend)
    returns (outputs: seq<Output>, crashed: bool)
    ensures StrictlySorted(MoodsOf(outputs))
    ensures forall k :: 0 <= k < |outputs| ==> Rendered(outputs[k], doc, moods, blend)
    ensures !crashed ==> forall m :: m in MoodsOf(outputs) <==> Wanted(moods, m)
    ensures crashed ==> exists m ::
      && Wanted(moods, m) && Selected(doc, moods[m]) == []
      && (forall d :: d in MoodsOf(outputs) ==> Precedes(d, m))
      && (forall m' :: Wanted(moods, m') && Precedes(m', m) ==> m' in MoodsOf(outputs))
  {
    var order := SortedMoods(moods.Keys);
    outputs, crashed := [], false;
    for i := 0 to |order|
      invariant MoodsOf(outputs) == WantedMoods(moods, order[..i])
      invariant forall k :: 0 <= k < |outputs| ==> Rendered(outputs[k], doc, moods, blend)
    {
      var mood := order[i];
      assert order[..i + 1] == order[..i] + [mood];
      var names := moods[mood];
      if names == [] {
        continue;
      }
      var out := CombineLayers(doc, names, blend);
      if out.None? {
        crashed := true;
        StopFacts(moods, order, i);
        return;
      }
      ghost var before := outputs;
      outputs := outputs + [Output(mood, out.value)];
      assert MoodsOf(outputs) == MoodsOf(before) + [mood];
    }
    assert order[..|order|] == order;
    WantedMoodsSorted(moods, order);
    WantedMoodsMembers(moods, order);
  }
}
