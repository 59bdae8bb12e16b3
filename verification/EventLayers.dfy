/** The layers of the event-driven outputs: one list per occupied layer number, in ascending order. */
module EventLayers {
  import opened Sequences
  import opened Schedules

  /** The references of one layer, in the order of their declaration. */
  function AtLayer(refs: seq<nat>, layer: nat -> nat, k: nat): seq<nat> {
    if refs == [] then [] else
    AtLayer(refs[..|refs| - 1], layer, k) + (if layer(refs[|refs| - 1]) == k then [refs[|refs| - 1]] else [])
  }

  /** The references of the first `n` layers, layer by layer. */
  function UpToLayer(refs: seq<nat>, layer: nat -> nat, n: nat): seq<nat>
    decreases n
  {
    if n == 0 then [] else UpToLayer(refs, layer, n - 1) + AtLayer(refs, layer, n - 1)
  }

  method FilterLayer(refs: seq<nat>, layer: nat -> nat, k: nat) returns (r: seq<nat>)
    ensures r == AtLayer(refs, layer, k)
  {
    r := [];
    for i := 0 to |refs|
      invariant r == AtLayer(refs[..i], layer, k)
    {
      assert refs[..i + 1][..i] == refs[..i];
      if layer(refs[i]) == k {
        r := r + [refs[i]];
      }
    }
    assert refs[..|refs|] == refs;
  }

  method GreatestLayer(refs: seq<nat>, layer: nat -> nat) returns (m: nat)
    requires refs != []
    ensures forall i | 0 <= i < |refs| :: layer(refs[i]) <= m
  {
    m := layer(refs[0]);
    for i := 1 to |refs|
      invariant forall j | 0 <= j < i :: layer(refs[j]) <= m
    {
      if layer(refs[i]) >= m {
        m := layer(refs[i]);
      }
    }
  }

  ghost predicate AllInLayer(list: seq<nat>, layer: nat -> nat, k: nat) {
    list != [] && forall x | x in list :: layer(x) == k
  }

  ghost predicate Ascending(numbers: seq<nat>, n: nat) {
    (forall i, j | 0 <= i < j < |numbers| :: numbers[i] < numbers[j]) && forall i | 0 <= i < |numbers| :: numbers[i] < n
  }

  /** A list of layers: none is empty, and each holds streams of one layer number, ascending from list to list. */
  ghost predicate OneLayerEach(layers: seq<seq<nat>>, layer: nat -> nat, numbers: seq<nat>) {
    |numbers| == |layers| && forall l | 0 <= l < |layers| :: AllInLayer(layers[l], layer, numbers[l])
  }

  /** The lists of the first `n` layers. */
  ghost predicate Collected(refs: seq<nat>, layer: nat -> nat, layers: seq<seq<nat>>, numbers: seq<nat>, n: nat) {
    Flatten(layers) == UpToLayer(refs, layer, n) && OneLayerEach(layers, layer, numbers) && Ascending(numbers, n)
  }

  lemma EmptySkipped(refs: seq<nat>, layer: nat -> nat, layers: seq<seq<nat>>, numbers: seq<nat>, n: nat)
    requires Collected(refs, layer, layers, numbers, n) && AtLayer(refs, layer, n) == []
    ensures Collected(refs, layer, layers, numbers, n + 1)
  {
  }

  lemma LayerCollected(refs: seq<nat>, layer: nat -> nat, layers: seq<seq<nat>>, numbers: seq<nat>, n: nat)
    requires Collected(refs, layer, layers, numbers, n) && AtLayer(refs, layer, n) != []
    ensures Collected(refs, layer, layers + [AtLayer(refs, layer, n)], numbers + [n], n + 1)
  {
    var inLayer := AtLayer(refs, layer, n);
    AtLayerMembers(refs, layer, n);
    FlattenSnoc(layers, inLayer);
    assert AllInLayer(inLayer, layer, n);
  }

  /** The lists of all layers up to the greatest; empty layers are skipped. */
  method CollectLayers(refs: seq<nat>, layer: nat -> nat, n: nat) returns (layers: seq<seq<nat>>)
    ensures exists numbers :: Collected(refs, layer, layers, numbers, n)
  {
    layers := [];
    ghost var numbers: seq<nat> := [];
    for i := 0 to n
      invariant Collected(refs, layer, layers, numbers, i)
    {
      var inLayer := FilterLayer(refs, layer, i);
      if inLayer == [] {
        EmptySkipped(refs, layer, layers, numbers, i);
      } else {
        LayerCollected(refs, layer, layers, numbers, i);
        layers, numbers := layers + [inLayer], numbers + [i];
      }
    }
  }

  /** All references, layer by layer; within a layer the order is that of the declarations. */
  ghost predicate AllLayers(refs: seq<nat>, layer: nat -> nat, order: seq<nat>, n: nat) {
    (forall x: nat | x in refs :: layer(x) < n) && order == UpToLayer(refs, layer, n)
  }

  ghost predicate Layered(refs: seq<nat>, layer: nat -> nat, layers: seq<seq<nat>>, n: nat) {
    && AllLayers(refs, layer, Flatten(layers), n)
    && exists numbers :: OneLayerEach(layers, layer, numbers) && Ascending(numbers, n)
  }

  /** The layers of the event-driven outputs. */
  method GetEventDrivenLayers(refs: seq<nat>, layer: nat -> nat) returns (layers: seq<seq<nat>>)
    ensures exists n :: Layered(refs, layer, layers, n)
  {
    if refs == [] {
      layers := [];
      assert OneLayerEach(layers, layer, []) && Ascending([], 0);
      assert Layered(refs, layer, layers, 0);
    } else {
      var maxLayer := GreatestLayer(refs, layer);
      layers := CollectLayers(refs, layer, maxLayer + 1);
      forall x: nat | x in refs ensures layer(x) < maxLayer + 1 {
        var i :| 0 <= i < |refs| && refs[i] == x;
      }
      assert Layered(refs, layer, layers, maxLayer + 1);
    }
  }

  /** Every event-driven output is in the list of its layer, once, and the lists are in layer order. */
  lemma AllLayersMeaning(refs: seq<nat>, layer: nat -> nat, order: seq<nat>, n: nat)
    requires NoDuplicates(refs) && AllLayers(refs, layer, order, n)
    ensures NoDuplicates(order) && SortedByLayer(order, layer)
    ensures forall x: nat :: x in order <==> x in refs
  {
    UpToLayerSorted(refs, layer, n);
    UpToLayerDistinct(refs, layer, n);
  }

  lemma {:induction false} AtLayerMembers(refs: seq<nat>, layer: nat -> nat, k: nat)
    ensures forall i | 0 <= i < |AtLayer(refs, layer, k)| :: layer(AtLayer(refs, layer, k)[i]) == k
  {
    if refs != [] {
      AtLayerMembers(refs[..|refs| - 1], layer, k);
    }
  }

  lemma {:induction false} AtLayerDistinct(refs: seq<nat>, layer: nat -> nat, k: nat)
    requires NoDuplicates(refs)
    ensures NoDuplicates(AtLayer(refs, layer, k))
    ensures forall x: nat :: x in AtLayer(refs, layer, k) <==> x in refs && layer(x) == k
  {
    if refs != [] {
      var init, last := refs[..|refs| - 1], refs[|refs| - 1];
      assert refs == init + [last] && last !in init;
      AtLayerDistinct(init, layer, k);
    }
  }

  lemma {:induction false} UpToLayerDistinct(refs: seq<nat>, layer: nat -> nat, n: nat)
    requires NoDuplicates(refs)
    ensures NoDuplicates(UpToLayer(refs, layer, n))
    ensures forall x: nat :: x in UpToLayer(refs, layer, n) <==> x in refs && layer(x) < n
    decreases n
  {
    if n > 0 {
      var before, next := UpToLayer(refs, layer, n - 1), AtLayer(refs, layer, n - 1);
      UpToLayerDistinct(refs, layer, n - 1);
      AtLayerDistinct(refs, layer, n - 1);
      var both := before + next;
      forall j, k | 0 <= j < |before| <= k < |both| ensures both[j] != both[k] {
        assert both[j] in before && both[k] in next;
      }
      assert both[|before|..] == next;
      DistinctJoin(before, both);
    }
  }

  lemma {:induction false} UpToLayerSorted(refs: seq<nat>, layer: nat -> nat, n: nat)
    ensures SortedByLayer(UpToLayer(refs, layer, n), layer)
    ensures forall i | 0 <= i < |UpToLayer(refs, layer, n)| :: layer(UpToLayer(refs, layer, n)[i]) < n
  {
    if n > 0 {
      UpToLayerSorted(refs, layer, n - 1);
      AtLayerMembers(refs, layer, n - 1);
    }
  }
}
