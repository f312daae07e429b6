/**
 * Queries on the signatures of a SavedModel bundle: translation between layer names
 * (the keys of a signature's input and output maps) and node names (the names in
 * their TensorInfo entries), the sorted input and output names, and the shape and
 * type of a node.
 *
 * A signature's maps are protocol-buffer maps whose iteration order is unspecified.
 * The loops below visit the keys in an order the model leaves open (`:|`), and a
 * lookup that stops at the first match is specified to find SOME matching entry.
 */
module SavedModelUtils {
  import opened Types
  import opened StringOrder

  /** The entries of one map of a signature: layer name to TensorInfo. */
  type Entries = map<string, TensorInfo>

  /**
   * The inputs with the outputs inserted: insertion never overwrites, so on a layer
   * name that is both an input and an output the input entry is kept.
   */
  function Merged(sig: Signature): (nodes: Entries)
    ensures nodes.Keys == sig.inputs.Keys + sig.outputs.Keys
    ensures forall k :: k in sig.inputs ==> nodes[k] == sig.inputs[k]
    ensures forall k :: k in sig.outputs && k !in sig.inputs ==> nodes[k] == sig.outputs[k]
  {
    sig.outputs + sig.inputs
  }

  /** Some entry carries node name `node`. */
  ghost predicate HasNode(nodes: Entries, node: string)
  {
    exists k :: k in nodes && nodes[k].name == node
  }

  /** No two entries carry the same node name. */
  ghost predicate UniqueNodeNames(nodes: Entries)
  {
    forall k1, k2 :: k1 in nodes && k2 in nodes && k1 != k2 ==> nodes[k1].name != nodes[k2].name
  }

  /** The node name of the entry keyed by `layer`, or "" when there is none. */
  function NodeOfLayer(nodes: Entries, layer: string): string
  {
    if layer in nodes then nodes[layer].name else ""
  }

  /** `layer` is an acceptable answer for the layer of `node`: the key of an entry with that node name, or "" if none has it. */
  ghost predicate IsLayerOf(layer: string, nodes: Entries, node: string)
  {
    if HasNode(nodes, node) then layer in nodes && nodes[layer].name == node else layer == ""
  }

  /** `shape` is an acceptable answer for the shape of `node`: the dimensions of an entry with that node name, or empty. */
  ghost predicate IsShapeOf(shape: seq<int>, nodes: Entries, node: string)
  {
    if HasNode(nodes, node)
    then exists k :: k in nodes && nodes[k].name == node && shape == ToInt32Dims(nodes[k].shape)
    else shape == []
  }

  /** `dtype` is an acceptable answer for the type of `node`: the dtype of an entry with that node name, or DT_INVALID. */
  ghost predicate IsTypeOf(dtype: DataType, nodes: Entries, node: string)
  {
    if HasNode(nodes, node)
    then exists k :: k in nodes && nodes[k].name == node && dtype == nodes[k].dtype
    else dtype == Invalid
  }

  /** `layers[k]` is an acceptable layer name for `nodeNames[k]`, for every k. */
  ghost predicate LayersOf(layers: seq<string>, nodeNames: seq<string>, nodes: Entries)
  {
    |layers| == |nodeNames| &&
    forall k :: 0 <= k < |nodeNames| ==> IsLayerOf(layers[k], nodes, nodeNames[k])
  }

  // ------------------------------------------------------- names of the entries

  /** The node names of the entries, one per entry, in an order chosen once and left open. */
  ghost function InfoNames(entries: Entries): seq<string>
    decreases |entries|
  {
    if entries == map[] then []
    else
      var k :| k in entries;
      assert (entries - {k}).Keys == entries.Keys - {k};
      [entries[k].name] + InfoNames(entries - {k})
  }

  /** The node names of the entries, with multiplicity. */
  ghost function NameBag(entries: Entries): multiset<string>
  {
    multiset(InfoNames(entries))
  }

  /** Taking any one entry out removes exactly its node name from the bag, whichever entry it is. */
  lemma {:induction false} NameBagRemove(entries: Entries, k0: string)
    requires k0 in entries
    ensures NameBag(entries) == NameBag(entries - {k0}) + multiset{entries[k0].name}
    decreases |entries|
  {
    var k :| k in entries && InfoNames(entries) == [entries[k].name] + InfoNames(entries - {k});
    assert NameBag(entries) == multiset{entries[k].name} + NameBag(entries - {k});
    if k != k0 {
      var rest := entries - {k};
      var both := entries - {k0} - {k};
      assert rest.Keys == entries.Keys - {k};
      assert (entries - {k0}).Keys == entries.Keys - {k0};
      assert rest - {k0} == both;
      NameBagRemove(rest, k0);
      assert NameBag(rest) == NameBag(both) + multiset{entries[k0].name};
      NameBagRemove(entries - {k0}, k);
      assert NameBag(entries - {k0}) == NameBag(both) + multiset{entries[k].name};
    }
  }

  /** The bag holds one name per entry, and holds a name exactly when some entry carries it. */
  lemma {:induction false} NameBagContents(entries: Entries, n: string)
    ensures |NameBag(entries)| == |entries|
    ensures n in NameBag(entries) <==> HasNode(entries, n)
    decreases |entries|
  {
    if entries != map[] {
      var k :| k in entries;
      var rest := entries - {k};
      assert rest.Keys == entries.Keys - {k};
      NameBagRemove(entries, k);
      NameBagContents(rest, n);
      if HasNode(entries, n) && entries[k].name != n {
        var k' :| k' in entries && entries[k'].name == n;
        assert k' in rest;
      }
    }
  }

  /** The node names of the entries, sorted: what the sorted name queries return. */
  ghost function SortedNames(entries: Entries): seq<string>
  {
    Sort(InfoNames(entries))
  }

  /**
   * The sorted names are in ascending order, are a permutation of the entries' node
   * names, one per entry, and contain a name exactly when some entry carries it.
   */
  lemma SortedNamesProperties(entries: Entries, n: string)
    ensures Sorted(SortedNames(entries))
    ensures multiset(SortedNames(entries)) == NameBag(entries)
    ensures |SortedNames(entries)| == |entries|
    ensures n in SortedNames(entries) <==> HasNode(entries, n)
  {
    SortCorrect(InfoNames(entries));
    NameBagContents(entries, n);
    assert |SortedNames(entries)| == |multiset(SortedNames(entries))|;
    assert n in SortedNames(entries) <==> n in multiset(SortedNames(entries));
  }

  /** Any sorted permutation of the entries' node names is the sorted names. */
  lemma SortedNamesUnique(entries: Entries, s: seq<string>)
    requires Sorted(s) && multiset(s) == NameBag(entries)
    ensures s == SortedNames(entries)
  {
    SortCorrect(InfoNames(entries));
    SortedUnique(s, SortedNames(entries));
  }

  /** Collects the node name of every entry, visiting the entries in an unspecified order. */
  method CollectInfoNames(entries: Entries) returns (names: seq<string>)
    ensures multiset(names) == NameBag(entries)
  {
    names := [];
    var rest := entries;
    while rest != map[]
      invariant multiset(names) + NameBag(rest) == NameBag(entries)
      decreases |rest|
    {
      var key :| key in rest;
      NameBagRemove(rest, key);
      assert (rest - {key}).Keys == rest.Keys - {key};
      names := names + [rest[key].name];
      rest := rest - {key};
    }
  }

  /** Collects the node names of the entries and sorts them in place. */
  method SortedInfoNames(entries: Entries) returns (names: seq<string>)
    ensures names == SortedNames(entries)
  {
    var collected := CollectInfoNames(entries);
    var a := new string[|collected|](k requires 0 <= k < |collected| => collected[k]);
    assert a[..] == collected;
    SortInPlace(a);
    names := a[..];
    SortedNamesUnique(entries, names);
  }

  // ------------------------------------------------------- name translation

  /** getSavedModelNodeByLayerName: the node name of the merged entry keyed by `layerName`, or "". */
  method GetSavedModelNodeByLayerName(signatures: SignatureMap, layerName: string, signature: string)
    returns (r: Result<string>)
    ensures signature !in signatures ==> r == Failure(SignatureNotFound(signature))
    ensures signature in signatures ==> r == Success(NodeOfLayer(Merged(signatures[signature]), layerName))
  {
    if signature !in signatures {
      return Failure(SignatureNotFound(signature));
    }
    var nodes := Merged(signatures[signature]);
    var nodeName := "";
    var unvisited := nodes.Keys;
    while unvisited != {}
      invariant unvisited <= nodes.Keys
      invariant layerName in nodes ==> layerName in unvisited
      invariant nodeName == ""
      decreases unvisited
    {
      var key :| key in unvisited;
      if key == layerName {
        nodeName := nodes[key].name;
        break;
      }
      unvisited := unvisited - {key};
    }
    return Success(nodeName);
  }

  /** getSavedModelLayerByNodeName: the key of some merged entry with node name `nodeName`, or "". */
  method GetSavedModelLayerByNodeName(signatures: SignatureMap, nodeName: string, signature: string)
    returns (r: Result<string>)
    ensures signature !in signatures ==> r == Failure(SignatureNotFound(signature))
    ensures signature in signatures ==> r.Success? && IsLayerOf(r.value, Merged(signatures[signature]), nodeName)
  {
    if signature !in signatures {
      return Failure(SignatureNotFound(signature));
    }
    var nodes := Merged(signatures[signature]);
    var layerName := "";
    var unvisited := nodes.Keys;
    while unvisited != {}
      invariant unvisited <= nodes.Keys
      invariant forall k :: k in nodes && k !in unvisited ==> nodes[k].name != nodeName
      invariant layerName == ""
      decreases unvisited
    {
      var key :| key in unvisited;
      if nodes[key].name == nodeName {
        layerName := key;
        break;
      }
      unvisited := unvisited - {key};
    }
    return Success(layerName);
  }

  /** Without two entries sharing a node name, the layer found for a node name is determined. */
  lemma LayerOfUniqueNode(nodes: Entries, node: string, l1: string, l2: string)
    requires UniqueNodeNames(nodes)
    requires IsLayerOf(l1, nodes, node) && IsLayerOf(l2, nodes, node)
    ensures l1 == l2
  {
  }

  /** Layer to node, then node to layer: with unique node names, this returns the layer. */
  lemma LayerOfNodeOfLayer(nodes: Entries, layer: string, l: string)
    requires UniqueNodeNames(nodes) && layer in nodes
    requires IsLayerOf(l, nodes, NodeOfLayer(nodes, layer))
    ensures l == layer
  {
  }

  /** Node to layer, then layer to node: this returns the node whenever some entry carries it. */
  lemma NodeOfLayerOfNode(nodes: Entries, node: string, l: string)
    requires HasNode(nodes, node)
    requires IsLayerOf(l, nodes, node)
    ensures NodeOfLayer(nodes, l) == node
  {
  }

  // ------------------------------------------------------- sorted name lists

  /** Translates each node name to a layer name, in order. */
  method LayerNamesOf(signatures: SignatureMap, nodeNames: seq<string>, signature: string)
    returns (names: seq<string>)
    requires signature in signatures
    ensures LayersOf(names, nodeNames, Merged(signatures[signature]))
  {
    names := [];
    for i := 0 to |nodeNames|
      invariant LayersOf(names, nodeNames[..i], Merged(signatures[signature]))
    {
      var layer := GetSavedModelLayerByNodeName(signatures, nodeNames[i], signature);
      names := names + [layer.value];
    }
    assert nodeNames[..|nodeNames|] == nodeNames;
  }

  /**
   * getSavedModelInputNames: the node names of the inputs, sorted; with `layerNames`,
   * the layer name of each of those sorted node names instead, in the same order.
   */
  method GetSavedModelInputNames(signatures: SignatureMap, layerNames: bool, signature: string)
    returns (r: Result<seq<string>>)
    ensures signature !in signatures ==> r == Failure(SignatureNotFound(signature))
    ensures signature in signatures && !layerNames ==>
            r == Success(SortedNames(signatures[signature].inputs))
    ensures signature in signatures && layerNames ==>
            r.Success? &&
            LayersOf(r.value, SortedNames(signatures[signature].inputs), Merged(signatures[signature]))
  {
    if signature !in signatures {
      return Failure(SignatureNotFound(signature));
    }
    var names := SortedInfoNames(signatures[signature].inputs);
    if layerNames {
      names := LayerNamesOf(signatures, names, signature);
    }
    return Success(names);
  }

  /** getSavedModelOutputNames: as the input names, over the outputs. */
  method GetSavedModelOutputNames(signatures: SignatureMap, layerNames: bool, signature: string)
    returns (r: Result<seq<string>>)
    ensures signature !in signatures ==> r == Failure(SignatureNotFound(signature))
    ensures signature in signatures && !layerNames ==>
            r == Success(SortedNames(signatures[signature].outputs))
    ensures signature in signatures && layerNames ==>
            r.Success? &&
            LayersOf(r.value, SortedNames(signatures[signature].outputs), Merged(signatures[signature]))
  {
    if signature !in signatures {
      return Failure(SignatureNotFound(signature));
    }
    var names := SortedInfoNames(signatures[signature].outputs);
    if layerNames {
      names := LayerNamesOf(signatures, names, signature);
    }
    return Success(names);
  }

  // ------------------------------------------------------- shape and type lookup

  /** getSavedModelNodeShape: the dimensions of some merged entry with that node name, or empty. */
  method GetSavedModelNodeShape(signatures: SignatureMap, nodeName: string, signature: string)
    returns (r: Result<seq<int>>)
    ensures signature !in signatures ==> r == Failure(SignatureNotFound(signature))
    ensures signature in signatures ==> r.Success? && IsShapeOf(r.value, Merged(signatures[signature]), nodeName)
  {
    if signature !in signatures {
      return Failure(SignatureNotFound(signature));
    }
    var nodes := Merged(signatures[signature]);
    var nodeShape: seq<int> := [];
    var unvisited := nodes.Keys;
    while unvisited != {}
      invariant unvisited <= nodes.Keys
      invariant forall k :: k in nodes && k !in unvisited ==> nodes[k].name != nodeName
      invariant nodeShape == []
      decreases unvisited
    {
      var key :| key in unvisited;
      if nodes[key].name == nodeName {
        var dims := nodes[key].shape;
        for d := 0 to |dims|
          invariant |nodeShape| == d
          invariant forall e :: 0 <= e < d ==> nodeShape[e] == ToInt32(dims[e])
        {
          nodeShape := nodeShape + [ToInt32(dims[d])];
        }
        assert nodeShape == ToInt32Dims(nodes[key].shape);
        break;
      }
      unvisited := unvisited - {key};
    }
    return Success(nodeShape);
  }

  /** getSavedModelNodeType: the dtype of some merged entry with that node name, or DT_INVALID. */
  method GetSavedModelNodeType(signatures: SignatureMap, nodeName: string, signature: string)
    returns (r: Result<DataType>)
    ensures signature !in signatures ==> r == Failure(SignatureNotFound(signature))
    ensures signature in signatures ==> r.Success? && IsTypeOf(r.value, Merged(signatures[signature]), nodeName)
  {
    if signature !in signatures {
      return Failure(SignatureNotFound(signature));
    }
    var nodes := Merged(signatures[signature]);
    var dtype := Invalid;
    var unvisited := nodes.Keys;
    while unvisited != {}
      invariant unvisited <= nodes.Keys
      invariant forall k :: k in nodes && k !in unvisited ==> nodes[k].name != nodeName
      invariant dtype == Invalid
      decreases unvisited
    {
      var key :| key in unvisited;
      if nodes[key].name == nodeName {
        dtype := nodes[key].dtype;
        break;
      }
      unvisited := unvisited - {key};
    }
    return Success(dtype);
  }

  /**
   * Without two entries sharing a node name the shape found is determined: it is that
   * entry's dimensions, unchanged when they fit an int.
   */
  lemma ShapeOfUniqueNode(nodes: Entries, k: string, shape: seq<int>)
    requires UniqueNodeNames(nodes) && k in nodes
    requires IsShapeOf(shape, nodes, nodes[k].name)
    ensures shape == ToInt32Dims(nodes[k].shape)
    ensures (forall d :: 0 <= d < |nodes[k].shape| ==> InInt32Range(nodes[k].shape[d])) ==> shape == nodes[k].shape
  {
  }

  /** Without two entries sharing a node name the type found is that entry's dtype. */
  lemma TypeOfUniqueNode(nodes: Entries, k: string, dtype: DataType)
    requires UniqueNodeNames(nodes) && k in nodes
    requires IsTypeOf(dtype, nodes, nodes[k].name)
    ensures dtype == nodes[k].dtype
  {
  }
}
