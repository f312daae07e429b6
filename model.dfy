/**
 * The Model wrapper: loads a SavedModel or a FrozenGraph (chosen by the path's
 * suffix), discovers its input and output names, keeps the layer/node name tables
 * of a SavedModel, translates names around Session::Run, checks input and output
 * counts for the convenience calls, and builds the warm-up input.
 *
 * The runtime is abstract: what the loaders read from disk is passed in
 * (`graphOnDisk`, `bundleOnDisk`), and Session::Run of the loaded graph is the
 * function `run`.
 */
module TensorflowModel {
  import opened Types
  import opened MapUpdates
  import GraphUtils
  import SavedModelUtils
  import Utf8

  /** std::string::size() of a path: the number of bytes of its UTF-8 encoding. */
  function PathSize(path: string): nat
  {
    |Utf8.Encode(path)|
  }

  /** The format test of the loader: the last three bytes of the path are ".pb". */
  predicate EndsWithPb(path: string)
  {
    Utf8.EndsWith(Utf8.Encode(path), Utf8.Encode(".pb"))
  }

  /**
   * Because ".pb" is ASCII, the byte test agrees with the test on characters; and a
   * path has at least as many bytes as characters.
   */
  lemma EndsWithPbChars(path: string)
    ensures EndsWithPb(path) <==> |path| >= 3 && path[|path| - 3..] == ".pb"
    ensures |path| <= PathSize(path)
  {
    Utf8.AsciiSuffix(path, ".pb");
    Utf8.EncodeLength(path);
  }

  // ------------------------------------------------------------ warm-up shape

  function DummyDim(d: int): int
  {
    if d == -1 then 1 else d
  }

  /** Reference definition of the warm-up shape: each -1 (unknown size) replaced by 1. */
  function DummyShape(shape: seq<int>): seq<int>
    decreases |shape|
  {
    if shape == [] then []
    else DummyShape(shape[..|shape| - 1]) + [DummyDim(shape[|shape| - 1])]
  }

  /** The warm-up shape keeps the length and every dimension, except that -1 becomes 1. */
  lemma {:induction false} DummyShapeAt(shape: seq<int>, d: nat)
    requires d < |shape|
    ensures |DummyShape(shape)| == |shape|
    ensures DummyShape(shape)[d] == if shape[d] == -1 then 1 else shape[d]
    decreases |shape|
  {
    var n := |shape| - 1;
    if d < n {
      DummyShapeAt(shape[..n], d);
    } else if n > 0 {
      DummyShapeAt(shape[..n], 0);
    }
  }

  /** A shape whose sizes are all -1 or positive becomes a shape of positive sizes only. */
  lemma DummyShapePositive(shape: seq<int>)
    requires forall d :: 0 <= d < |shape| ==> shape[d] == -1 || shape[d] > 0
    ensures forall d :: 0 <= d < |DummyShape(shape)| ==> DummyShape(shape)[d] > 0
  {
    forall d | 0 <= d < |DummyShape(shape)|
      ensures DummyShape(shape)[d] > 0
    {
      if shape == [] {
        assert false;
      }
      DummyShapeAt(shape, 0);
      DummyShapeAt(shape, d);
    }
  }

  /** std::replace(begin, end, -1, 1) on the warm-up shape, in place. */
  method ReplaceUnknownDims(a: array<int>)
    modifies a
    ensures a[..] == DummyShape(old(a[..]))
  {
    ghost var before := a[..];
    for d := 0 to a.Length
      invariant forall e :: 0 <= e < d ==> a[e] == DummyDim(before[e])
      invariant forall e :: d <= e < a.Length ==> a[e] == before[e]
    {
      if a[d] == -1 {
        a[d] := 1;
      }
    }
    if a.Length > 0 {
      DummyShapeAt(before, 0);
    } else {
      assert before == [];
    }
    forall e | 0 <= e < a.Length
      ensures a[..][e] == DummyShape(before)[e]
    {
      DummyShapeAt(before, e);
    }
  }

  // ------------------------------------------------------------ name plumbing

  /** Each name replaced by its table entry. */
  function Translate(names: seq<string>, table: map<string, string>): seq<string>
    requires forall i :: 0 <= i < |names| ==> names[i] in table
  {
    seq(|names|, i requires 0 <= i < |names| => table[names[i]])
  }

  /** Each feed's name replaced by its table entry, the tensor kept. */
  function TranslateFeeds(feeds: seq<Feed>, table: map<string, string>): seq<Feed>
    requires forall i :: 0 <= i < |feeds| ==> feeds[i].name in table
  {
    seq(|feeds|, i requires 0 <= i < |feeds| => Feed(table[feeds[i].name], feeds[i].tensor))
  }

  /** names[k] paired with tensors[k]. */
  function Feeds(names: seq<string>, tensors: seq<Tensor>): seq<Feed>
    requires |names| == |tensors|
  {
    seq(|names|, k requires 0 <= k < |names| => Feed(names[k], tensors[k]))
  }

  /** The tensor stored under each name, or a default tensor where none is. */
  function LookupAll(outputs: map<string, Tensor>, names: seq<string>): seq<Tensor>
  {
    seq(|names|, k requires 0 <= k < |names| => if names[k] in outputs then outputs[names[k]] else EmptyTensor)
  }

  /**
   * The layer and node name tables filled for inputs then outputs are inverse to each
   * other on every recorded pair, once all layer names and all node names are distinct.
   */
  lemma NameTablesInverse(
    l2n: map<string, string>, n2l: map<string, string>,
    inLayers: seq<string>, inNodes: seq<string>, outLayers: seq<string>, outNodes: seq<string>, k: nat)
    requires |inLayers| == |inNodes| && |outLayers| == |outNodes|
    requires Distinct(inLayers + outLayers) && Distinct(inNodes + outNodes)
    requires k < |inLayers + outLayers|
    ensures var layer2node := Assign(Assign(l2n, inLayers, inNodes), outLayers, outNodes);
            var node2layer := Assign(Assign(n2l, inNodes, inLayers), outNodes, outLayers);
            var layers, nodes := inLayers + outLayers, inNodes + outNodes;
            layers[k] in layer2node && layer2node[layers[k]] == nodes[k] &&
            nodes[k] in node2layer && node2layer[nodes[k]] == layers[k]
  {
    AssignConcat(l2n, inLayers, inNodes, outLayers, outNodes);
    AssignConcat(n2l, inNodes, inLayers, outNodes, outLayers);
    AssignLastWrite(l2n, inLayers + outLayers, inNodes + outNodes, k);
    AssignLastWrite(n2l, inNodes + outNodes, inLayers + outLayers, k);
  }

  /**
   * Without distinct names the tables still hold the last write: each layer name maps
   * to the node name of its last occurrence, inputs before outputs.
   */
  lemma NameTablesLastWrite(
    l2n: map<string, string>, inLayers: seq<string>, inNodes: seq<string>,
    outLayers: seq<string>, outNodes: seq<string>, k: nat)
    requires |inLayers| == |inNodes| && |outLayers| == |outNodes|
    requires k < |inLayers + outLayers|
    requires forall j :: k < j < |inLayers + outLayers| ==> (inLayers + outLayers)[j] != (inLayers + outLayers)[k]
    ensures var layer2node := Assign(Assign(l2n, inLayers, inNodes), outLayers, outNodes);
            (inLayers + outLayers)[k] in layer2node &&
            layer2node[(inLayers + outLayers)[k]] == (inNodes + outNodes)[k]
  {
    AssignConcat(l2n, inLayers, inNodes, outLayers, outNodes);
    AssignLastWrite(l2n, inLayers + outLayers, inNodes + outNodes, k);
  }

  // ------------------------------------------------------------ operator[] defaults

  /**
   * `after` is `before` once `operator[]` has been applied to each of `names`: every
   * unknown name gains the entry "", and nothing else changes.
   */
  ghost predicate DefaultsInserted(before: map<string, string>, after: map<string, string>, names: seq<string>)
  {
    (forall x :: x in before ==> x in after && after[x] == before[x]) &&
    (forall x :: x in after ==> x in before || x in names) &&
    (forall x :: x in names && x !in before ==> x in after && after[x] == "")
  }

  /** One more `operator[]` lookup extends the inserted defaults by that name. */
  lemma DefaultsInsertedStep(before: map<string, string>, mid: map<string, string>, names: seq<string>, name: string)
    requires DefaultsInserted(before, mid, names)
    ensures DefaultsInserted(before, if name in mid then mid else mid[name := ""], names + [name])
  {
    var after := if name in mid then mid else mid[name := ""];
    forall x | x in after
      ensures x in before || x in names + [name]
    {
      if x != name {
        assert x in mid;
      }
    }
  }

  /** The table after the lookups is determined by the table before them and the names looked up. */
  lemma DefaultsInsertedUnique(before: map<string, string>, a1: map<string, string>, a2: map<string, string>, names: seq<string>)
    requires DefaultsInserted(before, a1, names) && DefaultsInserted(before, a2, names)
    ensures a1 == a2
  {
    assert a1.Keys == a2.Keys;
    forall x | x in a1
      ensures a1[x] == a2[x]
    {
      if x !in before {
        assert x in names;
      }
    }
  }

  /** Looking up only names the table already has leaves it unchanged. */
  lemma DefaultsInsertedKnown(before: map<string, string>, after: map<string, string>, names: seq<string>)
    requires DefaultsInserted(before, after, names)
    requires forall i :: 0 <= i < |names| ==> names[i] in before
    ensures after == before
  {
    DefaultsInsertedUnique(before, after, before, names);
  }

  // ------------------------------------------------------------ the wrapper

  class Model {
    var isSavedModel: bool
    var isFrozenGraph: bool
    /** The loaded FrozenGraph. */
    var graph: Graph
    /** The signatures of the loaded SavedModel. */
    var signatures: SignatureMap
    var nInputs: int
    var nOutputs: int
    /** Input names: layer names for a SavedModel, node names for a FrozenGraph. */
    var inputNames: seq<string>
    var outputNames: seq<string>
    var node2layer: map<string, string>
    var layer2node: map<string, string>

    /** Model(): an unloaded model, neither format set. The two counts are left indeterminate. */
    constructor ()
      ensures !isSavedModel && !isFrozenGraph
      ensures graph == [] && signatures == map[]
      ensures inputNames == [] && outputNames == []
      ensures node2layer == map[] && layer2node == map[]
    {
      isSavedModel, isFrozenGraph := false, false;
      graph, signatures := [], map[];
      inputNames, outputNames := [], [];
      node2layer, layer2node := map[], map[];
    }

    /** The counts agree with the name lists, as they do after name discovery. */
    ghost predicate CountsAgree()
      reads this
    {
      nInputs == |inputNames| && nOutputs == |outputNames|
    }

    /** For a SavedModel, every input and output name has an entry in layer2node. */
    ghost predicate NamesKnown()
      reads this
    {
      isSavedModel ==>
        (forall i :: 0 <= i < |inputNames| ==> inputNames[i] in layer2node) &&
        (forall i :: 0 <= i < |outputNames| ==> outputNames[i] in layer2node)
    }

    /** A SavedModel without the default signature: every signature query throws. */
    ghost predicate SignatureMissing()
      reads this
    {
      isSavedModel && DefaultSignature !in signatures
    }

    // ------------------------------------------------------------ loading

    /** The SavedModel's record of one load: its layer names and node names. */
    ghost predicate SavedModelNamesLoaded(sig: Signature, l2n0: map<string, string>, n2l0: map<string, string>)
      reads this
    {
      var inNodes := SavedModelUtils.SortedNames(sig.inputs);
      var outNodes := SavedModelUtils.SortedNames(sig.outputs);
      SavedModelUtils.LayersOf(inputNames, inNodes, SavedModelUtils.Merged(sig)) &&
      SavedModelUtils.LayersOf(outputNames, outNodes, SavedModelUtils.Merged(sig)) &&
      layer2node == Assign(Assign(l2n0, inputNames, inNodes), outputNames, outNodes) &&
      node2layer == Assign(Assign(n2l0, inNodes, inputNames), outNodes, outputNames)
    }

    /** The FrozenGraph branch of name discovery: placeholders in, unconsumed nodes out. */
    method DiscoverGraphNames()
      modifies this`inputNames, this`outputNames
      ensures inputNames == GraphUtils.PlaceholderNames(graph)
      ensures outputNames == GraphUtils.OutputNames(graph)
    {
      inputNames := GraphUtils.GetGraphInputNames(graph);
      outputNames := GraphUtils.GetGraphOutputNames(graph);
    }

    /**
     * The SavedModel branch of name discovery: the layer names are the inputs and
     * outputs, and each layer/node pair is written into both tables, inputs first.
     */
    method DiscoverSavedModelNames() returns (r: Outcome)
      modifies this`inputNames, this`outputNames, this`layer2node, this`node2layer
      ensures DefaultSignature !in signatures ==>
                r == Fail(SignatureNotFound(DefaultSignature)) &&
                inputNames == old(inputNames) && outputNames == old(outputNames) &&
                layer2node == old(layer2node) && node2layer == old(node2layer)
      ensures DefaultSignature in signatures ==>
                r == Pass && SavedModelNamesLoaded(signatures[DefaultSignature], old(layer2node), old(node2layer))
      ensures DefaultSignature in signatures ==>
                (forall i :: 0 <= i < |inputNames| ==> inputNames[i] in layer2node) &&
                (forall i :: 0 <= i < |outputNames| ==> outputNames[i] in layer2node)
    {
      var inLayers := SavedModelUtils.GetSavedModelInputNames(signatures, true, DefaultSignature);
      if inLayers.Failure? {
        return Fail(inLayers.error);
      }
      var outLayers := SavedModelUtils.GetSavedModelOutputNames(signatures, true, DefaultSignature);
      var inNodes := SavedModelUtils.GetSavedModelInputNames(signatures, false, DefaultSignature);
      var outNodes := SavedModelUtils.GetSavedModelOutputNames(signatures, false, DefaultSignature);
      inputNames, outputNames := inLayers.value, outLayers.value;
      var inputNodes, outputNodes := inNodes.value, outNodes.value;
      FillNameTables(inputNames, inputNodes);
      ghost var l2n1 := layer2node;
      FillNameTables(outputNames, outputNodes);
      forall i | 0 <= i < |inputNames|
        ensures inputNames[i] in layer2node
      {
        AssignKeys(old(layer2node), inputNames, inputNodes, inputNames[i]);
        AssignKeys(l2n1, outputNames, outputNodes, inputNames[i]);
      }
      forall i | 0 <= i < |outputNames|
        ensures outputNames[i] in layer2node
      {
        AssignKeys(l2n1, outputNames, outputNodes, outputNames[i]);
      }
      r := Pass;
    }

    /** node2layer[nodes[k]] = layers[k] and layer2node[layers[k]] = nodes[k], for k in order. */
    method FillNameTables(layers: seq<string>, nodes: seq<string>)
      requires |layers| == |nodes|
      modifies this`layer2node, this`node2layer
      ensures layer2node == Assign(old(layer2node), layers, nodes)
      ensures node2layer == Assign(old(node2layer), nodes, layers)
    {
      for k := 0 to |layers|
        invariant layer2node == Assign(old(layer2node), layers[..k], nodes[..k])
        invariant node2layer == Assign(old(node2layer), nodes[..k], layers[..k])
      {
        assert layers[..k + 1][..k] == layers[..k];
        assert nodes[..k + 1][..k] == nodes[..k];
        node2layer := node2layer[nodes[k] := layers[k]];
        layer2node := layer2node[layers[k] := nodes[k]];
      }
      assert layers[..|layers|] == layers && nodes[..|nodes|] == nodes;
    }

    /**
     * loadModel: picks the format from the path, takes the loaded graph or bundle,
     * discovers the input and output names, fills the SavedModel name tables (which
     * are not cleared first), sets the counts and optionally runs the warm-up call.
     */
    method LoadModel(modelPath: string, warmup: bool, graphOnDisk: Graph, bundleOnDisk: SignatureMap, run: Runner)
      returns (r: Outcome)
      requires SessionConforms(run)
      modifies this
      ensures PathSize(modelPath) < 3 ==> r == Fail(PathTooShort(PathSize(modelPath))) && unchanged(this)
      ensures PathSize(modelPath) >= 3 ==> isFrozenGraph == EndsWithPb(modelPath) && isSavedModel == !isFrozenGraph
      ensures PathSize(modelPath) >= 3 && EndsWithPb(modelPath) ==>
                graph == graphOnDisk && signatures == old(signatures) &&
                inputNames == GraphUtils.PlaceholderNames(graphOnDisk) &&
                outputNames == GraphUtils.OutputNames(graphOnDisk) &&
                layer2node == old(layer2node) && node2layer == old(node2layer) &&
                CountsAgree() && NamesKnown()
      ensures PathSize(modelPath) >= 3 && !EndsWithPb(modelPath) && DefaultSignature !in bundleOnDisk ==>
                r == Fail(SignatureNotFound(DefaultSignature)) &&
                signatures == bundleOnDisk && graph == old(graph) &&
                inputNames == old(inputNames) && outputNames == old(outputNames) &&
                nInputs == old(nInputs) && nOutputs == old(nOutputs) &&
                layer2node == old(layer2node) && node2layer == old(node2layer)
      ensures PathSize(modelPath) >= 3 && !EndsWithPb(modelPath) && DefaultSignature in bundleOnDisk ==>
                signatures == bundleOnDisk && graph == old(graph) &&
                SavedModelNamesLoaded(bundleOnDisk[DefaultSignature], old(layer2node), old(node2layer)) &&
                CountsAgree() && NamesKnown()
      ensures PathSize(modelPath) >= 3 && (EndsWithPb(modelPath) || DefaultSignature in bundleOnDisk) ==>
                (!warmup ==> r == Pass) &&
                (warmup ==> exists tensors :: IsWarmupInput(layer2node, tensors) &&
                                              r == OutcomeOf(PositionalCallResult(tensors, run)))
    {
      var bytes := Utf8.Encode(modelPath);
      if |bytes| < 3 {
        return Fail(PathTooShort(|bytes|));
      }
      Utf8.EncodeAscii(".pb");
      isFrozenGraph := bytes[|bytes| - 3..] == Utf8.Encode(".pb");
      isSavedModel := !isFrozenGraph;

      if isFrozenGraph {
        graph := graphOnDisk;
        DiscoverGraphNames();
      } else {
        signatures := bundleOnDisk;
        r := DiscoverSavedModelNames();
        if r.Fail? {
          return;
        }
      }
      nInputs := |inputNames|;
      nOutputs := |outputNames|;

      r := Pass;
      if warmup {
        r := DummyCall(run);
      }
    }

    // ------------------------------------------------------------ running

    /** The names of `feeds` and `requested` all have layer2node entries. */
    ghost predicate Known(feeds: seq<Feed>, requested: seq<string>)
      reads this
    {
      (forall i :: 0 <= i < |feeds| ==> feeds[i].name in layer2node) &&
      (forall i :: 0 <= i < |requested| ==> requested[i] in layer2node)
    }

    /** The feeds handed to Session::Run: translated to node names for a SavedModel. */
    function RunFeeds(feeds: seq<Feed>): seq<Feed>
      reads this
      requires isSavedModel ==> Known(feeds, [])
    {
      if isSavedModel then TranslateFeeds(feeds, layer2node) else feeds
    }

    /** The output names handed to Session::Run: translated to node names for a SavedModel. */
    function RunNames(requested: seq<string>): seq<string>
      reads this
      requires isSavedModel ==> Known([], requested)
    {
      if isSavedModel then Translate(requested, layer2node) else requested
    }

    /**
     * Reference definition of the named call: no format gives an empty map; otherwise
     * Session::Run on the translated names, a failed status becomes an error, and
     * output k is stored under requested[k].
     */
    ghost function NamedCallResult(feeds: seq<Feed>, requested: seq<string>, run: Runner): Result<map<string, Tensor>>
      reads this
      requires SessionConforms(run)
      requires isSavedModel ==> Known(feeds, requested)
    {
      if !isSavedModel && !isFrozenGraph then Success(map[])
      else
        match run(RunFeeds(feeds), RunNames(requested))
        case RunError(status) => Failure(RunFailed(status))
        case RunOk(tensors) => Success(Assign(map[], requested, tensors))
    }

    /** operator()(inputs, output_names): translates the names and runs the session. */
    method CallNamed(feeds: seq<Feed>, requested: seq<string>, run: Runner)
      returns (r: Result<map<string, Tensor>>)
      requires SessionConforms(run)
      requires isSavedModel ==> Known(feeds, requested)
      ensures r == NamedCallResult(feeds, requested, run)
    {
      var inputNodes: seq<Feed> := [];
      var outputNodeNames: seq<string> := [];
      if isSavedModel {
        for i := 0 to |feeds|
          invariant |inputNodes| == i
          invariant forall j :: 0 <= j < i ==> inputNodes[j] == Feed(layer2node[feeds[j].name], feeds[j].tensor)
        {
          inputNodes := inputNodes + [Feed(layer2node[feeds[i].name], feeds[i].tensor)];
        }
        for i := 0 to |requested|
          invariant |outputNodeNames| == i
          invariant forall j :: 0 <= j < i ==> outputNodeNames[j] == layer2node[requested[j]]
        {
          outputNodeNames := outputNodeNames + [layer2node[requested[i]]];
        }
      } else if isFrozenGraph {
        inputNodes := feeds;
        outputNodeNames := requested;
      } else {
        return Success(map[]);
      }
      assert inputNodes == RunFeeds(feeds) && outputNodeNames == RunNames(requested);

      var status := run(inputNodes, outputNodeNames);
      if status.RunError? {
        return Failure(RunFailed(status.status));
      }
      var outputTensors := status.tensors;
      var outputs: map<string, Tensor> := map[];
      for k := 0 to |outputTensors|
        invariant outputs == Assign(map[], requested[..k], outputTensors[..k])
      {
        assert requested[..k + 1][..k] == requested[..k];
        assert outputTensors[..k + 1][..k] == outputTensors[..k];
        outputs := outputs[requested[k] := outputTensors[k]];
      }
      assert requested[..|requested|] == requested && outputTensors[..|outputTensors|] == outputTensors;
      return Success(outputs);
    }

    /**
     * With distinct requested names and a format set, a successful named call stores
     * under requested[k] exactly the k-th tensor Session::Run returned for the
     * translated names, and nothing else.
     */
    lemma NamedCallStoresByName(feeds: seq<Feed>, requested: seq<string>, run: Runner, k: nat)
      requires SessionConforms(run)
      requires isSavedModel ==> Known(feeds, requested)
      requires isSavedModel || isFrozenGraph
      requires Distinct(requested) && k < |requested|
      requires NamedCallResult(feeds, requested, run).Success?
      ensures run(RunFeeds(feeds), RunNames(requested)).RunOk?
      ensures var outputs := NamedCallResult(feeds, requested, run).value;
              requested[k] in outputs &&
              outputs[requested[k]] == run(RunFeeds(feeds), RunNames(requested)).tensors[k] &&
              forall x :: x in outputs ==> x in requested
    {
      var status := run(RunFeeds(feeds), RunNames(requested));
      AssignLastWrite(map[], requested, status.tensors, k);
      forall x | x in Assign(map[], requested, status.tensors)
        ensures x in requested
      {
        AssignKeys(map[], requested, status.tensors, x);
      }
    }

    /** Reference definition of the positional call. */
    ghost function PositionalCallResult(tensors: seq<Tensor>, run: Runner): Result<seq<Tensor>>
      reads this
      requires SessionConforms(run) && CountsAgree() && NamesKnown()
    {
      if |tensors| != nInputs then Failure(InputCountMismatch(nInputs, |tensors|))
      else
        var feeds := Feeds(inputNames, tensors);
        assert isSavedModel ==> Known(feeds, outputNames);
        match NamedCallResult(feeds, outputNames, run)
        case Failure(e) => Failure(e)
        case Success(outputs) => Success(LookupAll(outputs, outputNames))
    }

    /** operator()(input_tensors): feeds the tensors in input-name order, returns outputs in output-name order. */
    method CallPositional(tensors: seq<Tensor>, run: Runner) returns (r: Result<seq<Tensor>>)
      requires SessionConforms(run) && CountsAgree() && NamesKnown()
      ensures r == PositionalCallResult(tensors, run)
    {
      if |tensors| != nInputs {
        return Failure(InputCountMismatch(nInputs, |tensors|));
      }
      var inputs: seq<Feed> := [];
      for k := 0 to nInputs
        invariant |inputs| == k
        invariant forall j :: 0 <= j < k ==> inputs[j] == Feed(inputNames[j], tensors[j])
      {
        inputs := inputs + [Feed(inputNames[k], tensors[k])];
      }
      assert inputs == Feeds(inputNames, tensors);
      var outputs := CallNamed(inputs, outputNames, run);
      if outputs.Failure? {
        return Failure(outputs.error);
      }
      var outputTensors: seq<Tensor> := [];
      for k := 0 to |outputNames|
        invariant |outputTensors| == k
        invariant forall j :: 0 <= j < k ==> outputTensors[j] == LookupAll(outputs.value, outputNames)[j]
      {
        var name := outputNames[k];
        outputTensors := outputTensors + [if name in outputs.value then outputs.value[name] else EmptyTensor];
      }
      assert outputTensors == LookupAll(outputs.value, outputNames);
      return Success(outputTensors);
    }

    /** A tensor-count mismatch fails with both counts, whatever Session::Run would do: it is never called. */
    lemma PositionalCountMismatch(tensors: seq<Tensor>, run1: Runner, run2: Runner)
      requires SessionConforms(run1) && SessionConforms(run2) && CountsAgree() && NamesKnown()
      requires |tensors| != nInputs
      ensures PositionalCallResult(tensors, run1) == PositionalCallResult(tensors, run2)
      ensures PositionalCallResult(tensors, run1) == Failure(InputCountMismatch(|inputNames|, |tensors|))
    {
    }

    /**
     * With distinct output names and a format set, a successful positional call hands
     * inputNames[j] with tensors[j] to the session (translated for a SavedModel) and
     * returns the session's k-th tensor as output k.
     */
    lemma PositionalCallPairs(tensors: seq<Tensor>, run: Runner, k: nat)
      requires SessionConforms(run) && CountsAgree() && NamesKnown()
      requires isSavedModel || isFrozenGraph
      requires Distinct(outputNames) && k < |outputNames|
      requires PositionalCallResult(tensors, run).Success?
      ensures |tensors| == |inputNames|
      ensures var feeds := Feeds(inputNames, tensors);
              isSavedModel ==> Known(feeds, outputNames)
      ensures var feeds := Feeds(inputNames, tensors);
              run(RunFeeds(feeds), RunNames(outputNames)).RunOk? &&
              PositionalCallResult(tensors, run).value[k] == run(RunFeeds(feeds), RunNames(outputNames)).tensors[k]
    {
      var feeds := Feeds(inputNames, tensors);
      NamedCallStoresByName(feeds, outputNames, run, k);
    }

    /** Reference definition of the single-tensor call. */
    ghost function SingleCallResult(tensor: Tensor, run: Runner): Result<Tensor>
      reads this
      requires SessionConforms(run) && CountsAgree() && NamesKnown()
    {
      if nInputs != 1 || nOutputs != 1 then Failure(SingleInputOutputOnly(nInputs, nOutputs))
      else
        var feeds := [Feed(inputNames[0], tensor)];
        var requested := [outputNames[0]];
        match NamedCallResult(feeds, requested, run)
        case Failure(e) => Failure(e)
        case Success(outputs) => Success(if requested[0] in outputs then outputs[requested[0]] else EmptyTensor)
    }

    /** operator()(input_tensor): only for single-input/single-output models. */
    method CallSingle(tensor: Tensor, run: Runner) returns (r: Result<Tensor>)
      requires SessionConforms(run) && CountsAgree() && NamesKnown()
      ensures r == SingleCallResult(tensor, run)
    {
      if nInputs != 1 || nOutputs != 1 {
        return Failure(SingleInputOutputOnly(nInputs, nOutputs));
      }
      var outputs := CallNamed([Feed(inputNames[0], tensor)], [outputNames[0]], run);
      if outputs.Failure? {
        return Failure(outputs.error);
      }
      var name := outputNames[0];
      return Success(if name in outputs.value then outputs.value[name] else EmptyTensor);
    }

    /**
     * The single-tensor call fails with both counts unless there is exactly one input
     * and one output; otherwise, with a format set, it returns the session's one tensor.
     */
    lemma SingleCallCounts(tensor: Tensor, run: Runner)
      requires SessionConforms(run) && CountsAgree() && NamesKnown()
      ensures |inputNames| != 1 || |outputNames| != 1 ==>
                SingleCallResult(tensor, run) == Failure(SingleInputOutputOnly(|inputNames|, |outputNames|))
      ensures |inputNames| == 1 && |outputNames| == 1 && (isSavedModel || isFrozenGraph) &&
              SingleCallResult(tensor, run).Success? ==>
                var feeds := [Feed(inputNames[0], tensor)];
                run(RunFeeds(feeds), RunNames(outputNames)).RunOk? &&
                SingleCallResult(tensor, run).value == run(RunFeeds(feeds), RunNames(outputNames)).tensors[0]
    {
      if |inputNames| == 1 && |outputNames| == 1 && (isSavedModel || isFrozenGraph) &&
         SingleCallResult(tensor, run).Success? {
        var feeds := [Feed(inputNames[0], tensor)];
        assert [outputNames[0]] == outputNames;
        NamedCallStoresByName(feeds, outputNames, run, 0);
      }
    }

    // ------------------------------------------------------------ shapes and types

    /**
     * `shape` is an acceptable answer of getNodeShape(name) once `table` is layer2node:
     * for a SavedModel the shape of the node table[name], for a FrozenGraph the shape
     * of the first node called `name`, and empty when no format is set.
     */
    ghost predicate IsNodeShape(table: map<string, string>, name: string, shape: seq<int>)
      reads this`isSavedModel, this`isFrozenGraph, this`graph, this`signatures
    {
      if isSavedModel then
        DefaultSignature in signatures && name in table &&
        SavedModelUtils.IsShapeOf(shape, SavedModelUtils.Merged(signatures[DefaultSignature]), table[name])
      else if isFrozenGraph then shape == GraphUtils.GraphNodeShape(graph, name)
      else shape == []
    }

    /** As IsNodeShape, for getNodeType; DT_INVALID when no format is set. */
    ghost predicate IsNodeType(table: map<string, string>, name: string, dtype: DataType)
      reads this`isSavedModel, this`isFrozenGraph, this`graph, this`signatures
    {
      if isSavedModel then
        DefaultSignature in signatures && name in table &&
        SavedModelUtils.IsTypeOf(dtype, SavedModelUtils.Merged(signatures[DefaultSignature]), table[name])
      else if isFrozenGraph then dtype == GraphUtils.GraphNodeType(graph, name)
      else dtype == Invalid
    }

    /**
     * getNodeShape: for a SavedModel, looks the name up with layer2node's operator[],
     * which inserts name -> "" when the name is unknown.
     */
    method GetNodeShape(name: string) returns (r: Result<seq<int>>)
      modifies this`layer2node
      ensures layer2node == if isSavedModel && name !in old(layer2node) then old(layer2node)[name := ""] else old(layer2node)
      ensures SignatureMissing() ==> r == Failure(SignatureNotFound(DefaultSignature))
      ensures !SignatureMissing() ==> r.Success? && IsNodeShape(layer2node, name, r.value)
    {
      if isSavedModel {
        if name !in layer2node {
          layer2node := layer2node[name := ""];
        }
        r := SavedModelUtils.GetSavedModelNodeShape(signatures, layer2node[name], DefaultSignature);
      } else if isFrozenGraph {
        var shape := GraphUtils.GetGraphNodeShape(graph, name);
        r := Success(shape);
      } else {
        r := Success([]);
      }
    }

    /** getNodeType: as getNodeShape, for the dtype. */
    method GetNodeType(name: string) returns (r: Result<DataType>)
      modifies this`layer2node
      ensures layer2node == if isSavedModel && name !in old(layer2node) then old(layer2node)[name := ""] else old(layer2node)
      ensures SignatureMissing() ==> r == Failure(SignatureNotFound(DefaultSignature))
      ensures !SignatureMissing() ==> r.Success? && IsNodeType(layer2node, name, r.value)
    {
      if isSavedModel {
        if name !in layer2node {
          layer2node := layer2node[name := ""];
        }
        r := SavedModelUtils.GetSavedModelNodeType(signatures, layer2node[name], DefaultSignature);
      } else if isFrozenGraph {
        var dtype := GraphUtils.GetGraphNodeType(graph, name);
        r := Success(dtype);
      } else {
        r := Success(Invalid);
      }
    }

    /** getInputShape: only for single-input models. */
    method GetInputShape() returns (r: Result<seq<int>>)
      requires CountsAgree()
      modifies this`layer2node
      ensures nInputs != 1 ==> r == Failure(SingleInputOnly(nInputs)) && layer2node == old(layer2node)
      ensures nInputs == 1 && SignatureMissing() ==> r == Failure(SignatureNotFound(DefaultSignature))
      ensures nInputs == 1 && !SignatureMissing() ==> r.Success? && IsNodeShape(layer2node, inputNames[0], r.value)
      ensures nInputs == 1 ==> layer2node == if isSavedModel && inputNames[0] !in old(layer2node) then old(layer2node)[inputNames[0] := ""] else old(layer2node)
    {
      if nInputs != 1 {
        return Failure(SingleInputOnly(nInputs));
      }
      r := GetNodeShape(inputNames[0]);
    }

    /** getOutputShape: only for single-output models. */
    method GetOutputShape() returns (r: Result<seq<int>>)
      requires CountsAgree()
      modifies this`layer2node
      ensures nOutputs != 1 ==> r == Failure(SingleOutputOnly(nOutputs)) && layer2node == old(layer2node)
      ensures nOutputs == 1 && SignatureMissing() ==> r == Failure(SignatureNotFound(DefaultSignature))
      ensures nOutputs == 1 && !SignatureMissing() ==> r.Success? && IsNodeShape(layer2node, outputNames[0], r.value)
      ensures nOutputs == 1 ==> layer2node == if isSavedModel && outputNames[0] !in old(layer2node) then old(layer2node)[outputNames[0] := ""] else old(layer2node)
    {
      if nOutputs != 1 {
        return Failure(SingleOutputOnly(nOutputs));
      }
      r := GetNodeShape(outputNames[0]);
    }

    /** getInputType: only for single-input models. */
    method GetInputType() returns (r: Result<DataType>)
      requires CountsAgree()
      modifies this`layer2node
      ensures nInputs != 1 ==> r == Failure(SingleInputOnly(nInputs)) && layer2node == old(layer2node)
      ensures nInputs == 1 && SignatureMissing() ==> r == Failure(SignatureNotFound(DefaultSignature))
      ensures nInputs == 1 && !SignatureMissing() ==> r.Success? && IsNodeType(layer2node, inputNames[0], r.value)
      ensures nInputs == 1 ==> layer2node == if isSavedModel && inputNames[0] !in old(layer2node) then old(layer2node)[inputNames[0] := ""] else old(layer2node)
    {
      if nInputs != 1 {
        return Failure(SingleInputOnly(nInputs));
      }
      r := GetNodeType(inputNames[0]);
    }

    /** getOutputType: only for single-output models. */
    method GetOutputType() returns (r: Result<DataType>)
      requires CountsAgree()
      modifies this`layer2node
      ensures nOutputs != 1 ==> r == Failure(SingleOutputOnly(nOutputs)) && layer2node == old(layer2node)
      ensures nOutputs == 1 && SignatureMissing() ==> r == Failure(SignatureNotFound(DefaultSignature))
      ensures nOutputs == 1 && !SignatureMissing() ==> r.Success? && IsNodeType(layer2node, outputNames[0], r.value)
      ensures nOutputs == 1 ==> layer2node == if isSavedModel && outputNames[0] !in old(layer2node) then old(layer2node)[outputNames[0] := ""] else old(layer2node)
    {
      if nOutputs != 1 {
        return Failure(SingleOutputOnly(nOutputs));
      }
      r := GetNodeType(outputNames[0]);
    }

    /** The shapes of the given names, one getNodeShape per name in order (getInputShapes, getOutputShapes). */
    method GetNodeShapes(names: seq<string>) returns (r: Result<seq<seq<int>>>)
      modifies this`layer2node
      ensures isSavedModel && !(SignatureMissing() && |names| > 0) ==> DefaultsInserted(old(layer2node), layer2node, names)
      ensures SignatureMissing() && |names| > 0 ==> DefaultsInserted(old(layer2node), layer2node, names[..1])
      ensures isSavedModel && (forall i :: 0 <= i < |names| ==> names[i] in old(layer2node)) ==> layer2node == old(layer2node)
      ensures !isSavedModel ==> layer2node == old(layer2node)
      ensures SignatureMissing() && |names| > 0 ==> r == Failure(SignatureNotFound(DefaultSignature))
      ensures !(SignatureMissing() && |names| > 0) ==>
                r.Success? && |r.value| == |names| &&
                forall k :: 0 <= k < |names| ==> IsNodeShape(layer2node, names[k], r.value[k])
    {
      var shapes: seq<seq<int>> := [];
      for k := 0 to |names|
        invariant isSavedModel ==> DefaultsInserted(old(layer2node), layer2node, names[..k])
        invariant !isSavedModel ==> layer2node == old(layer2node)
        invariant SignatureMissing() ==> k == 0
        invariant |shapes| == k
        invariant forall j :: 0 <= j < k ==> IsNodeShape(layer2node, names[j], shapes[j])
      {
        assert names[..k + 1] == names[..k] + [names[k]];
        if isSavedModel {
          DefaultsInsertedStep(old(layer2node), layer2node, names[..k], names[k]);
        }
        var s := GetNodeShape(names[k]);
        if s.Failure? {
          return Failure(s.error);
        }
        shapes := shapes + [s.value];
      }
      assert names[..|names|] == names;
      if isSavedModel && forall i :: 0 <= i < |names| ==> names[i] in old(layer2node) {
        DefaultsInsertedKnown(old(layer2node), layer2node, names);
      }
      return Success(shapes);
    }

    /** The types of the given names, one getNodeType per name in order (getInputTypes, getOutputTypes). */
    method GetNodeTypes(names: seq<string>) returns (r: Result<seq<DataType>>)
      modifies this`layer2node
      ensures isSavedModel && !(SignatureMissing() && |names| > 0) ==> DefaultsInserted(old(layer2node), layer2node, names)
      ensures SignatureMissing() && |names| > 0 ==> DefaultsInserted(old(layer2node), layer2node, names[..1])
      ensures isSavedModel && (forall i :: 0 <= i < |names| ==> names[i] in old(layer2node)) ==> layer2node == old(layer2node)
      ensures !isSavedModel ==> layer2node == old(layer2node)
      ensures SignatureMissing() && |names| > 0 ==> r == Failure(SignatureNotFound(DefaultSignature))
      ensures !(SignatureMissing() && |names| > 0) ==>
                r.Success? && |r.value| == |names| &&
                forall k :: 0 <= k < |names| ==> IsNodeType(layer2node, names[k], r.value[k])
    {
      var types: seq<DataType> := [];
      for k := 0 to |names|
        invariant isSavedModel ==> DefaultsInserted(old(layer2node), layer2node, names[..k])
        invariant !isSavedModel ==> layer2node == old(layer2node)
        invariant SignatureMissing() ==> k == 0
        invariant |types| == k
        invariant forall j :: 0 <= j < k ==> IsNodeType(layer2node, names[j], types[j])
      {
        assert names[..k + 1] == names[..k] + [names[k]];
        if isSavedModel {
          DefaultsInsertedStep(old(layer2node), layer2node, names[..k], names[k]);
        }
        var t := GetNodeType(names[k]);
        if t.Failure? {
          return Failure(t.error);
        }
        types := types + [t.value];
      }
      assert names[..|names|] == names;
      if isSavedModel && forall i :: 0 <= i < |names| ==> names[i] in old(layer2node) {
        DefaultsInsertedKnown(old(layer2node), layer2node, names);
      }
      return Success(types);
    }

    /** getInputShapes: the shapes of all inputs, in input order. */
    method GetInputShapes() returns (r: Result<seq<seq<int>>>)
      modifies this`layer2node
      ensures isSavedModel && !(SignatureMissing() && |inputNames| > 0) ==> DefaultsInserted(old(layer2node), layer2node, inputNames)
      ensures SignatureMissing() && |inputNames| > 0 ==> DefaultsInserted(old(layer2node), layer2node, inputNames[..1])
      ensures !isSavedModel ==> layer2node == old(layer2node)
      ensures old(NamesKnown()) ==> NamesKnown()
      ensures old(NamesKnown()) ==> layer2node == old(layer2node)
      ensures SignatureMissing() && |inputNames| > 0 ==> r == Failure(SignatureNotFound(DefaultSignature))
      ensures !(SignatureMissing() && |inputNames| > 0) ==>
                r.Success? && |r.value| == |inputNames| &&
                forall k :: 0 <= k < |inputNames| ==> IsNodeShape(layer2node, inputNames[k], r.value[k])
    {
      r := GetNodeShapes(inputNames);
    }

    /** getOutputShapes: the shapes of all outputs, in output order. */
    method GetOutputShapes() returns (r: Result<seq<seq<int>>>)
      modifies this`layer2node
      ensures isSavedModel && !(SignatureMissing() && |outputNames| > 0) ==> DefaultsInserted(old(layer2node), layer2node, outputNames)
      ensures SignatureMissing() && |outputNames| > 0 ==> DefaultsInserted(old(layer2node), layer2node, outputNames[..1])
      ensures !isSavedModel ==> layer2node == old(layer2node)
      ensures old(NamesKnown()) ==> NamesKnown()
      ensures old(NamesKnown()) ==> layer2node == old(layer2node)
      ensures SignatureMissing() && |outputNames| > 0 ==> r == Failure(SignatureNotFound(DefaultSignature))
      ensures !(SignatureMissing() && |outputNames| > 0) ==>
                r.Success? && |r.value| == |outputNames| &&
                forall k :: 0 <= k < |outputNames| ==> IsNodeShape(layer2node, outputNames[k], r.value[k])
    {
      r := GetNodeShapes(outputNames);
    }

    /** getInputTypes: the types of all inputs, in input order. */
    method GetInputTypes() returns (r: Result<seq<DataType>>)
      modifies this`layer2node
      ensures isSavedModel && !(SignatureMissing() && |inputNames| > 0) ==> DefaultsInserted(old(layer2node), layer2node, inputNames)
      ensures SignatureMissing() && |inputNames| > 0 ==> DefaultsInserted(old(layer2node), layer2node, inputNames[..1])
      ensures !isSavedModel ==> layer2node == old(layer2node)
      ensures old(NamesKnown()) ==> NamesKnown()
      ensures old(NamesKnown()) ==> layer2node == old(layer2node)
      ensures SignatureMissing() && |inputNames| > 0 ==> r == Failure(SignatureNotFound(DefaultSignature))
      ensures !(SignatureMissing() && |inputNames| > 0) ==>
                r.Success? && |r.value| == |inputNames| &&
                forall k :: 0 <= k < |inputNames| ==> IsNodeType(layer2node, inputNames[k], r.value[k])
    {
      r := GetNodeTypes(inputNames);
    }

    /** getOutputTypes: the types of all outputs, in output order. */
    method GetOutputTypes() returns (r: Result<seq<DataType>>)
      modifies this`layer2node
      ensures isSavedModel && !(SignatureMissing() && |outputNames| > 0) ==> DefaultsInserted(old(layer2node), layer2node, outputNames)
      ensures SignatureMissing() && |outputNames| > 0 ==> DefaultsInserted(old(layer2node), layer2node, outputNames[..1])
      ensures !isSavedModel ==> layer2node == old(layer2node)
      ensures old(NamesKnown()) ==> NamesKnown()
      ensures old(NamesKnown()) ==> layer2node == old(layer2node)
      ensures SignatureMissing() && |outputNames| > 0 ==> r == Failure(SignatureNotFound(DefaultSignature))
      ensures !(SignatureMissing() && |outputNames| > 0) ==>
                r.Success? && |r.value| == |outputNames| &&
                forall k :: 0 <= k < |outputNames| ==> IsNodeType(layer2node, outputNames[k], r.value[k])
    {
      r := GetNodeTypes(outputNames);
    }

    // ------------------------------------------------------------ warm-up

    /**
     * `tensors` is a warm-up input under `table`: one tensor per input, of the input's
     * type, shaped like the input with every -1 replaced by 1.
     */
    ghost predicate IsWarmupInput(table: map<string, string>, tensors: seq<Tensor>)
      reads this
    {
      |tensors| == |inputNames| &&
      forall k :: 0 <= k < |tensors| ==>
        IsNodeType(table, inputNames[k], tensors[k].dtype) &&
        exists shape :: IsNodeShape(table, inputNames[k], shape) && tensors[k].shape == DummyShape(shape)
    }

    /**
     * dummyCall: queries the input shapes and types, builds one warm-up tensor per
     * input and runs the positional call on them (its errors propagate).
     */
    method DummyCall(run: Runner) returns (r: Outcome)
      requires SessionConforms(run) && CountsAgree() && NamesKnown()
      modifies this`layer2node
      ensures layer2node == old(layer2node)
      ensures SignatureMissing() && |inputNames| > 0 ==> r == Fail(SignatureNotFound(DefaultSignature))
      ensures !(SignatureMissing() && |inputNames| > 0) ==>
                exists tensors :: IsWarmupInput(layer2node, tensors) && r == OutcomeOf(PositionalCallResult(tensors, run))
    {
      var inputShapes := GetInputShapes();
      if inputShapes.Failure? {
        return Fail(inputShapes.error);
      }
      // The types query fails only where the shapes query already has.
      var inputTypes := GetInputTypes();
      var shapes, types := inputShapes.value, inputTypes.value;
      var inputDummies := WarmupTensors(shapes, types);
      assert IsWarmupInput(layer2node, inputDummies) by {
        forall k | 0 <= k < |inputDummies|
          ensures IsNodeShape(layer2node, inputNames[k], shapes[k]) && inputDummies[k].shape == DummyShape(shapes[k])
        {
        }
      }
      var outputDummies := CallPositional(inputDummies, run);
      r := OutcomeOf(outputDummies);
    }
  }

  /** The warm-up tensors: tensor k has dtype types[k] and the warm-up shape of shapes[k]. */
  method WarmupTensors(shapes: seq<seq<int>>, types: seq<DataType>) returns (dummies: seq<Tensor>)
    requires |shapes| == |types|
    ensures |dummies| == |shapes|
    ensures forall k :: 0 <= k < |shapes| ==> dummies[k] == Tensor(types[k], DummyShape(shapes[k]))
  {
    dummies := [];
    for k := 0 to |shapes|
      invariant |dummies| == k
      invariant forall j :: 0 <= j < k ==> dummies[j] == Tensor(types[j], DummyShape(shapes[j]))
    {
      var dummyShape := new int[|shapes[k]|](d requires 0 <= d < |shapes[k]| => shapes[k][d]);
      assert dummyShape[..] == shapes[k];
      ReplaceUnknownDims(dummyShape);
      dummies := dummies + [Tensor(types[k], dummyShape[..])];
    }
  }

  /** Whether a call threw: its error, or Pass. */
  function OutcomeOf<T>(r: Result<T>): Outcome
  {
    if r.Success? then Pass else Fail(r.error)
  }
}
