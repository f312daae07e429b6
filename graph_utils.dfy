/**
 * Node discovery and node introspection on a frozen graph: which nodes are the
 * inputs, which are the outputs, and the shape and type of a named node. Each
 * query is a loop over the graph's nodes, proved against a reference function.
 */
module GraphUtils {
  import opened Types

  const PlaceholderOp: string := "Placeholder"

  /** Op types that are never reported as graph outputs. */
  const UnlikelyOutputOps: set<string> := {"Const", "Assign", "NoOp", "Placeholder", "Assert"}

  /** The graph invariant that no two nodes share a name (not checked by the loaders). */
  predicate UniqueNames(g: Graph)
  {
    forall i, j :: 0 <= i < j < |g| ==> g[i].name != g[j].name
  }

  // ---------------------------------------------------------------- inputs

  /** Reference definition of input discovery: the names of the Placeholder nodes, in graph order. */
  function PlaceholderNames(g: Graph): seq<string>
    decreases |g|
  {
    if g == [] then []
    else
      var n := g[|g| - 1];
      PlaceholderNames(g[..|g| - 1]) + (if n.op == PlaceholderOp then [n.name] else [])
  }

  /** getGraphInputNames: collects the name of every Placeholder node. */
  method GetGraphInputNames(g: Graph) returns (inputNodes: seq<string>)
    ensures inputNodes == PlaceholderNames(g)
  {
    inputNodes := [];
    for i := 0 to |g|
      invariant inputNodes == PlaceholderNames(g[..i])
    {
      assert g[..i + 1][..i] == g[..i];
      if g[i].op == PlaceholderOp {
        inputNodes := inputNodes + [g[i].name];
      }
    }
    assert g[..|g|] == g;
  }

  /** A name is discovered as an input exactly when some node of that name is a Placeholder. */
  lemma {:induction false} PlaceholderNamesMembership(g: Graph, x: string)
    ensures x in PlaceholderNames(g) <==>
            exists i :: 0 <= i < |g| && g[i].op == PlaceholderOp && g[i].name == x
    decreases |g|
  {
    if g != [] {
      var init := g[..|g| - 1];
      PlaceholderNamesMembership(init, x);
      assert forall i :: 0 <= i < |init| ==> init[i] == g[i];
    }
  }

  /** Without any Placeholder node, no input is discovered, and conversely. */
  lemma PlaceholderNamesEmpty(g: Graph)
    ensures PlaceholderNames(g) == [] <==> forall i :: 0 <= i < |g| ==> g[i].op != PlaceholderOp
  {
    if PlaceholderNames(g) != [] {
      PlaceholderNamesMembership(g, PlaceholderNames(g)[0]);
    }
    forall i | 0 <= i < |g| && g[i].op == PlaceholderOp
      ensures PlaceholderNames(g) != []
    {
      PlaceholderNamesMembership(g, g[i].name);
    }
  }

  /** Input discovery keeps graph order: the inputs of a concatenation are the inputs of the parts, in turn. */
  lemma {:induction false} PlaceholderNamesAppend(g1: Graph, g2: Graph)
    ensures PlaceholderNames(g1 + g2) == PlaceholderNames(g1) + PlaceholderNames(g2)
    decreases |g2|
  {
    if g2 == [] {
      assert g1 + g2 == g1;
    } else {
      var n := |g2| - 1;
      PlaceholderNamesAppend(g1, g2[..n]);
      assert (g1 + g2)[..|g1 + g2| - 1] == g1 + g2[..n];
    }
  }

  // --------------------------------------------------------------- outputs

  /** Every name that some node lists as an input, node by node and in order. */
  function ReferencedNames(g: Graph): seq<string>
    decreases |g|
  {
    if g == [] then [] else ReferencedNames(g[..|g| - 1]) + g[|g| - 1].inputs
  }

  predicate IsOutputCandidate(n: Node, referenced: seq<string>)
  {
    n.name !in referenced && n.op !in UnlikelyOutputOps
  }

  /** The names of the nodes that are output candidates against `referenced`, in graph order. */
  function CandidateNames(g: Graph, referenced: seq<string>): seq<string>
    decreases |g|
  {
    if g == [] then []
    else
      var n := g[|g| - 1];
      CandidateNames(g[..|g| - 1], referenced) + (if IsOutputCandidate(n, referenced) then [n.name] else [])
  }

  /** Reference definition of output discovery. */
  function OutputNames(g: Graph): seq<string>
  {
    CandidateNames(g, ReferencedNames(g))
  }

  /**
   * getGraphOutputNames: first collects every input reference of every node, then
   * keeps each node that is never referenced and whose op is not in the denylist.
   */
  method GetGraphOutputNames(g: Graph) returns (outputNodes: seq<string>)
    ensures outputNodes == OutputNames(g)
  {
    var nodesWithOutputs: seq<string> := [];
    for i := 0 to |g|
      invariant nodesWithOutputs == ReferencedNames(g[..i])
    {
      assert g[..i + 1][..i] == g[..i];
      var inputs := g[i].inputs;
      for j := 0 to |inputs|
        invariant nodesWithOutputs == ReferencedNames(g[..i]) + inputs[..j]
      {
        assert inputs[..j + 1] == inputs[..j] + [inputs[j]];
        nodesWithOutputs := nodesWithOutputs + [inputs[j]];
      }
      assert inputs[..|inputs|] == inputs;
    }
    assert g[..|g|] == g;
    outputNodes := [];
    for i := 0 to |g|
      invariant outputNodes == CandidateNames(g[..i], nodesWithOutputs)
    {
      assert g[..i + 1][..i] == g[..i];
      if g[i].name !in nodesWithOutputs && g[i].op !in UnlikelyOutputOps {
        outputNodes := outputNodes + [g[i].name];
      }
    }
    assert g[..|g|] == g;
  }

  lemma {:induction false} ReferencedNamesMembership(g: Graph, x: string)
    ensures x in ReferencedNames(g) <==> exists i :: 0 <= i < |g| && x in g[i].inputs
    decreases |g|
  {
    if g != [] {
      var init := g[..|g| - 1];
      ReferencedNamesMembership(init, x);
      assert forall i :: 0 <= i < |init| ==> init[i] == g[i];
    }
  }

  lemma {:induction false} CandidateNamesMembership(g: Graph, referenced: seq<string>, x: string)
    ensures x in CandidateNames(g, referenced) <==>
            exists i :: 0 <= i < |g| && IsOutputCandidate(g[i], referenced) && g[i].name == x
    decreases |g|
  {
    if g != [] {
      var init := g[..|g| - 1];
      CandidateNamesMembership(init, referenced, x);
      assert forall i :: 0 <= i < |init| ==> init[i] == g[i];
    }
  }

  /**
   * A name is discovered as an output exactly when some node of that name has an op
   * outside the denylist and no node lists the name as an input.
   */
  lemma OutputNamesMembership(g: Graph, x: string)
    ensures x in OutputNames(g) <==>
            (exists i :: 0 <= i < |g| && g[i].name == x && g[i].op !in UnlikelyOutputOps) &&
            (forall j :: 0 <= j < |g| ==> x !in g[j].inputs)
  {
    CandidateNamesMembership(g, ReferencedNames(g), x);
    ReferencedNamesMembership(g, x);
  }

  /** No discovered output is listed as an input of any node. */
  lemma OutputsAreUnreferenced(g: Graph, x: string, j: int)
    requires x in OutputNames(g) && 0 <= j < |g|
    ensures x !in g[j].inputs
  {
    OutputNamesMembership(g, x);
  }

  /** With unique node names, no node whose op is in the denylist is reported as an output. */
  lemma DenylistedAreNotOutputs(g: Graph, i: int)
    requires UniqueNames(g) && 0 <= i < |g|
    requires g[i].op in UnlikelyOutputOps
    ensures g[i].name !in OutputNames(g)
  {
    OutputNamesMembership(g, g[i].name);
  }

  /** With unique node names, a discovered input is never also a discovered output. */
  lemma InputsAreNotOutputs(g: Graph, x: string)
    requires UniqueNames(g)
    requires x in PlaceholderNames(g)
    ensures x !in OutputNames(g)
  {
    PlaceholderNamesMembership(g, x);
    var i :| 0 <= i < |g| && g[i].op == PlaceholderOp && g[i].name == x;
    DenylistedAreNotOutputs(g, i);
  }

  /** Output discovery keeps graph order: candidates of a concatenation are those of the parts, in turn. */
  lemma {:induction false} CandidateNamesAppend(g1: Graph, g2: Graph, referenced: seq<string>)
    ensures CandidateNames(g1 + g2, referenced) == CandidateNames(g1, referenced) + CandidateNames(g2, referenced)
    decreases |g2|
  {
    if g2 == [] {
      assert g1 + g2 == g1;
    } else {
      var n := |g2| - 1;
      CandidateNamesAppend(g1, g2[..n], referenced);
      assert (g1 + g2)[..|g1 + g2| - 1] == g1 + g2[..n];
    }
  }

  // ---------------------------------------------------- shape and type lookup

  /** The first node named `name`, if any. */
  function FirstNamed(g: Graph, name: string): (r: Option<Node>)
    ensures r.None? <==> forall i :: 0 <= i < |g| ==> g[i].name != name
    ensures r.Some? ==> r.value.name == name && r.value in g
  {
    if g == [] then None
    else if g[0].name == name then Some(g[0])
    else FirstNamed(g[1..], name)
  }

  /** The node at index `i` is found when it is the first one with its name. */
  lemma {:induction false} FirstNamedAt(g: Graph, name: string, i: nat)
    requires i < |g| && g[i].name == name
    requires forall j :: 0 <= j < i ==> g[j].name != name
    ensures FirstNamed(g, name) == Some(g[i])
  {
    if i > 0 {
      FirstNamedAt(g[1..], name, i - 1);
    }
  }

  /** Reference definition of the shape query: the first match's dimensions, else empty. */
  function GraphNodeShape(g: Graph, name: string): seq<int>
  {
    match FirstNamed(g, name)
    case None => []
    case Some(n) => if n.shape.None? then [] else ToInt32Dims(n.shape.value)
  }

  /** Reference definition of the type query: the first match's dtype, else DT_INVALID. */
  function GraphNodeType(g: Graph, name: string): DataType
  {
    match FirstNamed(g, name)
    case None => Invalid
    case Some(n) => if n.dtype.None? then Invalid else n.dtype.value
  }

  /** getGraphNodeShape: scans for the first node of that name and copies its dimensions. */
  method GetGraphNodeShape(g: Graph, nodeName: string) returns (nodeShape: seq<int>)
    ensures nodeShape == GraphNodeShape(g, nodeName)
  {
    nodeShape := [];
    for i := 0 to |g|
      invariant forall j :: 0 <= j < i ==> g[j].name != nodeName
    {
      if g[i].name == nodeName {
        FirstNamedAt(g, nodeName, i);
        if g[i].shape.None? {
          return;
        }
        var dims := g[i].shape.value;
        for d := 0 to |dims|
          invariant |nodeShape| == d
          invariant forall e :: 0 <= e < d ==> nodeShape[e] == ToInt32(dims[e])
        {
          nodeShape := nodeShape + [ToInt32(dims[d])];
        }
        return;
      }
    }
  }

  /** getGraphNodeType: scans for the first node of that name and reads its dtype. */
  method GetGraphNodeType(g: Graph, nodeName: string) returns (dtype: DataType)
    ensures dtype == GraphNodeType(g, nodeName)
  {
    dtype := Invalid;
    for i := 0 to |g|
      invariant forall j :: 0 <= j < i ==> g[j].name != nodeName
    {
      if g[i].name == nodeName {
        FirstNamedAt(g, nodeName, i);
        if g[i].dtype.None? {
          return;
        }
        dtype := g[i].dtype.value;
        return;
      }
    }
  }

  /**
   * The shape query answers with the first node of that name: its dimensions, unchanged
   * and in order (including -1) when they fit an int, and empty when it has no shape.
   */
  lemma GraphNodeShapeOfFirst(g: Graph, name: string, i: nat)
    requires i < |g| && g[i].name == name
    requires forall j :: 0 <= j < i ==> g[j].name != name
    ensures g[i].shape.None? ==> GraphNodeShape(g, name) == []
    ensures g[i].shape.Some? && (forall d :: 0 <= d < |g[i].shape.value| ==> InInt32Range(g[i].shape.value[d])) ==>
            GraphNodeShape(g, name) == g[i].shape.value
  {
    FirstNamedAt(g, name, i);
  }

  /** The shape query is empty when no node has that name. */
  lemma GraphNodeShapeMissing(g: Graph, name: string)
    requires forall i :: 0 <= i < |g| ==> g[i].name != name
    ensures GraphNodeShape(g, name) == []
  {
  }

  /** The type query answers with the first node of that name: its dtype, or DT_INVALID when it has none. */
  lemma GraphNodeTypeOfFirst(g: Graph, name: string, i: nat)
    requires i < |g| && g[i].name == name
    requires forall j :: 0 <= j < i ==> g[j].name != name
    ensures GraphNodeType(g, name) == if g[i].dtype.None? then Invalid else g[i].dtype.value
  {
    FirstNamedAt(g, name, i);
  }

  /** The type query is DT_INVALID when no node has that name. */
  lemma GraphNodeTypeMissing(g: Graph, name: string)
    requires forall i :: 0 <= i < |g| ==> g[i].name != name
    ensures GraphNodeType(g, name) == Invalid
  {
  }
}
