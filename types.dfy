/**
 * Plain-data view of the runtime structures that the name-resolution layer of
 * tensorflow_cpp reads: graph nodes (NodeDef), signatures (SignatureDef with its
 * TensorInfo entries), element types (DataType) and tensors, plus the errors the
 * layer raises as exceptions.
 */
module Types {

  /** Element types of a tensor. `Invalid` is DT_INVALID, the value-initialised "unset" tag. */
  datatype DataType =
    | Invalid | Float | Double | Int32 | UInt8 | Int16 | Int8 | String
    | Complex64 | Int64 | Bool | QInt8 | QUInt8 | QInt32 | BFloat16
    | QInt16 | QUInt16 | UInt16 | Complex128 | Half | Resource | Variant
    | UInt32 | UInt64

  datatype Option<T> = None | Some(value: T)

  /**
   * One graph node. `shape` and `dtype` stand for the optional "shape" and "dtype"
   * attributes; dimension sizes are the 64-bit values stored in the protocol buffer.
   */
  datatype Node = Node(
    name: string,
    op: string,
    inputs: seq<string>,
    shape: Option<seq<int>>,
    dtype: Option<DataType>)

  /** A frozen graph: its nodes in declaration order. */
  type Graph = seq<Node>

  /** What a signature records about one input or output: node name, shape and type. */
  datatype TensorInfo = TensorInfo(name: string, shape: seq<int>, dtype: DataType)

  /** A signature: layer name to TensorInfo, for the inputs and for the outputs. */
  datatype Signature = Signature(inputs: map<string, TensorInfo>, outputs: map<string, TensorInfo>)

  /** The signatures of a SavedModel bundle, by signature name. */
  type SignatureMap = map<string, Signature>

  const DefaultSignature: string := "serving_default"

  /**
   * A tensor as the name plumbing sees it: element type and shape. The buffer
   * contents are not modelled.
   */
  datatype Tensor = Tensor(dtype: DataType, shape: seq<int>)

  /** A default-constructed tensor: one-dimensional, zero elements, float. */
  const EmptyTensor: Tensor := Tensor(Float, [0])

  /** A (node or layer name, tensor) pair handed to or built for the session. */
  datatype Feed = Feed(name: string, tensor: Tensor)

  /** The exceptions the layer throws, with the data their messages report. */
  datatype Error =
    | SignatureNotFound(signature: string)            // std::map::at on a missing signature
    | PathTooShort(length: nat)                       // std::string::substr past the end
    | SingleInputOutputOnly(nInputs: int, nOutputs: int)
    | InputCountMismatch(nInputs: int, given: int)
    | SingleInputOnly(nInputs: int)
    | SingleOutputOnly(nOutputs: int)
    | RunFailed(status: string)

  datatype Result<T> = Success(value: T) | Failure(error: Error)

  datatype Outcome = Pass | Fail(error: Error)

  /** What Session::Run reports: the output tensors, or a failed status. */
  datatype RunStatus = RunOk(tensors: seq<Tensor>) | RunError(status: string)

  /** Session::Run of the loaded graph: (input feeds, output node names) to status. */
  type Runner = (seq<Feed>, seq<string>) -> RunStatus

  /** Session::Run returns one tensor per requested output when it succeeds. */
  ghost predicate SessionConforms(run: Runner)
  {
    forall feeds, names :: run(feeds, names).RunOk? ==> |run(feeds, names).tensors| == |names|
  }

  predicate InInt32Range(x: int)
  {
    -0x8000_0000 <= x < 0x8000_0000
  }

  /** The conversion of a 64-bit dimension size to `int` when it is pushed into a std::vector<int>. */
  function ToInt32(x: int): (r: int)
    ensures InInt32Range(r)
    ensures (x - r) % 0x1_0000_0000 == 0
    ensures InInt32Range(x) ==> r == x
  {
    (x + 0x8000_0000) % 0x1_0000_0000 - 0x8000_0000
  }

  /** A dimension list as copied into a std::vector<int>, element by element. */
  function ToInt32Dims(dims: seq<int>): (r: seq<int>)
    ensures |r| == |dims|
    ensures forall d :: 0 <= d < |dims| ==> InInt32Range(r[d])
    ensures forall d :: 0 <= d < |dims| ==> (dims[d] - r[d]) % 0x1_0000_0000 == 0
    ensures forall d :: 0 <= d < |dims| && InInt32Range(dims[d]) ==> r[d] == dims[d]
    ensures (forall d :: 0 <= d < |dims| ==> InInt32Range(dims[d])) ==> r == dims
  {
    seq(|dims|, d requires 0 <= d < |dims| => ToInt32(dims[d]))
  }
}
