# tensorflow_cpp name resolution, in Dafny

tensorflow_cpp is a header-only C++ wrapper around the TensorFlow runtime. A `Model` loads either a
SavedModel directory or a FrozenGraph `.pb` file. It finds the model's inputs and outputs on its own
and lets callers run the model by layer name, by position, or with a single tensor. It can also
report the shape and dtype of any input or output.

This project models the bookkeeping that sits on top of the runtime and proves properties of it:

- `graph_utils.dfy` (module `GraphUtils`) covers FrozenGraph node discovery:
  - inputs are the `Placeholder` nodes;
  - outputs are the nodes that no node consumes and whose op is not one of five "unlikely output" ops;
  - a shape or dtype comes from the first node with a given name, and falls back to an empty shape or
    `DT_INVALID`.
- `saved_model_utils.dfy` (module `SavedModelUtils`) covers SavedModel signature queries:
  - layer name ↔ node name translation over the merged input and output entries of a signature;
  - the sorted input and output names, given as node names or as layer names;
  - shape and dtype lookup by node name.
- `model.dfy` (module `TensorflowModel`, class `Model`) covers the wrapper:
  - the format is chosen from the path suffix;
  - the `layer2node` / `node2layer` tables are built, and the input and output counts are set;
  - the three call operators translate names around `Session::Run` and check counts;
  - the shape and type getters include the layer-table insert that `operator[]` performs;
  - the warm-up shape replaces each `-1` with `1`.
- Supporting modules:
  - `types.dfy` (`Types`) holds the protobuf records as plain data, the error kinds, and the
    int64 → int narrowing of dimensions;
  - `string_order.dfy` (`StringOrder`) holds the `std::string` order, a reference sort, and the
    in-place sort behind `std::sort`;
  - `map_updates.dfy` (`MapUpdates`) models a run of `m[key] = value` writes;
  - `utf8.dfy` (`Utf8`) holds the UTF-8 bytes of a string, which `std::string::size()` and
    `substr` count.

Modelling choices:

- **Runtime inputs.** What the loaders read from disk is passed in as a parameter: `graphOnDisk` or
  `bundleOnDisk`. `Session::Run` is the function parameter `run`. `SessionConforms` states what
  `Session::Run` guarantees when it succeeds: one output tensor per fetched name, in the order
  the names were given.
- **Exceptions.** Each exception the modelled operations throw is an `Error` inside a `Result` or `Outcome`:
  - a missing signature (`std::map::at`);
  - a path shorter than three bytes (`substr`);
  - the count checks of the convenience calls and single getters;
  - a failed run status.
- **Unspecified map order.** Protocol-buffer map iteration order is unspecified. So the loops over a
  signature visit keys in an order left open (`:|`). A lookup that stops at its first match is
  specified to return *some* matching entry.
- **Dimension narrowing.** Dimensions are int64 in the protobufs but are pushed into
  `std::vector<int>`. The model narrows each one modulo 2^32 (`ToInt32`). The contract of
  `ToInt32Dims` shows that each in-range dimension, `-1` included, is copied unchanged, whatever
  the other dimensions are.

## Model

| member | source | states |
|---|---|---|
| Types.ToInt32 | include/tensorflow_cpp/graph_utils.h:177 | pushing an int64 size into `vector<int>` gives a value in int range that is congruent to it modulo 2^32, and equal to it when it already fits |
| Types.ToInt32Dims | include/tensorflow_cpp/saved_model_utils.h:288-289 | copying a dimension list keeps its length; each element lands in int range, congruent to its size modulo 2^32 and equal to it when it fits; the list is unchanged when all sizes fit |
| StringOrder.LeReflexive | include/tensorflow_cpp/saved_model_utils.h:209 | the `std::string` order used by `std::sort` is reflexive |
| StringOrder.LeTotal | include/tensorflow_cpp/saved_model_utils.h:209 | any two names are comparable |
| StringOrder.LeAntisymmetric | include/tensorflow_cpp/saved_model_utils.h:209 | names that are ordered both ways are equal |
| StringOrder.LeTransitive | include/tensorflow_cpp/saved_model_utils.h:209 | the order is transitive |
| StringOrder.SortedUnique | include/tensorflow_cpp/saved_model_utils.h:209 | two ascending sequences with the same elements (as multisets) are equal, so the sorted name list does not depend on the order the names were collected in |
| StringOrder.InsertCorrect | include/tensorflow_cpp/saved_model_utils.h:209 | inserting a name into an ascending sequence keeps it ascending and adds exactly that name |
| StringOrder.SortCorrect | include/tensorflow_cpp/saved_model_utils.h:209 | the reference sort returns an ascending permutation of its input |
| StringOrder.SortInPlace | include/tensorflow_cpp/saved_model_utils.h:209 | sorting the name vector in place leaves it ascending and a permutation of its old contents |
| MapUpdates.AssignKeys | include/tensorflow_cpp/model.h:121-128 | after the table-filling writes, a name is a key exactly when it was a key before or was written |
| MapUpdates.AssignUntouched | include/tensorflow_cpp/model.h:121-128 | an entry that no write touches keeps its old value, because the tables are not cleared before loading |
| MapUpdates.AssignLastWrite | include/tensorflow_cpp/model.h:121-128 | the last write to a key decides its entry |
| MapUpdates.AssignConcat | include/tensorflow_cpp/model.h:121-128 | the input loop followed by the output loop is one run of writes over inputs then outputs |
| GraphUtils.GetGraphInputNames | include/tensorflow_cpp/graph_utils.h:118-127 | the loop returns the names of the Placeholder nodes in graph order (the reference `PlaceholderNames`) |
| GraphUtils.PlaceholderNamesMembership | include/tensorflow_cpp/graph_utils.h:122-123 | a name is an input exactly when some node with that name has op `Placeholder` |
| GraphUtils.PlaceholderNamesEmpty | include/tensorflow_cpp/graph_utils.h:118-127 | the input list is empty exactly when no node is a Placeholder |
| GraphUtils.PlaceholderNamesAppend | include/tensorflow_cpp/graph_utils.h:122-124 | input discovery keeps graph order: the inputs of two concatenated graphs are the inputs of the first graph, then those of the second |
| GraphUtils.GetGraphOutputNames | include/tensorflow_cpp/graph_utils.h:137-157 | the two loops return the unconsumed, non-denylisted nodes in graph order (the reference `OutputNames`) |
| GraphUtils.ReferencedNamesMembership | include/tensorflow_cpp/graph_utils.h:145-148 | the collected references are exactly the names listed in some node's inputs |
| GraphUtils.CandidateNamesMembership | include/tensorflow_cpp/graph_utils.h:149-153 | the filter keeps a name exactly when some node with that name passes both tests |
| GraphUtils.OutputNamesMembership | include/tensorflow_cpp/graph_utils.h:145-153 | a name is an output exactly when some node with that name has an op outside the denylist and no node lists the name as an input (completeness and soundness) |
| GraphUtils.OutputsAreUnreferenced | include/tensorflow_cpp/graph_utils.h:150-151 | no output name appears in any node's input list |
| GraphUtils.DenylistedAreNotOutputs | include/tensorflow_cpp/graph_utils.h:142-152 | when node names are unique, no Const/Assign/NoOp/Placeholder/Assert node is an output |
| GraphUtils.InputsAreNotOutputs | include/tensorflow_cpp/graph_utils.h:142-152 | when node names are unique, a discovered input is never also a discovered output |
| GraphUtils.CandidateNamesAppend | include/tensorflow_cpp/graph_utils.h:149-153 | output filtering keeps graph order over a concatenation of node lists |
| GraphUtils.FirstNamed | include/tensorflow_cpp/graph_utils.h:172-173 | the scan finds nothing exactly when no node has the name; otherwise it finds a node of the graph with that name |
| GraphUtils.FirstNamedAt | include/tensorflow_cpp/graph_utils.h:172-178 | the scan stops at the earliest node with the name |
| GraphUtils.GetGraphNodeShape | include/tensorflow_cpp/graph_utils.h:168-183 | the loop returns the reference `GraphNodeShape`: the first match's dimensions, else empty |
| GraphUtils.GetGraphNodeType | include/tensorflow_cpp/graph_utils.h:194-206 | the loop returns the reference `GraphNodeType`: the first match's dtype, else `DT_INVALID` |
| GraphUtils.GraphNodeShapeOfFirst | include/tensorflow_cpp/graph_utils.h:172-178 | the shape is that of the first node with the name: empty without a `shape` attribute, otherwise its dimensions in order, `-1` included, when they fit an int |
| GraphUtils.GraphNodeShapeMissing | include/tensorflow_cpp/graph_utils.h:171-182 | the shape is empty when no node has the name |
| GraphUtils.GraphNodeTypeOfFirst | include/tensorflow_cpp/graph_utils.h:197-205 | the dtype is that of the first node with the name, or `DT_INVALID` when it has no `dtype` attribute |
| GraphUtils.GraphNodeTypeMissing | include/tensorflow_cpp/graph_utils.h:197-205 | the dtype is `DT_INVALID` when no node has the name |
| SavedModelUtils.Merged | include/tensorflow_cpp/saved_model_utils.h:130-133 | the merged entries are keyed by all input and output layer names; on a key held by both, the input entry is kept, since `insert` does not overwrite |
| SavedModelUtils.NameBagRemove | include/tensorflow_cpp/saved_model_utils.h:204-208 | the collected node names do not depend on which entry is visited first: removing any entry removes exactly its name |
| SavedModelUtils.NameBagContents | include/tensorflow_cpp/saved_model_utils.h:204-208 | one node name is collected per entry, and a name is collected exactly when some entry carries it |
| SavedModelUtils.SortedNamesProperties | include/tensorflow_cpp/saved_model_utils.h:202-209 | the node-name list is ascending, is a permutation of the entries' node names, has one name per entry, and contains a name exactly when some entry carries it |
| SavedModelUtils.SortedNamesUnique | include/tensorflow_cpp/saved_model_utils.h:209 | any ascending permutation of the entries' node names is the sorted name list |
| SavedModelUtils.CollectInfoNames | include/tensorflow_cpp/saved_model_utils.h:204-208 | a visit of the map in any order collects each entry's node name once |
| SavedModelUtils.SortedInfoNames | include/tensorflow_cpp/saved_model_utils.h:202-209 | collecting and then sorting in place yields the sorted name list, whatever the visiting order |
| SavedModelUtils.GetSavedModelNodeByLayerName | include/tensorflow_cpp/saved_model_utils.h:124-144 | a missing signature is an error; otherwise the result is the node name of the merged entry keyed by the layer name (the input entry on a clash), or "" |
| SavedModelUtils.GetSavedModelLayerByNodeName | include/tensorflow_cpp/saved_model_utils.h:159-179 | a missing signature is an error; otherwise the result is the key of some merged entry with that node name, or "" when none has it |
| SavedModelUtils.LayerOfUniqueNode | include/tensorflow_cpp/saved_model_utils.h:169-176 | when node names are unique, the layer found for a node name does not depend on the visiting order |
| SavedModelUtils.LayerOfNodeOfLayer | include/tensorflow_cpp/saved_model_utils.h:124-179 | when node names are unique, translating layer → node → layer returns the layer |
| SavedModelUtils.NodeOfLayerOfNode | include/tensorflow_cpp/saved_model_utils.h:124-179 | translating node → layer → node returns the node whenever some entry carries it |
| SavedModelUtils.LayerNamesOf | include/tensorflow_cpp/saved_model_utils.h:211-217 | each node name is replaced, in order, by a layer name for it |
| SavedModelUtils.GetSavedModelInputNames | include/tensorflow_cpp/saved_model_utils.h:198-220 | a missing signature is an error; otherwise the result is the sorted input node names, or with `layer_names` the layer of the k-th sorted node name at position k (ordered by node name, same length) |
| SavedModelUtils.GetSavedModelOutputNames | include/tensorflow_cpp/saved_model_utils.h:239-261 | the same, over the output entries |
| SavedModelUtils.GetSavedModelNodeShape | include/tensorflow_cpp/saved_model_utils.h:273-295 | a missing signature is an error; otherwise the result is the dimensions of some merged entry with that node name, or empty when none has it |
| SavedModelUtils.GetSavedModelNodeType | include/tensorflow_cpp/saved_model_utils.h:307-327 | a missing signature is an error; otherwise the result is the dtype of some merged entry with that node name, or `DT_INVALID` |
| SavedModelUtils.ShapeOfUniqueNode | include/tensorflow_cpp/saved_model_utils.h:283-291 | when node names are unique, the shape found is that entry's dimensions, unchanged when they fit an int |
| SavedModelUtils.TypeOfUniqueNode | include/tensorflow_cpp/saved_model_utils.h:317-324 | when node names are unique, the dtype found is that entry's dtype |
| TensorflowModel.DummyShapeAt | include/tensorflow_cpp/model.h:543-547 | the warm-up shape keeps the length and every dimension of the input shape, except that each `-1` becomes `1` |
| TensorflowModel.DummyShapePositive | include/tensorflow_cpp/model.h:546-549 | a shape whose sizes are all `-1` or positive becomes a shape with positive sizes only |
| TensorflowModel.ReplaceUnknownDims | include/tensorflow_cpp/model.h:547 | `std::replace(-1, 1)` in place turns the buffer into the warm-up shape of its old contents |
| TensorflowModel.WarmupTensors | include/tensorflow_cpp/model.h:543-550 | warm-up tensor k has the dtype of input k and the shape of input k with each -1 replaced by 1 |
| TensorflowModel.NameTablesInverse | include/tensorflow_cpp/model.h:121-128 | when the layer names and node names are distinct across inputs and outputs, `layer2node[name_k] == node_k` and `node2layer[node_k] == name_k` for every recorded pair |
| TensorflowModel.NameTablesLastWrite | include/tensorflow_cpp/model.h:121-128 | without distinctness, each layer name maps to the node of its last occurrence, inputs before outputs |
| TensorflowModel.DefaultsInsertedStep | include/tensorflow_cpp/model.h:272-273 | one more `operator[]` lookup extends the inserted `""` defaults by that name |
| TensorflowModel.DefaultsInsertedUnique | include/tensorflow_cpp/model.h:326-332 | the layer table after a run of lookups is determined by the table before them and the names looked up |
| TensorflowModel.DefaultsInsertedKnown | include/tensorflow_cpp/model.h:326-332 | looking up only names the table already holds leaves the table unchanged |
| Utf8.EncodeChar | include/tensorflow_cpp/model.h:96 | a character takes one to four bytes, one exactly when it is ASCII (and then the byte is its code), and the last byte of a longer encoding is a continuation byte, never ASCII |
| Utf8.EncodeLength | include/tensorflow_cpp/model.h:96 | a string's byte count `size()` lies between its character count and four times it |
| Utf8.EncodeAscii | include/tensorflow_cpp/model.h:96 | an ASCII string has one byte per character, equal to the character's code |
| Utf8.AsciiSuffix | include/tensorflow_cpp/model.h:96 | for an ASCII suffix, the bytes end with the suffix's bytes exactly when the characters end with the suffix |
| TensorflowModel.EndsWithPbChars | include/tensorflow_cpp/model.h:96 | the byte test `substr(size() - 3) == ".pb"` holds exactly when the last three characters are ".pb", and a path has at least as many bytes as characters |
| TensorflowModel.Model.constructor | include/tensorflow_cpp/model.h:57 | an unloaded model has neither format flag set, no names and empty tables |
| TensorflowModel.Model.DiscoverGraphNames | include/tensorflow_cpp/model.h:113-115 | a FrozenGraph's inputs are its Placeholders and its outputs are its unconsumed nodes |
| TensorflowModel.Model.DiscoverSavedModelNames | include/tensorflow_cpp/model.h:116-128 | a SavedModel's names are the layer names of the sorted node names, and both tables receive every pair, inputs first; a missing default signature leaves names and tables unchanged |
| TensorflowModel.Model.FillNameTables | include/tensorflow_cpp/model.h:121-124 | the loop writes `node2layer[node_k] = name_k` and `layer2node[name_k] = node_k` for k in order |
| TensorflowModel.Model.LoadModel | include/tensorflow_cpp/model.h:91-135 | a path of fewer than 3 UTF-8 bytes fails with its byte count and changes nothing; otherwise FrozenGraph exactly when the path's last three bytes are ".pb" and SavedModel otherwise; names discovered per format; tables extended, not cleared; counts equal the name-list lengths; with `warmup`, the result is that of the warm-up call |
| TensorflowModel.Model.CallNamed | include/tensorflow_cpp/model.h:163-198 | with neither format the result is an empty map; otherwise names are translated through `layer2node` (SavedModel) or passed as is (FrozenGraph), a failed status is an error, and output k is written under `output_names[k]` |
| TensorflowModel.Model.NamedCallStoresByName | include/tensorflow_cpp/model.h:188-192 | with distinct requested names, the result maps each requested name to the session's tensor at its position and holds no other key |
| TensorflowModel.Model.CallPositional | include/tensorflow_cpp/model.h:237-260 | a tensor count other than `n_inputs_` fails with both counts; otherwise the result is the named call on (input_names_[k], tensor k), read back in `output_names_` order |
| TensorflowModel.Model.PositionalCountMismatch | include/tensorflow_cpp/model.h:240-244 | a count mismatch fails with `n_inputs_` and the given count, for every session behaviour, because the check comes before any run |
| TensorflowModel.Model.PositionalCallPairs | include/tensorflow_cpp/model.h:246-257 | on success, tensor k is fed under input_names_[k] (translated for a SavedModel), and output k is the session's k-th tensor |
| TensorflowModel.Model.CallSingle | include/tensorflow_cpp/model.h:210-225 | the call fails with both counts unless there is one input and one output; otherwise it is the named call on the first input and the first output |
| TensorflowModel.Model.SingleCallCounts | include/tensorflow_cpp/model.h:212-224 | the count error is raised whatever the session does; when the counts are one, success returns the session's single tensor |
| TensorflowModel.Model.GetNodeShape | include/tensorflow_cpp/model.h:269-279 | SavedModel: `layer2node[name]` is inserted as "" when missing, and the answer is the shape of that node; FrozenGraph: the first match's shape; neither: empty |
| TensorflowModel.Model.GetNodeType | include/tensorflow_cpp/model.h:354-363 | the same for the dtype, with `DT_INVALID` when neither format is set |
| TensorflowModel.Model.GetInputShape | include/tensorflow_cpp/model.h:289-299 | fails with the input count, changing nothing, unless there is exactly one input; otherwise the layer table gains `""` for input 0's name if it is a SavedModel name not yet in the table (the `operator[]` insert), and the result is the shape of input 0 over that table (the SignatureNotFound error when the default signature is missing) |
| TensorflowModel.Model.GetOutputShape | include/tensorflow_cpp/model.h:309-319 | fails with the output count, changing nothing, unless there is exactly one output; otherwise the layer table gains `""` for output 0's name if it is a SavedModel name not yet in the table (the `operator[]` insert), and the result is the shape of output 0 over that table (the SignatureNotFound error when the default signature is missing) |
| TensorflowModel.Model.GetInputType | include/tensorflow_cpp/model.h:373-383 | fails with the input count, changing nothing, unless there is exactly one input; otherwise the layer table gains `""` for input 0's name if it is a SavedModel name not yet in the table (the `operator[]` insert), and the result is the dtype of input 0 over that table (the SignatureNotFound error when the default signature is missing) |
| TensorflowModel.Model.GetOutputType | include/tensorflow_cpp/model.h:393-403 | fails with the output count, changing nothing, unless there is exactly one output; otherwise the layer table gains `""` for output 0's name if it is a SavedModel name not yet in the table (the `operator[]` insert), and the result is the dtype of output 0 over that table (the SignatureNotFound error when the default signature is missing) |
| TensorflowModel.Model.GetNodeShapes | include/tensorflow_cpp/model.h:326-332 | one shape per name, in order; for a SavedModel each name not yet in the layer table gains the entry "" and nothing else changes (`DefaultsInserted`); on the missing-signature error only the first name has been inserted |
| TensorflowModel.Model.GetNodeTypes | include/tensorflow_cpp/model.h:410-416 | one dtype per name, in order, with the same effect on the layer table as `GetNodeShapes` |
| TensorflowModel.Model.GetInputShapes | include/tensorflow_cpp/model.h:326-332 | one shape per input name, in order; unknown SavedModel names gain the entry "" in the layer table and nothing else changes (only the first name on the missing-signature error); when every name is known, as after a load, the table is unchanged |
| TensorflowModel.Model.GetOutputShapes | include/tensorflow_cpp/model.h:339-345 | one shape per output name, in order; unknown SavedModel names gain the entry "" in the layer table and nothing else changes (only the first name on the missing-signature error); when every name is known, as after a load, the table is unchanged |
| TensorflowModel.Model.GetInputTypes | include/tensorflow_cpp/model.h:410-416 | one dtype per input name, in order; unknown SavedModel names gain the entry "" in the layer table and nothing else changes (only the first name on the missing-signature error); when every name is known, as after a load, the table is unchanged |
| TensorflowModel.Model.GetOutputTypes | include/tensorflow_cpp/model.h:423-429 | one dtype per output name, in order; unknown SavedModel names gain the entry "" in the layer table and nothing else changes (only the first name on the missing-signature error); when every name is known, as after a load, the table is unchanged |
| TensorflowModel.Model.DummyCall | include/tensorflow_cpp/model.h:537-621 | the warm-up feeds one tensor per input, with the input's dtype and its shape with each -1 replaced by 1, to the positional call and reports that call's outcome; it leaves the layer table unchanged |

## Left out

- A loader that throws is not modelled. `loadFrozenGraph` (include/tensorflow_cpp/graph_utils.h:57-59) and `loadSavedModel` (include/tensorflow_cpp/saved_model_utils.h:68-69) throw on a bad file, and `loadGraphIntoSession` (include/tensorflow_cpp/graph_utils.h:77-80) throws when the session rejects the graph. Each throw happens after `loadModel` has already set the format flags. `LoadModel` assumes every load succeeds.
- Loading from disk (`loadFrozenGraph`, `loadSavedModel`, protobuf parsing), `loadGraphIntoSession`, session creation and the GPU options (`createSession`, `makeSessionOptions` in include/tensorflow_cpp/utils.h). These are runtime I/O and foreign calls. The loaded graph and bundle are parameters of `LoadModel`, and the GPU options are not modelled.
- `Session::Run` is a function parameter. The model assumes it returns one tensor per requested name on success.
- Tensor contents: the zero-initialisation `switch` in `dummyCall` works on tensor buffers. A warm-up tensor is only its dtype and shape, so the missing `break` after `DT_DOUBLE` is outside the model. Building a `TensorShape` from negative sizes other than -1 is not checked.
- `getGraphInfoString`, `getSavedModelInfoString` and `getInfoString` only format text using the runtime's dtype names.
- The accessors `session()`, `savedModel()`, `frozenGraph()`, `isLoaded()`, `isSavedModel()`, `isFrozenGraph()`, `nInputs()`, `nOutputs()`, `inputNames()`, `outputNames()` just return fields. The model exposes those fields directly.
- The loading constructor `Model(path, warmup, ...)` is `Model()` followed by `LoadModel`.
- A path is modelled as Unicode text whose `std::string` holds its UTF-8 encoding. Byte strings that are not valid UTF-8 are not modelled.
- Error messages: each error keeps the counts or names it reports, not its text.
- The default value of the output map's `operator[]` is `EmptyTensor`, which is `tf::Tensor()`: a one-dimensional float tensor with zero elements. Only its dtype and shape are modelled.
- `Model()` leaves `n_inputs_` and `n_outputs_` uninitialised. The calls and single getters therefore require `CountsAgree`, which holds after every load that discovered names.
- TensorflowModel.Model.CallNamed: requires every SavedModel name to have a `layer2node` entry, because `find(name)->second` on an unknown name is undefined behaviour in the source.
- The signature-based lookups index protocol-buffer maps whose iteration order is unspecified. The model states what holds for *every* order, so when two entries share a node name, it does not say which one a particular runtime picks.
