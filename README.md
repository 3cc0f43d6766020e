# ResolveNameCollisions

This project models OpenVINO's `ov::pass::ResolveNameCollisions`, as its unit
tests pin the pass down. The pass walks a model graph, including the `then` and
`else` bodies of an `If` operation, and rewrites names in place until they are
unique. It handles two kinds of names.

- **Friendly names.** Each node has one friendly name. The name is either
  autogenerated (`Parameter_7`) or set explicitly with `set_friendly_name`.
  - In default mode only autogenerated names are renamed. An autogenerated
    name is renamed when an earlier node or any explicitly named node carries
    it. Replacements are numbered from `_2`.
  - In resolve-all mode (`ResolveNameCollisions(true)`) the first node
    carrying a name keeps it. Every later node carrying it is renamed, whether
    its name was generated or set. Replacements are numbered `_1`, `_2`, … in
    traversal order.
- **Tensor names.** Each output carries a set of names. A collision is
  resolved name by name: a name that an earlier output carries is replaced in
  the later output by `<base>_<k><port>`, with k counted from 1. The port is
  the `:<port>` suffix of a port-qualified name such as `input:1`, which
  becomes `input_1:1`. A Result reports the names of the output it consumes.
  Names given to the Result itself are renamed exactly as in that output.

In both cases the suffix is the smallest one whose spelling is not a name of
the graph and was not handed out earlier in the same run. All nodes and
outputs form one flat namespace, in traversal order. The outer graph comes
first, with its Parameters in parameter-list order. The `then` body follows,
then the `else` body.

Files:

- `names.dfy` (module `Names`): how a replacement is spelled
  (`Decimal`, `LastColon`, `Base`, `Port`, `Rename`). Also proves that
  different names or suffixes never give the same spelling.
- `registry.dfy` (module `Registry`): the registry of taken names and the
  search for the first free suffix. `MinFree` is the specification and
  `NextFree` is the counter loop.
- `friendly_names.dfy` (module `FriendlyNames`): the friendly-name step as a
  function of the node names in traversal order (`Resolve`), with its
  properties.
- `tensor_names.dfy` (module `TensorNames`): the tensor-name step as a
  function of the output name sets (`Resolve`) and of the Results
  (`ResolveResults`), with its properties. `RenameClaimed` is the per-output
  renaming loop.
- `resolve_names_collisions.dfy` (module `ResolveNameCollisions`): class
  `Graph`. It holds the nodes, outputs and Results in arrays and runs the pass
  in place. Each method is proved to leave exactly the state the
  specification functions compute.
- `scenarios.dfy` (module `Scenarios`): the graphs of the unit tests, with
  the exact names the tests expect, proved from the lemmas above.

## Model

All sources are `src/common/transformations/tests/resolve_names_collisions.cpp`,
the only core file. Its assertions are the statements being modelled.

| member | source | states |
|---|---|---|
| Names.Decimal | src/common/transformations/tests/resolve_names_collisions.cpp:210-211 | the suffix is spelled in decimal digits, at least one, most significant first, so suffixes 1 and 2 read `_1` and `_2` |
| Names.DecimalInjective | src/common/transformations/tests/resolve_names_collisions.cpp:210-211 | two suffixes with the same spelling are equal, so `_1` and `_2` are told apart |
| Names.LastColon | src/common/transformations/tests/resolve_names_collisions.cpp:257 | finds the ':' that starts the port qualifier of a tensor name: no ':' follows it, or there is none at all |
| Names.Base | src/common/transformations/tests/resolve_names_collisions.cpp:256-257 | definition: the part of a name a rename keeps before the suffix, which is everything before the last ':' of a tensor name and the whole name otherwise (`input` of `input:1`, `test` of `test`) |
| Names.Port | src/common/transformations/tests/resolve_names_collisions.cpp:257 | definition: the port qualifier a tensor-name rename keeps after the suffix, which is the last ':' and everything after it, empty when there is no ':' |
| Names.Rename | src/common/transformations/tests/resolve_names_collisions.cpp:339 | definition: the k-th candidate is `<base>_<k>` followed by the port qualifier, so `split:0` with k = 1 gives `split_1:0`; friendly names are renamed without a port |
| Names.RenameKeepsPort | src/common/transformations/tests/resolve_names_collisions.cpp:257 | a tensor-name replacement keeps the port qualifier verbatim and turns the base into `base_k` (`input:1` to `input_1:1`) |
| Names.RenameInjective | src/common/transformations/tests/resolve_names_collisions.cpp:256-257 | different names or different suffixes never give the same replacement, so the order in which one output's names are renamed cannot matter |
| Registry.MinFree | src/common/transformations/tests/resolve_names_collisions.cpp:210-211 | the chosen suffix is at least the first suffix, its spelling is free, and every smaller suffix's spelling is taken |
| Registry.MinFreeIgnores | src/common/transformations/tests/resolve_names_collisions.cpp:256-257 | registering spellings of other names does not move the first free suffix of a name |
| Registry.NextFree | src/common/transformations/tests/resolve_names_collisions.cpp:210-211 | the counter loop stops at the first free suffix, which is `MinFree` |
| FriendlyNames.Collides | src/common/transformations/tests/resolve_names_collisions.cpp:141-216 | definition of the rename condition: the node's name was generated, or the mode is resolve-all; and an earlier node carries the same name, or (default mode only) some node anywhere carries it explicitly |
| FriendlyNames.NewName | src/common/transformations/tests/resolve_names_collisions.cpp:207-216 | definition: a colliding node gets its name plus `_<k>`, with k the first suffix from 2 (default mode) or 1 (resolve-all mode) whose spelling is neither a name of the graph nor handed out to an earlier node, and the new name counts as explicit; any other node keeps its name |
| FriendlyNames.Resolve | src/common/transformations/tests/resolve_names_collisions.cpp:44-49 | definition: the pass maps every node, in traversal order, to its `NewName` |
| FriendlyNames.ChangedIffCollides | src/common/transformations/tests/resolve_names_collisions.cpp:47-49 | a node's name changes exactly when it collides; a changed name is `<old>_<k>` with k from 2 (default mode) or 1 (resolve-all mode), is no name the graph had before, and counts as explicit |
| FriendlyNames.DefaultKeepsExplicit | src/common/transformations/tests/resolve_names_collisions.cpp:146-149 | in default mode an explicitly set name never changes, even when another explicit name equals it |
| FriendlyNames.DefaultSecondSuffix | src/common/transformations/tests/resolve_names_collisions.cpp:141-146 | in default mode a generated name that an explicit node also carries becomes `<name>_2`, when that spelling is free and no earlier generated node carried the name |
| FriendlyNames.ResolveAllKeepsFirst | src/common/transformations/tests/resolve_names_collisions.cpp:207-216 | in resolve-all mode the first node carrying a name keeps it |
| FriendlyNames.ResolveAllNumbersRepeats | src/common/transformations/tests/resolve_names_collisions.cpp:210-216 | in resolve-all mode the c-th repeat of a name t becomes `t_c`, when `t_1` … `t_c` are not names of the graph |
| FriendlyNames.Unique | src/common/transformations/tests/resolve_names_collisions.cpp:47-49 | after the pass two nodes share a name only in default mode, and only when both names were set explicitly and both are unchanged |
| FriendlyNames.Idempotent | src/common/transformations/tests/resolve_names_collisions.cpp:44-49 | a second run in the same mode changes no friendly name |
| TensorNames.Fix | src/common/transformations/tests/resolve_names_collisions.cpp:256-257 | definition: a name an earlier output carries becomes its first candidate `<base>_<k><port>`, k from 1, that is not in the registry; any other name stays |
| TensorNames.Resolve | src/common/transformations/tests/resolve_names_collisions.cpp:254-257 | definition: every output's names, in traversal order, pass through `Fix`, against the names of the outputs before it and the registry of all names plus the replacements handed out so far |
| TensorNames.ResolveResult | src/common/transformations/tests/resolve_names_collisions.cpp:281-282 | definition: a Result with names of its own has them renamed by the same `Fix` as the output it consumes; a Result without keeps reporting that output |
| TensorNames.ResolveResults | src/common/transformations/tests/resolve_names_collisions.cpp:258 | definition: the pass applies `ResolveResult` to every Result, so a Result without names of its own reports its output's renamed names |
| TensorNames.RenameClaimed | src/common/transformations/tests/resolve_names_collisions.cpp:256-257 | the per-output loop renames exactly the names an earlier output carries, each to its specified replacement, which avoids the registry; the registry grows by exactly those replacements |
| TensorNames.NameFate | src/common/transformations/tests/resolve_names_collisions.cpp:256-257 | a name no earlier output carries stays; a name an earlier output carries leaves the output, replaced by `<base>_<k><port>` with k at least 1, which was no name of the graph |
| TensorNames.Uncontested | src/common/transformations/tests/resolve_names_collisions.cpp:237-238 | an output none of whose names an earlier output carries keeps its names exactly |
| TensorNames.SizeKept | src/common/transformations/tests/resolve_names_collisions.cpp:256-257 | every output keeps its number of names |
| TensorNames.Disjoint | src/common/transformations/tests/resolve_names_collisions.cpp:256-257 | after the pass no name belongs to two outputs |
| TensorNames.SecondHolderGetsOne | src/common/transformations/tests/resolve_names_collisions.cpp:257 | the second output carrying a name gets `<base>_1<port>`, when that spelling is no name of the graph |
| TensorNames.Idempotent | src/common/transformations/tests/resolve_names_collisions.cpp:254-257 | a second run changes no output's names |
| TensorNames.ResultsIdempotent | src/common/transformations/tests/resolve_names_collisions.cpp:281-282 | after the pass the Results are still well formed, and a second run changes no name a Result reports |
| TensorNames.ResultsFollowProducers | src/common/transformations/tests/resolve_names_collisions.cpp:279-282 | after the pass a Result reports only names of the output it consumes: all of them when it has none of its own, otherwise as many as before, each uncontested one unchanged |
| TensorNames.ResolvedWellFormed | src/common/transformations/tests/resolve_names_collisions.cpp:270-272 | the pass keeps every Result attached to an existing output, with its own names among that output's names |
| ResolveNameCollisions.Graph.constructor | src/common/transformations/tests/resolve_names_collisions.cpp:250 | the graph holds the given nodes, outputs and Results in traversal order |
| ResolveNameCollisions.Graph.FriendlyNameSets | src/common/transformations/tests/resolve_names_collisions.cpp:47-49 | the first loop registers every friendly name, and separately every explicitly set one |
| ResolveNameCollisions.Graph.ResolveNode | src/common/transformations/tests/resolve_names_collisions.cpp:47-49 | naming one node moves the array from the names after node i-1 to the names after node i, and grows the registry by that node's replacement |
| ResolveNameCollisions.Graph.ResolveFriendlyNames | src/common/transformations/tests/resolve_names_collisions.cpp:44-49 | the nodes array ends holding `FriendlyNames.Resolve` of its old contents |
| ResolveNameCollisions.Graph.TensorNameSet | src/common/transformations/tests/resolve_names_collisions.cpp:256-257 | the first loop registers every tensor name of the graph |
| ResolveNameCollisions.Graph.ResolveOutput | src/common/transformations/tests/resolve_names_collisions.cpp:256-258 | processing one output advances outputs and Results from "before output i" to "before output i+1", and updates the claimed names and the registry |
| ResolveNameCollisions.Graph.RenameResultsOf | src/common/transformations/tests/resolve_names_collisions.cpp:279-282 | the Results consuming output i get that output's renaming of their own names; the others are untouched |
| ResolveNameCollisions.Graph.ResolveTensorNames | src/common/transformations/tests/resolve_names_collisions.cpp:254-258 | the outputs end as `TensorNames.Resolve` of the old outputs, the Results as `TensorNames.ResolveResults`, and every Result still consumes an existing output |
| ResolveNameCollisions.Graph.Run | src/common/transformations/tests/resolve_names_collisions.cpp:44-49 | one run renames friendly names, then tensor names, with both postconditions |
| Scenarios.GeneratedRenamed | src/common/transformations/tests/resolve_names_collisions.cpp:47-49 | FixGeneratedNames: arg0 keeps its explicit name and arg1 becomes that name plus `_2` |
| Scenarios.AutogeneratedRenamed | src/common/transformations/tests/resolve_names_collisions.cpp:76-80 | FixFriendlyNamesForAutogeneratedNames: both "concat" nodes stay equal and arg0 becomes arg1's name plus `_2` |
| Scenarios.SubgraphDefault | src/common/transformations/tests/resolve_names_collisions.cpp:141-149 | default mode across If bodies: X, the outer Split and the Subtract get `_2`, and the two body Splits stay equal |
| Scenarios.SubgraphResolveAllKeeps | src/common/transformations/tests/resolve_names_collisions.cpp:207-216 | resolve-all mode across If bodies: X, the outer Split and the Subtract keep their names |
| Scenarios.SubgraphResolveAllFirstRepeats | src/common/transformations/tests/resolve_names_collisions.cpp:213-216 | resolve-all mode: Xt becomes X's name plus `_1` and the Relu the Subtract's name plus `_1` |
| Scenarios.SubgraphResolveAllThenSplit | src/common/transformations/tests/resolve_names_collisions.cpp:210 | resolve-all mode: the `then` body's Split becomes the outer Split's name plus `_1` |
| Scenarios.SubgraphResolveAllElseSplit | src/common/transformations/tests/resolve_names_collisions.cpp:211 | resolve-all mode: the `else` body's Split becomes the outer Split's name plus `_2` |
| Scenarios.SubgraphTensorsRenamed | src/common/transformations/tests/resolve_names_collisions.cpp:337-339 | FixTensorNamesMultiSubgraphOp: "split_1" and the `then` body's "split:0" stay, and the `else` body's "split:0" becomes "split_1:0" |
| Scenarios.DistinctKept | src/common/transformations/tests/resolve_names_collisions.cpp:237-238 | param_result_model_no_name_collision: with no shared name, both Parameters keep their names and both Results keep reporting them |
| Scenarios.InputTensorsRenamed | src/common/transformations/tests/resolve_names_collisions.cpp:256-257 | collision_on_inputs: the first Parameter keeps its names and the second ends with exactly "input_2_1", "test_1", "input_1:1" and "input:2" |
| Scenarios.InputResultRenamed | src/common/transformations/tests/resolve_names_collisions.cpp:258 | collision_on_inputs: result_2 reports exactly input_2's renamed names |
| Scenarios.OutputTensorsRenamed | src/common/transformations/tests/resolve_names_collisions.cpp:279-280 | collision_on_outputsinputs: input_1 ends with exactly "input_1", "input:0" and "result_1_1", and input_2 keeps "input_2", "input:2" and "result_1" |
| Scenarios.OutputResultsRenamed | src/common/transformations/tests/resolve_names_collisions.cpp:281-282 | collision_on_outputsinputs: result_1 reports "result_1_1" and "input_1", and result_2 keeps "result_1" |

## Left out

- The implementation file of the pass is not part of this model. The behaviour is taken from the unit tests' assertions, and where several implementations would pass them, the model picks the one described above.
- How names are generated (the `Parameter_<n>` counter used at lines 26-29) belongs to node construction. The model takes each node's name and its autogenerated flag as inputs.
- Shape and type inference, `validate_nodes_and_infer_types` (line 277), the execution semantics of `If`, and the pass manager are not modelled.
- The model does not keep names equal across an `If` boundary (outer input and body Parameter, or the `then` and `else` outputs). The tests assert that such mirrored names diverge (lines 143-144, 213-214 and 339). The model likewise gives alternative branches no exemption from each other's names.
- Tensor names have no exemption for explicitly set names. Every name an earlier output carries is renamed, as lines 256-257 and 339 require.
- Names.LastColon: the port is taken to start at the last ':' of a tensor name, and any text after it counts as the port, digits or not (`ns:layer` becomes `ns_1:layer`). The tests only use names with at most one ':', followed by digits.
- FriendlyNames.Collides: in default mode, when several nodes carry the same generated name and no explicit node carries it, the first keeps it. Generated names are unique by construction, so the tests never reach this case.
- The pass visits colliding names in a deterministic order, the traversal order. An implementation that walks a hash map of names may visit them in another order. The resulting names agree whenever no replacement spelling is itself contested, which covers every test.
- When two Results give their outputs the same name, the model lets the output that comes first in traversal order (for Parameters, the parameter list) keep it. In collision_on_outputsinputs (line 270) this is also the Result listed first.
- Names given to a Result's output are modelled as already carried by the output it consumes, as line 279 shows them to be after the pass.
