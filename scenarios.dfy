/** The graphs of the pass's own test scenarios, written as traversal-order
    sequences, and what the pass makes of them. Node texts stand for the
    names the tests give or generate; nodes whose names never collide are
    omitted. */
module Scenarios {
  import opened Names
  import FriendlyNames
  import TensorNames

  /** FixFriendlyNamesForAutogeneratedNames: arg0's generated name was given
      explicitly to arg1; both Concats were named "concat" explicitly. */
  function AutogeneratedNodes(): seq<FriendlyNames.NodeName>
  {
    [ FriendlyNames.NodeName("Parameter_1", true),
      FriendlyNames.NodeName("Parameter_1", false),
      FriendlyNames.NodeName("concat", false),
      FriendlyNames.NodeName("concat", false) ]
  }

  /** Only the autogenerated name moves, to `<name>_2`; the explicit
      duplicates stay. */
  lemma AutogeneratedRenamed()
    ensures var r := FriendlyNames.Resolve(AutogeneratedNodes(), false);
      && r[0].text == r[1].text + "_2"
      && r[1] == AutogeneratedNodes()[1]
      && r[2].text == r[3].text == "concat"
  {
    var ns := AutogeneratedNodes();
    assert ns[1].text in FriendlyNames.ExplicitTexts(ns);
    assert "Parameter_1_2" !in FriendlyNames.Texts(ns);
    FriendlyNames.DefaultSecondSuffix(ns, 0);
    FriendlyNames.DefaultKeepsExplicit(ns, 1);
    FriendlyNames.DefaultKeepsExplicit(ns, 2);
    FriendlyNames.DefaultKeepsExplicit(ns, 3);
  }

  /** FixGeneratedNames: arg0 was given, explicitly, the name arg1 then
      generated for itself. */
  function GeneratedNodes(): seq<FriendlyNames.NodeName>
  {
    [FriendlyNames.NodeName("Parameter_2", false), FriendlyNames.NodeName("Parameter_2", true)]
  }

  lemma GeneratedRenamed()
    ensures var r := FriendlyNames.Resolve(GeneratedNodes(), false);
      r[0] == GeneratedNodes()[0] && r[1].text == r[0].text + "_2"
  {
    var ns := GeneratedNodes();
    assert ns[0].text in FriendlyNames.ExplicitTexts(ns);
    assert "Parameter_2_2" !in FriendlyNames.Texts(ns);
    FriendlyNames.DefaultKeepsExplicit(ns, 0);
    FriendlyNames.DefaultSecondSuffix(ns, 1);
  }

  /** FixFriendlyNamesForAutogeneratedNamesMultiSubgraphOp and
      FixAllFriendlyNamesMultiSubgraphOp: the outer Parameter X, the outer
      Split and the `then` body's Subtract carry generated names; the `then`
      body's Parameter Xt, both bodies' Splits and the `else` body's Relu were
      given those names explicitly. (Y and Yt repeat the pattern of X and Xt.) */
  function SubgraphNodes(): seq<FriendlyNames.NodeName>
  {
    [ FriendlyNames.NodeName("Parameter_1", true),   // X
      FriendlyNames.NodeName("Split_4", true),       // external split
      FriendlyNames.NodeName("Parameter_1", false),  // Xt, then body
      FriendlyNames.NodeName("Split_4", false),      // split_y, then body
      FriendlyNames.NodeName("Subtract_5", true),    // then_op, then body
      FriendlyNames.NodeName("Split_4", false),      // split_z, else body
      FriendlyNames.NodeName("Subtract_5", false) ]  // else_op, else body
  }

  /** Default mode: the generated names get `_2`, the explicit body names
      stay, equal to each other. */
  lemma SubgraphDefault()
    ensures var r := FriendlyNames.Resolve(SubgraphNodes(), false);
      && r[0].text == r[2].text + "_2"
      && r[1].text == r[3].text + "_2"
      && r[4].text == r[6].text + "_2"
      && r[3].text == r[5].text
  {
    var ns := SubgraphNodes();
    assert ns[2].text in FriendlyNames.ExplicitTexts(ns);
    assert ns[3].text in FriendlyNames.ExplicitTexts(ns);
    assert ns[6].text in FriendlyNames.ExplicitTexts(ns);
    assert "Parameter_1_2" !in FriendlyNames.Texts(ns);
    assert "Split_4_2" !in FriendlyNames.Texts(ns);
    assert "Subtract_5_2" !in FriendlyNames.Texts(ns);
    FriendlyNames.DefaultSecondSuffix(ns, 0);
    FriendlyNames.DefaultSecondSuffix(ns, 1);
    FriendlyNames.DefaultSecondSuffix(ns, 4);
    FriendlyNames.DefaultKeepsExplicit(ns, 2);
    FriendlyNames.DefaultKeepsExplicit(ns, 3);
    FriendlyNames.DefaultKeepsExplicit(ns, 5);
    FriendlyNames.DefaultKeepsExplicit(ns, 6);
  }

  /** Resolve-all mode: the first holder of each name keeps it... */
  lemma SubgraphResolveAllKeeps()
    ensures var r := FriendlyNames.Resolve(SubgraphNodes(), true);
      r[0] == SubgraphNodes()[0] && r[1] == SubgraphNodes()[1] && r[4] == SubgraphNodes()[4]
  {
    var ns := SubgraphNodes();
    FriendlyNames.ResolveAllKeepsFirst(ns, 0);
    FriendlyNames.ResolveAllKeepsFirst(ns, 1);
    FriendlyNames.ResolveAllKeepsFirst(ns, 4);
  }

  /** ... and later holders are numbered `_1`, `_2`, ... in traversal order:
      the body Parameter and the `else` body's Relu, ... */
  lemma SubgraphResolveAllFirstRepeats()
    ensures var r := FriendlyNames.Resolve(SubgraphNodes(), true);
      r[2].text == "Parameter_1_1" && r[6].text == "Subtract_5_1"
  {
    var ns := SubgraphNodes();
    assert Decimal(1) == "1";
    SubgraphOccurrences();
    SubgraphFreeSpellings();
    FriendlyNames.ResolveAllNumbersRepeats(ns, 2);
    FriendlyNames.ResolveAllNumbersRepeats(ns, 6);
  }

  /** ... the `then` body's Split, ... */
  lemma SubgraphResolveAllThenSplit()
    ensures FriendlyNames.Resolve(SubgraphNodes(), true)[3].text == "Split_4_1"
  {
    assert Decimal(1) == "1";
    SubgraphOccurrences();
    SubgraphFreeSpellings();
    FriendlyNames.ResolveAllNumbersRepeats(SubgraphNodes(), 3);
  }

  /** ... and the `else` body's Split. */
  lemma SubgraphResolveAllElseSplit()
    ensures FriendlyNames.Resolve(SubgraphNodes(), true)[5].text == "Split_4_2"
  {
    assert Decimal(2) == "2";
    SubgraphOccurrences();
    SubgraphFreeSpellings();
    FriendlyNames.ResolveAllNumbersRepeats(SubgraphNodes(), 5);
  }

  lemma SubgraphFreeSpellings()
    ensures var texts := FriendlyNames.Texts(SubgraphNodes());
      && "Parameter_1_1" !in texts && "Split_4_1" !in texts
      && "Split_4_2" !in texts && "Subtract_5_1" !in texts
  {
  }

  lemma SubgraphOccurrences()
    ensures var ns := SubgraphNodes();
      && FriendlyNames.Occurrences(ns, 2, "Parameter_1") == 1
      && FriendlyNames.Occurrences(ns, 3, "Split_4") == 1
      && FriendlyNames.Occurrences(ns, 5, "Split_4") == 2
      && FriendlyNames.Occurrences(ns, 6, "Subtract_5") == 1
  {
  }

  /** FixTensorNamesMultiSubgraphOp: the outer Split's first output is
      "split_1"; the first outputs of the Splits in both bodies are "split:0". */
  function SubgraphTensors(): seq<set<string>>
  {
    [{"split_1"}, {"split:0"}, {"split:0"}]
  }

  /** The `else` body's "split:0" is renamed with the port kept; the first
      holder keeps it. */
  lemma SubgraphTensorsRenamed()
    ensures TensorNames.Resolve(SubgraphTensors()) == [{"split_1"}, {"split:0"}, {"split_1:0"}]
  {
    var ts := SubgraphTensors();
    assert ts[..1] == [ts[0]] && ts[..2] == [ts[0], ts[1]];
    TensorNames.Uncontested(ts, 0);
    TensorNames.Uncontested(ts, 1);
    assert LastColon("split:0") == 5;
    assert Rename("split:0", 1, true) == "split_1:0";
    assert "split_1:0" !in TensorNames.AllNames(ts);
    TensorNames.SecondHolderGetsOne(ts, 2, "split:0");
    var r := TensorNames.Resolve(ts);
    var c, t := TensorNames.NamesBefore(ts, 2), TensorNames.Taken(ts, 2);
    assert r[2] == {TensorNames.Fix("split:0", c, t)};
  }

  /** param_result_model_no_name_collision: two Parameters with no name in
      common, each consumed by a Result with no names of its own. */
  function DistinctTensors(): seq<set<string>>
  {
    [{"input_1", "name"}, {"input_2", "test"}]
  }

  function DistinctResults(): seq<TensorNames.ResultTensor>
  {
    [TensorNames.ResultTensor(0, TensorNames.Inherited), TensorNames.ResultTensor(1, TensorNames.Inherited)]
  }

  /** Without a shared name the pass changes no output and no Result. */
  lemma DistinctKept()
    ensures TensorNames.WellFormed(DistinctTensors(), DistinctResults())
    ensures TensorNames.Resolve(DistinctTensors()) == DistinctTensors()
    ensures TensorNames.ResolveResults(DistinctTensors(), DistinctResults()) == DistinctResults()
  {
    var ts := DistinctTensors();
    assert ts[..0] == [] && ts[..1] == [ts[0]];
    TensorNames.Uncontested(ts, 0);
    TensorNames.Uncontested(ts, 1);
  }

  /** collision_on_inputs: two Parameters share "input_2", "test" and "input:1". */
  function InputTensors(): seq<set<string>>
  {
    [{"input_2", "name", "test", "input:0", "input:1"}, {"input_2", "test", "input:1", "input:2"}]
  }

  /** The second Parameter's shared names are renamed with suffix 1, the port
      of "input:1" kept; its unshared name stays; so does the first Parameter. */
  lemma InputTensorsRenamed()
    ensures TensorNames.Resolve(InputTensors())[0] == InputTensors()[0]
    ensures TensorNames.Resolve(InputTensors())[1] == {"input_2_1", "test_1", "input_1:1", "input:2"}
  {
    var ts := InputTensors();
    assert ts[..1] == [ts[0]];
    TensorNames.Uncontested(ts, 0);
    InputRegistry();
    var c, t := ts[0], ts[0] + ts[1];
    InputFixes(c, t);
    assert TensorNames.Resolve(ts)[1] == TensorNames.FixAll(ts[1], c, t);
    FixAllFour("input_2", "test", "input:1", "input:2", c, t);
  }

  /** collision_on_inputs lists result_2 (consuming input_2) before result
      (consuming input_1); neither names its output itself. */
  function InputResults(): seq<TensorNames.ResultTensor>
  {
    [TensorNames.ResultTensor(1, TensorNames.Inherited), TensorNames.ResultTensor(0, TensorNames.Inherited)]
  }

  /** result_2 reports input_2's renamed names. */
  lemma InputResultRenamed()
    ensures TensorNames.WellFormed(InputTensors(), InputResults())
    ensures var ts := InputTensors();
      TensorNames.View(TensorNames.Resolve(ts), TensorNames.ResolveResults(ts, InputResults())[0]) ==
        {"input_2_1", "test_1", "input_1:1", "input:2"}
  {
    var ts, rs := InputTensors(), InputResults();
    InputTensorsRenamed();
    TensorNames.ResultsFollowProducers(ts, rs, 0);
  }

  lemma InputFixes(c: set<string>, t: set<string>)
    requires c == InputTensors()[0] && t == InputTensors()[0] + InputTensors()[1]
    ensures TensorNames.Fix("input_2", c, t) == "input_2_1"
    ensures TensorNames.Fix("test", c, t) == "test_1"
    ensures TensorNames.Fix("input:1", c, t) == "input_1:1"
    ensures TensorNames.Fix("input:2", c, t) == "input:2"
  {
    Spellings();
    ClaimedGetsOne("input_2", c, t);
    ClaimedGetsOne("test", c, t);
    ClaimedGetsOne("input:1", c, t);
  }

  /** In collision_on_inputs the second Parameter meets the first one's
      names and the untouched registry. */
  lemma InputRegistry()
    ensures var ts := InputTensors();
      && TensorNames.NamesBefore(ts, 1) == ts[0]
      && TensorNames.Taken(ts, 1) == ts[0] + ts[1]
  {
    var ts := InputTensors();
    assert ts[..1] == [ts[0]];
    assert TensorNames.Assigned(ts, 1) == {};
    assert ts == [ts[0], ts[1]];
  }

  lemma FixAllUnclaimed(s: set<string>, claimed: set<string>, taken: set<string>)
    requires s !! claimed
    ensures TensorNames.FixAll(s, claimed, taken) == s
  {
  }

  lemma FixAllTwo(a: string, b: string, claimed: set<string>, taken: set<string>)
    ensures TensorNames.FixAll({a, b}, claimed, taken) ==
      {TensorNames.Fix(a, claimed, taken), TensorNames.Fix(b, claimed, taken)}
  {
  }

  lemma FixAllThree(a: string, b: string, d: string, claimed: set<string>, taken: set<string>)
    ensures TensorNames.FixAll({a, b, d}, claimed, taken) ==
      {TensorNames.Fix(a, claimed, taken), TensorNames.Fix(b, claimed, taken), TensorNames.Fix(d, claimed, taken)}
  {
  }

  lemma FixAllFour(a: string, b: string, d: string, e: string, claimed: set<string>, taken: set<string>)
    ensures TensorNames.FixAll({a, b, d, e}, claimed, taken) ==
      {TensorNames.Fix(a, claimed, taken), TensorNames.Fix(b, claimed, taken),
       TensorNames.Fix(d, claimed, taken), TensorNames.Fix(e, claimed, taken)}
  {
  }

  lemma Spellings()
    ensures Rename("input_2", 1, true) == "input_2_1"
    ensures Rename("test", 1, true) == "test_1"
    ensures Rename("input:1", 1, true) == "input_1:1"
    ensures Rename("result_1", 1, true) == "result_1_1"
  {
    assert LastColon("input:1") == 5 && LastColon("input_2") == -1;
    assert LastColon("test") == -1 && LastColon("result_1") == -1;
    assert Decimal(1) == "1";
  }

  /** A claimed name whose first candidate is free is renamed to it. */
  lemma ClaimedGetsOne(n: string, claimed: set<string>, taken: set<string>)
    requires n in claimed && Rename(n, 1, true) !in taken
    ensures TensorNames.Fix(n, claimed, taken) == Rename(n, 1, true)
  {
  }

  /** collision_on_outputsinputs: Parameters in the order input_2, input_1;
      the Result of input_2 names its output "result_1", the Result of
      input_1 names its output "result_1" and "input_1", which join the names
      of the outputs they consume. */
  function OutputTensors(): seq<set<string>>
  {
    [{"input_2", "input:2", "result_1"}, {"input_1", "input:0", "result_1"}]
  }

  function OutputResults(): seq<TensorNames.ResultTensor>
  {
    [ TensorNames.ResultTensor(0, TensorNames.Own({"result_1"})),
      TensorNames.ResultTensor(1, TensorNames.Own({"result_1", "input_1"})) ]
  }

  /** The later holder of "result_1" gets "result_1_1"; the earlier keeps it. */
  lemma OutputTensorsRenamed()
    ensures TensorNames.Resolve(OutputTensors())[0] == {"input_2", "input:2", "result_1"}
    ensures TensorNames.Resolve(OutputTensors())[1] == {"input_1", "input:0", "result_1_1"}
  {
    var ts := OutputTensors();
    assert ts[..0] == [];
    TensorNames.Uncontested(ts, 0);
    var c, t := TensorNames.NamesBefore(ts, 1), TensorNames.Taken(ts, 1);
    OutputRegistry();
    assert TensorNames.Fix("input_1", c, t) == "input_1";
    assert TensorNames.Fix("input:0", c, t) == "input:0";
    FixAllThree("input_1", "input:0", "result_1", c, t);
  }

  /** The Result that named its output "result_1" and "input_1" reports
      the new name beside its other one; the other Result keeps "result_1". */
  lemma OutputResultsRenamed()
    ensures TensorNames.WellFormed(OutputTensors(), OutputResults())
    ensures TensorNames.ResolveResults(OutputTensors(), OutputResults()) ==
      [ OutputResults()[0], TensorNames.ResultTensor(1, TensorNames.Own({"result_1_1", "input_1"})) ]
  {
    var ts := OutputTensors();
    var c, t := TensorNames.NamesBefore(ts, 1), TensorNames.Taken(ts, 1);
    var rs := OutputResults();
    OutputWellFormed();
    OutputRegistry();
    assert TensorNames.Fix("input_1", c, t) == "input_1";
    FixAllTwo("result_1", "input_1", c, t);
    assert TensorNames.NamesBefore(ts, 0) == {};
    FixAllUnclaimed({"result_1"}, {}, TensorNames.Taken(ts, 0));
    var r := TensorNames.ResolveResults(ts, rs);
    assert r[0] == TensorNames.ResolveResult(ts, rs[0]);
    assert r[1] == TensorNames.ResultTensor(1, TensorNames.Own(TensorNames.FixAll(rs[1].names.names, c, t)));
  }

  /** The names each Result of collision_on_outputsinputs gives its output
      are names of the output it consumes. */
  lemma OutputWellFormed()
    ensures TensorNames.WellFormed(OutputTensors(), OutputResults())
  {
    var ts, rs := OutputTensors(), OutputResults();
    assert rs[0].names.names <= ts[0];
    assert rs[1].names.names <= ts[1];
  }

  /** In collision_on_outputsinputs the second Parameter meets the first
      one's names and the untouched registry, and its "result_1" is renamed
      to "result_1_1". */
  lemma OutputRegistry()
    ensures var ts := OutputTensors();
      && TensorNames.NamesBefore(ts, 1) == ts[0]
      && TensorNames.Taken(ts, 1) == ts[0] + ts[1]
      && TensorNames.Fix("result_1", ts[0], ts[0] + ts[1]) == "result_1_1"
  {
    var ts := OutputTensors();
    assert ts[..1] == [ts[0]];
    assert TensorNames.Assigned(ts, 1) == {};
    assert ts == [ts[0], ts[1]];
    Spellings();
    ClaimedGetsOne("result_1", ts[0], ts[0] + ts[1]);
  }


}
