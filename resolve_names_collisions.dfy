/** The ResolveNameCollisions pass over a model graph whose nodes, outputs
    and Results are held in traversal order: the outer graph first, then the
    `then` body and the `else` body of an If. The pass rewrites friendly names
    and tensor names in place; it creates and removes nothing. */
module ResolveNameCollisions {
  import opened Names
  import opened Registry
  import FriendlyNames
  import TensorNames

  class Graph {
    /** The friendly name of every node, in traversal order. */
    var nodes: array<FriendlyNames.NodeName>
    /** The names of every output that is not a Result's, in traversal order. */
    var tensors: array<set<string>>
    /** Every Result, with the output it consumes. */
    var results: array<TensorNames.ResultTensor>

    ghost predicate Valid()
      reads this, tensors, results
    {
      TensorNames.WellFormed(tensors[..], results[..])
    }

    constructor (ns: seq<FriendlyNames.NodeName>, ts: seq<set<string>>, rs: seq<TensorNames.ResultTensor>)
      requires TensorNames.WellFormed(ts, rs)
      ensures Valid()
      ensures nodes[..] == ns && tensors[..] == ts && results[..] == rs
      ensures fresh(nodes) && fresh(tensors) && fresh(results)
    {
      nodes := new FriendlyNames.NodeName[|ns|](i requires 0 <= i < |ns| => ns[i]);
      tensors := new set<string>[|ts|](i requires 0 <= i < |ts| => ts[i]);
      results := new TensorNames.ResultTensor[|rs|](i requires 0 <= i < |rs| => rs[i]);
    }

    /** Friendly names: first registers every name of the graph (and, in
        default mode, every explicitly set one), then walks the nodes in order
        and gives each colliding node the first free numbered candidate. */
    method ResolveFriendlyNames(resolveAll: bool)
      modifies nodes
      ensures nodes[..] == FriendlyNames.Resolve(old(nodes[..]), resolveAll)
    {
      ghost var ns := nodes[..];
      FriendlyNames.NamedBeforeBounds(ns, resolveAll);
      var taken, explicit := FriendlyNameSets();
      var seen: set<string> := {};
      var i := 0;
      while i < nodes.Length
        invariant 0 <= i <= nodes.Length == |ns|
        invariant nodes[..] == FriendlyNames.NamedBefore(ns, resolveAll, i)
        invariant seen == FriendlyNames.Texts(ns[..i])
        invariant taken == FriendlyNames.Texts(ns) + FriendlyNames.Assigned(ns, resolveAll, i)
      {
        seen, taken := ResolveNode(i, resolveAll, seen, explicit, taken, ns);
        i := i + 1;
      }
    }

    /** The registries of the friendly-name step: every name in the graph, and
        every name that was set explicitly. */
    method FriendlyNameSets() returns (texts: set<string>, explicit: set<string>)
      ensures texts == FriendlyNames.Texts(nodes[..])
      ensures explicit == FriendlyNames.ExplicitTexts(nodes[..])
    {
      texts, explicit := {}, {};
      var i := 0;
      while i < nodes.Length
        invariant 0 <= i <= nodes.Length
        invariant texts == FriendlyNames.Texts(nodes[..i])
        invariant explicit == FriendlyNames.ExplicitTexts(nodes[..i])
      {
        FriendlyNames.TextsPrefix(nodes[..], i);
        FriendlyNames.ExplicitTextsPrefix(nodes[..], i);
        assert nodes[..][..i + 1] == nodes[..i + 1];
        texts := texts + {nodes[i].text};
        if !nodes[i].autogenerated {
          explicit := explicit + {nodes[i].text};
        }
        i := i + 1;
      }
      assert nodes[..nodes.Length] == nodes[..];
    }

    /** Names node i: a colliding name gets the first free candidate, which
        joins the registry. */
    method ResolveNode(i: int, resolveAll: bool, seen: set<string>, explicit: set<string>, taken: set<string>,
                       ghost ns: seq<FriendlyNames.NodeName>)
      returns (seenNext: set<string>, grown: set<string>)
      requires 0 <= i < |ns| && nodes[..] == FriendlyNames.NamedBefore(ns, resolveAll, i)
      requires seen == FriendlyNames.Texts(ns[..i]) && explicit == FriendlyNames.ExplicitTexts(ns)
      requires taken == FriendlyNames.Texts(ns) + FriendlyNames.Assigned(ns, resolveAll, i)
      modifies nodes
      ensures nodes[..] == FriendlyNames.NamedBefore(ns, resolveAll, i + 1)
      ensures seenNext == FriendlyNames.Texts(ns[..i + 1])
      ensures grown == FriendlyNames.Texts(ns) + FriendlyNames.Assigned(ns, resolveAll, i + 1)
    {
      FriendlyNames.TextsPrefix(ns, i);
      FriendlyNames.NamedBeforeStep(ns, resolveAll, i);
      var node := nodes[i];
      assert node == ns[i];
      grown := taken;
      if (resolveAll || node.autogenerated) && (node.text in seen || (!resolveAll && node.text in explicit)) {
        var k := NextFree(node.text, taken, FriendlyNames.FirstSuffix(resolveAll), false);
        nodes[i] := FriendlyNames.NodeName(Rename(node.text, k, false), false);
        grown := taken + {Rename(node.text, k, false)};
      }
      seenNext := seen + {node.text};
    }

    /** Tensor names: registers every name, then walks the outputs in order;
        in each, the names an earlier output carries are renamed, and the
        Results consuming that output see the same renaming. */
    method ResolveTensorNames()
      requires Valid()
      modifies tensors, results
      ensures Valid()
      ensures tensors[..] == TensorNames.Resolve(old(tensors[..]))
      ensures results[..] == TensorNames.ResolveResults(old(tensors[..]), old(results[..]))
    {
      ghost var ts := tensors[..];
      ghost var rs := results[..];
      TensorNames.ResolvedBeforeBounds(ts, rs);
      var taken := TensorNameSet();
      var claimed: set<string> := {};
      var i := 0;
      while i < tensors.Length
        invariant 0 <= i <= tensors.Length == |ts|
        invariant tensors[..] == TensorNames.ResolvedBefore(ts, i)
        invariant results[..] == TensorNames.ResultsBefore(ts, rs, i)
        invariant claimed == TensorNames.NamesBefore(ts, i)
        invariant taken == TensorNames.Taken(ts, i)
      {
        claimed, taken := ResolveOutput(i, claimed, taken, ts, rs);
        i := i + 1;
      }
      TensorNames.ResolvedWellFormed(ts, rs);
    }

    /** The registry of the tensor-name step: every name any output carries. */
    method TensorNameSet() returns (names: set<string>)
      ensures names == TensorNames.AllNames(tensors[..])
    {
      names := {};
      var i := 0;
      while i < tensors.Length
        invariant 0 <= i <= tensors.Length
        invariant names == TensorNames.AllNames(tensors[..i])
      {
        TensorNames.AllNamesPrefix(tensors[..], i);
        assert tensors[..][..i + 1] == tensors[..i + 1];
        names := names + tensors[i];
        i := i + 1;
      }
      assert tensors[..tensors.Length] == tensors[..];
    }

    /** Processes output i: renames the names an earlier output claimed, in
        the output and in the Results that list them, and returns the names
        claimed so far and the registry grown by the replacements. */
    method ResolveOutput(i: int, claimed: set<string>, taken: set<string>,
                         ghost ts: seq<set<string>>, ghost rs: seq<TensorNames.ResultTensor>)
      returns (claimedNext: set<string>, grown: set<string>)
      requires TensorNames.WellFormed(ts, rs) && 0 <= i < |ts|
      requires tensors[..] == TensorNames.ResolvedBefore(ts, i)
      requires results[..] == TensorNames.ResultsBefore(ts, rs, i)
      requires claimed == TensorNames.NamesBefore(ts, i) && taken == TensorNames.Taken(ts, i)
      modifies tensors, results
      ensures tensors[..] == TensorNames.ResolvedBefore(ts, i + 1)
      ensures results[..] == TensorNames.ResultsBefore(ts, rs, i + 1)
      ensures claimedNext == TensorNames.NamesBefore(ts, i + 1)
      ensures grown == TensorNames.Taken(ts, i + 1)
    {
      TensorNames.AllNamesPrefix(ts, i);
      TensorNames.TakenStep(ts, i);
      TensorNames.ResolvedBeforeStep(ts, i);
      var current := tensors[i];
      assert current == ts[i];
      var renamed;
      renamed, grown := TensorNames.RenameClaimed(current, claimed, taken);
      TensorNames.RenamingIsFix(renamed, current, current, claimed, taken);
      tensors[i] := set n | n in current :: if n in renamed then renamed[n] else n;
      RenameResultsOf(i, renamed, ts, rs);
      claimedNext := claimed + current;
    }

    /** Gives the Results that consume output i, and list names of their own,
        the renaming just applied to output i. */
    method RenameResultsOf(i: int, renamed: map<string, string>, ghost ts: seq<set<string>>, ghost rs: seq<TensorNames.ResultTensor>)
      requires TensorNames.WellFormed(ts, rs) && 0 <= i < |ts|
      requires renamed.Keys == ts[i] * TensorNames.NamesBefore(ts, i)
      requires forall n :: n in renamed ==>
        renamed[n] == TensorNames.Fix(n, TensorNames.NamesBefore(ts, i), TensorNames.Taken(ts, i))
      requires results[..] == TensorNames.ResultsBefore(ts, rs, i)
      modifies results
      ensures results[..] == TensorNames.ResultsBefore(ts, rs, i + 1)
    {
      var q := 0;
      while q < results.Length
        invariant 0 <= q <= results.Length
        invariant forall p :: 0 <= p < results.Length ==>
          results[p] == if rs[p].producer < i || (rs[p].producer == i && p < q)
                        then TensorNames.ResolveResult(ts, rs[p]) else rs[p]
      {
        var rt := results[q];
        if rt.producer == i && rt.names.Own? {
          var own := rt.names.names;
          TensorNames.RenamingIsFix(renamed, ts[i], own, TensorNames.NamesBefore(ts, i), TensorNames.Taken(ts, i));
          results[q] := TensorNames.ResultTensor(i, TensorNames.Own(set n | n in own :: if n in renamed then renamed[n] else n));
        }
        q := q + 1;
      }
      assert results[..] == TensorNames.ResultsBefore(ts, rs, i + 1);
    }

    /** One run of the pass: friendly names, then tensor names. */
    method Run(resolveAll: bool)
      requires Valid()
      modifies nodes, tensors, results
      ensures Valid()
      ensures nodes[..] == FriendlyNames.Resolve(old(nodes[..]), resolveAll)
      ensures tensors[..] == TensorNames.Resolve(old(tensors[..]))
      ensures results[..] == TensorNames.ResolveResults(old(tensors[..]), old(results[..]))
    {
      ResolveFriendlyNames(resolveAll);
      ResolveTensorNames();
    }
  }
}
