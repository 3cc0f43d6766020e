/** What the collision pass does to node friendly names, as functions of the
    names it finds. The graph is flattened in traversal order: the outer graph,
    then the `then` body, then the `else` body of an If, all one namespace. */
module FriendlyNames {
  import opened Names
  import opened Registry

  /** A node's friendly name, and whether the graph builder generated it (it
      stops being generated once set_friendly_name is called on the node). */
  datatype NodeName = NodeName(text: string, autogenerated: bool)

  function Texts(ns: seq<NodeName>): set<string>
  {
    set i | 0 <= i < |ns| :: ns[i].text
  }

  function ExplicitTexts(ns: seq<NodeName>): set<string>
  {
    set i | 0 <= i < |ns| && !ns[i].autogenerated :: ns[i].text
  }

  /** Default mode numbers replacements from 2, resolve-all mode from 1. */
  function FirstSuffix(resolveAll: bool): nat
  {
    if resolveAll then 1 else 2
  }

  /** Whether node i is renamed. In default mode only a generated name is
      renamed, when some explicitly named node or an earlier node carries it.
      In resolve-all mode every name that an earlier node carries is renamed. */
  predicate Collides(ns: seq<NodeName>, resolveAll: bool, i: int)
    requires 0 <= i < |ns|
  {
    && (resolveAll || ns[i].autogenerated)
    && (ns[i].text in Texts(ns[..i]) || (!resolveAll && ns[i].text in ExplicitTexts(ns)))
  }

  /** The first free numbered candidate of text, given the names taken. */
  function Replacement(text: string, taken: set<string>, resolveAll: bool): string
  {
    Rename(text, MinFree(text, taken, FirstSuffix(resolveAll), false), false)
  }

  /** The replacements given to the nodes before node i. */
  function Assigned(ns: seq<NodeName>, resolveAll: bool, i: int): set<string>
    requires 0 <= i <= |ns|
  {
    if i == 0 then {}
    else
      var before := Assigned(ns, resolveAll, i - 1);
      if Collides(ns, resolveAll, i - 1)
      then before + {Replacement(ns[i - 1].text, Texts(ns) + before, resolveAll)}
      else before
  }

  /** Node i's name after the pass: a collision is replaced by the first
      candidate that neither an original name nor an earlier replacement took,
      and the node then counts as explicitly named. */
  function NewName(ns: seq<NodeName>, resolveAll: bool, i: int): NodeName
    requires 0 <= i < |ns|
  {
    if Collides(ns, resolveAll, i)
    then NodeName(Replacement(ns[i].text, Texts(ns) + Assigned(ns, resolveAll, i), resolveAll), false)
    else ns[i]
  }

  /** All node names after the pass. */
  function Resolve(ns: seq<NodeName>, resolveAll: bool): seq<NodeName>
  {
    seq(|ns|, i requires 0 <= i < |ns| => NewName(ns, resolveAll, i))
  }

  /** The names part way through the pass: nodes before i renamed, the
      rest as they were. */
  function NamedBefore(ns: seq<NodeName>, resolveAll: bool, i: int): (r: seq<NodeName>)
    requires 0 <= i <= |ns|
    ensures |r| == |ns|
  {
    seq(|ns|, j requires 0 <= j < |ns| => if j < i then NewName(ns, resolveAll, j) else ns[j])
  }

  lemma NamedBeforeBounds(ns: seq<NodeName>, resolveAll: bool)
    ensures NamedBefore(ns, resolveAll, 0) == ns
    ensures NamedBefore(ns, resolveAll, |ns|) == Resolve(ns, resolveAll)
  {
  }

  lemma NamedBeforeStep(ns: seq<NodeName>, resolveAll: bool, i: int)
    requires 0 <= i < |ns|
    ensures NamedBefore(ns, resolveAll, i + 1) == NamedBefore(ns, resolveAll, i)[i := NewName(ns, resolveAll, i)]
  {
  }

  /** Number of nodes before i whose name is t. */
  function Occurrences(ns: seq<NodeName>, i: int, t: string): nat
    requires 0 <= i <= |ns|
  {
    if i == 0 then 0 else Occurrences(ns, i - 1, t) + (if ns[i - 1].text == t then 1 else 0)
  }

  // ---------------------------------------------------------------------------
  // Bookkeeping about the replacements handed out so far

  lemma {:induction false} AssignedHas(ns: seq<NodeName>, resolveAll: bool, i: int, j: int)
    requires 0 <= i < j <= |ns|
    requires Collides(ns, resolveAll, i)
    ensures NewName(ns, resolveAll, i).text in Assigned(ns, resolveAll, j)
    decreases j
  {
    if j > i + 1 {
      AssignedHas(ns, resolveAll, i, j - 1);
    }
  }

  lemma {:induction false} AssignedFrom(ns: seq<NodeName>, resolveAll: bool, j: int, x: string)
    requires 0 <= j <= |ns|
    requires x in Assigned(ns, resolveAll, j)
    ensures exists i :: 0 <= i < j && Collides(ns, resolveAll, i) && NewName(ns, resolveAll, i).text == x
    decreases j
  {
    if x in Assigned(ns, resolveAll, j - 1) {
      AssignedFrom(ns, resolveAll, j - 1, x);
    } else {
      assert NewName(ns, resolveAll, j - 1).text == x;
    }
  }

  lemma TextIn(ns: seq<NodeName>, i: int)
    requires 0 <= i < |ns|
    ensures ns[i].text in Texts(ns)
    ensures !ns[i].autogenerated ==> ns[i].text in ExplicitTexts(ns)
  {
  }

  lemma TextBefore(ns: seq<NodeName>, j: int, i: int)
    requires 0 <= j < i < |ns|
    ensures ns[j].text in Texts(ns[..i])
  {
    assert ns[..i][j] == ns[j];
  }

  // ---------------------------------------------------------------------------
  // Properties of the pass

  /** A node's name changes exactly when it collides; a changed name is
      `<old name>_<k>` with k from the mode's first suffix on, is explicit from
      then on, and equals no name the graph had before the pass. */
  lemma ChangedIffCollides(ns: seq<NodeName>, resolveAll: bool, i: int)
    requires 0 <= i < |ns|
    ensures Resolve(ns, resolveAll)[i] != ns[i] <==> Collides(ns, resolveAll, i)
    ensures Collides(ns, resolveAll, i) ==>
      && !Resolve(ns, resolveAll)[i].autogenerated
      && Resolve(ns, resolveAll)[i].text !in Texts(ns)
      && exists k :: k >= FirstSuffix(resolveAll) && Resolve(ns, resolveAll)[i].text == ns[i].text + "_" + Decimal(k)
  {
    var r := Resolve(ns, resolveAll);
    if Collides(ns, resolveAll, i) {
      var k := MinFree(ns[i].text, Texts(ns) + Assigned(ns, resolveAll, i), FirstSuffix(resolveAll), false);
      NoColonSpelling(ns[i].text, k, false);
      assert r[i].text == ns[i].text + "_" + Decimal(k);
      TextIn(ns, i);
    }
  }

  /** In default mode an explicitly set name is never changed, even when
      another explicitly set name equals it. */
  lemma DefaultKeepsExplicit(ns: seq<NodeName>, i: int)
    requires 0 <= i < |ns|
    requires !ns[i].autogenerated
    ensures Resolve(ns, false)[i] == ns[i]
  {
  }

  /** In resolve-all mode the first node carrying a name keeps it, whether it
      was generated or set. */
  lemma ResolveAllKeepsFirst(ns: seq<NodeName>, i: int)
    requires 0 <= i < |ns|
    requires forall j :: 0 <= j < i ==> ns[j].text != ns[i].text
    ensures Resolve(ns, true)[i] == ns[i]
  {
  }

  lemma {:induction false} UniqueOrdered(ns: seq<NodeName>, resolveAll: bool, i: int, j: int)
    requires 0 <= i < j < |ns|
    requires Resolve(ns, resolveAll)[i].text == Resolve(ns, resolveAll)[j].text
    ensures !resolveAll && !ns[i].autogenerated && !ns[j].autogenerated
  {
    var r := Resolve(ns, resolveAll);
    TextIn(ns, i);
    TextIn(ns, j);
    if Collides(ns, resolveAll, j) {
      assert r[j].text !in Texts(ns) + Assigned(ns, resolveAll, j);
      if Collides(ns, resolveAll, i) {
        AssignedHas(ns, resolveAll, i, j);
      }
      assert false;
    } else if Collides(ns, resolveAll, i) {
      assert false;
    } else {
      TextBefore(ns, i, j);
    }
  }

  /** After the pass no two nodes share a name, except two nodes whose names
      were both set explicitly, in default mode, and which keep them. In
      resolve-all mode every name is unique. */
  lemma Unique(ns: seq<NodeName>, resolveAll: bool, i: int, j: int)
    requires 0 <= i < |ns| && 0 <= j < |ns| && i != j
    requires Resolve(ns, resolveAll)[i].text == Resolve(ns, resolveAll)[j].text
    ensures !resolveAll && !ns[i].autogenerated && !ns[j].autogenerated
    ensures Resolve(ns, resolveAll)[i] == ns[i] && Resolve(ns, resolveAll)[j] == ns[j]
  {
    if i < j {
      UniqueOrdered(ns, resolveAll, i, j);
    } else {
      UniqueOrdered(ns, resolveAll, j, i);
    }
  }

  /** Default mode: a generated name that an explicitly named node also
      carries becomes `<name>_2`, provided that spelling is not in use and no
      earlier generated node carried the same name. */
  lemma DefaultSecondSuffix(ns: seq<NodeName>, i: int)
    requires 0 <= i < |ns|
    requires ns[i].autogenerated && ns[i].text in ExplicitTexts(ns)
    requires forall j :: 0 <= j < i && ns[j].autogenerated ==> ns[j].text != ns[i].text
    requires ns[i].text + "_2" !in Texts(ns)
    ensures Resolve(ns, false)[i] == NodeName(ns[i].text + "_2", false)
  {
    var t := ns[i].text;
    var taken := Texts(ns) + Assigned(ns, false, i);
    NoColonSpelling(t, 2, false);
    assert Decimal(2) == "2";
    assert Rename(t, 2, false) == t + "_2";
    if Rename(t, 2, false) in Assigned(ns, false, i) {
      AssignedFrom(ns, false, i, Rename(t, 2, false));
      var j :| 0 <= j < i && Collides(ns, false, j) && NewName(ns, false, j).text == Rename(t, 2, false);
      RenameInjective(ns[j].text, MinFree(ns[j].text, Texts(ns) + Assigned(ns, false, j), 2, false), t, 2, false);
      assert false;
    }
    assert MinFree(t, taken, 2, false) == 2;
  }

  lemma {:induction false} NoOccurrenceNoText(ns: seq<NodeName>, i: int, t: string)
    requires 0 <= i <= |ns|
    ensures Occurrences(ns, i, t) == 0 <==> t !in Texts(ns[..i])
    decreases i
  {
    if i > 0 {
      NoOccurrenceNoText(ns, i - 1, t);
      TextsPrefix(ns, i - 1);
    }
  }

  lemma TextsPrefix(ns: seq<NodeName>, i: int)
    requires 0 <= i < |ns|
    ensures Texts(ns[..i + 1]) == Texts(ns[..i]) + {ns[i].text}
  {
    forall x | x in Texts(ns[..i + 1]) ensures x in Texts(ns[..i]) + {ns[i].text} {
      var j :| 0 <= j < i + 1 && ns[..i + 1][j].text == x;
      if j < i { assert ns[..i][j] == ns[..i + 1][j]; }
    }
    forall x | x in Texts(ns[..i]) ensures x in Texts(ns[..i + 1]) {
      var j :| 0 <= j < i && ns[..i][j].text == x;
      assert ns[..i + 1][j] == ns[..i][j];
    }
    assert ns[..i + 1][i] == ns[i];
  }

  lemma ExplicitTextsPrefix(ns: seq<NodeName>, i: int)
    requires 0 <= i < |ns|
    ensures ExplicitTexts(ns[..i + 1]) ==
      ExplicitTexts(ns[..i]) + (if ns[i].autogenerated then {} else {ns[i].text})
  {
    var own := if ns[i].autogenerated then {} else {ns[i].text};
    forall x | x in ExplicitTexts(ns[..i + 1]) ensures x in ExplicitTexts(ns[..i]) + own {
      var j :| 0 <= j < i + 1 && !ns[..i + 1][j].autogenerated && ns[..i + 1][j].text == x;
      if j < i { assert ns[..i][j] == ns[..i + 1][j]; }
    }
    forall x | x in ExplicitTexts(ns[..i]) ensures x in ExplicitTexts(ns[..i + 1]) {
      var j :| 0 <= j < i && !ns[..i][j].autogenerated && ns[..i][j].text == x;
      assert ns[..i + 1][j] == ns[..i][j];
    }
    assert ns[..i + 1][i] == ns[i];
  }

  /** Resolve-all mode: while the numbered spellings of t up to `bound` are not
      original names, the replacements handed out for t before node i are
      exactly `t_1` ... `t_(c-1)`, c being the number of earlier nodes named t. */
  lemma {:induction false} AssignedForText(ns: seq<NodeName>, t: string, i: int, bound: nat)
    requires 0 <= i <= |ns|
    requires Occurrences(ns, i, t) <= bound
    requires forall k :: 1 <= k <= bound ==> Rename(t, k, false) !in Texts(ns)
    ensures forall k :: 1 <= k <= bound ==>
      (Rename(t, k, false) in Assigned(ns, true, i) <==> k < Occurrences(ns, i, t))
    decreases i
  {
    if i > 0 {
      var u := ns[i - 1].text;
      var before := Assigned(ns, true, i - 1);
      AssignedForText(ns, t, i - 1, bound);
      if Collides(ns, true, i - 1) {
        var m := MinFree(u, Texts(ns) + before, 1, false);
        assert Assigned(ns, true, i) == before + {Rename(u, m, false)};
        if u == t {
          var c := Occurrences(ns, i - 1, t);
          NoOccurrenceNoText(ns, i - 1, t);
          MinFreeUnique(t, Texts(ns) + before, 1, false, c);
          forall k | 1 <= k <= bound && Rename(t, k, false) == Rename(u, m, false) ensures k == c {
            RenameInjective(t, k, u, m, false);
          }
        } else {
          forall k | 1 <= k <= bound ensures Rename(t, k, false) != Rename(u, m, false) {
            if Rename(t, k, false) == Rename(u, m, false) {
              RenameInjective(t, k, u, m, false);
            }
          }
        }
      } else if u == t {
        NoOccurrenceNoText(ns, i - 1, t);
      }
    }
  }

  /** Resolve-all mode numbers repeated names in traversal order: the node
      that is the c-th repetition of a name t gets `t_c`, as long as none of
      `t_1` ... `t_c` was already a name in the graph. */
  lemma ResolveAllNumbersRepeats(ns: seq<NodeName>, i: int)
    requires 0 <= i < |ns|
    requires Occurrences(ns, i, ns[i].text) >= 1
    requires forall k :: 1 <= k <= Occurrences(ns, i, ns[i].text) ==> ns[i].text + "_" + Decimal(k) !in Texts(ns)
    ensures Resolve(ns, true)[i] == NodeName(ns[i].text + "_" + Decimal(Occurrences(ns, i, ns[i].text)), false)
  {
    var t := ns[i].text;
    var c := Occurrences(ns, i, t);
    forall k | 1 <= k <= c ensures Rename(t, k, false) !in Texts(ns) {
      NoColonSpelling(t, k, false);
    }
    AssignedForText(ns, t, i, c);
    NoOccurrenceNoText(ns, i, t);
    MinFreeUnique(t, Texts(ns) + Assigned(ns, true, i), 1, false, c);
    NoColonSpelling(t, c, false);
  }

  /** Running the pass a second time, in the same mode, changes nothing. */
  lemma Idempotent(ns: seq<NodeName>, resolveAll: bool)
    ensures Resolve(Resolve(ns, resolveAll), resolveAll) == Resolve(ns, resolveAll)
  {
    var r := Resolve(ns, resolveAll);
    forall i | 0 <= i < |r| ensures !Collides(r, resolveAll, i) {
      if Collides(r, resolveAll, i) {
        if r[i].text in Texts(r[..i]) {
          var j :| 0 <= j < i && r[..i][j].text == r[i].text;
          assert r[j].text == r[i].text;
          Unique(ns, resolveAll, j, i);
        } else {
          var j :| 0 <= j < |r| && !r[j].autogenerated && r[j].text == r[i].text;
          Unique(ns, resolveAll, j, i);
        }
        assert false;
      }
    }
  }
}
