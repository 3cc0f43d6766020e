/** What the collision pass does to tensor names, as functions of the names
    it finds. Every output that is not a Result's has a set of names; the
    outputs are listed in traversal order (the parameters first, in the order
    of the model's parameter list, then the other nodes, then the `then` and
    `else` bodies of an If). A name is unique per output set, and a collision
    is resolved name by name, not output by output. */
module TensorNames {
  import opened Names
  import opened Registry

  /** How a Result's output reports its names: the names of the output it
      consumes, or a set of its own, which the graph builder also adds to the
      consumed output's names. */
  datatype ResultNames = Inherited | Own(names: set<string>)

  /** A Result: the index of the output it consumes, and its names. */
  datatype ResultTensor = ResultTensor(producer: nat, names: ResultNames)

  function AllNames(ts: seq<set<string>>): set<string>
  {
    set i, n | 0 <= i < |ts| && n in ts[i] :: n
  }

  /** Names carried by the outputs before output i. */
  function NamesBefore(ts: seq<set<string>>, i: int): set<string>
    requires 0 <= i <= |ts|
  {
    AllNames(ts[..i])
  }

  /** The name that replaces n: unchanged unless an earlier output claimed it,
      otherwise its first numbered candidate (from 1) not in taken, with the
      port qualifier kept. */
  function Fix(n: string, claimed: set<string>, taken: set<string>): string
  {
    if n in claimed then Rename(n, MinFree(n, taken, 1, true), true) else n
  }

  function FixAll(s: set<string>, claimed: set<string>, taken: set<string>): set<string>
  {
    set n | n in s :: Fix(n, claimed, taken)
  }

  /** The replacements given to the claimed names of one output. */
  function Fresh(s: set<string>, claimed: set<string>, taken: set<string>): set<string>
  {
    set n | n in s && n in claimed :: Rename(n, MinFree(n, taken, 1, true), true)
  }

  /** The replacements given to the outputs before output i. */
  function Assigned(ts: seq<set<string>>, i: int): set<string>
    requires 0 <= i <= |ts|
  {
    if i == 0 then {}
    else
      var before := Assigned(ts, i - 1);
      before + Fresh(ts[i - 1], NamesBefore(ts, i - 1), AllNames(ts) + before)
  }

  /** The names a replacement for output i must avoid. */
  function Taken(ts: seq<set<string>>, i: int): set<string>
    requires 0 <= i <= |ts|
  {
    AllNames(ts) + Assigned(ts, i)
  }

  function NewNames(ts: seq<set<string>>, i: int): set<string>
    requires 0 <= i < |ts|
  {
    FixAll(ts[i], NamesBefore(ts, i), Taken(ts, i))
  }

  /** All output names after the pass. */
  function Resolve(ts: seq<set<string>>): seq<set<string>>
  {
    seq(|ts|, i requires 0 <= i < |ts| => NewNames(ts, i))
  }

  /** Each Result consumes an existing output, and its own names are names
      of that output. */
  predicate WellFormed(ts: seq<set<string>>, rs: seq<ResultTensor>)
  {
    forall r :: 0 <= r < |rs| ==>
      && rs[r].producer < |ts|
      && (rs[r].names.Own? ==> rs[r].names.names <= ts[rs[r].producer])
  }

  /** The names a Result's output reports. */
  function View(ts: seq<set<string>>, rt: ResultTensor): set<string>
    requires rt.producer < |ts|
  {
    match rt.names
    case Inherited => ts[rt.producer]
    case Own(s) => s
  }

  /** A Result's own names are renamed exactly as in the output it consumes. */
  function ResolveResult(ts: seq<set<string>>, rt: ResultTensor): ResultTensor
    requires rt.producer < |ts|
  {
    match rt.names
    case Inherited => rt
    case Own(s) =>
      ResultTensor(rt.producer, Own(FixAll(s, NamesBefore(ts, rt.producer), Taken(ts, rt.producer))))
  }

  function ResolveResults(ts: seq<set<string>>, rs: seq<ResultTensor>): seq<ResultTensor>
    requires WellFormed(ts, rs)
  {
    seq(|rs|, r requires 0 <= r < |rs| => ResolveResult(ts, rs[r]))
  }

  /** The outputs part way through the pass: outputs before i renamed, the
      rest as they were. */
  function ResolvedBefore(ts: seq<set<string>>, i: int): (r: seq<set<string>>)
    requires 0 <= i <= |ts|
    ensures |r| == |ts|
  {
    seq(|ts|, j requires 0 <= j < |ts| => if j < i then NewNames(ts, j) else ts[j])
  }

  /** The Results part way through the pass: those consuming an output
      before i renamed, the rest as they were. */
  function ResultsBefore(ts: seq<set<string>>, rs: seq<ResultTensor>, i: int): (r: seq<ResultTensor>)
    requires WellFormed(ts, rs) && 0 <= i <= |ts|
    ensures |r| == |rs|
  {
    seq(|rs|, q requires 0 <= q < |rs| => if rs[q].producer < i then ResolveResult(ts, rs[q]) else rs[q])
  }

  lemma ResolvedBeforeBounds(ts: seq<set<string>>, rs: seq<ResultTensor>)
    requires WellFormed(ts, rs)
    ensures ResolvedBefore(ts, 0) == ts && ResultsBefore(ts, rs, 0) == rs
    ensures ResolvedBefore(ts, |ts|) == Resolve(ts) && ResultsBefore(ts, rs, |ts|) == ResolveResults(ts, rs)
  {
  }

  lemma ResolvedBeforeStep(ts: seq<set<string>>, i: int)
    requires 0 <= i < |ts|
    ensures ResolvedBefore(ts, i + 1) == ResolvedBefore(ts, i)[i := NewNames(ts, i)]
  {
  }

  // ---------------------------------------------------------------------------
  // The per-output step, as the pass performs it

  /** Renames, one name at a time, the names of one output that an earlier
      output claimed, and returns the renaming together with the registry grown
      by the new names. Each replacement is searched for in the registry as it
      grows, yet it is the one the specification computes against the registry
      as it stood before this output: candidates of different names never
      coincide, so the order in which the set is walked does not matter. */
  method RenameClaimed(names: set<string>, claimed: set<string>, taken: set<string>)
    returns (renamed: map<string, string>, registry: set<string>)
    ensures renamed.Keys == names * claimed
    ensures forall n :: n in renamed ==> renamed[n] == Fix(n, claimed, taken) && renamed[n] !in taken
    ensures registry == taken + Fresh(names, claimed, taken)
  {
    var pending := names;
    registry := taken;
    renamed := map[];
    while pending != {}
      invariant pending <= names
      invariant renamed.Keys == (names - pending) * claimed
      invariant forall n :: n in renamed ==> renamed[n] == Fix(n, claimed, taken)
      invariant registry == taken + Fresh(names - pending, claimed, taken)
      decreases pending
    {
      var n :| n in pending;
      ghost var done := names - pending;
      FreshStep(done, n, claimed, taken);
      if n in claimed {
        FreshAvoids(done, n, claimed, taken);
        MinFreeIgnores(n, taken, Fresh(done, claimed, taken), 1, true);
        var k := NextFree(n, registry, 1, true);
        renamed := renamed[n := Rename(n, k, true)];
        registry := registry + {Rename(n, k, true)};
      }
      pending := pending - {n};
      assert names - pending == done + {n};
    }
    assert names - pending == names;
  }

  /** Applying the renaming RenameClaimed returns to any part of the output
      gives the names the specification assigns to that part. */
  lemma RenamingIsFix(renamed: map<string, string>, names: set<string>, part: set<string>,
                      claimed: set<string>, taken: set<string>)
    requires part <= names
    requires renamed.Keys == names * claimed
    requires forall n :: n in renamed ==> renamed[n] == Fix(n, claimed, taken)
    ensures (set n | n in part :: if n in renamed then renamed[n] else n) == FixAll(part, claimed, taken)
  {
  }

  lemma FreshStep(done: set<string>, n: string, claimed: set<string>, taken: set<string>)
    ensures Fresh(done + {n}, claimed, taken) ==
      Fresh(done, claimed, taken) + (if n in claimed then {Rename(n, MinFree(n, taken, 1, true), true)} else {})
  {
  }

  /** No candidate of a name is among the replacements of other names. */
  lemma FreshAvoids(done: set<string>, n: string, claimed: set<string>, taken: set<string>)
    requires n !in done
    ensures forall j :: 1 <= j ==> Rename(n, j, true) !in Fresh(done, claimed, taken)
  {
    forall j | 1 <= j ensures Rename(n, j, true) !in Fresh(done, claimed, taken) {
      if Rename(n, j, true) in Fresh(done, claimed, taken) {
        var m :| m in done && m in claimed && Rename(m, MinFree(m, taken, 1, true), true) == Rename(n, j, true);
        RenameInjective(m, MinFree(m, taken, 1, true), n, j, true);
      }
    }
  }

  // ---------------------------------------------------------------------------
  // Bookkeeping

  lemma NameIn(ts: seq<set<string>>, i: int, n: string)
    requires 0 <= i < |ts| && n in ts[i]
    ensures n in AllNames(ts)
  {
  }

  lemma AllNamesPrefix(ts: seq<set<string>>, i: int)
    requires 0 <= i < |ts|
    ensures AllNames(ts[..i + 1]) == AllNames(ts[..i]) + ts[i]
  {
    forall x | x in AllNames(ts[..i + 1]) ensures x in AllNames(ts[..i]) + ts[i] {
      var j :| 0 <= j < i + 1 && x in ts[..i + 1][j];
      if j < i { assert ts[..i][j] == ts[..i + 1][j]; }
    }
    forall x | x in AllNames(ts[..i]) ensures x in AllNames(ts[..i + 1]) {
      var j :| 0 <= j < i && x in ts[..i][j];
      assert ts[..i + 1][j] == ts[..i][j];
    }
    assert ts[..i + 1][i] == ts[i];
  }

  /** Output i's replacements are what the registry gains while it is processed. */
  lemma TakenStep(ts: seq<set<string>>, i: int)
    requires 0 <= i < |ts|
    ensures Taken(ts, i + 1) == Taken(ts, i) + Fresh(ts[i], NamesBefore(ts, i), Taken(ts, i))
  {
  }

  lemma NameBefore(ts: seq<set<string>>, j: int, i: int, n: string)
    requires 0 <= j < i <= |ts| && n in ts[j]
    ensures n in NamesBefore(ts, i)
  {
    assert ts[..i][j] == ts[j];
  }

  lemma {:induction false} AssignedHas(ts: seq<set<string>>, i: int, j: int, x: string)
    requires 0 <= i < j <= |ts|
    requires x in Fresh(ts[i], NamesBefore(ts, i), Taken(ts, i))
    ensures x in Assigned(ts, j)
    decreases j
  {
    if j > i + 1 {
      AssignedHas(ts, i, j - 1, x);
    }
  }

  lemma {:induction false} AssignedFrom(ts: seq<set<string>>, j: int, x: string)
    requires 0 <= j <= |ts|
    requires x in Assigned(ts, j)
    ensures exists i :: 0 <= i < j && x in Fresh(ts[i], NamesBefore(ts, i), Taken(ts, i))
    decreases j
  {
    if x in Assigned(ts, j - 1) {
      AssignedFrom(ts, j - 1, x);
    }
  }

  /** Fix is one-to-one on the names already taken. */
  lemma FixInjective(n: string, m: string, claimed: set<string>, taken: set<string>)
    requires n in taken && m in taken
    requires Fix(n, claimed, taken) == Fix(m, claimed, taken)
    ensures n == m
  {
    if n in claimed && m in claimed {
      RenameInjective(n, MinFree(n, taken, 1, true), m, MinFree(m, taken, 1, true), true);
    }
  }

  lemma {:induction false} FixAllSize(s: set<string>, claimed: set<string>, taken: set<string>)
    requires s <= taken
    ensures |FixAll(s, claimed, taken)| == |s|
    decreases s
  {
    if s != {} {
      var x :| x in s;
      var rest := s - {x};
      FixAllSize(rest, claimed, taken);
      assert FixAll(s, claimed, taken) == FixAll(rest, claimed, taken) + {Fix(x, claimed, taken)};
      if Fix(x, claimed, taken) in FixAll(rest, claimed, taken) {
        var y :| y in rest && Fix(y, claimed, taken) == Fix(x, claimed, taken);
        FixInjective(x, y, claimed, taken);
        assert false;
      }
    }
  }

  // ---------------------------------------------------------------------------
  // Properties of the pass

  /** A name no earlier output carries stays; a name an earlier output carries
      is gone from the output and replaced by a numbered spelling of it that
      was no name of the graph. */
  lemma NameFate(ts: seq<set<string>>, i: int, n: string)
    requires 0 <= i < |ts| && n in ts[i]
    ensures n !in NamesBefore(ts, i) ==> n in Resolve(ts)[i]
    ensures n in NamesBefore(ts, i) ==>
      && n !in Resolve(ts)[i]
      && exists k :: k >= 1 && Rename(n, k, true) in Resolve(ts)[i] && Rename(n, k, true) !in AllNames(ts)
  {
    var r := Resolve(ts)[i];
    var c, t := NamesBefore(ts, i), Taken(ts, i);
    assert r == FixAll(ts[i], c, t);
    assert Fix(n, c, t) in r;
    if n in c {
      NameIn(ts, i, n);
    }
  }

  /** An output none of whose names an earlier output carries keeps its names
      exactly; in particular the first output in traversal order does. */
  lemma Uncontested(ts: seq<set<string>>, i: int)
    requires 0 <= i < |ts|
    requires forall n :: n in ts[i] ==> n !in NamesBefore(ts, i)
    ensures Resolve(ts)[i] == ts[i]
  {
    assert FixAll(ts[i], NamesBefore(ts, i), Taken(ts, i)) == ts[i];
  }

  /** The pass keeps the number of names of every output. */
  lemma SizeKept(ts: seq<set<string>>, i: int)
    requires 0 <= i < |ts|
    ensures |Resolve(ts)[i]| == |ts[i]|
  {
    forall n | n in ts[i] ensures n in Taken(ts, i) { NameIn(ts, i, n); }
    FixAllSize(ts[i], NamesBefore(ts, i), Taken(ts, i));
  }

  lemma {:induction false} DisjointOrdered(ts: seq<set<string>>, i: int, j: int, x: string)
    requires 0 <= i < j < |ts|
    requires x in Resolve(ts)[i]
    ensures x !in Resolve(ts)[j]
  {
    if x !in Resolve(ts)[j] { return; }
    var ci, ti := NamesBefore(ts, i), Taken(ts, i);
    var cj, tj := NamesBefore(ts, j), Taken(ts, j);
    assert x in FixAll(ts[i], ci, ti);
    assert x in FixAll(ts[j], cj, tj);
    var n :| n in ts[i] && Fix(n, ci, ti) == x;
    var m :| m in ts[j] && Fix(m, cj, tj) == x;
    NameIn(ts, i, n);
    NameIn(ts, j, m);
    if m in cj {
      if n in ci {
        assert x in Fresh(ts[i], ci, ti);
        AssignedHas(ts, i, j, x);
      }
    } else {
      NameBefore(ts, i, j, n);
    }
  }

  /** After the pass no name belongs to two outputs. */
  lemma Disjoint(ts: seq<set<string>>, i: int, j: int)
    requires 0 <= i < |ts| && 0 <= j < |ts| && i != j
    ensures Resolve(ts)[i] !! Resolve(ts)[j]
  {
    forall x | x in Resolve(ts)[i] ensures x !in Resolve(ts)[j] {
      if i < j {
        DisjointOrdered(ts, i, j, x);
      } else if x in Resolve(ts)[j] {
        DisjointOrdered(ts, j, i, x);
      }
    }
  }

  /** After the pass no earlier output carries a name of output i. */
  lemma UnclaimedAfter(ts: seq<set<string>>, i: int, n: string)
    requires 0 <= i < |ts| && n in Resolve(ts)[i]
    ensures n !in NamesBefore(Resolve(ts), i)
  {
    var r := Resolve(ts);
    if n in NamesBefore(r, i) {
      var j, x :| 0 <= j < i && x in r[..i][j] && x == n;
      assert r[..i][j] == r[j];
      Disjoint(ts, i, j);
    }
  }

  /** Running the pass a second time changes no tensor name. */
  lemma Idempotent(ts: seq<set<string>>)
    ensures Resolve(Resolve(ts)) == Resolve(ts)
  {
    var r := Resolve(ts);
    forall i | 0 <= i < |r| ensures Resolve(r)[i] == r[i] {
      forall n | n in r[i] ensures n !in NamesBefore(r, i) {
        UnclaimedAfter(ts, i, n);
      }
      Uncontested(r, i);
    }
  }

  /** Running the pass a second time changes no name a Result reports. */
  lemma ResultsIdempotent(ts: seq<set<string>>, rs: seq<ResultTensor>)
    requires WellFormed(ts, rs)
    ensures WellFormed(Resolve(ts), ResolveResults(ts, rs))
    ensures ResolveResults(Resolve(ts), ResolveResults(ts, rs)) == ResolveResults(ts, rs)
  {
    ResolvedWellFormed(ts, rs);
    var r, rs' := Resolve(ts), ResolveResults(ts, rs);
    forall q | 0 <= q < |rs'| ensures ResolveResult(r, rs'[q]) == rs'[q] {
      if rs'[q].names.Own? {
        var p, s := rs'[q].producer, rs'[q].names.names;
        forall n | n in s ensures Fix(n, NamesBefore(r, p), Taken(r, p)) == n {
          UnclaimedAfter(ts, p, n);
        }
        assert FixAll(s, NamesBefore(r, p), Taken(r, p)) == s;
      }
    }
  }

  /** The second output to carry a name, when no output in between carried
      it, gets `<base>_1<port>`, provided that spelling is no name of the
      graph: `input_2` becomes `input_2_1`, `input:1` becomes `input_1:1`. */
  lemma SecondHolderGetsOne(ts: seq<set<string>>, i: int, n: string)
    requires 0 <= i < |ts| && n in ts[i] && n in NamesBefore(ts, i)
    requires forall j :: 0 <= j < i && n in ts[j] ==> n !in NamesBefore(ts, j)
    requires Rename(n, 1, true) !in AllNames(ts)
    ensures Rename(n, 1, true) in Resolve(ts)[i]
    ensures Rename(n, 1, true) == Base(n, true) + "_1" + Port(n, true)
  {
    var x := Rename(n, 1, true);
    if x in Assigned(ts, i) {
      AssignedFrom(ts, i, x);
      var j :| 0 <= j < i && x in Fresh(ts[j], NamesBefore(ts, j), Taken(ts, j));
      var m :| m in ts[j] && m in NamesBefore(ts, j) && x == Rename(m, MinFree(m, Taken(ts, j), 1, true), true);
      RenameInjective(m, MinFree(m, Taken(ts, j), 1, true), n, 1, true);
      assert false;
    }
    assert MinFree(n, Taken(ts, i), 1, true) == 1;
    assert Fix(n, NamesBefore(ts, i), Taken(ts, i)) == x;
    assert Decimal(1) == "1";
  }

  /** After the pass every Result still consumes an existing output and
      reports only names of it: all of them when it has no names of its own,
      otherwise its own names renamed as the output's were, as many as before,
      each one that no earlier output carried unchanged. */
  lemma ResultsFollowProducers(ts: seq<set<string>>, rs: seq<ResultTensor>, r: int)
    requires WellFormed(ts, rs)
    requires 0 <= r < |rs|
    ensures var p := rs[r].producer;
      var after := View(Resolve(ts), ResolveResults(ts, rs)[r]);
      && after <= Resolve(ts)[p]
      && (rs[r].names.Inherited? ==> after == Resolve(ts)[p])
      && |after| == |View(ts, rs[r])|
      && forall n :: n in View(ts, rs[r]) && n !in NamesBefore(ts, p) ==> n in after
  {
    ResolvedWellFormed(ts, rs);
    var p := rs[r].producer;
    SizeKept(ts, p);
    if rs[r].names.Own? {
      var s := rs[r].names.names;
      forall n | n in s ensures n in Taken(ts, p) { NameIn(ts, p, n); }
      FixAllSize(s, NamesBefore(ts, p), Taken(ts, p));
    }
  }

  /** The pass keeps every Result attached to an existing output, with own
      names among that output's names. */
  lemma ResolvedWellFormed(ts: seq<set<string>>, rs: seq<ResultTensor>)
    requires WellFormed(ts, rs)
    ensures WellFormed(Resolve(ts), ResolveResults(ts, rs))
  {
    var ts' := Resolve(ts);
    var rs' := ResolveResults(ts, rs);
    forall q | 0 <= q < |rs'| ensures rs'[q].producer < |ts'|
      && (rs'[q].names.Own? ==> rs'[q].names.names <= ts'[rs'[q].producer])
    {
      var p := rs[q].producer;
      if rs[q].names.Own? {
        var s := rs[q].names.names;
        assert rs'[q].names.names == FixAll(s, NamesBefore(ts, p), Taken(ts, p));
        assert ts'[p] == FixAll(ts[p], NamesBefore(ts, p), Taken(ts, p));
      }
    }
  }
}
