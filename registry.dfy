/** The name registry of one pass run: the set of names already taken, and
    the search for the first free numbered candidate of a colliding name. */
module Registry {
  import opened Names

  /** A bound on the length of every name in taken. */
  ghost function MaxLength(taken: set<string>): (m: nat)
    ensures forall t :: t in taken ==> |t| <= m
  {
    if taken == {} then 0
    else
      var t :| t in taken;
      var rest := MaxLength(taken - {t});
      if |t| > rest then |t| else rest
  }

  /** Only finitely many candidates of a name can be taken: from 10^MaxLength
      on, every candidate is longer than any taken name. */
  lemma TakenCandidateBelow(name: string, taken: set<string>, k: nat, keepPort: bool)
    requires Rename(name, k, keepPort) in taken
    ensures k < Pow10(MaxLength(taken))
  {
    RenameLength(name, k, keepPort);
    if k >= Pow10(MaxLength(taken)) {
      DecimalLength(k, MaxLength(taken));
    }
  }

  /** The smallest suffix k >= start whose candidate is not taken. */
  function MinFree(name: string, taken: set<string>, start: nat, keepPort: bool): (k: nat)
    ensures k >= start
    ensures Rename(name, k, keepPort) !in taken
    ensures forall j :: start <= j < k ==> Rename(name, j, keepPort) in taken
    decreases Pow10(MaxLength(taken)) - start
  {
    if Rename(name, start, keepPort) !in taken then start
    else
      TakenCandidateBelow(name, taken, start, keepPort);
      MinFree(name, taken, start + 1, keepPort)
  }

  /** The three properties of MinFree determine it. */
  lemma MinFreeUnique(name: string, taken: set<string>, start: nat, keepPort: bool, k: nat)
    requires k >= start
    requires Rename(name, k, keepPort) !in taken
    requires forall j :: start <= j < k ==> Rename(name, j, keepPort) in taken
    ensures k == MinFree(name, taken, start, keepPort)
  {
  }

  /** Names that are no candidate of `name` do not move its first free suffix. */
  lemma MinFreeIgnores(name: string, taken: set<string>, extra: set<string>, start: nat, keepPort: bool)
    requires forall j :: start <= j ==> Rename(name, j, keepPort) !in extra
    ensures MinFree(name, taken + extra, start, keepPort) == MinFree(name, taken, start, keepPort)
  {
    var k := MinFree(name, taken, start, keepPort);
    MinFreeUnique(name, taken + extra, start, keepPort, k);
  }

  /** The registry's counter loop: try `start`, `start + 1`, ... until the
      candidate is not taken. */
  method NextFree(name: string, taken: set<string>, start: nat, keepPort: bool) returns (k: nat)
    ensures k >= start
    ensures Rename(name, k, keepPort) !in taken
    ensures forall j :: start <= j < k ==> Rename(name, j, keepPort) in taken
    ensures k == MinFree(name, taken, start, keepPort)
  {
    k := start;
    while Rename(name, k, keepPort) in taken
      invariant k >= start
      invariant forall j :: start <= j < k ==> Rename(name, j, keepPort) in taken
      decreases Pow10(MaxLength(taken)) - k
    {
      TakenCandidateBelow(name, taken, k, keepPort);
      k := k + 1;
    }
    MinFreeUnique(name, taken, start, keepPort, k);
  }
}
