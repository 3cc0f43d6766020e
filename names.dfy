/** Spelling of the names the collision pass invents: a numeric suffix
    appended to a friendly name (`concat` becomes `concat_2`), or to the base
    of a port-qualified tensor name (`input:1` becomes `input_1:1`). */
module Names {

  /** The decimal digit for d. */
  function Digit(d: nat): (c: char)
    requires d < 10
    ensures '0' <= c <= '9'
  {
    ('0' as int + d) as char
  }

  /** Decimal spelling of k, most significant digit first, as std::to_string prints it. */
  function Decimal(k: nat): (s: string)
    ensures |s| >= 1
    ensures forall i :: 0 <= i < |s| ==> '0' <= s[i] <= '9'
    decreases k
  {
    if k < 10 then [Digit(k)] else Decimal(k / 10) + [Digit(k % 10)]
  }

  function Pow10(m: nat): (p: nat)
    ensures p >= 1
  {
    if m == 0 then 1 else 10 * Pow10(m - 1)
  }

  /** Two numbers with the same spelling are equal. */
  lemma {:induction false} DecimalInjective(a: nat, b: nat)
    requires Decimal(a) == Decimal(b)
    ensures a == b
    decreases a
  {
    if a < 10 && b < 10 {
      assert Decimal(a)[0] == Digit(a) && Decimal(b)[0] == Digit(b);
    } else if a < 10 || b < 10 {
      assert false;
    } else {
      var s := Decimal(a);
      assert s == Decimal(a / 10) + [Digit(a % 10)];
      assert s == Decimal(b / 10) + [Digit(b % 10)];
      assert Digit(a % 10) == s[|s| - 1] == Digit(b % 10);
      assert Decimal(a / 10) == s[..|s| - 1] == Decimal(b / 10);
      DecimalInjective(a / 10, b / 10);
    }
  }

  /** A number at least 10^m needs more than m digits. */
  lemma {:induction false} DecimalLength(k: nat, m: nat)
    requires k >= Pow10(m)
    ensures |Decimal(k)| > m
    decreases m
  {
    if m > 0 {
      assert k >= 10;
      DecimalLength(k / 10, m - 1);
    }
  }

  /** Position of the last ':' of s, or -1 when s has none. */
  function LastColon(s: string): (p: int)
    ensures -1 <= p < |s|
    ensures p >= 0 ==> s[p] == ':'
    ensures forall i :: p < i < |s| ==> s[i] != ':'
  {
    if |s| == 0 then -1
    else if s[|s| - 1] == ':' then |s| - 1
    else LastColon(s[..|s| - 1])
  }

  /** The part of a tensor name that a rename keeps in front of the suffix:
      everything before the last ':' when ports are kept and there is one,
      the whole name otherwise. */
  function Base(name: string, keepPort: bool): string
  {
    if keepPort && LastColon(name) >= 0 then name[..LastColon(name)] else name
  }

  /** The port qualifier `:<port>` a rename keeps verbatim; empty when none. */
  function Port(name: string, keepPort: bool): string
  {
    if keepPort && LastColon(name) >= 0 then name[LastColon(name)..] else ""
  }

  /** The k-th candidate replacement for a colliding name: `base_k`, followed by
      the original port qualifier when keepPort holds. Friendly names are renamed
      with keepPort false, tensor names with keepPort true. */
  function Rename(name: string, k: nat, keepPort: bool): string
  {
    Base(name, keepPort) + "_" + Decimal(k) + Port(name, keepPort)
  }

  lemma LastColonAt(s: string, p: int)
    requires -1 <= p < |s|
    requires p >= 0 ==> s[p] == ':'
    requires forall i :: p < i < |s| ==> s[i] != ':'
    ensures LastColon(s) == p
  {
  }

  /** s does not contain c. */
  predicate Lacks(s: string, c: char)
  {
    forall i :: 0 <= i < |s| ==> s[i] != c
  }

  /** Splitting at the last occurrence of a separator is unique. */
  lemma SplitAtLast(c: char, x: string, d: string, y: string, e: string)
    requires x + [c] + d == y + [c] + e
    requires forall i :: 0 <= i < |d| ==> d[i] != c
    requires forall i :: 0 <= i < |e| ==> e[i] != c
    ensures x == y && d == e
  {
    var s := x + [c] + d;
    assert |x| + |d| == |y| + |e|;
    if |d| < |e| {
      SeparatorNotInTail(c, y, e, |x|);
      assert false;
    } else if |e| < |d| {
      SeparatorNotInTail(c, x, d, |y|);
      assert false;
    } else {
      assert x == s[..|x|] == y;
      assert d == s[|x| + 1..] == e;
    }
  }

  lemma SeparatorNotInTail(c: char, x: string, d: string, i: int)
    requires forall j :: 0 <= j < |d| ==> d[j] != c
    requires |x| < i < |x| + 1 + |d|
    ensures (x + [c] + d)[i] != c
  {
    assert (x + [c] + d)[i] == d[i - |x| - 1];
  }

  lemma NoColonSpelling(name: string, k: nat, keepPort: bool)
    requires !keepPort || LastColon(name) < 0
    ensures Rename(name, k, keepPort) == name + "_" + Decimal(k)
  {
  }

  /** The pieces of a rename that carry no port contain no ':'. */
  lemma {:induction false} StemWithoutColon(name: string, k: nat)
    requires LastColon(name) < 0
    ensures forall i :: 0 <= i < |name + "_" + Decimal(k)| ==> (name + "_" + Decimal(k))[i] != ':'
  {
    var s := name + "_" + Decimal(k);
    forall i | 0 <= i < |s| ensures s[i] != ':' {
      if i < |name| {
        assert s[i] == name[i];
      } else if i > |name| {
        assert s[i] == Decimal(k)[i - |name| - 1];
      }
    }
  }

  /** A rename keeps the port qualifier verbatim and replaces the base by
      `base_k`: renaming `split:0` gives base `split_k` and port `:0`. */
  lemma {:induction false} RenameKeepsPort(name: string, k: nat)
    ensures Port(Rename(name, k, true), true) == Port(name, true)
    ensures Base(Rename(name, k, true), true) == Base(name, true) + "_" + Decimal(k)
  {
    var p := LastColon(name);
    var stem := Base(name, true) + "_" + Decimal(k);
    var r := Rename(name, k, true);
    if p >= 0 {
      assert Base(name, true) == name[..p];
      assert r == stem + name[p..];
      forall i | |stem| < i < |r| ensures r[i] != ':' {
        assert r[i] == name[p + i - |stem|];
      }
      LastColonAt(r, |stem|);
      assert r[..|stem|] == stem;
      assert r[|stem|..] == name[p..];
    } else {
      StemWithoutColon(name, k);
      assert r == stem;
      LastColonAt(r, -1);
    }
  }

  /** Different colliding names, or different suffixes, never produce the same
      candidate; in particular the order in which the names of one tensor are
      renamed cannot matter. */
  lemma {:induction false} RenameInjective(n1: string, k1: nat, n2: string, k2: nat, keepPort: bool)
    requires Rename(n1, k1, keepPort) == Rename(n2, k2, keepPort)
    ensures n1 == n2 && k1 == k2
  {
    var hasPort1 := keepPort && LastColon(n1) >= 0;
    var hasPort2 := keepPort && LastColon(n2) >= 0;
    if hasPort1 && hasPort2 {
      PortedInjective(n1, k1, n2, k2);
    } else if !hasPort1 && !hasPort2 {
      PlainInjective(n1, k1, n2, k2, keepPort);
    } else if hasPort1 {
      OnlyPortedHaveColon(n1, k1, n2, k2);
    } else {
      OnlyPortedHaveColon(n2, k2, n1, k1);
    }
  }

  lemma {:induction false} PlainInjective(n1: string, k1: nat, n2: string, k2: nat, keepPort: bool)
    requires !keepPort || (LastColon(n1) < 0 && LastColon(n2) < 0)
    requires Rename(n1, k1, keepPort) == Rename(n2, k2, keepPort)
    ensures n1 == n2 && k1 == k2
  {
    assert Rename(n1, k1, keepPort) == n1 + ['_'] + Decimal(k1);
    assert Rename(n2, k2, keepPort) == n2 + ['_'] + Decimal(k2);
    SplitAtLast('_', n1, Decimal(k1), n2, Decimal(k2));
    DecimalInjective(k1, k2);
  }

  lemma {:induction false} PortedInjective(n1: string, k1: nat, n2: string, k2: nat)
    requires LastColon(n1) >= 0 && LastColon(n2) >= 0
    requires Rename(n1, k1, true) == Rename(n2, k2, true)
    ensures n1 == n2 && k1 == k2
  {
    var p1, p2 := LastColon(n1), LastColon(n2);
    PortedShape(n1, k1);
    PortedShape(n2, k2);
    SplitAtLast(':', n1[..p1] + ['_'] + Decimal(k1), n1[p1 + 1..], n2[..p2] + ['_'] + Decimal(k2), n2[p2 + 1..]);
    SplitAtLast('_', n1[..p1], Decimal(k1), n2[..p2], Decimal(k2));
    DecimalInjective(k1, k2);
  }

  /** A port-qualified name splits at its last ':' into base, ':' and a port
      without colons; its renames are spelled `base_k:port`. */
  lemma PortedShape(n: string, k: nat)
    requires LastColon(n) >= 0
    ensures var p := LastColon(n);
      && n == n[..p] + [':'] + n[p + 1..]
      && Rename(n, k, true) == (n[..p] + ['_'] + Decimal(k)) + [':'] + n[p + 1..]
      && Lacks(n[p + 1..], ':')
  {
    var p := LastColon(n);
    assert n[p..] == [':'] + n[p + 1..];
    assert n == n[..p] + n[p..];
    var port := n[p + 1..];
    forall i | 0 <= i < |port| ensures port[i] != ':' {
      assert port[i] == n[p + 1 + i];
    }
  }

  lemma {:induction false} OnlyPortedHaveColon(n1: string, k1: nat, n2: string, k2: nat)
    requires LastColon(n1) >= 0 && LastColon(n2) < 0
    ensures Rename(n1, k1, true) != Rename(n2, k2, true)
  {
    var p := LastColon(n1);
    var stem := n1[..p] + "_" + Decimal(k1);
    assert Rename(n1, k1, true) == stem + n1[p..];
    assert Rename(n1, k1, true)[|stem|] == ':';
    StemWithoutColon(n2, k2);
    assert Rename(n2, k2, true) == n2 + "_" + Decimal(k2);
  }

  /** A candidate is longer than the spelling of its suffix. */
  lemma RenameLength(name: string, k: nat, keepPort: bool)
    ensures |Rename(name, k, keepPort)| > |Decimal(k)|
  {
  }
}
