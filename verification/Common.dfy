/** What several modules share. */
module Common {
  datatype Option<T> = None | Some(value: T)

  type Byte = b: int | 0 <= b < 256

  function Min(a: nat, b: nat): nat {
    if a < b then a else b
  }

  ghost predicate Distinct<T>(s: seq<T>) {
    forall i, j :: 0 <= i < j < |s| ==> s[i] != s[j]
  }

  /** The numbers below n. */
  function Below(n: nat): (r: set<nat>)
    ensures |r| == n && forall t: nat :: t in r <==> t < n
  {
    if n == 0 then {}
    else
      var rest := Below(n - 1);
      assert (n - 1) as nat !in rest;
      rest + {n - 1}
  }

  lemma {:induction false} SubsetSize(a: set<nat>, b: set<nat>)
    requires a <= b
    ensures |a| <= |b| && (|a| == |b| ==> a == b)
  {
    if a != {} {
      var x :| x in a;
      SubsetSize(a - {x}, b - {x});
    }
  }
}
