/** A .NET `Dictionary<string, V>` as the code uses it: entries enumerate in
    the order they were added, and keys are distinct. */
module AssocList {
  import opened Results

  type AList<V> = seq<(string, V)>

  function Keys<V>(a: AList<V>): (ks: seq<string>)
    ensures |ks| == |a|
    ensures forall i :: 0 <= i < |a| ==> ks[i] == a[i].0
  {
    seq(|a|, i requires 0 <= i < |a| => a[i].0)
  }

  predicate Distinct(ks: seq<string>)
  {
    forall i, j :: 0 <= i < j < |ks| ==> ks[i] != ks[j]
  }

  /** The value stored under `k`; the first one if the list is not a
      dictionary (a JSON object read as written). */
  function Lookup<V>(a: AList<V>, k: string): (r: Option<V>)
    ensures r.Some? <==> k in Keys(a)
    ensures r.Some? ==> exists i :: 0 <= i < |a| && a[i] == (k, r.value)
  {
    if a == [] then None
    else if a[0].0 == k then Some(a[0].1)
    else
      var r := Lookup(a[1..], k);
      assert Keys(a) == [a[0].0] + Keys(a[1..]);
      assert r.Some? ==> exists i :: 0 <= i < |a| - 1 && a[1..][i] == (k, r.value);
      r
  }

  /** With distinct keys, the `i`-th key finds the `i`-th value. */
  lemma {:induction false} LookupAt<V>(a: AList<V>, i: nat)
    requires Distinct(Keys(a)) && i < |a|
    ensures Lookup(a, a[i].0) == Some(a[i].1)
    decreases i
  {
    if i > 0 {
      assert Keys(a)[0] != Keys(a)[i];
      assert Distinct(Keys(a[1..])) by {
        forall j, k | 0 <= j < k < |a| - 1
          ensures Keys(a[1..])[j] != Keys(a[1..])[k]
        {
          assert Keys(a)[j + 1] != Keys(a)[k + 1];
        }
      }
      LookupAt(a[1..], i - 1);
    }
  }

  lemma KeysAppend<V>(a: AList<V>, b: AList<V>)
    ensures Keys(a + b) == Keys(a) + Keys(b)
  {
  }
}
