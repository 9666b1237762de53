/** A dictionary filled by a sequence of assignments: later ones replace earlier ones. */
module Dicts {
  import opened Counting

  function FromPairs<K(==), V>(pairs: seq<(K, V)>): map<K, V> {
    if pairs == [] then map[]
    else
      var n := |pairs| - 1;
      FromPairs(pairs[..n])[pairs[n].0 := pairs[n].1]
  }

  function KeysOf<K, V>(pairs: seq<(K, V)>): seq<K>
  {
    seq(|pairs|, i requires 0 <= i < |pairs| => pairs[i].0)
  }

  lemma {:induction false} FromPairsKeys<K, V>(pairs: seq<(K, V)>)
    ensures FromPairs(pairs).Keys == Elements(KeysOf(pairs))
  {
    if pairs != [] {
      var n := |pairs| - 1;
      FromPairsKeys(pairs[..n]);
      assert KeysOf(pairs) == KeysOf(pairs[..n]) + [pairs[n].0];
    }
  }

  /** Later assignments win. */
  lemma {:induction false} FromPairsConcat<K, V>(a: seq<(K, V)>, b: seq<(K, V)>, key: K)
    ensures key in FromPairs(a + b) <==> key in FromPairs(a) || key in FromPairs(b)
    ensures key in FromPairs(b) ==> FromPairs(a + b)[key] == FromPairs(b)[key]
    ensures key !in FromPairs(b) && key in FromPairs(a) ==> FromPairs(a + b)[key] == FromPairs(a)[key]
  {
    if b == [] {
      assert a + b == a;
    } else {
      var n := |b| - 1;
      FromPairsConcat(a, b[..n], key);
      assert (a + b)[..|a + b| - 1] == a + b[..n];
    }
  }

  /** No assignment replaces another exactly when the dictionary has one entry per assignment. */
  lemma NothingReplaced<K, V>(pairs: seq<(K, V)>)
    ensures |FromPairs(pairs)| == |pairs| <==> Distinct(KeysOf(pairs))
  {
    FromPairsKeys(pairs);
    SetSize(KeysOf(pairs));
    assert |FromPairs(pairs)| == |FromPairs(pairs).Keys|;
  }

  /** The last assignment to a key is the one that stays. */
  lemma {:induction false} FromPairsLast<K, V>(pairs: seq<(K, V)>, k: nat)
    requires k < |pairs| && forall j :: k < j < |pairs| ==> pairs[j].0 != pairs[k].0
    ensures pairs[k].0 in FromPairs(pairs) && FromPairs(pairs)[pairs[k].0] == pairs[k].1
  {
    var n := |pairs| - 1;
    if k < n {
      FromPairsLast(pairs[..n], k);
    }
  }

  lemma FromPairsAt<K, V>(pairs: seq<(K, V)>, k: nat)
    requires Distinct(KeysOf(pairs)) && k < |pairs|
    ensures pairs[k].0 in FromPairs(pairs) && FromPairs(pairs)[pairs[k].0] == pairs[k].1
  {
    assert forall i :: 0 <= i < |pairs| ==> KeysOf(pairs)[i] == pairs[i].0;
    FromPairsLast(pairs, k);
  }

  /** Assignments to distinct keys may be made in any order. */
  lemma OrderFree<K, V>(pairs: seq<(K, V)>, others: seq<(K, V)>)
    requires Distinct(KeysOf(pairs)) && Distinct(KeysOf(others))
    requires forall p :: p in pairs <==> p in others
    ensures FromPairs(pairs) == FromPairs(others)
  {
    FromPairsKeys(pairs);
    FromPairsKeys(others);
    forall key | key in FromPairs(pairs)
      ensures key in FromPairs(others) && FromPairs(others)[key] == FromPairs(pairs)[key]
    {
      SameEntry(pairs, others, key);
    }
    forall key | key in FromPairs(others)
      ensures key in FromPairs(pairs)
    {
      SameEntry(others, pairs, key);
    }
  }

  lemma SameEntry<K, V>(pairs: seq<(K, V)>, others: seq<(K, V)>, key: K)
    requires Distinct(KeysOf(pairs)) && Distinct(KeysOf(others))
    requires forall p :: p in pairs ==> p in others
    requires key in FromPairs(pairs)
    ensures key in FromPairs(others) && FromPairs(others)[key] == FromPairs(pairs)[key]
  {
    FromPairsKeys(pairs);
    var k :| 0 <= k < |pairs| && KeysOf(pairs)[k] == key;
    FromPairsAt(pairs, k);
    assert pairs[k] in others;
    var l :| 0 <= l < |others| && others[l] == pairs[k];
    FromPairsAt(others, l);
  }
}
