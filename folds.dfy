/**
  The two `Array.prototype.reduce` shapes the selectors use, as left folds:
  `reduce((acc, cur) => [...acc, ...cur], init)` concatenates arrays, and
  `reduce((acc, cur) => ({...acc, ...cur}), init)` merges objects, a key of `cur`
  overwriting the same key of `acc`. The merged objects are modelled as maps, so the
  property-order of the merged object is not represented.
 */
module Folds {

  /** `xss.reduce((acc, cur) => [...acc, ...cur], acc)`. */
  function ConcatFold<T>(acc: seq<T>, xss: seq<seq<T>>): seq<T>
    decreases |xss|
  {
    if xss == [] then acc else ConcatFold(acc + xss[0], xss[1..])
  }

  /** `ms.reduce((acc, cur) => ({...acc, ...cur}), acc)`: map union, right side wins. */
  function MergeFold<K, V>(acc: map<K, V>, ms: seq<map<K, V>>): map<K, V>
    decreases |ms|
  {
    if ms == [] then acc else MergeFold(acc + ms[0], ms[1..])
  }

  /** `ms[i]` is the last map of `ms` that has key `k`. */
  predicate LastHolder<K, V>(ms: seq<map<K, V>>, k: K, i: int)
  {
    0 <= i < |ms| && k in ms[i] && forall j :: i < j < |ms| ==> k !in ms[j]
  }

  /** A key survives a merge exactly when the initial map or one of the merged maps has it. */
  lemma {:induction false} MergeFoldKeys<K, V>(acc: map<K, V>, ms: seq<map<K, V>>, k: K)
    ensures k in MergeFold(acc, ms) <==> k in acc || exists i :: 0 <= i < |ms| && k in ms[i]
    decreases |ms|
  {
    if ms != [] {
      MergeFoldKeys(acc + ms[0], ms[1..], k);
      if exists i :: 0 <= i < |ms[1..]| && k in ms[1..][i] {
        var i :| 0 <= i < |ms[1..]| && k in ms[1..][i];
        assert k in ms[i + 1];
      }
      if exists i :: 0 <= i < |ms| && k in ms[i] {
        var i :| 0 <= i < |ms| && k in ms[i];
        if i > 0 {
          assert k in ms[1..][i - 1];
        }
      }
    }
  }

  /** A key no merged map has keeps the initial map's value. */
  lemma {:induction false} MergeFoldUntouched<K, V>(acc: map<K, V>, ms: seq<map<K, V>>, k: K)
    requires k in acc
    requires forall j :: 0 <= j < |ms| ==> k !in ms[j]
    ensures k in MergeFold(acc, ms) && MergeFold(acc, ms)[k] == acc[k]
    decreases |ms|
  {
    if ms != [] {
      assert forall j :: 0 <= j < |ms[1..]| ==> k !in ms[1..][j] by {
        forall j | 0 <= j < |ms[1..]| ensures k !in ms[1..][j] { assert ms[1..][j] == ms[j + 1]; }
      }
      MergeFoldUntouched(acc + ms[0], ms[1..], k);
    }
  }

  /** Last writer wins: the merged value of a key is the one of the last map that has it. */
  lemma {:induction false} MergeFoldLastWins<K, V>(acc: map<K, V>, ms: seq<map<K, V>>, k: K, i: int)
    requires LastHolder(ms, k, i)
    ensures k in MergeFold(acc, ms) && MergeFold(acc, ms)[k] == ms[i][k]
    decreases |ms|
  {
    assert forall j :: 0 <= j < |ms[1..]| ==> ms[1..][j] == ms[j + 1];
    if i == 0 {
      MergeFoldUntouched(acc + ms[0], ms[1..], k);
    } else {
      MergeFoldLastWins(acc + ms[0], ms[1..], k, i - 1);
    }
  }

  /** If some map has the key, there is a last one that has it. */
  lemma {:induction false} LastHolderExists<K, V>(ms: seq<map<K, V>>, k: K, i: int)
    requires 0 <= i < |ms| && k in ms[i]
    ensures exists last :: LastHolder(ms, k, last)
    decreases |ms| - i
  {
    if !LastHolder(ms, k, i) {
      var j :| i < j < |ms| && k in ms[j];
      LastHolderExists(ms, k, j);
    }
  }
}
