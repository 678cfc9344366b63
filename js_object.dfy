/**
  A plain JavaScript object, as `JSON.parse` builds it, seen as the ordered list of its
  own properties: one (key, value) entry per property, in insertion order, keys distinct.

  `Object.keys` does not simply return the insertion order: the ordinary
  [[OwnPropertyKeys]] operation of ECMA-262 (OrdinaryOwnPropertyKeys, section 10.1.11.1
  of the 2023 edition) first lists the keys that are array indices, in ascending numeric
  order, and then the other string keys in the order they were created. `ObjectKeys`
  below models exactly that.
 */
module JsObject {

  /** One own property of an object: its key and its value. */
  type Entry<V> = (string, V)

  /** The keys of the entries, in insertion (creation) order. */
  function InsertionKeys<V>(o: seq<Entry<V>>): seq<string>
  {
    seq(|o|, i requires 0 <= i < |o| => o[i].0)
  }

  /** An object never has two own properties with the same key. */
  predicate DistinctKeys<V>(o: seq<Entry<V>>)
  {
    forall i, j :: 0 <= i < j < |o| ==> o[i].0 != o[j].0
  }

  /** Property lookup `o[k]` for a key the object has. */
  function Get<V>(o: seq<Entry<V>>, k: string): V
    requires k in InsertionKeys(o)
  {
    if o[0].0 == k then o[0].1
    else
      assert k in InsertionKeys(o[1..]) by {
        var i :| 0 <= i < |o| && InsertionKeys(o)[i] == k;
        assert InsertionKeys(o[1..])[i - 1] == k;
      }
      Get(o[1..], k)
  }

  /** With distinct keys, looking up the key of an entry yields that entry's value. */
  lemma {:induction false} GetAt<V>(o: seq<Entry<V>>, i: nat)
    requires DistinctKeys(o)
    requires i < |o|
    ensures o[i].0 in InsertionKeys(o)
    ensures Get(o, o[i].0) == o[i].1
  {
    assert InsertionKeys(o)[i] == o[i].0;
    if i > 0 {
      assert o[0].0 != o[i].0;
      assert DistinctKeys(o[1..]) by {
        forall a, b | 0 <= a < b < |o[1..]| ensures o[1..][a].0 != o[1..][b].0 {
          assert o[1..][a] == o[a + 1] && o[1..][b] == o[b + 1];
        }
      }
      GetAt(o[1..], i - 1);
    }
  }

  // ---- array indices -------------------------------------------------------------

  predicate IsDigit(c: char)
  {
    '0' <= c <= '9'
  }

  function DigitValue(c: char): nat
  {
    if IsDigit(c) then (c as int) - ('0' as int) else 0
  }

  /** The value of a string of decimal digits, most significant digit first. */
  function DecimalValue(s: string): nat
  {
    if s == [] then 0 else DecimalValue(s[..|s| - 1]) * 10 + DigitValue(s[|s| - 1])
  }

  /** The largest array index, 2^32 - 2. */
  const MaxArrayIndex: nat := 0xFFFF_FFFE

  /**
    A key is an array index when it is the canonical decimal form of an integer
    between 0 and 2^32 - 2: digits only, no leading zero (except "0" itself).
   */
  predicate IsArrayIndex(s: string)
  {
    && |s| > 0
    && (forall i :: 0 <= i < |s| ==> IsDigit(s[i]))
    && (|s| > 1 ==> s[0] != '0')
    && DecimalValue(s) <= MaxArrayIndex
  }

  /** The keys of `ks` that are array indices, in the order of `ks`. */
  function IndexKeys(ks: seq<string>): seq<string>
  {
    if ks == [] then []
    else (if IsArrayIndex(ks[0]) then [ks[0]] else []) + IndexKeys(ks[1..])
  }

  /** The keys of `ks` that are not array indices, in the order of `ks`. */
  function NameKeys(ks: seq<string>): seq<string>
  {
    if ks == [] then []
    else (if IsArrayIndex(ks[0]) then [] else [ks[0]]) + NameKeys(ks[1..])
  }

  /** Inserts `k` into `s` before the first key of larger or equal numeric value. */
  function InsertByValue(k: string, s: seq<string>): seq<string>
  {
    if s == [] then [k]
    else if DecimalValue(k) <= DecimalValue(s[0]) then [k] + s
    else [s[0]] + InsertByValue(k, s[1..])
  }

  /** Sorts keys by ascending numeric value. */
  function SortByValue(s: seq<string>): seq<string>
  {
    if s == [] then [] else InsertByValue(s[0], SortByValue(s[1..]))
  }

  /** Keys in ascending numeric value. */
  predicate AscendingValues(s: seq<string>)
  {
    forall i, j :: 0 <= i < j < |s| ==> DecimalValue(s[i]) <= DecimalValue(s[j])
  }

  /**
    The order `Object.keys` uses: every array-index key comes before every other key,
    and the array-index keys are in ascending numeric order.
   */
  predicate OwnKeysOrdered(ks: seq<string>)
  {
    forall i, j :: 0 <= i < j < |ks| && IsArrayIndex(ks[j]) ==>
      IsArrayIndex(ks[i]) && DecimalValue(ks[i]) <= DecimalValue(ks[j])
  }

  /** True when no key of the object is an array index. */
  predicate NoArrayIndexKeys<V>(o: seq<Entry<V>>)
  {
    forall i :: 0 <= i < |o| ==> !IsArrayIndex(o[i].0)
  }

  /** `Object.keys(o)`. */
  function ObjectKeys<V>(o: seq<Entry<V>>): (ks: seq<string>)
    ensures multiset(ks) == multiset(InsertionKeys(o))
    ensures |ks| == |o|
    ensures forall k :: k in ks <==> k in InsertionKeys(o)
  {
    var all := InsertionKeys(o);
    SortByValuePermutes(IndexKeys(all));
    SplitKeysPermutes(all);
    var ks := SortByValue(IndexKeys(all)) + NameKeys(all);
    assert |ks| == |multiset(ks)| == |multiset(all)| == |all|;
    assert forall k :: k in ks <==> k in multiset(ks);
    ks
  }

  // ---- lemmas ----------------------------------------------------------------------

  lemma {:induction false} InsertByValuePermutes(k: string, s: seq<string>)
    ensures multiset(InsertByValue(k, s)) == multiset{k} + multiset(s)
  {
    if s != [] && DecimalValue(k) > DecimalValue(s[0]) {
      InsertByValuePermutes(k, s[1..]);
      assert s == [s[0]] + s[1..];
    }
  }

  lemma {:induction false} SortByValuePermutes(s: seq<string>)
    ensures multiset(SortByValue(s)) == multiset(s)
  {
    if s != [] {
      SortByValuePermutes(s[1..]);
      InsertByValuePermutes(s[0], SortByValue(s[1..]));
      assert s == [s[0]] + s[1..];
    }
  }

  lemma {:induction false} InsertByValueSorted(k: string, s: seq<string>)
    requires AscendingValues(s)
    ensures AscendingValues(InsertByValue(k, s))
  {
    if s != [] && DecimalValue(k) > DecimalValue(s[0]) {
      InsertByValueSorted(k, s[1..]);
      InsertByValuePermutes(k, s[1..]);
      var t := InsertByValue(k, s[1..]);
      forall j | 0 <= j < |t| ensures DecimalValue(s[0]) <= DecimalValue(t[j]) {
        assert t[j] in multiset(t);
        assert t[j] == k || t[j] in s[1..];
      }
    }
  }

  lemma {:induction false} SortByValueSorted(s: seq<string>)
    ensures AscendingValues(SortByValue(s))
  {
    if s != [] {
      SortByValueSorted(s[1..]);
      InsertByValueSorted(s[0], SortByValue(s[1..]));
    }
  }

  lemma {:induction false} SplitKeysPermutes(ks: seq<string>)
    ensures multiset(IndexKeys(ks)) + multiset(NameKeys(ks)) == multiset(ks)
  {
    if ks != [] {
      SplitKeysPermutes(ks[1..]);
      assert ks == [ks[0]] + ks[1..];
    }
  }

  lemma {:induction false} IndexKeysAreIndices(ks: seq<string>)
    ensures forall k :: k in IndexKeys(ks) ==> IsArrayIndex(k)
  {
    if ks != [] {
      IndexKeysAreIndices(ks[1..]);
    }
  }

  lemma {:induction false} NameKeysAreNames(ks: seq<string>)
    ensures forall k :: k in NameKeys(ks) ==> !IsArrayIndex(k)
  {
    if ks != [] {
      NameKeysAreNames(ks[1..]);
    }
  }

  lemma {:induction false} NameKeysAppend(s: seq<string>, t: seq<string>)
    ensures NameKeys(s + t) == NameKeys(s) + NameKeys(t)
  {
    if s != [] {
      assert (s + t)[0] == s[0];
      assert (s + t)[1..] == s[1..] + t;
      NameKeysAppend(s[1..], t);
    } else {
      assert s + t == t;
    }
  }

  lemma {:induction false} NameKeysOfIndices(s: seq<string>)
    requires forall k :: k in s ==> IsArrayIndex(k)
    ensures NameKeys(s) == []
  {
    if s != [] {
      NameKeysOfIndices(s[1..]);
    }
  }

  lemma {:induction false} NameKeysOfNames(s: seq<string>)
    requires forall k :: k in s ==> !IsArrayIndex(k)
    ensures NameKeys(s) == s
    ensures IndexKeys(s) == []
  {
    if s != [] {
      NameKeysOfNames(s[1..]);
    }
  }

  /**
    `Object.keys` lists every key exactly once, puts the array-index keys first in
    ascending numeric order, and keeps the other keys in insertion order.
   */
  lemma ObjectKeysOrder<V>(o: seq<Entry<V>>)
    ensures OwnKeysOrdered(ObjectKeys(o))
    ensures NameKeys(ObjectKeys(o)) == NameKeys(InsertionKeys(o))
  {
    var all := InsertionKeys(o);
    var sorted := SortByValue(IndexKeys(all));
    SortByValueSorted(IndexKeys(all));
    SortByValuePermutes(IndexKeys(all));
    IndexKeysAreIndices(all);
    NameKeysAreNames(all);
    assert forall k :: k in sorted ==> IsArrayIndex(k) by {
      forall k | k in sorted ensures IsArrayIndex(k) {
        assert k in multiset(sorted);
        assert k in IndexKeys(all);
      }
    }
    NameKeysAppend(sorted, NameKeys(all));
    NameKeysOfIndices(sorted);
    NameKeysOfNames(NameKeys(all));
  }

  /**
    When no key is an array index — the case of the language codes — `Object.keys`
    returns the keys in insertion order.
   */
  lemma ObjectKeysInsertionOrder<V>(o: seq<Entry<V>>)
    requires NoArrayIndexKeys(o)
    ensures ObjectKeys(o) == InsertionKeys(o)
  {
    var all := InsertionKeys(o);
    assert forall k :: k in all ==> !IsArrayIndex(k);
    NameKeysOfNames(all);
  }

  /** No element occurs twice in `s`. */
  predicate Distinct(s: seq<string>)
  {
    forall i, j :: 0 <= i < j < |s| ==> s[i] != s[j]
  }

  lemma {:induction false} DistinctOccursOnce(s: seq<string>)
    requires Distinct(s)
    ensures forall k :: multiset(s)[k] <= 1
  {
    if s != [] {
      assert Distinct(s[1..]) by {
        forall a, b | 0 <= a < b < |s[1..]| ensures s[1..][a] != s[1..][b] {
          assert s[1..][a] == s[a + 1] && s[1..][b] == s[b + 1];
        }
      }
      DistinctOccursOnce(s[1..]);
      assert s[0] !in s[1..] by {
        forall a | 0 <= a < |s[1..]| ensures s[1..][a] != s[0] { assert s[1..][a] == s[a + 1]; }
      }
      assert s == [s[0]] + s[1..];
    }
  }

  lemma {:induction false} OccursOnceDistinct(s: seq<string>)
    requires forall k :: multiset(s)[k] <= 1
    ensures Distinct(s)
  {
    if s != [] {
      assert s == [s[0]] + s[1..];
      assert forall k :: multiset(s[1..])[k] <= multiset(s)[k];
      OccursOnceDistinct(s[1..]);
      assert multiset(s[1..])[s[0]] == 0;
      forall i, j | 0 <= i < j < |s| ensures s[i] != s[j] {
        if i > 0 {
          assert s[i] == s[1..][i - 1] && s[j] == s[1..][j - 1];
        } else {
          assert s[j] == s[1..][j - 1];
          assert s[j] in multiset(s[1..]);
        }
      }
    }
  }

  /** The keys `Object.keys` returns are distinct. */
  lemma ObjectKeysDistinct<V>(o: seq<Entry<V>>)
    requires DistinctKeys(o)
    ensures Distinct(ObjectKeys(o))
  {
    var all := InsertionKeys(o);
    assert Distinct(all) by {
      forall i, j | 0 <= i < j < |all| ensures all[i] != all[j] {
        assert all[i] == o[i].0 && all[j] == o[j].0;
      }
    }
    DistinctOccursOnce(all);
    OccursOnceDistinct(ObjectKeys(o));
  }
}
