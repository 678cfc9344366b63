/**
  What the derivations of `loadLanguageHierarchy` and the URL rule of
  `loadMarkdownByLanguage` mean, stated against independent reference definitions.
 */
module SelectorProperties {
  import opened JsObject
  import opened Folds
  import opened Selector

  // ---- reference definitions ---------------------------------------------------------

  /** The variant lists of `roots`, concatenated in the order of `roots`. */
  function Flattened(data: LanguageHierarchy, roots: seq<string>): seq<string>
    requires forall l :: l in roots ==> l in InsertionKeys(data)
  {
    if roots == [] then [] else Get(data, roots[0]) + Flattened(data, roots[1..])
  }

  /** Every variant list of the object, concatenated in insertion order. */
  function AllVariants(o: seq<Entry<seq<string>>>): seq<string>
  {
    if o == [] then [] else o[0].1 + AllVariants(o[1..])
  }

  /** The sum of the lengths of the variant lists. */
  function TotalVariants(o: seq<Entry<seq<string>>>): nat
  {
    if o == [] then 0 else |o[0].1| + TotalVariants(o[1..])
  }

  // ---- languages ---------------------------------------------------------------------

  /** The array-spread fold concatenates the looked-up lists in the order of `roots`. */
  lemma {:induction false} ConcatFoldVariantLists(data: LanguageHierarchy, roots: seq<string>, acc: seq<string>)
    requires forall l :: l in roots ==> l in InsertionKeys(data)
    ensures ConcatFold(acc, VariantLists(data, roots)) == acc + Flattened(data, roots)
    decreases |roots|
  {
    var lists := VariantLists(data, roots);
    if roots != [] {
      assert lists[1..] == VariantLists(data, roots[1..]);
      ConcatFoldVariantLists(data, roots[1..], acc + lists[0]);
    }
  }

  /** `languages` is the concatenation of every root's variant list, in `rootLanguages` order. */
  lemma LanguagesInKeyOrder(data: LanguageHierarchy)
    ensures Languages(data) == Flattened(data, ObjectKeys(data))
  {
    ConcatFoldVariantLists(data, ObjectKeys(data), []);
  }

  lemma {:induction false} FlattenedAppend(data: LanguageHierarchy, s: seq<string>, t: seq<string>)
    requires forall l :: l in s + t ==> l in InsertionKeys(data)
    ensures Flattened(data, s + t) == Flattened(data, s) + Flattened(data, t)
  {
    if s == [] {
      assert s + t == t;
    } else {
      assert (s + t)[0] == s[0];
      assert (s + t)[1..] == s[1..] + t;
      FlattenedAppend(data, s[1..], t);
    }
  }

  lemma RemoveAtMultiset(b: seq<string>, k: nat)
    requires k < |b|
    ensures multiset(b) == multiset{b[k]} + multiset(b[..k] + b[k + 1..])
  {
    assert b == b[..k] + [b[k]] + b[k + 1..];
  }

  /** Removing one root from the list removes its variants from the flattened bag. */
  lemma FlattenedRemoveAt(data: LanguageHierarchy, b: seq<string>, k: nat)
    requires forall l :: l in b ==> l in InsertionKeys(data)
    requires k < |b|
    ensures forall l :: l in b[..k] + b[k + 1..] ==> l in InsertionKeys(data)
    ensures multiset(Flattened(data, b))
         == multiset(Get(data, b[k])) + multiset(Flattened(data, b[..k] + b[k + 1..]))
  {
    var x := b[k];
    assert b == b[..k] + ([x] + b[k + 1..]);
    FlattenedAppend(data, b[..k], [x] + b[k + 1..]);
    FlattenedAppend(data, [x], b[k + 1..]);
    FlattenedAppend(data, b[..k], b[k + 1..]);
    assert Flattened(data, [x]) == Get(data, x) by {
      assert [x][1..] == [];
    }
  }

  /** Reordering the roots only reorders the flattened variants. */
  lemma {:induction false} FlattenedPermutation(data: LanguageHierarchy, a: seq<string>, b: seq<string>)
    requires forall l :: l in a ==> l in InsertionKeys(data)
    requires multiset(a) == multiset(b)
    ensures forall l :: l in b ==> l in InsertionKeys(data)
    ensures multiset(Flattened(data, a)) == multiset(Flattened(data, b))
    decreases |a|
  {
    assert forall l :: l in b ==> l in InsertionKeys(data) by {
      forall l | l in b ensures l in InsertionKeys(data) {
        assert l in multiset(b);
      }
    }
    if a == [] {
      assert b == [] by {
        assert |b| == |multiset(b)| == 0;
      }
    } else {
      var x := a[0];
      assert x in multiset(b);
      var k :| 0 <= k < |b| && b[k] == x;
      var rest := b[..k] + b[k + 1..];
      RemoveAtMultiset(b, k);
      RemoveAtMultiset(a, 0);
      assert a[..0] + a[1..] == a[1..];
      assert multiset(a[1..]) == multiset(a) - multiset{x};
      assert multiset(rest) == multiset(b) - multiset{x};
      FlattenedPermutation(data, a[1..], rest);
      FlattenedRemoveAt(data, b, k);
    }
  }

  lemma {:induction false} FlattenedInsertionSuffix(data: LanguageHierarchy, n: nat)
    requires n <= |data|
    ensures forall l :: l in InsertionKeys(data)[n..] ==> l in InsertionKeys(data)
    ensures Flattened(data, InsertionKeys(data)[n..]) == AllVariants(data[n..])
    decreases |data| - n
  {
    var keys := InsertionKeys(data);
    if n < |data| {
      GetAt(data, n);
      assert keys[n..][0] == data[n].0;
      assert keys[n..][1..] == keys[n + 1..];
      assert data[n..][0] == data[n];
      assert data[n..][1..] == data[n + 1..];
      FlattenedInsertionSuffix(data, n + 1);
    } else {
      assert keys[n..] == [];
      assert data[n..] == [];
    }
  }

  lemma {:induction false} AllVariantsLength(o: seq<Entry<seq<string>>>)
    ensures |AllVariants(o)| == TotalVariants(o)
  {
    if o != [] {
      AllVariantsLength(o[1..]);
    }
  }

  /**
    `languages` holds every listed variant, as often as it is listed, whatever the key
    order; its length is the sum of the lengths of the variant lists.
   */
  lemma LanguagesPermutation(data: LanguageHierarchy)
    ensures multiset(Languages(data)) == multiset(AllVariants(data))
    ensures |Languages(data)| == TotalVariants(data)
  {
    LanguagesInKeyOrder(data);
    FlattenedPermutation(data, ObjectKeys(data), InsertionKeys(data));
    FlattenedInsertionSuffix(data, 0);
    assert InsertionKeys(data)[0..] == InsertionKeys(data);
    assert data[0..] == data;
    AllVariantsLength(data);
    assert |Languages(data)| == |multiset(Languages(data))|;
    assert |AllVariants(data)| == |multiset(AllVariants(data))|;
  }

  /** With no array-index key, `languages` lists the variants in insertion order. */
  lemma LanguagesInsertionOrder(data: LanguageHierarchy)
    requires NoArrayIndexKeys(data)
    ensures Languages(data) == AllVariants(data)
  {
    LanguagesInKeyOrder(data);
    ObjectKeysInsertionOrder(data);
    FlattenedInsertionSuffix(data, 0);
    assert InsertionKeys(data)[0..] == InsertionKeys(data);
    assert data[0..] == data;
  }

  // ---- languageLink ------------------------------------------------------------------

  /** The links of one root: exactly its variants, each to the slug `root-variant`. */
  lemma VariantLinksSpec(root: string, variants: seq<string>)
    ensures forall v :: v in VariantLinks(root, variants) <==> v in variants
    ensures forall v :: v in VariantLinks(root, variants) ==> VariantLinks(root, variants)[v] == Slug(root, v)
  {
    var singles := seq(|variants|, i requires 0 <= i < |variants| => map[variants[i] := Slug(root, variants[i])]);
    assert VariantLinks(root, variants) == MergeFold(map[], singles);
    forall v ensures v in VariantLinks(root, variants) <==> v in variants {
      MergeFoldKeys(map[], singles, v);
      if v in variants {
        var i :| 0 <= i < |variants| && variants[i] == v;
        assert v in singles[i];
      }
    }
    forall v | v in VariantLinks(root, variants) ensures VariantLinks(root, variants)[v] == Slug(root, v) {
      MergeFoldKeys(map[], singles, v);
      var i :| 0 <= i < |singles| && v in singles[i];
      LastHolderExists(singles, v, i);
      var last :| LastHolder(singles, v, last);
      MergeFoldLastWins(map[], singles, v, last);
    }
  }

  /** A root of `Object.keys` order lists a variant exactly when some entry does. */
  lemma RootListsVariant(data: LanguageHierarchy, v: string)
    ensures (exists i :: 0 <= i < |ObjectKeys(data)| && v in Get(data, ObjectKeys(data)[i]))
        <==> (exists j :: 0 <= j < |data| && v in data[j].1)
  {
    var roots := ObjectKeys(data);
    if exists i :: 0 <= i < |roots| && v in Get(data, roots[i]) {
      var i :| 0 <= i < |roots| && v in Get(data, roots[i]);
      assert roots[i] in InsertionKeys(data);
      var j :| 0 <= j < |data| && InsertionKeys(data)[j] == roots[i];
      GetAt(data, j);
    }
    if exists j :: 0 <= j < |data| && v in data[j].1 {
      var j :| 0 <= j < |data| && v in data[j].1;
      GetAt(data, j);
      var i :| 0 <= i < |roots| && roots[i] == data[j].0;
    }
  }

  /**
    The keys of `languageLink` are exactly the variants that some root lists: none is
    missing and none is an orphan.
   */
  lemma LanguageLinkKeys(data: LanguageHierarchy)
    ensures forall v :: v in LanguageLink(data) <==> exists j :: 0 <= j < |data| && v in data[j].1
  {
    var roots := ObjectKeys(data);
    var maps := RootLinkMaps(data, roots);
    forall v ensures v in LanguageLink(data) <==> exists j :: 0 <= j < |data| && v in data[j].1 {
      MergeFoldKeys(map[], maps, v);
      RootListsVariant(data, v);
      forall i | 0 <= i < |roots| ensures v in maps[i] <==> v in Get(data, roots[i]) {
        VariantLinksSpec(roots[i], Get(data, roots[i]));
      }
    }
  }

  /** Every `languageLink` value is `root-variant` for a root that lists the variant. */
  lemma LanguageLinkSlugs(data: LanguageHierarchy)
    ensures forall v :: v in LanguageLink(data) ==>
      exists j :: 0 <= j < |data| && v in data[j].1 && LanguageLink(data)[v] == Slug(data[j].0, v)
  {
    var roots := ObjectKeys(data);
    var maps := RootLinkMaps(data, roots);
    forall v | v in LanguageLink(data)
      ensures exists j :: 0 <= j < |data| && v in data[j].1 && LanguageLink(data)[v] == Slug(data[j].0, v)
    {
      MergeFoldKeys(map[], maps, v);
      var i :| 0 <= i < |maps| && v in maps[i];
      LastHolderExists(maps, v, i);
      var last :| LastHolder(maps, v, last);
      MergeFoldLastWins(map[], maps, v, last);
      VariantLinksSpec(roots[last], Get(data, roots[last]));
      assert roots[last] in InsertionKeys(data);
      var j :| 0 <= j < |data| && InsertionKeys(data)[j] == roots[last];
      GetAt(data, j);
    }
  }

  /**
    When several roots list a variant, its link is the slug of the last of them in
    `Object.keys` order: the object spread lets later roots overwrite earlier ones.
   */
  lemma LanguageLinkLastRoot(data: LanguageHierarchy, v: string, i: nat)
    requires i < |ObjectKeys(data)|
    requires v in Get(data, ObjectKeys(data)[i])
    requires forall j :: i < j < |ObjectKeys(data)| ==> v !in Get(data, ObjectKeys(data)[j])
    ensures v in LanguageLink(data) && LanguageLink(data)[v] == Slug(ObjectKeys(data)[i], v)
  {
    var roots := ObjectKeys(data);
    var maps := RootLinkMaps(data, roots);
    forall j | 0 <= j < |roots| ensures v in maps[j] <==> v in Get(data, roots[j]) {
      VariantLinksSpec(roots[j], Get(data, roots[j]));
    }
    assert LastHolder(maps, v, i);
    MergeFoldLastWins(map[], maps, v, i);
    VariantLinksSpec(roots[i], Get(data, roots[i]));
  }

  /** With no array-index key, "last" is the last entry in insertion order. */
  lemma LanguageLinkLastEntry(data: LanguageHierarchy, v: string, i: nat)
    requires NoArrayIndexKeys(data)
    requires i < |data|
    requires v in data[i].1
    requires forall j :: i < j < |data| ==> v !in data[j].1
    ensures v in LanguageLink(data) && LanguageLink(data)[v] == Slug(data[i].0, v)
  {
    ObjectKeysInsertionOrder(data);
    var roots := ObjectKeys(data);
    forall j | 0 <= j < |data| ensures Get(data, roots[j]) == data[j].1 {
      GetAt(data, j);
    }
    LanguageLinkLastRoot(data, v, i);
  }

  lemma {:induction false} AllVariantsMembers(o: seq<Entry<seq<string>>>, v: string)
    ensures v in AllVariants(o) <==> exists j :: 0 <= j < |o| && v in o[j].1
  {
    if o != [] {
      AllVariantsMembers(o[1..], v);
      if exists j :: 0 <= j < |o[1..]| && v in o[1..][j].1 {
        var j :| 0 <= j < |o[1..]| && v in o[1..][j].1;
        assert o[1..][j] == o[j + 1];
      }
      if exists j :: 0 <= j < |o| && v in o[j].1 {
        var j :| 0 <= j < |o| && v in o[j].1;
        if j > 0 {
          assert o[1..][j - 1] == o[j];
        }
      }
    }
  }

  /** The two derived tables agree: a variant is in `languages` exactly when it has a link. */
  lemma LanguagesAreLinked(data: LanguageHierarchy)
    ensures forall v :: v in Languages(data) <==> v in LanguageLink(data)
  {
    LanguagesPermutation(data);
    LanguageLinkKeys(data);
    forall v ensures v in Languages(data) <==> v in LanguageLink(data) {
      AllVariantsMembers(data, v);
      assert v in Languages(data) <==> v in multiset(Languages(data));
      assert v in AllVariants(data) <==> v in multiset(AllVariants(data));
    }
  }

  // ---- loadMarkdownByLanguage --------------------------------------------------------

  /** Distinct language codes are fetched from distinct URLs. */
  lemma DocumentUrlInjective(a: string, b: string)
    ensures DocumentUrl(a) == DocumentUrl(b) ==> a == b
  {
    var ua, ub := DocumentUrl(a), DocumentUrl(b);
    assert ua[|DocumentPrefix|..|ua| - |DocumentSuffix|] == a;
    assert ub[|DocumentPrefix|..|ub| - |DocumentSuffix|] == b;
  }
}
