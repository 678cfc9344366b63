/**
  The two Recoil selectors of the language-reference client.

  `loadLanguageHierarchy` fetches `/generated/languages.json`, an object mapping each root
  language code to the list of its variant codes, and derives from it the list of root
  languages, the flat list of all variants, the object itself, and `languageLink`, which
  sends each variant to the slug `root-variant` of the document that describes it.
  `loadMarkdownByLanguage(language)` fetches the compiled document of one language.

  The awaited `fetch(url)` followed by `response.json()` is a parameter `server`: for
  each URL, how that promise settles (with the parsed JSON, or with a rejection reason).
 */
module Selector {
  import opened JsObject
  import opened Folds

  /** The parsed `languages.json`: an object from root language code to variant codes. */
  type LanguageHierarchy = o: seq<Entry<seq<string>>> | DistinctKeys(o)

  /** Why a promise was rejected: a network failure, a JSON syntax error, ... */
  datatype Reason = Reason(name: string, message: string)

  /** How an awaited promise (or an async selector's result) settles. */
  datatype Settled<T> = Resolved(value: T) | Rejected(reason: Reason)

  /** The object `loadLanguageHierarchy` resolves to. */
  datatype LanguageHierarchyObject = LanguageHierarchyObject(
    ready: bool,
    rootLanguages: seq<string>,
    languages: seq<string>,
    languageMap: LanguageHierarchy,
    languageLink: map<string, string>)

  /** The object `loadMarkdownByLanguage` resolves to; `M` is the parsed document tree. */
  datatype LanguageMarkdownObject<M> = LanguageMarkdownObject(ready: bool, markdown: M)

  const HierarchyUrl: string := "/generated/languages.json"
  const DocumentPrefix: string := "/generated/languages/"
  const DocumentSuffix: string := ".json"

  // ---- loadLanguageHierarchy ---------------------------------------------------------

  /** `roots.map((l) => data[l])`. */
  function VariantLists(data: LanguageHierarchy, roots: seq<string>): seq<seq<string>>
    requires forall l :: l in roots ==> l in InsertionKeys(data)
  {
    seq(|roots|, i requires 0 <= i < |roots| => Get(data, roots[i]))
  }

  /** `Object.keys(data).map((l) => data[l]).reduce((acc, cur) => [...acc, ...cur], [])`. */
  function Languages(data: LanguageHierarchy): seq<string>
  {
    ConcatFold([], VariantLists(data, ObjectKeys(data)))
  }

  /** The template `${l}-${ll}`. */
  function Slug(root: string, variant: string): string
  {
    root + "-" + variant
  }

  /** `variants.map((ll) => ({[ll]: `${root}-${ll}`})).reduce((acc, cur) => ({...acc, ...cur}), {})`. */
  function VariantLinks(root: string, variants: seq<string>): map<string, string>
  {
    MergeFold(map[], seq(|variants|, i requires 0 <= i < |variants| => map[variants[i] := Slug(root, variants[i])]))
  }

  /** `roots.map((l) => <the per-root links of l>)`. */
  function RootLinkMaps(data: LanguageHierarchy, roots: seq<string>): seq<map<string, string>>
    requires forall l :: l in roots ==> l in InsertionKeys(data)
  {
    seq(|roots|, i requires 0 <= i < |roots| => VariantLinks(roots[i], Get(data, roots[i])))
  }

  /** `languageLink`: the per-root links merged in `Object.keys` order. */
  function LanguageLink(data: LanguageHierarchy): map<string, string>
  {
    MergeFold(map[], RootLinkMaps(data, ObjectKeys(data)))
  }

  /** The selector's `get`, once `languages.json` has been fetched and parsed. */
  function HierarchyObject(data: LanguageHierarchy): LanguageHierarchyObject
  {
    LanguageHierarchyObject(
      ready := true,
      rootLanguages := ObjectKeys(data),
      languages := Languages(data),
      languageMap := data,
      languageLink := LanguageLink(data))
  }

  /**
    `loadLanguageHierarchy`: a rejected fetch or parse rejects the selector with the same
    reason (there is no `catch`); otherwise the result is ready and derived from the data.
   */
  function LoadLanguageHierarchy(server: string -> Settled<LanguageHierarchy>): (r: Settled<LanguageHierarchyObject>)
    ensures r.Rejected? <==> server(HierarchyUrl).Rejected?
    ensures r.Rejected? ==> r.reason == server(HierarchyUrl).reason
    ensures r.Resolved? ==>
      var data := server(HierarchyUrl).value;
      && r.value.ready
      && r.value.languageMap == data
      && r.value.rootLanguages == ObjectKeys(data)
      && r.value.languages == Languages(data)
      && r.value.languageLink == LanguageLink(data)
  {
    match server(HierarchyUrl)
    case Rejected(reason) => Rejected(reason)
    case Resolved(data) => Resolved(HierarchyObject(data))
  }

  // ---- loadMarkdownByLanguage --------------------------------------------------------

  /** The template `/generated/languages/${language}.json`. */
  function DocumentUrl(language: string): string
  {
    DocumentPrefix + language + DocumentSuffix
  }

  /**
    `loadMarkdownByLanguage(language)`: the `catch` rethrows, so a rejected fetch or parse
    rejects the selector with the same reason; a parsed document is returned unchanged.
   */
  function LoadMarkdownByLanguage<M>(language: string, server: string -> Settled<M>): (r: Settled<LanguageMarkdownObject<M>>)
    ensures r.Resolved? <==> server(DocumentUrl(language)).Resolved?
    ensures r.Resolved? ==> r.value.ready && r.value.markdown == server(DocumentUrl(language)).value
    ensures r.Rejected? ==> r.reason == server(DocumentUrl(language)).reason
  {
    match server(DocumentUrl(language))
    case Resolved(markdown) => Resolved(LanguageMarkdownObject(true, markdown))
    case Rejected(error) => Rejected(error)
  }
}
