# Language-reference client selectors, modelled in Dafny

The client of this language-reference site loads its data through two Recoil selectors
in `src/selector.ts`:

- `loadLanguageHierarchy` fetches `/generated/languages.json`, an object that maps each
  root language code to the list of its variant codes. From it, the selector derives
  `rootLanguages` (the object's keys), `languages` (all variant lists concatenated),
  `languageMap` (the object itself) and `languageLink` (each variant mapped to the slug
  `root-variant`). The result is flagged `ready: true`.
- `loadMarkdownByLanguage(language)` fetches `/generated/languages/<language>.json`. It
  returns the parsed document tree with `ready: true`, or rethrows the error.

The model is pure, like the source:

- `js_object.dfy` (module `JsObject`) models a parsed JSON object as the ordered list of
  its own properties, with distinct keys. It also models `Object.keys`. That order is the
  ordinary [[OwnPropertyKeys]] order of ECMA-262 (OrdinaryOwnPropertyKeys, section
  10.1.11.1 of the 2023 edition): array-index keys first, in ascending numeric order, then
  every other key in insertion order.
- `folds.dfy` (module `Folds`) models the two `reduce` shapes as left folds:
  - array spread `[...acc, ...cur]` becomes `ConcatFold`;
  - object spread `{...acc, ...cur}` becomes `MergeFold`, a map union where the right
    side wins.
- `selector.dfy` (module `Selector`) holds the two selectors and the derivations they
  perform.
- `selector_properties.dfy` (module `SelectorProperties`) proves what those derivations
  mean. The proofs compare them with independent reference definitions: `Flattened`,
  `AllVariants`, `TotalVariants`, and the per-entry statements about `languageLink`.

The awaited `fetch(url)` followed by `response.json()` becomes a parameter
`server: string -> Settled<T>`. For every URL, it says whether that promise resolves with
the parsed JSON or rejects with a reason. A rejected selector is modelled as
`Rejected(reason)`. Recoil's loadable error state is not modelled.

Both selectors pass failures on unchanged. The hierarchy selector has no `catch`, and the
markdown selector's `catch` rethrows. So a failed fetch or parse rejects the selector
with the original reason. Neither selector ever produces a `ready: false` value or a
notification.

`Object.keys` lists a root code that is an array index, such as `"2"`, before every other
code, and the model covers that case. `ObjectKeysInsertionOrder`,
`LanguagesInsertionOrder` and `LanguageLinkLastEntry` state the plain insertion-order
results for the case where no key is an array index.

## Model

| member | source | states |
|---|---|---|
| `JsObject.ObjectKeys` | src/selector.ts:13 | `Object.keys(data)` lists exactly the object's keys: the same multiset as the insertion-order keys and the same length |
| `JsObject.ObjectKeysOrder` | src/selector.ts:13 | `rootLanguages` puts every array-index key before every other key, in ascending numeric order, and keeps the other keys in insertion order |
| `JsObject.ObjectKeysInsertionOrder` | src/selector.ts:13 | when no key is an array index, `rootLanguages` is the key list in insertion order |
| `JsObject.ObjectKeysDistinct` | src/selector.ts:13 | no root language appears twice in `rootLanguages` |
| `JsObject.GetAt` | src/selector.ts:15 | the lookup `data[l]` of an entry's key yields that entry's variant list |
| `SelectorProperties.ConcatFoldVariantLists` | src/selector.ts:14-16 | the array-spread `reduce` over `roots.map(l => data[l])` appends the variant lists in root order to the initial array |
| `SelectorProperties.LanguagesInKeyOrder` | src/selector.ts:14-16 | `languages` is the concatenation of each root's variant list, in `rootLanguages` order |
| `SelectorProperties.FlattenedPermutation` | src/selector.ts:14-16 | reordering the roots only permutes the concatenated variants |
| `SelectorProperties.LanguagesPermutation` | src/selector.ts:14-16 | `languages` holds every listed variant as often as it is listed, and its length is the sum of the lengths of the variant lists |
| `SelectorProperties.LanguagesInsertionOrder` | src/selector.ts:14-16 | when no key is an array index, `languages` is the variant lists concatenated in insertion order |
| `Folds.MergeFoldKeys` | src/selector.ts:19-20 | after an object-spread merge, a key is present exactly when the initial object or one of the merged objects has it |
| `Folds.MergeFoldUntouched` | src/selector.ts:19-20 | a key that no merged object has keeps the initial object's value |
| `Folds.MergeFoldLastWins` | src/selector.ts:19-20 | the merged value of a key is the one from the last merged object that has it |
| `Folds.LastHolderExists` | src/selector.ts:19-20 | if some merged object has a key, there is a last one that has it |
| `SelectorProperties.VariantLinksSpec` | src/selector.ts:19 | one root's links have exactly its variants as keys, each mapped to `root-variant` |
| `SelectorProperties.RootListsVariant` | src/selector.ts:18-19 | a variant is listed by some root of `rootLanguages` exactly when some entry of the object lists it |
| `SelectorProperties.LanguageLinkKeys` | src/selector.ts:18-20 | the keys of `languageLink` are exactly the variants that some root lists: none missing, no orphans |
| `SelectorProperties.LanguageLinkSlugs` | src/selector.ts:18-20 | every `languageLink` value is `root-variant` for a root that lists that variant |
| `SelectorProperties.LanguageLinkLastRoot` | src/selector.ts:18-20 | when several roots list a variant, its link uses the last of them in `rootLanguages` order |
| `SelectorProperties.LanguageLinkLastEntry` | src/selector.ts:18-20 | when no key is an array index and several roots list a variant, its link uses the last of them in insertion order |
| `SelectorProperties.AllVariantsMembers` | src/selector.ts:14-16 | a variant is in the concatenation of all lists exactly when some entry lists it |
| `SelectorProperties.LanguagesAreLinked` | src/selector.ts:14-20 | a variant is in `languages` exactly when it is a key of `languageLink` |
| `Selector.LoadLanguageHierarchy` | src/selector.ts:5-23 | the selector rejects exactly when fetching or parsing `/generated/languages.json` rejects, with the same reason; otherwise it is `ready`, `languageMap` is the parsed object unchanged, and the other fields are the derivations above |
| `Selector.LoadMarkdownByLanguage` | src/selector.ts:26-40 | the selector resolves exactly when the document fetch resolves, reporting `ready` with the parsed document unmodified; a rejection is rethrown with the same reason |
| `SelectorProperties.DocumentUrlInjective` | src/selector.ts:30 | the document URL string is `/generated/languages/` + code + `.json`, so distinct language codes give distinct URL strings |

## Left out

- `fetch`, `response.json()` and the `await` points are not modelled. They are network
  I/O and JSON parsing. Their combined outcome for each URL is the `server` parameter.
- JSON values of any other shape are not modelled: a top-level array, `null`, or a
  non-array variant value. On those, `Object.keys` or the spread behaves differently or
  throws. The model takes the `LanguageHierarchy` shape the source asserts.
- Duplicate keys in the JSON text are not modelled, because the parsed object never has
  two properties with the same key. That is the `DistinctKeys` invariant of
  `LanguageHierarchy`.
- The key order of the `languageLink` object itself is not modelled. It is a `map`, so
  only its keys and values are stated.
- Recoil's `selector` and `selectorFamily` wrappers, their caching per key and their
  loadable states are not modelled. They belong to a library whose code is not part of
  this model.
- `src/App.tsx` (the route table), `src/components/Page.tsx` (a layout wrapper) and
  `src/icons/Rescript.tsx` (static SVG markup) contain no logic to model.
- The build script `.scripts/esm/build-language-files.js` is not part of this model. It
  writes `generated/hierarchy.json` and one file per `yaml/lang/<dir>/lang.yml` under
  `generated/languages/<dir>/lang.json`. It does not write the `languages.json` and
  `languages/<language>.json` files the selectors fetch.
- The site's notification queue is not in `src/selector.ts` and is not modelled.
- URL resolution is not modelled. `fetch` resolves the URL string against the page URL
  before it requests it. So two different codes can name the same request: `"x#a"` and
  `"x#b"` both request `/generated/languages/x`, and `"a/../b"` requests the same file
  as `"b"`. `server` is keyed by the unresolved string.
- A fetch that never settles is not modelled. The source sets no timeout, so such a
  fetch leaves the selector pending forever. `Settled` has only the resolved and
  rejected cases.
- Lone UTF-16 surrogates in keys are not modelled. Dafny's `string` is a sequence of
  Unicode scalar values, while JavaScript property keys are sequences of UTF-16 code
  units. A root or variant code with a lone surrogate (JSON `"\ud800"`) has no
  counterpart. The derived results do not depend on the character encoding.
