# Style context of cssinjs, modelled in Dafny

This project models `src/StyleContext.tsx` of the cssinjs library. That file has two pieces of logic.

- **`createCache`**: it reconciles the `<style data-css-hash>` elements that are already in the document, then returns a new cache. With a document present, it first appends every tagged style found in the body to the head, in document order (migration). It then makes one pass over all tagged styles in document order, keeping a record of the hashes it has seen. Every style whose hash was already seen is removed, so the first occurrence of each hash survives (deduplication).
- **The `StyleProvider` merge**: it derives the configuration a provider publishes from the inherited one and the provider's overrides.
  - `autoClear` and `mock` use `??`, so an explicit `false` override still wins.
  - `cache` is `cache || parentCache || createCache()`.
  - `defaultCache` is `!cache && parentDefaultCache`.
  - The root context (outside every provider) holds a cache created at load time and `defaultCache = true`.

Files:

- `wrappers.dfy` (module `Wrappers`): `Option`, and `Coalesce` for `??`.
- `reconciliation.dfy` (module `Reconciliation`), the value-level view of the document:
  - `Node`: an identity, "is a `<style>`", and the optional `data-css-hash` value.
  - A `Page` holds elements only. A style's text contents belong to its `Node` and move or disappear with it.
  - `Page`: the descendants of head and body, each as a sequence in document order.
  - the selector `Tagged`; the selections `Tags`, `Untagged` and `Marks`.
  - the first-wins filter `KeepFirst`; `Migrate`, `Dedup` and `Reconcile = Dedup ∘ Migrate`.
  - the lemmas about these functions.
- `style_context.dfy` (module `StyleContext`):
  - the imperative side: class `Document` with `head`/`body` fields and the methods `MigrateStyles` and `DedupStyles`; the loop `KeepFirstPass`; `CreateCache`; class `CacheEntity`. Each method is proved against the functions above.
  - the context: `Context`, `Props`, `Root`, `Merge`, `Provide`, and `Nested`, which folds `Merge` over nested scopes, with its lemmas.

Modelling choices:

- A missing document (`typeof document === 'undefined'`) is `doc == null`.
- The cache engine is a class with no state. `new CacheEntity()` gives a fresh handle.
- `undefined` and `null` are both `None`, or a `null` reference for `cache`. `cache || parentCache` tests for presence, since a cache object is always truthy.
- `document.body.querySelectorAll` matches descendants at any depth, so `body` is the sequence of all the body's descendant elements.
- `StyleProviderProps` also admits `defaultCache`. The provider never reads it, and in the model `Merge` ignores `Props.defaultCache`.
- The seen-hash lookup: see "## Findings". `KeepFirst` is the corrected lookup, and the rest of the model uses it.

## Model

| member | source | states |
|---|---|---|
| `StyleContext.Document.MigrateStyles` | src/StyleContext.tsx:9-13 | the new document is `Migrate` of the old: every tagged body style is appended to the head, in order, and leaves the body |
| `StyleContext.Document.DedupStyles` | src/StyleContext.tsx:15-26 | the new document is `Dedup` of the old: one pass over head then body with one seen set |
| `StyleContext.KeepFirstPass` | src/StyleContext.tsx:16-26 | the loop over the styles with the `styleHash` record: the nodes it keeps are `KeepFirst(nodes, seen)`, and the record afterwards holds `seen` plus every hash of `nodes` |
| `StyleContext.CreateCache` | src/StyleContext.tsx:7-30 | returns a fresh cache; with a document, the document afterwards is `Reconcile` of the one before; without one, nothing is modified |
| `Reconciliation.MigrateMoves` | src/StyleContext.tsx:9-13 | after migration no tagged style is left in the body; the old head is a prefix of the new head; the rest of the new head is the body's tagged styles in order; untagged nodes stay where they were |
| `Reconciliation.MigrateKeepsOrder` | src/StyleContext.tsx:9-13 | migration keeps the document order of the tagged styles, and loses and duplicates no node (same multiset) |
| `Reconciliation.DedupInDocumentOrder` | src/StyleContext.tsx:17-26 | deduplicating head then body, with the head's hashes carried over, is the first-wins filter over the whole document in order |
| `Reconciliation.KeepFirstAppend` | src/StyleContext.tsx:16-26 | filtering a concatenation is filtering the first part, then the second with the first part's hashes added to the seen set |
| `Reconciliation.KeepFirstMarks` | src/StyleContext.tsx:20-24 | the hashes left are exactly the input's hashes minus those already seen, so no distinct hash is lost |
| `Reconciliation.KeepFirstUnique` | src/StyleContext.tsx:16-26 | no two kept tagged styles share a hash, and none carries a hash from the seen set |
| `Reconciliation.KeepFirstUntagged` | src/StyleContext.tsx:17 | untagged nodes are all kept, in their order |
| `Reconciliation.KeepFirstTags` | src/StyleContext.tsx:17-24 | which tagged styles survive depends only on the sequence of tagged styles |
| `Reconciliation.KeepFirstSubseq` | src/StyleContext.tsx:17-24 | the result is a subsequence of the input: nodes are only removed, never reordered |
| `Reconciliation.KeepFirstRetains` | src/StyleContext.tsx:19-24 | for distinct nodes: a node is kept iff it is untagged, or its hash is not in the seen set and no earlier tagged style carries it (both directions) |
| `Reconciliation.KeepFirstIdentity` | src/StyleContext.tsx:20-24 | a sequence whose hashes are already unique and not yet seen is left unchanged |
| `Reconciliation.ReconcileTags` | src/StyleContext.tsx:9-26 | the tagged styles left, in document order, are exactly the first occurrence of each hash among the tagged styles before, in document order (head first) |
| `Reconciliation.ReconcileUnique` | src/StyleContext.tsx:16-26 | afterwards no two tagged styles in the document share a hash |
| `Reconciliation.ReconcileMarks` | src/StyleContext.tsx:20-24 | the set of hashes in the document is the same before and after |
| `Reconciliation.ReconcileUntagged` | src/StyleContext.tsx:9-17 | afterwards the body is exactly its old untagged nodes in order, with no tagged style; the head's own untagged nodes are kept in order |
| `Reconciliation.ReconcileOrder` | src/StyleContext.tsx:11-26 | the result is a subsequence of the migrated document: deduplication reorders nothing |
| `Reconciliation.ReconcileFirstWins` | src/StyleContext.tsx:17-24 | for distinct nodes: the k-th tagged style of the original document survives iff no earlier tagged style carries its hash |
| `Reconciliation.ReconcileIdempotent` | src/StyleContext.tsx:9-26 | reconciling the result again moves and removes nothing |
| `Reconciliation.ReconcileNothingTagged` | src/StyleContext.tsx:8-27 | a document without tagged styles is left unchanged |
| `Reconciliation.ReconcileTwoHashes` | src/StyleContext.tsx:9-26 | the example: with `h1` in the head, `h1` and `h2` in the body, the result is head `[h1, h2]` (the head's `h1`) and an empty body |
| `Reconciliation.AsWrittenLosesInheritedHash` | src/StyleContext.tsx:16-24 | with the lookup as written, a lone style with hash `constructor` is removed and its hash lost; the first-wins filter keeps it |
| `Reconciliation.AsWrittenAgrees` | src/StyleContext.tsx:16-24 | with no hash that names an inherited property, the lookup as written gives the first-wins filter |
| `StyleContext.DefaultContext` | src/StyleContext.tsx:45-48 | the root context is built around a fresh cache from `createCache`, which reconciles the document |
| `StyleContext.Merge` | src/StyleContext.tsx:62-67 | a present `autoClear`/`mock` (including `false`) overrides the parent's, and a nullish one falls back to it; the cache is the override, else the parent's, else the created one, and is never absent; `defaultCache` holds iff no cache override is given and the parent's holds |
| `StyleContext.Provide` | src/StyleContext.tsx:52-67 | the published context is `Merge` with the cache obtained; `createCache` runs, on a fresh handle with the document reconciled, only when neither the override nor the parent has a cache; otherwise the document is untouched |
| `StyleContext.NestedCache` | src/StyleContext.tsx:65 | over nested scopes, the innermost cache override wins; with none, the root's cache, or the created one when the root has none; below the root the cache is never absent |
| `StyleContext.NestedDefaultCache` | src/StyleContext.tsx:66 | over nested scopes, `defaultCache` holds iff the root's holds and no scope gives a cache |
| `StyleContext.NestedAutoClear` | src/StyleContext.tsx:63 | over nested scopes, the innermost present `autoClear` wins, `false` included; with none, the root's |
| `StyleContext.NestedMock` | src/StyleContext.tsx:64 | over nested scopes, the innermost present `mock` wins; with none, the root's |
| `StyleContext.NestedFromRoot` | src/StyleContext.tsx:45-67 | under the root context, the cache is never absent, `defaultCache` holds iff no scope gave a cache, and then the cache is the root's |

## Findings

| source | as written | input that shows it | evidently intended | confidence | as-written member | corrected member |
|---|---|---|---|---|---|---|
| src/StyleContext.tsx:16-24 | `styleHash` is an object literal, so `styleHash[hash]` is truthy for any name inherited from `Object.prototype` (`constructor`, `toString`, `__proto__`, …). Such a style is removed even when it is the first with its hash. | one `<style data-css-hash="constructor">` in the head: it is removed, and the hash leaves the document | the first style of every hash is kept (an own-key lookup, such as a `Set` or `hasOwnProperty`) | low: generated hashes rarely equal these names; not executed | `Reconciliation.KeepFirstAsWritten`, `Reconciliation.AsWrittenLosesInheritedHash` | `Reconciliation.KeepFirst`, `Reconciliation.KeepFirstMarks` |

## Left out

- React machinery: `React.createContext`, `useContext`, the JSX provider and `children` are replaced by an explicit parent argument (`Provide`) and a fold over nested scopes (`Nested`). `useMemo`'s dependency tracking is left out. Each call here is one fresh evaluation.
- Real DOM semantics are replaced by the `Page` view. This covers `querySelectorAll`, `appendChild`, `removeChild`, `parentNode`, and nodes of the document outside head and body. The tree below head and body is flattened into document order. Removal and appending are modelled by rebuilding these sequences in place of node-by-node pointer updates.
- HTML's case-insensitive tag matching is left out: "is a `<style>`" is a boolean on the node.
- `CacheEntity` internals (`./Cache`) are not part of this model. The cache is an opaque handle whose only property is identity.
- `ATTR_TOKEN` is declared in the file and never used there.
- `mock` is only passed through: an optional `Server` or `Client` value.
- `StyleContext.Document.DedupStyles`, `StyleContext.KeepFirstPass`, `StyleContext.CreateCache`, `StyleContext.DefaultContext`, `StyleContext.Provide`: they use the corrected own-key lookup, not the inherited-property lookup as written; see "## Findings".
- `StyleContext.CreateCache`: a document that exists but has a null `body` makes the source throw at line 9, for instance a script run from `<head>` before the parser reaches `<body>`. A null `head` makes it throw at line 12. Then no cache is returned, and at load time (line 46) the module fails. The model assumes that a present document has both a head and a body, so this error path is not modelled.
- `StyleContext.Nested`: it uses one `created` handle for the whole chain. Along a chain, `createCache` can run at most once, at the first scope where both the override and the inherited cache are absent. Re-renders that create a new cache are not modelled.
