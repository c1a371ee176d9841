/**
 * The style context: `createCache`, which reconciles the styles already in the document and
 * returns a new cache, and the provider merge, which derives the configuration a scope
 * publishes from the one it inherits and the overrides it is given.
 */
module StyleContext {
  import opened Wrappers
  import opened Reconciliation

  /** The cache engine, defined elsewhere; here only its identity matters. */
  class CacheEntity {
    constructor ()
    {
    }
  }

  /** The browser document: the descendants of its head and of its body, in document order. */
  class Document {
    var head: seq<Node>
    var body: seq<Node>

    constructor (head: seq<Node>, body: seq<Node>)
      ensures this.head == head && this.body == body
    {
      this.head := head;
      this.body := body;
    }

    /** The current state of the document as a value. */
    function Surface(): Page
      reads this
    {
      Page(head, body)
    }

    /** Step one: each tagged style of the body, in document order, is appended to the head
        (and so leaves the body). */
    method MigrateStyles()
      modifies this
      ensures Surface() == Migrate(old(Surface()))
    {
      var styles := body;
      ghost var before := head;
      var moved: seq<Node> := [];
      var stays: seq<Node> := [];
      var i := 0;
      while i < |styles|
        invariant 0 <= i <= |styles|
        invariant moved == Tags(styles[..i])
        invariant stays == Untagged(styles[..i])
        invariant head == before + moved
        invariant body == stays + styles[i..]
      {
        var node := styles[i];
        ghost var done := styles[..i];
        assert styles[..i + 1] == done + [node];
        TagsSnoc(done, node);
        if Tagged(node) {
          moved := moved + [node];
          head := head + [node];
        } else {
          stays := stays + [node];
        }
        body := stays + styles[i + 1..];
        i := i + 1;
      }
      assert styles[..i] == styles;
      assert body == stays;
    }

    /** Step two: one pass over the tagged styles in document order with one set of seen
        hashes; a style whose hash was seen already is removed from its parent. */
    method DedupStyles()
      modifies this
      ensures Surface() == Dedup(old(Surface()))
    {
      var seen: set<string> := {};
      var keptHead, keptBody;
      keptHead, seen := KeepFirstPass(head, seen);
      assert seen == Marks(head);
      keptBody, seen := KeepFirstPass(body, seen);
      head, body := keptHead, keptBody;
    }
  }

  /** The loop of the deduplication pass over one container: walks `nodes` in order, keeps each
      node unless it is a tagged style whose hash is in the seen set, and records the hash of
      every tagged style it keeps. */
  method KeepFirstPass(nodes: seq<Node>, seen: set<string>) returns (kept: seq<Node>, seenAfter: set<string>)
    ensures kept == KeepFirst(nodes, seen)
    ensures seenAfter == seen + Marks(nodes)
  {
    kept, seenAfter := [], seen;
    var i := 0;
    while i < |nodes|
      invariant 0 <= i <= |nodes|
      invariant kept == KeepFirst(nodes[..i], seen)
      invariant seenAfter == seen + Marks(nodes[..i])
    {
      var style := nodes[i];
      assert nodes[..i + 1] == nodes[..i] + [style];
      assert (nodes[..i + 1])[..i] == nodes[..i];
      MarksSnoc(nodes[..i], style);
      if Tagged(style) && Hash(style) in seenAfter {
        // the style is removed: it is not kept
      } else {
        kept := kept + [style];
        if Tagged(style) {
          seenAfter := seenAfter + {Hash(style)};
        }
      }
      i := i + 1;
    }
    assert nodes[..i] == nodes;
  }

  /** `createCache`: where there is a document (`doc != null`) it is reconciled; in every case a
      new cache is returned. Without a document nothing is modified. */
  method CreateCache(doc: Document?) returns (cache: CacheEntity)
    modifies doc
    ensures fresh(cache)
    ensures doc != null ==> doc.Surface() == Reconcile(old(doc.Surface()))
  {
    if doc != null {
      doc.MigrateStyles();
      doc.DedupStyles();
    }
    cache := new CacheEntity();
  }

  // ---------------------------------------------------------------------------
  // The context

  /** The test-only rendering mode. */
  datatype Mock = Server | Client

  /** The configuration a scope publishes; `cache` is `null` only in a context value that was
      built without one. */
  datatype Context = Context(autoClear: Option<bool>, mock: Option<Mock>, cache: CacheEntity?, defaultCache: bool)

  /** What a provider is given. Its `defaultCache` is accepted and never read. */
  datatype Props = Props(autoClear: Option<bool>, mock: Option<Mock>, cache: CacheEntity?, defaultCache: Option<bool>)

  /** The context seen outside every provider, built around the cache created at load time. */
  function Root(cache: CacheEntity): Context {
    Context(None, None, cache, true)
  }

  /** Builds the root context at load time: it calls `createCache` once. */
  method DefaultContext(doc: Document?) returns (ctx: Context)
    modifies doc
    ensures ctx.cache != null && fresh(ctx.cache) && ctx == Root(ctx.cache)
    ensures doc != null ==> doc.Surface() == Reconcile(old(doc.Surface()))
  {
    var cache := CreateCache(doc);
    ctx := Root(cache);
  }

  /** The provider's merge, given the cache `createCache` would return when it is needed:
      `autoClear` and `mock` take the override unless it is nullish (so an explicit `false`
      wins), `cache` is the first present of the override, the parent's and `created`, and
      `defaultCache` holds only when no cache override is given and the parent's holds. */
  function Merge(parent: Context, props: Props, created: CacheEntity): (r: Context)
    ensures props.autoClear.Some? ==> r.autoClear == props.autoClear
    ensures props.autoClear.None? ==> r.autoClear == parent.autoClear
    ensures props.mock.Some? ==> r.mock == props.mock
    ensures props.mock.None? ==> r.mock == parent.mock
    ensures r.cache != null
    ensures props.cache != null ==> r.cache == props.cache
    ensures props.cache == null && parent.cache != null ==> r.cache == parent.cache
    ensures props.cache == null && parent.cache == null ==> r.cache == created
    ensures r.defaultCache <==> props.cache == null && parent.defaultCache
  {
    Context(
      Coalesce(props.autoClear, parent.autoClear),
      Coalesce(props.mock, parent.mock),
      if props.cache != null then props.cache else if parent.cache != null then parent.cache else created,
      props.cache == null && parent.defaultCache)
  }

  /** A provider rendering under `parent`: `createCache` runs only when neither the override nor
      the parent has a cache, and the published context is the merge with the cache obtained. */
  method Provide(doc: Document?, parent: Context, props: Props) returns (ctx: Context)
    modifies doc
    ensures ctx.cache != null && ctx == Merge(parent, props, ctx.cache)
    ensures doc != null && (props.cache != null || parent.cache != null) ==> unchanged(doc)
    ensures props.cache == null && parent.cache == null ==> fresh(ctx.cache)
    ensures doc != null && props.cache == null && parent.cache == null ==>
      doc.Surface() == Reconcile(old(doc.Surface()))
  {
    var cache: CacheEntity;
    if props.cache != null {
      cache := props.cache;
    } else if parent.cache != null {
      cache := parent.cache;
    } else {
      cache := CreateCache(doc);
    }
    ctx := Merge(parent, props, cache);
  }

  /** Nested providers, `scopes[0]` outermost, under `root`. Along one chain `createCache` runs at
      most once: once a scope has a cache, every scope inside it inherits one, so a single
      `created` handle stands for it. */
  function Nested(root: Context, scopes: seq<Props>, created: CacheEntity): Context
    decreases |scopes|
  {
    if scopes == [] then root
    else Merge(Nested(root, scopes[..|scopes| - 1], created), scopes[|scopes| - 1], created)
  }

  /** The innermost cache override wins; without any, the root's cache, or `created` when the
      root has none; so below the root the cache is never absent. */
  lemma {:induction false} NestedCache(root: Context, scopes: seq<Props>, created: CacheEntity)
    ensures scopes != [] || root.cache != null ==> Nested(root, scopes, created).cache != null
    ensures forall k ::
      (0 <= k < |scopes| && scopes[k].cache != null && forall j :: k < j < |scopes| ==> scopes[j].cache == null) ==>
      Nested(root, scopes, created).cache == scopes[k].cache
    ensures (forall j :: 0 <= j < |scopes| ==> scopes[j].cache == null) ==>
      Nested(root, scopes, created).cache == if root.cache != null || scopes == [] then root.cache else created
    decreases |scopes|
  {
    if scopes != [] {
      var p := scopes[..|scopes| - 1];
      NestedCache(root, p, created);
      assert forall j :: 0 <= j < |p| ==> p[j] == scopes[j];
    }
  }

  /** `defaultCache` holds exactly when the root's does and no scope gives a cache. */
  lemma {:induction false} NestedDefaultCache(root: Context, scopes: seq<Props>, created: CacheEntity)
    ensures Nested(root, scopes, created).defaultCache <==>
      root.defaultCache && forall j :: 0 <= j < |scopes| ==> scopes[j].cache == null
    decreases |scopes|
  {
    if scopes != [] {
      var p := scopes[..|scopes| - 1];
      NestedDefaultCache(root, p, created);
      assert forall j :: 0 <= j < |p| ==> p[j] == scopes[j];
    }
  }

  /** The innermost non-nullish `autoClear` wins, `false` included; without any, the root's. */
  lemma {:induction false} NestedAutoClear(root: Context, scopes: seq<Props>, created: CacheEntity)
    ensures forall k ::
      (0 <= k < |scopes| && scopes[k].autoClear.Some? && forall j :: k < j < |scopes| ==> scopes[j].autoClear.None?) ==>
      Nested(root, scopes, created).autoClear == scopes[k].autoClear
    ensures (forall j :: 0 <= j < |scopes| ==> scopes[j].autoClear.None?) ==>
      Nested(root, scopes, created).autoClear == root.autoClear
    decreases |scopes|
  {
    if scopes != [] {
      var p := scopes[..|scopes| - 1];
      NestedAutoClear(root, p, created);
      assert forall j :: 0 <= j < |p| ==> p[j] == scopes[j];
    }
  }

  /** The innermost non-nullish `mock` wins; without any, the root's. */
  lemma {:induction false} NestedMock(root: Context, scopes: seq<Props>, created: CacheEntity)
    ensures forall k ::
      (0 <= k < |scopes| && scopes[k].mock.Some? && forall j :: k < j < |scopes| ==> scopes[j].mock.None?) ==>
      Nested(root, scopes, created).mock == scopes[k].mock
    ensures (forall j :: 0 <= j < |scopes| ==> scopes[j].mock.None?) ==>
      Nested(root, scopes, created).mock == root.mock
    decreases |scopes|
  {
    if scopes != [] {
      var p := scopes[..|scopes| - 1];
      NestedMock(root, p, created);
      assert forall j :: 0 <= j < |p| ==> p[j] == scopes[j];
    }
  }

  /** Under the root context, `defaultCache` holds exactly when no scope gave a cache, and then
      the cache is the root's; `created` is never used. */
  lemma {:induction false} NestedFromRoot(cache: CacheEntity, scopes: seq<Props>, created: CacheEntity)
    ensures var r := Nested(Root(cache), scopes, created);
      r.cache != null &&
      (r.defaultCache <==> forall j :: 0 <= j < |scopes| ==> scopes[j].cache == null) &&
      (r.defaultCache ==> r.cache == cache)
  {
    NestedCache(Root(cache), scopes, created);
    NestedDefaultCache(Root(cache), scopes, created);
  }
}
