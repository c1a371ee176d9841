/**
 * The document reconciliation that `createCache` performs before it builds a cache:
 * tagged `<style>` elements found in the body are moved to the end of the head, then one
 * pass over all tagged styles in document order removes every style whose hash was
 * already seen, so the first occurrence of each hash survives.
 *
 * The document is a `Page`: the descendants of `document.head` and of `document.body`,
 * each as a sequence in document order.
 */
module Reconciliation {
  import opened Wrappers

  /** A node of the document: its identity, whether it is a `<style>` element, and the
      value of its `data-css-hash` attribute, if it has one. */
  datatype Node = Node(id: nat, isStyle: bool, mark: Option<string>)

  /** The document as the reconciliation sees it. */
  datatype Page = Page(head: seq<Node>, body: seq<Node>)

  /** Matches the selector `style[data-css-hash]`. */
  predicate Tagged(n: Node) {
    n.isStyle && n.mark.Some?
  }

  /** The hash a tagged style carries. */
  function Hash(n: Node): string
    requires Tagged(n)
  {
    n.mark.value
  }

  /** All nodes of the page, in document order (head before body). */
  function Nodes(p: Page): seq<Node> {
    p.head + p.body
  }

  /** The tagged styles of `s`, in order (what `querySelectorAll` returns). */
  function Tags(s: seq<Node>): seq<Node>
    decreases |s|
  {
    if s == [] then []
    else Tags(s[..|s| - 1]) + (if Tagged(s[|s| - 1]) then [s[|s| - 1]] else [])
  }

  /** The nodes of `s` that the selector does not match, in order. */
  function Untagged(s: seq<Node>): seq<Node>
    decreases |s|
  {
    if s == [] then []
    else Untagged(s[..|s| - 1]) + (if Tagged(s[|s| - 1]) then [] else [s[|s| - 1]])
  }

  /** The set of hashes carried by the tagged styles of `s`. */
  function Marks(s: seq<Node>): set<string> {
    set n | n in s && Tagged(n) :: Hash(n)
  }

  /** No two tagged styles of `s` carry the same hash. */
  predicate UniqueMarks(s: seq<Node>) {
    forall i, j :: 0 <= i < j < |s| && Tagged(s[i]) && Tagged(s[j]) ==> Hash(s[i]) != Hash(s[j])
  }

  /** No node occurs twice (every DOM node has one place in the tree). */
  predicate Distinct(s: seq<Node>) {
    forall i, j :: 0 <= i < j < |s| ==> s[i] != s[j]
  }

  /** `a` is `b` with some elements left out, the rest in their order. */
  predicate Subseq(a: seq<Node>, b: seq<Node>)
    decreases |b|
  {
    if a == [] then true
    else if b == [] then false
    else if a[|a| - 1] == b[|b| - 1] then Subseq(a[..|a| - 1], b[..|b| - 1])
    else Subseq(a, b[..|b| - 1])
  }

  /** The first-wins deduplication: a node of `s` is kept unless it is a tagged style whose
      hash is in `seen` or was carried by an earlier tagged style of `s`. */
  function KeepFirst(s: seq<Node>, seen: set<string>): seq<Node>
    decreases |s|
  {
    if s == [] then []
    else
      var p, n := s[..|s| - 1], s[|s| - 1];
      KeepFirst(p, seen) + (if Tagged(n) && Hash(n) in seen + Marks(p) then [] else [n])
  }

  /** Step one of `createCache`: every tagged style of the body is appended to the head. */
  function Migrate(p: Page): Page {
    Page(p.head + Tags(p.body), Untagged(p.body))
  }

  /** Step two: one pass over the whole document in order, with one set of seen hashes. */
  function Dedup(p: Page): Page {
    Page(KeepFirst(p.head, {}), KeepFirst(p.body, Marks(p.head)))
  }

  /** Everything `createCache` does to an available document. */
  function Reconcile(p: Page): Page {
    Dedup(Migrate(p))
  }

  // ---------------------------------------------------------------------------
  // Facts about the selections

  lemma MarksAppend(a: seq<Node>, b: seq<Node>)
    ensures Marks(a + b) == Marks(a) + Marks(b)
  {
    assert forall n :: n in a + b <==> n in a || n in b;
  }

  lemma MarksSnoc(p: seq<Node>, n: Node)
    ensures Marks(p + [n]) == Marks(p) + (if Tagged(n) then {Hash(n)} else {})
  {
    MarksAppend(p, [n]);
    assert Marks([n]) == (if Tagged(n) then {Hash(n)} else {}) by {
      assert forall m :: m in [n] <==> m == n;
    }
  }

  lemma {:induction false} TagsAppend(a: seq<Node>, b: seq<Node>)
    ensures Tags(a + b) == Tags(a) + Tags(b)
    ensures Untagged(a + b) == Untagged(a) + Untagged(b)
    decreases |b|
  {
    if b == [] {
      assert a + b == a;
    } else {
      var b' := b[..|b| - 1];
      assert (a + b)[..|a + b| - 1] == a + b';
      TagsAppend(a, b');
    }
  }

  lemma TagsSingleton(n: Node)
    ensures Tags([n]) == (if Tagged(n) then [n] else [])
    ensures Untagged([n]) == (if Tagged(n) then [] else [n])
  {
    assert [n][..0] == [];
  }

  lemma TagsSnoc(p: seq<Node>, n: Node)
    ensures Tags(p + [n]) == Tags(p) + (if Tagged(n) then [n] else [])
    ensures Untagged(p + [n]) == Untagged(p) + (if Tagged(n) then [] else [n])
  {
    assert (p + [n])[..|p + [n]| - 1] == p;
  }

  /** `Tags` selects exactly the tagged nodes, and `Untagged` the others. */
  lemma {:induction false} TagsMembers(s: seq<Node>)
    ensures forall n :: n in Tags(s) <==> n in s && Tagged(n)
    ensures forall n :: n in Untagged(s) <==> n in s && !Tagged(n)
    decreases |s|
  {
    if s != [] {
      var p := s[..|s| - 1];
      assert s == p + [s[|s| - 1]];
      TagsMembers(p);
    }
  }

  /** Selecting splits a sequence without losing or duplicating any node. */
  lemma {:induction false} TagsSplit(s: seq<Node>)
    ensures multiset(Tags(s)) + multiset(Untagged(s)) == multiset(s)
    decreases |s|
  {
    if s != [] {
      var p := s[..|s| - 1];
      assert s == p + [s[|s| - 1]];
      TagsSplit(p);
    }
  }

  lemma {:induction false} MarksTags(s: seq<Node>)
    ensures Marks(Tags(s)) == Marks(s)
  {
    TagsMembers(s);
  }

  /** A sequence with no tagged style selects nothing and keeps everything. */
  lemma {:induction false} NoTags(s: seq<Node>)
    requires Tags(s) == []
    ensures Untagged(s) == s
    ensures Marks(s) == {}
    ensures UniqueMarks(s)
    decreases |s|
  {
    if s != [] {
      var p, n := s[..|s| - 1], s[|s| - 1];
      TagsSnoc(p, n);
      assert s == p + [n];
      NoTags(p);
    }
    TagsMembers(s);
    assert forall i :: 0 <= i < |s| ==> s[i] in s;
  }

  lemma {:induction false} DistinctTags(s: seq<Node>)
    requires Distinct(s)
    ensures Distinct(Tags(s))
    decreases |s|
  {
    if s != [] {
      var p, n := s[..|s| - 1], s[|s| - 1];
      assert Distinct(p);
      DistinctTags(p);
      TagsMembers(p);
      assert n !in p;
    }
  }

  // ---------------------------------------------------------------------------
  // Subsequences

  lemma {:induction false} SubseqSnoc(a: seq<Node>, b: seq<Node>, x: Node)
    requires Subseq(a, b)
    ensures Subseq(a, b + [x])
    decreases |b|, 1
  {
    var b' := b + [x];
    assert b'[..|b'| - 1] == b;
    if a != [] && a[|a| - 1] == x {
      SubseqDropLast(a, b);
    }
  }

  lemma {:induction false} SubseqDropLast(a: seq<Node>, b: seq<Node>)
    requires a != [] && Subseq(a, b)
    ensures Subseq(a[..|a| - 1], b)
    decreases |b|, 0
  {
    var b' := b[..|b| - 1];
    assert b == b' + [b[|b| - 1]];
    if a[|a| - 1] == b[|b| - 1] {
      SubseqSnoc(a[..|a| - 1], b', b[|b| - 1]);
    } else {
      SubseqDropLast(a, b');
      SubseqSnoc(a[..|a| - 1], b', b[|b| - 1]);
    }
  }

  // ---------------------------------------------------------------------------
  // The first-wins deduplication

  /** Deduplicating a concatenation is deduplicating its halves with the seen set carried over. */
  lemma {:induction false} KeepFirstAppend(a: seq<Node>, b: seq<Node>, seen: set<string>)
    ensures KeepFirst(a + b, seen) == KeepFirst(a, seen) + KeepFirst(b, seen + Marks(a))
    decreases |b|
  {
    if b == [] {
      assert a + b == a;
    } else {
      var b' := b[..|b| - 1];
      assert (a + b)[..|a + b| - 1] == a + b';
      KeepFirstAppend(a, b', seen);
      MarksAppend(a, b');
    }
  }

  /** Deduplication keeps exactly the hashes not seen before: it never loses a distinct hash. */
  lemma {:induction false} KeepFirstMarks(s: seq<Node>, seen: set<string>)
    ensures Marks(KeepFirst(s, seen)) == Marks(s) - seen
    decreases |s|
  {
    if s != [] {
      var p, n := s[..|s| - 1], s[|s| - 1];
      assert s == p + [n];
      KeepFirstMarks(p, seen);
      MarksSnoc(p, n);
      if Tagged(n) && Hash(n) in seen + Marks(p) {
        assert KeepFirst(s, seen) == KeepFirst(p, seen);
      } else {
        MarksSnoc(KeepFirst(p, seen), n);
      }
    }
  }

  /** After deduplication no two tagged styles share a hash, and none has a hash from `seen`. */
  lemma {:induction false} KeepFirstUnique(s: seq<Node>, seen: set<string>)
    ensures UniqueMarks(KeepFirst(s, seen))
    ensures Marks(KeepFirst(s, seen)) !! seen
    decreases |s|
  {
    KeepFirstMarks(s, seen);
    if s != [] {
      var p, n := s[..|s| - 1], s[|s| - 1];
      KeepFirstUnique(p, seen);
      var r' := KeepFirst(p, seen);
      if !(Tagged(n) && Hash(n) in seen + Marks(p)) {
        var r := r' + [n];
        KeepFirstMarks(p, seen);
        forall i, j | 0 <= i < j < |r| && Tagged(r[i]) && Tagged(r[j])
          ensures Hash(r[i]) != Hash(r[j])
        {
          if j == |r| - 1 {
            assert r[i] in r';
            assert Hash(r[i]) in Marks(r');
          } else {
            assert r[i] == r'[i] && r[j] == r'[j];
          }
        }
      }
    }
  }

  /** Untagged nodes are never removed, and keep their order. */
  lemma {:induction false} KeepFirstUntagged(s: seq<Node>, seen: set<string>)
    ensures Untagged(KeepFirst(s, seen)) == Untagged(s)
    decreases |s|
  {
    if s != [] {
      var p, n := s[..|s| - 1], s[|s| - 1];
      assert s == p + [n];
      KeepFirstUntagged(p, seen);
      TagsSnoc(p, n);
      var r' := KeepFirst(p, seen);
      if Tagged(n) && Hash(n) in seen + Marks(p) {
        assert KeepFirst(s, seen) == r' + [];
        assert r' + [] == r';
      } else {
        assert KeepFirst(s, seen) == r' + [n];
        TagsSnoc(r', n);
      }
    }
  }

  /** Which tagged styles survive depends only on the tagged styles. */
  lemma {:induction false} KeepFirstTags(s: seq<Node>, seen: set<string>)
    ensures Tags(KeepFirst(s, seen)) == KeepFirst(Tags(s), seen)
    decreases |s|
  {
    if s != [] {
      var p, n := s[..|s| - 1], s[|s| - 1];
      assert s == p + [n];
      KeepFirstTags(p, seen);
      TagsSnoc(p, n);
      MarksTags(p);
      var r' := KeepFirst(p, seen);
      var keep := !(Tagged(n) && Hash(n) in seen + Marks(p));
      if keep {
        assert KeepFirst(s, seen) == r' + [n];
        TagsSnoc(r', n);
      } else {
        assert KeepFirst(s, seen) == r' + [];
        assert r' + [] == r';
      }
      if Tagged(n) {
        var t := Tags(p) + [n];
        assert Tags(s) == t;
        assert t[..|t| - 1] == Tags(p) && t[|t| - 1] == n;
        assert KeepFirst(t, seen) == KeepFirst(Tags(p), seen) + (if keep then [n] else []);
      } else {
        assert Tags(s) == Tags(p);
      }
    }
  }

  /** Deduplication only leaves nodes out; the others keep their order. */
  lemma {:induction false} KeepFirstSubseq(s: seq<Node>, seen: set<string>)
    ensures Subseq(KeepFirst(s, seen), s)
    decreases |s|
  {
    if s != [] {
      var p, n := s[..|s| - 1], s[|s| - 1];
      assert s == p + [n];
      KeepFirstSubseq(p, seen);
      var r' := KeepFirst(p, seen);
      if Tagged(n) && Hash(n) in seen + Marks(p) {
        assert KeepFirst(s, seen) == r' + [] == r';
        SubseqSnoc(r', p, n);
      } else {
        var r := r' + [n];
        assert KeepFirst(s, seen) == r;
        assert r[..|r| - 1] == r' && s[..|s| - 1] == p;
      }
    }
  }

  /** A hash is among the marks of `p` exactly when some tagged style of `p` carries it. */
  lemma MarksAt(p: seq<Node>, n: Node)
    requires Tagged(n)
    ensures Hash(n) !in Marks(p) <==> forall j :: 0 <= j < |p| && Tagged(p[j]) ==> p[j].mark != n.mark
  {
    if Hash(n) in Marks(p) {
      var m :| m in p && Tagged(m) && Hash(m) == Hash(n);
      var j :| 0 <= j < |p| && p[j] == m;
    } else {
      assert forall j :: 0 <= j < |p| ==> p[j] in p;
    }
  }

  /** The first occurrence of each hash is retained and every later one removed: a node is
      kept exactly when it is untagged, or tagged with a hash that neither `seen` nor any
      earlier tagged style carries. */
  lemma {:induction false} KeepFirstRetains(s: seq<Node>, seen: set<string>, i: nat)
    requires Distinct(s) && i < |s|
    ensures s[i] in KeepFirst(s, seen) <==>
      !Tagged(s[i]) ||
      (Hash(s[i]) !in seen && forall j :: 0 <= j < i && Tagged(s[j]) ==> s[j].mark != s[i].mark)
    decreases |s|
  {
    var p, n := s[..|s| - 1], s[|s| - 1];
    var r' := KeepFirst(p, seen);
    var keep := !(Tagged(n) && Hash(n) in seen + Marks(p));
    assert KeepFirst(s, seen) == r' + (if keep then [n] else []);
    assert forall j :: 0 <= j < |p| ==> s[j] == p[j];
    if i == |s| - 1 {
      KeepFirstMembers(p, seen);
      assert n !in p by {
        forall j | 0 <= j < |p| ensures p[j] != n {
          assert s[j] == p[j];
        }
      }
      if Tagged(n) {
        MarksAt(p, n);
      }
    } else {
      assert Distinct(p);
      KeepFirstRetains(p, seen, i);
      assert s[i] == p[i] && s[i] != n;
    }
  }

  /** Every kept node comes from the input. */
  lemma {:induction false} KeepFirstMembers(s: seq<Node>, seen: set<string>)
    ensures forall n :: n in KeepFirst(s, seen) ==> n in s
    decreases |s|
  {
    if s != [] {
      KeepFirstMembers(s[..|s| - 1], seen);
    }
  }

  /** A sequence whose hashes are already unique and unseen is left as it is. */
  lemma {:induction false} KeepFirstIdentity(s: seq<Node>, seen: set<string>)
    requires UniqueMarks(s) && Marks(s) !! seen
    ensures KeepFirst(s, seen) == s
    decreases |s|
  {
    if s != [] {
      var p, n := s[..|s| - 1], s[|s| - 1];
      assert s == p + [n];
      MarksSnoc(p, n);
      assert UniqueMarks(p);
      KeepFirstIdentity(p, seen);
    }
  }

  // ---------------------------------------------------------------------------
  // Migration

  /** Selecting from a selection: the tagged styles are all tagged, the rest all untagged. */
  lemma {:induction false} SelectTwice(s: seq<Node>)
    ensures Tags(Tags(s)) == Tags(s) && Untagged(Tags(s)) == []
    ensures Tags(Untagged(s)) == [] && Untagged(Untagged(s)) == Untagged(s)
    decreases |s|
  {
    if s != [] {
      var p, n := s[..|s| - 1], s[|s| - 1];
      SelectTwice(p);
      if Tagged(n) {
        TagsSnoc(Tags(p), n);
        assert Untagged(s) == Untagged(p);
      } else {
        TagsSnoc(Untagged(p), n);
        assert Tags(s) == Tags(p);
      }
    }
  }

  /** Migration leaves no tagged style in the body, appends the body's tagged styles to the
      head in their order after the existing head nodes, and keeps every untagged node where
      it was. */
  lemma {:induction false} MigrateMoves(p: Page)
    ensures Tags(Migrate(p).body) == []
    ensures Migrate(p).head[..|p.head|] == p.head
    ensures Migrate(p).head[|p.head|..] == Tags(p.body)
    ensures Untagged(Migrate(p).head) == Untagged(p.head)
    ensures Migrate(p).body == Untagged(p.body)
  {
    SelectTwice(p.body);
    TagsAppend(p.head, Tags(p.body));
    assert Untagged(p.head) + [] == Untagged(p.head);
  }

  /** Migration keeps the tagged styles in document order and loses or duplicates no node. */
  lemma {:induction false} MigrateKeepsOrder(p: Page)
    ensures Tags(Nodes(Migrate(p))) == Tags(Nodes(p))
    ensures multiset(Nodes(Migrate(p))) == multiset(Nodes(p))
  {
    var m := Migrate(p);
    SelectTwice(p.body);
    TagsAppend(p.head, Tags(p.body));
    TagsAppend(m.head, m.body);
    TagsAppend(p.head, p.body);
    assert Tags(p.head) + Tags(p.body) + [] == Tags(p.head) + Tags(p.body);
    TagsSplit(p.body);
  }

  // ---------------------------------------------------------------------------
  // The whole reconciliation

  /** The deduplication pass over head then body is one pass over the document in order. */
  lemma {:induction false} DedupInDocumentOrder(p: Page)
    ensures Nodes(Dedup(p)) == KeepFirst(Nodes(p), {})
  {
    KeepFirstAppend(p.head, p.body, {});
    assert {} + Marks(p.head) == Marks(p.head);
  }

  /** The tagged styles left afterwards, in document order, are exactly the first occurrence of
      each hash among the tagged styles before, in document order. */
  lemma {:induction false} ReconcileTags(p: Page)
    ensures Tags(Nodes(Reconcile(p))) == KeepFirst(Tags(Nodes(p)), {})
  {
    DedupInDocumentOrder(Migrate(p));
    KeepFirstTags(Nodes(Migrate(p)), {});
    MigrateKeepsOrder(p);
  }

  /** No two remaining tagged styles share a hash. */
  lemma {:induction false} ReconcileUnique(p: Page)
    ensures UniqueMarks(Nodes(Reconcile(p)))
  {
    DedupInDocumentOrder(Migrate(p));
    KeepFirstUnique(Nodes(Migrate(p)), {});
  }

  /** Every hash carried before is carried afterwards (and no other). */
  lemma {:induction false} ReconcileMarks(p: Page)
    ensures Marks(Nodes(Reconcile(p))) == Marks(Nodes(p))
  {
    DedupInDocumentOrder(Migrate(p));
    KeepFirstMarks(Nodes(Migrate(p)), {});
    MigrateKeepsOrder(p);
    MarksTags(Nodes(p));
    MarksTags(Nodes(Migrate(p)));
  }

  /** Afterwards the body holds exactly its untagged nodes, untouched and in order, and the head
      holds its own untagged nodes, untouched and in order. */
  lemma {:induction false} ReconcileUntagged(p: Page)
    ensures Reconcile(p).body == Untagged(p.body)
    ensures Tags(Reconcile(p).body) == []
    ensures Untagged(Reconcile(p).head) == Untagged(p.head)
  {
    var m := Migrate(p);
    MigrateMoves(p);
    NoTags(m.body);
    KeepFirstIdentity(m.body, Marks(m.head));
    KeepFirstUntagged(m.head, {});
  }

  /** The result keeps the document order of the migrated page: nothing is reordered. */
  lemma {:induction false} ReconcileOrder(p: Page)
    ensures Subseq(Nodes(Reconcile(p)), Nodes(Migrate(p)))
  {
    DedupInDocumentOrder(Migrate(p));
    KeepFirstSubseq(Nodes(Migrate(p)), {});
  }

  /** For distinct nodes, the k-th tagged style of the document survives exactly when no
      earlier tagged style carries its hash. */
  lemma {:induction false} ReconcileFirstWins(p: Page, k: nat)
    requires Distinct(Nodes(p))
    requires k < |Tags(Nodes(p))|
    ensures var t := Tags(Nodes(p));
      t[k] in Nodes(Reconcile(p)) <==> forall j :: 0 <= j < k ==> t[j].mark != t[k].mark
  {
    var t := Tags(Nodes(p));
    DistinctTags(Nodes(p));
    TagsMembers(Nodes(p));
    assert t[k] in t;
    ReconcileTags(p);
    TagsMembers(Nodes(Reconcile(p)));
    KeepFirstRetains(t, {}, k);
    TagsMembers(t);
    assert forall j :: 0 <= j < k ==> t[j] in t;
  }

  /** Running the reconciliation again on its own result moves and removes nothing. */
  lemma {:induction false} ReconcileIdempotent(p: Page)
    ensures Reconcile(Reconcile(p)) == Reconcile(p)
  {
    var r := Reconcile(p);
    ReconcileUntagged(p);
    NoTags(r.body);
    assert Migrate(r) == r by {
      assert r.head + [] == r.head;
    }
    ReconcileUnique(p);
    assert UniqueMarks(r.head) by {
      forall i, j | 0 <= i < j < |r.head| && Tagged(r.head[i]) && Tagged(r.head[j])
        ensures Hash(r.head[i]) != Hash(r.head[j])
      {
        assert Nodes(r)[i] == r.head[i] && Nodes(r)[j] == r.head[j];
      }
    }
    KeepFirstIdentity(r.head, {});
    KeepFirstIdentity(r.body, Marks(r.head));
  }

  /** A document with nothing tagged is left as it is. */
  lemma {:induction false} ReconcileNothingTagged(p: Page)
    requires Tags(Nodes(p)) == []
    ensures Reconcile(p) == p
  {
    TagsAppend(p.head, p.body);
    assert Tags(p.head) == [] && Tags(p.body) == [];
    NoTags(p.head);
    NoTags(p.body);
    var m := Migrate(p);
    assert m.head == p.head by {
      assert p.head + [] == p.head;
    }
    assert m == p;
    KeepFirstIdentity(p.head, {});
    KeepFirstIdentity(p.body, {});
  }

  // ---------------------------------------------------------------------------
  // The seen-hash lookup as written: `styleHash[hash]` on an object literal

  /** Names that every object literal inherits from `Object.prototype`; reading any of them
      from `{}` gives a truthy value (a function, or the prototype itself for `__proto__`). */
  const InheritedKeys: set<string> := {
    "constructor", "hasOwnProperty", "isPrototypeOf", "propertyIsEnumerable",
    "toLocaleString", "toString", "valueOf", "__proto__",
    "__defineGetter__", "__defineSetter__", "__lookupGetter__", "__lookupSetter__"
  }

  /** `styleHash[hash]` is truthy: set by an earlier style, or inherited. */
  predicate LookupAsWritten(seen: set<string>, hash: string) {
    hash in seen || hash in InheritedKeys
  }

  /** The deduplication pass with the lookup as written. */
  function KeepFirstAsWritten(s: seq<Node>, seen: set<string>): seq<Node>
    decreases |s|
  {
    if s == [] then []
    else
      var p, n := s[..|s| - 1], s[|s| - 1];
      KeepFirstAsWritten(p, seen) +
        (if Tagged(n) && LookupAsWritten(seen + Marks(p), Hash(n)) then [] else [n])
  }

  /** A single style whose hash is `constructor` is removed by the pass as written, so its hash
      is lost, while the first-wins pass keeps it. */
  lemma AsWrittenLosesInheritedHash()
    ensures var s := [Node(0, true, Some("constructor"))];
      Marks(s) == {"constructor"} &&
      KeepFirstAsWritten(s, {}) == [] &&
      KeepFirst(s, {}) == s
  {
    var s := [Node(0, true, Some("constructor"))];
    assert s[..0] == [];
    assert Marks(s) == {"constructor"} by {
      assert forall m :: m in s <==> m == s[0];
    }
  }

  /** When no hash is an inherited name, the pass as written is the first-wins pass. */
  lemma {:induction false} AsWrittenAgrees(s: seq<Node>, seen: set<string>)
    requires Marks(s) !! InheritedKeys
    ensures KeepFirstAsWritten(s, seen) == KeepFirst(s, seen)
    decreases |s|
  {
    if s != [] {
      var p, n := s[..|s| - 1], s[|s| - 1];
      assert s == p + [n];
      MarksSnoc(p, n);
      AsWrittenAgrees(p, seen);
    }
  }

  lemma KeepFirstSnoc(p: seq<Node>, n: Node, seen: set<string>)
    ensures KeepFirst(p + [n], seen) ==
      KeepFirst(p, seen) + (if Tagged(n) && Hash(n) in seen + Marks(p) then [] else [n])
  {
    assert (p + [n])[..|p + [n]| - 1] == p;
  }

  /** Two styles with hash `h1` (one already in the head, one in the body) and one with `h2` in
      the body: the head keeps its own `h1`, gains `h2`, and the body's `h1` is removed. */
  lemma ReconcileTwoHashes()
    ensures var h1, b1, b2 := Node(1, true, Some("h1")), Node(2, true, Some("h1")), Node(3, true, Some("h2"));
      Reconcile(Page([h1], [b1, b2])) == Page([h1, b2], [])
  {
    var h1, b1, b2 := Node(1, true, Some("h1")), Node(2, true, Some("h1")), Node(3, true, Some("h2"));
    assert [b1, b2] == [b1] + [b2];
    TagsSingleton(b1);
    TagsSnoc([b1], b2);
    var head := [h1, b1, b2];
    assert Migrate(Page([h1], [b1, b2])) == Page(head, []);
    assert [] + [h1] == [h1] && [h1] + [b1] == [h1, b1] && [h1, b1] + [b2] == head;
    MarksSnoc([], h1);
    MarksSnoc([h1], b1);
    KeepFirstSnoc([], h1, {});
    KeepFirstSnoc([h1], b1, {});
    KeepFirstSnoc([h1, b1], b2, {});
    assert KeepFirst(head, {}) == [h1, b2];
  }
}
