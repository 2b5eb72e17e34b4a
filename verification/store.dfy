/**
 * The in-memory store's state and its lookups (crafttask/store.go, lines 5-70): the document tree,
 * the parent cache and the id counter, and the resolution of a parent id to the map of its
 * children (findMapByParent) and of a block id to the block and where it sits (findBlockById).
 */
module StoreState {
  import opened Wrappers
  import opened OrderedMap
  import opened Models
  import opened IdCounter
  import opened Paths

  /**
   * The document's top-level map, the parent cache (block id to the id of its parent, Root for a
   * top-level block), and the counter that getNewId advances.
   */
  datatype Store = Store(doc: Forest, parents: map<nat, nat>, counter: Counter)

  /** A map of the tree together with the path that reaches it (Go's `*orderedMapOfBlocks`). */
  datatype Found = Found(path: seq<nat>, forest: Forest)

  /** A block, its position in the map that holds it, and that map. */
  datatype Located = Located(block: Block, index: nat, at: Found)

  /** The cache describes the tree exactly: every block's entry names its parent, and nothing else is cached. */
  ghost predicate Consistent(doc: Forest, parents: map<nat, nat>) {
    && WF(doc)
    && Agrees(parents, doc, Root)
    && parents.Keys == Ids(doc)
  }

  /** The store invariant: a consistent cache, and no id above the counter (so new ids are fresh). */
  ghost predicate Inv(st: Store) {
    && Consistent(st.doc, st.parents)
    && IssuedBelow(st.parents, st.counter.last)
  }

  /** Every cached id is at most `last`: the counter has already handed it out. */
  ghost predicate IssuedBelow(parents: map<nat, nat>, last: nat) {
    forall y | y in parents :: y <= last
  }

  /** The next id is not cached yet, and caching it keeps every cached id issued. */
  lemma IssueNext(parents: map<nat, nat>, last: nat, p: nat)
    requires IssuedBelow(parents, last)
    ensures last + 1 !in parents
    ensures IssuedBelow(parents[last + 1 := p], last + 1)
  {
  }

  /**
   * NewInMemoryStore: an empty document and an empty cache. The counter is not the store's own:
   * Go keeps it in one variable for the whole process, so a new store goes on from whatever ids
   * earlier stores have taken, and `c` is that process-wide counter.
   */
  function NewStore(c: Counter): (st: Store)
    ensures Inv(st)
    ensures Ids(st.doc) == {} && st.parents == map[]
    ensures st.counter == c
  {
    Store(Empty(), map[], c)
  }

  /**
   * findMapByParent: the children map of block `p` (the top-level map for Root), reached by
   * descending along the path the cache gives for `p`. A missing key during the descent is the
   * source's "inconsistent internal state" panic.
   */
  function FindMapByParent(st: Store, p: nat): (r: Result<Found, Error>)
    ensures p == Root ==> r == Ok(Found([], st.doc))
    ensures p != Root && p !in st.parents ==> r == Err(BlockDoesNotExist)
    ensures r.Ok? ==> Descend(st.doc, r.value.path) == Some(r.value.forest) && Owner(r.value.path) == p
    ensures r.Ok? ==> PathToNode(st.parents, p) == Ok(r.value.path)
  {
    var path := PathToNode(st.parents, p);
    if path.Err? then Err(path.error)
    else
      match Descend(st.doc, path.value)
      case None => Err(InconsistentState)
      case Some(m) => Ok(Found(path.value, m))
  }

  /**
   * findBlockById: look up the block's cached parent, resolve that parent's map, and find the
   * block and its index there. A cached block missing from that map is the second panic.
   */
  function FindBlockById(st: Store, x: nat): (r: Result<Located, Error>)
    ensures x !in st.parents ==> r == Err(BlockDoesNotExist)
    ensures r.Ok? ==> x in st.parents && FindMapByParent(st, st.parents[x]) == Ok(r.value.at)
    ensures r.Ok? ==> x in r.value.at.forest.values && r.value.block == r.value.at.forest.values[x]
    ensures r.Ok? && Valid(r.value.at.forest) ==>
              r.value.index < |r.value.at.forest.keys| && r.value.at.forest.keys[r.value.index] == x
  {
    if x !in st.parents then Err(BlockDoesNotExist)
    else
      var f := FindMapByParent(st, st.parents[x]);
      if f.Err? then Err(f.error)
      else
        match GetAndIndex(f.value.forest, x)
        case None => Err(InconsistentState)
        case Some(hit) => Ok(Located(hit.0, hit.1, f.value))
  }

  /** findBlockById from its two steps: the parent's map, and the block's entry and index in it. */
  lemma FindBlockByIdFrom(st: Store, x: nat, f: Found, hit: (Block, nat))
    requires x in st.parents && FindMapByParent(st, st.parents[x]) == Ok(f)
    requires GetAndIndex(f.forest, x) == Some(hit)
    ensures FindBlockById(st, x) == Ok(Located(hit.0, hit.1, f))
  {
  }

  /** A new block inserted into a parent's map is found there at the clamped index. */
  lemma FindInserted(st: Store, p: nat, path: seq<nat>, m: Forest, b: Block, i: nat)
    requires FindMapByParent(st, p) == Ok(Found(path, Insert(m, b.id, i, b)))
    requires Valid(m) && b.id !in m.values && b.id in st.parents && st.parents[b.id] == p
    ensures FindBlockById(st, b.id) == Ok(Located(b, Clamp(i, |m.keys|), Found(path, Insert(m, b.id, i, b))))
  {
    InsertThenFind(m, b.id, i, b);
    FindBlockByIdFrom(st, b.id, Found(path, Insert(m, b.id, i, b)), (b, Clamp(i, |m.keys|)));
  }

  /** A block in front of the insertion point keeps its index. */
  lemma FindBeforeInserted(st: Store, p: nat, path: seq<nat>, m: Forest, b: Block, i: nat, j: nat)
    requires FindMapByParent(st, p) == Ok(Found(path, Insert(m, b.id, i, b)))
    requires Valid(m) && b.id !in m.values && j < Clamp(i, |m.keys|)
    requires m.keys[j] in st.parents && st.parents[m.keys[j]] == p
    ensures FindBlockById(st, m.keys[j]) == Ok(Located(m.values[m.keys[j]], j, Found(path, Insert(m, b.id, i, b))))
  {
    InsertKeepsBefore(m, b.id, i, b, j);
    FindBlockByIdFrom(st, m.keys[j], Found(path, Insert(m, b.id, i, b)), (m.values[m.keys[j]], j));
  }

  // ---------------------------------------------------------------------------------------------
  // Resolution never panics when the cache and the tree agree

  /**
   * What resolving block `k` needs: its cached parent has a path, the map at that path holds `k`,
   * and the path of `k` itself is `k` in front of its parent's path.
   */
  ghost predicate Resolves(doc: Forest, parents: map<nat, nat>, k: nat) {
    && k in parents && k != Root
    && PathToNode(parents, parents[k]).Ok?
    && Descend(doc, PathToNode(parents, parents[k]).value).Some?
    && k in Descend(doc, PathToNode(parents, parents[k]).value).value.values
    && PathToNode(parents, k) == Ok([k] + PathToNode(parents, parents[k]).value)
  }

  /** Every id of a path lies outside the map the path reaches. */
  lemma {:induction false} PathOutside(m: Forest, path: seq<nat>)
    requires Descend(m, path).Some?
    ensures forall y | y in path :: y in Outside(m, path)
    decreases |path|
  {
    if |path| > 0 {
      var k := path[|path| - 1];
      var q := path[..|path| - 1];
      PathOutside(m.values[k].children, q);
      assert path == q + [k];
    }
  }

  /** In a well-formed tree no block of a map reached along a path is itself on that path. */
  lemma PathAvoids(doc: Forest, a: seq<nat>, k: nat)
    requires WF(doc) && Descend(doc, a).Some? && k in Ids(Descend(doc, a).value)
    ensures k !in a
  {
    OutsideDisjoint(doc, a);
    PathOutside(doc, a);
  }

  /** A key of a map reached along its owner's path resolves, and its children's map is reached next. */
  lemma ResolvesChild(doc: Forest, parents: map<nat, nat>, a: seq<nat>, m: Forest, k: nat)
    requires WF(doc) && Agrees(parents, doc, Root)
    requires Descend(doc, a) == Some(m) && k in m.values
    requires PathToNode(parents, Owner(a)) == Ok(a)
    ensures Resolves(doc, parents, k)
    ensures PathToNode(parents, k) == Ok([k] + a)
    ensures Descend(doc, [k] + a) == Some(m.values[k].children)
  {
    DescendAgrees(parents, doc, Root, a);
    DescendWF(doc, a);
    assert k in parents && parents[k] == Owner(a) && k != Root;
    PathAvoids(doc, a, k);
    PathStep(parents, k);
    DescendCons(doc, a, k);
  }

  /** Every block below a map reached along its owner's path resolves. */
  lemma {:induction false} ResolvesBelow(doc: Forest, parents: map<nat, nat>, a: seq<nat>, m: Forest, y: nat)
    requires Consistent(doc, parents)
    requires Descend(doc, a) == Some(m)
    requires PathToNode(parents, Owner(a)) == Ok(a)
    requires y in Ids(m)
    ensures Resolves(doc, parents, y)
    decreases m
  {
    if y in m.values {
      ResolvesChild(doc, parents, a, m, y);
    } else {
      var k :| k in m.values && y in Ids(m.values[k].children);
      ResolvesChild(doc, parents, a, m, k);
      ResolvesBelow(doc, parents, [k] + a, m.values[k].children, y);
    }
  }

  /** Every block below a map reached along its owner's path has the ids of that path among its ancestors. */
  lemma {:induction false} PathThrough(doc: Forest, parents: map<nat, nat>, a: seq<nat>, m: Forest, y: nat)
    requires Consistent(doc, parents)
    requires Descend(doc, a) == Some(m)
    requires PathToNode(parents, Owner(a)) == Ok(a)
    requires y in Ids(m)
    ensures PathToNode(parents, y).Ok?
    ensures forall z | z in a :: z in PathToNode(parents, y).value
    decreases m
  {
    if y in m.values {
      ResolvesChild(doc, parents, a, m, y);
    } else {
      var k :| k in m.values && y in Ids(m.values[k].children);
      ResolvesChild(doc, parents, a, m, k);
      PathThrough(doc, parents, [k] + a, m.values[k].children, y);
    }
  }

  /** The walk up from any block of a cached block's subtree passes through that block. */
  lemma SubtreePath(st: Store, x: nat, y: nat)
    requires Consistent(st.doc, st.parents) && x in st.parents && FindBlockById(st, x).Ok?
    requires y == x || y in Ids(FindBlockById(st, x).value.block.children)
    ensures PathToNode(st.parents, y).Ok? && x in PathToNode(st.parents, y).value
  {
    FindBlockByIdSpec(st, x);
    var l := FindBlockById(st, x).value;
    if y != x {
      DescendCons(st.doc, l.at.path, x);
      PathThrough(st.doc, st.parents, [x] + l.at.path, l.block.children, y);
    }
  }

  /** In a consistent store every cached block resolves. */
  lemma ResolvesAll(doc: Forest, parents: map<nat, nat>, k: nat)
    requires Consistent(doc, parents) && k in parents
    ensures Resolves(doc, parents, k)
  {
    ResolvesBelow(doc, parents, [], doc, k);
  }

  /**
   * findBlockById fails exactly for ids without a cache entry, and then with errBlockDoesNotExist;
   * on success the index is the block's position in the returned map.
   */
  lemma FindBlockByIdSpec(st: Store, x: nat)
    requires Consistent(st.doc, st.parents)
    ensures FindBlockById(st, x).Ok? <==> x in st.parents
    ensures FindBlockById(st, x).Err? ==> FindBlockById(st, x).error == BlockDoesNotExist
    ensures FindBlockById(st, x).Ok? ==>
              var l := FindBlockById(st, x).value;
              && l.block.id == x
              && l.index < |l.at.forest.keys| && l.at.forest.keys[l.index] == x
              && PathToNode(st.parents, x) == Ok([x] + l.at.path)
  {
    if x in st.parents {
      ResolvesAll(st.doc, st.parents, x);
      var a := PathToNode(st.parents, st.parents[x]).value;
      DescendWF(st.doc, a);
      FindResolved(st, x);
    }
  }

  /** A block that resolves into a well-formed map is found there, under its own id. */
  lemma FindResolved(st: Store, x: nat)
    requires Resolves(st.doc, st.parents, x)
    requires WF(Descend(st.doc, PathToNode(st.parents, st.parents[x]).value).value)
    ensures FindBlockById(st, x).Ok?
    ensures var l := FindBlockById(st, x).value;
            && l.block.id == x
            && l.index < |l.at.forest.keys| && l.at.forest.keys[l.index] == x
            && PathToNode(st.parents, x) == Ok([x] + l.at.path)
  {
  }

  /** In a consistent store findBlockById finds every cached block that the tree search finds. */
  lemma FindIsLookup(st: Store, y: nat)
    requires Consistent(st.doc, st.parents) && y in st.parents
    ensures FindBlockById(st, y).Ok? && Lookup(st.doc, y) == Some(FindBlockById(st, y).value.block)
  {
    FindBlockByIdSpec(st, y);
    var l := FindBlockById(st, y).value;
    DescendWF(st.doc, l.at.path);
    LookupTop(l.at.forest, y);
    LookupDescend(st.doc, l.at.path, y);
  }

  /**
   * findMapByParent succeeds exactly for Root and cached ids; Root gives the top-level map and a
   * block gives the children map of the block that findBlockById finds.
   */
  lemma FindMapByParentSpec(st: Store, p: nat)
    requires Consistent(st.doc, st.parents)
    ensures FindMapByParent(st, p).Ok? <==> p == Root || p in st.parents
    ensures FindMapByParent(st, p).Err? ==> FindMapByParent(st, p).error == BlockDoesNotExist
    ensures p != Root && p in st.parents ==>
              FindBlockById(st, p).Ok? &&
              FindMapByParent(st, p).value.forest == FindBlockById(st, p).value.block.children
  {
    if p != Root && p in st.parents {
      ResolvesAll(st.doc, st.parents, p);
      DescendCons(st.doc, PathToNode(st.parents, st.parents[p]).value, p);
    }
  }

  /** The map of a resolved parent is well formed, is described with that parent, and lies in the tree. */
  lemma FoundFacts(st: Store, p: nat)
    requires Consistent(st.doc, st.parents) && FindMapByParent(st, p).Ok?
    ensures var f := FindMapByParent(st, p).value;
            && WF(f.forest)
            && Agrees(st.parents, f.forest, p)
            && Ids(st.doc) == Outside(st.doc, f.path) + Ids(f.forest)
            && Outside(st.doc, f.path) !! Ids(f.forest)
  {
    var f := FindMapByParent(st, p).value;
    DescendWF(st.doc, f.path);
    DescendAgrees(st.parents, st.doc, Root, f.path);
    DescendIds(st.doc, f.path);
    OutsideDisjoint(st.doc, f.path);
  }

  /** Resolution reads only the cache entries along the path, so it survives changes elsewhere. */
  lemma FindMapFrame(st: Store, st': Store, p: nat)
    requires FindMapByParent(st, p).Ok? && st'.doc == st.doc
    requires st.parents.Keys <= st'.parents.Keys
    requires forall y | y in st.parents :: st'.parents[y] == st.parents[y]
    ensures FindMapByParent(st', p) == FindMapByParent(st, p)
  {
    if p != Root {
      WalkFrame(st.parents, st'.parents, p, {});
    }
  }

  // ---------------------------------------------------------------------------------------------
  // Detaching and attaching subtrees keeps the cache and the tree in agreement

  /** Removing a block from the map at a path keeps the tree well formed and drops exactly its subtree. */
  lemma DetachWF(doc: Forest, path: seq<nat>, m: Forest, x: nat)
    requires WF(doc) && Descend(doc, path) == Some(m) && x in m.values
    ensures WF(ReplaceAt(doc, path, Delete(m, x)))
    ensures Ids(ReplaceAt(doc, path, Delete(m, x))) == Ids(doc) - Sub(m, x)
  {
    var n := Delete(m, x);
    var out := Outside(doc, path);
    DescendWF(doc, path);
    DescendIds(doc, path);
    OutsideDisjoint(doc, path);
    WFDelete(m, x);
    IdsSplit(m, x);
    assert Ids(n) !! out;
    ReplaceWF(doc, path, n);
    ReplaceIds(doc, path, n);
    SplitMinus(out, Ids(m), Sub(m, x));
  }

  /** Taking a part of the second of two disjoint sets out of their union. */
  lemma SplitMinus(a: set<nat>, b: set<nat>, c: set<nat>)
    requires a !! b && c <= b
    ensures (a + b) - c == a + (b - c)
  {
  }

  /** Removing a block and its subtree's cache entries leaves a cache that describes the rest. */
  lemma DetachAgrees(doc: Forest, parents: map<nat, nat>, path: seq<nat>, m: Forest, x: nat)
    requires WF(doc) && Agrees(parents, doc, Root) && Descend(doc, path) == Some(m) && x in m.values
    ensures Agrees(parents - Sub(m, x), ReplaceAt(doc, path, Delete(m, x)), Root)
  {
    DescendWF(doc, path);
    OutsideDisjoint(doc, path);
    IdsSplit(m, x);
    assert Outside(doc, path) !! Sub(m, x);
    DescendAgrees(parents, doc, Root, path);
    AgreesDelete(parents, m, Owner(path), x);
    ReplaceAgrees(parents, parents - Sub(m, x), doc, Root, path, Delete(m, x));
  }

  /**
   * Removing block `x` from the map at `path` and dropping the cache entries of its subtree
   * (delete's Delete plus recursiveDeleteParentLinks) keeps the store consistent.
   */
  lemma DetachPreserves(doc: Forest, parents: map<nat, nat>, path: seq<nat>, m: Forest, x: nat)
    requires Consistent(doc, parents) && Descend(doc, path) == Some(m) && x in m.values
    ensures Consistent(ReplaceAt(doc, path, Delete(m, x)), parents - Sub(m, x))
    ensures Ids(ReplaceAt(doc, path, Delete(m, x))) == Ids(doc) - Sub(m, x)
  {
    DetachWF(doc, path, m, x);
    DetachAgrees(doc, parents, path, m, x);
  }

  /** Adding a subtree new to the tree into the map at a path keeps the tree well formed. */
  lemma AttachWF(doc: Forest, path: seq<nat>, m: Forest, b: Block, index: nat)
    requires WF(doc) && Descend(doc, path) == Some(m)
    requires WF(b.children) && b.id != Root && b.id !in Ids(b.children)
    requires ({b.id} + Ids(b.children)) !! Ids(doc)
    ensures WF(ReplaceAt(doc, path, Insert(m, b.id, index, b)))
    ensures Ids(ReplaceAt(doc, path, Insert(m, b.id, index, b))) == Ids(doc) + {b.id} + Ids(b.children)
  {
    var n := Insert(m, b.id, index, b);
    AttachIds(doc, path, m, b, index);
    assert Ids(n) !! Outside(doc, path);
    ReplaceWF(doc, path, n);
  }

  /** The ids of the map at a path after adding a subtree, and of the whole tree. */
  lemma AttachIds(doc: Forest, path: seq<nat>, m: Forest, b: Block, index: nat)
    requires WF(doc) && Descend(doc, path) == Some(m)
    requires WF(b.children) && b.id != Root && b.id !in Ids(b.children)
    requires ({b.id} + Ids(b.children)) !! Ids(doc)
    ensures WF(Insert(m, b.id, index, b))
    ensures Ids(Insert(m, b.id, index, b)) == Ids(m) + {b.id} + Ids(b.children)
    ensures Ids(Insert(m, b.id, index, b)) !! Outside(doc, path)
    ensures Ids(ReplaceAt(doc, path, Insert(m, b.id, index, b))) == Ids(doc) + {b.id} + Ids(b.children)
  {
    var n := Insert(m, b.id, index, b);
    DescendWF(doc, path);
    DescendIds(doc, path);
    OutsideDisjoint(doc, path);
    AttachDisjoint(Ids(doc), Outside(doc, path), Ids(m), b.id, Ids(b.children));
    WFInsert(m, b, index);
    ReplaceIds(doc, path, n);
  }

  /** A cache that keeps the old entries and describes the added subtree describes the new tree. */
  lemma AttachAgrees(
    doc: Forest, parents: map<nat, nat>, parents': map<nat, nat>, path: seq<nat>, m: Forest, b: Block, index: nat)
    requires Agrees(parents, doc, Root) && Descend(doc, path) == Some(m)
    requires parents.Keys <= parents'.Keys && forall y | y in parents :: parents'[y] == parents[y]
    requires b.id in parents' && parents'[b.id] == Owner(path) && Agrees(parents', b.children, b.id)
    ensures Agrees(parents', ReplaceAt(doc, path, Insert(m, b.id, index, b)), Root)
  {
    DescendAgrees(parents, doc, Root, path);
    AgreesFrame(parents, parents', m, Owner(path));
    AgreesInsert(parents', m, Owner(path), b, index);
    ReplaceAgrees(parents, parents', doc, Root, path, Insert(m, b.id, index, b));
  }

  /**
   * Adding block `b` with a subtree new to the tree into the map at `path`, with a cache that
   * keeps every old entry and describes the new subtree under the path's owner, keeps the store
   * consistent. Insert, duplicate and move all end this way.
   */
  lemma AttachPreserves(
    doc: Forest, parents: map<nat, nat>, parents': map<nat, nat>, path: seq<nat>, m: Forest, b: Block, index: nat)
    requires Consistent(doc, parents) && Descend(doc, path) == Some(m)
    requires WF(b.children) && b.id != Root && b.id !in Ids(b.children)
    requires ({b.id} + Ids(b.children)) !! Ids(doc)
    requires parents'.Keys == parents.Keys + {b.id} + Ids(b.children)
    requires forall y | y in parents :: parents'[y] == parents[y]
    requires parents'[b.id] == Owner(path) && Agrees(parents', b.children, b.id)
    ensures Consistent(ReplaceAt(doc, path, Insert(m, b.id, index, b)), parents')
    ensures Ids(ReplaceAt(doc, path, Insert(m, b.id, index, b))) == Ids(doc) + {b.id} + Ids(b.children)
  {
    AttachWF(doc, path, m, b, index);
    AttachAgrees(doc, parents, parents', path, m, b, index);
  }

  /**
   * After the map at a parent's path is replaced, resolving that parent finds the new map, as long
   * as the cache entries along the path are kept.
   */
  lemma FindAfterReplace(st: Store, st': Store, p: nat, n: Forest)
    requires FindMapByParent(st, p).Ok?
    requires st'.doc == ReplaceAt(st.doc, FindMapByParent(st, p).value.path, n)
    requires forall y | y in FindMapByParent(st, p).value.path :: y in st'.parents && st'.parents[y] == st.parents[y]
    ensures FindMapByParent(st', p) == Ok(Found(FindMapByParent(st, p).value.path, n))
  {
    if p != Root {
      WalkFrame(st.parents, st'.parents, p, {});
    }
    DescendReplace(st.doc, FindMapByParent(st, p).value.path, n);
  }

  /** The same, for a cache that only gains entries. */
  lemma FindAfterGrow(st: Store, st': Store, p: nat, n: Forest)
    requires FindMapByParent(st, p).Ok?
    requires st'.doc == ReplaceAt(st.doc, FindMapByParent(st, p).value.path, n)
    requires st.parents.Keys <= st'.parents.Keys && forall y | y in st.parents :: st'.parents[y] == st.parents[y]
    ensures FindMapByParent(st', p) == Ok(Found(FindMapByParent(st, p).value.path, n))
  {
    if p != Root {
      WalkFrame(st.parents, st'.parents, p, {});
    }
    DescendReplace(st.doc, FindMapByParent(st, p).value.path, n);
  }

  /** Attaching a new block without children: the case of insert. */
  lemma AttachLeaf(doc: Forest, parents: map<nat, nat>, path: seq<nat>, m: Forest, b: Block, index: nat)
    requires Consistent(doc, parents) && Descend(doc, path) == Some(m)
    requires b.children == Empty() && b.id != Root && b.id !in parents
    ensures Consistent(ReplaceAt(doc, path, Insert(m, b.id, index, b)), parents[b.id := Owner(path)])
    ensures Ids(ReplaceAt(doc, path, Insert(m, b.id, index, b))) == Ids(doc) + {b.id}
  {
    var parents' := parents[b.id := Owner(path)];
    assert Ids(b.children) == {};
    UnionEmpty({b.id}, Ids(b.children));
    UnionEmpty(parents.Keys + {b.id}, Ids(b.children));
    UnionEmpty(Ids(doc) + {b.id}, Ids(b.children));
    assert parents'.Keys == parents.Keys + {b.id};
    AttachPreserves(doc, parents, parents', path, m, b, index);
  }
}
