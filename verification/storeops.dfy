/**
 * The store's operations (crafttask/store.go, lines 72-161): insert, delete, fetch, duplicate and
 * move, each a function from a store to a new store, with the errors of crafttask/errors.go.
 */
module StoreOps {
  import opened Wrappers
  import opened OrderedMap
  import opened Models
  import opened IdCounter
  import opened Paths
  import opened StoreState
  import opened Cloning

  /** One insertOperation (crafttask/viewmodels.go): the parent, the new block's content, its position. */
  datatype InsertOp = InsertOp(parent: nat, content: string, index: nat)

  /** The store after a batch and the error that stopped the batch, if one did. */
  datatype Outcome = Outcome(store: Store, error: Option<Error>)

  // ---------------------------------------------------------------------------------------------
  // insert

  /** One insert operation: resolve the parent's map, take a fresh id, link it, place an empty block. */
  function InsertOne(st: Store, op: InsertOp): (r: Result<Store, Error>)
    ensures r.Ok? <==> FindMapByParent(st, op.parent).Ok?
    ensures r.Ok? ==> r.value.counter == Next(st.counter).counter
    ensures r.Ok? ==> r.value.parents == st.parents[Next(st.counter).id := op.parent]
  {
    var target := FindMapByParent(st, op.parent);
    if target.Err? then Err(target.error)
    else
      var n := Next(st.counter);
      var b := Block(n.id, op.content, Empty());
      Ok(Store(ReplaceAt(st.doc, target.value.path, Insert(target.value.forest, n.id, op.index, b)),
               st.parents[n.id := op.parent], n.counter))
  }

  /** insert: apply the operations in order; the first failure stops the batch, earlier ones stay. */
  function InsertBlocks(st: Store, ops: seq<InsertOp>): (r: Outcome)
    ensures st.counter.last <= r.store.counter.last <= st.counter.last + |ops|
    ensures r.error.None? <==> r.store.counter.last == st.counter.last + |ops|
    ensures st.parents.Keys <= r.store.parents.Keys
    decreases |ops|
  {
    if |ops| == 0 then Outcome(st, None)
    else
      match InsertOne(st, ops[0])
      case Err(e) => Outcome(st, Some(e))
      case Ok(next) => InsertBlocks(next, ops[1..])
  }

  /**
   * An insert fails exactly when the parent is neither Root nor a cached block, with
   * errBlockDoesNotExist; otherwise the store stays consistent, the new id is the next one and is
   * linked to the parent, and the tree gains exactly that id.
   */
  lemma InsertOneInv(st: Store, op: InsertOp)
    requires Inv(st)
    ensures InsertOne(st, op).Ok? <==> op.parent == Root || op.parent in st.parents
    ensures InsertOne(st, op).Err? ==> InsertOne(st, op).error == BlockDoesNotExist
    ensures InsertOne(st, op).Ok? ==>
              var id := st.counter.last + 1;
              var st' := InsertOne(st, op).value;
              && Inv(st')
              && id !in st.parents
              && st'.counter.last == id
              && st'.parents == st.parents[id := op.parent]
              && Ids(st'.doc) == Ids(st.doc) + {id}
  {
    FindMapByParentSpec(st, op.parent);
    if op.parent == Root || op.parent in st.parents {
      InsertOneOk(st, op);
    }
  }

  lemma InsertOneOk(st: Store, op: InsertOp)
    requires Inv(st) && FindMapByParent(st, op.parent).Ok?
    ensures var id := st.counter.last + 1;
            var st' := InsertOne(st, op).value;
            && Inv(st')
            && id !in st.parents
            && Ids(st'.doc) == Ids(st.doc) + {id}
  {
    var f := FindMapByParent(st, op.parent).value;
    var n := Next(st.counter);
    var b := Block(n.id, op.content, Empty());
    InsertOneFound(st, op);
    IssueNext(st.parents, st.counter.last, op.parent);
    AttachLeaf(st.doc, st.parents, f.path, f.forest, b, op.index);
  }

  /**
   * After a successful insert, findBlockById finds the new block, with the given content and no
   * children, at the requested index (clamped) of the parent's map, the rest of which is unchanged.
   */
  lemma InsertOneFind(st: Store, op: InsertOp)
    requires Inv(st) && InsertOne(st, op).Ok?
    ensures var id := st.counter.last + 1;
            var before := FindMapByParent(st, op.parent).value.forest;
            var l := FindBlockById(InsertOne(st, op).value, id);
            && l.Ok?
            && l.value.block == Block(id, op.content, Empty())
            && l.value.at.forest == Insert(before, id, op.index, l.value.block)
            && l.value.at.forest.keys == InsertAt(before.keys, op.index, id)
            && l.value.index == Clamp(op.index, |before.keys|)
  {
    var f := FindMapByParent(st, op.parent).value;
    var id := st.counter.last + 1;
    IssueNext(st.parents, st.counter.last, op.parent);
    FoundFacts(st, op.parent);
    assert id !in f.forest.values;
    InsertOneLocates(st, op);
  }

  /** The core of InsertOneFind, from the facts the invariant supplies. */
  lemma InsertOneLocates(st: Store, op: InsertOp)
    requires FindMapByParent(st, op.parent).Ok?
    requires st.counter.last + 1 !in st.parents
    requires Valid(FindMapByParent(st, op.parent).value.forest)
    requires st.counter.last + 1 !in FindMapByParent(st, op.parent).value.forest.values
    ensures InsertOne(st, op).Ok?
    ensures var id := st.counter.last + 1;
            var before := FindMapByParent(st, op.parent).value.forest;
            var b := Block(id, op.content, Empty());
            FindBlockById(InsertOne(st, op).value, id)
              == Ok(Located(b, Clamp(op.index, |before.keys|),
                            Found(FindMapByParent(st, op.parent).value.path, Insert(before, id, op.index, b))))
  {
    var f := FindMapByParent(st, op.parent).value;
    var id := st.counter.last + 1;
    var b := Block(id, op.content, Empty());
    var n := Insert(f.forest, id, op.index, b);
    var st' := Store(ReplaceAt(st.doc, f.path, n), st.parents[id := op.parent], Counter(id));
    InsertOneFound(st, op);
    FindAfterGrow(st, st', op.parent, n);
    FindInserted(st', op.parent, f.path, f.forest, b, op.index);
  }

  /** A successful insert places the new empty block in the parent's map and links it. */
  lemma InsertOneFound(st: Store, op: InsertOp)
    requires FindMapByParent(st, op.parent).Ok?
    ensures var f := FindMapByParent(st, op.parent).value;
            var id := st.counter.last + 1;
            InsertOne(st, op)
              == Ok(Store(ReplaceAt(st.doc, f.path, Insert(f.forest, id, op.index, Block(id, op.content, Empty()))),
                          st.parents[id := op.parent], Counter(id)))
  {
  }

  /** Every batch of inserts keeps the store consistent, whether or not it stops early. */
  lemma {:induction false} InsertBlocksInv(st: Store, ops: seq<InsertOp>)
    requires Inv(st)
    ensures Inv(InsertBlocks(st, ops).store)
    ensures InsertBlocks(st, ops).error.Some? ==> InsertBlocks(st, ops).error == Some(BlockDoesNotExist)
    decreases |ops|
  {
    if |ops| > 0 {
      InsertOneInv(st, ops[0]);
      if InsertOne(st, ops[0]).Ok? {
        InsertBlocksInv(InsertOne(st, ops[0]).value, ops[1..]);
      }
    }
  }

  /**
   * A batch is its prefix followed by its suffix: the suffix runs on the prefix's store, unless the
   * prefix stopped, in which case the batch stops at the same point with the same store.
   */
  lemma {:induction false} InsertBlocksSplit(st: Store, a: seq<InsertOp>, b: seq<InsertOp>)
    ensures InsertBlocks(st, a + b) ==
            (var first := InsertBlocks(st, a);
             if first.error.Some? then first else InsertBlocks(first.store, b))
    decreases |a|
  {
    if |a| == 0 {
      assert a + b == b;
    } else {
      assert (a + b)[0] == a[0] && (a + b)[1..] == a[1..] + b;
      if InsertOne(st, a[0]).Ok? {
        InsertBlocksSplit(InsertOne(st, a[0]).value, a[1..], b);
      }
    }
  }

  // ---------------------------------------------------------------------------------------------
  // delete

  /**
   * Delete one block: a block that cannot be found is skipped; otherwise it leaves its map, and it
   * and all its descendants lose their cache entries (recursiveDeleteParentLinks, taken set-wise).
   */
  function DeleteOne(st: Store, x: nat): (r: Store)
    ensures x !in st.parents ==> r == st
    ensures r.counter == st.counter
    ensures r.parents.Keys <= st.parents.Keys
  {
    match FindBlockById(st, x)
    case Err(_) => st
    case Ok(l) =>
      Store(ReplaceAt(st.doc, l.at.path, Delete(l.at.forest, x)),
            st.parents - ({x} + Ids(l.block.children)), st.counter)
  }

  /** delete: the ids one after the other. */
  function DeleteBlocks(st: Store, xs: seq<nat>): (r: Store)
    ensures r.counter == st.counter
    ensures r.parents.Keys <= st.parents.Keys
    ensures (forall i | 0 <= i < |xs| :: xs[i] !in st.parents) ==> r == st
    decreases |xs|
  {
    if |xs| == 0 then st else DeleteBlocks(DeleteOne(st, xs[0]), xs[1..])
  }

  /**
   * Deleting keeps the store consistent; a cached block disappears from its parent's map, and
   * exactly it and its descendants leave both the tree and the cache.
   */
  lemma DeleteOneSpec(st: Store, x: nat)
    requires Inv(st)
    ensures Inv(DeleteOne(st, x))
    ensures FindBlockById(st, x).Ok? <==> x in st.parents
    ensures FindBlockById(st, x).Ok? ==>
              var l := FindBlockById(st, x).value;
              var r := DeleteOne(st, x);
              && r.parents == st.parents - ({x} + Ids(l.block.children))
              && Ids(r.doc) == Ids(st.doc) - ({x} + Ids(l.block.children))
              && FindMapByParent(r, st.parents[x]) == Ok(Found(l.at.path, Delete(l.at.forest, x)))
              && FindBlockById(r, x) == Err(BlockDoesNotExist)
  {
    FindBlockByIdSpec(st, x);
    if x in st.parents {
      var l := FindBlockById(st, x).value;
      var r := DeleteOne(st, x);
      DeleteOneDetaches(st, x);
      FoundFacts(st, st.parents[x]);
      PathOutside(st.doc, l.at.path);
      IdsSplit(l.at.forest, x);
      FindAfterReplace(st, r, st.parents[x], Delete(l.at.forest, x));
    }
  }

  /** Deleting a cached block takes exactly its subtree out of both the tree and the cache. */
  lemma DeleteOneDetaches(st: Store, x: nat)
    requires Consistent(st.doc, st.parents) && x in st.parents
    ensures FindBlockById(st, x).Ok?
    ensures var c := Ids(FindBlockById(st, x).value.block.children);
            var r := DeleteOne(st, x);
            && Consistent(r.doc, r.parents)
            && r.parents == st.parents - ({x} + c)
            && Ids(r.doc) == Ids(st.doc) - ({x} + c)
  {
    FindBlockByIdSpec(st, x);
    var l := FindBlockById(st, x).value;
    DeleteOneFound(st, x);
    assert Sub(l.at.forest, x) == {x} + Ids(l.block.children);
    DetachPreserves(st.doc, st.parents, l.at.path, l.at.forest, x);
  }

  /** A block that is found leaves the map it was found in, with its subtree's cache entries. */
  lemma DeleteOneFound(st: Store, x: nat)
    requires FindBlockById(st, x).Ok?
    ensures var l := FindBlockById(st, x).value;
            && x in l.at.forest.values
            && DeleteOne(st, x)
               == Store(ReplaceAt(st.doc, l.at.path, Delete(l.at.forest, x)), st.parents - Sub(l.at.forest, x), st.counter)
  {
  }

  /** Ids that are not cached are skipped, so a batch of them changes nothing. */
  lemma {:induction false} DeleteBlocksAbsent(st: Store, xs: seq<nat>)
    requires forall x | x in xs :: x !in st.parents
    ensures DeleteBlocks(st, xs) == st
    decreases |xs|
  {
    if |xs| > 0 {
      DeleteBlocksAbsent(st, xs[1..]);
    }
  }

  /** After a batch of deletes the store is consistent, nothing was added, and no listed id is cached. */
  lemma {:induction false} DeleteBlocksSpec(st: Store, xs: seq<nat>)
    requires Inv(st)
    ensures Inv(DeleteBlocks(st, xs))
    ensures DeleteBlocks(st, xs).counter == st.counter
    ensures DeleteBlocks(st, xs).parents.Keys <= st.parents.Keys
    ensures forall x | x in xs :: x !in DeleteBlocks(st, xs).parents
    decreases |xs|
  {
    if |xs| > 0 {
      DeleteOneSpec(st, xs[0]);
      DeleteBlocksSpec(DeleteOne(st, xs[0]), xs[1..]);
    }
  }

  /** Deleting the same ids a second time gives the state the first time gave. */
  lemma DeleteBlocksIdempotent(st: Store, xs: seq<nat>)
    requires Inv(st)
    ensures DeleteBlocks(DeleteBlocks(st, xs), xs) == DeleteBlocks(st, xs)
  {
    DeleteBlocksSpec(st, xs);
    DeleteBlocksAbsent(DeleteBlocks(st, xs), xs);
  }

  // ---------------------------------------------------------------------------------------------
  // fetch

  /** fetch: the blocks findBlockById finds, in request order; ids it cannot find are skipped. */
  function Fetch(st: Store, ids: seq<nat>): (r: seq<Block>)
    ensures |r| <= |ids|
    decreases |ids|
  {
    if |ids| == 0 then []
    else
      var here := match FindBlockById(st, ids[0]) case Err(_) => [] case Ok(l) => [l.block];
      here + Fetch(st, ids[1..])
  }

  /** The requested ids that have a cache entry, in request order. */
  function Present(parents: map<nat, nat>, ids: seq<nat>): (r: seq<nat>)
    decreases |ids|
  {
    if |ids| == 0 then []
    else if ids[0] in parents then [ids[0]] + Present(parents, ids[1..])
    else Present(parents, ids[1..])
  }

  /** Block `b` is stored in the tree: some map reached along a path holds it under its own id. */
  ghost predicate Stored(doc: Forest, b: Block) {
    exists path :: Descend(doc, path).Some? && b.id in Descend(doc, path).value.values
                   && Descend(doc, path).value.values[b.id] == b
  }

  /** `bs` lists, one for one, the blocks stored in the tree under the ids `xs`. */
  ghost predicate StoredAs(doc: Forest, bs: seq<Block>, xs: seq<nat>) {
    && |bs| == |xs|
    && forall i | 0 <= i < |bs| :: bs[i].id == xs[i] && Stored(doc, bs[i])
  }

  /**
   * fetch returns one block per cached id, in request order, each the block stored in the tree
   * under that id; ids without a cache entry contribute nothing.
   */
  lemma {:induction false} FetchSpec(st: Store, ids: seq<nat>)
    requires Consistent(st.doc, st.parents)
    ensures StoredAs(st.doc, Fetch(st, ids), Present(st.parents, ids))
    decreases |ids|
  {
    if |ids| > 0 {
      FetchSpec(st, ids[1..]);
      FindBlockByIdSpec(st, ids[0]);
      if ids[0] in st.parents {
        var l := FindBlockById(st, ids[0]).value;
        assert Descend(st.doc, l.at.path) == Some(l.at.forest);
        assert Stored(st.doc, l.block);
        StoredCons(st.doc, l.block, Fetch(st, ids[1..]), ids[0], Present(st.parents, ids[1..]));
      }
    }
  }

  lemma StoredCons(doc: Forest, b: Block, bs: seq<Block>, x: nat, xs: seq<nat>)
    requires StoredAs(doc, bs, xs) && b.id == x && Stored(doc, b)
    ensures StoredAs(doc, [b] + bs, [x] + xs)
  {
    forall i | 0 <= i < |bs| + 1 ensures ([b] + bs)[i].id == ([x] + xs)[i] && Stored(doc, ([b] + bs)[i]) {
      if i > 0 {
        assert ([b] + bs)[i] == bs[i - 1];
      }
    }
  }

  /** Fetching two lists of ids is fetching each: no id's result depends on another. */
  lemma {:induction false} FetchAppend(st: Store, a: seq<nat>, b: seq<nat>)
    ensures Fetch(st, a + b) == Fetch(st, a) + Fetch(st, b)
    decreases |a|
  {
    if |a| > 0 {
      assert (a + b)[1..] == a[1..] + b;
      FetchAppend(st, a[1..], b);
    } else {
      assert a + b == b;
    }
  }

  /** When every requested id is cached, fetch returns exactly one block per id. */
  lemma {:induction false} PresentAll(parents: map<nat, nat>, ids: seq<nat>)
    requires forall i | 0 <= i < |ids| :: ids[i] in parents
    ensures Present(parents, ids) == ids
    decreases |ids|
  {
    if |ids| > 0 {
      PresentAll(parents, ids[1..]);
    }
  }

  // ---------------------------------------------------------------------------------------------
  // duplicate

  /** The store after a duplicate and the copy placed in it. */
  datatype Duplicated = Duplicated(store: Store, copy: Block)

  /**
   * duplicate, as intended: a deep copy of the block with fresh ids (recursiveSetNewIds), linked
   * to the original's parent and placed right after the original in the same map.
   */
  function Duplicate(st: Store, x: nat): (r: Result<Duplicated, Error>)
    ensures r.Ok? <==> FindBlockById(st, x).Ok?
    ensures r.Err? ==> r.error == FindBlockById(st, x).error
    ensures r.Ok? ==> r.value.copy.id == st.counter.last + 1
  {
    match FindBlockById(st, x)
    case Err(e) => Err(e)
    case Ok(l) =>
      var c := CloneBlock(l.block, st.parents[x], st.counter);
      var n := Insert(l.at.forest, c.block.id, l.index + 1, c.block);
      Ok(Duplicated(Store(ReplaceAt(st.doc, l.at.path, n), st.parents + c.links, c.counter), c.block))
  }

  /** Cache entries for ids above every cached one add to the cache without overwriting it. */
  lemma MergeFresh(parents: map<nat, nat>, links: map<nat, nat>, lo: nat, hi: nat)
    requires IssuedBelow(parents, lo) && Within(links.Keys, lo, hi) && lo <= hi
    ensures parents.Keys !! links.Keys
    ensures IssuedBelow(parents + links, hi)
    ensures forall y | y in parents :: (parents + links)[y] == parents[y]
  {
  }

  /** The keys of a cache with some entries dropped. */
  lemma MinusKeys(parents: map<nat, nat>, s: set<nat>)
    ensures (parents - s).Keys == parents.Keys - s
  {
  }

  /** Pointing an existing entry elsewhere keeps the keys. */
  lemma UpdateKeys(parents: map<nat, nat>, x: nat, q: nat)
    requires x in parents
    ensures parents[x := q].Keys == parents.Keys
  {
  }

  /** The keys of a merged cache. */
  lemma MergeKeys(a: map<nat, nat>, b: map<nat, nat>, id: nat, s: set<nat>)
    requires b.Keys == {id} + s
    ensures (a + b).Keys == a.Keys + {id} + s
  {
  }

  /**
   * duplicate fails exactly for ids without a cache entry, with errBlockDoesNotExist. Otherwise
   * the store stays consistent, the copy has the shape of the original, takes the next id, is
   * linked to the original's parent, brings in only fresh ids, and no old cache entry changes.
   */
  lemma DuplicateInv(st: Store, x: nat)
    requires Inv(st)
    ensures Duplicate(st, x).Ok? <==> x in st.parents
    ensures Duplicate(st, x).Err? ==> Duplicate(st, x).error == BlockDoesNotExist
    ensures Duplicate(st, x).Ok? ==>
              var d := Duplicate(st, x).value;
              && Inv(d.store)
              && ShapeOf(d.copy) == ShapeOf(FindBlockById(st, x).value.block)
              && d.copy.id !in st.parents
              && d.store.parents[d.copy.id] == st.parents[x]
              && (forall y | y in st.parents :: y in d.store.parents && d.store.parents[y] == st.parents[y])
              && Ids(d.store.doc) == Ids(st.doc) + {d.copy.id} + Ids(d.copy.children)
  {
    FindBlockByIdSpec(st, x);
    if x in st.parents {
      DuplicateOk(st, x);
    }
  }

  lemma DuplicateOk(st: Store, x: nat)
    requires Inv(st) && x in st.parents && FindBlockById(st, x).Ok?
    ensures var d := Duplicate(st, x).value;
            && Inv(d.store)
            && ShapeOf(d.copy) == ShapeOf(FindBlockById(st, x).value.block)
            && d.copy.id !in st.parents
            && d.store.parents[d.copy.id] == st.parents[x]
            && (forall y | y in st.parents :: y in d.store.parents && d.store.parents[y] == st.parents[y])
            && Ids(d.store.doc) == Ids(st.doc) + {d.copy.id} + Ids(d.copy.children)
  {
    var l := FindBlockById(st, x).value;
    var c := CloneBlock(l.block, st.parents[x], st.counter);
    var parents' := st.parents + c.links;
    CloneBlockFresh(l.block, st.parents[x], st.counter);
    CloneBlockShape(l.block, st.parents[x], st.counter);
    MergeFresh(st.parents, c.links, st.counter.last, c.counter.last);
    MergeKeys(st.parents, c.links, c.block.id, Ids(c.block.children));
    AgreesFrame(c.links, parents', c.block.children, c.block.id);
    AttachPreserves(st.doc, st.parents, parents', l.at.path, l.at.forest, c.block, l.index + 1);
  }

  /**
   * After a duplicate the copy sits right after the original in the original's map, and both are
   * linked to the original's parent: with PlacedBeside, findBlockById finds the copy at the index
   * after the original's, and the original unchanged at its old index.
   */
  lemma DuplicatePlaced(st: Store, x: nat)
    requires Inv(st) && Duplicate(st, x).Ok?
    ensures FindBlockById(st, x).Ok?
    ensures var l := FindBlockById(st, x).value;
            var d := Duplicate(st, x).value;
            && FindMapByParent(d.store, st.parents[x]) == Ok(Found(l.at.path, Insert(l.at.forest, d.copy.id, l.index + 1, d.copy)))
            && Valid(l.at.forest) && d.copy.id !in l.at.forest.values
            && l.index < |l.at.forest.keys| && l.at.forest.keys[l.index] == x
            && d.copy.id in d.store.parents && d.store.parents[d.copy.id] == st.parents[x]
            && x in d.store.parents && d.store.parents[x] == st.parents[x]
  {
    assert FindBlockById(st, x).Ok?;
    DuplicateLinks(st, x);
    DuplicateDoc(st, x);
    ResolvesAfterInsert(st, Duplicate(st, x).value.store, x, Duplicate(st, x).value.copy);
  }

  /** The cache after a duplicate: the old entries are kept and the copy is linked to the original's parent. */
  lemma DuplicateLinks(st: Store, x: nat)
    requires IssuedBelow(st.parents, st.counter.last) && FindBlockById(st, x).Ok?
    ensures Duplicate(st, x).Ok?
    ensures var d := Duplicate(st, x).value;
            && d.copy.id !in st.parents
            && d.copy.id in d.store.parents && d.store.parents[d.copy.id] == st.parents[x]
            && st.parents.Keys <= d.store.parents.Keys
            && forall y | y in st.parents :: d.store.parents[y] == st.parents[y]
  {
    var l := FindBlockById(st, x).value;
    var c := CloneBlock(l.block, st.parents[x], st.counter);
    CloneBlockFresh(l.block, st.parents[x], st.counter);
    MergeFresh(st.parents, c.links, st.counter.last, c.counter.last);
  }

  /** Where the copy goes: right after the original, in the original's map. */
  lemma DuplicateDoc(st: Store, x: nat)
    requires Duplicate(st, x).Ok?
    ensures var l := FindBlockById(st, x).value;
            var d := Duplicate(st, x).value;
            d.store.doc == ReplaceAt(st.doc, l.at.path, Insert(l.at.forest, d.copy.id, l.index + 1, d.copy))
  {
    var l := FindBlockById(st, x).value;
    var c := CloneBlock(l.block, st.parents[x], st.counter);
    assert Duplicate(st, x).value.copy == c.block;
  }

  /**
   * A block new to the tree placed right after block `x` in `x`'s map, in a store whose cache
   * keeps every old entry: the parent's map now resolves to the grown map.
   */
  lemma ResolvesAfterInsert(st: Store, st': Store, x: nat, b: Block)
    requires Consistent(st.doc, st.parents) && x in st.parents
    requires FindBlockById(st, x).Ok?
    requires st'.doc == ReplaceAt(st.doc, FindBlockById(st, x).value.at.path,
                                  Insert(FindBlockById(st, x).value.at.forest, b.id, FindBlockById(st, x).value.index + 1, b))
    requires st.parents.Keys <= st'.parents.Keys && forall y | y in st.parents :: st'.parents[y] == st.parents[y]
    requires b.id !in st.parents
    ensures var l := FindBlockById(st, x).value;
            && FindMapByParent(st', st.parents[x]) == Ok(Found(l.at.path, Insert(l.at.forest, b.id, l.index + 1, b)))
            && Valid(l.at.forest) && b.id !in l.at.forest.values
            && l.index < |l.at.forest.keys| && l.at.forest.keys[l.index] == x
  {
    FindBlockByIdSpec(st, x);
    var l := FindBlockById(st, x).value;
    var n := Insert(l.at.forest, b.id, l.index + 1, b);
    FindAfterGrow(st, st', st.parents[x], n);
    FoundFacts(st, st.parents[x]);
    assert b.id !in l.at.forest.values;
  }

  /**
   * A map resolved for parent `p` in which block `b` was inserted right after the block at index
   * `i`: findBlockById finds `b` at index `i + 1` and the old block, unchanged, at `i`.
   */
  lemma PlacedBeside(st: Store, p: nat, path: seq<nat>, m: Forest, b: Block, i: nat, x: nat)
    requires FindMapByParent(st, p) == Ok(Found(path, Insert(m, b.id, i + 1, b)))
    requires Valid(m) && b.id !in m.values && i < |m.keys| && m.keys[i] == x
    requires b.id in st.parents && st.parents[b.id] == p && x in st.parents && st.parents[x] == p
    ensures FindBlockById(st, b.id) == Ok(Located(b, i + 1, Found(path, Insert(m, b.id, i + 1, b))))
    ensures FindBlockById(st, x) == Ok(Located(m.values[x], i, Found(path, Insert(m, b.id, i + 1, b))))
  {
    FindInserted(st, p, path, m, b, i + 1);
    FindBeforeInserted(st, p, path, m, b, i + 1, i);
  }

  // ---------------------------------------------------------------------------------------------
  // move

  /**
   * move, as intended: every check comes before any change, so a failed move leaves the store
   * as it was. The block must exist (errBlockDoesNotExist), the new parent must resolve
   * (errParentBlockDoesNotExist), and the new parent must not be the block or lie below it
   * (errBlockMovedToItsChild). Then the block leaves its map, its cache entry is pointed at the
   * new parent, and it is inserted at `index` into the new parent's map.
   */
  function Move(st: Store, x: nat, q: nat, index: nat): (r: Outcome)
    ensures r.error.Some? ==> r.store == st
    ensures r.error.None? ==> r.store.counter == st.counter && r.store.parents == st.parents[x := q]
  {
    match FindBlockById(st, x)
    case Err(e) => Outcome(st, Some(e))
    case Ok(l) =>
      if FindMapByParent(st, q).Err? then Outcome(st, Some(ParentBlockDoesNotExist))
      else if q == x || q in Ids(l.block.children) then Outcome(st, Some(BlockMovedToItsChild))
      else
        var detached := Store(ReplaceAt(st.doc, l.at.path, Delete(l.at.forest, x)), st.parents[x := q], st.counter);
        match FindMapByParent(detached, q)
        case Err(_) => Outcome(st, Some(InconsistentState))
        case Ok(f) =>
          Outcome(Store(ReplaceAt(detached.doc, f.path, Insert(f.forest, x, index, l.block)), detached.parents, st.counter), None)
  }

  /** A move that passes its checks: the block exists, the new parent resolves and lies outside the block. */
  ghost predicate MoveAllowed(st: Store, x: nat, q: nat) {
    && x in st.parents
    && (q == Root || q in st.parents)
    && FindBlockById(st, x).Ok?
    && q != x
    && q !in Ids(FindBlockById(st, x).value.block.children)
  }

  /**
   * With the block detached, the new parent still resolves, to the map it has after the block is
   * deleted: the block's new cache entry is not on the new parent's path.
   */
  lemma MoveDetached(st: Store, x: nat, q: nat)
    requires Inv(st) && MoveAllowed(st, x, q)
    ensures var del := DeleteOne(st, x);
            && Inv(del)
            && FindMapByParent(del, q).Ok?
            && FindMapByParent(Store(del.doc, st.parents[x := q], st.counter), q) == FindMapByParent(del, q)
  {
    var l := FindBlockById(st, x).value;
    var del := DeleteOne(st, x);
    DeleteOneSpec(st, x);
    assert q == Root || q in del.parents;
    FindMapByParentSpec(del, q);
    FindMapFrame(del, Store(del.doc, st.parents[x := q], st.counter), q);
  }

  /** The store a successful move produces: the block deleted, then inserted into the new parent's map. */
  lemma MoveStore(st: Store, x: nat, q: nat, index: nat)
    requires Inv(st) && MoveAllowed(st, x, q)
    ensures FindMapByParent(DeleteOne(st, x), q).Ok?
    ensures var l := FindBlockById(st, x).value;
            var del := DeleteOne(st, x);
            var f := FindMapByParent(del, q).value;
            Move(st, x, q, index) ==
               Outcome(Store(ReplaceAt(del.doc, f.path, Insert(f.forest, x, index, l.block)), st.parents[x := q], st.counter), None)
  {
    FindMapByParentSpec(st, q);
    MoveDetached(st, x, q);
  }

  /**
   * A successful move keeps the store consistent and the set of ids in the tree unchanged; the
   * only cache entry that changes is the moved block's.
   */
  lemma MoveOk(st: Store, x: nat, q: nat, index: nat)
    requires Inv(st) && MoveAllowed(st, x, q)
    ensures Inv(Move(st, x, q, index).store)
    ensures Ids(Move(st, x, q, index).store.doc) == Ids(st.doc)
  {
    MoveStore(st, x, q, index);
    MoveAttach(st, x, q, index);
  }

  /** What a found block brings along: a well-formed subtree described by the cache, inside the tree. */
  lemma FoundBlockFacts(st: Store, x: nat)
    requires Consistent(st.doc, st.parents) && x in st.parents
    ensures FindBlockById(st, x).Ok?
    ensures var b := FindBlockById(st, x).value.block;
            && b.id == x && x != Root
            && WF(b.children) && x !in Ids(b.children)
            && Agrees(st.parents, b.children, x)
            && {x} + Ids(b.children) <= Ids(st.doc)
  {
    FindBlockByIdSpec(st, x);
    var l := FindBlockById(st, x).value;
    FoundFacts(st, st.parents[x]);
    IdsSplit(l.at.forest, x);
    PartOfPart(Sub(l.at.forest, x), OtherIds(l.at.forest, x), Ids(l.at.forest), Outside(st.doc, l.at.path), Ids(st.doc));
  }

  /** Putting the detached block into the new parent's map restores a consistent store with the same ids. */
  lemma MoveAttach(st: Store, x: nat, q: nat, index: nat)
    requires Inv(st) && MoveAllowed(st, x, q)
    ensures FindMapByParent(DeleteOne(st, x), q).Ok?
    ensures var b := FindBlockById(st, x).value.block;
            var del := DeleteOne(st, x);
            var f := FindMapByParent(del, q).value;
            var doc' := ReplaceAt(del.doc, f.path, Insert(f.forest, x, index, b));
            && Consistent(doc', st.parents[x := q])
            && Ids(doc') == Ids(st.doc)
  {
    var b := FindBlockById(st, x).value.block;
    var del := DeleteOne(st, x);
    FoundBlockFacts(st, x);
    DeleteOneDetaches(st, x);
    MoveDetached(st, x, q);
    var f := FindMapByParent(del, q).value;
    Reattach(st.doc, st.parents, del.doc, del.parents, f.path, f.forest, b, q, index);
  }

  /**
   * A block taken out of a consistent store together with its subtree's cache entries, put back
   * into some map of what remains, with its cache entry pointing at that map's owner: the store
   * is consistent again and holds the same ids as before.
   */
  lemma Reattach(doc: Forest, parents: map<nat, nat>, doc0: Forest, parents0: map<nat, nat>,
                 path: seq<nat>, m: Forest, b: Block, q: nat, index: nat)
    requires parents.Keys == Ids(doc) && b.id in parents
    requires WF(b.children) && b.id != Root && b.id !in Ids(b.children) && Agrees(parents, b.children, b.id)
    requires {b.id} + Ids(b.children) <= Ids(doc)
    requires Consistent(doc0, parents0) && Descend(doc0, path) == Some(m) && Owner(path) == q
    requires parents0 == parents - ({b.id} + Ids(b.children))
    requires Ids(doc0) == Ids(doc) - ({b.id} + Ids(b.children))
    ensures Consistent(ReplaceAt(doc0, path, Insert(m, b.id, index, b)), parents[b.id := q])
    ensures Ids(ReplaceAt(doc0, path, Insert(m, b.id, index, b))) == Ids(doc)
  {
    var parents' := parents[b.id := q];
    Reinsert(Ids(doc), b.id, Ids(b.children));
    MinusKeys(parents, {b.id} + Ids(b.children));
    UpdateKeys(parents, b.id, q);
    AgreesFrame(parents, parents', b.children, b.id);
    AttachPreserves(doc0, parents0, parents', path, m, b, index);
  }

  /**
   * move fails exactly when one of its checks fails, each with its own error, and never reports
   * an inconsistent state; when it succeeds the block's cache entry is the new parent.
   */
  lemma MoveErrors(st: Store, x: nat, q: nat, index: nat)
    requires Inv(st)
    ensures x in st.parents ==> FindBlockById(st, x).Ok?
    ensures Move(st, x, q, index).error.None? <==> MoveAllowed(st, x, q)
    ensures x !in st.parents ==> Move(st, x, q, index).error == Some(BlockDoesNotExist)
    ensures x in st.parents && q != Root && q !in st.parents ==>
              Move(st, x, q, index).error == Some(ParentBlockDoesNotExist)
    ensures x in st.parents && (q == Root || q in st.parents) &&
            (q == x || q in Ids(FindBlockById(st, x).value.block.children)) ==>
              Move(st, x, q, index).error == Some(BlockMovedToItsChild)
  {
    FindBlockByIdSpec(st, x);
    FindMapByParentSpec(st, q);
    if MoveAllowed(st, x, q) {
      MoveStore(st, x, q, index);
    }
  }

  /**
   * After a successful move the block is found, unchanged, in the new parent's map at the
   * requested index (clamped), that map being the one the new parent had once the block was
   * deleted: a move is a delete followed by an insert of the same block.
   */
  lemma MoveFind(st: Store, x: nat, q: nat, index: nat)
    requires Inv(st) && MoveAllowed(st, x, q)
    ensures FindMapByParent(DeleteOne(st, x), q).Ok?
    ensures var b := FindBlockById(st, x).value.block;
            var f := FindMapByParent(DeleteOne(st, x), q).value;
            var n := Insert(f.forest, x, index, b);
            FindBlockById(Move(st, x, q, index).store, x) == Ok(Located(b, Clamp(index, |f.forest.keys|), Found(f.path, n)))
  {
    var b := FindBlockById(st, x).value.block;
    var del := DeleteOne(st, x);
    FoundBlockFacts(st, x);
    DeleteOneDetaches(st, x);
    MoveStore(st, x, q, index);
    MoveDetached(st, x, q);
    var f := FindMapByParent(del, q).value;
    var n := Insert(f.forest, x, index, b);
    var st' := Move(st, x, q, index).store;
    FoundFacts(del, q);
    assert x !in f.forest.values;
    FindAfterReplace(Store(del.doc, st.parents[x := q], st.counter), st', q, n);
    FindInserted(st', q, f.path, f.forest, b, index);
  }
}
