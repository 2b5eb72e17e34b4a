/**
 * The store's operations as crafttask/store.go writes them, where that differs from what they
 * evidently intend, next to lemmas that exhibit each difference. fetch, duplicate and move look
 * blocks up through pathToNode as written, run with a fuel bound: None stands for a call that
 * never returns. The rest of the model uses the corrected definitions of the other modules.
 */
module AsWritten {
  import opened Wrappers
  import opened OrderedMap
  import opened Models
  import opened IdCounter
  import opened Paths
  import opened StoreState
  import opened Cloning
  import opened StoreOps

  // ---------------------------------------------------------------------------------------------
  // pathToNode: the loop never moves up

  /**
   * pathToNode as written, run for at most `fuel` iterations of its loop; None means the loop is
   * still running. The loop looks up the parent of `parentId` but never assigns `parentId`, so it
   * reads the same cache entry every time.
   */
  function PathToNodeAsWritten(cache: map<nat, nat>, parentId: nat, fuel: nat): (r: Option<Result<seq<nat>, Error>>)
    ensures parentId == Root ==> r == Some(Ok([]))
  {
    if parentId == Root then Some(Ok([])) else PathLoop(cache, parentId, [parentId], fuel)
  }

  function PathLoop(cache: map<nat, nat>, parentId: nat, path: seq<nat>, fuel: nat): (r: Option<Result<seq<nat>, Error>>)
    ensures r.Some? && r.value.Ok? ==> parentId in cache && cache[parentId] == Root && r.value.value == path
    ensures r.Some? && r.value.Err? ==> parentId !in cache && r.value.error == BlockDoesNotExist
    decreases fuel
  {
    if fuel == 0 then None
    else if parentId !in cache then Some(Err(BlockDoesNotExist))
    else if cache[parentId] == Root then Some(Ok(path))
    else PathLoop(cache, parentId, path + [cache[parentId]], fuel - 1)
  }

  /** Below the top level the loop never ends, however long it runs. */
  lemma {:induction false} PathLoopDiverges(cache: map<nat, nat>, parentId: nat, path: seq<nat>, fuel: nat)
    requires parentId in cache && cache[parentId] != Root
    ensures PathLoop(cache, parentId, path, fuel) == None
    decreases fuel
  {
    if fuel > 0 {
      PathLoopDiverges(cache, parentId, path + [cache[parentId]], fuel - 1);
    }
  }

  /**
   * The discrepancy: for a block whose parent is not Root, pathToNode as written never returns,
   * while the intended walk returns the block's ancestors.
   */
  lemma PathToNodeAsWrittenHangs(cache: map<nat, nat>, parentId: nat, fuel: nat)
    requires parentId != Root && parentId in cache && cache[parentId] != Root
    ensures PathToNodeAsWritten(cache, parentId, fuel) == None
  {
    PathLoopDiverges(cache, parentId, [parentId], fuel);
  }

  /** A concrete case: block 2 under block 1 under Root. The intended path is [2, 1]. */
  lemma PathToNodeAsWrittenExample(fuel: nat)
    ensures PathToNodeAsWritten(map[1 := 0, 2 := 1], 2, fuel) == None
    ensures PathToNode(map[1 := 0, 2 := 1], 2) == Ok([2, 1])
  {
    PathToNodeAsWrittenHangs(map[1 := 0, 2 := 1], 2, fuel);
    ChainIsPath(map[1 := 0, 2 := 1], [2, 1]);
  }

  /** Where the loop does end, at Root and one level below it, it agrees with the intended walk. */
  lemma PathToNodeAsWrittenShallow(cache: map<nat, nat>, parentId: nat, fuel: nat)
    requires fuel > 0
    requires parentId == Root || parentId !in cache || cache[parentId] == Root
    ensures PathToNodeAsWritten(cache, parentId, fuel) == Some(PathToNode(cache, parentId))
  {
  }


  /** pathToNode as written returns for `p` when `p` is Root, uncached, or a top-level block. */
  predicate LoopEnds(cache: map<nat, nat>, p: nat) {
    p == Root || p !in cache || cache[p] == Root
  }

  /**
   * pathToNode as written returns exactly where its loop ends, and whenever it returns it agrees
   * with the intended walk.
   */
  lemma PathToNodeAsWrittenEnds(cache: map<nat, nat>, p: nat, fuel: nat)
    ensures PathToNodeAsWritten(cache, p, fuel).Some? ==> PathToNodeAsWritten(cache, p, fuel) == Some(PathToNode(cache, p))
    ensures !LoopEnds(cache, p) ==> PathToNodeAsWritten(cache, p, fuel) == None
    ensures fuel > 0 && LoopEnds(cache, p) ==> PathToNodeAsWritten(cache, p, fuel).Some?
  {
    if !LoopEnds(cache, p) {
      PathToNodeAsWrittenHangs(cache, p, fuel);
    } else if fuel > 0 {
      PathToNodeAsWrittenShallow(cache, p, fuel);
    }
  }

  // ---------------------------------------------------------------------------------------------
  // findMapByParent and findBlockById on top of pathToNode as written

  /** findMapByParent as written: pathToNode as written, then the descent along its path. */
  function FindMapByParentAsWritten(st: Store, p: nat, fuel: nat): (r: Option<Result<Found, Error>>)
    ensures p == Root ==> r == Some(Ok(Found([], st.doc)))
    ensures p != Root && p !in st.parents && fuel > 0 ==> r == Some(Err(BlockDoesNotExist))
    ensures r.Some? && r.value.Ok? ==> Descend(st.doc, r.value.value.path) == Some(r.value.value.forest)
    ensures r.Some? && r.value.Ok? && p != Root ==> r.value.value.path == [p] && p in st.parents && st.parents[p] == Root
  {
    match PathToNodeAsWritten(st.parents, p, fuel)
    case None => None
    case Some(Err(e)) => Some(Err(e))
    case Some(Ok(path)) =>
      match Descend(st.doc, path)
      case None => Some(Err(InconsistentState))
      case Some(m) => Some(Ok(Found(path, m)))
  }

  /** findBlockById as written: the parent's map through findMapByParent as written, then the entry. */
  function FindBlockByIdAsWritten(st: Store, x: nat, fuel: nat): (r: Option<Result<Located, Error>>)
    ensures x !in st.parents ==> r == Some(Err(BlockDoesNotExist))
    ensures r.Some? && r.value.Ok? ==> x in st.parents
  {
    if x !in st.parents then Some(Err(BlockDoesNotExist))
    else
      match FindMapByParentAsWritten(st, st.parents[x], fuel)
      case None => None
      case Some(Err(e)) => Some(Err(e))
      case Some(Ok(f)) =>
        match GetAndIndex(f.forest, x)
        case None => Some(Err(InconsistentState))
        case Some(hit) => Some(Ok(Located(hit.0, hit.1, f)))
  }

  /** findBlockById as written returns for `x` when `x` is uncached or its parent's loop ends. */
  predicate FindEnds(cache: map<nat, nat>, x: nat) {
    x !in cache || LoopEnds(cache, cache[x])
  }

  /** findMapByParent as written returns exactly where pathToNode as written does, with the intended result. */
  lemma FindMapAsWrittenEnds(st: Store, p: nat, fuel: nat)
    ensures FindMapByParentAsWritten(st, p, fuel).Some? ==>
              FindMapByParentAsWritten(st, p, fuel) == Some(FindMapByParent(st, p))
    ensures !LoopEnds(st.parents, p) ==> FindMapByParentAsWritten(st, p, fuel) == None
    ensures fuel > 0 && LoopEnds(st.parents, p) ==> FindMapByParentAsWritten(st, p, fuel).Some?
  {
    PathToNodeAsWrittenEnds(st.parents, p, fuel);
  }

  /** findBlockById as written returns exactly where its lookup of the parent's map does, with the intended result. */
  lemma FindAsWrittenEnds(st: Store, x: nat, fuel: nat)
    ensures FindBlockByIdAsWritten(st, x, fuel).Some? ==>
              FindBlockByIdAsWritten(st, x, fuel) == Some(FindBlockById(st, x))
    ensures !FindEnds(st.parents, x) ==> FindBlockByIdAsWritten(st, x, fuel) == None
    ensures fuel > 0 && FindEnds(st.parents, x) ==> FindBlockByIdAsWritten(st, x, fuel).Some?
  {
    if x in st.parents {
      FindMapAsWrittenEnds(st, st.parents[x], fuel);
    }
  }

  /**
   * In a consistent store findBlockById as written returns for a cached block exactly when the
   * block is at the top level or one level below it.
   */
  lemma FindEndsDepth(st: Store, x: nat)
    requires Consistent(st.doc, st.parents) && x in st.parents
    ensures PathToNode(st.parents, x).Ok?
    ensures FindEnds(st.parents, x) <==> |PathToNode(st.parents, x).value| <= 2
  {
    FindBlockByIdSpec(st, x);
    var p := st.parents[x];
    var l := FindBlockById(st, x).value;
    if p != Root {
      assert PathToNode(st.parents, p) == Ok(l.at.path);
      assert p in st.parents;
      if st.parents[p] != Root {
        assert |l.at.path| >= 2;
      }
    }
  }

  // ---------------------------------------------------------------------------------------------
  // fetch: the result is padded

  /** The zero value of Go's block type: id 0, no content, no children. */
  function ZeroBlock(): Block {
    Block(Root, "", Empty())
  }

  /** The blocks fetch's loop appends, as written; None when one of its lookups never returns. */
  function FetchLoopAsWritten(st: Store, ids: seq<nat>, fuel: nat): (r: Option<seq<Block>>)
    ensures r.Some? ==> |r.value| <= |ids|
    ensures (forall i | 0 <= i < |ids| :: ids[i] !in st.parents) ==> r == Some([])
    decreases |ids|
  {
    if |ids| == 0 then Some([])
    else
      match FindBlockByIdAsWritten(st, ids[0], fuel)
      case None => None
      case Some(found) =>
        match FetchLoopAsWritten(st, ids[1..], fuel)
        case None => None
        case Some(rest) => Some((match found case Err(_) => [] case Ok(l) => [l.block]) + rest)
  }

  /**
   * fetch as written: `make([]block, len(ids))` creates `len(ids)` zero blocks, and the found
   * blocks are appended after them.
   */
  function FetchAsWritten(st: Store, ids: seq<nat>, fuel: nat): (r: Option<seq<Block>>)
    ensures r.Some? ==> |ids| <= |r.value| <= 2 * |ids|
    ensures r.Some? ==> forall i | 0 <= i < |ids| :: r.value[i] == ZeroBlock()
    ensures (forall i | 0 <= i < |ids| :: ids[i] !in st.parents) ==> r.Some? && |r.value| == |ids|
  {
    match FetchLoopAsWritten(st, ids, fuel)
    case None => None
    case Some(found) => Some(seq(|ids|, _ => ZeroBlock()) + found)
  }

  /** Every requested id is one findBlockById as written returns for. */
  predicate AllEnd(cache: map<nat, nat>, ids: seq<nat>) {
    forall i | 0 <= i < |ids| :: FindEnds(cache, ids[i])
  }

  /**
   * fetch's loop as written never returns when one requested id's lookup does not, and otherwise
   * appends exactly what the intended fetch returns.
   */
  lemma {:induction false} FetchLoopEnds(st: Store, ids: seq<nat>, fuel: nat)
    ensures !AllEnd(st.parents, ids) ==> FetchLoopAsWritten(st, ids, fuel) == None
    ensures fuel > 0 && AllEnd(st.parents, ids) ==> FetchLoopAsWritten(st, ids, fuel) == Some(Fetch(st, ids))
    decreases |ids|
  {
    if |ids| > 0 {
      FindAsWrittenEnds(st, ids[0], fuel);
      FetchLoopEnds(st, ids[1..], fuel);
      if !AllEnd(st.parents, ids) && FindEnds(st.parents, ids[0]) {
        var i :| 0 <= i < |ids| && !FindEnds(st.parents, ids[i]);
        assert !FindEnds(st.parents, ids[1..][i - 1]);
      }
      if AllEnd(st.parents, ids) {
        assert FindEnds(st.parents, ids[0]);
        assert forall i | 0 <= i < |ids| - 1 :: FindEnds(st.parents, ids[1..][i]) by {
          forall i | 0 <= i < |ids| - 1 ensures FindEnds(st.parents, ids[1..][i]) {
            assert ids[1..][i] == ids[i + 1];
          }
        }
      }
    }
  }

  /**
   * What a caller sees: fetch as written never returns when a requested block lies two levels or
   * more below the top; otherwise it returns one zero block per requested id followed by what the
   * intended fetch returns, so never fewer blocks than ids requested, and more as soon as one
   * requested id exists.
   */
  lemma FetchAsWrittenLonger(st: Store, ids: seq<nat>, fuel: nat)
    requires Consistent(st.doc, st.parents) && fuel > 0
    ensures FetchAsWritten(st, ids, fuel).None? <==> !AllEnd(st.parents, ids)
    ensures FetchAsWritten(st, ids, fuel).Some? ==>
              var r := FetchAsWritten(st, ids, fuel).value;
              && |r| >= |ids|
              && (forall i | 0 <= i < |ids| :: r[i] == ZeroBlock())
              && r[|ids|..] == Fetch(st, ids)
              && ((exists i | 0 <= i < |ids| :: ids[i] in st.parents) ==> |r| > |ids|)
  {
    FetchLoopEnds(st, ids, fuel);
    FetchSpec(st, ids);
    if exists i | 0 <= i < |ids| :: ids[i] in st.parents {
      var i :| 0 <= i < |ids| && ids[i] in st.parents;
      PresentNonEmpty(st.parents, ids, i);
    }
  }

  /** A request with a cached id has that id among the present ones. */
  lemma {:induction false} PresentNonEmpty(parents: map<nat, nat>, ids: seq<nat>, i: nat)
    requires i < |ids| && ids[i] in parents
    ensures |Present(parents, ids)| > 0
    decreases |ids|
  {
    if ids[0] !in parents {
      PresentNonEmpty(parents, ids[1..], i - 1);
    }
  }

  /**
   * A request for ids that all exist returns exactly when every requested block is at the top
   * level or one below it, and then gets twice as many blocks back: the store test's request for
   * blocks 1 and 2 would get four.
   */
  lemma FetchAsWrittenDoubles(st: Store, ids: seq<nat>, fuel: nat)
    requires Consistent(st.doc, st.parents) && fuel > 0
    requires forall i | 0 <= i < |ids| :: ids[i] in st.parents
    ensures forall i | 0 <= i < |ids| :: PathToNode(st.parents, ids[i]).Ok?
    ensures FetchAsWritten(st, ids, fuel).Some? <==>
              forall i | 0 <= i < |ids| :: |PathToNode(st.parents, ids[i]).value| <= 2
    ensures FetchAsWritten(st, ids, fuel).Some? ==> |FetchAsWritten(st, ids, fuel).value| == 2 * |ids|
  {
    FetchLoopEnds(st, ids, fuel);
    FetchSpec(st, ids);
    PresentAll(st.parents, ids);
    forall i | 0 <= i < |ids|
      ensures PathToNode(st.parents, ids[i]).Ok?
      ensures FindEnds(st.parents, ids[i]) <==> |PathToNode(st.parents, ids[i]).value| <= 2
    {
      FindEndsDepth(st, ids[i]);
    }
  }

  // ---------------------------------------------------------------------------------------------
  // duplicate: the original block goes in under the new id

  /**
   * duplicate as written. recursiveSetNewIds receives the block by value, so the fresh ids it
   * assigns, and the cache entries it adds for them, never reach the tree: the map receives the
   * original block, with its old id and the same children, under the new key. The cache entries
   * and the counter are those of a deep copy.
   */
  function DuplicateAsWritten(st: Store, x: nat, fuel: nat): (r: Option<Result<Duplicated, Error>>)
    ensures x !in st.parents ==> r == Some(Err(BlockDoesNotExist))
  {
    match FindBlockByIdAsWritten(st, x, fuel)
    case None => None
    case Some(Err(e)) => Some(Err(e))
    case Some(Ok(l)) => Some(Ok(OriginalInserted(st, st.parents[x], l)))
  }

  /**
   * What duplicate as written does once it has found the block `l` under parent `p`: the cache and
   * the counter of a deep copy, and the original block in the map under the copy's id.
   */
  function OriginalInserted(st: Store, p: nat, l: Located): (r: Duplicated)
    requires Descend(st.doc, l.at.path).Some?
    ensures r.copy == l.block
    ensures r.store.counter.last > st.counter.last
    ensures st.parents.Keys <= r.store.parents.Keys
    ensures st.counter.last + 1 in r.store.parents && r.store.parents[st.counter.last + 1] == p
  {
    var c := CloneBlock(l.block, p, st.counter);
    var n := Insert(l.at.forest, c.block.id, l.index + 1, l.block);
    Duplicated(Store(ReplaceAt(st.doc, l.at.path, n), st.parents + c.links, c.counter), l.block)
  }

  /**
   * The discrepancy: duplicate as written never returns for a block two levels or more below the
   * top; for any other existing block it hands back the original (same id) and leaves the map
   * holding a block under a key other than its id, which no consistent store does.
   */
  lemma DuplicateAsWrittenBreaksInv(st: Store, x: nat, fuel: nat)
    requires Inv(st) && x in st.parents && fuel > 0
    ensures FindBlockById(st, x).Ok? && PathToNode(st.parents, x).Ok?
    ensures DuplicateAsWritten(st, x, fuel).None? <==> |PathToNode(st.parents, x).value| > 2
    ensures DuplicateAsWritten(st, x, fuel).Some? ==>
              && DuplicateAsWritten(st, x, fuel).value.Ok?
              && DuplicateAsWritten(st, x, fuel).value.value.copy == FindBlockById(st, x).value.block
              && DuplicateAsWritten(st, x, fuel).value.value.copy.id == x
              && !Inv(DuplicateAsWritten(st, x, fuel).value.value.store)
  {
    FindBlockByIdSpec(st, x);
    FindAsWrittenEnds(st, x, fuel);
    FindEndsDepth(st, x);
    OriginalUnderNewId(st, x);
    if FindEnds(st.parents, x) {
      DuplicateAsWrittenFound(st, x, fuel);
    }
  }

  /** Where its lookup returns the block, duplicate as written inserts the original under the next id. */
  lemma DuplicateAsWrittenFound(st: Store, x: nat, fuel: nat)
    requires FindBlockById(st, x).Ok? && FindBlockByIdAsWritten(st, x, fuel) == Some(FindBlockById(st, x))
    ensures DuplicateAsWritten(st, x, fuel) == Some(Ok(OriginalInserted(st, st.parents[x], FindBlockById(st, x).value)))
  {
    var l := FindBlockById(st, x).value;
    assert FindBlockByIdAsWritten(st, x, fuel) == Some(Ok(l));
  }

  /** Putting the original block itself into its map under the next id leaves the store inconsistent. */
  lemma OriginalUnderNewId(st: Store, x: nat)
    requires Inv(st) && x in st.parents
    ensures FindBlockById(st, x).Ok?
    ensures !Inv(OriginalInserted(st, st.parents[x], FindBlockById(st, x).value).store)
  {
    FindBlockByIdSpec(st, x);
    var l := FindBlockById(st, x).value;
    var c := CloneBlock(l.block, st.parents[x], st.counter);
    var n := Insert(l.at.forest, c.block.id, l.index + 1, l.block);
    var st' := Store(ReplaceAt(st.doc, l.at.path, n), st.parents + c.links, c.counter);
    DescendReplace(st.doc, l.at.path, n);
    assert c.block.id == st.counter.last + 1;
    assert x <= st.counter.last;
    assert n.values[c.block.id].id == x;
    if WF(st'.doc) {
      DescendWF(st'.doc, l.at.path);
      assert false;
    }
  }

  /** In the store test's situation the intended duplicate gives a copy with a new id instead. */
  lemma DuplicateCorrectedCopies(st: Store, x: nat)
    requires Inv(st) && x in st.parents
    ensures Duplicate(st, x).Ok?
    ensures Duplicate(st, x).value.copy.id != x
    ensures Inv(Duplicate(st, x).value.store)
  {
    DuplicateInv(st, x);
  }

  // ---------------------------------------------------------------------------------------------
  // move: mutation before validation, and no cycle check

  /**
   * move as written once pathToNode is corrected: the block leaves its map and its cache entry is
   * pointed at the new parent before the new parent is resolved, and a failed resolution returns
   * with those changes kept. Nothing stops the new parent from being the block itself or one of
   * its descendants.
   */
  function MoveWalkFixed(st: Store, x: nat, q: nat, index: nat): (r: Outcome)
    ensures x !in st.parents ==> r == Outcome(st, Some(BlockDoesNotExist))
    ensures r.store.counter == st.counter
    ensures r.store.parents == st.parents || r.store.parents == st.parents[x := q]
    ensures r.error.None? ==> r.store.parents == st.parents[x := q]
  {
    match FindBlockById(st, x)
    case Err(e) => Outcome(st, Some(e))
    case Ok(l) =>
      var detached := Store(ReplaceAt(st.doc, l.at.path, Delete(l.at.forest, x)), st.parents[x := q], st.counter);
      match FindMapByParent(detached, q)
      case Err(InconsistentState) => Outcome(detached, Some(InconsistentState))
      case Err(_) => Outcome(detached, Some(ParentBlockDoesNotExist))
      case Ok(f) =>
        Outcome(Store(ReplaceAt(detached.doc, f.path, Insert(f.forest, x, index, l.block)), detached.parents, st.counter), None)
  }

  /** move as written, both of its lookups through pathToNode as written; None when one never returns. */
  function MoveAsWritten(st: Store, x: nat, q: nat, index: nat, fuel: nat): (r: Option<Outcome>)
    ensures x !in st.parents ==> r == Some(Outcome(st, Some(BlockDoesNotExist)))
    ensures r.Some? ==> r.value.store.counter == st.counter
    ensures r.Some? ==> r.value.store.parents == st.parents || r.value.store.parents == st.parents[x := q]
    ensures r.Some? && r.value.error.None? ==> r.value.store.parents == st.parents[x := q]
  {
    match FindBlockByIdAsWritten(st, x, fuel)
    case None => None
    case Some(Err(e)) => Some(Outcome(st, Some(e)))
    case Some(Ok(l)) =>
      var detached := Store(ReplaceAt(st.doc, l.at.path, Delete(l.at.forest, x)), st.parents[x := q], st.counter);
      match FindMapByParentAsWritten(detached, q, fuel)
      case None => None
      case Some(Err(InconsistentState)) => Some(Outcome(detached, Some(InconsistentState)))
      case Some(Err(_)) => Some(Outcome(detached, Some(ParentBlockDoesNotExist)))
      case Some(Ok(f)) =>
        Some(Outcome(Store(ReplaceAt(detached.doc, f.path, Insert(f.forest, x, index, l.block)), detached.parents, st.counter), None))
  }

  /**
   * move as written never returns when the block's lookup does not, or when the new parent's
   * lookup, made with the block's entry already re-pointed, does not; whenever it returns it does
   * what move does with pathToNode corrected.
   */
  lemma MoveAsWrittenEnds(st: Store, x: nat, q: nat, index: nat, fuel: nat)
    ensures MoveAsWritten(st, x, q, index, fuel).Some? ==> MoveAsWritten(st, x, q, index, fuel) == Some(MoveWalkFixed(st, x, q, index))
    ensures !FindEnds(st.parents, x) ==> MoveAsWritten(st, x, q, index, fuel) == None
    ensures FindBlockById(st, x).Ok? && !LoopEnds(st.parents[x := q], q) ==> MoveAsWritten(st, x, q, index, fuel) == None
    ensures fuel > 0 && FindEnds(st.parents, x) && LoopEnds(st.parents[x := q], q) ==> MoveAsWritten(st, x, q, index, fuel).Some?
  {
    FindAsWrittenEnds(st, x, fuel);
    if FindBlockById(st, x).Ok? {
      var l := FindBlockById(st, x).value;
      var detached := Store(ReplaceAt(st.doc, l.at.path, Delete(l.at.forest, x)), st.parents[x := q], st.counter);
      FindMapAsWrittenEnds(detached, q, fuel);
    }
  }

  /**
   * The discrepancy: moving an existing block under a parent that does not exist reports
   * errParentBlockDoesNotExist but leaves the block out of the tree with its cache entry still
   * present, so the store is no longer consistent. Go gets that far only for a block at the top
   * level or one below it; for a deeper one its first lookup never returns.
   */
  lemma MoveAsWrittenUnknownParent(st: Store, x: nat, q: nat, index: nat, fuel: nat)
    requires Inv(st) && x in st.parents && q != Root && q !in st.parents && fuel > 0
    ensures PathToNode(st.parents, x).Ok?
    ensures MoveAsWritten(st, x, q, index, fuel).None? <==> |PathToNode(st.parents, x).value| > 2
    ensures MoveAsWritten(st, x, q, index, fuel).Some? ==> MoveAsWritten(st, x, q, index, fuel).value == MoveWalkFixed(st, x, q, index)
    ensures MoveWalkFixed(st, x, q, index).error == Some(ParentBlockDoesNotExist)
    ensures x in MoveWalkFixed(st, x, q, index).store.parents
    ensures x !in Ids(MoveWalkFixed(st, x, q, index).store.doc)
    ensures !Inv(MoveWalkFixed(st, x, q, index).store)
    ensures Move(st, x, q, index) == Outcome(st, Some(ParentBlockDoesNotExist))
  {
    FindBlockByIdSpec(st, x);
    FindEndsDepth(st, x);
    MoveAsWrittenEnds(st, x, q, index, fuel);
    var l := FindBlockById(st, x).value;
    var doc' := ReplaceAt(st.doc, l.at.path, Delete(l.at.forest, x));
    MoveWalkFixedKeepsDetached(st, x, q, index);
    DetachPreserves(st.doc, st.parents, l.at.path, l.at.forest, x);
    MinusOwn(Ids(st.doc), x, Ids(l.block.children));
    CachedButMissing(Store(doc', st.parents[x := q], st.counter), x);
    MoveErrors(st, x, q, index);
  }

  /** With an unknown new parent, move with pathToNode corrected stops after detaching the block. */
  lemma MoveWalkFixedKeepsDetached(st: Store, x: nat, q: nat, index: nat)
    requires FindBlockById(st, x).Ok? && q != Root && q !in st.parents
    ensures var l := FindBlockById(st, x).value;
      MoveWalkFixed(st, x, q, index)
        == Outcome(Store(ReplaceAt(st.doc, l.at.path, Delete(l.at.forest, x)), st.parents[x := q], st.counter),
                   Some(ParentBlockDoesNotExist))
  {
    var l := FindBlockById(st, x).value;
    var detached := Store(ReplaceAt(st.doc, l.at.path, Delete(l.at.forest, x)), st.parents[x := q], st.counter);
    assert q !in detached.parents;
    assert FindMapByParent(detached, q) == Err(BlockDoesNotExist);
  }

  lemma MinusOwn(k: set<nat>, x: nat, c: set<nat>)
    ensures x !in k - ({x} + c)
  {
  }

  /** A cache entry for an id the tree does not hold breaks the store's invariant. */
  lemma CachedButMissing(st: Store, x: nat)
    requires x in st.parents && x !in Ids(st.doc)
    ensures !Inv(st)
  {
  }

  /**
   * The discrepancy: moving a block under itself or under any block of its subtree points the
   * block's cache entry into its own subtree and closes a cycle. pathToNode as written never
   * returns for the new parent, so move as written never returns. With pathToNode corrected, the
   * walk meets an id twice and reports the inconsistent state, which move returns with the block
   * already detached, leaving a store that is no longer consistent. The intended move refuses
   * with errBlockMovedToItsChild and changes nothing.
   */
  lemma MoveAsWrittenCycle(st: Store, x: nat, q: nat, index: nat, fuel: nat)
    requires Inv(st) && x in st.parents && FindBlockById(st, x).Ok?
    requires q == x || q in Ids(FindBlockById(st, x).value.block.children)
    ensures PathToNode(st.parents[x := q], q) == Err(InconsistentState)
    ensures PathToNodeAsWritten(st.parents[x := q], q, fuel) == None
    ensures MoveAsWritten(st, x, q, index, fuel) == None
    ensures MoveWalkFixed(st, x, q, index).error == Some(InconsistentState)
    ensures MoveWalkFixed(st, x, q, index).store.parents == st.parents[x := q]
    ensures !Inv(MoveWalkFixed(st, x, q, index).store)
    ensures Move(st, x, q, index) == Outcome(st, Some(BlockMovedToItsChild))
  {
    var l := FindBlockById(st, x).value;
    var doc' := ReplaceAt(st.doc, l.at.path, Delete(l.at.forest, x));
    var detached := Store(doc', st.parents[x := q], st.counter);
    SubtreePath(st, x, q);
    CycleFromChain(st.parents, PathToNode(st.parents, q).value, x, q);
    PathToNodeAsWrittenHangs(st.parents[x := q], q, fuel);
    MoveAsWrittenEnds(st, x, q, index, fuel);
    assert FindMapByParent(detached, q) == Err(InconsistentState);
    assert MoveWalkFixed(st, x, q, index) == Outcome(detached, Some(InconsistentState));
    DetachPreserves(st.doc, st.parents, l.at.path, l.at.forest, x);
    MinusOwn(Ids(st.doc), x, Ids(l.block.children));
    CachedButMissing(detached, x);
    MoveErrors(st, x, q, index);
  }

  /**
   * When its checks pass, move with pathToNode corrected and the intended move agree, and so does
   * move as written whenever it returns.
   */
  lemma MoveAsWrittenAgrees(st: Store, x: nat, q: nat, index: nat, fuel: nat)
    requires Inv(st) && MoveAllowed(st, x, q)
    ensures MoveWalkFixed(st, x, q, index) == Move(st, x, q, index)
    ensures MoveAsWritten(st, x, q, index, fuel).Some? ==> MoveAsWritten(st, x, q, index, fuel).value == Move(st, x, q, index)
  {
    MoveStore(st, x, q, index);
    MoveDetached(st, x, q);
    MoveAsWrittenEnds(st, x, q, index, fuel);
  }
}
