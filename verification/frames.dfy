/**
 * What the store's operations leave alone (crafttask/store.go, lines 72-161). Each operation
 * changes one children map of the tree in place (the Go code mutates the map it resolves); every
 * other block keeps its content, every block off the path to that map is untouched, and every
 * block but the map's owner keeps its children's keys.
 */
module Frames {
  import opened Wrappers
  import opened OrderedMap
  import opened Models
  import opened Paths
  import opened StoreState
  import opened StoreOps

  // ---------------------------------------------------------------------------------------------
  // Frames of the tree

  /**
   * Block `y`, after the map at `path` of forest `m` changed into `m'`: found before and after
   * with the same content; unchanged when it is not on the path; with the same children's keys
   * unless it owns the changed map.
   */
  ghost predicate Keeps(m: Forest, m': Forest, path: seq<nat>, y: nat) {
    && Lookup(m, y).Some? && Lookup(m', y).Some?
    && Lookup(m', y).value.content == Lookup(m, y).value.content
    && (y !in path ==> Lookup(m', y) == Lookup(m, y))
    && (y != Owner(path) ==> Lookup(m', y).value.children.keys == Lookup(m, y).value.children.keys)
  }

  /** The map put in place by a replacement that leaves a well-formed tree is itself well formed. */
  lemma ReplacedWF(m: Forest, path: seq<nat>, n: Forest)
    requires Descend(m, path).Some? && WF(ReplaceAt(m, path, n))
    ensures WF(n)
  {
    DescendReplace(m, path, n);
    DescendWF(ReplaceAt(m, path, n), path);
  }

  /** An id of the replaced map that the new map finds as the old one did is found unchanged in the tree. */
  lemma ChangeInside(m: Forest, path: seq<nat>, f: Forest, n: Forest, y: nat)
    requires WF(m) && Descend(m, path) == Some(f) && WF(ReplaceAt(m, path, n))
    requires y in Ids(f) && Lookup(n, y) == Lookup(f, y)
    ensures y !in path
    ensures Lookup(m, y).Some? && Lookup(ReplaceAt(m, path, n), y) == Lookup(m, y)
  {
    DescendWF(m, path);
    LookupFound(f, y);
    ReplacedWF(m, path, n);
    LookupFound(n, y);
    ReplaceInside(m, path, n, y);
    LookupDescend(m, path, y);
    PathAvoids(m, path, y);
  }

  /**
   * Replacing the map at `path` by one that finds the old map's id `y`, if it is one, as before:
   * block `y` keeps what Keeps promises.
   */
  lemma ChangeKeeps(m: Forest, path: seq<nat>, f: Forest, n: Forest, y: nat)
    requires WF(m) && Descend(m, path) == Some(f) && WF(ReplaceAt(m, path, n))
    requires y in Ids(m)
    requires y in Ids(f) ==> Lookup(n, y) == Lookup(f, y)
    ensures Keeps(m, ReplaceAt(m, path, n), path, y)
  {
    DescendIds(m, path);
    if y in Outside(m, path) {
      ReplaceFrame(m, path, n, y);
    } else {
      ChangeInside(m, path, f, n, y);
    }
  }

  /** Adding a new block to the map at `path` keeps every block already in the tree. */
  lemma InsertKeeps(m: Forest, path: seq<nat>, f: Forest, b: Block, index: nat, y: nat)
    requires WF(m) && Descend(m, path) == Some(f) && WF(ReplaceAt(m, path, Insert(f, b.id, index, b)))
    requires b.id !in f.values && y in Ids(m)
    ensures Keeps(m, ReplaceAt(m, path, Insert(f, b.id, index, b)), path, y)
  {
    var n := Insert(f, b.id, index, b);
    if y in Ids(f) {
      DescendWF(m, path);
      ReplacedWF(m, path, n);
      InsertLookup(f, b, index, y);
    }
    ChangeKeeps(m, path, f, n, y);
  }

  /** Removing block `x` from the map at `path` keeps every block outside `x`'s subtree. */
  lemma DeleteKeeps(m: Forest, path: seq<nat>, f: Forest, x: nat, y: nat)
    requires WF(m) && Descend(m, path) == Some(f) && WF(ReplaceAt(m, path, Delete(f, x)))
    requires x in f.values && y in Ids(m) && y !in Sub(f, x)
    ensures Keeps(m, ReplaceAt(m, path, Delete(f, x)), path, y)
  {
    if y in Ids(f) {
      DescendWF(m, path);
      IdsSplit(f, x);
      OtherIdsRemove(f, Delete(f, x), x);
      DeleteLookup(f, x, y);
    }
    ChangeKeeps(m, path, f, Delete(f, x), y);
  }

  // ---------------------------------------------------------------------------------------------
  // Frames of the store

  /**
   * Block `y`, after the store changed the map at `path`: findBlockById finds it before and after
   * with the same content; unchanged when it is not on the path; with the same children's keys
   * unless it owns the changed map.
   */
  ghost predicate Kept(st: Store, st': Store, path: seq<nat>, y: nat) {
    && FindBlockById(st, y).Ok? && FindBlockById(st', y).Ok?
    && var b := FindBlockById(st, y).value.block;
       var b' := FindBlockById(st', y).value.block;
       && b'.content == b.content
       && (y !in path ==> b' == b)
       && (y != Owner(path) ==> b'.children.keys == b.children.keys)
  }

  /** In consistent stores, what the tree keeps of a block cached in both is what findBlockById keeps. */
  lemma KeepsKept(st: Store, st': Store, path: seq<nat>, y: nat)
    requires Consistent(st.doc, st.parents) && Consistent(st'.doc, st'.parents)
    requires y in st.parents && y in st'.parents && Keeps(st.doc, st'.doc, path, y)
    ensures Kept(st, st', path, y)
  {
    FindIsLookup(st, y);
    FindIsLookup(st', y);
  }

  /** A new block added to the map at `path` of a consistent store keeps every cached block. */
  lemma InsertKept(st: Store, st': Store, path: seq<nat>, f: Forest, b: Block, index: nat, y: nat)
    requires Consistent(st.doc, st.parents) && Consistent(st'.doc, st'.parents)
    requires Descend(st.doc, path) == Some(f) && st'.doc == ReplaceAt(st.doc, path, Insert(f, b.id, index, b))
    requires b.id !in st.parents && y in st.parents && y in st'.parents
    ensures Kept(st, st', path, y)
  {
    DescendIds(st.doc, path);
    InsertKeeps(st.doc, path, f, b, index, y);
    KeepsKept(st, st', path, y);
  }

  /** Block `x` removed from the map at `path` of a consistent store keeps every block outside its subtree. */
  lemma DeleteKept(st: Store, st': Store, path: seq<nat>, f: Forest, x: nat, y: nat)
    requires Consistent(st.doc, st.parents) && Consistent(st'.doc, st'.parents)
    requires Descend(st.doc, path) == Some(f) && x in f.values && st'.doc == ReplaceAt(st.doc, path, Delete(f, x))
    requires y in st.parents && y in st'.parents && y !in Sub(f, x)
    ensures Kept(st, st', path, y)
  {
    DeleteKeeps(st.doc, path, f, x, y);
    KeepsKept(st, st', path, y);
  }

  /**
   * An insert changes only the parent's map: every block cached before keeps its content, blocks
   * off the path to the parent are unchanged, and only the parent's children gain a key.
   */
  lemma InsertOneFrame(st: Store, op: InsertOp, y: nat)
    requires Inv(st) && InsertOne(st, op).Ok? && y in st.parents
    ensures Owner(FindMapByParent(st, op.parent).value.path) == op.parent
    ensures Kept(st, InsertOne(st, op).value, FindMapByParent(st, op.parent).value.path, y)
  {
    var f := FindMapByParent(st, op.parent).value;
    var b := Block(st.counter.last + 1, op.content, Empty());
    InsertOneInv(st, op);
    InsertOneFound(st, op);
    InsertKept(st, InsertOne(st, op).value, f.path, f.forest, b, op.index, y);
  }

  /**
   * A delete changes only the map that held the block: every block that stays cached keeps its
   * content, blocks off the path to that map are unchanged, and only the deleted block's parent
   * loses a child's key.
   */
  lemma DeleteOneFrame(st: Store, x: nat, y: nat)
    requires Inv(st) && x in st.parents && y in DeleteOne(st, x).parents
    ensures FindBlockById(st, x).Ok? && Owner(FindBlockById(st, x).value.at.path) == st.parents[x]
    ensures Kept(st, DeleteOne(st, x), FindBlockById(st, x).value.at.path, y)
  {
    DeleteOneDetaches(st, x);
    var l := FindBlockById(st, x).value;
    DeleteOneFound(st, x);
    assert Sub(l.at.forest, x) == {x} + Ids(l.block.children);
    DeleteKept(st, DeleteOne(st, x), l.at.path, l.at.forest, x, y);
  }

  /**
   * A duplicate changes only the original's map: every block cached before keeps its content,
   * blocks off the path to that map are unchanged, and only the original's parent gains a child's key.
   */
  lemma DuplicateFrame(st: Store, x: nat, y: nat)
    requires Inv(st) && Duplicate(st, x).Ok? && y in st.parents
    ensures FindBlockById(st, x).Ok? && Owner(FindBlockById(st, x).value.at.path) == st.parents[x]
    ensures Kept(st, Duplicate(st, x).value.store, FindBlockById(st, x).value.at.path, y)
  {
    var l := FindBlockById(st, x).value;
    var d := Duplicate(st, x).value;
    DuplicateLinks(st, x);
    DuplicateConsistent(st, x);
    DuplicateDoc(st, x);
    InsertKept(st, d.store, l.at.path, l.at.forest, d.copy, l.index + 1, y);
  }

  /** A duplicate leaves a consistent store. */
  lemma DuplicateConsistent(st: Store, x: nat)
    requires Inv(st) && Duplicate(st, x).Ok?
    ensures Consistent(Duplicate(st, x).value.store.doc, Duplicate(st, x).value.store.parents)
  {
    DuplicateInv(st, x);
  }

  /**
   * A move is a delete then an insert, and each step keeps what its own frame promises for every
   * block outside the moved subtree: the first for the old parent's map, the second for the new
   * parent's map as it is once the block has left.
   */
  lemma MoveFrame(st: Store, x: nat, q: nat, index: nat, y: nat)
    requires Inv(st) && MoveAllowed(st, x, q)
    requires y in st.parents && y != x && y !in Ids(FindBlockById(st, x).value.block.children)
    ensures FindMapByParent(DeleteOne(st, x), q).Ok?
    ensures Owner(FindMapByParent(DeleteOne(st, x), q).value.path) == q
    ensures Kept(st, DeleteOne(st, x), FindBlockById(st, x).value.at.path, y)
    ensures Kept(DeleteOne(st, x), Move(st, x, q, index).store, FindMapByParent(DeleteOne(st, x), q).value.path, y)
  {
    StaysCached(st, x, y);
    DeleteOneFrame(st, x, y);
    MoveInsertKept(st, x, q, index, y);
  }

  /** A cached block outside the deleted subtree keeps its cache entry. */
  lemma StaysCached(st: Store, x: nat, y: nat)
    requires Consistent(st.doc, st.parents) && x in st.parents && y in st.parents
    requires FindBlockById(st, x).Ok? && y != x && y !in Ids(FindBlockById(st, x).value.block.children)
    ensures y in DeleteOne(st, x).parents
  {
    DeleteOneDetaches(st, x);
  }

  /** The second step of a move: inserting the block into the new parent's map keeps every block left. */
  lemma MoveInsertKept(st: Store, x: nat, q: nat, index: nat, y: nat)
    requires Inv(st) && MoveAllowed(st, x, q) && y in DeleteOne(st, x).parents
    ensures FindMapByParent(DeleteOne(st, x), q).Ok?
    ensures Kept(DeleteOne(st, x), Move(st, x, q, index).store, FindMapByParent(DeleteOne(st, x), q).value.path, y)
  {
    var b := FindBlockById(st, x).value.block;
    var del := DeleteOne(st, x);
    FoundBlockFacts(st, x);
    DeleteOneDetaches(st, x);
    MoveStore(st, x, q, index);
    MoveAttach(st, x, q, index);
    var f := FindMapByParent(del, q).value;
    InsertKept(del, Move(st, x, q, index).store, f.path, f.forest, b, index, y);
  }

  /** Where the moved subtree sits before the move: below the moved block in the tree. */
  lemma MovedBefore(st: Store, x: nat, y: nat)
    requires Consistent(st.doc, st.parents) && x in st.parents
    requires FindBlockById(st, x).Ok? && y in {x} + Ids(FindBlockById(st, x).value.block.children)
    ensures var b := FindBlockById(st, x).value.block;
            Lookup(st.doc, y) == (if y == x then Some(b) else Lookup(b.children, y))
  {
    var l := FindBlockById(st, x).value;
    FoundFacts(st, st.parents[x]);
    IdsSplit(l.at.forest, x);
    LookupDescend(st.doc, l.at.path, y);
    if y == x {
      LookupTop(l.at.forest, x);
    } else {
      LookupBelow(l.at.forest, x, y);
    }
  }

  /** Where the moved subtree sits after the move: below the block inserted into the new map. */
  lemma MovedAfter(m: Forest, path: seq<nat>, f: Forest, b: Block, index: nat, y: nat)
    requires Descend(m, path) == Some(f) && WF(ReplaceAt(m, path, Insert(f, b.id, index, b)))
    requires y == b.id || y in Ids(b.children)
    ensures Lookup(ReplaceAt(m, path, Insert(f, b.id, index, b)), y) == (if y == b.id then Some(b) else Lookup(b.children, y))
  {
    var n := Insert(f, b.id, index, b);
    ReplacedWF(m, path, n);
    IdsSplit(n, b.id);
    InsertedLookup(f, b, index, y);
    ReplaceInside(m, path, n, y);
  }

  /** The moved block and every block below it are found after the move exactly as before. */
  lemma MoveSubtree(st: Store, x: nat, q: nat, index: nat, y: nat)
    requires Inv(st) && MoveAllowed(st, x, q)
    requires y == x || y in Ids(FindBlockById(st, x).value.block.children)
    ensures FindBlockById(st, y).Ok? && FindBlockById(Move(st, x, q, index).store, y).Ok?
    ensures FindBlockById(Move(st, x, q, index).store, y).value.block == FindBlockById(st, y).value.block
  {
    var b := FindBlockById(st, x).value.block;
    var del := DeleteOne(st, x);
    var st' := Move(st, x, q, index).store;
    FoundBlockFacts(st, x);
    MoveStore(st, x, q, index);
    MoveOk(st, x, q, index);
    var f := FindMapByParent(del, q).value;
    MovedBefore(st, x, y);
    MovedAfter(del.doc, f.path, f.forest, b, index, y);
    FindIsLookup(st, y);
    FindIsLookup(st', y);
  }
}
