/**
 * The situations of crafttask/orderedmap_test.go and crafttask/store_test.go, stated as lemmas
 * about the model: each test's steps applied to the store it starts from, with the outcome its
 * assertions expect, in the order the tests run in one process and, where that order matters,
 * run first in a process of their own.
 */
module Scenarios {
  import opened Wrappers
  import opened OrderedMap
  import opened Models
  import opened IdCounter
  import opened StoreState
  import opened StoreOps
  import opened AsWritten
  import opened Paths

  /** The ordered-map test of Insert: Set of one key, then Insert of another at index 0. */
  lemma InsertInFront<V>(k1: nat, k2: nat, b1: V, b2: V)
    requires k1 != k2
    ensures Insert(Set(Empty(), k1, b1), k2, 0, b2).keys == [k2, k1]
    ensures GetAndIndex(Insert(Set(Empty(), k1, b1), k2, 0, b2), k2) == Some((b2, 0))
  {
    var m := Set(Empty(), k1, b1);
    SetOnEmpty(k1, b1);
    FrontOfOne(m, k2, b2, k1);
  }

  /** The first step of the ordered-map tests: Set of one key into an empty map. */
  lemma SetOnEmpty<V>(k: nat, b: V)
    ensures Set(Empty(), k, b).keys == [k] && Valid(Set(Empty(), k, b))
  {
  }

  /** The second step of the Insert test: a new key inserted at 0 into a one-key map goes first. */
  lemma FrontOfOne<V>(m: OMap<V>, k2: nat, b2: V, k1: nat)
    requires Valid(m) && m.keys == [k1] && k2 != k1
    ensures Insert(m, k2, 0, b2).keys == [k2, k1]
    ensures GetAndIndex(Insert(m, k2, 0, b2), k2) == Some((b2, 0))
  {
    InsertFront(m, k2, b2);
    InsertThenFind(m, k2, 0, b2);
  }

  /**
   * Two keys set one after the other into an empty map keep that order, so OrderedValues lists
   * their values in the order they were set.
   */
  lemma SetInOrder<V>(k1: nat, k2: nat, b1: V, b2: V)
    requires k1 != k2
    ensures Set(Set(Empty(), k1, b1), k2, b2).keys == [k1, k2]
    ensures Valid(Set(Set(Empty(), k1, b1), k2, b2))
  {
    SetOnEmpty(k1, b1);
  }

  /** A key set and then deleted is gone again. */
  lemma SetThenDelete<V>(k: nat, b: V)
    ensures Get(Delete(Set(Empty(), k, b), k), k) == None
    ensures Delete(Set(Empty(), k, b), k).keys == []
  {
    SetOnEmpty(k, b);
  }

  /** An insert at the top level places the new empty block in the top-level map. */
  lemma TopInsert(st: Store, op: InsertOp)
    requires op.parent == Root
    ensures var id := st.counter.last + 1;
            InsertOne(st, op)
              == Ok(Store(Insert(st.doc, id, op.index, Block(id, op.content, Empty())), st.parents[id := Root], Counter(id)))
  {
    InsertOneFound(st, op);
  }

  /** Two new keys inserted at 0 and then at 1 into an empty map: they come out in that order. */
  lemma TwoInOrder<V>(m: OMap<V>, k1: nat, k2: nat, b1: V, b2: V)
    requires Valid(m) && m.keys == [] && k1 != k2
    ensures Valid(Insert(m, k1, 0, b1)) && Insert(m, k1, 0, b1).keys == [k1]
    ensures Insert(Insert(m, k1, 0, b1), k2, 1, b2).keys == [k1, k2]
  {
    InsertPastEndAppends(m, k1, 0, b1);
    InsertPastEndAppends(Insert(m, k1, 0, b1), k2, 1, b2);
  }

  /** The store tests' first batch: two top-level blocks, at indexes 0 and 1. */
  function TwoAtTop(c1: string, c2: string): seq<InsertOp> {
    [InsertOp(Root, c1, 0), InsertOp(Root, c2, 1)]
  }

  /** A batch of two operations that both succeed ends with the store after the second. */
  lemma RunTwo(st: Store, ops: seq<InsertOp>)
    requires |ops| == 2 && InsertOne(st, ops[0]).Ok? && InsertOne(InsertOne(st, ops[0]).value, ops[1]).Ok?
    ensures InsertBlocks(st, ops) == Outcome(InsertOne(InsertOne(st, ops[0]).value, ops[1]).value, None)
  {
    var st1 := InsertOne(st, ops[0]).value;
    assert ops[1..][1..] == [];
    assert InsertBlocks(st1, ops[1..]) == InsertBlocks(InsertOne(st1, ops[1]).value, []);
  }

  /** Two blocks inserted at the top level, at indexes 0 and 1, both linked to Root: both are found. */
  lemma FoundBoth(st: Store, m: Forest, b1: Block, b2: Block)
    requires Valid(m) && m.keys == [] && b1.id != b2.id
    requires st.doc == Insert(Insert(m, b1.id, 0, b1), b2.id, 1, b2)
    requires b1.id in st.parents && st.parents[b1.id] == Root && b2.id in st.parents && st.parents[b2.id] == Root
    ensures st.doc.keys == [b1.id, b2.id]
    ensures FindBlockById(st, b1.id).Ok? && FindBlockById(st, b1.id).value.block == b1
    ensures FindBlockById(st, b2.id).Ok? && FindBlockById(st, b2.id).value.block == b2
  {
    TwoInOrder(m, b1.id, b2.id, b1, b2);
    var m1 := Insert(m, b1.id, 0, b1);
    FindInserted(st, Root, [], m1, b2, 1);
    FindBeforeInserted(st, Root, [], m1, b2, 1, 0);
  }

  /**
   * Two inserts at the top level of an empty document, at indexes 0 and 1, succeed; the blocks
   * get the next two ids and are found with their contents, in that order.
   */
  lemma InsertTwo(st: Store, c1: string, c2: string)
    requires st.doc.keys == [] && Valid(st.doc)
    ensures var out := InsertBlocks(st, TwoAtTop(c1, c2));
            var id := st.counter.last + 1;
            && out.error == None
            && out.store.doc.keys == [id, id + 1]
            && FindBlockById(out.store, id).Ok? && FindBlockById(out.store, id).value.block.content == c1
            && FindBlockById(out.store, id + 1).Ok? && FindBlockById(out.store, id + 1).value.block.content == c2
            && out.store.counter == Counter(id + 1)
  {
    var id := st.counter.last + 1;
    var b1, b2 := Block(id, c1, Empty()), Block(id + 1, c2, Empty());
    TwoAtTopRun(st, c1, c2);
    var st2 := Store(Insert(Insert(st.doc, id, 0, b1), id + 1, 1, b2), st.parents[id := Root][id + 1 := Root], Counter(id + 1));
    FoundBoth(st2, st.doc, b1, b2);
  }

  /** The batch of two top-level inserts, spelled out: both blocks placed, both linked to Root. */
  lemma TwoAtTopRun(st: Store, c1: string, c2: string)
    ensures var id := st.counter.last + 1;
            InsertBlocks(st, TwoAtTop(c1, c2))
              == Outcome(Store(Insert(Insert(st.doc, id, 0, Block(id, c1, Empty())), id + 1, 1, Block(id + 1, c2, Empty())),
                               st.parents[id := Root][id + 1 := Root], Counter(id + 1)), None)
  {
    var ops := TwoAtTop(c1, c2);
    TopInsert(st, ops[0]);
    var st1 := InsertOne(st, ops[0]).value;
    TopInsert(st1, ops[1]);
    RunTwo(st, ops);
  }

  /**
   * The store test's insert, the first test of the process: the counter has issued nothing, so
   * the two blocks get ids 1 and 2, and they keep their contents.
   */
  lemma InsertTest()
    ensures var out := InsertBlocks(NewStore(Start()), TwoAtTop("Block 1", "Block 2"));
            && out.error == None
            && FindBlockById(out.store, 1).Ok? && FindBlockById(out.store, 1).value.block.content == "Block 1"
            && FindBlockById(out.store, 2).Ok? && FindBlockById(out.store, 2).value.block.content == "Block 2"
  {
    var st := NewStore(Start());
    assert st.counter.last + 1 == 1 && st.doc.keys == [] && Valid(st.doc);
    InsertTwo(st, "Block 1", "Block 2");
  }

  /** The store test's delete: once block 1 is deleted, looking it up fails with errBlockDoesNotExist. */
  lemma DeleteTest()
    ensures var st := InsertBlocks(NewStore(Start()), TwoAtTop("Block 1", "Block 2")).store;
            FindBlockById(DeleteBlocks(st, [1]), 1) == Err(BlockDoesNotExist)
  {
    var st := InsertBlocks(NewStore(Start()), TwoAtTop("Block 1", "Block 2")).store;
    InsertBlocksInv(NewStore(Start()), TwoAtTop("Block 1", "Block 2"));
    DeleteBlocksSpec(st, [1]);
  }

  /**
   * The store test's fetch: blocks 1 and 2 come back in request order with their contents, while
   * fetch as written, whose lookups return because both blocks are at the top level, returns four
   * blocks where the test expects two.
   */
  lemma FetchTest(fuel: nat)
    requires fuel > 0
    ensures var st := InsertBlocks(NewStore(Start()), TwoAtTop("Block 1", "Block 2")).store;
            && |Fetch(st, [1, 2])| == 2
            && Fetch(st, [1, 2])[0].content == "Block 1" && Fetch(st, [1, 2])[1].content == "Block 2"
            && FetchAsWritten(st, [1, 2], fuel).Some?
            && |FetchAsWritten(st, [1, 2], fuel).value| == 4
  {
    var st := InsertBlocks(NewStore(Start()), TwoAtTop("Block 1", "Block 2")).store;
    InsertTest();
    assert [1, 2][1..] == [2] && [2][1..] == [];
    assert Fetch(st, [1, 2]) == [FindBlockById(st, 1).value.block] + Fetch(st, [2]);
    assert Fetch(st, [2]) == [FindBlockById(st, 2).value.block] + Fetch(st, []);
    FetchTestAsWritten(fuel);
  }

  /** The as-written half of the store test's fetch. */
  lemma FetchTestAsWritten(fuel: nat)
    requires fuel > 0
    ensures var st := InsertBlocks(NewStore(Start()), TwoAtTop("Block 1", "Block 2")).store;
            FetchAsWritten(st, [1, 2], fuel).Some? && |FetchAsWritten(st, [1, 2], fuel).value| == 4
  {
    var st := InsertBlocks(NewStore(Start()), TwoAtTop("Block 1", "Block 2")).store;
    InsertTwo(NewStore(Start()), "Block 1", "Block 2");
    InsertBlocksInv(NewStore(Start()), TwoAtTop("Block 1", "Block 2"));
    FetchTopTwo(st, fuel);
  }

  /** fetch as written for two top-level blocks returns, with two zero blocks in front of them. */
  lemma FetchTopTwo(st: Store, fuel: nat)
    requires Inv(st) && st.doc.keys == [1, 2] && fuel > 0
    ensures FetchAsWritten(st, [1, 2], fuel).Some?
    ensures |FetchAsWritten(st, [1, 2], fuel).value| == 4
  {
    TopEnds(st, 1);
    TopEnds(st, 2);
    assert AllEnd(st.parents, [1, 2]);
    FetchAsWrittenDoubles(st, [1, 2], fuel);
  }

  /** findBlockById as written returns for a top-level block. */
  lemma TopEnds(st: Store, k: nat)
    requires Inv(st) && k in st.doc.keys
    ensures k in st.parents && FindEnds(st.parents, k)
  {
    assert k in st.doc.values;
  }

  /** The store after inserting the child: the top-level block now holds it. */
  lemma ChildDoc(st: Store, b: Block, op: InsertOp)
    requires st.doc.keys == [b.id] && b.id in st.doc.values && st.doc.values[b.id] == b
    requires FindMapByParent(st, b.id) == Ok(Found([b.id], Empty()))
    requires b.children == Empty() && op.parent == b.id && op.index == 0
    ensures var id := st.counter.last + 1;
            InsertOne(st, op) == Ok(Store(OMap([b.id], st.doc.values[b.id := b.(children := Insert(Empty(), id, 0, Block(id, op.content, Empty())))]),
                                          st.parents[id := b.id], Counter(id)))
  {
    InsertOneFound(st, op);
  }

  /** A block alone at the top level and linked to Root is found at index 0 of the top-level map. */
  lemma TopAlone(st: Store, b: Block)
    requires st.doc.keys == [b.id] && st.doc.values.Keys == {b.id} && st.doc.values[b.id] == b
    requires b.id != Root && b.id in st.parents && st.parents[b.id] == Root
    ensures FindBlockById(st, b.id) == Ok(Located(b, 0, Found([], st.doc)))
  {
    GetAndIndexUnique(st.doc, b.id, 0);
    FindBlockByIdFrom(st, b.id, Found([], st.doc), (b, 0));
  }

  /** The top-level block of a one-block store resolves to its (empty) children map. */
  lemma OnlyChildMap(st: Store, b: Block)
    requires Inv(st) && st.doc.keys == [b.id] && b.id in st.doc.values && st.doc.values[b.id] == b
    requires b.children == Empty() && b.id in st.parents && st.parents[b.id] == Root
    ensures FindMapByParent(st, b.id) == Ok(Found([b.id], Empty()))
  {
    FindMapByParentSpec(st, b.id);
    TopAlone(st, b);
    assert FindMapByParent(st, b.id).value.path == [b.id];
  }

  /** A block with one childless child duplicates into a copy of the same shape. */
  lemma DuplicateOneChild(st: Store, x: nat, c: string, y: nat, cc: string)
    requires Inv(st) && FindBlockById(st, x).Ok?
    requires FindBlockById(st, x).value.block == Block(x, c, Insert(Empty(), y, 0, Block(y, cc, Empty())))
    ensures Duplicate(st, x).Ok?
    ensures ShapeOf(Duplicate(st, x).value.copy) == Shape(c, [Shape(cc, [])])
  {
    DuplicateInv(st, x);
    ShapeOneChild(x, c, y, cc);
  }

  /** The shape of a block with one childless child. */
  lemma ShapeOneChild(x: nat, c: string, y: nat, cc: string)
    ensures ShapeOf(Block(x, c, Insert(Empty(), y, 0, Block(y, cc, Empty())))) == Shape(c, [Shape(cc, [])])
  {
    var kids := Insert(Empty(), y, 0, Block(y, cc, Empty()));
    InsertPastEndAppends(Empty(), y, 0, Block(y, cc, Empty()));
    assert kids.keys == [y] && kids.values[y] == Block(y, cc, Empty());
    assert ShapeOf(Block(y, cc, Empty())) == Shape(cc, []);
    assert [y][1..] == [];
    assert ShapesOf(kids, [y]) == [Shape(cc, [])] + ShapesOf(kids, []);
  }

  /** One block inserted at the top level of a new store: block 1, alone, linked to Root. */
  lemma OneAtTop(c: string)
    ensures var st := InsertBlocks(NewStore(Start()), [InsertOp(Root, c, 0)]).store;
            && Inv(st)
            && st.doc.keys == [1] && st.doc.values.Keys == {1} && st.doc.values[1] == Block(1, c, Empty())
            && 1 in st.parents && st.parents[1] == Root && st.counter.last == 1
  {
    var st0 := NewStore(Start());
    var op := InsertOp(Root, c, 0);
    TopInsert(st0, op);
    InsertOneInv(st0, op);
    var st1 := InsertOne(st0, op).value;
    assert InsertBlocks(st0, [op]) == Outcome(st1, None);
    InsertPastEndAppends(st0.doc, 1, 0, Block(1, c, Empty()));
  }

  /** The store test's setup for duplicate: block 1 at the top level, with block 2 under it. */
  lemma ParentAndChild(c: string, cc: string)
    ensures var st := InsertBlocks(InsertBlocks(NewStore(Start()), [InsertOp(Root, c, 0)]).store, [InsertOp(1, cc, 0)]).store;
            && FindBlockById(st, 1).Ok?
            && FindBlockById(st, 1).value.block == Block(1, c, Insert(Empty(), 2, 0, Block(2, cc, Empty())))
  {
    var st1 := InsertBlocks(NewStore(Start()), [InsertOp(Root, c, 0)]).store;
    var op := InsertOp(1, cc, 0);
    var b := Block(1, c, Empty());
    OneAtTop(c);
    var b' := b.(children := Insert(Empty(), 2, 0, Block(2, cc, Empty())));
    OnlyChildMap(st1, b);
    ChildDoc(st1, b, op);
    var st2 := InsertOne(st1, op).value;
    assert st2.doc.values.Keys == {1};
    TopAlone(st2, b');
    assert InsertBlocks(st1, [op]) == Outcome(st2, None);
  }

  /**
   * The store test's duplicate: block 1 with one child, duplicated, gives a copy with the content
   * of block 1 and one child with the content of the original child.
   */
  lemma DuplicateTest()
    ensures var st := InsertBlocks(InsertBlocks(NewStore(Start()), [InsertOp(Root, "Block 1", 0)]).store,
                                   [InsertOp(1, "Child Block 1", 0)]).store;
            && Duplicate(st, 1).Ok?
            && ShapeOf(Duplicate(st, 1).value.copy) == Shape("Block 1", [Shape("Child Block 1", [])])
  {
    var st := InsertBlocks(InsertBlocks(NewStore(Start()), [InsertOp(Root, "Block 1", 0)]).store,
                           [InsertOp(1, "Child Block 1", 0)]).store;
    var st1 := InsertBlocks(NewStore(Start()), [InsertOp(Root, "Block 1", 0)]).store;
    InsertBlocksInv(NewStore(Start()), [InsertOp(Root, "Block 1", 0)]);
    InsertBlocksInv(st1, [InsertOp(1, "Child Block 1", 0)]);
    ParentAndChild("Block 1", "Child Block 1");
    DuplicateOneChild(st, 1, "Block 1", 2, "Child Block 1");
  }

  // ---------------------------------------------------------------------------------------------
  // The store tests run one after the other in one process

  /**
   * A store created once the shared counter has issued ids: its first block takes the next id,
   * so no block 1 exists, and the next insert under parent 1 stops with errBlockDoesNotExist, as
   * does duplicating block 1.
   */
  lemma ParentOneMissing(c: Counter, content: string, childContent: string)
    requires c.last >= 1
    ensures var first := InsertBlocks(NewStore(c), [InsertOp(Root, content, 0)]);
            && first.error == None
            && first.store.parents == map[c.last + 1 := Root]
            && InsertBlocks(first.store, [InsertOp(1, childContent, 0)]) == Outcome(first.store, Some(BlockDoesNotExist))
            && Duplicate(first.store, 1) == Err(BlockDoesNotExist)
  {
    var op := InsertOp(Root, content, 0);
    var st1 := InsertOne(NewStore(c), op).value;
    assert InsertBlocks(NewStore(c), [op]) == Outcome(st1, None);
    assert 1 !in st1.parents;
    assert InsertOne(st1, InsertOp(1, childContent, 0)).Err?;
  }

  /**
   * The store tests in file order, in one process: the insert test takes ids 1 and 2, the delete
   * test's store takes 3 and 4, so the duplicate test's first block is block 5, its insert under
   * the hard-coded parent 1 fails, and so does its duplicate of block 1.
   */
  lemma DuplicateTestInSuite()
    ensures var afterInsert := InsertBlocks(NewStore(Start()), TwoAtTop("Block 1", "Block 2")).store.counter;
            var afterDelete := InsertBlocks(NewStore(afterInsert), TwoAtTop("Block 1", "Block 2")).store.counter;
            var first := InsertBlocks(NewStore(afterDelete), [InsertOp(Root, "Block 1", 0)]);
            && afterDelete == Counter(4)
            && first.store.parents == map[5 := Root]
            && InsertBlocks(first.store, [InsertOp(1, "Child Block 1", 0)]).error == Some(BlockDoesNotExist)
            && Duplicate(InsertBlocks(first.store, [InsertOp(1, "Child Block 1", 0)]).store, 1) == Err(BlockDoesNotExist)
  {
    TwoTaken(Start());
    TwoTaken(Counter(2));
    ParentOneMissing(Counter(4), "Block 1", "Child Block 1");
  }

  /**
   * The store tests in file order, in one process: after the insert test the delete test's
   * blocks are 3 and 4, so its delete of block 1 is skipped and leaves the store as it was, and
   * its lookup of block 1 fails although nothing was deleted.
   */
  lemma DeleteTestInSuite()
    ensures var afterInsert := InsertBlocks(NewStore(Start()), TwoAtTop("Block 1", "Block 2")).store.counter;
            var st := InsertBlocks(NewStore(afterInsert), TwoAtTop("Block 1", "Block 2")).store;
            && afterInsert == Counter(2)
            && st.parents == map[3 := Root, 4 := Root]
            && DeleteBlocks(st, [1]) == st
            && FindBlockById(DeleteBlocks(st, [1]), 1) == Err(BlockDoesNotExist)
  {
    TwoTaken(Start());
    var ops := TwoAtTop("Block 1", "Block 2");
    var s0 := NewStore(Counter(2));
    TopInsert(s0, ops[0]);
    var st1 := InsertOne(s0, ops[0]).value;
    TopInsert(st1, ops[1]);
    RunTwo(s0, ops);
    DeleteBlocksAbsent(InsertBlocks(s0, ops).store, [1]);
  }

  /** The store tests' two top-level inserts take two ids from the shared counter. */
  lemma TwoTaken(c: Counter)
    ensures InsertBlocks(NewStore(c), TwoAtTop("Block 1", "Block 2")).store.counter == Counter(c.last + 2)
  {
    InsertTwo(NewStore(c), "Block 1", "Block 2");
  }
}
