/**
 * The document's data model (crafttask/models.go, crafttask/errors.go): blocks whose children are
 * an ordered map of blocks, the root sentinel, the store's errors, and the predicates that say when
 * a forest of blocks is well formed and when a parent cache describes it.
 */
module Models {
  import opened Wrappers
  import opened OrderedMap

  /** The sentinel id for "the document's top level"; never the id of a block. */
  const Root: nat := 0

  /** A block owns its children; Go's `*orderedMapOfBlocks` pointer becomes a value here. */
  datatype Block = Block(id: nat, content: string, children: Forest)

  /** An ordered map of blocks: the document's top level, or some block's children. */
  type Forest = OMap<Block>

  /**
   * The three errors of crafttask/errors.go, plus InconsistentState for the places where the
   * source panics with "inconsistent internal state" (or, for a cyclic cache, would loop forever).
   */
  datatype Error = BlockDoesNotExist | ParentBlockDoesNotExist | BlockMovedToItsChild | InconsistentState

  /** Every id that is a key somewhere in the forest, at any depth. */
  function Ids(m: Forest): set<nat>
    decreases m
  {
    m.values.Keys + (set k, x | k in m.values && x in Ids(m.values[k].children) :: x)
  }

  /** The ids of the subtree under key `k`: `k` and all of its descendants. */
  function Sub(m: Forest, k: nat): set<nat>
    requires k in m.values
  {
    {k} + Ids(m.values[k].children)
  }

  /** The ids of the forest that are not in the subtree under `key`. */
  function OtherIds(m: Forest, key: nat): set<nat> {
    (m.values.Keys - {key}) + (set k, x | k in m.values && k != key && x in Ids(m.values[k].children) :: x)
  }

  /**
   * A well-formed forest: every ordered map is valid, every block is stored under its own id,
   * no block is stored under Root, and no id occurs twice anywhere in the forest.
   */
  ghost predicate WF(m: Forest)
    decreases m
  {
    && Valid(m)
    && (forall k | k in m.values ::
          && k != Root
          && m.values[k].id == k
          && k !in Ids(m.values[k].children)
          && WF(m.values[k].children))
    && (forall j, k | j in m.values && k in m.values && j != k ::
          && j !in Ids(m.values[k].children)
          && Ids(m.values[j].children) !! Ids(m.values[k].children))
  }

  /** The parent cache records the true parent of every block of the forest whose owner is `p`. */
  ghost predicate Agrees(cache: map<nat, nat>, m: Forest, p: nat)
    decreases m
  {
    forall k | k in m.values ::
      && k in cache
      && cache[k] == p
      && Agrees(cache, m.values[k].children, k)
  }

  /** The content of a block and, in key order, of its descendants: a block tree without its ids. */
  datatype Shape = Shape(content: string, children: seq<Shape>)

  function ShapeOf(b: Block): Shape
    decreases b, 1
  {
    Shape(b.content, ShapesOf(b.children, b.children.keys))
  }

  function ShapesOf(m: Forest, ks: seq<nat>): seq<Shape>
    decreases m, |ks|
  {
    if |ks| == 0 then []
    else if ks[0] in m.values then [ShapeOf(m.values[ks[0]])] + ShapesOf(m, ks[1..])
    else ShapesOf(m, ks[1..])
  }

  /**
   * The block stored under `y` anywhere in the forest: the keys in order, each key itself before
   * the blocks below it. This searches the tree alone, without the parent cache, and is the
   * reference for what findBlockById resolves through the cache.
   */
  function Lookup(m: Forest, y: nat): Option<Block> {
    LookupAmong(m, m.keys, y)
  }

  function LookupAmong(m: Forest, ks: seq<nat>, y: nat): Option<Block>
    decreases m, |ks|
  {
    if |ks| == 0 then None
    else if ks[0] !in m.values then LookupAmong(m, ks[1..], y)
    else if ks[0] == y then Some(m.values[y])
    else
      var c := m.values[ks[0]].children;
      var below := LookupAmong(c, c.keys, y);
      if below.Some? then below else LookupAmong(m, ks[1..], y)
  }

  // ---------------------------------------------------------------------------------------------
  // Lemmas about ids

  lemma IdsSplit(m: Forest, key: nat)
    ensures key in m.values ==> Ids(m) == OtherIds(m, key) + Sub(m, key)
    ensures key !in m.values ==> Ids(m) == OtherIds(m, key)
  {
  }

  /** Replacing or adding the block under `key` leaves the ids outside its subtree alone. */
  lemma OtherIdsUpdate(m: Forest, r: Forest, key: nat, b: Block)
    requires r.values == m.values[key := b]
    ensures OtherIds(r, key) == OtherIds(m, key)
    ensures Ids(r) == OtherIds(m, key) + {key} + Ids(b.children)
  {
    OtherIdsFrame(m, r, key);
    IdsSplit(r, key);
  }

  /** OtherIds only looks at the blocks under keys other than `key`. */
  lemma OtherIdsFrame(m: Forest, r: Forest, key: nat)
    requires forall k | k != key :: k in r.values <==> k in m.values
    requires forall k | k in m.values && k != key :: k in r.values && r.values[k] == m.values[k]
    ensures OtherIds(r, key) == OtherIds(m, key)
  {
    forall x | x in OtherIds(r, key) ensures x in OtherIds(m, key) {
      if x !in r.values.Keys - {key} {
        var k :| k in r.values && k != key && x in Ids(r.values[k].children);
        assert r.values[k] == m.values[k];
      }
    }
    forall x | x in OtherIds(m, key) ensures x in OtherIds(r, key) {
      if x !in m.values.Keys - {key} {
        var k :| k in m.values && k != key && x in Ids(m.values[k].children);
        assert r.values[k] == m.values[k];
      }
    }
  }

  /** Removing the block under `key` leaves exactly the ids outside its subtree. */
  lemma OtherIdsRemove(m: Forest, r: Forest, key: nat)
    requires r.values == m.values - {key}
    ensures Ids(r) == OtherIds(m, key)
  {
    IdsSplit(r, key);
    OtherIdsFrame(m, r, key);
  }

  /** In a well-formed forest the subtree under `key` shares no id with the rest. */
  lemma OtherIdsDisjoint(m: Forest, key: nat)
    requires WF(m) && key in m.values
    ensures OtherIds(m, key) !! Sub(m, key)
  {
    var kids := Ids(m.values[key].children);
    assert Sub(m, key) == {key} + kids;
    forall x | x in OtherIds(m, key) ensures x != key && x !in kids {
      if x !in m.values.Keys - {key} {
        var k :| k in m.values && k != key && x in Ids(m.values[k].children);
        assert key !in Ids(m.values[k].children) && Ids(m.values[k].children) !! kids;
      }
    }
  }

  // ---------------------------------------------------------------------------------------------
  // Lemmas about the cache

  /** A cache that describes a forest has an entry for each of its ids. */
  lemma {:induction false} AgreesCovers(cache: map<nat, nat>, m: Forest, p: nat)
    requires Agrees(cache, m, p)
    ensures Ids(m) <= cache.Keys
    decreases m
  {
    forall k | k in m.values ensures Ids(m.values[k].children) <= cache.Keys {
      AgreesCovers(cache, m.values[k].children, k);
    }
  }

  /** Whether a cache describes a forest depends only on the cache's entries for the forest's ids. */
  lemma {:induction false} AgreesFrame(cache: map<nat, nat>, cache': map<nat, nat>, m: Forest, p: nat)
    requires Agrees(cache, m, p)
    requires forall y | y in Ids(m) && y in cache :: y in cache' && cache'[y] == cache[y]
    ensures Agrees(cache', m, p)
    decreases m
  {
    forall k | k in m.values ensures Agrees(cache', m.values[k].children, k) {
      AgreesFrame(cache, cache', m.values[k].children, k);
    }
  }

  // ---------------------------------------------------------------------------------------------
  // Well-formedness under the ordered map's operations

  /** Adding a well-formed subtree under a fresh key keeps the forest well formed. */
  lemma WFInsert(m: Forest, b: Block, index: nat)
    requires WF(m) && WF(b.children)
    requires b.id != Root && b.id !in Ids(b.children)
    requires ({b.id} + Ids(b.children)) !! Ids(m)
    ensures WF(Insert(m, b.id, index, b))
    ensures Ids(Insert(m, b.id, index, b)) == Ids(m) + {b.id} + Ids(b.children)
  {
    var r := Insert(m, b.id, index, b);
    IdsSplit(m, b.id);
    OtherIdsUpdate(m, r, b.id, b);
    WFInsertPairs(m, b, r);
    forall k | k in r.values
      ensures k != Root && r.values[k].id == k && k !in Ids(r.values[k].children) && WF(r.values[k].children)
    {
      if k != b.id { assert r.values[k] == m.values[k]; }
    }
  }

  /** The pairwise half of WFInsert: the new subtree shares no id with any old one. */
  lemma WFInsertPairs(m: Forest, b: Block, r: Forest)
    requires WF(m) && r.values == m.values[b.id := b]
    requires ({b.id} + Ids(b.children)) !! Ids(m)
    ensures forall j, k | j in r.values && k in r.values && j != k ::
              j !in Ids(r.values[k].children) && Ids(r.values[j].children) !! Ids(r.values[k].children)
  {
    forall j, k | j in r.values && k in r.values && j != k
      ensures j !in Ids(r.values[k].children) && Ids(r.values[j].children) !! Ids(r.values[k].children)
    {
      if j == b.id {
        FreshSibling(m, b, k);
      } else if k == b.id {
        FreshSibling(m, b, j);
      } else {
        assert r.values[j] == m.values[j] && r.values[k] == m.values[k];
      }
    }
  }

  /** A subtree whose ids are new to a forest is disjoint from the subtree under each of its keys. */
  lemma FreshSibling(m: Forest, b: Block, k: nat)
    requires k in m.values && ({b.id} + Ids(b.children)) !! Ids(m)
    ensures k != b.id && k !in Ids(b.children)
    ensures b.id !in Ids(m.values[k].children) && Ids(b.children) !! Ids(m.values[k].children)
  {
    assert k in Ids(m);
    assert Ids(m.values[k].children) <= Ids(m);
  }

  /** Removing a key keeps the forest well formed and drops exactly that key's subtree. */
  lemma WFDelete(m: Forest, key: nat)
    requires WF(m) && key in m.values
    ensures WF(Delete(m, key))
    ensures Ids(Delete(m, key)) == Ids(m) - Sub(m, key)
  {
    var r := Delete(m, key);
    OtherIdsRemove(m, r, key);
    IdsSplit(m, key);
    OtherIdsDisjoint(m, key);
    forall j, k | j in r.values && k in r.values && j != k
      ensures j !in Ids(r.values[k].children) && Ids(r.values[j].children) !! Ids(r.values[k].children)
    {
      assert r.values[j] == m.values[j] && r.values[k] == m.values[k];
    }
    forall k | k in r.values
      ensures k != Root && r.values[k].id == k && k !in Ids(r.values[k].children) && WF(r.values[k].children)
    {
      assert r.values[k] == m.values[k];
    }
  }

  /** Replacing the block under `key` by one whose subtree is new to the rest keeps the forest well formed. */
  lemma WFUpdate(m: Forest, key: nat, b: Block)
    requires WF(m) && key in m.values
    requires b.id == key && key !in Ids(b.children) && WF(b.children)
    requires Ids(b.children) !! OtherIds(m, key)
    ensures WF(OMap(m.keys, m.values[key := b]))
  {
    var r := OMap(m.keys, m.values[key := b]);
    forall j, k | j in r.values && k in r.values && j != k
      ensures j !in Ids(r.values[k].children) && Ids(r.values[j].children) !! Ids(r.values[k].children)
    {
      if j == key {
        assert r.values[k] == m.values[k];
        assert Ids(m.values[k].children) <= OtherIds(m, key);
      } else if k == key {
        assert r.values[j] == m.values[j];
        assert Ids(m.values[j].children) <= OtherIds(m, key);
        assert j in OtherIds(m, key);
      } else {
        assert r.values[j] == m.values[j] && r.values[k] == m.values[k];
      }
    }
    forall k | k in r.values
      ensures k != Root && r.values[k].id == k && k !in Ids(r.values[k].children) && WF(r.values[k].children)
    {
      if k != key { assert r.values[k] == m.values[k]; }
    }
  }

  /** A block whose subtree the cache describes can be added under a parent the cache gives it. */
  lemma AgreesInsert(cache: map<nat, nat>, m: Forest, p: nat, b: Block, index: nat)
    requires Agrees(cache, m, p)
    requires b.id in cache && cache[b.id] == p && Agrees(cache, b.children, b.id)
    ensures Agrees(cache, Insert(m, b.id, index, b), p)
  {
    var r := Insert(m, b.id, index, b);
    forall k | k in r.values ensures k in cache && cache[k] == p && Agrees(cache, r.values[k].children, k) {
      if k != b.id { assert r.values[k] == m.values[k]; }
    }
  }

  /** Removing a block and dropping its subtree's cache entries leaves the rest described. */
  lemma AgreesDelete(cache: map<nat, nat>, m: Forest, p: nat, key: nat)
    requires WF(m) && Agrees(cache, m, p) && key in m.values
    ensures Agrees(cache - Sub(m, key), Delete(m, key), p)
  {
    var r := Delete(m, key);
    forall k | k in r.values
      ensures k in cache - Sub(m, key) && (cache - Sub(m, key))[k] == p
      ensures Agrees(cache - Sub(m, key), r.values[k].children, k)
    {
      assert r.values[k] == m.values[k];
      AgreesSibling(cache, m, p, key, k);
    }
  }

  /** A sibling's subtree keeps its description when the cache entries of another subtree go. */
  lemma AgreesSibling(cache: map<nat, nat>, m: Forest, p: nat, key: nat, k: nat)
    requires WF(m) && Agrees(cache, m, p) && key in m.values && k in m.values && k != key
    ensures k !in Sub(m, key) && Ids(m.values[k].children) !! Sub(m, key)
    ensures Agrees(cache - Sub(m, key), m.values[k].children, k)
  {
    var s := Sub(m, key);
    var t := Ids(m.values[k].children);
    var kids := Ids(m.values[key].children);
    assert s == {key} + kids;
    assert key !in t && t !! kids && k !in kids;
    DisjointAdd(t, key, kids);
    MinusKeeps(cache, s, t);
    AgreesFrame(cache, cache - s, m.values[k].children, k);
  }

  /** A set clear of `key` and of `s` is clear of both together. */
  lemma DisjointAdd(t: set<nat>, key: nat, s: set<nat>)
    requires key !in t && t !! s
    ensures t !! ({key} + s)
  {
  }

  /**
   * The set algebra behind adding a subtree with ids `{id} + c` to the map with ids `mi` inside a
   * forest whose other ids are `out`.
   */
  lemma AttachDisjoint(doc: set<nat>, out: set<nat>, mi: set<nat>, id: nat, c: set<nat>)
    requires doc == out + mi && out !! mi && ({id} + c) !! doc
    ensures ({id} + c) !! mi
    ensures (mi + {id} + c) !! out
    ensures out + (mi + {id} + c) == doc + {id} + c
  {
  }

  /** Taking a subtree's ids `{x} + c` out of a set that holds them and putting them back. */
  lemma Reinsert(k: set<nat>, x: nat, c: set<nat>)
    requires {x} + c <= k
    ensures (k - ({x} + c)) + {x} + c == k
    ensures (k - ({x} + c)) !! ({x} + c)
  {
  }

  /** A part of a part of a set is part of the set. */
  lemma PartOfPart(s: set<nat>, o1: set<nat>, a: set<nat>, o2: set<nat>, k: set<nat>)
    requires a == o1 + s && k == o2 + a
    ensures s <= k
  {
  }

  /** Adding the empty set changes nothing; stated over plain sets so callers need not unfold Ids. */
  lemma UnionEmpty(a: set<nat>, b: set<nat>)
    requires b == {}
    ensures a + b == a
  {
  }

  /**
   * The set algebra behind replacing a nested map: the kept part `o` of the old children plus the
   * new ids `n` stay clear of the siblings' ids `other` and of the parent key `k`.
   */
  lemma ReplaceDisjoint(o: set<nat>, d: set<nat>, n: set<nat>, other: set<nat>, k: nat)
    requires other !! ({k} + (o + d)) && k !in o + d
    requires n !! (other + {k} + o)
    ensures (o + n) !! other && k !in o + n
  {
  }

  /** Removing the keys of `s` from a map keeps its entries for the keys of a set disjoint from `s`. */
  lemma MinusKeeps(cache: map<nat, nat>, s: set<nat>, t: set<nat>)
    requires t !! s
    ensures forall y | y in t && y in cache :: y in cache - s && (cache - s)[y] == cache[y]
  {
  }

  /** The shapes of a key list depend only on the blocks stored under those keys. */
  lemma {:induction false} ShapesOfFrame(m: Forest, m': Forest, ks: seq<nat>)
    requires forall k | k in ks :: k in m.values <==> k in m'.values
    requires forall k | k in ks && k in m.values :: m'.values[k] == m.values[k]
    ensures ShapesOf(m', ks) == ShapesOf(m, ks)
    decreases |ks|
  {
    if |ks| > 0 {
      ShapesOfFrame(m, m', ks[1..]);
    }
  }

  // ---------------------------------------------------------------------------------------------
  // The tree search

  /** A key of the list that neither is `y` nor has `y` below it. */
  ghost predicate Silent(m: Forest, k: nat, y: nat) {
    k !in m.values || (k != y && Lookup(m.values[k].children, y) == None)
  }

  /** Nothing is found among keys that are all silent about `y`. */
  lemma {:induction false} AmongSilent(m: Forest, ks: seq<nat>, y: nat)
    requires forall j | 0 <= j < |ks| :: Silent(m, ks[j], y)
    ensures LookupAmong(m, ks, y) == None
    decreases |ks|
  {
    if |ks| > 0 {
      assert Silent(m, ks[0], y);
      AmongSilent(m, ks[1..], y);
    }
  }

  /** When every other key of the list is silent about `y`, the search ends at key `k`. */
  lemma {:induction false} AmongFinds(m: Forest, ks: seq<nat>, y: nat, k: nat)
    requires k in ks && k in m.values
    requires forall j | 0 <= j < |ks| && ks[j] != k :: Silent(m, ks[j], y)
    ensures LookupAmong(m, ks, y) == (if k == y then Some(m.values[k]) else Lookup(m.values[k].children, y))
    decreases |ks|
  {
    if ks[0] != k {
      assert Silent(m, ks[0], y);
      AmongFinds(m, ks[1..], y, k);
    } else if k != y && Lookup(m.values[k].children, y) == None {
      forall j | 0 <= j < |ks[1..]| ensures Silent(m, ks[1..][j], y) {
        assert ks[1..][j] == ks[j + 1];
      }
      AmongSilent(m, ks[1..], y);
    }
  }

  /** An id that is nowhere in the forest is not found. */
  lemma {:induction false} LookupNone(m: Forest, y: nat)
    requires y !in Ids(m)
    ensures Lookup(m, y) == None
    decreases m
  {
    forall j | 0 <= j < |m.keys| ensures Silent(m, m.keys[j], y) {
      var k := m.keys[j];
      if k in m.values {
        assert y !in Ids(m.values[k].children);
        LookupNone(m.values[k].children, y);
      }
    }
    AmongSilent(m, m.keys, y);
  }

  /** In a well-formed forest a top-level key is found with its own block. */
  lemma LookupTop(m: Forest, y: nat)
    requires WF(m) && y in m.values
    ensures Lookup(m, y) == Some(m.values[y])
  {
    forall j | 0 <= j < |m.keys| && m.keys[j] != y ensures Silent(m, m.keys[j], y) {
      var k := m.keys[j];
      if k in m.values {
        LookupNone(m.values[k].children, y);
      }
    }
    AmongFinds(m, m.keys, y, y);
  }

  /** In a well-formed forest an id below top-level key `k` is found by searching below `k`. */
  lemma LookupBelow(m: Forest, k: nat, y: nat)
    requires WF(m) && k in m.values && y in Ids(m.values[k].children)
    ensures y !in m.values
    ensures Lookup(m, y) == Lookup(m.values[k].children, y)
  {
    forall j | 0 <= j < |m.keys| && m.keys[j] != k ensures Silent(m, m.keys[j], y) {
      var k' := m.keys[j];
      if k' in m.values {
        assert Ids(m.values[k'].children) !! Ids(m.values[k].children);
        LookupNone(m.values[k'].children, y);
      }
    }
    AmongFinds(m, m.keys, y, k);
  }

  /** In a well-formed forest the search finds exactly the ids of the forest, each under its own id. */
  lemma {:induction false} LookupFound(m: Forest, y: nat)
    requires WF(m)
    ensures Lookup(m, y).Some? <==> y in Ids(m)
    ensures Lookup(m, y).Some? ==> Lookup(m, y).value.id == y
    decreases m
  {
    if y in m.values {
      LookupTop(m, y);
    } else if y in Ids(m) {
      var k :| k in m.values && y in Ids(m.values[k].children);
      LookupBelow(m, k, y);
      LookupFound(m.values[k].children, y);
    } else {
      LookupNone(m, y);
    }
  }

  /** Adding a new key leaves the search for every id already in the forest alone. */
  lemma InsertLookup(m: Forest, b: Block, index: nat, y: nat)
    requires WF(m) && WF(Insert(m, b.id, index, b)) && b.id !in m.values && y in Ids(m)
    ensures Lookup(Insert(m, b.id, index, b), y) == Lookup(m, y)
  {
    var r := Insert(m, b.id, index, b);
    if y in m.values {
      LookupTop(m, y);
      LookupTop(r, y);
    } else {
      var k :| k in m.values && y in Ids(m.values[k].children);
      assert r.values[k] == m.values[k];
      LookupBelow(m, k, y);
      LookupBelow(r, k, y);
    }
  }

  /** Adding block `b` under its id: it and its subtree are found as they are in `b`. */
  lemma InsertedLookup(m: Forest, b: Block, index: nat, y: nat)
    requires WF(Insert(m, b.id, index, b)) && (y == b.id || y in Ids(b.children))
    ensures Lookup(Insert(m, b.id, index, b), y) == (if y == b.id then Some(b) else Lookup(b.children, y))
  {
    var r := Insert(m, b.id, index, b);
    if y == b.id {
      LookupTop(r, y);
    } else {
      LookupBelow(r, b.id, y);
    }
  }

  /** Removing a key leaves the search for every id that stays in the forest alone. */
  lemma DeleteLookup(m: Forest, x: nat, y: nat)
    requires WF(m) && x in m.values && y in Ids(Delete(m, x))
    ensures Lookup(Delete(m, x), y) == Lookup(m, y)
  {
    var r := Delete(m, x);
    WFDelete(m, x);
    if y in r.values {
      LookupTop(m, y);
      LookupTop(r, y);
    } else {
      var k :| k in r.values && y in Ids(r.values[k].children);
      assert r.values[k] == m.values[k];
      LookupBelow(m, k, y);
      LookupBelow(r, k, y);
    }
  }

  /** Changing the block under key `k` leaves the search for every id outside its subtree alone. */
  lemma UpdateLookup(m: Forest, r: Forest, k: nat, y: nat)
    requires WF(m) && WF(r) && k in m.values && r.values.Keys == m.values.Keys
    requires forall k' | k' in m.values && k' != k :: r.values[k'] == m.values[k']
    requires y in OtherIds(m, k)
    ensures Lookup(m, y).Some? && Lookup(r, y) == Lookup(m, y)
  {
    if y in m.values {
      SameTop(m, r, y);
    } else {
      var k' :| k' in m.values && k' != k && y in Ids(m.values[k'].children);
      SameBelow(m, r, k', y);
    }
  }

  /** A top-level key whose block did not change is found with the same block. */
  lemma SameTop(m: Forest, r: Forest, y: nat)
    requires WF(m) && WF(r) && y in m.values && y in r.values && r.values[y] == m.values[y]
    ensures Lookup(m, y).Some? && Lookup(r, y) == Lookup(m, y)
  {
    LookupTop(m, y);
    LookupTop(r, y);
  }

  /** An id below a top-level key whose block did not change is found with the same block. */
  lemma SameBelow(m: Forest, r: Forest, k: nat, y: nat)
    requires WF(m) && WF(r) && k in m.values && k in r.values && r.values[k] == m.values[k]
    requires y in Ids(m.values[k].children)
    ensures Lookup(m, y).Some? && Lookup(r, y) == Lookup(m, y)
  {
    LookupBelow(m, k, y);
    LookupBelow(r, k, y);
    LookupFound(m.values[k].children, y);
  }
}
