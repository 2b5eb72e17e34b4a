/**
 * The deep copy that duplicate intends (crafttask/store.go, recursiveSetNewIds): every block of a
 * subtree gets a fresh id from the counter, parents before children and siblings in key order,
 * and the copy's cache entries link each copied block to its copied parent.
 */
module Cloning {
  import opened OrderedMap
  import opened Models
  import opened IdCounter

  /** A copied block, the counter after the copy, and the cache entries for the copied blocks. */
  datatype Clone = Clone(block: Block, counter: Counter, links: map<nat, nat>)

  /** A copied children map, the counter after the copy, and the cache entries for its blocks. */
  datatype Clones = Clones(forest: Forest, counter: Counter, links: map<nat, nat>)

  /** Copy `b` as a child of `parent`: a fresh id for the block first, then its children. */
  function CloneBlock(b: Block, parent: nat, c: Counter): (r: Clone)
    ensures r.block.id == c.last + 1 <= r.counter.last
    ensures r.block.content == b.content
    ensures r.block.id in r.links && r.links[r.block.id] == parent
    decreases b, 1
  {
    var n := Next(c);
    var kids := CloneKids(b.children, b.children.keys, n.id, n.counter);
    Clone(Block(n.id, b.content, kids.forest), kids.counter, kids.links[n.id := parent])
  }

  /** Copy the blocks of `m` listed in `ks`, in that order, as children of `parent`. */
  function CloneKids(m: Forest, ks: seq<nat>, parent: nat, c: Counter): (r: Clones)
    ensures c.last <= r.counter.last
    ensures r.counter.last == c.last <==> r.links.Keys == {}
    decreases m, |ks|
  {
    if |ks| == 0 then Clones(Empty(), c, map[])
    else if ks[0] !in m.values then CloneKids(m, ks[1..], parent, c)
    else
      var first := CloneBlock(m.values[ks[0]], parent, c);
      var rest := CloneKids(m, ks[1..], parent, first.counter);
      Clones(Insert(rest.forest, first.block.id, 0, first.block), rest.counter, rest.links + first.links)
  }

  /** Every id of `s` lies in the counter range (lo, hi]: issued after `lo`, by the time of `hi`. */
  ghost predicate Within(s: set<nat>, lo: nat, hi: nat) {
    forall y | y in s :: lo < y <= hi
  }

  /**
   * A copied block has the next id, every id of its subtree is fresh (above the counter it started
   * from, at most the counter it leaves), its subtree is well formed, and its links describe it
   * under `parent`.
   */
  lemma {:induction false} CloneBlockFresh(b: Block, parent: nat, c: Counter)
    ensures var r := CloneBlock(b, parent, c);
            && r.block.id == c.last + 1
            && r.block.id <= r.counter.last
            && Within(Ids(r.block.children), r.block.id, r.counter.last)
            && Within(r.links.Keys, c.last, r.counter.last)
            && WF(r.block.children)
            && r.links.Keys == {r.block.id} + Ids(r.block.children)
            && r.links[r.block.id] == parent
            && Agrees(r.links, r.block.children, r.block.id)
    decreases b, 1
  {
    var n := Next(c);
    var kids := CloneKids(b.children, b.children.keys, n.id, n.counter);
    assert CloneBlock(b, parent, c) == Clone(Block(n.id, b.content, kids.forest), kids.counter, kids.links[n.id := parent]);
    CloneKidsFresh(b.children, b.children.keys, n.id, n.counter);
    WithinExcludes(Ids(kids.forest), n.id, kids.counter.last);
    KeysAdd(kids.links, n.id, parent, Ids(kids.forest));
    WithinAdd(Ids(kids.forest), n.id, c.last, kids.counter.last);
    AgreesFrame(kids.links, kids.links[n.id := parent], kids.forest, n.id);
  }

  /** The copied children: fresh ids, a well-formed map, and links that describe it under `parent`. */
  lemma {:induction false} CloneKidsFresh(m: Forest, ks: seq<nat>, parent: nat, c: Counter)
    ensures var r := CloneKids(m, ks, parent, c);
            && c.last <= r.counter.last
            && Within(Ids(r.forest), c.last, r.counter.last)
            && WF(r.forest)
            && r.links.Keys == Ids(r.forest)
            && Agrees(r.links, r.forest, parent)
    decreases m, |ks|
  {
    if |ks| > 0 {
      if ks[0] !in m.values {
        CloneKidsFresh(m, ks[1..], parent, c);
      } else {
        var first := CloneBlock(m.values[ks[0]], parent, c);
        var rest := CloneKids(m, ks[1..], parent, first.counter);
        CloneBlockFresh(m.values[ks[0]], parent, c);
        CloneKidsFresh(m, ks[1..], parent, first.counter);
        JoinIds(rest.forest, first.block, c.last, first.counter.last, rest.counter.last);
        JoinLinks(first, rest, parent);
      }
    }
  }

  /** The lower end of a range is not in it. */
  lemma WithinExcludes(s: set<nat>, lo: nat, hi: nat)
    requires Within(s, lo, hi)
    ensures lo !in s
  {
  }

  /** The next id together with ids above it. */
  lemma WithinAdd(s: set<nat>, id: nat, lo: nat, hi: nat)
    requires id == lo + 1 && id <= hi && Within(s, id, hi)
    ensures Within({id} + s, lo, hi)
  {
  }

  /** Adding a key to a map whose keys are `s`. */
  lemma KeysAdd(links: map<nat, nat>, k: nat, v: nat, s: set<nat>)
    requires links.Keys == s
    ensures links[k := v].Keys == {k} + s
  {
  }

  /**
   * A copied block's ids lie in (lo, mid] and its later siblings' in (mid, hi]: the two are
   * disjoint and together lie in (lo, hi].
   */
  lemma WithinJoin(r: set<nat>, id: nat, c: set<nat>, lo: nat, mid: nat, hi: nat)
    requires id == lo + 1 && id <= mid <= hi
    requires Within(c, id, mid) && Within(r, mid, hi)
    ensures id !in c && ({id} + c) !! r
    ensures Within(r + {id} + c, lo, hi)
  {
  }

  /** The ids of a copied block and its later siblings' copies: well formed and in the counter's range. */
  lemma JoinIds(rest: Forest, b: Block, lo: nat, mid: nat, hi: nat)
    requires b.id == lo + 1 && b.id <= mid <= hi
    requires Within(Ids(b.children), b.id, mid) && Within(Ids(rest), mid, hi)
    requires WF(b.children) && WF(rest)
    ensures b.id !in Ids(b.children) && ({b.id} + Ids(b.children)) !! Ids(rest)
    ensures WF(Insert(rest, b.id, 0, b))
    ensures Ids(Insert(rest, b.id, 0, b)) == Ids(rest) + {b.id} + Ids(b.children)
    ensures Within(Ids(Insert(rest, b.id, 0, b)), lo, hi)
  {
    WithinJoin(Ids(rest), b.id, Ids(b.children), lo, mid, hi);
    WFInsert(rest, b, 0);
  }

  /** The cache entries of a copied block and of its later siblings' copies describe both. */
  lemma JoinLinks(first: Clone, rest: Clones, parent: nat)
    requires WF(first.block.children) && first.block.id !in Ids(first.block.children)
    requires first.links.Keys == {first.block.id} + Ids(first.block.children)
    requires first.links[first.block.id] == parent && Agrees(first.links, first.block.children, first.block.id)
    requires rest.links.Keys == Ids(rest.forest) && Agrees(rest.links, rest.forest, parent)
    requires first.links.Keys !! Ids(rest.forest)
    ensures Agrees(rest.links + first.links, Insert(rest.forest, first.block.id, 0, first.block), parent)
    ensures (rest.links + first.links).Keys == Ids(rest.forest) + {first.block.id} + Ids(first.block.children)
  {
    var b := first.block;
    var links := rest.links + first.links;
    AgreesFrame(rest.links, links, rest.forest, parent);
    AgreesFrame(first.links, links, b.children, b.id);
    AgreesInsert(links, rest.forest, parent, b, 0);
  }

  /** A copy has the shape of the original: the same contents, in the same order, at every level. */
  lemma {:induction false} CloneBlockShape(b: Block, parent: nat, c: Counter)
    ensures ShapeOf(CloneBlock(b, parent, c).block) == ShapeOf(b)
    decreases b, 1
  {
    var n := Next(c);
    var kids := CloneKids(b.children, b.children.keys, n.id, n.counter);
    CloneKidsShape(b.children, b.children.keys, n.id, n.counter);
  }

  lemma {:induction false} CloneKidsShape(m: Forest, ks: seq<nat>, parent: nat, c: Counter)
    ensures var r := CloneKids(m, ks, parent, c);
            ShapesOf(r.forest, r.forest.keys) == ShapesOf(m, ks)
    decreases m, |ks|
  {
    if |ks| > 0 {
      if ks[0] !in m.values {
        CloneKidsShape(m, ks[1..], parent, c);
      } else {
        var first := CloneBlock(m.values[ks[0]], parent, c);
        var rest := CloneKids(m, ks[1..], parent, first.counter);
        var f := Insert(rest.forest, first.block.id, 0, first.block);
        CloneBlockShape(m.values[ks[0]], parent, c);
        CloneKidsShape(m, ks[1..], parent, first.counter);
        CloneBlockFresh(m.values[ks[0]], parent, c);
        CloneKidsFresh(m, ks[1..], parent, first.counter);
        WithinJoin(Ids(rest.forest), first.block.id, Ids(first.block.children), c.last, first.counter.last, rest.counter.last);
        assert first.block.id !in rest.forest.values;
        InsertFront(rest.forest, first.block.id, first.block);
        ShapesOfFrame(rest.forest, f, rest.forest.keys);
        assert f.keys[1..] == rest.forest.keys;
      }
    }
  }
}
