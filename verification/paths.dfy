/**
 * Path resolution in the document tree (crafttask/store.go, pathToNode and findMapByParent).
 *
 * A path is what pathToNode builds: a block id followed by its ancestors, bottom-up, without Root.
 * findMapByParent descends from the top-level map along the path read backwards. Since Go mutates
 * the map it found through a pointer, the model writes a changed map back with ReplaceAt; the path
 * plays the role of that pointer.
 */
module Paths {
  import opened Wrappers
  import opened OrderedMap
  import opened Models

  /** `path` lists each block with its cached parent next to it, and the last one sits under Root. */
  ghost predicate IsChain(cache: map<nat, nat>, path: seq<nat>) {
    forall i | 0 <= i < |path| :: path[i] in cache && path[i] != Root && cache[path[i]] == Above(path, i)
  }

  /** The id after position `i` of a path, or Root after its last one. */
  function Above(path: seq<nat>, i: nat): nat {
    if i + 1 < |path| then path[i + 1] else Root
  }

  /**
   * The ancestor walk that pathToNode intends: follow the cache from `x` up to Root. `seen` holds
   * the ids already on the path; meeting one again means the cache has a cycle, which the source
   * does not check for (it would loop forever) and which the store invariant rules out.
   */
  function Walk(cache: map<nat, nat>, x: nat, seen: set<nat>): (r: Result<seq<nat>, Error>)
    requires x != Root
    ensures x !in cache ==> r == Err(BlockDoesNotExist)
    ensures r.Ok? ==> |r.value| > 0 && r.value[0] == x && IsChain(cache, r.value)
    ensures r.Ok? ==> forall y | y in r.value :: y !in seen
    decreases cache.Keys - seen
  {
    if x !in cache then Err(BlockDoesNotExist)
    else if x in seen then Err(InconsistentState)
    else if cache[x] == Root then Ok([x])
    else
      var up := Walk(cache, cache[x], seen + {x});
      if up.Err? then Err(up.error)
      else
        var rest := up.value;
        ChainCons(cache, x, rest);
        Ok([x] + rest)
  }

  /** A block whose cached parent heads a chain extends that chain. */
  lemma ChainCons(cache: map<nat, nat>, x: nat, rest: seq<nat>)
    requires IsChain(cache, rest) && |rest| > 0
    requires x in cache && x != Root && cache[x] == rest[0]
    ensures IsChain(cache, [x] + rest)
  {
    var path := [x] + rest;
    forall i | 0 <= i < |path|
      ensures path[i] in cache && path[i] != Root && cache[path[i]] == Above(path, i)
    {
      if i > 0 {
        assert path[i] == rest[i - 1];
        assert Above(path, i) == Above(rest, i - 1);
      }
    }
  }

  /** pathToNode, with the walk advancing as intended: Root has the empty path. */
  function PathToNode(cache: map<nat, nat>, id: nat): (r: Result<seq<nat>, Error>)
    ensures id == Root ==> r == Ok([])
    ensures id != Root && id !in cache ==> r == Err(BlockDoesNotExist)
    ensures id != Root && r.Ok? ==> |r.value| > 0 && r.value[0] == id
    ensures r.Ok? ==> IsChain(cache, r.value)
    ensures r.Ok? ==> forall y | y in r.value :: y in cache && y != Root
  {
    if id == Root then Ok([]) else Walk(cache, id, {})
  }

  /** The block a path designates: its first element, or Root for the empty path. */
  function Owner(path: seq<nat>): nat {
    if |path| == 0 then Root else path[0]
  }

  /** findMapByParent's descent: from the top, look up each id of the path, last element first. */
  function Descend(m: Forest, path: seq<nat>): (r: Option<Forest>)
    ensures r.None? ==> |path| > 0
    decreases |path|
  {
    if |path| == 0 then Some(m)
    else
      var k := path[|path| - 1];
      if k in m.values then Descend(m.values[k].children, path[..|path| - 1]) else None
  }

  /** The forest `m` with the map found at `path` replaced by `n`: what Go does by changing that map in place. `ReplaceFrame` states what stays the same. */
  function ReplaceAt(m: Forest, path: seq<nat>, n: Forest): (r: Forest)
    requires Descend(m, path).Some?
    ensures r.keys == (if |path| == 0 then n.keys else m.keys)
    decreases |path|
  {
    if |path| == 0 then n
    else
      var k := path[|path| - 1];
      var b := m.values[k];
      OMap(m.keys, m.values[k := b.(children := ReplaceAt(b.children, path[..|path| - 1], n))])
  }

  /** The ids of `m` that do not lie below the map found at `path` (the path's own ids among them). */
  function Outside(m: Forest, path: seq<nat>): set<nat>
    requires Descend(m, path).Some?
    decreases |path|
  {
    if |path| == 0 then {}
    else
      var k := path[|path| - 1];
      OtherIds(m, k) + {k} + Outside(m.values[k].children, path[..|path| - 1])
  }

  // ---------------------------------------------------------------------------------------------
  // The walk

  /** The ids remembered as seen do not matter as long as the walk does not meet them. */
  lemma {:induction false} WalkSeenIrrelevant(cache: map<nat, nat>, x: nat, s1: set<nat>, s2: set<nat>)
    requires x != Root && Walk(cache, x, s1).Ok?
    requires forall y | y in Walk(cache, x, s1).value :: y !in s2
    ensures Walk(cache, x, s2) == Walk(cache, x, s1)
    decreases cache.Keys - s1
  {
    if cache[x] != Root {
      var rest := Walk(cache, cache[x], s1 + {x}).value;
      assert Walk(cache, x, s1).value == [x] + rest;
      WalkSeenIrrelevant(cache, cache[x], s1 + {x}, s2 + {x});
    }
  }

  /** The walk only reads the cache entries of the ids it passes. */
  lemma {:induction false} WalkFrame(cache: map<nat, nat>, cache': map<nat, nat>, x: nat, s: set<nat>)
    requires x != Root && Walk(cache, x, s).Ok?
    requires forall y | y in Walk(cache, x, s).value :: y in cache' && cache'[y] == cache[y]
    ensures Walk(cache', x, s) == Walk(cache, x, s)
    decreases cache.Keys - s
  {
    if cache[x] != Root {
      var rest := Walk(cache, cache[x], s + {x}).value;
      assert Walk(cache, x, s).value == [x] + rest;
      WalkFrame(cache, cache', cache[x], s + {x});
    }
  }

  /** The path of a block is the block followed by the path of its cached parent. */
  lemma PathStep(cache: map<nat, nat>, x: nat)
    requires x != Root && x in cache
    requires PathToNode(cache, cache[x]).Ok?
    requires x !in PathToNode(cache, cache[x]).value
    ensures PathToNode(cache, x) == Ok([x] + PathToNode(cache, cache[x]).value)
  {
    if cache[x] != Root {
      WalkSeenIrrelevant(cache, cache[x], {}, {x});
      assert Walk(cache, cache[x], {x}) == Walk(cache, cache[x], {});
      assert {} + {x} == {x};
      assert Walk(cache, x, {}) == Ok([x] + Walk(cache, cache[x], {x}).value);
    } else {
      assert [x] + [] == [x];
    }
  }

  /** The path of a block without a cache entry cannot be resolved; Root always can. */
  lemma PathToNodeFails(cache: map<nat, nat>, x: nat)
    requires x != Root
    ensures PathToNode(cache, x).Err? <==> x !in cache || Walk(cache, x, {}).Err?
  {
  }

  /** A path lists the cached parent of each of its ids right after it. */
  lemma PathParents(cache: map<nat, nat>, x: nat)
    requires x != Root && PathToNode(cache, x).Ok?
    ensures var p := PathToNode(cache, x).value;
            cache[x] == (if |p| == 1 then Root else p[1])
  {
  }

  /**
   * The walk finds the chain: whenever the cache links `p[0]` up to Root through the distinct ids
   * of `p`, that is the path pathToNode returns. With IsChain in Walk's contract, a path is
   * exactly such a chain.
   */
  lemma {:induction false} ChainIsPath(cache: map<nat, nat>, p: seq<nat>)
    requires |p| > 0 && IsChain(cache, p) && NoDuplicates(p)
    ensures PathToNode(cache, p[0]) == Ok(p)
    decreases |p|
  {
    if |p| > 1 {
      var rest := p[1..];
      forall i | 0 <= i < |rest| ensures rest[i] in cache && rest[i] != Root && cache[rest[i]] == Above(rest, i) {
        assert rest[i] == p[i + 1] && Above(rest, i) == Above(p, i + 1);
      }
      forall i, j | 0 <= i < j < |rest| ensures rest[i] != rest[j] {
        assert rest[i] == p[i + 1] && rest[j] == p[j + 1];
      }
      ChainIsPath(cache, rest);
      assert Above(p, 0) == rest[0];
      forall i | 0 <= i < |rest| ensures rest[i] != p[0] {
        assert rest[i] == p[i + 1];
      }
      PathStep(cache, p[0]);
      assert p == [p[0]] + rest;
    } else {
      assert Above(p, 0) == Root && p == [p[0]];
    }
  }

  // ---------------------------------------------------------------------------------------------
  // Descent and replacement

  /** Descending one level further: the path extended by a child id. */
  lemma {:induction false} DescendCons(m: Forest, path: seq<nat>, x: nat)
    ensures Descend(m, [x] + path) ==
            (if Descend(m, path).Some? && x in Descend(m, path).value.values
             then Some(Descend(m, path).value.values[x].children) else None)
    decreases |path|
  {
    if |path| > 0 {
      var k := path[|path| - 1];
      assert ([x] + path)[|[x] + path| - 1] == k;
      assert ([x] + path)[..|[x] + path| - 1] == [x] + path[..|path| - 1];
      if k in m.values {
        DescendCons(m.values[k].children, path[..|path| - 1], x);
      }
    }
  }

  lemma {:induction false} DescendWF(m: Forest, path: seq<nat>)
    requires WF(m) && Descend(m, path).Some?
    ensures WF(Descend(m, path).value)
    decreases |path|
  {
    if |path| > 0 {
      DescendWF(m.values[path[|path| - 1]].children, path[..|path| - 1]);
    }
  }

  /** Below a cache-described forest, the map at a path is described with the path's owner as parent. */
  lemma {:induction false} DescendAgrees(cache: map<nat, nat>, m: Forest, p: nat, path: seq<nat>)
    requires Agrees(cache, m, p) && Descend(m, path).Some?
    ensures Agrees(cache, Descend(m, path).value, if |path| == 0 then p else path[0])
    decreases |path|
  {
    if |path| > 0 {
      var k := path[|path| - 1];
      var q := path[..|path| - 1];
      DescendAgrees(cache, m.values[k].children, k, q);
      if |q| > 0 { assert q[0] == path[0]; }
    }
  }

  /** The ids of a forest are those outside the map at a path together with those inside it. */
  lemma {:induction false} DescendIds(m: Forest, path: seq<nat>)
    requires Descend(m, path).Some?
    ensures Ids(m) == Outside(m, path) + Ids(Descend(m, path).value)
    decreases |path|
  {
    if |path| > 0 {
      var k := path[|path| - 1];
      IdsSplit(m, k);
      DescendIds(m.values[k].children, path[..|path| - 1]);
    }
  }

  /** In a well-formed forest nothing outside the map at a path reappears inside it. */
  lemma {:induction false} OutsideDisjoint(m: Forest, path: seq<nat>)
    requires WF(m) && Descend(m, path).Some?
    ensures Outside(m, path) !! Ids(Descend(m, path).value)
    decreases |path|
  {
    if |path| > 0 {
      var k := path[|path| - 1];
      var c := m.values[k].children;
      var q := path[..|path| - 1];
      OtherIdsDisjoint(m, k);
      DescendIds(c, q);
      OutsideDisjoint(c, q);
    }
  }

  /** The replaced map is what the descent along the same path now finds. */
  lemma {:induction false} DescendReplace(m: Forest, path: seq<nat>, n: Forest)
    requires Descend(m, path).Some?
    ensures Descend(ReplaceAt(m, path, n), path) == Some(n)
    decreases |path|
  {
    if |path| > 0 {
      var k := path[|path| - 1];
      DescendReplace(m.values[k].children, path[..|path| - 1], n);
    }
  }

  /** Replacing the map at a path keeps every id outside it and brings in the new map's ids. */
  lemma {:induction false} ReplaceIds(m: Forest, path: seq<nat>, n: Forest)
    requires Descend(m, path).Some?
    ensures Ids(ReplaceAt(m, path, n)) == Outside(m, path) + Ids(n)
    decreases |path|
  {
    if |path| > 0 {
      var k := path[|path| - 1];
      var b := m.values[k];
      var q := path[..|path| - 1];
      var c' := ReplaceAt(b.children, q, n);
      ReplaceIds(b.children, q, n);
      OtherIdsUpdate(m, ReplaceAt(m, path, n), k, b.(children := c'));
    }
  }

  /** A well-formed map whose ids are new to the rest of the forest can replace the map at a path. */
  lemma {:induction false} ReplaceWF(m: Forest, path: seq<nat>, n: Forest)
    requires WF(m) && Descend(m, path).Some? && WF(n)
    requires Ids(n) !! Outside(m, path)
    ensures WF(ReplaceAt(m, path, n))
    decreases |path|
  {
    if |path| > 0 {
      var k := path[|path| - 1];
      var b := m.values[k];
      var q := path[..|path| - 1];
      var c' := ReplaceAt(b.children, q, n);
      ReplaceWF(b.children, q, n);
      ReplaceIds(b.children, q, n);
      DescendIds(b.children, q);
      OtherIdsDisjoint(m, k);
      assert Outside(m, path) == OtherIds(m, k) + {k} + Outside(b.children, q);
      ReplaceDisjoint(Outside(b.children, q), Ids(Descend(b.children, q).value), Ids(n), OtherIds(m, k), k);
      WFUpdate(m, k, b.(children := c'));
    }
  }

  /**
   * A cache describes the forest after a replacement when it describes the new map and keeps the
   * entries of every id outside it.
   */
  lemma {:induction false} ReplaceAgrees(
    cache: map<nat, nat>, cache': map<nat, nat>, m: Forest, p: nat, path: seq<nat>, n: Forest)
    requires Agrees(cache, m, p) && Descend(m, path).Some?
    requires Agrees(cache', n, if |path| == 0 then p else path[0])
    requires forall y | y in Outside(m, path) && y in cache :: y in cache' && cache'[y] == cache[y]
    ensures Agrees(cache', ReplaceAt(m, path, n), p)
    decreases |path|
  {
    if |path| > 0 {
      var k := path[|path| - 1];
      var b := m.values[k];
      var q := path[..|path| - 1];
      var r := ReplaceAt(m, path, n);
      if |q| > 0 { assert q[0] == path[0]; }
      ReplaceAgrees(cache, cache', b.children, k, q, n);
      forall i | i in r.values && i != k ensures Agrees(cache', r.values[i].children, i) {
        assert r.values[i] == m.values[i];
        assert Ids(m.values[i].children) <= OtherIds(m, k);
        AgreesFrame(cache, cache', m.values[i].children, i);
      }
    }
  }

  // ---------------------------------------------------------------------------------------------
  // Cycles in the cache

  /** The position of the first occurrence of `x` in `s`. */
  function FirstIndex(s: seq<nat>, x: nat): (i: nat)
    requires x in s
    ensures i < |s| && s[i] == x
    ensures forall j | 0 <= j < i :: s[j] != x
  {
    if s[0] == x then 0 else 1 + FirstIndex(s[1..], x)
  }

  /** The id after position `i` of a cycle, wrapping round to its first. */
  function CycleNext(c: seq<nat>, i: nat): nat
    requires i < |c|
  {
    if i + 1 < |c| then c[i + 1] else c[0]
  }

  /** The cache leads from each id of `c` to the next one, and from the last back to the first. */
  ghost predicate IsCycle(cache: map<nat, nat>, c: seq<nat>) {
    && |c| > 0
    && forall i | 0 <= i < |c| :: c[i] in cache && c[i] != Root && cache[c[i]] == CycleNext(c, i)
  }

  /**
   * The walk from position `k` of a cycle, having passed the ids before it, comes back to an id
   * it has seen and reports the inconsistent state.
   */
  lemma {:induction false} WalkCycle(cache: map<nat, nat>, c: seq<nat>, k: nat, seen: set<nat>)
    requires IsCycle(cache, c) && k < |c|
    requires forall i | 0 <= i < k :: c[i] in seen
    ensures Walk(cache, c[k], seen) == Err(InconsistentState)
    decreases |c| - k
  {
    if c[k] !in seen {
      assert cache[c[k]] == CycleNext(c, k);
      if k + 1 < |c| {
        WalkCycle(cache, c, k + 1, seen + {c[k]});
      } else {
        assert c[0] in seen + {c[k]};
        assert Walk(cache, c[0], seen + {c[k]}) == Err(InconsistentState);
      }
    }
  }

  /**
   * Pointing the cache entry of `x` at `q`, when the chain from `q` up to Root passes through `x`,
   * closes a cycle: the walk from `q` fails with the inconsistent state, and `q`'s entry no longer
   * leads to Root.
   */
  lemma CycleFromChain(cache: map<nat, nat>, p: seq<nat>, x: nat, q: nat)
    requires IsChain(cache, p) && |p| > 0 && p[0] == q && x in p
    ensures q != Root && q in cache[x := q] && cache[x := q][q] != Root
    ensures PathToNode(cache[x := q], q) == Err(InconsistentState)
  {
    var cache' := cache[x := q];
    var j := FirstIndex(p, x);
    var c := p[..j + 1];
    forall i | 0 <= i < |c| ensures c[i] in cache' && c[i] != Root && cache'[c[i]] == CycleNext(c, i) {
      assert c[i] == p[i];
      if i < j {
        assert cache'[c[i]] == cache[p[i]] == Above(p, i) == p[i + 1];
      }
    }
    assert IsCycle(cache', c);
    WalkCycle(cache', c, 0, {});
    if q != x {
      assert j > 0 && cache'[q] == cache[p[0]] == Above(p, 0) == p[1];
    }
  }

  // ---------------------------------------------------------------------------------------------
  // The tree search along paths

  /** The ids of a path lie in the forest it descends. */
  lemma {:induction false} PathInside(m: Forest, path: seq<nat>)
    requires Descend(m, path).Some?
    ensures forall z | z in path :: z in Ids(m)
    decreases |path|
  {
    if |path| > 0 {
      var k := path[|path| - 1];
      var q := path[..|path| - 1];
      PathInside(m.values[k].children, q);
      assert path == q + [k];
    }
  }

  /** In a well-formed forest an id of the map at a path is found by searching that map. */
  lemma {:induction false} LookupDescend(m: Forest, path: seq<nat>, y: nat)
    requires WF(m) && Descend(m, path).Some? && y in Ids(Descend(m, path).value)
    ensures Lookup(m, y) == Lookup(Descend(m, path).value, y)
    decreases |path|
  {
    if |path| > 0 {
      var k := path[|path| - 1];
      var c := m.values[k].children;
      var q := path[..|path| - 1];
      DescendIds(c, q);
      LookupBelow(m, k, y);
      LookupDescend(c, q, y);
    }
  }

  /** After a replacement, the ids of the new map are found as the new map has them. */
  lemma ReplaceInside(m: Forest, path: seq<nat>, n: Forest, y: nat)
    requires Descend(m, path).Some? && WF(ReplaceAt(m, path, n)) && y in Ids(n)
    ensures Lookup(ReplaceAt(m, path, n), y) == Lookup(n, y)
  {
    DescendReplace(m, path, n);
    LookupDescend(ReplaceAt(m, path, n), path, y);
  }

  /** One level of a replacement: only the block under the path's top-level key changes. */
  lemma ReplaceStep(m: Forest, path: seq<nat>, n: Forest)
    requires Descend(m, path).Some? && |path| > 0
    ensures var k := path[|path| - 1];
            var r := ReplaceAt(m, path, n);
            && k in m.values && r.values.Keys == m.values.Keys
            && r.values[k] == m.values[k].(children := ReplaceAt(m.values[k].children, path[..|path| - 1], n))
            && forall k' | k' in m.values && k' != k :: r.values[k'] == m.values[k']
  {
  }

  /**
   * What a replacement leaves of the blocks outside the replaced map: every one is still found
   * with its content; one off the path is found unchanged; one on the path keeps its children's
   * keys, except the path's owner, whose children are now the new map.
   */
  lemma {:induction false} ReplaceFrame(m: Forest, path: seq<nat>, n: Forest, y: nat)
    requires WF(m) && Descend(m, path).Some? && WF(ReplaceAt(m, path, n))
    requires y in Outside(m, path)
    ensures Lookup(m, y).Some? && Lookup(ReplaceAt(m, path, n), y).Some?
    ensures Lookup(ReplaceAt(m, path, n), y).value.content == Lookup(m, y).value.content
    ensures y !in path ==> Lookup(ReplaceAt(m, path, n), y) == Lookup(m, y)
    ensures y in path && y != Owner(path) ==>
              Lookup(ReplaceAt(m, path, n), y).value.children.keys == Lookup(m, y).value.children.keys
    ensures y == Owner(path) ==> Lookup(ReplaceAt(m, path, n), y).value.children == n
    decreases |path|
  {
    var k := path[|path| - 1];
    var q := path[..|path| - 1];
    var c := m.values[k].children;
    ReplaceStep(m, path, n);
    if y == k {
      ReplaceFrameKey(m, path, n);
    } else if y in OtherIds(m, k) {
      ReplaceFrameOther(m, path, n, y);
    } else {
      ReplaceFrameBelow(m, path, n, y);
      ReplaceFrame(c, q, n, y);
    }
  }

  /** ReplaceFrame for the top-level key the path goes through. */
  lemma ReplaceFrameKey(m: Forest, path: seq<nat>, n: Forest)
    requires WF(m) && Descend(m, path).Some? && WF(ReplaceAt(m, path, n)) && |path| > 0
    ensures var k := path[|path| - 1];
            var r := ReplaceAt(m, path, n);
            && Lookup(m, k) == Some(m.values[k])
            && Lookup(r, k) == Some(m.values[k].(children := ReplaceAt(m.values[k].children, path[..|path| - 1], n)))
            && (k == Owner(path) <==> |path| == 1)
  {
    var k := path[|path| - 1];
    var q := path[..|path| - 1];
    var r := ReplaceAt(m, path, n);
    ReplaceStep(m, path, n);
    LookupTop(m, k);
    LookupTop(r, k);
    if |q| > 0 {
      PathInside(m.values[k].children, q);
      assert q[0] in q && path[0] == q[0];
    }
  }

  /** An id outside the subtree of the path's top-level key is not on the path. */
  lemma OtherOffPath(m: Forest, path: seq<nat>, y: nat)
    requires Descend(m, path).Some? && |path| > 0
    requires y !in Sub(m, path[|path| - 1])
    ensures y !in path
  {
    var k := path[|path| - 1];
    var q := path[..|path| - 1];
    PathInside(m.values[k].children, q);
    assert path == q + [k];
  }

  /** ReplaceFrame for the ids beside the path's top-level key: their blocks are untouched. */
  lemma ReplaceFrameOther(m: Forest, path: seq<nat>, n: Forest, y: nat)
    requires WF(m) && Descend(m, path).Some? && WF(ReplaceAt(m, path, n)) && |path| > 0
    requires y in OtherIds(m, path[|path| - 1])
    ensures y !in path
    ensures Lookup(m, y).Some? && Lookup(ReplaceAt(m, path, n), y) == Lookup(m, y)
  {
    ReplaceStep(m, path, n);
    OtherIdsDisjoint(m, path[|path| - 1]);
    OtherOffPath(m, path, y);
    UpdateLookup(m, ReplaceAt(m, path, n), path[|path| - 1], y);
  }

  /** An id outside the path's map, other than the top-level key and the ids beside it, lies outside one level down. */
  lemma OutsideBelow(m: Forest, path: seq<nat>, y: nat)
    requires Descend(m, path).Some? && |path| > 0
    requires y in Outside(m, path) && y != path[|path| - 1] && y !in OtherIds(m, path[|path| - 1])
    ensures var q := path[..|path| - 1];
            && |q| > 0 && path[0] == q[0] && (y in path <==> y in q)
            && y in Outside(m.values[path[|path| - 1]].children, q)
  {
    var k := path[|path| - 1];
    var q := path[..|path| - 1];
    assert path == q + [k];
  }

  /** ReplaceFrame for the ids below the path's top-level key: the search goes on one level down. */
  lemma ReplaceFrameBelow(m: Forest, path: seq<nat>, n: Forest, y: nat)
    requires WF(m) && Descend(m, path).Some? && WF(ReplaceAt(m, path, n)) && |path| > 0
    requires y in Outside(m, path) && y != path[|path| - 1] && y !in OtherIds(m, path[|path| - 1])
    ensures var k := path[|path| - 1];
            var q := path[..|path| - 1];
            && |q| > 0 && path[0] == q[0] && (y in path <==> y in q)
            && y in Outside(m.values[k].children, q)
            && Lookup(m, y) == Lookup(m.values[k].children, y)
            && Lookup(ReplaceAt(m, path, n), y) == Lookup(ReplaceAt(m.values[k].children, q, n), y)
  {
    var k := path[|path| - 1];
    var q := path[..|path| - 1];
    var c := m.values[k].children;
    OutsideBelow(m, path, y);
    DescendIds(c, q);
    LookupBelow(m, k, y);
    ReplaceStep(m, path, n);
    ReplaceIds(c, q, n);
    LookupBelow(ReplaceAt(m, path, n), k, y);
  }
}
