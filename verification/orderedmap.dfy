/**
 * The ordered map of blocks (crafttask/orderedmap.go): a sequence `keys` that fixes the order
 * and a map `values` that holds the contents. Go's type is specialised to blocks; the model is
 * generic in the value type, since none of the operations look inside a value.
 */
module OrderedMap {
  import opened Wrappers

  datatype OMap<V> = OMap(keys: seq<nat>, values: map<nat, V>)

  predicate NoDuplicates(s: seq<nat>) {
    forall i, j | 0 <= i < j < |s| :: s[i] != s[j]
  }

  /** The representation invariant: `keys` lists every key of `values` exactly once. */
  ghost predicate Valid<V>(m: OMap<V>) {
    && NoDuplicates(m.keys)
    && (forall k :: k in m.keys <==> k in m.values)
  }

  /** The position a positional insert really uses: past the end means "append". */
  function Clamp(index: nat, length: nat): nat {
    if index >= length then length else index
  }

  /** NewOrderedMapOfBlocks. */
  function Empty<V>(): (m: OMap<V>)
    ensures Valid(m)
    ensures |m.keys| == 0 && forall k :: k !in m.values
  {
    OMap([], map[])
  }

  /** Get: the stored value, or None when the key is absent. */
  function Get<V>(m: OMap<V>, key: nat): (r: Option<V>)
    ensures r.Some? <==> key in m.values
    ensures r.Some? ==> r.value == m.values[key]
  {
    if key in m.values then Some(m.values[key]) else None
  }

  /**
   * The position of the last occurrence of `key` in `ks`, or 0 when there is none: the Go loop
   * in GetAndIndex overwrites `index` on every match and starts from 0.
   */
  function LastIndex(ks: seq<nat>, key: nat): (i: nat)
    ensures key in ks ==> i < |ks| && ks[i] == key && forall j | i < j < |ks| :: ks[j] != key
    ensures key !in ks ==> i == 0
  {
    if |ks| == 0 then 0
    else if ks[|ks| - 1] == key then |ks| - 1
    else LastIndex(ks[..|ks| - 1], key)
  }

  /** GetAndIndex: the value together with the key's position in `keys`. */
  function GetAndIndex<V>(m: OMap<V>, key: nat): (r: Option<(V, nat)>)
    ensures r.Some? <==> key in m.values
    ensures r.Some? ==> r.value.0 == m.values[key]
    ensures Valid(m) && r.Some? ==> r.value.1 < |m.keys| && m.keys[r.value.1] == key
  {
    if key !in m.values then None else Some((m.values[key], LastIndex(m.keys, key)))
  }

  /** Set: upsert; a new key goes to the end, an existing key keeps its place. */
  function Set<V>(m: OMap<V>, key: nat, value: V): (r: OMap<V>)
    ensures r.values == m.values[key := value]
    ensures key in m.values ==> r.keys == m.keys
    ensures key !in m.values ==> r.keys == m.keys + [key]
    ensures Valid(m) ==> Valid(r)
  {
    if key in m.values then OMap(m.keys, m.values[key := value])
    else OMap(m.keys + [key], m.values[key := value])
  }

  /** The slice helper `insert`: put `value` at `index`, or append when `index` is past the end. */
  function InsertAt(a: seq<nat>, index: nat, value: nat): (r: seq<nat>)
    ensures |r| == |a| + 1
    ensures r[Clamp(index, |a|)] == value
    ensures r[..Clamp(index, |a|)] == a[..Clamp(index, |a|)]
    ensures r[Clamp(index, |a|) + 1..] == a[Clamp(index, |a|)..]
    ensures multiset(r) == multiset(a) + multiset{value}
  {
    if index >= |a| then
      assert a + [value] == a[..|a|] + [value] + a[|a|..];
      a + [value]
    else
      assert a == a[..index] + a[index..];
      a[..index] + [value] + a[index..]
  }

  /** Insert: a new key is placed at `index` (clamped); an existing key only gets its value replaced. */
  function Insert<V>(m: OMap<V>, key: nat, index: nat, value: V): (r: OMap<V>)
    ensures r.values == m.values[key := value]
    ensures key in m.values ==> r.keys == m.keys
    ensures key !in m.values ==> r.keys == InsertAt(m.keys, index, key)
    ensures Valid(m) ==> Valid(r)
  {
    if key in m.values then OMap(m.keys, m.values[key := value])
    else
      var ks := InsertAt(m.keys, index, key);
      assert Valid(m) ==> Valid(OMap(ks, m.values[key := value])) by {
        if Valid(m) {
          InsertAtNoDuplicates(m.keys, index, key);
          forall k ensures k in ks <==> k in m.keys || k == key {
            assert k in ks <==> k in multiset(ks);
          }
        }
      }
      OMap(ks, m.values[key := value])
  }

  /** The first occurrence of `key` removed, as Delete's loop with `break` does. */
  function RemoveFirst(ks: seq<nat>, key: nat): (r: seq<nat>)
    ensures key !in ks ==> r == ks
    ensures key in ks ==> |r| == |ks| - 1
  {
    if |ks| == 0 then []
    else if ks[0] == key then ks[1..]
    else
      assert ks == [ks[0]] + ks[1..];
      [ks[0]] + RemoveFirst(ks[1..], key)
  }

  /** Every occurrence of `key` dropped, the rest in order: the reference for what Delete keeps. */
  function Without(ks: seq<nat>, key: nat): (r: seq<nat>)
  {
    if |ks| == 0 then []
    else if ks[0] == key then Without(ks[1..], key)
    else [ks[0]] + Without(ks[1..], key)
  }

  /** Delete: the key leaves both `keys` and `values`; an absent key is a no-op. */
  function Delete<V>(m: OMap<V>, key: nat): (r: OMap<V>)
    ensures key !in m.values ==> r == m
    ensures r.values == m.values - {key}
    ensures Valid(m) ==> Valid(r) && r.keys == Without(m.keys, key)
  {
    if key !in m.values then
      assert Valid(m) ==> m.keys == Without(m.keys, key) by {
        if Valid(m) { WithoutAbsent(m.keys, key); }
      }
      m
    else
      var r := OMap(RemoveFirst(m.keys, key), m.values - {key});
      assert Valid(m) ==> Valid(r) && r.keys == Without(m.keys, key) by {
        if Valid(m) {
          RemoveFirstIsWithout(m.keys, key);
          WithoutProperties(m.keys, key);
        }
      }
      r
  }

  /**
   * OrderedValues: the values listed in key order. Go's map lookup yields the zero block for a key
   * without a value, which a valid map never has; `zero` stands for that value.
   */
  method OrderedValues<V>(m: OMap<V>, zero: V) returns (vs: seq<V>)
    ensures |vs| == |m.keys|
    ensures forall i | 0 <= i < |vs| && m.keys[i] in m.values :: vs[i] == m.values[m.keys[i]]
    ensures forall i | 0 <= i < |vs| && m.keys[i] !in m.values :: vs[i] == zero
  {
    vs := [];
    for i := 0 to |m.keys|
      invariant |vs| == i
      invariant forall j | 0 <= j < i && m.keys[j] in m.values :: vs[j] == m.values[m.keys[j]]
      invariant forall j | 0 <= j < i && m.keys[j] !in m.values :: vs[j] == zero
    {
      vs := vs + [if m.keys[i] in m.values then m.values[m.keys[i]] else zero];
    }
  }

  // ---------------------------------------------------------------------------------------------
  // Lemmas

  lemma InsertAtNoDuplicates(a: seq<nat>, index: nat, value: nat)
    requires NoDuplicates(a) && value !in a
    ensures NoDuplicates(InsertAt(a, index, value))
  {
    var r := InsertAt(a, index, value);
    var c := Clamp(index, |a|);
    forall i, j | 0 <= i < j < |r| ensures r[i] != r[j] {
      if j < c {
        assert r[i] == r[..c][i] == a[i] && r[j] == r[..c][j] == a[j];
      } else if j == c {
        assert r[i] == r[..c][i] == a[i];
      } else if i == c {
        assert r[j] == r[c + 1..][j - c - 1] == a[j - 1];
      } else if i < c {
        assert r[i] == r[..c][i] == a[i];
        assert r[j] == r[c + 1..][j - c - 1] == a[j - 1];
      } else {
        assert r[i] == r[c + 1..][i - c - 1] == a[i - 1];
        assert r[j] == r[c + 1..][j - c - 1] == a[j - 1];
      }
    }
  }

  lemma {:induction false} WithoutProperties(ks: seq<nat>, key: nat)
    requires NoDuplicates(ks)
    ensures NoDuplicates(Without(ks, key))
    ensures forall k :: k in Without(ks, key) <==> k in ks && k != key
  {
    if |ks| > 0 {
      assert NoDuplicates(ks[1..]) by {
        forall i, j | 0 <= i < j < |ks[1..]| ensures ks[1..][i] != ks[1..][j] {
          assert ks[1..][i] == ks[i + 1] && ks[1..][j] == ks[j + 1];
        }
      }
      WithoutProperties(ks[1..], key);
      assert ks == [ks[0]] + ks[1..];
      assert ks[0] !in ks[1..] by {
        forall i | 0 <= i < |ks[1..]| ensures ks[1..][i] != ks[0] {
          assert ks[1..][i] == ks[i + 1];
        }
      }
      if ks[0] != key {
        var w := Without(ks[1..], key);
        assert Without(ks, key) == [ks[0]] + w;
        forall i, j | 0 <= i < j < |[ks[0]] + w| ensures ([ks[0]] + w)[i] != ([ks[0]] + w)[j] {
          if i == 0 {
            assert ([ks[0]] + w)[j] == w[j - 1];
            assert w[j - 1] in w;
          } else {
            assert ([ks[0]] + w)[i] == w[i - 1] && ([ks[0]] + w)[j] == w[j - 1];
          }
        }
      }
    }
  }

  lemma {:induction false} RemoveFirstIsWithout(ks: seq<nat>, key: nat)
    requires NoDuplicates(ks)
    ensures RemoveFirst(ks, key) == Without(ks, key)
  {
    if |ks| > 0 {
      assert NoDuplicates(ks[1..]) by {
        forall i, j | 0 <= i < j < |ks[1..]| ensures ks[1..][i] != ks[1..][j] {
          assert ks[1..][i] == ks[i + 1] && ks[1..][j] == ks[j + 1];
        }
      }
      if ks[0] == key {
        assert key !in ks[1..] by {
          forall i | 0 <= i < |ks[1..]| ensures ks[1..][i] != key {
            assert ks[1..][i] == ks[i + 1];
          }
        }
        WithoutAbsent(ks[1..], key);
      } else {
        RemoveFirstIsWithout(ks[1..], key);
      }
    }
  }

  lemma {:induction false} WithoutAbsent(ks: seq<nat>, key: nat)
    requires key !in ks
    ensures Without(ks, key) == ks
  {
    if |ks| > 0 {
      assert ks == [ks[0]] + ks[1..];
      WithoutAbsent(ks[1..], key);
    }
  }

  lemma {:induction false} RemoveFirstAfterPrefix(a: seq<nat>, b: seq<nat>, key: nat)
    requires key !in a
    ensures RemoveFirst(a + b, key) == a + RemoveFirst(b, key)
  {
    if |a| > 0 {
      var t := a[1..];
      assert a == [a[0]] + t;
      assert a + b == [a[0]] + (t + b);
      RemoveFirstAfterPrefix(t, b, key);
    } else {
      assert a + b == b;
    }
  }

  /** Get after Set: the new value under the key written, nothing else changes. */
  lemma GetAfterSet<V>(m: OMap<V>, key: nat, value: V, other: nat)
    ensures Get(Set(m, key, value), key) == Some(value)
    ensures other != key ==> Get(Set(m, key, value), other) == Get(m, other)
  {
  }

  /** Get after Delete: the key is gone, nothing else changes. */
  lemma GetAfterDelete<V>(m: OMap<V>, key: nat, other: nat)
    ensures Get(Delete(m, key), key) == None
    ensures other != key ==> Get(Delete(m, key), other) == Get(m, other)
  {
  }

  /** Set of a key is Insert of it at the end. */
  lemma SetIsInsertAtEnd<V>(m: OMap<V>, key: nat, value: V)
    ensures Set(m, key, value) == Insert(m, key, |m.keys|, value)
  {
  }

  /** Insert past the end appends instead of failing. */
  lemma InsertPastEndAppends<V>(m: OMap<V>, key: nat, index: nat, value: V)
    requires key !in m.values && index >= |m.keys|
    ensures Insert(m, key, index, value).keys == m.keys + [key]
  {
  }

  /** Insert of a new key before the end shifts the keys from `index` on by one place. */
  lemma InsertInside<V>(m: OMap<V>, key: nat, index: nat, value: V)
    requires key !in m.values && index < |m.keys|
    ensures Insert(m, key, index, value).keys == m.keys[..index] + [key] + m.keys[index..]
  {
  }

  /** In a valid map, GetAndIndex finds the one position that holds the key. */
  lemma GetAndIndexUnique<V>(m: OMap<V>, key: nat, j: nat)
    requires Valid(m) && j < |m.keys| && m.keys[j] == key
    ensures GetAndIndex(m, key) == Some((m.values[key], j))
  {
  }

  /** Inserting a new key at index 0 puts it in front of the others. */
  lemma InsertFront<V>(m: OMap<V>, key: nat, value: V)
    requires key !in m.values
    ensures Insert(m, key, 0, value).keys == [key] + m.keys
  {
    if |m.keys| > 0 {
      InsertInside(m, key, 0, value);
    }
  }

  /** A new key inserted at `index` is found there, clamped to the end of the keys. */
  lemma InsertThenFind<V>(m: OMap<V>, key: nat, index: nat, value: V)
    requires Valid(m) && key !in m.values
    ensures GetAndIndex(Insert(m, key, index, value), key) == Some((value, Clamp(index, |m.keys|)))
  {
    GetAndIndexUnique(Insert(m, key, index, value), key, Clamp(index, |m.keys|));
  }

  /** Keys in front of the insertion point keep their value and their index. */
  lemma InsertKeepsBefore<V>(m: OMap<V>, key: nat, index: nat, value: V, j: nat)
    requires Valid(m) && key !in m.values && j < Clamp(index, |m.keys|)
    ensures GetAndIndex(Insert(m, key, index, value), m.keys[j]) == Some((m.values[m.keys[j]], j))
  {
    var r := Insert(m, key, index, value);
    var c := Clamp(index, |m.keys|);
    assert r.keys[j] == r.keys[..c][j] == m.keys[..c][j] == m.keys[j];
    GetAndIndexUnique(r, m.keys[j], j);
  }

  /** Round trip: deleting a freshly inserted key restores the map. */
  lemma DeleteUndoesInsert<V>(m: OMap<V>, key: nat, index: nat, value: V)
    requires Valid(m) && key !in m.values
    ensures Delete(Insert(m, key, index, value), key) == m
  {
    RemoveInserted(m.keys, index, key);
    assert m.values[key := value] - {key} == m.values;
  }

  /** Removing a key that was absent and then inserted gives back the original order. */
  lemma RemoveInserted(ks: seq<nat>, index: nat, key: nat)
    requires key !in ks
    ensures RemoveFirst(InsertAt(ks, index, key), key) == ks
  {
    var c := Clamp(index, |ks|);
    var r := InsertAt(ks, index, key);
    assert r == ks[..c] + ([key] + ks[c..]) by {
      assert r == r[..c] + [r[c]] + r[c + 1..];
    }
    assert key !in ks[..c];
    RemoveFirstAfterPrefix(ks[..c], [key] + ks[c..], key);
    assert ks[..c] + ks[c..] == ks;
  }

  lemma NotInPrefix(ks: seq<nat>, i: nat)
    requires NoDuplicates(ks) && i < |ks|
    ensures ks[i] !in ks[..i]
  {
    forall j | 0 <= j < i ensures ks[..i][j] != ks[i] {
      assert ks[..i][j] == ks[j];
    }
  }

  lemma InsertAtSplit(pre: seq<nat>, post: seq<nat>, key: nat)
    ensures InsertAt(pre + post, |pre|, key) == pre + [key] + post
  {
    var r := InsertAt(pre + post, |pre|, key);
    var c := |pre|;
    if |post| == 0 {
      assert pre + post == pre;
    } else {
      assert (pre + post)[..c] == pre && (pre + post)[c..] == post;
    }
  }

  lemma KeysRoundTrip(ks: seq<nat>, key: nat, index: nat)
    requires NoDuplicates(ks) && index < |ks| && ks[index] == key
    ensures InsertAt(RemoveFirst(ks, key), index, key) == ks
  {
    var pre, post := ks[..index], ks[index + 1..];
    assert ks == pre + ([key] + post) by {
      assert ks == ks[..index] + [ks[index]] + ks[index + 1..];
    }
    NotInPrefix(ks, index);
    RemoveFirstAfterPrefix(pre, [key] + post, key);
    InsertAtSplit(pre, post, key);
  }

  lemma ValuesRoundTrip<V>(values: map<nat, V>, key: nat)
    requires key in values
    ensures (values - {key})[key := values[key]] == values
  {
    var r := (values - {key})[key := values[key]];
    assert r.Keys == values.Keys;
    forall k | k in values ensures r[k] == values[k] {
    }
  }

  /** Round trip: re-inserting a deleted key at its old position with its old value restores the map. */
  lemma InsertUndoesDelete<V>(m: OMap<V>, key: nat, value: V, index: nat)
    requires Valid(m) && GetAndIndex(m, key) == Some((value, index))
    ensures Insert(Delete(m, key), key, index, value) == m
  {
    KeysRoundTrip(m.keys, key, index);
    ValuesRoundTrip(m.values, key);
  }
}
