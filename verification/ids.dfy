/**
 * The block id counter (crafttask/id.go). Go keeps it in a process-wide atomic uint64; the model
 * makes it explicit sequential state, threaded through every operation that allocates ids.
 */
module IdCounter {
  import opened Models

  /** `last` is the value most recently issued; a fresh process has issued nothing. */
  datatype Counter = Counter(last: nat)

  datatype Issued = Issued(id: nat, counter: Counter)

  function Start(): Counter {
    Counter(0)
  }

  /** getNewId: add one and hand out the new value. */
  function Next(c: Counter): (r: Issued)
    ensures r.id == c.last + 1
    ensures r.id != Root
    ensures r.counter.last == r.id
  {
    Issued(c.last + 1, Counter(c.last + 1))
  }

  /** The ids handed out by `n` successive calls of Next, in order. */
  function Take(c: Counter, n: nat): (ids: seq<nat>)
    decreases n
  {
    if n == 0 then [] else var r := Next(c); [r.id] + Take(r.counter, n - 1)
  }

  /**
   * Successive ids are strictly increasing and above everything issued before, so an id is never
   * handed out twice (not even after the block it named was deleted) and never equals Root.
   */
  lemma {:induction false} TakeIncreasing(c: Counter, n: nat)
    ensures |Take(c, n)| == n
    ensures forall i | 0 <= i < n :: Take(c, n)[i] == c.last + 1 + i
    ensures forall i, j | 0 <= i < j < n :: Take(c, n)[i] < Take(c, n)[j]
    ensures forall i | 0 <= i < n :: Take(c, n)[i] != Root
    decreases n
  {
    if n > 0 {
      var r := Next(c);
      TakeIncreasing(r.counter, n - 1);
      var rest := Take(r.counter, n - 1);
      assert Take(c, n) == [r.id] + rest;
      forall i | 0 <= i < n ensures Take(c, n)[i] == c.last + 1 + i {
        if i > 0 { assert Take(c, n)[i] == rest[i - 1]; }
      }
    }
  }

  /** In a fresh process the first two ids are 1 and 2. */
  lemma FirstIds()
    ensures Take(Start(), 2) == [1, 2]
  {
    TakeIncreasing(Start(), 2);
  }
}
