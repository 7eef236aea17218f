/**
 * The bounded priority queue the k-d tree uses during its neighbour searches.
 * Its header is not part of this model; only the operations the tree calls
 * are modelled: construction with a capacity, enqueue, dequeueMin, worst,
 * size, maxSize and empty.  The queue is kept as a sequence of entries in
 * non-decreasing priority order, the way an ordered multimap keyed by
 * priority keeps them: a new entry goes after every entry of equal priority,
 * and when the capacity is exceeded the last entry (the worst) is dropped.
 */
module PQueue {

  datatype Entry<T> = Entry(item: T, priority: real)

  /** Priorities never decrease from the front (best) to the back (worst). */
  predicate Sorted<T>(s: seq<Entry<T>>) {
    forall i, j :: 0 <= i < j < |s| ==> s[i].priority <= s[j].priority
  }

  /** The items of a sequence of entries, in queue order. */
  function Items<T>(s: seq<Entry<T>>): (r: seq<T>)
    ensures |r| == |s|
    ensures forall i :: 0 <= i < |s| ==> r[i] == s[i].item
  {
    if s == [] then [] else [s[0].item] + Items(s[1..])
  }

  /** Places `e` after every entry whose priority is at most its own. */
  function InsertSorted<T>(s: seq<Entry<T>>, e: Entry<T>): (r: seq<Entry<T>>)
    requires Sorted(s)
    ensures Sorted(r)
    ensures |r| == |s| + 1
    ensures forall i :: 0 <= i < |r| ==>
              r[i].priority >= e.priority || (s != [] && r[i].priority >= s[0].priority)
  {
    if s == [] || e.priority < s[0].priority then
      [e] + s
    else
      [s[0]] + InsertSorted(s[1..], e)
  }

  /** Insertion adds exactly `e` to the entries. */
  lemma {:induction false} InsertSortedPermutes<T>(s: seq<Entry<T>>, e: Entry<T>)
    requires Sorted(s)
    ensures multiset(InsertSorted(s, e)) == multiset(s) + multiset{e}
  {
    if s == [] || e.priority < s[0].priority {
      assert InsertSorted(s, e) == [e] + s;
    } else {
      InsertSortedPermutes(s[1..], e);
      assert s == [s[0]] + s[1..];
      assert InsertSorted(s, e) == [s[0]] + InsertSorted(s[1..], e);
    }
  }

  /** Insertion adds exactly the item of `e` to the items. */
  lemma {:induction false} InsertSortedItems<T>(s: seq<Entry<T>>, e: Entry<T>)
    requires Sorted(s)
    ensures multiset(Items(InsertSorted(s, e))) == multiset(Items(s)) + multiset{e.item}
  {
    if s == [] || e.priority < s[0].priority {
      assert InsertSorted(s, e) == [e] + s;
      assert Items([e] + s) == [e.item] + Items(s);
    } else {
      InsertSortedItems(s[1..], e);
      var r := InsertSorted(s[1..], e);
      assert InsertSorted(s, e) == [s[0]] + r;
      assert Items([s[0]] + r) == [s[0].item] + Items(r);
      assert Items(s) == [s[0].item] + Items(s[1..]);
    }
  }

  /**
   * Where an inserted entry lands: behind every entry of priority at most
   * its own (so at the back when it is no better than the worst), and never
   * in front of a best entry it only ties with.
   */
  lemma {:induction false} InsertSortedEnds<T>(s: seq<Entry<T>>, e: Entry<T>)
    requires Sorted(s)
    ensures s == [] || s[|s| - 1].priority <= e.priority ==> InsertSorted(s, e) == s + [e]
    ensures s != [] && e.priority < s[|s| - 1].priority ==>
              InsertSorted(s, e)[|s|] == s[|s| - 1]
    ensures s != [] && s[0].priority <= e.priority ==> InsertSorted(s, e)[0] == s[0]
    ensures s != [] && e.priority < s[0].priority ==> InsertSorted(s, e)[0] == e
  {
    if s == [] || e.priority < s[0].priority {
    } else {
      InsertSortedEnds(s[1..], e);
      assert s == [s[0]] + s[1..];
      if |s| > 1 {
        assert s[1..][|s| - 2] == s[|s| - 1];
      }
    }
  }

  /**
   * The queue after enqueuing `e` into the queue `s` of capacity `maxSize`:
   * below capacity the entry is always kept; at capacity it replaces the
   * worst entry only when its priority is strictly smaller, so ties keep the
   * entry already retained.
   */
  function Enqueued<T>(s: seq<Entry<T>>, maxSize: nat, e: Entry<T>): (r: seq<Entry<T>>)
    requires Sorted(s) && |s| <= maxSize
    ensures Sorted(r) && |r| <= maxSize
    ensures |r| == if |s| < maxSize then |s| + 1 else |s|
  {
    var t := InsertSorted(s, e);
    if |t| > maxSize then t[..|t| - 1] else t
  }

  /** Every entry of the queue after an enqueue was there before or is the new one. */
  lemma EnqueuedMembers<T>(s: seq<Entry<T>>, maxSize: nat, e: Entry<T>)
    requires Sorted(s) && |s| <= maxSize
    ensures forall i :: 0 <= i < |Enqueued(s, maxSize, e)| ==>
              Enqueued(s, maxSize, e)[i] in s || Enqueued(s, maxSize, e)[i] == e
  {
    var t := InsertSorted(s, e);
    InsertSortedPermutes(s, e);
    var r := Enqueued(s, maxSize, e);
    forall i | 0 <= i < |r| ensures r[i] in s || r[i] == e {
      assert r[i] == t[i];
      assert t[i] in multiset(t);
    }
  }

  /** Below capacity the new entry is added and nothing leaves. */
  lemma EnqueuedBelowCapacity<T>(s: seq<Entry<T>>, maxSize: nat, e: Entry<T>)
    requires Sorted(s) && |s| < maxSize
    ensures |Enqueued(s, maxSize, e)| == |s| + 1
    ensures multiset(Enqueued(s, maxSize, e)) == multiset(s) + multiset{e}
    ensures multiset(Items(Enqueued(s, maxSize, e))) == multiset(Items(s)) + multiset{e.item}
  {
    InsertSortedPermutes(s, e);
    InsertSortedItems(s, e);
  }

  /**
   * For an entry better than the worst, inserting it and dropping the back
   * is the same as dropping the worst and inserting it.
   */
  lemma {:induction false} InsertSortedDropLast<T>(s: seq<Entry<T>>, e: Entry<T>)
    requires Sorted(s) && s != [] && e.priority < s[|s| - 1].priority
    ensures InsertSorted(s, e)[..|s|] == InsertSorted(s[..|s| - 1], e)
  {
    var init := s[..|s| - 1];
    if e.priority < s[0].priority {
      assert init == [] || init[0] == s[0];
    } else {
      var tail := s[1..];
      assert tail[|tail| - 1] == s[|s| - 1];
      InsertSortedDropLast(tail, e);
      assert init[0] == s[0] && init[1..] == tail[..|tail| - 1];
    }
  }

  /**
   * At capacity, an entry strictly better than the worst one takes its
   * place: the worst entry leaves and the new one is kept.
   */
  lemma EnqueuedEvictsWorst<T>(s: seq<Entry<T>>, maxSize: nat, e: Entry<T>)
    requires Sorted(s) && |s| == maxSize > 0 && e.priority < s[|s| - 1].priority
    ensures |Enqueued(s, maxSize, e)| == maxSize
    ensures multiset(Enqueued(s, maxSize, e)) == multiset(s[..|s| - 1]) + multiset{e}
  {
    InsertSortedDropLast(s, e);
    InsertSortedPermutes(s[..|s| - 1], e);
  }

  /** At capacity, an entry no better than the worst one is discarded. */
  lemma EnqueuedDiscards<T>(s: seq<Entry<T>>, maxSize: nat, e: Entry<T>)
    requires Sorted(s) && |s| == maxSize
    requires maxSize == 0 || s[|s| - 1].priority <= e.priority
    ensures Enqueued(s, maxSize, e) == s
  {
    InsertSortedEnds(s, e);
  }

  /**
   * Only the worst entry is ever dropped, so with room for at least one
   * entry the best retained priority never gets worse and is at most the
   * priority just enqueued.
   */
  lemma EnqueuedBest<T>(s: seq<Entry<T>>, maxSize: nat, e: Entry<T>)
    requires Sorted(s) && |s| <= maxSize && maxSize > 0
    ensures Enqueued(s, maxSize, e) != []
    ensures Enqueued(s, maxSize, e)[0].priority <= e.priority
    ensures s != [] ==> Enqueued(s, maxSize, e)[0].priority <= s[0].priority
  {
    InsertSortedEnds(s, e);
    var t := InsertSorted(s, e);
    if s != [] && |t| > maxSize {
      assert |t| >= 2;
    }
  }

  /** The back entry of a sorted queue has the largest priority, so it is the worst one. */
  lemma WorstIsLargest<T>(s: seq<Entry<T>>)
    requires Sorted(s) && s != []
    ensures forall i :: 0 <= i < |s| ==> s[i].priority <= s[|s| - 1].priority
  {
  }

  class BoundedPQueue<T> {
    const maxSize: nat
    var elems: seq<Entry<T>>

    ghost predicate Valid()
      reads this
    {
      Sorted(elems) && |elems| <= maxSize
    }

    constructor (maxSize: nat)
      ensures Valid() && this.maxSize == maxSize && elems == []
    {
      this.maxSize := maxSize;
      elems := [];
    }

    function Size(): nat
      reads this
    {
      |elems|
    }

    function MaxSize(): nat
    {
      maxSize
    }

    function Empty(): bool
      reads this
    {
      elems == []
    }

    /** The priority of the back entry, the largest retained (see `WorstIsLargest`); the queue must not be empty. */
    function Worst(): real
      reads this
      requires Valid() && elems != []
    {
      elems[|elems| - 1].priority
    }

    method Enqueue(item: T, priority: real)
      requires Valid()
      modifies this
      ensures Valid()
      ensures elems == Enqueued(old(elems), maxSize, Entry(item, priority))
    {
      elems := Enqueued(elems, maxSize, Entry(item, priority));
    }

    /** Removes and returns the item of smallest priority. */
    method DequeueMin() returns (item: T)
      requires Valid() && elems != []
      modifies this
      ensures Valid()
      ensures item == old(elems)[0].item && elems == old(elems)[1..]
    {
      item := elems[0].item;
      elems := elems[1..];
    }
  }
}
