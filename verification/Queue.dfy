/** The queue shared by the two threads: a singly linked list that is put to at
    the top and taken from at the bottom. Each method is one locked section. */
module Queue {

  class QueueEntry<T> {
    const item: T
    var prev: QueueEntry?<T>

    constructor (item: T)
      ensures this.item == item && prev == null
    {
      this.item := item;
      prev := null;
    }
  }

  /** The entry that was put after entry i. */
  ghost function Above<T>(entries: seq<QueueEntry<T>>, i: nat): QueueEntry?<T>
    requires i < |entries|
  {
    if i == |entries| - 1 then null else entries[i + 1]
  }

  lemma RestIsLinked<T>(entries: seq<QueueEntry<T>>)
    requires entries != []
    ensures Above(entries, 0) == null <==> |entries| == 1
    ensures |entries| > 1 ==> Above(entries, 0) == entries[1]
    ensures forall i :: 0 <= i < |entries| - 1 ==> Above(entries[1..], i) == Above(entries, i + 1)
  {
  }

  class Queue<T> {
    var size: nat
    var top: QueueEntry?<T>
    var bottom: QueueEntry?<T>
    /** The entries from the bottom to the top. */
    ghost var entries: seq<QueueEntry<T>>

    ghost predicate Valid()
      reads this, entries
    {
      && size == |entries|
      && (entries == [] ==> top == null && bottom == null)
      && (entries != [] ==> bottom == entries[0] && top == entries[|entries| - 1])
      && (forall i :: 0 <= i < |entries| ==> entries[i].prev == Above(entries, i))
      && (forall i, j :: 0 <= i < j < |entries| ==> entries[i] != entries[j])
    }

    /** What is queued, in the order of the puts. */
    ghost function Items(): (s: seq<T>)
      reads this
      ensures |s| == |entries|
    {
      seq(|entries|, i requires 0 <= i < |entries| reads this => entries[i].item)
    }

    constructor ()
      ensures Valid() && Items() == []
    {
      size, top, bottom, entries := 0, null, null, [];
    }

    /** Queues a fresh entry. */
    method Put(e: QueueEntry<T>)
      requires Valid() && e.prev == null && e !in entries
      modifies this, top
      ensures Valid() && Items() == old(Items()) + [e.item] && entries == old(entries) + [e]
    {
      if top == null {
        top, bottom := e, e;
      } else {
        top.prev := e;
        top := e;
      }
      size := size + 1;
      entries := entries + [e];
    }

    /** Takes the entry that was queued first, if there is one. */
    method Get() returns (e: QueueEntry?<T>)
      requires Valid()
      modifies this
      ensures Valid()
      ensures e == null <==> old(Items()) == []
      ensures e == null ==> entries == old(entries) && Items() == old(Items())
      ensures e != null ==>
        && old(Items()) == [e.item] + Items() && old(entries) == [e] + entries && e !in entries
    {
      if bottom == null {
        return null;
      }
      hide Above;
      e := bottom;
      RestIsLinked(entries);
      assert e.prev == Above(entries, 0);
      var t := bottom.prev;
      bottom := t;
      if t == null {
        // it's empty now
        top := null;
      }
      size := size - 1;
      entries := entries[1..];
    }

    method IsEmpty() returns (r: bool)
      requires Valid()
      ensures r <==> Items() == []
    {
      r := size == 0;
    }
  }

  // ---------- whole runs ----------

  datatype Action<T> = DoPut(x: T) | DoGet

  /** What a run of puts and gets leaves in the queue, and what it took out. */
  function Run<T>(actions: seq<Action<T>>): (seq<T>, seq<T>) {
    if actions == [] then ([], [])
    else
      var (queued, taken) := Run(actions[..|actions| - 1]);
      match actions[|actions| - 1]
      case DoPut(x) => (queued + [x], taken)
      case DoGet => if queued == [] then (queued, taken) else (queued[1..], taken + [queued[0]])
  }

  function Puts<T>(actions: seq<Action<T>>): seq<T> {
    if actions == [] then []
    else
      Puts(actions[..|actions| - 1])
      + match actions[|actions| - 1] case DoPut(x) => [x] case DoGet => []
  }

  /** First in, first out: what was taken, and then what is still queued, is
      what was put, in that order. */
  lemma {:induction false} FirstInFirstOut<T>(actions: seq<Action<T>>)
    ensures Run(actions).1 + Run(actions).0 == Puts(actions)
  {
    if actions != [] {
      FirstInFirstOut(actions[..|actions| - 1]);
      var (queued, taken) := Run(actions[..|actions| - 1]);
      assert queued != [] ==> taken + [queued[0]] + queued[1..] == taken + queued;
    }
  }
}
