/** The cache itself: a table of chains, each a doubly linked list threaded
    through a fixed array of four entries. A link is the index of an entry. */
module Cache {
  import opened Bytes
  import opened Decimal
  import opened RecentList
  import M = CacheModel

  const NIL := -1

  /** ksize is -1 in an unused entry. */
  datatype Entry = Entry(key: bytes, val: bytes, ksize: int, vsize: int, prev: int, next: int)

  predicate Used(e: Entry) {
    e.ksize != -1
  }

  const UNUSED := Entry([], [], -1, -1, NIL, NIL)

  function Freed(e: Entry): (r: Entry)
    ensures !Used(r)
  {
    e.(key := [], ksize := -1, val := [], vsize := -1)
  }

  // ---------- the shape of a chain ----------

  function Prev(order: seq<int>, i: nat): int
    requires i < |order|
  {
    if i == 0 then NIL else order[i - 1]
  }

  function Next(order: seq<int>, i: nat): int
    requires i < |order|
  {
    if i == |order| - 1 then NIL else order[i + 1]
  }

  predicate IsOrder(order: seq<int>) {
    && |order| <= CHAINLEN
    && (forall i :: 0 <= i < |order| ==> 0 <= order[i] < CHAINLEN)
    && (forall i, j :: 0 <= i < j < |order| ==> order[i] != order[j])
  }

  ghost predicate InUse(es: seq<Entry>, order: seq<int>)
    requires |es| == CHAINLEN
  {
    forall s :: 0 <= s < CHAINLEN ==>
      (Used(es[s]) <==> s in order) && (Used(es[s]) ==> es[s].ksize == |es[s].key| && es[s].vsize == |es[s].val|)
  }

  ghost predicate Links(es: seq<Entry>, order: seq<int>)
    requires |es| == CHAINLEN && IsOrder(order)
  {
    forall i :: 0 <= i < |order| ==> es[order[i]].prev == Prev(order, i) && es[order[i]].next == Next(order, i)
  }

  /** order lists the used entries from first to last, and the links say so. */
  ghost predicate Linked(es: seq<Entry>, order: seq<int>) {
    && |es| == CHAINLEN && IsOrder(order)
    && InUse(es, order) && Links(es, order) && DistinctKeys(ListOf(es, order))
  }

  ghost function ListOf(es: seq<Entry>, order: seq<int>): (l: Bucket)
    requires |es| == CHAINLEN && IsOrder(order)
    ensures |l| == |order|
  {
    seq(|order|, i requires 0 <= i < |order| => Pair(es[order[i]].key, es[order[i]].val))
  }

  ghost predicate Ends(order: seq<int>, first: int, last: int) {
    if order == [] then first == NIL && last == NIL
    else first == order[0] && last == order[|order| - 1]
  }

  function UnusedSlots(es: seq<Entry>): set<int>
    requires |es| == CHAINLEN
  {
    set s | 0 <= s < CHAINLEN && !Used(es[s])
  }

  lemma {:induction false} OrderedSlots(order: seq<int>)
    requires forall i, j :: 0 <= i < j < |order| ==> order[i] != order[j]
    ensures |set s | s in order| == |order|
  {
    if order != [] {
      var front := order[..|order| - 1];
      OrderedSlots(front);
      assert (set s | s in order) == (set s | s in front) + {order[|order| - 1]};
    }
  }

  lemma SlotsLeft(linked: set<int>, unused: set<int>)
    requires forall s :: s in linked ==> 0 <= s < CHAINLEN
    requires forall s :: s in unused <==> 0 <= s < CHAINLEN && s !in linked
    ensures |unused| + |linked| == CHAINLEN
  {
    forall s ensures s in unused + linked <==> s in {0, 1, 2, 3} {
      assert s in unused || s in linked || !(0 <= s < CHAINLEN);
    }
    assert unused + linked == {0, 1, 2, 3};
    assert |unused + linked| == |unused| + |linked|;
  }

  /** Linked entries and unused entries make four. */
  lemma LinkedAndUnusedMakeFour(es: seq<Entry>, order: seq<int>)
    requires Linked(es, order)
    ensures |UnusedSlots(es)| + |order| == CHAINLEN
  {
    OrderedSlots(order);
    var linked := set s | s in order;
    assert forall s :: s in UnusedSlots(es) <==> 0 <= s < CHAINLEN && s !in linked;
    hide Linked;
    SlotsLeft(linked, UnusedSlots(es));
  }

  // ---------- relinking ----------

  function ToFront(order: seq<int>, p: nat): seq<int>
    requires p < |order|
  {
    [order[p]] + order[..p] + order[p + 1..]
  }

  function Without<T>(l: seq<T>, p: nat): seq<T>
    requires p < |l|
  {
    l[..p] + l[p + 1..]
  }

  predicate SameData(a: Entry, b: Entry) {
    a.key == b.key && a.val == b.val && a.ksize == b.ksize && a.vsize == b.vsize
  }

  predicate Holds(e: Entry, key: bytes, val: bytes) {
    e.key == key && e.val == val && e.ksize == |key| && e.vsize == |val|
  }

  /** What taking the entry at position p out of the list does to the others. */
  ghost predicate Bypassed(es: seq<Entry>, es': seq<Entry>, order: seq<int>, p: nat, front: int)
    requires |es| == |es'| == CHAINLEN && IsOrder(order) && p < |order|
  {
    && (forall s :: 0 <= s < CHAINLEN && s != order[p] ==> SameData(es'[s], es[s]))
    && (forall i :: 0 <= i < |order| && i != p ==>
          && es'[order[i]].next == (if i == p - 1 then Next(order, p) else Next(order, i))
          && es'[order[i]].prev ==
             (if i == 0 || (i == 1 && p == 0) then front else if i == p + 1 then Prev(order, p) else Prev(order, i)))
  }

  lemma ToFrontByPosition(order: seq<int>, p: nat)
    requires p < |order|
    ensures var o := ToFront(order, p);
      && |o| == |order| && o[0] == order[p]
      && (forall i :: 0 < i < |o| ==> o[i] == order[if i <= p then i - 1 else i])
  {
  }

  lemma ToFrontKeepsMembers(order: seq<int>, p: nat, s: int)
    requires p < |order|
    ensures s in ToFront(order, p) <==> s in order
  {
    var o := ToFront(order, p);
    ToFrontByPosition(order, p);
    if s in order {
      var i :| 0 <= i < |order| && order[i] == s;
      assert o[if i < p then i + 1 else if i == p then 0 else i] == s;
    }
  }

  lemma ToFrontIsOrder(order: seq<int>, p: nat)
    requires IsOrder(order) && p < |order|
    ensures var o := ToFront(order, p);
      && IsOrder(o) && |o| == |order| && o[0] == order[p]
      && (forall i :: 0 < i < |o| ==> o[i] == order[if i <= p then i - 1 else i])
      && (forall s :: s in o <==> s in order)
  {
    hide ToFront;
    ToFrontByPosition(order, p);
    forall s ensures s in ToFront(order, p) <==> s in order {
      ToFrontKeepsMembers(order, p, s);
    }
  }

  lemma WithoutIsOrder(order: seq<int>, p: nat)
    requires IsOrder(order) && p < |order|
    ensures var o := Without(order, p);
      && IsOrder(o) && |o| == |order| - 1
      && (forall i :: 0 <= i < |o| ==> o[i] == order[if i < p then i else i + 1])
      && (forall s :: s in o <==> s in order && s != order[p])
  {
    var o := Without(order, p);
    assert forall i :: 0 <= i < |o| ==> o[i] == order[if i < p then i else i + 1];
    forall s | s in order && s != order[p] ensures s in o {
      var i :| 0 <= i < |order| && order[i] == s;
      assert o[if i < p then i else i - 1] == s;
    }
  }

  lemma Slots(order: seq<int>)
    requires IsOrder(order)
    ensures |order| <= CHAINLEN && forall i :: 0 <= i < |order| ==> 0 <= order[i] < CHAINLEN
  {
  }

  lemma MovedLinks(es: seq<Entry>, es': seq<Entry>, order: seq<int>, p: nat)
    requires |es| == CHAINLEN && |es'| == CHAINLEN && IsOrder(order) && 0 < p < |order|
    requires Bypassed(es, es', order, p, order[p])
    requires es'[order[p]].prev == NIL && es'[order[p]].next == order[0]
    ensures IsOrder(ToFront(order, p)) && Links(es', ToFront(order, p))
  {
    hide IsOrder, ToFront;
    ToFrontIsOrder(order, p);
    Slots(order);
    var o := ToFront(order, p);
    forall i | 0 <= i < |o| ensures es'[o[i]].prev == Prev(o, i) && es'[o[i]].next == Next(o, i) {
    }
  }

  lemma MovedList(es: seq<Entry>, es': seq<Entry>, order: seq<int>, p: nat, key: bytes, val: bytes)
    requires |es| == CHAINLEN && |es'| == CHAINLEN && IsOrder(order) && 0 < p < |order|
    requires Bypassed(es, es', order, p, order[p])
    requires Holds(es'[order[p]], key, val)
    ensures IsOrder(ToFront(order, p))
    ensures ListOf(es', ToFront(order, p)) == [Pair(key, val)] + Without(ListOf(es, order), p)
  {
    hide IsOrder, ToFront;
    ToFrontIsOrder(order, p);
    Slots(order);
    Neighbours(order, p);
    var o := ToFront(order, p);
    var l := [Pair(key, val)] + Without(ListOf(es, order), p);
    forall i | 0 < i < |o| ensures l[i] == Pair(es'[o[i]].key, es'[o[i]].val) {
      var j := if i <= p then i - 1 else i;
      assert SameData(es'[order[j]], es[order[j]]);
      assert l[i] == ListOf(es, order)[j];
    }
  }

  lemma FrontKeyIsNew(l: Bucket, p: nat, key: bytes, val: bytes)
    requires DistinctKeys(l) && p < |l|
    requires forall i :: 0 <= i < |l| && i != p ==> l[i].key != key
    ensures DistinctKeys([Pair(key, val)] + Without(l, p))
  {
    var r := [Pair(key, val)] + Without(l, p);
    assert forall i :: 0 < i < |r| ==> r[i] == l[if i <= p then i - 1 else i];
  }

  lemma MovedInUse(
    es: seq<Entry>, es': seq<Entry>, order: seq<int>, p: nat, o: seq<int>, key: bytes, val: bytes)
    requires |es| == |es'| == CHAINLEN && IsOrder(order) && p < |order|
    requires InUse(es, order) && Bypassed(es, es', order, p, order[p]) && Holds(es'[order[p]], key, val)
    requires forall s :: s in o <==> s in order
    ensures InUse(es', o)
  {
    hide IsOrder;
    forall s | 0 <= s < CHAINLEN && s != order[p] ensures SameData(es'[s], es[s]) {
    }
  }

  lemma MovedIsLinked(es: seq<Entry>, es': seq<Entry>, order: seq<int>, p: nat, key: bytes, val: bytes)
    requires Linked(es, order) && 0 < p < |order| && |es'| == CHAINLEN
    requires forall i :: 0 <= i < |order| && i != p ==> ListOf(es, order)[i].key != key
    requires Bypassed(es, es', order, p, order[p])
    requires Holds(es'[order[p]], key, val) && es'[order[p]].prev == NIL && es'[order[p]].next == order[0]
    ensures Linked(es', ToFront(order, p))
    ensures ListOf(es', ToFront(order, p)) == [Pair(key, val)] + Without(ListOf(es, order), p)
  {
    hide Links, DistinctKeys, ListOf, IsOrder, ToFront, InUse, Bypassed;
    Slots(order);
    ToFrontIsOrder(order, p);
    MovedLinks(es, es', order, p);
    MovedList(es, es', order, p, key, val);
    FrontKeyIsNew(ListOf(es, order), p, key, val);
    MovedInUse(es, es', order, p, ToFront(order, p), key, val);
  }

  lemma UnlinkedLinks(es: seq<Entry>, es': seq<Entry>, order: seq<int>, p: nat)
    requires |es| == CHAINLEN && |es'| == CHAINLEN && IsOrder(order) && p < |order|
    requires Bypassed(es, es', order, p, NIL)
    ensures IsOrder(Without(order, p)) && Links(es', Without(order, p))
    ensures ListOf(es', Without(order, p)) == Without(ListOf(es, order), p)
  {
    WithoutIsOrder(order, p);
    var o := Without(order, p);
    var l := Without(ListOf(es, order), p);
    hide IsOrder;
    forall i | 0 <= i < |o| ensures es'[o[i]].prev == Prev(o, i) && es'[o[i]].next == Next(o, i) {
    }
    forall i | 0 <= i < |o| ensures l[i] == Pair(es'[o[i]].key, es'[o[i]].val) {
      var j := if i < p then i else i + 1;
      assert SameData(es'[order[j]], es[order[j]]);
      assert l[i] == ListOf(es, order)[j];
    }
  }

  lemma WithoutIsDistinct(l: Bucket, p: nat)
    requires DistinctKeys(l) && p < |l|
    ensures DistinctKeys(Without(l, p))
  {
    var r := Without(l, p);
    assert forall i :: 0 <= i < |r| ==> r[i] == l[if i < p then i else i + 1];
  }

  lemma UnlinkedInUse(es: seq<Entry>, es': seq<Entry>, order: seq<int>, p: nat, o: seq<int>)
    requires |es| == |es'| == CHAINLEN && IsOrder(order) && p < |order|
    requires InUse(es, order) && Bypassed(es, es', order, p, NIL) && !Used(es'[order[p]])
    requires forall s :: s in o <==> s in order && s != order[p]
    ensures InUse(es', o)
  {
    hide IsOrder;
    forall s | 0 <= s < CHAINLEN && s != order[p] ensures SameData(es'[s], es[s]) {
    }
  }

  lemma UnlinkedIsLinked(es: seq<Entry>, es': seq<Entry>, order: seq<int>, p: nat)
    requires Linked(es, order) && p < |order| && |es'| == CHAINLEN
    requires Bypassed(es, es', order, p, NIL) && !Used(es'[order[p]])
    ensures Linked(es', Without(order, p))
    ensures ListOf(es', Without(order, p)) == Without(ListOf(es, order), p)
  {
    hide Links, DistinctKeys, ListOf, IsOrder, Without, InUse, Bypassed, Used;
    WithoutIsOrder(order, p);
    UnlinkedLinks(es, es', order, p);
    WithoutIsDistinct(ListOf(es, order), p);
    UnlinkedInUse(es, es', order, p, Without(order, p));
  }

  /** What putting a slot in front of the list does to the others. */
  ghost predicate Pushed(es: seq<Entry>, es': seq<Entry>, order: seq<int>, slot: int)
    requires |es| == |es'| == CHAINLEN && IsOrder(order) && 0 <= slot < CHAINLEN
  {
    && es'[slot].prev == NIL && es'[slot].next == (if order == [] then NIL else order[0])
    && (forall s :: 0 <= s < CHAINLEN && s != slot ==> SameData(es'[s], es[s]))
    && (forall i :: 0 <= i < |order| ==>
          es'[order[i]].next == Next(order, i) && es'[order[i]].prev == if i == 0 then slot else Prev(order, i))
  }

  lemma ConsIsOrder(slot: int, order: seq<int>)
    requires IsOrder(order) && |order| < CHAINLEN && 0 <= slot < CHAINLEN && slot !in order
    ensures var o := [slot] + order;
      IsOrder(o) && forall i :: 0 < i < |o| ==> o[i] == order[i - 1]
  {
  }

  lemma PushedLinks(es: seq<Entry>, es': seq<Entry>, order: seq<int>, slot: int, key: bytes, val: bytes)
    requires |es| == |es'| == CHAINLEN && IsOrder(order) && |order| < CHAINLEN
    requires 0 <= slot < CHAINLEN && slot !in order
    requires Pushed(es, es', order, slot) && Holds(es'[slot], key, val)
    ensures IsOrder([slot] + order) && Links(es', [slot] + order)
    ensures ListOf(es', [slot] + order) == [Pair(key, val)] + ListOf(es, order)
  {
    hide IsOrder;
    ConsIsOrder(slot, order);
    Slots(order);
    var o := [slot] + order;
    forall i | 0 <= i < |o| ensures es'[o[i]].prev == Prev(o, i) && es'[o[i]].next == Next(o, i) {
    }
    var l := [Pair(key, val)] + ListOf(es, order);
    forall i | 0 < i < |o| ensures l[i] == Pair(es'[o[i]].key, es'[o[i]].val) {
      assert SameData(es'[order[i - 1]], es[order[i - 1]]);
      assert l[i] == ListOf(es, order)[i - 1];
    }
  }

  lemma PushedIsLinked(es: seq<Entry>, es': seq<Entry>, order: seq<int>, slot: int, key: bytes, val: bytes)
    requires Linked(es, order) && |order| < CHAINLEN && |es'| == CHAINLEN
    requires 0 <= slot < CHAINLEN && slot !in order
    requires forall i :: 0 <= i < |order| ==> ListOf(es, order)[i].key != key
    requires Pushed(es, es', order, slot) && Holds(es'[slot], key, val)
    ensures Linked(es', [slot] + order)
    ensures ListOf(es', [slot] + order) == [Pair(key, val)] + ListOf(es, order)
  {
    PushedLinks(es, es', order, slot, key, val);
    assert DistinctKeys([Pair(key, val)] + ListOf(es, order));
    hide Links, ListOf, IsOrder, DistinctKeys;
    assert InUse(es', [slot] + order) by {
      forall s | 0 <= s < CHAINLEN && s != slot ensures SameData(es'[s], es[s]) {
      }
    }
  }

  /** Another value in one linked entry, in place. */
  lemma RewrittenIsLinked(es: seq<Entry>, es': seq<Entry>, order: seq<int>, p: nat, val: bytes)
    requires Linked(es, order) && p < |order|
    requires es' == es[order[p] := es[order[p]].(val := val, vsize := |val|)]
    ensures Linked(es', order)
    ensures ListOf(es', order) == ListOf(es, order)[p := Pair(es[order[p]].key, val)]
  {
    RewrittenList(es, es', order, p, val);
    SameKeysAreDistinct(ListOf(es, order), ListOf(es', order));
    hide DistinctKeys, ListOf;
  }

  lemma RewrittenList(es: seq<Entry>, es': seq<Entry>, order: seq<int>, p: nat, val: bytes)
    requires |es| == CHAINLEN && IsOrder(order) && p < |order|
    requires es' == es[order[p] := es[order[p]].(val := val, vsize := |val|)]
    ensures ListOf(es', order) == ListOf(es, order)[p := Pair(es[order[p]].key, val)]
    ensures forall i :: 0 <= i < |order| ==> ListOf(es', order)[i].key == ListOf(es, order)[i].key
  {
  }

  lemma SameKeysAreDistinct(l: Bucket, l': Bucket)
    requires DistinctKeys(l) && |l'| == |l| && forall i :: 0 <= i < |l| ==> l'[i].key == l[i].key
    ensures DistinctKeys(l')
  {
  }

  // ---------- the assignments, on sequences ----------

  /** The neighbours of an entry linked to each other. */
  function Detached(es: seq<Entry>, prev: int, next: int): (r: seq<Entry>)
    requires -1 <= prev < |es| && -1 <= next < |es|
    ensures |r| == |es|
  {
    var es1 := if prev != NIL then es[prev := es[prev].(next := next)] else es;
    if next != NIL then es1[next := es1[next].(prev := prev)] else es1
  }

  /** Entry e linked in front of first. */
  function Fronted(es: seq<Entry>, e: int, first: int): (r: seq<Entry>)
    requires 0 <= e < |es| && 0 <= first < |es|
    ensures |r| == |es|
  {
    var es1 := es[e := es[e].(prev := NIL, next := first)];
    es1[first := es1[first].(prev := e)]
  }

  lemma FrontedEntry(es: seq<Entry>, e: int, first: int)
    requires 0 <= e < |es| && 0 <= first < |es| && e != first
    ensures Fronted(es, e, first)[e] == es[e].(prev := NIL, next := first)
  {
  }

  lemma Neighbours(order: seq<int>, at: nat)
    requires IsOrder(order) && at < |order|
    ensures -1 <= Prev(order, at) < CHAINLEN && -1 <= Next(order, at) < CHAINLEN
    ensures forall i :: 0 <= i < |order| && i != at ==>
      && order[i] != order[at]
      && (order[i] == Prev(order, at) <==> i == at - 1)
      && (order[i] == Next(order, at) <==> i == at + 1)
  {
  }

  lemma DetachedBypasses(es: seq<Entry>, order: seq<int>, at: nat)
    requires |es| == CHAINLEN && IsOrder(order) && Links(es, order) && at < |order|
    ensures var d := Detached(es, Prev(order, at), Next(order, at));
      && (forall s :: 0 <= s < CHAINLEN ==> SameData(d[s], es[s]))
      && (forall i :: 0 <= i < |order| && i != at ==>
            && d[order[i]].next == (if i == at - 1 then Next(order, at) else Next(order, i))
            && d[order[i]].prev == (if i == at + 1 then Prev(order, at) else Prev(order, i)))
  {
    hide IsOrder;
    Slots(order);
    Neighbours(order, at);
    var prev, next := Prev(order, at), Next(order, at);
    var d := Detached(es, prev, next);
    forall i | 0 <= i < |order| && i != at
      ensures d[order[i]].next == (if i == at - 1 then next else Next(order, i))
      ensures d[order[i]].prev == (if i == at + 1 then prev else Prev(order, i))
    {
      assert es[order[i]].prev == Prev(order, i) && es[order[i]].next == Next(order, i);
    }
  }

  lemma DetachedLeaves(es: seq<Entry>, order: seq<int>, at: nat)
    requires |es| == CHAINLEN && IsOrder(order) && at < |order|
    ensures Detached(es, Prev(order, at), Next(order, at))[order[at]] == es[order[at]]
  {
  }

  lemma FrontedBypasses(es: seq<Entry>, order: seq<int>, at: nat)
    requires |es| == CHAINLEN && IsOrder(order) && Links(es, order) && 0 < at < |order|
    ensures var d := Detached(es, Prev(order, at), Next(order, at));
      var f := Fronted(d, order[at], order[0]);
      && Bypassed(es, f, order, at, order[at])
      && SameData(f[order[at]], es[order[at]]) && f[order[at]].prev == NIL && f[order[at]].next == order[0]
  {
    hide Detached, Links, IsOrder;
    DetachedBypasses(es, order, at);
    Neighbours(order, at);
    Neighbours(order, 0);
    Slots(order);
    var d := Detached(es, Prev(order, at), Next(order, at));
    var f := Fronted(d, order[at], order[0]);
    DetachedLeaves(es, order, at);
    FrontedEntry(d, order[at], order[0]);
  }

  lemma LinkedEntry(es: seq<Entry>, order: seq<int>, at: nat)
    requires Linked(es, order) && at < |order|
    ensures |es| == CHAINLEN && 0 <= order[at] < CHAINLEN && 0 <= order[0] < CHAINLEN
    ensures -1 <= Prev(order, at) < CHAINLEN && -1 <= Next(order, at) < CHAINLEN
    ensures (order[at] == order[0] <==> at == 0) && (order[at] == order[|order| - 1] <==> at == |order| - 1)
    ensures var l := ListOf(es, order);
      && Used(es[order[at]]) && Holds(es[order[at]], l[at].key, l[at].val)
      && es[order[at]].prev == Prev(order, at) && es[order[at]].next == Next(order, at)
      && (forall i :: 0 <= i < |order| && i != at ==> l[i].key != l[at].key)
  {
    assert order[at] in order;
  }

  /** The whole of a promotion. */
  lemma PromotedIsLinked(es: seq<Entry>, order: seq<int>, at: nat)
    requires Linked(es, order) && 0 < at < |order|
    ensures var f := Fronted(Detached(es, Prev(order, at), Next(order, at)), order[at], order[0]);
      var l := ListOf(es, order);
      && Linked(f, ToFront(order, at))
      && ListOf(f, ToFront(order, at)) == [l[at]] + Without(l, at)
    ensures Ends(ToFront(order, at), order[at],
                 if at == |order| - 1 then Prev(order, at) else order[|order| - 1])
  {
    var f := Fronted(Detached(es, Prev(order, at), Next(order, at)), order[at], order[0]);
    var l := ListOf(es, order);
    LinkedEntry(es, order, at);
    FrontedBypasses(es, order, at);
    ToFrontIsOrder(order, at);
    hide Fronted, Detached, Links, InUse, DistinctKeys, Bypassed, ListOf, IsOrder;
    MovedIsLinked(es, f, order, at, l[at].key, l[at].val);
  }

  /** The whole of a removal. */
  lemma RemovedIsLinked(es: seq<Entry>, order: seq<int>, at: nat, freed: Entry)
    requires Linked(es, order) && at < |order| && !Used(freed)
    ensures var f := Detached(es, Prev(order, at), Next(order, at))[order[at] := freed];
      && Linked(f, Without(order, at))
      && ListOf(f, Without(order, at)) == Without(ListOf(es, order), at)
    ensures Ends(Without(order, at), if at == 0 then Next(order, 0) else order[0],
                 if at == |order| - 1 then Prev(order, at) else order[|order| - 1])
  {
    hide Detached, Links, InUse, DistinctKeys, Bypassed, ListOf, IsOrder;
    Slots(order);
    Neighbours(order, at);
    WithoutIsOrder(order, at);
    RemovedBypasses(es, order, at, freed);
    var f := Detached(es, Prev(order, at), Next(order, at))[order[at] := freed];
    UnlinkedIsLinked(es, f, order, at);
  }

  lemma RemovedBypasses(es: seq<Entry>, order: seq<int>, at: nat, freed: Entry)
    requires |es| == CHAINLEN && IsOrder(order) && Links(es, order) && at < |order|
    ensures Bypassed(es, Detached(es, Prev(order, at), Next(order, at))[order[at] := freed], order, at, NIL)
  {
    var d := Detached(es, Prev(order, at), Next(order, at));
    var f := d[order[at] := freed];
    DetachedBypasses(es, order, at);
    hide Detached, Links;
    forall i | 0 <= i < |order| && i != at ensures f[order[i]] == d[order[i]] {
    }
    hide IsOrder;
  }

  lemma InsertedPushes(es: seq<Entry>, order: seq<int>, slot: int, key: bytes, val: bytes)
    requires |es| == CHAINLEN && IsOrder(order) && Links(es, order)
    requires |order| < CHAINLEN && 0 <= slot < CHAINLEN && slot !in order
    ensures var filled := es[slot := Entry(key, val, |key|, |val|, NIL, NIL)];
      var f := if order == [] then filled else Fronted(filled, slot, order[0]);
      Pushed(es, f, order, slot) && Holds(f[slot], key, val)
  {
  }

  /** The whole of an insertion in front; chained says whether others follow. */
  lemma InsertedIsLinked(es: seq<Entry>, order: seq<int>, slot: int, key: bytes, val: bytes)
    requires Linked(es, order) && |order| < CHAINLEN && 0 <= slot < CHAINLEN && slot !in order
    requires forall i :: 0 <= i < |order| ==> ListOf(es, order)[i].key != key
    ensures var filled := es[slot := Entry(key, val, |key|, |val|, NIL, NIL)];
      var f := if order == [] then filled else Fronted(filled, slot, order[0]);
      && Linked(f, [slot] + order)
      && ListOf(f, [slot] + order) == [Pair(key, val)] + ListOf(es, order)
    ensures Ends([slot] + order, slot, if order == [] then slot else order[|order| - 1])
  {
    var filled := es[slot := Entry(key, val, |key|, |val|, NIL, NIL)];
    var f := if order == [] then filled else Fronted(filled, slot, order[0]);
    hide Fronted, Links, InUse, DistinctKeys, ListOf, IsOrder, Pushed;
    InsertedPushes(es, order, slot, key, val);
    PushedIsLinked(es, f, order, slot, key, val);
  }

  lemma ReusedBypasses(es: seq<Entry>, order: seq<int>, d': seq<Entry>, key: bytes, val: bytes)
    requires |es| == CHAINLEN && IsOrder(order) && Links(es, order) && |order| == CHAINLEN
    requires var d := Detached(es, Prev(order, 3), Next(order, 3));
      d' == d[order[3] := d[order[3]].(key := key, val := val, ksize := |key|, vsize := |val|)]
    ensures Bypassed(es, Fronted(d', order[3], order[0]), order, 3, order[3])
  {
    hide Detached, Links, IsOrder;
    Slots(order);
    Neighbours(order, 3);
    Neighbours(order, 0);
    DetachedBypasses(es, order, 3);
  }

  /** The whole of an insertion that evicts the last entry and reuses it. */
  lemma ReusedIsLinked(es: seq<Entry>, order: seq<int>, key: bytes, val: bytes)
    requires Linked(es, order) && |order| == CHAINLEN
    requires forall i :: 0 <= i < |order| ==> ListOf(es, order)[i].key != key
    ensures var e := order[3];
      var d := Detached(es, Prev(order, 3), Next(order, 3));
      var f := Fronted(d[e := d[e].(key := key, val := val, ksize := |key|, vsize := |val|)], e, order[0]);
      && Linked(f, ToFront(order, 3))
      && ListOf(f, ToFront(order, 3)) == [Pair(key, val)] + Without(ListOf(es, order), 3)
    ensures Ends(ToFront(order, 3), order[3], Prev(order, 3))
  {
    hide Detached, Fronted, Links, InUse, DistinctKeys, Bypassed, ListOf, IsOrder, ToFront;
    var e := order[3];
    Slots(order);
    Neighbours(order, 3);
    ToFrontIsOrder(order, 3);
    var d := Detached(es, Prev(order, 3), Next(order, 3));
    var d' := d[e := d[e].(key := key, val := val, ksize := |key|, vsize := |val|)];
    var f := Fronted(d', e, order[0]);
    FrontedEntry(d', e, order[0]);
    ReusedBypasses(es, order, d', key, val);
    MovedIsLinked(es, f, order, 3, key, val);
  }

  lemma PutInFull(l: Bucket, key: bytes, val: bytes)
    requires |l| == CHAINLEN && forall i :: 0 <= i < |l| ==> l[i].key != key
    ensures Put(l, key, val) == [Pair(key, val)] + Without(l, 3)
  {
    AbsentKey(l, key);
  }

  lemma PutByPosition(l: Bucket, key: bytes, val: bytes, at: nat)
    requires Proper(l) && at < |l| && l[at].key == key
    ensures var r := l[at := Pair(key, val)];
      && Put(l, key, val) == [r[at]] + Without(r, at)
      && (at == 0 ==> Put(l, key, val) == r)
  {
    DropAt(l, key, at);
    var r := l[at := Pair(key, val)];
    assert r[..at] == l[..at] && r[at + 1..] == l[at + 1..];
  }

  /** The value-buffer work of an increment: a short value moves to a fresh
      24-byte buffer, snprintf() fills the first 24 bytes. */
  method NewText(val: bytes, vsize: int, increment: int64) returns (terminated: bool, n: int64, text: bytes)
    requires val != [] && vsize == |val|
    ensures IncrValue(val, increment) == if terminated then Incremented(n, text) else NotTerminated
  {
    if val[vsize - 1] != NUL {
      return false, 0, [];
    }
    n := WrapI64(Strtoll(val) + increment);
    if vsize < 24 {
      text := Field23(n) + [NUL];
      assert Field23(n) + [NUL] + [] == text;
    } else {
      text := Field23(n) + [NUL] + val[24..];
    }
    terminated := true;
  }

  class Chain {
    var len: nat
    const entries: array<Entry>
    var first: int
    var last: int
    ghost var order: seq<int>

    ghost predicate Valid()
      reads this, entries
    {
      && entries.Length == CHAINLEN
      && Linked(entries[..], order) && Ends(order, first, last) && len == |order|
    }

    ghost function List(): (l: Bucket)
      requires Valid()
      reads this, entries
    {
      ListOf(entries[..], order)
    }

    constructor ()
      ensures Valid() && List() == [] && fresh(entries)
    {
      len, first, last, order := 0, NIL, NIL, [];
      entries := new Entry[CHAINLEN](_ => UNUSED);
      new;
      assert forall s :: 0 <= s < CHAINLEN ==> entries[..][s] == UNUSED;
    }

    lemma Fold()
      requires entries.Length == CHAINLEN && Linked(entries[..], order) && Ends(order, first, last) && len == |order|
      ensures Valid() && List() == ListOf(entries[..], order)
    {
    }

    /** What Valid() says about one linked entry. */
    lemma Facts(at: nat)
      requires Valid() && at < len
      ensures entries.Length == CHAINLEN && len == |order| && Linked(entries[..], order)
      ensures 0 <= order[at] < CHAINLEN && 0 <= first < CHAINLEN && first == order[0]
      ensures (order[at] == first <==> at == 0) && (order[at] == last <==> at == len - 1)
      ensures entries[order[at]].prev == Prev(order, at) && entries[order[at]].next == Next(order, at)
      ensures -1 <= Prev(order, at) < CHAINLEN && -1 <= Next(order, at) < CHAINLEN
      ensures last == order[len - 1] && List() == ListOf(entries[..], order)
    {
      LinkedEntry(entries[..], order, at);
    }

    method SetNext(i: int, link: int)
      requires 0 <= i < entries.Length
      modifies entries
      ensures entries[..] == old(entries[..])[i := old(entries[..])[i].(next := link)]
    {
      entries[i] := entries[i].(next := link);
    }

    method SetLinks(i: int, prev: int, next: int)
      requires 0 <= i < entries.Length
      modifies entries
      ensures entries[..] == old(entries[..])[i := old(entries[..])[i].(prev := prev, next := next)]
    {
      entries[i] := entries[i].(prev := prev, next := next);
    }

    method SetPrev(i: int, link: int)
      requires 0 <= i < entries.Length
      modifies entries
      ensures entries[..] == old(entries[..])[i := old(entries[..])[i].(prev := link)]
    {
      entries[i] := entries[i].(prev := link);
    }

    /** Copies a key and a value into an entry's own buffers. */
    method Store(i: int, key: bytes, val: bytes)
      requires 0 <= i < entries.Length
      modifies entries
      ensures entries[..] == old(entries[..])[
        i := old(entries[..])[i].(key := key, val := val, ksize := |key|, vsize := |val|)]
    {
      entries[i] := entries[i].(key := key, val := val, ksize := |key|, vsize := |val|);
    }

    /** An unused entry, or NIL when all are in use. */
    method AllocEntry() returns (slot: int)
      requires Valid()
      ensures len < CHAINLEN <==> slot != NIL
      ensures slot != NIL ==> 0 <= slot < CHAINLEN && !Used(entries[slot])
    {
      LinkedAndUnusedMakeFour(entries[..], order);
      ghost var unused := UnusedSlots(entries[..]);
      for i := 0 to CHAINLEN
        invariant forall j :: 0 <= j < i ==> Used(entries[j])
      {
        if entries[i].ksize == -1 {
          assert i in unused;
          return i;
        }
      }
      assert unused == {};
      return NIL;
    }

    lemma ListFacts()
      requires Valid()
      ensures |List()| == len == |order| && DistinctKeys(List())
      ensures first == if len == 0 then NIL else order[0]
    {
    }

    lemma EntryAt(at: nat)
      requires Valid() && at < len
      ensures |List()| == len == |order| && 0 <= order[at] < entries.Length
      ensures var e := entries[order[at]];
        && List()[at].key == e.key && e.ksize == |e.key|
        && e.next == if at == len - 1 then NIL else order[at + 1]
    {
      LinkedEntry(entries[..], order, at);
    }

    /** The entry that holds key, or NIL. */
    method FindInChain(key: bytes) returns (e: int, ghost at: nat)
      requires Valid()
      ensures e == NIL <==> Find(List(), key) == None
      ensures e == NIL ==> forall i :: 0 <= i < len ==> List()[i].key != key
      ensures e != NIL ==> at < len && e == order[at] && List()[at].key == key
    {
      hide Valid, List;
      e, at := first, 0;
      ListFacts();
      while e != NIL
        invariant at <= len && (at < len ==> e == order[at]) && (at == len ==> e == NIL)
        invariant forall i :: 0 <= i < at ==> List()[i].key != key
        decreases len - at
      {
        EntryAt(at);
        if |key| == entries[e].ksize && key == entries[e].key {
          FindAt(List(), key, at);
          return;
        }
        e := entries[e].next;
        at := at + 1;
      }
      if at < len {
        EntryAt(at);
      }
      AbsentKey(List(), key);
    }

    /** Fills an unused entry; it is not in the list yet. */
    method NewEntry(key: bytes, val: bytes) returns (slot: int)
      requires Valid() && len < CHAINLEN
      modifies entries
      ensures 0 <= slot < CHAINLEN && slot !in order
      ensures entries[..] == old(entries[..])[slot := Entry(key, val, |key|, |val|, NIL, NIL)]
    {
      slot := AllocEntry();
      assert !Used(entries[..][slot]);
      entries[slot] := Entry(key, val, |key|, |val|, NIL, NIL);
    }

    /** Evicts the last entry and reuses it for the new key, in front. */
    method InsertInFullChain(key: bytes, val: bytes)
      requires Valid() && len == CHAINLEN
      requires forall i :: 0 <= i < len ==> List()[i].key != key
      modifies this, entries
      ensures Valid() && List() == Put(old(List()), key, val)
    {
      hide *;
      FullFacts(key);
      Facts(3);
      ghost var es, o := entries[..], ToFront(order, 3);
      ReusedIsLinked(es, order, key, val);
      PutInFull(List(), key, val);
      ToFrontIsOrder(order, 3);
      var e := last;
      last := entries[e].prev;
      Detach(e);
      Store(e, key, val);
      MoveFirst(e);
      order := o;
      Fold();
    }

    lemma FullFacts(key: bytes)
      requires Valid() && len == CHAINLEN && forall i :: 0 <= i < len ==> List()[i].key != key
      ensures 3 < len && |List()| == |order| == 4 && last == order[3] && Prev(order, 3) == order[2]
      ensures forall i :: 0 <= i < |order| ==> ListOf(entries[..], order)[i].key != key
    {
    }

    /** Links the neighbours of an entry to each other. */
    method Detach(e: int)
      requires entries.Length == CHAINLEN && 0 <= e < CHAINLEN
      requires -1 <= entries[e].prev < CHAINLEN && -1 <= entries[e].next < CHAINLEN
      modifies entries
      ensures entries[..] == Detached(old(entries[..]), old(entries[e].prev), old(entries[e].next))
    {
      var prev, next := entries[e].prev, entries[e].next;
      if prev != NIL {
        SetNext(prev, next);
      }
      if next != NIL {
        SetPrev(next, prev);
      }
    }

    /** Links an entry in front of the first one. */
    method MoveFirst(e: int)
      requires entries.Length == CHAINLEN && 0 <= e < CHAINLEN && 0 <= first < CHAINLEN
      modifies this`first, entries
      ensures entries[..] == Fronted(old(entries[..]), e, old(first)) && first == e
    {
      SetLinks(e, NIL, first);
      SetPrev(first, e);
      first := e;
    }

    /** Moves a linked entry to the front. */
    method Promote(e: int, ghost at: nat)
      requires Valid() && 0 < at < len && e == order[at]
      modifies this, entries
      ensures Valid() && List() == [old(List())[at]] + Without(old(List()), at)
    {
      hide *;
      Facts(at);
      ghost var es, o := entries[..], ToFront(order, at);
      PromotedIsLinked(es, order, at);
      ToFrontIsOrder(order, at);
      if last == e {
        last := entries[e].prev;
      }
      Detach(e);
      MoveFirst(e);
      order := o;
      Fold();
    }

    method Set(key: bytes, val: bytes)
      requires Valid()
      modifies this, entries
      ensures Valid() && List() == Put(old(List()), key, val)
    {
      ghost var es, l := entries[..], List();
      var e;
      ghost var at;
      e, at := FindInChain(key);
      if e == NIL {
        AbsentKey(l, key);
        if len == CHAINLEN {
          InsertInFullChain(key, val);
        } else {
          var slot := NewEntry(key, val);
          Link(slot, es, key, val);
        }
      } else {
        // a match: replace the value in place, promote if necessary
        PutByPosition(l, key, val, at);
        Overwrite(e, val, at);
        hide Linked, Put, Drop, ListOf;
        if first != e {
          Promote(e, at);
        }
      }
    }

    /** Gives a linked entry another value. */
    method Overwrite(e: int, val: bytes, ghost at: nat)
      requires Valid() && at < len && e == order[at]
      modifies entries
      ensures Valid() && List() == old(List())[at := Pair(old(List())[at].key, val)]
    {
      ghost var es := entries[..];
      RewrittenIsLinked(es, es[e := es[e].(val := val, vsize := |val|)], order, at, val);
      hide Linked, ListOf;
      entries[e] := entries[e].(val := val, vsize := |val|);
      assert entries[..] == es[e := es[e].(val := val, vsize := |val|)];
    }

    /** Links a freshly filled entry in front. */
    method Link(slot: int, ghost es: seq<Entry>, key: bytes, val: bytes)
      requires entries.Length == CHAINLEN && Linked(es, order) && Ends(order, first, last)
      requires len == |order| < CHAINLEN && 0 <= slot < CHAINLEN && slot !in order
      requires entries[..] == es[slot := Entry(key, val, |key|, |val|, NIL, NIL)]
      requires forall i :: 0 <= i < len ==> ListOf(es, order)[i].key != key
      modifies this, entries
      ensures Valid() && List() == [Pair(key, val)] + ListOf(es, old(order))
    {
      hide *;
      LinkFacts(es);
      InsertedIsLinked(es, order, slot, key, val);
      if len == 0 {
        // line is empty, just put it there
        first, last, len := slot, slot, 1;
      } else {
        // slots are still available, put the entry first
        MoveFirst(slot);
        len := len + 1;
      }
      order := [slot] + order;
      Fold();
    }

    lemma LinkFacts(es: seq<Entry>)
      requires Linked(es, order) && Ends(order, first, last) && len == |order|
      ensures |es| == CHAINLEN && IsOrder(order) && |ListOf(es, order)| == |order|
      ensures len > 0 ==> 0 <= first < CHAINLEN && first == order[0] && last == order[len - 1]
    {
    }

    method Del(key: bytes) returns (hit: bool)
      requires Valid()
      modifies this, entries
      ensures Valid() && List() == Drop(old(List()), key) && hit == Has(old(List()), key)
    {
      ghost var es, l := entries[..], List();
      var e;
      ghost var at;
      e, at := FindInChain(key);
      if e == NIL {
        AbsentKey(l, key);
        return false;
      }
      FindAt(l, key, at);
      DropAt(l, key, at);
      Unlink(e, at);
      return true;
    }

    /** Takes a linked entry out of the list and frees it. */
    method Unlink(e: int, ghost at: nat)
      requires Valid() && at < len && e == order[at]
      modifies this, entries
      ensures Valid() && List() == Without(old(List()), at)
    {
      hide *;
      Facts(at);
      ghost var es, o := entries[..], Without(order, at);
      ghost var d := Detached(es, Prev(order, at), Next(order, at));
      ghost var freed := Freed(d[e]);
      RemovedIsLinked(es, order, at, freed);
      WithoutIsOrder(order, at);
      var prev, next := entries[e].prev, entries[e].next;
      Detach(e);
      if first == e {
        first := next;
      }
      if last == e {
        last := prev;
      }
      FreeEntry(e);
      len, order := len - 1, o;
      Fold();
    }

    method FreeEntry(e: int)
      requires 0 <= e < entries.Length
      modifies entries
      ensures entries[..] == old(entries[..])[e := Freed(old(entries[..])[e])]
    {
      entries[e] := Freed(entries[e]);
    }

    method Get(key: bytes) returns (r: Option<bytes>)
      requires Valid()
      ensures r == Find(List(), key)
    {
      var e;
      ghost var at;
      e, at := FindInChain(key);
      if e == NIL {
        return None;
      }
      FindAt(List(), key, at);
      return Some(entries[e].val);
    }

    /** -2: not listed; -1: another value; 0: swapped. */
    method Cas(key: bytes, oldval: bytes, newval: bytes) returns (code: int)
      requires Valid()
      modifies this, entries
      ensures Valid()
      ensures code == match Find(old(List()), key)
                      case None => -2
                      case Some(v) => if v == oldval then 0 else -1
      ensures List() == if code == 0 then Replace(old(List()), key, newval) else old(List())
    {
      ghost var l := List();
      var e;
      ghost var at;
      e, at := FindInChain(key);
      if e == NIL {
        return -2;
      }
      FindAt(l, key, at);
      EntryFacts(at);
      if entries[e].vsize != |oldval| || entries[e].val != oldval {
        return -1;
      }
      ReplaceAt(l, key, newval, at);
      Overwrite(e, newval, at);
      return 0;
    }

    lemma EntryFacts(at: nat)
      requires Valid() && at < len
      ensures |order| == len == |List()| && 0 <= order[at] < entries.Length && DistinctKeys(List())
      ensures entries[order[at]].val == List()[at].val && entries[order[at]].vsize == |List()[at].val|
    {
      LinkedEntry(entries[..], order, at);
    }

    /** -1: not listed; -2: not terminated; 0: incremented to newval. */
    method Incr(key: bytes, increment: int64) returns (code: int, newval: int64)
      requires Valid()
      requires Find(List(), key) != Some([])
      modifies this, entries
      ensures Valid()
      ensures match Find(old(List()), key)
        case None => code == -1 && List() == old(List())
        case Some(v) =>
          match IncrValue(v, increment)
          case NotTerminated => code == -2 && List() == old(List())
          case Incremented(n, stored) => code == 0 && newval == n && List() == Replace(old(List()), key, stored)
    {
      hide *;
      newval := 0;
      var e;
      ghost var at;
      e, at := FindInChain(key);
      if e == NIL {
        return -1, 0;
      }
      EntryFacts(at);
      ghost var l := List();
      FindAt(l, key, at);
      var terminated, n, text := NewText(entries[e].val, entries[e].vsize, increment);
      if !terminated {
        return -2, 0;
      }
      ReplaceAt(l, key, text, at);
      Overwrite(e, text, at);
      return 0, n;
    }
  }

  /** The hash table. contents is the abstract cache of CacheModel. */
  class Cache {
    const hash: M.HashFn
    const table: seq<Chain>
    ghost var contents: M.Table
    ghost const Repr: set<object>

    ghost predicate Valid()
      reads this, Repr
    {
      && this in Repr && |table| == |contents|
      && (forall i :: 0 <= i < |table| ==> table[i] in Repr && table[i].entries in Repr)
      && (forall i, j :: 0 <= i < |table| && 0 <= j < |table| && i != j ==>
            table[i] != table[j] && table[i].entries != table[j].entries)
      && (forall i :: 0 <= i < |table| ==> table[i].Valid() && table[i].List() == contents[i])
    }

    /** Four objects to a bucket. */
    constructor (numobjs: nat, hash: M.HashFn)
      requires numobjs >= CHAINLEN
      ensures Valid() && fresh(Repr)
      ensures this.hash == hash && contents == M.Empty(numobjs / CHAINLEN)
    {
      var hashlen := numobjs / CHAINLEN;
      var chains: seq<Chain> := [];
      ghost var footprint: set<object> := {};
      while |chains| < hashlen
        invariant |chains| <= hashlen
        invariant forall i :: 0 <= i < |chains| ==>
          && chains[i] in footprint && chains[i].entries in footprint
          && chains[i].Valid() && chains[i].List() == []
        invariant forall i, j :: 0 <= i < j < |chains| ==>
          chains[i] != chains[j] && chains[i].entries != chains[j].entries
        invariant fresh(footprint)
      {
        var c := new Chain();
        footprint := footprint + {c, c.entries};
        chains := chains + [c];
      }
      this.hash, this.table := hash, chains;
      contents := M.Empty(hashlen);
      Repr := footprint + {this};
    }

    /** The chain that key belongs to. */
    function Bucket(key: bytes): (i: nat)
      requires |table| > 0
      ensures i < |table|
    {
      M.Slot(hash, |table|, key)
    }

    method Get(key: bytes) returns (r: Option<bytes>)
      requires Valid()
      ensures r == M.Get(hash, contents, key)
    {
      r := table[Bucket(key)].Get(key);
    }

    method Set(key: bytes, val: bytes)
      requires Valid()
      modifies Repr
      ensures Valid() && contents == M.Set(hash, old(contents), key, val)
    {
      hide Linked, ListOf, Ends, Put, Drop, Replace, Find, IncrValue;
      var c := table[Bucket(key)];
      c.Set(key, val);
      contents := M.Set(hash, contents, key, val);
    }

    method Del(key: bytes) returns (hit: bool)
      requires Valid()
      modifies Repr
      ensures Valid() && contents == M.Del(hash, old(contents), key)
      ensures hit == M.Get(hash, old(contents), key).Some?
    {
      hide Linked, ListOf, Ends, Put, Drop, Replace, Find, IncrValue;
      var c := table[Bucket(key)];
      hit := c.Del(key);
      contents := M.Del(hash, contents, key);
    }

    method Cas(key: bytes, oldval: bytes, newval: bytes) returns (code: int)
      requires Valid()
      modifies Repr
      ensures Valid() && contents == M.Cas(hash, old(contents), key, oldval, newval)
      ensures code == M.CasCode(hash, old(contents), key, oldval)
    {
      hide Linked, ListOf, Ends, Put, Drop, Replace, Find, IncrValue;
      var c := table[Bucket(key)];
      code := c.Cas(key, oldval, newval);
      contents := M.Cas(hash, contents, key, oldval, newval);
    }

    method Incr(key: bytes, increment: int64) returns (code: int, newval: int64)
      requires Valid()
      requires M.Get(hash, contents, key) != Some([])
      modifies Repr
      ensures Valid() && contents == M.Incr(hash, old(contents), key, increment)
      ensures code == M.IncrCode(hash, old(contents), key, increment)
      ensures code == 0 ==> newval == IncrValue(M.Get(hash, old(contents), key).value, increment).number
    {
      hide Linked, ListOf, Ends, Put, Drop, Replace, Find, IncrValue;
      var c := table[Bucket(key)];
      code, newval := c.Incr(key, increment);
      contents := M.Incr(hash, contents, key, increment);
    }
  }
}
