/** The abstract cache, a table of recent lists, and what it promises about
    recency over whole runs of operations. */
module CacheModel {
  import opened Bytes
  import opened Decimal
  import opened RecentList

  /** Any hash function on keys. */
  type HashFn = bytes -> nat

  type Table = t: seq<Bucket> | |t| > 0 witness [[]]

  function Slot(h: HashFn, size: nat, k: bytes): (i: nat)
    requires size > 0
    ensures i < size
  {
    h(k) % size
  }

  function Empty(size: nat): Table
    requires size > 0
  {
    seq(size, i => [])
  }

  /** Every list is proper and holds only keys that hash to it. */
  ghost predicate Placed(h: HashFn, t: Table) {
    && (forall i :: 0 <= i < |t| ==> Proper(t[i]))
    && (forall i, j :: 0 <= i < |t| && 0 <= j < |t[i]| ==> Slot(h, |t|, t[i][j].key) == i)
  }

  // ---------- the five operations, with the C return codes ----------

  function Get(h: HashFn, t: Table, k: bytes): Option<bytes> {
    Find(t[Slot(h, |t|, k)], k)
  }

  function Set(h: HashFn, t: Table, k: bytes, v: bytes): (r: Table)
    ensures |r| == |t|
  {
    var i := Slot(h, |t|, k);
    t[i := Put(t[i], k, v)]
  }

  function Del(h: HashFn, t: Table, k: bytes): (r: Table)
    ensures |r| == |t|
  {
    var i := Slot(h, |t|, k);
    t[i := Drop(t[i], k)]
  }

  /** The table with another value for a key that it may hold. */
  function Rewrite(h: HashFn, t: Table, k: bytes, v: bytes): (r: Table)
    ensures |r| == |t|
  {
    var i := Slot(h, |t|, k);
    t[i := Replace(t[i], k, v)]
  }

  /** -2: not cached; -1: another value; 0: swapped. */
  function CasCode(h: HashFn, t: Table, k: bytes, oldval: bytes): int {
    match Get(h, t, k)
    case None => -2
    case Some(v) => if v == oldval then 0 else -1
  }

  function Cas(h: HashFn, t: Table, k: bytes, oldval: bytes, newval: bytes): (r: Table)
    ensures |r| == |t|
  {
    if CasCode(h, t, k, oldval) == 0 then Rewrite(h, t, k, newval) else t
  }

  /** -1: not cached; -2: not terminated; 0: incremented. */
  function IncrCode(h: HashFn, t: Table, k: bytes, increment: int64): int {
    match Get(h, t, k)
    case None => -1
    case Some(v) => if IncrValue(v, increment).NotTerminated? then -2 else 0
  }

  function Incr(h: HashFn, t: Table, k: bytes, increment: int64): (r: Table)
    ensures |r| == |t|
  {
    match Get(h, t, k)
    case None => t
    case Some(v) =>
      match IncrValue(v, increment)
      case NotTerminated => t
      case Incremented(_, stored) => Rewrite(h, t, k, stored)
  }

  // ---------- lookups after a change ----------

  lemma GetAfterSet(h: HashFn, t: Table, k: bytes, v: bytes, q: bytes)
    ensures Get(h, Set(h, t, k, v), k) == Some(v)
    ensures q != k ==> Get(h, Set(h, t, k, v), q) == Get(h, t, q) || Get(h, Set(h, t, k, v), q) == None
  {
    if q != k {
      PutFindsNoMore(t[Slot(h, |t|, k)], q, k, v);
    }
  }

  lemma GetAfterDel(h: HashFn, t: Table, k: bytes, q: bytes)
    ensures Get(h, Del(h, t, k), q) == if q == k then None else Get(h, t, q)
  {
    DropForgets(t[Slot(h, |t|, k)], k);
    if q != k {
      DropKeepsOthers(t[Slot(h, |t|, k)], q, k);
    }
  }

  lemma GetAfterRewrite(h: HashFn, t: Table, k: bytes, v: bytes, q: bytes)
    ensures Get(h, Rewrite(h, t, k, v), q) ==
            if q == k && Get(h, t, k).Some? then Some(v) else Get(h, t, q)
  {
    ReplaceKeepsOrder(t[Slot(h, |t|, k)], k, v, q);
  }

  // ---------- runs ----------

  datatype Op =
    | OpGet(key: bytes)
    | OpSet(key: bytes, val: bytes)
    | OpDel(key: bytes)
    | OpCas(key: bytes, oldval: bytes, newval: bytes)
    | OpIncr(key: bytes, increment: int64)

  function Apply(h: HashFn, t: Table, op: Op): (r: Table)
    ensures |r| == |t|
  {
    match op
    case OpGet(_) => t
    case OpSet(k, v) => Set(h, t, k, v)
    case OpDel(k) => Del(h, t, k)
    case OpCas(k, o, n) => Cas(h, t, k, o, n)
    case OpIncr(k, i) => Incr(h, t, k, i)
  }

  function Run(h: HashFn, t: Table, ops: seq<Op>): (r: Table)
    ensures |r| == |t|
  {
    if ops == [] then t else Apply(h, Run(h, t, ops[..|ops| - 1]), ops[|ops| - 1])
  }

  /** The other keys that ops set whose hash leaves the same remainder as that
      of k: only they can push k out. */
  function Rivals(h: HashFn, size: nat, k: bytes, ops: seq<Op>): set<bytes>
    requires size > 0
  {
    set op | op in ops && op.OpSet? && op.key != k && h(op.key) % size == h(k) % size :: op.key
  }

  /** The keys listed before k in its bucket. */
  function Before(h: HashFn, t: Table, k: bytes): set<bytes> {
    Ahead(t[Slot(h, |t|, k)], k)
  }

  /** b may stand at index i of a table. */
  ghost predicate Home(h: HashFn, size: nat, i: nat, b: Bucket)
    requires size > 0
  {
    Proper(b) && forall j :: 0 <= j < |b| ==> Slot(h, size, b[j].key) == i
  }

  lemma PlacedIsHome(h: HashFn, t: Table, i: nat)
    requires Placed(h, t) && i < |t|
    ensures Home(h, |t|, i, t[i])
  {
  }

  lemma PlacedUpdate(h: HashFn, t: Table, i: nat, b: Bucket)
    requires Placed(h, t) && i < |t| && Home(h, |t|, i, b)
    ensures Placed(h, t[i := b])
  {
    hide Slot, Proper;
  }

  lemma DropIsHome(h: HashFn, size: nat, i: nat, l: Bucket, k: bytes)
    requires size > 0 && Home(h, size, i, l)
    ensures Home(h, size, i, Drop(l, k))
  {
    hide Slot;
    var r := Drop(l, k);
    DropIsProper(l, k);
    forall j | 0 <= j < |r| ensures Slot(h, size, r[j].key) == i {
      DropIsSubsequence(l, k, j);
    }
  }

  lemma PutIsHome(h: HashFn, size: nat, l: Bucket, k: bytes, v: bytes)
    requires size > 0 && Home(h, size, Slot(h, size, k), l)
    ensures Home(h, size, Slot(h, size, k), Put(l, k, v))
  {
    hide Slot, Drop;
    DropIsHome(h, size, Slot(h, size, k), l, k);
    PutIsProper(l, k, v);
    var r := Put(l, k, v);
    forall j | 0 < j < |r| ensures r[j] == Drop(l, k)[j - 1] {
    }
  }

  lemma RewriteKeepsPlaced(h: HashFn, t: Table, k: bytes, v: bytes)
    requires Placed(h, t)
    ensures Placed(h, Rewrite(h, t, k, v))
  {
    hide Slot, Replace;
    var i := Slot(h, |t|, k);
    ReplaceIsProper(t[i], k, v);
    PlacedUpdate(h, t, i, Replace(t[i], k, v));
  }

  lemma OpKeepsPlaced(h: HashFn, t: Table, op: Op)
    requires Placed(h, t)
    ensures Placed(h, Apply(h, t, op))
  {
    hide Slot, Placed, Put, Drop, Rewrite, IncrValue;
    var i, k := Slot(h, |t|, op.key), op.key;
    PlacedIsHome(h, t, i);
    hide Home;
    match op {
      case OpGet(_) =>
      case OpSet(_, v) =>
        PutIsHome(h, |t|, t[i], k, v);
        PlacedUpdate(h, t, i, Put(t[i], k, v));
      case OpDel(_) =>
        DropIsHome(h, |t|, i, t[i], k);
        PlacedUpdate(h, t, i, Drop(t[i], k));
      case OpCas(_, _, n) => RewriteKeepsPlaced(h, t, k, n);
      case OpIncr(_, n) =>
        if IncrCode(h, t, k, n) == 0 {
          RewriteKeepsPlaced(h, t, k, IncrValue(Get(h, t, k).value, n).stored);
        }
    }
  }

  lemma RivalsOfOne(h: HashFn, size: nat, k: bytes, op: Op)
    requires size > 0
    ensures Rivals(h, size, k, [op]) ==
            if op.OpSet? && op.key != k && Slot(h, size, op.key) == Slot(h, size, k) then {op.key} else {}
  {
  }

  /** What an operation that sets no rival of k and does not delete k does to
      k: it stays, and no key gets in front of it. */
  lemma OthersKeepRecency(h: HashFn, t: Table, k: bytes, op: Op)
    requires Get(h, t, k).Some? && op != OpDel(k)
    requires op.OpSet? ==> op.key == k || Slot(h, |t|, op.key) != Slot(h, |t|, k)
    ensures var r := Apply(h, t, op);
      && Get(h, r, k).Some? && Before(h, r, k) <= Before(h, t, k)
      && (!op.OpDel? && !(op.OpSet? && op.key == k) ==> Before(h, r, k) == Before(h, t, k))
  {
    var b := t[Slot(h, |t|, op.key)];
    match op {
      case OpGet(_) =>
      case OpSet(_, _) =>
      case OpDel(q) => DropKeepsOthers(b, k, q);
      case OpCas(q, _, n) => ReplaceKeepsOrder(b, q, n, k);
      case OpIncr(q, n) =>
        if IncrCode(h, t, q, n) == 0 {
          ReplaceKeepsOrder(b, q, IncrValue(Find(b, q).value, n).stored, k);
        }
    }
  }

  /** One operation moves k back only by setting a rival of it. */
  lemma StepKeepsRecency(h: HashFn, t: Table, k: bytes, op: Op)
    requires Placed(h, t) && Get(h, t, k).Some? && op != OpDel(k)
    ensures var ahead := Before(h, t, k) + Rivals(h, |t|, k, [op]);
      var r := Apply(h, t, op);
      && (Get(h, r, k).Some? ==> Before(h, r, k) <= ahead)
      && (Get(h, r, k).None? ==> |ahead| >= CHAINLEN)
      && (!op.OpDel? && !(op.OpSet? && op.key == k) ==>
            && (Get(h, r, k).Some? <==> |ahead| < CHAINLEN)
            && (Get(h, r, k).Some? ==> Before(h, r, k) == ahead))
  {
    var i := Slot(h, |t|, k);
    RivalsOfOne(h, |t|, k, op);
    AheadCounts(t[i], k);
    if op.OpSet? && op.key != k && Slot(h, |t|, op.key) == i {
      PutPushesBack(t[i], k, op.key, op.val);
    } else {
      OthersKeepRecency(h, t, k, op);
      assert Before(h, t, k) + Rivals(h, |t|, k, [op]) == Before(h, t, k);
    }
  }

  /** Keys whose hashes leave different remainders have nothing to do with each
      other: an operation on the one changes nothing in the bucket of the other. */
  lemma OtherBucketsAreUntouched(h: HashFn, t: Table, op: Op, k: bytes)
    requires h(op.key) % |t| != h(k) % |t|
    ensures var r := Apply(h, t, op);
      r[h(k) % |t|] == t[h(k) % |t|] && Get(h, r, k) == Get(h, t, k)
  {
    hide Put, Drop, Replace, IncrValue;
  }

  /** ... and so for whole runs: what is cached of k, and where, depends on the
      operations on keys of its own bucket alone. */
  lemma {:induction false} OtherBucketsDoNotMatter(h: HashFn, t: Table, ops: seq<Op>, k: bytes)
    requires forall op :: op in ops ==> h(op.key) % |t| != h(k) % |t|
    ensures var r := Run(h, t, ops);
      r[h(k) % |t|] == t[h(k) % |t|] && Get(h, r, k) == Get(h, t, k)
  {
    if ops != [] {
      hide Apply, Get;
      OtherBucketsDoNotMatter(h, t, ops[..|ops| - 1], k);
      OtherBucketsAreUntouched(h, Run(h, t, ops[..|ops| - 1]), ops[|ops| - 1], k);
    }
  }

  // ---------- the value of a cached key ----------

  /** What an operation makes of the value v of k. */
  function NextValue(k: bytes, v: bytes, op: Op): bytes {
    if op.key != k then v
    else
      match op
      case OpGet(_) => v
      case OpSet(_, w) => w
      case OpDel(_) => v
      case OpCas(_, o, n) => if v == o then n else v
      case OpIncr(_, i) => match IncrValue(v, i) case NotTerminated => v case Incremented(_, w) => w
  }

  /** The value of k after ops, were nothing ever evicted. */
  function LastValue(k: bytes, v: bytes, ops: seq<Op>): bytes {
    if ops == [] then v else NextValue(k, LastValue(k, v, ops[..|ops| - 1]), ops[|ops| - 1])
  }

  lemma ValueAfterOp(h: HashFn, t: Table, k: bytes, v: bytes, op: Op)
    requires Get(h, t, k).Some? ==> Get(h, t, k).value == v
    ensures Get(h, Apply(h, t, op), k).Some? ==> Get(h, Apply(h, t, op), k).value == NextValue(k, v, op)
  {
    hide Set, Del, Rewrite;
    match op {
      case OpGet(_) =>
      case OpSet(q, w) => GetAfterSet(h, t, q, w, k);
      case OpDel(q) => GetAfterDel(h, t, q, k);
      case OpCas(q, _, n) => GetAfterRewrite(h, t, q, n, k);
      case OpIncr(q, n) =>
        if IncrCode(h, t, q, n) == 0 {
          GetAfterRewrite(h, t, q, IncrValue(Get(h, t, q).value, n).stored, k);
        }
    }
  }

  /** A key found in the cache has the value that an unbounded map would have. */
  lemma {:induction false} ValueOverRun(h: HashFn, t: Table, k: bytes, v: bytes, ops: seq<Op>)
    requires Get(h, t, k) == Some(v)
    ensures Get(h, Run(h, t, ops), k).Some? ==> Get(h, Run(h, t, ops), k).value == LastValue(k, v, ops)
  {
    if ops != [] {
      var front := ops[..|ops| - 1];
      ValueOverRun(h, t, k, v, front);
      ValueAfterOp(h, Run(h, t, front), k, LastValue(k, v, front), ops[|ops| - 1]);
    }
  }

  // ---------- recency over runs ----------

  /** get, cas and incr never change the order of any bucket. */
  lemma OnlySetAndDelReorder(h: HashFn, t: Table, op: Op, i: nat, j: nat)
    requires op.OpGet? || op.OpCas? || op.OpIncr?
    requires i < |t| && j < |t[i]|
    ensures |Apply(h, t, op)[i]| == |t[i]| && Apply(h, t, op)[i][j].key == t[i][j].key
  {
    var b := t[Slot(h, |t|, op.key)];
    match op {
      case OpGet(_) =>
      case OpCas(k, _, n) => ReplaceIsProper(b, k, n);
      case OpIncr(k, n) =>
        if IncrCode(h, t, k, n) == 0 {
          ReplaceIsProper(b, k, IncrValue(Find(b, k).value, n).stored);
        }
    }
  }

  lemma RivalsGrow(h: HashFn, size: nat, k: bytes, ops: seq<Op>)
    requires size > 0 && ops != []
    ensures Rivals(h, size, k, ops) ==
            Rivals(h, size, k, ops[..|ops| - 1]) + Rivals(h, size, k, [ops[|ops| - 1]])
  {
    var front, last := ops[..|ops| - 1], ops[|ops| - 1];
    assert forall op :: op in ops <==> op in front || op in [last];
  }

  lemma {:induction false} RunIsPlaced(h: HashFn, t: Table, ops: seq<Op>)
    requires Placed(h, t)
    ensures Placed(h, Run(h, t, ops))
  {
    if ops != [] {
      RunIsPlaced(h, t, ops[..|ops| - 1]);
      OpKeepsPlaced(h, Run(h, t, ops[..|ops| - 1]), ops[|ops| - 1]);
    }
  }

  lemma {:induction false} RecencyOverRun(h: HashFn, t: Table, k: bytes, ops: seq<Op>)
    requires Placed(h, t) && Get(h, t, k).Some? && Before(h, t, k) == {}
    requires OpDel(k) !in ops
    ensures var rivals := Rivals(h, |t|, k, ops);
      var r := Run(h, t, ops);
      |rivals| >= CHAINLEN || (Get(h, r, k).Some? && Before(h, r, k) <= rivals)
  {
    if ops != [] {
      var front, last := ops[..|ops| - 1], ops[|ops| - 1];
      RecencyOverRun(h, t, k, front);
      RivalsGrow(h, |t|, k, ops);
      RunIsPlaced(h, t, front);
      var earlier, latest, all := Rivals(h, |t|, k, front), Rivals(h, |t|, k, [last]), Rivals(h, |t|, k, ops);
      Bigger(earlier, all);
      if |earlier| < CHAINLEN {
        var mid := Run(h, t, front);
        StepKeepsRecency(h, mid, k, last);
        Bigger(Before(h, mid, k) + latest, all);
      }
    }
  }

  lemma {:induction false} Bigger<T>(a: set<T>, b: set<T>)
    requires a <= b
    ensures |a| <= |b|
  {
    if a != {} {
      var x :| x in a;
      Bigger(a - {x}, b - {x});
    }
  }

  /** A key that was set and not deleted is found, with its latest value, unless
      four other keys of its bucket were set since, and as many keys at most
      stand before it. */
  lemma SetKeyIsKept(h: HashFn, t: Table, k: bytes, v: bytes, ops: seq<Op>)
    requires Placed(h, t) && OpDel(k) !in ops
    ensures var rivals := Rivals(h, |t|, k, ops);
      var r := Run(h, Set(h, t, k, v), ops);
      |rivals| < 4 ==>
        Get(h, r, k) == Some(LastValue(k, v, ops)) && Pos(r[h(k) % |t|], k) <= |rivals|
  {
    var t1 := Set(h, t, k, v);
    OpKeepsPlaced(h, t, OpSet(k, v));
    PutIsProper(t[Slot(h, |t|, k)], k, v);
    RecencyOverRun(h, t1, k, ops);
    RunIsPlaced(h, t1, ops);
    ValueOverRun(h, t1, k, v, ops);
    var rivals := Rivals(h, |t|, k, ops);
    var r := Run(h, t1, ops);
    if |rivals| < CHAINLEN {
      AheadCounts(r[Slot(h, |t|, k)], k);
      Bigger(Before(h, r, k), rivals);
    }
  }

  lemma {:induction false} ExactOverRun(h: HashFn, t: Table, k: bytes, ops: seq<Op>)
    requires Placed(h, t) && Get(h, t, k).Some? && Before(h, t, k) == {}
    requires forall op :: op in ops ==> !op.OpDel? && !(op.OpSet? && op.key == k)
    ensures var rivals := Rivals(h, |t|, k, ops);
      var r := Run(h, t, ops);
      && (Get(h, r, k).Some? <==> |rivals| < CHAINLEN)
      && (Get(h, r, k).Some? ==> Before(h, r, k) == rivals)
  {
    if ops != [] {
      var front, last := ops[..|ops| - 1], ops[|ops| - 1];
      ExactOverRun(h, t, k, front);
      RivalsGrow(h, |t|, k, ops);
      RunIsPlaced(h, t, front);
      Bigger(Rivals(h, |t|, k, front), Rivals(h, |t|, k, ops));
      var mid := Run(h, t, front);
      if Get(h, mid, k).Some? {
        StepKeepsRecency(h, mid, k, last);
      } else {
        AbsentStaysAbsent(h, mid, k, last);
      }
    }
  }

  /** Only a set of k brings k into the cache. */
  lemma AbsentStaysAbsent(h: HashFn, t: Table, k: bytes, op: Op)
    requires Get(h, t, k).None? && !(op.OpSet? && op.key == k)
    ensures Get(h, Apply(h, t, op), k).None?
  {
    match op {
      case OpGet(_) =>
      case OpSet(q, v) => GetAfterSet(h, t, q, v, k);
      case OpDel(q) => GetAfterDel(h, t, q, k);
      case OpCas(q, _, n) => GetAfterRewrite(h, t, q, n, k);
      case OpIncr(q, n) =>
        if IncrCode(h, t, q, n) == 0 {
          GetAfterRewrite(h, t, q, IncrValue(Get(h, t, q).value, n).stored, k);
        }
    }
  }

  /** Without deletions the rule is exact: after its last set, a key is found,
      with its latest value, just when fewer than four other keys of its bucket
      were set since, and its position is their number. */
  lemma EvictionIsExact(h: HashFn, t: Table, k: bytes, v: bytes, ops: seq<Op>)
    requires Placed(h, t)
    requires forall op :: op in ops ==> !op.OpDel? && !(op.OpSet? && op.key == k)
    ensures var rivals := Rivals(h, |t|, k, ops);
      var r := Run(h, Set(h, t, k, v), ops);
      && Get(h, r, k) == (if |rivals| < 4 then Some(LastValue(k, v, ops)) else None)
      && (|rivals| < 4 ==> Pos(r[h(k) % |t|], k) == |rivals|)
  {
    var t1 := Set(h, t, k, v);
    OpKeepsPlaced(h, t, OpSet(k, v));
    PutIsProper(t[Slot(h, |t|, k)], k, v);
    ExactOverRun(h, t1, k, ops);
    RunIsPlaced(h, t1, ops);
    ValueOverRun(h, t1, k, v, ops);
    AheadCounts(Run(h, t1, ops)[Slot(h, |t|, k)], k);
  }
}
