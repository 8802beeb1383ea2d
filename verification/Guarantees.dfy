/** What the write-behind protocol promises over whole runs. */
module Guarantees {
  import opened Bytes
  import opened Decimal
  import opened Protocol
  import opened Linear
  import C = CacheModel

  ghost predicate FairRun(events: seq<Event>) {
    forall e :: e in events && e.Arrive? ==> Fair(e.m)
  }

  // ---------- one map for all clients ----------

  /** For every interleaving of the two threads, every reply sent is the one
      that a single map gives to that message when it runs the messages one by
      one in the order of their arrival. */
  lemma Linearizable(env: Env, size: nat, db: Db, events: seq<Event>, r: Reply)
    requires size > 0 && Small(db) && FairRun(events)
    requires r in Run(env, Start(size, db), events).replies
    ensures var msgs := Arrivals(events);
      && r.serial < |msgs| && r.wireId == msgs[r.serial].wireId
      && Agrees(env.readOnly, SeqMap(env.readOnly, db, msgs[..r.serial]), msgs[r.serial], r.body)
  {
    RunIsSequential(env, size, db, events);
    HistoryIsSequential(env.readOnly, db, Arrivals(events));
    var replies := Run(env, Start(size, db), events).replies;
    var i :| 0 <= i < |replies| && replies[i] == r;
    assert ReplyAgrees(env.readOnly, r, HistoryOf(env.readOnly, db, Arrivals(events)));
    MapsAreSequential(env.readOnly, db, Arrivals(events), r.serial);
  }

  /** In every reachable state the backend, once the queue is replayed on it, is
      the sequential map, and a cached key has the value it has there. */
  lemma CacheIsCoherent(env: Env, size: nat, db: Db, events: seq<Event>, k: bytes)
    requires size > 0 && Small(db) && FairRun(events)
    ensures var s := Run(env, Start(size, db), events);
      var ahead := Replay(s.db, s.queue);
      && ahead == SeqMap(env.readOnly, db, Arrivals(events))
      && (C.Get(env.hash, s.cache, k).Some? ==> k in ahead && ahead[k] == C.Get(env.hash, s.cache, k).value)
  {
    var s := Run(env, Start(size, db), events);
    var h := HistoryOf(env.readOnly, db, Arrivals(events));
    RunIsSequential(env, size, db, events);
    HistoryIsSequential(env.readOnly, db, Arrivals(events));
    AlignedReplays(env.readOnly, s.db, s.queue, h);
    assert CoherentAt(env.hash, s.cache, h.now, k);
  }

  /** When the database thread takes an entry, the backend is exactly the map
      its message met, and afterwards exactly the map that message left: a
      synchronous reply comes after the write it confirms. */
  lemma WritesLandInOrder(env: Env, size: nat, db: Db, events: seq<Event>)
    requires size > 0 && Small(db) && FairRun(events)
    requires Run(env, Start(size, db), events).queue != []
    ensures var s := Run(env, Start(size, db), events);
      var msgs, i := Arrivals(events), s.queue[0].serial;
      && i < |msgs|
      && s.db == SeqMap(env.readOnly, db, msgs[..i])
      && DbStep(env, s).db == SeqMap(env.readOnly, db, msgs[..i + 1])
  {
    hide Effect, Run, Arrivals, HistoryOf, Perform;
    var s := Run(env, Start(size, db), events);
    var msgs, i := Arrivals(events), s.queue[0].serial;
    RunIsSequential(env, size, db, events);
    HistoryIsSequential(env.readOnly, db, msgs);
    MapsAreSequential(env.readOnly, db, msgs, i);
    BackendIsTheMap(env.readOnly, s.db, msgs[i]);
    assert msgs[..i + 1][..i] == msgs[..i];
  }

  // ---------- reads after writes ----------

  predicate LeavesAlone(m: Message, k: bytes) {
    m.Request? && m.op.key == k ==> m.op.Get? || CacheOnly(m.flags)
  }

  /** The map keeps what was last written. */
  lemma {:induction false} WriteStays(db: Db, msgs: seq<Message>, i: nat, k: bytes)
    requires i < |msgs| && msgs[i].Request? && !CacheOnly(msgs[i].flags)
    requires msgs[i].op.key == k && (msgs[i].op.Set? || msgs[i].op.Del?)
    requires forall l :: i < l < |msgs| ==> LeavesAlone(msgs[l], k)
    ensures var m := SeqMap(false, db, msgs);
      if msgs[i].op.Set? then k in m && m[k] == msgs[i].op.val else k !in m
  {
    if i < |msgs| - 1 {
      WriteStays(db, msgs[..|msgs| - 1], i, k);
      assert LeavesAlone(msgs[|msgs| - 1], k);
      hide IncrValue;
    }
  }

  /** A get that arrives after a set is answered with the value set, and after a
      del with a miss, whether or not the write has reached the backend. A
      cache-only get may say that the key is not cached. */
  lemma ReadsSeeTheLatestWrite(env: Env, size: nat, db: Db, events: seq<Event>, i: nat, r: Reply)
    requires size > 0 && Small(db) && FairRun(events) && !env.readOnly
    requires r in Run(env, Start(size, db), events).replies
    requires var msgs := Arrivals(events);
      && i < r.serial < |msgs|
      && msgs[i].Request? && !CacheOnly(msgs[i].flags) && (msgs[i].op.Set? || msgs[i].op.Del?)
      && msgs[r.serial].Request? && msgs[r.serial].op == Get(msgs[i].op.key)
      && forall l :: i < l < r.serial ==> LeavesAlone(msgs[l], msgs[i].op.key)
    ensures var write, read := Arrivals(events)[i].op, Arrivals(events)[r.serial];
      || Observed(r.body) == (if write.Set? then Value(write.val) else Missing)
      || (CacheOnly(read.flags) && Observed(r.body) == NotCached)
  {
    var msgs := Arrivals(events);
    Linearizable(env, size, db, events, r);
    hide Run, Arrivals;
    WriteStays(db, msgs[..r.serial], i, msgs[i].op.key);
  }

  // ---------- synchronous writes ----------

  predicate SyncWrite(readOnly: bool, m: Message) {
    m.Request? && (m.op.Set? || m.op.Del?) && Sync(m.flags) && !CacheOnly(m.flags) && !readOnly
  }

  /** The queue is in order of arrival, and all of it arrived after each
      synchronous write that was answered. */
  ghost predicate AnsweredInOrder(readOnly: bool, s: State, msgs: seq<Message>) {
    && s.arrived == |msgs|
    && (forall j :: 0 <= j < |s.queue| ==> s.queue[j].serial < |msgs|)
    && (forall i, j :: 0 <= i < j < |s.queue| ==> s.queue[i].serial < s.queue[j].serial)
    && (forall i :: 0 <= i < |s.replies| ==> s.replies[i].serial < |msgs|)
    && (forall i, j :: 0 <= i < |s.replies| && 0 <= j < |s.queue| && SyncWrite(readOnly, msgs[s.replies[i].serial]) ==>
          s.replies[i].serial < s.queue[j].serial)
  }

  lemma SyncWriteWaits(env: Env, s: State, m: Message)
    requires SyncWrite(env.readOnly, m)
    ensures MainStep(env, s, m).replies == s.replies
  {
    hide C.Set, C.Del;
  }

  lemma ArrivalKeepsOrder(env: Env, s: State, msgs: seq<Message>, m: Message)
    requires AnsweredInOrder(env.readOnly, s, msgs)
    ensures AnsweredInOrder(env.readOnly, MainStep(env, s, m), msgs + [m])
  {
    HandleAdds(env, s, m);
    if SyncWrite(env.readOnly, m) {
      SyncWriteWaits(env, s, m);
    }
    hide Handle, Owes, SyncWrite;
    var s' := MainStep(env, s, m);
    forall i | 0 <= i < |s'.replies| && SyncWrite(env.readOnly, (msgs + [m])[s'.replies[i].serial])
      ensures i < |s.replies| && s'.replies[i] == s.replies[i]
    {
    }
  }

  lemma DbStepKeepsOrder(env: Env, s: State, msgs: seq<Message>)
    requires AnsweredInOrder(env.readOnly, s, msgs)
    ensures AnsweredInOrder(env.readOnly, DbStep(env, s), msgs)
  {
    hide Perform, SyncWrite, Owes;
  }

  lemma {:induction false} RepliesAreInOrder(env: Env, size: nat, db: Db, events: seq<Event>)
    requires size > 0
    ensures AnsweredInOrder(env.readOnly, Run(env, Start(size, db), events), Arrivals(events))
  {
    hide MainStep, DbStep;
    if events == [] {
      assert AnsweredInOrder(env.readOnly, Start(size, db), []);
    } else {
      hide AnsweredInOrder;
      var front := events[..|events| - 1];
      RepliesAreInOrder(env, size, db, front);
      var s := Run(env, Start(size, db), front);
      match events[|events| - 1] {
        case Arrive(m) => ArrivalKeepsOrder(env, s, Arrivals(front), m);
        case DbTurn => DbStepKeepsOrder(env, s, Arrivals(front));
      }
    }
  }

  /** When a synchronous set or del has been answered, the backend has it: it is
      the sequential map of a history that reaches beyond the write. */
  lemma SyncReplyMeansStored(env: Env, size: nat, db: Db, events: seq<Event>, r: Reply)
    requires size > 0 && Small(db) && FairRun(events)
    requires r in Run(env, Start(size, db), events).replies
    requires r.serial < |Arrivals(events)| ==> SyncWrite(env.readOnly, Arrivals(events)[r.serial])
    ensures var msgs := Arrivals(events);
      exists n :: r.serial < n <= |msgs| && Run(env, Start(size, db), events).db == SeqMap(env.readOnly, db, msgs[..n])
  {
    hide SyncWrite, Run, Arrivals, SeqMap, DbStep;
    var s, msgs := Run(env, Start(size, db), events), Arrivals(events);
    RepliesAreInOrder(env, size, db, events);
    var i :| 0 <= i < |s.replies| && s.replies[i] == r;
    if s.queue == [] {
      CacheIsCoherent(env, size, db, events, []);
      assert msgs[..|msgs|] == msgs;
    } else {
      WritesLandInOrder(env, size, db, events);
      var n := s.queue[0].serial;
      assert r.serial < n && s.db == SeqMap(env.readOnly, db, msgs[..n]);
    }
  }

  // ---------- compare-and-swap ----------

  lemma {:induction false} ArrivalsAppend(pre: seq<Event>, post: seq<Event>)
    ensures Arrivals(pre + post) == Arrivals(pre) + Arrivals(post)
  {
    if post == [] {
      assert pre + post == pre;
    } else {
      assert (pre + post)[..|pre + post| - 1] == pre + post[..|post| - 1];
      ArrivalsAppend(pre, post[..|post| - 1]);
    }
  }

  lemma ArrivalsAround(pre: seq<Event>, m: Message, post: seq<Event>)
    ensures var all := Arrivals(pre + [Arrive(m)] + post);
      |all| > |Arrivals(pre)| && all[..|Arrivals(pre)|] == Arrivals(pre) && all[|Arrivals(pre)|] == m
  {
    ArrivalsAppend(pre + [Arrive(m)], post);
    assert (pre + [Arrive(m)])[..|pre|] == pre;
    assert Arrivals(pre + [Arrive(m)]) == Arrivals(pre) + [m];
  }

  lemma PrefixIsFair(pre: seq<Event>, post: seq<Event>)
    requires FairRun(pre + post)
    ensures FairRun(pre)
  {
    assert forall e :: e in pre ==> e in pre + post;
  }

  /** A swap that the cache accepted is never taken back: whatever is in the
      queue and whatever comes later, the reply to it is success. */
  lemma CasIsCommitted(env: Env, size: nat, db: Db, pre: seq<Event>, m: Message, post: seq<Event>, r: Reply)
    requires size > 0 && Small(db) && FairRun(pre + [Arrive(m)] + post) && !env.readOnly
    requires m.Request? && m.op.Cas? && !CacheOnly(m.flags)
    requires C.CasCode(env.hash, Run(env, Start(size, db), pre).cache, m.op.key, m.op.oldval) == 0
    requires r in Run(env, Start(size, db), pre + [Arrive(m)] + post).replies
    requires r.serial == |Arrivals(pre)|
    ensures r.body == Mini(REP_OK)
  {
    hide Run, SeqMap, Replay, FairRun;
    var events := pre + [Arrive(m)] + post;
    ArrivalsAround(pre, m, post);
    assert events == pre + ([Arrive(m)] + post);
    PrefixIsFair(pre, [Arrive(m)] + post);
    CacheIsCoherent(env, size, db, pre, m.op.key);
    Linearizable(env, size, db, events, r);
  }

  /** A swap that the cache rejected on its own would have been rejected by the
      backend too, had the queue been worked off first. */
  lemma CasRejectionIsRight(env: Env, size: nat, db: Db, pre: seq<Event>, m: Message)
    requires size > 0 && Small(db) && FairRun(pre)
    requires m.Request? && m.op.Cas?
    requires C.CasCode(env.hash, Run(env, Start(size, db), pre).cache, m.op.key, m.op.oldval) == -1
    ensures var s := Run(env, Start(size, db), pre);
      var ahead := Replay(s.db, s.queue);
      Perform(ahead, m.op) == (ahead, Mini(REP_NOMATCH))
  {
    var s := Run(env, Start(size, db), pre);
    CacheIsCoherent(env, size, db, pre, m.op.key);
    RunIsSequential(env, size, db, pre);
    HistoryIsSequential(env.readOnly, db, Arrivals(pre));
    assert Small(Replay(s.db, s.queue));
  }

  // ---------- cache-only writes ----------

  /** The write puts into the cache what the database will have anyway, or
      nothing at all. */
  predicate WritesTheSame(hash: C.HashFn, t: C.Table, now: Db, op: Op) {
    match op
    case Get(_) => true
    case Set(k, v) => k in now && now[k] == v
    case Del(_) => true
    case Cas(k, o, n) => C.Get(hash, t, k) == Some(o) ==> n == o
    case Incr(k, i) =>
      C.IncrCode(hash, t, k, i) == 0 ==>
        IncrValue(C.Get(hash, t, k).value, i).stored == C.Get(hash, t, k).value
  }

  /** A cache-only request keeps the cache coherent just when it writes what the
      map has already. */
  lemma CacheOnlyKeepsCoherenceWhen(env: Env, s: State, m: Message, now: Db)
    requires Coherent(env.hash, s.cache, now) && !env.readOnly
    requires m.Request? && CacheOnly(m.flags)
    ensures Coherent(env.hash, MainStep(env, s, m).cache, now) <==> WritesTheSame(env.hash, s.cache, now, m.op)
  {
    var t, t', k := s.cache, MainStep(env, s, m).cache, m.op.key;
    var same := WritesTheSame(env.hash, t, now, m.op);
    forall q ensures same || q != k ==> CoherentAt(env.hash, t', now, q) {
      assert CoherentAt(env.hash, t, now, q) && CoherentAt(env.hash, t, now, k);
      CacheOnlyKey(env, s, m, now, q);
    }
    CacheOnlyKey(env, s, m, now, k);
    assert CoherentAt(env.hash, t, now, k);
  }

  lemma CacheOnlyKey(env: Env, s: State, m: Message, now: Db, q: bytes)
    requires m.Request? && CacheOnly(m.flags) && !env.readOnly
    requires CoherentAt(env.hash, s.cache, now, q) && CoherentAt(env.hash, s.cache, now, m.op.key)
    ensures var t' := MainStep(env, s, m).cache;
      && (q != m.op.key ==> CoherentAt(env.hash, t', now, q))
      && (CoherentAt(env.hash, t', now, m.op.key) <==> WritesTheSame(env.hash, s.cache, now, m.op))
  {
    hide C.Set, C.Del, C.Rewrite, CacheOnly;
    var t, k := s.cache, m.op.key;
    var hit := C.Get(env.hash, t, k);
    match m.op {
      case Get(_) =>
      case Set(_, v) => C.GetAfterSet(env.hash, t, k, v, q);
      case Del(_) => C.GetAfterDel(env.hash, t, k, q); C.GetAfterDel(env.hash, t, k, k);
      case Cas(_, o, n) => C.GetAfterRewrite(env.hash, t, k, n, q); C.GetAfterRewrite(env.hash, t, k, n, k);
      case Incr(_, i) =>
        if hit.Some? && IncrValue(hit.value, i).Incremented? {
          var v := IncrValue(hit.value, i).stored;
          C.GetAfterRewrite(env.hash, t, k, v, q);
          C.GetAfterRewrite(env.hash, t, k, v, k);
        }
    }
  }

  /** A cache-only set, then a plain get: the reply is a value that the map does
      not have. */
  lemma CacheOnlySetMisleads(env: Env, k: bytes, v: bytes)
    requires !env.readOnly && !env.passive
    ensures var put := Request(Be32(1), FLAGS_CACHE_ONLY, Set(k, v));
      var ask := Request(Be32(1), 0, Get(k));
      var s := Run(env, Start(1, map[]), [Arrive(put), Arrive(ask)]);
      && |s.replies| == 2 && s.replies[1].body == Long(REP_CACHE_HIT, v)
      && Answer(false, SeqMap(false, map[], [put]), ask) == Missing
  {
    var put := Request(Be32(1), FLAGS_CACHE_ONLY, Set(k, v));
    var ask := Request(Be32(1), 0, Get(k));
    var s0 := Start(1, map[]);
    var s1 := MainStep(env, s0, put);
    var events := [Arrive(put), Arrive(ask)];
    C.GetAfterSet(env.hash, s0.cache, k, v, k);
    assert events[..1] == [Arrive(put)] && events[..1][..0] == [];
    assert Run(env, s0, []) == s0;
    assert Run(env, s0, events[..1]) == s1;
    assert [put][..0] == [];
  }

  // ---------- values too short to increment ----------

  /** No increment meets an empty value, whose last byte does not exist. */
  ghost predicate NoEmptyIncrement(readOnly: bool, db: Db, msgs: seq<Message>) {
    forall i :: 0 <= i < |msgs| ==> MeetsNoEmptyValue(SeqMap(readOnly, db, msgs[..i]), msgs[i])
  }

  predicate MeetsNoEmptyValue(m: Db, msg: Message) {
    msg.Request? && msg.op.Incr? && msg.op.key in m ==> m[msg.op.key] != []
  }

  /** Then the main thread is never led to read the byte before a value ... */
  lemma CacheIncrementReadsInBounds(env: Env, size: nat, db: Db, events: seq<Event>, m: Message)
    requires size > 0 && Small(db) && FairRun(events)
    requires NoEmptyIncrement(env.readOnly, db, Arrivals(events) + [m])
    requires m.Request? && m.op.Incr?
    requires C.Get(env.hash, Run(env, Start(size, db), events).cache, m.op.key).Some?
    ensures C.Get(env.hash, Run(env, Start(size, db), events).cache, m.op.key).value != []
  {
    var msgs := Arrivals(events);
    CacheIsCoherent(env, size, db, events, m.op.key);
    assert (msgs + [m])[..|msgs|] == msgs;
    assert MeetsNoEmptyValue(SeqMap(env.readOnly, db, (msgs + [m])[..|msgs|]), (msgs + [m])[|msgs|]);
  }

  /** ... and neither is the database thread, by any entry of the queue. */
  lemma QueuedIncrementsReadInBounds(env: Env, size: nat, db: Db, events: seq<Event>)
    requires size > 0 && Small(db) && FairRun(events)
    requires NoEmptyIncrement(env.readOnly, db, Arrivals(events))
    ensures var s := Run(env, Start(size, db), events); IncrSafe(s.db, s.queue)
  {
    var s, msgs := Run(env, Start(size, db), events), Arrivals(events);
    var h := HistoryOf(env.readOnly, db, msgs);
    RunIsSequential(env, size, db, events);
    HistoryIsSequential(env.readOnly, db, msgs);
    forall i | 0 <= i < |msgs| ensures MeetsNoEmptyValue(h.maps[i], h.msgs[i]) {
      MapsAreSequential(env.readOnly, db, msgs, i);
      assert MeetsNoEmptyValue(SeqMap(env.readOnly, db, msgs[..i]), msgs[i]);
    }
    AlignedIsSafe(env.readOnly, s.db, s.queue, h);
  }

  lemma {:induction false} AlignedIsSafe(readOnly: bool, db: Db, queue: seq<Item>, h: History)
    requires |h.maps| == |h.msgs| && Aligned(readOnly, db, queue, h)
    requires forall i :: 0 <= i < |h.maps| ==> Small(h.maps[i]) && MeetsNoEmptyValue(h.maps[i], h.msgs[i])
    decreases queue
    ensures IncrSafe(db, queue)
  {
    if queue != [] {
      var i := queue[0].serial;
      assert Small(h.maps[i]) && MeetsNoEmptyValue(h.maps[i], h.msgs[i]);
      BackendIsTheMap(readOnly, db, h.msgs[i]);
      hide Perform, Effect, IncrValue;
      AlignedIsSafe(readOnly, Perform(db, queue[0].op).0, queue[1..], h);
    }
  }

  // ---------- exactly one reply ----------

  /** How many replies answer message i. */
  function Answers(replies: seq<Reply>, i: nat): nat {
    if replies == [] then 0
    else Answers(replies[..|replies| - 1], i) + if replies[|replies| - 1].serial == i then 1 else 0
  }

  /** How many waiting entries will answer message i. */
  function Owed(queue: seq<Item>, i: nat): nat {
    if queue == [] then 0
    else (if Owes(queue[0]) && queue[0].serial == i then 1 else 0) + Owed(queue[1..], i)
  }

  lemma {:induction false} OwedAppends(queue: seq<Item>, e: Item, i: nat)
    ensures Owed(queue + [e], i) == Owed(queue, i) + if Owes(e) && e.serial == i then 1 else 0
  {
    if queue == [] {
      assert queue + [e] == [e];
    } else {
      assert (queue + [e])[1..] == queue[1..] + [e];
      OwedAppends(queue[1..], e, i);
    }
  }

  /** The replies sent and the replies owed to message i, together. */
  function Due(s: State, i: nat): nat {
    Answers(s.replies, i) + Owed(s.queue, i)
  }

  lemma DueAfterMainStep(env: Env, s: State, m: Message, i: nat)
    requires !env.passive
    ensures Due(MainStep(env, s, m), i) == Due(s, i) + if i == s.arrived then 1 else 0
  {
    HandleAdds(env, s, m);
    var s' := MainStep(env, s, m);
    if s'.queue != s.queue {
      OwedAppends(s.queue, ItemFor(s, m), i);
    }
    if s'.replies != s.replies {
      assert s'.replies[..|s'.replies| - 1] == s.replies;
    }
  }

  lemma DueAfterDbStep(env: Env, s: State, i: nat)
    requires !env.passive
    ensures Due(DbStep(env, s), i) == Due(s, i)
  {
    if s.queue != [] && Owes(s.queue[0]) {
      var s' := DbStep(env, s);
      assert s'.replies[..|s'.replies| - 1] == s.replies;
    }
  }

  /** In every reachable state, for any traffic whatever, each message received
      has been answered once or is owed one answer, never both and never more. */
  lemma {:induction false} OneReplyIsDue(env: Env, size: nat, db: Db, events: seq<Event>, i: nat)
    requires size > 0 && !env.passive
    ensures var s := Run(env, Start(size, db), events);
      && s.arrived == |Arrivals(events)|
      && Due(s, i) == if i < s.arrived then 1 else 0
  {
    if events != [] {
      var front := events[..|events| - 1];
      OneReplyIsDue(env, size, db, front, i);
      var s := Run(env, Start(size, db), front);
      match events[|events| - 1] {
        case Arrive(m) => HandleAdds(env, s, m); DueAfterMainStep(env, s, m, i);
        case DbTurn => DueAfterDbStep(env, s, i);
      }
    }
  }

  /** Replies and waiting entries carry the identifier of their message. */
  ghost predicate OwnIds(s: State, msgs: seq<Message>) {
    && (forall j :: 0 <= j < |s.replies| ==>
          s.replies[j].serial < |msgs| && s.replies[j].wireId == msgs[s.replies[j].serial].wireId)
    && (forall j :: 0 <= j < |s.queue| ==>
          s.queue[j].serial < |msgs| && s.queue[j].wireId == msgs[s.queue[j].serial].wireId)
  }

  lemma ArrivalKeepsOwnIds(env: Env, s: State, msgs: seq<Message>, m: Message)
    requires OwnIds(s, msgs) && s.arrived == |msgs|
    ensures OwnIds(MainStep(env, s, m), msgs + [m])
  {
    HandleAdds(env, s, m);
    hide Handle, Owes, CacheOnly;
  }

  lemma {:induction false} RepliesCarryOwnIds(env: Env, size: nat, db: Db, events: seq<Event>)
    requires size > 0
    ensures OwnIds(Run(env, Start(size, db), events), Arrivals(events))
    ensures Run(env, Start(size, db), events).arrived == |Arrivals(events)|
  {
    if events != [] {
      var front := events[..|events| - 1];
      RepliesCarryOwnIds(env, size, db, front);
      var s := Run(env, Start(size, db), front);
      match events[|events| - 1] {
        case Arrive(m) =>
          ArrivalKeepsOwnIds(env, s, Arrivals(front), m);
          HandleAdds(env, s, m);
          hide OwnIds;
        case DbTurn => hide Perform;
      }
    }
  }

  /** Once the queue is drained, every message received has exactly one reply. */
  lemma ExactlyOneReply(env: Env, size: nat, db: Db, events: seq<Event>, i: nat)
    requires size > 0 && !env.passive && i < |Arrivals(events)|
    requires Run(env, Start(size, db), events).queue == []
    ensures Answers(Run(env, Start(size, db), events).replies, i) == 1
  {
    OneReplyIsDue(env, size, db, events, i);
  }

  // ---------- passive mode ----------

  /** A passive server does exactly what an active one does, and says nothing. */
  lemma {:induction false} PassiveActsTheSame(env: Env, s: State, events: seq<Event>)
    ensures var active, silent := Run(env.(passive := false), s, events), Run(env.(passive := true), s, events);
      silent == active.(replies := s.replies)
  {
    if events != [] {
      var front := events[..|events| - 1];
      PassiveActsTheSame(env, s, front);
      var a := Run(env.(passive := false), s, front);
      match events[|events| - 1] {
        case Arrive(m) => PassiveStep(env, a, s.replies, m);
        case DbTurn => hide Perform;
      }
    }
  }

  /** s is a, with other replies: the state of a silent server. */
  predicate Silent(a: State, rs: seq<Reply>, s: State) {
    s == a.(replies := rs)
  }

  lemma SilentOps(env: Env, a: State, rs: seq<Reply>, m: Message)
    requires m.Request? && (env.readOnly ==> m.op.Get?)
    ensures Silent(Handle(env.(passive := false), a, m), rs, Handle(env.(passive := true), a.(replies := rs), m))
  {
    hide C.Get, C.Set, C.Del, C.Cas, C.Incr, C.CasCode, C.IncrCode, IncrValue, CacheOnly, Sync, Be64;
    match m.op {
      case Get(_) =>
      case Set(_, _) =>
      case Del(_) =>
      case Cas(_, _, _) =>
      case Incr(_, _) =>
    }
  }

  lemma PassiveStep(env: Env, a: State, rs: seq<Reply>, m: Message)
    ensures MainStep(env.(passive := true), a.(replies := rs), m)
         == MainStep(env.(passive := false), a, m).(replies := rs)
  {
    hide HandleGet, HandleCas, HandleIncr, Acknowledge;
    if m.Request? && (env.readOnly ==> m.op.Get?) {
      hide Handle;
      SilentOps(env, a, rs, m);
    }
  }

  // ---------- shutdown ----------

  lemma {:induction false} DrainEmpties(env: Env, s: State, h: History, i: nat)
    requires Inv(env, s, h)
    decreases |s.queue|
    ensures var d := Drain(env, s);
      && d.queue == [] && d.db == h.now && d.cache == s.cache && d.arrived == s.arrived
      && (!env.passive ==> Answers(d.replies, i) == Due(s, i))
  {
    if s.queue != [] {
      DbStepIsSequential(env, s, h);
      if !env.passive {
        DueAfterDbStep(env, s, i);
      }
      hide Perform;
      DrainEmpties(env, DbStep(env, s), h, i);
    }
  }

  /** Shutting down loses nothing: whatever was still queued, the loop ends with
      the queue empty, the backend equal to the sequential map of every message
      accepted, and every message answered. */
  lemma ShutdownLosesNothing(env: Env, size: nat, db: Db, events: seq<Event>, i: nat)
    requires size > 0 && Small(db) && FairRun(events)
    ensures var d := Drain(env, Run(env, Start(size, db), events));
      && d.queue == []
      && d.db == SeqMap(env.readOnly, db, Arrivals(events))
      && (!env.passive && i < |Arrivals(events)| ==> Answers(d.replies, i) == 1)
  {
    RunIsSequential(env, size, db, events);
    HistoryIsSequential(env.readOnly, db, Arrivals(events));
    DrainEmpties(env, Run(env, Start(size, db), events), HistoryOf(env.readOnly, db, Arrivals(events)), i);
    if !env.passive {
      OneReplyIsDue(env, size, db, events, i);
    }
  }
}
