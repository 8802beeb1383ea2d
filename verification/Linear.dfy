/** Clients cannot tell the cache, the queue and the two threads from one map
    that runs the requests in order of arrival. */
module Linear {
  import opened Bytes
  import opened Decimal
  import opened Protocol
  import C = CacheModel

  // ---------- one sequential map ----------

  datatype Outcome = Done | Missing | Mismatch | Value(val: bytes) | NotCached | Failed(code: nat)

  /** What the request makes of the map. Cache-only requests leave it alone. */
  function Effect(readOnly: bool, m: Db, msg: Message): Db {
    if !msg.Request? || CacheOnly(msg.flags) || (readOnly && !msg.op.Get?) then m
    else
      match msg.op
      case Get(_) => m
      case Set(k, v) => m[k := v]
      case Del(k) => m - {k}
      case Cas(k, o, n) => if k in m && m[k] == o then m[k := n] else m
      case Incr(k, i) =>
        if k in m && IncrValue(m[k], i).Incremented? then m[k := IncrValue(m[k], i).stored] else m
  }

  /** What the map answers to a request that is not cache-only. An asynchronous
      del is acknowledged without looking. */
  function Answer(readOnly: bool, m: Db, msg: Message): Outcome {
    match msg
    case BadVersion(_) => Failed(ERR_VER)
    case Unknown(_) => Failed(ERR_UNKREQ)
    case Broken(_) => Failed(ERR_BROKEN)
    case Request(_, flags, op) =>
      if readOnly && !op.Get? then Failed(ERR_RO)
      else
        match op
        case Get(k) => if k in m then Value(m[k]) else Missing
        case Set(_, _) => Done
        case Del(k) => if Sync(flags) && k !in m then Missing else Done
        case Cas(k, o, _) => if k !in m then Missing else if m[k] == o then Done else Mismatch
        case Incr(k, i) =>
          if k !in m then Missing
          else match IncrValue(m[k], i)
            case NotTerminated => Mismatch
            case Incremented(n, _) => Value(Be64(n))
  }

  function SeqMap(readOnly: bool, m: Db, msgs: seq<Message>): Db {
    if msgs == [] then m
    else Effect(readOnly, SeqMap(readOnly, m, msgs[..|msgs| - 1]), msgs[|msgs| - 1])
  }

  // ---------- replies, as a client reads them ----------

  function Observed(body: Body): Outcome {
    match body
    case Error(code) => Failed(code)
    case Long(_, v) => Value(v)
    case Mini(code) =>
      if code == REP_OK then Done
      else if code == REP_NOTIN then Missing
      else if code == REP_NOMATCH then Mismatch
      else NotCached
  }

  /** The reply is the one that map m gives. A cache-only get may miss instead,
      and a cache-only del tells only whether the key was cached. */
  predicate Agrees(readOnly: bool, m: Db, msg: Message, body: Body) {
    var seen := Observed(body);
    if !msg.Request? || !CacheOnly(msg.flags) || (readOnly && !msg.op.Get?) then
      seen == Answer(readOnly, m, msg)
    else if msg.op.Get? then
      seen == NotCached || (seen.Value? && seen == Answer(readOnly, m, msg))
    else if msg.op.Del? then
      seen == Done || seen == Missing
    else true
  }

  // ---------- the traffic ----------

  /** Cache-only get and del are harmless; cache-only set, cas and incr put
      values into the cache that the database never gets. */
  predicate Harmless(msg: Message) {
    msg.Request? && CacheOnly(msg.flags) ==> msg.op.Get? || msg.op.Del?
  }

  /** The size limit that decoding enforces. */
  predicate Sized(msg: Message) {
    msg.Request? ==>
      && (msg.op.Set? ==> |msg.op.val| <= MAX_VALUE)
      && (msg.op.Cas? ==> |msg.op.newval| <= MAX_VALUE)
  }

  predicate Fair(msg: Message) {
    Harmless(msg) && Sized(msg)
  }

  ghost predicate Small(m: Db) {
    forall k :: k in m ==> |m[k]| <= MAX_VALUE
  }

  lemma EffectIsSmall(readOnly: bool, m: Db, msg: Message)
    requires Small(m) && Sized(msg)
    ensures Small(Effect(readOnly, m, msg))
  {
    if msg.Request? && msg.op.Incr? && msg.op.key in m {
      var v, i := m[msg.op.key], msg.op.increment;
      if IncrValue(v, i).Incremented? {
        IncrementedValueReadsBack(v, i);
      }
    }
  }

  // ---------- history ----------

  /** The messages so far, the sequential map each of them met, and the map now. */
  datatype History = History(msgs: seq<Message>, maps: seq<Db>, now: Db)

  function Extend(readOnly: bool, h: History, m: Message): History {
    History(h.msgs + [m], h.maps + [h.now], Effect(readOnly, h.now, m))
  }

  function HistoryOf(readOnly: bool, db: Db, msgs: seq<Message>): History {
    if msgs == [] then History([], [], db)
    else Extend(readOnly, HistoryOf(readOnly, db, msgs[..|msgs| - 1]), msgs[|msgs| - 1])
  }

  lemma {:induction false} HistoryIsSequential(readOnly: bool, db: Db, msgs: seq<Message>)
    ensures var h := HistoryOf(readOnly, db, msgs);
      h.msgs == msgs && |h.maps| == |msgs| && h.now == SeqMap(readOnly, db, msgs)
  {
    hide Effect;
    if msgs != [] {
      HistoryIsSequential(readOnly, db, msgs[..|msgs| - 1]);
    }
  }

  lemma {:induction false} MapsAreSequential(readOnly: bool, db: Db, msgs: seq<Message>, i: nat)
    requires i < |msgs|
    ensures |HistoryOf(readOnly, db, msgs).maps| == |msgs|
    ensures HistoryOf(readOnly, db, msgs).maps[i] == SeqMap(readOnly, db, msgs[..i])
  {
    hide Effect;
    var front := msgs[..|msgs| - 1];
    HistoryIsSequential(readOnly, db, front);
    HistoryIsSequential(readOnly, db, msgs);
    if i < |front| {
      MapsAreSequential(readOnly, db, front, i);
      assert front[..i] == msgs[..i];
    }
  }

  /** The entry was queued for one of the messages, which was meant for the
      database. */
  predicate Queued(readOnly: bool, e: Item, h: History) {
    && e.serial < |h.msgs|
    && var msg := h.msgs[e.serial];
      && msg.Request? && msg.op == e.op && msg.wireId == e.wireId && Sync(msg.flags) == e.sync
      && !CacheOnly(msg.flags) && (readOnly ==> e.op.Get?)
  }

  /** Each entry will find the backend exactly as the sequential map was when
      its message arrived. */
  ghost predicate Aligned(readOnly: bool, db: Db, queue: seq<Item>, h: History)
    requires |h.maps| == |h.msgs|
    decreases queue
  {
    if queue == [] then db == h.now
    else
      && Queued(readOnly, queue[0], h)
      && db == h.maps[queue[0].serial]
      && Aligned(readOnly, Effect(readOnly, db, h.msgs[queue[0].serial]), queue[1..], h)
  }

  predicate CoherentAt(hash: C.HashFn, t: C.Table, m: Db, k: bytes) {
    C.Get(hash, t, k).Some? ==> k in m && m[k] == C.Get(hash, t, k).value
  }

  /** A cached value is the value of the sequential map. */
  ghost predicate Coherent(hash: C.HashFn, t: C.Table, m: Db) {
    forall k :: CoherentAt(hash, t, m, k)
  }

  ghost predicate RepliesAgree(readOnly: bool, replies: seq<Reply>, h: History)
    requires |h.maps| == |h.msgs|
  {
    forall i :: 0 <= i < |replies| ==> ReplyAgrees(readOnly, replies[i], h)
  }

  predicate ReplyAgrees(readOnly: bool, r: Reply, h: History)
    requires |h.maps| == |h.msgs|
  {
    && r.serial < |h.msgs|
    && r.wireId == h.msgs[r.serial].wireId
    && Agrees(readOnly, h.maps[r.serial], h.msgs[r.serial], r.body)
  }

  ghost predicate Inv(env: Env, s: State, h: History) {
    && |h.maps| == |h.msgs| == s.arrived
    && Small(h.now) && (forall i :: 0 <= i < |h.maps| ==> Small(h.maps[i]))
    && Coherent(env.hash, s.cache, h.now)
    && Aligned(env.readOnly, s.db, s.queue, h)
    && RepliesAgree(env.readOnly, s.replies, h)
  }

  // ---------- the queue and the history ----------

  /** On the map a request met, the backend does and answers what the map does. */
  lemma BackendIsTheMap(readOnly: bool, m: Db, msg: Message)
    requires Small(m) && msg.Request? && !CacheOnly(msg.flags) && (readOnly ==> msg.op.Get?)
    ensures Perform(m, msg.op).0 == Effect(readOnly, m, msg)
    ensures (msg.op.Set? || msg.op.Del? ==> Sync(msg.flags)) ==> Agrees(readOnly, m, msg, Perform(m, msg.op).1)
    ensures Perform(m, msg.op).1.code in {REP_OK, REP_NOTIN, REP_NOMATCH}
  {
  }

  /** A queue stays aligned when a message that does not change the map arrives,
      and when any message is queued as it arrives. */
  lemma {:induction false} ArrivalKeepsAligned(
    readOnly: bool, db: Db, queue: seq<Item>, h: History, m: Message, more: seq<Item>)
    requires |h.maps| == |h.msgs| && Aligned(readOnly, db, queue, h)
    requires more == [] ==> Effect(readOnly, h.now, m) == h.now
    requires more != [] ==>
      |more| == 1 && more[0].serial == |h.msgs| && Queued(readOnly, more[0], Extend(readOnly, h, m))
    decreases queue
    ensures Aligned(readOnly, db, queue + more, Extend(readOnly, h, m))
  {
    var h' := Extend(readOnly, h, m);
    if queue == [] {
      assert queue + more == more;
      if more != [] {
        assert Aligned(readOnly, h'.now, more[1..], h');
      }
    } else {
      var i := queue[0].serial;
      assert h'.msgs[i] == h.msgs[i] && h'.maps[i] == h.maps[i];
      ArrivalKeepsAligned(readOnly, Effect(readOnly, db, h.msgs[i]), queue[1..], h, m, more);
      assert (queue + more)[1..] == queue[1..] + more;
    }
  }

  lemma {:induction false} AlignedReplays(readOnly: bool, db: Db, queue: seq<Item>, h: History)
    requires |h.maps| == |h.msgs| && Aligned(readOnly, db, queue, h)
    requires forall i :: 0 <= i < |h.maps| ==> Small(h.maps[i])
    decreases queue
    ensures Replay(db, queue) == h.now
  {
    if queue != [] {
      BackendIsTheMap(readOnly, db, h.msgs[queue[0].serial]);
      AlignedReplays(readOnly, Perform(db, queue[0].op).0, queue[1..], h);
    }
  }

  lemma RepliesStillAgree(readOnly: bool, replies: seq<Reply>, h: History, m: Message)
    requires |h.maps| == |h.msgs| && RepliesAgree(readOnly, replies, h)
    ensures RepliesAgree(readOnly, replies, Extend(readOnly, h, m))
  {
    forall i | 0 <= i < |replies| ensures ReplyAgrees(readOnly, replies[i], Extend(readOnly, h, m)) {
      assert ReplyAgrees(readOnly, replies[i], h);
    }
  }

  // ---------- a database step ----------

  lemma DbStepIsSequential(env: Env, s: State, h: History)
    requires Inv(env, s, h)
    ensures Inv(env, DbStep(env, s), h)
  {
    if s.queue != [] {
      var e := s.queue[0];
      BackendIsTheMap(env.readOnly, s.db, h.msgs[e.serial]);
      assert Owes(e) ==> ReplyAgrees(env.readOnly, Reply(e.serial, e.wireId, Perform(s.db, e.op).1), h);
    }
  }

  // ---------- a main-thread step ----------

  lemma KeyStaysCoherent(env: Env, s: State, m: Message, now: Db, q: bytes)
    requires m.Request? && (env.readOnly ==> m.op.Get?) && Harmless(m)
    requires CoherentAt(env.hash, s.cache, now, q) && CoherentAt(env.hash, s.cache, now, m.op.key)
    ensures CoherentAt(env.hash, MainStep(env, s, m).cache, Effect(env.readOnly, now, m), q)
  {
    hide CacheOnly, Sync, C.Set, C.Del, C.Rewrite;
    var t, k := s.cache, m.op.key;
    var hit := C.Get(env.hash, t, k);
    match m.op {
      case Get(_) =>
      case Set(_, v) => C.GetAfterSet(env.hash, t, k, v, q);
      case Del(_) => C.GetAfterDel(env.hash, t, k, q);
      case Cas(_, o, n) => C.GetAfterRewrite(env.hash, t, k, n, q);
      case Incr(_, i) =>
        if hit.Some? && IncrValue(hit.value, i).Incremented? {
          C.GetAfterRewrite(env.hash, t, k, IncrValue(hit.value, i).stored, q);
        }
    }
  }

  /** The cache after a message still agrees with the map after it. */
  lemma CacheStaysCoherent(env: Env, s: State, m: Message, now: Db)
    requires Coherent(env.hash, s.cache, now) && Harmless(m)
    ensures Coherent(env.hash, MainStep(env, s, m).cache, Effect(env.readOnly, now, m))
  {
    if m.Request? && (env.readOnly ==> m.op.Get?) {
      hide MainStep, Effect, CacheOnly, C.Get;
      forall q ensures CoherentAt(env.hash, MainStep(env, s, m).cache, Effect(env.readOnly, now, m), q) {
        assert CoherentAt(env.hash, s.cache, now, q) && CoherentAt(env.hash, s.cache, now, m.op.key);
        KeyStaysCoherent(env, s, m, now, q);
      }
    }
  }

  // ---------- what a message adds ----------

  function ItemFor(s: State, m: Message): Item
    requires m.Request?
  {
    Item(s.arrived, m.wireId, Sync(m.flags), m.op)
  }

  /** r is s with at most one more reply and one more entry, both for m; and,
      unless the server is passive, m is answered now or owed an answer. */
  predicate Adds(env: Env, s: State, r: State, m: Message) {
    && r.db == s.db && r.arrived == s.arrived
    && (r.queue == s.queue
        || (m.Request? && !CacheOnly(m.flags) && r.queue == s.queue + [ItemFor(s, m)]))
    && (r.replies == s.replies
        || (r.replies != [] && var last := r.replies[|r.replies| - 1];
            r.replies == s.replies + [last] && last.serial == s.arrived && last.wireId == m.wireId))
    && (!env.passive ==>
          (r.replies == s.replies <==> r.queue != s.queue && m.Request? && Owes(ItemFor(s, m))))
  }

  lemma SayAdds(env: Env, s: State, r: State, m: Message, body: Body)
    requires r == Say(env, s.(cache := r.cache), s.arrived, m.wireId, body)
    ensures Adds(env, s, r, m)
  {
  }

  lemma EnqueueAdds(env: Env, s: State, r: State, m: Message)
    requires m.Request? && !CacheOnly(m.flags) && Owes(ItemFor(s, m))
    requires r == Enqueue(s.(cache := r.cache), m)
    ensures Adds(env, s, r, m)
  {
    assert |r.queue| == |s.queue| + 1;
  }

  lemma AcknowledgeIsLocal(env: Env, s: State, m: Message, t: C.Table, body: Body)
    requires m.Request? && (m.op.Set? || m.op.Del?)
    ensures Adds(env, s, Acknowledge(env, s.(cache := t), m, body), m)
  {
    var r := Acknowledge(env, s.(cache := t), m, body);
    if CacheOnly(m.flags) {
      SayAdds(env, s, r, m, body);
    } else if Sync(m.flags) {
      EnqueueAdds(env, s, r, m);
    } else {
      assert |r.queue| == |s.queue| + 1;
    }
  }

  lemma GetAdds(env: Env, s: State, m: Message)
    requires m.Request? && m.op.Get?
    ensures Adds(env, s, HandleGet(env, s, m, m.op.key), m)
  {
    var r := HandleGet(env, s, m, m.op.key);
    match C.Get(env.hash, s.cache, m.op.key) {
      case Some(v) => SayAdds(env, s, r, m, Long(REP_CACHE_HIT, v));
      case None =>
        if CacheOnly(m.flags) {
          SayAdds(env, s, r, m, Mini(REP_CACHE_MISS));
        } else {
          EnqueueAdds(env, s, r, m);
        }
    }
  }

  lemma CasAdds(env: Env, s: State, m: Message, k: bytes, o: bytes, n: bytes)
    requires m.Request? && m.op == Cas(k, o, n)
    ensures Adds(env, s, HandleCas(env, s, m, k, o, n), m)
  {
    hide C.CasCode, C.Cas;
    var r := HandleCas(env, s, m, k, o, n);
    var code := C.CasCode(env.hash, s.cache, k, o);
    if code == -1 {
      SayAdds(env, s, r, m, Mini(REP_NOMATCH));
    } else if CacheOnly(m.flags) {
      SayAdds(env, s, r, m, if code == 0 then Mini(REP_OK) else Mini(REP_NOTIN));
    } else {
      EnqueueAdds(env, s, r, m);
    }
  }

  lemma IncrAdds(env: Env, s: State, m: Message, k: bytes, i: int64)
    requires m.Request? && m.op == Incr(k, i)
    ensures Adds(env, s, HandleIncr(env, s, m, k, i), m)
  {
    hide C.Incr;
    var r := HandleIncr(env, s, m, k, i);
    var code := C.IncrCode(env.hash, s.cache, k, i);
    if code == -2 {
      SayAdds(env, s, r, m, Mini(REP_NOMATCH));
    } else if !CacheOnly(m.flags) {
      EnqueueAdds(env, s, r, m);
    } else if code == -1 {
      SayAdds(env, s, r, m, Mini(REP_NOTIN));
    } else {
      SayAdds(env, s, r, m, Long(REP_OK, Be64(IncrValue(C.Get(env.hash, s.cache, k).value, i).number)));
    }
  }

  /** The main thread adds at most one reply and one queue entry. */
  lemma HandleAdds(env: Env, s: State, m: Message)
    ensures Adds(env, s, Handle(env, s, m), m)
  {
    hide HandleGet, HandleCas, HandleIncr, Acknowledge, Adds, C.Set, C.Del;
    var r := Handle(env, s, m);
    match m {
      case BadVersion(_) => SayAdds(env, s, r, m, Error(ERR_VER));
      case Unknown(_) => SayAdds(env, s, r, m, Error(ERR_UNKREQ));
      case Broken(_) => SayAdds(env, s, r, m, Error(ERR_BROKEN));
      case Request(_, flags, op) =>
        if env.readOnly && !op.Get? {
          SayAdds(env, s, r, m, Error(ERR_RO));
        } else {
          match op {
            case Get(_) => GetAdds(env, s, m);
            case Set(k, v) =>
              AcknowledgeIsLocal(env, s, m, C.Set(env.hash, s.cache, k, v), Mini(REP_OK));
            case Del(k) =>
              AcknowledgeIsLocal(env, s, m, C.Del(env.hash, s.cache, k),
                if C.Get(env.hash, s.cache, k).Some? then Mini(REP_OK) else Mini(REP_NOTIN));
            case Cas(k, o, n) => CasAdds(env, s, m, k, o, n);
            case Incr(k, i) => IncrAdds(env, s, m, k, i);
          }
        }
    }
  }

  /** A read-only server queues nothing but gets. */
  lemma QueuedIsPermitted(env: Env, s: State, m: Message)
    requires MainStep(env, s, m).queue != s.queue
    ensures m.Request? && (env.readOnly ==> m.op.Get?)
  {
  }

  /** An answer given from the cache is the answer of the map. */
  lemma CacheAnswersAgree(env: Env, s: State, m: Message, now: Db, r: Reply)
    requires Coherent(env.hash, s.cache, now) && Harmless(m)
    requires MainStep(env, s, m).replies == s.replies + [r]
    ensures Agrees(env.readOnly, now, m, r.body)
  {
    var s' := MainStep(env, s, m);
    assert r == s'.replies[|s'.replies| - 1];
    if m.Request? {
      var k := m.op.key;
      assert CoherentAt(env.hash, s.cache, now, k);
    }
  }

  /** A message that is not queued does not change the map. */
  lemma UnqueuedChangesNothing(env: Env, s: State, m: Message, now: Db)
    requires Coherent(env.hash, s.cache, now)
    requires MainStep(env, s, m).queue == s.queue
    ensures Effect(env.readOnly, now, m) == now
  {
    if m.Request? {
      var k := m.op.key;
      assert CoherentAt(env.hash, s.cache, now, k);
    }
  }

  lemma ArrivalRepliesAgree(env: Env, s: State, h: History, m: Message)
    requires Inv(env, s, h) && Harmless(m)
    ensures RepliesAgree(env.readOnly, MainStep(env, s, m).replies, Extend(env.readOnly, h, m))
  {
    var s' := MainStep(env, s, m);
    HandleAdds(env, s, m);
    RepliesStillAgree(env.readOnly, s.replies, h, m);
    if s'.replies != s.replies {
      var last := s'.replies[|s'.replies| - 1];
      CacheAnswersAgree(env, s, m, h.now, last);
      hide MainStep, Handle, Effect, Agrees;
      assert ReplyAgrees(env.readOnly, last, Extend(env.readOnly, h, m));
    }
  }

  lemma ArrivalAligns(env: Env, s: State, h: History, m: Message)
    requires Inv(env, s, h)
    ensures Aligned(env.readOnly, s.db, MainStep(env, s, m).queue, Extend(env.readOnly, h, m))
    ensures MainStep(env, s, m).db == s.db && MainStep(env, s, m).arrived == s.arrived + 1
  {
    var s' := MainStep(env, s, m);
    HandleAdds(env, s, m);
    if s'.queue == s.queue {
      UnqueuedChangesNothing(env, s, m, h.now);
      assert s.queue + [] == s.queue;
      ArrivalKeepsAligned(env.readOnly, s.db, s.queue, h, m, []);
    } else {
      QueuedIsPermitted(env, s, m);
      hide MainStep, Handle, Effect;
      ArrivalKeepsAligned(env.readOnly, s.db, s.queue, h, m, [ItemFor(s, m)]);
    }
  }

  /** A message keeps every part of the correspondence. */
  lemma MainStepIsSequential(env: Env, s: State, h: History, m: Message)
    requires Inv(env, s, h) && Fair(m)
    ensures Inv(env, MainStep(env, s, m), Extend(env.readOnly, h, m))
  {
    hide MainStep, Coherent, Effect, Aligned, RepliesAgree;
    EffectIsSmall(env.readOnly, h.now, m);
    CacheStaysCoherent(env, s, m, h.now);
    ArrivalRepliesAgree(env, s, h, m);
    ArrivalAligns(env, s, h, m);
  }

  // ---------- whole runs ----------

  lemma {:induction false} RunIsSequential(env: Env, size: nat, db: Db, events: seq<Event>)
    requires size > 0 && Small(db)
    requires forall e :: e in events && e.Arrive? ==> Fair(e.m)
    ensures Inv(env, Run(env, Start(size, db), events), HistoryOf(env.readOnly, db, Arrivals(events)))
  {
    if events != [] {
      var front, e := events[..|events| - 1], events[|events| - 1];
      RunIsSequential(env, size, db, front);
      var s, h := Run(env, Start(size, db), front), HistoryOf(env.readOnly, db, Arrivals(front));
      match e {
        case Arrive(m) =>
          MainStepIsSequential(env, s, h, m);
          assert Arrivals(events)[..|Arrivals(events)| - 1] == Arrivals(front);
        case DbTurn =>
          DbStepIsSequential(env, s, h);
      }
    }
  }
}
