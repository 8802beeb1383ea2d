/** What the main thread says and does at once for each request, and for how
    long it can answer for a key out of the cache. */
module Cached {
  import opened Bytes
  import opened Decimal
  import opened Protocol
  import opened Linear
  import C = CacheModel

  // ---------- one message ----------

  /** r is s with one more reply, to m, that a client reads as seen. */
  predicate Answered(s: State, r: State, m: Message, seen: Outcome) {
    && |r.replies| == |s.replies| + 1 && r.replies[..|s.replies|] == s.replies
    && var last := r.replies[|s.replies|];
      last.serial == s.arrived && last.wireId == m.wireId && Observed(last.body) == seen
  }

  /** m waits for the database thread, behind all others. */
  predicate Waits(s: State, r: State, m: Message)
    requires m.Request?
  {
    r.queue == s.queue + [Item(s.arrived, m.wireId, Sync(m.flags), m.op)]
  }

  predicate Counter(v: bytes) {
    v != [] && v[|v| - 1] == 0
  }

  /** Requests that change something, and those that are no requests, are refused
      without a trace but the reply. */
  lemma RefusedWithoutATrace(env: Env, s: State, m: Message)
    requires !env.passive && (!m.Request? || (env.readOnly && !m.op.Get?))
    ensures var r := MainStep(env, s, m);
      && r.cache == s.cache && r.queue == s.queue && r.db == s.db && r.arrived == s.arrived + 1
      && Answered(s, r, m, Failed(match m
           case BadVersion(_) => ERR_VER
           case Unknown(_) => ERR_UNKREQ
           case Broken(_) => ERR_BROKEN
           case Request(_, _, _) => ERR_RO))
  {
    hide HandleGet, HandleCas, HandleIncr, Acknowledge;
  }

  lemma CacheOnlyCas(env: Env, s: State, m: Message, k: bytes, o: bytes, n: bytes)
    requires m.Request? && m.op == Cas(k, o, n) && CacheOnly(m.flags) && !env.passive && !env.readOnly
    ensures var r := MainStep(env, s, m);
      var before, after := C.Get(env.hash, s.cache, k), C.Get(env.hash, r.cache, k);
      && r.queue == s.queue && r.db == s.db && r.arrived == s.arrived + 1
      && if before == Some(o) then after == Some(n) && Answered(s, r, m, Done)
         else after == before && Answered(s, r, m, if before.Some? then Mismatch else Missing)
  {
    hide C.Rewrite, C.Get, CacheOnly, Sync;
    C.GetAfterRewrite(env.hash, s.cache, k, n, k);
  }

  lemma CacheOnlyIncr(env: Env, s: State, m: Message, k: bytes, i: int64)
    requires m.Request? && m.op == Incr(k, i) && CacheOnly(m.flags) && !env.passive && !env.readOnly
    ensures var r := MainStep(env, s, m);
      var before, after := C.Get(env.hash, s.cache, k), C.Get(env.hash, r.cache, k);
      && r.queue == s.queue && r.db == s.db && r.arrived == s.arrived + 1
      && if before.Some? && Counter(before.value) then
           && after.Some?
           && Strtoll(after.value) == WrapI64(Strtoll(before.value) + i)
           && Answered(s, r, m, Value(Be64(Strtoll(after.value))))
         else after == before && Answered(s, r, m, if before.Some? then Mismatch else Missing)
  {
    hide C.Rewrite, C.Get, CacheOnly, Sync, Be64, Strtoll, WrapI64, IncrValue;
    var before := C.Get(env.hash, s.cache, k);
    if before.Some? {
      IncrementedValueReadsBack(before.value, i);
      if IncrValue(before.value, i).Incremented? {
        C.GetAfterRewrite(env.hash, s.cache, k, IncrValue(before.value, i).stored, k);
      }
    }
  }

  /** A cache-only request is answered at once, from what the cache held of its
      key, and leaves queue and backend alone. */
  lemma CacheOnlyAnswer(env: Env, s: State, m: Message)
    requires m.Request? && CacheOnly(m.flags) && !env.passive && (env.readOnly ==> m.op.Get?)
    ensures var r := MainStep(env, s, m);
      var before, after := C.Get(env.hash, s.cache, m.op.key), C.Get(env.hash, r.cache, m.op.key);
      && r.queue == s.queue && r.db == s.db && r.arrived == s.arrived + 1
      && match m.op
         case Get(_) =>
           after == before && Answered(s, r, m, if before.Some? then Value(before.value) else NotCached)
         case Set(_, v) =>
           after == Some(v) && Answered(s, r, m, Done)
         case Del(_) =>
           after == None && Answered(s, r, m, if before.Some? then Done else Missing)
         case Cas(_, o, n) =>
           if before == Some(o) then after == Some(n) && Answered(s, r, m, Done)
           else after == before && Answered(s, r, m, if before.Some? then Mismatch else Missing)
         case Incr(_, i) =>
           if before.Some? && Counter(before.value) then
             && after.Some?
             && Strtoll(after.value) == WrapI64(Strtoll(before.value) + i)
             && Answered(s, r, m, Value(Be64(Strtoll(after.value))))
           else after == before && Answered(s, r, m, if before.Some? then Mismatch else Missing)
  {
    hide C.Set, C.Del, C.Cas, C.Incr, C.Get, CacheOnly, Sync, Be64, Strtoll, WrapI64, HandleCas, HandleIncr;
    var k := m.op.key;
    match m.op {
      case Get(_) =>
      case Set(_, v) => C.GetAfterSet(env.hash, s.cache, k, v, k);
      case Del(_) => C.GetAfterDel(env.hash, s.cache, k, k);
      case Cas(_, o, n) => hide MainStep, Answered; CacheOnlyCas(env, s, m, k, o, n);
      case Incr(_, i) => hide MainStep, Answered, Counter; CacheOnlyIncr(env, s, m, k, i);
    }
  }

  /** Any other request is answered at once only where the cache settles it or
      an asynchronous write is acknowledged; and it waits for the database
      thread unless it was a hit or the cache rejected it. */
  lemma DatabaseAnswer(env: Env, s: State, m: Message)
    requires m.Request? && !CacheOnly(m.flags) && !env.passive && (env.readOnly ==> m.op.Get?)
    ensures var r := MainStep(env, s, m);
      var hit := C.Get(env.hash, s.cache, m.op.key);
      var settled := hit.Some? &&
        (match m.op
         case Get(_) => true
         case Set(_, _) => false
         case Del(_) => false
         case Cas(_, o, _) => hit.value != o
         case Incr(_, _) => !Counter(hit.value));
      && r.db == s.db && r.arrived == s.arrived + 1
      && (if settled then r.queue == s.queue else Waits(s, r, m))
      && if settled then Answered(s, r, m, if m.op.Get? then Value(hit.value) else Mismatch)
         else if (m.op.Set? || m.op.Del?) && !Sync(m.flags) then Answered(s, r, m, Done)
         else r.replies == s.replies
  {
    hide C.Set, C.Del, C.Rewrite, CacheOnly, Sync, Be64, Strtoll;
    match m.op {
      case Get(_) =>
      case Set(_, _) =>
      case Del(_) =>
      case Cas(_, _, _) =>
      case Incr(_, i) =>
        var hit := C.Get(env.hash, s.cache, m.op.key);
        if hit.Some? {
          IncrementedValueReadsBack(hit.value, i);
          hide IncrValue;
        }
    }
  }

  // ---------- the cache over whole runs ----------

  /** What a message does to the cache, cache-only or not. */
  function CacheOp(readOnly: bool, m: Message): Option<C.Op> {
    if !m.Request? || (readOnly && !m.op.Get?) then None
    else Some(
      match m.op
      case Get(k) => C.OpGet(k)
      case Set(k, v) => C.OpSet(k, v)
      case Del(k) => C.OpDel(k)
      case Cas(k, o, n) => C.OpCas(k, o, n)
      case Incr(k, i) => C.OpIncr(k, i))
  }

  function CacheOps(readOnly: bool, msgs: seq<Message>): seq<C.Op> {
    if msgs == [] then []
    else
      CacheOps(readOnly, msgs[..|msgs| - 1]) +
      match CacheOp(readOnly, msgs[|msgs| - 1]) case None => [] case Some(op) => [op]
  }

  lemma MessageIsOneCacheOp(env: Env, s: State, m: Message)
    ensures MainStep(env, s, m).cache ==
            match CacheOp(env.readOnly, m) case None => s.cache case Some(op) => C.Apply(env.hash, s.cache, op)
  {
    hide C.Set, C.Del, C.Rewrite, C.Get, IncrValue, CacheOnly, Sync, Be64;
    if m.Request? {
      match m.op {
        case Get(_) =>
        case Set(_, _) =>
        case Del(_) =>
        case Cas(_, _, _) =>
        case Incr(_, _) =>
      }
    }
  }

  /** In any run the cache is what the messages alone make of it, one operation
      each, in the order of arrival: the database thread has no part in it. */
  lemma {:induction false} RunIsCacheRun(env: Env, s: State, events: seq<Event>)
    ensures Run(env, s, events).cache == C.Run(env.hash, s.cache, CacheOps(env.readOnly, Arrivals(events)))
  {
    hide CacheOp, MainStep, C.Apply;
    if events != [] {
      var front := events[..|events| - 1];
      RunIsCacheRun(env, s, front);
      match events[|events| - 1] {
        case Arrive(m) =>
          MessageIsOneCacheOp(env, Run(env, s, front), m);
          assert Arrivals(events)[..|Arrivals(events)| - 1] == Arrivals(front);
          var before, after := CacheOps(env.readOnly, Arrivals(front)), CacheOps(env.readOnly, Arrivals(events));
          match CacheOp(env.readOnly, m) {
            case None => assert after == before;
            case Some(_) => assert after[..|after| - 1] == before;
          }
        case DbTurn => hide Perform;
      }
    }
  }

  lemma {:induction false} RunSplits(env: Env, s: State, pre: seq<Event>, post: seq<Event>)
    ensures Run(env, s, pre + post) == Run(env, Run(env, s, pre), post)
  {
    hide Step;
    if post == [] {
      assert pre + post == pre;
    } else {
      assert (pre + post)[..|pre + post| - 1] == pre + post[..|post| - 1];
      RunSplits(env, s, pre, post[..|post| - 1]);
    }
  }

  lemma RunIsPlaced(env: Env, size: nat, db: Db, events: seq<Event>)
    requires size > 0
    ensures var t := Run(env, Start(size, db), events).cache; C.Placed(env.hash, t) && |t| == size
  {
    RunIsCacheRun(env, Start(size, db), events);
    C.RunIsPlaced(env.hash, C.Empty(size), CacheOps(env.readOnly, Arrivals(events)));
  }

  lemma CacheAfterSet(env: Env, size: nat, db: Db, pre: seq<Event>, put: Message, post: seq<Event>)
    returns (t: C.Table)
    requires size > 0 && !env.readOnly && put.Request? && put.op.Set?
    ensures C.Placed(env.hash, t) && |t| == size
    ensures Run(env, Start(size, db), pre + [Arrive(put)] + post).cache ==
            C.Run(env.hash, C.Set(env.hash, t, put.op.key, put.op.val), CacheOps(false, Arrivals(post)))
  {
    hide C.Placed, C.Set, C.Run, Arrivals, CacheOps;
    var s := Run(env, Start(size, db), pre);
    t := s.cache;
    RunIsPlaced(env, size, db, pre);
    RunSplits(env, Start(size, db), pre + [Arrive(put)], post);
    assert (pre + [Arrive(put)])[..|pre|] == pre;
    MessageIsOneCacheOp(env, s, put);
    RunIsCacheRun(env, MainStep(env, s, put), post);
    hide MainStep;
    assert Run(env, Start(size, db), pre + [Arrive(put)]) == MainStep(env, s, put);
  }

  /** A key that was set, whatever came before, is served from the cache, with
      its latest value and without a look at the database, as long as nobody
      deletes it and fewer than four other keys of its bucket are set. */
  lemma SetKeyIsServed(
    env: Env, size: nat, db: Db, pre: seq<Event>, put: Message, post: seq<Event>, ask: Message)
    requires size > 0 && !env.readOnly && !env.passive
    requires put.Request? && put.op.Set? && ask.Request? && ask.op == Get(put.op.key)
    requires var ops := CacheOps(false, Arrivals(post));
      C.OpDel(put.op.key) !in ops && |C.Rivals(env.hash, size, put.op.key, ops)| < 4
    ensures var s := Run(env, Start(size, db), pre + [Arrive(put)] + post);
      var v := C.LastValue(put.op.key, put.op.val, CacheOps(false, Arrivals(post)));
      MainStep(env, s, ask) == s.(
        arrived := s.arrived + 1,
        replies := s.replies + [Reply(s.arrived, ask.wireId, Long(REP_CACHE_HIT, v))])
  {
    hide Run, Arrivals, CacheOps, C.Run, C.Rivals, C.LastValue;
    var t := CacheAfterSet(env, size, db, pre, put, post);
    C.SetKeyIsKept(env.hash, t, put.op.key, put.op.val, CacheOps(false, Arrivals(post)));
    hide C.Get;
  }

  /** Without deletions, and counted from the last set of the key, the rule is
      exact: a cache-only get hits just when fewer than four were set. */
  lemma CacheOnlyGetIsExact(
    env: Env, size: nat, db: Db, pre: seq<Event>, put: Message, post: seq<Event>, ask: Message)
    requires size > 0 && !env.readOnly && !env.passive
    requires put.Request? && put.op.Set? && ask.Request? && ask.op == Get(put.op.key) && CacheOnly(ask.flags)
    requires forall op :: op in CacheOps(false, Arrivals(post)) ==>
      !op.OpDel? && !(op.OpSet? && op.key == put.op.key)
    ensures var s := Run(env, Start(size, db), pre + [Arrive(put)] + post);
      var ops := CacheOps(false, Arrivals(post));
      Answered(s, MainStep(env, s, ask), ask,
        if |C.Rivals(env.hash, size, put.op.key, ops)| < 4
        then Value(C.LastValue(put.op.key, put.op.val, ops)) else NotCached)
  {
    hide Run, Arrivals, CacheOps, C.Run, C.Rivals, C.LastValue, MainStep, Answered, CacheOnly;
    var t := CacheAfterSet(env, size, db, pre, put, post);
    C.EvictionIsExact(env.hash, t, put.op.key, put.op.val, CacheOps(false, Arrivals(post)));
    hide C.Get;
    CacheOnlyAnswer(env, Run(env, Start(size, db), pre + [Arrive(put)] + post), ask);
  }
}
