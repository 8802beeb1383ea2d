/** A turn of the database thread may fall before, after or inside the handling
    of a message: it makes no difference. */
module Interleaving {
  import opened Bytes
  import opened Decimal
  import opened Protocol
  import C = CacheModel

  /** b is t with the same additions that make a of s. */
  predicate SameAdditions(s: State, a: State, t: State, b: State) {
    && b.cache == a.cache && b.db == t.db && a.db == s.db && b.arrived == t.arrived && a.arrived == s.arrived
    && s.queue <= a.queue && b.queue == t.queue + a.queue[|s.queue|..]
    && s.replies <= a.replies && b.replies == t.replies + a.replies[|s.replies|..]
  }

  /** States that differ only in queue, backend and replies. */
  predicate SameFront(s: State, t: State) {
    s.cache == t.cache && s.arrived == t.arrived
  }

  lemma SaySame(env: Env, s: State, t: State, s1: State, t1: State, w: bytes, body: Body)
    requires SameAdditions(s, s1, t, t1) && s1.replies == s.replies && t1.replies == t.replies
    ensures SameAdditions(s, Say(env, s1, s.arrived, w, body), t, Say(env, t1, s.arrived, w, body))
  {
    var a, b := Say(env, s1, s.arrived, w, body), Say(env, t1, s.arrived, w, body);
    assert a.replies[|s.replies|..] == b.replies[|t.replies|..];
  }

  lemma EnqueueSame(s: State, t: State, s1: State, t1: State, m: Message)
    requires m.Request? && SameFront(s, t) && s1 == s.(cache := s1.cache) && t1 == t.(cache := s1.cache)
    ensures SameAdditions(s, Enqueue(s1, m), t, Enqueue(t1, m))
  {
    var a, b := Enqueue(s1, m), Enqueue(t1, m);
    assert a.queue[|s.queue|..] == b.queue[|t.queue|..];
  }

  lemma AcknowledgeSame(env: Env, s: State, t: State, table: C.Table, m: Message, body: Body)
    requires m.Request? && SameFront(s, t)
    ensures SameAdditions(s, Acknowledge(env, s.(cache := table), m, body),
                          t, Acknowledge(env, t.(cache := table), m, body))
  {
    hide SameAdditions, Say, Enqueue, CacheOnly, Sync;
    var s1, t1 := s.(cache := table), t.(cache := table);
    UnchangedSame(s, t, table);
    SaySame(env, s, t, s1, t1, m.wireId, body);
    EnqueueSame(s, t, s1, t1, m);
    EnqueueKeeps(s1, m);
    EnqueueKeeps(t1, m);
    SaySame(env, s, t, Enqueue(s1, m), Enqueue(t1, m), m.wireId, Mini(REP_OK));
  }

  lemma EnqueueKeeps(s: State, m: Message)
    requires m.Request?
    ensures Enqueue(s, m).replies == s.replies && Enqueue(s, m).arrived == s.arrived
  {
  }

  lemma UnchangedSame(s: State, t: State, table: C.Table)
    requires SameFront(s, t)
    ensures SameAdditions(s, s.(cache := table), t, t.(cache := table))
  {
  }

  /** A handler whose outcome is one reply or one queue entry. */
  lemma EitherSame(env: Env, s: State, t: State, table: C.Table, m: Message, body: Body)
    requires m.Request? && SameFront(s, t)
    ensures SameAdditions(s, Say(env, s.(cache := table), s.arrived, m.wireId, body),
                          t, Say(env, t.(cache := table), t.arrived, m.wireId, body))
    ensures SameAdditions(s, Enqueue(s.(cache := table), m), t, Enqueue(t.(cache := table), m))
  {
    hide SameAdditions, Say, Enqueue;
    UnchangedSame(s, t, table);
    SaySame(env, s, t, s.(cache := table), t.(cache := table), m.wireId, body);
    EnqueueSame(s, t, s.(cache := table), t.(cache := table), m);
  }

  lemma RequestSame(env: Env, s: State, t: State, m: Message)
    requires m.Request? && SameFront(s, t) && (env.readOnly ==> m.op.Get?)
    ensures SameAdditions(s, Handle(env, s, m), t, Handle(env, t, m))
  {
    hide SameAdditions, Say, Enqueue, Acknowledge, CacheOnly, Sync;
    hide C.Set, C.Del, C.Cas, C.Incr, C.CasCode, C.IncrCode, IncrValue;
    var c := s.cache;
    assert s.(cache := c) == s && t.(cache := c) == t;
    match m.op {
      case Get(k) =>
        var hit := C.Get(env.hash, c, k);
        var body := if hit.Some? then Long(REP_CACHE_HIT, hit.value) else Mini(REP_CACHE_MISS);
        EitherSame(env, s, t, c, m, body);
      case Set(k, v) => AcknowledgeSame(env, s, t, C.Set(env.hash, c, k, v), m, Mini(REP_OK));
      case Del(k) =>
        AcknowledgeSame(env, s, t, C.Del(env.hash, c, k), m,
          if C.Get(env.hash, c, k).Some? then Mini(REP_OK) else Mini(REP_NOTIN));
      case Cas(k, o, n) =>
        var code := C.CasCode(env.hash, c, k, o);
        var body := Mini(if code == -1 then REP_NOMATCH else if code == 0 then REP_OK else REP_NOTIN);
        EitherSame(env, s, t, C.Cas(env.hash, c, k, o, n), m, body);
      case Incr(k, i) => IncrSame(env, s, t, m, k, i);
    }
  }

  lemma IncrSame(env: Env, s: State, t: State, m: Message, k: bytes, i: int64)
    requires m.Request? && SameFront(s, t)
    ensures SameAdditions(s, HandleIncr(env, s, m, k, i), t, HandleIncr(env, t, m, k, i))
  {
    hide SameAdditions, Say, Enqueue, CacheOnly, C.Incr;
    var code := C.IncrCode(env.hash, s.cache, k, i);
    var body := if code == -2 then Mini(REP_NOMATCH) else if code == -1 then Mini(REP_NOTIN)
      else Long(REP_OK, Be64(IncrValue(C.Get(env.hash, s.cache, k).value, i).number));
    EitherSame(env, s, t, C.Incr(env.hash, s.cache, k, i), m, body);
  }

  lemma HandleSame(env: Env, s: State, t: State, m: Message)
    requires SameFront(s, t)
    ensures SameAdditions(s, Handle(env, s, m), t, Handle(env, t, m))
  {
    if m.Request? && (env.readOnly ==> m.op.Get?) {
      RequestSame(env, s, t, m);
    } else {
      hide SameAdditions, Say, Acknowledge, HandleGet, HandleCas, HandleIncr;
      var code := match m case BadVersion(_) => ERR_VER case Unknown(_) => ERR_UNKREQ
        case Broken(_) => ERR_BROKEN case Request(_, _, _) => ERR_RO;
      UnchangedSame(s, t, s.cache);
      assert s.(cache := s.cache) == s && t.(cache := s.cache) == t;
      SaySame(env, s, t, s, t, m.wireId, Error(code));
    }
  }

  /** What the database thread says about its first entry. */
  function Said(env: Env, e: Item, db: Db): seq<Reply> {
    if Owes(e) && !env.passive then [Reply(e.serial, e.wireId, Perform(db, e.op).1)] else []
  }

  lemma DbStepInParts(env: Env, s: State)
    requires s.queue != []
    ensures var d := DbStep(env, s);
      && d.queue == s.queue[1..] && d.db == Perform(s.db, s.queue[0].op).0
      && d.replies == s.replies + Said(env, s.queue[0], s.db)
      && d.cache == s.cache && d.arrived == s.arrived
  {
    hide Perform, Owes;
  }

  lemma AdditionsAreSuffixes(s: State, a: State, t: State, b: State)
    requires SameAdditions(s, a, t, b)
    ensures a.queue == s.queue + a.queue[|s.queue|..] && a.replies == s.replies + a.replies[|s.replies|..]
  {
  }

  /** A message and a turn of the database thread can be taken in either order
      when something is queued: the same cache, queue and backend come out, and
      the same replies, in one order or the other. */
  lemma StepsCommute(env: Env, s: State, m: Message)
    requires s.queue != []
    ensures var a, b := DbStep(env, MainStep(env, s, m)), MainStep(env, DbStep(env, s), m);
      && a.cache == b.cache && a.queue == b.queue && a.db == b.db && a.arrived == b.arrived
      && multiset(a.replies) == multiset(b.replies)
  {
    hide Handle, Perform, Owes, DbStep, Said;
    var d, mid := DbStep(env, s), MainStep(env, s, m);
    DbStepInParts(env, s);
    HandleSame(env, s, d, m);
    AdditionsAreSuffixes(s, Handle(env, s, m), d, Handle(env, d, m));
    var more := mid.queue[|s.queue|..];
    assert mid.queue[0] == s.queue[0] && mid.queue[1..] == s.queue[1..] + more;
    DbStepInParts(env, mid);
  }
}
