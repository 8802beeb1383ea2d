/** The server: the message handlers of the main thread and the loop of the
    database thread, over the cache, the queue, the backend and the replies. */
module Server {
  import opened Bytes
  import opened Decimal
  import opened Protocol
  import opened Wire
  import opened Queue
  import K = Cache
  import C = CacheModel

  class Server {
    const env: Env
    const cache: K.Cache
    const queue: Queue<Item>
    /** The backend, an ideal map. */
    var db: Db
    /** The replies sent, oldest first. */
    var replies: seq<Reply>
    var arrived: nat
    ghost var Repr: set<object>

    ghost predicate Valid()
      reads this, Repr
    {
      && this in Repr && queue in Repr && cache.Repr <= Repr
      && this !in cache.Repr && queue !in cache.Repr
      && (forall e :: e in queue.entries ==> e in Repr && e !in cache.Repr)
      && cache in cache.Repr && cache.Valid() && cache.hash == env.hash && queue.Valid()
    }

    ghost function State(): State
      reads this, Repr
      requires Valid()
    {
      Protocol.State(cache.contents, queue.Items(), db, replies, arrived)
    }

    constructor (env: Env, numobjs: nat, db: Db)
      requires numobjs >= 4
      ensures Valid() && fresh(Repr) && this.env == env
      ensures State() == Start(numobjs / 4, db)
    {
      this.env, this.db, replies, arrived := env, db, [], 0;
      var c := new K.Cache(numobjs, env.hash);
      var q := new Queue<Item>();
      cache, queue := c, q;
      Repr := c.Repr + {q, this};
    }

    // ---------- the main thread ----------

    /** The transport's reply functions; a passive server sends nothing. */
    method Send(serial: nat, wireId: bytes, body: Body)
      requires Valid()
      modifies this`replies
      ensures Valid() && State() == Say(env, old(State()), serial, wireId, body)
    {
      if env.passive {
        return;
      }
      replies := replies + [Reply(serial, wireId, body)];
    }

    method PutInQueue(m: Message)
      requires Valid() && m.Request?
      modifies Repr
      ensures Valid() && fresh(Repr - old(Repr)) && State() == Enqueue(old(State()), m)
    {
      var e := new QueueEntry(Item(arrived, m.wireId, Sync(m.flags), m.op));
      queue.Put(e);
      Repr := Repr + {e};
    }

    method ParseGet(m: Message, key: bytes)
      requires Valid() && m.Request? && m.op == Get(key)
      modifies Repr
      ensures Valid() && fresh(Repr - old(Repr)) && State() == Handle(env, old(State()), m)
    {
      hide K.Cache.Valid, Queue.Valid, C.Get, C.Set, C.Del, C.Cas, C.Incr, C.CasCode, C.IncrCode, IncrValue, Be64;
      var hit := cache.Get(key);
      if CacheOnly(m.flags) && hit.None? {
        Send(arrived, m.wireId, Mini(REP_CACHE_MISS));
      } else if !CacheOnly(m.flags) && hit.None? {
        PutInQueue(m);
      } else {
        Send(arrived, m.wireId, Long(REP_CACHE_HIT, hit.value));
      }
    }

    method ParseSet(m: Message, key: bytes, val: bytes)
      requires Valid() && m.Request? && m.op == Set(key, val)
      modifies Repr
      ensures Valid() && fresh(Repr - old(Repr)) && State() == Handle(env, old(State()), m)
    {
      hide K.Cache.Valid, Queue.Valid, C.Get, C.Set, C.Del, C.Cas, C.Incr, C.CasCode, C.IncrCode, IncrValue, Be64;
      if env.readOnly {
        Send(arrived, m.wireId, Error(ERR_RO));
        return;
      }
      cache.Set(key, val);
      if !CacheOnly(m.flags) {
        PutInQueue(m);
        if !Sync(m.flags) {
          Send(arrived, m.wireId, Mini(REP_OK));
        }
      } else {
        Send(arrived, m.wireId, Mini(REP_OK));
      }
    }

    method ParseDel(m: Message, key: bytes)
      requires Valid() && m.Request? && m.op == Del(key)
      modifies Repr
      ensures Valid() && fresh(Repr - old(Repr)) && State() == Handle(env, old(State()), m)
    {
      hide K.Cache.Valid, Queue.Valid, C.Get, C.Set, C.Del, C.Cas, C.Incr, C.CasCode, C.IncrCode, IncrValue, Be64;
      if env.readOnly {
        Send(arrived, m.wireId, Error(ERR_RO));
        return;
      }
      var hit := cache.Del(key);
      if CacheOnly(m.flags) && hit {
        Send(arrived, m.wireId, Mini(REP_OK));
      } else if CacheOnly(m.flags) && !hit {
        Send(arrived, m.wireId, Mini(REP_NOTIN));
      } else {
        PutInQueue(m);
        if !Sync(m.flags) {
          Send(arrived, m.wireId, Mini(REP_OK));
        }
      }
    }

    method ParseCas(m: Message, key: bytes, oldval: bytes, newval: bytes)
      requires Valid() && m.Request? && m.op == Cas(key, oldval, newval)
      modifies Repr
      ensures Valid() && fresh(Repr - old(Repr)) && State() == Handle(env, old(State()), m)
    {
      hide K.Cache.Valid, Queue.Valid, C.Get, C.Set, C.Del, C.Cas, C.Incr, C.CasCode, C.IncrCode, IncrValue, Be64;
      if env.readOnly {
        Send(arrived, m.wireId, Error(ERR_RO));
        return;
      }
      var rv := cache.Cas(key, oldval, newval);
      if rv == -1 {
        // the cache does not match: no need to bother the database
        Send(arrived, m.wireId, Mini(REP_NOMATCH));
        return;
      }
      if CacheOnly(m.flags) {
        Send(arrived, m.wireId, if rv == 0 then Mini(REP_OK) else Mini(REP_NOTIN));
      } else {
        PutInQueue(m);
      }
    }

    method ParseIncr(m: Message, key: bytes, increment: int64)
      requires Valid() && m.Request? && m.op == Incr(key, increment)
      requires !env.readOnly ==> C.Get(env.hash, cache.contents, key) != Some([])
      modifies Repr
      ensures Valid() && fresh(Repr - old(Repr)) && State() == Handle(env, old(State()), m)
    {
      hide K.Cache.Valid, Queue.Valid, C.Get, C.Set, C.Del, C.Cas, C.Incr, C.CasCode, IncrValue, Be64;
      if env.readOnly {
        Send(arrived, m.wireId, Error(ERR_RO));
        return;
      }
      var cres, newval := cache.Incr(key, increment);
      if cres == -2 {
        Send(arrived, m.wireId, Mini(REP_NOMATCH));
        return;
      }
      if !CacheOnly(m.flags) {
        PutInQueue(m);
      } else if cres == -1 {
        Send(arrived, m.wireId, Mini(REP_NOTIN));
      } else {
        Send(arrived, m.wireId, Long(REP_OK, Be64(newval)));
      }
    }

    /** Handles one message of len bytes at the start of mem. Returns whether the
        connection may go on. */
    method ParseMessage(mem: bytes, len: nat) returns (ok: bool)
      requires Valid() && Decode(mem, len).Ok?
      requires var m := Decode(mem, len).msg;
        m.Request? && m.op.Incr? && !env.readOnly ==> C.Get(env.hash, cache.contents, m.op.key) != Some([])
      modifies Repr
      ensures Valid() && fresh(Repr - old(Repr))
      ensures State() == MainStep(env, old(State()), Decode(mem, len).msg)
      ensures ok <==> !Decode(mem, len).msg.BadVersion?
    {
      hide Decode, Handle, K.Cache.Valid, Queue.Valid;
      var m := Decode(mem, len).msg;
      var serial := arrived;
      Dispatch(m);
      arrived := serial + 1;
      ok := !m.BadVersion?;
    }

    method Dispatch(m: Message)
      requires Valid()
      requires m.Request? && m.op.Incr? && !env.readOnly ==> C.Get(env.hash, cache.contents, m.op.key) != Some([])
      modifies Repr
      ensures Valid() && fresh(Repr - old(Repr)) && State() == Handle(env, old(State()), m)
    {
      match m
      case BadVersion(w) => Send(arrived, w, Error(ERR_VER));
      case Unknown(w) => Send(arrived, w, Error(ERR_UNKREQ));
      case Broken(w) => Send(arrived, w, Error(ERR_BROKEN));
      case Request(_, _, op) =>
        match op
        case Get(k) => ParseGet(m, k);
        case Set(k, v) => ParseSet(m, k, v);
        case Del(k) => ParseDel(m, k);
        case Cas(k, o, n) => ParseCas(m, k, o, n);
        case Incr(k, i) => ParseIncr(m, k, i);
    }

    // ---------- the database thread ----------

    /** The backend's get: copies a value that fits into the buffer. */
    method DbGet(key: bytes, buf: array<byte>) returns (found: bool, size: nat)
      requires buf.Length == MAX_VALUE
      modifies buf
      ensures size <= buf.Length
      ensures Fetch(db, key) == if found then Some(buf[..size]) else None
    {
      if key !in db || |db[key]| > buf.Length {
        return false, 0;
      }
      size := |db[key]|;
      forall i | 0 <= i < size {
        buf[i] := db[key][i];
      }
      assert buf[..size] == db[key];
      found := true;
    }

    method DbSet(key: bytes, val: bytes)
      modifies this`db
      ensures db == old(db)[key := val]
    {
      db := db[key := val];
    }

    method DbDel(key: bytes) returns (found: bool)
      modifies this`db
      ensures db == old(db) - {key} && found == (key in old(db))
    {
      found := key in db;
      db := db - {key};
    }

    /** The state after an operation whose answer is due only if owed. */
    ghost function Performed(s: State, e: Item): State {
      var (db, body) := Perform(s.db, e.op);
      var s1 := s.(db := db);
      if Owes(e) then Say(env, s1, e.serial, e.wireId, body) else s1
    }

    method ProcessOp(e: Item)
      requires Valid()
      requires e.op.Incr? ==> Fetch(db, e.op.key) != Some([])
      modifies this`db, this`replies
      ensures Valid() && State() == Performed(old(State()), e)
    {
      hide K.Cache.Valid, Queue.Valid, IncrValue, Fetch, Be64;
      match e.op {
        case Set(k, v) =>
          DbSet(k, v);
          if !e.sync {
            return;
          }
          Send(e.serial, e.wireId, Mini(REP_OK));
        case Get(k) =>
          var val := new byte[MAX_VALUE];
          var found, vsize := DbGet(k, val);
          if !found {
            Send(e.serial, e.wireId, Mini(REP_NOTIN));
            return;
          }
          Send(e.serial, e.wireId, Long(REP_OK, val[..vsize]));
        case Del(k) =>
          var found := DbDel(k);
          if !e.sync {
            return;
          }
          Send(e.serial, e.wireId, if found then Mini(REP_OK) else Mini(REP_NOTIN));
        case Cas(k, o, n) => ProcessCas(e, k, o, n);
        case Incr(k, i) => ProcessIncr(e, k, i);
      }
    }

    method ProcessCas(e: Item, key: bytes, oldval: bytes, newval: bytes)
      requires Valid() && e.op == Cas(key, oldval, newval)
      modifies this`db, this`replies
      ensures Valid() && State() == Performed(old(State()), e)
    {
      hide K.Cache.Valid, Queue.Valid, Fetch;
      var dbval := new byte[MAX_VALUE];
      var found, dbvsize := DbGet(key, dbval);
      if !found {
        Send(e.serial, e.wireId, Mini(REP_NOTIN));
        return;
      }
      if |oldval| == dbvsize && oldval == dbval[..dbvsize] {
        DbSet(key, newval);
        Send(e.serial, e.wireId, Mini(REP_OK));
        return;
      }
      Send(e.serial, e.wireId, Mini(REP_NOMATCH));
    }

    method ProcessIncr(e: Item, key: bytes, increment: int64)
      requires Valid() && e.op == Incr(key, increment) && Fetch(db, key) != Some([])
      modifies this`db, this`replies
      ensures Valid() && State() == Performed(old(State()), e)
    {
      hide K.Cache.Valid, Queue.Valid, IncrValue, Fetch, Be64;
      var dbval := new byte[MAX_VALUE];
      var found, dbvsize := DbGet(key, dbval);
      if !found {
        Send(e.serial, e.wireId, Mini(REP_NOTIN));
        return;
      }
      var terminated, n, size := IncrBuffer(dbval, dbvsize, increment);
      if !terminated {
        Send(e.serial, e.wireId, Mini(REP_NOMATCH));
        return;
      }
      DbSet(key, dbval[..size]);
      Send(e.serial, e.wireId, Long(REP_OK, Be64(n)));
    }

    /** One round of the loop, without the wait: the first entry is processed;
        with none left, the loop ends if it has been told to. */
    method DbLoopRound(stop: bool) returns (exit: bool)
      requires Valid() && IncrSafe(db, queue.Items())
      modifies Repr
      ensures Valid() && fresh(Repr - old(Repr)) && Repr == old(Repr)
      ensures State() == DbStep(env, old(State()))
      ensures IncrSafe(db, queue.Items())
      ensures exit <==> old(queue.Items()) == [] && stop
    {
      hide K.Cache.Valid, Perform;
      var e := queue.Get();
      if e == null {
        return stop;
      }
      assert old(queue.Items())[0] == e.item && old(queue.Items())[1..] == queue.Items();
      ProcessOp(e.item);
      exit := false;
    }

    /** The loop after the stop flag is set and the main thread has stopped
        putting: it ends, and only with an empty queue. */
    method DbLoop()
      requires Valid() && IncrSafe(db, queue.Items())
      modifies Repr
      ensures Valid() && State() == Drain(env, old(State())) && queue.Items() == []
    {
      hide K.Cache.Valid, Queue.Valid, DbStep, IncrSafe;
      var exit := false;
      while !exit
        invariant Valid() && Repr == old(Repr) && IncrSafe(db, queue.Items())
        invariant Drain(env, State()) == Drain(env, old(State()))
        invariant exit ==> queue.Items() == []
        decreases !exit, |queue.Items()|
      {
        DbStepShrinks(env, State());
        exit := DbLoopRound(true);
      }
    }
  }

  lemma DbStepShrinks(env: Env, s: State)
    ensures s.queue != [] ==> |DbStep(env, s).queue| < |s.queue| && Drain(env, DbStep(env, s)) == Drain(env, s)
    ensures s.queue == [] ==> DbStep(env, s) == s && Drain(env, s) == s
  {
  }

  /** snprintf(buf, size, "%23lld", n) for a size of at least 24. */
  method PrintField(buf: array<byte>, size: nat, n: int64)
    requires 24 <= size <= buf.Length
    modifies buf
    ensures buf[..] == Field23(n) + [NUL] + old(buf[24..])
  {
    var text := Field23(n) + [NUL];
    forall i | 0 <= i < 24 {
      buf[i] := text[i];
    }
    assert buf[..] == text + old(buf[24..]);
  }

  /** The increment of a value of size bytes in a 64 KiB buffer, in place. */
  method IncrBuffer(buf: array<byte>, size: nat, increment: int64)
    returns (terminated: bool, n: int64, newsize: nat)
    requires buf.Length == MAX_VALUE && 0 < size <= buf.Length
    modifies buf
    ensures newsize <= buf.Length
    ensures IncrValue(old(buf[..size]), increment) ==
      if terminated then Incremented(n, buf[..newsize]) else NotTerminated
  {
    hide Strtoll, Field23, WrapI64;
    newsize := size;
    ghost var val := buf[..size];
    if buf[size - 1] != NUL {
      return false, 0, size;
    }
    StrtollStopsAtNul(buf[..], size);
    assert buf[..][..size] == val;
    n := WrapI64(Strtoll(buf[..]) + increment);
    if size < 24 {
      newsize := 24;
    }
    PrintField(buf, newsize, n);
    assert buf[..newsize] == Field23(n) + [NUL] + if size < 24 then [] else val[24..];
    terminated := true;
  }
}
