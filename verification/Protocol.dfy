/** The write-behind protocol as a state machine: the main thread answers
    messages from the cache and queues what concerns the database, the database
    thread takes operations off the queue. */
module Protocol {
  import opened Bytes
  import opened Decimal
  import C = CacheModel

  const FLAGS_CACHE_ONLY := 1
  const FLAGS_SYNC := 2

  const REP_CACHE_HIT := 0x801
  const REP_CACHE_MISS := 0x802
  const REP_OK := 0x803
  const REP_NOTIN := 0x804
  const REP_NOMATCH := 0x805

  const ERR_VER := 0x101
  const ERR_BROKEN := 0x103
  const ERR_UNKREQ := 0x104
  const ERR_RO := 0x107

  const MAX_VALUE := 65536

  // ---------- messages, replies, state ----------

  datatype Op =
    | Get(key: bytes)
    | Set(key: bytes, val: bytes)
    | Del(key: bytes)
    | Cas(key: bytes, oldval: bytes, newval: bytes)
    | Incr(key: bytes, increment: int64)

  /** What decoding a message can come to. wireId is the 4-byte identifier that
      the reply will carry. */
  datatype Message =
    | Request(wireId: bytes, flags: nat, op: Op)
    | Broken(wireId: bytes)
    | Unknown(wireId: bytes)
    | BadVersion(wireId: bytes)

  predicate CacheOnly(flags: nat) {
    flags / FLAGS_CACHE_ONLY % 2 == 1
  }

  predicate Sync(flags: nat) {
    flags / FLAGS_SYNC % 2 == 1
  }

  datatype Body = Mini(code: nat) | Error(code: nat) | Long(code: nat, val: bytes)

  /** serial is the arrival number of the message replied to. It stands for the
      client's address, and is not sent. */
  datatype Reply = Reply(serial: nat, wireId: bytes, body: Body)

  /** An operation waiting for the database thread. */
  datatype Item = Item(serial: nat, wireId: bytes, sync: bool, op: Op)

  type Db = map<bytes, bytes>

  datatype State = State(cache: C.Table, queue: seq<Item>, db: Db, replies: seq<Reply>, arrived: nat)

  datatype Env = Env(hash: C.HashFn, readOnly: bool, passive: bool)

  // ---------- the database thread ----------

  /** What the backend adapters do for a get into a 64 KiB buffer. */
  function Fetch(db: Db, k: bytes): Option<bytes> {
    if k in db && |db[k]| <= MAX_VALUE then Some(db[k]) else None
  }

  /** One operation against the backend: its effect and its answer. */
  function Perform(db: Db, op: Op): (Db, Body) {
    match op
    case Get(k) =>
      (db, match Fetch(db, k) case None => Mini(REP_NOTIN) case Some(v) => Long(REP_OK, v))
    case Set(k, v) => (db[k := v], Mini(REP_OK))
    case Del(k) => (db - {k}, if k in db then Mini(REP_OK) else Mini(REP_NOTIN))
    case Cas(k, o, n) => (
      match Fetch(db, k)
      case None => (db, Mini(REP_NOTIN))
      case Some(v) => if v == o then (db[k := n], Mini(REP_OK)) else (db, Mini(REP_NOMATCH)))
    case Incr(k, i) => (
      match Fetch(db, k)
      case None => (db, Mini(REP_NOTIN))
      case Some(v) =>
        match IncrValue(v, i)
        case NotTerminated => (db, Mini(REP_NOMATCH))
        case Incremented(n, stored) => (db[k := stored], Long(REP_OK, Be64(n))))
  }

  /** Whether the database thread has to answer for this operation. */
  predicate Owes(e: Item) {
    (e.op.Set? || e.op.Del?) ==> e.sync
  }

  function Say(env: Env, s: State, serial: nat, wireId: bytes, body: Body): State {
    if env.passive then s else s.(replies := s.replies + [Reply(serial, wireId, body)])
  }

  function DbStep(env: Env, s: State): State {
    if s.queue == [] then s
    else
      var e := s.queue[0];
      var (db, body) := Perform(s.db, e.op);
      var s1 := s.(queue := s.queue[1..], db := db);
      if Owes(e) then Say(env, s1, e.serial, e.wireId, body) else s1
  }

  /** What the database thread does once no more messages come. */
  function Drain(env: Env, s: State): State
    decreases |s.queue|
  {
    if s.queue == [] then s else Drain(env, DbStep(env, s))
  }

  /** No queued increment will meet an empty value. */
  predicate IncrSafe(db: Db, queue: seq<Item>)
    decreases queue
  {
    queue == []
    || ((queue[0].op.Incr? ==> Fetch(db, queue[0].op.key) != Some([]))
        && IncrSafe(Perform(db, queue[0].op).0, queue[1..]))
  }

  // ---------- the main thread ----------

  function Enqueue(s: State, m: Message): State
    requires m.Request?
  {
    s.(queue := s.queue + [Item(s.arrived, m.wireId, Sync(m.flags), m.op)])
  }

  /** Everything but counting the arrival. */
  function Handle(env: Env, s: State, m: Message): State {
    match m
    case BadVersion(w) => Say(env, s, s.arrived, w, Error(ERR_VER))
    case Unknown(w) => Say(env, s, s.arrived, w, Error(ERR_UNKREQ))
    case Broken(w) => Say(env, s, s.arrived, w, Error(ERR_BROKEN))
    case Request(w, flags, op) =>
      if env.readOnly && !op.Get? then Say(env, s, s.arrived, w, Error(ERR_RO))
      else
        match op
        case Get(k) => HandleGet(env, s, m, k)
        case Set(k, v) =>
          Acknowledge(env, s.(cache := C.Set(env.hash, s.cache, k, v)), m, Mini(REP_OK))
        case Del(k) =>
          var hit := C.Get(env.hash, s.cache, k).Some?;
          Acknowledge(env, s.(cache := C.Del(env.hash, s.cache, k)), m, if hit then Mini(REP_OK) else Mini(REP_NOTIN))
        case Cas(k, o, n) => HandleCas(env, s, m, k, o, n)
        case Incr(k, i) => HandleIncr(env, s, m, k, i)
  }

  function HandleGet(env: Env, s: State, m: Message, k: bytes): State
    requires m.Request?
  {
    match C.Get(env.hash, s.cache, k)
    case Some(v) => Say(env, s, s.arrived, m.wireId, Long(REP_CACHE_HIT, v))
    case None =>
      if CacheOnly(m.flags) then Say(env, s, s.arrived, m.wireId, Mini(REP_CACHE_MISS)) else Enqueue(s, m)
  }

  /** The end of set and del: a cache-only request is answered from the cache,
      the others are queued, and answered at once unless they are synchronous. */
  function Acknowledge(env: Env, s: State, m: Message, cacheBody: Body): State
    requires m.Request?
  {
    if CacheOnly(m.flags) then Say(env, s, s.arrived, m.wireId, cacheBody)
    else if Sync(m.flags) then Enqueue(s, m)
    else Say(env, Enqueue(s, m), s.arrived, m.wireId, Mini(REP_OK))
  }

  function HandleCas(env: Env, s: State, m: Message, k: bytes, o: bytes, n: bytes): State
    requires m.Request?
  {
    var code := C.CasCode(env.hash, s.cache, k, o);
    var s1 := s.(cache := C.Cas(env.hash, s.cache, k, o, n));
    if code == -1 then Say(env, s1, s.arrived, m.wireId, Mini(REP_NOMATCH))
    else if !CacheOnly(m.flags) then Enqueue(s1, m)
    else Say(env, s1, s.arrived, m.wireId, if code == 0 then Mini(REP_OK) else Mini(REP_NOTIN))
  }

  function HandleIncr(env: Env, s: State, m: Message, k: bytes, i: int64): State
    requires m.Request?
  {
    var code := C.IncrCode(env.hash, s.cache, k, i);
    var s1 := s.(cache := C.Incr(env.hash, s.cache, k, i));
    if code == -2 then Say(env, s1, s.arrived, m.wireId, Mini(REP_NOMATCH))
    else if !CacheOnly(m.flags) then Enqueue(s1, m)
    else if code == -1 then Say(env, s1, s.arrived, m.wireId, Mini(REP_NOTIN))
    else Say(env, s1, s.arrived, m.wireId,
             Long(REP_OK, Be64(IncrValue(C.Get(env.hash, s.cache, k).value, i).number)))
  }

  function MainStep(env: Env, s: State, m: Message): State {
    Handle(env, s, m).(arrived := s.arrived + 1)
  }

  // ---------- runs ----------

  datatype Event = Arrive(m: Message) | DbTurn

  function Step(env: Env, s: State, e: Event): State {
    match e
    case Arrive(m) => MainStep(env, s, m)
    case DbTurn => DbStep(env, s)
  }

  /** Any interleaving of the two threads. */
  function Run(env: Env, s: State, events: seq<Event>): State {
    if events == [] then s
    else Step(env, Run(env, s, events[..|events| - 1]), events[|events| - 1])
  }

  function Start(size: nat, db: Db): State
    requires size > 0
  {
    State(C.Empty(size), [], db, [], 0)
  }

  function Arrivals(events: seq<Event>): seq<Message> {
    if events == [] then []
    else
      var front := Arrivals(events[..|events| - 1]);
      match events[|events| - 1]
      case Arrive(m) => front + [m]
      case DbTurn => front
  }

  /** The backend after the whole queue has been worked off. */
  function Replay(db: Db, queue: seq<Item>): Db
    decreases queue
  {
    if queue == [] then db else Replay(Perform(db, queue[0].op).0, queue[1..])
  }
}
