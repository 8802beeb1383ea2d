/** From a client's call to its return value, across all the parts. */
module EndToEnd {
  import opened Bytes
  import opened Protocol
  import opened Linear
  import opened Guarantees
  import opened Wire
  import opened Framing
  import opened Packets
  import opened Replies
  import C = CacheModel
  import Cached
  import Decimal

  // ---------- requests arrive ----------

  /** The request fits one frame. */
  predicate Travels(op: Op) {
    4 + HEADER + PayloadSize(op) <= MAX_FRAME
  }

  datatype AnyCall = Call(op: Op, flags: nat)

  type Call = c: AnyCall | Travels(c.op) witness Call(Get([]), 0)

  function Message(c: Call): bytes {
    Encode(ID_CODE, Mask(c.op, c.flags), c.op)
  }

  function Messages(calls: seq<Call>): (msgs: seq<bytes>)
    ensures |msgs| == |calls| && forall i :: 0 <= i < |calls| ==> msgs[i] == Message(calls[i])
  {
    seq(|calls|, i requires 0 <= i < |calls| => Message(calls[i]))
  }

  lemma EncodedIsSendable(op: Op, flags: nat)
    requires Travels(op) && flags < TWO_16
    ensures Sendable(Encode(ID_CODE, flags, op))
  {
    var m := Encode(ID_CODE, flags, op);
    assert m[0] == Be32(PROTO_VER * 0x1000_0000 + ID_CODE)[0] == 0x10;
  }

  /** The server got the call: its operation, and of its flags cache-only as it
      is and sync where it means something. */
  predicate Carries(m: Protocol.Message, c: Call) {
    && m.Request? && m.wireId == Be32(ID_CODE) && m.op == c.op
    && CacheOnly(m.flags) == CacheOnly(c.flags)
    && Sync(m.flags) == (Sync(c.flags) && (c.op.Set? || c.op.Del?))
    && m.flags < 4
  }

  /** What a call whose sizes the server takes decodes to. */
  lemma CallArrives(c: Call, tail: bytes)
    ensures Sendable(Message(c))
    ensures Fits(c.op)
    ensures var d := Decode(Message(c) + tail, |Message(c)|); d.Ok? && Carries(d.msg, c)
  {
    hide Decode, Encode, Sendable, CacheOnly, Sync;
    EncodedIsSendable(c.op, Mask(c.op, c.flags));
    RequestRoundTrip(ID_CODE, Mask(c.op, c.flags), c.op, tail);
  }

  /** Any calls whose requests fit a frame: their stream, however it is cut, is
      delivered as exactly their messages, and each decodes to its call,
      whatever else the receive buffer holds. */
  lemma RequestsArriveIntact(calls: seq<Call>, tail: bytes)
    ensures var msgs := Messages(calls);
      && (forall i :: 0 <= i < |msgs| ==> Sendable(msgs[i]))
      && Deframe(Stream(msgs)) == Outcome(msgs, Idle)
      && forall i :: 0 <= i < |calls| ==>
           var d := Decode(msgs[i] + tail, |msgs[i]|); d.Ok? && Carries(d.msg, calls[i])
  {
    hide Decode, Encode, Sendable, Carries;
    var msgs := Messages(calls);
    forall i | 0 <= i < |calls|
      ensures Sendable(msgs[i])
      ensures var d := Decode(msgs[i] + tail, |msgs[i]|); d.Ok? && Carries(d.msg, calls[i])
    {
      CallArrives(calls[i], tail);
    }
    FramesComeBack(msgs);
  }

  // ---------- synchronous calls ----------

  predicate SyncCall(c: Call) {
    (c.op.Set? || c.op.Del?) && Sync(c.flags) && !CacheOnly(c.flags)
  }

  /** A synchronous set or del is not acknowledged on arrival: it waits, and the
      database thread owes the reply ... */
  lemma SyncCallWaits(env: Env, s: State, c: Call, tail: bytes)
    requires SyncCall(c) && !env.readOnly && !env.passive
    ensures var d := Decode(Message(c) + tail, |Message(c)|);
      && d.Ok? && d.msg.Request?
      && var r := MainStep(env, s, d.msg);
         && r.replies == s.replies && Cached.Waits(s, r, d.msg)
         && Owes(r.queue[|s.queue|])
  {
    hide Decode, Message, MainStep;
    CallArrives(c, tail);
    Cached.DatabaseAnswer(env, s, Decode(Message(c) + tail, |Message(c)|).msg);
  }

  /** ... so that whenever the reply has been sent, in whatever run, the backend
      has the write. */
  lemma SyncCallMeansStored(env: Env, size: nat, db: Db, events: seq<Event>, r: Reply, c: Call, tail: bytes)
    requires size > 0 && Small(db) && FairRun(events) && !env.readOnly
    requires r in Run(env, Start(size, db), events).replies
    requires SyncCall(c) && r.serial < |Arrivals(events)|
    requires Decode(Message(c) + tail, |Message(c)|) == Ok(Arrivals(events)[r.serial])
    ensures var msgs := Arrivals(events);
      exists n :: r.serial < n <= |msgs| && Run(env, Start(size, db), events).db == SeqMap(false, db, msgs[..n])
  {
    hide Decode, Message, Run, SeqMap;
    CallArrives(c, tail);
    SyncReplyMeansStored(env, size, db, events, r);
  }

  // ---------- replies are of the documented kinds ----------

  predicate Proper(r: Reply, msgs: seq<Message>) {
    r.serial < |msgs| && (msgs[r.serial].Request? ==> FromServer(msgs[r.serial].op, r.body))
  }

  predicate Bound(e: Item, msgs: seq<Message>) {
    e.serial < |msgs| && msgs[e.serial].Request? && msgs[e.serial].op == e.op
  }

  ghost predicate AllProper(s: State, msgs: seq<Message>) {
    && s.arrived == |msgs|
    && (forall i :: 0 <= i < |s.replies| ==> Proper(s.replies[i], msgs))
    && (forall i :: 0 <= i < |s.queue| ==> Bound(s.queue[i], msgs))
  }

  lemma BackendAnswersProperly(db: Db, e: Item)
    requires Owes(e)
    ensures FromServer(e.op, Perform(db, e.op).1)
  {
    hide Decimal.IncrValue;
  }

  lemma CacheAnswersProperly(env: Env, s: State, m: Message, r: Reply)
    requires m.Request? && MainStep(env, s, m).replies == s.replies + [r]
    ensures FromServer(m.op, r.body)
  {
    hide C.Get, C.Set, C.Del, C.Cas, C.Incr, C.CasCode, C.IncrCode, CacheOnly, Sync, Decimal.IncrValue, Be64;
    var s' := MainStep(env, s, m);
    assert r == s'.replies[|s'.replies| - 1];
    match m.op {
      case Get(_) =>
      case Set(_, _) =>
      case Del(_) =>
      case Cas(_, _, _) =>
      case Incr(_, _) =>
    }
  }

  lemma ArrivalIsProper(env: Env, s: State, msgs: seq<Message>, m: Message)
    requires AllProper(s, msgs)
    ensures AllProper(MainStep(env, s, m), msgs + [m])
  {
    var s' := MainStep(env, s, m);
    HandleAdds(env, s, m);
    if s'.replies != s.replies && m.Request? {
      CacheAnswersProperly(env, s, m, s'.replies[|s'.replies| - 1]);
    }
    hide Handle, FromServer, Owes, CacheOnly;
    forall i | 0 <= i < |s.replies| ensures Proper(s.replies[i], msgs + [m]) {
      assert Proper(s.replies[i], msgs);
    }
    forall i | 0 <= i < |s.queue| ensures Bound(s.queue[i], msgs + [m]) {
      assert Bound(s.queue[i], msgs);
    }
  }

  lemma DbStepIsProper(env: Env, s: State, msgs: seq<Message>)
    requires AllProper(s, msgs)
    ensures AllProper(DbStep(env, s), msgs)
  {
    if s.queue != [] {
      var e := s.queue[0];
      assert Bound(e, msgs);
      if Owes(e) {
        BackendAnswersProperly(s.db, e);
      }
      hide Perform, FromServer, Owes;
    }
  }

  /** For any traffic whatever, each reply is of a kind that the client's call
      for that message knows. */
  lemma {:induction false} RepliesAreProper(env: Env, size: nat, db: Db, events: seq<Event>)
    requires size > 0
    ensures AllProper(Run(env, Start(size, db), events), Arrivals(events))
  {
    if events != [] {
      hide AllProper;
      var front := events[..|events| - 1];
      RepliesAreProper(env, size, db, front);
      var s := Run(env, Start(size, db), front);
      match events[|events| - 1] {
        case Arrive(m) => ArrivalIsProper(env, s, Arrivals(front), m);
        case DbTurn => DbStepIsProper(env, s, Arrivals(front));
      }
    } else {
      assert AllProper(Start(size, db), []);
    }
  }

  // ---------- calls return what the map says ----------

  /** The whole way: for every interleaving of the server's threads, the reply
      sent for a call carries the identifier sent, is of a kind the call knows,
      and makes the call return what it returns on one sequential map. */
  lemma CallsSeeOneMap(env: Env, size: nat, db: Db, events: seq<Event>, r: Reply, room: nat)
    requires size > 0 && Small(db) && FairRun(events)
    requires r in Run(env, Start(size, db), events).replies
    requires r.serial < |Arrivals(events)| ==>
      Arrivals(events)[r.serial].Request? && !CacheOnly(Arrivals(events)[r.serial].flags)
    ensures var msgs := Arrivals(events);
      && r.serial < |msgs| && r.wireId == msgs[r.serial].wireId
      && var m := msgs[r.serial];
         && FromServer(m.op, r.body)
         && CallResult(m.op, Observed(r.body), room)
            == CallResult(m.op, Answer(env.readOnly, SeqMap(env.readOnly, db, msgs[..r.serial]), m), room)
  {
    var s := Run(env, Start(size, db), events);
    var i :| 0 <= i < |s.replies| && s.replies[i] == r;
    RepliesAreProper(env, size, db, events);
    assert Proper(s.replies[i], Arrivals(events));
    hide Run, Answer, CallResult, FromServer, SeqMap;
    Linearizable(env, size, db, events, r);
  }

  /** The documented effect and return value of a call, on the map before and
      after it: result is what the call returns, seen what it got to see, room
      the size of the buffer given to a get. */
  predicate AsDocumented(m: Db, next: Db, msg: Protocol.Message, seen: Linear.Outcome, result: int, room: nat)
    requires msg.Request?
  {
    var k := msg.op.key;
    match msg.op
    case Get(_) =>
      next == m &&
      if k !in m then result == -1
      else seen == Value(m[k]) && result == if |m[k]| <= room then |m[k]| else -2
    case Set(_, v) =>
      next == m[k := v] && result == 1
    case Del(_) =>
      next == m - {k} && result == (if Sync(msg.flags) && k !in m then 0 else 1)
    case Cas(_, o, n) =>
      if k !in m then next == m && result == 0
      else if m[k] != o then next == m && result == 1
      else next == m[k := n] && result == 2
    case Incr(_, i) =>
      if k !in m then next == m && result == 0
      else if m[k] == [] || m[k][|m[k]| - 1] != 0 then next == m && result == 1
      else
        && k in next && next == m[k := next[k]] && result == 2
        && seen == Value(Be64(Decimal.Strtoll(next[k])))
        && Decimal.Strtoll(next[k]) == WrapI64(Decimal.Strtoll(m[k]) + i)
  }

  /** Answer and effect of the map are the documented ones. */
  lemma MapIsAsDocumented(m: Db, msg: Protocol.Message, room: nat)
    requires msg.Request? && !CacheOnly(msg.flags)
    ensures var seen := Answer(false, m, msg);
      AsDocumented(m, Effect(false, m, msg), msg, seen, CallResult(msg.op, seen, room), room)
  {
    hide Decimal.Strtoll, WrapI64, Be64;
    if msg.op.Incr? && msg.op.key in m {
      Decimal.IncrementedValueReadsBack(m[msg.op.key], msg.op.increment);
      hide Decimal.IncrValue;
    }
  }

  /** Every call on the database returns what the library documents, on the map
      that all calls before it, in order of arrival, have left. */
  lemma CallsReturnAsDocumented(env: Env, size: nat, db: Db, events: seq<Event>, r: Reply, room: nat)
    requires size > 0 && Small(db) && FairRun(events) && !env.readOnly
    requires r in Run(env, Start(size, db), events).replies
    requires r.serial < |Arrivals(events)| ==>
      Arrivals(events)[r.serial].Request? && !CacheOnly(Arrivals(events)[r.serial].flags)
    ensures var msgs := Arrivals(events);
      && r.serial < |msgs|
      && AsDocumented(SeqMap(false, db, msgs[..r.serial]), SeqMap(false, db, msgs[..r.serial + 1]), msgs[r.serial],
           Observed(r.body), CallResult(msgs[r.serial].op, Observed(r.body), room), room)
  {
    Linearizable(env, size, db, events, r);
    hide AsDocumented, Run, Arrivals, CallResult, Answer, Effect;
    var msgs := Arrivals(events);
    MapIsAsDocumented(SeqMap(false, db, msgs[..r.serial]), msgs[r.serial], room);
    assert msgs[..r.serial + 1][..r.serial] == msgs[..r.serial];
  }
}
