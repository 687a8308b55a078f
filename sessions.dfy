/**
 * The server's session store and one iteration of its receive loop, as functions of the
 * store's contents. The class in module ServerMain is proved to follow these functions;
 * the lemmas here state what the protocol promises about them.
 */
module Sessions {
  import opened Wrappers
  import opened Wire
  import opened CppArith
  import opened Verifier

  // ---------------------------------------------------------------- time

  /** steady_clock ticks per second (libstdc++ measures steady_clock in nanoseconds). */
  const TicksPerSecond: nat := 1_000_000_000

  /** A session idle for more than this many whole seconds is swept out. */
  const TimeoutSeconds: nat := 10

  /** `duration_cast<seconds>(now - last).count()`: the tick difference truncated to seconds. */
  function ElapsedSeconds(now: int, last: int): int {
    TruncDiv(now - last, TicksPerSecond)
  }

  // ---------------------------------------------------------------- records

  /** ClientInfo: where the client is, when it was last heard from, what it was asked. */
  datatype ClientInfo = ClientInfo(addr: Address, id: int, lastActivity: int, assignment: CalcProtocol)

  predicate Expired(c: ClientInfo, now: int) {
    ElapsedSeconds(now, c.lastActivity) > TimeoutSeconds
  }

  /** The largest session id getRandomId can draw; the smallest is 0. */
  const MaxId: int := 10000

  /** One draw of `uniform_int_distribution<int>(0, 10000)`. */
  type IdDraw = x: int | 0 <= x <= MaxId

  /**
   * What the external random sources deliver during one HELLO: the id draws in order,
   * randomType's operation name, two randomInt values, two randomFloat values, and
   * `junk`, the indeterminate contents of the local calcProtocol before it is filled.
   */
  datatype Randomness = Randomness(
    ids: seq<IdDraw>,
    opName: string,
    int1: int32,
    int2: int32,
    fl1: Double,
    fl2: Double,
    junk: CalcProtocol)

  /** The two datagram lengths the server recognises: sizeof(calcMessage), sizeof(calcProtocol). */
  datatype Sizes = Sizes(message: int, protocol: int) {
    /** Two different struct sizes; neither can equal recvfrom's error return -1. */
    predicate Valid() {
      0 < message && 0 < protocol && message != protocol
    }
  }

  /**
   * One received datagram: the byte count recvfrom returned (-1 on error), the receive
   * buffer read as either record, and the address it came from.
   */
  datatype Datagram = Datagram(received: int, asMessage: CalcMessage, asProtocol: CalcProtocol, sender: Address)

  /** A sendto issued by the server. */
  datatype Reply =
    | SendAssignment(to: Address, assignment: CalcProtocol)
    | SendVerdict(to: Address, verdict: CalcMessage)

  /** The store after an operation, with what was sent (None: nothing). */
  datatype Outcome = Outcome(clients: map<int, ClientInfo>, reply: Option<Reply>)

  /**
   * What the server keeps true of its map: every key is a drawable id, and the entry
   * under it records that id, both in `id` and in its assignment's network-order id.
   */
  ghost predicate WellFormed(clients: map<int, ClientInfo>) {
    forall id :: id in clients ==>
      && 0 <= id <= MaxId
      && clients[id].id == id
      && ToInt32(NetToHost32(clients[id].assignment.id)) == id
  }

  // ---------------------------------------------------------------- removeInactiveClients

  /** The store after removeInactiveClients at time `now`. */
  function Swept(clients: map<int, ClientInfo>, now: int): map<int, ClientInfo> {
    map id | id in clients && !Expired(clients[id], now) :: clients[id]
  }

  /** An entry is evicted exactly when at least 11 whole seconds of ticks have passed. */
  lemma ExpiredIff(c: ClientInfo, now: int)
    ensures Expired(c, now) <==> now - c.lastActivity >= (TimeoutSeconds + 1) * TicksPerSecond
  {
  }

  /** The sweep removes exactly the expired entries and leaves every other entry as it was. */
  lemma SweptExact(clients: map<int, ClientInfo>, now: int)
    ensures forall id :: id in Swept(clients, now) <==> id in clients && !Expired(clients[id], now)
    ensures forall id :: id in Swept(clients, now) ==> Swept(clients, now)[id] == clients[id]
  {
  }

  /** Afterwards no session is idle for more than the timeout. */
  lemma SweptLeavesNoExpired(clients: map<int, ClientInfo>, now: int)
    ensures forall id :: id in Swept(clients, now) ==> !Expired(Swept(clients, now)[id], now)
  {
  }

  /** Sweeping again at the same time changes nothing. */
  lemma SweptIdempotent(clients: map<int, ClientInfo>, now: int)
    ensures Swept(Swept(clients, now), now) == Swept(clients, now)
  {
  }

  lemma SweptPreservesWellFormed(clients: map<int, ClientInfo>, now: int)
    requires WellFormed(clients)
    ensures WellFormed(Swept(clients, now))
  {
  }

  // ---------------------------------------------------------------- getRandomId

  /** Some draw in the sequence is not a live id, so getRandomId's loop stops at it. */
  predicate HasFreeDraw(draws: seq<IdDraw>, keys: set<int>) {
    exists k :: 0 <= k < |draws| && draws[k] !in keys
  }

  /** The position of the draw getRandomId returns: the first that is not a live id. */
  function FirstFreeIndex(draws: seq<IdDraw>, keys: set<int>): (k: nat)
    requires HasFreeDraw(draws, keys)
    ensures k < |draws| && draws[k] !in keys
    ensures forall j :: 0 <= j < k ==> draws[j] in keys
    decreases |draws|
  {
    if draws[0] !in keys then 0
    else
      assert HasFreeDraw(draws[1..], keys) by {
        var k :| 0 <= k < |draws| && draws[k] !in keys;
        assert draws[1..][k - 1] == draws[k];
      }
      1 + FirstFreeIndex(draws[1..], keys)
  }

  /** The id getRandomId returns. */
  function FreshId(draws: seq<IdDraw>, keys: set<int>): (id: int)
    requires HasFreeDraw(draws, keys)
    ensures 0 <= id <= MaxId && id !in keys
  {
    draws[FirstFreeIndex(draws, keys)]
  }

  /** The ids 0 .. n-1. */
  function IdRange(n: nat): (r: set<int>)
    ensures forall i :: i in r <==> 0 <= i < n
    ensures |r| == n
  {
    if n == 0 then {} else IdRange(n - 1) + {n - 1}
  }

  /** A set that holds all of 0 .. n-1 has at least n members. */
  lemma {:induction false} RangeSubsetSize(n: nat, keys: set<int>)
    requires IdRange(n) <= keys
    ensures |keys| >= n
  {
    if n > 0 {
      RangeSubsetSize(n - 1, keys - {n - 1});
      assert |keys - {n - 1}| == |keys| - 1;
    }
  }

  /**
   * While fewer than 10001 sessions are live, some id in [0, 10000] is free, so a draw
   * can hit it: the id space never runs out before the loop could stop.
   */
  lemma FreeIdExists(keys: set<int>)
    requires forall id :: id in keys ==> 0 <= id <= MaxId
    requires |keys| <= MaxId
    ensures exists id :: 0 <= id <= MaxId && id !in keys
  {
    if forall id :: 0 <= id <= MaxId ==> id in keys {
      RangeSubsetSize(MaxId + 1, keys);
      assert false;
    }
  }

  // ---------------------------------------------------------------- generateAssignment

  /** The operation names randomType can return, in the order of their codes 1..8. */
  const OpNames: seq<string> := ["add", "sub", "mul", "div", "fadd", "fsub", "fmul", "fdiv"]

  /** The strcmp chain that turns randomType's name into an operation code. */
  function ArithCode(name: string): (code: Option<uint32>)
    ensures forall i :: 0 <= i < |OpNames| ==> (name == OpNames[i] <==> code == Some(i + 1))
    ensures code.Some? <==> name in OpNames
    ensures code.Some? && code.value <= 4 <==> name in OpNames[..4]
  {
    if name == "add" then Some(1)
    else if name == "sub" then Some(2)
    else if name == "mul" then Some(3)
    else if name == "div" then Some(4)
    else if name == "fadd" then Some(5)
    else if name == "fsub" then Some(6)
    else if name == "fmul" then Some(7)
    else if name == "fdiv" then Some(8)
    else None
  }

  /**
   * generateAssignment against a store with keys `keys`. Fields it never writes keep
   * what the uninitialised struct held; so does `arith` when the name is unknown.
   */
  function Assignment(keys: set<int>, rnd: Randomness): CalcProtocol
    requires HasFreeDraw(rnd.ids, keys)
  {
    var headed := rnd.junk.(
      major := HostToNet16(1),
      minor := HostToNet16(0),
      id := HostToNet32(FreshId(rnd.ids, keys)),
      kind := HostToNet16(1));
    var coded := match ArithCode(rnd.opName)
      case Some(c) => headed.(arith := HostToNet32(c))
      case None => headed;
    if NetToHost32(coded.arith) <= 4 then
      coded.(inValue1 := HostToNet32(FromInt32(rnd.int1)), inValue2 := HostToNet32(FromInt32(rnd.int2)))
    else
      coded.(flValue1 := rnd.fl1, flValue2 := rnd.fl2)
  }

  /**
   * Read back through ntohs/ntohl, the assignment is version 1.0, type 1, carries the
   * fresh id, the operation's code, and the operands of its kind; the result fields are
   * left as they were.
   */
  lemma AssignmentDecodes(keys: set<int>, rnd: Randomness)
    requires HasFreeDraw(rnd.ids, keys)
    ensures var a := Assignment(keys, rnd);
      && NetToHost16(a.major) == 1 && NetToHost16(a.minor) == 0 && NetToHost16(a.kind) == 1
      && ToInt32(NetToHost32(a.id)) == FreshId(rnd.ids, keys)
      && a.inResult == rnd.junk.inResult && a.flResult == rnd.junk.flResult
      && (ArithCode(rnd.opName).Some? ==>
            var c := ArithCode(rnd.opName).value;
            && NetToHost32(a.arith) == c
            && (c <= 4 ==> HoldsIntTask(a, c, rnd.int1, rnd.int2))
            && (c > 4 ==> a.flValue1 == rnd.fl1 && a.flValue2 == rnd.fl2))
  {
  }

  /**
   * The answer the generated integer assignment accepts is the one its own operation
   * gives on the drawn operands.
   */
  lemma AssignmentVerifiesAgainstDraws(keys: set<int>, rnd: Randomness, result: CalcProtocol,
                                       floatWithin: FloatWithin)
    requires HasFreeDraw(rnd.ids, keys)
    requires ArithCode(rnd.opName).Some? && ArithCode(rnd.opName).value <= 4
    ensures VerifyResult(Assignment(keys, rnd), result, floatWithin)
        <==> IntAnswer(ArithCode(rnd.opName).value, rnd.int1, rnd.int2) == Some(SubmittedInt(result))
  {
    AssignmentDecodes(keys, rnd);
    VerifyIntTask(Assignment(keys, rnd), result, floatWithin, ArithCode(rnd.opName).value, rnd.int1, rnd.int2);
  }

  // ---------------------------------------------------------------- HELLO

  /** The HELLO test on a calcMessage-sized datagram; the `type` field is not looked at. */
  predicate HelloAccepted(msg: CalcMessage) {
    && NetToHost16(msg.major) == 1
    && NetToHost16(msg.minor) == 0
    && NetToHost16(msg.protocol) == 17
    && NetToHost32(msg.message) == 0
  }

  /** A HELLO as a client builds it, with `type` set to `kind` (the client uses 22). */
  function HelloMessage(kind: uint16): CalcMessage {
    CalcMessage(HostToNet16(kind), HostToNet32(0), HostToNet16(17), HostToNet16(1), HostToNet16(0))
  }

  /** The accepted messages are exactly the HELLOs, whatever their `type`. */
  lemma HelloAcceptedIff(msg: CalcMessage)
    ensures HelloAccepted(msg) <==> msg == HelloMessage(NetToHost16(msg.kind))
  {
    if HelloAccepted(msg) {
      AcceptedIsHello(msg);
    }
    if msg == HelloMessage(NetToHost16(msg.kind)) {
      HelloIsAccepted(NetToHost16(msg.kind));
    }
  }

  lemma AcceptedIsHello(msg: CalcMessage)
    requires HelloAccepted(msg)
    ensures msg == HelloMessage(NetToHost16(msg.kind))
  {
    NetToHost16RoundTrip(msg.kind);
    NetToHost16RoundTrip(msg.major);
    NetToHost16RoundTrip(msg.minor);
    NetToHost16RoundTrip(msg.protocol);
    NetToHost32RoundTrip(msg.message);
  }

  lemma HelloIsAccepted(kind: uint16)
    ensures HelloAccepted(HelloMessage(kind))
  {
    var m := HelloMessage(kind);
    assert NetToHost16(m.major) == 1 by { HostToNet16RoundTrip(1); }
    assert NetToHost16(m.minor) == 0 by { HostToNet16RoundTrip(0); }
    assert NetToHost16(m.protocol) == 17 by { HostToNet16RoundTrip(17); }
    assert NetToHost32(m.message) == 0 by { HostToNet32RoundTrip(0); }
  }

  /** The store and reply after a calcMessage-sized datagram from `sender` at time `now`. */
  function AfterHello(clients: map<int, ClientInfo>, msg: CalcMessage, sender: Address,
                      rnd: Randomness, now: int): Outcome
    requires HelloAccepted(msg) ==> HasFreeDraw(rnd.ids, clients.Keys)
  {
    if HelloAccepted(msg) then
      var a := Assignment(clients.Keys, rnd);
      var key := ToInt32(NetToHost32(a.id));
      Outcome(clients[key := ClientInfo(sender, key, now, a)], Some(SendAssignment(sender, a)))
    else
      Outcome(clients, None)
  }

  /**
   * An accepted HELLO adds exactly one entry, under the id written into the
   * assignment, which was not live before; every other entry is unchanged and the
   * assignment goes to the sender.
   */
  lemma HelloAddsOneSession(clients: map<int, ClientInfo>, msg: CalcMessage, sender: Address,
                            rnd: Randomness, now: int)
    requires HelloAccepted(msg) && HasFreeDraw(rnd.ids, clients.Keys)
    ensures var o := AfterHello(clients, msg, sender, rnd, now);
      var a := Assignment(clients.Keys, rnd);
      var key := FreshId(rnd.ids, clients.Keys);
      && key !in clients && 0 <= key <= MaxId
      && ToInt32(NetToHost32(a.id)) == key
      && o.clients.Keys == clients.Keys + {key}
      && |o.clients| == |clients| + 1
      && o.clients[key] == ClientInfo(sender, key, now, a)
      && (forall id :: id in clients ==> o.clients[id] == clients[id])
      && o.reply == Some(SendAssignment(sender, a))
  {
    AssignmentDecodes(clients.Keys, rnd);
  }

  /** A calcMessage-sized datagram that fails the HELLO test changes nothing and gets no reply. */
  lemma HelloRejected(clients: map<int, ClientInfo>, msg: CalcMessage, sender: Address,
                      rnd: Randomness, now: int)
    requires !HelloAccepted(msg)
    ensures AfterHello(clients, msg, sender, rnd, now) == Outcome(clients, None)
  {
  }

  // ---------------------------------------------------------------- RESULT

  /** The verdict calcMessage: type 2, version 1.0, protocol 17, message 1 (OK) or 2 (NOT OK). */
  function Verdict(ok: bool): CalcMessage {
    CalcMessage(HostToNet16(2), HostToNet32(VerdictCode(ok)), HostToNet16(17), HostToNet16(1), HostToNet16(0))
  }

  /** The `message` of a verdict: 1 for OK, 2 for NOT OK. */
  function VerdictCode(ok: bool): uint32 {
    if ok then 1 else 2
  }

  lemma VerdictDecodes(ok: bool)
    ensures var v := Verdict(ok);
      && NetToHost16(v.kind) == 2 && NetToHost16(v.protocol) == 17
      && NetToHost16(v.major) == 1 && NetToHost16(v.minor) == 0
      && NetToHost32(v.message) == (if ok then 1 else 2)
  {
    var v := Verdict(ok);
    assert NetToHost16(v.kind) == 2 by { HostToNet16RoundTrip(2); }
    assert NetToHost16(v.protocol) == 17 by { HostToNet16RoundTrip(17); }
    assert NetToHost16(v.major) == 1 by { HostToNet16RoundTrip(1); }
    assert NetToHost16(v.minor) == 0 by { HostToNet16RoundTrip(0); }
    assert NetToHost32(v.message) == VerdictCode(ok) by { HostToNet32RoundTrip(VerdictCode(ok)); }
  }

  /** The session id a result datagram names: `int clientId = ntohl(result->id)`. */
  function ResultKey(result: CalcProtocol): int32 {
    ToInt32(NetToHost32(result.id))
  }

  /** The store and reply after a calcProtocol-sized datagram from `sender`. */
  function AfterResult(clients: map<int, ClientInfo>, result: CalcProtocol, sender: Address,
                       floatWithin: FloatWithin): Outcome
  {
    var key := ResultKey(result);
    if key in clients then
      var ok := VerifyResult(clients[key].assignment, result, floatWithin);
      Outcome(clients - {key}, Some(SendVerdict(clients[key].addr, Verdict(ok))))
    else
      Outcome(clients, Some(SendVerdict(sender, Verdict(false))))
  }

  /**
   * A result for a live session is verified against the STORED assignment; the verdict
   * (see VerdictDecodes) goes to the address stored with the session, and the session is
   * removed whichever verdict it got. Every other entry is unchanged.
   */
  lemma ResultForLiveSession(clients: map<int, ClientInfo>, result: CalcProtocol, sender: Address,
                             floatWithin: FloatWithin)
    requires ResultKey(result) in clients
    ensures var key := ResultKey(result);
      var o := AfterResult(clients, result, sender, floatWithin);
      var ok := VerifyResult(clients[key].assignment, result, floatWithin);
      && o.reply == Some(SendVerdict(clients[key].addr, Verdict(ok)))
      && key !in o.clients
      && o.clients.Keys == clients.Keys - {key}
      && (forall id :: id in o.clients ==> o.clients[id] == clients[id])
  {
  }

  /** A result naming no live session gets NOT OK at the sender's address; the store is untouched. */
  lemma ResultForUnknownSession(clients: map<int, ClientInfo>, result: CalcProtocol, sender: Address,
                                floatWithin: FloatWithin)
    requires ResultKey(result) !in clients
    ensures AfterResult(clients, result, sender, floatWithin) == Outcome(clients, Some(SendVerdict(sender, Verdict(false))))
  {
  }

  // ---------------------------------------------------------------- one loop iteration

  /** The randomness suffices for the iteration: an accepted HELLO finds a free id. */
  predicate CanAllocate(sizes: Sizes, clients: map<int, ClientInfo>, d: Datagram, sweepNow: int, rnd: Randomness) {
    d.received == sizes.message && HelloAccepted(d.asMessage) ==>
      HasFreeDraw(rnd.ids, Swept(clients, sweepNow).Keys)
  }

  /**
   * One iteration of the receive loop: sweep at `sweepNow`, then handle the datagram that
   * arrives, stamping a new session with `recvNow`. Sizes are compared in the order the source compares them.
   */
  function Step(sizes: Sizes, clients: map<int, ClientInfo>, d: Datagram, sweepNow: int, recvNow: int,
                rnd: Randomness, floatWithin: FloatWithin): Outcome
    requires CanAllocate(sizes, clients, d, sweepNow, rnd)
  {
    var swept := Swept(clients, sweepNow);
    if d.received == sizes.message then AfterHello(swept, d.asMessage, d.sender, rnd, recvNow)
    else if d.received == sizes.protocol then AfterResult(swept, d.asProtocol, d.sender, floatWithin)
    else Outcome(swept, None)
  }

  /**
   * A datagram creates a session and gets a reply iff it is calcMessage-sized and passes
   * the HELLO test; otherwise a calcMessage-sized or odd-sized datagram leaves the swept
   * store as it is and gets no reply.
   */
  lemma StepCreatesSessionIff(sizes: Sizes, clients: map<int, ClientInfo>, d: Datagram, sweepNow: int,
                              recvNow: int, rnd: Randomness, floatWithin: FloatWithin)
    requires sizes.Valid()
    requires CanAllocate(sizes, clients, d, sweepNow, rnd)
    requires d.received != sizes.protocol
    ensures var o := Step(sizes, clients, d, sweepNow, recvNow, rnd, floatWithin);
      var swept := Swept(clients, sweepNow);
      && (o.reply.Some? <==> d.received == sizes.message && HelloAccepted(d.asMessage))
      && (o.reply.Some? ==> |o.clients| == |swept| + 1 && swept.Keys < o.clients.Keys
                            && o.reply.value.SendAssignment? && o.reply.value.to == d.sender)
      && (o.reply.None? ==> o.clients == swept)
  {
    if d.received == sizes.message && HelloAccepted(d.asMessage) {
      HelloAddsOneSession(Swept(clients, sweepNow), d.asMessage, d.sender, rnd, recvNow);
    }
  }

  /**
   * A result-sized datagram always gets exactly one verdict, consumes the session it
   * names if that session survived the sweep, and never adds a session.
   */
  lemma StepResultConsumes(sizes: Sizes, clients: map<int, ClientInfo>, d: Datagram, sweepNow: int,
                           recvNow: int, rnd: Randomness, floatWithin: FloatWithin)
    requires sizes.Valid()
    requires d.received == sizes.protocol
    ensures var o := Step(sizes, clients, d, sweepNow, recvNow, rnd, floatWithin);
      var swept := Swept(clients, sweepNow);
      && o.reply.Some? && o.reply.value.SendVerdict?
      && o.clients == swept - {ResultKey(d.asProtocol)}
      && (ResultKey(d.asProtocol) !in swept ==>
            o.reply.value.to == d.sender && o.reply.value.verdict == Verdict(false))
  {
  }

  /**
   * Only a HELLO adds sessions and entries are never rewritten: after any other datagram
   * every entry left is one the store held before, unchanged.
   */
  lemma StepWithoutHelloShrinks(sizes: Sizes, clients: map<int, ClientInfo>, d: Datagram, sweepNow: int,
                                recvNow: int, rnd: Randomness, floatWithin: FloatWithin)
    requires sizes.Valid()
    requires d.received != sizes.message
    ensures var o := Step(sizes, clients, d, sweepNow, recvNow, rnd, floatWithin);
      forall id :: id in o.clients ==> id in clients && o.clients[id] == clients[id]
  {
  }

  /** The loop keeps the map well formed. */
  lemma StepPreservesWellFormed(sizes: Sizes, clients: map<int, ClientInfo>, d: Datagram, sweepNow: int,
                                recvNow: int, rnd: Randomness, floatWithin: FloatWithin)
    requires WellFormed(clients)
    requires CanAllocate(sizes, clients, d, sweepNow, rnd)
    ensures WellFormed(Step(sizes, clients, d, sweepNow, recvNow, rnd, floatWithin).clients)
  {
    SweptPreservesWellFormed(clients, sweepNow);
    if d.received == sizes.message && HelloAccepted(d.asMessage) {
      HelloAddsOneSession(Swept(clients, sweepNow), d.asMessage, d.sender, rnd, recvNow);
    }
  }
}
