/**
 * The server process: the global `clients` map as the field of one object, and the
 * functions of the source that read or change it as its methods. Each method is proved
 * to do what the matching function of module Sessions describes.
 */
module ServerMain {
  import opened Wrappers
  import opened Wire
  import opened Verifier
  import opened Sessions

  /**
   * The map during the sweep: the entries still `pending` are untouched, the others are
   * kept exactly when they have not expired.
   */
  ghost function PartlySwept(clients: map<int, ClientInfo>, pending: set<int>, now: int): map<int, ClientInfo> {
    map id | id in clients && (id in pending || !Expired(clients[id], now)) :: clients[id]
  }

  /** The keys an ascending walk has not reached yet when it stands at `key`. */
  ghost function KeysFrom(clients: map<int, ClientInfo>, key: int): set<int> {
    set k | k in clients && k >= key
  }

  /** Before the walk every key is pending and nothing has changed. */
  lemma PartlySweptStart(clients: map<int, ClientInfo>, now: int)
    requires WellFormed(clients)
    ensures PartlySwept(clients, KeysFrom(clients, 0), now) == clients
  {
  }

  /** Past MaxId nothing is pending and the map is fully swept. */
  lemma PartlySweptEnd(clients: map<int, ClientInfo>, now: int)
    requires WellFormed(clients)
    ensures PartlySwept(clients, KeysFrom(clients, MaxId + 1), now) == Swept(clients, now)
  {
  }

  /** Visiting `key` erases it exactly when it is present and has expired. */
  lemma PartlySweptStep(clients: map<int, ClientInfo>, key: int, now: int)
    ensures var current := PartlySwept(clients, KeysFrom(clients, key), now);
      PartlySwept(clients, KeysFrom(clients, key + 1), now)
        == if key in current && Expired(current[key], now) then current - {key} else current
  {
  }

  class Server {
    /** std::map<int, ClientInfo> clients */
    var clients: map<int, ClientInfo>

    /** sizeof(calcMessage) and sizeof(calcProtocol) */
    const sizes: Sizes

    ghost predicate Valid()
      reads this
    {
      sizes.Valid() && WellFormed(clients)
    }

    /** The server as it enters its receive loop: no sessions. */
    constructor (sizes: Sizes)
      requires sizes.Valid()
      ensures Valid()
      ensures this.sizes == sizes && clients == map[]
    {
      this.sizes := sizes;
      clients := map[];
    }

    /**
     * getRandomId: draws ids until one is not a live key. `draws` are the values the
     * distribution produces, in order.
     */
    method GetRandomId(draws: seq<IdDraw>) returns (id: int)
      requires HasFreeDraw(draws, clients.Keys)
      ensures 0 <= id <= MaxId && id !in clients
      ensures id == FreshId(draws, clients.Keys)
    {
      ghost var stop := FirstFreeIndex(draws, clients.Keys);
      var k := 0;
      id := draws[k];
      while id in clients
        invariant 0 <= k <= stop
        invariant id == draws[k]
        invariant forall j :: 0 <= j < k ==> draws[j] in clients
        decreases stop - k
      {
        k := k + 1;
        id := draws[k];
      }
      assert k == stop;
    }

    /**
     * removeInactiveClients: walks the map in ascending key order and erases every entry
     * idle for more than ten whole seconds at time `now`. Every key lies in 0..MaxId, so
     * the walk is a count over that range.
     */
    method RemoveInactiveClients(now: int)
      requires Valid()
      modifies this
      ensures Valid()
      ensures clients == Swept(old(clients), now)
    {
      ghost var before := clients;
      PartlySweptStart(before, now);
      for key := 0 to MaxId + 1
        invariant clients == PartlySwept(before, KeysFrom(before, key), now)
      {
        PartlySweptStep(before, key, now);
        if key in clients && Expired(clients[key], now) {
          clients := clients - {key};
        }
      }
      PartlySweptEnd(before, now);
      SweptPreservesWellFormed(before, now);
    }

    /** generateAssignment: fills the uninitialised record `rnd.junk` field by field. */
    method GenerateAssignment(rnd: Randomness) returns (a: CalcProtocol)
      requires HasFreeDraw(rnd.ids, clients.Keys)
      ensures a == Assignment(clients.Keys, rnd)
    {
      a := rnd.junk;
      a := a.(major := HostToNet16(1));
      a := a.(minor := HostToNet16(0));
      var id := GetRandomId(rnd.ids);
      a := a.(id := HostToNet32(id));
      a := a.(kind := HostToNet16(1));

      var code := ArithCode(rnd.opName);
      if code.Some? {
        a := a.(arith := HostToNet32(code.value));
      }

      if NetToHost32(a.arith) <= 4 {
        a := a.(inValue1 := HostToNet32(FromInt32(rnd.int1)));
        a := a.(inValue2 := HostToNet32(FromInt32(rnd.int2)));
      } else {
        a := a.(flValue1 := rnd.fl1);
        a := a.(flValue2 := rnd.fl2);
      }
    }

    /** The calcMessage-sized branch of the loop body. */
    method HandleHello(msg: CalcMessage, sender: Address, rnd: Randomness, now: int)
      returns (reply: Option<Reply>)
      requires Valid()
      requires HelloAccepted(msg) ==> HasFreeDraw(rnd.ids, clients.Keys)
      modifies this
      ensures Valid()
      ensures Outcome(clients, reply) == AfterHello(old(clients), msg, sender, rnd, now)
    {
      if NetToHost16(msg.major) == 1 && NetToHost16(msg.minor) == 0
         && NetToHost16(msg.protocol) == 17 && NetToHost32(msg.message) == 0
      {
        var assignment := GenerateAssignment(rnd);
        HelloAddsOneSession(clients, msg, sender, rnd, now);
        var key := ToInt32(NetToHost32(assignment.id));
        clients := clients[key := ClientInfo(sender, key, now, assignment)];
        reply := Some(SendAssignment(sender, assignment));
      } else {
        reply := None;
      }
    }

    /** The calcProtocol-sized branch of the loop body. */
    method HandleResult(result: CalcProtocol, sender: Address, floatWithin: FloatWithin)
      returns (reply: Reply)
      requires Valid()
      modifies this
      ensures Valid()
      ensures Outcome(clients, Some(reply)) == AfterResult(old(clients), result, sender, floatWithin)
    {
      var clientId := ToInt32(NetToHost32(result.id));
      if clientId in clients {
        var session := clients[clientId];
        var response := Verdict(VerifyResult(session.assignment, result, floatWithin));
        reply := SendVerdict(session.addr, response);
        clients := clients - {clientId};
      } else {
        reply := SendVerdict(sender, Verdict(false));
      }
    }

    /**
     * One iteration of the receive loop: sweep at `sweepNow`, then dispatch on the
     * length of the datagram that arrives; a new session is stamped with `recvNow`.
     */
    method Step(d: Datagram, sweepNow: int, recvNow: int, rnd: Randomness, floatWithin: FloatWithin)
      returns (reply: Option<Reply>)
      requires Valid()
      requires CanAllocate(sizes, clients, d, sweepNow, rnd)
      modifies this
      ensures Valid()
      ensures Outcome(clients, reply) == Sessions.Step(sizes, old(clients), d, sweepNow, recvNow, rnd, floatWithin)
    {
      RemoveInactiveClients(sweepNow);
      if d.received == sizes.message {
        reply := HandleHello(d.asMessage, d.sender, rnd, recvNow);
      } else if d.received == sizes.protocol {
        var verdict := HandleResult(d.asProtocol, d.sender, floatWithin);
        reply := Some(verdict);
      } else {
        reply := None;
      }
    }
  }
}
