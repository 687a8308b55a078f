/**
 * A few iterations of the receive loop in a row: a client's HELLO, then its result. These
 * lemmas follow one session through its whole life as the protocol describes it.
 */
module Exchange {
  import opened Wrappers
  import opened Wire
  import opened Verifier
  import opened Sessions

  /** The session an accepted HELLO creates in iteration one, keyed by its fresh id. */
  function SessionKey(clients: map<int, ClientInfo>, sweepNow: int, rnd: Randomness): int
    requires HasFreeDraw(rnd.ids, Swept(clients, sweepNow).Keys)
  {
    FreshId(rnd.ids, Swept(clients, sweepNow).Keys)
  }

  /** The HELLO conditions of iteration one. */
  predicate HelloFits(sizes: Sizes, clients: map<int, ClientInfo>, hello: Datagram, sweepNow: int,
                      rnd: Randomness)
  {
    && sizes.Valid()
    && hello.received == sizes.message && HelloAccepted(hello.asMessage)
    && HasFreeDraw(rnd.ids, Swept(clients, sweepNow).Keys)
  }

  /**
   * A client that answers within the timeout, naming the id it was given, gets its
   * verdict at the address its HELLO came from (not the address of the result), and the
   * verdict is OK exactly when it submitted the answer to the integer task it was given.
   * Either way its session is gone afterwards and the others are only swept.
   */
  lemma AnswerInTime(sizes: Sizes, clients: map<int, ClientInfo>, hello: Datagram, sweep1: int, recv1: int,
                     rnd: Randomness, result: Datagram, sweep2: int, recv2: int, rnd2: Randomness,
                     floatWithin: FloatWithin)
    requires HelloFits(sizes, clients, hello, sweep1, rnd)
    requires ArithCode(rnd.opName).Some? && ArithCode(rnd.opName).value <= 4
    requires result.received == sizes.protocol
    requires result.asProtocol.id == Assignment(Swept(clients, sweep1).Keys, rnd).id
    requires recv1 <= sweep2 < recv1 + (TimeoutSeconds + 1) * TicksPerSecond
    ensures var o1 := Step(sizes, clients, hello, sweep1, recv1, rnd, floatWithin);
      var o2 := Step(sizes, o1.clients, result, sweep2, recv2, rnd2, floatWithin);
      var key := SessionKey(clients, sweep1, rnd);
      var ok := IntAnswer(ArithCode(rnd.opName).value, rnd.int1, rnd.int2) == Some(SubmittedInt(result.asProtocol));
      && o2.reply == Some(SendVerdict(hello.sender, Verdict(ok)))
      && o2.clients == Swept(o1.clients, sweep2) - {key}
      && key !in o2.clients
  {
    var swept1 := Swept(clients, sweep1);
    var key := SessionKey(clients, sweep1, rnd);
    var a := Assignment(swept1.Keys, rnd);
    HelloAddsOneSession(swept1, hello.asMessage, hello.sender, rnd, recv1);
    var o1 := Step(sizes, clients, hello, sweep1, recv1, rnd, floatWithin);
    assert o1.clients[key] == ClientInfo(hello.sender, key, recv1, a);
    ExpiredIff(o1.clients[key], sweep2);
    var swept2 := Swept(o1.clients, sweep2);
    assert key in swept2 && swept2[key] == o1.clients[key];
    assert ResultKey(result.asProtocol) == key;
    AssignmentVerifiesAgainstDraws(swept1.Keys, rnd, result.asProtocol, floatWithin);
  }

  /**
   * The sweep runs before recvfrom blocks, so the iteration after a HELLO sweeps as soon
   * as the HELLO has been answered, at a time close to `recv1`; taken at `recv1` itself,
   * the result is judged on its merits however long after that `recvNow` it arrives.
   * With no other traffic, a result is never turned away as timed out.
   */
  lemma BackToBackResultJudged(sizes: Sizes, clients: map<int, ClientInfo>, hello: Datagram, sweep1: int,
                               recv1: int, rnd: Randomness, result: Datagram, recv2: int, rnd2: Randomness,
                               floatWithin: FloatWithin)
    requires HelloFits(sizes, clients, hello, sweep1, rnd)
    requires ArithCode(rnd.opName).Some? && ArithCode(rnd.opName).value <= 4
    requires result.received == sizes.protocol
    requires result.asProtocol.id == Assignment(Swept(clients, sweep1).Keys, rnd).id
    ensures var o1 := Step(sizes, clients, hello, sweep1, recv1, rnd, floatWithin);
      var o2 := Step(sizes, o1.clients, result, recv1, recv2, rnd2, floatWithin);
      var ok := IntAnswer(ArithCode(rnd.opName).value, rnd.int1, rnd.int2) == Some(SubmittedInt(result.asProtocol));
      o2.reply == Some(SendVerdict(hello.sender, Verdict(ok)))
  {
    AnswerInTime(sizes, clients, hello, sweep1, recv1, rnd, result, recv1, recv2, rnd2, floatWithin);
  }

  /**
   * When the iteration that receives the result starts its sweep 11 s or more after the
   * HELLO was stamped, the session is swept out: NOT OK goes to the address the result
   * came from, whatever it submitted. Back to back with the HELLO this needs the server
   * to stall that long between the two iterations; AnswerAfterOtherTraffic is the usual way.
   */
  lemma AnswerTooLate(sizes: Sizes, clients: map<int, ClientInfo>, hello: Datagram, sweep1: int, recv1: int,
                      rnd: Randomness, result: Datagram, sweep2: int, recv2: int, rnd2: Randomness,
                      floatWithin: FloatWithin)
    requires HelloFits(sizes, clients, hello, sweep1, rnd)
    requires result.received == sizes.protocol
    requires ResultKey(result.asProtocol) == SessionKey(clients, sweep1, rnd)
    requires recv1 <= sweep2
    requires sweep2 - recv1 >= (TimeoutSeconds + 1) * TicksPerSecond
    ensures var o1 := Step(sizes, clients, hello, sweep1, recv1, rnd, floatWithin);
      var o2 := Step(sizes, o1.clients, result, sweep2, recv2, rnd2, floatWithin);
      && o2.reply == Some(SendVerdict(result.sender, Verdict(false)))
      && o2.clients == Swept(o1.clients, sweep2)
      && SessionKey(clients, sweep1, rnd) !in o2.clients
  {
    var swept1 := Swept(clients, sweep1);
    var key := SessionKey(clients, sweep1, rnd);
    HelloAddsOneSession(swept1, hello.asMessage, hello.sender, rnd, recv1);
    var o1 := Step(sizes, clients, hello, sweep1, recv1, rnd, floatWithin);
    ExpiredIff(o1.clients[key], sweep2);
    assert key !in Swept(o1.clients, sweep2);
  }

  /**
   * The timeout as it takes effect: HELLO, then some datagram that is not a HELLO (it
   * may be a result of another client's) ending its wait 11 s or more after the HELLO was
   * stamped, then the result. The third iteration's sweep has removed the session, so the
   * result gets NOT OK at its own sender's address whatever it submitted.
   */
  lemma AnswerAfterOtherTraffic(sizes: Sizes, clients: map<int, ClientInfo>, hello: Datagram, sweep1: int,
                                recv1: int, rnd: Randomness, other: Datagram, sweep2: int, recv2: int,
                                result: Datagram, sweep3: int, recv3: int, rnd2: Randomness,
                                floatWithin: FloatWithin)
    requires HelloFits(sizes, clients, hello, sweep1, rnd)
    requires other.received != sizes.message
    requires result.received == sizes.protocol
    requires ResultKey(result.asProtocol) == SessionKey(clients, sweep1, rnd)
    requires recv1 <= sweep2 <= recv2 <= sweep3
    requires recv2 - recv1 >= (TimeoutSeconds + 1) * TicksPerSecond
    ensures var o1 := Step(sizes, clients, hello, sweep1, recv1, rnd, floatWithin);
      var o2 := Step(sizes, o1.clients, other, sweep2, recv2, rnd2, floatWithin);
      var o3 := Step(sizes, o2.clients, result, sweep3, recv3, rnd2, floatWithin);
      && o3.reply == Some(SendVerdict(result.sender, Verdict(false)))
      && o3.clients == Swept(o2.clients, sweep3)
      && SessionKey(clients, sweep1, rnd) !in o3.clients
  {
    var key := SessionKey(clients, sweep1, rnd);
    HelloAddsOneSession(Swept(clients, sweep1), hello.asMessage, hello.sender, rnd, recv1);
    var o1 := Step(sizes, clients, hello, sweep1, recv1, rnd, floatWithin);
    StepWithoutHelloShrinks(sizes, o1.clients, other, sweep2, recv2, rnd2, floatWithin);
    var o2 := Step(sizes, o1.clients, other, sweep2, recv2, rnd2, floatWithin);
    if key in o2.clients {
      assert o2.clients[key].lastActivity == recv1;
      ExpiredIff(o2.clients[key], sweep3);
    }
    assert key !in Swept(o2.clients, sweep3);
  }

  /**
   * A session answers once: after its result has been judged, a second result naming
   * the same id gets NOT OK at that datagram's sender and changes nothing but the sweep.
   */
  lemma SecondAnswerRejected(sizes: Sizes, clients: map<int, ClientInfo>, result: Datagram,
                             sweep1: int, recv1: int, again: Datagram, sweep2: int, recv2: int,
                             rnd: Randomness, floatWithin: FloatWithin)
    requires sizes.Valid()
    requires result.received == sizes.protocol && again.received == sizes.protocol
    requires ResultKey(again.asProtocol) == ResultKey(result.asProtocol)
    ensures var o1 := Step(sizes, clients, result, sweep1, recv1, rnd, floatWithin);
      var o2 := Step(sizes, o1.clients, again, sweep2, recv2, rnd, floatWithin);
      && o2.reply == Some(SendVerdict(again.sender, Verdict(false)))
      && o2.clients == Swept(o1.clients, sweep2)
  {
  }
}
