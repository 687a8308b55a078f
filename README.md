# UDP calculator server: session store and protocol engine

This project models the server of a two-party calculator protocol over UDP, written in
C++ (`servermain.cpp`). The server receives a HELLO from a client. It draws a fresh
session id and generates a random arithmetic assignment, stores it in its `clients` map
and sends it back. When the client's result arrives, the server looks the session up by
id, checks the result against the stored assignment, sends a verdict (OK or NOT OK) and
forgets the session. Before each receive it sweeps out sessions that have been idle for
more than ten whole seconds.

Modules:

- `Wire`: the integer widths and the `htons`/`htonl`/`ntohs`/`ntohl` conversions. It also
  covers the `uint32_t` to `int` reinterpretation and the two records, `calcMessage` and
  `calcProtocol`. Each integer field is held as its bytes in memory, so a record carries
  the same network-order bytes as the C++ struct. The host is taken to be little-endian.
- `CppArith`: C++ integer division, which truncates toward zero.
- `Verifier`: `verifyResult`.
- `Sessions`: the session store and one iteration of the receive loop, written as
  functions of the map's contents. Its lemmas cover the sweep, id allocation,
  assignment generation, the HELLO and result branches, and the whole iteration.
- `ServerMain`: `class Server`. It holds `clients` as a mutable `map` field. Its methods
  follow `getRandomId`, `removeInactiveClients`, `generateAssignment` and the loop body,
  and each is proved to produce what the matching `Sessions` function describes.
- `Exchange`: two or three iterations in a row (HELLO, perhaps other traffic, then
  the result). These follow one session from creation to its verdict, or to its
  timeout.

What the server gets from outside becomes a parameter:

- Each call's random values form a `Randomness` value: the id draws in order,
  `randomType()`'s name, two `randomInt()` and two `randomFloat()` values.
  `Randomness` also holds the indeterminate contents of the uninitialised local
  `calcProtocol` in `generateAssignment`; the fields it never writes keep those bytes.
- The two `steady_clock::now()` readings are integers in nanosecond ticks: one at the
  sweep, one when a session is created.
- The received datagram is a `Datagram`: `recvfrom`'s return value, the buffer viewed as
  either record, and the sender's address.
- `sizeof(calcMessage)` and `sizeof(calcProtocol)` are a `Sizes` value with two
  different positive lengths, so `recvfrom`'s error return -1 matches neither.

Where the code and the protocol's prose description disagree, the model follows the code:

- Eviction uses `duration_cast<seconds>(...).count() > 10`. That truncates to whole
  seconds, so a session is removed only once at least 11 s of ticks have passed
  (`Sessions.ExpiredIff`). The description says "more than 10 seconds". A session idle
  for 10.5 s survives the sweep.
- The description says the assignment's result fields are zero. The code never writes
  them, so they keep whatever the uninitialised struct held (`Sessions.AssignmentDecodes`).
- `generateAssignment` picks the operand kind with the unsigned test
  `ntohl(arith) <= 4`, while `verifyResult` uses the signed `int op`. The two differ
  only when `arith` was never written, which needs an operation name outside the eight
  known ones. The model keeps both tests as written.
- The description promises that a session with no result within 10 seconds is gone.
  The code sweeps only at the top of each iteration, before `recvfrom` blocks
  (servermain.cpp:174-180). The iteration after a HELLO therefore sweeps almost at
  once. With no other traffic, a result that arrives a minute later still finds its
  session and is judged on its merits (`Exchange.BackToBackResultJudged`). A session
  is evicted only when another datagram ends an iteration 11 s or more after the HELLO
  (`Exchange.AnswerAfterOtherTraffic`).

## Model

| member | source | states |
|---|---|---|
| Wire.HostToNet16 | servermain.cpp:101-104 | definition of `htons` on a little-endian host; see Wire.HostToNet16RoundTrip |
| Wire.NetToHost16 | servermain.cpp:184-185 | definition of `ntohs`; see Wire.NetToHost16RoundTrip |
| Wire.HostToNet32 | servermain.cpp:103 | definition of `htonl`; see Wire.HostToNetIsBigEndian and Wire.HostToNet32RoundTrip |
| Wire.NetToHost32 | servermain.cpp:128 | definition of `ntohl`; see Wire.NetToHost32RoundTrip |
| Wire.ToInt32 | servermain.cpp:128-132 | definition of the `uint32_t` to `int` conversion; see Wire.Int32RoundTrip |
| Wire.FromInt32 | servermain.cpp:117-118 | definition of the `int` to `uint32_t` conversion; see Wire.Int32RoundTrip and Wire.EncodedInt32RoundTrip |
| CppArith.TruncDiv | servermain.cpp:137 | definition of C++ `/` on `int`; see CppArith.TruncDivCharacterized and CppArith.TruncDivUnique |
| Verifier.VerifyResult | servermain.cpp:127-151 | definition of `verifyResult`; see the Verifier lemmas below |
| Wire.HostToNetIsBigEndian | servermain.cpp:101-104 | the bytes `htonl` stores, read in memory order, spell the value most significant byte first |
| Wire.HostToNet16RoundTrip | servermain.cpp:184-185 | `ntohs(htons(v)) == v` for every 16-bit value |
| Wire.NetToHost16RoundTrip | servermain.cpp:184-185 | `htons(ntohs(w)) == w` for every 16-bit field |
| Wire.HostToNet32RoundTrip | servermain.cpp:116 | `ntohl(htonl(v)) == v` for every 32-bit value |
| Wire.NetToHost32RoundTrip | servermain.cpp:128 | `htonl(ntohl(w)) == w` for every 32-bit field |
| Wire.Int32RoundTrip | servermain.cpp:128-132 | the `int` to `uint32_t` conversion and back is the identity in both directions |
| Wire.EncodedInt32RoundTrip | servermain.cpp:117-118 | an `int` written with `htonl` reads back through `(int) ntohl` as itself |
| CppArith.TruncDivCharacterized | servermain.cpp:137 | `v1 / v2` leaves a remainder smaller than the divisor in magnitude that is zero or has the dividend's sign |
| CppArith.TruncDivUnique | servermain.cpp:137 | that remainder condition pins the quotient down: any quotient meeting it is the truncated one |
| Verifier.IntAnswer | servermain.cpp:133-138 | an integer task has an answer exactly for codes 1..3, and for code 4 with a nonzero divisor |
| Verifier.VerifyIntTask | servermain.cpp:127-138 | for codes up to 4, the verdict is true iff the submitted `inResult` equals the answer computed from the STORED operands |
| Verifier.VerifyAddSubMul | servermain.cpp:134-136 | for add, sub and mul the verdict is true iff the result is `v1 + v2`, `v1 - v2` or `v1 * v2` |
| Verifier.VerifyDivision | servermain.cpp:137 | a zero stored divisor fails every result; otherwise the verdict is true iff the result is the truncated quotient |
| Verifier.VerifyUnknownCode | servermain.cpp:133-150 | a code of 0 or less, or above 8, fails every result, whatever the float comparison would say |
| Verifier.VerifyFloatDivisionByZero | servermain.cpp:147 | float division with a stored divisor of +0.0 or -0.0 fails every result |
| Verifier.VerifyReadsOnlyResultFields | servermain.cpp:127-151 | two results that agree on `inResult` and `flResult` get the same verdict: client-supplied operands and code are ignored |
| Sessions.ElapsedSeconds | servermain.cpp:50 | definition of `duration_cast<seconds>(now - last).count()` on ticks; see Sessions.ExpiredIff |
| Sessions.Expired | servermain.cpp:50 | definition of the eviction test `count() > 10`; see Sessions.ExpiredIff |
| Sessions.Swept | servermain.cpp:47-57 | definition of the store after `removeInactiveClients`; see Sessions.SweptExact and the lemmas after it |
| Sessions.ExpiredIff | servermain.cpp:50 | a session is evicted iff at least 11 whole seconds of ticks have passed since its last activity |
| Sessions.SweptExact | servermain.cpp:47-57 | the sweep keeps an entry iff it is present and not expired, and keeps it unchanged |
| Sessions.SweptLeavesNoExpired | servermain.cpp:49-55 | after the sweep no remaining session is expired |
| Sessions.SweptIdempotent | servermain.cpp:47-57 | sweeping twice at the same time equals sweeping once |
| Sessions.SweptPreservesWellFormed | servermain.cpp:47-57 | the sweep keeps every key equal to its entry's id and its assignment's id |
| Sessions.FirstFreeIndex | servermain.cpp:40-42 | the do-while stops at the first draw that is not a live key: that draw is free and every earlier one is live |
| Sessions.FreshId | servermain.cpp:34-45 | the returned id lies in 0..10000 and is not a live key |
| Sessions.FreeIdExists | servermain.cpp:37-42 | while at most 10000 ids in 0..10000 are live, some id in that range is free, so a draw can end the loop |
| Sessions.ArithCode | servermain.cpp:106-114 | the strcmp chain maps "add", "sub", "mul", "div", "fadd", "fsub", "fmul", "fdiv" to 1..8 in that order and any other name to nothing; a code of 4 or less comes exactly from the four integer names |
| Sessions.Assignment | servermain.cpp:99-125 | definition of `generateAssignment`'s result; see Sessions.AssignmentDecodes |
| Sessions.AssignmentDecodes | servermain.cpp:99-125 | the assignment reads back as version 1.0 and type 1, with the fresh id and the operation's code; the operands match the code's kind, and the result fields are left unwritten |
| Sessions.AssignmentVerifiesAgainstDraws | servermain.cpp:116-118 | a generated integer assignment accepts exactly the answer its operation gives on the drawn operands |
| Sessions.HelloAccepted | servermain.cpp:184-185 | definition of the HELLO test; see Sessions.HelloAcceptedIff |
| Sessions.AfterHello | servermain.cpp:182-192 | definition of the calcMessage-sized branch; see Sessions.HelloAddsOneSession and Sessions.HelloRejected |
| Sessions.HelloAcceptedIff | servermain.cpp:184-185 | a calcMessage passes the HELLO test iff it is a HELLO (version 1.0, protocol 17, message 0) with any `type` |
| Sessions.AcceptedIsHello | servermain.cpp:184-185 | every accepted message is the HELLO for its own `type` field |
| Sessions.HelloIsAccepted | servermain.cpp:184-185 | every HELLO, whatever its `type`, passes the HELLO test |
| Sessions.HelloAddsOneSession | servermain.cpp:186-190 | an accepted HELLO adds exactly one entry under a key that was free, holds the sender, the time and the assignment, leaves the others alone, and sends the assignment to the sender |
| Sessions.HelloRejected | servermain.cpp:182-192 | a calcMessage-sized datagram that fails the HELLO test changes nothing and gets no reply |
| Sessions.Verdict | servermain.cpp:199-221 | definition of the verdict `calcMessage`; see Sessions.VerdictDecodes |
| Sessions.VerdictCode | servermain.cpp:205-209 | definition of the verdict's `message`: 1 for OK, 2 for NOT OK |
| Sessions.ResultKey | servermain.cpp:195 | definition of `clientId = ntohl(result->id)` |
| Sessions.AfterResult | servermain.cpp:193-224 | definition of the calcProtocol-sized branch; see Sessions.ResultForLiveSession and Sessions.ResultForUnknownSession |
| Sessions.VerdictDecodes | servermain.cpp:199-221 | a verdict reads back as type 2, version 1.0, protocol 17, and message 1 for OK or 2 for NOT OK |
| Sessions.ResultForLiveSession | servermain.cpp:195-214 | a result for a live id is judged against the stored assignment, the verdict goes to the stored address, and that one session is removed |
| Sessions.ResultForUnknownSession | servermain.cpp:215-224 | a result for an id that is not live gets NOT OK at the sender's address and leaves the store as it was |
| Sessions.Step | servermain.cpp:173-225 | definition of one loop iteration: sweep, then dispatch on the datagram's length; see the Step lemmas below |
| Sessions.StepCreatesSessionIff | servermain.cpp:173-192 | a datagram that is not result-sized gets a reply and adds a session iff it is calcMessage-sized and passes the HELLO test; otherwise the store is just swept |
| Sessions.StepResultConsumes | servermain.cpp:193-225 | a result-sized datagram always gets one verdict, removes the id it names, and adds nothing |
| Sessions.StepWithoutHelloShrinks | servermain.cpp:173-225 | after any datagram that is not calcMessage-sized, every entry left was in the store before and is unchanged |
| Sessions.StepPreservesWellFormed | servermain.cpp:173-225 | a loop iteration keeps every key in 0..10000 and equal to its entry's ids |
| ServerMain.PartlySweptStep | servermain.cpp:49-55 | visiting one key during the walk erases it exactly when it is present and expired |
| ServerMain.Server.constructor | servermain.cpp:32 | the server starts with an empty, well-formed map |
| ServerMain.Server.GetRandomId | servermain.cpp:34-45 | the loop returns the first draw that is not a live key, which lies in 0..10000 |
| ServerMain.Server.RemoveInactiveClients | servermain.cpp:47-57 | a count over the ids 0..10000, which holds every key because the map is well formed, visits the keys in ascending order and erases each expired entry; it leaves exactly `Swept`, and the map stays well formed |
| ServerMain.Server.GenerateAssignment | servermain.cpp:99-125 | filling the struct field by field yields `Assignment` on the live keys |
| ServerMain.Server.HandleHello | servermain.cpp:182-192 | the new map and the reply are those of `AfterHello` |
| ServerMain.Server.HandleResult | servermain.cpp:193-224 | the new map and the verdict are those of `AfterResult` |
| ServerMain.Server.Step | servermain.cpp:173-225 | sweep then dispatch on the datagram's length gives the map and reply of `Sessions.Step`, and the map stays well formed |
| Exchange.AnswerInTime | servermain.cpp:182-214 | when the result's iteration sweeps less than 11 s after the HELLO, a client that answers its integer task gets OK iff its answer is right; the verdict goes to the HELLO's address and its session is gone |
| Exchange.BackToBackResultJudged | servermain.cpp:174-214 | in the iteration right after the HELLO, which sweeps as soon as the HELLO is answered, the result is judged on its merits however late it arrives |
| Exchange.AnswerTooLate | servermain.cpp:47-57 | when the iteration that receives the result starts its sweep 11 s or more after the HELLO, the session is gone and the result gets NOT OK at its own sender's address |
| Exchange.AnswerAfterOtherTraffic | servermain.cpp:47-57 | HELLO, then any datagram that is not a HELLO ending its wait 11 s or more later, then the result: the result gets NOT OK at its own sender's address and the session is gone |
| Exchange.SecondAnswerRejected | servermain.cpp:193-224 | a second result for an id already judged gets NOT OK and changes nothing but the sweep |

## Left out

- Socket setup, `recvfrom`/`sendto`, command-line parsing and console logging. The
  model's replies are values and no output text is modelled. I/O is outside the model.
- `clientmain.cpp` and the client's retry loop are not part of this model. Neither is
  `calcLib`: `randomType`, `randomInt` and `randomFloat` are values passed in.
- `protocol.h` is not part of this model. The struct layout, padding and the two sizes
  are abstract, and `recvfrom` truncating an oversized datagram to
  `sizeof(calcProtocol)` is not modelled.
- Verifier.VerifyResult: the float tolerance test `std::abs(res - (v1 op v2)) < 1e-6` is
  the parameter `floatWithin`. The model does not interpret IEEE-754 arithmetic; only
  the zero-divisor guard of `fdiv` is modelled exactly.
- Verifier.VerifyResult: `v1 + v2`, `v1 - v2`, `v1 * v2` and `v1 / v2` are exact integer
  operations. Signed overflow, including `INT_MIN / -1`, is undefined behaviour in C++
  and is not modelled.
- Sessions.FreshId: requires a draw that is not a live key. With all 10001 ids live,
  the source's loop never ends, and the model does not describe that spin.
  `Sessions.FreeIdExists` shows a free id exists whenever fewer are live.
- ServerMain.Server.RemoveInactiveClients: the walk is modelled as a count over the
  ids 0..10000, which visits the live keys in the ascending order `std::map` uses. The
  log line written for each eviction is not modelled in any form.
- A big-endian host is not modelled: there, `htonl` would be the identity. Every
  round-trip property above would still hold.
- The clock is a parameter: the model does not read `steady_clock`.

