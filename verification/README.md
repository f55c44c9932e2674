# devagent: verified model

A Dafny model of the parts of devagent that carry state, arithmetic or string reasoning, with
proofs about whole runs. Methods and classes follow the Go and C code step by step and are proved
against functions on values; the theorems are lemmas about those functions. Every induction is
written out: automatic induction is switched off on all lemmas.

| file | what it models |
|---|---|
| `Lists.dfy` | lists without repetitions, iteration orders of a map |
| `Octets.dfy` | bytes, conversion with wrap-around, error patterns on byte strings |
| `Gf2.dfy`, `Crc8.dfy` | polynomials over GF(2) as sets of exponents; the CRC-8 loop as a polynomial remainder; which errors it lets through |
| `UrpcFrames.dfy` | the uRPC encoders and decoder, the firmware's parser, damaged frames |
| `UrpcAgent.dfy` | the firmware: frame handling, acknowledgement cache, pins, traces of a FIFO line |
| `UrpcAnswers.dfy` | what the firmware answers, byte by byte, and what its relays are set to, over every trace |
| `SerialPort.dfy` | the port as a byte stream with arbitrary read chunks, what a retried call comes to |
| `UrpcBridge.dfy` | the daemon's retry loop and resynchronising reader |
| `UrpcLink.dfy` | daemon, faulty line and firmware together: one session |
| `UrpcSplits.dfy` | requests that reach the firmware in pieces |
| `UrpcRuns.dfy`, `UrpcTruth.dfy` | whole runs of sessions: what is executed, and when what the callers are told is true |
| `Dcp.dfy`, `DcpBridge.dfy` | the DCP codec and tag, and the call loop on a stream of frames |
| `PayloadTemplate.dfy` | payload template expansion in the map's unspecified order |
| `RateLimiter.dfy`, `DedupWindow.dfy` | the two timed admission controllers against history-only specifications |
| `RouteTable.dfy`, `SingleHoming.dfy` | the route table in place, referential integrity, when its two maps are inverses |
| `GatewayHealth.dfy`, `Router.dfy` | the gateway health check as a state machine with discovery interleaved, and the tick loop as a run of it |

## Main results

- **CRC-8.** The loop computes the remainder of data(x)·x^8 modulo x^8+x^2+x+1 and nothing else does.
  An error in protected bytes goes undetected exactly when it is a multiple of the generator. So bursts of up to
  eight bits and odd numbers of bits are always caught; two bits go undetected exactly at distances divisible
  by 127; hence all two-bit errors are caught if and only if at most 15 bytes are protected. For requests, where
  that means payloads of at most 11 bytes, all this holds with the length byte intact, since that byte says which
  bytes are protected. When it is damaged the frame gets through exactly if the header is intact and the window it
  now delimits is there and a multiple of the generator, and one flipped bit can turn a request into another one.
- **uRPC, execution.** A FIFO line delivers the frames in the order of their calls, with any losses, repetitions and
  delays, late frames of earlier calls included; chunks that are no request's frame are ones the firmware rejects.
  Over every run on such a line the commands are executed in the order of their calls, each at most once, and
  nothing else is: exactly once if and only if a frame gets through whose sequence byte is not the last one seen.
  With consecutive counters that is whenever a frame gets through, unless the last call that did lies a multiple of
  256 back; so fewer than 255 lost calls in a row are safe, and after exactly 255 the next call does not run, yet is
  confirmed. A session sets its own relay once if it is dispatched, and only relays 1 to 3; after every run a relay has
  the level that the last executed valid order for it asks for.
- **uRPC, retries.** Over every trace from power-up an intact arrival is answered byte for byte like the arrival at
  which its command was executed, which is the last execution there was: with the status that the command's own bytes
  call for and the queue depth of that moment, however often it is repeated. A confirmed call on a prompt line is told
  just that, even if the first attempt to be answered is a later one than the attempt that was executed.
- **uRPC, pieces.** Cutting a request's frame up keeps to that hypothesis if and only if none of its proper suffixes
  begins with an intact frame, which is so when no byte 0xAA after the first has four more behind it. Cut in front
  of a frame inside it, the firmware executes that other command, which nobody sent, and the call is told
  ERROR. Damage that the CRC does not catch is outside the hypothesis as well.
- **uRPC, answers.** A status other than ERROR means that this very command ran, over whole runs, if the line is
  prompt (each attempt reaches the firmware as one chunk at most, and its reply comes back during that attempt or
  never) and starts out harmless. Which leftovers are harmless is exact: fewer than five bytes, none of them a
  header byte. From any other one some run of lost and undisturbed exchanges ends in a confirmation that names
  another call: whole acknowledgements in the line are taken for the answer because `SendURPC` does not compare
  sequence bytes, and a lone header byte makes the next reply be read one byte early. After one whole
  acknowledgement left over every later call is told the answer to the call before it. One chunk per attempt is
  exact too: an undisturbed exchange leaves the line empty if and only if the firmware got at most one chunk, and
  `uart_read_bytes` may hand over two, since it waits 100 ms at most.
- **Resynchronisation.** After J bytes of noise, there before or arriving in answer, the daemon returns exactly the
  acknowledgement behind them after J/5 + 1 writes, or times out five bytes further per attempt. Unless J is a
  multiple of five this takes the daemon's second, single read to bring all the bytes that are missing, here as
  behind one to four leftover bytes.
- **DCP.** However the stream is cut into frames, bad frames, silences and torn frames, and however it arrives, the
  call answers with the first acceptable frame and leaves the stream right behind it, or times out. Acceptable are
  exactly the frames of version 1 whose body is empty or readable, of every kind, device errors included; keyed, exactly
  these with their tag appended. Replies read back if and only if their body has at most 255 bytes, and such a reply,
  signed if need be, is what the call returns. `SendDCP` does not compare sequence bytes either: the stream is a
  queue, and over runs of prompt replies an answer belongs to its call if and only if the number of frames left over at
  the start is a multiple of 256.
- **Templates.** Expansion is independent of the map's order for all brace-free parameters if and only
  if no stray `{` comes before a stray `}`; it is then simultaneous substitution. For arbitrary values it is enough
  that this holds of the result, so braces of one kind only never matter. With both kinds in the values
  two orders of a one-hole template agree if and only if the first value does not spell the second placeholder
  or the second value is that placeholder. In a hole a flag is `1` or `0`, a string itself, and a whole number a
  decimal that reads back as that number.
- **Rate limiter and duplicate filter.** Every answer is a function of the history of calls; sweeps and
  cleanups do not show, except that they bound what is stored; sliding-window and rate bounds hold over every history.
  A steady client is never refused if and only if its calls are at least a window apart.
- **Routes.** Routes never dangle. The maps stay inverses if and only if an operation adds no device
  that is at home with another gateway; otherwise a device can be stranded for good.
- **Gateway health.** A gateway's status is a function of its heartbeat's age at the last tick. Every
  removal is preceded by maintenance if and only if ticks are at most
  `HeartbeatTimeout - MaintenanceTimeout` seconds apart; an answering gateway is never found stale if and
  only if ticks are no further apart than both timeouts. A gateway that never answers and is not discovered again
  is gone after the first tick later than its last heartbeat plus the offline timeout. Every life's notices are a chain
  that starts online.

Where the documentation and the code differ the model follows the code: `docs/security.md:35` speaks of
30 requests per second, but the limiter counts bursts, and a client that calls steadily with gaps below
the window is refused after 30 calls however slow it is (RateLimiter.SteadyClientRefused).

With the default configuration (`internal/config/config.go:54-56`) the tick interval and the difference
of the timeouts are both 30 seconds, so any delay of a tick allows a removal without maintenance.

## Model

| member | source | states |
|---|---|---|
| Crc8.ComputeCrc | internal/protocol/urpc.go:31-44 | the double loop computes the CRC function that the theorems below characterise (the firmware's loop is the same) |
| Crc8.CrcIsRemainder | internal/protocol/urpc.go:31-44 | a byte is congruent to data(x)·x^8 modulo x^8+x^2+x+1 if and only if it is the CRC |
| Crc8.CrcLinear | internal/protocol/urpc.go:31-44 | the CRC of an exclusive or is the exclusive or of the CRCs |
| Crc8.CrcKeepsParity | internal/protocol/urpc.go:31-44 | data and CRC have the same bit parity |
| Crc8.ChecksIffResidueZero | internal/protocol/urpc.go:31-44 | the loop leaves 0 exactly on data that ends in its own CRC |
| Crc8.UndetectedIffMultiple | internal/protocol/urpc.go:67-77 | an error on a checked string goes undetected if and only if its polynomial is a multiple of the generator |
| Crc8.BurstDetected | internal/protocol/urpc.go:67-77 | every error within eight consecutive bits is detected, in strings of any length |
| Crc8.OddWeightDetected | internal/protocol/urpc.go:67-77 | every error with an odd number of bits is detected, in strings of any length |
| Crc8.PairUndetectedIff | internal/protocol/urpc.go:67-77 | two flipped bits go undetected if and only if their distance is a multiple of 127 |
| Crc8.SmallWeightDetected | internal/protocol/urpc.go:67-77 | one to three flipped bits in at most 15 bytes are detected (Hamming distance 4) |
| Crc8.DetectsAllPairsIff | internal/protocol/urpc.go:67-77 | all two-bit errors in n bytes are detected if and only if n is at most 15 |
| UrpcFrames.EncodeRequest | internal/protocol/urpc.go:46-59 | payloads over 64 bytes are refused, all others give the request frame that the parser accepts |
| UrpcFrames.EncodeAck | internal/protocol/urpc.go:61-65 | builds the acknowledgement frame that the decoder accepts |
| UrpcFrames.DecodeAckIff | internal/protocol/urpc.go:67-83 | a five-byte string decodes to an acknowledgement if and only if it is its encoding |
| UrpcFrames.ParseIff | internal/lite/main/urpc_agent.c:58-80 | the firmware reads a request off a chunk if and only if the chunk starts with that request's frame |
| UrpcFrames.FramesPrefixFree | internal/protocol/urpc.go:46-59 | no request frame is a prefix of another request's frame |
| UrpcFrames.DamagedRequestIff | internal/lite/main/urpc_agent.c:59-80 | with the length byte intact, a damaged request gets through exactly when the header is intact and the rest of the error is a multiple of the generator |
| UrpcFrames.DamagedRequestRejected | internal/lite/main/urpc_agent.c:59-80 | with the length byte intact, bursts, odd errors, and up to three bits when the payload has at most 11 bytes, are always rejected by the firmware |
| UrpcFrames.DamagedLengthIff | internal/lite/main/urpc_agent.c:59-80 | whatever happens to the length byte, a damaged request gets through exactly when its header is intact and the window that byte now delimits is all there and a multiple of the generator |
| UrpcFrames.OneLengthBitAccepted | internal/lite/main/urpc_agent.c:67-80 | for every sequence byte and command a request of which one flipped bit of the length byte makes another request that the firmware accepts |
| UrpcFrames.LongRequestPairAccepted | internal/lite/main/urpc_agent.c:75-80 | for every request with 12 payload bytes or more there is a two-bit error that gets through |
| UrpcFrames.DamagedAckRejected | internal/protocol/urpc.go:67-77 | one to three flipped bits after an acknowledgement's header never decode |
| UrpcAgent.Agent.SendAck | internal/lite/main/urpc_agent.c:42-56 | writes the frame, and caches it and its sequence byte only when told to |
| UrpcAgent.Agent.Dispatch | internal/lite/main/urpc_agent.c:90-120 | the command switch: which pin level is set and which status is acknowledged and cached |
| UrpcAgent.Agent.ProcessFrame | internal/lite/main/urpc_agent.c:58-121 | on any chunk the whole new state, the reply, the pins and the dispatched command are those of the reaction function; every read is in bounds |
| UrpcAgent.Agent.ReceiveOnce | internal/lite/main/urpc_agent.c:123-130 | one turn of the receive loop on at most 127 buffered bytes: state, reply, pins and dispatched command are those of the reaction function, and nothing happens without bytes |
| UrpcAgent.ReplyTruthful | internal/lite/main/urpc_agent.c:42-121 | every chunk gets one five-byte acknowledgement, with a status other than ERROR exactly for intact requests, then naming them; the cache never holds an error |
| UrpcAgent.CacheTracksLastSeen | internal/lite/main/urpc_agent.c:22-25 | over every trace the cache names the last intact frame |
| UrpcAgent.DispatchExactly | internal/lite/main/urpc_agent.c:82-86 | over every FIFO trace with losses, detected damage, repetitions and delays, a session is dispatched once if a frame of it arrives intact and is not the one seen last, else never |
| UrpcAgent.AtMostOnce | internal/lite/main/urpc_agent.c:82-86 | no session's command is dispatched twice, and nothing else is dispatched for it |
| UrpcAgent.ExecutedInOrder | internal/lite/main/urpc_agent.c:82-120 | over every FIFO trace all that is executed is the sessions' commands in order, each at most once |
| UrpcAgent.NumberedDispatch | internal/lite/main/urpc_agent.c:82-86 | with sequence bytes counting up from power-up a session is dispatched exactly once if a frame of it arrives intact, unless the last session that did is a multiple of 256 back |
| UrpcAgent.IntactIsDispatched | internal/lite/main/urpc_agent.c:82-121 | with fewer than 255 sessions in a row lost, arriving intact and being dispatched exactly once are the same, on any FIFO line |
| UrpcAgent.PinsFollowDispatches | internal/lite/main/urpc_agent.c:90-110 | over every trace the pin levels set are those the dispatched commands name, in their order |
| UrpcAgent.RelaySetOnce | internal/lite/main/urpc_agent.c:90-110 | a session sets the pin its own command names once if it is dispatched, else none, and only pins 1 to 3 to 0 or 1 |
| UrpcAnswers.RejectedAnswer | internal/lite/main/urpc_agent.c:59-80 | a chunk that is no intact request is answered 0xBB, the byte in the sequence position if there is one behind a header, 0xFF, 0 and their CRC; nothing is executed or cached |
| UrpcAnswers.ExecutedAnswer | internal/lite/main/urpc_agent.c:88-120 | on raw bytes: a command that is executed is answered 0x00 if it is 0xB1, or 0xA1 without two payload bytes or with a pin from 1 to 3 and a level of at most 1, and 0x02 otherwise; only such a relay order sets a pin, its first payload byte, to its second |
| UrpcAnswers.AnsweredAsExecuted | internal/lite/main/urpc_agent.c:82-86 | over every trace from power-up an intact arrival is answered byte for byte like the arrival at which its command was executed, and nothing is executed in between |
| UrpcAnswers.AnswerBytes | internal/lite/main/urpc_agent.c:42-121 | over every such trace the bytes of that answer: sequence byte, status from the raw command, queue depth at the execution, CRC |
| UrpcAnswers.RelayFollowsOrders | internal/lite/main/urpc_agent.c:90-110 | over every trace the level of a relay is the second payload byte of the last executed order 0xA1 that names it validly, and untouched without one |
| SerialPort.Port.ReadFull | internal/daemon/dcp_bridge.go:95-108 | however the port chunks its reads, exactly the first n bytes, or failure with the stream drained |
| UrpcBridge.SerialBridge.SetRetry | internal/daemon/urpc_bridge.go:25-30 | a count that is not positive falls back to 3 |
| UrpcBridge.SerialBridge.ReadUrpcAck | internal/daemon/urpc_bridge.go:67-108 | the outcome and the bytes consumed are those of one read attempt on the stream, for every chunking of the first loop; when the second read is short, which takes a header behind other bytes, at least five bytes are gone and fewer than the whole frame |
| UrpcBridge.SerialBridge.SendUrpc | internal/daemon/urpc_bridge.go:32-65 | result, frames written and stream left are those of the retry function; an oversized request writes nothing; undetermined only if a header was found behind other bytes |
| UrpcBridge.Resynchronises | internal/daemon/urpc_bridge.go:47-108 | J bytes of noise, then an acknowledgement, there before or arriving in answer to the call's own writes: exactly that one is returned after J/5 + 1 writes and J + 5 bytes; the second read, which then has to bring the whole remainder, is needed if and only if J is not a multiple of five |
| UrpcBridge.NoiseTimesOut | internal/daemon/urpc_bridge.go:47-64 | with too few attempts for the noise: timeout after all writes, five bytes consumed per attempt, without a second read |
| UrpcBridge.AckWasReceived | internal/daemon/urpc_bridge.go:47-108 | on any stream a returned acknowledgement lies in it, right before what is left unread |
| UrpcLink.SessionIsSend | internal/daemon/urpc_bridge.go:47-64 | a session of the composed system, with cancellations and failing writes, is the bridge's own loop run against the firmware over the line |
| UrpcLink.HandleIsRun | internal/lite/main/urpc_agent.c:123-130 | handling an attempt's chunks one after the other is running the agent over them as a trace, so both levels speak of the same firmware |
| UrpcLink.FrameDelivers | internal/protocol/urpc.go:46-59 | the daemon's own frame in one chunk, with anything behind it, is a delivery of its request |
| UrpcLink.SessionDispatch | internal/lite/main/urpc_agent.c:58-121 | if every chunk the firmware accepts is the call's own frame, whatever the daemon reads, one call dispatches its command once if a request gets through in an attempt that is made and is no repetition, else not |
| UrpcLink.SessionResult | internal/daemon/urpc_bridge.go:47-64 | on a prompt line with a harmless rest the daemon is told the answer of the first answered attempt, a confirmation naming this command if and only if that attempt delivered it; or what ended the call before; or a timeout; and the line is left empty |
| UrpcLink.NeedsTailIff | internal/daemon/urpc_bridge.go:90-101 | there the second read is needed exactly when the first attempt has to skip a rest before a reply |
| UrpcLink.TruthfulLineIff | internal/daemon/urpc_bridge.go:56-61 | every call on a prompt line leaves it empty and confirms truthfully if and only if the line held fewer than five bytes and no header byte |
| UrpcLink.LateReplyWins | internal/daemon/urpc_bridge.go:56-61 | a whole acknowledgement left over in the line is returned at the first attempt, and the reply to that attempt is left over in turn |
| UrpcSplits.SplitRequest | internal/lite/main/urpc_agent.c:123-130 | a frame handed over in two chunks, cut anywhere, is answered twice: the call is told ERROR, the second answer stays in the line, and exactly the command of an intact frame at the cut is executed, if there is one and it is no repetition |
| UrpcSplits.SplitsSafeIff | internal/lite/main/urpc_agent.c:58-130 | however it is cut up, a request has nothing but itself executed if and only if no proper suffix of its frame begins with an intact frame |
| UrpcSplits.NoHeaderNoFrame | internal/lite/main/urpc_agent.c:59-63 | that is so for every frame in which no header byte but the first has four more bytes behind it |
| UrpcSplits.EmbeddedFrameExecuted | internal/lite/main/urpc_agent.c:58-130 | a request whose payload is another command's frame has that command executed when cut after four bytes |
| UrpcSplits.EmptiedIffOneChunk | internal/lite/main/urpc_agent.c:123-130 | an undisturbed exchange leaves an empty line empty if and only if the firmware got at most one chunk |
| UrpcRuns.CounterWrapHarmless | internal/daemon/server.go:257-261 | the 32-bit counter's wrap-around does not show in the sequence byte |
| UrpcRuns.RunInOrder | internal/lite/main/urpc_agent.c:82-121 | over every run on a FIFO line, late frames of earlier calls included, the commands are executed in the order of their calls, each at most once, and nothing else |
| UrpcRuns.RunDispatchesExactly | internal/lite/main/urpc_agent.c:82-121 | on such a run from power-up a call is executed once if a frame of it arrives intact, in whichever call, and its counter differs modulo 256 from the one seen last before, else not |
| UrpcRuns.RunExecutesReached | internal/daemon/server.go:257-263 | with consecutive counters and fewer than 255 calls in a row lost, on such a run, a call is executed exactly once if it gets through, else not |
| UrpcRuns.OwnIsFifo | internal/daemon/urpc_bridge.go:32-34 | runs that only carry the running call's own frames are among these |
| UrpcRuns.RunExecutesOnce | internal/lite/main/urpc_agent.c:82-121 | over every run from power-up whose accepted chunks are the running call's frame, a call is executed once, during that call, if it gets through and its counter differs modulo 256 from the last one that did, else not |
| UrpcRuns.ReachedMeansExecuted | internal/daemon/server.go:257-263 | on such a run with consecutive counters and fewer than 255 calls in a row lost, a call is executed exactly once, during that call, if it gets through, else not |
| UrpcRuns.ConfirmedMeansExecuted | internal/daemon/server.go:257-263 | if moreover the line is prompt and starts out harmless, a confirmed call names its own sequence byte, was executed exactly once, and is told the status and the queue depth of that execution |
| UrpcRuns.SessionAnswer | internal/daemon/urpc_bridge.go:47-64 | on a prompt line a confirmation carries the status and queue depth of the first attempt that delivered the request, whichever attempt was answered |
| UrpcRuns.RunRelays | internal/lite/main/urpc_agent.c:90-110 | over every run of calls each relay has the level that the last executed valid order for it asks for |
| UrpcRuns.WrapSuppresses | internal/lite/main/urpc_agent.c:82-86 | after exactly 255 lost calls the next one is never executed, and confirmed all the same on a prompt line once an attempt that gets through is answered |
| UrpcRuns.AnswersLagBehind | internal/daemon/urpc_bridge.go:56-61 | from one acknowledgement left over, every later undisturbed call is told the answer to the call before it, with the wrong sequence byte |
| UrpcTruth.TruthfulRunsIff | internal/daemon/urpc_bridge.go:56-108 | over all prompt runs with consecutive counters no call is confirmed under another's sequence byte if and only if the line starts out with fewer than five bytes and no header byte |
| Dcp.EncodeCall | internal/protocol/dcp.go:46-64 | the frame of a call, or which step refused it |
| Dcp.EncodeDryRun | internal/protocol/dcp.go:66-73 | the frame of a call with the dry-run kind patched in |
| Dcp.EncodeReply | internal/protocol/dcp.go:75-93 | the frame of a reply, with no limit on its size |
| Dcp.CallRefusedIff | internal/protocol/dcp.go:46-64 | a call is refused if and only if CBOR refuses it or its body has more than 64 bytes; otherwise these are its bytes |
| Dcp.DecodesIff | internal/protocol/dcp.go:95-133 | a string decodes if and only if it starts with version 1, has its whole body, and that is empty or readable; kind, sequence byte, intent and tag are then the bytes at their places |
| Dcp.VerifyIffAppended | internal/protocol/dcp.go:135-156 | a tag verifies if and only if the data is some well-delimited frame with its tag appended |
| Dcp.TagMovesIff | internal/protocol/dcp.go:135-156 | the tag of one frame verifies behind another if and only if the first 16 bytes of their digests are the same |
| Dcp.CallRoundTrip | internal/protocol/dcp.go:46-133 | every accepted call reads back with its kind, sequence byte, intent and parameters, whatever tag follows |
| Dcp.ReplyRoundTripIff | internal/protocol/dcp.go:75-133 | a reply reads back as written if and only if its body has at most 255 bytes |
| DcpBridge.DCPBridge.ReadDcpReply | internal/daemon/dcp_bridge.go:93-118 | takes header, payload and (when keyed) tag off the stream, however chunked |
| DcpBridge.DCPBridge.SendDcp | internal/daemon/dcp_bridge.go:38-84 | result, frames written and stream left are those of the call function; an unencodable call writes nothing |
| DcpBridge.StaysAligned | internal/daemon/dcp_bridge.go:48-118 | each attempt takes a whole frame, or all there is of a torn one or of silence, off what has arrived by then; the call answers with the first acceptable frame after as many writes, the stream left right behind it; without one it goes on behind the pieces, and times out after the last attempt |
| DcpBridge.AlwaysFed | internal/daemon/dcp_bridge.go:93-118 | what any number of attempts meets is cut up like that in exactly one way |
| DcpBridge.QueueAnswers | internal/daemon/dcp_bridge.go:62-80 | with frames left over, signed ones included, the n-th call is answered with the n-th frame of the backlog followed by the replies |
| DcpBridge.AnswerIsOwnIff | internal/daemon/server.go:229 | over runs of prompt replies an answer names its call's sequence byte if and only if the number of frames left over is a multiple of 256 |
| DcpBridge.AnswersAreSigned | internal/daemon/dcp_bridge.go:72-80 | on any stream a keyed bridge only answers with a frame signed under its secret, found right before what is left unread |
| DcpBridge.UnkeyedAnswersIff | internal/daemon/dcp_bridge.go:66-118 | without a secret a string answers if and only if it is one whole frame of version 1 with an empty or readable body, of whatever kind, sequence byte and intent |
| DcpBridge.KeyedAnswersAre | internal/daemon/dcp_bridge.go:66-118 | with a secret exactly those strings answer that are such a frame with its tag appended |
| DcpBridge.ReplyIsReturned | internal/protocol/dcp.go:75-133 | what the reply encoder makes of a body of at most 255 bytes, signed when the bridge is keyed, is what the call returns at its first attempt, field by field |
| DcpBridge.EndsWithoutAnswer | internal/daemon/dcp_bridge.go:48-84 | with no answer so far a finished context and a failing write end the call with their own errors, and the last attempt with a timeout, nothing more taken off the stream |
| PayloadTemplate.FormatPayload | internal/daemon/server.go:305-314 | the result is that of some order of the parameters, and simultaneous substitution on safe templates with brace-free parameters, and whenever the result is safe |
| PayloadTemplate.ReplaceIsFill | internal/daemon/server.go:317-339 | one ReplaceAll fills exactly the holes of its key, unless stray braces spell that key |
| PayloadTemplate.AnyOrderSubstitutes | internal/daemon/server.go:305-340 | on a safe template with brace-free parameters every order gives simultaneous substitution, unknown holes left verbatim |
| PayloadTemplate.SafeResultSubstitutes | internal/daemon/server.go:305-340 | for arbitrary values every order gives simultaneous substitution if in the result no stray open brace comes before a stray close brace |
| PayloadTemplate.OneKindSubstitutes | internal/daemon/server.go:305-340 | so it does if the template's strays and the values only have braces of one kind |
| PayloadTemplate.OrderIrrelevantIffSafe | internal/daemon/server.go:305-340 | expansion is order-independent for all brace-free parameters if and only if no stray open brace comes before a stray close brace |
| PayloadTemplate.BracedValueIff | internal/daemon/server.go:309-312 | for arbitrary values, two orders of a one-hole template agree if and only if the hole's value does not spell the other placeholder or that one's value is the placeholder itself |
| PayloadTemplate.ScalarsPlain | internal/daemon/server.go:319-333 | numbers and flags are rendered without braces |
| PayloadTemplate.WholeReadsBack | internal/daemon/server.go:319-327 | a whole number is rendered in decimal without leading zeros, with a minus sign exactly when negative, and its digits read back as that number |
| PayloadTemplate.WholeInjective | internal/daemon/server.go:319-327 | two whole numbers are rendered alike if and only if they are equal |
| PayloadTemplate.OneHolePayload | internal/daemon/server.go:305-340 | a template with one hole gives the text around it and in it 1 or 0 for a flag, a string itself, a whole number in decimal that reads back |
| RateLimiter.RateLimiter.Allow | internal/daemon/rate_limiter.go:29-59 | answer and whole new state are those of one step, sweep included |
| RateLimiter.RateLimiter.Sweep | internal/daemon/rate_limiter.go:61-69 | keeps exactly the buckets used within the last two windows |
| RateLimiter.RunMatches | internal/daemon/rate_limiter.go:29-69 | over every history stored tokens are the rate minus the length of the current burst, and missing buckets have none |
| RateLimiter.AnswerIsHistory | internal/daemon/rate_limiter.go:29-59 | a call is allowed if and only if the client's burst of allowed calls is shorter than the rate |
| RateLimiter.SweepsInvisible | internal/daemon/rate_limiter.go:33-37 | every history is answered as by a limiter that never sweeps |
| RateLimiter.PassedIsAllowed | internal/daemon/rate_limiter.go:29-59 | the calls counted below are exactly those the limiter allowed |
| RateLimiter.SlidingWindow | internal/daemon/rate_limiter.go:29-59 | no interval as long as the window holds more than `rate` allowed calls of a client |
| RateLimiter.SteadyClientRefused | internal/daemon/rate_limiter.go:43-58 | a client calling at any constant distance below the window is refused after `rate` calls |
| RateLimiter.SteadyNeverRefusedIff | internal/daemon/rate_limiter.go:43-58 | such a client is never refused if and only if its calls are at least a window apart |
| RateLimiter.BucketsExpire | internal/daemon/rate_limiter.go:33-69 | after each call no bucket is left that was last used more than three windows back |
| RateLimiter.OtherBuckets | internal/daemon/rate_limiter.go:33-69 | a call leaves the other clients' buckets as they are, except that a sweep that is due drops exactly those unused for two windows |
| DedupWindow.DedupWindow.Allow | internal/sidecar/dedup.go:33-41 | answer and new entry, with the clock read twice |
| DedupWindow.DedupWindow.Cleanup | internal/sidecar/dedup.go:48-66 | one tick drops exactly the entries older than the ttl |
| DedupWindow.AdmitsIffQuiet | internal/sidecar/dedup.go:33-41 | a call is admitted if and only if no call with its key was admitted within the last ttl |
| DedupWindow.CleanupInvisible | internal/sidecar/dedup.go:48-66 | admissions are the same as if no cleanup had ever run |
| DedupWindow.AdmissionRate | internal/sidecar/dedup.go:33-41 | a span of length T holds at most T/ttl + 1 admissions of a key |
| DedupWindow.AfterCleanup | internal/sidecar/dedup.go:48-66 | after a cleanup a key is stored if and only if its last admission is at most the ttl ago |
| DedupWindow.EntriesAreRecent | internal/sidecar/dedup.go:48-66 | at any time no entry is older than the ttl was at the last cleanup |
| RouteTable.RouteTable.Register | internal/model/device.go:56-82 | the whole new table, for a known gateway and for a new one |
| RouteTable.RouteTable.AddDevice | internal/model/device.go:84-96 | the whole new table, creating the gateway if it is missing |
| RouteTable.RouteTable.Unregister | internal/model/device.go:98-112 | the whole new table and the reported devices |
| RouteTable.RouteTable.LookUp | internal/model/device.go:114-126 | the URL behind a device, if any |
| RouteTable.RouteTable.AllDevices | internal/model/device.go:128-144 | the entries of all gateways in some order of the map |
| RouteTable.RouteTable.UpdateHeartbeat | internal/model/device.go:170-181 | heartbeat and status, with a notice exactly when the status changes |
| RouteTable.RouteTable.SetGatewayStatus | internal/model/device.go:183-199 | status, with a notice exactly when it changes |
| RouteTable.RouteTable.StaleGateways | internal/model/device.go:201-214 | which gateways are listed for maintenance and which as offline, none twice in either list |
| RouteTable.RunKeepsIntegrity | internal/model/device.go:56-112 | in every reachable state each route leads to a registered gateway that lists the device |
| RouteTable.LookupNeverDangles | internal/model/device.go:98-126 | lookup fails only for devices without a route, and no route leads to an unregistered gateway |
| RouteTable.OthersUntouched | internal/model/device.go:56-199 | no operation touches another gateway's record |
| RouteTable.OwnRecord | internal/model/device.go:56-199 | what each operation makes of the gateway it names: URL, devices, heartbeat, status |
| RouteTable.RegisteredUrl | internal/model/device.go:56-82 | after Register every device routed to the gateway, old or new, is looked up under the URL announced |
| RouteTable.ListingIff | internal/model/device.go:128-144 | an entry is in the listing if and only if its gateway lists the device, and URL, status and heartbeat are the gateway's |
| SingleHoming.StaysMutualIff | internal/model/device.go:56-112 | from inverse maps an operation keeps them inverse if and only if it adds no device at home elsewhere and no duplicate list |
| SingleHoming.RunIsMutual | internal/model/device.go:56-112 | over every run of such operations the maps are inverses |
| SingleHoming.ReportIsExactIff | internal/model/device.go:98-112 | Unregister reports exactly the devices that stop resolving if and only if all the gateway lists had a route |
| SingleHoming.NoCollateralIff | internal/model/device.go:106-109 | it takes no other gateway's devices down if and only if none of its listed devices is routed elsewhere |
| SingleHoming.MutualReport | internal/model/device.go:98-112 | with inverse maps the report, the devices that stop resolving and the gateway's own routes are the same devices |
| SingleHoming.SecondHomeStrands | internal/model/device.go:62-68 | a device that a second gateway adds and loses again no longer resolves although its first gateway lists it, and registering it there again does not help |
| SingleHoming.ListingAgreesWithLookup | internal/model/device.go:114-144 | with inverse maps the listing has a device exactly once if it resolves, under the same URL, else never |
| GatewayHealth.AlwaysOk | internal/sidecar/router.go:111-134 | in every reachable state, with discovery between any two steps, a gateway's status is a function of its heartbeat's age at the last tick |
| GatewayHealth.DiscoverKeeps | internal/model/device.go:59-82 | discovery never touches a known gateway's heartbeat or status and gives no notice; new gateways start online |
| GatewayHealth.SilentGatewaysAreGone | internal/sidecar/router.go:117-125 | after every tick no gateway is left whose silence exceeded the offline timeout |
| GatewayHealth.DeadIsGone | internal/sidecar/router.go:111-134 | a gateway whose probes all fail and that is not discovered again is gone after the first tick later than its last heartbeat plus the offline timeout |
| GatewayHealth.RemovedOnlyWhenSilent | internal/sidecar/router.go:117-125 | only such gateways are removed, and their status tells whether the tick before saw them stale |
| GatewayHealth.NoMaintenanceAtAll | internal/model/device.go:205-212 | if the offline timeout is not the longer one no gateway is ever put into maintenance |
| GatewayHealth.AlwaysMarkedFirstIff | internal/sidecar/router.go:111-134 | every removal is preceded by maintenance if and only if ticks are at most the difference of the timeouts apart |
| GatewayHealth.AnsweringStaysOnline | internal/sidecar/router.go:126-134 | a gateway that answers every probe stays registered and online |
| GatewayHealth.AnsweringNeverStaleIff | internal/sidecar/router.go:111-134 | such a gateway is never found stale if and only if ticks are no further apart than both timeouts |
| GatewayHealth.NoticesChain | internal/model/device.go:170-199 | while a gateway is registered the callback's status changes form a chain, each a real change from where the last one left off |
| GatewayHealth.LifeIsChain | internal/model/device.go:56-199 | over every run from the empty table a gateway's notices since its creation lead from online to its present status |
| GatewayHealth.LifeOnMachine | internal/sidecar/router.go:111-134 | so they do over the health check with discovery between any two steps |
| Router.Router.Tick | internal/sidecar/router.go:111-134 | an undisturbed tick is a legal run of the state machine in which exactly the gateways that answer get an answered probe; the others keep their heartbeat if they stay; and the removal callback gets the devices its removals report |
| Router.Router.Ticks | internal/sidecar/router.go:104-136 | over any number of undisturbed ticks a gateway that never answers keeps its heartbeat, and is gone after the first tick later than that plus the offline timeout |

## Left out

- UrpcBridge.SerialBridge.SendUrpc: when the second read comes up short the Go code takes `buf[:5]` of a shorter buffer: with the header at index 4 and the usual capacity of 8 that panics, otherwise the missing bytes are whatever the capacity holds. Both depend on the runtime's allocator, so the model ends such a call as undetermined, and says when that can happen.
- UrpcBridge.SerialBridge.ReadUrpcAck: for the same reason says what is consumed but not what is decoded when the second read is short.
- SerialPort.Port.Read: a read fails only when nothing is waiting, and returns no bytes only finitely often; a port that keeps returning zero bytes without an error keeps the daemon's first loop running for ever.
- GatewayHealth.AlwaysOk: the wall clock is taken not to go back, and timeouts are whole seconds as the code truncates them.
- RouteTable.RouteTable.Register: the device list is a value; the Go code may share its backing array with the caller.
- PayloadTemplate.FormatPayload: non-integral numbers and other values enter as their printed text, and the result is text rather than its UTF-8 bytes.
- UrpcRuns.ConfirmedMeansExecuted: assumes the prompt line described above, which the firmware's 100 ms read timeout does not guarantee (UrpcSplits.SplitRequest); daemon restarts, which reset the counter while the firmware keeps its cache, are not part of a run; calls that take the mutex out of counter order are covered by UrpcRuns.RunDispatchesExactly, which assumes nothing about counters.
- UrpcRuns.RunInOrder: takes every chunk that the firmware accepts to be a frame that some call wrote; UrpcFrames.DamagedRequestIff, UrpcFrames.DamagedLengthIff and UrpcSplits.SplitsSafeIff say exactly which damage and which cuts break that.
- UrpcLink.SessionIsSend: a failing write may have got part of the frame out; the replies to it count as never received unless a later attempt receives them.
- Error texts and logging; locks, since every locked operation is one step.
- The status callback's reaction in `cmd/devagent/main.go:71-77`, which takes the table's lock again while it is held; the model records the calls.
- Opening, closing and reconnecting the serial port, and context deadlines beyond "over at this attempt or not".
- CBOR, SHA-256 and JSON; CBOR and HMAC are parameters with the laws stated in `Dcp.dfy`.
- HTTP and MCP handlers, mDNS, configuration, native commands, tokens, progress tracking and the device registry.
- That a formatted template means what the firmware reads: the daemon sends text such as `1 1`, the firmware reads binary bytes.
