# qtZmq receive loop, modelled in Dafny

qtZmq is a Node.js native addon that connects a ZeroMQ SUB socket and exposes
`doReceive()` to JavaScript. Each call of `doReceive` does these steps:

1. It looks up `exports.onMessage`. If that is not a function, it returns.
2. It makes blocking `zmq_msg_recv` calls. An `EINTR` is retried. Any other error
   throws a JavaScript error.
3. Each received frame goes into a JavaScript array at the next index.
4. After each frame it asks `ZMQ_RCVMORE`. If that query fails, it throws. It stops
   after the first frame whose flag is false.
5. It calls `onMessage` once, with the frame array as its only argument.

The model keeps that loop as an imperative method and proves it against
specification functions.

- `transport.dfy` (module `Transport`) is the socket. It is a script of the
  outcomes its receives would produce. Each `Attempt` is `Interrupted` (errno
  `EINTR`), `Failed` (any other errno), or `Frame(bytes, more)`. For a `Frame`,
  `more` is the reply to the RCVMORE query made right after that receive:
  `MoreQueryFailed` or `More(flag)`. The module also defines `Strip`, which
  removes the interruptions from a script, and `FramesOf`, which gives the
  received payloads in order.
- `binding.dfy` (module `Binding`) is `DoReceive`. The value of `exports.onMessage`
  is `Callable(id)` or `NotCallable`. One call yields a `Call(status, consumed)`:
  - `status` is `NoCallback`, `Thrown(RecvError | RcvMoreError)`, `Blocked`, or
    `Delivered(Invocation(callee, argv))`.
  - `consumed` is how many scripted receives the call used.
  - `Blocked` is the receive that never returns once the script has no outcome
    left.

  The module contains:
  - `Assemble` and `Receive`, the functional specification of the loop;
  - the method `DoReceive`, written with the source's two nested `while (true)`
    loops and a part counter, and proved equal to `Receive`. The JavaScript
    array `message_buffers`, which is set at index `message_part_count`, becomes
    a sequence extended at its end. Its loop invariants say that the sequence
    holds the frames of the attempts received so far, and that the counter
    equals its length;
  - `Outcome` and `Reference`, a second, independent definition that finds the
    first attempt that stops the loop;
  - lemmas that relate all of these.

Three facts about `DoReceive` shape the model:
- The receive is blocking (flags `0`). There is no would-block (`EAGAIN`) branch.
- One call assembles exactly one message. No further queued messages are drained.
- A failure part-way through a message throws. The frames already received are
  not delivered.

## Model

| member | source | states |
|---|---|---|
| `Binding.DoReceive` | binding.cc:113-173 | gives the same result as `Receive`: the callback check, the `EINTR` retry, the RCVMORE stop, and one callback call; a delivered call's single argument is exactly the frames of the attempts it used, in reception order |
| `Binding.Receive` | binding.cc:119-124 | the call ends with `NoCallback` exactly when `onMessage` is not a function, and then uses no transport outcome; in every case it uses at most the script |
| `Binding.Assemble` | binding.cc:126-167 | the loop never ends with `NoCallback`; every attempt before the last one it uses is a retried `EINTR` or a frame with more = true; the last one stops the loop, unless the call is blocked; it blocks only when the whole script continues; a delivered call goes to the looked-up callback with one argument that extends the frames already held |
| `Binding.ReceiveMatchesReference` | binding.cc:128-167 | on every script the loop matches the reference: after the first stopping attempt the call is blocked if there is none, otherwise it throws `RecvError` for a failed receive, `RcvMoreError` for a failed RCVMORE query, and delivers the frames received up to it for more = false |
| `Binding.DeliveredMessageShape` | binding.cc:151-170 | a delivered call invokes the looked-up callback once with a single argument; frame k of that argument is the k-th frame received; those frames form one multipart message: at least one, the last with more = false, all earlier ones with more = true |
| `Binding.DeliversAtFinalFrame` | binding.cc:153-170 | if every attempt before position n continues and position n is a frame with more = false, then the call uses n + 1 attempts and delivers exactly the frames received, in order, as a well-formed multipart message |
| `Binding.RecvFailureAborts` | binding.cc:135-143 | a receive error other than `EINTR` throws `RecvError` right after that receive; the callback is not called, even if frames were already received |
| `Binding.RcvMoreFailureAborts` | binding.cc:156-161 | a failed RCVMORE query throws `RcvMoreError` right after its frame; the callback is not called |
| `Binding.BlocksWhenExhausted` | binding.cc:135-147 | a script made only of interruptions and frames with more = true leaves the call blocked in a receive, with the whole script used |
| `Binding.AssembleIgnoresInterruptions` | binding.cc:135-141 | the loop ends the same way on the script with its interruptions removed, and there it uses exactly the non-interrupted attempts it used before |
| `Binding.ReceiveIgnoresInterruptions` | binding.cc:135-141 | a `DoReceive` ends the same way (same error, same delivered message) whether or not its receives were interrupted |
| `Binding.InterruptionsBeforeScript` | binding.cc:135-141 | k interruptions before a script give the same result, with k more attempts used when a callback is present |
| `Binding.AssembleReadsOnlyConsumed` | binding.cc:164-167 | once the loop has stopped, the script beyond the attempts it used has no effect on the result |
| `Binding.NothingReceivedAfterStop` | binding.cc:164-167 | after the stopping attempt no further receive is made in the same call, so one call assembles at most one message |
| `Binding.StoppingFrameIsMultipart` | binding.cc:151-166 | attempts that continue the loop, closed by a frame with more = false, carry one multipart message whose payloads are the received frames in order, ending with that frame |
| `Transport.FramesOfFrames` | binding.cc:151-154 | when every attempt is a frame, the payload at index k is the k-th frame's: the array index equals the number of frames received before it |
| `Transport.FramesAppend` | binding.cc:151-154 | the frames of two stretches of script, one after the other, are the frames of each stretch, in order |
| `Binding.FramesOfSnoc` | binding.cc:135-154 | receiving one more attempt appends its frame, if it is one, to the frames seen so far, and adds nothing for an interruption |
| `Transport.FramesIgnoreInterruptions` | binding.cc:139-140 | a retried interruption adds no frame to the message |
| `Transport.Strip` | binding.cc:139-140 | removing interruptions never lengthens the script, and leaves a script without interruptions unchanged |
| `Transport.StripKeeps` | binding.cc:139-140 | removing interruptions keeps exactly the attempts that are not interruptions |

## Left out

- `init` (binding.cc:64-104) is not modelled. It creates the context and the socket, connects to a hard-coded address, sets the empty subscription filter, and reports errors with `printf`. All of this is transport setup done by library calls.
- The blocking receive, the `EINTR` classification and the RCVMORE query are calls into ZeroMQ. They become the scripted outcomes of `Attempt`. A script that runs out stands for a receive that blocks forever, or for an endless stream of `EINTR`, and is reported as `Blocked`.
- Node, V8 and NAN plumbing is not modelled: `NODE_MODULE`, the persistent `exports` handle, handle scopes, `NanNew`, and `NanMakeCallback` beyond which function gets called with which arguments. These are calls into the host runtime.
- Buffer storage is not modelled: `malloc` and `zmq_msg_init` of each message (binding.cc:132-133), `NanNewBufferHandle` (binding.cc:151), and `FreeCallback` (binding.cc:107-111) with its `zmq_msg_close` and `free`. Once a frame is wrapped in a buffer, its storage is released by `FreeCallback` when the host's garbage collector discards the buffer. This also holds on the RCVMORE-failure path, because the frame is already wrapped there.
- The `zmq_msg_t` leaked on the receive-failure path is not modelled. It is allocated at binding.cc:132-133, and the function returns at binding.cc:142-143 without wrapping or freeing it. The model has no notion of native memory.
- Error text is not modelled. The text from `zmq_strerror` (binding.cc:44-52) becomes an `ErrorKind` tag, and the `printf("wtdc")` on the no-callback path is output only.
- `Binding.DoReceive`: `message_part_count` is a C `int`. Its overflow after 2^31 frames in one message is not modelled, and the counter is an unbounded integer.
- Concurrency and event-loop scheduling are not modelled. This source has no readiness notifications and no non-blocking draining of several messages. It has no connect beyond the one in `init` (binding.cc:78), which is left out above. It has no close: `zmq_close` and `zmq_ctx_destroy` at binding.cc:101-102 are commented out.
