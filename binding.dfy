/** `DoReceive` of binding.cc: look up the `onMessage` callback, receive the frames of
    one multipart message from the subscriber socket, and hand them to the callback. */
module Binding {
  import opened Transport

  /** What `exports.onMessage` holds when `DoReceive` runs. */
  datatype Value = Callable(id: nat) | NotCallable

  /** The two places `DoReceive` throws: a receive that failed with an error other
      than `EINTR`, and a failed RCVMORE query. */
  datatype ErrorKind = RecvError | RcvMoreError

  /** One call of a JavaScript function: the function and its argument vector, each
      argument being an array of frame buffers. */
  datatype Invocation = Invocation(callee: nat, argv: seq<seq<Bytes>>)

  /** How one `DoReceive` ends. `Blocked` stands for the receive that never returns
      once the script has no outcome left. */
  datatype Status =
    | NoCallback
    | Thrown(error: ErrorKind)
    | Blocked
    | Delivered(call: Invocation)

  /** The end of one call, and how many scripted receive attempts it used up. */
  datatype Call = Call(status: Status, consumed: nat)

  /** `c` after `n` more attempts used in front of it. */
  function Shift(c: Call, n: nat): (r: Call) {
    Call(c.status, c.consumed + n)
  }

  /** The receive loop from the start of script `s`, with `parts` already received
      for the current message and the callback `callee` looked up. */
  function Assemble(callee: nat, s: seq<Attempt>, parts: seq<Bytes>): (r: Call)
    ensures r.consumed <= |s|
    ensures r.status != NoCallback
    ensures r.status.Blocked? ==> r.consumed == |s| && forall k :: 0 <= k < |s| ==> Continues(s[k])
    ensures !r.status.Blocked? ==> 1 <= r.consumed && !Continues(s[r.consumed - 1])
    ensures forall k :: 0 <= k < r.consumed - 1 ==> Continues(s[k])
    ensures r.status.Delivered? ==>
              r.status.call.callee == callee && |r.status.call.argv| == 1 &&
              |parts| < |r.status.call.argv[0]| && r.status.call.argv[0][..|parts|] == parts
  {
    if s == [] then Call(Blocked, 0)
    else match s[0]
      case Interrupted => Shift(Assemble(callee, s[1..], parts), 1)
      case Failed => Call(Thrown(RecvError), 1)
      case Frame(b, MoreQueryFailed) => Call(Thrown(RcvMoreError), 1)
      case Frame(b, More(more)) =>
        if more then Shift(Assemble(callee, s[1..], parts + [b]), 1)
        else Call(Delivered(Invocation(callee, [parts + [b]])), 1)
  }

  /** One `DoReceive` on script `s`. */
  function Receive(onMessage: Value, s: seq<Attempt>): (r: Call)
    ensures r.status == NoCallback <==> !onMessage.Callable?
    ensures r.status == NoCallback ==> r.consumed == 0
    ensures r.consumed <= |s|
  {
    if onMessage.Callable? then Assemble(onMessage.id, s, []) else Call(NoCallback, 0)
  }

  /** `DoReceive`: the callback check, the `EINTR` retry loop, the frames collected
      in reception order with a part counter, the RCVMORE test, and the single
      callback call. The JavaScript array `message_buffers`, set at index
      `message_part_count`, is a sequence extended at its end. */
  method DoReceive(onMessage: Value, script: seq<Attempt>) returns (r: Call)
    ensures r == Receive(onMessage, script)
    ensures r.status.Delivered? ==> r.status.call.argv == [FramesOf(script[..r.consumed])]
  {
    if !onMessage.Callable? {
      return Call(NoCallback, 0);
    }
    var messageBuffers: seq<Bytes> := [];
    var messagePartCount := 0;
    var i := 0;
    assert script[i..] == script;
    assert script[..i] == [];
    while true
      invariant i <= |script|
      invariant messagePartCount == |messageBuffers|
      invariant messageBuffers == FramesOf(script[..i])
      invariant Shift(Assemble(onMessage.id, script[i..], messageBuffers), i) == Receive(onMessage, script)
      decreases |script| - i
    {
      var received: Attempt;
      while true
        invariant i <= |script|
        invariant messageBuffers == FramesOf(script[..i])
        invariant Shift(Assemble(onMessage.id, script[i..], messageBuffers), i) == Receive(onMessage, script)
        decreases |script| - i
      {
        if i == |script| {
          return Call(Blocked, i);
        }
        var attempt := script[i];
        if attempt.Interrupted? {
          AssembleAt(onMessage.id, script, i, messageBuffers);
          FramesOfSnoc(script, i);
          assert FramesOf(script[..i + 1]) == messageBuffers;
          i := i + 1;
          continue;
        }
        if attempt.Failed? {
          AssembleAt(onMessage.id, script, i, messageBuffers);
          return Call(Thrown(RecvError), i + 1);
        }
        received := attempt;
        break;
      }
      AssembleAt(onMessage.id, script, i, messageBuffers);
      FramesOfSnoc(script, i);
      assert FramesOf(script[..i + 1]) == messageBuffers + [received.bytes];
      i := i + 1;
      messageBuffers := messageBuffers + [received.bytes];
      messagePartCount := messagePartCount + 1;
      if received.more.MoreQueryFailed? {
        return Call(Thrown(RcvMoreError), i);
      }
      if !received.more.flag {
        break;
      }
    }
    r := Call(Delivered(Invocation(onMessage.id, [messageBuffers])), i);
  }

  /** One step of the loop at position `i` of the script. */
  lemma AssembleAt(callee: nat, s: seq<Attempt>, i: nat, parts: seq<Bytes>)
    requires i < |s|
    ensures Assemble(callee, s[i..], parts) ==
            if s[i].Interrupted? then Shift(Assemble(callee, s[i + 1..], parts), 1)
            else if Continues(s[i]) then Shift(Assemble(callee, s[i + 1..], parts + [s[i].bytes]), 1)
            else Assemble(callee, [s[i]], parts)
  {
    assert s[i..] == [s[i]] + s[i + 1..];
    AssembleCons(callee, s[i], s[i + 1..], parts);
  }

  /** Receiving attempt `i` adds its frame, if it is one, to the frames seen so far. */
  lemma FramesOfSnoc(s: seq<Attempt>, i: nat)
    requires i < |s|
    ensures FramesOf(s[..i + 1]) == FramesOf(s[..i]) + (if s[i].Frame? then [s[i].bytes] else [])
  {
    assert s[..i + 1] == s[..i] + [s[i]];
    FramesAppend(s[..i], [s[i]]);
    assert [s[i]][1..] == [];
  }

  /** The position of the first attempt that stops the receive loop, or `|s|`. */
  function FirstStop(s: seq<Attempt>): (n: nat)
    ensures n <= |s|
    ensures forall k :: 0 <= k < n ==> Continues(s[k])
    ensures n < |s| ==> !Continues(s[n])
  {
    if s == [] || !Continues(s[0]) then 0 else 1 + FirstStop(s[1..])
  }

  /** A second definition of the loop: find the first attempt that stops it and
      read the outcome off that attempt. */
  function Outcome(callee: nat, s: seq<Attempt>, parts: seq<Bytes>): (r: Call) {
    var n := FirstStop(s);
    if n == |s| then Call(Blocked, n)
    else if s[n].Failed? then Call(Thrown(RecvError), n + 1)
    else if s[n].more.MoreQueryFailed? then Call(Thrown(RcvMoreError), n + 1)
    else Call(Delivered(Invocation(callee, [parts + FramesOf(s[..n + 1])])), n + 1)
  }

  /** The second definition for a whole call, with the callback check in front. */
  function Reference(onMessage: Value, s: seq<Attempt>): (r: Call) {
    if onMessage.Callable? then Outcome(onMessage.id, s, []) else Call(NoCallback, 0)
  }

  /** The payloads a continuing attempt adds to the message: its frame, if it is one. */
  function Added(a: Attempt): (r: seq<Bytes>) {
    if a.Frame? then [a.bytes] else []
  }

  /** The second definition steps over an attempt that continues the loop. */
  lemma OutcomeStep(callee: nat, s: seq<Attempt>, parts: seq<Bytes>)
    requires s != [] && Continues(s[0])
    ensures Outcome(callee, s, parts) == Shift(Outcome(callee, s[1..], parts + Added(s[0])), 1)
  {
    var m := FirstStop(s[1..]);
    assert FirstStop(s) == m + 1;
    if m < |s[1..]| {
      assert s[m + 1] == s[1..][m];
      var p := s[..m + 2];
      assert p[0] == s[0] && p[1..] == s[1..][..m + 1];
      assert FramesOf(p) == Added(s[0]) + FramesOf(s[1..][..m + 1]);
      assert parts + FramesOf(p) == (parts + Added(s[0])) + FramesOf(s[1..][..m + 1]);
    }
  }

  /** The second definition on an attempt that stops the loop. */
  lemma OutcomeStop(callee: nat, s: seq<Attempt>, parts: seq<Bytes>)
    requires s != [] && !Continues(s[0])
    ensures Assemble(callee, s, parts) == Outcome(callee, s, parts)
  {
    assert FirstStop(s) == 0;
    if s[0].Frame? {
      var p := s[..1];
      assert p[0] == s[0] && p[1..] == [];
      assert FramesOf(p) == [s[0].bytes];
    }
  }

  lemma {:induction false} AssembleMatchesOutcome(callee: nat, s: seq<Attempt>, parts: seq<Bytes>)
    ensures Assemble(callee, s, parts) == Outcome(callee, s, parts)
  {
    if s == [] {
    } else if Continues(s[0]) {
      var parts' := parts + Added(s[0]);
      assert s[0].Interrupted? ==> parts' == parts;
      assert Assemble(callee, s, parts) == Shift(Assemble(callee, s[1..], parts'), 1);
      AssembleMatchesOutcome(callee, s[1..], parts');
      OutcomeStep(callee, s, parts);
    } else {
      OutcomeStop(callee, s, parts);
    }
  }

  /** The loop and the search for the first stopping attempt agree on every script. */
  lemma ReceiveMatchesReference(onMessage: Value, s: seq<Attempt>)
    ensures Receive(onMessage, s) == Reference(onMessage, s)
  {
    if onMessage.Callable? {
      AssembleMatchesOutcome(onMessage.id, s, []);
    }
  }

  /** ZeroMQ's multipart shape: at least one frame, and every frame's more flag is
      true except the last one's. */
  predicate IsMultipart(p: seq<Attempt>) {
    |p| >= 1 && forall k :: 0 <= k < |p| ==> p[k].Frame? && p[k].more == More(k < |p| - 1)
  }

  /** Among attempts that all continue the loop, the ones that are not interruptions
      are frames saying more frames follow. */
  lemma StripContinuing(p: seq<Attempt>)
    requires forall k :: 0 <= k < |p| ==> Continues(p[k])
    ensures forall k :: 0 <= k < |Strip(p)| ==> Strip(p)[k].Frame? && Strip(p)[k].more == More(true)
  {
    var q := Strip(p);
    StripKeeps(p);
    forall k | 0 <= k < |q|
      ensures q[k].Frame? && q[k].more == More(true)
    {
      assert q[k] in q;
      var j :| 0 <= j < |p| && p[j] == q[k];
      assert Continues(p[j]);
    }
  }

  /** A delivered message: one call of the looked-up callback with one argument,
      the frame array, whose frame `k` is the `k`-th frame received; those frames
      form one multipart message. */
  lemma DeliveredMessageShape(onMessage: Value, s: seq<Attempt>)
    requires Receive(onMessage, s).status.Delivered?
    ensures var r := Receive(onMessage, s);
            var q := Strip(s[..r.consumed]);
            var call := r.status.call;
            onMessage.Callable? && call.callee == onMessage.id && |call.argv| == 1 &&
            IsMultipart(q) && |call.argv[0]| == |q| &&
            forall k :: 0 <= k < |q| ==> call.argv[0][k] == q[k].bytes
  {
    ReceiveMatchesReference(onMessage, s);
    var n := FirstStop(s);
    assert Receive(onMessage, s) == Call(Delivered(Invocation(onMessage.id, [FramesOf(s[..n + 1])])), n + 1);
    StoppingFrameIsMultipart(s[..n + 1]);
  }

  /** Attempts that continue the loop, closed by a frame whose more flag is false,
      carry one multipart message. */
  lemma StoppingFrameIsMultipart(p: seq<Attempt>)
    requires |p| >= 1 && forall k :: 0 <= k < |p| - 1 ==> Continues(p[k])
    requires p[|p| - 1].Frame? && p[|p| - 1].more == More(false)
    ensures IsMultipart(Strip(p))
    ensures |FramesOf(p)| == |Strip(p)|
    ensures forall k :: 0 <= k < |Strip(p)| ==> FramesOf(p)[k] == Strip(p)[k].bytes
    ensures Strip(p)[|Strip(p)| - 1] == p[|p| - 1]
  {
    var n := |p| - 1;
    var last := p[n];
    assert p == p[..n] + [last];
    StripAppend(p[..n], [last]);
    assert Strip([last]) == [last];
    StripContinuing(p[..n]);
    assert IsMultipart(Strip(p));
    assert Strip(p)[|Strip(p)| - 1] == last;
    FramesIgnoreInterruptions(p);
    FramesOfFrames(Strip(p));
  }

  /** The first stopping attempt is the one every earlier attempt continues past. */
  lemma FirstStopAt(s: seq<Attempt>, n: nat)
    requires n <= |s|
    requires forall k :: 0 <= k < n ==> Continues(s[k])
    requires n < |s| ==> !Continues(s[n])
    ensures FirstStop(s) == n
  {
  }

  /** A receive that fails with an error other than `EINTR` ends the call by
      throwing, however many frames were already received, and the callback is
      not called. */
  lemma RecvFailureAborts(callee: nat, s: seq<Attempt>, n: nat)
    requires n < |s| && s[n] == Failed
    requires forall k :: 0 <= k < n ==> Continues(s[k])
    ensures Receive(Callable(callee), s) == Call(Thrown(RecvError), n + 1)
  {
    ReceiveMatchesReference(Callable(callee), s);
    FirstStopAt(s, n);
  }

  /** A failed RCVMORE query ends the call by throwing, and the callback is not called. */
  lemma RcvMoreFailureAborts(callee: nat, s: seq<Attempt>, n: nat, b: Bytes)
    requires n < |s| && s[n] == Frame(b, MoreQueryFailed)
    requires forall k :: 0 <= k < n ==> Continues(s[k])
    ensures Receive(Callable(callee), s) == Call(Thrown(RcvMoreError), n + 1)
  {
    ReceiveMatchesReference(Callable(callee), s);
    FirstStopAt(s, n);
  }

  /** The first frame whose more flag is false completes the message: the callback
      is called once, with the frames received so far in reception order, and
      nothing after that frame is received. */
  lemma DeliversAtFinalFrame(callee: nat, s: seq<Attempt>, n: nat, b: Bytes)
    requires n < |s| && s[n] == Frame(b, More(false))
    requires forall k :: 0 <= k < n ==> Continues(s[k])
    ensures Receive(Callable(callee), s) == Call(Delivered(Invocation(callee, [FramesOf(s[..n + 1])])), n + 1)
    ensures IsMultipart(Strip(s[..n + 1]))
  {
    ReceiveMatchesReference(Callable(callee), s);
    FirstStopAt(s, n);
    StoppingFrameIsMultipart(s[..n + 1]);
  }

  /** A script that never stops the loop leaves the call blocked in its receive,
      with every outcome used up. */
  lemma BlocksWhenExhausted(callee: nat, s: seq<Attempt>)
    requires forall k :: 0 <= k < |s| ==> Continues(s[k])
    ensures Receive(Callable(callee), s) == Call(Blocked, |s|)
  {
    ReceiveMatchesReference(Callable(callee), s);
    FirstStopAt(s, |s|);
  }

  /** `Strip` on a script that starts with attempt `a`. */
  lemma StripCons(a: Attempt, r: seq<Attempt>)
    ensures Strip([a] + r) == (if a.Interrupted? then [] else [a]) + Strip(r)
  {
    assert ([a] + r)[0] == a && ([a] + r)[1..] == r;
  }

  /** Interruptions are invisible: the loop ends the same way on the script without
      them, and there it uses exactly the non-interrupted attempts it used before. */
  lemma AssembleIgnoresInterruptions(callee: nat, s: seq<Attempt>, parts: seq<Bytes>)
    ensures Assemble(callee, Strip(s), parts).status == Assemble(callee, s, parts).status
    ensures Assemble(callee, Strip(s), parts).consumed == |Strip(s[..Assemble(callee, s, parts).consumed])|
  {
    StatusIgnoresInterruptions(callee, s, parts);
    ConsumedIgnoresInterruptions(callee, s, parts);
  }

  lemma {:induction false} StatusIgnoresInterruptions(callee: nat, s: seq<Attempt>, parts: seq<Bytes>)
    ensures Assemble(callee, Strip(s), parts).status == Assemble(callee, s, parts).status
  {
    if s != [] {
      var a, r := s[0], s[1..];
      assert s == [a] + r;
      StripCons(a, r);
      AssembleCons(callee, a, r, parts);
      if a.Interrupted? {
        assert Strip(s) == Strip(r);
        StatusIgnoresInterruptions(callee, r, parts);
      } else {
        assert Strip(s) == [a] + Strip(r);
        AssembleCons(callee, a, Strip(r), parts);
        if Continues(a) {
          StatusIgnoresInterruptions(callee, r, parts + [a.bytes]);
        }
      }
    }
  }

  lemma {:induction false} ConsumedIgnoresInterruptions(callee: nat, s: seq<Attempt>, parts: seq<Bytes>)
    ensures Assemble(callee, Strip(s), parts).consumed == |Strip(s[..Assemble(callee, s, parts).consumed])|
  {
    if s != [] {
      var a, r := s[0], s[1..];
      assert s == [a] + r;
      StripCons(a, r);
      AssembleCons(callee, a, r, parts);
      var c := Assemble(callee, s, parts).consumed;
      PrefixCons(s, c);
      StripCons(a, r[..c - 1]);
      if a.Interrupted? {
        assert Strip(s) == Strip(r);
        ConsumedIgnoresInterruptions(callee, r, parts);
      } else if Continues(a) {
        assert Strip(s) == [a] + Strip(r);
        AssembleCons(callee, a, Strip(r), parts);
        ConsumedIgnoresInterruptions(callee, r, parts + [a.bytes]);
      } else {
        assert Strip(s) == [a] + Strip(r);
        AssembleCons(callee, a, Strip(r), parts);
        assert c == 1;
      }
    }
  }

  lemma PrefixCons(s: seq<Attempt>, c: nat)
    requires 1 <= c <= |s|
    ensures s[..c] == [s[0]] + s[1..][..c - 1]
  {
  }

  /** One step of the loop on a script that starts with attempt `a`. */
  lemma AssembleCons(callee: nat, a: Attempt, r: seq<Attempt>, parts: seq<Bytes>)
    ensures Assemble(callee, [a] + r, parts) ==
            if a.Interrupted? then Shift(Assemble(callee, r, parts), 1)
            else if Continues(a) then Shift(Assemble(callee, r, parts + [a.bytes]), 1)
            else Assemble(callee, [a], parts)
  {
    assert ([a] + r)[0] == a && ([a] + r)[1..] == r;
    assert [a][0] == a;
  }

  /** A `DoReceive` ends the same way whether or not its receives were interrupted. */
  lemma ReceiveIgnoresInterruptions(onMessage: Value, s: seq<Attempt>)
    ensures Receive(onMessage, Strip(s)).status == Receive(onMessage, s).status
    ensures Receive(onMessage, Strip(s)).consumed == |Strip(s[..Receive(onMessage, s).consumed])|
  {
    if onMessage.Callable? {
      AssembleIgnoresInterruptions(onMessage.id, s, []);
    } else {
      assert s[..0] == [];
    }
  }

  function Interruptions(k: nat): (r: seq<Attempt>)
    ensures |r| == k && forall j :: 0 <= j < k ==> r[j] == Interrupted
  {
    seq(k, _ => Interrupted)
  }

  /** `k` interruptions ahead of the script change nothing but the number of
      attempts used. */
  lemma {:induction false} InterruptionsBeforeScript(onMessage: Value, k: nat, s: seq<Attempt>)
    ensures Receive(onMessage, Interruptions(k) + s) ==
            if onMessage.Callable? then Shift(Receive(onMessage, s), k) else Receive(onMessage, s)
  {
    if k == 0 {
      assert Interruptions(k) + s == s;
    } else if onMessage.Callable? {
      var t := Interruptions(k) + s;
      assert t[0] == Interrupted;
      assert t[1..] == Interruptions(k - 1) + s;
      InterruptionsBeforeScript(onMessage, k - 1, s);
    }
  }

  /** Once the loop has stopped, the rest of the script is never received from:
      replacing it leaves the call unchanged. */
  lemma {:induction false} AssembleReadsOnlyConsumed(callee: nat, s: seq<Attempt>, parts: seq<Bytes>, rest: seq<Attempt>)
    requires !Assemble(callee, s, parts).status.Blocked?
    ensures Assemble(callee, s[..Assemble(callee, s, parts).consumed] + rest, parts) == Assemble(callee, s, parts)
  {
    var c := Assemble(callee, s, parts).consumed;
    var t := s[..c] + rest;
    assert t[0] == s[0];
    if Continues(s[0]) {
      assert t[1..] == s[1..][..c - 1] + rest;
      AssembleReadsOnlyConsumed(callee, s[1..], parts + Added(s[0]), rest);
      assert s[0].Interrupted? ==> parts + Added(s[0]) == parts;
    }
  }

  /** After the stopping attempt no further receive happens in the same call, so one
      call assembles at most one message. */
  lemma NothingReceivedAfterStop(onMessage: Value, s: seq<Attempt>, rest: seq<Attempt>)
    requires !Receive(onMessage, s).status.Blocked?
    ensures Receive(onMessage, s[..Receive(onMessage, s).consumed] + rest) == Receive(onMessage, s)
  {
    if onMessage.Callable? {
      AssembleReadsOnlyConsumed(onMessage.id, s, [], rest);
    }
  }
}
