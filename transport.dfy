/** The subscriber socket as the receive loop of binding.cc sees it: a script of the
    outcomes its blocking receives would produce, in order. */
module Transport {

  /** One octet of frame payload. */
  newtype uint8 = x: int | 0 <= x < 0x100

  /** The payload of one received frame (the data and size of a `zmq_msg_t`). */
  type Bytes = seq<uint8>

  /** The reply to `zmq_getsockopt(ZMQ_RCVMORE)`, asked right after a frame arrives. */
  datatype MoreReply = MoreQueryFailed | More(flag: bool)

  /** One blocking `zmq_msg_recv`: interrupted by a signal (`EINTR`), failed with any
      other error, or a frame together with the reply of the RCVMORE query that
      follows it. */
  datatype Attempt =
    | Interrupted
    | Failed
    | Frame(bytes: Bytes, more: MoreReply)

  /** The attempts after which the receive loop goes on receiving: a retried
      interruption, or a frame that says more frames follow. */
  predicate Continues(a: Attempt) {
    a.Interrupted? || (a.Frame? && a.more == More(true))
  }

  /** The script with its interruptions removed: what a transport that is never
      interrupted would produce. */
  function Strip(s: seq<Attempt>): (r: seq<Attempt>)
    ensures |r| <= |s|
    ensures (forall k :: 0 <= k < |s| ==> !s[k].Interrupted?) ==> r == s
  {
    if s == [] then []
    else (if s[0].Interrupted? then [] else [s[0]]) + Strip(s[1..])
  }

  /** `Strip` keeps exactly the attempts that are not interruptions. */
  lemma {:induction false} StripKeeps(s: seq<Attempt>)
    ensures forall a :: a in Strip(s) <==> a in s && !a.Interrupted?
  {
    if s != [] {
      StripKeeps(s[1..]);
      assert s == [s[0]] + s[1..];
    }
  }

  lemma {:induction false} StripAppend(a: seq<Attempt>, b: seq<Attempt>)
    ensures Strip(a + b) == Strip(a) + Strip(b)
  {
    if a == [] {
      assert a + b == b;
    } else {
      assert (a + b)[0] == a[0];
      assert (a + b)[1..] == a[1..] + b;
      StripAppend(a[1..], b);
    }
  }

  /** The payloads of the frames received in `p`, in the order they arrived. */
  function FramesOf(p: seq<Attempt>): (r: seq<Bytes>)
    ensures |r| <= |p|
  {
    if p == [] then []
    else (if p[0].Frame? then [p[0].bytes] else []) + FramesOf(p[1..])
  }

  /** When every attempt is a frame, payload `k` is the `k`-th frame's: a frame is
      stored at the index that counts the frames received before it. */
  lemma {:induction false} FramesOfFrames(p: seq<Attempt>)
    requires forall k :: 0 <= k < |p| ==> p[k].Frame?
    ensures |FramesOf(p)| == |p|
    ensures forall k :: 0 <= k < |p| ==> FramesOf(p)[k] == p[k].bytes
  {
    if p != [] {
      FramesOfFrames(p[1..]);
    }
  }

  /** The frames of two stretches of script, one after the other. */
  lemma {:induction false} FramesAppend(a: seq<Attempt>, b: seq<Attempt>)
    ensures FramesOf(a + b) == FramesOf(a) + FramesOf(b)
  {
    if a == [] {
      assert a + b == b;
    } else {
      assert (a + b)[0] == a[0];
      assert (a + b)[1..] == a[1..] + b;
      FramesAppend(a[1..], b);
    }
  }

  /** Interruptions contribute no frame. */
  lemma {:induction false} FramesIgnoreInterruptions(p: seq<Attempt>)
    ensures FramesOf(Strip(p)) == FramesOf(p)
  {
    if p != [] {
      FramesIgnoreInterruptions(p[1..]);
      if p[0].Interrupted? {
        assert Strip(p) == Strip(p[1..]);
      } else {
        assert Strip(p) == [p[0]] + Strip(p[1..]);
        assert Strip(p)[1..] == Strip(p[1..]);
      }
    }
  }
}
