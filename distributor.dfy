/**
 * The frame sequencing and reordering core of distributor.py: captured frames
 * are stamped with increasing indices and queued for workers, each index is
 * handed out at most once, processed frames come back in any order into a
 * reordering buffer, and a display cursor trails the newest processed frame.
 * Each socket-loop iteration is one atomic method call.
 */
module Distribution {
  import opened Wrappers
  import opened FrameBuffer

  type Bytes = seq<bv8>

  /** `queue.Queue(maxsize=10)`. */
  const QueueCapacity := 10

  /** A captured frame waiting in `frame_queue`. */
  datatype QueuedFrame = QueuedFrame(frame: Bytes, index: nat, timestamp: real, prompt: Option<string>)

  /** `current_frame_data`: the frame READY requests are answered with. */
  datatype CurrentFrame = CurrentFrame(frame: Bytes, index: nat, prompt: Option<string>)

  /** The multipart reply to READY: frame index, prompt, frame bytes. */
  datatype FrameReply = FrameReply(index: nat, prompt: string, frame: Bytes)

  /** A processed frame as `received_frames` stores it. */
  datatype ProcessedFrame = ProcessedFrame(frameData: Bytes, processId: string, startTime: real, endTime: real)

  /** The dictionary `get_frame_stats` returns. */
  datatype FrameStats = FrameStats(
    bufferSize: nat,
    currentDisplayFrame: int,
    latestReceivedFrame: int,
    frameDelay: int,
    totalFramesProcessed: nat)

  function Max(a: int, b: int): (m: int)
    ensures m == a || m == b
    ensures a <= m && b <= m
  {
    if a < b then b else a
  }

  /**
   * The queue after `put_nowait`, or, when it is full, after `get_nowait`
   * evicts the oldest entry and the retried `put_nowait` succeeds. It never
   * exceeds the capacity and always ends with the new frame.
   */
  function Enqueued(q: seq<QueuedFrame>, x: QueuedFrame): (r: seq<QueuedFrame>)
    ensures 1 <= |r| <= |q| + 1
    ensures r[|r| - 1] == x
    ensures |q| <= QueueCapacity ==> |r| == if |q| + 1 <= QueueCapacity then |q| + 1 else QueueCapacity
  {
    if |q| < QueueCapacity then q + [x] else q[1..] + [x]
  }

  /**
   * What the queue keeps: the newest entries of `q + [x]`, in order; only the
   * oldest entry can be evicted.
   */
  lemma EnqueuedKeepsNewest(q: seq<QueuedFrame>, x: QueuedFrame)
    ensures Enqueued(q, x) == (q + [x])[|q| + 1 - |Enqueued(q, x)|..]
    ensures |Enqueued(q, x)| == |q| ==> Enqueued(q, x) == q[1..] + [x]
  {
  }

  /** Queued indices strictly increase from head to tail. */
  ghost predicate Ordered(q: seq<QueuedFrame>)
  {
    forall i, j :: 0 <= i < j < |q| ==> q[i].index < q[j].index
  }

  /** Every queued index lies strictly between `low` and `high`. */
  ghost predicate Between(q: seq<QueuedFrame>, low: int, high: int)
  {
    forall i :: 0 <= i < |q| ==> low < q[i].index < high
  }

  /** Dropping the head keeps the rest ordered and within the same bounds. */
  lemma TailKeepsOrder(q: seq<QueuedFrame>, low: int, high: int)
    requires q != [] && Ordered(q) && Between(q, low, high)
    ensures Ordered(q[1..]) && Between(q[1..], low, high)
  {
    forall i | 0 <= i < |q| - 1 ensures q[1..][i] == q[i + 1] { }
  }

  /** Appending a frame newer than every entry keeps the queue ordered. */
  lemma AppendKeepsOrder(p: seq<QueuedFrame>, x: QueuedFrame, low: int)
    requires Ordered(p) && Between(p, low, x.index) && low < x.index
    ensures Ordered(p + [x]) && Between(p + [x], low, x.index + 1)
  {
    var r := p + [x];
    forall i | 0 <= i < |p| ensures r[i] == p[i] { }
  }

  /**
   * Enqueuing a frame newer than everything queued keeps the queue ordered,
   * and its indices stay above any bound they were above.
   */
  lemma EnqueuedKeepsOrder(q: seq<QueuedFrame>, x: QueuedFrame, low: int)
    requires Ordered(q) && Between(q, low, x.index) && low < x.index
    ensures Ordered(Enqueued(q, x)) && Between(Enqueued(q, x), low, x.index + 1)
  {
    if |q| < QueueCapacity {
      AppendKeepsOrder(q, x, low);
    } else {
      TailKeepsOrder(q, low, x.index);
      AppendKeepsOrder(q[1..], x, low);
    }
  }

  /** Each element is larger than the one before it. */
  ghost predicate Increasing(s: seq<int>)
  {
    forall i :: 0 < i < |s| ==> s[i - 1] < s[i]
  }

  /** An increasing sequence is strictly sorted, so it holds no value twice. */
  lemma {:induction false} IncreasingIsStrictlySorted(s: seq<int>)
    requires Increasing(s)
    ensures forall i, j :: 0 <= i < j < |s| ==> s[i] < s[j]
    decreases |s|
  {
    if |s| > 1 {
      var p := s[..|s| - 1];
      assert Increasing(p) by {
        forall i | 0 < i < |p| ensures p[i - 1] < p[i] {
          assert p[i - 1] == s[i - 1] && p[i] == s[i];
        }
      }
      IncreasingIsStrictlySorted(p);
      forall i, j | 0 <= i < j < |s| ensures s[i] < s[j] {
        assert s[i] == p[i];
        if j < |s| - 1 {
          assert s[j] == p[j];
        } else if i < j - 1 {
          assert s[j - 1] == p[j - 1];
        }
      }
    }
  }

  /**
   * `update_display_frame`: `Some(c)` when it moves the cursor to `c` and
   * returns True, `None` when it returns False. The display never trails the
   * newest processed frame by more than the delay, the cursor never goes
   * negative, and with a non-negative delay a cursor not ahead of
   * `max(latest, 0)` stays so.
   */
  function DisplayTarget(latest: int, cursor: int, delay: int): (r: Option<int>)
    ensures r.None? ==> latest < delay
    ensures r.Some? ==> r.value == latest - delay || r.value == latest
    ensures var next := if r.Some? then r.value else cursor;
      0 <= cursor ==> 0 <= next && latest - next <= Max(delay, 0)
    ensures var next := if r.Some? then r.value else cursor;
      0 <= delay && cursor <= Max(latest, 0) ==> next <= Max(latest, 0)
  {
    if latest >= delay then Some(latest - delay)
    else if latest > 0 && cursor < latest then Some(latest)
    else None
  }

  /** The cursor is not monotonic: it jumps back once `latest` reaches the delay. */
  lemma CursorCanMoveBack()
    ensures DisplayTarget(4, 0, 5) == Some(4)
    ensures DisplayTarget(5, 4, 5) == Some(0)
  {
  }

  /** Queued indices are issued, in order, and newer than the current frame. */
  ghost predicate QueueValid(queue: seq<QueuedFrame>, counter: nat, current: Option<CurrentFrame>)
  {
    && |queue| <= QueueCapacity
    && Ordered(queue)
    && Between(queue, if current.Some? then current.value.index else -1, counter)
    && (current.Some? ==> current.value.index < counter)
  }

  /** The handed-out indices increase and end at the last one sent. */
  ghost predicate SendValid(sent: seq<int>, lastSent: int, current: Option<CurrentFrame>)
  {
    && Increasing(sent)
    && (sent == [] ==> lastSent == -1)
    && (sent != [] ==> lastSent == sent[|sent| - 1])
    && (current.None? ==> lastSent == -1)
    && (current.Some? ==> lastSent <= current.value.index)
  }

  /**
   * The reordering buffer is bounded and holds nothing newer than `latest`,
   * which never passes the counter; the cursor is never negative and, with a
   * non-negative delay, not ahead of the newest frame.
   */
  ghost predicate BufferValid(frames: map<int, ProcessedFrame>, latest: int, counter: nat, cursor: int, delay: int)
  {
    && |frames| <= FrameBufferSize
    && (forall k :: k in frames ==> k <= latest)
    && -1 <= latest <= counter
    && 0 <= cursor
    && (0 <= delay ==> cursor <= Max(latest, 0))
  }

  /**
   * Storing an index no larger than the counter, raising `latest` to it and
   * cleaning up keeps the buffer invariant.
   */
  lemma ReceiveKeepsBufferValid(frames: map<int, ProcessedFrame>, latest: int, counter: nat, cursor: int, delay: int,
                                index: int, frame: ProcessedFrame)
    requires BufferValid(frames, latest, counter, cursor, delay) && index <= counter
    ensures BufferValid(Cleaned(frames[index := frame], cursor), Max(latest, index), counter, cursor, delay)
  {
    CleanedBounded(frames[index := frame], cursor, Max(latest, index));
  }

  class Distributor {
    /** `frame_queue`: captured frames waiting to become the current frame. */
    var frameQueue: seq<QueuedFrame>
    /** `frame_index_counter`: the index the next captured frame gets. */
    var frameIndexCounter: nat
    /** `current_frame_data`; `None` until the first frame is dequeued. */
    var currentFrame: Option<CurrentFrame>
    /** `last_frame_sent`: the index of the last frame handed to a worker. */
    var lastFrameSent: int
    /** `received_frames`: processed frames by index. */
    var receivedFrames: map<int, ProcessedFrame>
    /** `current_display_frame`: the display cursor. */
    var currentDisplayFrame: int
    /** `latest_received_frame`: the largest index ever accepted. */
    var latestReceivedFrame: int
    /** `frame_delay`: how many frames the display trails the newest one. */
    const frameDelay: int
    /** Every index handed out, in order. */
    ghost var sent: seq<int>

    ghost predicate Valid()
      reads this
    {
      && QueueValid(frameQueue, frameIndexCounter, currentFrame)
      && SendValid(sent, lastFrameSent, currentFrame)
      && BufferValid(receivedFrames, latestReceivedFrame, frameIndexCounter, currentDisplayFrame, frameDelay)
    }

    constructor (frameDelay: int)
      ensures Valid()
      ensures frameQueue == [] && frameIndexCounter == 0 && currentFrame == None
      ensures lastFrameSent == -1 && sent == []
      ensures receivedFrames == map[] && currentDisplayFrame == 0 && latestReceivedFrame == -1
      ensures this.frameDelay == frameDelay
    {
      frameQueue := [];
      frameIndexCounter := 0;
      currentFrame := None;
      lastFrameSent := -1;
      receivedFrames := map[];
      currentDisplayFrame := 0;
      latestReceivedFrame := -1;
      this.frameDelay := frameDelay;
      sent := [];
    }

    /**
     * `add_frame_for_distribution`: the frame gets the counter's old value,
     * the counter goes up by one, and the frame joins the tail of the queue,
     * evicting the oldest entry when the queue is full.
     */
    method AddFrameForDistribution(frame: Bytes, timestamp: real, prompt: Option<string>) returns (index: nat)
      requires Valid()
      modifies this`frameQueue, this`frameIndexCounter
      ensures Valid()
      ensures index == old(frameIndexCounter) && frameIndexCounter == old(frameIndexCounter) + 1
      ensures frameQueue == Enqueued(old(frameQueue), QueuedFrame(frame, index, timestamp, prompt))
      ensures |frameQueue| <= QueueCapacity && frameQueue[|frameQueue| - 1].index == index
    {
      index := frameIndexCounter;
      frameIndexCounter := frameIndexCounter + 1;
      var frameData := QueuedFrame(frame, index, timestamp, prompt);
      var queue := frameQueue;
      EnqueuedKeepsOrder(queue, frameData, if currentFrame.Some? then currentFrame.value.index else -1);
      if |queue| < QueueCapacity {
        queue := queue + [frameData];
      } else {
        queue := queue[1..];
        queue := queue + [frameData];
      }
      assert queue == Enqueued(frameQueue, frameData);
      frameQueue := queue;
    }

    /**
     * The start of a `handle_distribute_requests` iteration: the oldest
     * queued frame, if any, becomes the current frame. The current index only
     * grows.
     */
    method DequeueToCurrent()
      requires Valid()
      modifies this`frameQueue, this`currentFrame
      ensures Valid()
      ensures old(frameQueue) == [] ==> frameQueue == [] && currentFrame == old(currentFrame)
      ensures old(frameQueue) != [] ==>
        && frameQueue == old(frameQueue)[1..]
        && currentFrame == Some(CurrentFrame(old(frameQueue)[0].frame, old(frameQueue)[0].index, old(frameQueue)[0].prompt))
        && (old(currentFrame).Some? ==> old(currentFrame).value.index < currentFrame.value.index)
    {
      if frameQueue != [] {
        var frameData := frameQueue[0];
        frameQueue := frameQueue[1..];
        currentFrame := Some(CurrentFrame(frameData.frame, frameData.index, frameData.prompt));
      }
    }

    /**
     * The READY branch: the current frame is sent only when its index is
     * above `lastFrameSent`, its prompt is a string (sending `None` raises and
     * the loop swallows the error) and the socket takes the last part
     * (`sendAccepted`; otherwise `zmq.Again`). A sent index becomes
     * `lastFrameSent`, so no index is ever sent twice.
     */
    method HandleReady(sendAccepted: bool) returns (reply: Option<FrameReply>)
      requires Valid()
      modifies this`lastFrameSent, this`sent
      ensures Valid()
      ensures reply.Some? <==>
        && currentFrame.Some?
        && currentFrame.value.index > old(lastFrameSent)
        && currentFrame.value.prompt.Some?
        && sendAccepted
      ensures reply.Some? ==>
        && reply.value == FrameReply(currentFrame.value.index, currentFrame.value.prompt.value, currentFrame.value.frame)
        && lastFrameSent == reply.value.index
        && sent == old(sent) + [reply.value.index]
        && reply.value.index !in old(sent)
      ensures reply.None? ==> lastFrameSent == old(lastFrameSent) && sent == old(sent)
    {
      reply := None;
      if currentFrame.Some? {
        var current := currentFrame.value;
        if current.index > lastFrameSent && current.prompt.Some? && sendAccepted {
          reply := Some(FrameReply(current.index, current.prompt.value, current.frame));
          IncreasingIsStrictlySorted(sent);
          lastFrameSent := current.index;
          sent := sent + [current.index];
        }
      }
    }

    /**
     * One iteration of `handle_distribute_requests`: dequeue, then answer
     * `message` (`None` when the poll timed out) if it is READY.
     */
    method DistributeStep(message: Option<string>, sendAccepted: bool) returns (reply: Option<FrameReply>)
      requires Valid()
      modifies this`frameQueue, this`currentFrame, this`lastFrameSent, this`sent
      ensures Valid()
      ensures old(frameQueue) != [] ==>
        && frameQueue == old(frameQueue)[1..]
        && currentFrame == Some(CurrentFrame(old(frameQueue)[0].frame, old(frameQueue)[0].index, old(frameQueue)[0].prompt))
      ensures old(frameQueue) == [] ==> frameQueue == [] && currentFrame == old(currentFrame)
      ensures reply.Some? <==>
        && message == Some("READY")
        && currentFrame.Some?
        && currentFrame.value.index > old(lastFrameSent)
        && currentFrame.value.prompt.Some?
        && sendAccepted
      ensures reply.Some? ==>
        && currentFrame.Some?
        && reply.value == FrameReply(currentFrame.value.index, currentFrame.value.prompt.value, currentFrame.value.frame)
        && old(lastFrameSent) < reply.value.index == lastFrameSent
        && sent == old(sent) + [reply.value.index]
      ensures reply.None? ==> lastFrameSent == old(lastFrameSent) && sent == old(sent)
    {
      DequeueToCurrent();
      if message == Some("READY") {
        reply := HandleReady(sendAccepted);
      } else {
        reply := None;
      }
    }

    /**
     * The per-message body of `check_inverter_output`: an index above
     * `frameIndexCounter` is dropped and nothing changes; otherwise the frame
     * is stored under its index, `latestReceivedFrame` becomes the larger of
     * itself and the index, and the buffer is cleaned.
     */
    method ReceiveProcessed(index: int, frame: ProcessedFrame) returns (accepted: bool)
      requires Valid()
      modifies this`receivedFrames, this`latestReceivedFrame
      ensures Valid()
      ensures accepted <==> index <= frameIndexCounter
      ensures !accepted ==> receivedFrames == old(receivedFrames) && latestReceivedFrame == old(latestReceivedFrame)
      ensures accepted ==>
        && latestReceivedFrame == Max(old(latestReceivedFrame), index)
        && receivedFrames == Cleaned(old(receivedFrames)[index := frame], currentDisplayFrame)
    {
      if index > frameIndexCounter {
        return false;
      }
      ReceiveKeepsBufferValid(receivedFrames, latestReceivedFrame, frameIndexCounter, currentDisplayFrame, frameDelay, index, frame);
      receivedFrames := receivedFrames[index := frame];
      latestReceivedFrame := Max(latestReceivedFrame, index);
      CleanupOldFrames();
      return true;
    }

    /** The first loop of `cleanup_old_frames`: the keys behind the display cursor. */
    method StaleKeys() returns (stale: set<int>)
      ensures stale == set k | k in receivedFrames && k < currentDisplayFrame
    {
      stale := {};
      var unseen := receivedFrames.Keys;
      while unseen != {}
        invariant unseen <= receivedFrames.Keys
        invariant stale == set k | k in receivedFrames && k !in unseen && k < currentDisplayFrame
        decreases unseen
      {
        // The witness makes the choice below provably possible.
        ghost var picked := ElementOf(unseen);
        var k :| k in unseen;
        if k < currentDisplayFrame {
          stale := stale + {k};
        }
        unseen := unseen - {k};
      }
    }

    /** A `del` loop of `cleanup_old_frames`: every given key leaves the buffer, nothing else changes. */
    method DeleteKeys(keys: set<int>)
      requires keys <= receivedFrames.Keys
      modifies this`receivedFrames
      ensures receivedFrames == old(receivedFrames) - keys
    {
      var toDelete := keys;
      while toDelete != {}
        invariant toDelete <= keys && toDelete <= receivedFrames.Keys
        invariant receivedFrames == old(receivedFrames) - (keys - toDelete)
        decreases toDelete
      {
        // The witness makes the choice below provably possible.
        ghost var picked := ElementOf(toDelete);
        var k :| k in toDelete;
        receivedFrames := receivedFrames - {k};
        toDelete := toDelete - {k};
        assert receivedFrames.Keys == (old(receivedFrames) - (keys - toDelete)).Keys;
      }
    }

    /**
     * `sorted(received_frames.keys())[:n]`: the `n` smallest keys, taken in
     * ascending order.
     */
    method OldestKeys(n: nat) returns (oldest: set<int>)
      ensures oldest == SmallestKeys(receivedFrames.Keys, n)
    {
      oldest := {};
      var rest := receivedFrames.Keys;
      var taken: nat := 0;
      while taken < n && rest != {}
        invariant taken <= n
        invariant oldest + SmallestKeys(rest, n - taken) == SmallestKeys(receivedFrames.Keys, n)
        invariant oldest !! SmallestKeys(rest, n - taken)
        decreases n - taken
      {
        LeastExists(rest);
        var least :| IsLeast(rest, least);
        SmallestKeysStep(rest, n - taken, least);
        SmallestKeysSubset(rest - {least}, n - taken - 1);
        oldest := oldest + {least};
        rest := rest - {least};
        taken := taken + 1;
      }
    }

    /**
     * `cleanup_old_frames`: collect and delete the keys behind the cursor,
     * then, when the buffer holds more than `FrameBufferSize` entries, delete
     * its smallest keys down to that size.
     */
    method CleanupOldFrames()
      modifies this`receivedFrames
      ensures receivedFrames == Cleaned(old(receivedFrames), currentDisplayFrame)
    {
      var stale := StaleKeys();
      DeleteKeys(stale);
      DeleteStale(old(receivedFrames), currentDisplayFrame, stale);
      if |receivedFrames| > FrameBufferSize {
        var oldest := OldestKeys(|receivedFrames| - FrameBufferSize);
        SmallestKeysSubset(receivedFrames.Keys, |receivedFrames| - FrameBufferSize);
        DeleteKeys(oldest);
      }
    }

    /**
     * `get_frame_to_display`: the frame under the cursor when present,
     * otherwise the one at the nearest key (the smaller key on a tie), and
     * `None` exactly when the buffer is empty. Changes nothing.
     */
    method GetFrameToDisplay() returns (r: Option<Bytes>)
      ensures r.None? <==> receivedFrames.Keys == {}
      ensures currentDisplayFrame in receivedFrames ==> r == Some(receivedFrames[currentDisplayFrame].frameData)
      ensures r.Some? ==>
        exists k :: IsNearest(receivedFrames.Keys, currentDisplayFrame, k) && r.value == receivedFrames[k].frameData
    {
      var target := currentDisplayFrame;
      if target in receivedFrames {
        assert IsNearest(receivedFrames.Keys, target, target);
        return Some(receivedFrames[target].frameData);
      }
      if receivedFrames.Keys != {} {
        var closest := NearestKey(receivedFrames.Keys, target);
        return Some(receivedFrames[closest].frameData);
      }
      return None;
    }

    /**
     * `update_display_frame`: with at least `frameDelay` frames the cursor
     * goes to `latestReceivedFrame - frameDelay` (both inner branches of the
     * source do this); with fewer, it catches up to a positive
     * `latestReceivedFrame` it trails; otherwise nothing changes and the
     * result is false.
     */
    method UpdateDisplayFrame() returns (changed: bool)
      requires Valid()
      modifies this`currentDisplayFrame
      ensures Valid()
      ensures changed == DisplayTarget(latestReceivedFrame, old(currentDisplayFrame), frameDelay).Some?
      ensures changed ==> currentDisplayFrame == DisplayTarget(latestReceivedFrame, old(currentDisplayFrame), frameDelay).value
      ensures !changed ==> currentDisplayFrame == old(currentDisplayFrame)
      ensures latestReceivedFrame >= frameDelay ==> changed && currentDisplayFrame == latestReceivedFrame - frameDelay
      ensures latestReceivedFrame < frameDelay ==>
        (changed <==> 0 < latestReceivedFrame && old(currentDisplayFrame) < latestReceivedFrame)
      ensures latestReceivedFrame - currentDisplayFrame <= Max(frameDelay, 0)
    {
      ghost var decision := DisplayTarget(latestReceivedFrame, currentDisplayFrame, frameDelay);
      if latestReceivedFrame >= frameDelay {
        var target := latestReceivedFrame - frameDelay;
        if target in receivedFrames || target > currentDisplayFrame {
          currentDisplayFrame := target;
          return true;
        } else {
          currentDisplayFrame := target;
          return true;
        }
      } else if latestReceivedFrame > 0 {
        if currentDisplayFrame < latestReceivedFrame {
          currentDisplayFrame := latestReceivedFrame;
          return true;
        }
      }
      return false;
    }

    /**
     * `get_frame_stats`. `totalFramesProcessed` is the capture counter, so it
     * bounds every accepted index.
     */
    function GetFrameStats(): (s: FrameStats)
      reads this
      requires Valid()
      ensures s.bufferSize == |receivedFrames| <= FrameBufferSize
      ensures s.latestReceivedFrame <= s.totalFramesProcessed == frameIndexCounter
      ensures 0 <= s.currentDisplayFrame == currentDisplayFrame
      ensures s.latestReceivedFrame == latestReceivedFrame && s.frameDelay == frameDelay
    {
      FrameStats(|receivedFrames|, currentDisplayFrame, latestReceivedFrame, frameDelay, frameIndexCounter)
    }
  }

  /**
   * Two READY requests with no dequeue between them, from any valid state:
   * at most one is answered, and a frame handed out by the first is never
   * handed out again.
   */
  method ReadyTwiceAnswersOnce(d: Distributor, firstAccepted: bool, secondAccepted: bool)
    returns (first: Option<FrameReply>, second: Option<FrameReply>)
    requires d.Valid()
    modifies d
    ensures d.Valid()
    ensures first.None? || second.None?
    ensures first.Some? ==> second.None? && d.lastFrameSent == first.value.index
  {
    first := d.HandleReady(firstAccepted);
    second := d.HandleReady(secondAccepted);
  }

  /**
   * A freshly dequeued frame is always newer than the last one sent, so a
   * READY for it is answered whenever it has a prompt and the socket accepts.
   */
  method DequeuedFrameIsAnswered(d: Distributor) returns (reply: Option<FrameReply>)
    requires d.Valid() && d.frameQueue != [] && d.frameQueue[0].prompt.Some?
    modifies d
    ensures d.Valid()
    ensures var head := old(d.frameQueue[0]);
      reply == Some(FrameReply(head.index, head.prompt.value, head.frame))
  {
    reply := d.DistributeStep(Some("READY"), true);
  }

  /** A client: two READY requests while one frame is current; only the first is answered. */
  method ReadyTwiceSendsOnce(frame: Bytes, prompt: string) returns (first: Option<FrameReply>, second: Option<FrameReply>)
    ensures first == Some(FrameReply(0, prompt, frame))
    ensures second == None
  {
    var d := new Distributor(5);
    var index := d.AddFrameForDistribution(frame, 0.0, Some(prompt));
    d.DequeueToCurrent();
    first := d.HandleReady(true);
    second := d.HandleReady(true);
  }
}
